/** How the tool derives the names of the files it writes from the name of
    the file the user picked: `makeNameImg` for the watermarked output and
    `makeNameEditImg` for the edited intermediate. Both split the name on
    `.` and keep only the first two pieces. */
module Naming {
  import opened JsString

  const Dot := '.'

  /** Inserted between base name and extension of the watermarked output. */
  const WatermarkTag := "-with-watermark."

  /** Inserted between base name and extension of the edited intermediate. */
  const EditTag := "-edit."

  /** What JavaScript's `+` makes of `parts[1]` when the name has no dot and
      `parts[1]` is therefore `undefined`. */
  const Undefined := "undefined"

  /** `parts[i]` as string concatenation sees it. */
  function Piece(parts: seq<string>, i: nat): string
  {
    if i < |parts| then parts[i] else Undefined
  }

  /** The text before the first dot (all of `name` when it has none). */
  function BaseName(name: string): string
  {
    Split(name, Dot)[0]
  }

  /** The text between the first and the second dot (or the end), or
      "undefined" when `name` has no dot. */
  function Extension(name: string): string
  {
    Piece(Split(name, Dot), 1)
  }

  /** `makeNameImg`: the name of the watermarked output. */
  function MakeNameImg(name: string): string
  {
    var parts := Split(name, Dot);
    parts[0] + WatermarkTag + Piece(parts, 1)
  }

  /** `makeNameEditImg`: the name of the edited intermediate. */
  function MakeNameEditImg(name: string): string
  {
    var parts := Split(name, Dot);
    parts[0] + EditTag + Piece(parts, 1)
  }

  /** Both derived names put a tag between the dot-free base name and the
      dot-free extension of the input. */
  lemma DerivedNameParts(name: string)
    ensures Dot !in BaseName(name) && Dot !in Extension(name)
    ensures MakeNameImg(name) == BaseName(name) + WatermarkTag + Extension(name)
    ensures MakeNameEditImg(name) == BaseName(name) + EditTag + Extension(name)
  {
    assert Dot !in Undefined;
  }

  /** Where base name and extension stand in the name: without a dot the
      base is the whole name and the extension "undefined"; otherwise the
      base runs up to the first dot and the extension follows it, up to the
      second dot or the end. */
  lemma {:induction false} BaseAndExtensionInName(name: string)
    ensures Dot !in name ==> BaseName(name) == name && Extension(name) == Undefined
    ensures Dot in name ==>
      |BaseName(name)| < |name| && name == BaseName(name) + [Dot] + name[|BaseName(name)| + 1..]
    ensures Dot in name ==>
      var rest := name[|BaseName(name)| + 1..];
      var ext := Extension(name);
      ext <= rest && (|ext| == |rest| || rest[|ext|] == Dot)
  {
    var parts := Split(name, Dot);
    if Dot !in name {
      SplitWithoutSeparator(name, Dot);
    } else if |parts| > 1 {
      var rest := Join(parts[1..], Dot);
      assert name == parts[0] + [Dot] + rest;
      assert name[|parts[0]| + 1..] == rest;
      assert parts[1..][0] == parts[1];
      if |parts| > 2 {
        assert rest == parts[1] + [Dot] + Join(parts[2..], Dot);
      }
    }
  }

  /** The base name is empty exactly when the name is empty or starts with
      a dot. */
  lemma BaseNameEmpty(name: string)
    ensures BaseName(name) == [] <==> name == [] || name[0] == Dot
  {
    var parts := Split(name, Dot);
    if |parts| > 1 {
      assert name == parts[0] + [Dot] + Join(parts[1..], Dot);
    }
    if name != [] && parts[0] != [] {
      assert name[0] == parts[0][0];
    }
  }

  /** A name with exactly one dot keeps its base and extension around the
      inserted tag. */
  lemma {:induction false} SingleDotNames(base: string, ext: string)
    requires Dot !in base && Dot !in ext
    ensures BaseName(base + [Dot] + ext) == base
    ensures Extension(base + [Dot] + ext) == ext
    ensures MakeNameImg(base + [Dot] + ext) == base + "-with-watermark." + ext
    ensures MakeNameEditImg(base + [Dot] + ext) == base + "-edit." + ext
  {
    SplitJoin([base, ext], Dot);
    assert Join([base, ext], Dot) == base + [Dot] + ext;
  }

  /** With two or more dots, everything from the second dot on is dropped. */
  lemma {:induction false} LaterSegmentsDropped(base: string, ext: string, rest: string)
    requires Dot !in base && Dot !in ext
    ensures BaseName(base + [Dot] + ext + [Dot] + rest) == base
    ensures Extension(base + [Dot] + ext + [Dot] + rest) == ext
    ensures MakeNameImg(base + [Dot] + ext + [Dot] + rest) == base + WatermarkTag + ext
    ensures MakeNameEditImg(base + [Dot] + ext + [Dot] + rest) == base + EditTag + ext
  {
    var name := base + [Dot] + ext + [Dot] + rest;
    assert name == base + [Dot] + (ext + [Dot] + rest);
    SplitAfterFirst(base, Dot, ext + [Dot] + rest);
    SplitAfterFirst(ext, Dot, rest);
    assert Split(name, Dot) == [base, ext] + Split(rest, Dot);
  }

  /** A name without a dot gets the literal extension "undefined". */
  lemma NoDotNames(name: string)
    requires Dot !in name
    ensures MakeNameImg(name) == name + "-with-watermark.undefined"
    ensures MakeNameEditImg(name) == name + "-edit.undefined"
  {
    SplitWithoutSeparator(name, Dot);
  }

  /** A derived name splits again into exactly two dot-free pieces: the
      input's base name with the tag's stem appended, and the input's
      extension. */
  lemma {:induction false} DerivedNamesResplit(name: string)
    ensures Split(MakeNameImg(name), Dot) == [BaseName(name) + "-with-watermark", Extension(name)]
    ensures Split(MakeNameEditImg(name), Dot) == [BaseName(name) + "-edit", Extension(name)]
  {
    DerivedNameParts(name);
    var b, e := BaseName(name), Extension(name);
    assert WatermarkTag == "-with-watermark" + [Dot];
    assert EditTag == "-edit" + [Dot];
    assert Dot !in "-with-watermark" && Dot !in "-edit";
    assert MakeNameImg(name) == (b + "-with-watermark") + [Dot] + e;
    assert MakeNameEditImg(name) == (b + "-edit") + [Dot] + e;
    SplitAfterFirst(b + "-with-watermark", Dot, e);
    SplitAfterFirst(b + "-edit", Dot, e);
    SplitWithoutSeparator(e, Dot);
  }
}
