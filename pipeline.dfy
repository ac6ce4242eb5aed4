/** How the file names flow through one run: the edit stage writes
    "./img/" + the edited name, cuts the folder prefix off again with
    `slice(6)` and hands the bare name to the watermark stage, which writes
    "./img/" + the watermarked name of whatever name it was given. */
module Pipeline {
  import opened JsString
  import opened Naming
  import opened Cleanup

  /** The folder prefix every path is built with. */
  const ImgDir := "./img/"

  /** How many characters `slice(6)` cuts off. */
  const PrefixLength: nat := 6

  /** The path the edit stage writes its result to. */
  function EditOutputPath(input: string): string
  {
    ImgDir + MakeNameEditImg(input)
  }

  /** The name the edit stage passes on: its output path minus the first
      six characters. */
  function RecoveredName(outputPath: string): string
  {
    Slice(outputPath, PrefixLength)
  }

  /** The path the watermark stage writes, given the name it received. */
  function WatermarkOutputPath(input: string): string
  {
    ImgDir + MakeNameImg(input)
  }

  /** The name of the final output of a run on `input`, with or without an
      edit stage in front of the watermark stage. */
  function FinalName(input: string, edited: bool): string
  {
    MakeNameImg(if edited then RecoveredName(EditOutputPath(input)) else input)
  }

  /** Cutting six characters off the edit stage's output path gives back
      exactly the edited name, because the prefix is six characters long. */
  lemma RecoveredIsEditedName(input: string)
    ensures |ImgDir| == PrefixLength
    ensures RecoveredName(EditOutputPath(input)) == MakeNameEditImg(input)
    ensures WatermarkOutputPath(RecoveredName(EditOutputPath(input))) == ImgDir + MakeNameImg(MakeNameEditImg(input))
  {
    SliceAfterPrefix(ImgDir, MakeNameEditImg(input));
  }

  /** After an edit, the output carries both tags: "-edit" stays in the base
      name and "-with-watermark." goes before the original extension. */
  lemma FinalNameAfterEdit(input: string)
    ensures FinalName(input, true) == BaseName(input) + "-edit-with-watermark." + Extension(input)
    ensures FinalName(input, false) == BaseName(input) + "-with-watermark." + Extension(input)
  {
    RecoveredIsEditedName(input);
    WatermarkOfEditedName(input);
    DerivedNameParts(input);
  }

  /** The watermarked name of an edited name. */
  lemma WatermarkOfEditedName(input: string)
    ensures MakeNameImg(MakeNameEditImg(input)) == BaseName(input) + "-edit-with-watermark." + Extension(input)
  {
    var b, e := BaseName(input), Extension(input);
    var edited := MakeNameEditImg(input);
    DerivedNamesResplit(input);
    var parts := Split(edited, Dot);
    assert parts == [b + "-edit", e];
    assert MakeNameImg(edited) == parts[0] + WatermarkTag + Piece(parts, 1);
    assert "-edit" + WatermarkTag == "-edit-with-watermark.";
  }

  /** For `b.e` with one dot: `b-edit-with-watermark.e` after an edit,
      `b-with-watermark.e` without one. */
  lemma FinalNameSingleDot(base: string, ext: string)
    requires Dot !in base && Dot !in ext
    ensures FinalName(base + [Dot] + ext, true) == base + "-edit-with-watermark." + ext
    ensures FinalName(base + [Dot] + ext, false) == base + "-with-watermark." + ext
  {
    SingleDotNames(base, ext);
    FinalNameAfterEdit(base + [Dot] + ext);
  }

  /** Cleanup after a run keeps the run's output if it is in the folder, and
      removes the edited intermediate whenever the picked name neither is
      empty nor starts with a dot. */
  lemma CleanupAfterRun(listing: seq<string>, input: string, edited: bool)
    ensures FinalName(input, edited) in listing ==> FinalName(input, edited) in Survivors(listing)
    ensures |input| > 0 && input[0] != Dot ==> MakeNameEditImg(input) !in Survivors(listing)
  {
    WatermarkNameNotSwept(if edited then RecoveredName(EditOutputPath(input)) else input);
    SurvivorsMembership(listing, FinalName(input, edited));
    EditNameSwept(input);
    SurvivorsMembership(listing, MakeNameEditImg(input));
  }
}
