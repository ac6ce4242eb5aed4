/** `checkFolder`: after a watermark run the tool lists the image folder and
    deletes every entry whose first occurrence of "-edit." is at an index
    greater than 0, so that the edited intermediates do not pile up. */
module Cleanup {
  import opened JsString
  import opened Naming

  /** The substring `checkFolder` looks for. */
  const EditMarker := "-edit."

  /** The deletion test of `checkFolder`. */
  predicate Swept(item: string)
  {
    IndexOf(item, EditMarker) > 0
  }

  /** The listing with every swept entry taken out, order kept. */
  function Survivors(items: seq<string>): seq<string>
  {
    if items == [] then []
    else
      var last := items[|items| - 1];
      Survivors(items[..|items| - 1]) + (if Swept(last) then [] else [last])
  }

  /** `s` with every copy of `x` taken out, order kept. */
  function Without(s: seq<string>, x: string): (r: seq<string>)
    ensures x !in r
    ensures forall y :: y != x ==> (y in r <==> y in s)
  {
    if s == [] then []
    else
      var last := s[|s| - 1];
      Without(s[..|s| - 1], x) + (if last == x then [] else [last])
  }

  /** No name is listed twice. */
  ghost predicate Distinct(items: seq<string>)
  {
    forall i, j :: 0 <= i < j < |items| ==> items[i] != items[j]
  }

  /** An entry survives cleanup exactly when it was listed and is not swept:
      cleanup removes the swept entries and nothing else. */
  lemma {:induction false} SurvivorsMembership(items: seq<string>, x: string)
    ensures x in Survivors(items) <==> x in items && !Swept(x)
    decreases |items|
  {
    if items != [] {
      var init := items[..|items| - 1];
      SurvivorsMembership(init, x);
      assert items == init + [items[|items| - 1]];
    }
  }

  /** A listing with nothing to sweep survives whole. */
  lemma {:induction false} SurvivorsOfClean(items: seq<string>)
    requires forall i :: 0 <= i < |items| ==> !Swept(items[i])
    ensures Survivors(items) == items
    decreases |items|
  {
    if items != [] {
      SurvivorsOfClean(items[..|items| - 1]);
    }
  }

  /** Cleaning an already cleaned listing removes nothing. */
  lemma SurvivorsIdempotent(items: seq<string>)
    ensures Survivors(Survivors(items)) == Survivors(items)
  {
    var s := Survivors(items);
    forall i | 0 <= i < |s|
      ensures !Swept(s[i])
    {
      SurvivorsMembership(items, s[i]);
    }
    SurvivorsOfClean(s);
  }

  /** Cleanup keeps the listing free of repeated names. */
  lemma {:induction false} SurvivorsDistinct(items: seq<string>)
    requires Distinct(items)
    ensures Distinct(Survivors(items))
    decreases |items|
  {
    if items != [] {
      var init, last := items[..|items| - 1], items[|items| - 1];
      SurvivorsDistinct(init);
      SurvivorsMembership(init, last);
    }
  }

  /** Taking names out of two stretches one after the other is taking them
      out of their concatenation. */
  lemma {:induction false} WithoutConcat(a: seq<string>, b: seq<string>, x: string)
    ensures Without(a + b, x) == Without(a, x) + Without(b, x)
    decreases |b|
  {
    if b == [] {
      assert a + b == a;
    } else {
      var init := b[..|b| - 1];
      var last := b[|b| - 1];
      WithoutConcat(a, init, x);
      assert (a + b)[..|a + b| - 1] == a + init;
      assert (a + b)[|a + b| - 1] == last;
    }
  }

  /** Taking out a name that is not there changes nothing. */
  lemma {:induction false} WithoutAbsent(s: seq<string>, x: string)
    requires x !in s
    ensures Without(s, x) == s
    decreases |s|
  {
    if s != [] {
      WithoutAbsent(s[..|s| - 1], x);
    }
  }

  /** Deleting a name keeps a listing free of repeated names. */
  lemma {:induction false} WithoutDistinct(s: seq<string>, x: string)
    requires Distinct(s)
    ensures Distinct(Without(s, x))
    decreases |s|
  {
    if s != [] {
      var init, last := s[..|s| - 1], s[|s| - 1];
      WithoutDistinct(init, x);
      assert last !in init;
    }
  }

  /** In a listing without repeats, an entry occurs neither before nor
      after its own position. */
  lemma DistinctApart(items: seq<string>, i: nat)
    requires Distinct(items) && i < |items|
    ensures items[i] !in items[..i] && items[i] !in items[i + 1..]
  {
  }

  /** One step of the cleanup loop: once the first `i` entries are handled,
      handling entry `i` (deleting it when it is swept) extends the handled
      prefix by one. */
  lemma CleanupStep(items: seq<string>, i: nat)
    requires Distinct(items) && i < |items|
    ensures Swept(items[i]) ==>
      Without(Survivors(items[..i]) + items[i..], items[i]) == Survivors(items[..i + 1]) + items[i + 1..]
    ensures !Swept(items[i]) ==>
      Survivors(items[..i]) + items[i..] == Survivors(items[..i + 1]) + items[i + 1..]
  {
    var x, front, back := items[i], Survivors(items[..i]), items[i + 1..];
    assert items[..i + 1][..i] == items[..i];
    assert items[i..] == [x] + back;
    if Swept(x) {
      DistinctApart(items, i);
      SurvivorsMembership(items[..i], x);
      WithoutOnce(front, x, back);
    }
  }

  /** Taking out a name that stands once, between two stretches that do not
      hold it, just closes the gap. */
  lemma WithoutOnce(front: seq<string>, x: string, back: seq<string>)
    requires x !in front && x !in back
    ensures Without(front + ([x] + back), x) == front + back
  {
    WithoutConcat(front, [x] + back, x);
    WithoutConcat([x], back, x);
    WithoutAbsent(front, x);
    WithoutAbsent(back, x);
    assert [x][..0] == [];
    calc {
      Without(front + ([x] + back), x);
      Without(front, x) + Without([x] + back, x);
      front + (Without([x], x) + Without(back, x));
      front + ([] + back);
    }
    assert [] + back == back;
  }

  /** The image folder, as the list of names `fs.readdirSync` returns. */
  class ImgFolder {
    var entries: seq<string>

    /** A folder holds each name at most once. */
    ghost predicate Valid()
      reads this
    {
      Distinct(entries)
    }

    constructor (listing: seq<string>)
      requires Distinct(listing)
      ensures Valid() && entries == listing
    {
      entries := listing;
    }

    /** `fs.rmSync`: deletes the entry called `name`, which must exist. */
    method Remove(name: string)
      requires Valid() && name in entries
      modifies this
      ensures Valid()
      ensures entries == Without(old(entries), name)
    {
      WithoutDistinct(entries, name);
      entries := Without(entries, name);
    }

    /** `checkFolder`: walks a snapshot of the listing and deletes each swept
        entry; the folder is left holding exactly the survivors. */
    method CheckFolder()
      requires Valid()
      modifies this
      ensures Valid()
      ensures entries == Survivors(old(entries))
    {
      var items := entries;
      for i := 0 to |items|
        invariant Valid()
        invariant entries == Survivors(items[..i]) + items[i..]
      {
        var item := items[i];
        CleanupStep(items, i);
        if IndexOf(item, EditMarker) > 0 {
          Remove(item);
        }
      }
      assert items[..|items|] == items;
    }
  }

  /** "-edit." first occurs in `b + t + e` only where the single dot of the
      tag `t` closes it, when `b` and `e` are dot-free. */
  lemma MarkerAtTagEnd(b: string, t: string, e: string, j: int)
    requires Dot !in b && Dot !in e
    requires |t| >= |EditMarker| && t[|t| - 1] == Dot
    requires forall i :: 0 <= i < |t| - 1 ==> t[i] != Dot
    requires OccursAt(b + t + e, EditMarker, j)
    ensures j == |b| + |t| - |EditMarker|
    ensures t[|t| - |EditMarker|..] == EditMarker
  {
    var r := b + t + e;
    var p := j + 5;
    assert r[p] == EditMarker[5] == Dot;
    assert r[j..j + 6] == t[|t| - 6..];
  }

  /** The first "-edit." in an edited name is the inserted tag, so the
      intermediate is swept exactly when its base name is not empty, that is
      when the picked name neither is empty nor starts with a dot. */
  lemma EditNameSwept(name: string)
    ensures IndexOf(MakeNameEditImg(name), EditMarker) == |BaseName(name)|
    ensures Swept(MakeNameEditImg(name)) <==> |name| > 0 && name[0] != Dot
  {
    EditMarkerAtBase(name);
    BaseNameEmpty(name);
  }

  /** The first "-edit." in an edited name is the one the tag put there. */
  lemma EditMarkerAtBase(name: string)
    ensures IndexOf(MakeNameEditImg(name), EditMarker) == |BaseName(name)|
  {
    DerivedNameParts(name);
    var b, e := BaseName(name), Extension(name);
    var r := MakeNameEditImg(name);
    assert r[|b|..|b| + 6] == EditMarker;
    assert OccursAt(r, EditMarker, |b|);
    MarkerAtTagEnd(b, EditTag, e, IndexOf(r, EditMarker));
  }

  /** A watermarked name never contains "-edit.": its one dot follows
      "watermark". So cleanup never deletes an output. */
  lemma WatermarkNameNotSwept(name: string)
    ensures IndexOf(MakeNameImg(name), EditMarker) == -1
    ensures !Swept(MakeNameImg(name))
  {
    DerivedNameParts(name);
    var b, e := BaseName(name), Extension(name);
    var r := MakeNameImg(name);
    if IndexOf(r, EditMarker) != -1 {
      MarkerAtTagEnd(b, WatermarkTag, e, IndexOf(r, EditMarker));
    }
  }
}
