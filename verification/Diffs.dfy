/** Diff scripts between two texts, and where an offset of the source text ends up in the
    target text. */
module Diffs {
  import opened Bytes
  import opened Utf8
  import opened Positions

  datatype DiffKind = Delete | Equal | Insert

  datatype Diff = Diff(kind: DiffKind, text: seq<Byte>) {
    /** The bytes of the source that this segment covers. */
    function FromSource(): seq<Byte> {
      if kind.Insert? then [] else text
    }

    /** The bytes of the target that this segment covers. */
    function FromTarget(): seq<Byte> {
      if kind.Delete? then [] else text
    }
  }

  function Source(diffs: seq<Diff>): seq<Byte> {
    if diffs == [] then [] else diffs[0].FromSource() + Source(diffs[1..])
  }

  function Target(diffs: seq<Diff>): seq<Byte> {
    if diffs == [] then [] else diffs[0].FromTarget() + Target(diffs[1..])
  }

  /** Every segment is valid text of its own, that is, the script splits at rune boundaries. */
  predicate SplitsAtRunes(diffs: seq<Diff>) {
    forall d :: d in diffs ==> Valid(d.text)
  }

  /** An offset of the target, and whether the source byte it stands for was deleted. */
  datatype Shifted = Shifted(offset: int, deleted: bool)

  /** Where a source offset goes: kept bytes move with their segment, deleted bytes
      collapse to the place they were deleted from. */
  function Shift(diffs: seq<Diff>, loc: int): Shifted {
    if diffs == [] then Shifted(loc, false) else
      var d := diffs[0];
      if loc < |d.FromSource()| then
        if d.kind.Delete? then Shifted(0, true) else Shifted(loc, false)
      else
        var rest := Shift(diffs[1..], loc - |d.FromSource()|);
        Shifted(|d.FromTarget()| + rest.offset, rest.deleted)
  }

  /** The single pass over the script with running lengths of both sides. */
  method DiffXIndex(diffs: seq<Diff>, loc: nat) returns (offset: int, deleted: bool)
    ensures Shifted(offset, deleted) == Shift(diffs, loc)
  {
    var chars1, chars2, lastChars1, lastChars2 := 0, 0, 0, 0;
    var lastKind := Equal;
    var i := 0;
    while i < |diffs|
      invariant 0 <= i <= |diffs|
      invariant lastChars1 == chars1 <= loc && lastChars2 == chars2
      invariant var rest := Shift(diffs[i..], loc - chars1);
                Shift(diffs, loc) == Shifted(chars2 + rest.offset, rest.deleted)
    {
      var d := diffs[i];
      assert diffs[i..][1..] == diffs[i + 1..];
      if !d.kind.Insert? {
        chars1 := chars1 + |d.text|;
      }
      if !d.kind.Delete? {
        chars2 := chars2 + |d.text|;
      }
      if chars1 > loc {
        lastKind := d.kind;
        break;
      }
      lastChars1, lastChars2 := chars1, chars2;
      i := i + 1;
    }
    if lastKind.Delete? {
      return lastChars2, true;
    }
    return lastChars2 + (loc - lastChars1), false;
  }

  // ----- what shifting means

  /** A kept source byte is found again at its shifted offset; the end goes to the end;
      nothing leaves the target. */
  lemma {:induction false} ShiftKeepsBytes(diffs: seq<Diff>, loc: nat)
    requires loc <= |Source(diffs)|
    ensures var r := Shift(diffs, loc);
            && 0 <= r.offset <= |Target(diffs)|
            && (loc == |Source(diffs)| ==> r == Shifted(|Target(diffs)|, false))
            && (loc < |Source(diffs)| && !r.deleted ==>
                  r.offset < |Target(diffs)| && Target(diffs)[r.offset] == Source(diffs)[loc])
  {
    if diffs != [] {
      var d, rest := diffs[0], diffs[1..];
      var n := |d.FromSource()|;
      Unfold(diffs);
      hide Source, Target;
      if loc >= n {
        ShiftKeepsBytes(rest, loc - n);
        var t := Shift(rest, loc - n).offset;
        assert loc < |Source(diffs)| ==> Source(diffs)[loc] == Source(rest)[loc - n];
        assert t < |Target(rest)| ==> Target(diffs)[|d.FromTarget()| + t] == Target(rest)[t];
      }
    }
  }

  /** The first segment and the rest of a script. */
  lemma Unfold(diffs: seq<Diff>)
    requires diffs != []
    ensures Source(diffs) == diffs[0].FromSource() + Source(diffs[1..])
    ensures Target(diffs) == diffs[0].FromTarget() + Target(diffs[1..])
  {
  }

  /** The source offset lies inside the i-th segment. */
  predicate Covers(diffs: seq<Diff>, i: nat, loc: int) {
    i < |diffs| && |Source(diffs[..i])| <= loc < |Source(diffs[..i])| + |diffs[i].FromSource()|
  }

  lemma CoversTail(diffs: seq<Diff>, i: nat, loc: int)
    requires 0 < i < |diffs|
    ensures Covers(diffs, i, loc) <==> Covers(diffs[1..], i - 1, loc - |diffs[0].FromSource()|)
    ensures |Target(diffs[..i])| == |diffs[0].FromTarget()| + |Target(diffs[1..][..i - 1])|
  {
    assert diffs[..i][1..] == diffs[1..][..i - 1];
  }

  /** The result for an offset is decided by the one segment that covers it: an offset is
      flagged exactly inside a deleted segment, and then lands where that segment stood. */
  lemma {:induction false} ShiftBySegment(diffs: seq<Diff>, i: nat, loc: nat)
    requires Covers(diffs, i, loc)
    ensures Shift(diffs, loc) ==
            if diffs[i].kind.Delete? then Shifted(|Target(diffs[..i])|, true)
            else Shifted(|Target(diffs[..i])| + loc - |Source(diffs[..i])|, false)
  {
    if i > 0 {
      CoversTail(diffs, i, loc);
      assert diffs[..i][1..] == diffs[1..][..i - 1];
      SourcePrefixGrows(diffs, i);
      ShiftBySegment(diffs[1..], i - 1, loc - |diffs[0].FromSource()|);
    }
  }

  lemma SourcePrefixGrows(diffs: seq<Diff>, i: nat)
    requires 0 < i <= |diffs|
    ensures |diffs[0].FromSource()| <= |Source(diffs[..i])|
  {
  }

  /** Every offset before the end is covered by some segment. */
  lemma {:induction false} SegmentExists(diffs: seq<Diff>, loc: nat) returns (i: nat)
    requires loc < |Source(diffs)|
    ensures Covers(diffs, i, loc)
  {
    if loc < |diffs[0].FromSource()| {
      i := 0;
      assert diffs[..0] == [];
    } else {
      var j := SegmentExists(diffs[1..], loc - |diffs[0].FromSource()|);
      i := j + 1;
      CoversTail(diffs, i, loc);
    }
  }

  lemma FlaggedIffDeleted(diffs: seq<Diff>, loc: nat)
    requires loc <= |Source(diffs)|
    ensures Shift(diffs, loc).deleted <==> exists i: nat :: Covers(diffs, i, loc) && diffs[i].kind.Delete?
  {
    ShiftKeepsBytes(diffs, loc);
    forall i: nat | Covers(diffs, i, loc)
      ensures Shift(diffs, loc).deleted <==> diffs[i].kind.Delete?
    {
      ShiftBySegment(diffs, i, loc);
    }
    if loc < |Source(diffs)| {
      var i := SegmentExists(diffs, loc);
      assert Covers(diffs, i, loc);
    }
  }

  /** Shifting keeps the order of offsets, and keeps distinct kept bytes distinct. */
  lemma {:induction false} ShiftMonotone(diffs: seq<Diff>, a: nat, b: nat)
    requires a <= b <= |Source(diffs)|
    ensures Shift(diffs, a).offset <= Shift(diffs, b).offset
    ensures a < b && !Shift(diffs, a).deleted ==> Shift(diffs, a).offset < Shift(diffs, b).offset
  {
    if diffs != [] {
      var n := |diffs[0].FromSource()|;
      if a >= n {
        ShiftMonotone(diffs[1..], a - n, b - n);
      } else if b >= n {
        ShiftKeepsBytes(diffs[1..], b - n);
      }
    }
  }

  // ----- rune boundaries

  lemma {:induction false} SidesAreValid(diffs: seq<Diff>)
    requires SplitsAtRunes(diffs)
    ensures Valid(Source(diffs)) && Valid(Target(diffs))
  {
    hide DecodeRune, Utf16Len, Transcode;
    if diffs != [] {
      var d := diffs[0];
      assert d in diffs;
      SidesAreValid(diffs[1..]);
      ConcatValid(d.FromSource(), Source(diffs[1..]));
      ConcatValid(d.FromTarget(), Target(diffs[1..]));
    }
  }

  /** Rune boundaries of the source go to rune boundaries of the target. */
  lemma {:induction false} ShiftKeepsBoundaries(diffs: seq<Diff>, loc: nat)
    requires SplitsAtRunes(diffs) && IsBoundary(Source(diffs), loc)
    ensures Shift(diffs, loc).offset >= 0 && IsBoundary(Target(diffs), Shift(diffs, loc).offset)
  {
    hide DecodeRune, Utf16Len, Transcode, Valid;
    if diffs == [] {
      assert Source(diffs)[..loc] == Target(diffs)[..loc];
    } else {
      var d, rest := diffs[0], diffs[1..];
      assert d in diffs;
      Unfold(diffs);
      SegmentIsValid(d);
      hide Source, Target, IsBoundary, SplitsAtRunes;
      var n := |d.FromSource()|;
      if loc < n {
        BoundaryInFirst(d.FromSource(), Source(rest), loc);
        BoundaryInFirst(d.FromTarget(), Target(rest), if d.kind.Delete? then 0 else loc);
      } else {
        BoundaryInSecond(d.FromSource(), Source(rest), loc - n);
        SplitsRest(diffs);
        ShiftKeepsBoundaries(rest, loc - n);
        BoundaryInSecond(d.FromTarget(), Target(rest), Shift(rest, loc - n).offset);
      }
    }
  }

  lemma SegmentIsValid(d: Diff)
    requires Valid(d.text)
    ensures Valid(d.FromSource()) && Valid(d.FromTarget())
  {
    hide Valid;
    EmptyText();
  }

  lemma SplitsRest(diffs: seq<Diff>)
    requires diffs != [] && SplitsAtRunes(diffs)
    ensures SplitsAtRunes(diffs[1..])
  {
    hide Valid;
  }

  lemma BoundaryInFirst(a: seq<Byte>, b: seq<Byte>, o: nat)
    requires o <= |a|
    ensures IsBoundary(a + b, o) <==> IsBoundary(a, o)
    ensures IsBoundary(a, 0)
  {
    hide Valid;
    EmptyText();
    assert (a + b)[..o] == a[..o] && a[..0] == [];
  }

  lemma BoundaryInSecond(a: seq<Byte>, b: seq<Byte>, o: nat)
    requires Valid(a) && o <= |b|
    ensures IsBoundary(a + b, |a| + o) <==> IsBoundary(b, o)
  {
    hide Valid;
    assert (a + b)[..|a| + o] == a + b[..o];
    ConcatValid(a, b[..o]);
  }
}
