/** Looking up the occurrence at a position in a loaded document. */
module Occurrences {
  import opened Wrappers

  newtype Int32 = x: int | -0x8000_0000 <= x < 0x8000_0000
  newtype UInt32 = x: int | 0 <= x < 0x1_0000_0000

  /** A position as a client sends it. */
  datatype ClientPosition = ClientPosition(line: UInt32, character: UInt32)

  /** A point in the index's own 32-bit signed numbers. */
  datatype Point = Point(line: Int32, character: Int32)

  datatype Range = Range(start: Point, end: Point)

  datatype Diagnostic = Diagnostic(message: string, range: (ClientPosition, ClientPosition))

  /** Ranges have three numbers (start line, start and end column) or four; diagnostics are
      given by their messages. */
  datatype Occurrence = Occurrence(range: seq<Int32>, symbol: string, diagnostics: seq<string>)

  predicate Before(p: Point, q: Point) {
    p.line < q.line || (p.line == q.line && p.character < q.character)
  }

  // ----- conversions between the two widths, which wrap

  function Signed(x: UInt32): Int32 {
    if x < 0x8000_0000 then x as Int32 else (x as int - 0x1_0000_0000) as Int32
  }

  function Unsigned(x: Int32): UInt32 {
    if x >= 0 then x as UInt32 else (x as int + 0x1_0000_0000) as UInt32
  }

  function PointOf(pos: ClientPosition): Point {
    Point(Signed(pos.line), Signed(pos.character))
  }

  // ----- ranges

  function Decoded(r: seq<Int32>): Option<Range> {
    if |r| == 3 then Some(Range(Point(r[0], r[1]), Point(r[0], r[2])))
    else if |r| == 4 then Some(Range(Point(r[0], r[1]), Point(r[2], r[3])))
    else None
  }

  /** The range that the numbers stand for, if they are of the right count, not negative and in order. */
  function NewRange(r: seq<Int32>): Option<Range> {
    match Decoded(r)
    case None => None
    case Some(range) =>
      if range.start.line < 0 || range.start.character < 0 || range.end.line < 0 || range.end.character < 0 then None
      else if Before(range.end, range.start) then None
      else Some(range)
  }

  predicate IsRangeBefore(r: seq<Int32>, pos: ClientPosition) {
    var endLine, endChar :=
      if |r| == 3 then r[0] else if |r| == 4 then r[2] else 0,
      if |r| == 3 then r[2] else if |r| == 4 then r[3] else 0;
    endLine < Signed(pos.line) || (endLine == Signed(pos.line) && endChar < Signed(pos.character))
  }

  predicate IsMatchingPosition(occ: Occurrence, pos: ClientPosition) {
    var line, column := Signed(pos.line), Signed(pos.character);
    match NewRange(occ.range)
    case None => false
    case Some(rng) =>
      if rng.start.line == rng.end.line then
        rng.start.line == line && rng.start.character <= column && rng.end.character >= column
      else
        || (rng.start.line < line && rng.end.line > line)
        || (rng.start.line == line && rng.start.character <= column)
        || (rng.end.line == line && rng.end.character >= column)
  }

  /** Both encodings and all the cases on lines come to one thing: the position is between the
      ends of the range, which both belong to it. */
  lemma MatchingIsBetween(occ: Occurrence, pos: ClientPosition)
    ensures IsMatchingPosition(occ, pos) <==>
            NewRange(occ.range).Some? &&
            var rng := NewRange(occ.range).value;
            !Before(PointOf(pos), rng.start) && !Before(rng.end, PointOf(pos))
  {
  }

  // ----- the search

  /** The occurrence that binary search between two indices ends on. */
  function Search(occs: seq<Occurrence>, pos: ClientPosition, low: int, high: int): Option<Occurrence>
    requires 0 <= low && high < |occs|
    decreases high - low + 1
  {
    if low > high then None else
      var mid := (low + high) / 2;
      if IsMatchingPosition(occs[mid], pos) then Some(occs[mid])
      else if IsRangeBefore(occs[mid].range, pos) then Search(occs, pos, mid + 1, high)
      else Search(occs, pos, low, mid - 1)
  }

  function Lookup(occs: seq<Occurrence>, pos: ClientPosition): Option<Occurrence> {
    Search(occs, pos, 0, |occs| - 1)
  }

  method GetOccurrenceForPosition(occs: seq<Occurrence>, pos: ClientPosition) returns (found: Option<Occurrence>)
    ensures found == Lookup(occs, pos)
    ensures found.Some? ==> found.value in occs && IsMatchingPosition(found.value, pos)
    ensures InOrder(occs) ==> (found.Some? <==> exists k :: 0 <= k < |occs| && IsMatchingPosition(occs[k], pos))
  {
    hide IsMatchingPosition, IsRangeBefore, InOrder;
    SearchIsSound(occs, pos, 0, |occs| - 1);
    if InOrder(occs) {
      LookupIsLinear(occs, pos);
    }
    var low, high := 0, |occs| - 1;
    while low <= high
      invariant 0 <= low <= high + 1 <= |occs|
      invariant Search(occs, pos, low, high) == Lookup(occs, pos)
      decreases high - low + 1
    {
      var mid := (low + high) / 2;
      var occ := occs[mid];
      if IsMatchingPosition(occ, pos) {
        return Some(occ);
      }
      if IsRangeBefore(occ.range, pos) {
        low := mid + 1;
      } else {
        high := mid - 1;
      }
    }
    return None;
  }

  /** Every range is well formed, and neither starts nor ends ever go back. */
  ghost predicate InOrder(occs: seq<Occurrence>) {
    && (forall i :: 0 <= i < |occs| ==> NewRange(occs[i].range).Some?)
    && (forall i, j :: 0 <= i < j < |occs| ==>
          var a, b := NewRange(occs[i].range).value, NewRange(occs[j].range).value;
          !Before(b.start, a.start) && !Before(b.end, a.end))
  }

  /** What is found was among the occurrences, and matches, whatever their order. */
  lemma {:induction false} SearchIsSound(occs: seq<Occurrence>, pos: ClientPosition, low: int, high: int)
    requires 0 <= low && high < |occs|
    ensures var found := Search(occs, pos, low, high);
            found.Some? ==> found.value in occs && IsMatchingPosition(found.value, pos)
    decreases high - low + 1
  {
    hide IsMatchingPosition, IsRangeBefore;
    if low <= high {
      var mid := (low + high) / 2;
      SearchIsSound(occs, pos, mid + 1, high);
      SearchIsSound(occs, pos, low, mid - 1);
    }
  }

  /** One comparison rules out a half: when ranges are in order, nothing up to a range that ends
      before the position matches, and nothing from a range that starts after it does. */
  lemma HalfIsRuledOut(occs: seq<Occurrence>, pos: ClientPosition, mid: nat, k: nat)
    requires InOrder(occs) && mid < |occs| && k < |occs|
    requires !IsMatchingPosition(occs[mid], pos) && IsMatchingPosition(occs[k], pos)
    ensures IsRangeBefore(occs[mid].range, pos) <==> mid < k
  {
    MatchingIsBetween(occs[mid], pos);
    MatchingIsBetween(occs[k], pos);
  }

  lemma {:induction false} SearchIsComplete(occs: seq<Occurrence>, pos: ClientPosition, low: int, high: int, k: nat)
    requires InOrder(occs)
    requires 0 <= low <= k <= high < |occs| && IsMatchingPosition(occs[k], pos)
    ensures Search(occs, pos, low, high).Some?
    decreases high - low + 1
  {
    hide IsMatchingPosition, IsRangeBefore, InOrder;
    var mid := (low + high) / 2;
    if !IsMatchingPosition(occs[mid], pos) {
      HalfIsRuledOut(occs, pos, mid, k);
      if mid < k {
        SearchIsComplete(occs, pos, mid + 1, high, k);
      } else {
        SearchIsComplete(occs, pos, low, mid - 1, k);
      }
    }
  }

  /** The first match from the front. */
  function Linear(occs: seq<Occurrence>, pos: ClientPosition): (found: Option<Occurrence>)
    ensures found.Some? <==> exists k :: 0 <= k < |occs| && IsMatchingPosition(occs[k], pos)
    ensures found.Some? ==> found.value in occs && IsMatchingPosition(found.value, pos)
  {
    if occs == [] then None
    else if IsMatchingPosition(occs[0], pos) then Some(occs[0])
    else
      assert forall k :: 1 <= k < |occs| ==> occs[k] == occs[1..][k - 1];
      Linear(occs[1..], pos)
  }

  /** For occurrences in order, binary and linear search find a match in the same cases, and the
      same one when only one matches. */
  lemma LookupIsLinear(occs: seq<Occurrence>, pos: ClientPosition)
    requires InOrder(occs)
    ensures Lookup(occs, pos).Some? <==> Linear(occs, pos).Some?
    ensures Lookup(occs, pos).Some? ==> IsMatchingPosition(Lookup(occs, pos).value, pos)
    ensures (forall a, b :: a in occs && b in occs && IsMatchingPosition(a, pos) && IsMatchingPosition(b, pos) ==> a == b)
            ==> Lookup(occs, pos) == Linear(occs, pos)
  {
    hide IsMatchingPosition, IsRangeBefore, InOrder, Linear, Search;
    SearchIsSound(occs, pos, 0, |occs| - 1);
    if k :| 0 <= k < |occs| && IsMatchingPosition(occs[k], pos) {
      SearchIsComplete(occs, pos, 0, |occs| - 1, k);
    }
  }

  /** Order by start alone is not enough: a short range inside a long one hides the long one. */
  lemma NestedRangeIsMissed()
    ensures var occs := [Occurrence([0, 0, 9], "outer", []), Occurrence([0, 2, 3], "inner", [])];
            var pos := ClientPosition(0, 5);
            var more := occs + [Occurrence([1, 0, 1], "next", [])];
            && Linear(more, pos) == Some(occs[0])
            && Lookup(more, pos) == None
  {
    var more := [Occurrence([0, 0, 9], "outer", []), Occurrence([0, 2, 3], "inner", []), Occurrence([1, 0, 1], "next", [])];
    var pos := ClientPosition(0, 5);
    assert IsMatchingPosition(more[0], pos);
    assert !IsMatchingPosition(more[1], pos) && IsRangeBefore(more[1].range, pos);
    assert !IsMatchingPosition(more[2], pos) && !IsRangeBefore(more[2].range, pos);
    assert Search(more, pos, 2, 2) == None;
  }

  /** Every range is well formed, and starts never go back: the order in which indexes are written. */
  ghost predicate StartsInOrder(occs: seq<Occurrence>) {
    && (forall i :: 0 <= i < |occs| ==> NewRange(occs[i].range).Some?)
    && (forall i, j :: 0 <= i < j < |occs| ==>
          !Before(NewRange(occs[j].range).value.start, NewRange(occs[i].range).value.start))
  }

  /** Index m lies on the way to index k in the tree of midpoints of an interval, which is the
      same for every list of that length and every position. */
  predicate OnWay(low: int, high: int, k: int, m: int): (yes: bool)
    ensures yes ==> low <= m <= high
    decreases high - low + 1
  {
    low <= high &&
    var mid := (low + high) / 2;
    m == mid || (k < mid && OnWay(low, mid - 1, k, m)) || (k > mid && OnWay(mid + 1, high, k, m))
  }

  /** Occurrence k matches, but occurrence m behind it, on the way to it, ends before the position. */
  predicate Hides(occs: seq<Occurrence>, pos: ClientPosition, m: int, k: int) {
    && 0 <= k < m < |occs| && OnWay(0, |occs| - 1, k, m)
    && IsMatchingPosition(occs[k], pos) && IsRangeBefore(occs[m].range, pos)
  }

  /** Another occurrence makes up for what m hides: one behind m, or one on the way to m. */
  predicate IsMadeUpFor(occs: seq<Occurrence>, pos: ClientPosition, m: int) {
    exists j :: 0 <= j < |occs| && IsMatchingPosition(occs[j], pos) && (j > m || OnWay(0, |occs| - 1, m, j))
  }

  /** With starts in order, a range in front of a match that does not match ends before the position. */
  lemma FrontOfMatch(occs: seq<Occurrence>, pos: ClientPosition, mid: nat, k: nat)
    requires StartsInOrder(occs) && mid <= k < |occs|
    requires IsMatchingPosition(occs[k], pos) && !IsMatchingPosition(occs[mid], pos)
    ensures IsRangeBefore(occs[mid].range, pos)
  {
    MatchingIsBetween(occs[mid], pos);
    MatchingIsBetween(occs[k], pos);
  }

  /** Nothing on the way to m matches. */
  predicate NoneOnWay(occs: seq<Occurrence>, pos: ClientPosition, low: int, high: int, m: int) {
    forall j :: 0 <= j < |occs| && OnWay(low, high, m, j) ==> !IsMatchingPosition(occs[j], pos)
  }

  /** A search that misses the last match has come upon a range that hides it. */
  lemma {:induction false} MissedIsHidden(occs: seq<Occurrence>, pos: ClientPosition, low: int, high: int, last: nat)
    returns (m: int)
    requires StartsInOrder(occs) && 0 <= low <= last <= high < |occs| && IsMatchingPosition(occs[last], pos)
    requires Search(occs, pos, low, high).None?
    ensures last < m < |occs| && OnWay(low, high, last, m) && IsRangeBefore(occs[m].range, pos)
    ensures NoneOnWay(occs, pos, low, high, m)
    decreases high - low + 1
  {
    hide IsMatchingPosition, IsRangeBefore, StartsInOrder;
    var mid := (low + high) / 2;
    if mid < last {
      FrontOfMatch(occs, pos, mid, last);
      m := MissedIsHidden(occs, pos, mid + 1, high, last);
    } else if IsRangeBefore(occs[mid].range, pos) {
      m := mid;
    } else {
      m := MissedIsHidden(occs, pos, low, mid - 1, last);
    }
  }

  /** A search that comes upon a range that hides all matches finds nothing. */
  lemma {:induction false} HiddenIsMissed(occs: seq<Occurrence>, pos: ClientPosition, low: int, high: int, m: int, k: int)
    requires StartsInOrder(occs) && 0 <= low && high < |occs| && 0 <= k < m && OnWay(low, high, k, m)
    requires IsMatchingPosition(occs[k], pos) && IsRangeBefore(occs[m].range, pos)
    requires NoneOnWay(occs, pos, low, high, m)
    requires forall j :: m < j < |occs| ==> !IsMatchingPosition(occs[j], pos)
    ensures Search(occs, pos, low, high).None?
    decreases high - low + 1
  {
    hide IsMatchingPosition, IsRangeBefore, StartsInOrder;
    var mid := (low + high) / 2;
    assert OnWay(low, high, m, mid);
    if mid < m {
      FrontOfMatch(occs, pos, mid, k);
      HiddenIsMissed(occs, pos, mid + 1, high, m, k);
    } else if IsRangeBefore(occs[mid].range, pos) {
      NothingFrom(occs, pos, mid + 1, high);
    } else {
      HiddenIsMissed(occs, pos, low, mid - 1, m, k);
    }
  }

  lemma {:induction false} NothingFrom(occs: seq<Occurrence>, pos: ClientPosition, low: int, high: int)
    requires 0 <= low && high < |occs| && forall k :: low <= k < |occs| ==> !IsMatchingPosition(occs[k], pos)
    ensures Search(occs, pos, low, high).None?
    decreases high - low + 1
  {
    hide IsMatchingPosition, IsRangeBefore;
    if low <= high {
      NothingFrom(occs, pos, (low + high) / 2 + 1, high);
      NothingFrom(occs, pos, low, (low + high) / 2 - 1);
    }
  }

  lemma {:induction false} LastMatch(occs: seq<Occurrence>, pos: ClientPosition, n: nat) returns (last: nat)
    requires n <= |occs| && exists k :: 0 <= k < n && IsMatchingPosition(occs[k], pos)
    ensures last < n && IsMatchingPosition(occs[last], pos)
    ensures forall k :: last < k < n ==> !IsMatchingPosition(occs[k], pos)
  {
    hide IsMatchingPosition;
    if IsMatchingPosition(occs[n - 1], pos) {
      last := n - 1;
    } else {
      last := LastMatch(occs, pos, n - 1);
    }
  }

  /** For occurrences ordered by start alone, an existing match is missed exactly when some
      range hides it and nothing makes up for that. */
  lemma MissedIffHidden(occs: seq<Occurrence>, pos: ClientPosition)
    requires StartsInOrder(occs)
    ensures Linear(occs, pos).Some? && Lookup(occs, pos).None? <==>
            exists m, k :: Hides(occs, pos, m, k) && !IsMadeUpFor(occs, pos, m)
  {
    hide IsMatchingPosition, IsRangeBefore, StartsInOrder, Linear, Search, OnWay;
    if Linear(occs, pos).Some? && Lookup(occs, pos).None? {
      var last := LastMatch(occs, pos, |occs|);
      var m := MissedIsHidden(occs, pos, 0, |occs| - 1, last);
      assert Hides(occs, pos, m, last);
    }
    if m, k :| Hides(occs, pos, m, k) && !IsMadeUpFor(occs, pos, m) {
      HiddenIsMissed(occs, pos, 0, |occs| - 1, m, k);
    }
  }

  /** The lookup is right at every position exactly when, in the tree of midpoints, whatever a
      range hides is made up for: a condition on the list alone. */
  lemma RightEverywhereIff(occs: seq<Occurrence>)
    requires StartsInOrder(occs)
    ensures (forall pos :: Linear(occs, pos).Some? <==> Lookup(occs, pos).Some?)
            <==> forall pos, m, k :: Hides(occs, pos, m, k) ==> IsMadeUpFor(occs, pos, m)
  {
    hide StartsInOrder, Linear, Lookup, Hides, IsMadeUpFor;
    if forall pos :: Linear(occs, pos).Some? <==> Lookup(occs, pos).Some? {
      forall pos, m, k | Hides(occs, pos, m, k) ensures IsMadeUpFor(occs, pos, m) {
        MissedIffHidden(occs, pos);
        assert Linear(occs, pos).Some? <==> Lookup(occs, pos).Some?;
      }
    }
    if forall pos, m, k :: Hides(occs, pos, m, k) ==> IsMadeUpFor(occs, pos, m) {
      forall pos ensures Linear(occs, pos).Some? <==> Lookup(occs, pos).Some? {
        MissedIffHidden(occs, pos);
        FoundIsLinear(occs, pos);
      }
    }
  }

  lemma FoundIsLinear(occs: seq<Occurrence>, pos: ClientPosition)
    ensures Lookup(occs, pos).Some? ==> Linear(occs, pos).Some?
  {
    hide IsMatchingPosition, Linear, Search;
    SearchIsSound(occs, pos, 0, |occs| - 1);
  }

  // ----- loading

  const DIAGNOSTIC_PREFIX := "local diagnostic_"

  predicate Skipped(occ: Occurrence) {
    occ.symbol == "" || DIAGNOSTIC_PREFIX <= occ.symbol
  }

  /** The span that an occurrence's diagnostics are shown at. */
  function Span(r: seq<Int32>): (ClientPosition, ClientPosition) {
    if |r| >= 4 then
      (ClientPosition(Unsigned(r[0]), Unsigned(r[1])), ClientPosition(Unsigned(r[2]), Unsigned(r[3])))
    else if |r| == 3 then
      (ClientPosition(Unsigned(r[0]), Unsigned(r[1])), ClientPosition(Unsigned(r[0]), Unsigned(r[2])))
    else (ClientPosition(0, 0), ClientPosition(0, 0))
  }

  function DiagnosticsOf(occ: Occurrence): seq<Diagnostic> {
    seq(|occ.diagnostics|, i requires 0 <= i < |occ.diagnostics| => Diagnostic(occ.diagnostics[i], Span(occ.range)))
  }

  function Loaded(occs: seq<Occurrence>): seq<Occurrence> {
    if occs == [] then []
    else
      Loaded(occs[..|occs| - 1]) + Kept(occs[|occs| - 1])
  }

  function AllDiagnostics(occs: seq<Occurrence>): seq<Diagnostic> {
    if occs == [] then [] else AllDiagnostics(occs[..|occs| - 1]) + DiagnosticsOf(occs[|occs| - 1])
  }

  /** Splits a document's occurrences into those to look up and the diagnostics of all of them. */
  method LoadDocument(occs: seq<Occurrence>) returns (occurrences: seq<Occurrence>, diagnostics: seq<Diagnostic>)
    ensures occurrences == Loaded(occs) && diagnostics == AllDiagnostics(occs)
  {
    occurrences, diagnostics := [], [];
    for i := 0 to |occs|
      invariant occurrences == Loaded(occs[..i]) && diagnostics == AllDiagnostics(occs[..i])
    {
      assert occs[..i + 1][..i] == occs[..i];
      diagnostics := diagnostics + DiagnosticsOf(occs[i]);
      if Skipped(occs[i]) {
        continue;
      }
      occurrences := occurrences + [occs[i].(diagnostics := [])];
    }
    assert occs[..|occs|] == occs;
  }

  /** What one occurrence loads. */
  function Kept(occ: Occurrence): seq<Occurrence> {
    if Skipped(occ) then [] else [occ.(diagnostics := [])]
  }

  lemma {:induction false} LoadedConcat(a: seq<Occurrence>, b: seq<Occurrence>)
    ensures Loaded(a + b) == Loaded(a) + Loaded(b)
  {
    hide Kept;
    if b == [] {
      assert a + b == a;
    } else {
      var front, last := b[..|b| - 1], b[|b| - 1];
      LoadedConcat(a, front);
      assert (a + b)[..|a + b| - 1] == a + front && (a + b)[|a + b| - 1] == last;
      assert Loaded(a) + (Loaded(front) + Kept(last)) == Loaded(a) + Loaded(front) + Kept(last);
    }
  }

  /** A position in the loaded list comes from one in the document, and the other way round. */
  lemma {:induction false} LoadedMatches(occs: seq<Occurrence>, pos: ClientPosition)
    ensures (exists occ :: occ in Loaded(occs) && IsMatchingPosition(occ, pos))
            <==> exists occ :: occ in occs && !Skipped(occ) && IsMatchingPosition(occ, pos)
  {
    hide Skipped;
    if occs != [] {
      var front, last := occs[..|occs| - 1], occs[|occs| - 1];
      LoadedMatches(front, pos);
      assert occs == front + [last];
      assert IsMatchingPosition(last.(diagnostics := []), pos) == IsMatchingPosition(last, pos);
      hide IsMatchingPosition;
      if occ :| occ in occs && !Skipped(occ) && IsMatchingPosition(occ, pos) {
        if occ in front {
          var kept :| kept in Loaded(front) && IsMatchingPosition(kept, pos);
          assert kept in Loaded(occs);
        } else {
          assert last.(diagnostics := []) in Loaded(occs);
        }
      }
      if occ :| occ in Loaded(occs) && IsMatchingPosition(occ, pos) {
        if occ in Loaded(front) {
          var source :| source in front && !Skipped(source) && IsMatchingPosition(source, pos);
          assert source in occs;
        } else {
          assert last in occs;
        }
      }
    }
  }

  /** Looking up in a loaded document finds a match exactly when one of its occurrences that is
      not skipped matches, as long as those are in order: the skipped ones may be anywhere. */
  lemma LoadedLookup(occs: seq<Occurrence>, pos: ClientPosition)
    requires InOrder(Loaded(occs))
    ensures Lookup(Loaded(occs), pos).Some?
            <==> exists occ :: occ in occs && !Skipped(occ) && IsMatchingPosition(occ, pos)
  {
    hide IsMatchingPosition, InOrder, Lookup, Loaded, Skipped;
    LookupIsLinear(Loaded(occs), pos);
    LoadedMatches(occs, pos);
    if occ :| occ in Loaded(occs) && IsMatchingPosition(occ, pos) {
      var k :| 0 <= k < |Loaded(occs)| && Loaded(occs)[k] == occ;
    }
  }

  /** Diagnostics put in anywhere change no lookup. */
  lemma InsertedDiagnostics(a: seq<Occurrence>, inserted: seq<Occurrence>, b: seq<Occurrence>, pos: ClientPosition)
    requires forall occ :: occ in inserted ==> Skipped(occ)
    ensures Loaded(a + inserted + b) == Loaded(a + b)
    ensures Lookup(Loaded(a + inserted + b), pos) == Lookup(Loaded(a + b), pos)
  {
    hide Skipped, Loaded, Lookup;
    SkippedLoadNothing(inserted);
    LoadedConcat(a + inserted, b);
    LoadedConcat(a, inserted);
    LoadedConcat(a, b);
  }

  lemma {:induction false} SkippedLoadNothing(occs: seq<Occurrence>)
    requires forall occ :: occ in occs ==> Skipped(occ)
    ensures Loaded(occs) == []
  {
    if occs != [] {
      SkippedLoadNothing(occs[..|occs| - 1]);
    }
  }

  // ----- which occurrences are loaded, and where diagnostics are shown

  /** Loaded are the occurrences with a symbol that does not start with the mark of diagnostics,
      without their own. */
  lemma {:induction false} LoadedIff(occs: seq<Occurrence>, occ: Occurrence)
    ensures occ in Loaded(occs) <==>
            exists o :: o in occs && o.symbol != "" && !("local diagnostic_" <= o.symbol) && occ == o.(diagnostics := [])
  {
    if occs != [] {
      var front, last := occs[..|occs| - 1], occs[|occs| - 1];
      LoadedIff(front, occ);
      assert occs == front + [last];
      assert last in occs && forall o :: o in front ==> o in occs;
    }
  }

  /** Converting to the other width and back changes nothing. */
  lemma WidthsInvert(x: Int32, y: UInt32)
    ensures Signed(Unsigned(x)) == x && Unsigned(Signed(y)) == y
    ensures x >= 0 ==> Unsigned(x) as int == x as int
  {
  }

  /** A span of three numbers is on one line, one of four goes from the first two to the last two;
      and it has the ends of the range. */
  lemma SpanIsRange(a: Int32, b: Int32, c: Int32, d: Int32)
    requires a >= 0 && b >= 0 && c >= 0 && d >= 0
    ensures Span([a, b, c]) == (ClientPosition(a as UInt32, b as UInt32), ClientPosition(a as UInt32, c as UInt32))
    ensures Span([a, b, c, d]) == (ClientPosition(a as UInt32, b as UInt32), ClientPosition(c as UInt32, d as UInt32))
    ensures forall r: seq<Int32> :: NewRange(r).Some? ==>
              PointOf(Span(r).0) == NewRange(r).value.start && PointOf(Span(r).1) == NewRange(r).value.end
  {
  }

  lemma {:induction false} DiagnosticsInOrder(a: seq<Occurrence>, b: seq<Occurrence>)
    ensures AllDiagnostics(a + b) == AllDiagnostics(a) + AllDiagnostics(b)
    decreases |b|
  {
    hide DiagnosticsOf;
    if b == [] {
      assert a + b == a;
    } else {
      var front, last := b[..|b| - 1], b[|b| - 1];
      DiagnosticsInOrder(a, front);
      assert (a + b)[..|a + b| - 1] == a + front && (a + b)[|a + b| - 1] == last;
      assert AllDiagnostics(a) + (AllDiagnostics(front) + DiagnosticsOf(last)) == AllDiagnostics(a) + AllDiagnostics(front) + DiagnosticsOf(last);
    }
  }

  /** Every message of an occurrence, skipped or not, is shown once, at the occurrence's span. */
  lemma DiagnosticsOfOne(occ: Occurrence)
    ensures |AllDiagnostics([occ])| == |occ.diagnostics|
    ensures forall i :: 0 <= i < |occ.diagnostics| ==> AllDiagnostics([occ])[i] == Diagnostic(occ.diagnostics[i], Span(occ.range))
  {
    assert [occ][..0] == [];
    assert AllDiagnostics([]) == [];
    assert AllDiagnostics([occ]) == [] + DiagnosticsOf(occ);
  }

  /** Which numbers are a range: three or four, none negative, in order. */
  lemma AcceptedRanges(r: seq<Int32>)
    ensures NewRange(r).Some? <==>
            || (|r| == 3 && r[0] >= 0 && 0 <= r[1] <= r[2])
            || (|r| == 4 && r[0] >= 0 && r[1] >= 0 && r[3] >= 0 && (r[0] < r[2] || (r[0] == r[2] && r[1] <= r[3])))
  {
  }
}
