/** What a line/UTF-16-column position means in a UTF-8 text, and how positions and byte
    offsets convert into each other. */
module Positions {
  import opened Bytes
  import opened Utf8
  import opened Wrappers

  /** A zero-based line and a zero-based column counted in UTF-16 code units. */
  datatype Position = Position(line: nat, character: nat)

  /** Document order. */
  predicate AtMost(p: Position, q: Position) {
    p.line < q.line || (p.line == q.line && p.character <= q.character)
  }

  datatype PositionError =
    | LineOutOfRange
    | BeyondEndOfFile
    | BeyondEndOfLine
    | InvalidUtf8
    | InvalidOffset

  // ----- lines

  /** The offsets at which lines start: 0 and every offset after a newline. */
  function LineStarts(s: seq<Byte>): (starts: seq<nat>)
    ensures |starts| >= 1 && starts[0] == 0
    ensures forall i :: 0 <= i < |starts| ==> starts[i] <= |s|
    ensures forall i, j :: 0 <= i < j < |starts| ==> starts[i] < starts[j]
    ensures forall i :: 1 <= i < |starts| ==> s[starts[i] - 1] == NEWLINE
  {
    if s == [] then [0] else
      var front := s[..|s| - 1];
      assert forall k :: 0 <= k < |front| ==> front[k] == s[k];
      LineStarts(front) + if s[|s| - 1] == NEWLINE then [|s|] else []
  }

  /** The number of newlines before an offset. */
  function LineOf(s: seq<Byte>, o: nat): nat
    requires o <= |s|
  {
    |LineStarts(s[..o])| - 1
  }

  /** The start of the line that holds an offset. */
  function LineStart(s: seq<Byte>, o: nat): (start: nat)
    requires o <= |s|
    ensures start <= o
  {
    LineStarts(s[..o])[LineOf(s, o)]
  }

  /** The end of a line: its newline, or the end of the text. */
  function LineEnd(s: seq<Byte>, line: nat): (end: nat)
    requires line < |LineStarts(s)|
    ensures LineStarts(s)[line] <= end <= |s|
  {
    if line + 1 < |LineStarts(s)| then LineStarts(s)[line + 1] - 1 else |s|
  }

  function LineText(s: seq<Byte>, line: nat): seq<Byte>
    requires line < |LineStarts(s)|
  {
    s[LineStarts(s)[line]..LineEnd(s, line)]
  }

  /** The offset lies between a carriage return and the end of its line. */
  predicate AfterLineEndCR(s: seq<Byte>, o: nat)
    requires o <= |s|
  {
    o > 0 && s[o - 1] == CARRIAGE_RETURN && (o == |s| || s[o] == NEWLINE)
  }

  predicate NoNewline(s: seq<Byte>) {
    NEWLINE !in s
  }

  lemma {:induction false} StartsOfPrefix(s: seq<Byte>, o: nat)
    requires o <= |s|
    ensures LineStarts(s[..o]) <= LineStarts(s)
    ensures forall i :: 0 <= i < |LineStarts(s)| ==> (LineStarts(s)[i] <= o <==> i < |LineStarts(s[..o])|)
    decreases |s|
  {
    if o == |s| {
      assert s[..o] == s;
    } else {
      var front := s[..|s| - 1];
      StartsOfPrefix(front, o);
      assert front[..o] == s[..o];
    }
  }

  /** A newline is always the last byte of its line. */
  lemma {:induction false} NewlineStartsLine(s: seq<Byte>, k: nat)
    requires k < |s| && s[k] == NEWLINE
    ensures k + 1 in LineStarts(s)
  {
    if k == |s| - 1 {
      assert LineStarts(s)[|LineStarts(s)| - 1] == |s|;
    } else {
      NewlineStartsLine(s[..|s| - 1], k);
    }
  }

  /** The first newline from the start of a line on ends the line. */
  lemma NewlineEndsLine(s: seq<Byte>, line: nat, k: nat)
    requires line < |LineStarts(s)| && LineStarts(s)[line] <= k < |s| && s[k] == NEWLINE
    ensures LineEnd(s, line) <= k
  {
    NewlineStartsLine(s, k);
    hide LineStarts;
    var j :| 0 <= j < |LineStarts(s)| && LineStarts(s)[j] == k + 1;
  }

  lemma LineHasNoNewline(s: seq<Byte>, line: nat)
    requires line < |LineStarts(s)|
    ensures NoNewline(LineText(s, line))
    ensures LineEnd(s, line) == |s| || s[LineEnd(s, line)] == NEWLINE
  {
    hide LineStarts;
    forall k | LineStarts(s)[line] <= k < LineEnd(s, line) ensures s[k] != NEWLINE {
      if s[k] == NEWLINE {
        NewlineEndsLine(s, line, k);
      }
    }
  }

  /** The line of an offset is the one whose extent holds it. */
  lemma OffsetWithinLine(s: seq<Byte>, o: nat)
    requires o <= |s|
    ensures LineOf(s, o) < |LineStarts(s)|
    ensures LineStarts(s)[LineOf(s, o)] == LineStart(s, o)
    ensures o <= LineEnd(s, LineOf(s, o))
    ensures NoNewline(s[LineStart(s, o)..o])
  {
    StartsOfPrefix(s, o);
    var line := LineOf(s, o);
    LineHasNoNewline(s, line);
    assert s[LineStart(s, o)..o] <= LineText(s, line);
  }

  lemma LineOfUnique(s: seq<Byte>, o: nat, line: nat)
    requires line < |LineStarts(s)| && LineStarts(s)[line] <= o <= LineEnd(s, line)
    ensures LineOf(s, o) == line && LineStart(s, o) == LineStarts(s)[line]
  {
    StartsOfPrefix(s, o);
  }

  // ----- the two conversions

  /** The position of an offset; between a carriage return and its line end, the position of
      the carriage return. */
  function OffsetPosition(s: seq<Byte>, o: int): Result<Position, PositionError> {
    if !(0 <= o <= |s|) then Err(InvalidOffset) else
      var width := Utf16Len(s[LineStart(s, o)..o]);
      Ok(Position(LineOf(s, o), if AfterLineEndCR(s, o) && width > 0 then width - 1 else width))
  }

  /** The number of bytes that hold the given number of UTF-16 units at the start of s,
      rounded down inside a surrogate pair. */
  function Walk(s: seq<Byte>, want: nat): (r: Result<nat, PositionError>)
    ensures r.Ok? ==> r.value <= |s|
    decreases |s|
  {
    if want == 0 then Ok(0) else
      var r := DecodeRune(s);
      if r.size == 0 then Err(BeyondEndOfFile)
      else if r.code == NEWLINE then Err(BeyondEndOfLine)
      else if r == Rune(RUNE_ERROR, 1) then Err(InvalidUtf8)
      else if r.code >= 0x10000 && want == 1 then Ok(0)
      else
        match Walk(s[r.size..], want - |Utf16Units(r.code)|)
        case Ok(k) => Ok(r.size + k)
        case Err(e) => Err(e)
  }

  /** The offset of a position. The line after the last one stands for the end of the text. */
  function PositionOffset(s: seq<Byte>, p: Position): (r: Result<nat, PositionError>)
    ensures r.Ok? ==> r.value <= |s|
  {
    var starts := LineStarts(s);
    if p.line > |starts| then Err(LineOutOfRange)
    else if p.line == |starts| then
      if p.character == 0 then Ok(|s|) else Err(BeyondEndOfFile)
    else
      match Walk(s[starts[p.line]..], p.character)
      case Ok(k) => Ok(starts[p.line] + k)
      case Err(e) => Err(e)
  }

  // ----- walking

  lemma {:induction false} WalkFinds(s: seq<Byte>, k: nat)
    requires k <= |s| && Valid(s[..k]) && NoNewline(s[..k])
    ensures Walk(s, Utf16Len(s[..k])) == Ok(k)
    decreases |s|
  {
    hide DecodeRune, Transcode;
    if k > 0 {
      var h := s[..k];
      var n := DecodeRune(h).size;
      DecodeIsLocal(h, s);
      assert h[0] == s[0];
      assert s[n..][..k - n] == h[n..];
      WalkFinds(s[n..], k - n);
    }
  }

  /** What a successful walk means, for any bytes: the bytes passed are valid text on one
      line, as wide as wanted, or one unit less in front of a surrogate pair. */
  ghost predicate Reaches(s: seq<Byte>, k: nat, want: nat)
    requires k <= |s|
  {
    && Valid(s[..k]) && NoNewline(s[..k])
    && (|| Utf16Len(s[..k]) == want
        || (Utf16Len(s[..k]) + 1 == want && DecodeRune(s[k..]).code >= 0x10000))
  }

  lemma {:induction false} WalkSound(s: seq<Byte>, want: nat)
    requires Walk(s, want).Ok?
    ensures Reaches(s, Walk(s, want).value, want)
    decreases |s|
  {
    hide DecodeRune, Transcode, Valid, Utf16Len, Reaches;
    EmptyText();
    var r := DecodeRune(s);
    if want == 0 || (r.code >= 0x10000 && want == 1) {
      StaysPut(s, want);
    } else {
      WalkSound(s[r.size..], want - |Utf16Units(r.code)|);
      ReachesFurther(s, Walk(s, want).value, want);
    }
  }

  lemma StaysPut(s: seq<Byte>, want: nat)
    requires want == 0 || (want == 1 && DecodeRune(s).code >= 0x10000)
    ensures Reaches(s, 0, want)
  {
    assert s[0..] == s;
  }

  lemma ReachesFurther(s: seq<Byte>, k: nat, want: nat)
    requires WellFormedHead(s) && DecodeRune(s).code != NEWLINE && DecodeRune(s).size <= k <= |s|
    requires var r := DecodeRune(s);
             |Utf16Units(r.code)| <= want && Reaches(s[r.size..], k - r.size, want - |Utf16Units(r.code)|)
    ensures Reaches(s, k, want)
  {
    hide DecodeRune, Transcode, Valid, Utf16Len;
    var n := DecodeRune(s).size;
    var rest := s[n..];
    SingleRuneValid(s);
    RuneBytesAreNotNewline(s);
    ConcatValid(s[..n], rest[..k - n]);
    assert s[..k] == s[..n] + rest[..k - n];
    assert rest[k - n..] == s[k..];
  }

  lemma RuneBytesAreNotNewline(s: seq<Byte>)
    requires WellFormedHead(s) && DecodeRune(s).code != NEWLINE
    ensures NoNewline(s[..DecodeRune(s).size])
  {
    forall i | 0 < i < DecodeRune(s).size ensures IsContinuation(s[i]) {
      CutRuneIsMalformed(s, i);
    }
  }

  /** In valid text, exactly the columns of the line can be reached. */
  lemma {:induction false} WalkAccepts(s: seq<Byte>, end: nat, want: nat)
    requires Valid(s) && end <= |s| && NoNewline(s[..end])
    requires end == |s| || s[end] == NEWLINE
    ensures Walk(s, want).Ok? <==> want <= Utf16Len(s[..end])
    decreases |s|
  {
    hide DecodeRune, Transcode, Utf16Len;
    EmptyText();
    if want > 0 && end > 0 {
      var r := DecodeRune(s);
      LineHead(s, end);
      if want >= |Utf16Units(r.code)| {
        WalkAccepts(s[r.size..], end - r.size, want - |Utf16Units(r.code)|);
      }
    }
  }

  /** The first rune of a line that is not empty, and the rest of the line. */
  lemma LineHead(s: seq<Byte>, end: nat)
    requires WellFormedHead(s) && 0 < end <= |s| && NoNewline(s[..end]) && (end == |s| || s[end] == NEWLINE)
    ensures var r := DecodeRune(s);
            && r.code != NEWLINE && r.size <= end && NoNewline(s[r.size..][..end - r.size])
            && Utf16Len(s[..end]) == |Utf16Units(r.code)| + Utf16Len(s[r.size..][..end - r.size])
  {
    hide DecodeRune, Transcode, Utf16Len, Valid;
    var n := DecodeRune(s).size;
    assert s[..end][0] == s[0];
    if end < n {
      CutRuneIsMalformed(s, end);
    }
    SingleRuneValid(s);
    assert s[..end] == s[..n] + s[n..][..end - n];
    ConcatValid(s[..n], s[n..][..end - n]);
  }

  lemma {:induction false} WalkMonotone(s: seq<Byte>, want1: nat, want2: nat)
    requires want1 <= want2 && Walk(s, want1).Ok? && Walk(s, want2).Ok?
    ensures Walk(s, want1).value <= Walk(s, want2).value
    decreases |s|
  {
    hide DecodeRune, Transcode, Utf16Units;
    if want1 > 0 {
      var r := DecodeRune(s);
      var units := |Utf16Units(r.code)|;
      if want1 >= units {
        WalkMonotone(s[r.size..], want1 - units, want2 - units);
      }
    }
  }

  // ----- theorems on valid text

  /** A byte offset that cuts no rune. */
  predicate IsBoundary(s: seq<Byte>, o: nat): (yes: bool)
    ensures yes ==> o <= |s|
  {
    o <= |s| && Valid(s[..o])
  }

  lemma AsciiBoundaries(s: seq<Byte>, i: nat)
    requires Valid(s) && i < |s| && s[i] < 0x80
    ensures IsBoundary(s, i) && IsBoundary(s, i + 1)
  {
    hide DecodeRune, Transcode, Utf16Len, Valid;
    BoundaryByNextByte(s, i);
    assert s[..i + 1] == s[..i] + [s[i]];
    ConcatValid(s[..i], [s[i]]);
    AsciiByteValid(s[i]);
  }

  lemma LineStartIsBoundary(s: seq<Byte>, line: nat)
    requires Valid(s) && line < |LineStarts(s)|
    ensures IsBoundary(s, LineStarts(s)[line])
    ensures Valid(s[LineStarts(s)[line]..])
  {
    hide DecodeRune, Transcode, Utf16Len, LineStarts;
    var start := LineStarts(s)[line];
    if line > 0 {
      AsciiBoundaries(s, start - 1);
    }
    assert s == s[..start] + s[start..];
    ConcatValid(s[..start], s[start..]);
  }

  /** Between two boundaries the text is valid and its UTF-16 length is the difference of
      the lengths up to them. */
  lemma BetweenBoundaries(s: seq<Byte>, a: nat, b: nat)
    requires IsBoundary(s, a) && IsBoundary(s, b) && a <= b
    ensures Valid(s[a..b]) && Utf16Len(s[..b]) == Utf16Len(s[..a]) + Utf16Len(s[a..b])
  {
    assert s[..b] == s[..a] + s[a..b];
    ConcatValid(s[..a], s[a..b]);
  }

  lemma ColumnOfBoundary(s: seq<Byte>, o: nat)
    requires Valid(s) && IsBoundary(s, o)
    ensures IsBoundary(s, LineStart(s, o)) && Valid(s[LineStart(s, o)..o])
  {
    hide DecodeRune, Transcode, Utf16Len, Valid, IsBoundary, LineStarts;
    OffsetWithinLine(s, o);
    LineStartIsBoundary(s, LineOf(s, o));
    BetweenBoundaries(s, LineStart(s, o), o);
  }

  /** The offsets around a carriage return at a line end cut no rune, and are on its line. */
  lemma LineEndCRBoundary(s: seq<Byte>, o: nat)
    requires Valid(s) && o <= |s| && AfterLineEndCR(s, o)
    ensures LineStart(s, o) <= o - 1 && IsBoundary(s, o - 1) && IsBoundary(s, o)
  {
    hide DecodeRune, Transcode, Utf16Len, Valid, IsBoundary, LineStarts, LineStart;
    LineStartFollowsNewline(s, o);
    AsciiBoundaries(s, o - 1);
  }

  /** An ASCII byte behind valid text makes it one unit wider. */
  lemma OneAsciiWider(a: seq<Byte>, b: Byte)
    requires Valid(a) && b < 0x80
    ensures Utf16Len(a + [b]) == Utf16Len(a) + 1
  {
    hide DecodeRune, Transcode, Valid;
    ConcatValid(a, [b]);
    AsciiUtf16Len([b]);
  }

  /** A carriage return at a line end is one unit wide and belongs to the line it ends. */
  lemma LineEndCRColumn(s: seq<Byte>, o: nat)
    requires Valid(s) && o <= |s| && AfterLineEndCR(s, o)
    ensures LineStart(s, o) <= o - 1 && IsBoundary(s, o - 1) && IsBoundary(s, o)
    ensures Utf16Len(s[LineStart(s, o)..o]) == Utf16Len(s[LineStart(s, o)..o - 1]) + 1
  {
    hide DecodeRune, Transcode, Utf16Len, Valid, IsBoundary, LineStarts, LineStart;
    var start := LineStart(s, o);
    LineEndCRBoundary(s, o);
    ColumnOfBoundary(s, o);
    BetweenBoundaries(s, start, o - 1);
    OneAsciiWider(s[start..o - 1], CARRIAGE_RETURN);
    assert s[start..o] == s[start..o - 1] + [CARRIAGE_RETURN];
  }

  lemma LineStartFollowsNewline(s: seq<Byte>, o: nat)
    requires o <= |s|
    ensures LineStart(s, o) == 0 || s[LineStart(s, o) - 1] == NEWLINE
  {
    assert s[..o][..LineStart(s, o)] == s[..LineStart(s, o)];
  }

  /** The offset a boundary comes back to after a round trip through its position. */
  function Settled(s: seq<Byte>, o: nat): nat
    requires o <= |s|
  {
    if AfterLineEndCR(s, o) then o - 1 else o
  }

  /** Round trip: an offset comes back unchanged, except that one between a carriage return
      and its line end moves before the carriage return. */
  lemma OffsetRoundTrip(s: seq<Byte>, o: nat)
    requires Valid(s) && IsBoundary(s, o)
    ensures OffsetPosition(s, o).Ok?
    ensures PositionOffset(s, OffsetPosition(s, o).value) == Ok(Settled(s, o))
  {
    hide DecodeRune, Transcode, Utf16Len, Valid, Walk, LineStarts, IsBoundary;
    if AfterLineEndCR(s, o) {
      LineEndCRColumn(s, o);
    }
    OffsetWithinLine(s, o);
    ResolvesColumn(s, o, Settled(s, o));
  }

  /** The column of a boundary on the line of o resolves to that boundary. */
  lemma ResolvesColumn(s: seq<Byte>, o: nat, back: nat)
    requires Valid(s) && IsBoundary(s, o) && IsBoundary(s, back) && LineStart(s, o) <= back <= o
    ensures PositionOffset(s, Position(LineOf(s, o), Utf16Len(s[LineStart(s, o)..back]))) == Ok(back)
  {
    hide DecodeRune, Transcode, Utf16Len, Valid, Walk, LineStarts, IsBoundary;
    ColumnOfBoundary(s, o);
    OffsetWithinLine(s, o);
    var start := LineStart(s, o);
    BetweenBoundaries(s, start, back);
    assert s[start..][..back - start] == s[start..back];
    assert s[start..back] <= s[start..o];
    WalkFinds(s[start..], back - start);
  }

  /** Positions of boundaries follow document order; two boundaries share a position only
      around a carriage return at a line end. */
  lemma OffsetPositionMonotone(s: seq<Byte>, a: nat, b: nat)
    requires Valid(s) && IsBoundary(s, a) && IsBoundary(s, b) && a <= b
    ensures OffsetPosition(s, a).Ok? && OffsetPosition(s, b).Ok?
    ensures AtMost(OffsetPosition(s, a).value, OffsetPosition(s, b).value)
    ensures OffsetPosition(s, a) == OffsetPosition(s, b) <==>
            a == b || (b == a + 1 && AfterLineEndCR(s, b))
  {
    hide DecodeRune, Transcode, Utf16Len, Valid, LineStarts, IsBoundary;
    if a < b {
      LinesInOrder(s, a, b);
      if AfterLineEndCR(s, b) {
        LineEndCRColumn(s, b);
      }
      if LineOf(s, a) == LineOf(s, b) {
        ColumnsGrow(s, a, b);
      }
    }
  }

  lemma LinesInOrder(s: seq<Byte>, a: nat, b: nat)
    requires a <= b <= |s|
    ensures LineOf(s, a) <= LineOf(s, b)
    ensures LineOf(s, a) == LineOf(s, b) <==> LineStart(s, b) <= a
    ensures LineOf(s, a) == LineOf(s, b) ==> LineStart(s, a) == LineStart(s, b)
  {
    hide LineStarts;
    StartsOfPrefix(s[..b], a);
    assert s[..b][..a] == s[..a];
  }

  lemma ColumnsGrow(s: seq<Byte>, a: nat, b: nat)
    requires Valid(s) && IsBoundary(s, a) && IsBoundary(s, b) && a < b && LineOf(s, a) == LineOf(s, b)
    ensures !AfterLineEndCR(s, a) && LineStart(s, a) == LineStart(s, b)
    ensures var start := LineStart(s, b);
            && Utf16Len(s[start..a]) < Utf16Len(s[start..b])
            && (AfterLineEndCR(s, b) ==>
                  (Utf16Len(s[start..a]) + 1 == Utf16Len(s[start..b]) <==> b == a + 1))
  {
    hide DecodeRune, Transcode, Utf16Len, Valid, LineOf, LineStart, IsBoundary;
    LinesInOrder(s, a, b);
    OffsetWithinLine(s, b);
    var start := LineStart(s, b);
    assert s[a] in s[start..b];
    ColumnOfBoundary(s, a);
    WidthGrows(s, start, a, b);
    if AfterLineEndCR(s, b) {
      LineEndCRColumn(s, b);
      if a < b - 1 {
        WidthGrows(s, start, a, b - 1);
      }
    }
  }

  lemma WidthGrows(s: seq<Byte>, start: nat, a: nat, b: nat)
    requires start <= a < b <= |s| && Valid(s[start..a])
    ensures Utf16Len(s[start..a]) < Utf16Len(s[start..b])
  {
    hide DecodeRune, Transcode, Valid;
    assert s[start..b] == s[start..a] + s[a..b];
    ConcatValid(s[start..a], s[a..b]);
  }

  /** Exactly which positions are accepted in valid text. */
  predicate IsPositionOf(s: seq<Byte>, p: Position) {
    var starts := LineStarts(s);
    || (p.line < |starts| && p.character <= Utf16Len(LineText(s, p.line)))
    || p == Position(|starts|, 0)
  }

  lemma AcceptedPositions(s: seq<Byte>, p: Position)
    requires Valid(s)
    ensures PositionOffset(s, p).Ok? <==> IsPositionOf(s, p)
  {
    hide DecodeRune, Transcode, Valid, LineStarts, Walk;
    var starts := LineStarts(s);
    if p.line < |starts| {
      var start, end := starts[p.line], LineEnd(s, p.line);
      LineStartIsBoundary(s, p.line);
      LineHasNoNewline(s, p.line);
      assert s[start..][..end - start] == LineText(s, p.line);
      WalkAccepts(s[start..], end - start, p.character);
    }
  }

  /** The column is reached exactly, not rounded down inside a surrogate pair, and the line
      is one of the text's own. */
  predicate IsExact(s: seq<Byte>, p: Position) {
    && p.line < |LineStarts(s)|
    && PositionOffset(s, p).Ok?
    && Utf16Len(s[LineStarts(s)[p.line]..PositionOffset(s, p).value]) == p.character
  }

  /** An accepted position resolves to a boundary on its own line. */
  lemma ResolvedOffset(s: seq<Byte>, p: Position)
    requires PositionOffset(s, p).Ok? && p.line < |LineStarts(s)|
    ensures var o := PositionOffset(s, p).value;
            var start := LineStarts(s)[p.line];
            && start <= o <= LineEnd(s, p.line)
            && Valid(s[start..o]) && NoNewline(s[start..o])
            && LineOf(s, o) == p.line && LineStart(s, o) == start
            && Utf16Len(s[start..o]) <= p.character
            && (IsExact(s, p) || (Utf16Len(s[start..o]) + 1 == p.character && DecodeRune(s[o..]).code >= 0x10000))
  {
    hide DecodeRune, Transcode, Utf16Len, Valid, LineStarts, Walk, Reaches;
    var o := PositionOffset(s, p).value;
    var start := LineStarts(s)[p.line];
    WalkSound(s[start..], p.character);
    ReachesWithin(s, start, o, p.character);
    StaysOnLine(s, p.line, o);
    LineOfUnique(s, o, p.line);
  }

  lemma ReachesWithin(s: seq<Byte>, start: nat, o: nat, want: nat)
    requires start <= o <= |s| && Reaches(s[start..], o - start, want)
    ensures Valid(s[start..o]) && NoNewline(s[start..o])
    ensures || Utf16Len(s[start..o]) == want
            || (Utf16Len(s[start..o]) + 1 == want && DecodeRune(s[o..]).code >= 0x10000)
  {
    hide DecodeRune, Transcode, Utf16Len, Valid;
    assert s[start..][..o - start] == s[start..o];
    assert s[start..][o - start..] == s[o..];
  }

  lemma StaysOnLine(s: seq<Byte>, line: nat, o: nat)
    requires line < |LineStarts(s)| && LineStarts(s)[line] <= o <= |s|
    requires NoNewline(s[LineStarts(s)[line]..o])
    ensures o <= LineEnd(s, line)
  {
    hide LineStarts;
    LineHasNoNewline(s, line);
    assert forall k :: LineStarts(s)[line] <= k < o ==> s[k] in s[LineStarts(s)[line]..o];
  }

  lemma ResolvedIsBoundary(s: seq<Byte>, p: Position)
    requires Valid(s) && PositionOffset(s, p).Ok?
    ensures IsBoundary(s, PositionOffset(s, p).value)
  {
    hide DecodeRune, Transcode, Valid, LineStarts, Walk;
    if p.line < |LineStarts(s)| {
      ResolvedOffset(s, p);
      LineStartIsBoundary(s, p.line);
      var start, o := LineStarts(s)[p.line], PositionOffset(s, p).value;
      ConcatValid(s[..start], s[start..o]);
      assert s[..o] == s[..start] + s[start..o];
    } else {
      assert s[..|s|] == s;
    }
  }

  /** Resolving positions follows document order. */
  lemma PositionOffsetMonotone(s: seq<Byte>, p: Position, q: Position)
    requires AtMost(p, q) && PositionOffset(s, p).Ok? && PositionOffset(s, q).Ok?
    ensures PositionOffset(s, p).value <= PositionOffset(s, q).value
  {
    hide DecodeRune, Transcode, Valid, LineStarts, Walk;
    var starts := LineStarts(s);
    if q.line < |starts| {
      ResolvedOffset(s, p);
      if p.line == q.line {
        WalkMonotone(s[starts[p.line]..], p.character, q.character);
      } else {
        assert starts[p.line + 1] <= starts[q.line];
        ResolvedOffset(s, q);
      }
    }
  }

  /** The other round trip: a position comes back unchanged exactly when it names one of the
      text's lines, splits no surrogate pair and is not behind a carriage return at a line end. */
  lemma PositionRoundTrip(s: seq<Byte>, p: Position)
    requires PositionOffset(s, p).Ok?
    ensures var o := PositionOffset(s, p).value;
            OffsetPosition(s, o) == Ok(p) <==> IsExact(s, p) && !AfterLineEndCR(s, o)
  {
    hide DecodeRune, Transcode, Valid, LineStarts, Walk;
    var o := PositionOffset(s, p).value;
    OffsetWithinLine(s, o);
    if p.line < |LineStarts(s)| {
      ResolvedOffset(s, p);
      var start := LineStarts(s)[p.line];
    }
  }

  /** The position stands for an offset: it is exact, and resolves to the offset, or to the one
      before it between a carriage return and its line end. */
  predicate StandsFor(s: seq<Byte>, p: Position, o: nat) {
    o <= |s| && IsExact(s, p) && PositionOffset(s, p) == Ok(Settled(s, o))
  }

  /** The position of a boundary stands for it. */
  lemma OffsetPositionStandsFor(s: seq<Byte>, o: nat)
    requires Valid(s) && IsBoundary(s, o)
    ensures OffsetPosition(s, o).Ok? && StandsFor(s, OffsetPosition(s, o).value, o)
  {
    hide DecodeRune, Transcode, Utf16Len, Valid, Walk, LineStarts, IsBoundary, PositionOffset;
    OffsetRoundTrip(s, o);
    OffsetWithinLine(s, o);
    if AfterLineEndCR(s, o) {
      LineEndCRColumn(s, o);
    }
  }

  /** No other position does. */
  lemma StandsForOne(s: seq<Byte>, p: Position, q: Position, o: nat)
    requires StandsFor(s, p, o) && StandsFor(s, q, o)
    ensures p == q
  {
    hide DecodeRune, Transcode, Utf16Len, Valid, Walk, LineStarts, PositionOffset;
    ResolvedOffset(s, p);
    ResolvedOffset(s, q);
  }

  /** The round trip of offsets in bytes: a boundary comes back unless it follows a carriage return, 13,
      that ends the text or is followed by a newline, 10; then the offset before it does. */
  lemma OffsetComesBack(s: seq<Byte>, o: nat)
    requires Valid(s) && IsBoundary(s, o)
    ensures OffsetPosition(s, o).Ok?
    ensures PositionOffset(s, OffsetPosition(s, o).value) ==
            if o > 0 && s[o - 1] == 13 && (o == |s| || s[o] == 10) then Ok(o - 1) else Ok(o)
  {
    hide PositionOffset, OffsetPosition, Valid, IsBoundary;
    OffsetRoundTrip(s, o);
  }

  /** The start of the line after the last, and of the first line, resolve to the ends of the text. */
  lemma EndsResolve(s: seq<Byte>)
    ensures PositionOffset(s, Position(|LineStarts(s)|, 0)) == Ok(|s|)
    ensures PositionOffset(s, Position(0, 0)) == Ok(0)
  {
    hide LineStarts;
  }

  lemma {:induction false} WalkRejects(s: seq<Byte>, end: nat, want: nat)
    requires Valid(s) && end <= |s| && NoNewline(s[..end]) && (end == |s| || s[end] == NEWLINE)
    requires want > Utf16Len(s[..end])
    ensures Walk(s, want) == Err(if end == |s| then BeyondEndOfFile else BeyondEndOfLine)
    decreases |s|
  {
    hide DecodeRune, Transcode, Utf16Len;
    EmptyText();
    if end > 0 {
      var r := DecodeRune(s);
      LineHead(s, end);
      WalkRejects(s[r.size..], end - r.size, want - |Utf16Units(r.code)|);
    } else {
      assert s[..end] == [];
    }
  }

  /** Why a position is rejected in valid text: its line is out of range, or its column is beyond the
      end of its line, or, on the last line and the one after it, beyond the end of the text. */
  lemma RejectedPositions(s: seq<Byte>, p: Position)
    requires Valid(s) && !IsPositionOf(s, p)
    ensures PositionOffset(s, p) ==
            Err(if p.line > |LineStarts(s)| then LineOutOfRange
                else if p.line + 1 >= |LineStarts(s)| then BeyondEndOfFile
                else BeyondEndOfLine)
  {
    hide DecodeRune, Transcode, Utf16Len, Valid, LineStarts, Walk;
    var starts := LineStarts(s);
    if p.line < |starts| {
      var start, end := starts[p.line], LineEnd(s, p.line);
      LineStartIsBoundary(s, p.line);
      LineHasNoNewline(s, p.line);
      assert s[start..][..end - start] == LineText(s, p.line);
      WalkRejects(s[start..], end - start, p.character);
    }
  }
}
