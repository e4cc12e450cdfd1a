/** Turning a diff script into the TextEdit[] that makes the same change, and what such an
    array does to a document by section "TextEdit[]" of the LSP 3.17 specification. */
module TextEdits {
  import opened Bytes
  import opened Utf8
  import opened Wrappers
  import opened Positions
  import opened TextOffsetMapping
  import opened Diffs

  /** Replaces the bytes from start to end. */
  datatype EditOffset = EditOffset(start: nat, end: nat, text: seq<Byte>)

  datatype Range = Range(start: Position, end: Position)

  datatype TextEdit = TextEdit(range: Range, newText: seq<Byte>)

  // ----- from diffs to edits

  /** The edit that a segment standing at the offset makes; none for unchanged text. */
  function EditOf(d: Diff, offset: nat): seq<EditOffset> {
    match d.kind
    case Delete => [EditOffset(offset, offset + |d.text|, [])]
    case Equal => []
    case Insert => [EditOffset(offset, offset, d.text)]
  }

  /** The edits of a script, in offsets of its source text. */
  function EditsOf(diffs: seq<Diff>, offset: nat): seq<EditOffset> {
    if diffs == [] then [] else
      EditOf(diffs[0], offset) + EditsOf(diffs[1..], offset + |diffs[0].FromSource()|)
  }

  /** The first segment and the rest of a script. */
  lemma Unfold(diffs: seq<Diff>, offset: nat)
    requires diffs != []
    ensures Source(diffs) == diffs[0].FromSource() + Source(diffs[1..])
    ensures Target(diffs) == diffs[0].FromTarget() + Target(diffs[1..])
    ensures EditsOf(diffs, offset)
            == EditOf(diffs[0], offset) + EditsOf(diffs[1..], offset + |diffs[0].FromSource()|)
  {
  }

  lemma EmptyScript(offset: nat)
    ensures Source([]) == Target([]) == [] && EditsOf([], offset) == []
  {
  }

  lemma NoDiffsLeft(diffs: seq<Diff>)
    ensures Source(diffs[|diffs|..]) == [] && forall offset :: EditsOf(diffs[|diffs|..], offset) == []
  {
  }

  lemma Regroup<T>(a: seq<T>, b: seq<T>, c: seq<T>)
    ensures a + (b + c) == a + b + c
  {
  }

  method DiffsToEditOffsets(diffs: seq<Diff>) returns (initialText: seq<Byte>, edits: seq<EditOffset>)
    ensures initialText == Source(diffs) && edits == EditsOf(diffs, 0)
  {
    hide Source, EditsOf;
    initialText, edits := [], [];
    var offset := 0;
    assert diffs[0..] == diffs && [] + Source(diffs) == Source(diffs) && [] + EditsOf(diffs, 0) == EditsOf(diffs, 0);
    for i := 0 to |diffs|
      invariant offset == |initialText|
      invariant initialText + Source(diffs[i..]) == Source(diffs)
      invariant edits + EditsOf(diffs[i..], offset) == EditsOf(diffs, 0)
    {
      var d := diffs[i];
      var start := offset;
      assert diffs[i..][1..] == diffs[i + 1..];
      Unfold(diffs[i..], offset);
      Regroup(initialText, d.FromSource(), Source(diffs[i + 1..]));
      Regroup(edits, EditOf(d, offset), EditsOf(diffs[i + 1..], offset + |d.FromSource()|));
      ghost var made, seen := edits, initialText;
      match d.kind {
        case Delete =>
          initialText := initialText + d.text;
          offset := offset + |d.text|;
          edits := edits + [EditOffset(start, offset, [])];
        case Equal =>
          initialText := initialText + d.text;
          offset := offset + |d.text|;
        case Insert =>
          edits := edits + [EditOffset(start, start, d.text)];
      }
      assert edits == made + EditOf(d, start) && initialText == seen + d.FromSource();
    }
    NoDiffsLeft(diffs);
  }

  /** The edit with its ends as positions of the text. */
  function ToTextEdit(text: seq<Byte>, e: EditOffset): Result<TextEdit, PositionError> {
    match OffsetPosition(text, e.start)
    case Err(error) => Err(error)
    case Ok(start) =>
      match OffsetPosition(text, e.end)
      case Err(error) => Err(error)
      case Ok(end) => Ok(TextEdit(Range(start, end), e.text))
  }

  function ToTextEdits(text: seq<Byte>, edits: seq<EditOffset>): Result<seq<TextEdit>, PositionError> {
    if edits == [] then Ok([]) else
      match ToTextEdit(text, edits[0])
      case Err(error) => Err(error)
      case Ok(e) =>
        match ToTextEdits(text, edits[1..])
        case Err(error) => Err(error)
        case Ok(rest) => Ok([e] + rest)
  }

  lemma UnfoldTextEdits(text: seq<Byte>, edits: seq<EditOffset>, i: nat)
    requires i < |edits|
    ensures ToTextEdits(text, edits[i..]) ==
            if ToTextEdit(text, edits[i]).Err? then Err(ToTextEdit(text, edits[i]).error)
            else if ToTextEdits(text, edits[i + 1..]).Err? then ToTextEdits(text, edits[i + 1..])
            else Ok([ToTextEdit(text, edits[i]).value] + ToTextEdits(text, edits[i + 1..]).value)
  {
    assert edits[i..][1..] == edits[i + 1..];
  }

  lemma NoEditsLeft(text: seq<Byte>, edits: seq<EditOffset>)
    ensures ToTextEdits(text, edits[|edits|..]) == Ok([])
  {
  }

  method EditOffsetsToTextEdits(initialText: seq<Byte>, edits: seq<EditOffset>)
    returns (r: Result<seq<TextEdit>, PositionError>)
    ensures r == ToTextEdits(initialText, edits)
  {
    hide ToTextEdits;
    var result := [];
    assert edits[0..] == edits;
    var m := new TextOffsetMapper(initialText);
    for i := 0 to |edits|
      invariant m.Consistent() && fresh(m)
      invariant match ToTextEdits(initialText, edits[i..])
                case Ok(rest) => ToTextEdits(initialText, edits).Ok? && ToTextEdits(initialText, edits).value == result + rest
                case Err(e) => ToTextEdits(initialText, edits) == Err(e)
    {
      UnfoldTextEdits(initialText, edits, i);
      var start := m.OffsetPosition(edits[i].start);
      if start.Err? {
        return Err(start.error);
      }
      var end := m.OffsetPosition(edits[i].end);
      if end.Err? {
        return Err(end.error);
      }
      ghost var made := [TextEdit(Range(start.value, end.value), edits[i].text)];
      if ToTextEdits(initialText, edits[i + 1..]).Ok? {
        Regroup(result, made, ToTextEdits(initialText, edits[i + 1..]).value);
      }
      result := result + [TextEdit(Range(start.value, end.value), edits[i].text)];
    }
    NoEditsLeft(initialText, edits);
    assert result + [] == result;
    return Ok(result);
  }

  method DiffsToTextEdits(diffs: seq<Diff>) returns (r: Result<seq<TextEdit>, PositionError>)
    ensures r == ToTextEdits(Source(diffs), EditsOf(diffs, 0))
    ensures SplitsAtRunes(diffs) && Ordered(EditsOf(diffs, 0), 0, |Source(diffs)|)
            && AllSurvive(Source(diffs), EditsOf(diffs, 0), 0) ==>
              r.Ok? && ApplyTextEdits(Source(diffs), r.value) == Ok(Target(diffs))
  {
    hide ToTextEdits, ApplyTextEdits, SplitsAtRunes, AllSurvive, Ordered, EditsOf, Source, Target;
    if SplitsAtRunes(diffs) && Ordered(EditsOf(diffs, 0), 0, |Source(diffs)|) && AllSurvive(Source(diffs), EditsOf(diffs, 0), 0) {
      TextEditsReachTarget(diffs);
    }
    var text, edits := DiffsToEditOffsets(diffs);
    r := EditOffsetsToTextEdits(text, edits);
  }

  // ----- what an array of edits does to a document

  /** In order and not overlapping, from some offset on. Insertions may share a start, also
      with one replacement. */
  predicate Ordered(edits: seq<EditOffset>, from: nat, size: nat) {
    edits != [] ==>
      && from <= edits[0].start <= edits[0].end <= size
      && Ordered(edits[1..], edits[0].end, size)
  }

  function Splice(text: seq<Byte>, e: EditOffset): seq<Byte>
    requires e.start <= e.end <= |text|
  {
    text[..e.start] + e.text + text[e.end..]
  }

  /** All edits refer to the document as it was, so the last one is made first. */
  function ApplyOrdered(text: seq<Byte>, edits: seq<EditOffset>, from: nat): (r: seq<Byte>)
    requires from <= |text| && Ordered(edits, from, |text|)
    ensures text[..from] <= r
  {
    if edits == [] then text else
      Splice(ApplyOrdered(text, edits[1..], edits[0].end), edits[0])
  }

  /** Puts an edit before the first that does not start earlier. */
  function InsertByStart(e: EditOffset, sorted: seq<EditOffset>): seq<EditOffset> {
    if sorted == [] || e.start <= sorted[0].start then [e] + sorted
    else [sorted[0]] + InsertByStart(e, sorted[1..])
  }

  /** A stable sort: insertions at one place keep their order in the array. */
  function SortByStart(edits: seq<EditOffset>): seq<EditOffset> {
    if edits == [] then [] else InsertByStart(edits[0], SortByStart(edits[1..]))
  }

  datatype EditError = BadPosition(cause: PositionError) | OverlappingEdits

  function Resolve(text: seq<Byte>, edits: seq<TextEdit>): Result<seq<EditOffset>, EditError> {
    if edits == [] then Ok([]) else
      match PositionOffset(text, edits[0].range.start)
      case Err(e) => Err(BadPosition(e))
      case Ok(start) =>
        match PositionOffset(text, edits[0].range.end)
        case Err(e) => Err(BadPosition(e))
        case Ok(end) =>
          match Resolve(text, edits[1..])
          case Err(e) => Err(e)
          case Ok(rest) => Ok([EditOffset(start, end, edits[0].newText)] + rest)
  }

  /** The client's side: resolve every range in the document, order the edits, reject
      overlaps, and make the changes. */
  function ApplyTextEdits(text: seq<Byte>, edits: seq<TextEdit>): Result<seq<Byte>, EditError> {
    match Resolve(text, edits)
    case Err(e) => Err(e)
    case Ok(resolved) =>
      var sorted := SortByStart(resolved);
      if Ordered(sorted, 0, |text|) then Ok(ApplyOrdered(text, sorted, 0)) else Err(OverlappingEdits)
  }

  lemma {:induction false} OrderedIsSorted(edits: seq<EditOffset>, from: nat, size: nat)
    requires Ordered(edits, from, size)
    ensures SortByStart(edits) == edits
  {
    if edits != [] {
      OrderedIsSorted(edits[1..], edits[0].end, size);
    }
  }

  // ----- in offsets, the edits make exactly the change of the script

  lemma {:induction false} EditsAreOrdered(diffs: seq<Diff>, offset: nat, from: nat)
    requires from <= offset
    ensures Ordered(EditsOf(diffs, offset), from, offset + |Source(diffs)|)
    decreases |diffs|
  {
    hide Source, EditsOf;
    EmptyScript(offset);
    if diffs != [] {
      Unfold(diffs, offset);
      var d, rest := diffs[0], diffs[1..];
      var next := offset + |d.FromSource()|;
      var later := EditsOf(rest, next);
      if d.kind.Equal? {
        EditsAreOrdered(rest, next, from);
        assert EditsOf(diffs, offset) == later;
      } else {
        EditsAreOrdered(rest, next, next);
        assert EditsOf(diffs, offset)[1..] == later;
      }
    }
  }

  lemma {:induction false} EditsReachTarget(before: seq<Byte>, diffs: seq<Diff>, from: nat)
    requires from <= |before|
    ensures Ordered(EditsOf(diffs, |before|), from, |before + Source(diffs)|)
    ensures ApplyOrdered(before + Source(diffs), EditsOf(diffs, |before|), from) == before + Target(diffs)
    decreases |diffs|
  {
    hide Source, Target, EditsOf;
    EmptyScript(|before|);
    EditsAreOrdered(diffs, |before|, from);
    if diffs != [] {
      Unfold(diffs, |before|);
      var d, rest := diffs[0], diffs[1..];
      var middle := d.FromSource();
      var later := EditsOf(rest, |before + middle|);
      Regroup(before, middle, Source(rest));
      if d.kind.Equal? {
        assert EditsOf(diffs, |before|) == later;
        EditsReachTarget(before + middle, rest, from);
        Regroup(before, middle, Target(rest));
      } else {
        EditsReachTarget(before + middle, rest, |before + middle|);
        var e := EditOf(d, |before|)[0];
        assert EditsOf(diffs, |before|)[1..] == later && EditsOf(diffs, |before|)[0] == e;
        SpliceAfter(before, middle, Target(rest), e);
      }
    }
  }

  lemma SpliceAfter(before: seq<Byte>, middle: seq<Byte>, after: seq<Byte>, e: EditOffset)
    requires e.start == |before| && e.end == |before + middle|
    ensures Splice(before + middle + after, e) == before + (e.text + after)
  {
  }

  // ----- through positions

  /** The edit as a client sees it once its positions are resolved. */
  function SettledEdit(text: seq<Byte>, e: EditOffset): EditOffset
    requires e.start <= e.end <= |text|
  {
    EditOffset(Settled(text, e.start), Settled(text, e.end), e.text)
  }

  function SettledEdits(text: seq<Byte>, edits: seq<EditOffset>, from: nat): (r: seq<EditOffset>)
    requires Ordered(edits, from, |text|)
    ensures |r| == |edits|
  {
    if edits == [] then [] else [SettledEdit(text, edits[0])] + SettledEdits(text, edits[1..], edits[0].end)
  }

  /** Every edit starts and ends at a rune boundary. */
  predicate AtBoundaries(text: seq<Byte>, edits: seq<EditOffset>) {
    edits != [] ==>
      IsBoundary(text, edits[0].start) && IsBoundary(text, edits[0].end) && AtBoundaries(text, edits[1..])
  }

  lemma {:induction false} EditsAtBoundaries(before: seq<Byte>, diffs: seq<Diff>)
    requires Valid(before) && SplitsAtRunes(diffs)
    ensures AtBoundaries(before + Source(diffs), EditsOf(diffs, |before|))
    decreases |diffs|
  {
    hide DecodeRune, Utf16Len, Transcode, Valid, Source, EditsOf, IsBoundary, SplitsAtRunes;
    EmptyScript(|before|);
    if diffs != [] {
      Unfold(diffs, |before|);
      SplitsFirst(diffs);
      var d, rest := diffs[0], diffs[1..];
      var middle := d.FromSource();
      ConcatValid(before, middle);
      EditsAtBoundaries(before + middle, rest);
      Regroup(before, middle, Source(rest));
      EndsOfMiddle(before, middle, Source(rest));
      if d.kind.Equal? {
        assert EditsOf(diffs, |before|) == EditsOf(rest, |before + middle|);
      } else {
        assert EditsOf(diffs, |before|)[1..] == EditsOf(rest, |before + middle|);
      }
    }
  }

  lemma SplitsFirst(diffs: seq<Diff>)
    requires diffs != [] && SplitsAtRunes(diffs)
    ensures Valid(diffs[0].FromSource()) && SplitsAtRunes(diffs[1..])
  {
    hide DecodeRune;
    assert diffs[0] in diffs;
  }

  lemma EndsOfMiddle(before: seq<Byte>, middle: seq<Byte>, after: seq<Byte>)
    requires Valid(before) && Valid(before + middle)
    ensures IsBoundary(before + middle + after, |before|) && IsBoundary(before + middle + after, |before + middle|)
  {
    hide DecodeRune, Valid;
    var text := before + middle + after;
    assert text[..|before|] == before && text[..|before + middle|] == before + middle;
  }

  /** A client that resolves the converted edits gets the settled ones. */
  lemma {:induction false} ClientSeesSettled(text: seq<Byte>, edits: seq<EditOffset>, from: nat)
    requires Valid(text) && AtBoundaries(text, edits) && Ordered(edits, from, |text|)
    ensures ToTextEdits(text, edits).Ok?
    ensures Resolve(text, ToTextEdits(text, edits).value) == Ok(SettledEdits(text, edits, from))
    decreases |edits|
  {
    hide DecodeRune, Utf16Len, Transcode, Valid, PositionOffset, OffsetPosition, IsBoundary, Settled;
    if edits != [] {
      OffsetRoundTrip(text, edits[0].start);
      OffsetRoundTrip(text, edits[0].end);
      ClientSeesSettled(text, edits[1..], edits[0].end);
      var out := ToTextEdits(text, edits).value;
      assert out[1..] == ToTextEdits(text, edits[1..]).value;
    }
  }

  lemma {:induction false} SettledStayOrdered(text: seq<Byte>, edits: seq<EditOffset>, from: nat)
    requires from <= |text| && Ordered(edits, from, |text|)
    ensures Ordered(SettledEdits(text, edits, from), Settled(text, from), |text|)
    decreases |edits|
  {
    if edits != [] {
      var e := edits[0];
      SettledMonotone(text, from, e.start);
      SettledMonotone(text, e.start, e.end);
      SettledStayOrdered(text, edits[1..], e.end);
      assert SettledEdits(text, edits, from)[1..] == SettledEdits(text, edits[1..], e.end);
    }
  }

  lemma SettledMonotone(text: seq<Byte>, a: nat, b: nat)
    requires a <= b <= |text|
    ensures Settled(text, a) <= Settled(text, b) <= |text|
  {
  }

  /** For every script split at rune boundaries, the array is accepted by the client and has
      the effect of the settled edits. */
  lemma EffectOfTextEdits(diffs: seq<Diff>)
    requires SplitsAtRunes(diffs)
    ensures var text, edits := Source(diffs), EditsOf(diffs, 0);
            && Ordered(edits, 0, |text|) && Ordered(SettledEdits(text, edits, 0), 0, |text|)
            && ToTextEdits(text, edits).Ok?
            && ApplyTextEdits(text, ToTextEdits(text, edits).value)
               == Ok(ApplyOrdered(text, SettledEdits(text, edits, 0), 0))
  {
    hide DecodeRune, Utf16Len, Transcode, Valid, Source, EditsOf, ToTextEdits, Resolve, SortByStart, Ordered, SettledEdits, AtBoundaries;
    var text, edits := Source(diffs), EditsOf(diffs, 0);
    SidesAreValid(diffs);
    EmptyText();
    EditsAreOrdered(diffs, 0, 0);
    EditsAtBoundaries([], diffs);
    assert [] + text == text;
    ClientSeesSettled(text, edits, 0);
    SettledStayOrdered(text, edits, 0);
    OrderedIsSorted(SettledEdits(text, edits, 0), 0, |text|);
  }

  predicate AllCR(t: seq<Byte>) {
    forall i :: 0 <= i < |t| ==> t[i] == CARRIAGE_RETURN
  }

  /** The edit survives the conversion: no end, or both, lie between a carriage return and its
      line end, and in the latter case the new text is carriage returns only. */
  predicate Survives(text: seq<Byte>, e: EditOffset)
    requires e.start <= e.end <= |text|
  {
    && (AfterLineEndCR(text, e.start) <==> AfterLineEndCR(text, e.end))
    && (AfterLineEndCR(text, e.start) ==> AllCR(e.text))
  }

  /** This is exact: settling an edit leaves its effect unchanged if and only if it survives. */
  lemma SurvivesIffSameEffect(text: seq<Byte>, e: EditOffset)
    requires e.start <= e.end <= |text|
    ensures Splice(text, SettledEdit(text, e)) == Splice(text, e) <==> Survives(text, e)
  {
    var f := SettledEdit(text, e);
    var a, b := Splice(text, f), Splice(text, e);
    if AfterLineEndCR(text, e.start) && AfterLineEndCR(text, e.end) {
      var cr := [CARRIAGE_RETURN];
      var head, tail := text[..e.start - 1], text[e.end..];
      assert text[..e.start] == head + cr && text[e.end - 1..] == cr + tail;
      assert a == head + (e.text + cr) + tail && b == head + (cr + e.text) + tail;
      MiddleCancels(head, e.text + cr, cr + e.text, tail);
      CommutesWithCR(e.text);
    } else {
      assert |a| - |b| == (e.end - f.end) - (e.start - f.start);
    }
  }

  lemma MiddleCancels(head: seq<Byte>, x: seq<Byte>, y: seq<Byte>, tail: seq<Byte>)
    requires |x| == |y|
    ensures head + x + tail == head + y + tail <==> x == y
  {
    assert (head + x + tail)[|head|..|head| + |x|] == x;
    assert (head + y + tail)[|head|..|head| + |y|] == y;
  }

  lemma {:induction false} CommutesWithCR(t: seq<Byte>)
    ensures t + [CARRIAGE_RETURN] == [CARRIAGE_RETURN] + t <==> AllCR(t)
  {
    var cr := [CARRIAGE_RETURN];
    if t + cr == cr + t {
      forall i | 0 <= i < |t| ensures t[i] == CARRIAGE_RETURN {
        CRFromLeft(t, i);
      }
    }
    if AllCR(t) {
      assert forall i :: 0 <= i <= |t| ==> (t + cr)[i] == (cr + t)[i];
    }
  }

  lemma {:induction false} CRFromLeft(t: seq<Byte>, i: nat)
    requires i < |t| && t + [CARRIAGE_RETURN] == [CARRIAGE_RETURN] + t
    ensures t[i] == CARRIAGE_RETURN
  {
    assert (t + [CARRIAGE_RETURN])[i] == t[i];
    if i > 0 {
      CRFromLeft(t, i - 1);
      assert ([CARRIAGE_RETURN] + t)[i] == t[i - 1];
    }
  }

  /** Every edit of the list survives. */
  predicate AllSurvive(text: seq<Byte>, edits: seq<EditOffset>, from: nat)
    requires Ordered(edits, from, |text|)
  {
    edits != [] ==> Survives(text, edits[0]) && AllSurvive(text, edits[1..], edits[0].end)
  }

  lemma {:induction false} SurvivorsKeepEffect(text: seq<Byte>, edits: seq<EditOffset>, from: nat)
    requires from <= |text| && Ordered(edits, from, |text|)
    requires AllSurvive(text, edits, from)
    ensures Ordered(SettledEdits(text, edits, from), Settled(text, from), |text|)
    ensures ApplyOrdered(text, SettledEdits(text, edits, from), Settled(text, from)) == ApplyOrdered(text, edits, from)
    decreases |edits|
  {
    SettledStayOrdered(text, edits, from);
    if edits != [] {
      hide Settled, Splice, SettledEdit, Survives;
      var rest, e := edits[1..], edits[0];
      SurvivorsKeepEffect(text, rest, e.end);
      var settled := SettledEdits(text, edits, from);
      assert settled[1..] == SettledEdits(text, rest, e.end) && settled[0] == SettledEdit(text, e);
      SettledEnds(text, e);
      SurvivorSplice(text, ApplyOrdered(text, rest, e.end), e);
    }
  }

  lemma SettledEnds(text: seq<Byte>, e: EditOffset)
    requires e.start <= e.end <= |text|
    ensures SettledEdit(text, e).end == Settled(text, e.end)
  {
  }

  lemma SurvivorSplice(text: seq<Byte>, current: seq<Byte>, e: EditOffset)
    requires e.start <= e.end <= |text| && text[..e.end] <= current && Survives(text, e)
    ensures Settled(text, e.start) <= Settled(text, e.end) <= |current|
    ensures Splice(current, SettledEdit(text, e)) == Splice(current, e)
  {
    if AfterLineEndCR(text, e.start) {
      assert current[e.start - 1] == text[..e.end][e.start - 1] && current[e.end - 1] == text[..e.end][e.end - 1];
      SwapAcrossCR(current, e);
    }
  }

  lemma SwapAcrossCR(current: seq<Byte>, e: EditOffset)
    requires 0 < e.start <= e.end <= |current| && AllCR(e.text)
    requires current[e.start - 1] == current[e.end - 1] == CARRIAGE_RETURN
    ensures Splice(current, EditOffset(e.start - 1, e.end - 1, e.text)) == Splice(current, e)
  {
    var cr := [CARRIAGE_RETURN];
    var head, tail := current[..e.start - 1], current[e.end..];
    assert current[..e.start] == head + cr && current[e.end - 1..] == cr + tail;
    CommutesWithCR(e.text);
    calc {
      Splice(current, EditOffset(e.start - 1, e.end - 1, e.text));
      head + e.text + (cr + tail);
      head + (e.text + cr) + tail;
      head + (cr + e.text) + tail;
      Splice(current, e);
    }
  }

  /** Applying the edits made from a script to its source gives its target, for every script
      split at rune boundaries all of whose edits survive; in particular when no edit starts
      or ends between a carriage return and its line end. */
  lemma TextEditsReachTarget(diffs: seq<Diff>)
    requires SplitsAtRunes(diffs)
    requires Ordered(EditsOf(diffs, 0), 0, |Source(diffs)|) && AllSurvive(Source(diffs), EditsOf(diffs, 0), 0)
    ensures ToTextEdits(Source(diffs), EditsOf(diffs, 0)).Ok?
    ensures ApplyTextEdits(Source(diffs), ToTextEdits(Source(diffs), EditsOf(diffs, 0)).value) == Ok(Target(diffs))
  {
    hide DecodeRune, Utf16Len, Transcode, Valid, Source, Target, EditsOf, ToTextEdits, ApplyTextEdits;
    var text, edits := Source(diffs), EditsOf(diffs, 0);
    EffectOfTextEdits(diffs);
    SurvivorsKeepEffect(text, edits, 0);
    EditsReachTarget([], diffs, 0);
    assert [] + text == text && [] + Target(diffs) == Target(diffs);
  }

  /** A script with one deletion or insertion reaches its target through positions if and
      only if that one edit survives. */
  lemma SingleEditReachesTargetIff(diffs: seq<Diff>)
    requires SplitsAtRunes(diffs) && |EditsOf(diffs, 0)| == 1
    ensures var text, e := Source(diffs), EditsOf(diffs, 0)[0];
            && e.start <= e.end <= |text|
            && ToTextEdits(text, [e]).Ok?
            && (ApplyTextEdits(text, ToTextEdits(text, [e]).value) == Ok(Target(diffs)) <==> Survives(text, e))
  {
    hide DecodeRune, Utf16Len, Transcode, Valid, Source, Target, EditsOf, ToTextEdits, ApplyTextEdits;
    var text, edits := Source(diffs), EditsOf(diffs, 0);
    var e := edits[0];
    assert edits == [e];
    EffectOfTextEdits(diffs);
    EditsReachTarget([], diffs, 0);
    assert [] + text == text && [] + Target(diffs) == Target(diffs);
    assert SettledEdits(text, edits, 0) == [SettledEdit(text, e)];
    SurvivesIffSameEffect(text, e);
  }

  /** Turning the CRLF of a line into LF is lost: the deletion becomes an empty edit. */
  lemma CrlfToLfIsLost()
    ensures var diffs := [Diff(Delete, [CARRIAGE_RETURN]), Diff(Equal, [NEWLINE])];
            var text := [CARRIAGE_RETURN, NEWLINE];
            && Source(diffs) == text && Target(diffs) == [NEWLINE]
            && ToTextEdits(text, EditsOf(diffs, 0)).Ok?
            && ApplyTextEdits(text, ToTextEdits(text, EditsOf(diffs, 0)).value) != Ok(Target(diffs))
  {
    hide DecodeRune, Utf16Len, Transcode, Valid, ToTextEdits, ApplyTextEdits, Source, Target, EditsOf;
    var diffs := [Diff(Delete, [CARRIAGE_RETURN]), Diff(Equal, [NEWLINE])];
    assert diffs[1..] == [Diff(Equal, [NEWLINE])] && diffs[1..][1..] == [];
    AsciiByteValid(CARRIAGE_RETURN);
    AsciiByteValid(NEWLINE);
    Unfold(diffs, 0);
    Unfold(diffs[1..], 1);
    EmptyScript(2);
    assert EditsOf(diffs, 0) == [EditOffset(0, 1, [])];
    SingleEditReachesTargetIff(diffs);
  }

  // ----- several edits

  const CR_NL: seq<Byte> := [CARRIAGE_RETURN, NEWLINE]
  const CR_CR_NL: seq<Byte> := [CARRIAGE_RETURN, CARRIAGE_RETURN, NEWLINE]

  /** Takes a carriage return from a line end; and does so after joining two lines. */
  const CR_LESS: seq<Diff> := [Diff(Equal, [CARRIAGE_RETURN]), Diff(Delete, [CARRIAGE_RETURN]), Diff(Equal, [NEWLINE])]
  const CANCELLING: seq<Diff> := [Diff(Equal, [CARRIAGE_RETURN]), Diff(Delete, [NEWLINE])] + CR_LESS

  /** A segment in front of a script. */
  lemma Prepend(d: Diff, rest: seq<Diff>, offset: nat)
    ensures Source([d] + rest) == d.FromSource() + Source(rest)
    ensures Target([d] + rest) == d.FromTarget() + Target(rest)
    ensures EditsOf([d] + rest, offset) == EditOf(d, offset) + EditsOf(rest, offset + |d.FromSource()|)
  {
    hide Source, Target, EditsOf;
    Unfold([d] + rest, offset);
    assert ([d] + rest)[1..] == rest;
  }

  lemma CRLessSides()
    ensures Source(CR_LESS) == CR_CR_NL && Target(CR_LESS) == CR_NL
    ensures EditsOf(CR_LESS, 2) == [EditOffset(3, 4, [])]
  {
    hide Source, Target, EditsOf;
    var last := Diff(Equal, [NEWLINE]);
    EmptyScript(5);
    Prepend(last, [], 4);
    assert [last] + [] == [last];
    Prepend(Diff(Delete, [CARRIAGE_RETURN]), [last], 3);
    Prepend(Diff(Equal, [CARRIAGE_RETURN]), [Diff(Delete, [CARRIAGE_RETURN])] + [last], 2);
    assert CR_LESS == [Diff(Equal, [CARRIAGE_RETURN])] + ([Diff(Delete, [CARRIAGE_RETURN])] + [last]);
  }

  lemma CancellingSides()
    ensures Source(CANCELLING) == CR_NL + CR_CR_NL && Target(CANCELLING) == CR_CR_NL
    ensures EditsOf(CANCELLING, 0) == [EditOffset(1, 2, []), EditOffset(3, 4, [])]
  {
    CRLessSides();
    hide Source, Target, EditsOf, CR_LESS;
    Prepend(Diff(Delete, [NEWLINE]), CR_LESS, 1);
    Prepend(Diff(Equal, [CARRIAGE_RETURN]), [Diff(Delete, [NEWLINE])] + CR_LESS, 0);
    assert CANCELLING == [Diff(Equal, [CARRIAGE_RETURN])] + ([Diff(Delete, [NEWLINE])] + CR_LESS);
  }

  lemma CancellingSplits()
    ensures SplitsAtRunes(CANCELLING)
  {
    hide Valid;
    AsciiByteValid(CARRIAGE_RETURN);
    AsciiByteValid(NEWLINE);
  }

  lemma CancellingEffect()
    ensures var text, edits := CR_NL + CR_CR_NL, [EditOffset(1, 2, []), EditOffset(3, 4, [])];
            && Ordered(edits, 0, |text|) && Ordered(SettledEdits(text, edits, 0), 0, |text|)
            && ApplyOrdered(text, SettledEdits(text, edits, 0), 0) == CR_CR_NL
  {
    var text, edits := CR_NL + CR_CR_NL, [EditOffset(1, 2, []), EditOffset(3, 4, [])];
    assert edits[1..] == [EditOffset(3, 4, [])] && edits[1..][1..] == [];
    var settled := [EditOffset(0, 2, []), EditOffset(3, 3, [])];
    assert settled[1..] == [EditOffset(3, 3, [])] && settled[1..][1..] == [];
    assert Ordered(settled, 0, |text|);
    assert SettledEdits(text, edits, 0) == settled;
    assert ApplyOrdered(text, settled[1..], 2) == Splice(text, settled[1]) == text;
    assert ApplyOrdered(text, settled, 0) == Splice(text, settled[0]) == CR_CR_NL;
  }

  /** Two lost edits can make up for each other: the first takes a carriage return more, the
      second one less, and the target is reached although neither survives. */
  lemma LostEditsCanCancel()
    ensures var text, edits := Source(CANCELLING), EditsOf(CANCELLING, 0);
            && |text| == 5 && edits == [EditOffset(1, 2, []), EditOffset(3, 4, [])]
            && !Survives(text, edits[0]) && !Survives(text, edits[1])
            && ToTextEdits(text, edits).Ok?
            && ApplyTextEdits(text, ToTextEdits(text, edits).value) == Ok(Target(CANCELLING))
  {
    CancellingSides();
    CancellingSplits();
    hide CANCELLING, Source, Target, EditsOf, ToTextEdits, ApplyTextEdits, Ordered, SettledEdits, ApplyOrdered, SplitsAtRunes;
    EffectOfTextEdits(CANCELLING);
    CancellingEffect();
  }

  /** The edits that a selection keeps. */
  function Pick(edits: seq<EditOffset>, selection: seq<bool>): seq<EditOffset>
    requires |selection| == |edits|
  {
    if edits == [] then []
    else (if selection[0] then [edits[0]] else []) + Pick(edits[1..], selection[1..])
  }

  lemma OrderedFromEarlier(edits: seq<EditOffset>, from: nat, earlier: nat, size: nat)
    requires Ordered(edits, from, size) && earlier <= from
    ensures Ordered(edits, earlier, size)
  {
  }

  lemma SurviveFromEarlier(text: seq<Byte>, edits: seq<EditOffset>, from: nat, earlier: nat)
    requires Ordered(edits, from, |text|) && Ordered(edits, earlier, |text|)
    ensures AllSurvive(text, edits, from) <==> AllSurvive(text, edits, earlier)
  {
  }

  lemma {:induction false} PickIsOrdered(text: seq<Byte>, edits: seq<EditOffset>, selection: seq<bool>, from: nat)
    requires |selection| == |edits| && Ordered(edits, from, |text|)
    ensures Ordered(Pick(edits, selection), from, |text|)
    ensures AllSurvive(text, edits, from) ==> AllSurvive(text, Pick(edits, selection), from)
    decreases |edits|
  {
    hide Survives;
    if edits != [] {
      var e, rest := edits[0], Pick(edits[1..], selection[1..]);
      PickIsOrdered(text, edits[1..], selection[1..], e.end);
      OrderedFromEarlier(rest, e.end, from, |text|);
      SurviveFromEarlier(text, rest, e.end, from);
      if selection[0] {
        assert Pick(edits, selection)[1..] == rest;
      } else {
        assert Pick(edits, selection) == rest;
      }
    }
  }

  function Only(n: nat, i: int): (selection: seq<bool>)
    ensures |selection| == n
  {
    seq(n, j => j == i)
  }

  lemma {:induction false} PickOnly(edits: seq<EditOffset>, i: int)
    ensures Pick(edits, Only(|edits|, i)) == if 0 <= i < |edits| then [edits[i]] else []
    decreases |edits|
  {
    if edits != [] {
      assert Only(|edits|, i)[1..] == Only(|edits[1..]|, i - 1);
      PickOnly(edits[1..], i - 1);
    }
  }

  lemma {:induction false} SomeLost(text: seq<Byte>, edits: seq<EditOffset>, from: nat) returns (i: nat)
    requires Ordered(edits, from, |text|) && !AllSurvive(text, edits, from)
    ensures i < |edits| && edits[i].start <= edits[i].end <= |text| && !Survives(text, edits[i])
    decreases |edits|
  {
    hide Survives;
    if Survives(text, edits[0]) {
      i := SomeLost(text, edits[1..], edits[0].end);
      i := i + 1;
    } else {
      i := 0;
    }
  }

  /** The edits do with settled ends what they do with their own. */
  ghost predicate KeepEffect(text: seq<Byte>, edits: seq<EditOffset>) {
    && Ordered(edits, 0, |text|) && Ordered(SettledEdits(text, edits, 0), 0, |text|)
    && ApplyOrdered(text, SettledEdits(text, edits, 0), 0) == ApplyOrdered(text, edits, 0)
  }

  lemma SingleKeepsEffectIff(text: seq<Byte>, e: EditOffset)
    requires e.start <= e.end <= |text|
    ensures KeepEffect(text, [e]) <==> Survives(text, e)
  {
    assert [e][1..] == [];
    assert SettledEdits(text, [e], 0) == [SettledEdit(text, e)];
    assert [SettledEdit(text, e)][1..] == [];
    assert ApplyOrdered(text, [e], 0) == Splice(text, e);
    SettledMonotone(text, e.start, e.end);
    assert ApplyOrdered(text, [SettledEdit(text, e)], 0) == Splice(text, SettledEdit(text, e));
    SurvivesIffSameEffect(text, e);
  }

  /** Every selection of the edits keeps its effect when their ends are settled if and only if all
      of them survive. */
  lemma SettledSelectionsIff(text: seq<Byte>, edits: seq<EditOffset>)
    requires Ordered(edits, 0, |text|)
    ensures (forall selection :: |selection| == |edits| ==> KeepEffect(text, Pick(edits, selection)))
            <==> AllSurvive(text, edits, 0)
  {
    hide Survives, Ordered, Pick, ApplyOrdered, SettledEdits;
    if AllSurvive(text, edits, 0) {
      forall selection | |selection| == |edits| ensures KeepEffect(text, Pick(edits, selection)) {
        PickIsOrdered(text, edits, selection, 0);
        SurvivorsKeepEffect(text, Pick(edits, selection), 0);
      }
    } else {
      var i := SomeLost(text, edits, 0);
      PickOnly(edits, i);
      SingleKeepsEffectIff(text, edits[i]);
      assert !KeepEffect(text, Pick(edits, Only(|edits|, i)));
    }
  }

  lemma {:induction false} PickAtBoundaries(text: seq<Byte>, edits: seq<EditOffset>, selection: seq<bool>)
    requires |selection| == |edits| && AtBoundaries(text, edits)
    ensures AtBoundaries(text, Pick(edits, selection))
    decreases |edits|
  {
    hide IsBoundary;
    if edits != [] {
      var rest := Pick(edits[1..], selection[1..]);
      PickAtBoundaries(text, edits[1..], selection[1..]);
      if selection[0] {
        assert Pick(edits, selection)[1..] == rest;
      } else {
        assert Pick(edits, selection) == rest;
      }
    }
  }

  /** A client that gets these edits as positions makes the change that they make in offsets. */
  ghost predicate ClientMakes(text: seq<Byte>, edits: seq<EditOffset>) {
    && Ordered(edits, 0, |text|) && ToTextEdits(text, edits).Ok?
    && ApplyTextEdits(text, ToTextEdits(text, edits).value) == Ok(ApplyOrdered(text, edits, 0))
  }

  /** What a client makes of edits at rune boundaries is the effect of the settled ones. */
  lemma ClientMakesIff(text: seq<Byte>, edits: seq<EditOffset>)
    requires Valid(text) && AtBoundaries(text, edits) && Ordered(edits, 0, |text|)
    ensures ClientMakes(text, edits) <==> KeepEffect(text, edits)
  {
    hide Valid, ToTextEdits, Resolve, SortByStart, Ordered, SettledEdits, AtBoundaries, ApplyOrdered;
    ClientSeesSettled(text, edits, 0);
    SettledStayOrdered(text, edits, 0);
    OrderedIsSorted(SettledEdits(text, edits, 0), 0, |text|);
  }

  /** For every script split at rune boundaries: a client makes the right change of every selection
      of the converted edits if and only if all of them survive. */
  lemma SelectionsKeepEffectIff(diffs: seq<Diff>)
    requires SplitsAtRunes(diffs)
    ensures var text, edits := Source(diffs), EditsOf(diffs, 0);
            && Ordered(edits, 0, |text|)
            && ((forall selection :: |selection| == |edits| ==> ClientMakes(text, Pick(edits, selection)))
                <==> AllSurvive(text, edits, 0))
  {
    hide Valid, Source, EditsOf, Ordered, AtBoundaries, Pick, AllSurvive, KeepEffect, ClientMakes, SplitsAtRunes;
    var text, edits := Source(diffs), EditsOf(diffs, 0);
    SidesAreValid(diffs);
    EmptyText();
    EditsAreOrdered(diffs, 0, 0);
    EditsAtBoundaries([], diffs);
    assert [] + text == text;
    SettledSelectionsIff(text, edits);
    forall selection | |selection| == |edits|
      ensures ClientMakes(text, Pick(edits, selection)) <==> KeepEffect(text, Pick(edits, selection))
    {
      PickIsOrdered(text, edits, selection, 0);
      PickAtBoundaries(text, edits, selection);
      ClientMakesIff(text, Pick(edits, selection));
    }
  }
}
