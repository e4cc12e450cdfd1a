/** When a scan comes to its end. A skipped length of 2^63 or more takes the reader backwards, so a
    scan can come to the same field again, and then goes on for ever. */
module ScanEnds {
  import opened Bytes
  import opened Wrappers
  import opened Wire
  import opened ScanSpec
  import opened Counting

  // ----- positions

  /** The three loops of the scanner: over the fields of a message in search of one of them, over
      the fields of a document, and over the fields of an index. */
  datatype Loop =
    | Search(s: seq<Byte>, number: nat)
    | Fields(c: Config, path: seq<Byte>, s: seq<Byte>)
    | Documents(c: Config, s: seq<Byte>)

  /** Where a round that starts at a position leaves the reader, if the loop goes on. */
  function Next(loop: Loop, p: nat): Option<nat>
    requires p < |loop.s|
  {
    match loop
    case Search(s, number) =>
      if !IsBlockTag(s[p]) || s[p] / 8 == number then None else SkipAt(s, p)
    case Fields(c, path, s) =>
      var step := ScanBlock(c, path, s, p);
      if step.scanned.ending.Finished? then Some(step.next) else None
    case Documents(c, s) =>
      var step := ScanIndexBlock(c, s, p);
      if step.scanned.ending.Finished? then Some(step.next) else None
  }

  /** The position that a round starts at, if the loop has such a round. */
  function At(loop: Loop, start: nat, i: nat): (p: Option<nat>)
    ensures p.Some? ==> p.value < |loop.s|
  {
    if i == 0 then
      if start < |loop.s| then Some(start) else None
    else
      match At(loop, start, i - 1)
      case None => None
      case Some(p) =>
        match Next(loop, p)
        case None => None
        case Some(q) => if q < |loop.s| then Some(q) else None
  }

  /** The loop meets a position twice. */
  ghost predicate ComesBack(loop: Loop, start: nat) {
    exists i: nat, j: nat :: i < j && At(loop, start, i).Some? && At(loop, start, i) == At(loop, start, j)
  }

  lemma {:induction false} StaysOut(loop: Loop, start: nat, i: nat, j: nat)
    requires i <= j && At(loop, start, j).Some?
    ensures At(loop, start, i).Some?
    decreases j
  {
    hide Next;
    if i < j {
      StaysOut(loop, start, i, j - 1);
    }
  }

  /** From equal positions the loop goes on alike. */
  lemma {:induction false} GoesOnAlike(loop: Loop, start: nat, i: nat, j: nat, m: nat)
    requires At(loop, start, i) == At(loop, start, j)
    ensures At(loop, start, i + m) == At(loop, start, j + m)
    decreases m
  {
    hide Next;
    if m > 0 {
      GoesOnAlike(loop, start, i, j, m - 1);
      assert i + m - 1 == i + (m - 1) && j + m - 1 == j + (m - 1);
    }
  }

  lemma {:induction false} NeverLeaves(loop: Loop, start: nat, i: nat, j: nat, k: nat)
    requires i < j && At(loop, start, i).Some? && At(loop, start, i) == At(loop, start, j)
    ensures At(loop, start, k).Some?
    decreases k
  {
    hide At;
    if k <= j {
      StaysOut(loop, start, k, j);
    } else {
      GoesOnAlike(loop, start, i, j, k - j);
      NeverLeaves(loop, start, i, j, i + (k - j));
    }
  }

  /** As many rounds as there are bytes, and one more, meet a position twice. */
  lemma ManyRoundsComeBack(loop: Loop, start: nat)
    requires At(loop, start, |loop.s|).Some?
    ensures ComesBack(loop, start)
  {
    hide At;
    var n := |loop.s|;
    forall i: nat | i <= n ensures At(loop, start, i).Some? {
      StaysOut(loop, start, i, n);
    }
    var positions := seq(n + 1, i requires 0 <= i <= n => At(loop, start, i).value);
    Pigeonhole(positions, Below(n));
    var i, j :| 0 <= i < j < |positions| && positions[i] == positions[j];
    assert At(loop, start, i) == At(loop, start, j);
  }

  /** The loop has a round after every number of rounds. */
  ghost predicate GoesOn(loop: Loop, start: nat) {
    forall i: nat :: At(loop, start, i).Some?
  }

  /** A loop goes on for ever exactly when it meets a position twice, and that shows after as many
      rounds as there are bytes. */
  lemma EndlessIffComesBack(loop: Loop, start: nat)
    ensures GoesOn(loop, start) <==> ComesBack(loop, start)
    ensures At(loop, start, |loop.s|).Some? <==> ComesBack(loop, start)
  {
    hide At;
    if ComesBack(loop, start) {
      var i: nat, j: nat :| i < j && At(loop, start, i).Some? && At(loop, start, i) == At(loop, start, j);
      forall k: nat ensures At(loop, start, k).Some? {
        NeverLeaves(loop, start, i, j, k);
      }
      assert GoesOn(loop, start);
    }
    if At(loop, start, |loop.s|).Some? {
      ManyRoundsComeBack(loop, start);
    }
  }

  /** Beyond the end there is no round. */
  lemma NoRounds(loop: Loop, start: nat, i: nat)
    requires start >= |loop.s|
    ensures At(loop, start, i) == None
  {
    assert At(loop, start, 0) == None;
    if At(loop, start, i).Some? {
      StaysOut(loop, start, 0, i);
    }
  }

  lemma FirstRound(loop: Loop, start: nat)
    requires start < |loop.s|
    ensures At(loop, start, 0) == Some(start)
  {
  }

  // ----- searches

  lemma {:induction false} SearchRounds(s: seq<Byte>, number: nat, start: nat, i: nat, rounds: nat)
    requires At(Search(s, number), start, i).Some?
    ensures FindFrom(s, number, At(Search(s, number), start, i).value, rounds) == NoEnd
            <==> At(Search(s, number), start, i + rounds).Some?
    decreases rounds
  {
    hide ParseBlock, SkipAt;
    var loop := Search(s, number);
    if rounds > 0 {
      if At(loop, start, i + 1).Some? {
        SearchRounds(s, number, start, i + 1, rounds - 1);
        assert i + 1 + (rounds - 1) == i + rounds;
      } else if At(loop, start, i + rounds).Some? {
        StaysOut(loop, start, i + 1, i + rounds);
      }
    }
  }

  lemma SearchNeedsRounds(s: seq<Byte>, number: nat, start: nat, rounds: nat)
    ensures FindFrom(s, number, start, rounds) == NoEnd <==> At(Search(s, number), start, rounds).Some?
  {
    hide FindFrom, At;
    if start < |s| {
      FirstRound(Search(s, number), start);
      SearchRounds(s, number, start, 0, rounds);
    } else {
      NoRounds(Search(s, number), start, rounds);
      SearchOver(s, number, start, rounds);
    }
  }

  lemma SearchOver(s: seq<Byte>, number: nat, start: nat, rounds: nat)
    requires start >= |s|
    ensures FindFrom(s, number, start, rounds) == Value([])
  {
  }

  /** A search has no end, in whatever number of rounds, exactly when it meets a position twice. */
  lemma SearchEndsIff(s: seq<Byte>, number: nat, start: nat)
    ensures FindFrom(s, number, start, |s|) == NoEnd <==> ComesBack(Search(s, number), start)
    ensures NeverFinds(s, number, start) <==> ComesBack(Search(s, number), start)
  {
    hide FindFrom, At, ComesBack;
    var loop := Search(s, number);
    EndlessIffComesBack(loop, start);
    SearchNeedsRounds(s, number, start, |s|);
    forall rounds: nat ensures FindFrom(s, number, start, rounds) == NoEnd <==> At(loop, start, rounds).Some? {
      SearchNeedsRounds(s, number, start, rounds);
    }
    if ComesBack(loop, start) {
      assert NeverFinds(s, number, start);
    } else {
      assert FindFrom(s, number, start, |s|) != NoEnd;
    }
  }

  /** The search is not done after any number of rounds. */
  ghost predicate NeverFinds(s: seq<Byte>, number: nat, start: nat) {
    forall rounds: nat :: FindFrom(s, number, start, rounds) == NoEnd
  }

  // ----- documents and indexes

  /** The scan of the entry at a position, or of the document at it, has no end. */
  predicate Hangs(loop: Loop, p: nat)
    requires p < |loop.s|
  {
    match loop
    case Search(_, _) => false
    case Fields(c, path, s) => ScanBlock(c, path, s, p).scanned.ending.Endless?
    case Documents(c, s) => ScanIndexBlock(c, s, p).scanned.ending.Endless?
  }

  /** Some round, from one on and before another, hangs. */
  ghost predicate HangsWithin(loop: Loop, start: nat, i: nat, j: nat) {
    exists k: nat :: i <= k < j && At(loop, start, k).Some? && Hangs(loop, At(loop, start, k).value)
  }

  lemma HangsNowOrLater(loop: Loop, start: nat, i: nat, j: nat)
    requires i < j
    ensures HangsWithin(loop, start, i, j) <==>
            (At(loop, start, i).Some? && Hangs(loop, At(loop, start, i).value)) || HangsWithin(loop, start, i + 1, j)
  {
    hide At, Hangs;
    if HangsWithin(loop, start, i, j) {
      var k: nat :| i <= k < j && At(loop, start, k).Some? && Hangs(loop, At(loop, start, k).value);
      assert k == i || i + 1 <= k;
    }
  }

  /** Where a loop does not go on, nothing later hangs. */
  lemma OutMeansNoHang(loop: Loop, start: nat, i: nat, j: nat)
    requires At(loop, start, i) == None
    ensures At(loop, start, i + j) == None && !HangsWithin(loop, start, i, i + j)
  {
    hide At, Hangs;
    forall k: nat | i <= k ensures At(loop, start, k) == None {
      if At(loop, start, k).Some? {
        StaysOut(loop, start, i, k);
      }
    }
  }

  /** How a scan of fields, or of documents, ends from a position on. */
  function EndingFrom(loop: Loop, p: nat, rounds: nat): Ending
    requires !loop.Search?
  {
    match loop
    case Fields(c, path, s) => ScanBlocksFrom(c, path, s, p, rounds).ending
    case Documents(c, s) => ScanIndexFrom(c, s, p, rounds).ending
  }

  lemma EndingStep(loop: Loop, p: nat, rounds: nat)
    requires !loop.Search?
    ensures p >= |loop.s| ==> EndingFrom(loop, p, rounds) == Finished
    ensures p < |loop.s| && rounds == 0 ==> EndingFrom(loop, p, rounds) == Endless
    ensures p < |loop.s| && rounds > 0 ==>
              && (Next(loop, p).Some? ==> !Hangs(loop, p) && EndingFrom(loop, p, rounds) == EndingFrom(loop, Next(loop, p).value, rounds - 1))
              && (Next(loop, p).None? ==> (EndingFrom(loop, p, rounds) == Endless <==> Hangs(loop, p)))
  {
    hide ScanBlock, ScanIndexBlock;
  }

  lemma RoundStep(loop: Loop, start: nat, i: nat)
    requires At(loop, start, i).Some?
    ensures At(loop, start, i + 1) ==
            match Next(loop, At(loop, start, i).value)
            case None => None
            case Some(q) => if q < |loop.s| then Some(q) else None
  {
    hide Next;
  }

  lemma {:induction false} ScanRounds(loop: Loop, start: nat, i: nat, rounds: nat)
    requires !loop.Search? && At(loop, start, i).Some?
    ensures EndingFrom(loop, At(loop, start, i).value, rounds) == Endless
            <==> At(loop, start, i + rounds).Some? || HangsWithin(loop, start, i, i + rounds)
    decreases rounds
  {
    hide At, Next, EndingFrom, Hangs, HangsWithin;
    var p := At(loop, start, i).value;
    EndingStep(loop, p, rounds);
    if rounds == 0 {
      assert i + rounds == i;
    } else {
      RoundStep(loop, start, i);
      HangsNowOrLater(loop, start, i, i + rounds);
      assert i + 1 + (rounds - 1) == i + rounds;
      if At(loop, start, i + 1).Some? {
        ScanRounds(loop, start, i + 1, rounds - 1);
      } else {
        OutMeansNoHang(loop, start, i + 1, rounds - 1);
        if Next(loop, p).Some? {
          EndingStep(loop, Next(loop, p).value, rounds - 1);
        }
      }
    }
  }

  /** Some round of the loop hangs. */
  ghost predicate HangsSomewhere(loop: Loop, start: nat) {
    exists k: nat :: At(loop, start, k).Some? && Hangs(loop, At(loop, start, k).value)
  }

  /** The scan of a document's fields, and of an index, has no end exactly when it meets a position
      twice, or meets an entry or a document whose own scan has no end. */
  lemma ScanEndsIff(loop: Loop, start: nat)
    requires !loop.Search?
    ensures EndingFrom(loop, start, |loop.s|) == Endless <==> ComesBack(loop, start) || HangsSomewhere(loop, start)
  {
    hide At, Next, EndingFrom, Hangs, ComesBack;
    var n := |loop.s|;
    EndlessIffComesBack(loop, start);
    if start < n {
      FirstRound(loop, start);
      ScanRounds(loop, start, 0, n);
      if HangsSomewhere(loop, start) {
        var k: nat :| At(loop, start, k).Some? && Hangs(loop, At(loop, start, k).value);
        if k >= n {
          StaysOut(loop, start, n, k);
        } else {
          assert HangsWithin(loop, start, 0, n);
        }
      }
    } else {
      EndingStep(loop, start, n);
      forall k: nat ensures At(loop, start, k) == None {
        NoRounds(loop, start, k);
      }
    }
  }

  /** An entry hangs exactly when the search for its moniker has no end. */
  lemma EntryHangsIff(c: Config, path: seq<Byte>, kind: EntryKind, payload: seq<Byte>)
    requires kind.MatcherIn(c).Some?
    ensures ScanEntry(c, path, kind, payload).ending.Endless? <==> ComesBack(Search(payload, kind.Key()), 0)
  {
    hide FindFrom, ParseMessage, ComesBack;
    SearchEndsIff(payload, kind.Key(), 0);
  }

  /** A document hangs exactly when the search for its path has no end, or the scan of its fields. */
  lemma DocumentHangsIff(c: Config, payload: seq<Byte>)
    ensures ScanDocument(c, payload).ending.Endless? <==>
            || ComesBack(Search(payload, DOCUMENT_RELATIVE_PATH), 0)
            || (&& FindBlock(payload, DOCUMENT_RELATIVE_PATH).Value?
                && var path := FindBlock(payload, DOCUMENT_RELATIVE_PATH).payload;
                && ScanWhole(c, path, payload).ending.Finished?
                && (ComesBack(Fields(c, path, payload), 0) || HangsSomewhere(Fields(c, path, payload), 0)))
  {
    hide FindFrom, ParseMessage, ComesBack, HangsSomewhere, ScanBlocksFrom;
    SearchEndsIff(payload, DOCUMENT_RELATIVE_PATH, 0);
    if FindBlock(payload, DOCUMENT_RELATIVE_PATH).Value? {
      ScanEndsIff(Fields(c, FindBlock(payload, DOCUMENT_RELATIVE_PATH).payload, payload), 0);
    }
  }

  // ----- lengths that lead back

  /** The length at a position, if it is skipped, takes the reader back to the field or before it. */
  predicate LeadsBack(s: seq<Byte>, p: nat)
    requires p < |s|
  {
    match DecodeVarint(s[p + 1..])
    case None => false
    case Some((v, k)) => TWO_TO_63 <= v < TWO_TO_64 - k
  }

  /** A skip that is possible moves the reader forward exactly if its length does not lead back. */
  lemma SkipsForwardIff(s: seq<Byte>, p: nat)
    requires p < |s| && SkipAt(s, p).Some?
    ensures SkipAt(s, p).value > p <==> !LeadsBack(s, p)
  {
    hide DecodeVarint;
  }

  predicate NothingLeadsBack(s: seq<Byte>) {
    forall p :: 0 <= p < |s| ==> !LeadsBack(s, p)
  }

  lemma NextIsAhead(loop: Loop, p: nat)
    requires p < |loop.s| && !LeadsBack(loop.s, p)
    ensures Next(loop, p).Some? ==> Next(loop, p).value > p
  {
    hide LeadsBack, DecodeVarint, ScanEntry, ScanDocument;
    if SkipAt(loop.s, p).Some? {
      SkipsForwardIff(loop.s, p);
    }
  }

  lemma {:induction false} PositionsGrow(loop: Loop, start: nat, i: nat, j: nat)
    requires NothingLeadsBack(loop.s) && i < j && At(loop, start, j).Some?
    ensures At(loop, start, i).Some? && At(loop, start, i).value < At(loop, start, j).value
    decreases j
  {
    hide Next, LeadsBack;
    StaysOut(loop, start, j - 1, j);
    NextIsAhead(loop, At(loop, start, j - 1).value);
    if i < j - 1 {
      PositionsGrow(loop, start, i, j - 1);
    }
  }

  lemma NothingComesBack(loop: Loop, start: nat)
    requires NothingLeadsBack(loop.s)
    ensures !ComesBack(loop, start)
  {
    hide At;
    if i: nat, j: nat :| i < j && At(loop, start, i).Some? && At(loop, start, i) == At(loop, start, j) {
      PositionsGrow(loop, start, i, j);
    }
  }

  lemma {:induction false} VarintOfPrefix(a: seq<Byte>, b: seq<Byte>)
    requires a <= b && VarintSize(a).Some?
    ensures VarintSize(b) == VarintSize(a)
  {
    if a[0] >= 128 {
      VarintOfPrefix(a[1..], b[1..]);
    }
  }

  lemma DecodeOfPrefix(a: seq<Byte>, b: seq<Byte>)
    requires a <= b && DecodeVarint(a).Some?
    ensures DecodeVarint(b) == DecodeVarint(a)
  {
    VarintOfPrefix(a, b);
    VarintSizeBound(a);
    assert b[..VarintSize(a).value] == a[..VarintSize(a).value];
  }

  /** What leads back in no message leads back in no payload of it. */
  lemma NothingLeadsBackIn(s: seq<Byte>, p: nat)
    requires NothingLeadsBack(s) && p < |s| && ParseBlock(s[p..]).Some?
    ensures NothingLeadsBack(ParseBlock(s[p..]).value.payload)
  {
    var b := ParseBlock(s[p..]).value;
    var from := p + b.size - |b.payload|;
    assert b.payload == s[from..p + b.size] by {
      hide DecodeVarint;
    }
    hide DecodeVarint, ParseBlock;
    forall q | 0 <= q < |b.payload| ensures !LeadsBack(b.payload, q) {
      if DecodeVarint(b.payload[q + 1..]).Some? {
        assert b.payload[q + 1..] <= s[from + q + 1..];
        DecodeOfPrefix(b.payload[q + 1..], s[from + q + 1..]);
        assert !LeadsBack(s, from + q);
      }
    }
  }

  lemma EntryEnds(c: Config, path: seq<Byte>, kind: EntryKind, payload: seq<Byte>)
    requires kind.MatcherIn(c).Some? && NothingLeadsBack(payload)
    ensures !ScanEntry(c, path, kind, payload).ending.Endless?
  {
    hide ScanEntry, ComesBack, NothingLeadsBack;
    NothingComesBack(Search(payload, kind.Key()), 0);
    EntryHangsIff(c, path, kind, payload);
  }

  lemma FieldsDoNotHang(c: Config, path: seq<Byte>, s: seq<Byte>, p: nat)
    requires NothingLeadsBack(s) && p < |s|
    ensures !Hangs(Fields(c, path, s), p)
  {
    hide ScanEntry, NothingLeadsBack, ParseBlock, SkipAt;
    var kind := KindOf(c, s[p] / 8);
    if kind.Some? && ParseBlock(s[p..]).Some? {
      NothingLeadsBackIn(s, p);
      EntryEnds(c, path, kind.value, ParseBlock(s[p..]).value.payload);
    }
  }

  lemma DocumentEnds(c: Config, payload: seq<Byte>)
    requires NothingLeadsBack(payload)
    ensures !ScanDocument(c, payload).ending.Endless?
  {
    hide ScanDocument, ComesBack, NothingLeadsBack, FindBlock, Hangs, At;
    NothingComesBack(Search(payload, DOCUMENT_RELATIVE_PATH), 0);
    forall path ensures !ComesBack(Fields(c, path, payload), 0) && !HangsSomewhere(Fields(c, path, payload), 0) {
      var loop := Fields(c, path, payload);
      NothingComesBack(loop, 0);
      if k: nat :| At(loop, 0, k).Some? && Hangs(loop, At(loop, 0, k).value) {
        FieldsDoNotHang(c, path, payload, At(loop, 0, k).value);
      }
    }
    DocumentHangsIff(c, payload);
  }

  lemma DocumentsDoNotHang(c: Config, s: seq<Byte>, p: nat)
    requires NothingLeadsBack(s) && p < |s|
    ensures !Hangs(Documents(c, s), p)
  {
    hide ScanDocument, NothingLeadsBack, ParseBlock, SkipAt;
    if ParseBlock(s[p..]).Some? {
      NothingLeadsBackIn(s, p);
      DocumentEnds(c, ParseBlock(s[p..]).value.payload);
    }
  }

  /** An index in which no length leads back is scanned to an end, whatever else is wrong with it. */
  lemma ScanEndsIfNothingLeadsBack(c: Config, s: seq<Byte>, start: nat)
    requires NothingLeadsBack(s)
    ensures !ScanIndexFrom(c, s, start, |s|).ending.Endless?
  {
    hide ComesBack, NothingLeadsBack, Hangs, At, ScanIndexFrom;
    var loop := Documents(c, s);
    NothingComesBack(loop, start);
    if k: nat :| At(loop, start, k).Some? && Hangs(loop, At(loop, start, k).value) {
      DocumentsDoNotHang(c, s, At(loop, start, k).value);
    }
    ScanEndsIff(loop, start);
  }

  // ----- an index that is never done

  /** One field, with number 1 and length 2^64 - 11: skipping it leads back to its own tag. */
  const UNENDING: seq<Byte> := [0x0A, 0xF5, 0xFF, 0xFF, 0xFF, 0xFF, 0xFF, 0xFF, 0xFF, 0xFF, 0x01]

  /** A field that is skipped back to itself is met for ever. */
  lemma SkippedToItself(c: Config, s: seq<Byte>, p: nat)
    requires p < |s| && IsBlockTag(s[p]) && s[p] / 8 != INDEX_DOCUMENTS && SkipAt(s, p) == Some(p)
    ensures ScanIndexFrom(c, s, p, |s|).ending.Endless?
  {
    hide SkipAt, ScanIndexFrom, ComesBack;
    var loop := Documents(c, s);
    assert At(loop, p, 0) == Some(p) && At(loop, p, 1) == Some(p);
    assert ComesBack(loop, p) by {
      MeetsAgain(loop, p);
    }
    ScanEndsIff(loop, p);
  }

  lemma MeetsAgain(loop: Loop, start: nat)
    requires At(loop, start, 0).Some? && At(loop, start, 0) == At(loop, start, 1)
    ensures ComesBack(loop, start)
  {
  }

  function Repeated(b: Byte, k: nat): (s: seq<Byte>)
    ensures |s| == k && forall i :: 0 <= i < k ==> s[i] == b
  {
    seq(k, _ => b)
  }

  /** Numbers whose bits are all ones. */
  lemma {:induction false} OnesEncoded(k: nat)
    ensures Power128(k) > 0 && EncodeVarint(2 * Power128(k) - 1) == Repeated(0xFF, k) + [1]
  {
    if k > 0 {
      OnesEncoded(k - 1);
      var n := 2 * Power128(k) - 1;
      assert n / 128 == 2 * Power128(k - 1) - 1 && n % 128 == 127;
      assert Repeated(0xFF, k) == [0xFF] + Repeated(0xFF, k - 1);
    }
  }

  lemma UnendingLength()
    ensures EncodeVarint(TWO_TO_64 - 11) == UNENDING[1..]
  {
    OnesEncoded(8);
    assert Power128(4) == 0x1000_0000;
    assert Power128(8) == 0x100_0000_0000_0000;
    var n := TWO_TO_64 - 11;
    assert n / 128 == 2 * Power128(8) - 1 && n % 128 == 117;
    assert UNENDING[1..] == [0xF5] + (Repeated(0xFF, 8) + [1]);
  }

  lemma UnendingSkips()
    ensures SkipAt(UNENDING, 0) == Some(0)
  {
    hide DecodeVarint, EncodeVarint;
    UnendingLength();
    VarintRoundTrip(TWO_TO_64 - 11, []);
    assert UNENDING[1..] + [] == UNENDING[1..];
  }

  /** An index of eleven bytes that no scan gets done with, whatever it looks for. */
  lemma IndexIsNeverDone(c: Config)
    ensures ScanIndex(c, UNENDING).ending.Endless?
  {
    hide SkipAt, ScanIndexFrom;
    UnendingSkips();
    SkippedToItself(c, UNENDING, 0);
  }

  // ----- errors

  lemma BlockOfPrefix(a: seq<Byte>, b: seq<Byte>)
    requires a <= b && ParseBlock(a).Some?
    ensures ParseBlock(b) == ParseBlock(a)
  {
    hide DecodeVarint;
    DecodeOfPrefix(a[1..], b[1..]);
    var block := ParseBlock(a).value;
    assert b[block.size - |block.payload|..block.size] == a[block.size - |block.payload|..block.size];
  }

  /** The first field of a well-formed front is scanned alike, whatever follows the front. */
  lemma FrontBlockAgrees(c: Config, a: seq<Byte>, b: seq<Byte>, p: nat)
    requires p < |a| && |a + b| < TWO_TO_63 && WellFormedIndex(a[p..])
    ensures ScanIndexBlock(c, a + b, p) == ScanIndexBlock(c, a, p)
  {
    var s := a + b;
    IndexTail(a, p);
    hide ParseBlock, WellFormedIndex, SkipAt, ScanDocument;
    assert s[p] == a[p] && a[p..] <= s[p..];
    BlockOfPrefix(a[p..], s[p..]);
    BlockIsSkipped(a, p);
    BlockIsSkipped(s, p);
  }

  lemma BadFieldFails(c: Config, s: seq<Byte>, p: nat, rounds: nat)
    requires p < |s| && rounds > 0 && !IsBlockTag(s[p])
    ensures ScanIndexFrom(c, s, p, rounds) == FAILURE
  {
  }

  lemma {:induction false} FrontIsVisitedFrom(c: Config, a: seq<Byte>, b: seq<Byte>, p: nat, rounds: nat)
    requires p <= |a| && |a + b| < TWO_TO_63 && rounds >= |a + b| - p
    requires WellFormedIndex(a[p..]) && b != [] && !IsBlockTag(b[0])
    ensures ParseAndFilter(c, a[p..]).Some?
    ensures ScanIndexFrom(c, a + b, p, rounds) == Scanned(ParseAndFilter(c, a[p..]).value, Failed)
    decreases |a| - p
  {
    hide ParseBlock, ParseMessage, ScanIndexBlock, FilterDocument, FilterDocuments, WellFormedIndex, SkipAt, IsBlockTag;
    if p < |a| {
      IndexBlockAgrees(c, a, p);
      FrontBlockAgrees(c, a, b, p);
      IndexTail(a, p);
      BlockIsSkipped(a, p);
      MessageTail(a[p..]);
      var block := ParseBlock(a[p..]).value;
      FrontIsVisitedFrom(c, a, b, p + block.size, rounds - 1);
      FilterDocumentsCons(c, Field(block.number, LengthDelimited(block.payload)), ParseMessage(a[p + block.size..]).value);
    } else {
      assert a[p..] == [] && (a + b)[p] == b[0];
      EmptyFields(c, []);
      BadFieldFails(c, a + b, p, rounds);
    }
  }

  /** Where a well-formed index goes on with something that is no field, the scan fails, with all of
      the index visited and nothing else. */
  lemma ErrorKeepsVisits(c: Config, a: seq<Byte>, b: seq<Byte>)
    requires WellFormedIndex(a) && |a + b| < TWO_TO_63 && b != [] && !IsBlockTag(b[0])
    ensures ParseAndFilter(c, a).Some? && ScanIndex(c, a + b) == Scanned(ParseAndFilter(c, a).value, Failed)
  {
    assert a[0..] == a;
    FrontIsVisitedFrom(c, a, b, 0, |a + b|);
  }
}
