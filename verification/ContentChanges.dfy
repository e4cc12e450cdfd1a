/** Applying the incremental changes of a didChange notification. */
module ContentChanges {
  import opened Bytes
  import opened Utf8
  import opened Wrappers
  import opened Positions
  import opened TextOffsetMapping
  import opened TextEdits

  datatype Change = Change(range: Range, text: seq<Byte>)

  /** OutOfBounds is the slice panic for an offset beyond the text built so far. */
  datatype ChangeError = Unresolved(cause: PositionError) | OutOfBounds

  /** Replaces the range that a change names in the reference text by its new text. */
  function ApplyChange(reference: seq<Byte>, content: seq<Byte>, c: Change): Result<seq<Byte>, ChangeError> {
    match PositionOffset(reference, c.range.start)
    case Err(e) => Err(Unresolved(e))
    case Ok(start) =>
      match PositionOffset(reference, c.range.end)
      case Err(e) => Err(Unresolved(e))
      case Ok(end) =>
        if start > |content| || end > |content| then Err(OutOfBounds)
        else Ok(content[..start] + c.text + content[end..])
  }

  /** What the server does: every range is resolved in the text before the notification. */
  function ApplyAgainst(initial: seq<Byte>, content: seq<Byte>, changes: seq<Change>): Result<seq<Byte>, ChangeError>
    decreases |changes|
  {
    if changes == [] then Ok(content) else
      match ApplyChange(initial, content, changes[0])
      case Err(e) => Err(e)
      case Ok(next) => ApplyAgainst(initial, next, changes[1..])
  }

  /** What section "DidChangeTextDocument Notification" of LSP 3.17 says: each change moves the
      document to a new state, in which the next one is resolved. */
  function ApplyInTurn(content: seq<Byte>, changes: seq<Change>): Result<seq<Byte>, ChangeError>
    decreases |changes|
  {
    if changes == [] then Ok(content) else
      match ApplyChange(content, content, changes[0])
      case Err(e) => Err(e)
      case Ok(next) => ApplyInTurn(next, changes[1..])
  }

  method ApplyContentChanges(initialText: seq<Byte>, changes: seq<Change>) returns (r: Result<seq<Byte>, ChangeError>)
    ensures r == ApplyAgainst(initialText, initialText, changes)
    ensures BackToFront(initialText, changes, |initialText|) || |changes| == 1 ==> r == ApplyInTurn(initialText, changes)
    ensures BackToFront(initialText, changes, |initialText|) ==>
              var edits := Backwards(initialText, changes);
              Ordered(edits, 0, |initialText|) && r == Ok(ApplyOrdered(initialText, edits, 0))
  {
    hide PositionOffset, BackToFront, ApplyInTurn, Backwards, Ordered, ApplyOrdered;
    if BackToFront(initialText, changes, |initialText|) {
      BackToFrontAgrees(initialText, changes);
      BackToFrontEdits(initialText, changes);
    } else if |changes| == 1 {
      SingleChangeAgrees(initialText, changes[0]);
      assert changes == [changes[0]];
    }
    var content := initialText;
    var m := new TextOffsetMapper(content);
    assert changes[0..] == changes;
    for i := 0 to |changes|
      invariant m.Consistent() && m.content == initialText && fresh(m)
      invariant ApplyAgainst(initialText, content, changes[i..]) == ApplyAgainst(initialText, initialText, changes)
    {
      var change := changes[i];
      assert changes[i..][1..] == changes[i + 1..];
      var start := m.PositionOffset(change.range.start);
      if start.Err? {
        return Err(Unresolved(start.error));
      }
      var end := m.PositionOffset(change.range.end);
      if end.Err? {
        return Err(Unresolved(end.error));
      }
      if start.value > |content| || end.value > |content| {
        return Err(OutOfBounds);
      }
      content := content[..start.value] + change.text + content[end.value..];
    }
    return Ok(content);
  }

  // ----- when the two readings agree

  /** The range is in order, on lines of the text, and splits no surrogate pair. */
  predicate IsExactRange(initial: seq<Byte>, range: Range): (yes: bool)
    ensures yes ==> PositionOffset(initial, range.start).Ok? && PositionOffset(initial, range.end).Ok?
    ensures yes ==> PositionOffset(initial, range.start).value <= PositionOffset(initial, range.end).value
  {
    && IsExact(initial, range.start) && IsExact(initial, range.end)
    && PositionOffset(initial, range.start).value <= PositionOffset(initial, range.end).value
  }

  /** Each change ends at or before the start of all earlier ones, and has an exact range. */
  predicate BackToFront(initial: seq<Byte>, changes: seq<Change>, limit: nat) {
    changes != [] ==>
      var range := changes[0].range;
      && IsExactRange(initial, range)
      && PositionOffset(initial, range.end).value <= limit
      && BackToFront(initial, changes[1..], PositionOffset(initial, range.start).value)
  }

  /** A position resolves the same in any text that shares the bytes up to it. */
  lemma ResolvesInSharedPrefix(initial: seq<Byte>, content: seq<Byte>, limit: nat, p: Position)
    requires limit <= |initial| && initial[..limit] <= content
    requires IsExact(initial, p) && PositionOffset(initial, p).value <= limit
    ensures PositionOffset(content, p) == PositionOffset(initial, p)
  {
    hide DecodeRune, Utf16Len, Transcode, Valid, LineStarts, Walk;
    var o := PositionOffset(initial, p).value;
    var start := LineStarts(initial)[p.line];
    ResolvedOffset(initial, p);
    assert content[..limit] == initial[..limit];
    StartsOfPrefix(initial, limit);
    StartsOfPrefix(content, limit);
    assert content[start..][..o - start] == content[..limit][start..o] == initial[..limit][start..o] == initial[start..o];
    WalkFinds(content[start..], o - start);
  }

  lemma {:induction false} AgreeFrom(initial: seq<Byte>, content: seq<Byte>, changes: seq<Change>, limit: nat)
    requires limit <= |initial| && initial[..limit] <= content && BackToFront(initial, changes, limit)
    ensures ApplyAgainst(initial, content, changes).Ok?
    ensures ApplyAgainst(initial, content, changes) == ApplyInTurn(content, changes)
    decreases |changes|
  {
    hide PositionOffset;
    if changes != [] {
      var c := changes[0];
      var start := PositionOffset(initial, c.range.start).value;
      ResolvesInSharedPrefix(initial, content, limit, c.range.start);
      ResolvesInSharedPrefix(initial, content, limit, c.range.end);
      var next := ApplyChange(initial, content, c).value;
      assert initial[..start] == initial[..limit][..start] == content[..start] == next[..start];
      AgreeFrom(initial, next, changes[1..], start);
    }
  }

  /** Back-to-front change lists of any length give the document that the specification asks for. */
  lemma BackToFrontAgrees(initial: seq<Byte>, changes: seq<Change>)
    requires BackToFront(initial, changes, |initial|)
    ensures ApplyAgainst(initial, initial, changes).Ok?
    ensures ApplyAgainst(initial, initial, changes) == ApplyInTurn(initial, changes)
  {
    assert initial[..|initial|] == initial;
    AgreeFrom(initial, initial, changes, |initial|);
  }

  // ----- what the changes do

  /** One change puts its text in place of what the document has between the two offsets that its
      range resolves to in the initial text; and a range that does not resolve is an error. */
  lemma SingleChangeSplices(initial: seq<Byte>, content: seq<Byte>, c: Change)
    ensures var a, b := PositionOffset(initial, c.range.start), PositionOffset(initial, c.range.end);
            var r := ApplyAgainst(initial, content, [c]);
            && (a.Err? ==> r == Err(Unresolved(a.error)))
            && (a.Ok? && b.Err? ==> r == Err(Unresolved(b.error)))
            && (a.Ok? && b.Ok? && (a.value > |content| || b.value > |content|) ==> r == Err(OutOfBounds))
            && (a.Ok? && b.Ok? && a.value <= b.value <= |content| ==> r == Ok(Splice(content, EditOffset(a.value, b.value, c.text))))
            && (a.Ok? && b.Ok? && b.value <= a.value <= |content| ==> r == Ok(content[..a.value] + c.text + content[b.value..]))
    ensures PositionOffset(initial, c.range.start).Ok? && PositionOffset(initial, c.range.end).Ok? ==>
              ApplyAgainst(initial, initial, [c]).Ok?
  {
    hide PositionOffset;
    assert [c][1..] == [];
  }

  /** The changes of a back-to-front list as edits of the text, from its front to its end. */
  function Backwards(initial: seq<Byte>, changes: seq<Change>): seq<EditOffset> {
    if changes == [] then []
    else
      var a, b := PositionOffset(initial, changes[0].range.start), PositionOffset(initial, changes[0].range.end);
      if a.Ok? && b.Ok? then Backwards(initial, changes[1..]) + [EditOffset(a.value, b.value, changes[0].text)] else []
  }

  lemma {:induction false} OrderedWithin(edits: seq<EditOffset>, from: nat, size: nat, larger: nat)
    requires Ordered(edits, from, size) && size <= larger
    ensures Ordered(edits, from, larger)
    decreases |edits|
  {
    if edits != [] {
      OrderedWithin(edits[1..], edits[0].end, size, larger);
    }
  }

  /** An edit behind others is made first. */
  lemma {:induction false} LastIsFirst(text: seq<Byte>, edits: seq<EditOffset>, e: EditOffset, from: nat)
    requires from <= e.start <= e.end <= |text| && Ordered(edits, from, e.start)
    ensures Ordered(edits + [e], from, |text|) && Ordered(edits, from, |Splice(text, e)|)
    ensures ApplyOrdered(text, edits + [e], from) == ApplyOrdered(Splice(text, e), edits, from)
    decreases |edits|
  {
    OrderedWithin(edits, from, e.start, |Splice(text, e)|);
    hide Splice;
    if edits == [] {
      assert edits + [e] == [e] && [e][1..] == [];
    } else {
      LastIsFirst(text, edits[1..], e, edits[0].end);
      assert (edits + [e])[1..] == edits[1..] + [e];
    }
  }

  lemma {:induction false} EffectFrom(initial: seq<Byte>, content: seq<Byte>, changes: seq<Change>, limit: nat)
    requires limit <= |initial| && initial[..limit] <= content && BackToFront(initial, changes, limit)
    ensures Ordered(Backwards(initial, changes), 0, limit) && Ordered(Backwards(initial, changes), 0, |content|)
    ensures ApplyAgainst(initial, content, changes) == Ok(ApplyOrdered(content, Backwards(initial, changes), 0))
    decreases |changes|
  {
    hide PositionOffset, IsExactRange;
    if changes != [] {
      var c := changes[0];
      var a, b := PositionOffset(initial, c.range.start).value, PositionOffset(initial, c.range.end).value;
      var e := EditOffset(a, b, c.text);
      var next := Splice(content, e);
      assert ApplyChange(initial, content, c) == Ok(next);
      assert initial[..a] == initial[..limit][..a] == content[..a] == next[..a];
      EffectFrom(initial, next, changes[1..], a);
      hide Splice, ApplyChange, Ordered, ApplyOrdered;
      LastIsFirst(content, Backwards(initial, changes[1..]), e, 0);
      LastWithin(Backwards(initial, changes[1..]), e, limit);
    }
  }

  lemma {:induction false} LastWithin(edits: seq<EditOffset>, e: EditOffset, limit: nat)
    requires Ordered(edits, 0, e.start) && e.start <= e.end <= limit
    ensures Ordered(edits + [e], 0, limit)
  {
    var text: seq<Byte> := seq(limit, _ => 0);
    LastIsFirst(text, edits, e, 0);
  }

  /** A back-to-front list makes all its changes in the text as it was: each range, as resolved in
      that text, is replaced by the new text, and nothing else changes. */
  lemma BackToFrontEdits(initial: seq<Byte>, changes: seq<Change>)
    requires BackToFront(initial, changes, |initial|)
    ensures Ordered(Backwards(initial, changes), 0, |initial|)
    ensures ApplyAgainst(initial, initial, changes) == Ok(ApplyOrdered(initial, Backwards(initial, changes), 0))
  {
    assert initial[..|initial|] == initial;
    EffectFrom(initial, initial, changes, |initial|);
  }

  /** A single change always agrees, errors included. */
  lemma SingleChangeAgrees(initial: seq<Byte>, c: Change)
    ensures ApplyAgainst(initial, initial, [c]) == ApplyInTurn(initial, [c])
  {
    assert [c][1..] == [];
  }

  /** In general the two readings of a next change agree, whatever its new text, if and only if
      its range resolves to the same offsets in the initial and in the current text. */
  lemma AgreeIffSameOffsets(initial: seq<Byte>, content: seq<Byte>, range: Range)
    requires PositionOffset(initial, range.start).Ok? && PositionOffset(initial, range.end).Ok?
    requires PositionOffset(content, range.start).Ok? && PositionOffset(content, range.end).Ok?
    ensures (forall t: seq<Byte> :: ApplyChange(initial, content, Change(range, t)) == ApplyChange(content, content, Change(range, t)))
            <==> PositionOffset(initial, range.start) == PositionOffset(content, range.start)
                 && PositionOffset(initial, range.end) == PositionOffset(content, range.end)
  {
    hide PositionOffset;
    var a, b := PositionOffset(initial, range.start).value, PositionOffset(initial, range.end).value;
    var c, d := PositionOffset(content, range.start).value, PositionOffset(content, range.end).value;
    if (a, b) != (c, d) && a <= |content| && b <= |content| {
      var t := TellingText(content, a, b, c, d);
      assert ApplyChange(initial, content, Change(range, t)) != ApplyChange(content, content, Change(range, t));
    } else if (a, b) != (c, d) {
      assert ApplyChange(initial, content, Change(range, [])) != ApplyChange(content, content, Change(range, []));
    }
  }

  /** A replacement text that tells two different ranges apart. */
  lemma TellingText(content: seq<Byte>, a: nat, b: nat, c: nat, d: nat) returns (t: seq<Byte>)
    requires a <= |content| && b <= |content| && c <= |content| && d <= |content| && (a, b) != (c, d)
    ensures content[..a] + t + content[b..] != content[..c] + t + content[d..]
  {
    if a == c {
      t := [];
      assert |content[..a] + t + content[b..]| != |content[..c] + t + content[d..]|;
    } else {
      var first := if a < c then a else c;
      t := [if content[first] == 0 then 1 else 0];
      assert (content[..a] + t + content[b..])[first] != (content[..c] + t + content[d..])[first];
    }
  }

  // ----- exactly when they agree

  /** The two readings give the same outcome. */
  predicate Agree(initial: seq<Byte>, changes: seq<Change>) {
    ApplyAgainst(initial, initial, changes) == ApplyInTurn(initial, changes)
  }

  function Newlines(n: nat): (s: seq<Byte>)
    ensures |s| == n
  {
    if n == 0 then [] else Newlines(n - 1) + [NEWLINE]
  }

  /** Consecutive numbers. */
  function Following(from: nat, n: nat): (r: seq<nat>)
    ensures |r| == n && forall i :: 0 <= i < n ==> r[i] == from + i
  {
    seq(n, i => from + i)
  }

  lemma {:induction false} NewlinesStartLines(head: seq<Byte>, n: nat)
    ensures LineStarts(head + Newlines(n)) == LineStarts(head) + Following(|head| + 1, n)
  {
    hide LineStarts;
    if n == 0 {
      assert head + Newlines(n) == head;
    } else {
      NewlinesStartLines(head, n - 1);
      NewlineStartsOne(head + Newlines(n - 1));
      assert head + Newlines(n) == head + Newlines(n - 1) + [NEWLINE];
      assert Following(|head| + 1, n) == Following(|head| + 1, n - 1) + [|head| + n];
    }
  }

  lemma NewlineStartsOne(s: seq<Byte>)
    ensures LineStarts(s + [NEWLINE]) == LineStarts(s) + [|s| + 1]
  {
    assert (s + [NEWLINE])[..|s|] == s;
  }

  /** Behind enough newlines, a position on the last line they open can resolve to one offset
      at most, which the padding decides; on the line they end, to none behind its end. */
  lemma ResolvesBeforeNewlines(head: seq<Byte>, n: nat, rest: seq<Byte>, p: Position)
    requires n > 0 && p.line + 1 == |LineStarts(head)| - 1 + n
    requires PositionOffset(head + Newlines(n) + rest, p).Ok?
    ensures PositionOffset(head + Newlines(n) + rest, p).value <= |head| + n - 1
    ensures n > 1 ==> PositionOffset(head + Newlines(n) + rest, p).value == |head| + n - 1
  {
    hide PositionOffset, LineStarts, Valid, Utf16Len, DecodeRune;
    var front := head + Newlines(n);
    var content := front + rest;
    NewlinesStartLines(head, n);
    StartsOfPrefix(content, |front|);
    assert content[..|front|] == front;
    ResolvedOffset(content, p);
  }

  /** A text that, put in front of a position, takes the position elsewhere. */
  lemma TextThatMoves(initial: seq<Byte>, a: nat, p: Position) returns (t: seq<Byte>)
    requires IsExact(initial, p) && a < PositionOffset(initial, p).value
    ensures forall rest :: PositionOffset(initial[..a] + t + rest, p) != PositionOffset(initial, p)
  {
    hide PositionOffset, LineStarts, Valid, Utf16Len, DecodeRune;
    var d, line := PositionOffset(initial, p).value, LineOf(initial, a);
    ResolvedOffset(initial, p);
    LinesInOrder(initial, a, d);
    var n := p.line - line + 1;
    var pad: seq<Byte> := if n > 1 && a + n - 1 == d then [0] else [];
    t := pad + Newlines(n);
    AppendToLine(initial[..a], pad);
    forall rest ensures PositionOffset(initial[..a] + t + rest, p) != PositionOffset(initial, p) {
      var head := initial[..a] + pad;
      var content := head + Newlines(n) + rest;
      assert initial[..a] + t + rest == content;
      if PositionOffset(content, p).Ok? {
        ResolvesBeforeNewlines(head, n, rest, p);
      }
    }
  }

  /** A new text that shows that a range has moved. */
  lemma TextThatShows(initial: seq<Byte>, content: seq<Byte>, range: Range) returns (t: seq<Byte>)
    requires PositionOffset(initial, range.start).Ok? && PositionOffset(initial, range.end).Ok?
    requires PositionOffset(content, range.end) != PositionOffset(initial, range.end)
    ensures ApplyChange(initial, content, Change(range, t)) != ApplyChange(content, content, Change(range, t))
  {
    hide PositionOffset;
    t := [];
    if PositionOffset(content, range.start).Ok? && PositionOffset(content, range.end).Ok? {
      AgreeIffSameOffsets(initial, content, range);
      t :| ApplyChange(initial, content, Change(range, t)) != ApplyChange(content, content, Change(range, t));
    }
  }

  lemma TwoChanges(initial: seq<Byte>, content: seq<Byte>, c1: Change, c2: Change)
    requires ApplyChange(initial, initial, c1) == Ok(content)
    ensures ApplyAgainst(initial, initial, [c1, c2]) == ApplyChange(initial, content, c2)
    ensures ApplyInTurn(initial, [c1, c2]) == ApplyChange(content, content, c2)
  {
    hide ApplyChange;
    assert [c1, c2][1..] == [c2] && [c2][1..] == [];
    assert ApplyAgainst(initial, content, [c2]) == ApplyChange(initial, content, c2);
    assert ApplyInTurn(content, [c2]) == ApplyChange(content, content, c2);
  }

  /** Texts for which two changes in the wrong order disagree. */
  lemma TextsThatDisagree(initial: seq<Byte>, r1: Range, r2: Range) returns (t1: seq<Byte>, t2: seq<Byte>)
    requires IsExactRange(initial, r1) && IsExactRange(initial, r2)
    requires PositionOffset(initial, r1.start).value < PositionOffset(initial, r2.end).value
    ensures !Agree(initial, [Change(r1, t1), Change(r2, t2)])
  {
    var a, b := PositionOffset(initial, r1.start).value, PositionOffset(initial, r1.end).value;
    t1 := TextThatMoves(initial, a, r2.end);
    hide PositionOffset, IsExactRange;
    var content := initial[..a] + t1 + initial[b..];
    t2 := TextThatShows(initial, content, r2);
    TwoChanges(initial, content, Change(r1, t1), Change(r2, t2));
  }

  /** Two changes agree, whatever their texts, if and only if the second ends at or before the
      start of the first. */
  lemma PairAgreesIff(initial: seq<Byte>, r1: Range, r2: Range)
    requires IsExactRange(initial, r1) && IsExactRange(initial, r2)
    ensures (forall t1, t2 :: Agree(initial, [Change(r1, t1), Change(r2, t2)]))
            <==> PositionOffset(initial, r2.end).value <= PositionOffset(initial, r1.start).value
  {
    hide PositionOffset, IsExactRange;
    if PositionOffset(initial, r2.end).value <= PositionOffset(initial, r1.start).value {
      forall t1, t2 ensures Agree(initial, [Change(r1, t1), Change(r2, t2)]) {
        var changes := [Change(r1, t1), Change(r2, t2)];
        assert changes[1..] == [Change(r2, t2)] && changes[1..][1..] == [];
        BackToFrontAgrees(initial, changes);
      }
    } else {
      var t1, t2 := TextsThatDisagree(initial, r1, r2);
    }
  }

  /** The changes with other texts. */
  function WithTexts(changes: seq<Change>, texts: seq<seq<Byte>>): (r: seq<Change>)
    requires |texts| == |changes|
    ensures |r| == |changes|
  {
    seq(|changes|, i requires 0 <= i < |changes| => Change(changes[i].range, texts[i]))
  }

  predicate ExactRanges(initial: seq<Byte>, changes: seq<Change>) {
    forall i :: 0 <= i < |changes| ==> IsExactRange(initial, changes[i].range)
  }

  /** The two readings agree after every change. */
  predicate AgreeThroughout(initial: seq<Byte>, changes: seq<Change>) {
    forall k :: 0 <= k <= |changes| ==> Agree(initial, changes[..k])
  }

  /** The order depends on the ranges alone, and holds for every front part. */
  lemma {:induction false} FrontIsBackToFront(initial: seq<Byte>, changes: seq<Change>, front: seq<Change>, limit: nat)
    requires BackToFront(initial, changes, limit) && |front| <= |changes|
    requires forall i :: 0 <= i < |front| ==> front[i].range == changes[i].range
    ensures BackToFront(initial, front, limit)
    decreases |front|
  {
    hide PositionOffset, IsExactRange;
    if front != [] {
      FrontIsBackToFront(initial, changes[1..], front[1..], PositionOffset(initial, front[0].range.start).value);
    }
  }

  /** Out of order, some change ends behind the start of the one before. */
  lemma {:induction false} FirstOutOfOrder(initial: seq<Byte>, changes: seq<Change>, limit: nat) returns (j: nat)
    requires ExactRanges(initial, changes) && !BackToFront(initial, changes, limit)
    requires changes != [] ==> PositionOffset(initial, changes[0].range.end).value <= limit
    ensures 0 < j < |changes|
    ensures PositionOffset(initial, changes[j - 1].range.start).value < PositionOffset(initial, changes[j].range.end).value
    decreases |changes|
  {
    hide PositionOffset, IsExactRange;
    var start := PositionOffset(initial, changes[0].range.start).value;
    if |changes| > 1 && start < PositionOffset(initial, changes[1].range.end).value {
      j := 1;
    } else {
      j := FirstOutOfOrder(initial, changes[1..], start);
      j := j + 1;
    }
  }

  /** The text that a range holds already. */
  function OwnText(initial: seq<Byte>, range: Range): seq<Byte>
    requires IsExactRange(initial, range)
  {
    initial[PositionOffset(initial, range.start).value..PositionOffset(initial, range.end).value]
  }

  lemma OwnTextChangesNothing(initial: seq<Byte>, c: Change)
    requires IsExactRange(initial, c.range) && c.text == OwnText(initial, c.range)
    ensures ApplyChange(initial, initial, c) == Ok(initial)
  {
    hide PositionOffset, IsExactRange;
    var a, b := PositionOffset(initial, c.range.start).value, PositionOffset(initial, c.range.end).value;
    assert initial[..a] + initial[a..b] + initial[b..] == initial;
  }

  /** Changes that put in what is there already change nothing, in either reading. */
  lemma {:induction false} OwnTextsChangeNothing(initial: seq<Byte>, front: seq<Change>, rest: seq<Change>)
    requires ExactRanges(initial, front)
    requires forall i :: 0 <= i < |front| ==> front[i].text == OwnText(initial, front[i].range)
    ensures ApplyAgainst(initial, initial, front + rest) == ApplyAgainst(initial, initial, rest)
    ensures ApplyInTurn(initial, front + rest) == ApplyInTurn(initial, rest)
    decreases |front|
  {
    hide PositionOffset;
    if front == [] {
      assert front + rest == rest;
    } else {
      var c := front[0];
      OwnTextChangesNothing(initial, c);
      hide ApplyChange, OwnText, IsExactRange;
      assert (front + rest)[1..] == front[1..] + rest;
      OwnTextsChangeNothing(initial, front[1..], rest);
    }
  }

  /** Texts for which a list that is not back to front disagrees somewhere. */
  lemma TextsThatDisagreeSomewhere(initial: seq<Byte>, changes: seq<Change>) returns (texts: seq<seq<Byte>>)
    requires ExactRanges(initial, changes) && !BackToFront(initial, changes, |initial|)
    ensures |texts| == |changes| && !AgreeThroughout(initial, WithTexts(changes, texts))
  {
    hide PositionOffset, IsExactRange, BackToFront, Agree;
    var j := FirstOutOfOrder(initial, changes, |initial|);
    var r1, r2 := changes[j - 1].range, changes[j].range;
    var t1, t2 := TextsThatDisagree(initial, r1, r2);
    texts := seq(|changes|, i requires 0 <= i < |changes| =>
      if i < j - 1 then OwnText(initial, changes[i].range) else if i == j - 1 then t1 else if i == j then t2 else []);
    var all := WithTexts(changes, texts);
    var front := all[..j - 1];
    assert all[..j + 1] == front + [Change(r1, t1), Change(r2, t2)];
    FrontChangesNothing(initial, front, [Change(r1, t1), Change(r2, t2)]);
  }

  lemma FrontChangesNothing(initial: seq<Byte>, front: seq<Change>, rest: seq<Change>)
    requires ExactRanges(initial, front)
    requires forall i :: 0 <= i < |front| ==> front[i].text == OwnText(initial, front[i].range)
    ensures Agree(initial, front + rest) <==> Agree(initial, rest)
  {
    hide ApplyAgainst, ApplyInTurn, IsExactRange;
    OwnTextsChangeNothing(initial, front, rest);
  }

  /** A list of changes with exact ranges agrees throughout, whatever the texts, if and only if
      it is back to front. */
  lemma ListAgreesIff(initial: seq<Byte>, changes: seq<Change>)
    requires ExactRanges(initial, changes)
    ensures (forall texts :: |texts| == |changes| ==> AgreeThroughout(initial, WithTexts(changes, texts)))
            <==> BackToFront(initial, changes, |initial|)
  {
    hide PositionOffset, IsExactRange, BackToFront, ApplyAgainst, ApplyInTurn;
    if BackToFront(initial, changes, |initial|) {
      forall texts | |texts| == |changes| ensures AgreeThroughout(initial, WithTexts(changes, texts)) {
        forall k | 0 <= k <= |changes| ensures Agree(initial, WithTexts(changes, texts)[..k]) {
          var front := WithTexts(changes, texts)[..k];
          FrontIsBackToFront(initial, changes, front, |initial|);
          BackToFrontAgrees(initial, front);
        }
      }
    } else {
      var texts := TextsThatDisagreeSomewhere(initial, changes);
    }
  }

  /** In the other order the two can differ without an error: after text was added to the first
      line, a change to the second one lands in the first. */
  lemma FrontToBackDiffers()
    ensures var initial: seq<Byte> := [97, NEWLINE, 98];
            var first := Change(Range(Position(0, 0), Position(0, 0)), [120]);
            var second := Change(Range(Position(1, 0), Position(1, 0)), [121]);
            && ApplyAgainst(initial, initial, [first, second]) == Ok([120, 97, 121, NEWLINE, 98])
            && ApplyInTurn(initial, [first, second]) == Ok([120, 97, NEWLINE, 121, 98])
  {
    hide PositionOffset;
    var initial: seq<Byte> := [97, NEWLINE, 98];
    var after: seq<Byte> := [120, 97, NEWLINE, 98];
    var first := Change(Range(Position(0, 0), Position(0, 0)), [120]);
    var second := Change(Range(Position(1, 0), Position(1, 0)), [121]);
    TwoLines([97], [98]);
    TwoLines([120, 97], [98]);
    assert [97] + [NEWLINE] + [98] == initial && [120, 97] + [NEWLINE] + [98] == after;
    assert [first, second][1..] == [second] && [second][1..] == [];
    assert ApplyChange(initial, initial, first) == Ok(after) by {
      assert initial[..0] + [120] + initial[0..] == after;
    }
    assert ApplyChange(initial, after, second) == Ok([120, 97, 121, NEWLINE, 98]) by {
      assert after[..2] + [121] + after[2..] == [120, 97, 121, NEWLINE, 98];
    }
    assert ApplyChange(after, after, second) == Ok([120, 97, NEWLINE, 121, 98]) by {
      assert after[..3] + [121] + after[3..] == [120, 97, NEWLINE, 121, 98];
    }
    assert ApplyAgainst(initial, after, [second]) == Ok([120, 97, 121, NEWLINE, 98]);
    assert ApplyInTurn(after, [second]) == Ok([120, 97, NEWLINE, 121, 98]);
  }

  /** The start of each line of a two-line text resolves to its offset. */
  lemma TwoLines(a: seq<Byte>, b: seq<Byte>)
    requires NoNewline(a) && NoNewline(b)
    ensures PositionOffset(a + [NEWLINE] + b, Position(0, 0)) == Ok(0)
    ensures PositionOffset(a + [NEWLINE] + b, Position(1, 0)) == Ok(|a| + 1)
  {
    hide DecodeRune;
    OneLine(a);
    var head := a + [NEWLINE];
    assert head[..|a|] == a;
    AppendToLine(head, b);
  }

  lemma {:induction false} OneLine(a: seq<Byte>)
    requires NoNewline(a)
    ensures LineStarts(a) == [0]
  {
    if a != [] {
      assert a[|a| - 1] in a;
      OneLine(a[..|a| - 1]);
    }
  }

  lemma {:induction false} AppendToLine(head: seq<Byte>, b: seq<Byte>)
    requires NoNewline(b)
    ensures LineStarts(head + b) == LineStarts(head)
  {
    if b == [] {
      assert head + b == head;
    } else {
      assert (head + b)[..|head + b| - 1] == head + b[..|b| - 1];
      assert (head + b)[|head + b| - 1] == b[|b| - 1] && b[|b| - 1] in b;
      AppendToLine(head, b[..|b| - 1]);
    }
  }
}
