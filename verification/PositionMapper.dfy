/** Mapping positions between the base and the current version of a document. */
module PositionMapping {
  import opened Bytes
  import opened Utf8
  import opened Wrappers
  import opened Positions
  import opened TextOffsetMapping
  import opened Diffs

  datatype MapError = NotInitialized | Unmappable(cause: PositionError)

  /** The outcome of a mapping: a position, whether the source position lies in deleted text,
      and an error if there was one. */
  datatype Mapped = Mapped(position: Position, deleted: bool, error: Option<MapError>)

  /** Through offsets and the diff script from the source's text to the target's. */
  function MapPosition(diffs: seq<Diff>, p: Position): Mapped {
    match PositionOffset(Source(diffs), p)
    case Err(e) => Mapped(p, false, Some(Unmappable(e)))
    case Ok(o) =>
      var r := Shift(diffs, o);
      match OffsetPosition(Target(diffs), r.offset)
      case Err(e) => Mapped(p, r.deleted, Some(Unmappable(e)))
      case Ok(q) => Mapped(q, r.deleted, None)
  }

  class DocumentPositionMapper {
    var modified: bool
    var baseMapper: TextOffsetMapper?
    var currentMapper: TextOffsetMapper?
    var forwardDiffs: seq<Diff>
    var reverseDiffs: seq<Diff>

    /** The texts are those of the scripts, and the converters are usable. */
    ghost predicate Consistent()
      reads this, baseMapper, currentMapper
    {
      modified && baseMapper != null && currentMapper != null ==>
        && baseMapper.Consistent() && currentMapper.Consistent()
        && Source(forwardDiffs) == Target(reverseDiffs) == baseMapper.content
        && Target(forwardDiffs) == Source(reverseDiffs) == currentMapper.content
    }

    /** The scripts are what the diff library returned for the two texts, in each direction. */
    constructor (baseText: seq<Byte>, currentText: seq<Byte>, forward: seq<Diff>, reverse: seq<Diff>)
      requires baseText != currentText ==> Source(forward) == Target(reverse) == baseText
      requires baseText != currentText ==> Target(forward) == Source(reverse) == currentText
      ensures Consistent()
      ensures modified <==> baseText != currentText
      ensures modified ==> baseMapper != null && baseMapper.content == baseText && fresh(baseMapper)
      ensures modified ==> currentMapper != null && currentMapper.content == currentText && fresh(currentMapper)
      ensures modified ==> forwardDiffs == forward && reverseDiffs == reverse
    {
      modified := baseText != currentText;
      baseMapper, currentMapper, forwardDiffs, reverseDiffs := null, null, [], [];
      if baseText != currentText {
        var b := new TextOffsetMapper(baseText);
        var c := new TextOffsetMapper(currentText);
        baseMapper, currentMapper, forwardDiffs, reverseDiffs := b, c, forward, reverse;
      }
    }

    method MapCurrentPositionToBase(current: Position) returns (r: Mapped)
      requires Consistent()
      modifies baseMapper, currentMapper
      ensures Consistent()
      ensures !modified ==> r == Mapped(current, false, None)
      ensures modified && baseMapper != null && currentMapper != null ==> r == MapPosition(reverseDiffs, current)
      ensures modified && (baseMapper == null || currentMapper == null) ==>
                r == Mapped(current, false, Some(NotInitialized))
    {
      r := MapIn(current, true);
    }

    method MapBasePositionToCurrent(base: Position) returns (position: Position, error: Option<MapError>)
      requires Consistent()
      modifies baseMapper, currentMapper
      ensures Consistent()
      ensures !modified ==> position == base && error == None
      ensures modified && baseMapper != null && currentMapper != null ==>
                var m := MapPosition(forwardDiffs, base); position == m.position && error == m.error
      ensures modified && (baseMapper == null || currentMapper == null) ==>
                position == base && error == Some(NotInitialized)
    {
      var r := MapIn(base, false);
      return r.position, r.error;
    }

    method MapIn(position: Position, reverse: bool) returns (r: Mapped)
      requires Consistent()
      modifies baseMapper, currentMapper
      ensures Consistent()
      ensures !modified ==> r == Mapped(position, false, None)
      ensures modified && baseMapper != null && currentMapper != null ==>
                r == MapPosition(if reverse then reverseDiffs else forwardDiffs, position)
      ensures modified && (baseMapper == null || currentMapper == null) ==>
                r == Mapped(position, false, Some(NotInitialized))
    {
      if !modified {
        return Mapped(position, false, None);
      }
      if baseMapper == null || currentMapper == null {
        return Mapped(position, false, Some(NotInitialized));
      }
      var source, target, diffs := baseMapper, currentMapper, forwardDiffs;
      if reverse {
        source, target, diffs := currentMapper, baseMapper, reverseDiffs;
      }
      var initial := source.PositionOffset(position);
      if initial.Err? {
        return Mapped(position, false, Some(Unmappable(initial.error)));
      }
      var offset, deleted := DiffXIndex(diffs, initial.value);
      var result := target.OffsetPosition(offset);
      if result.Err? {
        return Mapped(position, deleted, Some(Unmappable(result.error)));
      }
      return Mapped(result.value, deleted, None);
    }
  }

  // ----- what the mapping promises, for any script split at rune boundaries

  /** Every position of the source maps, without error, to a position of the target. */
  lemma MapsEveryPosition(diffs: seq<Diff>, p: Position)
    requires SplitsAtRunes(diffs) && IsPositionOf(Source(diffs), p)
    ensures var m := MapPosition(diffs, p);
            m.error == None && IsPositionOf(Target(diffs), m.position)
  {
    hide DecodeRune, Utf16Len, Transcode, Valid, LineStarts, IsPositionOf, OffsetPosition, PositionOffset, Source, Target, Shift, IsBoundary, SplitsAtRunes;
    var source, target := Source(diffs), Target(diffs);
    SidesAreValid(diffs);
    AcceptedPositions(source, p);
    ResolvedIsBoundary(source, p);
    var o := PositionOffset(source, p).value;
    ShiftKeepsBoundaries(diffs, o);
    OffsetRoundTrip(target, Shift(diffs, o).offset);
    AcceptedPositions(target, MapPosition(diffs, p).position);
  }

  /** Positions keep their order, so a mapped range never inverts. */
  lemma MapMonotone(diffs: seq<Diff>, p: Position, q: Position)
    requires SplitsAtRunes(diffs) && AtMost(p, q)
    requires IsPositionOf(Source(diffs), p) && IsPositionOf(Source(diffs), q)
    ensures AtMost(MapPosition(diffs, p).position, MapPosition(diffs, q).position)
  {
    hide DecodeRune, Utf16Len, Transcode, Valid, LineStarts, IsPositionOf, OffsetPosition, PositionOffset, Source, Target, Shift, IsBoundary, SplitsAtRunes;
    var source, target := Source(diffs), Target(diffs);
    SidesAreValid(diffs);
    AcceptedPositions(source, p);
    AcceptedPositions(source, q);
    var a, b := PositionOffset(source, p).value, PositionOffset(source, q).value;
    PositionOffsetMonotone(source, p, q);
    ResolvedIsBoundary(source, p);
    ResolvedIsBoundary(source, q);
    ShiftMonotone(diffs, a, b);
    ShiftKeepsBoundaries(diffs, a);
    ShiftKeepsBoundaries(diffs, b);
    OffsetPositionMonotone(target, Shift(diffs, a).offset, Shift(diffs, b).offset);
  }

  /** A position is flagged exactly when its byte lies in a deleted segment. An unflagged one
      lands on the same byte in the target, and its image resolves to that byte, or to the
      carriage return before it when the byte is the newline of a CRLF line end. */
  lemma MapKeepsBytes(diffs: seq<Diff>, p: Position)
    requires SplitsAtRunes(diffs) && PositionOffset(Source(diffs), p).Ok?
    ensures var m := MapPosition(diffs, p);
            var o := PositionOffset(Source(diffs), p).value;
            var t := Shift(diffs, o).offset;
            && (m.deleted <==> exists i: nat :: Covers(diffs, i, o) && diffs[i].kind.Delete?)
            && (!m.deleted && o < |Source(diffs)| ==>
                  && 0 <= t < |Target(diffs)| && Target(diffs)[t] == Source(diffs)[o]
                  && PositionOffset(Target(diffs), m.position) == Ok(Settled(Target(diffs), t)))
  {
    hide DecodeRune, Utf16Len, Transcode, Valid, LineStarts, IsPositionOf, OffsetPosition, PositionOffset, Source, Target, Shift, IsBoundary, SplitsAtRunes;
    var source, target := Source(diffs), Target(diffs);
    SidesAreValid(diffs);
    AcceptedPositions(source, p);
    MapsEveryPosition(diffs, p);
    ResolvedIsBoundary(source, p);
    var o := PositionOffset(source, p).value;
    FlaggedIffDeleted(diffs, o);
    ShiftKeepsBytes(diffs, o);
    ShiftKeepsBoundaries(diffs, o);
    OffsetRoundTrip(target, Shift(diffs, o).offset);
  }

  /** Where a position lands is decided by the segment that covers it: in a deleted segment, where
      that segment stood; in a kept one, as far into it as before; and the end goes to the end. */
  lemma MapLandsAt(diffs: seq<Diff>, p: Position)
    requires SplitsAtRunes(diffs) && PositionOffset(Source(diffs), p).Ok?
    ensures var m := MapPosition(diffs, p);
            var o := PositionOffset(Source(diffs), p).value;
            && m.error == None
            && (forall i: nat :: Covers(diffs, i, o) && diffs[i].kind.Delete? ==>
                  m.deleted && StandsFor(Target(diffs), m.position, |Target(diffs[..i])|))
            && (forall i: nat :: Covers(diffs, i, o) && !diffs[i].kind.Delete? ==>
                  !m.deleted && StandsFor(Target(diffs), m.position, |Target(diffs[..i])| + o - |Source(diffs[..i])|))
            && (o == |Source(diffs)| ==> !m.deleted && StandsFor(Target(diffs), m.position, |Target(diffs)|))
  {
    hide DecodeRune, Utf16Len, Transcode, Valid, LineStarts, IsPositionOf, OffsetPosition, PositionOffset, Source, Target, Shift, IsBoundary, SplitsAtRunes, StandsFor;
    var source, target := Source(diffs), Target(diffs);
    SidesAreValid(diffs);
    ResolvedIsBoundary(source, p);
    var o := PositionOffset(source, p).value;
    ShiftKeepsBytes(diffs, o);
    ShiftKeepsBoundaries(diffs, o);
    OffsetPositionStandsFor(target, Shift(diffs, o).offset);
    forall i: nat | Covers(diffs, i, o)
      ensures Shift(diffs, o) == if diffs[i].kind.Delete? then Shifted(|Target(diffs[..i])|, true)
                                 else Shifted(|Target(diffs[..i])| + o - |Source(diffs[..i])|, false)
    {
      ShiftBySegment(diffs, i, o);
    }
  }

  /** A position that is not one of the source comes back as it is, with the error. */
  lemma MapRejects(diffs: seq<Diff>, p: Position)
    requires SplitsAtRunes(diffs) && !IsPositionOf(Source(diffs), p)
    ensures var m := MapPosition(diffs, p);
            && PositionOffset(Source(diffs), p).Err?
            && m == Mapped(p, false, Some(Unmappable(PositionOffset(Source(diffs), p).error)))
  {
    hide DecodeRune, Utf16Len, Transcode, Valid, LineStarts, IsPositionOf, OffsetPosition, PositionOffset, Source, Target, Shift, SplitsAtRunes;
    SidesAreValid(diffs);
    AcceptedPositions(Source(diffs), p);
  }
}
