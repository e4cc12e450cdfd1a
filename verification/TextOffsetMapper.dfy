/** The lazily indexed converter between positions and byte offsets of one text. */
module TextOffsetMapping {
  import opened Bytes
  import opened Utf8
  import opened Wrappers
  import opened Positions

  class TextOffsetMapper {
    const content: seq<Byte>

    /** Whether the line table below has been filled. */
    var indexed: bool
    var lineStart: seq<nat>
    var nonAscii: bool

    ghost predicate Consistent()
      reads this
    {
      indexed ==>
        && lineStart == LineStarts(content)
        && (nonAscii <==> exists i :: 0 <= i < |content| && content[i] >= 0x80)
    }

    constructor (content: seq<Byte>)
      ensures this.content == content && Consistent()
    {
      this.content := content;
      indexed, lineStart, nonAscii := false, [], false;
    }

    /** Fills the line table on first use. */
    method InitLines()
      requires Consistent()
      modifies this
      ensures Consistent() && indexed
    {
      if indexed {
        return;
      }
      lineStart, nonAscii := [0], false;
      for offset := 0 to |content|
        invariant lineStart == LineStarts(content[..offset])
        invariant nonAscii <==> exists i :: 0 <= i < offset && content[i] >= 0x80
      {
        var b := content[offset];
        assert content[..offset + 1][..offset] == content[..offset];
        if b == NEWLINE {
          lineStart := lineStart + [offset + 1];
        }
        if b >= 0x80 {
          nonAscii := true;
        }
      }
      assert content[..|content|] == content;
      indexed := true;
    }

    /** The offset of a position, or why it has none. */
    method PositionOffset(p: Position) returns (r: Result<nat, PositionError>)
      requires Consistent()
      modifies this
      ensures Consistent()
      ensures r == Positions.PositionOffset(content, p)
    {
      hide Walk, LineStarts;
      InitLines();
      if p.line > |lineStart| {
        return Err(LineOutOfRange);
      } else if p.line == |lineStart| {
        if p.character == 0 {
          return Ok(|content|);
        }
        return Err(BeyondEndOfFile);
      }
      var offset := lineStart[p.line];
      var col8 := AdvanceColumns(content[offset..], p.character);
      if col8.Err? {
        return Err(col8.error);
      }
      return Ok(offset + col8.value);
    }

    /** Advances over bytes up to the required number of UTF-16 codes. */
    static method AdvanceColumns(line: seq<Byte>, character: nat) returns (r: Result<nat, PositionError>)
      ensures r == Walk(line, character)
    {
      hide DecodeRune, Utf16Units;
      var rest, col8, col16 := line, 0, 0;
      while col16 < character
        invariant col16 <= character
        invariant var w := Walk(rest, character - col16);
                  Walk(line, character) == if w.Ok? then Ok(col8 + w.value) else w
        decreases |rest|
      {
        var rune := DecodeRune(rest);
        if rune.size == 0 {
          return Err(BeyondEndOfFile);
        }
        if rune.code == NEWLINE {
          return Err(BeyondEndOfLine);
        }
        if rune.size == 1 && rune.code == RUNE_ERROR {
          return Err(InvalidUtf8);
        }
        rest := rest[rune.size..];
        if rune.code >= 0x10000 {
          col16 := col16 + 1;
          if col16 == character {
            break; // between the two surrogates: stay before the rune
          }
        }
        col8 := col8 + rune.size;
        col16 := col16 + 1;
      }
      return Ok(col8);
    }

    /** The position of an offset; every offset up to the end of the text has one. */
    method OffsetPosition(offset: int) returns (r: Result<Position, PositionError>)
      requires Consistent()
      modifies this
      ensures Consistent()
      ensures r == Positions.OffsetPosition(content, offset)
    {
      if !(0 <= offset <= |content|) {
        return Err(InvalidOffset);
      }
      var line, col16 := LineCol16(offset);
      return Ok(Position(line, col16));
    }

    method LineCol16(offset: nat) returns (line: nat, col16: nat)
      requires Consistent() && offset <= |content|
      modifies this
      ensures Consistent()
      ensures Positions.OffsetPosition(content, offset) == Ok(Position(line, col16))
    {
      hide LineStarts, LineOf, LineStart, DecodeRune, Utf16Len, Transcode;
      var start, cr;
      line, start, cr := Line(offset);
      col16 := Columns(start, offset);
      if cr {
        LineEndCRHasWidth(content, offset);
        col16 := col16 - 1;
      }
    }

    /** The UTF-16 units between two offsets, which are bytes when all of the text is ASCII. */
    method Columns(start: nat, offset: nat) returns (n: nat)
      requires Consistent() && indexed && start <= offset <= |content|
      ensures n == Utf16Len(content[start..offset])
    {
      hide LineStarts, DecodeRune, Utf16Len, Transcode;
      if nonAscii {
        n := CountUtf16(content[start..offset]);
      } else {
        AsciiUtf16Len(content[start..offset]);
        n := offset - start;
      }
    }

    /** The line that holds an offset, where it starts, and whether the offset follows a
        carriage return at the line's end. Finds the line by binary search. */
    method Line(offset: nat) returns (line: nat, start: nat, cr: bool)
      requires Consistent() && offset <= |content|
      modifies this
      ensures Consistent() && indexed
      ensures line == LineOf(content, offset) && start == LineStart(content, offset)
      ensures cr <==> AfterLineEndCR(content, offset)
    {
      hide LineStarts;
      InitLines();
      var next := SearchLine(offset);
      StartsOfPrefix(content, offset);
      var eol := if next == |lineStart| then |content| else lineStart[next] - 1;
      cr := offset == eol && offset > 0 && content[offset - 1] == CARRIAGE_RETURN;
      line := next - 1;
      start := lineStart[line];
      EndOfLine(content, offset);
    }

    /** The first line that starts behind an offset. */
    method SearchLine(offset: nat) returns (next: nat)
      requires Consistent() && indexed
      ensures next <= |lineStart|
      ensures forall i :: 0 <= i < next ==> lineStart[i] <= offset
      ensures forall i :: next <= i < |lineStart| ==> offset < lineStart[i]
    {
      hide LineStarts;
      var lo, hi := 0, |lineStart|;
      while lo < hi
        invariant 0 <= lo <= hi <= |lineStart|
        invariant forall i :: 0 <= i < lo ==> lineStart[i] <= offset
        invariant forall i :: hi <= i < |lineStart| ==> offset < lineStart[i]
      {
        var mid := (lo + hi) / 2;
        if offset < lineStart[mid] {
          hi := mid;
        } else {
          lo := mid + 1;
        }
      }
      return lo;
    }
  }

  lemma LineEndCRHasWidth(s: seq<Byte>, o: nat)
    requires o <= |s| && AfterLineEndCR(s, o)
    ensures Utf16Len(s[LineStart(s, o)..o]) > 0
  {
    hide LineStart, DecodeRune, Utf16Len, Transcode;
    LineStartFollowsNewline(s, o);
    WidthPositive(s[LineStart(s, o)..o]);
  }

  /** An offset is at its line's end exactly when no byte or a newline follows. */
  lemma EndOfLine(s: seq<Byte>, o: nat)
    requires o <= |s|
    ensures LineOf(s, o) < |LineStarts(s)|
    ensures o == LineEnd(s, LineOf(s, o)) <==> o == |s| || s[o] == NEWLINE
  {
    hide LineStarts;
    OffsetWithinLine(s, o);
    var line := LineOf(s, o);
    LineHasNoNewline(s, line);
    assert o < LineEnd(s, line) ==> s[o] in LineText(s, line);
  }
}
