/** UTF-8 decoding as Go's unicode/utf8 performs it, and the UTF-16 length of UTF-8 text. */
module Utf8 {
  import opened Bytes

  /** A decoded rune: its code point and the number of bytes it was read from. */
  datatype Rune = Rune(code: nat, size: nat)

  /** What a decoder reports for malformed input. */
  const RUNE_ERROR: nat := 0xFFFD

  const NEWLINE: Byte := 10
  const CARRIAGE_RETURN: Byte := 13

  predicate IsContinuation(b: Byte) {
    0x80 <= b < 0xC0
  }

  /** Two-, three- and four-byte forms, with the second-byte ranges that rule out
      overlong forms, surrogates and code points beyond U+10FFFF. */
  predicate StartsTwoByteForm(s: seq<Byte>) {
    |s| >= 2 && 0xC2 <= s[0] < 0xE0 && IsContinuation(s[1])
  }

  predicate StartsThreeByteForm(s: seq<Byte>) {
    && |s| >= 3 && 0xE0 <= s[0] < 0xF0
    && IsContinuation(s[1]) && IsContinuation(s[2])
    && (s[0] == 0xE0 ==> 0xA0 <= s[1])
    && (s[0] == 0xED ==> s[1] < 0xA0)
  }

  predicate StartsFourByteForm(s: seq<Byte>) {
    && |s| >= 4 && 0xF0 <= s[0] < 0xF5
    && IsContinuation(s[1]) && IsContinuation(s[2]) && IsContinuation(s[3])
    && (s[0] == 0xF0 ==> 0x90 <= s[1])
    && (s[0] == 0xF4 ==> s[1] < 0x90)
  }

  /** The payload of a byte above its marker bits. */
  function Payload(b: Byte, marker: int): int {
    b - marker
  }

  /** Decodes the first rune. The empty input yields size 0, a malformed start yields
      RUNE_ERROR with size 1. */
  function DecodeRune(s: seq<Byte>): (r: Rune)
    ensures r.size <= |s| && r.size <= 4
    ensures r.size == 0 <==> s == []
    ensures r.code >= 0x10000 <==> r.size == 4
    ensures s != [] ==> (r.code < 0x80 <==> s[0] < 0x80)
    ensures s != [] && s[0] < 0x80 ==> r == Rune(s[0], 1)
    ensures r.code < 0xD800 || 0xE000 <= r.code < 0x110000
  {
    if s == [] then Rune(RUNE_ERROR, 0)
    else if s[0] < 0x80 then Rune(s[0], 1)
    else if StartsTwoByteForm(s) then Rune(Payload(s[0], 0xC0) * 64 + Payload(s[1], 0x80), 2)
    else if StartsThreeByteForm(s) then
      Rune(Payload(s[0], 0xE0) * 4096 + Payload(s[1], 0x80) * 64 + Payload(s[2], 0x80), 3)
    else if StartsFourByteForm(s) then
      Rune(Payload(s[0], 0xF0) * 262144 + Payload(s[1], 0x80) * 4096
           + Payload(s[2], 0x80) * 64 + Payload(s[3], 0x80), 4)
    else Rune(RUNE_ERROR, 1)
  }

  predicate IsScalar(c: int) {
    0 <= c < 0xD800 || 0xE000 <= c < 0x110000
  }

  /** The UTF-8 form of a scalar value. */
  function EncodeRune(c: nat): (s: seq<Byte>)
    requires IsScalar(c)
    ensures 1 <= |s| <= 4
  {
    if c < 0x80 then [c]
    else if c < 0x800 then [0xC0 + c / 64, 0x80 + c % 64]
    else if c < 0x10000 then [0xE0 + c / 4096, 0x80 + c / 64 % 64, 0x80 + c % 64]
    else [0xF0 + c / 262144, 0x80 + c / 4096 % 64, 0x80 + c / 64 % 64, 0x80 + c % 64]
  }

  /** The next bytes form a rune rather than malformed input. */
  predicate WellFormedHead(s: seq<Byte>) {
    s != [] && DecodeRune(s) != Rune(RUNE_ERROR, 1)
  }

  predicate Valid(s: seq<Byte>) {
    s == [] || (WellFormedHead(s) && Valid(s[DecodeRune(s).size..]))
  }

  /** The UTF-16 code units of one rune: a surrogate pair beyond the basic plane. */
  function Utf16Units(c: nat): (u: seq<nat>)
    ensures |u| == if c >= 0x10000 then 2 else 1
  {
    if c >= 0x10000 then [0xD800 + (c - 0x10000) / 1024, 0xDC00 + (c - 0x10000) % 1024] else [c]
  }

  /** The UTF-16 transcoding of a byte string; malformed bytes become replacement characters. */
  function Transcode(s: seq<Byte>): seq<nat> {
    if s == [] then [] else
      var r := DecodeRune(s);
      Utf16Units(r.code) + Transcode(s[r.size..])
  }

  /** The number of UTF-16 code units, counted without building them. */
  function Utf16Len(s: seq<Byte>): (n: nat)
    ensures n == |Transcode(s)|
  {
    if s == [] then 0 else
      var r := DecodeRune(s);
      (if r.code >= 0x10000 then 2 else 1) + Utf16Len(s[r.size..])
  }

  /** Decoding a well-formed rune looks at no byte beyond it. */
  lemma DecodeIsLocal(s: seq<Byte>, t: seq<Byte>)
    requires WellFormedHead(s)
    requires s[..DecodeRune(s).size] <= t
    ensures DecodeRune(t) == DecodeRune(s) && WellFormedHead(t)
  {
    var n := DecodeRune(s).size;
    assert forall i :: 0 <= i < n ==> t[i] == s[..n][i] == s[i];
  }

  /** Decoding inverts encoding, whatever follows the encoded rune. */
  lemma DecodeInvertsEncode(c: nat, rest: seq<Byte>)
    requires IsScalar(c)
    ensures DecodeRune(EncodeRune(c) + rest) == Rune(c, |EncodeRune(c)|)
    ensures WellFormedHead(EncodeRune(c) + rest)
  {
    var e := EncodeRune(c);
    assert DecodeRune(e) == Rune(c, |e|) by {
      var tail := c / 64;
      assert c == tail * 64 + c % 64 && tail == tail / 64 * 64 + tail % 64;
      assert tail / 64 == c / 4096 && c / 4096 / 64 == c / 262144;
    }
    DecodeIsLocal(e, e + rest);
  }

  /** Encoding inverts decoding on well-formed input, so the encoding is canonical. */
  lemma EncodeInvertsDecode(s: seq<Byte>)
    requires WellFormedHead(s)
    ensures EncodeRune(DecodeRune(s).code) == s[..DecodeRune(s).size]
  {
    var r := DecodeRune(s);
    if r.size == 3 {
      SixBitDigits(Payload(s[0], 0xE0), Payload(s[1], 0x80), Payload(s[2], 0x80));
      assert s[..3] == [s[0], s[1], s[2]];
    } else if r.size == 4 {
      var high := Payload(s[0], 0xF0) * 64 + Payload(s[1], 0x80);
      SixBitDigits(high, Payload(s[2], 0x80), Payload(s[3], 0x80));
      assert high / 64 == Payload(s[0], 0xF0) && high % 64 == Payload(s[1], 0x80);
      assert r.code / 262144 == high / 64;
      assert s[..4] == [s[0], s[1], s[2], s[3]];
    }
  }

  lemma SixBitDigits(z: nat, y: nat, x: nat)
    requires y < 64 && x < 64
    ensures var c := z * 4096 + y * 64 + x; c / 4096 == z && c / 64 % 64 == y && c % 64 == x
  {
    var c := z * 4096 + y * 64 + x;
    assert c / 64 == z * 64 + y;
  }

  /** Validity and UTF-16 length are compositional in a valid first part. */
  lemma {:induction false} ConcatValid(a: seq<Byte>, b: seq<Byte>)
    requires Valid(a)
    ensures Valid(a + b) <==> Valid(b)
    ensures Utf16Len(a + b) == Utf16Len(a) + Utf16Len(b)
  {
    hide DecodeRune;
    if a == [] {
      assert a + b == b;
    } else {
      var n := DecodeRune(a).size;
      DecodeIsLocal(a, a + b);
      assert (a + b)[n..] == a[n..] + b;
      ConcatValid(a[n..], b);
    }
  }

  /** An offset splits valid text into valid parts exactly when no rune straddles it:
      the byte after it does not continue a rune. */
  lemma {:induction false} BoundaryByNextByte(s: seq<Byte>, i: nat)
    requires Valid(s) && i <= |s|
    ensures Valid(s[..i]) <==> (i == |s| || !IsContinuation(s[i]))
  {
    hide DecodeRune, Transcode, Utf16Len;
    if i == |s| {
      assert s[..i] == s;
    } else if i == 0 {
      HeadIsNotContinuation(s);
    } else {
      var n := DecodeRune(s).size;
      if n <= i {
        BoundaryByNextByte(s[n..], i - n);
        SingleRuneValid(s);
        ConcatValid(s[..n], s[n..][..i - n]);
        assert s[..n] + s[n..][..i - n] == s[..i];
      } else {
        CutRuneIsMalformed(s, i);
      }
    }
  }

  lemma HeadIsNotContinuation(s: seq<Byte>)
    requires WellFormedHead(s)
    ensures !IsContinuation(s[0])
  {
  }

  lemma CutRuneIsMalformed(s: seq<Byte>, i: nat)
    requires WellFormedHead(s) && 0 < i < DecodeRune(s).size
    ensures !WellFormedHead(s[..i]) && IsContinuation(s[i])
  {
    assert s[..i][0] == s[0];
  }

  lemma EmptyText()
    ensures Valid([]) && Utf16Len([]) == 0
  {
  }

  lemma WidthPositive(s: seq<Byte>)
    requires s != []
    ensures Utf16Len(s) > 0
  {
  }

  lemma AsciiByteValid(b: Byte)
    requires b < 0x80
    ensures Valid([b])
  {
    assert [b][1..] == [];
  }

  lemma SingleRuneValid(s: seq<Byte>)
    requires WellFormedHead(s)
    ensures Valid(s[..DecodeRune(s).size])
    ensures Utf16Len(s[..DecodeRune(s).size]) == |Utf16Units(DecodeRune(s).code)|
  {
    var h := s[..DecodeRune(s).size];
    DecodeIsLocal(s, h);
    assert h[DecodeRune(h).size..] == [];
  }

  /** Text without high bytes has one UTF-16 unit per byte. */
  lemma {:induction false} AsciiUtf16Len(s: seq<Byte>)
    requires forall i :: 0 <= i < |s| ==> s[i] < 0x80
    ensures Utf16Len(s) == |s|
  {
    if s != [] {
      AsciiUtf16Len(s[1..]);
    }
  }

  /** The counting loop, with its fast path for ASCII bytes. */
  method CountUtf16(text: seq<Byte>) returns (n: nat)
    ensures n == |Transcode(text)|
  {
    n := 0;
    var s := text;
    while |s| > 0
      invariant n + Utf16Len(s) == Utf16Len(text)
      decreases |s|
    {
      n := n + 1;
      if s[0] < 0x80 {
        s := s[1..];
        continue;
      }
      var r := DecodeRune(s);
      if r.code >= 0x10000 {
        n := n + 1;
      }
      s := s[r.size..];
    }
  }
}
