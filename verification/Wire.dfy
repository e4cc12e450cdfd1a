/** The Protocol Buffers wire format: varints, fields, and what a full parse of a message gives. */
module Wire {
  import opened Bytes
  import opened Wrappers

  const MAX_VARINT_BYTES: nat := 10
  const TWO_TO_64: nat := 0x1_0000_0000_0000_0000
  const TWO_TO_63: nat := 0x8000_0000_0000_0000

  // ----- base 128 varints

  /** Seven bits a byte, least significant group first; the high bit says that more follow. */
  function EncodeVarint(n: nat): (s: seq<Byte>)
    ensures s != []
  {
    if n < 128 then [n] else [128 + n % 128] + EncodeVarint(n / 128)
  }

  /** The number of bytes up to and including the first without a continuation bit. */
  function VarintSize(s: seq<Byte>): Option<nat> {
    if s == [] then None
    else if s[0] < 128 then Some(1)
    else match VarintSize(s[1..]) case None => None case Some(k) => Some(k + 1)
  }

  function Base128(s: seq<Byte>): nat {
    if s == [] then 0 else s[0] % 128 + 128 * Base128(s[1..])
  }

  /** A varint at the start of s and its size; none if cut off or beyond 64 bits. */
  function DecodeVarint(s: seq<Byte>): (r: Option<(nat, nat)>)
    ensures r.Some? ==> 1 <= r.value.1 <= |s| && r.value.1 <= MAX_VARINT_BYTES && r.value.0 < TWO_TO_64
  {
    match VarintSize(s)
    case None => None
    case Some(k) =>
      VarintSizeBound(s);
      if k > MAX_VARINT_BYTES || (k == MAX_VARINT_BYTES && s[k - 1] > 1) then None
      else
        Base128Bound(s[..k]);
        Some((Base128(s[..k]), k))
  }

  lemma {:induction false} VarintSizeBound(s: seq<Byte>)
    requires VarintSize(s).Some?
    ensures 1 <= VarintSize(s).value <= |s| && s[VarintSize(s).value - 1] < 128
    ensures forall i :: 0 <= i < VarintSize(s).value - 1 ==> s[i] >= 128
  {
    if s[0] >= 128 {
      VarintSizeBound(s[1..]);
    }
  }

  function Power128(k: nat): nat {
    if k == 0 then 1 else 128 * Power128(k - 1)
  }

  lemma {:induction false} Base128Below(s: seq<Byte>)
    ensures Base128(s) < Power128(|s|)
  {
    if s != [] {
      Base128Below(s[1..]);
    }
  }

  /** Ten bytes, the last at most one, stay within 64 bits. */
  lemma {:induction false} Base128Bound(s: seq<Byte>)
    requires |s| <= MAX_VARINT_BYTES && (|s| == MAX_VARINT_BYTES ==> s[9] <= 1)
    ensures Base128(s) < TWO_TO_64
  {
    if |s| < MAX_VARINT_BYTES {
      Base128Below(s);
      Powers(|s|);
    } else {
      Base128Below(s[..9]);
      Powers(9);
      Base128Split(s[..9], s[9]);
      assert s == s[..9] + [s[9]];
    }
  }

  lemma Powers(k: nat)
    requires k <= 9
    ensures Power128(k) <= TWO_TO_63
    ensures k == 9 ==> Power128(k) == TWO_TO_63
  {
    assert Power128(3) == 0x20_0000;
    assert Power128(6) == 0x400_0000_0000;
    assert Power128(9) == TWO_TO_63;
  }

  lemma {:induction false} Base128Split(s: seq<Byte>, last: Byte)
    ensures Base128(s + [last]) == Base128(s) + Power128(|s|) * (last % 128)
  {
    if s == [] {
      assert [last][1..] == [];
      assert s + [last] == [last];
    } else {
      assert (s + [last])[1..] == s[1..] + [last];
      Base128Split(s[1..], last);
    }
  }

  /** The encoding of a number below 128^k has at most k bytes. */
  lemma {:induction false} EncodedSize(n: nat, k: nat)
    requires n < Power128(k) && k > 0
    ensures |EncodeVarint(n)| <= k
    decreases k
  {
    if n >= 128 {
      assert k > 1;
      EncodedSize(n / 128, k - 1);
    }
  }

  /** The last byte of an encoding, and no other, says that nothing follows. */
  lemma {:induction false} EncodingTerminates(n: nat, rest: seq<Byte>)
    ensures VarintSize(EncodeVarint(n) + rest) == Some(|EncodeVarint(n)|)
    decreases n
  {
    var s := EncodeVarint(n);
    if n >= 128 {
      EncodingTerminates(n / 128, rest);
      assert (s + rest)[1..] == EncodeVarint(n / 128) + rest;
    }
  }

  lemma {:induction false} EncodedValue(n: nat)
    ensures Base128(EncodeVarint(n)) == n
    decreases n
  {
    if n < 128 {
      assert EncodeVarint(n)[1..] == [];
    } else {
      EncodedValue(n / 128);
      assert EncodeVarint(n)[1..] == EncodeVarint(n / 128);
    }
  }

  /** Decoding inverts encoding for all 64-bit numbers and stops right after the varint. */
  lemma VarintRoundTrip(n: nat, rest: seq<Byte>)
    requires n < TWO_TO_64
    ensures DecodeVarint(EncodeVarint(n) + rest) == Some((n, |EncodeVarint(n)|))
  {
    var e := EncodeVarint(n);
    EncodingTerminates(n, rest);
    EncodedValue(n);
    assert (e + rest)[..|e|] == e;
    EncodedFits(n);
  }

  lemma EncodedFits(n: nat)
    requires n < TWO_TO_64
    ensures |EncodeVarint(n)| <= MAX_VARINT_BYTES
    ensures |EncodeVarint(n)| == MAX_VARINT_BYTES ==> EncodeVarint(n)[9] <= 1
  {
    var e := EncodeVarint(n);
    Powers(9);
    assert Power128(10) == 128 * Power128(9);
    EncodedSize(n, 10);
    if |e| == 10 {
      EncodingTerminates(n, []);
      EncodedValue(n);
      assert e + [] == e;
      VarintSizeBound(e);
      Base128Split(e[..9], e[9]);
      assert e == e[..9] + [e[9]];
    }
  }

  // ----- messages

  datatype Value = Varint(n: nat) | Fixed64(raw: seq<Byte>) | LengthDelimited(payload: seq<Byte>) | Fixed32(raw: seq<Byte>)

  datatype Field = Field(number: nat, value: Value)

  /** A field at the start of a message and the number of bytes it takes. */
  datatype Sized = Sized(field: Field, size: nat)

  /** The value of a field of the given wire type, and its size. */
  function ParseValue(s: seq<Byte>, wireType: nat): (r: Option<(Value, nat)>)
    ensures r.Some? ==> r.value.1 <= |s|
  {
    if wireType == 0 then
      match DecodeVarint(s) case None => None case Some((n, k)) => Some((Varint(n), k))
    else if wireType == 1 then
      if |s| < 8 then None else Some((Fixed64(s[..8]), 8))
    else if wireType == 2 then
      match DecodeVarint(s)
      case None => None
      case Some((n, k)) => if k + n > |s| then None else Some((LengthDelimited(s[k..k + n]), k + n))
    else if wireType == 5 then
      if |s| < 4 then None else Some((Fixed32(s[..4]), 4))
    else None
  }

  function ParseField(s: seq<Byte>): (r: Option<Sized>)
    ensures r.Some? ==> 1 <= r.value.size <= |s|
  {
    match DecodeVarint(s)
    case None => None
    case Some((tag, k)) =>
      if tag / 8 == 0 then None else
        match ParseValue(s[k..], tag % 8)
        case None => None
        case Some((value, size)) => Some(Sized(Field(tag / 8, value), k + size))
  }

  /** A full parse: all fields of a message in order, or none if the message is malformed. */
  function ParseMessage(s: seq<Byte>): Option<seq<Field>> {
    if s == [] then Some([]) else
      match ParseField(s)
      case None => None
      case Some(f) =>
        match ParseMessage(s[f.size..])
        case None => None
        case Some(rest) => Some([f.field] + rest)
  }

  /** A length-delimited field with a tag of one byte, which is all that the scanner reads. */
  datatype Block = Block(number: nat, payload: seq<Byte>, size: nat)

  function ParseBlock(s: seq<Byte>): (r: Option<Block>)
    ensures r.Some? ==> 1 <= r.value.size <= |s|
  {
    if s == [] || s[0] >= 128 || s[0] / 8 == 0 || s[0] % 8 != 2 then None else
      match DecodeVarint(s[1..])
      case None => None
      case Some((n, k)) =>
        if 1 + k + n > |s| then None else Some(Block(s[0] / 8, s[1 + k..1 + k + n], 1 + k + n))
  }

  /** A block is a field of the message. */
  lemma BlockIsField(s: seq<Byte>)
    requires ParseBlock(s).Some?
    ensures var b := ParseBlock(s).value;
            ParseField(s) == Some(Sized(Field(b.number, LengthDelimited(b.payload)), b.size))
  {
    hide DecodeVarint;
    OneByteVarint(s);
    var (n, k) := DecodeVarint(s[1..]).value;
    SliceOfTail(s, k, k + n);
  }

  lemma OneByteVarint(s: seq<Byte>)
    requires s != [] && s[0] < 128
    ensures DecodeVarint(s) == Some((s[0], 1))
  {
    assert s[..1] == [s[0]] && [s[0]][1..] == [];
    assert VarintSize(s) == Some(1);
    assert Base128([s[0]]) == s[0];
  }

  lemma SliceOfTail(s: seq<Byte>, i: nat, j: nat)
    requires i <= j <= |s| - 1
    ensures s[1..][i..j] == s[1 + i..1 + j]
  {
  }

  // ----- encoding messages

  function EncodeBlock(number: nat, payload: seq<Byte>): (s: seq<Byte>)
    requires 1 <= number < 16
    ensures s != []
  {
    [8 * number + 2] + EncodeVarint(|payload|) + payload
  }

  /** Parsing inverts encoding, whatever follows. */
  lemma BlockRoundTrip(number: nat, payload: seq<Byte>, rest: seq<Byte>)
    requires 1 <= number < 16 && |payload| < TWO_TO_64
    ensures ParseBlock(EncodeBlock(number, payload) + rest) == Some(Block(number, payload, |EncodeBlock(number, payload)|))
  {
    var len := EncodeVarint(|payload|);
    var s := EncodeBlock(number, payload) + rest;
    assert s[1..] == len + (payload + rest);
    VarintRoundTrip(|payload|, payload + rest);
    var k := |len|;
    assert s[1 + k..1 + k + |payload|] == payload by {
      assert s == [8 * number + 2] + len + payload + rest;
    }
  }

  // ----- all wire types

  function WireType(v: Value): nat {
    match v
    case Varint(_) => 0
    case Fixed64(_) => 1
    case LengthDelimited(_) => 2
    case Fixed32(_) => 5
  }

  function EncodeValue(v: Value): seq<Byte> {
    match v
    case Varint(n) => EncodeVarint(n)
    case Fixed64(raw) => raw
    case LengthDelimited(payload) => EncodeVarint(|payload|) + payload
    case Fixed32(raw) => raw
  }

  function EncodeField(f: Field): seq<Byte> {
    EncodeVarint(8 * f.number + WireType(f.value)) + EncodeValue(f.value)
  }

  function EncodeMessage(fields: seq<Field>): seq<Byte> {
    if fields == [] then [] else EncodeField(fields[0]) + EncodeMessage(fields[1..])
  }

  /** Numbers and lengths are within 64 bits, and values of fixed size have that size. */
  predicate IsProper(f: Field) {
    && f.number > 0 && 8 * f.number + 7 < TWO_TO_64
    && match f.value
       case Varint(n) => n < TWO_TO_64
       case Fixed64(raw) => |raw| == 8
       case LengthDelimited(payload) => |payload| < TWO_TO_64
       case Fixed32(raw) => |raw| == 4
  }

  lemma ValueRoundTrip(f: Field, rest: seq<Byte>)
    requires IsProper(f)
    ensures ParseValue(EncodeValue(f.value) + rest, WireType(f.value)) == Some((f.value, |EncodeValue(f.value)|))
  {
    hide DecodeVarint, EncodeVarint;
    match f.value
    case Varint(n) => VarintRoundTrip(n, rest);
    case LengthDelimited(payload) =>
      VarintRoundTrip(|payload|, payload + rest);
      var k := |EncodeVarint(|payload|)|;
      assert EncodeVarint(|payload|) + payload + rest == EncodeVarint(|payload|) + (payload + rest);
      assert (EncodeVarint(|payload|) + payload + rest)[k..k + |payload|] == payload;
    case Fixed64(raw) => assert (raw + rest)[..8] == raw;
    case Fixed32(raw) => assert (raw + rest)[..4] == raw;
  }

  lemma FieldRoundTrip(f: Field, rest: seq<Byte>)
    requires IsProper(f)
    ensures ParseField(EncodeField(f) + rest) == Some(Sized(f, |EncodeField(f)|))
  {
    hide DecodeVarint, EncodeVarint, ParseValue, EncodeValue;
    var tag := 8 * f.number + WireType(f.value);
    var value := EncodeValue(f.value) + rest;
    VarintRoundTrip(tag, value);
    ValueRoundTrip(f, rest);
    var s := EncodeField(f) + rest;
    assert s == EncodeVarint(tag) + value;
    assert s[|EncodeVarint(tag)|..] == value;
    assert tag / 8 == f.number && tag % 8 == WireType(f.value);
  }

  /** A full parse gives back every message that is written field by field, of any wire types. */
  lemma {:induction false} MessageRoundTrip(fields: seq<Field>)
    requires forall f :: f in fields ==> IsProper(f)
    ensures ParseMessage(EncodeMessage(fields)) == Some(fields)
  {
    if fields != [] {
      hide ParseField, EncodeField, IsProper;
      var rest := EncodeMessage(fields[1..]);
      assert fields[0] in fields;
      MessageRoundTrip(fields[1..]);
      FieldRoundTrip(fields[0], rest);
      assert (EncodeField(fields[0]) + rest)[|EncodeField(fields[0])|..] == rest;
      assert [fields[0]] + fields[1..] == fields;
    }
  }
}
