/** The streaming scanner of SCIP indexes. It reads fields into pooled buffers and visits the
    entries that the consumer's predicates accept. */
module ScipScanner {
  import opened Bytes
  import opened Wrappers
  import opened Wire
  import opened ScanSpec
  import opened BufferPools

  /** NegativeLength stands for the panic at a length that is negative as a signed number. */
  datatype ScanError = Truncated | BadVarint | BadTag | ExpectedBytes | ShortRead | BadSeek | NegativeLength | BadMessage

  /** A seekable reader over the first length bytes of an array, which it shares. */
  class Reader {
    const data: array<Byte>
    const length: nat
    var pos: nat

    ghost predicate Valid()
      reads this
    {
      length <= data.Length && length < TWO_TO_63 && pos < TWO_TO_63
    }

    ghost function Content(): (s: seq<Byte>)
      requires length <= data.Length
      reads data
      ensures |s| == length
    {
      data[..length]
    }

    /** What is left to read; a seek may go beyond the end. */
    ghost function Rest(): seq<Byte>
      requires Valid()
      reads this, data
    {
      if pos <= length then Content()[pos..] else []
    }

    constructor (data: array<Byte>, length: nat)
      requires length <= data.Length && length < TWO_TO_63
      ensures Valid() && this.data == data && this.length == length && pos == 0
    {
      this.data, this.length, pos := data, length, 0;
    }

    /** Fills the buffer as far as there is data; end of file only when nothing is left. */
    method Read(s: Slice) returns (n: nat, eof: bool)
      requires Valid() && s.arr != null && s.length <= s.arr.Length && s.arr != data
      modifies this`pos, s.arr
      ensures Valid() && (eof <==> old(pos) >= length)
      ensures n == if |old(Rest())| < s.length then |old(Rest())| else s.length
      ensures pos == old(pos) + n && s.arr[..n] == old(Rest())[..n]
      ensures s.arr[n..] == old(s.arr[n..])
    {
      if pos >= length {
        return 0, true;
      }
      n := if length - pos < s.length then length - pos else s.length;
      assert Rest()[..n] == data[pos..pos + n];
      Copy(s.arr, n);
      pos := pos + n;
      eof := false;
    }

    /** Copies the next bytes to the start of a buffer. */
    method Copy(buffer: array<Byte>, n: nat)
      requires Valid() && buffer != data && n <= buffer.Length && pos + n <= length
      modifies buffer
      ensures buffer[..n] == data[pos..pos + n] && buffer[n..] == old(buffer[n..])
    {
      for i := 0 to n
        invariant forall k :: 0 <= k < i ==> buffer[k] == data[pos + k]
        invariant forall k :: n <= k < buffer.Length ==> buffer[k] == old(buffer[k])
      {
        buffer[i] := data[pos + i];
      }
    }

    /** Seeks by a length as the signed number that its bits stand for. */
    method SeekBy(v: nat) returns (ok: bool)
      requires Valid() && v < TWO_TO_64
      modifies this`pos
      ensures Valid()
      ensures match Seek(old(pos), v)
              case Some(q) => ok && pos == q
              case None => !ok && pos == old(pos)
    {
      var target := pos + if v < TWO_TO_63 then v else v - TWO_TO_64;
      ok := 0 <= target < TWO_TO_63;
      if ok {
        pos := target;
      }
    }
  }

  /** The pool is in order and holds no buffer that anyone else held before. */
  twostate predicate PoolKept(pool: BufferPool)
    reads pool
  {
    pool.Valid() && forall b :: b in pool.Free() ==> b in old(pool.Free()) || fresh(b)
  }

  // ----- varints

  /** The first bytes all say that more follow. */
  ghost predicate Continues(s: seq<Byte>, k: nat)
    requires k <= |s|
  {
    forall i :: 0 <= i < k ==> s[i] >= 128
  }

  lemma {:induction false} VarintEndsAt(s: seq<Byte>, k: nat)
    requires k < |s| && s[k] < 128 && forall i :: 0 <= i < k ==> s[i] >= 128
    ensures VarintSize(s) == Some(k + 1)
  {
    if k > 0 {
      VarintEndsAt(s[1..], k - 1);
    }
  }

  lemma {:induction false} VarintGoesOn(s: seq<Byte>, k: nat)
    requires k <= |s| && forall i :: 0 <= i < k ==> s[i] >= 128
    ensures VarintSize(s).Some? ==> VarintSize(s).value > k
    ensures k == |s| ==> VarintSize(s) == None
  {
    if k > 0 {
      VarintGoesOn(s[1..], k - 1);
    } else if VarintSize(s).Some? {
      VarintSizeBound(s);
    }
  }

  /** Decoding what was read up to the last byte is decoding the input. */
  lemma DecodeRead(rest: seq<Byte>, k: nat)
    requires k < |rest| && rest[k] < 128 && Continues(rest, k)
    ensures DecodeVarint(rest[..k + 1]) == DecodeVarint(rest)
    ensures DecodeVarint(rest).Some? ==> DecodeVarint(rest).value.1 == k + 1
  {
    VarintEndsAt(rest, k);
    VarintEndsAt(rest[..k + 1], k);
    assert rest[..k + 1][..k + 1] == rest[..k + 1];
  }

  lemma DecodeUnfinished(rest: seq<Byte>, k: nat)
    requires k <= |rest| && Continues(rest, k)
    ensures DecodeVarint(rest[..k]) == None
    ensures k == |rest| || k >= MAX_VARINT_BYTES ==> DecodeVarint(rest) == None
  {
    VarintGoesOn(rest, k);
    VarintGoesOn(rest[..k], k);
  }

  /** Reads the next byte of the input into the buffer that holds those before it. */
  method ReadByte(r: Reader, next: array<Byte>, buffer: array<Byte>, i: nat, ghost input: seq<Byte>)
    returns (b: Byte, eof: bool)
    requires r.Valid() && next.Length == 1 && next != r.data && buffer != r.data && buffer != next
    requires i < buffer.Length && i <= |input| && r.Rest() == input[i..] && buffer[..i] == input[..i]
    modifies r`pos, next, buffer
    ensures r.Valid() && (eof <==> i == |input|)
    ensures !eof ==>
              && b == input[i] && r.pos == old(r.pos) + 1
              && r.Rest() == input[i + 1..] && buffer[..i + 1] == input[..i + 1]
  {
    var n;
    n, eof := r.Read(Slice(next, 1));
    b := next[0];
    if !eof {
      assert next[..1][0] == b == input[i];
      assert r.Rest() == input[i..][1..] == input[i + 1..];
      buffer[i] := b;
      assert input[..i + 1] == input[..i] + [b];
    }
  }

  /** Reads a varint byte by byte into the scratch buffer and decodes it there. */
  method ReadVarint(r: Reader, scratch: Slice) returns (v: Result<nat, ScanError>)
    requires r.Valid() && scratch.arr != null && scratch.arr != r.data
    requires scratch.length == 0 && scratch.arr.Length >= MAX_VARINT_BYTES
    modifies r`pos, scratch.arr
    ensures r.Valid()
    ensures match DecodeVarint(old(r.Rest()))
            case Some((n, k)) => v == Ok(n) && r.pos == old(r.pos) + k
            case None => v.Err?
  {
    hide DecodeVarint, Continues, Reader.Rest;
    ghost var rest := r.Rest();
    NothingRead(rest);
    var next := new Byte[1](_ => 0);
    var i := 0;
    ghost var ended := false;
    while i < scratch.arr.Length
      invariant 0 <= i <= scratch.arr.Length && i <= |rest| && !ended
      invariant r.Valid() && r.pos == old(r.pos) + i
      invariant r.Rest() == rest[i..] && scratch.arr[..i] == rest[..i] && Continues(rest, i)
    {
      var b, eof := ReadByte(r, next, scratch.arr, i, rest);
      if eof {
        DecodeUnfinished(rest, i);
        return Err(Truncated);
      }
      i := i + 1;
      if b <= 127 {
        DecodeRead(rest, i - 1);
        ended := true;
        break;
      }
      OneMoreRead(rest, i - 1);
    }
    if !ended {
      DecodeUnfinished(rest, i);
    }
    var value := DecodeVarint(scratch.arr[..i]);
    if value == None {
      return Err(BadVarint);
    }
    return Ok(value.value.0);
  }

  lemma NothingRead(s: seq<Byte>)
    ensures Continues(s, 0) && s[0..] == s
  {
  }

  lemma OneMoreRead(s: seq<Byte>, k: nat)
    requires k < |s| && Continues(s, k) && s[k] >= 128
    ensures Continues(s, k + 1)
  {
  }

  // ----- the parts of a block

  /** Behind the tag, a block is a length and a payload. */
  lemma BlockParts(s: seq<Byte>, p: nat)
    requires p < |s| && IsBlockTag(s[p])
    ensures match DecodeVarint(s[p + 1..])
            case None => ParseBlock(s[p..]) == None && SkipAt(s, p) == None
            case Some((v, k)) =>
              && p + 1 + k <= |s|
              && (ParseBlock(s[p..]).Some? <==> p + 1 + k + v <= |s|)
              && (ParseBlock(s[p..]).Some? ==>
                    && ParseBlock(s[p..]).value.payload == s[p + 1 + k..][..v]
                    && ParseBlock(s[p..]).value.size == 1 + k + v)
              && SkipAt(s, p) == Seek(p + 1 + k, v)
  {
    hide DecodeVarint;
    assert s[p..][1..] == s[p + 1..];
  }

  lemma NothingToFind(s: seq<Byte>, number: nat, p: nat, rounds: nat)
    requires p >= |s|
    ensures FindFrom(s, number, p, rounds) == Value([]) && Content(NIL) == []
  {
  }

  ghost function Content(s: Slice): seq<Byte>
    requires ValidSlice(s)
    reads s.arr
  {
    if s.arr == null then [] else s.arr[..s.length]
  }

  /** A reader over the content of a slice. */
  method ReaderOf(s: Slice) returns (r: Reader)
    requires s.arr != null && ValidSlice(s) && s.length < TWO_TO_63
    ensures fresh(r) && r.Valid() && r.data == s.arr && r.pos == 0 && r.Content() == Content(s)
  {
    r := new Reader(s.arr, s.length);
  }

  class IndexScanner {
    const config: Config
    const pool: BufferPool
    var visits: seq<Visit>

    constructor (config: Config, pool: BufferPool)
      ensures this.config == config && this.pool == pool && visits == []
    {
      this.config, this.pool, visits := config, pool, [];
    }

    // ----- reading fields

    /** The number of the next field, none at the end of the input. */
    method ConsumeTag(r: Reader) returns (number: Result<Option<nat>, ScanError>)
      requires pool.Valid() && r.Valid() && r.data !in pool.Free()
      modifies r`pos, pool, pool.Free()
      ensures PoolKept(pool) && r.Valid()
      ensures old(r.pos) >= r.length ==> number == Ok(None) && r.pos == old(r.pos)
      ensures old(r.pos) < r.length ==>
                var tag := r.Content()[old(r.pos)];
                && r.pos == old(r.pos) + 1
                && number == if tag >= 128 || tag / 8 == 0 then Err(BadTag)
                             else if tag % 8 != 2 then Err(ExpectedBytes)
                             else Ok(Some(tag / 8))
    {
      var buffer := pool.Get(1);
      var n, eof := r.Read(buffer);
      var tag := if eof then 0 else buffer.arr[0];
      assert !eof ==> buffer.arr[..1][0] == tag;
      pool.Put(buffer);
      if eof {
        return Ok(None);
      }
      if tag >= 128 || tag / 8 == 0 {
        return Err(BadTag);
      }
      if tag % 8 != 2 {
        return Err(ExpectedBytes);
      }
      return Ok(Some(tag / 8));
    }

    /** An unsigned length at the reader, read with a scratch buffer of the pool. */
    method ConsumeVarint(r: Reader) returns (n: Result<nat, ScanError>)
      requires pool.Valid() && r.Valid() && r.data !in pool.Free()
      modifies r`pos, pool, pool.Free()
      ensures PoolKept(pool) && r.Valid()
      ensures match DecodeVarint(old(r.Rest()))
              case Some((v, k)) => n == Ok(v) && v < TWO_TO_64 && r.pos == old(r.pos) + k
              case None => n.Err?
    {
      hide DecodeVarint;
      var scratch := GetScratch();
      n := ReadVarint(r, scratch);
      pool.Put(scratch);
    }

    method GetScratch() returns (scratch: Slice)
      requires pool.Valid()
      modifies pool
      ensures PoolKept(pool) && scratch.arr != null && scratch.length == 0 && scratch.arr.Length >= MAX_VARINT_BYTES
      ensures scratch.arr !in pool.Free() && (scratch.arr in old(pool.Free()) || fresh(scratch.arr))
    {
      var s := pool.Get(MAX_VARINT_BYTES);
      scratch := Slice(s.arr, 0);
    }

    /** The length of a field's payload. One that is negative as a signed number makes its user panic. */
    method ConsumeLen(r: Reader) returns (n: Result<nat, ScanError>)
      requires pool.Valid() && r.Valid() && r.data !in pool.Free()
      modifies r`pos, pool, pool.Free()
      ensures PoolKept(pool) && r.Valid()
      ensures match DecodeVarint(old(r.Rest()))
              case Some((v, k)) =>
                if v >= TWO_TO_63 then n == Err(NegativeLength) else n == Ok(v) && r.pos == old(r.pos) + k
              case None => n.Err?
    {
      hide DecodeVarint;
      n := ConsumeVarint(r);
      if n.Ok? && n.value >= TWO_TO_63 {
        n := Err(NegativeLength);
      }
    }

    /** Passes over a payload by a seek, without a check that all of it is there. */
    method SkipField(r: Reader) returns (e: Option<ScanError>)
      requires pool.Valid() && r.Valid() && r.data !in pool.Free()
      modifies r`pos, pool, pool.Free()
      ensures PoolKept(pool) && r.Valid()
      ensures match DecodeVarint(old(r.Rest()))
              case Some((v, k)) =>
                (match Seek(old(r.pos) + k, v)
                 case Some(q) => e == None && r.pos == q
                 case None => e.Some?)
              case None => e.Some?
    {
      hide DecodeVarint;
      var n := ConsumeVarint(r);
      if n.Err? {
        return Some(n.error);
      }
      var ok := r.SeekBy(n.value);
      e := if ok then None else Some(BadSeek);
    }

    /** Reads a payload into a buffer of the pool, which the caller then holds. */
    method ConsumePayload(r: Reader) returns (s: Result<Slice, ScanError>)
      requires pool.Valid() && r.Valid() && r.data !in pool.Free()
      modifies r`pos, pool, pool.Free()
      ensures PoolKept(pool) && r.Valid()
      ensures s.Ok? ==> IsNewlyHeld(s.value, r)
      ensures match DecodeVarint(old(r.Rest()))
              case Some((v, k)) =>
                && (s.Ok? <==> k + v <= |old(r.Rest())|)
                && (s.Ok? ==> Content(s.value) == old(r.Rest())[k..][..v] && r.pos == old(r.pos) + k + v)
              case None => s.Err?
    {
      hide DecodeVarint;
      var n := ConsumeLen(r);
      if n.Err? {
        return Err(n.error);
      }
      s := ConsumeFieldData(r, n.value);
    }

    method ConsumeFieldData(r: Reader, n: nat) returns (s: Result<Slice, ScanError>)
      requires n < TWO_TO_63 && pool.Valid() && r.Valid() && r.data !in pool.Free()
      modifies r`pos, pool, pool.Free()
      ensures PoolKept(pool) && r.Valid()
      ensures s.Ok? ==> IsNewlyHeld(s.value, r)
      ensures s.Ok? <==> n <= |old(r.Rest())|
      ensures s.Ok? ==> Content(s.value) == old(r.Rest())[..n] && r.pos == old(r.pos) + n
    {
      var buffer := pool.Get(n);
      if n > 0 {
        var count, eof := r.Read(buffer);
        if eof || count != n {
          pool.Put(buffer);
          return Err(ShortRead);
        }
      }
      return Ok(buffer);
    }

    /** The slice is not in the pool. */
    ghost predicate Held(s: Slice)
      reads pool
    {
      ValidSlice(s) && s.arr !in pool.Free()
    }

    /** The slice was taken out of the pool or made, and is not the reader's own. */
    twostate predicate IsNewlyHeld(new s: Slice, r: Reader)
      reads pool
    {
      && Held(s) && s.arr != null && s.arr != r.data && s.length < TWO_TO_63
      && (s.arr in old(pool.Free()) || fresh(s.arr))
    }

    /** The reader stands right after the tag of the block at a position. */
    ghost predicate InBlock(r: Reader, p: nat)
      requires r.Valid()
      reads r, r.data
    {
      p < r.length && r.pos == p + 1 && IsBlockTag(r.Content()[p])
    }

    /** Skips a block whose tag has been read. */
    method SkipBlock(r: Reader, ghost p: nat) returns (e: Option<ScanError>)
      requires pool.Valid() && r.Valid() && r.data !in pool.Free() && InBlock(r, p)
      modifies r`pos, pool, pool.Free()
      ensures PoolKept(pool) && r.Valid()
      ensures match SkipAt(r.Content(), p)
              case Some(q) => e == None && r.pos == q
              case None => e.Some?
    {
      hide ParseBlock, SkipAt, DecodeVarint, BufferPool.Free, BufferPool.Valid;
      BlockParts(r.Content(), p);
      e := SkipField(r);
    }

    /** Reads a block whose tag has been read. */
    method ReadBlock(r: Reader, ghost p: nat) returns (s: Result<Slice, ScanError>)
      requires pool.Valid() && r.Valid() && r.data !in pool.Free() && InBlock(r, p)
      modifies r`pos, pool, pool.Free()
      ensures PoolKept(pool) && r.Valid()
      ensures s.Ok? ==> IsNewlyHeld(s.value, r)
      ensures match ParseBlock(r.Content()[p..])
              case Some(b) => s.Ok? && Content(s.value) == b.payload && r.pos == p + b.size
              case None => s.Err?
    {
      hide ParseBlock, SkipAt, DecodeVarint, BufferPool.Free, BufferPool.Valid;
      BlockParts(r.Content(), p);
      s := ConsumePayload(r);
    }

    // ----- keys

    /** One round of the search for a field: an answer, or none if the search goes on. */
    method TryField(r: Reader, number: nat, ghost rounds: nat) returns (found: Option<Result<Slice, ScanError>>)
      requires pool.Valid() && r.Valid() && r.data !in pool.Free()
      requires FindFrom(r.Content(), number, r.pos, rounds) != NoEnd
      modifies r`pos, pool, pool.Free()
      ensures PoolKept(pool) && r.Valid()
      ensures found == None ==>
                rounds > 0 && FindFrom(r.Content(), number, r.pos, rounds - 1) == FindFrom(r.Content(), number, old(r.pos), rounds)
      ensures found.Some? ==> (found.value.Ok? <==> FindFrom(r.Content(), number, old(r.pos), rounds).Value?)
      ensures found.Some? && found.value.Ok? ==>
                && (found.value.value == NIL || IsNewlyHeld(found.value.value, r))
                && Content(found.value.value) == FindFrom(r.Content(), number, old(r.pos), rounds).payload
    {
      hide ParseBlock, SkipAt, BufferPool.Free, BufferPool.Valid, Reader.Content;
      ghost var p := r.pos;
      var tag := ConsumeTag(r);
      if tag == Ok(None) {
        NothingToFind(r.Content(), number, p, rounds);
        return Some(Ok(NIL));
      }
      if tag.Err? {
        return Some(Err(tag.error));
      }
      if tag.value.value == number {
        var s := ReadBlock(r, p);
        return Some(s);
      }
      var e := SkipBlock(r, p);
      found := if e == None then None else Some(Err(e.value));
    }

    /** The payload of the first field with the number, in a buffer that the caller then holds;
        nothing if there is none. Some searches have no end; the others are exactly those that do
        not come to a position twice. */
    method FindField(data: Slice, number: nat) returns (s: Result<Slice, ScanError>)
      requires pool.Valid() && data.arr != null && Held(data) && data.length < TWO_TO_63
      requires FindBlock(Content(data), number) != NoEnd
      modifies pool, pool.Free()
      ensures PoolKept(pool)
      ensures s.Ok? ==> Held(s.value) && s.value.arr != data.arr
                        && (s.value.arr == null || s.value.arr in old(pool.Free()) || fresh(s.value.arr))
      ensures match FindBlock(old(Content(data)), number)
              case Value(payload) => s.Ok? && Content(s.value) == payload
              case _ => s.Err?
      ensures Content(data) == old(Content(data))
    {
      hide FindFrom, BufferPool.Free, BufferPool.Valid, Content, Reader.Content;
      ghost var content := Content(data);
      var r := ReaderOf(data);
      ghost var rounds: nat := |content|;
      while true
        invariant PoolKept(pool) && r.data == data.arr && r.Valid() && data.arr !in pool.Free() && fresh(r)
        invariant Content(data) == content && r.Content() == content
        invariant FindFrom(content, number, r.pos, rounds) == FindBlock(content, number)
        decreases rounds
      {
        var found := TryField(r, number, rounds);
        if found.Some? {
          return found.value;
        }
        rounds := rounds - 1;
      }
    }

    /** The document's path, copied out of the pool's buffer. */
    method ParseDocumentPath(data: Slice) returns (path: Result<seq<Byte>, ScanError>)
      requires pool.Valid() && data.arr != null && Held(data) && data.length < TWO_TO_63
      requires FindBlock(Content(data), DOCUMENT_RELATIVE_PATH) != NoEnd
      modifies pool, pool.Free()
      ensures PoolKept(pool)
      ensures match FindBlock(old(Content(data)), DOCUMENT_RELATIVE_PATH)
              case Value(found) => path == Ok(found)
              case _ => path.Err?
      ensures Content(data) == old(Content(data))
    {
      hide FindBlock;
      var s := FindField(data, DOCUMENT_RELATIVE_PATH);
      if s.Err? {
        return Err(s.error);
      }
      path := Ok(if s.value.arr == null then [] else s.value.arr[..s.value.length]);
      pool.Put(s.value);
    }

    // ----- scanning

    /** Matches an entry by its moniker and, if it is wanted, parses and visits it. */
    method ScanEntryData(path: seq<Byte>, kind: EntryKind, data: Slice) returns (e: Option<ScanError>)
      requires pool.Valid() && data.arr != null && Held(data) && data.length < TWO_TO_63
      requires kind.MatcherIn(config).Some? && !ScanEntry(config, path, kind, Content(data)).ending.Endless?
      modifies this`visits, pool, pool.Free()
      ensures PoolKept(pool)
      ensures Scans(old(visits), ScanEntry(config, path, kind, old(Content(data))), e)
    {
      hide FindBlock, ParseMessage;
      var moniker := FindField(data, kind.Key());
      if moniker.Err? {
        return Some(moniker.error);
      }
      var matches := kind.MatcherIn(config).value;
      var wanted := matches(if moniker.value.arr == null then [] else moniker.value.arr[..moniker.value.length]);
      pool.Put(moniker.value);
      if wanted && kind.VisitedBy(config) {
        var message := ParseMessage(data.arr[..data.length]);
        if message == None {
          return Some(BadMessage);
        }
        visits := visits + [kind.VisitOf(path, message.value)];
      }
      e := None;
    }

    /** The scanner has made the visits of a scan that ends, and errs exactly when the scan fails. */
    ghost predicate Scans(before: seq<Visit>, scanned: Scanned, e: Option<ScanError>)
      reads this`visits
    {
      visits == before + scanned.visits && scanned.ending == if e == None then Finished else Failed
    }

    /** One field of a document. The buffer of an entry is held while the entry is searched, and
        given back once. */
    method ScanField(path: seq<Byte>, r: Reader) returns (e: Option<ScanError>, eof: bool)
      requires pool.Valid() && r.Valid() && r.data !in pool.Free()
      requires r.pos < r.length ==> !ScanBlock(config, path, r.Content(), r.pos).scanned.ending.Endless?
      modifies this`visits, r`pos, pool, pool.Free()
      ensures PoolKept(pool) && r.Valid()
      ensures eof <==> old(r.pos) >= r.length
      ensures eof ==> Scans(old(visits), NOTHING, e)
      ensures !eof ==>
                var step := ScanBlock(config, path, r.Content(), old(r.pos));
                Scans(old(visits), step.scanned, e) && (e == None ==> r.pos == step.next)
    {
      hide ParseBlock, SkipAt, ScanEntry, BufferPool.Free, BufferPool.Valid, Reader.Content;
      ghost var p := r.pos;
      var tag := ConsumeTag(r);
      eof := tag == Ok(None);
      if eof {
        return None, true;
      }
      if tag.Err? {
        return Some(tag.error), false;
      }
      var kind := KindOf(config, tag.value.value);
      if kind == None {
        e := SkipBlock(r, p);
      } else {
        e := ScanEntryBlock(path, kind.value, r, p);
      }
    }

    method ScanEntryBlock(path: seq<Byte>, kind: EntryKind, r: Reader, ghost p: nat) returns (e: Option<ScanError>)
      requires pool.Valid() && r.Valid() && r.data !in pool.Free() && InBlock(r, p) && kind.MatcherIn(config).Some?
      requires match ParseBlock(r.Content()[p..])
               case None => true
               case Some(b) => !ScanEntry(config, path, kind, b.payload).ending.Endless?
      modifies this`visits, r`pos, pool, pool.Free()
      ensures PoolKept(pool) && r.Valid()
      ensures match ParseBlock(r.Content()[p..])
              case None => Scans(old(visits), FAILURE, e)
              case Some(b) => Scans(old(visits), ScanEntry(config, path, kind, b.payload), e) && r.pos == p + b.size
    {
      hide ParseBlock, ScanEntry, BufferPool.Free, BufferPool.Valid, Reader.Content;
      var data := ReadBlock(r, p);
      if data.Err? {
        return Some(data.error);
      }
      e := ScanEntryData(path, kind, data.value);
      pool.Put(data.value);
    }

    /** What is still to be scanned leads to the visits and the ending promised. */
    ghost predicate Expects(still: Scanned, before: seq<Visit>, total: Scanned)
      reads this`visits
    {
      visits + still.visits == before + total.visits && still.ending == total.ending
    }

    /** Scans the fields of a document from where the reader stands. */
    method ScanDocumentReader(path: seq<Byte>, r: Reader) returns (e: Option<ScanError>)
      requires pool.Valid() && r.Valid() && r.data !in pool.Free()
      requires !ScanBlocksFrom(config, path, r.Content(), r.pos, r.length).ending.Endless?
      modifies this`visits, r`pos, pool, pool.Free()
      ensures PoolKept(pool)
      ensures Scans(old(visits), ScanBlocksFrom(config, path, old(r.Content()), old(r.pos), r.length), e)
    {
      hide ScanBlock, BufferPool.Free, BufferPool.Valid, Reader.Content;
      ghost var content, rounds := r.Content(), r.length;
      ghost var total := ScanBlocksFrom(config, path, content, r.pos, rounds);
      while true
        invariant PoolKept(pool) && r.Valid() && r.data !in pool.Free() && r.Content() == content
        invariant Expects(ScanBlocksFrom(config, path, content, r.pos, rounds), old(visits), total)
        decreases rounds
      {
        var eof;
        e, eof := ScanField(path, r);
        if eof || e.Some? {
          return;
        }
        rounds := rounds - 1;
      }
    }

    /** Scans an index: each document's path first, then the document as a whole if it is
        wanted, then its entries, all out of one buffer that nothing else may touch meanwhile. */
    method ScanIndexReader(r: Reader) returns (e: Option<ScanError>)
      requires pool.Valid() && r.Valid() && r.data !in pool.Free()
      requires !ScanIndexFrom(config, r.Content(), r.pos, r.length).ending.Endless?
      modifies this`visits, r`pos, pool, pool.Free()
      ensures PoolKept(pool)
      ensures Scans(old(visits), ScanIndexFrom(config, old(r.Content()), old(r.pos), r.length), e)
      ensures WellFormedIndex(old(r.Rest())) ==>
                && e == None && ParseAndFilter(config, old(r.Rest())).Some?
                && visits == old(visits) + ParseAndFilter(config, old(r.Rest())).value
    {
      hide ScanIndexFrom, WellFormedIndex, ParseAndFilter, BufferPool.Free, BufferPool.Valid;
      if WellFormedIndex(r.Rest()) {
        if r.pos <= r.length {
          ScanAgreesFrom(config, r.Content(), r.pos, r.length);
        } else {
          NothingToScan(config, r.Content(), r.pos, r.length);
        }
      }
      hide Reader.Content, Reader.Rest;
      e := ScanFields(r);
    }

    method ScanFields(r: Reader) returns (e: Option<ScanError>)
      requires pool.Valid() && r.Valid() && r.data !in pool.Free()
      requires !ScanIndexFrom(config, r.Content(), r.pos, r.length).ending.Endless?
      modifies this`visits, r`pos, pool, pool.Free()
      ensures PoolKept(pool)
      ensures Scans(old(visits), ScanIndexFrom(config, old(r.Content()), old(r.pos), r.length), e)
    {
      hide ScanIndexBlock, BufferPool.Free, BufferPool.Valid, Reader.Content;
      ghost var content, rounds := r.Content(), r.length;
      ghost var total := ScanIndexFrom(config, content, r.pos, rounds);
      while true
        invariant PoolKept(pool) && r.Valid() && r.data !in pool.Free() && r.Content() == content
        invariant Expects(ScanIndexFrom(config, content, r.pos, rounds), old(visits), total)
        decreases rounds
      {
        var eof;
        e, eof := ScanIndexField(r);
        if eof || e.Some? {
          return;
        }
        rounds := rounds - 1;
      }
    }

    /** One field of an index. */
    method ScanIndexField(r: Reader) returns (e: Option<ScanError>, eof: bool)
      requires pool.Valid() && r.Valid() && r.data !in pool.Free()
      requires r.pos < r.length ==> !ScanIndexBlock(config, r.Content(), r.pos).scanned.ending.Endless?
      modifies this`visits, r`pos, pool, pool.Free()
      ensures PoolKept(pool) && r.Valid()
      ensures eof <==> old(r.pos) >= r.length
      ensures eof ==> Scans(old(visits), NOTHING, e)
      ensures !eof ==>
                var step := ScanIndexBlock(config, r.Content(), old(r.pos));
                Scans(old(visits), step.scanned, e) && (e == None ==> r.pos == step.next)
    {
      hide ParseBlock, SkipAt, ScanDocument, BufferPool.Free, BufferPool.Valid, Reader.Content;
      ghost var p := r.pos;
      var tag := ConsumeTag(r);
      eof := tag == Ok(None);
      if eof {
        return None, true;
      }
      if tag.Err? {
        return Some(tag.error), false;
      }
      if tag.value.value != INDEX_DOCUMENTS {
        e := SkipBlock(r, p);
      } else {
        e := ScanDocumentBlock(r, p);
      }
    }

    method ScanDocumentBlock(r: Reader, ghost p: nat) returns (e: Option<ScanError>)
      requires pool.Valid() && r.Valid() && r.data !in pool.Free() && InBlock(r, p)
      requires match ParseBlock(r.Content()[p..])
               case None => true
               case Some(b) => !ScanDocument(config, b.payload).ending.Endless?
      modifies this`visits, r`pos, pool, pool.Free()
      ensures PoolKept(pool) && r.Valid()
      ensures match ParseBlock(r.Content()[p..])
              case None => Scans(old(visits), FAILURE, e)
              case Some(b) => Scans(old(visits), ScanDocument(config, b.payload), e) && r.pos == p + b.size
    {
      hide ParseBlock, ScanDocument, BufferPool.Free, BufferPool.Valid, Reader.Content;
      var data := ReadBlock(r, p);
      if data.Err? {
        return Some(data.error);
      }
      e := ScanDocumentData(data.value);
      pool.Put(data.value);
    }

    method ScanDocumentData(data: Slice) returns (e: Option<ScanError>)
      requires pool.Valid() && data.arr != null && Held(data) && data.length < TWO_TO_63
      requires !ScanDocument(config, Content(data)).ending.Endless?
      modifies this`visits, pool, pool.Free()
      ensures PoolKept(pool)
      ensures Scans(old(visits), ScanDocument(config, old(Content(data))), e)
    {
      hide FindBlock, ScanWhole, ScanBlocks, BufferPool.Free, BufferPool.Valid, Content;
      WholeEnds(config, data);
      var path := ParseDocumentPath(data);
      if path.Err? {
        return Some(path.error);
      }
      e := VisitWhole(path.value, data);
      if e.Some? {
        return;
      }
      e := ScanEntries(path.value, data);
    }

    method ScanEntries(path: seq<Byte>, data: Slice) returns (e: Option<ScanError>)
      requires pool.Valid() && data.arr != null && Held(data) && data.length < TWO_TO_63
      requires !ScanBlocks(config, path, Content(data)).ending.Endless?
      modifies this`visits, pool, pool.Free()
      ensures PoolKept(pool)
      ensures Scans(old(visits), ScanBlocks(config, path, old(Content(data))), e)
    {
      hide ScanBlocksFrom, BufferPool.Free, BufferPool.Valid, Content, Reader.Content;
      var reader := ReaderOf(data);
      e := ScanDocumentReader(path, reader);
    }

    method VisitWhole(path: seq<Byte>, data: Slice) returns (e: Option<ScanError>)
      requires ValidSlice(data) && data.arr != null
      modifies this`visits
      ensures Scans(old(visits), ScanWhole(config, path, Content(data)), e)
    {
      hide ParseMessage;
      if config.matchDocument.Some? {
        var matches := config.matchDocument.value;
        if matches(path) && config.visitsDocuments {
          var document := ParseMessage(data.arr[..data.length]);
          if document == None {
            return Some(BadMessage);
          }
          visits := visits + [VisitDocument(document.value)];
        }
      }
      e := None;
    }
  }

  lemma NothingToScan(c: Config, s: seq<Byte>, p: nat, rounds: nat)
    requires p >= |s|
    ensures Same(ScanIndexFrom(c, s, p, rounds), ParseAndFilter(c, []))
  {
  }

  lemma WholeEnds(c: Config, data: Slice)
    requires ValidSlice(data)
    ensures forall path :: !ScanWhole(c, path, Content(data)).ending.Endless?
  {
    hide ParseMessage;
  }
}
