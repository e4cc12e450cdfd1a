/** A pool of reusable byte buffers in buckets of doubling size. */
module BufferPools {
  import opened Bytes

  /** The first length bytes of an array, or nothing. */
  datatype Slice = Slice(arr: array?<Byte>, length: nat)

  const NIL := Slice(null, 0)

  ghost predicate ValidSlice(s: Slice) {
    if s.arr == null then s.length == 0 else s.length <= s.arr.Length
  }

  function Doubled(start: nat, i: nat): nat {
    if i == 0 then start else 2 * Doubled(start, i - 1)
  }

  lemma {:induction false} DoubledGrows(start: nat, i: nat, j: nat)
    requires start > 0 && i < j
    ensures 0 < Doubled(start, i) < Doubled(start, j)
    decreases j
  {
    DoubledPositive(start, i);
    if i < j - 1 {
      DoubledGrows(start, i, j - 1);
    }
  }

  lemma {:induction false} DoubledPositive(start: nat, i: nat)
    requires start > 0
    ensures Doubled(start, i) > 0
  {
    if i > 0 {
      DoubledPositive(start, i - 1);
    }
  }

  class BufferPool {
    ghost const start: nat
    var sizes: seq<nat>
    var buckets: seq<set<array<Byte>>>

    /** All buffers at rest in the pool. */
    ghost function Free(): set<array<Byte>>
      reads this
    {
      set i, b | 0 <= i < |buckets| && b in buckets[i] :: b
    }

    /** Bucket i holds only buffers of capacity start * 2^i. */
    ghost predicate Valid()
      reads this
    {
      && start > 0
      && |sizes| == |buckets|
      && (forall i :: 0 <= i < |sizes| ==> sizes[i] == Doubled(start, i))
      && (forall i, b :: 0 <= i < |buckets| && b in buckets[i] ==> b.Length == sizes[i])
    }

    constructor (startSize: nat, sizeCount: nat)
      requires startSize > 0 && sizeCount > 0
      ensures Valid() && start == startSize && |sizes| == sizeCount && Free() == {}
    {
      start := startSize;
      var s: seq<nat> := [];
      for i := 0 to sizeCount
        invariant |s| == i && forall j :: 0 <= j < i ==> s[j] == Doubled(startSize, j)
      {
        s := s + [if i == 0 then startSize else 2 * s[i - 1]];
      }
      sizes := s;
      buckets := seq(sizeCount, _ => {});
    }

    /** A buffer of the given length from the smallest bucket that fits it, or one of its own if
        none does. Whoever gets it holds it alone. Its contents are left over from earlier uses. */
    method Get(size: nat) returns (s: Slice)
      requires Valid()
      modifies this
      ensures Valid() && sizes == old(sizes)
      ensures s.arr != null && s.length == size <= s.arr.Length
      ensures s.arr !in Free() && (s.arr in old(Free()) || fresh(s.arr))
      ensures forall b :: b in Free() ==> b in old(Free())
      ensures forall i :: 0 <= i < |sizes| && size <= sizes[i] && (forall j :: 0 <= j < i ==> sizes[j] < size) ==>
                s.arr.Length == sizes[i]
      ensures (forall i :: 0 <= i < |sizes| ==> sizes[i] < size) ==> s.arr.Length == size
    {
      for i := 0 to |sizes|
        invariant Valid() && sizes == old(sizes) && buckets == old(buckets)
        invariant forall j :: 0 <= j < i ==> sizes[j] < size
      {
        if size <= sizes[i] {
          var b := TakeFrom(i);
          return Slice(b, size);
        }
      }
      var own := new Byte[size](_ => 0);
      return Slice(own, size);
    }

    /** What a sync.Pool does: hands out some buffer put into it before, or makes a new one. */
    method TakeFrom(i: nat) returns (b: array<Byte>)
      requires Valid() && i < |sizes|
      modifies this
      ensures Valid() && sizes == old(sizes) && b.Length == sizes[i]
      ensures b !in Free() && (b in old(Free()) || fresh(b))
      ensures forall c :: c in Free() ==> c in old(Free())
    {
      if * {
        if buckets[i] != {} {
          b :| b in buckets[i];
          ghost var before := Free();
          assert b in before;
          buckets := buckets[i := buckets[i] - {b}];
          forall j | 0 <= j < |buckets| && b in buckets[j] ensures false {
            Separate(j, i, b);
          }
          return;
        }
      }
      b := new Byte[sizes[i]](_ => 0);
    }

    /** Buckets of different size share no buffer. */
    lemma Separate(i: nat, j: nat, b: array<Byte>)
      requires Valid() && i < |sizes| && j < |sizes| && b.Length == sizes[j]
      ensures b in buckets[i] ==> i == j
    {
      if b in buckets[i] && i != j {
        if i < j {
          DoubledGrows(start, i, j);
        } else {
          DoubledGrows(start, j, i);
        }
      }
    }

    /** Takes a buffer back into the bucket of its capacity; others are dropped. The buffer must
        not be in the pool already: a second return would hand it out twice. */
    method Put(s: Slice)
      requires Valid() && ValidSlice(s) && s.arr !in Free()
      modifies this
      ensures Valid() && sizes == old(sizes)
      ensures old(Free()) <= Free() && forall b :: b in Free() ==> b in old(Free()) || b == s.arr
      ensures s.arr != null && s.arr.Length in sizes ==> s.arr in Free()
    {
      var capacity := if s.arr == null then 0 else s.arr.Length;
      for i := 0 to |sizes|
        invariant Valid() && sizes == old(sizes) && buckets == old(buckets)
        invariant forall j :: 0 <= j < i ==> sizes[j] != capacity
      {
        if capacity == sizes[i] {
          DoubledPositive(start, i);
          buckets := buckets[i := buckets[i] + {s.arr}];
          assert s.arr in buckets[i];
          forall b | b in old(Free()) ensures b in Free() {
            var j :| 0 <= j < |old(buckets)| && b in old(buckets)[j];
            assert b in buckets[j];
          }
          return;
        }
      }
    }
  }
}
