/** The size-class buffer pool of src/buf.rs. */
module BufPool {
  import opened Prelude

  /** A `BytesMut`: its spare room is `capacity - |data|`. */
  datatype Buf = Buf(capacity: nat, data: Bytes)

  const SIZE_CLASSES: seq<nat> := [1024, 2048, 4096, 8192, 16384, 32768, 65536]

  const MAX_POOL_PER_CLASS := 64

  type Buckets = seq<seq<Buf>>

  /** The first size class that holds `size`, found by scanning from the smallest. */
  function ClassFrom(size: nat, i: nat): (r: Option<nat>)
    requires i <= |SIZE_CLASSES|
    requires forall j :: 0 <= j < i ==> SIZE_CLASSES[j] < size
    ensures r.Some? ==> r.value < |SIZE_CLASSES| && Fits(size, r.value)
    ensures r.None? ==> forall j :: 0 <= j < |SIZE_CLASSES| ==> SIZE_CLASSES[j] < size
    decreases |SIZE_CLASSES| - i
  {
    if i == |SIZE_CLASSES| then None
    else if SIZE_CLASSES[i] >= size then Some(i)
    else ClassFrom(size, i + 1)
  }

  function ClassFor(size: nat): (r: Option<nat>)
    ensures r.Some? ==> r.value < |SIZE_CLASSES| && Fits(size, r.value)
    ensures r.None? ==> forall j :: 0 <= j < |SIZE_CLASSES| ==> SIZE_CLASSES[j] < size
  {
    ClassFrom(size, 0)
  }

  /** `size` is at most class `i` and above every smaller class. */
  predicate Fits(size: nat, i: nat)
    requires i < |SIZE_CLASSES|
  {
    size <= SIZE_CLASSES[i] && forall j :: 0 <= j < i ==> SIZE_CLASSES[j] < size
  }

  predicate Valid(buckets: Buckets) {
    && |buckets| == |SIZE_CLASSES|
    && (forall i :: 0 <= i < |buckets| ==> |buckets[i]| <= MAX_POOL_PER_CLASS)
    && (forall i, j :: 0 <= i < |buckets| && 0 <= j < |buckets[i]| ==> Fits(buckets[i][j].capacity, i))
  }

  /** Every pooled buffer has exactly the capacity of its class. */
  predicate ClassSized(buckets: Buckets)
    requires Valid(buckets)
  {
    forall i, j :: 0 <= i < |buckets| && 0 <= j < |buckets[i]| ==> buckets[i][j].capacity == SIZE_CLASSES[i]
  }

  /** Every buffer that the next `get` of its class would hand out has exactly its class capacity. */
  predicate TopsClassSized(buckets: Buckets)
    requires Valid(buckets)
  {
    forall i :: 0 <= i < |buckets| && buckets[i] != [] ==>
      buckets[i][|buckets[i]| - 1].capacity == SIZE_CLASSES[i]
  }

  function Got(buckets: Buckets, minSize: nat): (r: (Buckets, Buf))
    requires Valid(buckets)
  {
    match ClassFor(minSize)
    case None => (buckets, Buf(minSize, []))
    case Some(i) =>
      var b := buckets[i];
      if b == [] then (buckets, Buf(SIZE_CLASSES[i], []))
      else (buckets[i := b[..|b| - 1]], b[|b| - 1].(data := []))
  }

  function AfterPut(buckets: Buckets, buf: Buf): (r: Buckets)
    requires Valid(buckets)
  {
    match ClassFor(buf.capacity)
    case None => buckets
    case Some(i) =>
      if |buckets[i]| < MAX_POOL_PER_CLASS then buckets[i := buckets[i] + [buf]] else buckets
  }

  class Pool {
    var buckets: Buckets

    constructor ()
      ensures buckets == seq(|SIZE_CLASSES|, i => [])
      ensures Valid(buckets)
    {
      buckets := seq(|SIZE_CLASSES|, i => []);
    }

    method Get(minSize: nat) returns (buf: Buf)
      requires Valid(buckets)
      modifies this
      ensures Valid(buckets)
      ensures (buckets, buf) == Got(old(buckets), minSize)
      ensures buf.data == []
    {
      var class' := ClassFor(minSize);
      if class'.Some? {
        var i := class'.value;
        var bucket := buckets[i];
        if bucket != [] {
          buf := bucket[|bucket| - 1].(data := []);
          buckets := buckets[i := bucket[..|bucket| - 1]];
          return;
        }
        return Buf(SIZE_CLASSES[i], []);
      }
      return Buf(minSize, []);
    }

    method Put(buf: Buf)
      requires Valid(buckets)
      modifies this
      ensures Valid(buckets)
      ensures buckets == AfterPut(old(buckets), buf)
    {
      var class' := ClassFor(buf.capacity);
      if class'.Some? {
        var i := class'.value;
        if |buckets[i]| < MAX_POOL_PER_CLASS {
          buckets := buckets[i := buckets[i] + [buf]];
        }
      }
    }
  }

  // ---------------------------------------------------------------------------------------------
  // Runs of the pool
  // ---------------------------------------------------------------------------------------------

  datatype Op = OpGet(minSize: nat) | OpPut(buf: Buf)

  function Step(buckets: Buckets, op: Op): (r: Buckets)
    requires Valid(buckets)
    ensures Valid(r)
  {
    match op
    case OpGet(n) => Got(buckets, n).0
    case OpPut(b) => AfterPut(buckets, b)
  }

  function Run(buckets: Buckets, ops: seq<Op>): (r: Buckets)
    requires Valid(buckets)
    ensures Valid(r)
    decreases ops
  {
    if ops == [] then buckets else Run(Step(buckets, ops[0]), ops[1..])
  }

  /** Buffers come back with the capacity of some class, or too large to be pooled at all. */
  predicate ReturnsClassSized(ops: seq<Op>) {
    forall k :: 0 <= k < |ops| && ops[k].OpPut? ==>
      ops[k].buf.capacity in SIZE_CLASSES || ClassFor(ops[k].buf.capacity).None?
  }

  lemma PutKeepsClassSized(buckets: Buckets, buf: Buf)
    requires Valid(buckets) && ClassSized(buckets)
    requires buf.capacity in SIZE_CLASSES || ClassFor(buf.capacity).None?
    ensures ClassSized(AfterPut(buckets, buf))
  {
    if ClassFor(buf.capacity).Some? {
      var i := ClassFor(buf.capacity).value;
      var j :| 0 <= j < |SIZE_CLASSES| && SIZE_CLASSES[j] == buf.capacity;
      assert i == j;
    }
  }

  lemma {:induction false} RunKeepsClassSized(buckets: Buckets, ops: seq<Op>)
    requires Valid(buckets) && ClassSized(buckets) && ReturnsClassSized(ops)
    ensures ClassSized(Run(buckets, ops))
    decreases ops
  {
    if ops != [] {
      if ops[0].OpPut? { PutKeepsClassSized(buckets, ops[0].buf); }
      RunKeepsClassSized(Step(buckets, ops[0]), ops[1..]);
    }
  }

  /**
   * Over every run in which only class-sized buffers are returned, a buffer taken next is empty, has
   * the capacity asked for, and the pool stays within its bounds.
   */
  lemma MinimumCapacityOverRuns(ops: seq<Op>, minSize: nat)
    requires ReturnsClassSized(ops)
    ensures var empty: Buckets := seq(|SIZE_CLASSES|, i => []);
            && Valid(Run(empty, ops))
            && Got(Run(empty, ops), minSize).1.capacity >= minSize
            && Got(Run(empty, ops), minSize).1.data == []
  {
    var empty: Buckets := seq(|SIZE_CLASSES|, i => []);
    RunKeepsClassSized(empty, ops);
  }

  /**
   * The documented "at least `min_size` capacity" holds of every next request exactly when the
   * buffer on top of each bucket has exactly its class capacity.
   */
  lemma MinimumCapacityExactly(buckets: Buckets)
    requires Valid(buckets)
    ensures (forall minSize: nat :: Got(buckets, minSize).1.capacity >= minSize) <==> TopsClassSized(buckets)
  {
    if forall minSize: nat :: Got(buckets, minSize).1.capacity >= minSize {
      forall i | 0 <= i < |buckets| && buckets[i] != []
        ensures buckets[i][|buckets[i]| - 1].capacity == SIZE_CLASSES[i]
      {
        assert Fits(SIZE_CLASSES[i], i);
        assert ClassFor(SIZE_CLASSES[i]) == Some(i);
        assert Got(buckets, SIZE_CLASSES[i]).1.capacity >= SIZE_CLASSES[i];
        assert Fits(buckets[i][|buckets[i]| - 1].capacity, i);
      }
    }
  }

  /** The classes are the powers of two from one to sixty-four KiB. */
  lemma ClassesAreKibibytes()
    ensures |SIZE_CLASSES| == 7 && SIZE_CLASSES[0] == 1024 && SIZE_CLASSES[6] == 65536
    ensures forall i :: 0 < i < |SIZE_CLASSES| ==> SIZE_CLASSES[i] == 2 * SIZE_CLASSES[i - 1]
  {}

  /**
   * A buffer given back is the next one handed out for its class, emptied, and the pool is then as it
   * was; it is dropped if it is too large for every class or its bucket holds sixty-four already.
   */
  lemma PutThenGet(buckets: Buckets, buf: Buf, minSize: nat)
    requires Valid(buckets)
    requires ClassFor(buf.capacity).Some? && ClassFor(minSize) == ClassFor(buf.capacity)
    ensures if |buckets[ClassFor(minSize).value]| < 64
            then Got(AfterPut(buckets, buf), minSize) == (buckets, buf.(data := []))
            else AfterPut(buckets, buf) == buckets
  {
    var i := ClassFor(minSize).value;
    if |buckets[i]| < 64 {
      var after := AfterPut(buckets, buf);
      assert after[i][..|buckets[i]|] == buckets[i];
      assert after[i := buckets[i]] == buckets;
    }
  }

  /** A 1500-byte buffer given back is handed out for a request of 2000 bytes. */
  lemma MinimumCapacityFails()
    ensures var ops := [OpPut(Buf(1500, []))];
            Got(Run(seq(|SIZE_CLASSES|, i => []), ops), 2000).1.capacity == 1500
  {
    var empty: Buckets := seq(|SIZE_CLASSES|, i => []);
    var b := Buf(1500, []);
    assert ClassFor(1500) == Some(1) && ClassFor(2000) == Some(1);
    assert Run(empty, [OpPut(b)]) == Step(empty, OpPut(b));
  }
}
