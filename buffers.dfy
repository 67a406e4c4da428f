/**
 * `java.nio.ByteBuffer` as the buffer chain uses it, and the process-wide
 * buffer pool of `ByteBufferList` (`reclaim`, `obtain`, `obtainArray`).
 */
module Buffers {
  import opened Bytes

  /** Smallest capacity the pool keeps; also the floor of every fresh allocation. */
  const MIN_POOLED: nat := 8192
  /** Default ceiling on the bytes held by the pool (`MAX_SIZE`). */
  const DEFAULT_MAX_SIZE: nat := 1024 * 1024
  /** Default ceiling on one pooled buffer (`MAX_ITEM_SIZE`). */
  const DEFAULT_MAX_ITEM_SIZE: nat := 1024 * 256

  function Max(a: int, b: int): int { if a >= b then a else b }
  function Min(a: int, b: int): int { if a <= b then a else b }

  /** `s` with `len` elements starting at `at` replaced by `t`. */
  ghost function Splice(s: seq<byte>, at: nat, t: seq<byte>): seq<byte>
    requires at + |t| <= |s|
  {
    s[..at] + t + s[at + |t|..]
  }

  /** A slice of a splice that ends before the replaced part is a slice of the original. */
  lemma SpliceBefore(s: seq<byte>, at: nat, t: seq<byte>, lo: nat, hi: nat)
    requires at + |t| <= |s| && lo <= hi <= at
    ensures Splice(s, at, t)[lo..hi] == s[lo..hi]
  {
  }

  /** A slice of a splice that starts after the replaced part is a slice of the original. */
  lemma SpliceAfter(s: seq<byte>, at: nat, t: seq<byte>, lo: nat, hi: nat)
    requires at + |t| <= lo <= hi <= |s|
    ensures Splice(s, at, t)[lo..hi] == s[lo..hi]
  {
    var u := Splice(s, at, t);
    assert |u| == |s|;
    forall i | lo <= i < hi ensures u[i] == s[i] {
      assert u[i] == s[at + |t|..][i - at - |t|];
    }
  }

  /** A slice that starts in the original part before `at` and ends with the replaced part. */
  lemma SpliceEndingWith(s: seq<byte>, at: nat, t: seq<byte>, lo: nat)
    requires at + |t| <= |s| && lo <= at
    ensures Splice(s, at, t)[lo..at + |t|] == s[lo..at] + t
  {
  }

  /** A slice that starts with the replaced part and ends in the original part after it. */
  lemma SpliceStartingWith(s: seq<byte>, at: nat, t: seq<byte>, hi: nat)
    requires at + |t| <= hi <= |s|
    ensures Splice(s, at, t)[at..hi] == t + s[at + |t|..hi]
  {
    var u := Splice(s, at, t);
    assert |u| == |s|;
    assert u[at..hi] == t + s[at + |t|..hi] by {
      forall i | 0 <= i < hi - at ensures u[at..hi][i] == (t + s[at + |t|..hi])[i] {
        if i >= |t| {
          assert u[at + i] == s[at + |t|..][at + i - at - |t|];
        }
      }
    }
  }

  /** Two splices side by side are one splice of both parts. */
  lemma SpliceExtend(s: seq<byte>, at: nat, t: seq<byte>, u: seq<byte>)
    requires at + |t| + |u| <= |s|
    ensures Splice(Splice(s, at, t), at + |t|, u) == Splice(s, at, t + u)
  {
    var v := Splice(s, at, t);
    assert v[..at + |t|] == s[..at] + t;
    assert v[at + |t| + |u|..] == s[at + |t| + |u|..];
  }

  /**
   * `System.arraycopy`: copies `len` bytes of `src` starting at `srcPos` into
   * `dst` at `dstPos`, as if through a temporary copy, so `src` and `dst` may
   * be the same array and the ranges may overlap.
   */
  method ArrayCopy(src: array<byte>, srcPos: nat, dst: array<byte>, dstPos: nat, len: nat)
    requires srcPos + len <= src.Length && dstPos + len <= dst.Length
    modifies dst
    ensures dst[..] == Splice(old(dst[..]), dstPos, old(src[srcPos..srcPos + len]))
  {
    var tmp := src[srcPos..srcPos + len];
    ghost var before := dst[..];
    var i := 0;
    while i < len
      invariant 0 <= i <= len
      invariant |tmp| == len
      invariant forall k | 0 <= k < dst.Length ::
        dst[k] == if dstPos <= k < dstPos + i then tmp[k - dstPos] else before[k]
    {
      dst[dstPos + i] := tmp[i];
      i := i + 1;
    }
    assert dst[..] == Splice(before, dstPos, tmp) by {
      var u := Splice(before, dstPos, tmp);
      assert |u| == dst.Length;
      forall k | 0 <= k < dst.Length ensures dst[..][k] == u[k] {
        if k >= dstPos + len {
          assert u[k] == before[dstPos + len..][k - dstPos - len];
        }
      }
    }
  }

  /**
   * A `java.nio.ByteBuffer` over a backing array: the valid bytes are the
   * window [position, limit) of the capacity, which starts at `arrayOffset`
   * in `arr`.
   */
  class ByteBuffer {
    const arr: array<byte>
    const arrayOffset: nat
    const capacity: nat
    const isDirect: bool
    var position: nat
    var limit: nat

    ghost predicate Valid()
      reads this
    {
      position <= limit <= capacity && arrayOffset + capacity <= arr.Length
    }

    /** `remaining()`: the number of valid bytes. */
    function Remaining(): int
      reads this
    {
      limit - position
    }

    /** The valid bytes, in order. */
    ghost function Window(): (w: seq<byte>)
      reads this, arr
      requires Valid()
      ensures |w| == Remaining()
    {
      arr[arrayOffset + position .. arrayOffset + limit]
    }

    /** `ByteBuffer.allocate(n)`. */
    constructor Allocate(n: nat)
      ensures Valid() && fresh(arr)
      ensures arrayOffset == 0 && capacity == n && arr.Length == n && !isDirect
      ensures position == 0 && limit == n
    {
      arr := new byte[n];
      arrayOffset, capacity, isDirect := 0, n, false;
      position, limit := 0, n;
    }

    /** `ByteBuffer.wrap(a)`: the whole array is valid data. */
    constructor Wrap(a: array<byte>)
      ensures Valid() && arr == a && Window() == a[..]
      ensures arrayOffset == 0 && capacity == a.Length && !isDirect
      ensures position == 0 && limit == a.Length
    {
      arr := a;
      arrayOffset, capacity, isDirect := 0, a.Length, false;
      position, limit := 0, a.Length;
    }

    /** `get(dst, off, n)`: copies the next n valid bytes into dst[off..off+n] and consumes them. */
    method GetBytes(dst: array<byte>, off: nat, n: nat)
      requires Valid() && n <= Remaining() && off + n <= dst.Length && dst != arr
      modifies this`position, dst
      ensures Valid() && position == old(position) + n
      ensures dst[..] == Splice(old(dst[..]), off, old(Window())[..n])
      ensures Window() == old(Window())[n..]
    {
      ArrayCopy(arr, arrayOffset + position, dst, off, n);
      position := position + n;
    }

    /** The valid bytes read in place through `array()`, `arrayOffset()`, `position()` and `remaining()`: nothing is consumed. */
    method Peek() returns (s: seq<byte>)
      requires Valid()
      ensures s == Window()
    {
      s := arr[arrayOffset + position .. arrayOffset + limit];
    }

    /** A relative read of the next n valid bytes (as `getInt`, `getShort`, `getLong`, `get` do): they are consumed. */
    method Take(n: nat) returns (s: seq<byte>)
      requires Valid() && n <= Remaining()
      modifies this`position
      ensures Valid() && position == old(position) + n
      ensures s == old(Window())[..n] && Window() == old(Window())[n..]
    {
      s := arr[arrayOffset + position .. arrayOffset + position + n];
      position := position + n;
    }

    /**
     * `add`'s merge step (mark, position(limit), limit(capacity), put(src),
     * limit(position), reset): src's valid bytes are written just after this
     * buffer's limit, which then covers them, and src is consumed.
     */
    method AppendFrom(src: ByteBuffer)
      requires Valid() && src.Valid() && src != this && src.arr != arr
      requires capacity - limit >= src.Remaining()
      modifies this`limit, arr, src`position
      ensures Valid() && src.Valid()
      ensures position == old(position) && limit == old(limit) + old(src.Remaining())
      ensures Window() == old(Window()) + old(src.Window())
      ensures src.position == src.limit && src.limit == old(src.limit)
    {
      ghost var before := arr[..];
      ghost var w := Window();
      ghost var t := src.Window();
      ArrayCopy(src.arr, src.arrayOffset + src.position, arr, arrayOffset + limit, src.Remaining());
      SpliceEndingWith(before, arrayOffset + limit, t, arrayOffset + position);
      limit := limit + src.Remaining();
      src.position := src.limit;
    }

    /**
     * `addFirst`'s merge step (position(position - n), mark, put(src), reset):
     * src's valid bytes are written just before this buffer's position, which
     * then moves back to cover them, and src is consumed.
     */
    method PrependFrom(src: ByteBuffer)
      requires Valid() && src.Valid() && src != this && src.arr != arr
      requires position >= src.Remaining()
      modifies this`position, arr, src`position
      ensures Valid() && src.Valid()
      ensures limit == old(limit) && position == old(position) - old(src.Remaining())
      ensures Window() == old(src.Window()) + old(Window())
      ensures src.position == src.limit && src.limit == old(src.limit)
    {
      ghost var before, w, t := arr[..], Window(), src.Window();
      var n := src.Remaining();
      var at := arrayOffset + position - n;
      ghost var hi := arrayOffset + limit;
      ArrayCopy(src.arr, src.arrayOffset + src.position, arr, at, n);
      SpliceStartingWith(before, at, t, hi);
      assert before[at + |t|..hi] == w;
      position := position - n;
      src.position := src.limit;
      assert Window() == arr[..][at..hi];
    }
  }

  /** The backing arrays of a sequence of buffers. */
  ghost function Arrays(bs: seq<ByteBuffer>): set<array<byte>>
  {
    set i | 0 <= i < |bs| :: bs[i].arr
  }

  /** No two entries share a backing array (so no buffer appears twice). */
  ghost predicate DistinctArrays(bs: seq<ByteBuffer>)
  {
    bs == [] || (bs[0].arr !in Arrays(bs[1..]) && DistinctArrays(bs[1..]))
  }

  lemma ArraysMember(bs: seq<ByteBuffer>, i: nat)
    requires i < |bs|
    ensures bs[i].arr in Arrays(bs)
  {
  }

  /** A buffer whose array is not among the arrays of a sequence is not in that sequence. */
  lemma NotMember(bs: seq<ByteBuffer>, b: ByteBuffer)
    requires b.arr !in Arrays(bs)
    ensures b !in bs
  {
  }

  lemma ArraysAppend(bs: seq<ByteBuffer>, cs: seq<ByteBuffer>)
    ensures Arrays(bs + cs) == Arrays(bs) + Arrays(cs)
  {
    forall a | a in Arrays(bs + cs) ensures a in Arrays(bs) + Arrays(cs) {
      var i :| 0 <= i < |bs + cs| && (bs + cs)[i].arr == a;
      if i < |bs| {
        assert bs[i].arr == a;
      } else {
        assert cs[i - |bs|].arr == a;
      }
    }
    forall a | a in Arrays(bs) ensures a in Arrays(bs + cs) {
      var i :| 0 <= i < |bs| && bs[i].arr == a;
      assert (bs + cs)[i].arr == a;
    }
    forall a | a in Arrays(cs) ensures a in Arrays(bs + cs) {
      var j :| 0 <= j < |cs| && cs[j].arr == a;
      assert (bs + cs)[|bs| + j].arr == a;
    }
  }

  /** The arrays of a sequence are its head's array and the arrays of its tail. */
  lemma ArraysCons(bs: seq<ByteBuffer>)
    requires bs != []
    ensures Arrays(bs) == {bs[0].arr} + Arrays(bs[1..])
  {
    assert bs == [bs[0]] + bs[1..];
    ArraysAppend([bs[0]], bs[1..]);
    assert Arrays([bs[0]]) == {bs[0].arr};
  }

  lemma {:induction false} DistinctAppend(bs: seq<ByteBuffer>, cs: seq<ByteBuffer>)
    ensures DistinctArrays(bs + cs) <==> DistinctArrays(bs) && DistinctArrays(cs) && Arrays(bs) !! Arrays(cs)
  {
    if bs == [] {
      assert bs + cs == cs;
    } else {
      assert (bs + cs)[1..] == bs[1..] + cs;
      DistinctAppend(bs[1..], cs);
      ArraysAppend(bs[1..], cs);
      ArraysCons(bs);
    }
  }

  ghost predicate AllValid(bs: seq<ByteBuffer>)
    reads bs
  {
    forall i | 0 <= i < |bs| :: bs[i].Valid()
  }

  /** The valid bytes of all the buffers, in order. */
  ghost function Concat(bs: seq<ByteBuffer>): seq<byte>
    reads bs, Arrays(bs)
    requires AllValid(bs)
  {
    if bs == [] then [] else bs[0].Window() + Concat(bs[1..])
  }

  ghost function SumRemaining(bs: seq<ByteBuffer>): int
    reads bs
  {
    if bs == [] then 0 else bs[0].Remaining() + SumRemaining(bs[1..])
  }

  /** The sum of the buffers' remaining counts is the length of their content. */
  lemma {:induction false} ConcatLength(bs: seq<ByteBuffer>)
    requires AllValid(bs)
    ensures |Concat(bs)| == SumRemaining(bs)
  {
    if bs != [] {
      ConcatLength(bs[1..]);
    }
  }

  /** Content splits at any entry boundary. */
  lemma {:induction false} ConcatAppend(bs: seq<ByteBuffer>, cs: seq<ByteBuffer>)
    requires AllValid(bs) && AllValid(cs)
    ensures AllValid(bs + cs)
    ensures Concat(bs + cs) == Concat(bs) + Concat(cs)
  {
    if bs == [] {
      assert bs + cs == cs;
    } else {
      assert (bs + cs)[1..] == bs[1..] + cs;
      ConcatAppend(bs[1..], cs);
    }
  }

  /** Appending one buffer appends its window to the content. */
  lemma ConcatSnoc(front: seq<ByteBuffer>, last: ByteBuffer)
    requires AllValid(front) && last.Valid()
    ensures AllValid(front + [last]) && Concat(front + [last]) == Concat(front) + last.Window()
  {
    ConcatAppend(front, [last]);
    assert [last][1..] == [];
    assert Concat([last]) == last.Window() + Concat([last][1..]);
  }

  /** The content of a non-empty sequence is that of all but its last entry, then the last window. */
  lemma ConcatLast(bs: seq<ByteBuffer>)
    requires AllValid(bs) && bs != []
    ensures Concat(bs) == Concat(bs[..|bs| - 1]) + bs[|bs| - 1].Window()
  {
    var front, last := bs[..|bs| - 1], [bs[|bs| - 1]];
    assert bs == front + last;
    ConcatAppend(front, last);
    assert last[1..] == [];
    assert Concat(last) == last[0].Window() + Concat(last[1..]);
  }

  lemma AppendAssoc<T>(a: seq<T>, b: seq<T>, c: seq<T>)
    ensures a + (b + c) == (a + b) + c
  {
  }

  /** The last buffer of a sequence with distinct arrays shares nothing with the ones in front of it. */
  lemma LastApart(bs: seq<ByteBuffer>)
    requires DistinctArrays(bs) && bs != []
    ensures bs[|bs| - 1].arr !in Arrays(bs[..|bs| - 1]) && bs[|bs| - 1] !in bs[..|bs| - 1]
    ensures Arrays(bs[..|bs| - 1]) <= Arrays(bs)
  {
    ArraysSlices(bs, |bs| - 1);
    ArraysMember(bs[|bs| - 1..], 0);
    NotMember(bs[..|bs| - 1], bs[|bs| - 1]);
  }

  /** A sequence is well formed when the buffers in front of its last one and the last one are. */
  lemma AllValidLast(bs: seq<ByteBuffer>)
    requires bs != [] && AllValid(bs[..|bs| - 1]) && bs[|bs| - 1].Valid()
    ensures AllValid(bs)
  {
    forall i | 0 <= i < |bs| - 1 ensures bs[i].Valid() {
      assert bs[i] == bs[..|bs| - 1][i];
    }
  }

  /** A sequence is well formed when its first buffer and the ones behind it are. */
  lemma AllValidFirst(bs: seq<ByteBuffer>)
    requires bs != [] && bs[0].Valid() && AllValid(bs[1..])
    ensures AllValid(bs)
  {
    forall i | 1 <= i < |bs| ensures bs[i].Valid() {
      assert bs[i] == bs[1..][i - 1];
    }
  }

  /** Two sequences with no backing array in common share no buffer. */
  lemma Separate(bs: seq<ByteBuffer>, cs: seq<ByteBuffer>)
    requires Arrays(bs) !! Arrays(cs)
    ensures forall x | x in bs :: x !in cs
  {
    forall x | x in bs ensures x !in cs {
      var i :| 0 <= i < |bs| && bs[i] == x;
      ArraysMember(bs, i);
      NotMember(cs, x);
    }
  }

  /** The arrays of a prefix or suffix are among the arrays of the whole. */
  lemma ArraysSlices(bs: seq<ByteBuffer>, k: nat)
    requires k <= |bs|
    ensures Arrays(bs) == Arrays(bs[..k]) + Arrays(bs[k..])
    ensures DistinctArrays(bs) ==> DistinctArrays(bs[..k]) && DistinctArrays(bs[k..]) && Arrays(bs[..k]) !! Arrays(bs[k..])
  {
    assert bs == bs[..k] + bs[k..];
    ArraysAppend(bs[..k], bs[k..]);
    DistinctAppend(bs[..k], bs[k..]);
  }

  /** A buffer of a kind the pool can reuse: heap-backed, at offset 0, covering its whole array. */
  predicate Poolable(b: ByteBuffer)
  {
    !b.isDirect && b.arrayOffset == 0 && b.arr.Length == b.capacity
  }

  ghost predicate SortedByCapacity(bs: seq<ByteBuffer>)
  {
    forall i, j | 0 <= i < j < |bs| :: bs[i].capacity <= bs[j].capacity
  }

  function TotalCapacity(bs: seq<ByteBuffer>): nat
  {
    if bs == [] then 0 else bs[0].capacity + TotalCapacity(bs[1..])
  }

  /**
   * The priority queue's `add`: b goes after every entry whose capacity is not
   * larger, so the sequence stays sorted by capacity, smallest first, and
   * buffers of equal capacity leave in the order they came (the Java
   * `PriorityQueue` leaves that order unspecified).
   */
  function InsertByCapacity(bs: seq<ByteBuffer>, b: ByteBuffer): (r: seq<ByteBuffer>)
    ensures |r| == |bs| + 1
    ensures multiset(r) == multiset(bs) + multiset{b}
    ensures TotalCapacity(r) == TotalCapacity(bs) + b.capacity
  {
    if bs == [] || b.capacity < bs[0].capacity then
      assert ([b] + bs)[1..] == bs;
      [b] + bs
    else
      var rest := InsertByCapacity(bs[1..], b);
      assert bs == [bs[0]] + bs[1..];
      assert ([bs[0]] + rest)[1..] == rest;
      [bs[0]] + rest
  }

  /** Inserting adds exactly the new buffer's array. */
  lemma {:induction false} InsertArrays(bs: seq<ByteBuffer>, b: ByteBuffer)
    ensures Arrays(InsertByCapacity(bs, b)) == Arrays(bs) + {b.arr}
  {
    var r := InsertByCapacity(bs, b);
    ArraysCons(r);
    if bs == [] || b.capacity < bs[0].capacity {
      assert r[1..] == bs;
    } else {
      InsertArrays(bs[1..], b);
      ArraysCons(bs);
      assert r[1..] == InsertByCapacity(bs[1..], b);
    }
  }

  /** A lower bound on every capacity survives insertion of a buffer that also meets it. */
  lemma {:induction false} InsertBound(bs: seq<ByteBuffer>, b: ByteBuffer, c: int)
    requires forall i | 0 <= i < |bs| :: bs[i].capacity >= c
    requires b.capacity >= c
    ensures forall i | 0 <= i < |InsertByCapacity(bs, b)| :: InsertByCapacity(bs, b)[i].capacity >= c
  {
    if !(bs == [] || b.capacity < bs[0].capacity) {
      InsertBound(bs[1..], b, c);
    }
  }

  /** Inserting keeps the queue ordered by capacity. */
  lemma {:induction false} InsertSorted(bs: seq<ByteBuffer>, b: ByteBuffer)
    requires SortedByCapacity(bs)
    ensures SortedByCapacity(InsertByCapacity(bs, b))
  {
    if !(bs == [] || b.capacity < bs[0].capacity) {
      var rest := InsertByCapacity(bs[1..], b);
      InsertSorted(bs[1..], b);
      InsertBound(bs[1..], b, bs[0].capacity);
      var r := [bs[0]] + rest;
      assert r == InsertByCapacity(bs, b);
      forall i, j | 0 <= i < j < |r| ensures r[i].capacity <= r[j].capacity {
        assert r[j] == rest[j - 1];
        if i > 0 {
          assert r[i] == rest[i - 1];
        }
      }
    }
  }

  /** Inserting a buffer whose array is not pooled keeps the arrays distinct. */
  lemma {:induction false} InsertDistinct(bs: seq<ByteBuffer>, b: ByteBuffer)
    requires DistinctArrays(bs) && b.arr !in Arrays(bs)
    ensures DistinctArrays(InsertByCapacity(bs, b))
  {
    if bs == [] || b.capacity < bs[0].capacity {
      assert ([b] + bs)[1..] == bs;
    } else {
      var rest := InsertByCapacity(bs[1..], b);
      InsertDistinct(bs[1..], b);
      InsertArrays(bs[1..], b);
      ArraysCons(bs);
      assert ([bs[0]] + rest)[1..] == rest;
    }
  }

  /** The entry a pool may hold: poolable, within the size bounds, reset and within the watermark. */
  ghost predicate Pooled(b: ByteBuffer, maxItemSize: int, maxItem: int)
    reads b
  {
    Poolable(b) && MIN_POOLED <= b.capacity <= maxItemSize && b.capacity <= maxItem
    && b.position == 0 && b.limit == b.capacity
  }

  /**
   * The pool's invariant over its fields: ordered by capacity, no array twice,
   * the byte total is the sum of the capacities, and every entry is a reset,
   * poolable buffer within the ceiling and the watermark.
   */
  ghost predicate PoolInv(items: seq<ByteBuffer>, currentSize: int, maxItem: int, maxItemSize: int)
    reads items
  {
    SortedByCapacity(items) && DistinctArrays(items) && currentSize == TotalCapacity(items)
    && forall x | x in items :: Pooled(x, maxItemSize, maxItem)
  }

  /** Removing the smallest entry keeps the invariant, with its capacity taken off the total. */
  lemma PoolInvTail(items: seq<ByteBuffer>, currentSize: int, maxItem: int, maxItemSize: int)
    requires PoolInv(items, currentSize, maxItem, maxItemSize) && items != []
    ensures PoolInv(items[1..], currentSize - items[0].capacity, maxItem, maxItemSize)
    ensures Pooled(items[0], maxItemSize, maxItem) && items[0].arr !in Arrays(items[1..])
  {
    assert items[0] in items;
    assert forall x | x in items[1..] :: x in items;
  }

  /** Adding a reset, poolable buffer whose array is not pooled keeps the invariant. */
  lemma PoolInvInsert(items: seq<ByteBuffer>, currentSize: int, maxItem: int, maxItemSize: int, b: ByteBuffer)
    requires PoolInv(items, currentSize, maxItem, maxItemSize) && b.arr !in Arrays(items)
    requires Pooled(b, maxItemSize, Max(maxItem, b.capacity))
    ensures PoolInv(InsertByCapacity(items, b), currentSize + b.capacity, Max(maxItem, b.capacity), maxItemSize)
  {
    var r := InsertByCapacity(items, b);
    InsertSorted(items, b);
    InsertDistinct(items, b);
    InsertArrays(items, b);
    forall x | x in r ensures Pooled(x, maxItemSize, Max(maxItem, b.capacity)) {
      assert x in multiset(r);
      if x != b {
        assert x in multiset(items);
        assert Pooled(x, maxItemSize, maxItem);
      }
    }
  }

  /**
   * How many of the smallest entries `reclaim` evicts for an incoming buffer of
   * capacity `cap`: it drops the head while the pool is over `maxSize` and the
   * head is smaller than the incoming buffer.
   */
  function EvictCount(bs: seq<ByteBuffer>, maxSize: int, cap: nat): (k: nat)
    ensures k <= |bs|
  {
    if TotalCapacity(bs) > maxSize && |bs| > 0 && bs[0].capacity < cap then
      1 + EvictCount(bs[1..], maxSize, cap)
    else
      0
  }

  /**
   * Every evicted entry is smaller than the incoming buffer and was evicted while
   * the pool was over `maxSize`; eviction stops at the first entry where the pool
   * is within `maxSize`, the queue is empty or the head is not smaller.
   */
  lemma {:induction false} EvictCountSpec(bs: seq<ByteBuffer>, maxSize: int, cap: nat)
    ensures var k := EvictCount(bs, maxSize, cap);
      (forall i | 0 <= i < k :: bs[i].capacity < cap && TotalCapacity(bs[i..]) > maxSize)
      && (TotalCapacity(bs[k..]) <= maxSize || k == |bs| || bs[k].capacity >= cap)
  {
    var k := EvictCount(bs, maxSize, cap);
    if k > 0 {
      EvictCountSpec(bs[1..], maxSize, cap);
      assert bs[k..] == bs[1..][k - 1..];
      forall i | 0 <= i < k ensures bs[i].capacity < cap && TotalCapacity(bs[i..]) > maxSize {
        if i > 0 {
          assert bs[i..] == bs[1..][i - 1..];
        }
      }
    }
  }

  /** Whether `reclaim` keeps an accepted buffer: the pool is within `maxSize` after evicting. */
  function Kept(bs: seq<ByteBuffer>, maxSize: int, b: ByteBuffer): bool
  {
    TotalCapacity(bs[EvictCount(bs, maxSize, b.capacity)..]) <= maxSize
  }

  /** The pool's entries after `reclaim` accepts b: the evictions, then b queued if it is kept. */
  function AfterReclaim(bs: seq<ByteBuffer>, maxSize: int, b: ByteBuffer): seq<ByteBuffer>
  {
    var rest := bs[EvictCount(bs, maxSize, b.capacity)..];
    if Kept(bs, maxSize, b) then InsertByCapacity(rest, b) else rest
  }

  /** `reclaim` brings no buffer into the pool but the one it is given. */
  lemma AfterReclaimMembers(bs: seq<ByteBuffer>, maxSize: int, b: ByteBuffer)
    ensures forall x | x in AfterReclaim(bs, maxSize, b) :: x in bs || x == b
  {
    var rest := bs[EvictCount(bs, maxSize, b.capacity)..];
    forall x | x in AfterReclaim(bs, maxSize, b) ensures x in bs || x == b {
      if Kept(bs, maxSize, b) {
        assert x in multiset(InsertByCapacity(rest, b));
      }
    }
  }

  /** Index of the first entry with capacity at least `size` (|bs| when there is none). */
  function FirstFit(bs: seq<ByteBuffer>, size: int): (k: nat)
    ensures k <= |bs|
  {
    if bs == [] then 0
    else if bs[0].capacity >= size then 0
    else 1 + FirstFit(bs[1..], size)
  }

  /** The first fit is the first entry large enough: every entry before it is too small. */
  lemma {:induction false} FirstFitSpec(bs: seq<ByteBuffer>, size: int)
    ensures var k := FirstFit(bs, size);
      (forall i | 0 <= i < k :: bs[i].capacity < size)
      && (k < |bs| ==> bs[k].capacity >= size)
  {
    if bs != [] && bs[0].capacity < size {
      FirstFitSpec(bs[1..], size);
      assert forall i | 1 <= i < FirstFit(bs, size) :: bs[i] == bs[1..][i - 1];
    }
  }

  /** The capacity of a concatenation is the sum of the capacities. */
  lemma {:induction false} TotalCapacityAppend(bs: seq<ByteBuffer>, cs: seq<ByteBuffer>)
    ensures TotalCapacity(bs + cs) == TotalCapacity(bs) + TotalCapacity(cs)
  {
    if bs == [] {
      assert bs + cs == cs;
    } else {
      assert (bs + cs)[1..] == bs[1..] + cs;
      TotalCapacityAppend(bs[1..], cs);
    }
  }

  /** Buffers that are all empty have no capacity between them. */
  lemma {:induction false} TotalCapacityEmpty(bs: seq<ByteBuffer>)
    requires forall i | 0 <= i < |bs| :: bs[i].capacity == 0
    ensures TotalCapacity(bs) == 0
  {
    if bs != [] {
      TotalCapacityEmpty(bs[1..]);
    }
  }

  /**
   * How many pooled buffers `obtainArray` takes when `need` bytes are still
   * wanted and `slots` array slots are left for them: it stops when the pool is
   * empty, the need is met or only the last slot is left.
   */
  function TakeCount(bs: seq<ByteBuffer>, need: int, slots: int): (k: nat)
    ensures k <= |bs|
  {
    if bs == [] || need <= 0 || slots <= 0 then 0
    else 1 + TakeCount(bs[1..], need - Min(need, bs[0].capacity), slots - 1)
  }

  /** The bytes still wanted once `obtainArray` stops taking pooled buffers. */
  function Unmet(bs: seq<ByteBuffer>, need: int, slots: int): int
  {
    if bs == [] || need <= 0 || slots <= 0 then need
    else Unmet(bs[1..], need - Min(need, bs[0].capacity), slots - 1)
  }

  /** Taken buffers covering all but `unmet` bytes, followed by one covering the rest, cover `size`. */
  lemma CoverFromParts(s: seq<ByteBuffer>, k: nat, size: int, unmet: int)
    requires k <= |s| && TotalCapacity(s[..k]) >= size - unmet
    requires unmet > 0 ==> k < |s| && s[k].capacity >= unmet
    ensures TotalCapacity(s) >= size
  {
    assert s == s[..k] + s[k..];
    TotalCapacityAppend(s[..k], s[k..]);
  }

  /** How many pooled buffers `obtainArray` takes; none on the main thread. */
  function PoolTake(bs: seq<ByteBuffer>, size: int, slots: int, mayPool: bool): nat
  {
    if mayPool then TakeCount(bs, size, slots) else 0
  }

  /** The part of the request no pooled buffer covers. */
  function PoolUnmet(bs: seq<ByteBuffer>, size: int, slots: int, mayPool: bool): int
  {
    if mayPool then Unmet(bs, size, slots) else size
  }

  /**
   * The buffers taken cover the request up to what is left unmet, the unmet part
   * never exceeds the request, and no more buffers are taken than there are slots.
   */
  lemma {:induction false} TakeCover(bs: seq<ByteBuffer>, need: int, slots: int)
    ensures TotalCapacity(bs[..TakeCount(bs, need, slots)]) >= need - Unmet(bs, need, slots)
    ensures need > 0 ==> 0 <= Unmet(bs, need, slots) <= need
    ensures need <= 0 ==> Unmet(bs, need, slots) == need
    ensures TakeCount(bs, need, slots) <= Max(slots, 0)
  {
    if !(bs == [] || need <= 0 || slots <= 0) {
      var need' := need - Min(need, bs[0].capacity);
      TakeCover(bs[1..], need', slots - 1);
      var k := TakeCount(bs, need, slots);
      assert bs[..k] == [bs[0]] + bs[1..][..k - 1];
      assert ([bs[0]] + bs[1..][..k - 1])[1..] == bs[1..][..k - 1];
    }
  }

  /**
   * The state of `obtainArray`'s first loop: `taken` is the front of the
   * queue as it was, `rest` its remainder, and what is still to take is
   * what the whole queue would take, less what is taken.
   */
  ghost predicate Taking(olds: seq<ByteBuffer>, rest: seq<ByteBuffer>, taken: seq<ByteBuffer>, size: int, total: int, slots: int)
  {
    |taken| <= |olds| && rest == olds[|taken|..] && taken == olds[..|taken|]
    && TakeCount(olds, size, slots) == |taken| + TakeCount(rest, size - total, slots - |taken|)
    && Unmet(olds, size, slots) == Unmet(rest, size - total, slots - |taken|)
  }

  /** Taking the smallest remaining buffer moves the loop state on by one. */
  lemma TakingStep(olds: seq<ByteBuffer>, rest: seq<ByteBuffer>, taken: seq<ByteBuffer>, size: int, total: int, slots: int,
                   rest': seq<ByteBuffer>, taken': seq<ByteBuffer>, total': int)
    requires Taking(olds, rest, taken, size, total, slots) && rest != [] && total < size && |taken| < slots
    requires rest' == rest[1..] && taken' == taken + [rest[0]] && total' == total + Min(size - total, rest[0].capacity)
    ensures Taking(olds, rest', taken', size, total', slots)
  {
    var i := |taken|;
    assert olds[i..][1..] == olds[i + 1..];
    assert olds[..i + 1] == olds[..i] + [olds[i]];
  }

  /** What popping entry i of a queue tells about the rest and the first fit. */
  lemma PopFacts(bs: seq<ByteBuffer>, i: nat, size: int)
    requires i < |bs|
    ensures bs[i..][1..] == bs[i + 1..] && bs[i..][0] == bs[i]
    ensures bs[i].arr in Arrays(bs) && bs[i] in bs
    ensures Arrays(bs[i + 1..]) <= Arrays(bs)
    ensures bs[i].capacity < size ==> FirstFit(bs[i..], size) == 1 + FirstFit(bs[i + 1..], size)
    ensures bs[i].capacity >= size ==> FirstFit(bs[i..], size) == 0
  {
    ArraysMember(bs, i);
    assert bs == bs[..i + 1] + bs[i + 1..];
    ArraysAppend(bs[..i + 1], bs[i + 1..]);
    assert bs[i..][1..] == bs[i + 1..];
  }

  /**
   * The static pool of `ByteBufferList`: reclaimed buffers ordered by capacity
   * (smallest first), the byte total `currentSize`, the watermark `maxItem`,
   * the two ceilings, and the shared `EMPTY_BYTEBUFFER`. The main-thread
   * check of the source is the `mayPool` argument of each operation.
   */
  class BufferPool {
    var items: seq<ByteBuffer>
    var currentSize: int
    var maxItem: int
    const maxSize: int
    const maxItemSize: int
    const emptyBuffer: ByteBuffer

    ghost predicate Valid()
      reads this, items
    {
      PoolInv(items, currentSize, maxItem, maxItemSize) && emptyBuffer.capacity == 0
    }

    constructor (maxSize: int, maxItemSize: int)
      ensures Valid() && items == [] && currentSize == 0 && maxItem == 0
      ensures this.maxSize == maxSize && this.maxItemSize == maxItemSize
    {
      items, currentSize, maxItem := [], 0, 0;
      this.maxSize, this.maxItemSize := maxSize, maxItemSize;
      emptyBuffer := new ByteBuffer.Allocate(0);
    }

    /** The pool holds buffers exactly when its byte total is non-zero. */
    lemma NonEmptyIffSize()
      requires Valid()
      ensures |items| > 0 <==> currentSize != 0
    {
      if |items| > 0 {
        assert items[0] in items;
      }
    }

    /** Every pooled buffer is within the per-item ceiling and below the watermark. */
    lemma PooledBounds(b: ByteBuffer)
      requires Valid() && b in items
      ensures MIN_POOLED <= b.capacity <= maxItemSize && b.capacity <= maxItem
    {
    }

    /** The checks `reclaim` makes before it touches the pool. */
    predicate Accepts(b: ByteBuffer?, mayPool: bool)
    {
      b != null && Poolable(b) && MIN_POOLED <= b.capacity <= maxItemSize && mayPool
    }

    /** The eviction loop of `reclaim`: drops the smallest entries while the pool is over `maxSize` and they are smaller than `cap`. */
    method Evict(cap: nat)
      requires Valid()
      modifies this`items, this`currentSize
      ensures Valid()
      ensures items == old(items)[EvictCount(old(items), maxSize, cap)..]
      ensures Arrays(items) <= Arrays(old(items))
    {
      ghost var olds := items;
      ghost var k := 0;
      while currentSize > maxSize && |items| > 0 && items[0].capacity < cap
        invariant 0 <= k <= |olds| && items == olds[k..]
        invariant EvictCount(olds, maxSize, cap) == k + EvictCount(items, maxSize, cap)
        invariant Valid()
        decreases |items|
      {
        PopFacts(olds, k, cap);
        var _ := PopSmallest();
        k := k + 1;
      }
      ArraysSlices(olds, k);
    }

    /** `remove()` on the queue: the smallest entry leaves the pool and its capacity leaves the total. */
    method PopSmallest() returns (ret: ByteBuffer)
      requires Valid() && items != []
      modifies this`items, this`currentSize
      ensures Valid() && ret == old(items)[0] && items == old(items)[1..]
      ensures currentSize == old(currentSize) - ret.capacity
      ensures Pooled(ret, maxItemSize, maxItem) && ret.arr !in Arrays(items)
    {
      ret := items[0];
      PoolInvTail(items, currentSize, maxItem, maxItemSize);
      items := items[1..];
      currentSize := currentSize - ret.capacity;
    }

    /**
     * `reclaim(b)`: offers b to the pool. Buffers of the wrong kind or size, and
     * calls from the main thread, are ignored. Otherwise the smallest entries are
     * evicted while the pool is over `maxSize` and smaller than b; if the pool is
     * still over, b is dropped, else it is reset and added.
     */
    method Reclaim(b: ByteBuffer?, mayPool: bool)
      requires Valid()
      requires b != null ==> b.arr !in Arrays(items)
      modifies this, b
      ensures Valid()
      ensures !Accepts(b, mayPool) ==> items == old(items) && currentSize == old(currentSize) && maxItem == old(maxItem)
      ensures !(Accepts(b, mayPool) && Kept(old(items), maxSize, b)) && b != null ==>
        b.position == old(b.position) && b.limit == old(b.limit)
      ensures b != null ==> Arrays(items) <= Arrays(old(items)) + {b.arr}
      ensures b != null ==> forall x | x in items :: x in old(items) || x == b
      ensures Accepts(b, mayPool) ==> items == AfterReclaim(old(items), maxSize, b)
      ensures Accepts(b, mayPool) ==>
        maxItem == if Kept(old(items), maxSize, b) then Max(old(maxItem), b.capacity) else old(maxItem)
      ensures Accepts(b, mayPool) && Kept(old(items), maxSize, b) ==> b.position == 0 && b.limit == b.capacity
    {
      if !Accepts(b, mayPool) {
        return;
      }
      AfterReclaimMembers(items, maxSize, b);
      Evict(b.capacity);
      if currentSize > maxSize {
        return;
      }
      Insert(b);
    }

    /** The tail of `reclaim`: b is reset to position 0 and a full limit, and queued by capacity. */
    method Insert(b: ByteBuffer)
      requires Valid() && b.arr !in Arrays(items)
      requires Poolable(b) && MIN_POOLED <= b.capacity <= maxItemSize
      modifies this`items, this`currentSize, this`maxItem, b`position, b`limit
      ensures Valid()
      ensures items == InsertByCapacity(old(items), b) && maxItem == Max(old(maxItem), b.capacity)
      ensures b.position == 0 && b.limit == b.capacity
      ensures Arrays(items) == Arrays(old(items)) + {b.arr}
    {
      NotMember(items, b);
      InsertArrays(items, b);
      b.position := 0;
      b.limit := b.capacity;
      assert PoolInv(items, currentSize, maxItem, maxItemSize);
      PoolInvInsert(items, currentSize, maxItem, maxItemSize, b);
      items, currentSize, maxItem := InsertByCapacity(items, b), currentSize + b.capacity, Max(maxItem, b.capacity);
    }

    /**
     * The pooled path of `obtain`: pops the smallest entries, discarding each one
     * smaller than `size`, until one fits (returned) or the pool is empty (null);
     * the watermark drops to 0 when the pool empties.
     */
    method TakeFit(size: int) returns (r: ByteBuffer?)
      requires Valid()
      modifies this`items, this`currentSize, this`maxItem
      ensures Valid() && Arrays(items) <= Arrays(old(items))
      ensures var k := FirstFit(old(items), size);
        (k < |old(items)| ==> r == old(items)[k] && items == old(items)[k + 1..] && r.arr !in Arrays(items))
        && (k == |old(items)| ==> items == [] && r == null)
      ensures r != null ==> Pooled(r, maxItemSize, old(maxItem)) && r.capacity >= size && r.arr in Arrays(old(items))
      ensures maxItem == (if old(items) != [] && items == [] then 0 else old(maxItem))
    {
      ghost var olds := items;
      ghost var i := 0;
      while |items| > 0
        invariant 0 <= i <= |olds| && items == olds[i..]
        invariant FirstFit(olds, size) == i + FirstFit(items, size)
        invariant Valid()
        invariant maxItem == (if olds != [] && items == [] then 0 else old(maxItem))
        decreases |items|
      {
        PopFacts(olds, i, size);
        var ret := PopSmallest();
        if |items| == 0 {
          maxItem := 0;
        }
        if ret.capacity >= size {
          FirstFitSpec(olds, size);
          ArraysSlices(olds, i + 1);
          return ret;
        }
        i := i + 1;
      }
      ArraysSlices(olds, i);
      return null;
    }

    /**
     * `obtain(size)`: a buffer with at least `size` capacity, position 0 and the
     * whole capacity as its limit. Off the main thread, and unless `size` is above
     * the watermark, it takes the first pooled buffer that fits (see `TakeFit`);
     * otherwise, or when none fits, it allocates max(8192, size) bytes.
     */
    method Obtain(size: int, mayPool: bool) returns (r: ByteBuffer)
      requires Valid()
      modifies this
      ensures Valid()
      ensures r.Valid() && Poolable(r) && r.position == 0 && r.limit == r.capacity && r.capacity >= size
      ensures r.arr !in Arrays(items) && Arrays(items) <= Arrays(old(items))
      ensures r in old(items) || (fresh(r) && fresh(r.arr) && r.capacity == Max(MIN_POOLED, size))
      ensures r in old(items) ==> r.arr in Arrays(old(items))
      ensures !(size <= old(maxItem) && mayPool) ==> unchanged(this) && fresh(r)
      ensures size <= old(maxItem) && mayPool ==>
        var k := FirstFit(old(items), size);
        (k < |old(items)| ==> r == old(items)[k] && items == old(items)[k + 1..])
        && (k == |old(items)| ==> items == [] && fresh(r))
      ensures maxItem == (if size <= old(maxItem) && mayPool && old(items) != [] && items == [] then 0 else old(maxItem))
    {
      if size <= maxItem && mayPool {
        var t := TakeFit(size);
        if t != null {
          return t;
        }
      }
      r := new ByteBuffer.Allocate(Max(MIN_POOLED, size));
    }

    /** One round of the first loop of `obtainArray`: the smallest pooled buffer goes to slot `index`. */
    method TakeOne(arr: array<ByteBuffer>, index: nat) returns (b: ByteBuffer)
      requires Valid() && items != [] && index < arr.Length
      modifies this`items, this`currentSize, arr
      ensures Valid() && items == old(items)[1..] && b == old(items)[0]
      ensures arr[..index + 1] == old(arr[..index]) + [b]
    {
      ghost var taken := arr[..index];
      b := PopSmallest();
      arr[index] := b;
      assert arr[..index + 1] == taken + [b];
    }

    /** The pooled part of `obtainArray`: takes buffers into `arr` from slot 0 on. */
    method TakeInto(arr: array<ByteBuffer>, size: int) returns (index: nat, total: int)
      requires Valid()
      modifies this`items, this`currentSize, arr
      ensures Valid()
      ensures index == TakeCount(old(items), size, arr.Length - 1) && index <= Max(arr.Length - 1, 0)
      ensures size - total == Unmet(old(items), size, arr.Length - 1)
      ensures items == old(items)[index..] && index <= arr.Length && arr[..index] == old(items)[..index]
    {
      ghost var olds := items;
      index, total := 0, 0;
      TakeCover(olds, size, arr.Length - 1);
      while |items| > 0 && total < size && index < arr.Length - 1
        invariant index <= Max(arr.Length - 1, 0)
        invariant Valid() && Taking(olds, items, arr[..index], size, total, arr.Length - 1)
        decreases |items|
      {
        ghost var rest, taken, before := items, arr[..index], total;
        var b := TakeOne(arr, index);
        total := total + Min(size - total, b.capacity);
        index := index + 1;
        TakingStep(olds, rest, taken, size, before, arr.Length - 1, items, arr[..index], total);
      }
    }

    /**
     * `obtainArray(arr, size)`: fills `arr` with buffers whose capacities add up
     * to at least `size`. Off the main thread it takes pooled buffers, smallest
     * first, until the pool is empty, the size is covered or only the last slot
     * is left; a still unmet remainder gets a fresh buffer of max(8192, remainder)
     * bytes, and every slot after that holds the shared empty buffer. The
     * watermark is left as it was.
     */
    method ObtainArray(arr: array<ByteBuffer>, size: int, mayPool: bool)
      requires Valid()
      requires arr.Length > 0 || size <= 0
      modifies this`items, this`currentSize, arr
      ensures Valid()
      ensures var k := PoolTake(old(items), size, arr.Length - 1, mayPool);
        items == old(items)[k..] && k <= arr.Length && arr[..k] == old(items)[..k]
      ensures var k := PoolTake(old(items), size, arr.Length - 1, mayPool);
        var unmet := PoolUnmet(old(items), size, arr.Length - 1, mayPool);
        unmet > 0 ==>
          k < arr.Length && fresh(arr[k]) && arr[k].Valid() && Poolable(arr[k])
          && arr[k].capacity == Max(MIN_POOLED, unmet) && arr[k].position == 0 && arr[k].limit == arr[k].capacity
          && forall i | k < i < arr.Length :: arr[i] == emptyBuffer
      ensures var k := PoolTake(old(items), size, arr.Length - 1, mayPool);
        PoolUnmet(old(items), size, arr.Length - 1, mayPool) <= 0 ==>
          forall i | k <= i < arr.Length :: arr[i] == emptyBuffer
      ensures TotalCapacity(arr[..]) >= size
    {
      ghost var olds := items;
      var index := 0;
      var total := 0;
      if mayPool {
        index, total := TakeInto(arr, size);
        TakeCover(olds, size, arr.Length - 1);
      }
      ghost var k := index;
      ghost var taken := arr[..k];
      assert TotalCapacity(taken) >= total;
      if total < size {
        var b := new ByteBuffer.Allocate(Max(MIN_POOLED, size - total));
        arr[index] := b;
        index := index + 1;
      }
      assert arr[..k] == taken;
      FillEmpty(arr, index);
      assert arr[..k] == arr[..index][..k];
      CoverFromParts(arr[..], k, size, size - total);
    }

    /** The last loop of `obtainArray`: every slot from `from` on gets the shared empty buffer. */
    method FillEmpty(arr: array<ByteBuffer>, from: nat)
      requires from <= arr.Length
      modifies arr
      ensures arr[..from] == old(arr[..from])
      ensures forall j | from <= j < arr.Length :: arr[j] == emptyBuffer
    {
      for i := from to arr.Length
        invariant arr[..from] == old(arr[..from])
        invariant forall j | from <= j < i :: arr[j] == emptyBuffer
      {
        arr[i] := emptyBuffer;
      }
    }
  }
}
