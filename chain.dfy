/**
 * `ByteBufferList`: a chain of byte buffers whose logical content is the
 * concatenation of their windows, with a cached byte count. Every operation
 * that drops a buffer hands it to the shared pool, which is passed in
 * explicitly together with the "off the main thread" flag.
 */
module Chain {
  import opened Bytes
  import opened Buffers
  import opened Snapshots
  import opened Outcomes

  /** s is what is left of t once some entries are taken off its front. */
  ghost predicate Suffix<T>(s: seq<T>, t: seq<T>)
  {
    |s| <= |t| && s == t[|t| - |s|..]
  }

  /** `add` copies b into the last buffer when that buffer has room for it after its limit. */
  ghost predicate Mergeable(bs: seq<ByteBuffer>, b: ByteBuffer)
    reads bs, b
  {
    bs != [] && bs[|bs| - 1].capacity - bs[|bs| - 1].limit >= b.Remaining()
  }

  /**
   * `add`'s merge on a sequence of buffers: b's bytes are copied after the
   * limit of the last buffer, which grows to cover them, so the content of
   * the sequence gains b's bytes at its end.
   */
  method GrowLast(ghost bs: seq<ByteBuffer>, last: ByteBuffer, b: ByteBuffer)
    requires AllValid(bs) && DistinctArrays(bs) && bs != [] && last == bs[|bs| - 1]
    requires b.Valid() && b.arr !in Arrays(bs) && last.capacity - last.limit >= b.Remaining()
    modifies last, last.arr, b`position
    ensures AllValid(bs) && Concat(bs) == old(Concat(bs)) + old(b.Window())
  {
    ghost var front := bs[..|bs| - 1];
    LastApart(bs);
    ArraysMember(bs, |bs| - 1);
    NotMember(front, b);
    ConcatLast(bs);
    ghost var f, lw, w := Concat(front), last.Window(), b.Window();
    last.AppendFrom(b);
    assert AllValid(front) && Concat(front) == f;
    AllValidLast(bs);
    ConcatLast(bs);
    AppendAssoc(f, lw, w);
  }

  /**
   * `addFirst`'s merge on a sequence of buffers: b's bytes are copied just
   * before the position of the first buffer, which then starts at them, so the
   * content of the sequence gains b's bytes at its front.
   */
  method GrowFirst(ghost bs: seq<ByteBuffer>, first: ByteBuffer, b: ByteBuffer)
    requires AllValid(bs) && DistinctArrays(bs) && bs != [] && first == bs[0]
    requires b.Valid() && b.arr !in Arrays(bs) && first.position >= b.Remaining()
    modifies first, first.arr, b`position
    ensures AllValid(bs) && Concat(bs) == old(b.Window()) + old(Concat(bs))
  {
    ghost var rest := bs[1..];
    ArraysCons(bs);
    NotMember(rest, first);
    NotMember(rest, b);
    ghost var r, fw, w := Concat(rest), first.Window(), b.Window();
    first.PrependFrom(b);
    assert AllValid(rest) && Concat(rest) == r;
    AllValidFirst(bs);
    AppendAssoc(w, fw, r);
  }

  /** The capacities of the buffers. */
  function Caps(bs: seq<ByteBuffer>): (cs: seq<int>)
    ensures |cs| == |bs| && forall i | 0 <= i < |bs| :: cs[i] == bs[i].capacity
  {
    if bs == [] then [] else [bs[0].capacity] + Caps(bs[1..])
  }

  /**
   * What `read`'s scan knows after looking at the first m buffers, with capacities
   * cs and remaining counts rs: allocSize is their byte total, no shorter front
   * reached `count`, and j is the first of largest capacity among those that
   * could hold `count` bytes (-1 if none), with retOffset the bytes in front of it.
   */
  ghost predicate Scanned(cs: seq<int>, rs: seq<int>, count: int, m: int, j: int, retOffset: int, allocSize: int)
  {
    |cs| == |rs| && 0 <= m <= |rs| && allocSize == Sum(rs[..m])
    && (forall k | 0 <= k < m :: Sum(rs[..k]) < count)
    && -1 <= j < m
    && (j == -1 <==> forall k | 0 <= k < m :: cs[k] < count)
    && (j >= 0 ==> cs[j] >= count && retOffset == Sum(rs[..j]))
    && (j >= 0 ==> forall k | 0 <= k < m && cs[k] >= count :: cs[k] <= cs[j])
    && (j >= 0 ==> forall k | 0 <= k < j && cs[k] >= count :: cs[k] < cs[j])
  }

  /** One more buffer looked at by the scan. */
  lemma ScanStep(cs: seq<int>, rs: seq<int>, count: int, m: int, j: int, retOffset: int, allocSize: int,
                 j': int, retOffset': int, allocSize': int)
    requires Scanned(cs, rs, count, m, j, retOffset, allocSize) && m < |rs| && allocSize < count
    requires allocSize' == allocSize + rs[m]
    requires (j == -1 || cs[m] > cs[j]) && cs[m] >= count ==> j' == m && retOffset' == allocSize
    requires !((j == -1 || cs[m] > cs[j]) && cs[m] >= count) ==> j' == j && retOffset' == retOffset
    ensures Scanned(cs, rs, count, m + 1, j', retOffset', allocSize')
  {
    SumPrefix(rs, m);
  }

  /** One buffer, of capacity `cap` and `rem` bytes, looked at by the scan; `capJ` is the capacity of the pick so far. */
  method ScanOne(ghost cs: seq<int>, ghost rs: seq<int>, count: int, m: int, j: int, retOffset: int, allocSize: int,
                 cap: int, capJ: int, rem: int) returns (j': int, retOffset': int, allocSize': int)
    requires Scanned(cs, rs, count, m, j, retOffset, allocSize) && m < |rs| && allocSize < count
    requires cap == cs[m] && rem == rs[m] && (j >= 0 ==> capJ == cs[j])
    ensures Scanned(cs, rs, count, m + 1, j', retOffset', allocSize')
  {
    j', retOffset', allocSize' := j, retOffset, allocSize + rem;
    if (j == -1 || cap > capJ) && cap >= count {
      j', retOffset' := m, allocSize;
    }
    ScanStep(cs, rs, count, m, j, retOffset, allocSize, j', retOffset', allocSize');
  }

  /**
   * The state of the target array during `read`'s consolidation, with the
   * first k buffers (of windows ws and counts rs) absorbed: from `off` on it
   * holds their bytes in order, and while the target's own buffer (number j)
   * is still ahead, its bytes sit where they belong, `retOffset` bytes after `off`.
   */
  ghost predicate Placed(a: seq<byte>, off: nat, ws: seq<seq<byte>>, rs: seq<int>, k: nat, j: nat, retOffset: int)
  {
    k <= |ws| == |rs| && j < |ws| && off + Sum(rs[..k]) <= |a| && Sum(rs[..k]) >= 0
    && a[off..off + Sum(rs[..k])] == Flatten(ws[..k])
    && (k <= j ==> 0 <= retOffset && off + retOffset + |ws[j]| <= |a| && a[off + retOffset..off + retOffset + |ws[j]|] == ws[j])
  }

  /** Buffer k, not the target, is copied right after the bytes absorbed so far. */
  lemma PlaceOther(a: seq<byte>, off: nat, ws: seq<seq<byte>>, rs: seq<int>, k: nat, j: nat, retOffset: int, a': seq<byte>)
    requires Placed(a, off, ws, rs, k, j, retOffset) && k < |ws| && k != j && |ws[k]| == rs[k]
    requires off + Sum(rs[..k]) + rs[k] <= |a|
    requires k < j ==> Sum(rs[..k]) + rs[k] <= retOffset
    requires a' == Splice(a, off + Sum(rs[..k]), ws[k])
    ensures Placed(a', off, ws, rs, k + 1, j, retOffset)
  {
    var at := off + Sum(rs[..k]);
    SumPrefix(rs, k);
    FlattenPrefix(ws, k);
    SpliceEndingWith(a, at, ws[k], off);
    if k < j {
      SpliceAfter(a, at, ws[k], off + retOffset, off + retOffset + |ws[j]|);
    }
  }

  /** The target's own bytes, already in place, count as absorbed. */
  lemma PlaceOwn(a: seq<byte>, off: nat, ws: seq<seq<byte>>, rs: seq<int>, j: nat, retOffset: int)
    requires Placed(a, off, ws, rs, j, j, retOffset) && retOffset == Sum(rs[..j]) && |ws[j]| == rs[j]
    ensures Placed(a, off, ws, rs, j + 1, j, retOffset)
  {
    SumPrefix(rs, j);
    FlattenPrefix(ws, j);
    assert a[off..off + Sum(rs[..j + 1])] == a[off..off + retOffset] + a[off + retOffset..off + retOffset + |ws[j]|];
  }


  /**
   * The state of `read`'s consolidation once the first k of the buffers `olds`
   * (windows ws, counts rs, pairwise distinct arrays) have been taken off the
   * list: the target `ret` (buffer j) covers [0, allocSize) and its array holds
   * what `Placed` says; every buffer still to come other than the target keeps
   * its window; and the pool is in order and holds none of the arrays still in use.
   */
  ghost predicate Absorbing(olds: seq<ByteBuffer>, ws: seq<seq<byte>>, rs: seq<int>, k: nat,
                            ret: ByteBuffer, j: nat, retOffset: int, allocSize: int, pool: BufferPool)
    reads olds, Arrays(olds), ret, ret.arr, pool, pool.items
  {
    |ws| == |olds| == |rs| && k <= |olds| && j < |olds| && olds[j] == ret
    && NonNegative(rs) && ArraysApart(olds)
    && ret.Valid() && ret.position == 0 && ret.limit == allocSize
    && Placed(ret.arr[..], ret.arrayOffset, ws, rs, k, j, retOffset)
    && Waiting(olds, ws, rs, k, j) && PoolApart(olds, k, ret, pool)
  }

  /** No count is negative. */
  ghost predicate NonNegative(rs: seq<int>)
  {
    forall i | 0 <= i < |rs| :: rs[i] >= 0
  }

  /** No two of the buffers share a backing array. */
  ghost predicate ArraysApart(bs: seq<ByteBuffer>)
  {
    forall i, i' | 0 <= i < i' < |bs| :: bs[i].arr != bs[i'].arr
  }

  /** The buffers from k on, other than number j, still have the windows ws and counts rs. */
  ghost predicate Waiting(olds: seq<ByteBuffer>, ws: seq<seq<byte>>, rs: seq<int>, k: nat, j: nat)
    reads set i | k <= i < |olds| && i != j :: olds[i]
    reads set i | k <= i < |olds| && i != j :: olds[i].arr
  {
    |ws| == |olds| == |rs| && k <= |olds|
    && forall i | k <= i < |olds| && i != j :: olds[i].Valid() && olds[i].Window() == ws[i] && olds[i].Remaining() == rs[i]
  }

  /** The pool is in order and holds neither the target's array nor those of the buffers from k on. */
  ghost predicate PoolApart(olds: seq<ByteBuffer>, k: nat, ret: ByteBuffer, pool: BufferPool)
    reads pool, pool.items
  {
    pool.Valid() && ret.arr !in Arrays(pool.items)
    && forall i | k <= i < |olds| :: olds[i].arr !in Arrays(pool.items)
  }


  /**
   * One round of `read`'s consolidation loop, for b, the next buffer taken off
   * the list: a buffer other than the target has its bytes copied into the
   * target's array right after those absorbed so far and goes to the pool; the
   * target itself only counts its bytes, which are already in place.
   */
  method AbsorbNext(ghost olds: seq<ByteBuffer>, ghost ws: seq<seq<byte>>, ghost rs: seq<int>, ghost k: nat, b: ByteBuffer,
                    ret: ByteBuffer, ghost j: nat, ghost retOffset: int, ghost allocSize: int, ghost m: nat,
                    retRemaining: int, alloc: int, pool: BufferPool, mayPool: bool) returns (alloc': int)
    requires Absorbing(olds, ws, rs, k, ret, j, retOffset, allocSize, pool)
    requires k < m <= |olds| && b == olds[k] && j < m && alloc == Sum(rs[..k])
    requires retOffset == Sum(rs[..j]) && Sum(rs[..m]) == allocSize && retRemaining == rs[j] == |ws[j]|
    modifies ret.arr, pool, b
    ensures Absorbing(olds, ws, rs, k + 1, ret, j, retOffset, allocSize, pool) && alloc' == Sum(rs[..k + 1])
  {
    SumPrefix(rs, k);
    if b != ret {
      var n := b.Remaining();
      AbsorbOther(olds, ws, rs, k, b, ret, j, retOffset, allocSize, m, alloc, pool, mayPool);
      alloc' := alloc + n;
    } else {
      PlaceOwn(ret.arr[..], ret.arrayOffset, ws, rs, j, retOffset);
      alloc' := alloc + retRemaining;
    }
  }

  /** The round of the consolidation loop for a buffer other than the target. */
  method AbsorbOther(ghost olds: seq<ByteBuffer>, ghost ws: seq<seq<byte>>, ghost rs: seq<int>, ghost k: nat, b: ByteBuffer,
                     ret: ByteBuffer, ghost j: nat, ghost retOffset: int, ghost allocSize: int, ghost m: nat,
                     alloc: int, pool: BufferPool, mayPool: bool)
    requires Absorbing(olds, ws, rs, k, ret, j, retOffset, allocSize, pool)
    requires k < m <= |olds| && b == olds[k] && b != ret && j < m && alloc == Sum(rs[..k])
    requires retOffset == Sum(rs[..j]) && Sum(rs[..m]) == allocSize
    modifies ret.arr, pool, b
    ensures Absorbing(olds, ws, rs, k + 1, ret, j, retOffset, allocSize, pool)
  {
    CopyNext(olds, ws, rs, k, b, ret, j, retOffset, m, alloc);
    ReleaseNext(olds, ws, rs, k, b, ret, j, retOffset, allocSize, pool, mayPool);
  }

  /** A buffer other than the target has its bytes copied right after those absorbed so far. */
  method CopyNext(ghost olds: seq<ByteBuffer>, ghost ws: seq<seq<byte>>, ghost rs: seq<int>, ghost k: nat, b: ByteBuffer,
                  ret: ByteBuffer, ghost j: nat, ghost retOffset: int, ghost m: nat, alloc: int)
    requires |ws| == |olds| == |rs| && NonNegative(rs) && j < m <= |olds| && olds[j] == ret && ret.Valid()
    requires Waiting(olds, ws, rs, k, j) && Placed(ret.arr[..], ret.arrayOffset, ws, rs, k, j, retOffset)
    requires k < m && b == olds[k] && k != j && b.arr != ret.arr && alloc == Sum(rs[..k])
    requires retOffset == Sum(rs[..j]) && Sum(rs[..m]) <= ret.capacity
    modifies ret.arr
    ensures Placed(ret.arr[..], ret.arrayOffset, ws, rs, k + 1, j, retOffset)
  {
    ghost var before := ret.arr[..];
    SumPrefix(rs, k);
    if k < j {
      SumMono(rs, k + 1, j);
    } else {
      SumMono(rs, k + 1, m);
    }
    ArrayCopy(b.arr, b.arrayOffset + b.position, ret.arr, ret.arrayOffset + alloc, b.Remaining());
    PlaceOther(before, ret.arrayOffset, ws, rs, k, j, retOffset, ret.arr[..]);
  }

  /** The copied buffer goes to the pool; nothing the consolidation still needs changes. */
  method ReleaseNext(ghost olds: seq<ByteBuffer>, ghost ws: seq<seq<byte>>, ghost rs: seq<int>, ghost k: nat, b: ByteBuffer,
                     ghost ret: ByteBuffer, ghost j: nat, ghost retOffset: int, ghost allocSize: int,
                     pool: BufferPool, mayPool: bool)
    requires Absorbing(olds, ws, rs, k + 1, ret, j, retOffset, allocSize, pool)
    requires k < |olds| && b == olds[k] && b != ret && b.arr !in Arrays(pool.items)
    modifies pool, b
    ensures Absorbing(olds, ws, rs, k + 1, ret, j, retOffset, allocSize, pool)
  {
    pool.Reclaim(b, mayPool);
  }

  /**
   * The start of `read`'s consolidation: the target's bytes move, within its
   * own array, to `retOffset` bytes after its offset, where they belong in the
   * run of the front m buffers, and the target then covers [0, allocSize).
   */
  method Settle(ghost olds: seq<ByteBuffer>, ghost ws: seq<seq<byte>>, ghost rs: seq<int>, ret: ByteBuffer,
                ghost j: nat, retOffset: int, allocSize: int, ghost m: nat, ghost pool: BufferPool)
    requires AllValid(olds) && DistinctArrays(olds) && |ws| == |rs| == |olds|
    requires forall i | 0 <= i < |olds| :: ws[i] == olds[i].Window() && rs[i] == olds[i].Remaining()
    requires j < m <= |olds| && ret == olds[j] && retOffset == Sum(rs[..j]) && allocSize == Sum(rs[..m])
    requires ret.capacity > allocSize
    requires pool.Valid() && Arrays(olds) !! Arrays(pool.items)
    modifies ret, ret.arr
    ensures Absorbing(olds, ws, rs, 0, ret, j, retOffset, allocSize, pool)
  {
    DistinctPairs(olds);
    assert NonNegative(rs);
    SumMono(rs, 0, j);
    SumMono(rs, j + 1, m);
    SumPrefix(rs, j);
    forall i | 0 <= i < |olds|
      ensures olds[i].arr !in Arrays(pool.items)
    {
      ArraysMember(olds, i);
    }
    NotMember(pool.items, ret);
    assert Waiting(olds, ws, rs, 0, j) && PoolApart(olds, 0, ret, pool);
    ghost var a := ret.arr[..];
    Relocate(ret, retOffset, allocSize);
    PlaceStart(a, ret.arrayOffset, ws, rs, j, retOffset, ret.arr[..]);
  }

  /**
   * The first step of `read`'s consolidation on the target alone: its bytes
   * move to `at` bytes after its offset, and it then covers [0, size).
   */
  method Relocate(ret: ByteBuffer, at: nat, size: nat)
    requires ret.Valid() && at + ret.Remaining() <= size <= ret.capacity
    modifies ret, ret.arr
    ensures ret.Valid() && ret.position == 0 && ret.limit == size
    ensures ret.arr[..] == Splice(old(ret.arr[..]), ret.arrayOffset + at, old(ret.Window()))
  {
    ArrayCopy(ret.arr, ret.arrayOffset + ret.position, ret.arr, ret.arrayOffset + at, ret.Remaining());
    ret.position := 0;
    ret.limit := size;
  }

  /** Right after the target's bytes moved, nothing is absorbed yet and they sit where they belong. */
  lemma PlaceStart(a: seq<byte>, off: nat, ws: seq<seq<byte>>, rs: seq<int>, j: nat, retOffset: int, a': seq<byte>)
    requires |ws| == |rs| && j < |ws| && 0 <= retOffset && off + retOffset + |ws[j]| <= |a|
    requires a' == Splice(a, off + retOffset, ws[j])
    ensures Placed(a', off, ws, rs, 0, j, retOffset)
  {
    SpliceStartingWith(a, off + retOffset, ws[j], off + retOffset + |ws[j]|);
  }

  /**
   * The loop of `read`'s consolidation: buffers are taken off the front of
   * `rest` and absorbed until the `count` bytes asked for are covered, which
   * happens exactly when the front m buffers are gone.
   */
  method AbsorbFront(ghost olds: seq<ByteBuffer>, ghost ws: seq<seq<byte>>, ghost rs: seq<int>, rest: seq<ByteBuffer>,
                     ret: ByteBuffer, ghost j: nat, ghost retOffset: int, ghost allocSize: int, ghost m: nat,
                     count: int, retRemaining: int, pool: BufferPool, mayPool: bool) returns (rest': seq<ByteBuffer>)
    requires Absorbing(olds, ws, rs, 0, ret, j, retOffset, allocSize, pool) && rest == olds
    requires j < m <= |olds| && retOffset == Sum(rs[..j]) && allocSize == Sum(rs[..m]) >= count
    requires retRemaining == rs[j] == |ws[j]| && forall k | 0 <= k < m :: Sum(rs[..k]) < count
    modifies ret.arr, pool, olds
    ensures rest' == olds[m..] && Absorbing(olds, ws, rs, m, ret, j, retOffset, allocSize, pool)
  {
    rest' := rest;
    var alloc, k := 0, 0;
    while alloc < count
      invariant 0 <= k <= m && rest' == olds[k..] && alloc == Sum(rs[..k])
      invariant Absorbing(olds, ws, rs, k, ret, j, retOffset, allocSize, pool)
      decreases m - k
    {
      var b := rest'[0];
      rest' := rest'[1..];
      alloc := AbsorbNext(olds, ws, rs, k, b, ret, j, retOffset, allocSize, m, retRemaining, alloc, pool, mayPool);
      k := k + 1;
    }
  }

  /**
   * The end of `read`'s consolidation: with the front m buffers absorbed, the
   * target followed by the untouched rest is a well-formed run holding the
   * bytes of all the windows, apart from the pool.
   */
  lemma Absorbed(olds: seq<ByteBuffer>, ws: seq<seq<byte>>, rs: seq<int>, m: nat, ret: ByteBuffer,
                 j: nat, retOffset: int, allocSize: int, pool: BufferPool, bs: seq<ByteBuffer>)
    requires Absorbing(olds, ws, rs, m, ret, j, retOffset, allocSize, pool) && DistinctArrays(olds)
    requires j < m <= |olds| && allocSize == Sum(rs[..m]) && bs == [ret] + olds[m..]
    ensures AllValid(bs) && DistinctArrays(bs) && Arrays(bs) !! Arrays(pool.items)
    ensures Concat(bs) == Flatten(ws) && SumRemaining(bs) == |Flatten(ws)| && bs[0].Remaining() == allocSize
  {
    AbsorbedArrays(olds, m, ret, j, pool, bs);
    AbsorbedContent(olds, ws, rs, m, ret, j, retOffset, bs);
  }

  /** After consolidation the list's arrays are still distinct and apart from the pool's. */
  lemma AbsorbedArrays(olds: seq<ByteBuffer>, m: nat, ret: ByteBuffer, j: nat, pool: BufferPool, bs: seq<ByteBuffer>)
    requires DistinctArrays(olds) && PoolApart(olds, m, ret, pool)
    requires j < m <= |olds| && olds[j] == ret && bs == [ret] + olds[m..]
    ensures DistinctArrays(bs) && Arrays(bs) !! Arrays(pool.items)
  {
    ArraysSlices(olds, m);
    ArraysMember(olds[..m], j);
    DistinctAppend([ret], olds[m..]);
    assert Arrays([ret]) == {ret.arr};
    ArraysAppend([ret], olds[m..]);
    forall a | a in Arrays(olds[m..]) ensures a !in Arrays(pool.items) {
      var i :| 0 <= i < |olds[m..]| && olds[m..][i].arr == a;
      assert olds[m + i].arr == a;
    }
  }

  /** After consolidation the target holds the bytes of the front m windows, and the rest follow. */
  lemma AbsorbedContent(olds: seq<ByteBuffer>, ws: seq<seq<byte>>, rs: seq<int>, m: nat, ret: ByteBuffer,
                        j: nat, retOffset: int, bs: seq<ByteBuffer>)
    requires |ws| == |olds| == |rs| && j < m <= |olds| && Waiting(olds, ws, rs, m, j)
    requires ret.Valid() && ret.position == 0 && ret.limit == Sum(rs[..m])
    requires Placed(ret.arr[..], ret.arrayOffset, ws, rs, m, j, retOffset) && bs == [ret] + olds[m..]
    ensures AllValid(bs) && Concat(bs) == Flatten(ws) && SumRemaining(bs) == |Flatten(ws)|
    ensures bs[0].Remaining() == Sum(rs[..m])
  {
    var nws := [Flatten(ws[..m])] + ws[m..];
    assert ret.Window() == Flatten(ws[..m]);
    forall i | 0 <= i < |bs| ensures bs[i].Valid() && bs[i].Window() == nws[i] {
      if i > 0 {
        assert bs[i] == olds[m + i - 1] && nws[i] == ws[m + i - 1];
      }
    }
    HoldsWindows(bs, nws);
    assert nws[1..] == ws[m..];
    FlattenSplit(ws, m);
  }

  /**
   * `read`'s consolidation on the buffers `olds` (windows ws, counts rs): the
   * target j is settled, the front m buffers are absorbed into it, and what
   * remains is the target followed by the rest, holding the same bytes.
   */
  method AbsorbRun(ghost olds: seq<ByteBuffer>, ghost ws: seq<seq<byte>>, ghost rs: seq<int>, rest: seq<ByteBuffer>,
                   ret: ByteBuffer, ghost j: nat, retOffset: int, allocSize: int, ghost m: nat,
                   count: int, pool: BufferPool, mayPool: bool) returns (rest': seq<ByteBuffer>)
    requires AllValid(olds) && DistinctArrays(olds) && |ws| == |rs| == |olds| && rest == olds
    requires forall i | 0 <= i < |olds| :: ws[i] == olds[i].Window() && rs[i] == olds[i].Remaining()
    requires j < m <= |olds| && ret == olds[j] && retOffset == Sum(rs[..j]) && allocSize == Sum(rs[..m]) >= count
    requires ret.capacity > allocSize && forall k | 0 <= k < m :: Sum(rs[..k]) < count
    requires pool.Valid() && Arrays(olds) !! Arrays(pool.items)
    modifies pool, olds, Arrays(olds)
    ensures rest' == olds[m..] && pool.Valid()
    ensures AllValid([ret] + rest') && DistinctArrays([ret] + rest') && Arrays([ret] + rest') !! Arrays(pool.items)
    ensures Concat([ret] + rest') == Flatten(ws) && SumRemaining([ret] + rest') == |Flatten(ws)|
    ensures ret.Remaining() == allocSize
  {
    var retRemaining := ret.Remaining();
    Settle(olds, ws, rs, ret, j, retOffset, allocSize, m, pool);
    rest' := AbsorbFront(olds, ws, rs, rest, ret, j, retOffset, allocSize, m, count, retRemaining, pool, mayPool);
    Absorbed(olds, ws, rs, m, ret, j, retOffset, allocSize, pool, [ret] + rest');
  }

  /**
   * The state of `read`'s gathering copy once the first k of the buffers
   * `olds` have been taken off the list: the first `offset` bytes of the
   * obtained buffer `ret`, then `left` (what is still in the last buffer taken),
   * then the windows still to come make up all the bytes; the buffers still to
   * come keep their windows; and the pool holds none of the arrays in use.
   */
  ghost predicate Gathering(olds: seq<ByteBuffer>, ws: seq<seq<byte>>, rs: seq<int>, k: nat, ret: ByteBuffer,
                            offset: int, count: int, left: seq<byte>, pool: BufferPool)
    reads olds, Arrays(olds), ret, ret.arr, pool, pool.items
  {
    |ws| == |olds| == |rs| && k <= |olds| && 0 <= offset <= count
    && ret.Valid() && ret.arrayOffset == 0 && ret.position == 0 && ret.limit == count
    && ArraysApart(olds) && (forall i | 0 <= i < |olds| :: olds[i].arr != ret.arr)
    && Waiting(olds, ws, rs, k, |olds|)
    && ret.arr[..offset] + left + Flatten(ws[k..]) == Flatten(ws)
    && PoolApart(olds, k, ret, pool)
  }

  /** The bytes still to come are the next window, then the rest. */
  lemma FlattenNext(ws: seq<seq<byte>>, k: nat)
    requires k < |ws|
    ensures Flatten(ws[k..]) == ws[k] + Flatten(ws[k + 1..])
  {
    assert ws[k..][1..] == ws[k + 1..];
  }

  /** Moving the first n bytes of the next window into the gathered prefix keeps the whole. */
  lemma GatherBytes(a: seq<byte>, a': seq<byte>, offset: nat, ws: seq<seq<byte>>, k: nat, n: nat)
    requires k < |ws| && n <= |ws[k]| && offset <= |a| && offset + n <= |a'|
    requires a[..offset] + Flatten(ws[k..]) == Flatten(ws)
    requires a'[..offset + n] == a[..offset] + ws[k][..n]
    ensures a'[..offset + n] + ws[k][n..] + Flatten(ws[k + 1..]) == Flatten(ws)
  {
    FlattenNext(ws, k);
    assert ws[k] == ws[k][..n] + ws[k][n..];
    AppendAssoc(a[..offset], ws[k][..n], ws[k][n..]);
    AppendAssoc(a[..offset], ws[k], Flatten(ws[k + 1..]));
  }

  /**
   * One copy of the gathering loop: the next buffer gives up to the bytes
   * still needed, in order, to the obtained buffer.
   */
  method GatherCopy(ghost olds: seq<ByteBuffer>, ghost ws: seq<seq<byte>>, ghost rs: seq<int>, ghost k: nat, bb: ByteBuffer,
                    ret: ByteBuffer, offset: int, count: int, n: int, ghost pool: BufferPool)
    requires Gathering(olds, ws, rs, k, ret, offset, count, [], pool) && k < |olds| && bb == olds[k]
    requires offset < count && n == Min(count - offset, bb.Remaining())
    modifies ret.arr, bb`position
    ensures bb.Valid() && bb.arr !in Arrays(pool.items) && (bb.Remaining() > 0 ==> offset + n == count)
    ensures Gathering(olds, ws, rs, k + 1, ret, offset + n, count, bb.Window(), pool)
  {
    ghost var a := ret.arr[..];
    bb.GetBytes(ret.arr, offset, n);
    SpliceEndingWith(a, offset, ws[k][..n], 0);
    GatherBytes(a, ret.arr[..], offset, ws, k, n);
  }

  /** A buffer the gathering copy emptied goes to the pool. */
  method GatherRelease(ghost olds: seq<ByteBuffer>, ghost ws: seq<seq<byte>>, ghost rs: seq<int>, ghost k: nat, bb: ByteBuffer,
                       ghost ret: ByteBuffer, ghost offset: int, ghost count: int, pool: BufferPool, mayPool: bool)
    requires Gathering(olds, ws, rs, k + 1, ret, offset, count, [], pool) && k < |olds| && bb == olds[k]
    requires bb.arr !in Arrays(pool.items)
    modifies pool, bb
    ensures Gathering(olds, ws, rs, k + 1, ret, offset, count, [], pool)
  {
    pool.Reclaim(bb, mayPool);
  }

  /**
   * One round of the gathering loop for bb, the next buffer taken off the
   * list: it gives up to the bytes still needed, and goes to the pool if that
   * emptied it; otherwise (`kept`) it is the one buffer left partly read.
   */
  method GatherNext(ghost olds: seq<ByteBuffer>, ghost ws: seq<seq<byte>>, ghost rs: seq<int>, ghost k: nat, bb: ByteBuffer,
                    ret: ByteBuffer, offset: int, count: int, pool: BufferPool, mayPool: bool) returns (offset': int, kept: bool)
    requires Gathering(olds, ws, rs, k, ret, offset, count, [], pool) && k < |olds| && bb == olds[k] && offset < count
    modifies ret.arr, bb, pool
    ensures !kept ==> Gathering(olds, ws, rs, k + 1, ret, offset', count, [], pool)
    ensures kept ==> offset' == count && bb.Valid() && bb.Remaining() > 0 && bb.arr !in Arrays(pool.items)
    ensures kept ==> Gathering(olds, ws, rs, k + 1, ret, offset', count, bb.Window(), pool)
  {
    var n := Min(count - offset, bb.Remaining());
    GatherCopy(olds, ws, rs, k, bb, ret, offset, count, n, pool);
    offset' := offset + n;
    kept := bb.Remaining() != 0;
    if !kept {
      GatherRelease(olds, ws, rs, k, bb, ret, offset', count, pool, mayPool);
    }
  }

  /**
   * The start of `read`'s gathering copy: a buffer of at least `count` bytes is
   * obtained from the pool and limited to `count`; nothing is gathered yet.
   */
  method GatherStart(ghost olds: seq<ByteBuffer>, ghost ws: seq<seq<byte>>, ghost rs: seq<int>,
                     count: int, pool: BufferPool, mayPool: bool) returns (ret: ByteBuffer)
    requires AllValid(olds) && DistinctArrays(olds) && |ws| == |rs| == |olds| && 0 <= count
    requires forall i | 0 <= i < |olds| :: ws[i] == olds[i].Window() && rs[i] == olds[i].Remaining()
    requires pool.Valid() && Arrays(olds) !! Arrays(pool.items)
    modifies pool, pool.items
    ensures Gathering(olds, ws, rs, 0, ret, 0, count, [], pool)
    ensures (ret in old(pool.items) && ret.arr in Arrays(old(pool.items))) || (fresh(ret) && fresh(ret.arr))
  {
    DistinctPairs(olds);
    assert Waiting(olds, ws, rs, 0, |olds|);
    assert ws[0..] == ws;
    ret := ObtainApart(olds, count, pool, mayPool);
    ret.limit := count;
  }

  /** `obtain(count)` seen from the list: the buffer obtained shares no array with the list or the pool. */
  method ObtainApart(ghost olds: seq<ByteBuffer>, count: int, pool: BufferPool, mayPool: bool) returns (ret: ByteBuffer)
    requires pool.Valid() && Arrays(olds) !! Arrays(pool.items)
    modifies pool
    ensures ret.Valid() && Poolable(ret) && ret.position == 0 && ret.capacity >= count
    ensures PoolApart(olds, 0, ret, pool) && ret !in pool.items
    ensures forall i | 0 <= i < |olds| :: olds[i].arr != ret.arr
    ensures (ret in old(pool.items) && ret.arr in Arrays(old(pool.items))) || (fresh(ret) && fresh(ret.arr))
  {
    forall i | 0 <= i < |olds|
      ensures olds[i].arr !in Arrays(pool.items)
    {
      ArraysMember(olds, i);
    }
    ret := pool.Obtain(count, mayPool);
    forall i | 0 <= i < |olds|
      ensures olds[i].arr != ret.arr
    {
      ArraysMember(olds, i);
    }
    NotMember(pool.items, ret);
  }

  /**
   * `read`'s gathering copy on the buffers `olds` (windows ws, counts rs): a
   * buffer is obtained and filled with the first `count` bytes, the buffers
   * emptied on the way go to the pool, and a last buffer left partly read is
   * put back in front of the rest.
   */
  method GatherRun(ghost olds: seq<ByteBuffer>, ghost ws: seq<seq<byte>>, ghost rs: seq<int>, rest: seq<ByteBuffer>,
                   count: int, pool: BufferPool, mayPool: bool) returns (ret: ByteBuffer, rest': seq<ByteBuffer>)
    requires AllValid(olds) && DistinctArrays(olds) && |ws| == |rs| == |olds| && 0 <= count <= |Flatten(ws)|
    requires forall i | 0 <= i < |olds| :: ws[i] == olds[i].Window() && rs[i] == olds[i].Remaining()
    requires pool.Valid() && Arrays(olds) !! Arrays(pool.items) && rest == olds
    modifies pool, pool.items, Arrays(pool.items), olds
    ensures Suffix(rest', olds) && pool.Valid() && (ret in old(pool.items) || fresh(ret))
    ensures AllValid([ret] + rest') && DistinctArrays([ret] + rest') && Arrays([ret] + rest') !! Arrays(pool.items)
    ensures Concat([ret] + rest') == Flatten(ws) && SumRemaining([ret] + rest') == |Flatten(ws)|
    ensures ret.Remaining() == count && ret.Window() == Flatten(ws)[..count]
  {
    ret := GatherStart(olds, ws, rs, count, pool, mayPool);
    ghost var k, left;
    rest', k, left := GatherLoop(olds, ws, rs, rest, ret, count, pool, mayPool);
    Gathered(olds, ws, rs, k, ret, count, left, pool, rest');
  }

  /**
   * The loop of `read`'s gathering copy: buffers are taken off the front of
   * `rest` and give their bytes, in order, until `count` bytes are gathered.
   * A last buffer left partly read (with `left` its remaining bytes) is put
   * back in front of the rest.
   */
  method GatherLoop(ghost olds: seq<ByteBuffer>, ghost ws: seq<seq<byte>>, ghost rs: seq<int>, rest: seq<ByteBuffer>,
                    ret: ByteBuffer, count: int, pool: BufferPool, mayPool: bool)
    returns (rest': seq<ByteBuffer>, ghost k: nat, ghost left: seq<byte>)
    requires Gathering(olds, ws, rs, 0, ret, 0, count, [], pool)
    requires rest == olds && count <= |Flatten(ws)|
    modifies ret.arr, pool, olds
    ensures Gathering(olds, ws, rs, k, ret, count, count, left, pool)
    ensures (left == [] && rest' == olds[k..])
         || (0 < k && rest' == olds[k - 1..] && olds[k - 1].Valid() && olds[k - 1].Window() == left
             && olds[k - 1].arr !in Arrays(pool.items))
  {
    rest' := rest;
    var offset := 0;
    var bb: ByteBuffer? := null;
    k, left := 0, [];
    while offset < count
      invariant 0 <= k <= |olds| && rest' == olds[k..]
      invariant Gathering(olds, ws, rs, k, ret, offset, count, left, pool)
      invariant bb == null ==> left == []
      invariant bb != null ==> 0 < k && bb == olds[k - 1] && offset == count && bb.Valid() && bb.Remaining() > 0
      invariant bb != null ==> bb.Window() == left && bb.arr !in Arrays(pool.items)
      decreases |olds| - k
    {
      assert |Flatten(ws[k..])| > 0;
      bb := rest'[0];
      rest' := rest'[1..];
      var kept;
      offset, kept := GatherNext(olds, ws, rs, k, bb, ret, offset, count, pool, mayPool);
      if kept {
        left := bb.Window();
      } else {
        bb := null;
        left := [];
      }
      k := k + 1;
    }
    if bb != null {
      assert [bb] + rest' == olds[k - 1..];
      rest' := [bb] + rest';
    }
  }

  /**
   * The end of `read`'s gathering copy: the obtained buffer followed by the
   * buffers left (the partly read one first, if any) is a well-formed run
   * holding the bytes of all the windows, apart from the pool.
   */
  lemma Gathered(olds: seq<ByteBuffer>, ws: seq<seq<byte>>, rs: seq<int>, k: nat, ret: ByteBuffer, count: int,
                 left: seq<byte>, pool: BufferPool, bs: seq<ByteBuffer>)
    requires Gathering(olds, ws, rs, k, ret, count, count, left, pool) && DistinctArrays(olds)
    requires (left == [] && bs == olds[k..])
          || (0 < k && bs == olds[k - 1..] && olds[k - 1].Valid() && olds[k - 1].Window() == left
              && olds[k - 1].arr !in Arrays(pool.items))
    ensures Suffix(bs, olds)
    ensures AllValid([ret] + bs) && DistinctArrays([ret] + bs) && Arrays([ret] + bs) !! Arrays(pool.items)
    ensures Concat([ret] + bs) == Flatten(ws) && SumRemaining([ret] + bs) == |Flatten(ws)|
    ensures ret.Remaining() == count && ret.Window() == Flatten(ws)[..count]
  {
    var from := |olds| - |bs|;
    assert bs == olds[from..];
    GatheredArrays(olds, from, k, ret, pool, bs);
    var nws := [ret.Window()] + (if from < k then [left] else []) + ws[k..];
    forall i | 0 <= i < |nws| ensures ([ret] + bs)[i].Valid() && ([ret] + bs)[i].Window() == nws[i] {
      if i > 0 && from == k {
        assert ([ret] + bs)[i] == olds[k + i - 1] && nws[i] == ws[k + i - 1];
      } else if i > 1 {
        assert ([ret] + bs)[i] == olds[k + i - 2] && nws[i] == ws[k + i - 2];
      }
    }
    HoldsWindows([ret] + bs, nws);
    var a := ret.arr[..count];
    assert ret.Window() == a;
    if from < k {
      assert nws == [a] + ([left] + ws[k..]);
      assert Flatten([left] + ws[k..]) == left + Flatten(ws[k..]) by {
        assert ([left] + ws[k..])[1..] == ws[k..];
      }
      AppendAssoc(a, left, Flatten(ws[k..]));
    } else {
      assert nws[1..] == ws[k..];
      assert a + left == a;
    }
    assert Flatten(ws)[..count] == a;
  }

  /** After the gathering copy the list's arrays are distinct, apart from the pool's and from the obtained one. */
  lemma GatheredArrays(olds: seq<ByteBuffer>, from: nat, k: nat, ret: ByteBuffer, pool: BufferPool, bs: seq<ByteBuffer>)
    requires DistinctArrays(olds) && k <= |olds| && from <= k && bs == olds[from..] && (from < k ==> from == k - 1)
    requires forall i | 0 <= i < |olds| :: olds[i].arr != ret.arr
    requires PoolApart(olds, k, ret, pool) && (from < k ==> olds[from].arr !in Arrays(pool.items))
    ensures DistinctArrays([ret] + bs) && Arrays([ret] + bs) !! Arrays(pool.items)
  {
    ArraysSlices(olds, from);
    DistinctAppend([ret], bs);
    assert Arrays([ret]) == {ret.arr};
    ArraysAppend([ret], bs);
    forall a | a in Arrays(bs) ensures a !in Arrays(pool.items) && a != ret.arr {
      var i :| 0 <= i < |bs| && bs[i].arr == a;
      assert olds[from + i].arr == a;
    }
  }

  /**
   * Every buffer of the pool's entries `now`, and every array, was among the
   * entries `before` or was one of the list's buffers `olds`.
   */
  ghost predicate Released(olds: seq<ByteBuffer>, before: seq<ByteBuffer>, now: seq<ByteBuffer>)
  {
    (forall x | x in now :: x in before || x in olds)
    && Arrays(now) <= Arrays(before) + Arrays(olds)
  }

  /** Handing the first of `olds` to the pool releases it from `olds`. */
  lemma ReleasedHead(olds: seq<ByteBuffer>, before: seq<ByteBuffer>, now: seq<ByteBuffer>)
    requires olds != [] && Arrays(now) <= Arrays(before) + {olds[0].arr}
    requires forall x | x in now :: x in before || x == olds[0]
    ensures Released(olds, before, now)
  {
    ArraysMember(olds, 0);
  }

  /** What a step releases from a suffix of `olds` was released from `olds`. */
  lemma ReleasedTrans(olds: seq<ByteBuffer>, k: nat, items0: seq<ByteBuffer>, items1: seq<ByteBuffer>, items2: seq<ByteBuffer>)
    requires k <= |olds| && Released(olds, items0, items1) && Released(olds[k..], items1, items2)
    ensures Released(olds, items0, items2)
  {
    ArraysSlices(olds, k);
  }

  /**
   * An empty first buffer of `bs` goes to the pool; the buffers behind it
   * keep the content and stay apart from the pool.
   */
  method ReleaseHead(bs: seq<ByteBuffer>, pool: BufferPool, mayPool: bool)
    requires AllValid(bs) && DistinctArrays(bs) && bs != [] && bs[0].Remaining() <= 0
    requires pool.Valid() && Arrays(bs) !! Arrays(pool.items)
    modifies pool, bs[0]
    ensures pool.Valid() && AllValid(bs[1..]) && DistinctArrays(bs[1..])
    ensures Concat(bs[1..]) == old(Concat(bs)) && SumRemaining(bs[1..]) == old(SumRemaining(bs))
    ensures Arrays(bs[1..]) !! Arrays(pool.items) && Released(bs, old(pool.items), pool.items)
  {
    var b := bs[0];
    ghost var rest := bs[1..];
    ArraysCons(bs);
    NotMember(rest, b);
    ArraysMember(bs, 0);
    assert Concat(bs) == Concat(rest);
    assert AllValid(rest);
    ghost var c := Concat(rest);
    ghost var items := pool.items;
    pool.Reclaim(b, mayPool);
    assert Concat(rest) == c;
    ReleasedHead(bs, items, pool.items);
  }

  /**
   * The first n bytes of a sequence of buffers, read off its first buffer,
   * which holds them; the pool, which shares no array with the buffers, is
   * untouched.
   */
  method TakeHead(bs: seq<ByteBuffer>, n: nat, ghost pool: BufferPool) returns (taken: seq<byte>)
    requires AllValid(bs) && DistinctArrays(bs) && bs != [] && n <= bs[0].Remaining()
    requires pool.Valid() && Arrays(bs) !! Arrays(pool.items)
    modifies bs[0]
    ensures AllValid(bs) && taken == old(Concat(bs))[..n] && Concat(bs) == old(Concat(bs))[n..]
    ensures SumRemaining(bs) == old(SumRemaining(bs)) - n && pool.Valid()
  {
    var b := bs[0];
    ArraysMember(bs, 0);
    NotMember(pool.items, b);
    ghost var rest := bs[1..];
    ArraysCons(bs);
    NotMember(rest, b);
    assert AllValid(rest);
    ghost var c, w := Concat(rest), b.Window();
    assert Concat(bs) == w + c;
    taken := b.Take(n);
    assert Concat(rest) == c;
    AllValidFirst(bs);
    assert Concat(bs) == w[n..] + c;
  }

  /**
   * One turn of the loop of `get(bytes, offset, length)`: up to `need` bytes
   * of the first buffer are copied into dst at `off`, and the buffer, once
   * drained, is removed and handed to the pool.
   */
  method DrainStep(bs: seq<ByteBuffer>, dst: array<byte>, off: nat, need: int, pool: BufferPool, mayPool: bool)
    returns (bs': seq<ByteBuffer>, n: nat)
    requires AllValid(bs) && DistinctArrays(bs) && bs != [] && 0 < need && off + need <= dst.Length
    requires dst !in Arrays(bs) && pool.Valid() && Arrays(bs) !! Arrays(pool.items)
    modifies bs[0], dst, pool
    ensures n == Min(old(bs[0].Remaining()), need) && (n > 0 || |bs'| < |bs|)
    ensures bs' == bs || bs' == bs[1..]
    ensures AllValid(bs') && DistinctArrays(bs') && pool.Valid() && Arrays(bs') !! Arrays(pool.items)
    ensures Concat(bs') == old(Concat(bs))[n..] && SumRemaining(bs') == old(SumRemaining(bs)) - n
    ensures dst[..] == Splice(old(dst[..]), off, old(Concat(bs))[..n])
    ensures Released(bs, old(pool.items), pool.items)
  {
    n := Min(bs[0].Remaining(), need);
    ConcatLength(bs);
    CopyHead(bs, bs[0], dst, off, n, pool);
    ConcatLength(bs);
    if bs[0].Remaining() == 0 {
      ReleaseHead(bs, pool, mayPool);
      bs' := bs[1..];
    } else {
      bs' := bs;
      assert Released(bs, old(pool.items), pool.items);
    }
  }

  /**
   * The state of the loop of `get(bytes, offset, length)` with `need` bytes
   * still to copy: the buffers `rest` left of `bs` hold the content `c0` less
   * the bytes copied so far, which sit in dst from `off` on (dst was `d0`), and
   * what the pool took came from `bs` (its entries were `items0`).
   */
  ghost predicate Draining(bs: seq<ByteBuffer>, rest: seq<ByteBuffer>, dst: array<byte>, off: nat, at: int, len: int, need: int,
                           c0: seq<byte>, d0: seq<byte>, items0: seq<ByteBuffer>, pool: BufferPool)
    reads rest, Arrays(rest), dst, pool, pool.items
  {
    0 <= need <= len <= |c0| && at == off + (len - need) && off + len <= dst.Length == |d0|
    && Suffix(rest, bs) && AllValid(rest) && DistinctArrays(rest) && dst !in Arrays(rest)
    && pool.Valid() && Arrays(rest) !! Arrays(pool.items)
    && Concat(rest) == c0[len - need..] && SumRemaining(rest) == |c0| - (len - need)
    && dst[..] == Splice(d0, off, c0[..len - need])
    && Released(bs, items0, pool.items)
  }

  /**
   * The loop of `get(bytes, offset, length)`: the first `len` bytes of the
   * buffers are copied, in order, into dst from `off` on; every buffer drained
   * on the way is removed and handed to the pool, and a buffer left partly
   * read stays at the front.
   */
  method Drain(bs: seq<ByteBuffer>, dst: array<byte>, off: nat, len: int, pool: BufferPool, mayPool: bool)
    returns (rest: seq<ByteBuffer>)
    requires AllValid(bs) && DistinctArrays(bs) && 0 <= len <= |Concat(bs)| && off + len <= dst.Length
    requires dst !in Arrays(bs) && pool.Valid() && Arrays(bs) !! Arrays(pool.items)
    modifies bs, dst, pool
    ensures Suffix(rest, bs) && AllValid(rest) && DistinctArrays(rest) && pool.Valid() && Arrays(rest) !! Arrays(pool.items)
    ensures Concat(rest) == old(Concat(bs))[len..] && SumRemaining(rest) == old(SumRemaining(bs)) - len
    ensures dst[..] == Splice(old(dst[..]), off, old(Concat(bs))[..len])
    ensures Released(bs, old(pool.items), pool.items)
  {
    ConcatLength(bs);
    ghost var c0, d0 := Concat(bs), dst[..];
    rest := bs;
    var need, at := len, off;
    assert c0[..0] == [] && c0[0..] == c0;
    while need > 0
      invariant Draining(bs, rest, dst, off, at, len, need, c0, d0, old(pool.items), pool)
      decreases need + |rest|
    {
      rest, need, at := DrainTurn(bs, rest, dst, off, at, len, need, c0, d0, old(pool.items), pool, mayPool);
    }
  }

  /** One turn of `Drain`'s loop, which copies some bytes or drops a drained buffer. */
  method DrainTurn(ghost bs: seq<ByteBuffer>, rest: seq<ByteBuffer>, dst: array<byte>, off: nat, at: int, len: int, need: int,
                   ghost c0: seq<byte>, ghost d0: seq<byte>, ghost items0: seq<ByteBuffer>, pool: BufferPool, mayPool: bool)
    returns (rest': seq<ByteBuffer>, need': int, at': int)
    requires Draining(bs, rest, dst, off, at, len, need, c0, d0, items0, pool) && need > 0
    modifies rest, dst, pool
    ensures Draining(bs, rest', dst, off, at', len, need', c0, d0, items0, pool)
    ensures need' + |rest'| < need + |rest|
  {
    ghost var items, d, cr := pool.items, dst[..], Concat(rest);
    var n;
    rest', n := DrainStep(rest, dst, at, need, pool, mayPool);
    need', at' := need - n, at + n;
    DrainedMore(bs, rest, rest', dst, off, at', len, need, need', c0, d0, d, cr, items0, items, pool);
  }

  /** After a turn of `Drain`'s loop has copied n = need - need' bytes, the loop state holds again. */
  lemma DrainedMore(bs: seq<ByteBuffer>, rest: seq<ByteBuffer>, rest': seq<ByteBuffer>, dst: array<byte>, off: nat, at': int,
                    len: int, need: int, need': int, c0: seq<byte>, d0: seq<byte>, d: seq<byte>, cr: seq<byte>,
                    items0: seq<ByteBuffer>, items: seq<ByteBuffer>, pool: BufferPool)
    requires 0 <= need' <= need <= len <= |c0| && at' == off + (len - need') && off + len <= dst.Length == |d0|
    requires Suffix(rest, bs) && (rest' == rest || (rest != [] && rest' == rest[1..])) && dst !in Arrays(rest)
    requires d == Splice(d0, off, c0[..len - need]) && cr == c0[len - need..]
    requires AllValid(rest') && DistinctArrays(rest') && pool.Valid() && Arrays(rest') !! Arrays(pool.items)
    requires Concat(rest') == cr[need - need'..] && SumRemaining(rest') == |c0| - (len - need) - (need - need')
    requires dst[..] == Splice(d, off + (len - need), cr[..need - need'])
    requires Released(bs, items0, items) && Released(rest, items, pool.items)
    ensures Draining(bs, rest', dst, off, at', len, need', c0, d0, items0, pool)
  {
    CopiedMore(d0, off, c0, len - need, need - need', d, dst[..]);
    ReleasedTrans(bs, |bs| - |rest|, items0, items, pool.items);
    if rest' != rest {
      ArraysCons(rest);
    }
  }

  /** The entries of a suffix, and their arrays, are among those of the whole. */
  lemma SuffixMembers(s: seq<ByteBuffer>, t: seq<ByteBuffer>)
    requires Suffix(s, t)
    ensures (forall i | 0 <= i < |s| :: s[i] in t) && Arrays(s) <= Arrays(t)
  {
    ArraysSlices(t, |t| - |s|);
  }

  /**
   * After `get(into, length)` moved a whole buffer b onto `into` (whose
   * buffers were ibs and are now ibs') and the pool's entries went from items
   * to items': the buffers left behind still share no array with either.
   */
  lemma MovedApart(rest: seq<ByteBuffer>, b: ByteBuffer, ibs: seq<ByteBuffer>, ibs': seq<ByteBuffer>,
                   items: seq<ByteBuffer>, items': seq<ByteBuffer>)
    requires Arrays(rest) !! Arrays(items) && Arrays(rest) !! Arrays(ibs) && b.arr !in Arrays(rest)
    requires Suffix(ibs', ibs) || Suffix(ibs', ibs + [b])
    requires Released(ibs + [b], items, items')
    ensures Arrays(rest) !! Arrays(items') && Arrays(rest) !! Arrays(ibs')
  {
    ArraysAppend(ibs, [b]);
    ArraysMember([b], 0);
    if Suffix(ibs', ibs) {
      SuffixMembers(ibs', ibs);
    } else {
      SuffixMembers(ibs', ibs + [b]);
    }
  }

  /** Every entry of s, with its array, is in U. */
  ghost predicate AllIn(s: seq<ByteBuffer>, U: set<object>)
  {
    forall i | 0 <= i < |s| :: s[i] in U && s[i].arr in U
  }

  /** The same move keeps `into`'s buffers and the pool's entries within U. */
  lemma MovedWithin(b: ByteBuffer, ibs: seq<ByteBuffer>, ibs': seq<ByteBuffer>, items: seq<ByteBuffer>, items': seq<ByteBuffer>,
                    U: set<object>)
    requires Suffix(ibs', ibs) || Suffix(ibs', ibs + [b])
    requires Released(ibs + [b], items, items')
    requires b in U && b.arr in U && AllIn(ibs, U) && AllIn(items, U)
    ensures AllIn(ibs', U) && AllIn(items', U)
  {
    assert AllIn(ibs + [b], U) by {
      forall i | 0 <= i < |ibs| + 1 ensures (ibs + [b])[i] in U && (ibs + [b])[i].arr in U {
        if i < |ibs| {
          assert (ibs + [b])[i] == ibs[i];
        }
      }
    }
    if Suffix(ibs', ibs) {
      assert ibs' == ibs[|ibs| - |ibs'|..];
    } else {
      assert ibs' == (ibs + [b])[|ibs| + 1 - |ibs'|..];
    }
    forall i | 0 <= i < |items'| ensures items'[i] in U && items'[i].arr in U {
      var x := items'[i];
      if x in items {
        var j :| 0 <= j < |items| && items[j] == x;
      } else {
        var j :| 0 <= j < |ibs + [b]| && (ibs + [b])[j] == x;
      }
    }
  }

  /**
   * The split of `get(into, length)`: a buffer of at least `need` bytes is
   * obtained from the pool and limited to `need`, and the next `need` bytes of
   * b are copied into it from its start.
   */
  method Carve(b: ByteBuffer, need: nat, pool: BufferPool, mayPool: bool) returns (subset: ByteBuffer)
    requires b.Valid() && need <= b.Remaining() && pool.Valid() && b.arr !in Arrays(pool.items)
    modifies b`position, pool, pool.items, Arrays(pool.items)
    ensures pool.Valid() && Arrays(pool.items) <= Arrays(old(pool.items))
    ensures b.Valid() && b.Window() == old(b.Window())[need..]
    ensures subset.Valid() && subset.Window() == old(b.Window())[..need]
    ensures subset.arr != b.arr && subset.arr !in Arrays(pool.items)
    ensures (subset in old(pool.items) && subset.arr in Arrays(old(pool.items))) || (fresh(subset) && fresh(subset.arr))
  {
    subset := ObtainLimited(need, pool, mayPool);
    b.GetBytes(subset.arr, 0, need);
    assert subset.arr[..][..need] == subset.Window();
  }

  /** `reclaimed`-pool `obtain(need)` with the limit set to `need`: an empty window of `need` bytes at the array's start. */
  method ObtainLimited(need: nat, pool: BufferPool, mayPool: bool) returns (subset: ByteBuffer)
    requires pool.Valid()
    modifies pool, pool.items
    ensures pool.Valid() && Arrays(pool.items) <= Arrays(old(pool.items))
    ensures subset.Valid() && subset.position == 0 && subset.limit == need && subset.arrayOffset == 0 && need <= subset.arr.Length
    ensures subset.arr !in Arrays(pool.items)
    ensures (subset in old(pool.items) && subset.arr in Arrays(old(pool.items))) || (fresh(subset) && fresh(subset.arr))
  {
    subset := pool.Obtain(need, mayPool);
    NotMember(pool.items, subset);
    ghost var items, arrays := pool.items, Arrays(pool.items);
    subset.limit := need;
    assert pool.items == items && Arrays(pool.items) == arrays;
    assert pool.Valid() by {
      assert forall x | x in items :: x != subset;
    }
  }

  /** What the pool took from some buffers it took from any sequence holding them. */
  lemma ReleasedWiden(olds: seq<ByteBuffer>, more: seq<ByteBuffer>, before: seq<ByteBuffer>, now: seq<ByteBuffer>)
    requires Released(olds, before, now) && (forall i | 0 <= i < |olds| :: olds[i] in more) && Arrays(olds) <= Arrays(more)
    ensures Released(more, before, now)
  {
  }

  /** Two rounds of handing buffers of one sequence to the pool. */
  lemma ReleasedChain(olds: seq<ByteBuffer>, items0: seq<ByteBuffer>, items1: seq<ByteBuffer>, items2: seq<ByteBuffer>)
    requires Released(olds, items0, items1) && Released(olds, items1, items2)
    ensures Released(olds, items0, items2)
  {
  }

  /** What is left of a suffix after dropping its head, or nothing, is still a suffix. */
  lemma SuffixTail<T>(bs: seq<T>, rest: seq<T>, rest': seq<T>)
    requires Suffix(rest, bs) && (rest' == rest || (rest != [] && rest' == rest[1..]))
    ensures Suffix(rest', bs)
  {
  }

  /** Copying the next n bytes of c0 after the first `done` extends the copy to the first done + n. */
  lemma CopiedMore(d0: seq<byte>, off: nat, c0: seq<byte>, done: nat, n: nat, d: seq<byte>, d': seq<byte>)
    requires done + n <= |c0| && off + done + n <= |d0|
    requires d == Splice(d0, off, c0[..done]) && d' == Splice(d, off + done, c0[done..][..n])
    ensures d' == Splice(d0, off, c0[..done + n]) && c0[done..][n..] == c0[done + n..]
  {
    SpliceExtend(d0, off, c0[..done], c0[done..][..n]);
    assert c0[..done] + c0[done..][..n] == c0[..done + n];
  }

  /** The first n bytes of a sequence of buffers, copied into dst at `off` off its first buffer, which holds them. */
  method CopyHead(bs: seq<ByteBuffer>, b: ByteBuffer, dst: array<byte>, off: nat, n: nat, ghost pool: BufferPool)
    requires AllValid(bs) && DistinctArrays(bs) && bs != [] && b == bs[0] && n <= b.Remaining() && off + n <= dst.Length
    requires dst !in Arrays(bs) && pool.Valid() && Arrays(bs) !! Arrays(pool.items)
    modifies b`position, dst
    ensures AllValid(bs) && Concat(bs) == old(Concat(bs))[n..]
    ensures dst[..] == Splice(old(dst[..]), off, old(Concat(bs))[..n]) && pool.Valid()
  {
    ghost var rest := bs[1..];
    ArraysMember(bs, 0);
    NotMember(pool.items, b);
    HeadApart(bs, dst);
    Snapshot(rest);
    ghost var ws, w, d := Windows(rest), b.Window(), dst[..];
    ghost var c := Concat(bs);
    assert c == w + Flatten(ws);
    assert c[..n] == w[..n];
    CopyOut(b, rest, ws, dst, off, n, pool);
    assert dst[..] == Splice(d, off, c[..n]);
    HoldsWindows(rest, ws);
    AllValidFirst(bs);
    assert Concat(bs) == w[n..] + Flatten(ws);
    assert Concat(bs) == c[n..];
  }

  /** `b.get(dst, off, n)` seen from the other buffers `rest`, whose windows `ws` it leaves alone. */
  method CopyOut(b: ByteBuffer, ghost rest: seq<ByteBuffer>, ghost ws: seq<seq<byte>>, dst: array<byte>, off: nat, n: nat,
                 ghost pool: BufferPool)
    requires b.Valid() && n <= b.Remaining() && off + n <= dst.Length && dst != b.arr && |ws| == |rest|
    requires pool.Valid() && b !in pool.items
    requires forall i | 0 <= i < |rest| :: rest[i] != b && rest[i].arr != dst && rest[i].Valid() && rest[i].Window() == ws[i]
    modifies b`position, dst
    ensures b.Valid() && b.Window() == old(b.Window())[n..] && dst[..] == Splice(old(dst[..]), off, old(b.Window())[..n])
    ensures forall i | 0 <= i < |rest| :: rest[i].Valid() && rest[i].Window() == ws[i]
    ensures pool.Valid()
  {
    b.GetBytes(dst, off, n);
  }

  /** Neither the first buffer of bs nor an outside array dst is reachable from the buffers behind it. */
  lemma HeadApart(bs: seq<ByteBuffer>, dst: array<byte>)
    requires DistinctArrays(bs) && bs != [] && dst !in Arrays(bs)
    ensures forall i | 0 <= i < |bs| - 1 :: bs[1..][i] != bs[0] && bs[1..][i].arr != dst
  {
    forall i | 0 <= i < |bs| - 1 ensures bs[1..][i] != bs[0] && bs[1..][i].arr != dst {
      ArraysMember(bs, i + 1);
      ArraysMember(bs[1..], i);
    }
  }

  /**
   * The loop of `recycle`: every buffer, front to back, is taken off and
   * handed to the pool.
   */
  method ReleaseAll(bs: seq<ByteBuffer>, pool: BufferPool, mayPool: bool)
    requires DistinctArrays(bs) && pool.Valid() && Arrays(bs) !! Arrays(pool.items)
    modifies bs, pool
    ensures pool.Valid() && Released(bs, old(pool.items), pool.items)
  {
    DistinctPairs(bs);
    for i := 0 to |bs|
      invariant pool.Valid() && Released(bs, old(pool.items), pool.items)
      invariant forall j | i <= j < |bs| :: bs[j].arr !in Arrays(pool.items)
    {
      ArraysMember(bs, i);
      pool.Reclaim(bs[i], mayPool);
    }
  }

  /**
   * The loop of `readString()`: every buffer, front to back, is taken off, its
   * valid bytes are decoded as US-ASCII and appended to the text, and it is
   * handed to the pool. The text is the decoding of the whole content.
   */
  method DecodeAll(bs: seq<ByteBuffer>, pool: BufferPool, mayPool: bool) returns (text: seq<char>)
    requires AllValid(bs) && DistinctArrays(bs) && pool.Valid() && Arrays(bs) !! Arrays(pool.items)
    modifies bs, pool
    ensures pool.Valid() && text == AsciiDecode(old(Concat(bs))) && Released(bs, old(pool.items), pool.items)
  {
    ghost var ws := Windows(bs);
    Snapshot(bs);
    text := [];
    for i := 0 to |bs|
      invariant Decoding(bs, ws, i, text, old(pool.items), pool)
    {
      text := DecodeTurn(bs, ws, i, text, old(pool.items), pool, mayPool);
    }
    assert ws[..|bs|] == ws;
  }

  /**
   * The state of `readString`'s loop before the i-th buffer: the text decodes
   * the windows before it, the buffers from it on still hold their windows and
   * stay out of the pool, and what the pool took came from bs.
   */
  ghost predicate Decoding(bs: seq<ByteBuffer>, ws: seq<seq<byte>>, i: nat, text: seq<char>, items0: seq<ByteBuffer>, pool: BufferPool)
    reads bs, Arrays(bs), pool, pool.items
  {
    i <= |bs| == |ws| && DistinctArrays(bs) && pool.Valid() && Released(bs, items0, pool.items)
    && (forall j | i <= j < |bs| :: bs[j].arr !in Arrays(pool.items) && bs[j].Valid() && bs[j].Window() == ws[j])
    && text == AsciiDecode(Flatten(ws[..i]))
  }

  /** One turn of `readString`'s loop: the i-th buffer is decoded onto the text and handed to the pool. */
  method DecodeTurn(bs: seq<ByteBuffer>, ghost ws: seq<seq<byte>>, i: nat, text: seq<char>, ghost items0: seq<ByteBuffer>,
                    pool: BufferPool, mayPool: bool) returns (text': seq<char>)
    requires i < |bs| && Decoding(bs, ws, i, text, items0, pool)
    modifies bs[i], pool
    ensures Decoding(bs, ws, i + 1, text', items0, pool)
  {
    var w := bs[i].Peek();
    ArraysMember(bs, i);
    ghost var items := pool.items;
    ReclaimBefore(bs, ws, i, pool, mayPool);
    ReleasedTrans(bs, i, items0, items, pool.items);
    text' := DecodeMore(ws, i, text, w);
  }

  /** `readString`'s append: the decoding of one more window follows the decoding of the ones before it. */
  function DecodeMore(ghost ws: seq<seq<byte>>, ghost i: nat, text: seq<char>, w: seq<byte>): (text': seq<char>)
    requires i < |ws| && w == ws[i] && text == AsciiDecode(Flatten(ws[..i]))
    ensures text' == AsciiDecode(Flatten(ws[..i + 1]))
  {
    FlattenPrefix(ws, i);
    AsciiDecodeAppend(Flatten(ws[..i]), w);
    text + AsciiDecode(w)
  }

  /**
   * `reclaim` of the i-th buffer while the ones after it still wait: their
   * windows stay as they were and their arrays stay out of the pool.
   */
  method ReclaimBefore(bs: seq<ByteBuffer>, ghost ws: seq<seq<byte>>, i: nat, pool: BufferPool, mayPool: bool)
    requires i < |bs| == |ws| && DistinctArrays(bs) && pool.Valid() && bs[i].arr !in Arrays(pool.items)
    requires forall j | i < j < |bs| :: bs[j].arr !in Arrays(pool.items) && bs[j].Valid() && bs[j].Window() == ws[j]
    modifies bs[i], pool
    ensures pool.Valid() && Released(bs[i..], old(pool.items), pool.items)
    ensures forall j | i < j < |bs| :: bs[j].arr !in Arrays(pool.items) && bs[j].Valid() && bs[j].Window() == ws[j]
  {
    DistinctPairs(bs);
    pool.Reclaim(bs[i], mayPool);
    assert bs[i] == bs[i..][0];
    ArraysMember(bs[i..], 0);
  }


  /**
   * The state of the loop of `get(into, length)` once `offset` bytes have
   * moved: the buffers `rest` left in the list hold the content c0 less those
   * bytes, which `into` (whose content was i0) now ends with, and the list,
   * `into` and the pool share no backing array. While bytes are still to
   * move, every buffer and array the loop may touch is in U.
   */
  ghost predicate Moving(rest: seq<ByteBuffer>, into: ByteBufferList, pool: BufferPool, U: set<object>,
                         len: int, offset: int, c0: seq<byte>, i0: seq<byte>)
    reads rest, Arrays(rest), into, into.buffers, Arrays(into.buffers), pool, pool.items
  {
    AllValid(rest) && DistinctArrays(rest) && into.Owned(pool)
    && Arrays(rest) !! Arrays(pool.items) && Arrays(rest) !! Arrays(into.buffers)
    && 0 <= offset <= len <= |c0| && SumRemaining(rest) == |c0| - offset
    && Concat(rest) == c0[offset..] && into.Contents() == i0 + c0[..offset]
    && (offset < len ==> into in U && pool in U && AllIn(rest, U) && AllIn(into.buffers, U) && AllIn(pool.items, U))
  }

  /** The buffers of s and their backing arrays, as heap objects. */
  ghost function Footprint(s: seq<ByteBuffer>): (f: set<object>)
    ensures AllIn(s, f)
  {
    (set i | 0 <= i < |s| :: s[i] as object) + (set i | 0 <= i < |s| :: s[i].arr as object)
  }

  /** A list other than `into` is none of the objects the loop of `get(into, length)` may change. */
  lemma ListOutside(l: ByteBufferList, into: ByteBufferList, pool: BufferPool, s: seq<ByteBuffer>, t: seq<ByteBuffer>,
                    u: seq<ByteBuffer>)
    requires l != into
    ensures l !in {into, pool} + Footprint(s) + Footprint(t) + Footprint(u)
  {
  }

  /** Before the loop of `get(into, length)`: nothing has moved yet. */
  lemma MovingStart(bs: seq<ByteBuffer>, into: ByteBufferList, pool: BufferPool, U: set<object>, len: int,
                    c0: seq<byte>, i0: seq<byte>)
    requires AllValid(bs) && DistinctArrays(bs) && into.Owned(pool)
    requires Arrays(bs) !! Arrays(pool.items) && Arrays(bs) !! Arrays(into.buffers)
    requires 0 <= len <= |c0| && SumRemaining(bs) == |c0| && Concat(bs) == c0 && into.Contents() == i0
    requires U == {into, pool} + Footprint(bs) + Footprint(into.buffers) + Footprint(pool.items)
    ensures Moving(bs, into, pool, U, len, 0, c0, i0)
  {
    assert c0[0..] == c0 && i0 + c0[..0] == i0;
    assert Footprint(bs) <= U && Footprint(into.buffers) <= U && Footprint(pool.items) <= U;
  }

  /** The loop of `get(into, length)`: turns until `length` bytes have moved onto `into`. */
  method MoveAll(bs: seq<ByteBuffer>, into: ByteBufferList, pool: BufferPool, mayPool: bool, ghost U: set<object>,
                 len: int, ghost c0: seq<byte>, ghost i0: seq<byte>) returns (rest: seq<ByteBuffer>)
    requires Moving(bs, into, pool, U, len, 0, c0, i0)
    modifies U
    ensures Moving(rest, into, pool, U, len, len, c0, i0) && into.order == old(into.order)
  {
    var offset := 0;
    rest := bs;
    while offset < len
      invariant Moving(rest, into, pool, U, len, offset, c0, i0) && into.order == old(into.order)
      decreases len - offset, |rest|
    {
      rest, offset := MoveTurn(rest, into, pool, mayPool, U, len, offset, c0, i0);
    }
  }

  /**
   * One turn of the loop of `get(into, length)`: the head buffer leaves the
   * list and is reclaimed when empty, moved onto `into` when it does not reach
   * past `length`, and split otherwise, after which the loop stops.
   */
  method MoveTurn(rest: seq<ByteBuffer>, into: ByteBufferList, pool: BufferPool, mayPool: bool, ghost U: set<object>,
                  len: int, offset: int, ghost c0: seq<byte>, ghost i0: seq<byte>) returns (rest': seq<ByteBuffer>, offset': int)
    requires Moving(rest, into, pool, U, len, offset, c0, i0) && offset < len
    modifies U
    ensures Moving(rest', into, pool, U, len, offset', c0, i0) && into.order == old(into.order)
    ensures offset < offset' || (offset' == offset && |rest'| < |rest|)
  {
    assert rest != [] by {
      assert Concat(rest) == c0[offset..];
    }
    var b := rest[0];
    var r := b.Remaining();
    ArraysMember(rest, 0);
    if r == 0 {
      rest' := MoveEmpty(rest, into, pool, mayPool, U, len, offset, c0, i0);
      offset' := offset;
    } else if offset + r > len {
      MoveSplit(rest, into, pool, mayPool, U, len, offset, c0, i0);
      rest', offset' := rest, len;
    } else {
      rest', offset' := MoveWhole(rest, into, pool, mayPool, U, len, offset, c0, i0);
    }
  }

  /** `get(into, length)` meets an empty head buffer: it leaves the list and is handed to the pool. */
  method MoveEmpty(rest: seq<ByteBuffer>, into: ByteBufferList, pool: BufferPool, mayPool: bool, ghost U: set<object>,
                   len: int, offset: int, ghost c0: seq<byte>, ghost i0: seq<byte>) returns (rest': seq<ByteBuffer>)
    requires Moving(rest, into, pool, U, len, offset, c0, i0) && offset < len && rest != [] && rest[0].Remaining() == 0
    modifies rest[0], pool
    ensures Moving(rest', into, pool, U, len, offset, c0, i0) && rest' == rest[1..]
  {
    var b := rest[0];
    rest' := rest[1..];
    ghost var ws := Windows(rest');
    ghost var ibs, items := into.buffers, pool.items;
    WholeBefore(rest, ibs, ws, c0, offset, offset);
    ReclaimKeeping(b, rest', ws, into, pool, mayPool);
    ReleasedWiden([b], ibs + [b], items, pool.items);
    WholeAfter(rest, into, pool, U, len, offset, offset, c0, i0, ws, ibs, items);
  }

  /**
   * `reclaim(b)` while the buffers of `keep` wait in the list and `into` keeps
   * its own: neither is b, so their windows and `into`'s state stay as they were.
   */
  method ReclaimKeeping(b: ByteBuffer, ghost keep: seq<ByteBuffer>, ghost ws: seq<seq<byte>>, into: ByteBufferList,
                        pool: BufferPool, mayPool: bool)
    requires pool.Valid() && b.arr !in Arrays(pool.items) && into.Owned(pool) && b.arr !in Arrays(into.buffers)
    requires |keep| == |ws| && forall i | 0 <= i < |keep| :: keep[i] != b && keep[i].Valid() && keep[i].Window() == ws[i]
    modifies b, pool
    ensures into.Owned(pool) && into.buffers == old(into.buffers) && into.Contents() == old(into.Contents())
    ensures Released([b], old(pool.items), pool.items)
    ensures forall i | 0 <= i < |keep| :: keep[i].Valid() && keep[i].Window() == ws[i]
  {
    NotMember(into.buffers, b);
    pool.Reclaim(b, mayPool);
    ArraysMember([b], 0);
  }

  /**
   * `into.add(b)` while the buffers of `keep` wait in the list: they are not
   * `into`'s nor b, so their windows stay as they were.
   */
  method AddKeeping(into: ByteBufferList, b: ByteBuffer, ghost keep: seq<ByteBuffer>, ghost ws: seq<seq<byte>>,
                    pool: BufferPool, mayPool: bool)
    requires into.Owned(pool) && b.Valid() && b.arr !in Arrays(into.buffers) && b.arr !in Arrays(pool.items)
    requires |keep| == |ws|
    requires forall i | 0 <= i < |keep| :: keep[i] != b && keep[i] !in into.buffers && keep[i].arr !in Arrays(into.buffers)
    requires forall i | 0 <= i < |keep| :: keep[i].Valid() && keep[i].Window() == ws[i]
    modifies into`buffers, into`remaining, pool, b, into.buffers, Arrays(into.buffers)
    ensures into.Owned(pool) && into.Contents() == old(into.Contents()) + old(b.Window())
    ensures Suffix(into.buffers, old(into.buffers)) || Suffix(into.buffers, old(into.buffers) + [b])
    ensures Released(old(into.buffers) + [b], old(pool.items), pool.items)
    ensures forall i | 0 <= i < |keep| :: keep[i].Valid() && keep[i].Window() == ws[i]
  {
    into.Add(b, pool, mayPool);
  }

  /** `get(into, length)` moves a whole head buffer that does not reach past `length` onto the end of `into`. */
  method MoveWhole(rest: seq<ByteBuffer>, into: ByteBufferList, pool: BufferPool, mayPool: bool, ghost U: set<object>,
                   len: int, offset: int, ghost c0: seq<byte>, ghost i0: seq<byte>) returns (rest': seq<ByteBuffer>, offset': int)
    requires Moving(rest, into, pool, U, len, offset, c0, i0) && offset < len && rest != []
    requires 0 < rest[0].Remaining() && offset + rest[0].Remaining() <= len
    modifies into`buffers, into`remaining, pool, rest[0], into.buffers, Arrays(into.buffers)
    ensures Moving(rest', into, pool, U, len, offset', c0, i0) && offset < offset' && rest' == rest[1..]
  {
    var b := rest[0];
    offset' := offset + b.Remaining();
    rest' := rest[1..];
    ghost var ws := Windows(rest');
    ghost var ibs, items := into.buffers, pool.items;
    WholeBefore(rest, ibs, ws, c0, offset, offset');
    AddKeeping(into, b, rest', ws, pool, mayPool);
    WholeAfter(rest, into, pool, U, len, offset, offset', c0, i0, ws, ibs, items);
  }

  /** Before `MoveWhole` hands the head b to `into`: the buffers after b are apart from b and from `into`'s. */
  lemma WholeBefore(rest: seq<ByteBuffer>, ibs: seq<ByteBuffer>, ws: seq<seq<byte>>, c0: seq<byte>, offset: nat, offset': nat)
    requires rest != [] && AllValid(rest) && DistinctArrays(rest) && Arrays(rest) !! Arrays(ibs)
    requires offset' == offset + rest[0].Remaining() && offset <= |c0| && Concat(rest) == c0[offset..]
    requires |ws| == |rest| - 1 && forall i | 0 <= i < |ws| :: ws[i] == rest[1..][i].Window()
    ensures forall i | 0 <= i < |rest| - 1 :: rest[1..][i] != rest[0] && rest[1..][i] !in ibs && rest[1..][i].arr !in Arrays(ibs)
    ensures forall i | 0 <= i < |rest| - 1 :: rest[1..][i].Valid() && rest[1..][i].Window() == ws[i]
    ensures offset' <= |c0| && rest[0].Window() == c0[offset..offset'] && Flatten(ws) == c0[offset'..]
    ensures rest[0].arr !in Arrays(ibs) && rest[0].arr !in Arrays(rest[1..])
  {
    WholeApart(rest, ibs);
    WholeContent(rest, ws, c0, offset, offset');
  }

  /** The buffers after the head share no array with the head or with `ibs`. */
  lemma WholeApart(rest: seq<ByteBuffer>, ibs: seq<ByteBuffer>)
    requires rest != [] && DistinctArrays(rest) && Arrays(rest) !! Arrays(ibs)
    ensures forall i | 0 <= i < |rest| - 1 :: rest[1..][i] != rest[0] && rest[1..][i] !in ibs && rest[1..][i].arr !in Arrays(ibs)
    ensures rest[0].arr !in Arrays(ibs) && rest[0].arr !in Arrays(rest[1..])
  {
    var tail := rest[1..];
    ArraysCons(rest);
    forall i | 0 <= i < |tail| ensures tail[i] != rest[0] && tail[i] !in ibs && tail[i].arr !in Arrays(ibs) {
      ArraysMember(tail, i);
    }
  }

  /** The head's window is the next bytes of `c0` and the windows after it the rest. */
  lemma WholeContent(rest: seq<ByteBuffer>, ws: seq<seq<byte>>, c0: seq<byte>, offset: nat, offset': nat)
    requires rest != [] && AllValid(rest)
    requires offset' == offset + rest[0].Remaining() && offset <= |c0| && Concat(rest) == c0[offset..]
    requires |ws| == |rest| - 1 && forall i | 0 <= i < |ws| :: ws[i] == rest[1..][i].Window()
    ensures forall i | 0 <= i < |rest| - 1 :: rest[1..][i].Valid() && rest[1..][i].Window() == ws[i]
    ensures offset' <= |c0| && rest[0].Window() == c0[offset..offset'] && Flatten(ws) == c0[offset'..]
  {
    var tail := rest[1..];
    Snapshot(tail);
    assert Windows(tail) == ws;
    assert Concat(rest) == rest[0].Window() + Concat(tail);
  }

  /** After `MoveWhole` handed the head to `into`: the loop state holds with `offset'` bytes moved. */
  lemma WholeAfter(rest: seq<ByteBuffer>, into: ByteBufferList, pool: BufferPool, U: set<object>, len: int, offset: int, offset': int,
                   c0: seq<byte>, i0: seq<byte>, ws: seq<seq<byte>>, ibs: seq<ByteBuffer>, items: seq<ByteBuffer>)
    requires rest != [] && DistinctArrays(rest) && Arrays(rest) !! Arrays(items) && Arrays(rest) !! Arrays(ibs)
    requires rest[0].arr !in Arrays(rest[1..])
    requires 0 <= offset <= offset' <= len <= |c0| && offset < len && Flatten(ws) == c0[offset'..]
    requires |ws| == |rest| - 1 && forall i | 0 <= i < |ws| :: rest[1..][i].Valid() && rest[1..][i].Window() == ws[i]
    requires into.Owned(pool) && into.Contents() == i0 + c0[..offset] + c0[offset..offset']
    requires Suffix(into.buffers, ibs) || Suffix(into.buffers, ibs + [rest[0]])
    requires Released(ibs + [rest[0]], items, pool.items)
    requires offset < len ==> into in U && pool in U && AllIn(rest, U) && AllIn(ibs, U) && AllIn(items, U)
    ensures Moving(rest[1..], into, pool, U, len, offset', c0, i0)
  {
    var b, rest' := rest[0], rest[1..];
    ArraysCons(rest);
    HoldsWindows(rest', ws);
    MovedApart(rest', b, ibs, into.buffers, items, pool.items);
    if offset' < len {
      assert b == rest[0] && AllIn(rest', U);
      MovedWithin(b, ibs, into.buffers, items, pool.items, U);
    }
    PrefixGrows(i0, c0, offset, offset', into.Contents());
    MovingIntro(rest', into, pool, U, len, offset', c0, i0);
  }

  /** The loop state of `get(into, length)`, from its parts. */
  lemma MovingIntro(rest: seq<ByteBuffer>, into: ByteBufferList, pool: BufferPool, U: set<object>,
                    len: int, offset: int, c0: seq<byte>, i0: seq<byte>)
    requires AllValid(rest) && DistinctArrays(rest) && into.Owned(pool)
    requires Arrays(rest) !! Arrays(pool.items) && Arrays(rest) !! Arrays(into.buffers)
    requires 0 <= offset <= len <= |c0| && SumRemaining(rest) == |c0| - offset
    requires Concat(rest) == c0[offset..] && into.Contents() == i0 + c0[..offset]
    requires offset < len ==> into in U && pool in U && AllIn(rest, U) && AllIn(into.buffers, U) && AllIn(pool.items, U)
    ensures Moving(rest, into, pool, U, len, offset, c0, i0)
  {
  }

  /**
   * `get(into, length)` meets a head buffer b that reaches past `length`: the
   * `length - offset` bytes still wanted are copied out of b into a buffer
   * from the pool, that buffer goes onto `into`, and b, advanced past them,
   * stays at the front of the list.
   */
  method MoveSplit(rest: seq<ByteBuffer>, into: ByteBufferList, pool: BufferPool, mayPool: bool, ghost U: set<object>,
                   len: int, offset: int, ghost c0: seq<byte>, ghost i0: seq<byte>)
    requires Moving(rest, into, pool, U, len, offset, c0, i0) && offset < len && rest != []
    requires offset + rest[0].Remaining() > len
    modifies rest[0], into`buffers, into`remaining, pool, pool.items, Arrays(pool.items), into.buffers, Arrays(into.buffers)
    ensures Moving(rest, into, pool, U, len, len, c0, i0)
  {
    var b := rest[0];
    var need := len - offset;
    ghost var ws := Windows(rest[1..]);
    ghost var ibs, items := into.buffers, pool.items;
    ghost var w, reach := b.Window(), offset + b.Remaining();
    WholeBefore(rest, ibs, ws, c0, offset, reach);
    var subset := SplitCarve(rest, need, ws, into, pool, mayPool);
    ghost var items1 := pool.items;
    AddKeeping(into, subset, rest, [w[need..]] + ws, pool, mayPool);
    SplitAfter(rest, subset, into, pool, U, len, offset, reach, c0, i0, w, ws, ibs, items, items1);
  }

  /** `CarveKeeping` on the head of the list, seen from the whole list. */
  method SplitCarve(rest: seq<ByteBuffer>, need: nat, ghost ws: seq<seq<byte>>, into: ByteBufferList, pool: BufferPool, mayPool: bool)
    returns (subset: ByteBuffer)
    requires rest != [] && need <= rest[0].Remaining() && rest[0].Valid() && rest[0].arr !in Arrays(rest[1..])
    requires into.Owned(pool) && Arrays(rest) !! Arrays(pool.items) && Arrays(rest) !! Arrays(into.buffers)
    requires |ws| == |rest| - 1 && forall i | 0 <= i < |rest| - 1 :: rest[1..][i].Valid() && rest[1..][i].Window() == ws[i]
    modifies rest[0], pool, pool.items, Arrays(pool.items)
    ensures pool.Valid() && Arrays(pool.items) <= Arrays(old(pool.items))
    ensures into.Owned(pool) && into.buffers == old(into.buffers) && into.Contents() == old(into.Contents())
    ensures subset.Valid() && subset.Window() == old(rest[0].Window())[..need]
    ensures subset.arr !in Arrays(pool.items) && subset.arr !in Arrays(into.buffers) && subset.arr !in Arrays(rest)
    ensures subset in old(pool.items) || fresh(subset)
    ensures forall i | 0 <= i < |rest| :: rest[i] != subset && rest[i] !in into.buffers && rest[i].arr !in Arrays(into.buffers)
    ensures forall i | 0 <= i < |rest| :: rest[i].Valid() && rest[i].Window() == ([old(rest[0].Window())[need..]] + ws)[i]
  {
    var b := rest[0];
    ghost var w := b.Window();
    ArraysCons(rest);
    forall i | 0 <= i < |rest| - 1 ensures rest[1..][i] != b && rest[1..][i].arr !in Arrays(pool.items)
      && rest[1..][i] !in into.buffers && rest[1..][i].arr !in Arrays(into.buffers)
    {
      ArraysMember(rest[1..], i);
      NotMember(into.buffers, rest[1..][i]);
    }
    subset := CarveKeeping(b, need, rest[1..], ws, into, pool, mayPool);
    KeepFront(rest, subset, into.buffers, ws, w[need..]);
  }

  /**
   * `Carve` while the buffers of `keep` wait in the list and `into` keeps its
   * own: none of them is b or in the pool, so their windows and `into` stay as
   * they were, and the carved buffer is none of them.
   */
  method CarveKeeping(b: ByteBuffer, need: nat, ghost keep: seq<ByteBuffer>, ghost ws: seq<seq<byte>>, into: ByteBufferList,
                      pool: BufferPool, mayPool: bool) returns (subset: ByteBuffer)
    requires b.Valid() && need <= b.Remaining() && pool.Valid() && b.arr !in Arrays(pool.items)
    requires into.Owned(pool) && b.arr !in Arrays(into.buffers)
    requires |keep| == |ws| && forall i | 0 <= i < |keep| :: keep[i] != b && keep[i].arr !in Arrays(pool.items)
    requires forall i | 0 <= i < |keep| :: keep[i].Valid() && keep[i].Window() == ws[i]
    modifies b`position, pool, pool.items, Arrays(pool.items)
    ensures pool.Valid() && Arrays(pool.items) <= Arrays(old(pool.items))
    ensures into.Owned(pool) && into.buffers == old(into.buffers) && into.Contents() == old(into.Contents())
    ensures b.Valid() && b.Window() == old(b.Window())[need..]
    ensures subset.Valid() && subset.Window() == old(b.Window())[..need]
    ensures subset.arr != b.arr && subset.arr !in Arrays(pool.items) && subset.arr !in Arrays(into.buffers)
    ensures forall i | 0 <= i < |keep| :: keep[i].Valid() && keep[i].Window() == ws[i] && keep[i].arr != subset.arr
    ensures subset in old(pool.items) || fresh(subset)
  {
    forall i | 0 <= i < |keep| ensures keep[i] !in pool.items {
      NotMember(pool.items, keep[i]);
    }
    forall i | 0 <= i < |into.buffers| ensures into.buffers[i] !in pool.items {
      ArraysMember(into.buffers, i);
      NotMember(pool.items, into.buffers[i]);
    }
    subset := Carve(b, need, pool, mayPool);
  }

  /** The buffers of the list are apart from x and from `into`'s, with their windows, from the front on. */
  lemma KeepFront(rest: seq<ByteBuffer>, x: ByteBuffer, ibs: seq<ByteBuffer>, ws: seq<seq<byte>>, w0: seq<byte>)
    requires rest != [] && |ws| == |rest| - 1
    requires forall i | 0 <= i < |rest| - 1 :: rest[1..][i] !in ibs && rest[1..][i].arr !in Arrays(ibs)
    requires forall i | 0 <= i < |rest| - 1 :: rest[1..][i].Valid() && rest[1..][i].Window() == ws[i] && rest[1..][i].arr != x.arr
    requires rest[0].arr != x.arr && rest[0].arr !in Arrays(ibs) && rest[0].Valid() && rest[0].Window() == w0
    ensures forall i | 0 <= i < |rest| :: rest[i] != x && rest[i] !in ibs && rest[i].arr !in Arrays(ibs)
    ensures forall i | 0 <= i < |rest| :: rest[i].Valid() && rest[i].Window() == ([w0] + ws)[i]
    ensures x.arr !in Arrays(rest)
  {
    NotMember(ibs, rest[0]);
    forall i | 0 <= i < |rest| ensures rest[i] != x && rest[i] !in ibs && rest[i].arr !in Arrays(ibs)
      && rest[i].Valid() && rest[i].Window() == ([w0] + ws)[i]
    {
      if 0 < i {
        assert rest[i] == rest[1..][i - 1];
      }
    }
  }

  /** After `MoveSplit` handed the carved buffer to `into`: the loop state holds with all `length` bytes moved. */
  lemma SplitAfter(rest: seq<ByteBuffer>, subset: ByteBuffer, into: ByteBufferList, pool: BufferPool, U: set<object>, len: int,
                   offset: int, reach: int,
                   c0: seq<byte>, i0: seq<byte>, w: seq<byte>, ws: seq<seq<byte>>, ibs: seq<ByteBuffer>,
                   items: seq<ByteBuffer>, items1: seq<ByteBuffer>)
    requires rest != [] && DistinctArrays(rest) && Arrays(rest) !! Arrays(items) && Arrays(rest) !! Arrays(ibs)
    requires 0 <= offset < len < reach <= |c0| && w == c0[offset..reach] && Flatten(ws) == c0[reach..]
    requires |ws| == |rest| - 1 && forall i | 0 <= i < |rest| :: rest[i].Valid() && rest[i].Window() == ([w[len - offset..]] + ws)[i]
    requires Arrays(items1) <= Arrays(items) && subset.arr !in Arrays(rest)
    requires into.Owned(pool) && into.Contents() == i0 + c0[..offset] + w[..len - offset]
    requires Suffix(into.buffers, ibs) || Suffix(into.buffers, ibs + [subset])
    requires Released(ibs + [subset], items1, pool.items)
    ensures Moving(rest, into, pool, U, len, len, c0, i0)
  {
    HoldsWindows(rest, [w[len - offset..]] + ws);
    FlattenAppend([w[len - offset..]], ws);
    assert Flatten([w[len - offset..]]) == w[len - offset..];
    assert w[len - offset..] + Flatten(ws) == c0[len..];
    assert w[..len - offset] == c0[offset..len];
    PrefixGrows(i0, c0, offset, len, into.Contents());
    ArraysAppend(ibs, [subset]);
    ArraysMember([subset], 0);
    if Suffix(into.buffers, ibs) {
      SuffixMembers(into.buffers, ibs);
    } else {
      SuffixMembers(into.buffers, ibs + [subset]);
    }
  }

  /** Appending the next bytes of c0 to a copy of its prefix copies a longer prefix. */
  lemma PrefixGrows(i0: seq<byte>, c0: seq<byte>, offset: nat, offset': nat, x: seq<byte>)
    requires offset <= offset' <= |c0| && x == i0 + c0[..offset] + c0[offset..offset']
    ensures x == i0 + c0[..offset']
  {
    assert c0[..offset'] == c0[..offset] + c0[offset..offset'];
  }

  /**
   * `get(bytes, offset, length)` and `get(into, length)` as written, on the
   * content and the `remaining` count: only a length beyond the count is
   * refused, the copying loop runs only while bytes are still wanted, and the
   * count then drops by the length whatever its sign. The result holds the
   * bytes moved, the content left and the new count.
   */
  function GetAsWritten(content: seq<byte>, count: int, len: int): (r: Result<(seq<byte>, seq<byte>, int)>)
    requires count == |content|
    ensures r.Failure? <==> count < len
    ensures r.Success? ==> r.value.0 + r.value.1 == content && r.value.2 == count - len
  {
    if count < len then Failure
    else if len <= 0 then Success(([], content, count - len))
    else Success((content[..len], content[len..], count - len))
  }

  /** For a length the list can serve, the code as written moves exactly the first `length` bytes. */
  lemma GetAsWrittenServes(content: seq<byte>, len: int)
    requires 0 <= len <= |content|
    ensures GetAsWritten(content, |content|, len) == Success((content[..len], content[len..], |content| - len))
  {
    if len == 0 {
      assert content[..0] == [] && content[0..] == content;
    }
  }

  /**
   * A negative length passes the guard as written, nothing moves, and the
   * count grows past the content left: afterwards `remaining()` promises bytes
   * the list does not hold.
   */
  lemma NegativeLengthInflatesCount(content: seq<byte>, len: int)
    requires len < 0
    ensures var r := GetAsWritten(content, |content|, len); r.Success? && r.value.1 == content && r.value.2 > |content|
  {
  }

  /** One instance: a list holding one byte, asked for -1 bytes, then claims two. */
  lemma NegativeLengthExample()
    ensures GetAsWritten([7], 1, -1) == Success(([], [7], 2))
  {
  }

  /**
   * `getAllByteArray()` as written: when the list holds one buffer whose
   * capacity equals `remaining()`, the fast path hands out that buffer's
   * whole backing array; otherwise the content is copied out.
   */
  ghost function AllByteArrayAsWritten(bs: seq<ByteBuffer>): (a: seq<byte>)
    reads bs, Arrays(bs)
    requires AllValid(bs)
    ensures |bs| == 1 && bs[0].capacity == SumRemaining(bs) ==> a == bs[0].arr[..]
  {
    if |bs| == 1 && bs[0].capacity == SumRemaining(bs) then bs[0].arr[..] else Concat(bs)
  }

  /** The fast path is right when the backing array is exactly the buffer's window. */
  lemma FastPathSound(b: ByteBuffer)
    requires b.Valid() && b.position == 0 && b.limit == b.capacity == b.arr.Length
    ensures AllByteArrayAsWritten([b]) == Concat([b])
  {
    assert Concat([b]) == b.Window() + Concat([]);
    assert b.arr[0..b.arr.Length] == b.arr[..];
  }

  /**
   * A buffer that views its array from an offset (a `slice()`) with all its
   * capacity valid passes the guard, and the fast path returns more bytes than
   * the list holds: the array's leading bytes before the view come first.
   */
  lemma SlicedHeadLeaks(b: ByteBuffer)
    requires b.Valid() && 0 < b.arrayOffset && b.position == 0 && b.limit == b.capacity
    ensures |AllByteArrayAsWritten([b])| > |Concat([b])|
  {
    assert Concat([b]) == b.Window() + Concat([]);
    assert SumRemaining([b]) == b.Remaining() + SumRemaining([]);
  }

  class ByteBufferList {
    var buffers: seq<ByteBuffer>
    var remaining: int
    var order: ByteOrder

    /** Every buffer is well formed, no backing array is shared, and `remaining` is the content length. */
    ghost predicate Valid()
      reads this, buffers
    {
      AllValid(buffers) && DistinctArrays(buffers) && remaining == SumRemaining(buffers)
    }

    /** The logical content: the windows of the buffers, front to back. */
    ghost function Contents(): seq<byte>
      reads this, buffers, Arrays(buffers)
      requires Valid()
    {
      Concat(buffers)
    }

    /** The list and the pool hold no backing array in common. */
    ghost predicate Apart(pool: BufferPool)
      reads this, pool
    {
      Arrays(buffers) !! Arrays(pool.items)
    }

    /** The list, the pool and the list's buffers are all in order together. */
    ghost predicate Owned(pool: BufferPool)
      reads this, buffers, pool, pool.items
    {
      Valid() && pool.Valid() && Apart(pool)
    }

    constructor ()
      ensures Valid() && buffers == [] && remaining == 0 && order == BigEndian
      ensures Contents() == []
    {
      buffers, remaining, order := [], 0, BigEndian;
    }

    /** `remaining()`. */
    function Remaining(): (n: int)
      reads this, buffers
      requires Valid()
      ensures n == |Contents()|
    {
      ConcatLength(buffers);
      remaining
    }

    /** `isEmpty()`: no content left, whatever the number of (empty) buffers. */
    function IsEmpty(): (e: bool)
      reads this, buffers
      requires Valid()
      ensures e <==> Contents() == []
    {
      ConcatLength(buffers);
      remaining == 0
    }

    /** `hasRemaining()`. */
    function HasRemaining(): (h: bool)
      reads this, buffers
      requires Valid()
      ensures h <==> Contents() != []
    {
      ConcatLength(buffers);
      remaining > 0
    }

    /** `size()`: the number of buffers, empty ones included. */
    function Size(): nat
      reads this
    {
      |buffers|
    }

    /** `order(order)`: the byte order the scalar getters read in. */
    method SetOrder(o: ByteOrder)
      modifies this`order
      ensures order == o
    {
      order := o;
    }

    /** Removes an empty head buffer and offers it to the pool: the content is unchanged. */
    method DiscardEmptyHead(pool: BufferPool, mayPool: bool)
      requires Owned(pool) && buffers != [] && buffers[0].Remaining() <= 0
      modifies this`buffers, pool, buffers[0]
      ensures Owned(pool)
      ensures buffers == old(buffers)[1..] && Contents() == old(Contents())
      ensures Released(old(buffers), old(pool.items), pool.items)
    {
      ReleaseHead(buffers, pool, mayPool);
      buffers := buffers[1..];
    }

    /**
     * The first loop of `read`: empty buffers at the front are removed and
     * offered to the pool until the head holds data or the list is empty.
     */
    method DropEmptyHeads(pool: BufferPool, mayPool: bool)
      requires Owned(pool)
      modifies this`buffers, pool, buffers
      ensures Owned(pool)
      ensures Contents() == old(Contents())
      ensures remaining == old(remaining) && order == old(order)
      ensures |buffers| <= |old(buffers)| && buffers == old(buffers)[|old(buffers)| - |buffers|..]
      ensures buffers == [] || buffers[0].Remaining() > 0
      ensures buffers == [] <==> old(remaining) == 0
      ensures Released(old(buffers), old(pool.items), pool.items)
    {
      ghost var olds := buffers;
      ghost var content := Contents();
      ghost var k := 0;
      while |buffers| > 0 && buffers[0].Remaining() <= 0
        invariant 0 <= k <= |olds| && buffers == olds[k..]
        invariant Owned(pool) && Contents() == content && remaining == old(remaining)
        invariant Released(olds, old(pool.items), pool.items)
        decreases |buffers|
      {
        assert buffers[1..] == olds[k + 1..];
        ghost var items := pool.items;
        DiscardEmptyHead(pool, mayPool);
        ReleasedTrans(olds, k, old(pool.items), items, pool.items);
        k := k + 1;
      }
      ConcatLength(buffers);
    }

    /** Hands a buffer that leaves no data behind to the pool; the list is untouched. */
    method ReclaimSpent(b: ByteBuffer, pool: BufferPool, mayPool: bool)
      requires Owned(pool) && b.arr !in Arrays(buffers) && b.arr !in Arrays(pool.items)
      modifies pool, b
      ensures Owned(pool) && Contents() == old(Contents())
      ensures Released([b], old(pool.items), pool.items)
    {
      NotMember(buffers, b);
      ghost var c := Contents();
      pool.Reclaim(b, mayPool);
      assert Contents() == c;
      ArraysMember([b], 0);
    }

    /**
     * `add`'s merge: b fits into the spare room after the last buffer's limit,
     * so its bytes are copied there and the last buffer grows to cover them.
     */
    method MergeLast(b: ByteBuffer)
      requires Valid() && b.Valid() && b.arr !in Arrays(buffers) && buffers != []
      requires buffers[|buffers| - 1].capacity - buffers[|buffers| - 1].limit >= b.Remaining()
      modifies this`remaining, buffers[|buffers| - 1], buffers[|buffers| - 1].arr, b`position
      ensures Valid() && buffers == old(buffers) && remaining == old(remaining) + old(b.Remaining())
      ensures Contents() == old(Contents()) + old(b.Window())
    {
      var last, n := buffers[|buffers| - 1], b.Remaining();
      ghost var c0, w := Contents(), b.Window();
      ConcatLength(buffers);
      GrowLast(buffers, last, b);
      ConcatLength(buffers);
      ghost var c1 := Concat(buffers);
      assert c1 == c0 + w && SumRemaining(buffers) == old(remaining) + n;
      remaining := remaining + n;
      assert Concat(buffers) == c1;
    }

    /** `add`'s other case: b becomes the new last buffer. */
    method PushLast(b: ByteBuffer)
      requires Valid() && b.Valid() && b.arr !in Arrays(buffers)
      modifies this`buffers, this`remaining
      ensures Valid() && buffers == old(buffers) + [b] && remaining == old(remaining) + b.Remaining()
      ensures Contents() == old(Contents()) + b.Window()
    {
      ArraysAppend(buffers, [b]);
      DistinctAppend(buffers, [b]);
      ConcatAppend(buffers, [b]);
      ConcatLength(buffers + [b]);
      ConcatLength(buffers);
      assert Concat([b]) == b.Window() + Concat([b][1..]);
      buffers, remaining := buffers + [b], remaining + b.Remaining();
    }

    /** `addFirst`'s merge: b fits before the first buffer's position. */
    method MergeFirst(b: ByteBuffer)
      requires Valid() && b.Valid() && b.arr !in Arrays(buffers) && buffers != []
      requires buffers[0].position >= b.Remaining()
      modifies this`remaining, buffers[0], buffers[0].arr, b`position
      ensures Valid() && buffers == old(buffers) && remaining == old(remaining) + old(b.Remaining())
      ensures Contents() == old(b.Window()) + old(Contents())
    {
      var n := b.Remaining();
      ConcatLength(buffers);
      GrowFirst(buffers, buffers[0], b);
      ConcatLength(buffers);
      remaining := remaining + n;
    }

    /** `addFirst`'s other case: b becomes the new first buffer. */
    method PushFirst(b: ByteBuffer)
      requires Valid() && b.Valid() && b.arr !in Arrays(buffers)
      modifies this`buffers, this`remaining
      ensures Valid() && buffers == [b] + old(buffers) && remaining == old(remaining) + b.Remaining()
      ensures Contents() == b.Window() + old(Contents())
    {
      ArraysAppend([b], buffers);
      DistinctAppend([b], buffers);
      assert Arrays([b]) == {b.arr};
      ConcatLength(buffers);
      buffers, remaining := [b] + buffers, remaining + b.Remaining();
      assert buffers[1..] == old(buffers);
      AllValidFirst(buffers);
    }

    /**
     * The scan of `read(count)` once the head is known to hold fewer than
     * `count` bytes: it walks the minimal front of `m` buffers holding at least
     * `count` bytes (`allocSize` of them) and picks as `j` the first buffer of
     * largest capacity among those of capacity at least `count` (-1 if none),
     * with `retOffset` the bytes in front of it.
     */
    method Scan(count: int) returns (j: int, retOffset: int, allocSize: int, m: nat)
      requires Valid()
      ensures Scanned(Caps(buffers), Rems(buffers), count, m, j, retOffset, allocSize)
      ensures m == |buffers| || allocSize >= count
    {
      var bs := buffers;
      ghost var cs, rs := Caps(bs), Rems(bs);
      j, retOffset, allocSize, m := -1, 0, 0, 0;
      while m < |bs| && allocSize < count
        invariant Scanned(cs, rs, count, m, j, retOffset, allocSize)
      {
        var b := bs[m];
        var capJ := if j >= 0 then bs[j].capacity else 0;
        j, retOffset, allocSize := ScanOne(cs, rs, count, m, j, retOffset, allocSize, b.capacity, capJ, b.Remaining());
        m := m + 1;
      }
    }

    /**
     * `read`'s consolidation, once the scan found a target buffer j with room
     * for more than the `allocSize` bytes of the front m buffers: the target's
     * own bytes move to where they belong in that run, the other m - 1 buffers
     * are copied around them and go to the pool, and the target becomes the
     * head holding all `allocSize` bytes. The content is unchanged.
     */
    method Consolidate(count: int, j: nat, retOffset: int, allocSize: int, m: nat, pool: BufferPool, mayPool: bool)
      requires Owned(pool)
      requires Scanned(Caps(buffers), Rems(buffers), count, m, j, retOffset, allocSize)
      requires allocSize >= count && buffers[j].capacity > allocSize
      modifies this`buffers, pool, buffers, Arrays(buffers)
      ensures Owned(pool) && Contents() == old(Contents()) && remaining == old(remaining)
      ensures buffers == [old(buffers)[j]] + old(buffers)[m..] && buffers[0].Remaining() == allocSize
    {
      ghost var olds, ws, rs := buffers, Windows(buffers), Rems(buffers);
      Snapshot(olds);
      ConcatLength(olds);
      ghost var content := Concat(olds);
      assert content == Flatten(ws) && remaining == |content|;
      var ret := buffers[j];
      var rest := AbsorbRun(olds, ws, rs, buffers, ret, j, retOffset, allocSize, m, count, pool, mayPool);
      Install([ret] + rest, content, pool);
    }

    /** Replaces the buffers by a well-formed run with the same content and byte count. */
    method Install(bs: seq<ByteBuffer>, ghost content: seq<byte>, ghost pool: BufferPool)
      requires AllValid(bs) && DistinctArrays(bs) && Concat(bs) == content && SumRemaining(bs) == remaining
      requires pool.Valid() && Arrays(bs) !! Arrays(pool.items)
      modifies this`buffers
      ensures Owned(pool) && buffers == bs && Contents() == content
    {
      buffers := bs;
    }

    /**
     * `read`'s gathering copy, when no buffer of the scan can hold the bytes:
     * a buffer of at least `count` capacity is obtained, the first `count`
     * bytes are copied into it, the buffers drained on the way go to the pool,
     * and it becomes the head. The content is unchanged.
     */
    method Gather(count: int, pool: BufferPool, mayPool: bool)
      requires Owned(pool) && 0 <= count <= remaining
      modifies this`buffers, pool, pool.items, Arrays(pool.items), buffers
      ensures Owned(pool) && Contents() == old(Contents()) && remaining == old(remaining)
      ensures buffers != [] && buffers[0].Remaining() == count && Suffix(buffers[1..], old(buffers))
      ensures buffers[0] in old(pool.items) || fresh(buffers[0])
    {
      ghost var olds, ws, rs := buffers, Windows(buffers), Rems(buffers);
      Snapshot(olds);
      ConcatLength(olds);
      ghost var content := Concat(olds);
      var ret, rest := GatherRun(olds, ws, rs, buffers, count, pool, mayPool);
      Install([ret] + rest, content, pool);
      assert buffers[1..] == rest;
    }

    /**
     * `read(count)`: fails when fewer than `count` bytes remain. Otherwise the
     * empty buffers at the front go to the pool, and the head is made to hold at
     * least `count` bytes (by consolidating into a buffer of the front run, or
     * by gathering into an obtained one) and returned; on an empty list the
     * pool's empty buffer is returned. The content never changes.
     */
    method Read(count: int, pool: BufferPool, mayPool: bool) returns (r: Result<ByteBuffer>)
      requires Owned(pool)
      modifies this`buffers, pool, pool.items, Arrays(pool.items), buffers, Arrays(buffers)
      ensures Owned(pool) && Contents() == old(Contents()) && remaining == old(remaining) && order == old(order)
      ensures r.Failure? <==> old(remaining) < count
      ensures r.Failure? ==> buffers == old(buffers)
      ensures r.Success? && old(remaining) == 0 ==> buffers == [] && r.value == pool.emptyBuffer
      ensures r.Success? && old(remaining) > 0 ==>
        buffers != [] && r.value == buffers[0] && r.value.Remaining() > 0 && r.value.Remaining() >= count
      ensures r.Success? && old(remaining) > 0 ==> r.value in old(buffers) || r.value in old(pool.items) || fresh(r.value)
    {
      if remaining < count {
        return Failure;
      }
      DropEmptyHeads(pool, mayPool);
      if buffers == [] {
        return Success(pool.emptyBuffer);
      }
      if buffers[0].Remaining() < count {
        ghost var items, bs := pool.items, buffers;
        assert forall i | 0 <= i < |items| :: items[i] in old(pool.items) || items[i] in old(buffers);
        assert Arrays(items) + Arrays(bs) <= Arrays(old(pool.items)) + Arrays(old(buffers));
        FillHead(count, pool, mayPool);
      }
      return Success(buffers[0]);
    }

    /**
     * The part of `read(count)` after the empty buffers are dropped, when the
     * head holds fewer than `count` bytes: the scan, then consolidation into a
     * buffer of the front run if one has room for more than its bytes, and the
     * gathering copy otherwise.
     */
    method FillHead(count: int, pool: BufferPool, mayPool: bool)
      requires Owned(pool) && buffers != [] && buffers[0].Remaining() < count <= remaining
      modifies this`buffers, pool, pool.items, Arrays(pool.items), buffers, Arrays(buffers)
      ensures Owned(pool) && Contents() == old(Contents()) && remaining == old(remaining)
      ensures buffers != [] && buffers[0].Remaining() >= count
      ensures buffers[0] in old(buffers) || buffers[0] in old(pool.items) || fresh(buffers[0])
    {
      ghost var content := Contents();
      Snapshot(buffers);
      var j, retOffset, allocSize, m := Scan(count);
      assert Rems(buffers)[..|buffers|] == Rems(buffers);
      if j >= 0 && buffers[j].capacity > allocSize {
        Consolidate(count, j, retOffset, allocSize, m, pool, mayPool);
      } else {
        Gather(count, pool, mayPool);
      }
      assert Contents() == content;
    }

    /**
     * The shared part of the scalar getters: `read(n)`, then n bytes read off
     * the head buffer and taken off `remaining`. Fails, changing nothing, when
     * fewer than n bytes remain.
     */
    method ReadScalar(n: nat, pool: BufferPool, mayPool: bool) returns (r: Result<seq<byte>>)
      requires Owned(pool) && n > 0
      modifies this`buffers, this`remaining, pool, pool.items, Arrays(pool.items), buffers, Arrays(buffers)
      ensures Owned(pool) && order == old(order)
      ensures r.Failure? <==> old(Remaining()) < n
      ensures r.Failure? ==> buffers == old(buffers) && remaining == old(remaining) && Contents() == old(Contents())
      ensures r.Success? ==> |r.value| == n && r.value == old(Contents())[..n]
      ensures r.Success? ==> Contents() == old(Contents())[n..] && remaining == old(remaining) - n
    {
      var head := Read(n, pool, mayPool);
      if head.Failure? {
        return Failure;
      }
      var taken := TakeScalar(n, pool);
      return Success(taken);
    }

    /** The getters' read of n bytes off a head buffer holding them. */
    method TakeScalar(n: nat, ghost pool: BufferPool) returns (taken: seq<byte>)
      requires Owned(pool) && buffers != [] && n <= buffers[0].Remaining()
      modifies this`remaining, buffers[0]
      ensures Owned(pool) && buffers == old(buffers)
      ensures taken == old(Contents())[..n] && Contents() == old(Contents())[n..] && remaining == old(remaining) - n
    {
      ConcatLength(buffers);
      taken := TakeHead(buffers, n, pool);
      Shrink(n, pool);
    }

    /** `getInt()`: the next four bytes in the list's byte order, as a signed 32-bit value. */
    method GetInt(pool: BufferPool, mayPool: bool) returns (r: Result<int>)
      requires Owned(pool)
      modifies this`buffers, this`remaining, pool, pool.items, Arrays(pool.items), buffers, Arrays(buffers)
      ensures Owned(pool)
      ensures r.Failure? <==> old(Remaining()) < 4
      ensures r.Failure? ==> Contents() == old(Contents()) && remaining == old(remaining)
      ensures r.Success? ==> r.value == Decode(old(Contents())[..4], old(order))
      ensures r.Success? ==> Contents() == old(Contents())[4..] && remaining == old(remaining) - 4
    {
      var bytes := ReadScalar(4, pool, mayPool);
      if bytes.Failure? {
        return Failure;
      }
      return Success(Decode(bytes.value, order));
    }

    /** `getShort()`: the next two bytes in the list's byte order, as a signed 16-bit value widened to `int`. */
    method GetShort(pool: BufferPool, mayPool: bool) returns (r: Result<int>)
      requires Owned(pool)
      modifies this`buffers, this`remaining, pool, pool.items, Arrays(pool.items), buffers, Arrays(buffers)
      ensures Owned(pool)
      ensures r.Failure? <==> old(Remaining()) < 2
      ensures r.Failure? ==> Contents() == old(Contents()) && remaining == old(remaining)
      ensures r.Success? ==> r.value == Decode(old(Contents())[..2], old(order))
      ensures r.Success? ==> Contents() == old(Contents())[2..] && remaining == old(remaining) - 2
    {
      var bytes := ReadScalar(2, pool, mayPool);
      if bytes.Failure? {
        return Failure;
      }
      return Success(Decode(bytes.value, order));
    }

    /** `getLong()`: the next eight bytes in the list's byte order, as a signed 64-bit value. */
    method GetLong(pool: BufferPool, mayPool: bool) returns (r: Result<int>)
      requires Owned(pool)
      modifies this`buffers, this`remaining, pool, pool.items, Arrays(pool.items), buffers, Arrays(buffers)
      ensures Owned(pool)
      ensures r.Failure? <==> old(Remaining()) < 8
      ensures r.Failure? ==> Contents() == old(Contents()) && remaining == old(remaining)
      ensures r.Success? ==> r.value == Decode(old(Contents())[..8], old(order))
      ensures r.Success? ==> Contents() == old(Contents())[8..] && remaining == old(remaining) - 8
    {
      var bytes := ReadScalar(8, pool, mayPool);
      if bytes.Failure? {
        return Failure;
      }
      return Success(Decode(bytes.value, order));
    }

    /** `get()`: the next byte. */
    method Get(pool: BufferPool, mayPool: bool) returns (r: Result<byte>)
      requires Owned(pool)
      modifies this`buffers, this`remaining, pool, pool.items, Arrays(pool.items), buffers, Arrays(buffers)
      ensures Owned(pool)
      ensures r.Failure? <==> old(Remaining()) < 1
      ensures r.Failure? ==> Contents() == old(Contents()) && remaining == old(remaining)
      ensures r.Success? ==> r.value == old(Contents())[..1][0]
      ensures r.Success? ==> Contents() == old(Contents())[1..] && remaining == old(remaining) - 1
    {
      var bytes := ReadScalar(1, pool, mayPool);
      if bytes.Failure? {
        return Failure;
      }
      return Success(bytes.value[0]);
    }

    /** `getByteChar()`: the next byte, sign-extended to a 16-bit `char`. */
    method GetByteChar(pool: BufferPool, mayPool: bool) returns (r: Result<char>)
      requires Owned(pool)
      modifies this`buffers, this`remaining, pool, pool.items, Arrays(pool.items), buffers, Arrays(buffers)
      ensures Owned(pool)
      ensures r.Failure? <==> old(Remaining()) < 1
      ensures r.Failure? ==> Contents() == old(Contents()) && remaining == old(remaining)
      ensures r.Success? ==> r.value == ByteToChar(old(Contents())[..1][0])
      ensures r.Success? ==> Contents() == old(Contents())[1..] && remaining == old(remaining) - 1
    {
      var bytes := ReadScalar(1, pool, mayPool);
      if bytes.Failure? {
        return Failure;
      }
      return Success(ByteToChar(bytes.value[0]));
    }

    /** `trim()`, which is `read(0)`: only the empty buffers at the front are dropped. */
    method Trim(pool: BufferPool, mayPool: bool)
      requires Owned(pool)
      modifies this`buffers, pool, pool.items, Arrays(pool.items), buffers, Arrays(buffers)
      ensures Owned(pool) && Contents() == old(Contents()) && remaining == old(remaining)
      ensures buffers == [] || buffers[0].Remaining() > 0
    {
      ConcatLength(buffers);
      var _ := Read(0, pool, mayPool);
    }

    /** Replaces the buffers by a well-formed run once n bytes have been read off them, and takes n off `remaining`. */
    method Replace(bs: seq<ByteBuffer>, n: int, ghost content: seq<byte>, ghost pool: BufferPool)
      requires AllValid(bs) && DistinctArrays(bs) && Concat(bs) == content && SumRemaining(bs) == remaining - n
      requires pool.Valid() && Arrays(bs) !! Arrays(pool.items)
      modifies this`buffers, this`remaining
      ensures Owned(pool) && buffers == bs && Contents() == content && remaining == old(remaining) - n
    {
      buffers, remaining := bs, remaining - n;
    }

    /**
     * `get(bytes, offset, length)` with the length check the method evidently
     * intends: fails, changing nothing, when the length is negative or more
     * than the remaining bytes; otherwise the first `length` bytes are copied
     * into bytes from `offset` on and leave the list, the buffers drained on
     * the way go to the pool, and a buffer left partly read stays at the front.
     */
    method GetBytes(bytes: array<byte>, off: nat, len: int, pool: BufferPool, mayPool: bool) returns (r: Result<()>)
      requires Owned(pool) && off <= bytes.Length && len <= bytes.Length - off && bytes !in Arrays(buffers)
      modifies this`buffers, this`remaining, pool, buffers, bytes
      ensures Owned(pool) && order == old(order)
      ensures r.Failure? <==> len < 0 || old(Remaining()) < len
      ensures r.Failure? ==> buffers == old(buffers) && remaining == old(remaining) && bytes[..] == old(bytes[..])
      ensures r.Success? ==> bytes[..] == Splice(old(bytes[..]), off, old(Contents())[..len])
      ensures r.Success? ==> Contents() == old(Contents())[len..] && remaining == old(remaining) - len
      ensures r.Success? ==> Suffix(buffers, old(buffers))
    {
      ConcatLength(buffers);
      if len < 0 || remaining < len {
        return Failure;
      }
      ghost var content := Contents();
      var rest := Drain(buffers, bytes, off, len, pool, mayPool);
      Replace(rest, len, content[len..], pool);
      return Success(());
    }

    /**
     * `get(into, length)`, refusing a negative length as well as one beyond
     * `remaining()`: the first `length` bytes move to the end of `into`, whole
     * buffers by reference and the last one, when it reaches past `length`,
     * split through a buffer from the pool.
     */
    method GetInto(into: ByteBufferList, len: int, pool: BufferPool, mayPool: bool) returns (r: Result<()>)
      requires Owned(pool) && into.Owned(pool) && into != this && Arrays(buffers) !! Arrays(into.buffers)
      modifies this`buffers, this`remaining, into, pool, Footprint(buffers), Footprint(into.buffers), Footprint(pool.items)
      ensures Owned(pool) && into.Owned(pool) && order == old(order) && into.order == old(into.order)
      ensures r.Failure? <==> len < 0 || old(Remaining()) < len
      ensures r.Failure? ==> buffers == old(buffers) && remaining == old(remaining) && into.buffers == old(into.buffers)
      ensures r.Success? ==> Contents() == old(Contents())[len..] && remaining == old(remaining) - len
      ensures r.Success? ==> into.Contents() == old(into.Contents()) + old(Contents())[..len]
      ensures r.Success? ==> Arrays(buffers) !! Arrays(into.buffers)
    {
      ConcatLength(buffers);
      if len < 0 || remaining < len {
        return Failure;
      }
      MoveInto(into, len, pool, mayPool);
      return Success(());
    }

    /** `get(into)`: `get(into, remaining())`, so the whole content moves to the end of `into`. */
    method GetRest(into: ByteBufferList, pool: BufferPool, mayPool: bool)
      requires Owned(pool) && into.Owned(pool) && into != this && Arrays(buffers) !! Arrays(into.buffers)
      modifies this`buffers, this`remaining, into, pool, Footprint(buffers), Footprint(into.buffers), Footprint(pool.items)
      ensures Owned(pool) && into.Owned(pool) && order == old(order) && into.order == old(into.order)
      ensures Contents() == [] && remaining == 0
      ensures into.Contents() == old(into.Contents()) + old(Contents())
      ensures Arrays(buffers) !! Arrays(into.buffers)
    {
      ConcatLength(buffers);
      MoveInto(into, remaining, pool, mayPool);
    }

    /** The success path of `GetInto`: the loop, then `remaining -= length`. */
    method MoveInto(into: ByteBufferList, len: int, pool: BufferPool, mayPool: bool)
      requires Owned(pool) && into.Owned(pool) && into != this && Arrays(buffers) !! Arrays(into.buffers)
      requires 0 <= len <= |Contents()|
      modifies this`buffers, this`remaining, into, pool, Footprint(buffers), Footprint(into.buffers), Footprint(pool.items)
      ensures Owned(pool) && into.Owned(pool) && order == old(order) && into.order == old(into.order)
      ensures Contents() == old(Contents())[len..] && remaining == old(remaining) - len
      ensures into.Contents() == old(into.Contents()) + old(Contents())[..len]
      ensures Arrays(buffers) !! Arrays(into.buffers)
    {
      ConcatLength(buffers);
      ghost var c0, i0 := Contents(), into.Contents();
      ghost var U := {into, pool} + Footprint(buffers) + Footprint(into.buffers) + Footprint(pool.items);
      ListOutside(this, into, pool, buffers, into.buffers, pool.items);
      MovingStart(buffers, into, pool, U, len, c0, i0);
      var rest := MoveAll(buffers, into, pool, mayPool, U, len, c0, i0);
      Replace(rest, len, c0[len..], pool);
    }

    /** `get(length)`: the first `length` bytes as a new list in this list's byte order. */
    method GetList(len: int, pool: BufferPool, mayPool: bool) returns (r: Result<ByteBufferList>)
      requires Owned(pool)
      modifies this`buffers, this`remaining, pool, Footprint(buffers), Footprint(pool.items)
      ensures Owned(pool) && order == old(order)
      ensures r.Failure? <==> len < 0 || old(Remaining()) < len
      ensures r.Failure? ==> buffers == old(buffers) && remaining == old(remaining)
      ensures r.Success? ==> fresh(r.value) && r.value.Owned(pool) && r.value.order == order
      ensures r.Success? ==> r.value.Contents() == old(Contents())[..len] && Contents() == old(Contents())[len..]
    {
      ghost var c0 := Contents();
      var ret := new ByteBufferList();
      ret.SetOrder(order);
      assert Footprint(ret.buffers) == {};
      assert Contents() == c0;
      var got := GetInto(ret, len, pool, mayPool);
      if got.Failure? {
        return Failure;
      }
      assert [] + c0[..len] == c0[..len];
      return Success(ret);
    }

    /** `get(bytes)`: `get(bytes, 0, bytes.length)`, so the array is filled from the front of the content. */
    method GetArray(bytes: array<byte>, pool: BufferPool, mayPool: bool) returns (r: Result<()>)
      requires Owned(pool) && bytes !in Arrays(buffers)
      modifies this`buffers, this`remaining, pool, buffers, bytes
      ensures Owned(pool)
      ensures r.Failure? <==> old(Remaining()) < bytes.Length
      ensures r.Failure? ==> buffers == old(buffers) && remaining == old(remaining) && bytes[..] == old(bytes[..])
      ensures r.Success? ==> bytes[..] == old(Contents())[..bytes.Length] && Contents() == old(Contents())[bytes.Length..]
      ensures r.Success? ==> remaining == old(remaining) - bytes.Length
    {
      ghost var d := bytes[..];
      r := GetBytes(bytes, 0, bytes.Length, pool, mayPool);
      assert r.Success? ==> bytes[..] == Splice(d, 0, old(Contents())[..bytes.Length]);
    }

    /**
     * `remove()`: the head buffer leaves the list, and its remaining bytes leave
     * the count; the list is not trimmed. On an empty list the queue throws.
     */
    method Remove(ghost pool: BufferPool) returns (r: Result<ByteBuffer>)
      requires Owned(pool)
      modifies this`buffers, this`remaining
      ensures Owned(pool)
      ensures r.Failure? <==> old(buffers) == []
      ensures r.Failure? ==> buffers == old(buffers) && remaining == old(remaining)
      ensures r.Success? ==> r.value == old(buffers[0]) && buffers == old(buffers[1..]) && r.value.Valid()
      ensures r.Success? ==> old(Contents()) == r.value.Window() + Contents() && remaining == old(remaining) - r.value.Remaining()
      ensures r.Success? ==> r.value.arr !in Arrays(buffers) && r.value.arr !in Arrays(pool.items)
    {
      if buffers == [] {
        return Failure;
      }
      var b := buffers[0];
      ArraysCons(buffers);
      buffers, remaining := buffers[1..], remaining - b.Remaining();
      return Success(b);
    }

    /**
     * `getAll()`: the whole content as one buffer that leaves the list. With
     * nothing remaining it is the shared empty buffer and the list is left as
     * it is; otherwise `read(remaining())` brings every byte into the head,
     * which is then removed.
     */
    method GetAll(pool: BufferPool, mayPool: bool) returns (b: ByteBuffer)
      requires Owned(pool)
      modifies this`buffers, this`remaining, pool, pool.items, Arrays(pool.items), buffers, Arrays(buffers)
      ensures Owned(pool) && Contents() == [] && remaining == 0
      ensures old(remaining) == 0 ==> b == pool.emptyBuffer && buffers == old(buffers)
      ensures old(remaining) > 0 ==> b.Valid() && b.Window() == old(Contents())
      ensures old(remaining) > 0 ==> b.arr !in Arrays(buffers) && b.arr !in Arrays(pool.items)
    {
      ConcatLength(buffers);
      if remaining == 0 {
        return pool.emptyBuffer;
      }
      var head := Read(remaining, pool, mayPool);
      ConcatLength(buffers[1..]);
      var r := Remove(pool);
      b := r.value;
    }

    /** `getAllArray()`: the buffers themselves, in order, handed over as an array; the list is emptied. */
    method GetAllArray(ghost pool: BufferPool) returns (a: array<ByteBuffer>)
      requires Owned(pool)
      modifies this`buffers, this`remaining
      ensures Owned(pool) && fresh(a) && a[..] == old(buffers) && buffers == [] && remaining == 0
    {
      var bs := buffers;
      a := new ByteBuffer[|bs|](i requires 0 <= i < |bs| => bs[i]);
      buffers, remaining := [], 0;
    }

    /**
     * `getAllByteArray()` with the fast path the method evidently intends: a
     * lone buffer whose backing array is exactly its content is handed over
     * without a copy; otherwise the content is copied into a new array by
     * `get(bytes)`. Either way the array holds the whole content, which leaves
     * the list.
     */
    method GetAllByteArray(pool: BufferPool, mayPool: bool) returns (a: array<byte>)
      requires Owned(pool)
      modifies this`buffers, this`remaining, pool, buffers
      ensures Owned(pool) && Contents() == [] && remaining == 0
      ensures a[..] == old(Contents())
      ensures fresh(a) || (old(|buffers|) == 1 && a == old(buffers[0].arr) && buffers == [])
    {
      ConcatLength(buffers);
      if |buffers| == 1 && buffers[0].capacity == remaining && buffers[0].arr.Length == remaining {
        var b := buffers[0];
        assert b.Window() == b.arr[..];
        buffers, remaining := [], 0;
        return b.arr;
      }
      a := new byte[remaining];
      ghost var content := Contents();
      var r := GetArray(a, pool, mayPool);
      assert r.Success? && content[a.Length..] == [];
    }

    /** `recycle()`: every buffer is handed to the pool and the list is emptied. */
    method Recycle(pool: BufferPool, mayPool: bool)
      requires Owned(pool)
      modifies this`buffers, this`remaining, pool, buffers
      ensures Owned(pool) && buffers == [] && remaining == 0
      ensures Released(old(buffers), old(pool.items), pool.items)
    {
      ReleaseAll(buffers, pool, mayPool);
      buffers, remaining := [], 0;
    }

    /**
     * `readString()`: the content decoded as US-ASCII (a byte above 127
     * becomes U+FFFD); every buffer is handed to the pool and the list is
     * emptied.
     */
    method ReadString(pool: BufferPool, mayPool: bool) returns (text: seq<char>)
      requires Owned(pool)
      modifies this`buffers, this`remaining, pool, buffers
      ensures Owned(pool) && buffers == [] && remaining == 0
      ensures text == AsciiDecode(old(Contents())) && |text| == old(remaining)
      ensures Released(old(buffers), old(pool.items), pool.items)
    {
      ConcatLength(buffers);
      text := DecodeAll(buffers, pool, mayPool);
      buffers, remaining := [], 0;
    }

    /** Takes n off `remaining` once n bytes have been read off the buffers. */
    method Shrink(n: int, ghost pool: BufferPool)
      requires AllValid(buffers) && DistinctArrays(buffers) && SumRemaining(buffers) == remaining - n
      requires pool.Valid() && Arrays(buffers) !! Arrays(pool.items)
      modifies this`remaining
      ensures Owned(pool) && remaining == old(remaining) - n
    {
      remaining := remaining - n;
    }

    /** `add`'s middle part for a non-empty b: merged into the last buffer, or appended after it. */
    method AddData(b: ByteBuffer, pool: BufferPool, mayPool: bool)
      requires Owned(pool) && b.Valid() && b.Remaining() > 0
      requires b.arr !in Arrays(buffers) && b.arr !in Arrays(pool.items)
      modifies this`buffers, this`remaining, pool, b, buffers, Arrays(buffers)
      ensures Owned(pool) && Contents() == old(Contents()) + old(b.Window()) && remaining > 0
      ensures buffers == if old(Mergeable(buffers, b)) then old(buffers) else old(buffers) + [b]
      ensures Released([b], old(pool.items), pool.items)
    {
      ConcatLength(buffers);
      if buffers != [] && buffers[|buffers| - 1].capacity - buffers[|buffers| - 1].limit >= b.Remaining() {
        MergeLast(b);
        ReclaimSpent(b, pool, mayPool);
      } else {
        PushLast(b);
        ArraysAppend(old(buffers), [b]);
      }
    }

    /**
     * `add(b)`: b's bytes are appended to the content. An empty b goes to the
     * pool; one that fits after the last buffer's limit is copied there and
     * then goes to the pool; any other is appended as a buffer of its own.
     * Either way the list is then trimmed of empty buffers at its front.
     */
    method Add(b: ByteBuffer, pool: BufferPool, mayPool: bool)
      requires Owned(pool) && b.Valid() && b.arr !in Arrays(buffers) && b.arr !in Arrays(pool.items)
      modifies this`buffers, this`remaining, pool, b, buffers, Arrays(buffers)
      ensures Owned(pool)
      ensures Contents() == old(Contents()) + old(b.Window())
      ensures old(b.Remaining()) <= 0 ==> buffers == old(buffers)
      ensures old(b.Remaining()) > 0 ==> buffers != [] && buffers[0].Remaining() > 0
      ensures old(b.Remaining()) > 0 && old(Mergeable(buffers, b)) ==> Suffix(buffers, old(buffers))
      ensures old(b.Remaining()) > 0 && !old(Mergeable(buffers, b)) ==> Suffix(buffers, old(buffers) + [b])
      ensures Released(old(buffers) + [b], old(pool.items), pool.items)
    {
      ArraysAppend(buffers, [b]);
      if b.Remaining() <= 0 {
        ghost var w := b.Window();
        ReclaimSpent(b, pool, mayPool);
        assert old(Contents()) + w == old(Contents());
        ReleasedWiden([b], old(buffers) + [b], old(pool.items), pool.items);
        return;
      }
      AddAndTrim(b, pool, mayPool);
    }

    /** `add(b)` for a non-empty b: merged or appended, then the list is trimmed of empty buffers at its front. */
    method AddAndTrim(b: ByteBuffer, pool: BufferPool, mayPool: bool)
      requires Owned(pool) && b.Valid() && b.Remaining() > 0
      requires b.arr !in Arrays(buffers) && b.arr !in Arrays(pool.items)
      modifies this`buffers, this`remaining, pool, b, buffers, Arrays(buffers)
      ensures Owned(pool) && Contents() == old(Contents()) + old(b.Window())
      ensures buffers != [] && buffers[0].Remaining() > 0
      ensures old(Mergeable(buffers, b)) ==> Suffix(buffers, old(buffers))
      ensures !old(Mergeable(buffers, b)) ==> Suffix(buffers, old(buffers) + [b])
      ensures Released(old(buffers) + [b], old(pool.items), pool.items)
    {
      ArraysAppend(buffers, [b]);
      AddData(b, pool, mayPool);
      ghost var bs, items := buffers, pool.items;
      DropEmptyHeads(pool, mayPool);
      ReleasedWiden([b], old(buffers) + [b], old(pool.items), items);
      ReleasedWiden(bs, old(buffers) + [b], items, pool.items);
      ReleasedChain(old(buffers) + [b], old(pool.items), items, pool.items);
    }

    /**
     * `addFirst(b)`: b's bytes are put in front of the content. An empty b goes
     * to the pool; one that fits before the first buffer's position is copied
     * there and then goes to the pool; any other becomes the first buffer.
     * Unlike `add`, nothing is trimmed afterwards.
     */
    method AddFirst(b: ByteBuffer, pool: BufferPool, mayPool: bool)
      requires Owned(pool) && b.Valid() && b.arr !in Arrays(buffers) && b.arr !in Arrays(pool.items)
      modifies this`buffers, this`remaining, pool, b, buffers, Arrays(buffers)
      ensures Owned(pool)
      ensures Contents() == old(b.Window()) + old(Contents())
      ensures old(b.Remaining()) <= 0 || old(buffers != [] && buffers[0].position >= b.Remaining()) ==> buffers == old(buffers)
      ensures old(b.Remaining()) > 0 && !old(buffers != [] && buffers[0].position >= b.Remaining()) ==> buffers == [b] + old(buffers)
    {
      ghost var w := b.Window();
      if b.Remaining() <= 0 {
        ReclaimSpent(b, pool, mayPool);
        assert w + old(Contents()) == old(Contents());
        return;
      }
      if buffers != [] && buffers[0].position >= b.Remaining() {
        MergeFirst(b);
        ReclaimSpent(b, pool, mayPool);
        return;
      }
      PushFirst(b);
      ArraysAppend([b], old(buffers));
      assert Arrays([b]) == {b.arr};
    }
  }
}
