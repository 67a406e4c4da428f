/**
 * Snapshots of a chain's buffers as plain values: the windows of the buffers
 * and their remaining counts. `read` and the bulk getters move bytes between
 * arrays while buffers leave the chain one by one; their proofs speak of the
 * windows as they were before the first move.
 */
module Snapshots {
  import opened Bytes
  import opened Buffers

  /** The sum of a sequence of counts. */
  function Sum(xs: seq<int>): int
  {
    if xs == [] then 0 else xs[0] + Sum(xs[1..])
  }

  /** Adding one more count at the end adds it to the sum. */
  lemma {:induction false} SumSnoc(xs: seq<int>, x: int)
    ensures Sum(xs + [x]) == Sum(xs) + x
  {
    if xs != [] {
      assert (xs + [x])[1..] == xs[1..] + [x];
      SumSnoc(xs[1..], x);
    }
  }

  /** The sum of a prefix one longer. */
  lemma SumPrefix(xs: seq<int>, k: nat)
    requires k < |xs|
    ensures Sum(xs[..k + 1]) == Sum(xs[..k]) + xs[k]
  {
    assert xs[..k + 1] == xs[..k] + [xs[k]];
    SumSnoc(xs[..k], xs[k]);
  }

  /** Over counts that are never negative, a longer prefix has a sum at least as large. */
  lemma {:induction false} SumMono(xs: seq<int>, a: nat, b: nat)
    requires a <= b <= |xs| && forall i | 0 <= i < |xs| :: xs[i] >= 0
    ensures Sum(xs[..a]) <= Sum(xs[..b])
    decreases b - a
  {
    if a < b {
      SumPrefix(xs, b - 1);
      SumMono(xs, a, b - 1);
    }
  }

  /** The bytes of a sequence of windows, one after the other. */
  function Flatten(ws: seq<seq<byte>>): seq<byte>
  {
    if ws == [] then [] else ws[0] + Flatten(ws[1..])
  }

  lemma {:induction false} FlattenSnoc(ws: seq<seq<byte>>, w: seq<byte>)
    ensures Flatten(ws + [w]) == Flatten(ws) + w
  {
    if ws == [] {
      assert ws + [w] == [w];
      assert Flatten([w][1..]) == [];
    } else {
      assert (ws + [w])[1..] == ws[1..] + [w];
      FlattenSnoc(ws[1..], w);
      AppendAssoc(ws[0], Flatten(ws[1..]), w);
    }
  }

  /** The bytes of a prefix one window longer. */
  lemma FlattenPrefix(ws: seq<seq<byte>>, k: nat)
    requires k < |ws|
    ensures Flatten(ws[..k + 1]) == Flatten(ws[..k]) + ws[k]
  {
    assert ws[..k + 1] == ws[..k] + [ws[k]];
    FlattenSnoc(ws[..k], ws[k]);
  }

  lemma {:induction false} FlattenAppend(ws: seq<seq<byte>>, vs: seq<seq<byte>>)
    ensures Flatten(ws + vs) == Flatten(ws) + Flatten(vs)
  {
    if ws == [] {
      assert ws + vs == vs;
    } else {
      assert (ws + vs)[1..] == ws[1..] + vs;
      FlattenAppend(ws[1..], vs);
      AppendAssoc(ws[0], Flatten(ws[1..]), Flatten(vs));
    }
  }

  /** A prefix and the matching suffix flatten to the whole. */
  lemma FlattenSplit(ws: seq<seq<byte>>, k: nat)
    requires k <= |ws|
    ensures Flatten(ws) == Flatten(ws[..k]) + Flatten(ws[k..])
  {
    assert ws == ws[..k] + ws[k..];
    FlattenAppend(ws[..k], ws[k..]);
  }

  /** The length of the bytes is the sum of the window lengths. */
  lemma {:induction false} FlattenLength(ws: seq<seq<byte>>, rs: seq<int>)
    requires |rs| == |ws| && forall i | 0 <= i < |ws| :: |ws[i]| == rs[i]
    ensures |Flatten(ws)| == Sum(rs)
  {
    if ws != [] {
      FlattenLength(ws[1..], rs[1..]);
    }
  }

  /** The remaining counts of the buffers. */
  ghost function Rems(bs: seq<ByteBuffer>): (rs: seq<int>)
    reads bs
    ensures |rs| == |bs| && forall i | 0 <= i < |bs| :: rs[i] == bs[i].Remaining()
  {
    if bs == [] then [] else [bs[0].Remaining()] + Rems(bs[1..])
  }

  /** The windows of the buffers. */
  ghost function Windows(bs: seq<ByteBuffer>): (ws: seq<seq<byte>>)
    reads bs, Arrays(bs)
    requires AllValid(bs)
    ensures |ws| == |bs| && forall i | 0 <= i < |bs| :: ws[i] == bs[i].Window()
  {
    if bs == [] then [] else [bs[0].Window()] + Windows(bs[1..])
  }

  /** The content of a sequence of buffers is the bytes of its windows, and its count their sum. */
  lemma {:induction false} Snapshot(bs: seq<ByteBuffer>)
    requires AllValid(bs)
    ensures Concat(bs) == Flatten(Windows(bs)) && SumRemaining(bs) == Sum(Rems(bs))
  {
    if bs != [] {
      Snapshot(bs[1..]);
      assert Windows(bs)[1..] == Windows(bs[1..]);
      assert Rems(bs)[1..] == Rems(bs[1..]);
    }
  }

  /**
   * Buffers whose windows are, one by one, the given byte sequences are well
   * formed and hold those bytes, one after the other.
   */
  lemma {:induction false} HoldsWindows(bs: seq<ByteBuffer>, ws: seq<seq<byte>>)
    requires |ws| == |bs| && forall i | 0 <= i < |bs| :: bs[i].Valid() && bs[i].Window() == ws[i]
    ensures AllValid(bs) && Concat(bs) == Flatten(ws) && SumRemaining(bs) == |Flatten(ws)|
  {
    if bs != [] {
      HoldsWindows(bs[1..], ws[1..]);
      ConcatLength(bs);
    } else {
      ConcatLength(bs);
    }
  }

  /** No two entries of a sequence with distinct arrays share an array. */
  lemma {:induction false} DistinctPairs(bs: seq<ByteBuffer>)
    requires DistinctArrays(bs)
    ensures forall i, j | 0 <= i < j < |bs| :: bs[i].arr != bs[j].arr
  {
    if bs != [] {
      DistinctPairs(bs[1..]);
      forall j | 0 < j < |bs| ensures bs[0].arr != bs[j].arr {
        ArraysMember(bs[1..], j - 1);
      }
      forall i, j | 0 < i < j < |bs| ensures bs[i].arr != bs[j].arr {
        assert bs[i] == bs[1..][i - 1] && bs[j] == bs[1..][j - 1];
      }
    }
  }
}
