/** Every stride-th byte of a buffer, from a starting index: how the error correction bytes of the
    blocks lie interleaved. */
module Strided {
  import opened Bytes
  import opened Numbers

  function Slot(start: nat, stride: nat, j: nat): nat { start + j * stride }

  lemma SlotOrder(start: nat, stride: nat, i: nat, j: nat)
    requires stride > 0
    ensures i < j ==> Slot(start, stride, i) + stride <= Slot(start, stride, j)
    ensures Slot(start, stride, i) == Slot(start, stride, j) ==> i == j
  {
    if i < j {
      assert j * stride == i * stride + (j - i) * stride;
      assert (j - i) * stride >= stride by { MulGrows(j - i, stride); }
    } else if j < i {
      assert i * stride == j * stride + (i - j) * stride;
      assert (i - j) * stride >= stride by { MulGrows(i - j, stride); }
    }
  }

  predicate Fits(length: nat, start: nat, stride: nat, n: nat) {
    stride > 0 && (n == 0 || Slot(start, stride, n - 1) < length)
  }

  lemma FitsAt(length: nat, start: nat, stride: nat, n: nat, j: nat)
    requires Fits(length, start, stride, n) && j < n
    ensures Slot(start, stride, j) < length
  {
    SlotOrder(start, stride, j, n - 1);
  }

  ghost predicate OnSlot(k: nat, start: nat, stride: nat, n: nat) {
    exists j: nat :: j < n && k == Slot(start, stride, j)
  }

  function Gather(r: seq<Byte>, start: nat, stride: nat, n: nat): (g: seq<Byte>)
    requires Fits(|r|, start, stride, n)
    ensures |g| == n
  {
    seq(n, j requires 0 <= j < n => FitsAt(|r|, start, stride, n, j); r[Slot(start, stride, j)])
  }

  /** Writing one slot changes that one element of the gathered view. */
  lemma GatherWrite(r: seq<Byte>, start: nat, stride: nat, n: nat, j: nat, b: Byte)
    requires Fits(|r|, start, stride, n) && j < n
    ensures Slot(start, stride, j) < |r|
    ensures Gather(r, start, stride, n)[j] == r[Slot(start, stride, j)]
    ensures Gather(r[Slot(start, stride, j) := b], start, stride, n) == Gather(r, start, stride, n)[j := b]
  {
    FitsAt(|r|, start, stride, n, j);
    var s := r[Slot(start, stride, j) := b];
    forall i | 0 <= i < n
      ensures Gather(s, start, stride, n)[i] == Gather(r, start, stride, n)[j := b][i]
    {
      FitsAt(|r|, start, stride, n, i);
      SlotOrder(start, stride, i, j);
    }
  }

  /** Buffers that agree on the slots gather alike. */
  lemma GatherSame(r: seq<Byte>, s: seq<Byte>, start: nat, stride: nat, n: nat)
    requires |r| == |s| && Fits(|r|, start, stride, n)
    requires forall k :: 0 <= k < |r| && OnSlot(k, start, stride, n) ==> r[k] == s[k]
    ensures Gather(r, start, stride, n) == Gather(s, start, stride, n)
  {
    forall i | 0 <= i < n
      ensures Gather(r, start, stride, n)[i] == Gather(s, start, stride, n)[i]
    {
      FitsAt(|r|, start, stride, n, i);
      assert OnSlot(Slot(start, stride, i), start, stride, n);
    }
  }

  // ---------------------------------------------------------------- lanes

  /** n interleaved runs of e bytes each, starting at d: lane b holds every n-th byte from d + b. */
  lemma LaneFits(length: nat, d: nat, n: nat, e: nat, b: nat)
    requires b < n && d + n * e <= length
    ensures Fits(length, d + b, n, e)
  {
    if e > 0 {
      assert (e - 1) * n == e * n - n;
    }
  }

  function Lane(r: seq<Byte>, d: nat, n: nat, e: nat, b: nat): (g: seq<Byte>)
    requires b < n && d + n * e <= |r|
    ensures |g| == e
  {
    LaneFits(|r|, d, n, e, b);
    Gather(r, d + b, n, e)
  }

  ghost predicate OnLane(k: nat, d: nat, n: nat, e: nat, b: nat) { OnSlot(k, d + b, n, e) }

  /** Lanes are disjoint and lie between d and d + n * e. */
  lemma LanesDisjoint(k: nat, d: nat, n: nat, e: nat, b: nat, b': nat)
    requires b < n && b' < n && OnLane(k, d, n, e, b)
    ensures d <= k < d + n * e
    ensures OnLane(k, d, n, e, b') ==> b == b'
  {
    var j: nat :| j < e && k == Slot(d + b, n, j);
    LaneFits(d + n * e, d, n, e, b);
    FitsAt(d + n * e, d + b, n, e, j);
    if OnLane(k, d, n, e, b') {
      var j': nat :| j' < e && k == Slot(d + b', n, j');
      SameQuotient(n, j, b, j', b');
    }
  }

  /** Only lane b differs between two buffers. */
  ghost predicate OnlyLane(before: seq<Byte>, after: seq<Byte>, d: nat, n: nat, e: nat, b: nat) {
    |before| == |after| && forall k: nat :: k < |before| && !OnLane(k, d, n, e, b) ==> after[k] == before[k]
  }

  lemma OtherLanes(before: seq<Byte>, after: seq<Byte>, d: nat, n: nat, e: nat, b: nat, b': nat)
    requires b < n && b' < n && b != b' && d + n * e <= |before|
    requires OnlyLane(before, after, d, n, e, b)
    ensures Lane(after, d, n, e, b') == Lane(before, d, n, e, b')
  {
    LaneFits(|before|, d, n, e, b');
    forall k: nat | k < |before| && OnSlot(k, d + b', n, e)
      ensures before[k] == after[k]
    {
      assert OnLane(k, d, n, e, b');
      LanesDisjoint(k, d, n, e, b', b);
    }
    GatherSame(before, after, d + b', n, e);
  }

  lemma OutsideLanes(before: seq<Byte>, after: seq<Byte>, d: nat, n: nat, e: nat, b: nat, k: nat)
    requires b < n && OnlyLane(before, after, d, n, e, b)
    requires k < |before| && (k < d || d + n * e <= k)
    ensures after[k] == before[k]
  {
    if OnLane(k, d, n, e, b) {
      LanesDisjoint(k, d, n, e, b, b);
    }
  }

  lemma LaneOfZeros(r: seq<Byte>, d: nat, n: nat, e: nat, b: nat)
    requires b < n && d + n * e <= |r|
    requires forall k :: d <= k < |r| ==> r[k] == ZeroByte()
    ensures forall j :: 0 <= j < e ==> Lane(r, d, n, e, b)[j] == ZeroByte()
  {
    LaneFits(|r|, d, n, e, b);
    forall j | 0 <= j < e
      ensures Lane(r, d, n, e, b)[j] == ZeroByte()
    {
      FitsAt(|r|, d + b, n, e, j);
    }
  }
}
