/** performErrorCorrection of main/ui/qrcode.c: the data codewords are split into blocks, each block
    gets its error correction bytes, and everything is interleaved.  Short blocks come first; the
    others are one codeword longer. */
module Interleaving {
  import opened Bytes
  import opened Numbers
  import opened Gf256
  import opened Polynomials
  import opened Strided
  import opened ReedSolomon
  import opened BitBuckets

  /** One entry of each capacity table: what performErrorCorrection looks up for (ecc, version). */
  datatype Layout = Layout(numBlocks: nat, totalEcc: nat, moduleCount: nat) {

    /** The side conditions the tables meet: whole blocks, and quantities that fit their C types. */
    predicate Valid() {
      && 0 < numBlocks < 0x100
      && moduleCount < 0x10000
      && totalEcc % numBlocks == 0
      && 0 < totalEcc / numBlocks <= moduleCount / 8 / numBlocks < 0x100
    }

    function Total(): nat { moduleCount / 8 }
    function EccLen(): nat requires Valid() { totalEcc / numBlocks }
    function NumShort(): nat requires Valid() { numBlocks - Total() % numBlocks }
    function ShortLen(): nat requires Valid() { Total() / numBlocks - EccLen() }

    function BlockLen(b: nat): nat requires Valid() {
      if b < NumShort() then ShortLen() else ShortLen() + 1
    }

    /** Where block b starts among the data codewords. */
    function BlockStart(b: nat): nat requires Valid() {
      b * ShortLen() + (if b <= NumShort() then 0 else b - NumShort())
    }

    function DataLen(): nat requires Valid() { BlockStart(numBlocks) }

    /** Where codeword i of block b goes. */
    function Pos(b: nat, i: nat): nat
      requires Valid() && b < numBlocks && i < BlockLen(b)
    {
      if i < ShortLen() then Slot(b, numBlocks, i) else Slot(0, numBlocks, ShortLen()) + b - NumShort()
    }
  }

  lemma BlockStartStep(l: Layout, b: nat)
    requires l.Valid()
    ensures l.BlockStart(b + 1) == l.BlockStart(b) + l.BlockLen(b)
    ensures l.BlockStart(0) == 0
  {
    assert (b + 1) * l.ShortLen() == b * l.ShortLen() + l.ShortLen();
  }

  lemma {:induction false} BlockStartMonotone(l: Layout, a: nat, b: nat)
    requires l.Valid() && a <= b
    ensures l.BlockStart(a) <= l.BlockStart(b)
    decreases b - a
  {
    if a < b {
      BlockStartStep(l, a);
      BlockStartMonotone(l, a + 1, b);
    }
  }

  /** Data and error correction codewords together fill the symbol's whole codewords. */
  lemma LayoutAddsUp(l: Layout)
    requires l.Valid()
    ensures l.DataLen() == l.Total() - l.totalEcc
    ensures l.DataLen() + l.numBlocks * l.EccLen() == l.Total()
    ensures l.DataLen() == l.numBlocks * l.ShortLen() + (l.numBlocks - l.NumShort())
    ensures 1 <= l.NumShort() <= l.numBlocks
  {
    var n, q, r, e := l.numBlocks, l.Total() / l.numBlocks, l.Total() % l.numBlocks, l.EccLen();
    assert l.Total() == n * q + r;
    assert l.totalEcc == n * e;
    assert n * (q - e) == n * q - n * e;
  }

  /** Row i of the short codewords ends before row s begins. */
  lemma RowFits(n: nat, s: nat, b: nat, i: nat)
    requires b < n && i < s
    ensures Slot(b, n, i) < n * s
  {
    assert s * n == i * n + (s - i) * n;
    MulGrows(s - i, n);
  }

  /** Every position is inside the data part, and no two codewords share one. */
  lemma PosInRange(l: Layout, b: nat, i: nat)
    requires l.Valid() && b < l.numBlocks && i < l.BlockLen(b)
    ensures l.Pos(b, i) < l.DataLen()
  {
    hide Layout.DataLen, Layout.Total, Layout.EccLen, Layout.ShortLen, Layout.NumShort;
    LayoutAddsUp(l);
    var n, s := l.numBlocks, l.ShortLen();
    if i < s {
      RowFits(n, s, b, i);
    } else {
      assert Slot(0, n, s) == n * s;
    }
  }

  lemma DivMod(n: nat, b: nat, i: nat)
    requires b < n
    ensures (b + i * n) / n == i && (b + i * n) % n == b
  {
    var k := b + i * n;
    assert k == (k / n) * n + k % n;
    SameQuotient(n, k / n, k % n, i, b);
  }

  /** The block and the index in it of the codeword at position k: the inverse of Pos. */
  function BlockAt(l: Layout, k: nat): nat
    requires l.Valid()
  {
    var n, s := l.numBlocks, l.ShortLen();
    if k < n * s then k % n else l.NumShort() + (k - n * s)
  }

  function IndexAt(l: Layout, k: nat): int
    requires l.Valid()
  {
    var n, s := l.numBlocks, l.ShortLen();
    if k < n * s then k / n else s
  }

  lemma PosComesBack(l: Layout, b: nat, i: nat)
    requires l.Valid() && b < l.numBlocks && i < l.BlockLen(b)
    ensures l.Pos(b, i) < l.DataLen() && BlockAt(l, l.Pos(b, i)) == b && IndexAt(l, l.Pos(b, i)) == i
  {
    var n, s := l.numBlocks, l.ShortLen();
    PosInRange(l, b, i);
    if i < s {
      hide Layout.DataLen;
      PosInShort(l, b, i);
      DivMod(n, b, i);
    } else {
      hide Layout.DataLen;
      assert Slot(0, n, s) == n * s;
    }
  }

  lemma PlaceComesBack(l: Layout, k: nat)
    requires l.Valid() && k < l.DataLen()
    ensures BlockAt(l, k) < l.numBlocks && 0 <= IndexAt(l, k) < l.BlockLen(BlockAt(l, k))
    ensures l.Pos(BlockAt(l, k), IndexAt(l, k)) == k
  {
    var n, s := l.numBlocks, l.ShortLen();
    LayoutAddsUp(l);
    if k < n * s {
      hide Layout.DataLen;
      QuotientBelow(k, n, s);
    } else {
      hide Layout.DataLen;
      assert Slot(0, n, s) == n * s;
    }
  }

  /** Section 7.6 of ISO/IEC 18004:2015: the first codeword of every block in turn, then the second, and so on; a block
      that has run out is passed over, and those are the first ones. */
  lemma PosIsOrder(l: Layout, b: nat, i: nat, b': nat, i': nat)
    requires l.Valid() && b < l.numBlocks && i < l.BlockLen(b) && b' < l.numBlocks && i' < l.BlockLen(b')
    ensures l.Pos(b, i) < l.Pos(b', i') <==> i < i' || (i == i' && b < b')
    ensures b <= b' ==> l.BlockLen(b) <= l.BlockLen(b') <= l.BlockLen(b) + 1
  {
    if i < i' || (i == i' && b < b') {
      PosBefore(l, b, i, b', i');
    } else if i' < i || b' < b {
      PosBefore(l, b', i', b, i);
    }
  }

  lemma PosBefore(l: Layout, b: nat, i: nat, b': nat, i': nat)
    requires l.Valid() && b < l.numBlocks && i < l.BlockLen(b) && b' < l.numBlocks && i' < l.BlockLen(b')
    requires i < i' || (i == i' && b < b')
    ensures l.Pos(b, i) < l.Pos(b', i')
  {
    hide Layout.DataLen, Layout.Total, Layout.EccLen, Layout.ShortLen, Layout.NumShort, Layout.Valid;
    var n, s := l.numBlocks, l.ShortLen();
    if i < s {
      RowFits(n, s, b, i);
      if i < i' < s {
        SlotRises(n, b, i, b', i');
      }
    }
    assert Slot(0, n, s) == n * s;
  }

  lemma SlotRises(n: nat, b: nat, i: nat, b': nat, i': nat)
    requires b < n && i < i'
    ensures Slot(b, n, i) < Slot(b', n, i')
  {
    assert i' * n == i * n + (i' - i) * n;
    MulGrows(i' - i, n);
  }

  /** Interleaving is a bijection between the codewords of all blocks and the first DataLen places. */
  lemma PosIsBijection(l: Layout)
    requires l.Valid()
    ensures forall b: nat, i: nat :: b < l.numBlocks && i < l.BlockLen(b) ==>
              l.Pos(b, i) < l.DataLen() && BlockAt(l, l.Pos(b, i)) == b && IndexAt(l, l.Pos(b, i)) == i
    ensures forall k: nat :: k < l.DataLen() ==>
              && BlockAt(l, k) < l.numBlocks && 0 <= IndexAt(l, k) < l.BlockLen(BlockAt(l, k))
              && l.Pos(BlockAt(l, k), IndexAt(l, k)) == k
  {
    hide Layout.Pos, Layout.DataLen, Layout.BlockLen, BlockAt, IndexAt, Layout.Valid;
    forall b: nat, i: nat | b < l.numBlocks && i < l.BlockLen(b)
      ensures l.Pos(b, i) < l.DataLen() && BlockAt(l, l.Pos(b, i)) == b && IndexAt(l, l.Pos(b, i)) == i
    {
      PosComesBack(l, b, i);
    }
    forall k: nat | k < l.DataLen()
      ensures && BlockAt(l, k) < l.numBlocks && 0 <= IndexAt(l, k) < l.BlockLen(BlockAt(l, k))
              && l.Pos(BlockAt(l, k), IndexAt(l, k)) == k
    {
      PlaceComesBack(l, k);
    }
  }

  lemma PosInShort(l: Layout, b: nat, i: nat)
    requires l.Valid() && b < l.numBlocks && i < l.ShortLen()
    ensures Slot(b, l.numBlocks, i) < l.numBlocks * l.ShortLen()
  {
    hide Layout.ShortLen;
    RowFits(l.numBlocks, l.ShortLen(), b, i);
  }

  lemma QuotientBelow(k: nat, n: nat, s: nat)
    requires n > 0 && k < n * s
    ensures 0 <= k / n < s && 0 <= k % n < n && Slot(k % n, n, k / n) == k
  {
    var q, r := k / n, k % n;
    assert k == q * n + r;
    assert (q - s) * n == q * n - s * n;
    assert -q * n == -(q * n);
    if q > s {
      MulGrows(q - s, n);
    } else if q < 0 {
      MulGrows(-q, n);
    }
  }

  // ---------------------------------------------------------------- what the interleaved form means

  /** Place k of the result holds codeword j of the data. */
  ghost predicate Copied<W>(data: seq<W>, result: seq<W>, k: int, j: int) {
    0 <= k < |result| && 0 <= j < |data| && result[k] == data[j]
  }

  /** Codeword i of block b is where a reader looks for it. */
  ghost predicate Placed<W>(l: Layout, data: seq<W>, result: seq<W>, b: nat, i: nat)
    requires l.Valid() && b < l.numBlocks && i < l.BlockLen(b)
  {
    Copied(data, result, l.Pos(b, i), l.BlockStart(b) + i)
  }

  ghost predicate DataPlaced<W>(l: Layout, data: seq<W>, result: seq<W>)
    requires l.Valid()
  {
    forall b: nat, i: nat :: b < l.numBlocks && i < l.BlockLen(b) ==> Placed(l, data, result, b, i)
  }

  /** The codewords of one block, in the data. */
  function Block(l: Layout, data: seq<Byte>, b: nat): (block: seq<Byte>)
    requires l.Valid() && b < l.numBlocks && l.DataLen() <= |data|
    ensures |block| == l.BlockLen(b)
  {
    BlockStartStep(l, b);
    BlockStartMonotone(l, b + 1, l.numBlocks);
    data[l.BlockStart(b)..l.BlockStart(b) + l.BlockLen(b)]
  }

  /** The error correction bytes of one block, in the result. */
  function Ecc(l: Layout, result: seq<Byte>, b: nat): (ecc: seq<Byte>)
    requires l.Valid() && b < l.numBlocks && l.Total() <= |result|
    ensures |ecc| == l.EccLen()
  {
    LayoutAddsUp(l);
    Lane(result, l.DataLen(), l.numBlocks, l.EccLen(), b)
  }

  /** The error correction bytes follow the data in the same way: byte 1 of every block, then byte 2, and so on. */
  lemma EccAt(l: Layout, result: seq<Byte>, b: nat, j: nat)
    requires l.Valid() && b < l.numBlocks && l.Total() <= |result| && j < l.EccLen()
    ensures l.DataLen() + j * l.numBlocks + b < |result|
    ensures Ecc(l, result, b)[j] == result[l.DataLen() + j * l.numBlocks + b]
  {
    hide Layout.DataLen, Layout.EccLen, Layout.Total, Layout.Valid;
    LayoutAddsUp(l);
    RowFits(l.numBlocks, l.EccLen(), b, j);
    assert l.EccLen() * l.numBlocks == l.numBlocks * l.EccLen();
  }

  /** Every block's error correction bytes are its remainder by the generator. */
  ghost predicate EccPlaced(l: Layout, data: seq<Byte>, result: seq<Byte>, blocks: nat)
    requires l.Valid()
  {
    && blocks <= l.numBlocks && l.DataLen() <= |data| && l.Total() <= |result|
    && forall b: nat :: b < blocks ==> EccOf(l, data, result, b)
  }

  ghost predicate EccOf(l: Layout, data: seq<Byte>, result: seq<Byte>, b: nat)
    requires l.Valid() && b < l.numBlocks && l.DataLen() <= |data| && l.Total() <= |result|
  {
    Ecc(l, result, b) == Remainder(Gf(), LowGenerator(l.EccLen()), Block(l, data, b))
  }

  /** The generator without its leading one: what rs_init leaves in coeff. */
  function LowGenerator(d: nat): (low: seq<Byte>)
    ensures |low| == d
  {
    Generator(d)[1..]
  }

  ghost predicate EccEmpty(l: Layout, result: seq<Byte>, b: nat)
    requires l.Valid() && b < l.numBlocks && l.Total() <= |result|
  {
    Ecc(l, result, b) == Nulls(Gf(), l.EccLen())
  }

  // ---------------------------------------------------------------- the method

  /** Where the first phase puts codeword i of block b. */
  ghost predicate ShortPlaced(l: Layout, data: seq<Byte>, result: seq<Byte>, b: nat, i: nat)
    requires l.Valid()
  {
    Copied(data, result, Slot(b, l.numBlocks, i), l.BlockStart(b) + i)
  }

  /** The first i rows, and of row i the first `blocks` codewords. */
  ghost predicate ShortRows(l: Layout, data: seq<Byte>, result: seq<Byte>, blocks: nat, i: nat)
    requires l.Valid()
  {
    forall b: nat, j: nat :: b < l.numBlocks && (j < i || (j == i && b < blocks)) ==> ShortPlaced(l, data, result, b, j)
  }

  lemma RowStep(l: Layout, data: seq<Byte>, before: seq<Byte>, b: nat, i: nat)
    requires l.Valid() && b < l.numBlocks && ShortRows(l, data, before, b, i)
    requires Slot(b, l.numBlocks, i) < |before| && l.BlockStart(b) + i < |data|
    ensures ShortRows(l, data, before[Slot(b, l.numBlocks, i) := data[l.BlockStart(b) + i]], b + 1, i)
  {
    hide Layout.BlockStart, Layout.Valid, Slot;
    var k := Slot(b, l.numBlocks, i);
    var after := before[k := data[l.BlockStart(b) + i]];
    forall c: nat, j: nat | c < l.numBlocks && (j < i || (j == i && c < b + 1))
      ensures ShortPlaced(l, data, after, c, j)
    {
      if j != i || c != b {
        assert ShortPlaced(l, data, before, c, j);
        RowsApart(l.numBlocks, c, j, b, i);
      }
    }
  }

  lemma RowsApart(n: nat, c: nat, j: nat, b: nat, i: nat)
    requires c < n && b < n && (j < i || (j == i && c < b))
    ensures Slot(c, n, j) < Slot(b, n, i)
  {
    if j < i {
      SlotOrder(c, n, j, i);
    }
  }

  lemma NextRow(l: Layout, data: seq<Byte>, result: seq<Byte>, i: nat)
    requires l.Valid() && ShortRows(l, data, result, l.numBlocks, i)
    ensures ShortRows(l, data, result, 0, i + 1)
    ensures Slot(l.numBlocks, l.numBlocks, i) == Slot(0, l.numBlocks, i + 1)
  {
    hide ShortPlaced;
  }

  lemma FirstRow(l: Layout, data: seq<Byte>, result: seq<Byte>)
    requires l.Valid()
    ensures ShortRows(l, data, result, 0, 0) && Slot(0, l.numBlocks, 0) == 0
    ensures Slot(0, l.numBlocks, l.ShortLen()) == l.numBlocks * l.ShortLen()
  {
    hide ShortPlaced, Layout.ShortLen;
  }

  lemma BlockLenIs(l: Layout, b: nat)
    requires l.Valid()
    ensures l.BlockLen(b) == if b < l.NumShort() then l.ShortLen() else l.ShortLen() + 1
  {}

  /** First phase: row by row, one codeword of every block, as far as the short blocks go. */
  method InterleaveShort(l: Layout, data: array<Byte>, result: array<Byte>) returns (offset: nat)
    requires l.Valid() && data != result
    requires l.DataLen() <= data.Length && l.Total() <= result.Length
    modifies result
    ensures offset == l.numBlocks * l.ShortLen()
    ensures ShortRows(l, data[..], result[..], 0, l.ShortLen())
    ensures forall k :: offset <= k < result.Length ==> result[k] == old(result[k])
  {
    hide ShortRows, Slot, Layout.ShortLen, Layout.DataLen, Layout.Total, Layout.Valid;
    offset := 0;
    var shortLen := l.ShortLen();
    FirstRow(l, data[..], result[..]);
    for i := 0 to shortLen
      invariant offset == Slot(0, l.numBlocks, i) && ShortRows(l, data[..], result[..], 0, i)
      invariant forall k :: offset <= k < result.Length ==> result[k] == old(result[k])
    {
      offset := InterleaveRow(l, data, result, i, offset);
    }
  }

  /** The inner loop of that phase. */
  method InterleaveRow(l: Layout, data: array<Byte>, result: array<Byte>, i: nat, from: nat) returns (offset: nat)
    requires l.Valid() && data != result && i < l.ShortLen()
    requires l.DataLen() <= data.Length && l.Total() <= result.Length
    requires from == Slot(0, l.numBlocks, i) && ShortRows(l, data[..], result[..], 0, i)
    modifies result
    ensures from <= offset == Slot(0, l.numBlocks, i + 1) && ShortRows(l, data[..], result[..], 0, i + 1)
    ensures forall k :: offset <= k < result.Length ==> result[k] == old(result[k])
  {
    hide ShortRows, Layout.ShortLen, Layout.DataLen, Layout.Total, Layout.Valid, Layout.BlockStart, Layout.BlockLen,
      Layout.NumShort, Layout.Pos;
    offset := from;
    var index := i;
    var stride := l.ShortLen();
    BlockStartStep(l, 0);
    for blockNum := 0 to l.numBlocks
      invariant offset == Slot(blockNum, l.numBlocks, i) && index == l.BlockStart(blockNum) + i
      invariant stride == if blockNum <= l.NumShort() then l.ShortLen() else l.ShortLen() + 1
      invariant ShortRows(l, data[..], result[..], blockNum, i)
      invariant forall k :: offset <= k < result.Length ==> result[k] == old(result[k])
    {
      BlockLenIs(l, blockNum);
      InBlock(l, blockNum, i);
      PosIsSlot(l, blockNum, i);
      RowStep(l, data[..], result[..], blockNum, i);
      result[offset] := data[index];
      offset := offset + 1;
      if blockNum == l.NumShort() { stride := stride + 1; }
      index := index + stride;
      BlockStartStep(l, blockNum);
    }
    NextRow(l, data[..], result[..], i);
  }

  lemma PosIsSlot(l: Layout, b: nat, i: nat)
    requires l.Valid() && b < l.numBlocks && i < l.ShortLen()
    ensures i < l.BlockLen(b) && l.Pos(b, i) == Slot(b, l.numBlocks, i)
  {}

  lemma InBlock(l: Layout, b: nat, i: nat)
    requires l.Valid() && b < l.numBlocks && i < l.BlockLen(b)
    ensures l.BlockStart(b) + i < l.DataLen() <= l.Total()
    ensures l.Pos(b, i) < l.DataLen()
  {
    BlockStartStep(l, b);
    BlockStartMonotone(l, b + 1, l.numBlocks);
    LayoutAddsUp(l);
    PosInRange(l, b, i);
  }

  /** Where the second phase puts the last codeword of long block b. */
  ghost predicate LongPlaced(l: Layout, data: seq<Byte>, result: seq<Byte>, b: nat)
    requires l.Valid()
  {
    Copied(data, result, l.numBlocks * l.ShortLen() + (b - l.NumShort()), l.BlockStart(b) + l.ShortLen())
  }

  /** The long blocks up to b. */
  ghost predicate LongBlocks(l: Layout, data: seq<Byte>, result: seq<Byte>, b: nat)
    requires l.Valid()
  {
    forall c: nat :: l.NumShort() <= c < b ==> LongPlaced(l, data, result, c)
  }

  lemma LongStep(l: Layout, data: seq<Byte>, before: seq<Byte>, b: nat, k: nat)
    requires l.Valid() && l.NumShort() <= b && LongBlocks(l, data, before, b)
    requires k == l.numBlocks * l.ShortLen() + (b - l.NumShort()) < |before| && l.BlockStart(b) + l.ShortLen() < |data|
    ensures LongBlocks(l, data, before[k := data[l.BlockStart(b) + l.ShortLen()]], b + 1)
  {
    hide Layout.BlockStart, Layout.Valid, Layout.ShortLen, Layout.NumShort;
    var after := before[k := data[l.BlockStart(b) + l.ShortLen()]];
    forall c: nat | l.NumShort() <= c < b + 1
      ensures LongPlaced(l, data, after, c)
    {
      if c < b {
        assert LongPlaced(l, data, before, c);
      }
    }
  }

  /** What the second phase starts from. */
  lemma LongStart(l: Layout, data: seq<Byte>, result: seq<Byte>)
    requires l.Valid()
    ensures l.ShortLen() * (l.NumShort() + 1) == l.BlockStart(l.NumShort()) + l.ShortLen()
    ensures LongBlocks(l, data, result, l.NumShort())
  {
    hide LongPlaced, Layout.ShortLen;
    var n, m := l.ShortLen(), l.NumShort();
    assert n * (m + 1) == m * n + n;
  }

  lemma LongInBlock(l: Layout, b: nat)
    requires l.Valid() && l.NumShort() <= b < l.numBlocks
    ensures l.ShortLen() < l.BlockLen(b) == l.ShortLen() + 1
    ensures l.Pos(b, l.ShortLen()) == l.numBlocks * l.ShortLen() + (b - l.NumShort())
  {}

  /** Second phase: the last codeword of every long block. */
  method InterleaveLong(l: Layout, data: array<Byte>, result: array<Byte>, from: nat) returns (offset: nat)
    requires l.Valid() && data != result
    requires l.DataLen() <= data.Length && l.Total() <= result.Length
    requires from == l.numBlocks * l.ShortLen()
    modifies result
    ensures offset == l.DataLen() && LongBlocks(l, data[..], result[..], l.numBlocks)
    ensures forall k :: 0 <= k < result.Length && (k < from || offset <= k) ==> result[k] == old(result[k])
  {
    hide LongBlocks, Layout.ShortLen, Layout.DataLen, Layout.Total, Layout.Valid, Layout.BlockStart, Layout.BlockLen,
      Layout.NumShort, Layout.Pos;
    LayoutAddsUp(l);
    offset := from;
    var shortLen, numShort := l.ShortLen(), l.NumShort();
    var index := shortLen * (numShort + 1);
    var stride := shortLen;
    LongStart(l, data[..], result[..]);
    for blockNum := 0 to l.numBlocks - numShort
      invariant offset == from + blockNum && index == l.BlockStart(numShort + blockNum) + shortLen
      invariant stride == if blockNum == 0 then shortLen else shortLen + 1
      invariant LongBlocks(l, data[..], result[..], numShort + blockNum)
      invariant forall k :: 0 <= k < result.Length && (k < from || offset <= k) ==> result[k] == old(result[k])
    {
      LongInBlock(l, numShort + blockNum);
      InBlock(l, numShort + blockNum, shortLen);
      LongStep(l, data[..], result[..], numShort + blockNum, offset);
      result[offset] := data[index];
      offset := offset + 1;
      if blockNum == 0 { stride := stride + 1; }
      index := index + stride;
      BlockStartStep(l, numShort + blockNum);
    }
  }

  /** Third phase: the error correction bytes of every block, interleaved behind the data. */
  method AppendEcc(l: Layout, coeff: array<Byte>, data: array<Byte>, result: array<Byte>)
    requires l.Valid() && data != result && coeff != result
    requires l.DataLen() <= data.Length && l.Total() <= result.Length
    requires coeff.Length == l.EccLen() && coeff[..] == LowGenerator(l.EccLen())
    requires forall k :: l.DataLen() <= k < result.Length ==> result[k] == ZeroByte()
    modifies result
    ensures EccPlaced(l, data[..], result[..], l.numBlocks)
    ensures forall k :: 0 <= k < result.Length && !(l.DataLen() <= k < l.Total()) ==> result[k] == old(result[k])
  {
    ghost var start0 := result[..];
    var blockSize, start := l.ShortLen(), 0;
    BlockStartStep(l, 0);
    forall b: nat | b < l.numBlocks
      ensures EccEmpty(l, result[..], b)
    {
      NothingYet(l, result[..], b);
    }
    for blockNum := 0 to l.numBlocks
      invariant start == l.BlockStart(blockNum)
      invariant blockSize == if blockNum <= l.NumShort() then l.ShortLen() else l.ShortLen() + 1
      invariant Halfway(l, data[..], start0, result[..], blockNum)
    {
      if blockNum == l.NumShort() { blockSize := blockSize + 1; }
      BlockStartStep(l, blockNum);
      OneBlock(l, coeff, data, start, blockSize, result, blockNum, start0);
      start := start + blockSize;
    }
  }

  /** The first n blocks have their bytes, the others none yet, and nothing else has moved. */
  ghost predicate Halfway(l: Layout, data: seq<Byte>, start: seq<Byte>, result: seq<Byte>, n: nat)
    requires l.Valid()
  {
    && n <= l.numBlocks && |start| == |result|
    && EccPlaced(l, data, result, n)
    && (forall b: nat :: n <= b < l.numBlocks ==> EccEmpty(l, result, b))
    && (forall k :: 0 <= k < |result| && !(l.DataLen() <= k < l.Total()) ==> result[k] == start[k])
  }

  lemma BlockFits(l: Layout, b: nat)
    requires l.Valid() && b < l.numBlocks
    ensures l.BlockStart(b) + l.BlockLen(b) <= l.DataLen()
  {
    BlockStartStep(l, b);
    BlockStartMonotone(l, b + 1, l.numBlocks);
  }

  /** rs_getRemainder on one lane. */
  method LaneRemainder(coeff: array<Byte>, block: seq<Byte>, result: array<Byte>, d: nat, n: nat, b: nat)
    requires coeff.Length > 0 && coeff != result
    requires b < n && d + n * coeff.Length <= result.Length
    requires Lane(result[..], d, n, coeff.Length, b) == Nulls(Gf(), coeff.Length)
    modifies result
    ensures Lane(result[..], d, n, coeff.Length, b) == Remainder(Gf(), coeff[..], block)
    ensures OnlyLane(old(result[..]), result[..], d, n, coeff.Length, b)
  {
    LaneFits(result.Length, d, n, coeff.Length, b);
    RsGetRemainder(coeff, block, result, d + b, n);
    forall k: nat | k < result.Length && !OnLane(k, d, n, coeff.Length, b)
      ensures result[..][k] == old(result[..])[k]
    {
      assert !OnSlot(k, d + b, n, coeff.Length);
    }
  }

  method OneBlock(l: Layout, coeff: array<Byte>, data: array<Byte>, start: nat, size: nat,
                  result: array<Byte>, n: nat, ghost start0: seq<Byte>)
    requires l.Valid() && data != result && coeff != result && n < l.numBlocks
    requires l.DataLen() <= data.Length && l.Total() <= result.Length
    requires coeff.Length == l.EccLen() && coeff[..] == LowGenerator(l.EccLen())
    requires start == l.BlockStart(n) && size == l.BlockLen(n)
    requires Halfway(l, data[..], start0, result[..], n)
    modifies result
    ensures Halfway(l, data[..], start0, result[..], n + 1)
  {
    hide Remainder, LowGenerator, OnlyLane, Lane, Layout.Total, Layout.EccLen, Layout.ShortLen, Layout.BlockStart,
      Layout.BlockLen, Layout.DataLen, Layout.NumShort;
    LayoutAddsUp(l);
    BlockFits(l, n);
    ghost var before := result[..];
    assert data[..][start..start + size] == data[start..start + size];
    assert EccEmpty(l, before, n);
    LaneRemainder(coeff, data[start..start + size], result, l.DataLen(), l.numBlocks, n);
    assert EccOf(l, data[..], result[..], n);
    AfterOneBlock(l, data[..], start0, before, result[..], n);
  }

  lemma AfterOneBlock(l: Layout, data: seq<Byte>, start: seq<Byte>, before: seq<Byte>, after: seq<Byte>, n: nat)
    requires l.Valid() && n < l.numBlocks && l.DataLen() <= |data| && l.Total() <= |after|
    requires Halfway(l, data, start, before, n)
    requires OnlyLane(before, after, l.DataLen(), l.numBlocks, l.EccLen(), n)
    requires EccOf(l, data, after, n)
    ensures Halfway(l, data, start, after, n + 1)
  {
    LayoutAddsUp(l);
    forall b: nat | b < l.numBlocks && b != n
      ensures Ecc(l, after, b) == Ecc(l, before, b)
      ensures EccEmpty(l, after, b) == EccEmpty(l, before, b)
      ensures EccOf(l, data, after, b) == EccOf(l, data, before, b)
    {
      OtherLanes(before, after, l.DataLen(), l.numBlocks, l.EccLen(), n, b);
    }
    forall k | 0 <= k < |after| && !(l.DataLen() <= k < l.Total())
      ensures after[k] == start[k]
    {
      OutsideLanes(before, after, l.DataLen(), l.numBlocks, l.EccLen(), n, k);
    }
  }

  lemma NothingYet(l: Layout, result: seq<Byte>, b: nat)
    requires l.Valid() && b < l.numBlocks && l.Total() <= |result|
    requires forall k :: l.DataLen() <= k < |result| ==> result[k] == ZeroByte()
    ensures EccEmpty(l, result, b)
  {
    LayoutAddsUp(l);
    LaneOfZeros(result, l.DataLen(), l.numBlocks, l.EccLen(), b);
  }

  /** performErrorCorrection: the bucket's data codewords become the interleaved message, and its
      length every raw module of the symbol. */
  method PerformErrorCorrection(l: Layout, codewords: BitBucket)
    requires l.Valid()
    requires codewords.data.Length == (l.moduleCount + 7) / 8
    modifies codewords, codewords.data
    ensures codewords.bitOffsetOrWidth == l.moduleCount
    ensures DataPlaced(l, old(codewords.data[..]), codewords.data[..])
    ensures l.DataLen() <= l.Total() <= codewords.data.Length
    ensures EccPlaced(l, old(codewords.data[..]), codewords.data[..], l.numBlocks)
    ensures forall k :: l.Total() <= k < codewords.data.Length ==> codewords.data[k] == ZeroByte()
  {
    hide Generator, EccOf, Copied, Placed;
    LayoutAddsUp(l);
    var capacity := codewords.data.Length;
    var result := new Byte[capacity](i => ZeroByte());
    var coeff := new Byte[l.EccLen()](i => ZeroByte());
    RsInit(l.EccLen(), coeff);
    assert coeff[..] == LowGenerator(l.EccLen());
    ghost var data := codewords.data[..];

    var offset := InterleaveShort(l, codewords.data, result);
    ghost var rows := result[..];
    offset := InterleaveLong(l, codewords.data, result, offset);
    DataInPlace(l, data, rows, result[..]);
    ghost var interleaved := result[..];
    AppendEcc(l, coeff, codewords.data, result);
    KeepsData(l, data, interleaved, result[..]);

    CopyAll(result, codewords.data);
    codewords.bitOffsetOrWidth := l.moduleCount;
  }

  /** memcpy. */
  method CopyAll(from: array<Byte>, to: array<Byte>)
    requires from != to && from.Length == to.Length
    modifies to
    ensures to[..] == from[..]
  {
    for k := 0 to to.Length
      invariant forall j :: 0 <= j < k ==> to[j] == from[j]
    {
      to[k] := from[k];
    }
  }

  lemma DataInPlace(l: Layout, data: seq<Byte>, rows: seq<Byte>, result: seq<Byte>)
    requires l.Valid() && |rows| == |result|
    requires ShortRows(l, data, rows, 0, l.ShortLen()) && LongBlocks(l, data, result, l.numBlocks)
    requires forall k :: 0 <= k < l.numBlocks * l.ShortLen() && k < |rows| ==> result[k] == rows[k]
    ensures DataPlaced(l, data, result)
  {
    forall b: nat, i: nat | b < l.numBlocks && i < l.BlockLen(b)
      ensures Placed(l, data, result, b, i)
    {
      hide Layout.Total, Layout.EccLen, Layout.BlockStart, Layout.DataLen;
      if i < l.ShortLen() {
        assert ShortPlaced(l, data, rows, b, i);
        PosInShort(l, b, i);
        PosIsSlot(l, b, i);
      } else {
        assert LongPlaced(l, data, result, b);
        LongInBlock(l, b);
      }
    }
  }

  lemma KeepsData(l: Layout, data: seq<Byte>, before: seq<Byte>, after: seq<Byte>)
    requires l.Valid() && |before| == |after| && DataPlaced(l, data, before)
    requires forall k :: 0 <= k < l.DataLen() && k < |before| ==> after[k] == before[k]
    ensures DataPlaced(l, data, after)
  {
    forall b: nat, i: nat | b < l.numBlocks && i < l.BlockLen(b)
      ensures Placed(l, data, after, b, i)
    {
      assert Placed(l, data, before, b, i);
      PosInRange(l, b, i);
    }
  }

  // ---------------------------------------------------------------- the reader's side

  /** Collecting the first n blocks back in order; W is a codeword in any form. */
  function Collect<W>(l: Layout, words: seq<W>, n: nat): (data: seq<W>)
    requires l.Valid() && n <= l.numBlocks && l.DataLen() <= |words|
    ensures |data| == l.BlockStart(n)
  {
    BlockStartStep(l, 0);
    if n == 0 then []
    else
      BlockStartStep(l, n - 1);
      Collect(l, words, n - 1)
      + seq(l.BlockLen(n - 1), i requires 0 <= i < l.BlockLen(n - 1) => PosInRange(l, n - 1, i); words[l.Pos(n - 1, i)])
  }

  /** De-interleaving returns the data codewords that went in. */
  lemma {:induction false} CollectInverts<W>(l: Layout, data: seq<W>, result: seq<W>, n: nat)
    requires l.Valid() && n <= l.numBlocks && l.DataLen() <= |data| && l.DataLen() <= |result|
    requires DataPlaced(l, data, result)
    ensures l.BlockStart(n) <= |data|
    ensures Collect(l, result, n) == data[..l.BlockStart(n)]
  {
    BlockStartMonotone(l, n, l.numBlocks);
    if n > 0 {
      var b := n - 1;
      CollectInverts(l, data, result, b);
      BlockStartStep(l, b);
      var c := Collect(l, result, n);
      forall k | 0 <= k < l.BlockStart(n)
        ensures c[k] == data[k]
      {
        if k >= l.BlockStart(b) {
          var i := k - l.BlockStart(b);
          assert Placed(l, data, result, b, i);
        } else {
          assert c[k] == Collect(l, result, b)[k];
        }
      }
    }
  }

  /** Every block a reader takes out of the result is a codeword: data and error correction together
      are a multiple of the generator, so the polynomial vanishes at 2^0 ... 2^(d-1). */
  lemma BlocksAreCodewords(l: Layout, data: seq<Byte>, result: seq<Byte>, b: nat)
    requires l.Valid() && b < l.numBlocks && l.DataLen() <= |data| && l.Total() <= |result|
    requires EccPlaced(l, data, result, l.numBlocks)
    ensures Divides(Gf(), Generator(l.EccLen()), Block(l, data, b) + Ecc(l, result, b))
    ensures forall i :: 0 <= i < l.EccLen() ==>
              Eval(Gf(), Block(l, data, b) + Ecc(l, result, b), Alpha(i)) == Zero()
  {
    var e := l.EccLen();
    GeneratorMonic(e);
    assert EccOf(l, data, result, b);
    assert [One()] + LowGenerator(e) == Generator(e);
    BlockIsCodeword(e, LowGenerator(e), Block(l, data, b));
  }
}
