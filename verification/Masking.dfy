/** The eight mask patterns of main/ui/qrcode.c. */
module Masking {
  import opened Numbers
  import opened Bytes
  import opened BitBuckets
  import opened Zigzag
  import F = BinaryField

  // ---------------------------------------------------------------- the masks

  /** Whether mask pattern `mask` inverts the module at (x, y). */
  predicate Inverts(mask: nat, x: nat, y: nat) {
    match mask
    case 0 => (x + y) % 2 == 0
    case 1 => y % 2 == 0
    case 2 => x % 3 == 0
    case 3 => (x + y) % 3 == 0
    case 4 => (x / 3 + y / 2) % 2 == 0
    case 5 => x * y % 2 + x * y % 3 == 0
    case 6 => (x * y % 2 + x * y % 3) % 2 == 0
    case 7 => ((x + y) % 2 + x * y % 3) % 2 == 0
    case _ => false
  }

  /** The cell a grid keeps at index k. */
  function CellAt(size: nat, k: nat): Cell
    requires size > 0
  {
    Cell(Rem(k, size), Quot(k, size))
  }

  lemma CellAtIndex(size: nat, c: Cell)
    requires Inside(size, c)
    ensures CellAt(size, Index(size, c)) == c
  {
    QuotRemUnique(size, c.y, c.x);
  }

  /** The grid with the mask applied to the modules that are not function modules. */
  function Masked(size: nat, grid: seq<bool>, isFunction: seq<bool>, mask: nat): (g: seq<bool>)
    requires size > 0
    ensures |g| == |grid|
  {
    seq(|grid|, k requires 0 <= k < |grid| =>
      var c := CellAt(size, k);
      grid[k] != (k < size * size && k < |isFunction| && !isFunction[k] && Inverts(mask, c.x, c.y)))
  }

  /** Applying a mask twice changes nothing. */
  lemma MaskTwice(size: nat, grid: seq<bool>, isFunction: seq<bool>, mask: nat)
    requires size > 0
    ensures Masked(size, Masked(size, grid, isFunction, mask), isFunction, mask) == grid
  {}

  lemma MaskedAt(size: nat, grid: seq<bool>, isFunction: seq<bool>, mask: nat, c: Cell)
    requires Inside(size, c) && size * size <= |grid| && size * size <= |isFunction|
    ensures Get(size, Masked(size, grid, isFunction, mask), c) ==
            (Get(size, grid, c) != (!Get(size, isFunction, c) && Inverts(mask, c.x, c.y)))
  {
    IndexInside(size, c);
    CellAtIndex(size, c);
  }

  /** The first k modules masked. */
  function MaskedTo(size: nat, grid: seq<bool>, isFunction: seq<bool>, mask: nat, k: nat): (g: seq<bool>)
    requires size > 0 && k <= |grid|
    ensures |g| == |grid|
  {
    Masked(size, grid, isFunction, mask)[..k] + grid[k..]
  }

  /** The inner loop: one row. */
  method MaskRow(modules: BitBucket, isFunction: BitBucket, mask: nat, y: nat, ghost before: seq<bool>)
    requires modules.data != isFunction.data && y < modules.bitOffsetOrWidth
    requires modules.IsGrid(modules.bitOffsetOrWidth) && isFunction.IsGrid(modules.bitOffsetOrWidth)
    requires |before| == |modules.Bits()| && (y + 1) * modules.bitOffsetOrWidth <= |before|
    requires 0 <= y * modules.bitOffsetOrWidth <= (y + 1) * modules.bitOffsetOrWidth
    requires modules.Bits() == MaskedTo(modules.bitOffsetOrWidth, before, isFunction.Bits(), mask, y * modules.bitOffsetOrWidth)
    modifies modules.data
    ensures modules.Bits() == MaskedTo(modules.bitOffsetOrWidth, before, isFunction.Bits(), mask, (y + 1) * modules.bitOffsetOrWidth)
  {
    hide MaskedTo, BitsOf;
    var size := modules.bitOffsetOrWidth;
    assert (y + 1) * size == y * size + size;
    for x := 0 to size
      invariant modules.Bits() == MaskedTo(size, before, isFunction.Bits(), mask, y * size + x)
    {
      MaskCell(modules, isFunction, mask, x, y, before);
    }
  }

  /** applyMask. */
  method ApplyMask(modules: BitBucket, isFunction: BitBucket, mask: nat)
    requires modules.data != isFunction.data && modules.bitOffsetOrWidth > 0
    requires modules.IsGrid(modules.bitOffsetOrWidth) && isFunction.IsGrid(modules.bitOffsetOrWidth)
    modifies modules.data
    ensures modules.Bits() == Masked(modules.bitOffsetOrWidth, old(modules.Bits()), isFunction.Bits(), mask)
  {
    hide MaskedTo, Masked, BitsOf;
    var size := modules.bitOffsetOrWidth;
    ghost var before := modules.Bits();
    NothingMasked(size, before, isFunction.Bits(), mask);
    for y := 0 to size
      invariant 0 <= y * size <= size * size
      invariant modules.Bits() == MaskedTo(size, before, isFunction.Bits(), mask, y * size)
    {
      RowInside(y, size);
      MaskRow(modules, isFunction, mask, y, before);
    }
    AllMasked(size, before, isFunction.Bits(), mask);
  }

  lemma NothingMasked(size: nat, grid: seq<bool>, isFunction: seq<bool>, mask: nat)
    requires size > 0
    ensures 0 * size == 0 && MaskedTo(size, grid, isFunction, mask, 0) == grid
  {}

  /** Behind the last row there is nothing to mask. */
  lemma AllMasked(size: nat, grid: seq<bool>, isFunction: seq<bool>, mask: nat)
    requires size > 0 && size * size <= |grid|
    ensures MaskedTo(size, grid, isFunction, mask, size * size) == Masked(size, grid, isFunction, mask)
  {}

  lemma RowInside(y: nat, size: nat)
    requires y < size
    ensures 0 <= y * size <= (y + 1) * size <= size * size
    ensures (y + 1) * size == y * size + size
  {
    assert (size - y) * size == size * size - y * size;
    MulGrows(size - y, size);
  }

  method MaskCell(modules: BitBucket, isFunction: BitBucket, mask: nat, x: nat, y: nat, ghost before: seq<bool>)
    requires modules.data != isFunction.data
    requires x < modules.bitOffsetOrWidth && y < modules.bitOffsetOrWidth
    requires modules.IsGrid(modules.bitOffsetOrWidth) && isFunction.IsGrid(modules.bitOffsetOrWidth)
    requires |before| == |modules.Bits()| && 0 <= y * modules.bitOffsetOrWidth + x < |before|
    requires modules.Bits() == MaskedTo(modules.bitOffsetOrWidth, before, isFunction.Bits(), mask, y * modules.bitOffsetOrWidth + x)
    modifies modules.data
    ensures modules.Bits() == MaskedTo(modules.bitOffsetOrWidth, before, isFunction.Bits(), mask, y * modules.bitOffsetOrWidth + x + 1)
  {
    hide Inverts, BitsOf;
    ghost var size := modules.bitOffsetOrWidth;
    ghost var k := y * size + x;
    CellAtIndex(size, Cell(x, y));
    InGrid(x, y, size);
    OneMore(Masked(size, before, isFunction.Bits(), mask), before, k);
    var function_ := isFunction.GetBit(x, y);
    if !function_ {
      modules.InvertBit(x, y, Inverts(mask, x, y));
    }
  }

  lemma OneMore<T>(after: seq<T>, before: seq<T>, k: nat)
    requires k < |after| == |before|
    ensures (after[..k] + before[k..])[k] == before[k]
    ensures (after[..k] + before[k..])[k := after[k]] == after[..k + 1] + before[k + 1..]
    ensures after[k] == before[k] ==> after[..k] + before[k..] == after[..k + 1] + before[k + 1..]
  {}
}
