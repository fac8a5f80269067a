/** drawCodewords of main/ui/qrcode.c: the zigzag scan that places the message in the modules that
    are not function modules (section 7.7 of ISO/IEC 18004:2015). */
module Zigzag {
  import opened Bytes
  import opened Numbers
  import opened BitBuckets

  datatype Cell = Cell(x: nat, y: nat)

  /** Where a grid of the given side keeps a module. */
  function Index(size: nat, c: Cell): nat { c.y * size + c.x }

  predicate Inside(size: nat, c: Cell) { c.x < size && c.y < size }

  /** The sides of QR symbols: 17 + 4 * version, so odd, and wider than the timing column. */
  predicate Side(size: nat) { size % 2 == 1 && size > 8 }

  // ---------------------------------------------------------------- the order of the scan

  /** ((right & 2) == 0) ^ (x < 6) */
  predicate Upwards(right: nat, x: nat) { (right / 2 % 2 == 0) != (x < 6) }

  function Visit(size: nat, right: nat, x: nat, vert: nat): Cell
    requires vert < size
  {
    Cell(x, if Upwards(right, x) then size - 1 - vert else vert)
  }

  /** The first n rows of the column pair whose right column is `right`. */
  function Pair(size: nat, right: nat, n: nat): (cells: seq<Cell>)
    requires 1 <= right && n <= size
    ensures |cells| == 2 * n
  {
    if n == 0 then []
    else Pair(size, right, n - 1) + [Visit(size, right, right, n - 1), Visit(size, right, right - 1, n - 1)]
  }

  /** The right column of pair k: counted down from the edge, stepping over the timing column 6. */
  function RightOf(size: nat, k: nat): nat
    requires Side(size) && k < size / 2
  {
    var r := size - 1 - 2 * k;
    if r <= 6 then r - 1 else r
  }

  /** The first k column pairs. */
  function Scan(size: nat, k: nat): (cells: seq<Cell>)
    requires Side(size) && k <= size / 2
  {
    if k == 0 then [] else Scan(size, k - 1) + Pair(size, RightOf(size, k - 1), size)
  }

  /** The whole scan. */
  function Whole(size: nat): seq<Cell>
    requires Side(size)
  {
    Scan(size, size / 2)
  }

  ghost predicate Distinct<T>(s: seq<T>) {
    forall i, j :: 0 <= i < j < |s| ==> s[i] != s[j]
  }

  lemma {:induction false} PairCells(size: nat, right: nat, n: nat, c: Cell)
    requires 1 <= right && n <= size
    ensures c in Pair(size, right, n) <==>
            (c.x == right || c.x == right - 1) && c.y < size
            && (if Upwards(right, c.x) then size - 1 - c.y else c.y) < n
  {
    if n > 0 {
      PairCells(size, right, n - 1, c);
      var a, b := Visit(size, right, right, n - 1), Visit(size, right, right - 1, n - 1);
      assert c in Pair(size, right, n) <==> c in Pair(size, right, n - 1) || c == a || c == b;
    }
  }

  lemma {:induction false} PairDistinct(size: nat, right: nat, n: nat)
    requires 1 <= right && n <= size
    ensures Distinct(Pair(size, right, n))
  {
    if n > 0 {
      PairDistinct(size, right, n - 1);
      PairCells(size, right, n - 1, Visit(size, right, right, n - 1));
      PairCells(size, right, n - 1, Visit(size, right, right - 1, n - 1));
    }
  }

  /** The pair that covers column x. */
  function PairOf(size: nat, x: nat): int
    requires Side(size) && x < size && x != 6
  {
    if x > 6 then (size - 1 - x) / 2 else (size - 2 - x) / 2
  }

  lemma PairOfIsRight(size: nat, x: nat, k: nat)
    requires Side(size) && x < size && x != 6 && k < size / 2
    ensures (x == RightOf(size, k) || x == RightOf(size, k) - 1) <==> k == PairOf(size, x)
    ensures 0 <= PairOf(size, x) < size / 2
  {}

  lemma RightOfAvoids6(size: nat, k: nat)
    requires Side(size) && k < size / 2
    ensures 1 <= RightOf(size, k) < size && RightOf(size, k) != 6 && RightOf(size, k) - 1 != 6
  {}

  lemma InAppend<T>(c: T, a: seq<T>, b: seq<T>)
    ensures c in a + b <==> c in a || c in b
  {}

  /** A whole pair is its two columns. */
  lemma PairIsColumns(size: nat, right: nat, c: Cell)
    requires 1 <= right
    ensures c in Pair(size, right, size) <==> (c.x == right || c.x == right - 1) && c.y < size
  {
    hide Pair;
    PairCells(size, right, size, c);
  }

  lemma {:induction false} ScanCells(size: nat, k: nat, c: Cell)
    requires Side(size) && k <= size / 2
    ensures c in Scan(size, k) <==> Inside(size, c) && c.x != 6 && PairOf(size, c.x) < k
  {
    hide PairOf, RightOf, Pair;
    if c.x < size && c.x != 6 {
      PairOfIsRight(size, c.x, if k > 0 then k - 1 else 0);
    }
    if k > 0 {
      ScanCells(size, k - 1, c);
      RightOfAvoids6(size, k - 1);
      PairIsColumns(size, RightOf(size, k - 1), c);
      InAppend(c, Scan(size, k - 1), Pair(size, RightOf(size, k - 1), size));
    }
  }

  lemma {:induction false} ScanDistinct(size: nat, k: nat)
    requires Side(size) && k <= size / 2
    ensures Distinct(Scan(size, k))
  {
    if k > 0 {
      ScanDistinct(size, k - 1);
      var right := RightOf(size, k - 1);
      var before, pair := Scan(size, k - 1), Pair(size, right, size);
      PairDistinct(size, right, size);
      forall i, j | 0 <= i < |before| && 0 <= j < |pair|
        ensures before[i] != pair[j]
      {
        ScanCells(size, k - 1, before[i]);
        PairCells(size, right, size, before[i]);
        PairOfIsRight(size, before[i].x, k - 1);
        assert before[i] in before && pair[j] in pair;
      }
    }
  }

  /** The scan visits every module outside the timing column exactly once, and nothing else. */
  lemma ScanVisitsOnce(size: nat)
    requires Side(size)
    ensures Distinct(Whole(size))
    ensures forall c: Cell :: c in Whole(size) <==> Inside(size, c) && c.x != 6
  {
    ScanDistinct(size, size / 2);
    forall c: Cell
      ensures c in Whole(size) <==> Inside(size, c) && c.x != 6
    {
      ScanCells(size, size / 2, c);
      if c.x < size && c.x != 6 {
        PairOfIsRight(size, c.x, 0);
      }
    }
  }

  // ---------------------------------------------------------------- where the scan is

  lemma {:induction false} PairAt(size: nat, right: nat, n: nat, r: nat)
    requires 1 <= right && n <= size && r < 2 * n
    ensures Pair(size, right, n)[r] == Visit(size, right, right - r % 2, r / 2)
  {
    if r < 2 * (n - 1) {
      PairAt(size, right, n - 1, r);
    }
  }

  /** The sides of real symbols leave remainder 1 by 4, so the pairs go up and down in turn, the first one up. */
  lemma PairsAlternate(size: nat, k: nat, j: nat)
    requires Side(size) && size % 4 == 1 && k < size / 2 && j < 2 && j <= RightOf(size, k)
    ensures Upwards(RightOf(size, k), RightOf(size, k) - j) <==> k % 2 == 0
  {
    var m := size / 4;
    assert size == 4 * m + 1;
    if size - 1 - 2 * k > 6 {
      assert RightOf(size, k) / 2 == 2 * m - k;
    } else {
      assert RightOf(size, k) == 2 * (2 * m - k - 1) + 1;
    }
  }

  /** Where pair k starts in the scan. */
  function PairStart(size: nat, k: nat): nat { k * (2 * size) }

  lemma NextStart(size: nat, k: nat)
    ensures PairStart(size, 0) == 0 && PairStart(size, k + 1) == PairStart(size, k) + 2 * size
  {
    assert (k + 1) * (2 * size) == k * (2 * size) + 2 * size;
  }

  lemma {:induction false} ScanLength(size: nat, k: nat)
    requires Side(size) && k <= size / 2
    ensures |Scan(size, k)| == PairStart(size, k)
  {
    hide PairStart;
    if k > 0 {
      NextStart(size, k - 1);
      ScanLength(size, k - 1);
    } else {
      NextStart(size, 0);
    }
  }

  lemma {:induction false} ScanBefore(size: nat, k: nat, m: nat)
    requires Side(size) && k <= m <= size / 2
    ensures Scan(size, k) <= Scan(size, m)
    decreases m
  {
    if k < m {
      ScanBefore(size, k, m - 1);
    }
  }

  /** Where the scan is: row v of pair k first in the right column, then in the left one, from the bottom up in every
      other pair, beginning with the first; the pairs counted from the right edge, the timing column left out. */
  lemma ScanAt(size: nat, k: nat, v: nat, j: nat)
    requires Side(size) && size % 4 == 1 && k < size / 2 && v < size && j < 2
    ensures PairStart(size, k) + 2 * v + j < |Whole(size)|
    ensures Whole(size)[PairStart(size, k) + 2 * v + j] ==
            Cell((if size - 1 - 2 * k > 6 then size - 1 - 2 * k else size - 2 - 2 * k) - j,
                 if k % 2 == 0 then size - 1 - v else v)
  {
    hide Pair, Upwards, PairStart;
    RightOfAvoids6(size, k);
    ScanLength(size, k);
    ScanBefore(size, k + 1, size / 2);
    PairAt(size, RightOf(size, k), size, 2 * v + j);
    PairsAlternate(size, k, j);
  }

  /** Two places of the scan, one after the other. */
  predicate Follows(a: Cell, b: Cell) {
    a != b && a.y <= b.y + 1 && b.y <= a.y + 1 && a.x <= b.x + 2 && b.x <= a.x + 1
  }

  /** From one cell to the next, in a pair or from pair to pair; there the scan goes on in the same row, also across
      the timing column. */
  lemma ScanStep(size: nat, k: nat, v: nat, j: nat)
    requires Side(size) && size % 4 == 1 && k < size / 2 && v < size && j < 2
    requires v + 1 == size && j == 1 ==> k + 1 < size / 2
    ensures var i := PairStart(size, k) + 2 * v + j;
            && i + 1 < |Whole(size)| && Follows(Whole(size)[i], Whole(size)[i + 1])
            && (v + 1 == size && j == 1 ==> Whole(size)[i].y == Whole(size)[i + 1].y)
  {
    hide Whole, PairStart;
    ScanAt(size, k, v, j);
    if j == 0 {
      ScanAt(size, k, v, 1);
    } else if v + 1 < size {
      ScanAt(size, k, v + 1, 0);
    } else {
      ScanAt(size, k + 1, 0, 0);
      NextStart(size, k);
    }
  }

  lemma {:induction false} PlaceOf(size: nat, n: nat, i: nat) returns (k: nat, v: nat, j: nat)
    requires i < PairStart(size, n)
    ensures k < n && v < size && j < 2 && i == PairStart(size, k) + 2 * v + j
  {
    hide PairStart;
    NextStart(size, if n > 0 then n - 1 else 0);
    if i < PairStart(size, n - 1) {
      k, v, j := PlaceOf(size, n - 1, i);
    } else {
      var r := i - PairStart(size, n - 1);
      k, v, j := n - 1, r / 2, r % 2;
    }
  }

  /** The scan starts in the lower right corner and never jumps. */
  lemma ScanNeverJumps(size: nat, i: nat)
    requires Side(size) && size % 4 == 1 && i + 1 < |Whole(size)|
    ensures Whole(size)[0] == Cell(size - 1, size - 1) && Whole(size)[1] == Cell(size - 2, size - 1)
    ensures Follows(Whole(size)[i], Whole(size)[i + 1])
  {
    WholeLength(size);
    hide Whole, Follows, PairStart;
    NextStart(size, size / 2 - 1);
    ScanAt(size, 0, 0, 0);
    ScanAt(size, 0, 0, 1);
    NextStart(size, 0);
    var k, v, j := PlaceOf(size, size / 2, i);
    LastPlace(size, k, v, j, i);
    ScanStep(size, k, v, j);
  }

  lemma WholeLength(size: nat)
    requires Side(size)
    ensures |Whole(size)| == PairStart(size, size / 2)
  {
    hide PairStart;
    ScanLength(size, size / 2);
  }

  /** The last cell of the last pair is the last of the scan. */
  lemma LastPlace(size: nat, k: nat, v: nat, j: nat, i: nat)
    requires Side(size) && k < size / 2 && i == PairStart(size, k) + 2 * v + j && i + 1 < PairStart(size, size / 2)
    ensures v + 1 == size && j == 1 ==> k + 1 < size / 2
  {
    hide PairStart;
    NextStart(size, k);
  }

  // ---------------------------------------------------------------- grids as bit strings

  /** The module of a cell; false outside the grid. */
  function Get(size: nat, grid: seq<bool>, c: Cell): bool {
    if Index(size, c) < |grid| then grid[Index(size, c)] else false
  }

  function Set(size: nat, grid: seq<bool>, c: Cell, b: bool): (g: seq<bool>)
    ensures |g| == |grid|
  {
    if Index(size, c) < |grid| then grid[Index(size, c) := b] else grid
  }

  lemma IndexInside(size: nat, c: Cell)
    requires Inside(size, c)
    ensures Index(size, c) < size * size
  {
    InGrid(c.x, c.y, size);
  }

  lemma IndexInjective(size: nat, c: Cell, d: Cell)
    requires Inside(size, c) && Inside(size, d) && Index(size, c) == Index(size, d)
    ensures c == d
  {
    SameQuotient(size, c.y, c.x, d.y, d.x);
  }

  lemma GetSet(size: nat, grid: seq<bool>, c: Cell, b: bool, d: Cell)
    requires size * size <= |grid| && Inside(size, c) && Inside(size, d)
    ensures Get(size, Set(size, grid, c, b), d) == if c == d then b else Get(size, grid, d)
  {
    IndexInside(size, c);
    if Index(size, c) == Index(size, d) {
      IndexInjective(size, c, d);
    }
  }

  // ---------------------------------------------------------------- free modules

  /** The cells, in order, whose module is not a function module. */
  function Free(size: nat, cells: seq<Cell>, isFunction: seq<bool>): (free: seq<Cell>) {
    if cells == [] then []
    else
      var n := |cells| - 1;
      Free(size, cells[..n], isFunction) + (if Get(size, isFunction, cells[n]) then [] else [cells[n]])
  }

  lemma {:induction false} FreeCells(size: nat, cells: seq<Cell>, isFunction: seq<bool>)
    ensures forall c: Cell :: c in Free(size, cells, isFunction) <==> c in cells && !Get(size, isFunction, c)
    ensures Distinct(cells) ==> Distinct(Free(size, cells, isFunction))
  {
    if cells != [] {
      var n := |cells| - 1;
      FreeCells(size, cells[..n], isFunction);
      assert cells == cells[..n] + [cells[n]];
    }
  }

  // ---------------------------------------------------------------- drawing and reading back

  /** The grid with bit t drawn into cell t, for as many as there are of both. */
  function Drawn(size: nat, grid: seq<bool>, cells: seq<Cell>, bits: seq<bool>): (g: seq<bool>)
    ensures |g| == |grid|
  {
    if cells == [] then grid
    else
      var n := |cells| - 1;
      var g := Drawn(size, grid, cells[..n], bits);
      if n < |bits| then Set(size, g, cells[n], bits[n]) else g
  }

  /** The modules of the cells, in order. */
  function ReadBack(size: nat, grid: seq<bool>, cells: seq<Cell>): (bits: seq<bool>)
    ensures |bits| == |cells|
  {
    seq(|cells|, t requires 0 <= t < |cells| => Get(size, grid, cells[t]))
  }

  lemma {:induction false} DrawnElsewhere(size: nat, grid: seq<bool>, cells: seq<Cell>, bits: seq<bool>, d: Cell)
    requires size * size <= |grid| && Inside(size, d)
    requires forall c :: c in cells ==> Inside(size, c)
    requires d !in cells
    ensures Get(size, Drawn(size, grid, cells, bits), d) == Get(size, grid, d)
  {
    if cells != [] {
      var n := |cells| - 1;
      assert cells[n] in cells;
      DrawnElsewhere(size, grid, cells[..n], bits, d);
      if n < |bits| {
        GetSet(size, Drawn(size, grid, cells[..n], bits), cells[n], bits[n], d);
      }
    }
  }

  /** Reading the cells in scan order returns the bits that were drawn. */
  lemma {:induction false} ReadsWhatWasDrawn(size: nat, grid: seq<bool>, cells: seq<Cell>, bits: seq<bool>, t: nat)
    requires size * size <= |grid|
    requires forall c :: c in cells ==> Inside(size, c)
    requires Distinct(cells) && t < |cells| && t < |bits|
    ensures ReadBack(size, Drawn(size, grid, cells, bits), cells)[t] == bits[t]
  {
    var n := |cells| - 1;
    var g := Drawn(size, grid, cells[..n], bits);
    if t < n {
      ReadsWhatWasDrawn(size, grid, cells[..n], bits, t);
    }
    if n < |bits| {
      GetSet(size, g, cells[n], bits[n], cells[t]);
    }
  }

  /** What the scan does cell by cell: the grid, and how many bits it has used. */
  function Sweep(size: nat, start: seq<bool>, cells: seq<Cell>, isFunction: seq<bool>, bits: seq<bool>)
    : (r: (seq<bool>, nat))
    ensures |r.0| == |start| && r.1 <= |bits|
  {
    if cells == [] then (start, 0)
    else
      var n := |cells| - 1;
      var (grid, i) := Sweep(size, start, cells[..n], isFunction, bits);
      if !Get(size, isFunction, cells[n]) && i < |bits| then (Set(size, grid, cells[n], bits[i]), i + 1)
      else (grid, i)
  }

  /** Cell by cell, the scan draws the bits into the free cells in order. */
  lemma {:induction false} SweepDraws(size: nat, start: seq<bool>, cells: seq<Cell>, isFunction: seq<bool>,
                                      bits: seq<bool>)
    ensures var free := Free(size, cells, isFunction);
            Sweep(size, start, cells, isFunction, bits)
            == (Drawn(size, start, free, bits), if |free| < |bits| then |free| else |bits|)
  {
    hide Get, Set;
    if cells != [] {
      var n := |cells| - 1;
      SweepDraws(size, start, cells[..n], isFunction, bits);
      var before := Free(size, cells[..n], isFunction);
      if Get(size, isFunction, cells[n]) {
        assert before + [] == before;
      } else {
        DrawnSnoc(size, start, before, cells[n], bits);
      }
    }
  }

  lemma SweepNothing(size: nat, start: seq<bool>, isFunction: seq<bool>, bits: seq<bool>)
    requires Side(size)
    ensures Sweep(size, start, Scan(size, 0), isFunction, bits) == (start, 0)
  {}

  lemma DrawnSnoc(size: nat, grid: seq<bool>, cells: seq<Cell>, c: Cell, bits: seq<bool>)
    ensures Drawn(size, grid, cells + [c], bits) ==
            (var g := Drawn(size, grid, cells, bits);
             if |cells| < |bits| then Set(size, g, c, bits[|cells|]) else g)
  {
    hide Get, Set;
    assert (cells + [c])[..|cells|] == cells;
  }

  // ---------------------------------------------------------------- the method

  /** The body of the scan at one cell. */
  method DrawCell(modules: BitBucket, isFunction: BitBucket, codewords: BitBucket, c: Cell, from: nat,
                  ghost start: seq<bool>, ghost cells: seq<Cell>, ghost bits: seq<bool>) returns (i: nat)
    requires modules.data != isFunction.data && modules.data != codewords.data
    requires modules.IsGrid(modules.bitOffsetOrWidth) && isFunction.IsGrid(modules.bitOffsetOrWidth)
    requires codewords.bitOffsetOrWidth <= 8 * codewords.data.Length
    requires bits == codewords.Bits()[..codewords.bitOffsetOrWidth]
    requires Inside(modules.bitOffsetOrWidth, c)
    requires (modules.Bits(), from) == Sweep(modules.bitOffsetOrWidth, start, cells, isFunction.Bits(), bits)
    modifies modules.data
    ensures (modules.Bits(), i) == Sweep(modules.bitOffsetOrWidth, start, cells + [c], isFunction.Bits(), bits)
  {
    IndexInside(modules.bitOffsetOrWidth, c);
    assert (cells + [c])[..|cells|] == cells;
    i := from;
    var function_ := isFunction.GetBit(c.x, c.y);
    if !function_ && i < codewords.bitOffsetOrWidth {
      var bit := codewords.Read(i);
      modules.SetBit(c.x, c.y, bit);
      i := i + 1;
    }
  }

  /** The two columns of one pair. */
  method DrawPair(modules: BitBucket, isFunction: BitBucket, codewords: BitBucket, right: nat, from: nat,
                  ghost start: seq<bool>, ghost cells: seq<Cell>, ghost bits: seq<bool>) returns (i: nat)
    requires modules.data != isFunction.data && modules.data != codewords.data
    requires modules.IsGrid(modules.bitOffsetOrWidth) && isFunction.IsGrid(modules.bitOffsetOrWidth)
    requires codewords.bitOffsetOrWidth <= 8 * codewords.data.Length
    requires bits == codewords.Bits()[..codewords.bitOffsetOrWidth]
    requires 1 <= right < modules.bitOffsetOrWidth
    requires (modules.Bits(), from) == Sweep(modules.bitOffsetOrWidth, start, cells, isFunction.Bits(), bits)
    modifies modules.data
    ensures (modules.Bits(), i) == Sweep(modules.bitOffsetOrWidth, start,
                 cells + Pair(modules.bitOffsetOrWidth, right, modules.bitOffsetOrWidth), isFunction.Bits(), bits)
  {
    hide Sweep;
    var size := modules.bitOffsetOrWidth;
    i := from;
    assert cells + Pair(size, right, 0) == cells;
    for vert := 0 to size
      invariant bits == codewords.Bits()[..codewords.bitOffsetOrWidth]
      invariant (modules.Bits(), i) ==
                Sweep(size, start, cells + Pair(size, right, vert), isFunction.Bits(), bits)
    {
      var a, b := Visit(size, right, right, vert), Visit(size, right, right - 1, vert);
      ghost var sofar := cells + Pair(size, right, vert);
      i := DrawCell(modules, isFunction, codewords, a, i, start, sofar, bits);
      i := DrawCell(modules, isFunction, codewords, b, i, start, sofar + [a], bits);
      assert sofar + [a] + [b] == cells + Pair(size, right, vert + 1);
    }
  }

  /** drawCodewords. */
  method DrawCodewords(modules: BitBucket, isFunction: BitBucket, codewords: BitBucket)
    requires modules.data != isFunction.data && modules.data != codewords.data
    requires Side(modules.bitOffsetOrWidth)
    requires modules.IsGrid(modules.bitOffsetOrWidth) && isFunction.IsGrid(modules.bitOffsetOrWidth)
    requires codewords.bitOffsetOrWidth <= 8 * codewords.data.Length
    modifies modules.data
    ensures modules.Bits() == Drawn(modules.bitOffsetOrWidth, old(modules.Bits()),
                                    Free(modules.bitOffsetOrWidth, Whole(modules.bitOffsetOrWidth), isFunction.Bits()),
                                    codewords.Bits()[..codewords.bitOffsetOrWidth])
  {
    hide Drawn, Free, Sweep, Pair, BitsOf;
    var size := modules.bitOffsetOrWidth;
    ghost var start, bits := modules.Bits(), codewords.Bits()[..codewords.bitOffsetOrWidth];
    var i: nat, right: int := 0, size - 1;
    ghost var k := 0;
    SweepNothing(size, start, isFunction.Bits(), bits);
    while right >= 1
      invariant 0 <= k <= size / 2
      invariant var r: int := size - 1 - 2 * k; right == if r < 6 then r - 1 else r
      invariant bits == codewords.Bits()[..codewords.bitOffsetOrWidth]
      invariant (modules.Bits(), i) == Sweep(size, start, Scan(size, k), isFunction.Bits(), bits)
      decreases right
    {
      if right == 6 { right := 5; }
      i := DrawPair(modules, isFunction, codewords, right, i, start, Scan(size, k), bits);
      right := right - 2;
      k := k + 1;
    }
    SweepDraws(size, start, Whole(size), isFunction.Bits(), bits);
  }

  /** For a symbol whose timing column is all function modules, the message lies in the free modules,
      every one of them visited exactly once; function modules keep their color; and reading in scan
      order returns the message, as far as there are free modules for it. */
  lemma MessageReadsBack(size: nat, start: seq<bool>, isFunction: seq<bool>, bits: seq<bool>)
    requires Side(size) && size * size <= |start|
    requires forall c: Cell :: Inside(size, c) && c.x == 6 ==> Get(size, isFunction, c)
    ensures var free := Free(size, Whole(size), isFunction);
            var drawn := Drawn(size, start, free, bits);
            && Distinct(free)
            && (forall c: Cell :: c in free <==> Inside(size, c) && !Get(size, isFunction, c))
            && (forall c: Cell :: Inside(size, c) && Get(size, isFunction, c) ==>
                  Get(size, drawn, c) == Get(size, start, c))
            && (|bits| <= |free| ==> ReadBack(size, drawn, free)[..|bits|] == bits)
  {
    ScanVisitsOnce(size);
    FreeCells(size, Whole(size), isFunction);
    var free := Free(size, Whole(size), isFunction);
    var drawn := Drawn(size, start, free, bits);
    forall c: Cell | Inside(size, c) && Get(size, isFunction, c)
      ensures Get(size, drawn, c) == Get(size, start, c)
    {
      DrawnElsewhere(size, start, free, bits, c);
    }
    if |bits| <= |free| {
      forall t | 0 <= t < |bits|
        ensures ReadBack(size, drawn, free)[t] == bits[t]
      {
        ReadsWhatWasDrawn(size, start, free, bits, t);
      }
    }
  }
}
