/** The function patterns of main/ui/qrcode.c: timing, finder, alignment and version patterns, cell by cell
    (section 6.3 of ISO/IEC 18004:2015). */
module Patterns {
  import opened Numbers
  import opened Bytes
  import opened BitBuckets
  import opened Zigzag
  import opened FormatInfo
  import F = BinaryField

  // ---------------------------------------------------------------- what the patterns look like

  datatype Pattern =
    | Timing
    | Finder(x: nat, y: nat)       // with its separator, around a center
    | Alignment(x: nat, y: nat)
    | VersionInfo(version: nat)

  function Abs(a: int): nat { if a < 0 then -a else a }

  /** The Chebyshev distance of a cell from a center. */
  function Distance(c: Cell, x: nat, y: nat): nat {
    var dx, dy := Abs(c.x - x), Abs(c.y - y);
    if dx < dy then dy else dx
  }

  /** Which of the eighteen version bits a cell shows; 18 if none. */
  function VersionBit(size: nat, c: Cell): nat
    requires size >= 21
  {
    if size - 11 <= c.x < size - 8 && c.y < 6 then 3 * c.y + (c.x - (size - 11))
    else if size - 11 <= c.y < size - 8 && c.x < 6 then 3 * c.x + (c.y - (size - 11))
    else 18
  }

  predicate Covers(size: nat, p: Pattern, c: Cell)
    requires size >= 21
  {
    match p
    case Timing => c.x == 6 || c.y == 6
    case Finder(x, y) => Distance(c, x, y) <= 4
    case Alignment(x, y) => Distance(c, x, y) <= 2
    case VersionInfo(_) => VersionBit(size, c) < 18
  }

  predicate Dark(size: nat, p: Pattern, c: Cell)
    requires size >= 21
  {
    match p
    case Timing => (if c.x == 6 then c.y else c.x) % 2 == 0
    case Finder(x, y) => Distance(c, x, y) != 2 && Distance(c, x, y) != 4
    case Alignment(x, y) => Distance(c, x, y) != 1
    case VersionInfo(v) => VersionBit(size, c) < 18 && VersionWord(v)[VersionBit(size, c)]
  }

  // ---------------------------------------------------------------- the version word

  /** The low twelve bits of the generator 0x1F25. */
  function VersionTaps(): (taps: F.Poly)
    ensures |taps| == 12
  {
    LowBits(0xF25, 12)
  }

  /** version << 12 | rem, lowest bit first. */
  function VersionWord(version: nat): (word: F.Poly)
    ensures |word| == 18
  {
    Shifted(LowBits(version, 12), 12, VersionTaps()) + LowBits(version, 6)
  }

  /** The check bits of the version are the remainder of x^12 * version by the generator (section 7.10 of
      ISO/IEC 18004:2015). */
  lemma VersionBitsAreRemainder(version: nat)
    ensures F.IsRemainder(F.Product(F.Zeros(12) + [true], LowBits(version, 12)), VersionWord(version)[..12], VersionTaps())
  {
    hide LowBits, F.Product, Shifted, F.IsRemainder;
    var v := LowBits(version, 12);
    ShiftedIsRemainder(v, 12, VersionTaps());
    assert VersionWord(version)[..12] == Shifted(v, 12, VersionTaps());
  }

  // ---------------------------------------------------------------- drawing a pattern

  /** The cells of `done` show the pattern, the others what they showed before. */
  ghost predicate ShownOn(size: nat, p: Pattern, before: seq<bool>, after: seq<bool>, done: set<Cell>)
    requires size >= 21
  {
    && |after| == |before|
    && forall c: Cell :: Inside(size, c) ==>
         Get(size, after, c) == if c in done then Dark(size, p, c) else Get(size, before, c)
  }

  ghost predicate MarkedOn(size: nat, before: seq<bool>, after: seq<bool>, done: set<Cell>) {
    && |after| == |before|
    && forall c: Cell :: Inside(size, c) ==> Get(size, after, c) == (c in done || Get(size, before, c))
  }

  /** A pattern drawn whole. */
  ghost predicate Shown(size: nat, p: Pattern, before: seq<bool>, after: seq<bool>)
    requires size >= 21
  {
    && |after| == |before|
    && forall c: Cell :: Inside(size, c) ==>
         Get(size, after, c) == if Covers(size, p, c) then Dark(size, p, c) else Get(size, before, c)
  }

  ghost predicate Marked(size: nat, p: Pattern, before: seq<bool>, after: seq<bool>)
    requires size >= 21
  {
    && |after| == |before|
    && forall c: Cell :: Inside(size, c) ==> Get(size, after, c) == (Covers(size, p, c) || Get(size, before, c))
  }

  /** Just the covered cells of the first k turns of the pattern's loop; `Turn` says which turn draws a cell. */
  ghost predicate DoneTo(size: nat, p: Pattern, done: set<Cell>, k: nat)
    requires size >= 21
  {
    forall c: Cell :: c in done <==> Inside(size, c) && Covers(size, p, c) && Turn(size, p, c) < k
  }

  function Turn(size: nat, p: Pattern, c: Cell): int
    requires size >= 21
  {
    match p
    case Timing => if c.x == 6 then c.y else c.x
    case Finder(x, y) => (c.y - y + 4) * 9 + (c.x - x + 4)
    case Alignment(x, y) => (c.y - y + 2) * 5 + (c.x - x + 2)
    case VersionInfo(_) => VersionBit(size, c)
  }

  /** Both grids as far as the loop has come. */
  ghost predicate Halfway(p: Pattern, modules: BitBucket, isFunction: BitBucket, before: seq<bool>, marked: seq<bool>,
                          done: set<Cell>)
    reads modules, modules.data, isFunction, isFunction.data
  {
    && modules.data != isFunction.data && modules.bitOffsetOrWidth >= 21
    && modules.IsGrid(modules.bitOffsetOrWidth) && isFunction.IsGrid(modules.bitOffsetOrWidth)
    && ShownOn(modules.bitOffsetOrWidth, p, before, modules.Bits(), done)
    && MarkedOn(modules.bitOffsetOrWidth, marked, isFunction.Bits(), done)
  }

  lemma SetShows(size: nat, p: Pattern, before: seq<bool>, now: seq<bool>, done: set<Cell>, c: Cell)
    requires size >= 21 && size * size <= |now| && Inside(size, c) && ShownOn(size, p, before, now, done)
    ensures ShownOn(size, p, before, Set(size, now, c, Dark(size, p, c)), done + {c})
  {
    hide Dark, Get, Set;
    forall d: Cell | Inside(size, d)
      ensures Get(size, Set(size, now, c, Dark(size, p, c)), d)
              == if d in done + {c} then Dark(size, p, d) else Get(size, before, d)
    {
      GetSet(size, now, c, Dark(size, p, c), d);
    }
  }

  lemma SetMarks(size: nat, before: seq<bool>, now: seq<bool>, done: set<Cell>, c: Cell)
    requires size * size <= |now| && Inside(size, c) && MarkedOn(size, before, now, done)
    ensures MarkedOn(size, before, Set(size, now, c, true), done + {c})
  {
    hide Get, Set;
    forall d: Cell | Inside(size, d)
      ensures Get(size, Set(size, now, c, true), d) == (d in done + {c} || Get(size, before, d))
    {
      GetSet(size, now, c, true, d);
    }
  }

  /** One module of a pattern. */
  method Stroke(p: Pattern, modules: BitBucket, isFunction: BitBucket, c: Cell, on: bool,
                ghost before: seq<bool>, ghost marked: seq<bool>, ghost done: set<Cell>)
    requires Halfway(p, modules, isFunction, before, marked, done)
    requires Inside(modules.bitOffsetOrWidth, c) && on == Dark(modules.bitOffsetOrWidth, p, c)
    modifies modules.data, isFunction.data
    ensures Halfway(p, modules, isFunction, before, marked, done + {c})
  {
    hide ShownOn, MarkedOn, Dark, BitsOf, Set;
    SetShows(modules.bitOffsetOrWidth, p, before, modules.Bits(), done, c);
    SetMarks(modules.bitOffsetOrWidth, marked, isFunction.Bits(), done, c);
    SetFunctionModule(modules, isFunction, c, on);
  }

  lemma NothingDone(p: Pattern, modules: BitBucket, isFunction: BitBucket)
    requires modules.data != isFunction.data && modules.bitOffsetOrWidth >= 21
    requires modules.IsGrid(modules.bitOffsetOrWidth) && isFunction.IsGrid(modules.bitOffsetOrWidth)
    ensures Halfway(p, modules, isFunction, modules.Bits(), isFunction.Bits(), {})
  {
    hide Dark, Get;
  }

  lemma AllDone(p: Pattern, size: nat, before: seq<bool>, after: seq<bool>, marked: seq<bool>, fn: seq<bool>, done: set<Cell>, k: nat)
    requires size >= 21 && ShownOn(size, p, before, after, done) && MarkedOn(size, marked, fn, done) && DoneTo(size, p, done, k)
    requires forall c: Cell :: Inside(size, c) && Covers(size, p, c) ==> Turn(size, p, c) < k
    ensures Shown(size, p, before, after) && Marked(size, p, marked, fn)
  {
    hide Dark, Get, Covers, Turn;
  }

  // ---------------------------------------------------------------- the loops

  method DrawTiming(modules: BitBucket, isFunction: BitBucket)
    requires modules.data != isFunction.data && modules.bitOffsetOrWidth >= 21
    requires modules.IsGrid(modules.bitOffsetOrWidth) && isFunction.IsGrid(modules.bitOffsetOrWidth)
    modifies modules.data, isFunction.data
    ensures Shown(modules.bitOffsetOrWidth, Timing, old(modules.Bits()), modules.Bits())
    ensures Marked(modules.bitOffsetOrWidth, Timing, old(isFunction.Bits()), isFunction.Bits())
  {
    hide Halfway, Shown, Marked, ShownOn, MarkedOn, BitsOf, DoneTo;
    var size := modules.bitOffsetOrWidth;
    ghost var before, marked, done := modules.Bits(), isFunction.Bits(), {};
    NothingDone(Timing, modules, isFunction);
    TimingTurn(size, {}, 0);
    for i := 0 to size
      invariant Halfway(Timing, modules, isFunction, before, marked, done) && DoneTo(size, Timing, done, i)
    {
      TimingTurn(size, done, i);
      Stroke(Timing, modules, isFunction, Cell(6, i), i % 2 == 0, before, marked, done);
      Stroke(Timing, modules, isFunction, Cell(i, 6), i % 2 == 0, before, marked, done + {Cell(6, i)});
      done := done + {Cell(6, i)} + {Cell(i, 6)};
    }
    Opened(Timing, modules, isFunction, before, marked, done);
    AllDone(Timing, size, before, modules.Bits(), marked, isFunction.Bits(), done, size);
  }

  lemma Opened(p: Pattern, modules: BitBucket, isFunction: BitBucket, before: seq<bool>, marked: seq<bool>, done: set<Cell>)
    requires Halfway(p, modules, isFunction, before, marked, done)
    ensures ShownOn(modules.bitOffsetOrWidth, p, before, modules.Bits(), done)
    ensures MarkedOn(modules.bitOffsetOrWidth, marked, isFunction.Bits(), done)
  {}

  lemma TimingTurn(size: nat, done: set<Cell>, i: nat)
    requires size >= 21
    ensures DoneTo(size, Timing, {}, 0)
    ensures i < size && DoneTo(size, Timing, done, i) ==> DoneTo(size, Timing, done + {Cell(6, i)} + {Cell(i, 6)}, i + 1)
    ensures i < size ==> Dark(size, Timing, Cell(6, i)) == (i % 2 == 0) && Dark(size, Timing, Cell(i, 6)) == (i % 2 == 0)
  {}

  /** drawFinderPattern and drawAlignmentPattern: the square of a center, row by row, as far as it is inside. */
  method DrawSquare(p: Pattern, r: nat, modules: BitBucket, isFunction: BitBucket)
    requires modules.data != isFunction.data && modules.bitOffsetOrWidth >= 21
    requires modules.IsGrid(modules.bitOffsetOrWidth) && isFunction.IsGrid(modules.bitOffsetOrWidth)
    requires (p.Finder? && r == 4) || (p.Alignment? && r == 2)
    modifies modules.data, isFunction.data
    ensures Shown(modules.bitOffsetOrWidth, p, old(modules.Bits()), modules.Bits())
    ensures Marked(modules.bitOffsetOrWidth, p, old(isFunction.Bits()), isFunction.Bits())
  {
    hide Halfway, Shown, Marked, ShownOn, MarkedOn, BitsOf, DoneTo, Dark, Covers, Turn;
    var size := modules.bitOffsetOrWidth;
    ghost var before, marked, done: set<Cell> := modules.Bits(), isFunction.Bits(), {};
    NothingDone(p, modules, isFunction);
    SquareStart(size, p, r);
    var side := 2 * r + 1;
    for i: nat := 0 to side
      invariant Halfway(p, modules, isFunction, before, marked, done) && DoneTo(size, p, done, side * i)
    {
      for j: nat := 0 to side
        invariant Halfway(p, modules, isFunction, before, marked, done) && DoneTo(size, p, done, side * i + j)
      {
        var xx, yy := p.x + j - r, p.y + i - r;
        if 0 <= xx < size && 0 <= yy < size {
          SquareTurn(size, p, r, done, i, j);
          Stroke(p, modules, isFunction, Cell(xx, yy), SquareDark(p, xx - p.x, yy - p.y), before, marked, done);
          done := done + {Cell(xx, yy)};
        } else {
          SquareMiss(size, p, r, done, i, j);
        }
      }
      RowEnd(side, i);
    }
    Opened(p, modules, isFunction, before, marked, done);
    SquareEnd(size, p, r);
    AllDone(p, size, before, modules.Bits(), marked, isFunction.Bits(), done, side * side);
  }

  /** dist != 2 && dist != 4, or dist != 1, for the Chebyshev distance of an offset. */
  predicate SquareDark(p: Pattern, dx: int, dy: int) {
    var dist := if Abs(dx) < Abs(dy) then Abs(dy) else Abs(dx);
    if p.Finder? then dist != 2 && dist != 4 else dist != 1
  }

  lemma RowEnd(side: nat, i: nat)
    ensures side * i + side == side * (i + 1)
  {}

  lemma SquareStart(size: nat, p: Pattern, r: nat)
    requires size >= 21 && ((p.Finder? && r == 4) || (p.Alignment? && r == 2))
    ensures DoneTo(size, p, {}, 0) && (2 * r + 1) * 0 == 0
  {}

  /** Turn (i, j) draws the cell at offset (j - r, i - r), and no other. */
  lemma FinderCell(size: nat, x: nat, y: nat, i: nat, j: nat, c: Cell)
    requires size >= 21 && i < 9 && j < 9
    ensures Covers(size, Finder(x, y), c) && Turn(size, Finder(x, y), c) == 9 * i + j <==> c.x == x + j - 4 && c.y == y + i - 4
    ensures c.x == x + j - 4 && c.y == y + i - 4 ==> Dark(size, Finder(x, y), c) == SquareDark(Finder(x, y), j - 4, i - 4)
  {}

  lemma AlignmentCell(size: nat, x: nat, y: nat, i: nat, j: nat, c: Cell)
    requires size >= 21 && i < 5 && j < 5
    ensures Covers(size, Alignment(x, y), c) && Turn(size, Alignment(x, y), c) == 5 * i + j <==> c.x == x + j - 2 && c.y == y + i - 2
    ensures c.x == x + j - 2 && c.y == y + i - 2 ==> Dark(size, Alignment(x, y), c) == SquareDark(Alignment(x, y), j - 2, i - 2)
  {}

  lemma SquareCell(size: nat, p: Pattern, r: nat, i: nat, j: nat, c: Cell)
    requires size >= 21 && ((p.Finder? && r == 4) || (p.Alignment? && r == 2)) && i < 2 * r + 1 && j < 2 * r + 1
    ensures Covers(size, p, c) && Turn(size, p, c) == (2 * r + 1) * i + j <==> c.x == p.x + j - r && c.y == p.y + i - r
    ensures c.x == p.x + j - r && c.y == p.y + i - r ==> Dark(size, p, c) == SquareDark(p, j - r, i - r)
  {
    hide Covers, Turn, Dark, SquareDark;
    if p.Finder? {
      FinderCell(size, p.x, p.y, i, j, c);
    } else {
      AlignmentCell(size, p.x, p.y, i, j, c);
    }
  }

  /** Turn (i, j) draws one cell. */
  lemma SquareTurn(size: nat, p: Pattern, r: nat, done: set<Cell>, i: nat, j: nat)
    requires size >= 21 && ((p.Finder? && r == 4) || (p.Alignment? && r == 2)) && i < 2 * r + 1 && j < 2 * r + 1
    requires p.x + j >= r && p.y + i >= r && Inside(size, Cell(p.x + j - r, p.y + i - r))
    requires DoneTo(size, p, done, (2 * r + 1) * i + j)
    ensures DoneTo(size, p, done + {Cell(p.x + j - r, p.y + i - r)}, (2 * r + 1) * i + j + 1)
    ensures Dark(size, p, Cell(p.x + j - r, p.y + i - r)) == SquareDark(p, j - r, i - r)
  {
    hide Covers, Turn, Dark, SquareDark;
    var now := Cell(p.x + j - r, p.y + i - r);
    SquareCell(size, p, r, i, j, now);
    forall c: Cell
      ensures c in done + {now} <==> Inside(size, c) && Covers(size, p, c) && Turn(size, p, c) < (2 * r + 1) * i + j + 1
    {
      SquareCell(size, p, r, i, j, c);
    }
  }

  /** Turn (i, j) would draw outside the grid. */
  lemma SquareMiss(size: nat, p: Pattern, r: nat, done: set<Cell>, i: nat, j: nat)
    requires size >= 21 && ((p.Finder? && r == 4) || (p.Alignment? && r == 2)) && i < 2 * r + 1 && j < 2 * r + 1
    requires !(0 <= p.x + j - r < size && 0 <= p.y + i - r < size)
    requires DoneTo(size, p, done, (2 * r + 1) * i + j)
    ensures DoneTo(size, p, done, (2 * r + 1) * i + j + 1)
  {
    hide Covers, Turn, Dark, SquareDark;
    forall c: Cell
      ensures c in done <==> Inside(size, c) && Covers(size, p, c) && Turn(size, p, c) < (2 * r + 1) * i + j + 1
    {
      SquareCell(size, p, r, i, j, c);
    }
  }

  lemma SquareEnd(size: nat, p: Pattern, r: nat)
    requires size >= 21 && ((p.Finder? && r == 4) || (p.Alignment? && r == 2))
    ensures forall c: Cell :: Inside(size, c) && Covers(size, p, c) ==> Turn(size, p, c) < (2 * r + 1) * (2 * r + 1)
  {}

  /** The twelve check bits of the version. */
  method VersionBits(version: nat) returns (data: F.Poly)
    ensures data == VersionWord(version)
  {
    var rem := LowBits(version, 12);
    for i := 0 to 12
      invariant rem == Shifted(LowBits(version, 12), i, VersionTaps())
    {
      rem := F.Times(rem, VersionTaps());   // (rem << 1) ^ ((rem >> 11) * 0x1F25): bit 12 cancels
    }
    data := rem + LowBits(version, 6);
  }

  /** drawVersion. */
  method DrawVersion(modules: BitBucket, isFunction: BitBucket, version: nat)
    requires modules.data != isFunction.data && modules.bitOffsetOrWidth >= 21
    requires modules.IsGrid(modules.bitOffsetOrWidth) && isFunction.IsGrid(modules.bitOffsetOrWidth)
    modifies modules.data, isFunction.data
    ensures version < 7 ==> modules.Bits() == old(modules.Bits()) && isFunction.Bits() == old(isFunction.Bits())
    ensures version >= 7 ==>
              && Shown(modules.bitOffsetOrWidth, VersionInfo(version), old(modules.Bits()), modules.Bits())
              && Marked(modules.bitOffsetOrWidth, VersionInfo(version), old(isFunction.Bits()), isFunction.Bits())
  {
    hide Halfway, Shown, Marked, ShownOn, MarkedOn, BitsOf, DoneTo, Dark, Covers, Turn, VersionWord;
    if version < 7 { return; }
    var size, p := modules.bitOffsetOrWidth, VersionInfo(version);
    var data := VersionBits(version);
    ghost var before, marked, done: set<Cell> := modules.Bits(), isFunction.Bits(), {};
    NothingDone(p, modules, isFunction);
    VersionStart(size, version);
    for i: nat := 0 to 18
      invariant Halfway(p, modules, isFunction, before, marked, done) && DoneTo(size, p, done, i)
    {
      var a, b := size - 11 + i % 3, i / 3;
      VersionTurn(size, version, done, i);
      Stroke(p, modules, isFunction, Cell(a, b), data[i], before, marked, done);
      Stroke(p, modules, isFunction, Cell(b, a), data[i], before, marked, done + {Cell(a, b)});
      done := done + {Cell(a, b)} + {Cell(b, a)};
    }
    Opened(p, modules, isFunction, before, marked, done);
    AllDone(p, size, before, modules.Bits(), marked, isFunction.Bits(), done, 18);
  }

  lemma VersionStart(size: nat, version: nat)
    requires size >= 21
    ensures DoneTo(size, VersionInfo(version), {}, 0)
    ensures forall c: Cell :: Inside(size, c) && Covers(size, VersionInfo(version), c) ==> Turn(size, VersionInfo(version), c) < 18
  {}

  lemma VersionTurn(size: nat, version: nat, done: set<Cell>, i: nat)
    requires size >= 21 && i < 18 && DoneTo(size, VersionInfo(version), done, i)
    ensures var a, b := size - 11 + i % 3, i / 3;
            && DoneTo(size, VersionInfo(version), done + {Cell(a, b)} + {Cell(b, a)}, i + 1)
            && Inside(size, Cell(a, b)) && Inside(size, Cell(b, a))
            && Dark(size, VersionInfo(version), Cell(a, b)) == VersionWord(version)[i]
            && Dark(size, VersionInfo(version), Cell(b, a)) == VersionWord(version)[i]
  {
    hide VersionWord;
    VersionCells(size, i);
  }

  /** The two cells of a version bit. */
  lemma VersionCells(size: nat, i: nat)
    requires size >= 21 && i < 18
    ensures forall c: Cell :: VersionBit(size, c) == i <==> c == Cell(size - 11 + i % 3, i / 3) || c == Cell(i / 3, size - 11 + i % 3)
  {}

  // ---------------------------------------------------------------- alignment patterns

  function AlignCount(version: nat): nat { version / 7 + 2 }

  function AlignStep(version: nat): nat {
    var n := AlignCount(version);
    if version != 32 then (version * 4 + n * 2 + 1) / (2 * n - 2) * 2 else 26
  }

  /** Center k of the alignment patterns, along either axis: counted back from size - 7, the first at 6. */
  function AlignPosition(version: nat, k: nat): int {
    if k == 0 then 6 else version * 4 + 10 - (AlignCount(version) - 1 - k) * AlignStep(version)
  }

  /** The patterns of the centers after the first one are AlignStep apart, and the first one is no nearer. */
  lemma StepsFit(version: nat)
    requires 2 <= version <= 40
    ensures AlignStep(version) >= 12
    ensures 0 <= (AlignCount(version) - 2) * AlignStep(version) <= version * 4 - 8
  {
    var n := AlignCount(version);
    if n == 2 {} else if n == 3 {} else if n == 4 {} else if n == 5 {} else if n == 6 {} else {}
  }

  /** Centers rise by at least twelve, and stay inside the grid. */
  lemma CentersRise(version: nat, k: nat, l: nat)
    requires 2 <= version <= 40 && k < l < AlignCount(version)
    ensures AlignPosition(version, k) + 12 <= AlignPosition(version, l) <= version * 4 + 10
  {
    hide AlignCount, AlignStep;
    StepsFit(version);
    var n, step := AlignCount(version), AlignStep(version);
    StepsBetween(n - 1 - l, n - 1, step);
    if k == 0 {
      StepsBetween(n - 1 - l, n - 2, step);
    } else {
      StepsBetween(n - 1 - l, n - 1 - k, step);
    }
  }

  lemma StepsBetween(i: nat, j: nat, step: nat)
    requires i <= j && step >= 12
    ensures 0 <= i * step <= j * step && (i < j ==> i * step + step <= j * step)
  {
    assert j * step == i * step + (j - i) * step;
    if i < j {
      assert (j - i) * step == (j - i - 1) * step + step;
    }
  }

  lemma CentersFit(version: nat, k: nat)
    requires 2 <= version <= 40 && k < AlignCount(version)
    ensures 6 <= AlignPosition(version, k) <= version * 4 + 10
  {
    if k > 0 {
      CentersRise(version, 0, k);
    }
  }

  /** So no two alignment patterns share a cell. */
  lemma AlignmentsApart(size: nat, version: nat, a: nat, b: nat, a': nat, b': nat, c: Cell)
    requires size >= 21 && 2 <= version <= 40
    requires a < AlignCount(version) && b < AlignCount(version) && a' < AlignCount(version) && b' < AlignCount(version)
    requires AlignedAt(size, version, a, b, c) && AlignedAt(size, version, a', b', c)
    ensures a == a' && b == b'
  {
    hide AlignPosition, AlignCount;
    if a < a' { CentersRise(version, a, a'); } else if a' < a { CentersRise(version, a', a); }
    if b < b' { CentersRise(version, b, b'); } else if b' < b { CentersRise(version, b', b); }
  }

  /** Whether center (i, j) is under a finder pattern. */
  predicate AtFinder(n: nat, i: nat, j: nat) {
    (i == 0 && j == 0) || (i == 0 && j == n - 1) || (i == n - 1 && j == 0)
  }

  /** Some alignment pattern covers the cell, of those up to center (i, j), row by row. */
  ghost predicate Aligned(size: nat, version: nat, i: nat, j: nat, c: Cell)
    requires size >= 21
  {
    exists a: nat, b: nat :: a < AlignCount(version) && b < AlignCount(version) && Earlier(a, b, i, j)
      && AlignedAt(size, version, a, b, c)
  }

  predicate AlignedAt(size: nat, version: nat, a: nat, b: nat, c: Cell)
    requires size >= 21
  {
    && !AtFinder(AlignCount(version), a, b) && AlignPosition(version, a) >= 0 && AlignPosition(version, b) >= 0
    && Covers(size, Alignment(AlignPosition(version, a), AlignPosition(version, b)), c)
  }

  /** The alignment patterns before center (i, j), row by row. */
  predicate Earlier(a: nat, b: nat, i: nat, j: nat) { a < i || (a == i && b < j) }

  predicate DarkAt(size: nat, version: nat, a: nat, b: nat, c: Cell)
    requires size >= 21 && AlignedAt(size, version, a, b, c)
  {
    Dark(size, Alignment(AlignPosition(version, a), AlignPosition(version, b)), c)
  }

  /** Both grids after the alignment patterns before center (i, j). */
  ghost predicate AlignedTo(size: nat, version: nat, i: nat, j: nat, marked: seq<bool>, fn: seq<bool>)
    requires size >= 21
  {
    && |fn| == |marked|
    && forall c: Cell :: Inside(size, c) ==> Get(size, fn, c) == (Aligned(size, version, i, j, c) || Get(size, marked, c))
  }

  ghost predicate AlignedShown(size: nat, version: nat, i: nat, j: nat, before: seq<bool>, after: seq<bool>)
    requires size >= 21
  {
    && |after| == |before|
    && forall c: Cell :: Inside(size, c) ==> AlignedColor(size, version, i, j, before, after, c)
  }

  ghost predicate AlignedColor(size: nat, version: nat, i: nat, j: nat, before: seq<bool>, after: seq<bool>, c: Cell)
    requires size >= 21
  {
    && (!Aligned(size, version, i, j, c) ==> Get(size, after, c) == Get(size, before, c))
    && (forall a: nat, b: nat :: a < AlignCount(version) && b < AlignCount(version) && Earlier(a, b, i, j)
                                 && AlignedAt(size, version, a, b, c) ==>
          Get(size, after, c) == DarkAt(size, version, a, b, c))
  }

  lemma AlignedNext(size: nat, version: nat, i: nat, j: nat, c: Cell)
    requires size >= 21 && i < AlignCount(version) && j < AlignCount(version)
    ensures Aligned(size, version, i, j + 1, c) <==> Aligned(size, version, i, j, c) || AlignedAt(size, version, i, j, c)
  {
    hide AlignedAt, AlignCount;
    if AlignedAt(size, version, i, j, c) {
      assert Earlier(i, j, i, j + 1);
    }
    if Aligned(size, version, i, j, c) {
      var a: nat, b: nat :| a < AlignCount(version) && b < AlignCount(version) && Earlier(a, b, i, j) && AlignedAt(size, version, a, b, c);
      assert Earlier(a, b, i, j + 1);
    }
  }

  /** Center (i, j) marks its cells, unless it is under a finder pattern. */
  lemma AlignOne(size: nat, version: nat, i: nat, j: nat, marked: seq<bool>, now: seq<bool>, fn: seq<bool>)
    requires size >= 21 && i < AlignCount(version) && j < AlignCount(version) && AlignedTo(size, version, i, j, marked, now)
    requires AlignPosition(version, i) >= 0 && AlignPosition(version, j) >= 0
    requires if AtFinder(AlignCount(version), i, j) then fn == now
             else Marked(size, Alignment(AlignPosition(version, i), AlignPosition(version, j)), now, fn)
    ensures AlignedTo(size, version, i, j + 1, marked, fn)
  {
    hide Covers, AlignPosition, AlignCount, Get, Aligned;
    forall c: Cell | Inside(size, c)
      ensures Get(size, fn, c) == (Aligned(size, version, i, j + 1, c) || Get(size, marked, c))
    {
      AlignedNext(size, version, i, j, c);
    }
  }

  /** And paints them, over nothing painted by the centers before. */
  lemma PaintOne(size: nat, version: nat, i: nat, j: nat, before: seq<bool>, now: seq<bool>, after: seq<bool>)
    requires size >= 21 && 2 <= version <= 40 && i < AlignCount(version) && j < AlignCount(version)
    requires AlignedShown(size, version, i, j, before, now)
    requires AlignPosition(version, i) >= 0 && AlignPosition(version, j) >= 0
    requires if AtFinder(AlignCount(version), i, j) then after == now
             else Shown(size, Alignment(AlignPosition(version, i), AlignPosition(version, j)), now, after)
    ensures AlignedShown(size, version, i, j + 1, before, after)
  {
    hide Covers, Dark, AlignPosition, AlignCount, Get, Aligned;
    forall c: Cell | Inside(size, c)
      ensures AlignedColor(size, version, i, j + 1, before, after, c)
    {
      AlignedNext(size, version, i, j, c);
      assert AlignedColor(size, version, i, j, before, now, c);
      forall a: nat, b: nat | a < AlignCount(version) && b < AlignCount(version) && Earlier(a, b, i, j + 1) && AlignedAt(size, version, a, b, c)
        ensures Get(size, after, c) == DarkAt(size, version, a, b, c)
      {
        if AlignedAt(size, version, i, j, c) {
          AlignmentsApart(size, version, a, b, i, j, c);
        } else {
          assert Earlier(a, b, i, j);
        }
      }
    }
  }

  /** The end of a row is the start of the next. */
  lemma AlignRow(size: nat, version: nat, i: nat, marked: seq<bool>, fn: seq<bool>, before: seq<bool>, after: seq<bool>)
    requires size >= 21 && AlignedTo(size, version, i, AlignCount(version), marked, fn)
    requires AlignedShown(size, version, i, AlignCount(version), before, after)
    ensures AlignedTo(size, version, i + 1, 0, marked, fn) && AlignedShown(size, version, i + 1, 0, before, after)
  {
    hide AlignedAt, DarkAt, AlignCount, Get;
    forall c: Cell
      ensures Aligned(size, version, i + 1, 0, c) <==> Aligned(size, version, i, AlignCount(version), c)
    {}
    forall c: Cell | Inside(size, c)
      ensures AlignedColor(size, version, i + 1, 0, before, after, c)
    {
      assert AlignedColor(size, version, i, AlignCount(version), before, after, c);
    }
  }

  /** The alignment centers, from the last one down. */
  method AlignPositions(version: nat) returns (positions: seq<nat>)
    requires 2 <= version <= 40
    ensures |positions| == AlignCount(version)
    ensures forall k :: 0 <= k < |positions| ==> positions[k] == AlignPosition(version, k) && positions[k] <= version * 4 + 10
  {
    hide AlignStep;
    var alignCount := AlignCount(version);
    var step := AlignStep(version);
    var alignPosition := new nat[alignCount](i => 6);
    var pos: int := version * 4 + 10;
    for i := 0 to alignCount - 1
      invariant pos == version * 4 + 10 - i * step
      invariant alignPosition[0] == 6
      invariant forall k :: alignCount - 1 - i < k < alignCount ==> alignPosition[k] == AlignPosition(version, k)
    {
      CentersFit(version, alignCount - 1 - i);
      alignPosition[alignCount - 1 - i] := pos;
      StepBack(i, step);
      pos := pos - step;
    }
    positions := alignPosition[..];
    forall k | 0 <= k < |positions|
      ensures positions[k] == AlignPosition(version, k) && positions[k] <= version * 4 + 10
    {
      CentersFit(version, k);
    }
  }

  lemma StepBack(i: nat, step: nat)
    ensures (i + 1) * step == i * step + step
  {}

  method DrawAlignment(modules: BitBucket, isFunction: BitBucket, version: nat)
    requires 2 <= version <= 40 && modules.bitOffsetOrWidth == 4 * version + 17
    requires modules.data != isFunction.data
    requires modules.IsGrid(modules.bitOffsetOrWidth) && isFunction.IsGrid(modules.bitOffsetOrWidth)
    modifies modules.data, isFunction.data
    ensures AlignedShown(modules.bitOffsetOrWidth, version, AlignCount(version), 0, old(modules.Bits()), modules.Bits())
    ensures AlignedTo(modules.bitOffsetOrWidth, version, AlignCount(version), 0, old(isFunction.Bits()), isFunction.Bits())
  {
    hide AlignedTo, AlignedShown, Shown, Marked, BitsOf, AlignPosition, AlignCount;
    var size := modules.bitOffsetOrWidth;
    var positions := AlignPositions(version);
    ghost var before, marked := modules.Bits(), isFunction.Bits();
    NothingAligned(size, version, before);
    NothingAligned(size, version, marked);
    for i: nat := 0 to |positions|
      invariant AlignedShown(size, version, i, 0, before, modules.Bits()) && AlignedTo(size, version, i, 0, marked, isFunction.Bits())
    {
      for j: nat := 0 to |positions|
        invariant AlignedShown(size, version, i, j, before, modules.Bits()) && AlignedTo(size, version, i, j, marked, isFunction.Bits())
      {
        ghost var now, fn := modules.Bits(), isFunction.Bits();
        if !AtFinder(|positions|, i, j) {
          DrawSquare(Alignment(positions[i], positions[j]), 2, modules, isFunction);
        }
        AlignOne(size, version, i, j, marked, fn, isFunction.Bits());
        PaintOne(size, version, i, j, before, now, modules.Bits());
      }
      AlignRow(size, version, i, marked, isFunction.Bits(), before, modules.Bits());
    }
  }

  lemma NothingAligned(size: nat, version: nat, grid: seq<bool>)
    requires size >= 21
    ensures AlignedTo(size, version, 0, 0, grid, grid) && AlignedShown(size, version, 0, 0, grid, grid)
  {
    hide Get;
  }

  // ---------------------------------------------------------------- all of them

  /** Whether a cell of a symbol is a function module. */
  ghost predicate Reserved(version: nat, c: Cell)
    requires version >= 1
  {
    var size := 4 * version + 17;
    || Covers(size, Timing, c)
    || AtCorner(size, c)
    || (version > 1 && Aligned(size, version, AlignCount(version), 0, c))
    || c in FormatCells(size)
    || (version >= 7 && Covers(size, VersionInfo(version), c))
  }

  predicate AtCorner(size: nat, c: Cell)
    requires size >= 21
  {
    Covers(size, Finder(3, 3), c) || Covers(size, Finder(size - 4, 3), c) || Covers(size, Finder(3, size - 4), c)
  }

  ghost predicate ReservedGrid(version: nat, isFunction: seq<bool>)
    requires version >= 1
  {
    forall c: Cell :: Inside(4 * version + 17, c) ==> Get(4 * version + 17, isFunction, c) == Reserved(version, c)
  }

  /** What a function module shows that is not format information: the version over the alignment patterns
      over the finder patterns over the timing patterns. */
  ghost predicate PatternColor(version: nat, c: Cell)
    requires version >= 1
  {
    var size := 4 * version + 17;
    if version >= 7 && Covers(size, VersionInfo(version), c) then Dark(size, VersionInfo(version), c)
    else if version > 1 && Aligned(size, version, AlignCount(version), 0, c) then AlignedDark(size, version, c)
    else if Covers(size, Finder(3, size - 4), c) then Dark(size, Finder(3, size - 4), c)
    else if Covers(size, Finder(size - 4, 3), c) then Dark(size, Finder(size - 4, 3), c)
    else if Covers(size, Finder(3, 3), c) then Dark(size, Finder(3, 3), c)
    else Covers(size, Timing, c) && Dark(size, Timing, c)
  }

  ghost predicate AlignedDark(size: nat, version: nat, c: Cell)
    requires size >= 21
  {
    exists a: nat, b: nat :: a < AlignCount(version) && b < AlignCount(version)
      && AlignedAt(size, version, a, b, c) && DarkAt(size, version, a, b, c)
  }

  ghost predicate Painted(version: nat, grid: seq<bool>)
    requires version >= 1
  {
    forall c: Cell :: Inside(4 * version + 17, c) && c !in FormatCells(4 * version + 17) ==>
      Get(4 * version + 17, grid, c) == PatternColor(version, c)
  }

  ghost predicate Blank(size: nat, grid: seq<bool>) {
    forall c: Cell :: Inside(size, c) ==> !Get(size, grid, c)
  }

  lemma {:induction false} DrawnMarks(size: nat, grid: seq<bool>, cells: seq<Cell>, c: Cell)
    requires size * size <= |grid| && Inside(size, c) && |cells| <= 31
    requires forall d :: d in cells ==> Inside(size, d)
    ensures Get(size, Drawn(size, grid, cells, Marks()), c) == (c in cells || Get(size, grid, c))
  {
    hide Get, Set;
    if cells != [] {
      var n := |cells| - 1;
      assert cells == cells[..n] + [cells[n]] && cells[n] in cells;
      DrawnMarks(size, grid, cells[..n], c);
      GetSet(size, Drawn(size, grid, cells[..n], Marks()), cells[n], true, c);
    }
  }

  /** The grids one after the other: what is marked in the end. */
  lemma AllMarked(version: nat, g0: seq<bool>, g1: seq<bool>, g2: seq<bool>, g3: seq<bool>, g4: seq<bool>,
                  g5: seq<bool>, g6: seq<bool>, g7: seq<bool>)
    requires version >= 1
    requires var size := 4 * version + 17;
             && size * size <= |g0| && Blank(size, g0)
             && Marked(size, Timing, g0, g1) && Marked(size, Finder(3, 3), g1, g2)
             && Marked(size, Finder(size - 4, 3), g2, g3) && Marked(size, Finder(3, size - 4), g3, g4)
             && (if version > 1 then AlignedTo(size, version, AlignCount(version), 0, g4, g5) else g5 == g4)
             && g6 == Drawn(size, g5, FormatCells(size), Marks())
             && (if version >= 7 then Marked(size, VersionInfo(version), g6, g7) else g7 == g6)
    ensures ReservedGrid(version, g7)
  {
    hide Covers, Aligned, AlignCount, Get, Drawn, FormatCells;
    var size := 4 * version + 17;
    forall c: Cell | Inside(size, c)
      ensures Get(size, g7, c) == Reserved(version, c)
    {
      DrawnMarks(size, g5, FormatCells(size), c);
    }
  }

  /** And what is painted. */
  lemma AllPainted(version: nat, word: seq<bool>, g0: seq<bool>, g1: seq<bool>, g2: seq<bool>, g3: seq<bool>, g4: seq<bool>,
                   g5: seq<bool>, g6: seq<bool>, g7: seq<bool>)
    requires version >= 1
    requires var size := 4 * version + 17;
             && size * size <= |g0| && Blank(size, g0)
             && Shown(size, Timing, g0, g1) && Shown(size, Finder(3, 3), g1, g2)
             && Shown(size, Finder(size - 4, 3), g2, g3) && Shown(size, Finder(3, size - 4), g3, g4)
             && (if version > 1 then AlignedShown(size, version, AlignCount(version), 0, g4, g5) else g5 == g4)
             && g6 == Drawn(size, g5, FormatCells(size), word)
             && (if version >= 7 then Shown(size, VersionInfo(version), g6, g7) else g7 == g6)
    ensures Painted(version, g7)
  {
    hide Covers, Dark, AlignCount, Get, Drawn, FormatCells, AlignedAt, DarkAt;
    var size := 4 * version + 17;
    forall c: Cell | Inside(size, c) && c !in FormatCells(size)
      ensures Get(size, g7, c) == PatternColor(version, c)
    {
      DrawnElsewhere(size, g5, FormatCells(size), word, c);
      if version > 1 {
        AlignedEnd(size, version, g4, g5, c);
      }
    }
  }

  lemma AlignedEnd(size: nat, version: nat, before: seq<bool>, after: seq<bool>, c: Cell)
    requires size >= 21 && Inside(size, c) && AlignedShown(size, version, AlignCount(version), 0, before, after)
    ensures Get(size, after, c) == if Aligned(size, version, AlignCount(version), 0, c) then AlignedDark(size, version, c) else Get(size, before, c)
  {
    hide Get, AlignedAt, DarkAt, AlignCount;
    var n := AlignCount(version);
    assert AlignedColor(size, version, n, 0, before, after, c);
    if Aligned(size, version, n, 0, c) {
      var a: nat, b: nat :| a < n && b < n && Earlier(a, b, n, 0) && AlignedAt(size, version, a, b, c);
      assert Get(size, after, c) == DarkAt(size, version, a, b, c);
      if AlignedDark(size, version, c) {
        var x: nat, y: nat :| x < n && y < n && AlignedAt(size, version, x, y, c) && DarkAt(size, version, x, y, c);
        assert Earlier(x, y, n, 0);
      }
    }
  }

  /** drawFunctionPatterns, on blank grids. */
  method DrawFunctionPatterns(modules: BitBucket, isFunction: BitBucket, version: nat, ecc: nat)
    requires 1 <= version <= 40 && modules.data != isFunction.data
    requires modules.IsGrid(4 * version + 17) && isFunction.IsGrid(4 * version + 17)
    requires Blank(4 * version + 17, modules.Bits()) && Blank(4 * version + 17, isFunction.Bits())
    modifies modules.data, isFunction.data
    ensures ReservedGrid(version, isFunction.Bits()) && Painted(version, modules.Bits())
  {
    hide Shown, Marked, AlignedTo, AlignedShown, BitsOf, ReservedGrid, Painted, Blank, Get, Drawn, FormatCells, AlignCount, Word;
    var size := modules.bitOffsetOrWidth;
    ghost var g0, m0 := isFunction.Bits(), modules.Bits();
    DrawTiming(modules, isFunction);
    ghost var g1, m1 := isFunction.Bits(), modules.Bits();
    DrawSquare(Finder(3, 3), 4, modules, isFunction);
    ghost var g2, m2 := isFunction.Bits(), modules.Bits();
    DrawSquare(Finder(size - 4, 3), 4, modules, isFunction);
    ghost var g3, m3 := isFunction.Bits(), modules.Bits();
    DrawSquare(Finder(3, size - 4), 4, modules, isFunction);
    ghost var g4, m4 := isFunction.Bits(), modules.Bits();
    if version > 1 {
      DrawAlignment(modules, isFunction, version);
    }
    ghost var g5, m5 := isFunction.Bits(), modules.Bits();
    DrawFormatBits(modules, isFunction, ecc, 0);
    ghost var g6, m6 := isFunction.Bits(), modules.Bits();
    DrawVersion(modules, isFunction, version);
    AllMarked(version, g0, g1, g2, g3, g4, g5, g6, isFunction.Bits());
    AllPainted(version, FormatValues(Word(ecc, 0)), m0, m1, m2, m3, m4, m5, m6, modules.Bits());
  }
}
