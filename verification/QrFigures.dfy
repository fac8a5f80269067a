/** The figures and tables of ISO/IEC 18004:2015 that main/ui/qrcode.c computes instead of keeping. */
module QrFigures {
  import opened Numbers
  import opened Bytes
  import opened Zigzag
  import opened Masking
  import opened Patterns
  import opened FormatInfo
  import F = BinaryField
  import G = Gf256

  // ---------------------------------------------------------------- the mask patterns

  /** The figure of a mask pattern as far as it repeats: its dark modules are the ones the mask inverts (section
      7.8.2). */
  function Tile(mask: nat): (rows: seq<string>)
    ensures (|rows| == 4 || |rows| == 6) && forall j :: 0 <= j < |rows| ==> |rows[j]| == 6
  {
    match mask
    case 0 => ["#.#.#.", ".#.#.#", "#.#.#.", ".#.#.#", "#.#.#.", ".#.#.#"]
    case 1 => ["######", "......", "######", "......", "######", "......"]
    case 2 => ["#..#..", "#..#..", "#..#..", "#..#..", "#..#..", "#..#.."]
    case 3 => ["#..#..", "..#..#", ".#..#.", "#..#..", "..#..#", ".#..#."]
    case 4 => ["###...", "###...", "...###", "...###"]
    case 5 => ["######", "#.....", "#..#..", "#.#.#.", "#..#..", "#....."]
    case 6 => ["######", "###...", "##.##.", "#.#.#.", "#.##.#", "#...##"]
    case _ => ["#.#.#.", "...###", "#...##", ".#.#.#", "###...", ".###.."]
  }

  lemma Product(x: nat, y: nat)
    ensures x * y % 2 == x % 6 * (y % 6) % 2 && x * y % 3 == x % 6 * (y % 6) % 3
  {
    var p, q, a, b := x / 6, y / 6, x % 6, y % 6;
    assert x * y == (6 * p + a) * (6 * q + b);
    assert (6 * p + a) * (6 * q + b) == 6 * p * (6 * q + b) + a * (6 * q + b);
    assert a * (6 * q + b) == 6 * (a * q) + a * b;
    assert 6 * p * (6 * q + b) == 6 * (p * (6 * q + b));
    SameRest(a * b, p * (6 * q + b) + a * q);
  }

  lemma Rest(k: nat, r: nat)
    ensures r < 2 ==> (2 * k + r) % 2 == r
    ensures r < 3 ==> (3 * k + r) % 3 == r
  {}

  lemma SameRest(r: nat, m: nat)
    ensures (6 * m + r) % 2 == r % 2 && (6 * m + r) % 3 == r % 3
  {
    assert 6 * m + r == 2 * (3 * m + r / 2) + r % 2 && 6 * m + r == 3 * (2 * m + r / 3) + r % 3;
    Rest(3 * m + r / 2, r % 2);
    Rest(2 * m + r / 3, r % 3);
  }

  lemma Sums(x: nat, y: nat)
    ensures (x + y) % 2 == (x % 6 + y % 6) % 2 && (x + y) % 3 == (x % 6 + y % 6) % 3
  {
    assert x + y == 6 * (x / 6 + y / 6) + (x % 6 + y % 6);
    SameRest(x % 6 + y % 6, x / 6 + y / 6);
  }

  lemma Parts(x: nat, y: nat)
    ensures y % 2 == y % 6 % 2 && x % 3 == x % 6 % 3 && (x / 3 + y / 2) % 2 == (x % 6 / 3 + y % 4 / 2) % 2
  {
    Third(x);
    Half(y);
    Even(x / 6 + y / 4, x % 6 / 3 + y % 4 / 2);
  }

  lemma Third(x: nat)
    ensures x / 3 == 2 * (x / 6) + x % 6 / 3 && x % 3 == x % 6 % 3
  {}

  lemma Half(y: nat)
    ensures y / 2 == 2 * (y / 4) + y % 4 / 2 && y % 2 == y % 6 % 2
  {
    var q, r := y / 4, y % 4;
    assert y == 2 * (2 * q + r / 2) + r % 2;
    HalfIs(y, 2 * q + r / 2, r % 2);
    SameRest(y % 6, y / 6);
  }

  lemma HalfIs(y: nat, q: nat, r: nat)
    requires y == 2 * q + r && r < 2
    ensures y / 2 == q
  {}

  lemma Even(k: nat, r: nat)
    ensures (2 * k + r) % 2 == r % 2
  {}

  /** A mask pattern repeats. */
  lemma MaskRepeats(mask: nat, x: nat, y: nat)
    requires mask < 8
    ensures Inverts(mask, x, y) == Inverts(mask, x % 6, if mask == 4 then y % 4 else y % 6)
  {
    hide Inverts;
    if mask == 0 || mask == 3 {
      SumRepeats(mask, x, y);
    } else if mask < 5 {
      PartRepeats(mask, x, y);
    } else {
      ProductRepeats(mask, x, y);
    }
  }

  lemma SumRepeats(mask: nat, x: nat, y: nat)
    requires mask == 0 || mask == 3
    ensures Inverts(mask, x, y) == Inverts(mask, x % 6, y % 6)
  {
    Sums(x, y);
  }

  lemma PartRepeats(mask: nat, x: nat, y: nat)
    requires mask == 1 || mask == 2 || mask == 4
    ensures Inverts(mask, x, y) == Inverts(mask, x % 6, if mask == 4 then y % 4 else y % 6)
  {
    Parts(x, y);
  }

  lemma ProductRepeats(mask: nat, x: nat, y: nat)
    requires 5 <= mask < 8
    ensures Inverts(mask, x, y) == Inverts(mask, x % 6, y % 6)
  {
    Product(x, y);
    if mask == 7 {
      Sums(x, y);
    }
  }

  lemma TileLooks(mask: nat, x: nat, y: nat)
    requires mask < 8 && x < 6 && y < |Tile(mask)|
    ensures Inverts(mask, x, y) == (Tile(mask)[y][x] == '#')
  {
    hide Inverts;
    match mask
    case 0 => TileZero(x, y);
    case 1 => TileOne(x, y);
    case 2 => TileTwo(x, y);
    case 3 => TileThree(x, y);
    case 4 => TileFour(x, y);
    case 5 => TileFive(x, y);
    case 6 => TileSix(x, y);
    case _ => TileSeven(x, y);
  }

  lemma TileZero(x: nat, y: nat)
    requires x < 6 && y < 6
    ensures Inverts(0, x, y) == (Tile(0)[y][x] == '#')
  {
    match y case 0 => case 1 => case 2 => case 3 => case 4 => case 5 => case _ =>
  }

  lemma TileOne(x: nat, y: nat)
    requires x < 6 && y < 6
    ensures Inverts(1, x, y) == (Tile(1)[y][x] == '#')
  {
    match y case 0 => case 1 => case 2 => case 3 => case 4 => case 5 => case _ =>
  }

  lemma TileTwo(x: nat, y: nat)
    requires x < 6 && y < 6
    ensures Inverts(2, x, y) == (Tile(2)[y][x] == '#')
  {
    match y case 0 => case 1 => case 2 => case 3 => case 4 => case 5 => case _ =>
  }

  lemma TileThree(x: nat, y: nat)
    requires x < 6 && y < 6
    ensures Inverts(3, x, y) == (Tile(3)[y][x] == '#')
  {
    match y case 0 => case 1 => case 2 => case 3 => case 4 => case 5 => case _ =>
  }

  lemma TileFour(x: nat, y: nat)
    requires x < 6 && y < 4
    ensures Inverts(4, x, y) == (Tile(4)[y][x] == '#')
  {
    assert x / 3 == (if x < 3 then 0 else 1) && y / 2 == if y < 2 then 0 else 1;
    match y case 0 => case 1 => case 2 => case _ =>
  }

  lemma TileFive(x: nat, y: nat)
    requires x < 6 && y < 6
    ensures Inverts(5, x, y) == (Tile(5)[y][x] == '#')
  {
    match y case 0 => case 1 => case 2 => case 3 => case 4 => case 5 => case _ =>
  }

  lemma TileSix(x: nat, y: nat)
    requires x < 6 && y < 6
    ensures Inverts(6, x, y) == (Tile(6)[y][x] == '#')
  {
    if y < 3 {
      UpperSix(x, y);
    } else {
      LowerSix(x, y);
    }
  }

  lemma UpperSix(x: nat, y: nat)
    requires x < 6 && y < 3
    ensures Inverts(6, x, y) == (Tile(6)[y][x] == '#')
  {
    match y case 0 => case 1 => case _ =>
  }

  lemma LowerSix(x: nat, y: nat)
    requires x < 6 && 3 <= y < 6
    ensures Inverts(6, x, y) == (Tile(6)[y][x] == '#')
  {
    match y case 3 => case 4 => case _ =>
  }

  lemma TileSeven(x: nat, y: nat)
    requires x < 6 && y < 6
    ensures Inverts(7, x, y) == (Tile(7)[y][x] == '#')
  {
    if y < 3 {
      UpperSeven(x, y);
    } else {
      LowerSeven(x, y);
    }
  }

  lemma UpperSeven(x: nat, y: nat)
    requires x < 6 && y < 3
    ensures Inverts(7, x, y) == (Tile(7)[y][x] == '#')
  {
    match y case 0 => case 1 => case _ =>
  }

  lemma LowerSeven(x: nat, y: nat)
    requires x < 6 && 3 <= y < 6
    ensures Inverts(7, x, y) == (Tile(7)[y][x] == '#')
  {
    match y case 3 => case 4 => case _ =>
  }

  /** What a mask inverts is what its figure shows dark. */
  lemma MaskLooks(mask: nat, x: nat, y: nat)
    requires mask < 8
    ensures Inverts(mask, x, y) == (Tile(mask)[y % |Tile(mask)|][x % 6] == '#')
  {
    hide Inverts;
    MaskRepeats(mask, x, y);
    TileLooks(mask, x % 6, y % |Tile(mask)|);
  }

  // ---------------------------------------------------------------- bytes and the field

  function Turned(bits: seq<bool>): (t: seq<bool>)
    ensures |t| == |bits|
  {
    seq(|bits|, i requires 0 <= i < |bits| => bits[|bits| - 1 - i])
  }

  /** The two ways to spell a number, highest bit first and lowest bit first. */
  lemma {:induction false} Mirror(bits: seq<bool>)
    ensures Num(Turned(bits)) == Value(bits)
  {
    if bits != [] {
      var rest := bits[1..];
      Mirror(rest);
      assert Turned(bits) == Turned(rest) + [bits[0]];
      assert (Turned(rest) + [bits[0]])[..|rest|] == Turned(rest);
    }
  }

  /** The most significant bit of a codeword comes first in the symbol, and bit i of it has weight 2^i in the field. */
  lemma ByteSpells(data: seq<Byte>, k: nat)
    requires k < |data|
    ensures Num(BitsOf(data)[8 * k..8 * k + 8]) == Value(data[k])
  {
    hide Num, Value, BitsOf;
    Mirror(data[k]);
    SliceTurned(BitsOf(data), data, k);
  }

  lemma SliceTurned(bits: seq<bool>, data: seq<Byte>, k: nat)
    requires k < |data| && bits == BitsOf(data)
    ensures bits[8 * k..8 * k + 8] == Turned(data[k])
  {
    var slice := bits[8 * k..8 * k + 8];
    forall i | 0 <= i < 8
      ensures slice[i] == Turned(data[k])[i]
    {
      Eighth(k, i);
      assert slice[i] == bits[8 * k + i] == BitAt(data, 8 * k + i);
    }
  }

  lemma Eighth(k: nat, i: nat)
    requires i < 8
    ensures (8 * k + i) / 8 == k && (8 * k + i) % 8 == i
  {}

  /** The grid is kept row by row, the module at the left first. */
  lemma RowByRow(size: nat, c: Cell)
    requires size > 0
    ensures Index(size, c) == c.y * size + c.x
    ensures Inside(size, c) ==> Index(size, c) < size * size
  {
    if Inside(size, c) {
      IndexInside(size, c);
    }
  }

  /** The low part of the modulus x^8 + x^4 + x^3 + x^2 + 1, 0x11D. */
  lemma FieldIs()
    ensures Value(G.Taps()) == 0x1D
  {
    assert Value([false, false, false]) == 0;
    assert Value([true, false, false, false]) == 1;
    assert Value([true, true, false, false, false]) == 3;
    assert Value([true, true, true, false, false, false]) == 7;
    assert Value([false, true, true, true, false, false, false]) == 14;
  }

  // ---------------------------------------------------------------- the finder and alignment patterns

  const FINDER := [
    ".........",
    ".#######.",
    ".#.....#.",
    ".#.###.#.",
    ".#.###.#.",
    ".#.###.#.",
    ".#.....#.",
    ".#######.",
    "........."
  ]

  const ALIGNMENT := [
    "#####",
    "#...#",
    "#.#.#",
    "#...#",
    "#####"
  ]

  /** The patterns of section 6.3, and the light separator around a finder pattern. */
  lemma PatternsLook(size: nat, x: nat, y: nat, c: Cell)
    requires size >= 21
    ensures Covers(size, Timing, c) <==> c.x == 6 || c.y == 6
    ensures c.y == 6 ==> Dark(size, Timing, c) == (c.x % 2 == 0)
    ensures c.x == 6 ==> Dark(size, Timing, c) == (c.y % 2 == 0)
    ensures Covers(size, Finder(x, y), c) <==> x - 4 <= c.x <= x + 4 && y - 4 <= c.y <= y + 4
    ensures Covers(size, Finder(x, y), c) ==> Dark(size, Finder(x, y), c) == (FINDER[c.y - y + 4][c.x - x + 4] == '#')
    ensures Covers(size, Alignment(x, y), c) <==> x - 2 <= c.x <= x + 2 && y - 2 <= c.y <= y + 2
    ensures Covers(size, Alignment(x, y), c) ==> Dark(size, Alignment(x, y), c) == (ALIGNMENT[c.y - y + 2][c.x - x + 2] == '#')
  {
    FinderLooks(size, x, y, c);
    AlignmentLooks(size, x, y, c);
  }

  lemma FinderLooks(size: nat, x: nat, y: nat, c: Cell)
    requires size >= 21
    ensures Covers(size, Finder(x, y), c) <==> x - 4 <= c.x <= x + 4 && y - 4 <= c.y <= y + 4
    ensures Covers(size, Finder(x, y), c) ==> Dark(size, Finder(x, y), c) == (FINDER[c.y - y + 4][c.x - x + 4] == '#')
  {
    if Covers(size, Finder(x, y), c) {
      match c.y - y + 4 case 0 => case 1 => case 2 => case 3 => case 4 => case 5 => case 6 => case 7 => case _ =>
    }
  }

  lemma AlignmentLooks(size: nat, x: nat, y: nat, c: Cell)
    requires size >= 21
    ensures Covers(size, Alignment(x, y), c) <==> x - 2 <= c.x <= x + 2 && y - 2 <= c.y <= y + 2
    ensures Covers(size, Alignment(x, y), c) ==> Dark(size, Alignment(x, y), c) == (ALIGNMENT[c.y - y + 2][c.x - x + 2] == '#')
  {}

  /** Annex E: the centers of the alignment patterns. */
  function Centers(version: nat): seq<int> {
    match version
    case 2 => [6, 18] case 3 => [6, 22] case 4 => [6, 26]
    case 5 => [6, 30] case 6 => [6, 34] case 7 => [6, 22, 38]
    case 8 => [6, 24, 42] case 9 => [6, 26, 46] case 10 => [6, 28, 50]
    case 11 => [6, 30, 54] case 12 => [6, 32, 58] case 13 => [6, 34, 62]
    case 14 => [6, 26, 46, 66] case 15 => [6, 26, 48, 70] case 16 => [6, 26, 50, 74]
    case 17 => [6, 30, 54, 78] case 18 => [6, 30, 56, 82] case 19 => [6, 30, 58, 86]
    case 20 => [6, 34, 62, 90] case 21 => [6, 28, 50, 72, 94] case 22 => [6, 26, 50, 74, 98]
    case 23 => [6, 30, 54, 78, 102] case 24 => [6, 28, 54, 80, 106] case 25 => [6, 32, 58, 84, 110]
    case 26 => [6, 30, 58, 86, 114] case 27 => [6, 34, 62, 90, 118] case 28 => [6, 26, 50, 74, 98, 122]
    case 29 => [6, 30, 54, 78, 102, 126] case 30 => [6, 26, 52, 78, 104, 130] case 31 => [6, 30, 56, 82, 108, 134]
    case 32 => [6, 34, 60, 86, 112, 138] case 33 => [6, 30, 58, 86, 114, 142] case 34 => [6, 34, 62, 90, 118, 146]
    case 35 => [6, 30, 54, 78, 102, 126, 150] case 36 => [6, 24, 50, 76, 102, 128, 154] case 37 => [6, 28, 54, 80, 106, 132, 158]
    case 38 => [6, 32, 58, 84, 110, 136, 162] case 39 => [6, 26, 54, 82, 110, 138, 166] case 40 => [6, 30, 58, 86, 114, 142, 170]
    case _ => []
  }

  /** The step of a version with n centers along an axis, as a quotient given beforehand. */
  lemma StepOf(version: nat, n: nat, q: nat)
    requires n == AlignCount(version) && version != 32
    requires (2 * n - 2) * q <= version * 4 + n * 2 + 1 < (2 * n - 2) * q + (2 * n - 2)
    ensures AlignStep(version) == 2 * q
  {
    var m, a := 2 * n - 2, version * 4 + n * 2 + 1;
    assert a == m * q + (a - m * q);
    QuotientIs(a, m, q);
  }

  lemma QuotientIs(a: nat, m: nat, q: nat)
    requires m * q <= a < m * q + m
    ensures a / m == q
  {
    var k, r := a / m, a % m;
    if k < q {
      assert m * (k + 1) <= m * q by { Monotone(m, k + 1, q); }
    } else if k > q {
      assert m * (q + 1) <= m * k by { Monotone(m, q + 1, k); }
    }
  }

  lemma Monotone(m: nat, a: nat, b: nat)
    requires a <= b
    ensures m * a <= m * b
  {}

  lemma StepOf32()
    ensures AlignStep(32) == 26
  {}

  lemma CentersAre(version: nat)
    requires 2 <= version <= 40
    ensures |Centers(version)| == AlignCount(version)
    ensures forall k :: 0 <= k < AlignCount(version) ==> AlignPosition(version, k) == Centers(version)[k]
  {
    hide Centers, AlignCount, AlignPosition;
    if version <= 13 {
      CentersTo13(version);
    } else if version <= 20 {
      CentersTo20(version);
    } else if version <= 27 {
      CentersTo27(version);
    } else if version <= 34 {
      CentersTo34(version);
    } else {
      CentersTo40(version);
    }
  }

  lemma CentersTo13(version: nat)
    requires 2 <= version <= 13
    ensures |Centers(version)| == AlignCount(version)
    ensures forall k :: 0 <= k < AlignCount(version) ==> AlignPosition(version, k) == Centers(version)[k]
  {
    hide AlignStep;
    match version
    case 2 => StepOf(2, 2, 6); case 3 => StepOf(3, 2, 8); case 4 => StepOf(4, 2, 10); case 5 => StepOf(5, 2, 12);
    case 6 => StepOf(6, 2, 14); case 7 => StepOf(7, 3, 8); case 8 => StepOf(8, 3, 9); case 9 => StepOf(9, 3, 10);
    case 10 => StepOf(10, 3, 11); case 11 => StepOf(11, 3, 12); case 12 => StepOf(12, 3, 13); case 13 => StepOf(13, 3, 14);
    case _ =>
  }

  lemma CentersTo20(version: nat)
    requires 14 <= version <= 20
    ensures |Centers(version)| == AlignCount(version)
    ensures forall k :: 0 <= k < AlignCount(version) ==> AlignPosition(version, k) == Centers(version)[k]
  {
    hide AlignStep;
    match version
    case 14 => StepOf(14, 4, 10); case 15 => StepOf(15, 4, 11); case 16 => StepOf(16, 4, 12); case 17 => StepOf(17, 4, 12);
    case 18 => StepOf(18, 4, 13); case 19 => StepOf(19, 4, 14); case 20 => StepOf(20, 4, 14);
    case _ =>
  }

  lemma CentersTo27(version: nat)
    requires 21 <= version <= 27
    ensures |Centers(version)| == AlignCount(version)
    ensures forall k :: 0 <= k < AlignCount(version) ==> AlignPosition(version, k) == Centers(version)[k]
  {
    hide AlignStep;
    match version
    case 21 => StepOf(21, 5, 11); case 22 => StepOf(22, 5, 12); case 23 => StepOf(23, 5, 12); case 24 => StepOf(24, 5, 13);
    case 25 => StepOf(25, 5, 13); case 26 => StepOf(26, 5, 14); case 27 => StepOf(27, 5, 14);
    case _ =>
  }

  lemma CentersTo34(version: nat)
    requires 28 <= version <= 34
    ensures |Centers(version)| == AlignCount(version)
    ensures forall k :: 0 <= k < AlignCount(version) ==> AlignPosition(version, k) == Centers(version)[k]
  {
    hide AlignStep;
    match version
    case 28 => StepOf(28, 6, 12); case 29 => StepOf(29, 6, 12); case 30 => StepOf(30, 6, 13); case 31 => StepOf(31, 6, 13);
    case 32 => StepOf32(); case 33 => StepOf(33, 6, 14); case 34 => StepOf(34, 6, 14);
    case _ =>
  }

  lemma CentersTo40(version: nat)
    requires 35 <= version <= 40
    ensures |Centers(version)| == AlignCount(version)
    ensures forall k :: 0 <= k < AlignCount(version) ==> AlignPosition(version, k) == Centers(version)[k]
  {
    hide AlignStep;
    match version
    case 35 => StepOf(35, 7, 12); case 36 => StepOf(36, 7, 13); case 37 => StepOf(37, 7, 13); case 38 => StepOf(38, 7, 13);
    case 39 => StepOf(39, 7, 14); case 40 => StepOf(40, 7, 14);
    case _ =>
  }

  // ---------------------------------------------------------------- the format and version words

  /** a ^ b in n bits. */
  function XorBits(a: nat, b: nat, n: nat): nat {
    if n == 0 then 0 else (a % 2 + b % 2) % 2 + 2 * XorBits(a / 2, b / 2, n - 1)
  }

  lemma {:induction false} XorIsXor(a: nat, b: nat, n: nat)
    ensures F.Xor(LowBits(a, n), LowBits(b, n)) == LowBits(XorBits(a, b, n), n)
  {
    if n > 0 {
      XorIsXor(a / 2, b / 2, n - 1);
      BitsStep(a, n);
      BitsStep(b, n);
      XorHead(a, b, n);
      hide LowBits, XorBits;
      XorCons(a % 2 == 1, LowBits(a / 2, n - 1), b % 2 == 1, LowBits(b / 2, n - 1));
    }
  }

  lemma XorHead(a: nat, b: nat, n: nat)
    requires n > 0
    ensures LowBits(XorBits(a, b, n), n) == [(a % 2 == 1) != (b % 2 == 1)] + LowBits(XorBits(a / 2, b / 2, n - 1), n - 1)
  {
    hide LowBits;
    BitsStep(XorBits(a, b, n), n);
    HalfOfSum((a % 2 + b % 2) % 2, XorBits(a / 2, b / 2, n - 1));
  }

  lemma XorCons(x: bool, c: F.Poly, y: bool, d: F.Poly)
    requires |c| == |d|
    ensures F.Xor([x] + c, [y] + d) == [x != y] + F.Xor(c, d)
  {}

  /** The shift register on numbers, as it is written in C: rem = (rem << 1) ^ ((rem >> (n - 1)) * generator), in n bits. */
  function Register(data: nat, taps: nat, n: nat, k: nat): nat
    requires n > 0
  {
    if k == 0 then data
    else
      var rem := Register(data, taps, n, k - 1);
      if Shr(rem, n - 1) % 2 == 1 then XorBits(2 * rem, taps, n) else 2 * rem
  }

  lemma {:induction false} TopBit(v: nat, n: nat)
    requires n > 0
    ensures LowBits(v, n)[n - 1] == (Shr(v, n - 1) % 2 == 1)
  {
    if n > 1 {
      TopBit(v / 2, n - 1);
      ShrHalf(v, n - 1);
    }
  }

  lemma {:induction false} ShrHalf(v: nat, k: nat)
    requires k > 0
    ensures Shr(v, k) == Shr(v / 2, k - 1)
  {
    if k > 1 {
      ShrHalf(v, k - 1);
    }
  }

  lemma {:induction false} Prefix(v: nat, n: nat)
    requires n > 0
    ensures LowBits(v, n)[..n - 1] == LowBits(v, n - 1)
  {
    if n > 1 {
      Prefix(v / 2, n - 1);
      assert LowBits(v, n)[..n - 1] == [v % 2 == 1] + LowBits(v / 2, n - 1)[..n - 2];
    }
  }

  lemma {:induction false} RegisterIs(data: nat, taps: nat, n: nat, k: nat)
    requires n > 0
    ensures Shifted(LowBits(data, n), k, LowBits(taps, n)) == LowBits(Register(data, taps, n, k), n)
  {
    hide LowBits, F.Times;
    if k > 0 {
      RegisterIs(data, taps, n, k - 1);
      OneStep(Register(data, taps, n, k - 1), taps, n);
    }
  }

  lemma OneStep(v: nat, taps: nat, n: nat)
    requires n > 0
    ensures F.Times(LowBits(v, n), LowBits(taps, n)) ==
            LowBits(if Shr(v, n - 1) % 2 == 1 then XorBits(2 * v, taps, n) else 2 * v, n)
  {
    hide LowBits, XorBits;
    TopBit(v, n);
    Prefix(v, n);
    BitsStep(2 * v, n);
    assert LowBits(2 * v, n) == [false] + LowBits(v, n)[..n - 1];
    if Shr(v, n - 1) % 2 == 1 {
      XorIsXor(2 * v, taps, n);
      assert F.Scale(true, LowBits(taps, n)) == LowBits(taps, n);
    } else {
      assert F.Xor(LowBits(2 * v, n), F.Scale(false, LowBits(taps, n))) == LowBits(2 * v, n);
    }
  }

  lemma {:induction false} XorFits(a: nat, b: nat, n: nat)
    ensures XorBits(a, b, n) < Pow2(n)
  {
    if n > 0 {
      XorFits(a / 2, b / 2, n - 1);
    }
  }

  lemma {:induction false} TopClear(v: nat, n: nat)
    requires n > 0 && v < Pow2(n) && Shr(v, n - 1) % 2 == 0
    ensures 2 * v < Pow2(n)
  {
    if n > 1 {
      ShrHalf(v, n - 1);
      TopClear(v / 2, n - 1);
    }
  }

  lemma {:induction false} RegisterFits(data: nat, taps: nat, n: nat, k: nat)
    requires n > 0 && data < Pow2(n)
    ensures Register(data, taps, n, k) < Pow2(n)
  {
    if k > 0 {
      RegisterFits(data, taps, n, k - 1);
      var rem := Register(data, taps, n, k - 1);
      XorFits(2 * rem, taps, n);
      if Shr(rem, n - 1) % 2 == 0 {
        TopClear(rem, n);
      }
    }
  }

  /** The fifteen bits as a number: (data << 10 | rem) ^ 0x5412. */
  function FormatNumber(data: nat): nat { XorBits(Register(data, 0x137, 10, 10) + 1024 * data, 0x5412, 15) }

  /** version << 12 | rem. */
  function VersionNumber(version: nat): nat { Register(version, 0xF25, 12, 12) + 4096 * version }

  lemma WordIsNumber(ecc: nat, mask: nat)
    requires ecc < 4 && mask < 8
    ensures Word(ecc, mask) == LowBits(FormatNumber(8 * ecc + mask), 15)
  {
    hide LowBits, XorBits, Register, Shifted, F.Xor;
    var data := 8 * ecc + mask;
    var rem := Register(data, 0x137, 10, 10);
    Powers();
    RegisterIs(data, 0x137, 10, 10);
    RegisterFits(data, 0x137, 10, 10);
    BitsSplit(rem, data, 10, 5);
    XorIsXor(rem + 1024 * data, 0x5412, 15);
  }

  lemma VersionIsNumber(version: nat)
    requires version <= 40
    ensures VersionWord(version) == LowBits(VersionNumber(version), 18)
  {
    hide LowBits, Register, Shifted;
    Powers();
    RegisterIs(version, 0xF25, 12, 12);
    RegisterFits(version, 0xF25, 12, 12);
    BitsSplit(Register(version, 0xF25, 12, 12), version, 12, 6);
  }

  lemma Powers()
    ensures Pow2(10) == 1024 && Pow2(12) == 4096
  {}

  lemma TwiceAs(d: nat, p: nat)
    ensures d * (2 * p) == 2 * (d * p)
  {}

  /** Steps that lose no bit double. */
  lemma {:induction false} Doubles(data: nat, taps: nat, n: nat, k: nat)
    requires n > 0 && data * Pow2(k) < Pow2(n)
    ensures Register(data, taps, n, k) == data * Pow2(k)
  {
    hide XorBits, Shr;
    if k > 0 {
      TwiceAs(data, Pow2(k - 1));
      Doubles(data, taps, n, k - 1);
      ShrOfSmall(data * Pow2(k - 1), n - 1);
    }
  }

  lemma {:induction false} ShrOfSmall(v: nat, k: nat)
    requires v < Pow2(k)
    ensures Shr(v, k) == 0
  {
    if k > 0 {
      ShrHalf(v, k);
      ShrOfSmall(v / 2, k - 1);
    }
  }

  lemma {:induction false} GoesOn(data: nat, taps: nat, n: nat, j: nat, k: nat)
    requires n > 0
    ensures Register(data, taps, n, j + k) == Register(Register(data, taps, n, j), taps, n, k)
  {
    hide XorBits, Shr;
    if k > 0 {
      GoesOn(data, taps, n, j, k - 1);
    }
  }

  lemma Literals()
    ensures Pow2(2) == 4 && Pow2(7) == 128 && Pow2(9) == 512
    ensures Shr(0x280, 9) == 1 && Shr(0xE00, 11) == 1
  {}

  lemma XorLiterals()
    ensures XorBits(0x500, 0x137, 10) == 0x37 && XorBits(0x1C00, 0xF25, 12) == 0x325
  {
    assert XorBits(0xA, 0x2, 3) == 0x0;
    assert XorBits(0x50, 0x13, 6) == 0x3;
    assert XorBits(0x280, 0x9B, 9) == 0x1B;
    assert XorBits(0xE, 0x7, 3) == 0x1;
    assert XorBits(0x70, 0x3C, 6) == 0xC;
    assert XorBits(0x380, 0x1E4, 9) == 0x64;
  }

  lemma XorPaddingTop()
    ensures XorBits(0x29, 0xA8, 8) == 0x81
  {
    assert XorBits(0x0, 0x2, 2) == 0x2;
    assert XorBits(0x2, 0xA, 4) == 0x8;
    assert XorBits(0xA, 0x2A, 6) == 0x20;
  }

  lemma XorStep(a: nat, b: nat, n: nat, rest: nat)
    requires n > 0 && XorBits(a / 2, b / 2, n - 1) == rest
    ensures XorBits(a, b, n) == (a % 2 + b % 2) % 2 + 2 * rest
  {}

  lemma XorPadding()
    ensures XorBits(0x14DC, 0x5412, 15) == 0x40CE
  {
    hide XorBits;
    XorPaddingTop();
    XorStep(0x53, 0x150, 9, 0x81);
    XorStep(0xA6, 0x2A0, 10, 0x103);
    XorStep(0x14D, 0x541, 11, 0x206);
    XorStep(0x29B, 0xA82, 12, 0x40C);
    XorStep(0x537, 0x1504, 13, 0x819);
    XorStep(0xA6E, 0x2A09, 14, 0x1033);
    XorStep(0x14DC, 0x5412, 15, 0x2067);
  }

  /** The example of section 7.9: level M and mask 101 give 100000011001110. */
  lemma FormatExample()
    ensures Word(0, 5) == LowBits(0x40CE, 15)
  {
    hide LowBits, Word, Pow2, XorBits, Shr;
    WordIsNumber(0, 5);
    XorPadding();
    Literals();
    XorLiterals();
    Powers();
    Doubles(5, 0x137, 10, 7);
    Doubles(0x37, 0x137, 10, 2);
    GoesOn(5, 0x137, 10, 8, 2);
  }

  /** The example of section 7.10: version 7 gives 000111110010010100. */
  lemma VersionExample()
    ensures VersionWord(7) == LowBits(0x07C94, 18)
  {
    hide LowBits, VersionWord, Pow2, XorBits, Shr;
    VersionIsNumber(7);
    Literals();
    XorLiterals();
    Powers();
    Doubles(7, 0xF25, 12, 9);
    Doubles(0x325, 0xF25, 12, 2);
    GoesOn(7, 0xF25, 12, 10, 2);
  }

  // ---------------------------------------------------------------- where they are drawn

  /** The fifteen places of the format bits around the upper left finder pattern, lowest bit first. */
  const FIRST_COPY := [
    Cell(8, 0), Cell(8, 1), Cell(8, 2), Cell(8, 3), Cell(8, 4), Cell(8, 5), Cell(8, 7), Cell(8, 8),
    Cell(7, 8), Cell(5, 8), Cell(4, 8), Cell(3, 8), Cell(2, 8), Cell(1, 8), Cell(0, 8)
  ]

  /** Those of the second copy in a version 1 symbol, under the upper right pattern and beside the lower left one. */
  const SECOND_COPY := [
    Cell(20, 8), Cell(19, 8), Cell(18, 8), Cell(17, 8), Cell(16, 8), Cell(15, 8), Cell(14, 8), Cell(13, 8),
    Cell(8, 14), Cell(8, 15), Cell(8, 16), Cell(8, 17), Cell(8, 18), Cell(8, 19), Cell(8, 20)
  ]

  /** The version bits in the block above the lower left pattern; the other block is its mirror image. */
  const VERSION_BLOCK := [
    [0, 3, 6, 9, 12, 15],
    [1, 4, 7, 10, 13, 16],
    [2, 5, 8, 11, 14, 17]
  ]

  /** The second copy moves with its finder patterns, and the dark module with it. */
  lemma FormatPlaces(size: nat, t: nat)
    requires size >= 21 && t < 15
    ensures FormatCell(size, t) == FIRST_COPY[t]
    ensures var (c, moved) := (SECOND_COPY[t], size - 21);
            FormatCell(size, 15 + t) == if t < 8 then Cell(c.x + moved, c.y) else Cell(c.x, c.y + moved)
    ensures FormatCell(size, 30) == Cell(8, 13 + (size - 21))
  {}

  lemma VersionPlaces(size: nat, i: nat, j: nat)
    requires size >= 45 && i < 6 && j < 3
    ensures VersionBit(size, Cell(i, size - 11 + j)) == VERSION_BLOCK[j][i]
    ensures VersionBit(size, Cell(size - 11 + j, i)) == VERSION_BLOCK[j][i]
  {}
}
