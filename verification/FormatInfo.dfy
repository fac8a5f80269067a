/** The format information of main/ui/qrcode.c: the error correction level and the mask, in a
    (15, 5) BCH code, drawn twice (section 7.9 of ISO/IEC 18004:2015). */
module FormatInfo {
  import opened Numbers
  import opened Bytes
  import opened BitBuckets
  import opened Zigzag
  import opened ByteOrder
  import F = BinaryField

  // ---------------------------------------------------------------- the word

  /** The low ten bits of the generator 0x537. */
  function Taps(): (taps: F.Poly)
    ensures |taps| == 10
  {
    LowBits(0x137, 10)
  }

  function Padding(): (word: F.Poly)
    ensures |word| == 15
  {
    LowBits(0x5412, 15)
  }

  /** x^k * v modulo a generator: k steps of its shift register. */
  function Shifted(v: F.Poly, k: nat, taps: F.Poly): (r: F.Poly)
    requires |v| == |taps| > 0
    ensures |r| == |v|
  {
    if k == 0 then v else F.Times(Shifted(v, k - 1, taps), taps)
  }

  /** data << 10 | rem, lowest bit first. */
  function Codeword(data: nat): (word: F.Poly)
    ensures |word| == 15
  {
    Shifted(LowBits(data, 10), 10, Taps()) + LowBits(data, 5)
  }

  /** The fifteen bits that are drawn for a level and a mask. */
  function Word(ecc: nat, mask: nat): (word: F.Poly)
    ensures |word| == 15
  {
    F.Xor(Codeword(8 * ecc + mask), Padding())
  }

  /** What a reader takes out of the fifteen bits. */
  function ReadMask(word: F.Poly): nat
    requires |word| == 15
  {
    Value(F.Xor(word, Padding())[10..13])
  }

  function ReadLevel(word: F.Poly): nat
    requires |word| == 15
  {
    Value(F.Xor(word, Padding())[13..15])
  }

  lemma BitsStep(n: nat, k: nat)
    requires k > 0
    ensures LowBits(n, k) == [n % 2 == 1] + LowBits(n / 2, k - 1)
  {}

  lemma HalfOfSum(low: nat, p: nat)
    ensures (low + 2 * p) / 2 == low / 2 + p && (low + 2 * p) % 2 == low % 2
  {}

  /** Where a number is cut in two, so are its bits. */
  lemma {:induction false} BitsSplit(low: nat, high: nat, j: nat, k: nat)
    requires low < Pow2(j)
    ensures LowBits(low + Pow2(j) * high, j + k) == LowBits(low, j) + LowBits(high, k)
  {
    hide LowBits;
    if j > 0 {
      var p := Pow2(j - 1) * high;
      assert Pow2(j) * high == 2 * p;
      HalfOfSum(low, p);
      BitsStep(low + 2 * p, j + k);
      BitsStep(low, j);
      BitsSplit(low / 2, high, j - 1, k);
    } else {
      NoBits(low);
    }
  }

  lemma NoBits(n: nat)
    ensures LowBits(n, 0) == [] && forall rest: seq<bool> :: [] + rest == rest
  {}

  lemma LevelAndMask(ecc: nat, mask: nat)
    requires ecc < 4 && mask < 8
    ensures var bits := LowBits(8 * ecc + mask, 5); Value(bits[..3]) == mask && Value(bits[3..]) == ecc
  {
    hide LowBits, Value;
    assert Pow2(3) == 8 && Pow2(2) == 4;
    BitsSplit(mask, ecc, 3, 2);
    ValueOfLowBits(mask, 3);
    ValueOfLowBits(ecc, 2);
  }

  /** A reader recovers the mask and the level. */
  lemma WordReads(ecc: nat, mask: nat)
    requires ecc < 4 && mask < 8
    ensures ReadMask(Word(ecc, mask)) == mask && ReadLevel(Word(ecc, mask)) == ecc
  {
    hide LowBits, Value, Shifted;
    var n := 8 * ecc + mask;
    assert F.Xor(Word(ecc, mask), Padding()) == Codeword(n);
    assert Codeword(n)[10..13] == LowBits(n, 5)[..3];
    assert Codeword(n)[13..15] == LowBits(n, 5)[3..];
    LevelAndMask(ecc, mask);
  }

  /** x^k as a polynomial of its own times v is v shifted k times. */
  lemma {:induction false} ShiftedActs(v: F.Poly, k: nat, taps: F.Poly)
    requires |v| == |taps| > 0
    ensures Shifted(v, k, taps) == F.Act(F.Zeros(k) + [true], v, taps)
    decreases k
  {
    hide F.Act, F.Xor, F.Scale, F.Times;
    var zeros := F.Zeros(|v|);
    if k == 0 {
      assert F.Zeros(0) + [true] == [true] + [];
      ActHead(true, [], v, taps);
      ActNothing(v, taps);
      F.XorLaws(v, zeros, zeros);
    } else {
      ShiftedActs(v, k - 1, taps);
      var rest := F.Zeros(k - 1) + [true];
      var r := F.Times(Shifted(v, k - 1, taps), taps);
      assert F.Zeros(k) + [true] == [false] + rest;
      ActHead(false, rest, v, taps);
      ActNothing(v, taps);
      F.XorLaws(r, zeros, zeros);
    }
  }

  lemma ActHead(b: bool, rest: F.Poly, v: F.Poly, taps: F.Poly)
    requires |v| == |taps| > 0
    ensures F.Act([b] + rest, v, taps) == F.Xor(F.Scale(b, v), F.Times(F.Act(rest, v, taps), taps))
  {
    hide F.Xor, F.Scale, F.Times;
    assert ([b] + rest)[1..] == rest;
  }

  lemma ActNothing(v: F.Poly, taps: F.Poly)
    requires |v| == |taps| > 0
    ensures F.Scale(true, v) == v && F.Scale(false, v) == F.Zeros(|v|)
    ensures F.Times(F.Act([], v, taps), taps) == F.Zeros(|v|)
  {}

  /** A shift register of n cells leaves the remainder of x^n * v by its generator. */
  lemma ShiftedIsRemainder(v: F.Poly, k: nat, taps: F.Poly)
    requires |v| == |taps| > 0
    ensures F.IsRemainder(F.Product(F.Zeros(k) + [true], v), Shifted(v, k, taps), taps)
  {
    hide F.Act, F.Product, Shifted;
    ShiftedActs(v, k, taps);
    var q := F.ActIsRemainder(F.Zeros(k) + [true], v, taps);
  }

  /** The check bits are the remainder of x^10 * data by the generator: with them the word is a multiple
      of it. */
  lemma CheckBitsAreRemainder(data: nat)
    ensures F.IsRemainder(F.Product(F.Zeros(10) + [true], LowBits(data, 10)), Codeword(data)[..10], Taps())
  {
    hide LowBits, F.Product, Shifted, F.IsRemainder;
    var v := LowBits(data, 10);
    ShiftedIsRemainder(v, 10, Taps());
    assert Codeword(data)[..10] == Shifted(v, 10, Taps());
  }

  // ---------------------------------------------------------------- where it is drawn

  /** The module that stroke t of drawFormatBits sets: the first copy, the second, the dark module. */
  function FormatCell(size: nat, t: nat): Cell
    requires size >= 21 && t < 31
  {
    if t < 6 then Cell(8, t)
    else if t == 6 then Cell(8, 7)
    else if t == 7 then Cell(8, 8)
    else if t == 8 then Cell(7, 8)
    else if t < 15 then Cell(14 - t, 8)
    else if t < 23 then Cell(size - 1 - (t - 15), 8)
    else if t < 30 then Cell(8, size - 15 + (t - 15))
    else Cell(8, size - 8)
  }

  function FormatCells(size: nat): (cells: seq<Cell>)
    requires size >= 21
    ensures |cells| == 31 && Distinct(cells)
    ensures forall c :: c in cells ==> Inside(size, c)
  {
    seq(31, t requires 0 <= t < 31 => FormatCell(size, t))
  }

  /** What each stroke sets its module to. */
  function FormatValues(word: F.Poly): (bits: seq<bool>)
    requires |word| == 15
    ensures |bits| == 31
  {
    word + word + [true]
  }

  function Marks(): (bits: seq<bool>)
    ensures |bits| == 31
  {
    seq(31, t => true)
  }

  // ---------------------------------------------------------------- drawing

  /** setFunctionModule. */
  method SetFunctionModule(modules: BitBucket, isFunction: BitBucket, c: Cell, on: bool)
    requires modules.data != isFunction.data && Inside(modules.bitOffsetOrWidth, c)
    requires modules.IsGrid(modules.bitOffsetOrWidth) && isFunction.IsGrid(modules.bitOffsetOrWidth)
    modifies modules.data, isFunction.data
    ensures modules.Bits() == Set(modules.bitOffsetOrWidth, old(modules.Bits()), c, on)
    ensures isFunction.Bits() == Set(modules.bitOffsetOrWidth, old(isFunction.Bits()), c, true)
  {
    modules.SetBit(c.x, c.y, on);
    isFunction.SetBit(c.x, c.y, true);
  }

  /** Stroke t of drawFormatBits. */
  method DrawStroke(modules: BitBucket, isFunction: BitBucket, c: Cell, t: nat, on: bool,
                    ghost before: seq<bool>, ghost marked: seq<bool>, ghost word: F.Poly)
    requires modules.data != isFunction.data && modules.bitOffsetOrWidth >= 21
    requires modules.IsGrid(modules.bitOffsetOrWidth) && isFunction.IsGrid(modules.bitOffsetOrWidth)
    requires |word| == 15 && t < 31 && c == FormatCell(modules.bitOffsetOrWidth, t) && on == FormatValues(word)[t]
    requires modules.Bits() == Drawn(modules.bitOffsetOrWidth, before, FormatCells(modules.bitOffsetOrWidth)[..t], FormatValues(word))
    requires isFunction.Bits() == Drawn(modules.bitOffsetOrWidth, marked, FormatCells(modules.bitOffsetOrWidth)[..t], Marks())
    modifies modules.data, isFunction.data
    ensures modules.Bits() == Drawn(modules.bitOffsetOrWidth, before, FormatCells(modules.bitOffsetOrWidth)[..t + 1], FormatValues(word))
    ensures isFunction.Bits() == Drawn(modules.bitOffsetOrWidth, marked, FormatCells(modules.bitOffsetOrWidth)[..t + 1], Marks())
  {
    ghost var size := modules.bitOffsetOrWidth;
    ghost var cells := FormatCells(size)[..t + 1];
    assert cells[..t] == FormatCells(size)[..t] && cells[t] == c && c in FormatCells(size);
    SetFunctionModule(modules, isFunction, c, on);
  }

  /** The check bits, by ten steps of a shift register. */
  method CheckBits(data: nat) returns (rem: F.Poly)
    ensures rem == Shifted(LowBits(data, 10), 10, Taps())
  {
    rem := LowBits(data, 10);
    for i := 0 to 10
      invariant rem == Shifted(LowBits(data, 10), i, Taps())
    {
      rem := F.Times(rem, Taps());   // (rem << 1) ^ ((rem >> 9) * 0x537): bit 10 cancels
    }
  }

  /** drawFormatBits. */
  method DrawFormatBits(modules: BitBucket, isFunction: BitBucket, ecc: nat, mask: nat)
    requires modules.data != isFunction.data && modules.bitOffsetOrWidth >= 21
    requires modules.IsGrid(modules.bitOffsetOrWidth) && isFunction.IsGrid(modules.bitOffsetOrWidth)
    modifies modules.data, isFunction.data
    ensures modules.Bits() == Drawn(modules.bitOffsetOrWidth, old(modules.Bits()),
                                    FormatCells(modules.bitOffsetOrWidth), FormatValues(Word(ecc, mask)))
    ensures isFunction.Bits() == Drawn(modules.bitOffsetOrWidth, old(isFunction.Bits()),
                                       FormatCells(modules.bitOffsetOrWidth), Marks())
  {
    hide Drawn, LowBits, Shifted, FormatCells, FormatValues, Marks;
    var size := modules.bitOffsetOrWidth;
    var rem := CheckBits(8 * ecc + mask);
    var data := F.Xor(rem + LowBits(8 * ecc + mask, 5), Padding());
    ghost var before, marked := modules.Bits(), isFunction.Bits();
    NoStrokes(size, before, data, marked);
    for i := 0 to 6
      invariant modules.Bits() == Drawn(size, before, FormatCells(size)[..i], FormatValues(data))
      invariant isFunction.Bits() == Drawn(size, marked, FormatCells(size)[..i], Marks())
    {
      ValueAt(data, i);
      DrawStroke(modules, isFunction, Cell(8, i), i, data[i], before, marked, data);
    }
    ValueAt(data, 6);
    DrawStroke(modules, isFunction, Cell(8, 7), 6, data[6], before, marked, data);
    ValueAt(data, 7);
    DrawStroke(modules, isFunction, Cell(8, 8), 7, data[7], before, marked, data);
    ValueAt(data, 8);
    DrawStroke(modules, isFunction, Cell(7, 8), 8, data[8], before, marked, data);
    for i := 9 to 15
      invariant modules.Bits() == Drawn(size, before, FormatCells(size)[..i], FormatValues(data))
      invariant isFunction.Bits() == Drawn(size, marked, FormatCells(size)[..i], Marks())
    {
      ValueAt(data, i);
      DrawStroke(modules, isFunction, Cell(14 - i, 8), i, data[i], before, marked, data);
    }
    for i := 0 to 8
      invariant modules.Bits() == Drawn(size, before, FormatCells(size)[..15 + i], FormatValues(data))
      invariant isFunction.Bits() == Drawn(size, marked, FormatCells(size)[..15 + i], Marks())
    {
      ValueAt(data, 15 + i);
      DrawStroke(modules, isFunction, Cell(size - 1 - i, 8), 15 + i, data[i], before, marked, data);
    }
    for i := 8 to 15
      invariant modules.Bits() == Drawn(size, before, FormatCells(size)[..15 + i], FormatValues(data))
      invariant isFunction.Bits() == Drawn(size, marked, FormatCells(size)[..15 + i], Marks())
    {
      ValueAt(data, 15 + i);
      DrawStroke(modules, isFunction, Cell(8, size - 15 + i), 15 + i, data[i], before, marked, data);
    }
    ValueAt(data, 30);
    DrawStroke(modules, isFunction, Cell(8, size - 8), 30, true, before, marked, data);
    assert FormatCells(size)[..31] == FormatCells(size);
  }

  lemma NoStrokes(size: nat, before: seq<bool>, word: F.Poly, marked: seq<bool>)
    requires size >= 21 && |word| == 15
    ensures before == Drawn(size, before, FormatCells(size)[..0], FormatValues(word))
    ensures marked == Drawn(size, marked, FormatCells(size)[..0], Marks())
  {}

  lemma ValueAt(word: F.Poly, t: nat)
    requires |word| == 15 && t < 31
    ensures FormatValues(word)[t] == if t < 15 then word[t] else if t < 30 then word[t - 15] else true
  {}

  // ---------------------------------------------------------------- redrawing

  lemma {:induction false} SetCommutes(size: nat, grid: seq<bool>, cells: seq<Cell>, bits: seq<bool>, c: Cell, b: bool)
    requires size * size <= |grid| && Inside(size, c) && c !in cells
    requires forall d :: d in cells ==> Inside(size, d)
    ensures Drawn(size, Set(size, grid, c, b), cells, bits) == Set(size, Drawn(size, grid, cells, bits), c, b)
  {
    if cells != [] {
      var n := |cells| - 1;
      assert cells[n] in cells;
      SetCommutes(size, grid, cells[..n], bits, c, b);
      if Index(size, c) == Index(size, cells[n]) {
        IndexInjective(size, c, cells[n]);
      }
    }
  }

  /** Drawing over a drawing leaves only the later one. */
  lemma {:induction false} Redrawn(size: nat, grid: seq<bool>, cells: seq<Cell>, first: seq<bool>, second: seq<bool>)
    requires size * size <= |grid| && Distinct(cells)
    requires forall d :: d in cells ==> Inside(size, d)
    requires |cells| <= |first| && |cells| <= |second|
    ensures Drawn(size, Drawn(size, grid, cells, first), cells, second) == Drawn(size, grid, cells, second)
  {
    if cells != [] {
      var n := |cells| - 1;
      var c, before := cells[n], cells[..n];
      assert c in cells;
      Redrawn(size, grid, before, first, second);
      SetCommutes(size, Drawn(size, grid, before, first), before, second, c, first[n]);
      var g := Drawn(size, grid, before, second);
      assert Set(size, Set(size, g, c, first[n]), c, second[n]) == Set(size, g, c, second[n]);
    }
  }

  /** Marking modules that are function modules already changes nothing. */
  lemma {:induction false} MarkedAlready(size: nat, isFunction: seq<bool>, cells: seq<Cell>)
    requires forall c :: c in cells ==> Get(size, isFunction, c)
    requires |cells| <= 31
    ensures Drawn(size, isFunction, cells, Marks()) == isFunction
  {
    if cells != [] {
      var n := |cells| - 1;
      assert cells[n] in cells;
      MarkedAlready(size, isFunction, cells[..n]);
    }
  }
}
