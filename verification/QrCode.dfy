/** qrcode_initBytes of main/ui/qrcode.c from end to end: a reader of the finished symbol gets the text
    back, and the symbol carries exactly one mask, the first of least penalty. */
module QrCode {
  import opened Numbers
  import opened Bytes
  import opened BitBuckets
  import opened Segments
  import opened Interleaving
  import opened Zigzag
  import opened Masking
  import opened FormatInfo
  import Patterns
  import opened Capacity
  import opened FreeModules
  import RS = ReedSolomon
  import P = Polynomials

  // ---------------------------------------------------------------- padding

  /** n pad bytes: 0xEC and 0x11 in turn. */
  function Filler(n: nat): (bits: seq<bool>)
    ensures |bits| == 8 * n
  {
    if n == 0 then [] else Filler(n - 1) + Bin(PadByte(n - 1), 8)
  }

  /** The terminator: four zeros, or as many as fit. */
  function Terminator(used: nat, capacity: nat): (n: nat)
    requires used <= 8 * capacity
    ensures used + n <= 8 * capacity && n <= 4
  {
    if 8 * capacity - used > 4 then 4 else 8 * capacity - used
  }

  function Aligned(used: nat): (n: nat)
    ensures used <= n < used + 8 && n % 8 == 0
  {
    used + (8 - used % 8) % 8
  }

  function Blanks(n: nat): (bits: seq<bool>)
    ensures |bits| == n
  {
    seq(n, i => false)
  }

  lemma BlanksAdd(m: nat, n: nat, head: seq<bool>)
    ensures head + Blanks(m) + Blanks(n) == head + Blanks(m + n)
  {
    assert Blanks(m) + Blanks(n) == Blanks(m + n);
  }

  /** The data codewords: the segment, a terminator, zeros up to a byte, and pad bytes. */
  function Padded(segment: seq<bool>, capacity: nat): (bits: seq<bool>)
    requires |segment| <= 8 * capacity
    ensures |bits| == 8 * capacity && bits[..|segment|] == segment
  {
    var n := Aligned(|segment| + Terminator(|segment|, capacity));
    segment + Blanks(n - |segment|) + Filler(capacity - n / 8)
  }

  lemma {:induction false} BinOfZero(n: nat)
    ensures Bin(0, n) == Blanks(n)
  {
    if n > 0 {
      BinOfZero(n - 1);
    }
  }

  /** The terminator and the zeros up to a byte. */
  method PadBits(codewords: BitBucket, capacity: nat, ghost segment: seq<bool>)
    requires Spells(codewords, segment) && |segment| == codewords.bitOffsetOrWidth <= 8 * capacity <= 8 * codewords.data.Length
    modifies codewords, codewords.data
    ensures |segment| <= Aligned(|segment| + Terminator(|segment|, capacity)) == codewords.bitOffsetOrWidth <= 8 * capacity
    ensures Spells(codewords, segment + Blanks(Aligned(|segment| + Terminator(|segment|, capacity)) - |segment|))
  {
    hide Bin, Blanks, Spells;
    var padding := 8 * capacity - codewords.bitOffsetOrWidth;
    if padding > 4 { padding := 4; }
    BinOfZero(padding);
    Append(codewords, 0, padding, segment, Blanks(padding));
    var align := (8 - codewords.bitOffsetOrWidth % 8) % 8;
    BinOfZero(align);
    Append(codewords, 0, align, segment + Blanks(padding), Blanks(align));
    BlanksAdd(padding, align, segment);
  }

  /** The pad byte for place m. */
  function PadByte(m: nat): nat { if m % 2 == 0 then 0xEC else 0x11 }

  lemma FillerStep(head: seq<bool>, m: nat)
    ensures head + Filler(0) == head
    ensures head + Filler(m) + Bin(PadByte(m), 8) == head + Filler(m + 1)
    ensures PadByte(m + 1) == if PadByte(m) == 0xEC then 0x11 else 0xEC
  {}

  /** Terminates, aligns and pads the segment. */
  method Pad(codewords: BitBucket, capacity: nat, ghost segment: seq<bool>)
    requires Spells(codewords, segment) && |segment| == codewords.bitOffsetOrWidth <= 8 * capacity <= 8 * codewords.data.Length
    modifies codewords, codewords.data
    ensures Spells(codewords, Padded(segment, capacity))
  {
    hide Bin, Blanks, Filler, PadByte, Spells;
    PadBits(codewords, capacity, segment);
    ghost var head := segment + Blanks(Aligned(|segment| + Terminator(|segment|, capacity)) - |segment|);
    var padByte: nat := 0xEC;
    ghost var m := 0;
    FirstPadByte();
    FillerStep(head, 0);
    while codewords.bitOffsetOrWidth < 8 * capacity
      invariant Spells(codewords, head + Filler(m))
      invariant codewords.bitOffsetOrWidth == |head| + 8 * m <= 8 * capacity
      invariant padByte == PadByte(m)
    {
      FillerStep(head, m);
      Append(codewords, padByte, 8, head + Filler(m), Bin(padByte, 8));
      m := m + 1;
      padByte := if padByte == 0xEC then 0x11 else 0xEC;   // ^= 0xEC ^ 0x11
    }
  }

  lemma FirstPadByte()
    ensures PadByte(0) == 0xEC
  {}

  lemma {:induction false} FillerAt(n: nat, m: nat)
    requires m < n
    ensures Filler(n)[8 * m..8 * m + 8] == Bin(if m % 2 == 0 then 0xEC else 0x11, 8)
    decreases n
  {
    hide Bin;
    if m < n - 1 {
      FillerAt(n - 1, m);
      assert Filler(n)[8 * m..8 * m + 8] == Filler(n - 1)[8 * m..8 * m + 8];
    }
  }

  lemma FilledByte(head: seq<bool>, n: nat, k: nat)
    requires k < n && |head| % 8 == 0
    ensures Num((head + Filler(n))[|head| + 8 * k..|head| + 8 * k + 8]) == if k % 2 == 0 then 0xEC else 0x11
  {
    hide Bin, Num, Pow2;
    FillerAt(n, k);
    assert (head + Filler(n))[|head| + 8 * k..|head| + 8 * k + 8] == Filler(n)[8 * k..8 * k + 8];
    EightBitsWide();
    NumBin(if k % 2 == 0 then 0xEC else 0x11, 8);
  }

  /** Where the pad bytes begin. */
  lemma PadPlace(used: nat, capacity: nat) returns (b: nat)
    requires used <= 8 * capacity
    ensures Aligned(used + Terminator(used, capacity)) == 8 * b
    ensures used <= 8 * b <= 8 * capacity && 8 * b < used + 4 + 8 && (b == capacity || used + 4 <= 8 * b)
  {
    b := Aligned(used + Terminator(used, capacity)) / 8;
  }

  /** Sections 7.4.9 and 7.4.10 of ISO/IEC 18004:2015: behind the segment come four zeros, or as many as there is room
      for, zeros up to a byte, and then the bytes 11101100 and 00010001 in turn. */
  lemma PaddedLooks(segment: seq<bool>, capacity: nat) returns (b: nat)
    requires |segment| <= 8 * capacity
    ensures |segment| <= 8 * b <= 8 * capacity && 8 * b < |segment| + 4 + 8
    ensures b == capacity || |segment| + 4 <= 8 * b
    ensures forall i :: |segment| <= i < 8 * b ==> !Padded(segment, capacity)[i]
    ensures forall k :: 0 <= k < capacity - b ==>
              Num(Padded(segment, capacity)[8 * b + 8 * k..8 * b + 8 * k + 8]) == if k % 2 == 0 then 0xEC else 0x11
  {
    hide Num, Filler, Aligned, Terminator;
    b := PadPlace(|segment|, capacity);
    var head := segment + Blanks(8 * b - |segment|);
    assert Padded(segment, capacity) == head + Filler(capacity - b);
    forall k | 0 <= k < capacity - b
      ensures Num((head + Filler(capacity - b))[8 * b + 8 * k..8 * b + 8 * k + 8]) == if k % 2 == 0 then 0xEC else 0x11
    {
      FilledByte(head, capacity - b, k);
    }
  }

  lemma EightBitsWide()
    ensures Pow2(8) == 256
  {}

  // ---------------------------------------------------------------- words of eight bits

  type Word8 = bits: seq<bool> | |bits| == 8 witness [false, false, false, false, false, false, false, false]

  /** The first n whole words of a bit string. */
  function Words(bits: seq<bool>, n: nat): (words: seq<Word8>)
    requires 8 * n <= |bits|
    ensures |words| == n
  {
    seq(n, k requires 0 <= k < n => bits[8 * k..8 * k + 8])
  }

  function Joined(words: seq<Word8>): (bits: seq<bool>)
    ensures |bits| == 8 * |words|
  {
    if words == [] then [] else Joined(words[..|words| - 1]) + words[|words| - 1]
  }

  lemma {:induction false} JoinedWords(bits: seq<bool>, n: nat)
    requires 8 * n <= |bits|
    ensures Joined(Words(bits, n)) == bits[..8 * n]
  {
    if n > 0 {
      JoinedWords(bits, n - 1);
      assert Words(bits, n)[..n - 1] == Words(bits, n - 1);
    }
  }

  /** The word a byte is, read from its most significant bit. */
  function WordOf(b: Byte): Word8 { seq(8, i requires 0 <= i < 8 => b[7 - i]) }

  lemma WordOfByte(data: seq<Byte>, n: nat, k: nat)
    requires k < n <= |data|
    ensures Words(BitsOf(data), n)[k] == WordOf(data[k])
  {
    var word := BitsOf(data)[8 * k..8 * k + 8];
    forall i | 0 <= i < 8
      ensures word[i] == WordOf(data[k])[i]
    {
      assert (8 * k + i) / 8 == k && (8 * k + i) % 8 == i;
    }
  }

  /** If the bytes are interleaved, so are the words a reader sees. */
  lemma WordsPlaced(l: Layout, data: seq<Byte>, result: seq<Byte>)
    requires l.Valid() && DataPlaced(l, data, result)
    requires l.DataLen() <= |data| && l.DataLen() <= l.Total() <= |result|
    ensures DataPlaced(l, Words(BitsOf(data), l.DataLen()), Words(BitsOf(result), l.Total()))
  {
    var from, to := Words(BitsOf(data), l.DataLen()), Words(BitsOf(result), l.Total());
    forall b: nat, i: nat | b < l.numBlocks && i < l.BlockLen(b)
      ensures Placed(l, from, to, b, i)
    {
      assert Placed(l, data, result, b, i);
      InBlock(l, b, i);
      WordOfByte(data, l.DataLen(), l.BlockStart(b) + i);
      WordOfByte(result, l.Total(), l.Pos(b, i));
    }
  }

  /** A reader's data stream: the message cut into codewords, de-interleaved and joined. */
  function ReadData(l: Layout, message: seq<bool>): seq<bool>
    requires l.Valid() && 8 * l.Total() <= |message|
  {
    LayoutAddsUp(l);
    Joined(Collect(l, Words(message, l.Total()), l.numBlocks))
  }

  lemma SameWords(a: seq<bool>, b: seq<bool>, n: nat)
    requires 8 * n <= |a| && 8 * n <= |b| && a[..8 * n] == b[..8 * n]
    ensures Words(a, n) == Words(b, n)
  {
    forall k | 0 <= k < n
      ensures Words(a, n)[k] == Words(b, n)[k]
    {
      assert a[8 * k..8 * k + 8] == a[..8 * n][8 * k..8 * k + 8];
      assert b[8 * k..8 * k + 8] == b[..8 * n][8 * k..8 * k + 8];
    }
  }

  /** De-interleaving any stream that starts with the message returns the data codewords. */
  lemma DataReadsBack(l: Layout, data: seq<Byte>, result: seq<Byte>, message: seq<bool>)
    requires l.Valid() && DataPlaced(l, data, result)
    requires l.DataLen() <= |data| && l.DataLen() <= l.Total() <= |result|
    requires 8 * l.Total() <= |message| && message[..8 * l.Total()] == BitsOf(result)[..8 * l.Total()]
    ensures ReadData(l, message) == BitsOf(data)[..8 * l.DataLen()]
  {
    hide BitsOf, Words, Joined, Collect, DataPlaced;
    LayoutAddsUp(l);
    SameWords(message, BitsOf(result), l.Total());
    WordsPlaced(l, data, result);
    var from, to := Words(BitsOf(data), l.DataLen()), Words(BitsOf(result), l.Total());
    CollectInverts(l, from, to, l.numBlocks);
    assert from[..l.DataLen()] == from;
    JoinedWords(BitsOf(data), l.DataLen());
  }

  // ---------------------------------------------------------------- the reader

  /** What the grids must be when the codewords are drawn: the timing column and the format modules are
      function modules, and the table of raw modules counts no more than the free ones. */
  ghost predicate Prepared(size: nat, isFunction: seq<bool>, moduleCount: nat) {
    && size % 2 == 1 && size >= 21 && size * size <= |isFunction|
    && (forall c: Cell :: Inside(size, c) && c.x == 6 ==> Get(size, isFunction, c))
    && FormatMarked(size, isFunction)
    && moduleCount <= |Free(size, Whole(size), isFunction)|
  }

  /** The level and the mask in the first copy of the format information. */
  function ReadFormat(size: nat, grid: seq<bool>): (word: seq<bool>)
    requires size >= 21
    ensures |word| == 15
  {
    ReadBack(size, grid, FormatCells(size)[..15])
  }

  /** The message under the mask. */
  function ReadMessage(size: nat, grid: seq<bool>, isFunction: seq<bool>, mask: nat): seq<bool>
    requires Side(size)
  {
    ReadBack(size, Masked(size, grid, isFunction, mask), Free(size, Whole(size), isFunction))
  }

  /** A reader of the whole symbol. */
  function ReadSymbol(size: nat, grid: seq<bool>, isFunction: seq<bool>, l: Layout, version: nat): Option<Text>
    requires size >= 21 && Side(size) && l.Valid()
  {
    var message := ReadMessage(size, grid, isFunction, ReadMask(ReadFormat(size, grid)));
    if |message| < 8 * l.Total() then None else ReadSegment(ReadData(l, message), version)
  }

  // ---------------------------------------------------------------- candidates

  /** The symbol with the format information and the mask of pattern i. */
  function Candidate(size: nat, drawn: seq<bool>, isFunction: seq<bool>, level: nat, i: nat): (g: seq<bool>)
    requires size >= 21
    ensures |g| == |drawn|
  {
    Masked(size, Drawn(size, drawn, FormatCells(size), FormatValues(Word(level, i))), isFunction, i)
  }

  /** A penalty score: an int32_t. */
  type Penalty = n: int | n <= INT32_MAX

  const INT32_MAX: int := 0x7FFF_FFFF

  function Scored(size: nat, drawn: seq<bool>, isFunction: seq<bool>, level: nat, penalty: seq<bool> -> Penalty, i: nat): Penalty
    requires size >= 21
  {
    penalty(Candidate(size, drawn, isFunction, level, i))
  }

  /** Pattern `mask` scores least of the eight, and the earlier ones all score more. */
  ghost predicate FirstOfLeast(size: nat, drawn: seq<bool>, isFunction: seq<bool>, level: nat, penalty: seq<bool> -> Penalty, mask: nat)
    requires size >= 21
  {
    var least := Scored(size, drawn, isFunction, level, penalty, mask);
    && mask < 8
    && (forall i: nat :: i < 8 ==> least <= Scored(size, drawn, isFunction, level, penalty, i))
    && (forall i: nat :: i < mask ==> least < Scored(size, drawn, isFunction, level, penalty, i))
  }

  /** The grid carries one mask over the drawn codewords, the first of least penalty. */
  ghost predicate BestMask(size: nat, drawn: seq<bool>, grid: seq<bool>, isFunction: seq<bool>, level: nat,
                           penalty: seq<bool> -> Penalty, mask: nat)
    requires size >= 21
  {
    && grid == Candidate(size, drawn, isFunction, level, mask)
    && FirstOfLeast(size, drawn, isFunction, level, penalty, mask)
  }

  /** The grid is the symbol with some format bits over it. */
  ghost predicate FormatOver(size: nat, drawn: seq<bool>, grid: seq<bool>)
    requires size >= 21
  {
    exists before :: |before| == 31 && grid == Drawn(size, drawn, FormatCells(size), before)
  }

  ghost predicate FormatMarked(size: nat, isFunction: seq<bool>)
    requires size >= 21
  {
    forall c :: c in FormatCells(size) ==> Get(size, isFunction, c)
  }

  /** The mask never touches the format modules, so a reader finds the pattern that was applied. */
  lemma FormatReadsBack(size: nat, drawn: seq<bool>, isFunction: seq<bool>, level: nat, mask: nat)
    requires size >= 21 && size * size <= |drawn| && size * size <= |isFunction|
    requires FormatMarked(size, isFunction)
    requires level < 4 && mask < 8
    ensures ReadFormat(size, Candidate(size, drawn, isFunction, level, mask)) == Word(level, mask)
  {
    hide Word, Drawn, Masked;
    var cells, values := FormatCells(size), FormatValues(Word(level, mask));
    var marked := Drawn(size, drawn, cells, values);
    forall t | 0 <= t < 15
      ensures Get(size, Candidate(size, drawn, isFunction, level, mask), cells[t]) == Word(level, mask)[t]
    {
      assert cells[t] in cells;
      MaskedAt(size, marked, isFunction, mask, cells[t]);
      ReadsWhatWasDrawn(size, drawn, cells, values, t);
    }
  }

  /** Removing the mask a reader found leaves the message in the free modules. */
  lemma MessageReads(size: nat, start: seq<bool>, isFunction: seq<bool>, level: nat, mask: nat, bits: seq<bool>)
    requires size * size <= |start| && Prepared(size, isFunction, |bits|)
    ensures var free := Free(size, Whole(size), isFunction);
            var symbol := Candidate(size, Drawn(size, start, free, bits), isFunction, level, mask);
            && |bits| <= |ReadMessage(size, symbol, isFunction, mask)|
            && ReadMessage(size, symbol, isFunction, mask)[..|bits|] == bits
  {
    hide Word, Drawn, Free, Whole, Masked, Inverts;
    var free := Free(size, Whole(size), isFunction);
    var drawn := Drawn(size, start, free, bits);
    var cells, values := FormatCells(size), FormatValues(Word(level, mask));
    var symbol := Drawn(size, drawn, cells, values);
    MaskTwice(size, symbol, isFunction, mask);
    MessageReadsBack(size, start, isFunction, bits);
    forall c | c in free
      ensures Get(size, symbol, c) == Get(size, drawn, c)
    {
      assert c !in cells;
      DrawnElsewhere(size, drawn, cells, values, c);
    }
    assert ReadBack(size, symbol, free) == ReadBack(size, drawn, free);
  }

  /** Every candidate symbol reads back as the text. */
  lemma CandidateReads(size: nat, start: seq<bool>, isFunction: seq<bool>, level: nat, mask: nat, l: Layout,
                       text: Text, version: nat, data: seq<Byte>, result: seq<Byte>)
    requires l.Valid() && level < 4 && mask < 8
    requires size * size <= |start| && Prepared(size, isFunction, l.moduleCount)
    requires |text| < Pow2(GetModeBits(version, ModeOf(text))) && |Segment(text, version)| <= 8 * l.DataLen()
    requires l.DataLen() <= |data| && BitsOf(data)[..8 * l.DataLen()] == Padded(Segment(text, version), l.DataLen())
    requires DataPlaced(l, data, result) && l.DataLen() <= l.Total() <= |result| && l.moduleCount <= 8 * |result|
    ensures var drawn := Drawn(size, start, Free(size, Whole(size), isFunction), BitsOf(result)[..l.moduleCount]);
            ReadSymbol(size, Candidate(size, drawn, isFunction, level, mask), isFunction, l, version) == Some(text)
  {
    hide BitsOf, Word, Drawn, Free, Whole, Masked, Inverts, ReadSegment, Segment, GetModeBits, ModeOf, Pow2,
      ReadData, DataPlaced, ReadMessage, ReadFormat, Candidate, ReadMask, Padded, Prepared;
    PreparedIs(size, isFunction, l.moduleCount);
    var bits := BitsOf(result)[..l.moduleCount];
    var drawn := Drawn(size, start, Free(size, Whole(size), isFunction), bits);
    var symbol := Candidate(size, drawn, isFunction, level, mask);
    FormatReadsBack(size, drawn, isFunction, level, mask);
    WordReads(level, mask);
    MessageReads(size, start, isFunction, level, mask, bits);
    var message := ReadMessage(size, symbol, isFunction, mask);
    PrefixOfPrefix(message, bits, BitsOf(result), 8 * l.Total());
    DataReadsBack(l, data, result, message);
    StreamReads(text, version, l.DataLen());
  }

  lemma PreparedIs(size: nat, isFunction: seq<bool>, moduleCount: nat)
    requires Prepared(size, isFunction, moduleCount)
    ensures size >= 21 && Side(size) && size * size <= |isFunction| && FormatMarked(size, isFunction)
  {}

  lemma PrefixOfPrefix<T>(a: seq<T>, b: seq<T>, c: seq<T>, n: nat)
    requires |b| <= |a| && a[..|b|] == b && |b| <= |c| && c[..|b|] == b && n <= |b|
    ensures a[..n] == c[..n]
  {
    assert a[..n] == b[..n] && c[..n] == b[..n];
  }

  /** The padded data stream reads as the text. */
  lemma StreamReads(text: Text, version: nat, capacity: nat)
    requires |text| < Pow2(GetModeBits(version, ModeOf(text))) && |Segment(text, version)| <= 8 * capacity
    ensures ReadSegment(Padded(Segment(text, version), capacity), version) == Some(text)
  {
    hide Segment, GetModeBits, ModeOf, Pow2, ReadSegment, Padded;
    var segment := Segment(text, version);
    var stream := Padded(segment, capacity);
    assert stream == segment + stream[|segment|..];
    SegmentReads(text, version, stream[|segment|..]);
  }

  // ---------------------------------------------------------------- choosing the mask

  /** One candidate: draw its format bits, mask, score, and unmask. */
  method TryMask(modules: BitBucket, isFunction: BitBucket, level: nat, i: nat, penalty: seq<bool> -> Penalty,
                 ghost drawn: seq<bool>) returns (score: Penalty)
    requires modules.data != isFunction.data && modules.bitOffsetOrWidth >= 21
    requires modules.IsGrid(modules.bitOffsetOrWidth) && isFunction.IsGrid(modules.bitOffsetOrWidth)
    requires FormatMarked(modules.bitOffsetOrWidth, isFunction.Bits())
    requires |drawn| == |modules.Bits()|
    requires FormatOver(modules.bitOffsetOrWidth, drawn, modules.Bits())
    modifies modules.data, isFunction.data
    ensures score == Scored(modules.bitOffsetOrWidth, drawn, isFunction.Bits(), level, penalty, i)
    ensures FormatOver(modules.bitOffsetOrWidth, drawn, modules.Bits()) && |modules.Bits()| == |drawn|
    ensures isFunction.Bits() == old(isFunction.Bits())
  {
    hide Word, Drawn, Masked, BitsOf;
    RedrawFormat(modules, isFunction, level, i, drawn);
    ghost var marked := modules.Bits();
    ApplyMask(modules, isFunction, i);
    score := Score(modules, penalty);
    ApplyMask(modules, isFunction, i);
    MaskTwice(modules.bitOffsetOrWidth, marked, isFunction.Bits(), i);
    assert |FormatValues(Word(level, i))| == 31;
  }

  /** getPenaltyScore, for any way of scoring the modules. */
  method Score(modules: BitBucket, penalty: seq<bool> -> Penalty) returns (score: Penalty)
    ensures score == penalty(modules.Bits())
  {
    score := penalty(BitsOf(modules.data[..]));
  }

  /** drawFormatBits over format bits that are there already. */
  method RedrawFormat(modules: BitBucket, isFunction: BitBucket, level: nat, i: nat, ghost drawn: seq<bool>)
    requires modules.data != isFunction.data && modules.bitOffsetOrWidth >= 21
    requires modules.IsGrid(modules.bitOffsetOrWidth) && isFunction.IsGrid(modules.bitOffsetOrWidth)
    requires FormatMarked(modules.bitOffsetOrWidth, isFunction.Bits())
    requires |drawn| == |modules.Bits()|
    requires FormatOver(modules.bitOffsetOrWidth, drawn, modules.Bits())
    modifies modules.data, isFunction.data
    ensures modules.Bits() == Drawn(modules.bitOffsetOrWidth, drawn, FormatCells(modules.bitOffsetOrWidth), FormatValues(Word(level, i)))
    ensures isFunction.Bits() == old(isFunction.Bits())
  {
    hide Word, Drawn, FormatValues, Marks, BitsOf;
    ghost var size := modules.bitOffsetOrWidth;
    ghost var cells := FormatCells(size);
    ghost var before :| |before| == 31 && modules.Bits() == Drawn(size, drawn, cells, before);
    Redrawn(size, drawn, cells, before, FormatValues(Word(level, i)));
    MarkedAlready(size, isFunction.Bits(), cells);
    DrawFormatBits(modules, isFunction, level, i);
  }

  /** The search among the eight patterns. */
  method FindMask(modules: BitBucket, isFunction: BitBucket, level: nat, penalty: seq<bool> -> Penalty) returns (mask: nat)
    requires modules.data != isFunction.data && modules.bitOffsetOrWidth >= 21
    requires modules.IsGrid(modules.bitOffsetOrWidth) && isFunction.IsGrid(modules.bitOffsetOrWidth)
    requires FormatMarked(modules.bitOffsetOrWidth, isFunction.Bits())
    modifies modules.data, isFunction.data
    ensures isFunction.Bits() == old(isFunction.Bits()) && |modules.Bits()| == |old(modules.Bits())|
    ensures FormatOver(modules.bitOffsetOrWidth, old(modules.Bits()), modules.Bits())
    ensures FirstOfLeast(modules.bitOffsetOrWidth, old(modules.Bits()), isFunction.Bits(), level, penalty, mask)
  {
    hide Candidate, FormatOver, FormatMarked, BitsOf;
    ghost var size, drawn, fn := modules.bitOffsetOrWidth, modules.Bits(), isFunction.Bits();
    OverItself(size, drawn);
    mask := 0;
    var minPenalty := INT32_MAX;
    for i: nat := 0 to 8
      invariant isFunction.Bits() == fn && |modules.Bits()| == |drawn|
      invariant FormatOver(size, drawn, modules.Bits())
      invariant mask == 0 || mask < i
      invariant forall j: nat :: j < i ==> minPenalty <= Scored(size, drawn, fn, level, penalty, j)
      invariant forall j: nat :: j < mask ==> minPenalty < Scored(size, drawn, fn, level, penalty, j)
      invariant (minPenalty == INT32_MAX && mask == 0) || minPenalty == Scored(size, drawn, fn, level, penalty, mask)
    {
      var p := TryMask(modules, isFunction, level, i, penalty, drawn);
      if p < minPenalty {
        mask, minPenalty := i, p;
      }
    }
  }

  /** The mask search and the final mask. */
  method ChooseMask(modules: BitBucket, isFunction: BitBucket, level: nat, penalty: seq<bool> -> Penalty) returns (mask: nat)
    requires modules.data != isFunction.data && modules.bitOffsetOrWidth >= 21
    requires modules.IsGrid(modules.bitOffsetOrWidth) && isFunction.IsGrid(modules.bitOffsetOrWidth)
    requires FormatMarked(modules.bitOffsetOrWidth, isFunction.Bits())
    modifies modules.data, isFunction.data
    ensures isFunction.Bits() == old(isFunction.Bits())
    ensures modules.Bits() == Candidate(modules.bitOffsetOrWidth, old(modules.Bits()), isFunction.Bits(), level, mask)
    ensures FirstOfLeast(modules.bitOffsetOrWidth, old(modules.Bits()), isFunction.Bits(), level, penalty, mask)
  {
    hide FirstOfLeast, FormatOver, FormatMarked, BitsOf, Drawn, Masked, Word;
    ghost var drawn := modules.Bits();
    mask := FindMask(modules, isFunction, level, penalty);
    RedrawFormat(modules, isFunction, level, mask, drawn);
    ApplyMask(modules, isFunction, mask);
  }

  /** A grid is its own modules drawn over it. */
  lemma OverItself(size: nat, grid: seq<bool>)
    requires size >= 21
    ensures FormatOver(size, grid, grid)
  {
    ReadBackDraws(size, grid, FormatCells(size));
    assert |ReadBack(size, grid, FormatCells(size))| == 31;
  }

  /** A grid is a drawing of its own modules. */
  lemma {:induction false} ReadBackDraws(size: nat, grid: seq<bool>, cells: seq<Cell>)
    ensures Drawn(size, grid, cells, ReadBack(size, grid, cells)) == grid
  {
    if cells != [] {
      var n := |cells| - 1;
      ReadBackDraws(size, grid, cells[..n]);
      DrawnSame(size, grid, cells[..n], ReadBack(size, grid, cells[..n]), ReadBack(size, grid, cells));
    }
  }

  lemma {:induction false} DrawnSame(size: nat, grid: seq<bool>, cells: seq<Cell>, a: seq<bool>, b: seq<bool>)
    requires |cells| <= |a| && |cells| <= |b| && a[..|cells|] == b[..|cells|]
    ensures Drawn(size, grid, cells, a) == Drawn(size, grid, cells, b)
  {
    if cells != [] {
      var n := |cells| - 1;
      assert a[..n] == a[..|cells|][..n] && b[..n] == b[..|cells|][..n];
      assert a[n] == a[..|cells|][n] && b[n] == b[..|cells|][n];
      DrawnSame(size, grid, cells[..n], a, b);
    }
  }

  // ---------------------------------------------------------------- the level

  /** ECC_FORMAT_BITS, two bits a level. */
  function EccFormatBits(ecc: nat): (bits: nat)
    requires ecc < 4
    ensures bits == match ecc case 0 => 1 case 1 => 0 case 2 => 3 case _ => 2
    ensures bits < 4
  {
    assert Shr(0xB1, 2) == 44 && Shr(0xB1, 4) == 11 && Shr(0xB1, 6) == 2;
    Shr(0xB1, 2 * ecc) % 4
  }

  // ---------------------------------------------------------------- the function patterns

  lemma {:induction false} FreeIsSpaces(version: nat, cells: seq<Cell>, isFunction: seq<bool>)
    requires version >= 1 && Patterns.ReservedGrid(version, isFunction)
    requires forall c :: c in cells ==> Inside(4 * version + 17, c)
    ensures Free(4 * version + 17, cells, isFunction) == Spaces(version, cells)
  {
    hide Patterns.Reserved, Get;
    if cells != [] {
      var n := |cells| - 1;
      assert cells[n] in cells && forall c :: c in cells[..n] ==> c in cells;
      FreeIsSpaces(version, cells[..n], isFunction);
    }
  }

  /** The function patterns leave the grids as the codewords need them, with room for exactly the raw modules that
      the table counts. */
  lemma PatternsPrepare(version: nat, isFunction: seq<bool>)
    requires 1 <= version <= 40 && Patterns.ReservedGrid(version, isFunction)
    requires (4 * version + 17) * (4 * version + 17) <= |isFunction|
    ensures Prepared(4 * version + 17, isFunction, RawModules(version))
    ensures |Free(4 * version + 17, Whole(4 * version + 17), isFunction)| == RawModules(version)
  {
    hide FormatCells, Free, Whole, Spaces, Get, Patterns.Aligned, Patterns.AtCorner, Patterns.VersionBit, RawModules;
    var size := 4 * version + 17;
    RawModulesAreFree(version);
    ScanVisitsOnce(size);
    FreeIsSpaces(version, Whole(size), isFunction);
    forall c: Cell | Inside(size, c) && c.x == 6
      ensures Get(size, isFunction, c)
    {
      assert Patterns.Reserved(version, c);
    }
    forall c | c in FormatCells(size)
      ensures Get(size, isFunction, c)
    {
      assert Patterns.Reserved(version, c);
    }
  }

  /** Every function module but the format information shows its pattern. */
  ghost predicate ShowsPatterns(version: nat, grid: seq<bool>)
    requires version >= 1
  {
    forall c: Cell :: Inside(4 * version + 17, c) && Patterns.Reserved(version, c) && c !in FormatCells(4 * version + 17) ==>
      Get(4 * version + 17, grid, c) == Patterns.PatternColor(version, c)
  }

  /** Neither codewords nor mask touch a pattern. */
  lemma PatternsStay(version: nat, start: seq<bool>, drawn: seq<bool>, isFunction: seq<bool>, level: nat, mask: nat)
    requires version >= 1 && Patterns.Painted(version, start) && Patterns.ReservedGrid(version, isFunction)
    requires var size := 4 * version + 17;
             && size * size <= |drawn| && size * size <= |isFunction|
             && forall c: Cell :: Inside(size, c) && Get(size, isFunction, c) ==> Get(size, drawn, c) == Get(size, start, c)
    ensures ShowsPatterns(version, Candidate(4 * version + 17, drawn, isFunction, level, mask))
  {
    hide FormatCells, Get, Drawn, Masked, Word, FormatValues, Patterns.Reserved, Patterns.PatternColor;
    var size := 4 * version + 17;
    var cells, values := FormatCells(size), FormatValues(Word(level, mask));
    forall c: Cell | Inside(size, c) && Patterns.Reserved(version, c) && c !in cells
      ensures Get(size, Candidate(size, drawn, isFunction, level, mask), c) == Patterns.PatternColor(version, c)
    {
      DrawnElsewhere(size, drawn, cells, values, c);
      MaskedAt(size, Drawn(size, drawn, cells, values), isFunction, mask, c);
    }
  }

  /** bb_initGrid and drawFunctionPatterns for both grids. */
  method StartGrids(version: nat, level: nat) returns (modules: BitBucket, isFunction: BitBucket)
    requires 1 <= version <= 40
    ensures fresh(modules) && fresh(modules.data) && fresh(isFunction) && fresh(isFunction.data)
    ensures modules.data != isFunction.data
    ensures modules.IsGrid(4 * version + 17) && isFunction.IsGrid(4 * version + 17)
    ensures Patterns.ReservedGrid(version, isFunction.Bits()) && Patterns.Painted(version, modules.Bits())
  {
    hide Patterns.ReservedGrid, Patterns.Painted, BitsOf;
    modules := new BitBucket.InitGrid(4 * version + 17);
    isFunction := new BitBucket.InitGrid(4 * version + 17);
    Patterns.DrawFunctionPatterns(modules, isFunction, version, level);
  }

  // ---------------------------------------------------------------- the whole encoder

  /** A reader gets the text. */
  ghost predicate Readable(version: nat, grid: seq<bool>, isFunction: seq<bool>, l: Layout, text: Text)
    requires version >= 1 && l.Valid()
  {
    SymbolSide(version);
    ReadSymbol(4 * version + 17, grid, isFunction, l, version) == Some(text)
  }

  /** The free modules of a grid, in scan order, show the bytes. */
  ghost predicate Carries(version: nat, grid: seq<bool>, isFunction: seq<bool>, bytes: seq<Byte>)
    requires version >= 1
  {
    SymbolSide(version);
    var shown := ReadBack(4 * version + 17, grid, Free(4 * version + 17, Whole(4 * version + 17), isFunction));
    |shown| <= 8 * |bytes| && shown == BitsOf(bytes)[..|shown|]
  }

  /** And so does the finished symbol, once the mask is removed. */
  ghost predicate CarriesMasked(version: nat, grid: seq<bool>, isFunction: seq<bool>, mask: nat, bytes: seq<Byte>)
    requires version >= 1
  {
    SymbolSide(version);
    var shown := ReadMessage(4 * version + 17, grid, isFunction, mask);
    |shown| <= 8 * |bytes| && shown == BitsOf(bytes)[..|shown|]
  }

  // ---------------------------------------------------------------- the codewords a reader takes out

  /** Block b of a message: its data codewords, de-interleaved, and its error correction bytes. */
  function Received(l: Layout, message: seq<Byte>, b: nat): seq<Byte>
    requires l.Valid() && b < l.numBlocks && l.Total() <= |message|
  {
    LayoutAddsUp(l);
    Block(l, Collect(l, message, l.numBlocks), b) + Ecc(l, message, b)
  }

  /** A multiple of the generator of degree d, zero at 2^0 ... 2^(d-1). */
  ghost predicate IsCodeword(d: nat, word: seq<Byte>) {
    && P.Divides(RS.Gf(), RS.Generator(d), word)
    && forall i :: 0 <= i < d ==> P.Eval(RS.Gf(), word, RS.Alpha(i)) == ZeroByte()
  }

  ghost predicate AllCodewords(l: Layout, message: seq<Byte>)
    requires l.Valid()
  {
    l.Total() <= |message| && forall b: nat :: b < l.numBlocks ==> IsCodeword(l.EccLen(), Received(l, message, b))
  }

  /** What performErrorCorrection leaves is a message of codewords. */
  lemma MessageIsCodewords(l: Layout, data: seq<Byte>, result: seq<Byte>)
    requires l.Valid() && DataPlaced(l, data, result) && l.DataLen() <= |data| && l.Total() <= |result|
    requires EccPlaced(l, data, result, l.numBlocks)
    ensures AllCodewords(l, result)
  {
    hide DataPlaced, EccPlaced, Collect, Ecc, P.Divides, P.Eval, RS.Gf, RS.Generator, RS.Alpha, Layout.DataLen, Layout.Total,
      Layout.EccLen;
    LayoutAddsUp(l);
    CollectInverts(l, data, result, l.numBlocks);
    forall b: nat | b < l.numBlocks
      ensures IsCodeword(l.EccLen(), Received(l, result, b))
    {
      BlocksAreCodewords(l, data, result, b);
      SameBlock(l, data, b);
    }
  }

  lemma SameBlock(l: Layout, data: seq<Byte>, b: nat)
    requires l.Valid() && b < l.numBlocks && l.DataLen() <= |data|
    ensures Block(l, data[..l.BlockStart(l.numBlocks)], b) == Block(l, data, b)
  {
    BlockStartStep(l, b);
    BlockStartMonotone(l, b + 1, l.numBlocks);
  }

  // ---------------------------------------------------------------- the whole encoder

  /** qrcode_initBytes, for text that fits.  `fn` are the function modules, which a reader knows from the version;
      `message` is what performErrorCorrection leaves, and `drawn` the grid drawCodewords leaves. */
  method InitBytes(version: nat, ecc: nat, text: Text, penalty: seq<bool> -> Penalty)
    returns (modules: BitBucket, mode: Mode, mask: nat, ghost fn: seq<bool>, ghost message: seq<Byte>, ghost drawn: seq<bool>)
    requires 1 <= version <= 40 && ecc < 4
    requires |Segment(text, version)| <= 8 * LayoutOf(EccFormatBits(ecc), version).DataLen()
    ensures mode == ModeOf(text) && modules.IsGrid(4 * version + 17)
    ensures Patterns.ReservedGrid(version, fn) && ShowsPatterns(version, modules.Bits())
    ensures Readable(version, modules.Bits(), fn, LayoutOf(EccFormatBits(ecc), version), text)
    ensures ReadFormat(4 * version + 17, modules.Bits()) == Word(EccFormatBits(ecc), mask)
    ensures AllCodewords(LayoutOf(EccFormatBits(ecc), version), message)
    ensures Carries(version, drawn, fn, message) && CarriesMasked(version, modules.Bits(), fn, mask, message)
    ensures BestMask(4 * version + 17, drawn, modules.Bits(), fn, EccFormatBits(ecc), penalty, mask)
  {
    hide BitsOf, Word, Drawn, Free, Whole, Masked, ReadSymbol, ReadFormat, Segment, GetModeBits, ModeOf, Pow2, Candidate,
      Padded, DataPlaced, EccPlaced, FirstOfLeast, FormatCells, ShowsPatterns, AllCodewords, Carries, CarriesMasked,
      EccBlocks, EccCodewords, RawModules, Patterns.ReservedGrid, Patterns.Painted;
    var size, level := 4 * version + 17, EccFormatBits(ecc);
    var l := LayoutOf(level, version);
    LayoutAddsUp(l);
    CountFits(text, level, version);
    var codewords := new BitBucket.InitBuffer((l.moduleCount + 7) / 8);
    mode := EncodeDataCodewords(codewords, text, version);
    Pad(codewords, l.DataLen(), Segment(text, version));
    ghost var data := codewords.data[..];
    assert BitsOf(data)[..8 * l.DataLen()] == Padded(Segment(text, version), l.DataLen());

    var isFunction;
    modules, isFunction := StartGrids(version, level);
    ghost var start := modules.Bits();
    fn := isFunction.Bits();
    PatternsPrepare(version, fn);

    PerformErrorCorrection(l, codewords);
    message := codewords.data[..];
    MessageIsCodewords(l, data, message);
    DrawCodewords(modules, isFunction, codewords);
    drawn := modules.Bits();
    mask := ChooseMask(modules, isFunction, level, penalty);
    MaskInRange(size, drawn, fn, level, penalty, mask);
    MessageReadsBack(size, start, fn, BitsOf(message)[..l.moduleCount]);
    PatternsStay(version, start, drawn, fn, level, mask);
    CandidateReads(size, start, fn, level, mask, l, text, version, data, message);
    FormatReadsBack(size, drawn, fn, level, mask);
    MessageReads(size, start, fn, level, mask, BitsOf(message)[..l.moduleCount]);
    AllShown(version, start, fn, level, mask, message);
  }

  /** The raw modules are all free modules, so the message fills them. */
  lemma AllShown(version: nat, start: seq<bool>, isFunction: seq<bool>, level: nat, mask: nat, message: seq<Byte>)
    requires 1 <= version <= 40 && RawModules(version) <= 8 * |message|
    requires var size := 4 * version + 17;
             && size * size <= |start| && Prepared(size, isFunction, RawModules(version))
             && |Free(size, Whole(size), isFunction)| == RawModules(version)
    ensures var size := 4 * version + 17;
            var drawn := Drawn(size, start, Free(size, Whole(size), isFunction), BitsOf(message)[..RawModules(version)]);
            && Carries(version, drawn, isFunction, message)
            && CarriesMasked(version, Candidate(size, drawn, isFunction, level, mask), isFunction, mask, message)
  {
    hide BitsOf, Drawn, Free, Whole, Masked, RawModules, Prepared, Candidate;
    var size := 4 * version + 17;
    var bits := BitsOf(message)[..RawModules(version)];
    SymbolSide(version);
    PreparedIs(size, isFunction, |bits|);
    PreparedTiming(size, isFunction, |bits|);
    MessageReadsBack(size, start, isFunction, bits);
    MessageReads(size, start, isFunction, level, mask, bits);
  }

  lemma PreparedTiming(size: nat, isFunction: seq<bool>, moduleCount: nat)
    requires Prepared(size, isFunction, moduleCount)
    ensures forall c: Cell :: Inside(size, c) && c.x == 6 ==> Get(size, isFunction, c)
  {}

  lemma MaskInRange(size: nat, drawn: seq<bool>, isFunction: seq<bool>, level: nat, penalty: seq<bool> -> Penalty, mask: nat)
    requires size >= 21 && FirstOfLeast(size, drawn, isFunction, level, penalty, mask)
    ensures mask < 8
  {}
}
