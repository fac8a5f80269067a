/** The capacity tables of main/ui/qrcode.c, and what they promise: every entry divides into whole blocks, and the
    table of raw modules counts exactly the modules that the function patterns leave free. */
module Capacity {
  import opened Numbers
  import opened BitBuckets
  import opened Segments
  import opened Interleaving
  import opened Zigzag
  import opened FormatInfo
  import opened Patterns
  import opened FreeModules

  // ---------------------------------------------------------------- the tables

  // NUM_ERROR_CORRECTION_CODEWORDS, a row for each level.

  function MediumEcc(version: nat): nat {
    match version
    case 1 => 10 case 2 => 16 case 3 => 26 case 4 => 36 case 5 => 48 case 6 => 64 case 7 => 72 case 8 => 88
    case 9 => 110 case 10 => 130 case 11 => 150 case 12 => 176 case 13 => 198 case 14 => 216 case 15 => 240 case 16 => 280
    case 17 => 308 case 18 => 338 case 19 => 364 case 20 => 416 case 21 => 442 case 22 => 476 case 23 => 504 case 24 => 560
    case 25 => 588 case 26 => 644 case 27 => 700 case 28 => 728 case 29 => 784 case 30 => 812 case 31 => 868 case 32 => 924
    case 33 => 980 case 34 => 1036 case 35 => 1064 case 36 => 1120 case 37 => 1204 case 38 => 1260 case 39 => 1316 case 40 => 1372
    case _ => 0
  }

  function LowEcc(version: nat): nat {
    match version
    case 1 => 7 case 2 => 10 case 3 => 15 case 4 => 20 case 5 => 26 case 6 => 36 case 7 => 40 case 8 => 48
    case 9 => 60 case 10 => 72 case 11 => 80 case 12 => 96 case 13 => 104 case 14 => 120 case 15 => 132 case 16 => 144
    case 17 => 168 case 18 => 180 case 19 => 196 case 20 => 224 case 21 => 224 case 22 => 252 case 23 => 270 case 24 => 300
    case 25 => 312 case 26 => 336 case 27 => 360 case 28 => 390 case 29 => 420 case 30 => 450 case 31 => 480 case 32 => 510
    case 33 => 540 case 34 => 570 case 35 => 570 case 36 => 600 case 37 => 630 case 38 => 660 case 39 => 720 case 40 => 750
    case _ => 0
  }

  function HighEcc(version: nat): nat {
    match version
    case 1 => 17 case 2 => 28 case 3 => 44 case 4 => 64 case 5 => 88 case 6 => 112 case 7 => 130 case 8 => 156
    case 9 => 192 case 10 => 224 case 11 => 264 case 12 => 308 case 13 => 352 case 14 => 384 case 15 => 432 case 16 => 480
    case 17 => 532 case 18 => 588 case 19 => 650 case 20 => 700 case 21 => 750 case 22 => 816 case 23 => 900 case 24 => 960
    case 25 => 1050 case 26 => 1110 case 27 => 1200 case 28 => 1260 case 29 => 1350 case 30 => 1440 case 31 => 1530 case 32 => 1620
    case 33 => 1710 case 34 => 1800 case 35 => 1890 case 36 => 1980 case 37 => 2100 case 38 => 2220 case 39 => 2310 case 40 => 2430
    case _ => 0
  }

  function QuartileEcc(version: nat): nat {
    match version
    case 1 => 13 case 2 => 22 case 3 => 36 case 4 => 52 case 5 => 72 case 6 => 96 case 7 => 108 case 8 => 132
    case 9 => 160 case 10 => 192 case 11 => 224 case 12 => 260 case 13 => 288 case 14 => 320 case 15 => 360 case 16 => 408
    case 17 => 448 case 18 => 504 case 19 => 546 case 20 => 600 case 21 => 644 case 22 => 690 case 23 => 750 case 24 => 810
    case 25 => 870 case 26 => 952 case 27 => 1020 case 28 => 1050 case 29 => 1140 case 30 => 1200 case 31 => 1290 case 32 => 1350
    case 33 => 1440 case 34 => 1530 case 35 => 1590 case 36 => 1680 case 37 => 1770 case 38 => 1860 case 39 => 1950 case 40 => 2040
    case _ => 0
  }

  // NUM_ERROR_CORRECTION_BLOCKS.

  function MediumBlocks(version: nat): nat {
    match version
    case 1 => 1 case 2 => 1 case 3 => 1 case 4 => 2 case 5 => 2 case 6 => 4 case 7 => 4 case 8 => 4
    case 9 => 5 case 10 => 5 case 11 => 5 case 12 => 8 case 13 => 9 case 14 => 9 case 15 => 10 case 16 => 10
    case 17 => 11 case 18 => 13 case 19 => 14 case 20 => 16 case 21 => 17 case 22 => 17 case 23 => 18 case 24 => 20
    case 25 => 21 case 26 => 23 case 27 => 25 case 28 => 26 case 29 => 28 case 30 => 29 case 31 => 31 case 32 => 33
    case 33 => 35 case 34 => 37 case 35 => 38 case 36 => 40 case 37 => 43 case 38 => 45 case 39 => 47 case 40 => 49
    case _ => 0
  }

  function LowBlocks(version: nat): nat {
    match version
    case 1 => 1 case 2 => 1 case 3 => 1 case 4 => 1 case 5 => 1 case 6 => 2 case 7 => 2 case 8 => 2
    case 9 => 2 case 10 => 4 case 11 => 4 case 12 => 4 case 13 => 4 case 14 => 4 case 15 => 6 case 16 => 6
    case 17 => 6 case 18 => 6 case 19 => 7 case 20 => 8 case 21 => 8 case 22 => 9 case 23 => 9 case 24 => 10
    case 25 => 12 case 26 => 12 case 27 => 12 case 28 => 13 case 29 => 14 case 30 => 15 case 31 => 16 case 32 => 17
    case 33 => 18 case 34 => 19 case 35 => 19 case 36 => 20 case 37 => 21 case 38 => 22 case 39 => 24 case 40 => 25
    case _ => 0
  }

  function HighBlocks(version: nat): nat {
    match version
    case 1 => 1 case 2 => 1 case 3 => 2 case 4 => 4 case 5 => 4 case 6 => 4 case 7 => 5 case 8 => 6
    case 9 => 8 case 10 => 8 case 11 => 11 case 12 => 11 case 13 => 16 case 14 => 16 case 15 => 18 case 16 => 16
    case 17 => 19 case 18 => 21 case 19 => 25 case 20 => 25 case 21 => 25 case 22 => 34 case 23 => 30 case 24 => 32
    case 25 => 35 case 26 => 37 case 27 => 40 case 28 => 42 case 29 => 45 case 30 => 48 case 31 => 51 case 32 => 54
    case 33 => 57 case 34 => 60 case 35 => 63 case 36 => 66 case 37 => 70 case 38 => 74 case 39 => 77 case 40 => 81
    case _ => 0
  }

  function QuartileBlocks(version: nat): nat {
    match version
    case 1 => 1 case 2 => 1 case 3 => 2 case 4 => 2 case 5 => 4 case 6 => 4 case 7 => 6 case 8 => 6
    case 9 => 8 case 10 => 8 case 11 => 8 case 12 => 10 case 13 => 12 case 14 => 16 case 15 => 12 case 16 => 17
    case 17 => 16 case 18 => 18 case 19 => 21 case 20 => 20 case 21 => 23 case 22 => 23 case 23 => 25 case 24 => 27
    case 25 => 29 case 26 => 34 case 27 => 34 case 28 => 35 case 29 => 38 case 30 => 40 case 31 => 43 case 32 => 45
    case 33 => 48 case 34 => 51 case 35 => 53 case 36 => 56 case 37 => 59 case 38 => 62 case 39 => 65 case 40 => 68
    case _ => 0
  }

  /** NUM_RAW_DATA_MODULES. */
  function RawModules(version: nat): nat {
    match version
    case 1 => 208 case 2 => 359 case 3 => 567 case 4 => 807 case 5 => 1079 case 6 => 1383 case 7 => 1568 case 8 => 1936
    case 9 => 2336 case 10 => 2768 case 11 => 3232 case 12 => 3728 case 13 => 4256 case 14 => 4651 case 15 => 5243 case 16 => 5867
    case 17 => 6523 case 18 => 7211 case 19 => 7931 case 20 => 8683 case 21 => 9252 case 22 => 10068 case 23 => 10916 case 24 => 11796
    case 25 => 12708 case 26 => 13652 case 27 => 14628 case 28 => 15371 case 29 => 16411 case 30 => 17483 case 31 => 18587 case 32 => 19723
    case 33 => 20891 case 34 => 22091 case 35 => 23008 case 36 => 24272 case 37 => 25568 case 38 => 26896 case 39 => 28256 case 40 => 29648
    case _ => 0
  }

  function EccCodewords(level: nat, version: nat): nat {
    match level
    case 0 => MediumEcc(version)
    case 1 => LowEcc(version)
    case 2 => HighEcc(version)
    case _ => QuartileEcc(version)
  }

  function EccBlocks(level: nat, version: nat): nat {
    match level
    case 0 => MediumBlocks(version)
    case 1 => LowBlocks(version)
    case 2 => HighBlocks(version)
    case _ => QuartileBlocks(version)
  }

  // ---------------------------------------------------------------- whole blocks

  /** An entry divides into blocks that fit their C types. */
  predicate Divides(numBlocks: nat, totalEcc: nat, moduleCount: nat) {
    && 0 < numBlocks < 0x100 && moduleCount < 0x10000 && totalEcc % numBlocks == 0
    && 0 < totalEcc / numBlocks <= moduleCount / 8 / numBlocks < 0x100
  }

  lemma MediumDivides(version: nat)
    requires 1 <= version <= 40
    ensures Divides(MediumBlocks(version), MediumEcc(version), RawModules(version))
  {
    match version
    case 1 => case 2 => case 3 => case 4 => case 5 => case 6 => case 7 => case 8 => case 9 => case 10 =>
    case 11 => case 12 => case 13 => case 14 => case 15 => case 16 => case 17 => case 18 => case 19 => case 20 =>
    case 21 => case 22 => case 23 => case 24 => case 25 => case 26 => case 27 => case 28 => case 29 => case 30 =>
    case 31 => case 32 => case 33 => case 34 => case 35 => case 36 => case 37 => case 38 => case 39 => case 40 =>
    case _ =>
  }

  lemma LowDivides(version: nat)
    requires 1 <= version <= 40
    ensures Divides(LowBlocks(version), LowEcc(version), RawModules(version))
  {
    match version
    case 1 => case 2 => case 3 => case 4 => case 5 => case 6 => case 7 => case 8 => case 9 => case 10 =>
    case 11 => case 12 => case 13 => case 14 => case 15 => case 16 => case 17 => case 18 => case 19 => case 20 =>
    case 21 => case 22 => case 23 => case 24 => case 25 => case 26 => case 27 => case 28 => case 29 => case 30 =>
    case 31 => case 32 => case 33 => case 34 => case 35 => case 36 => case 37 => case 38 => case 39 => case 40 =>
    case _ =>
  }

  lemma HighDivides(version: nat)
    requires 1 <= version <= 40
    ensures Divides(HighBlocks(version), HighEcc(version), RawModules(version))
  {
    match version
    case 1 => case 2 => case 3 => case 4 => case 5 => case 6 => case 7 => case 8 => case 9 => case 10 =>
    case 11 => case 12 => case 13 => case 14 => case 15 => case 16 => case 17 => case 18 => case 19 => case 20 =>
    case 21 => case 22 => case 23 => case 24 => case 25 => case 26 => case 27 => case 28 => case 29 => case 30 =>
    case 31 => case 32 => case 33 => case 34 => case 35 => case 36 => case 37 => case 38 => case 39 => case 40 =>
    case _ =>
  }

  lemma QuartileDivides(version: nat)
    requires 1 <= version <= 40
    ensures Divides(QuartileBlocks(version), QuartileEcc(version), RawModules(version))
  {
    match version
    case 1 => case 2 => case 3 => case 4 => case 5 => case 6 => case 7 => case 8 => case 9 => case 10 =>
    case 11 => case 12 => case 13 => case 14 => case 15 => case 16 => case 17 => case 18 => case 19 => case 20 =>
    case 21 => case 22 => case 23 => case 24 => case 25 => case 26 => case 27 => case 28 => case 29 => case 30 =>
    case 31 => case 32 => case 33 => case 34 => case 35 => case 36 => case 37 => case 38 => case 39 => case 40 =>
    case _ =>
  }

  /** Every entry, for all versions and levels. */
  lemma EntriesDivide(level: nat, version: nat)
    requires level < 4 && 1 <= version <= 40
    ensures Layout(EccBlocks(level, version), EccCodewords(level, version), RawModules(version)).Valid()
  {
    hide MediumEcc, LowEcc, HighEcc, QuartileEcc, MediumBlocks, LowBlocks, HighBlocks, QuartileBlocks, RawModules;
    MediumDivides(version);
    LowDivides(version);
    HighDivides(version);
    QuartileDivides(version);
  }

  /** What performErrorCorrection looks up. */
  function LayoutOf(level: nat, version: nat): (l: Layout)
    requires level < 4 && 1 <= version <= 40
    ensures l.Valid() && l.moduleCount == RawModules(version)
  {
    EntriesDivide(level, version);
    Layout(EccBlocks(level, version), EccCodewords(level, version), RawModules(version))
  }

  // ---------------------------------------------------------------- raw modules

  /** The side of the symbol squared, less its function modules. */
  function Formula(version: nat): int {
    var size, n := 4 * version + 17, AlignCount(version);
    size * size - 2 * size - 191 - (if version < 7 then 0 else 36)
    - (if version == 1 then 0 else 20 * (n - 2) + (n - 2) * (20 + 25 * (n - 1)) + 25 * (n - 1))
  }

  lemma TableIsFormula(version: nat)
    requires 1 <= version <= 40
    ensures RawModules(version) == Formula(version)
  {
    match version
    case 1 => case 2 => case 3 => case 4 => case 5 => case 6 => case 7 => case 8 => case 9 => case 10 =>
    case 11 => case 12 => case 13 => case 14 => case 15 => case 16 => case 17 => case 18 => case 19 => case 20 =>
    case 21 => case 22 => case 23 => case 24 => case 25 => case 26 => case 27 => case 28 => case 29 => case 30 =>
    case 31 => case 32 => case 33 => case 34 => case 35 => case 36 => case 37 => case 38 => case 39 => case 40 =>
    case _ =>
  }

  /** For every version the table of raw modules counts exactly the free modules of the symbol. */
  lemma RawModulesAreFree(version: nat)
    requires 1 <= version <= 40
    ensures Side(4 * version + 17) && |Spaces(version, Whole(4 * version + 17))| == RawModules(version)
  {
    hide RawModules, Whole, Spaces, AlignCount, SquaresSize;
    TableIsFormula(version);
    SpacesCounted(version);
    if version > 1 {
      Centers(version);
      SquaresCounted(AlignCount(version));
    }
  }

  lemma Centers(version: nat)
    ensures AlignCount(version) >= 2
  {}

  // ---------------------------------------------------------------- what fits

  /** The most data codewords of any level, by the versions that share a count width. */
  function MostBytes(version: nat): nat { if version <= 9 then 232 else if version <= 26 then 1370 else 2956 }

  lemma MediumBound(version: nat)
    requires 1 <= version <= 40
    ensures RawModules(version) / 8 - MediumEcc(version) <= MostBytes(version)
  {
    match version
    case 1 => case 2 => case 3 => case 4 => case 5 => case 6 => case 7 => case 8 => case 9 => case 10 =>
    case 11 => case 12 => case 13 => case 14 => case 15 => case 16 => case 17 => case 18 => case 19 => case 20 =>
    case 21 => case 22 => case 23 => case 24 => case 25 => case 26 => case 27 => case 28 => case 29 => case 30 =>
    case 31 => case 32 => case 33 => case 34 => case 35 => case 36 => case 37 => case 38 => case 39 => case 40 =>
    case _ =>
  }

  lemma LowBound(version: nat)
    requires 1 <= version <= 40
    ensures RawModules(version) / 8 - LowEcc(version) <= MostBytes(version)
  {
    match version
    case 1 => case 2 => case 3 => case 4 => case 5 => case 6 => case 7 => case 8 => case 9 => case 10 =>
    case 11 => case 12 => case 13 => case 14 => case 15 => case 16 => case 17 => case 18 => case 19 => case 20 =>
    case 21 => case 22 => case 23 => case 24 => case 25 => case 26 => case 27 => case 28 => case 29 => case 30 =>
    case 31 => case 32 => case 33 => case 34 => case 35 => case 36 => case 37 => case 38 => case 39 => case 40 =>
    case _ =>
  }

  lemma HighBound(version: nat)
    requires 1 <= version <= 40
    ensures RawModules(version) / 8 - HighEcc(version) <= MostBytes(version)
  {
    match version
    case 1 => case 2 => case 3 => case 4 => case 5 => case 6 => case 7 => case 8 => case 9 => case 10 =>
    case 11 => case 12 => case 13 => case 14 => case 15 => case 16 => case 17 => case 18 => case 19 => case 20 =>
    case 21 => case 22 => case 23 => case 24 => case 25 => case 26 => case 27 => case 28 => case 29 => case 30 =>
    case 31 => case 32 => case 33 => case 34 => case 35 => case 36 => case 37 => case 38 => case 39 => case 40 =>
    case _ =>
  }

  lemma QuartileBound(version: nat)
    requires 1 <= version <= 40
    ensures RawModules(version) / 8 - QuartileEcc(version) <= MostBytes(version)
  {
    match version
    case 1 => case 2 => case 3 => case 4 => case 5 => case 6 => case 7 => case 8 => case 9 => case 10 =>
    case 11 => case 12 => case 13 => case 14 => case 15 => case 16 => case 17 => case 18 => case 19 => case 20 =>
    case 21 => case 22 => case 23 => case 24 => case 25 => case 26 => case 27 => case 28 => case 29 => case 30 =>
    case 31 => case 32 => case 33 => case 34 => case 35 => case 36 => case 37 => case 38 => case 39 => case 40 =>
    case _ =>
  }

  lemma DataBound(level: nat, version: nat)
    requires level < 4 && 1 <= version <= 40
    ensures LayoutOf(level, version).DataLen() <= MostBytes(version)
  {
    hide MediumEcc, LowEcc, HighEcc, QuartileEcc, MediumBlocks, LowBlocks, HighBlocks, QuartileBlocks, RawModules, MostBytes,
      Layout.DataLen;
    LayoutAddsUp(LayoutOf(level, version));
    MediumBound(version);
    LowBound(version);
    HighBound(version);
    QuartileBound(version);
  }

  lemma SegmentLength(text: Text, version: nat)
    ensures |Segment(text, version)| == 4 + GetModeBits(version, ModeOf(text)) + BodyLength(ModeOf(text), |text|)
  {
    hide GetModeBits, BodyLength, NumericTail, AlphanumericTail, ByteBits;
    if AllNumeric(text) {
      NumericReads(text, []);
    } else if AllAlphanumeric(text) {
      AlphanumericReads(text, []);
    } else {
      BytesRead(text, []);
    }
  }

  /** A text that fits the data codewords of any level fits the character count. */
  lemma CountFits(text: Text, level: nat, version: nat)
    requires level < 4 && 1 <= version <= 40
    requires |Segment(text, version)| <= 8 * LayoutOf(level, version).DataLen()
    ensures |text| < Pow2(GetModeBits(version, ModeOf(text)))
  {
    hide Segment, ModeOf, LayoutOf, GetModeBits, Layout.DataLen;
    DataBound(level, version);
    SegmentLength(text, version);
    ModeBitsTable(version);
    Widths();
    match ModeOf(text) case Numeric => case Alphanumeric => case Byte8 =>
  }

  lemma Widths()
    ensures Pow2(8) == 0x100 && Pow2(9) == 0x200 && Pow2(10) == 0x400 && Pow2(11) == 0x800 && Pow2(12) == 0x1000
    ensures Pow2(13) == 0x2000 && Pow2(14) == 0x4000 && Pow2(16) == 0x10000
  {}
}
