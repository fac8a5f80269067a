/** encodeDataCodewords of main/ui/qrcode.c: one data segment in the most compact of the numeric,
    alphanumeric and byte modes, and the reader that gets the text back (section 7.4 of
    ISO/IEC 18004:2015). */
module Segments {
  import opened Numbers
  import opened Bytes
  import opened BitBuckets

  type Text = seq<Octet>

  datatype Mode = Numeric | Alphanumeric | Byte8 {
    /** MODE_NUMERIC, MODE_ALPHANUMERIC, MODE_BYTE. */
    function Number(): nat { match this case Numeric => 0 case Alphanumeric => 1 case Byte8 => 2 }
  }

  // ---------------------------------------------------------------- characters

  const ZERO: Octet := 48    // '0'
  const UPPER_A: Octet := 65

  predicate IsDigit(c: Octet) { ZERO <= c < ZERO + 10 }

  /** getAlphanumeric: the value of a character in the 45-letter alphabet, or -1. */
  function GetAlphanumeric(c: Octet): int {
    if IsDigit(c) then c - ZERO
    else if UPPER_A <= c <= 90 then c - UPPER_A + 10
    else if c == 32 then 36        // space
    else if c == 36 then 37        // $
    else if c == 37 then 38        // %
    else if c == 42 then 39        // *
    else if c == 43 then 40        // +
    else if c == 45 then 41        // -
    else if c == 46 then 42        // .
    else if c == 47 then 43        // /
    else if c == 58 then 44        // :
    else -1
  }

  /** The reader's alphabet. */
  function AlphanumericChar(v: nat): Octet
    requires v < 45
  {
    if v < 10 then ZERO + v
    else if v < 36 then UPPER_A + (v - 10)
    else [32, 36, 37, 42, 43, 45, 46, 47, 58][v - 36]
  }

  lemma AlphabetRoundTrip(c: Octet)
    requires GetAlphanumeric(c) != -1
    ensures 0 <= GetAlphanumeric(c) < 45 && AlphanumericChar(GetAlphanumeric(c)) == c
  {}

  const DIGITS := "0123456789"
  const LETTERS := "ABCDEFGHIJKLM" + "NOPQRSTUVWXYZ"
  const SIGNS := " $%*+-./:"

  /** Table 5 of ISO/IEC 18004:2015: a character's value is its place among digits, letters and signs. */
  lemma AlphabetIs(v: nat)
    requires v < 45
    ensures |DIGITS| == 10 && |LETTERS| == 26 && |SIGNS| == 9
    ensures AlphanumericChar(v) == (if v < 10 then DIGITS[v] else if v < 36 then LETTERS[v - 10] else SIGNS[v - 36]) as int
    ensures GetAlphanumeric(AlphanumericChar(v)) == v
  {}

  ghost predicate AllNumeric(text: Text) { forall i :: 0 <= i < |text| ==> IsDigit(text[i]) }

  ghost predicate AllAlphanumeric(text: Text) { forall i :: 0 <= i < |text| ==> GetAlphanumeric(text[i]) != -1 }

  method IsNumeric(text: Text) returns (b: bool)
    ensures b == AllNumeric(text)
  {
    var length := |text|;
    while length != 0
      invariant 0 <= length <= |text|
      invariant forall i :: length <= i < |text| ==> IsDigit(text[i])
    {
      length := length - 1;
      if !IsDigit(text[length]) { return false; }
    }
    return true;
  }

  method IsAlphanumeric(text: Text) returns (b: bool)
    ensures b == AllAlphanumeric(text)
  {
    var length := |text|;
    while length != 0
      invariant 0 <= length <= |text|
      invariant forall i :: length <= i < |text| ==> GetAlphanumeric(text[i]) != -1
    {
      length := length - 1;
      if GetAlphanumeric(text[length]) == -1 { return false; }
    }
    return true;
  }

  // ---------------------------------------------------------------- the segment header

  /** getModeBits: the width of the character count, unpacked from the three-bit fields of modeInfo. */
  function GetModeBits(version: nat, mode: Mode): nat {
    var modeInfo := 0x7bbb80a;
    var modeInfo := if version > 9 then modeInfo / 0x200 else modeInfo;
    var modeInfo := if version > 26 then modeInfo / 0x200 else modeInfo;
    var field := match mode case Numeric => modeInfo case Alphanumeric => modeInfo / 8 case Byte8 => modeInfo / 64;
    var result := 8 + field % 8;
    if result == 15 then 16 else result
  }

  /** Table 3 of ISO/IEC 18004:2015. */
  lemma ModeBitsTable(version: nat)
    ensures version <= 9 ==>
              && GetModeBits(version, Numeric) == 10
              && GetModeBits(version, Alphanumeric) == 9
              && GetModeBits(version, Byte8) == 8
    ensures 9 < version <= 26 ==>
              && GetModeBits(version, Numeric) == 12
              && GetModeBits(version, Alphanumeric) == 11
              && GetModeBits(version, Byte8) == 16
    ensures 26 < version ==>
              && GetModeBits(version, Numeric) == 14
              && GetModeBits(version, Alphanumeric) == 13
              && GetModeBits(version, Byte8) == 16
  {}

  /** 1 << mode, in four bits. */
  function Indicator(mode: Mode): seq<bool> {
    match mode
    case Numeric => Bin(1, 4)
    case Alphanumeric => Bin(2, 4)
    case Byte8 => Bin(4, 4)
  }

  // ---------------------------------------------------------------- the segment body

  /** What remains to be appended when `acc` holds `count` digits and `rest` is still to come. */
  function NumericTail(acc: nat, count: nat, rest: Text): seq<bool>
    requires AllNumeric(rest)
    decreases |rest|
  {
    if rest == [] then (if count > 0 then Bin(acc, count * 3 + 1) else [])
    else
      var acc' := acc * 10 + (rest[0] - ZERO);
      if count + 1 == 3 then Bin(acc', 10) + NumericTail(0, 0, rest[1..])
      else NumericTail(acc', count + 1, rest[1..])
  }

  function AlphanumericTail(acc: nat, count: nat, rest: Text): seq<bool>
    requires AllAlphanumeric(rest)
    decreases |rest|
  {
    if rest == [] then (if count > 0 then Bin(acc, 6) else [])
    else
      var acc' := acc * 45 + GetAlphanumeric(rest[0]);
      if count + 1 == 2 then Bin(acc', 11) + AlphanumericTail(0, 0, rest[1..])
      else AlphanumericTail(acc', count + 1, rest[1..])
  }

  function ByteBits(text: Text): seq<bool> {
    if text == [] then [] else Bin(text[0], 8) + ByteBits(text[1..])
  }

  ghost function ModeOf(text: Text): Mode {
    if AllNumeric(text) then Numeric else if AllAlphanumeric(text) then Alphanumeric else Byte8
  }

  ghost function Body(text: Text): seq<bool> {
    if AllNumeric(text) then NumericTail(0, 0, text)
    else if AllAlphanumeric(text) then AlphanumericTail(0, 0, text)
    else ByteBits(text)
  }

  /** The whole segment. */
  ghost function Segment(text: Text, version: nat): seq<bool> {
    Indicator(ModeOf(text)) + Bin(|text|, GetModeBits(version, ModeOf(text))) + Body(text)
  }

  // ---------------------------------------------------------------- the reader

  /** The bits that n characters of a mode take. */
  function BodyLength(mode: Mode, n: nat): nat {
    match mode
    case Numeric => n / 3 * 10 + (if n % 3 == 0 then 0 else n % 3 * 3 + 1)
    case Alphanumeric => n / 2 * 11 + n % 2 * 6
    case Byte8 => 8 * n
  }

  /** A mode can hold a text if it has all its characters. */
  ghost predicate CanHold(mode: Mode, text: Text) {
    match mode
    case Numeric => forall c :: c in text ==> c in DigitCodes()
    case Alphanumeric => forall c :: c in text ==> c in AlphabetCodes()
    case Byte8 => true
  }

  ghost function DigitCodes(): set<int> { set v | 0 <= v < 10 :: AlphanumericChar(v) as int }

  ghost function AlphabetCodes(): set<int> { set v | 0 <= v < 45 :: AlphanumericChar(v) as int }

  /** The mode that is taken can hold the text, and of those that can it takes the fewest bits. */
  lemma ModeIsShortest(text: Text, mode: Mode)
    ensures CanHold(ModeOf(text), text)
    ensures CanHold(mode, text) ==> BodyLength(ModeOf(text), |text|) <= BodyLength(mode, |text|)
  {
    DigitsAre(text);
    LettersAre(text);
    hide AlphanumericChar, GetAlphanumeric, DigitCodes, AlphabetCodes, AllNumeric, AllAlphanumeric;
    if AllNumeric(text) { DigitsAreLetters(text); }
  }

  lemma DigitsAre(text: Text)
    ensures CanHold(Numeric, text) <==> AllNumeric(text)
  {
    forall i | 0 <= i < |text|
      ensures text[i] in DigitCodes() <==> IsDigit(text[i])
    {
      if IsDigit(text[i]) {
        assert AlphanumericChar(text[i] - ZERO) == text[i];
      }
    }
    assert forall i :: 0 <= i < |text| ==> text[i] in text;
  }

  lemma LettersAre(text: Text)
    ensures CanHold(Alphanumeric, text) <==> AllAlphanumeric(text)
  {
    hide AlphanumericChar, GetAlphanumeric;
    forall i | 0 <= i < |text|
      ensures text[i] in AlphabetCodes() <==> GetAlphanumeric(text[i]) != -1
    {
      LetterIs(text[i]);
    }
    assert forall i :: 0 <= i < |text| ==> text[i] in text;
  }

  lemma LetterIs(c: Octet)
    ensures c in AlphabetCodes() <==> GetAlphanumeric(c) != -1
  {
    hide AlphanumericChar, GetAlphanumeric;
    if GetAlphanumeric(c) != -1 {
      AlphabetRoundTrip(c);
      assert AlphanumericChar(GetAlphanumeric(c)) as int in AlphabetCodes();
    }
    if c in AlphabetCodes() {
      var v :| 0 <= v < 45 && AlphanumericChar(v) as int == c;
      AlphabetIs(v);
    }
  }

  lemma DigitsAreLetters(text: Text)
    requires AllNumeric(text)
    ensures AllAlphanumeric(text)
  {}

  function ReadDigits(bits: seq<bool>, n: nat): Text
    requires |bits| >= BodyLength(Numeric, n)
  {
    if n >= 3 then
      var v := Num(bits[..10]);
      [ZERO + v / 100 % 10, ZERO + v / 10 % 10, ZERO + v % 10] + ReadDigits(bits[10..], n - 3)
    else if n == 2 then
      var v := Num(bits[..7]);
      [ZERO + v / 10 % 10, ZERO + v % 10]
    else if n == 1 then [ZERO + Num(bits[..4]) % 10]
    else []
  }

  function ReadAlphanumerics(bits: seq<bool>, n: nat): Text
    requires |bits| >= BodyLength(Alphanumeric, n)
  {
    if n >= 2 then
      var v := Num(bits[..11]);
      [AlphanumericChar(v / 45 % 45), AlphanumericChar(v % 45)] + ReadAlphanumerics(bits[11..], n - 2)
    else if n == 1 then [AlphanumericChar(Num(bits[..6]) % 45)]
    else []
  }

  function ReadBytes(bits: seq<bool>, n: nat): Text
    requires |bits| >= BodyLength(Byte8, n)
  {
    if n == 0 then [] else [Num(bits[..8]) % 256] + ReadBytes(bits[8..], n - 1)
  }

  datatype Option<T> = None | Some(value: T)

  /** Reads the first segment of a bit stream. */
  function ReadSegment(bits: seq<bool>, version: nat): Option<Text> {
    if |bits| < 4 then None
    else
      var mode := if bits[..4] == Indicator(Numeric) then Some(Numeric)
                  else if bits[..4] == Indicator(Alphanumeric) then Some(Alphanumeric)
                  else if bits[..4] == Indicator(Byte8) then Some(Byte8) else None;
      if mode == None then None
      else
        var width := GetModeBits(version, mode.value);
        if |bits| < 4 + width then None
        else
          var n, body := Num(bits[4..4 + width]), bits[4 + width..];
          if |body| < BodyLength(mode.value, n) then None
          else
            match mode.value
            case Numeric => Some(ReadDigits(body, n))
            case Alphanumeric => Some(ReadAlphanumerics(body, n))
            case Byte8 => Some(ReadBytes(body, n))
  }

  // ---------------------------------------------------------------- reading inverts writing

  /** The first n bits of a number followed by anything are the number. */
  lemma NumPrefix(v: nat, n: nat, rest: seq<bool>)
    requires v < Pow2(n)
    ensures Num((Bin(v, n) + rest)[..n]) == v && (Bin(v, n) + rest)[n..] == rest
  {
    NumBin(v, n);
    assert (Bin(v, n) + rest)[..n] == Bin(v, n);
  }

  lemma Powers()
    ensures Pow2(4) == 16 && Pow2(6) == 64 && Pow2(7) == 128
    ensures Pow2(8) == 256 && Pow2(10) == 1024 && Pow2(11) == 2048
  {}

  lemma {:induction false} NumericReads(text: Text, rest: seq<bool>)
    requires AllNumeric(text)
    ensures |NumericTail(0, 0, text)| == BodyLength(Numeric, |text|)
    ensures ReadDigits(NumericTail(0, 0, text) + rest, |text|) == text
    decreases |text|
  {
    hide Bin, Num, Pow2, NumericTail;
    Powers();
    if |text| >= 3 {
      var a, b, c, more := text[0] - ZERO, text[1] - ZERO, text[2] - ZERO, text[3..];
      var v := (a * 10 + b) * 10 + c;
      NumericThree(text);
      NumericReads(more, rest);
      var tail := NumericTail(0, 0, more);
      Regroup(Bin(v, 10), tail, rest);
      NumPrefix(v, 10, tail + rest);
      ThreeDigits(a, b, c);
      assert text == [ZERO + a, ZERO + b, ZERO + c] + more;
    } else if |text| == 2 {
      NumericTwo(text[0], text[1]);
      assert text == [text[0], text[1]];
      NumPrefix((text[0] - ZERO) * 10 + (text[1] - ZERO), 7, rest);
      ThreeDigits(0, text[0] - ZERO, text[1] - ZERO);
    } else if |text| == 1 {
      NumericOne(text[0]);
      assert text == [text[0]];
      NumPrefix(text[0] - ZERO, 4, rest);
    } else {
      NothingToAppend();
    }
  }

  lemma ThreeDigits(a: nat, b: nat, c: nat)
    requires a < 10 && b < 10 && c < 10
    ensures var v := (a * 10 + b) * 10 + c; v / 100 % 10 == a && v / 10 % 10 == b && v % 10 == c
  {}

  lemma NothingToAppend()
    ensures NumericTail(0, 0, []) == [] && AlphanumericTail(0, 0, []) == []
  {}

  /** One digit more: either it completes a group of three, or it waits. */
  lemma NumericStep(acc: nat, count: nat, text: Text, next: nat)
    requires AllNumeric(text) && text != [] && next == acc * 10 + (text[0] - ZERO)
    ensures NumericTail(acc, count, text) ==
            if count + 1 == 3 then Bin(next, 10) + NumericTail(0, 0, text[1..]) else NumericTail(next, count + 1, text[1..])
  {
    hide Bin;
  }

  lemma NumericEnd(acc: nat, count: nat)
    ensures NumericTail(acc, count, []) == if count > 0 then Bin(acc, count * 3 + 1) else []
  {}

  lemma NumericOne(c: Octet)
    requires IsDigit(c)
    ensures NumericTail(0, 0, [c]) == Bin(c - ZERO, 4)
  {
    hide Bin, NumericTail;
    assert [c][1..] == [];
    NumericStep(0, 0, [c], c - ZERO);
    NumericEnd(c - ZERO, 1);
  }

  lemma NumericTwo(c: Octet, d: Octet)
    requires IsDigit(c) && IsDigit(d)
    ensures NumericTail(0, 0, [c, d]) == Bin((c - ZERO) * 10 + (d - ZERO), 7)
  {
    hide Bin, NumericTail;
    var a, v := c - ZERO, (c - ZERO) * 10 + (d - ZERO);
    assert [c, d][1..] == [d] && [d][1..] == [];
    NumericStep(0, 0, [c, d], a);
    NumericStep(a, 1, [d], v);
    NumericEnd(v, 2);
  }

  /** Two digits wait for a third. */
  lemma NumericWaits(text: Text, v: nat)
    requires AllNumeric(text) && |text| >= 2 && v == (text[0] - ZERO) * 10 + (text[1] - ZERO)
    ensures NumericTail(0, 0, text) == NumericTail(v, 2, text[2..])
  {
    hide Bin, NumericTail;
    var one := text[1..];
    NextSlice(text, 1);
    NumericStep(0, 0, text, text[0] - ZERO);
    NumericStep(text[0] - ZERO, 1, one, v);
  }

  lemma NumericThree(text: Text)
    requires AllNumeric(text) && |text| >= 3
    ensures NumericTail(0, 0, text) ==
            Bin(((text[0] - ZERO) * 10 + (text[1] - ZERO)) * 10 + (text[2] - ZERO), 10) + NumericTail(0, 0, text[3..])
  {
    hide Bin, NumericTail;
    var v: nat := (text[0] - ZERO) * 10 + (text[1] - ZERO);
    NumericWaits(text, v);
    NextSlice(text, 2);
    NumericStep(v, 2, text[2..], v * 10 + (text[2] - ZERO));
  }

  lemma NextSlice(text: Text, i: nat)
    requires i < |text|
    ensures text[i..][0] == text[i] && text[i..][1..] == text[i + 1..]
  {}

  lemma AlphanumericTwo(text: Text, a: nat, b: nat)
    requires AllAlphanumeric(text) && |text| >= 2
    requires a == GetAlphanumeric(text[0]) && b == GetAlphanumeric(text[1])
    ensures AlphanumericTail(0, 0, text) == Bin(a * 45 + b, 11) + AlphanumericTail(0, 0, text[2..])
  {
    hide Bin, GetAlphanumeric;
    var one := text[1..];
    assert one[0] == text[1] && one[1..] == text[2..];
    assert AlphanumericTail(0, 0, text) == AlphanumericTail(a, 1, one);
  }

  lemma AlphanumericOne(c: Octet)
    requires GetAlphanumeric(c) != -1
    ensures GetAlphanumeric(c) >= 0 && AlphanumericTail(0, 0, [c]) == Bin(GetAlphanumeric(c), 6)
  {
    assert AlphanumericTail(0, 0, [c]) == AlphanumericTail(GetAlphanumeric(c), 1, []);
  }

  lemma {:induction false} AlphanumericReads(text: Text, rest: seq<bool>)
    requires AllAlphanumeric(text)
    ensures |AlphanumericTail(0, 0, text)| == BodyLength(Alphanumeric, |text|)
    ensures ReadAlphanumerics(AlphanumericTail(0, 0, text) + rest, |text|) == text
    decreases |text|
  {
    hide GetAlphanumeric, AlphanumericChar, Bin, Num, Pow2, AlphanumericTail;
    Powers();
    if |text| >= 2 {
      AlphabetRoundTrip(text[0]);
      AlphabetRoundTrip(text[1]);
      var a, b, more := GetAlphanumeric(text[0]), GetAlphanumeric(text[1]), text[2..];
      AlphanumericTwo(text, a, b);
      AlphanumericReads(more, rest);
      var tail := AlphanumericTail(0, 0, more);
      Regroup(Bin(a * 45 + b, 11), tail, rest);
      NumPrefix(a * 45 + b, 11, tail + rest);
      assert text == [text[0], text[1]] + more;
    } else if |text| == 1 {
      AlphabetRoundTrip(text[0]);
      AlphanumericOne(text[0]);
      assert text == [text[0]];
      NumPrefix(GetAlphanumeric(text[0]), 6, rest);
    } else {
      NothingToAppend();
    }
  }

  lemma {:induction false} BytesRead(text: Text, rest: seq<bool>)
    ensures |ByteBits(text)| == BodyLength(Byte8, |text|)
    ensures ReadBytes(ByteBits(text) + rest, |text|) == text
  {
    hide Bin, Num, Pow2;
    if text != [] {
      var head, more := Bin(text[0], 8), text[1..];
      BytesRead(more, rest);
      Powers();
      Regroup(head, ByteBits(more), rest);
      NumPrefix(text[0], 8, ByteBits(more) + rest);
      assert text == [text[0]] + more;
    }
  }

  lemma Regroup(a: seq<bool>, b: seq<bool>, c: seq<bool>)
    ensures a + b + c == a + (b + c)
  {}

  lemma IndicatorsDiffer()
    ensures Indicator(Numeric) != Indicator(Alphanumeric)
    ensures Indicator(Numeric) != Indicator(Byte8) && Indicator(Alphanumeric) != Indicator(Byte8)
    ensures forall mode :: |Indicator(mode)| == 4
  {
    NumBin(1, 4);
    NumBin(2, 4);
    NumBin(4, 4);
    assert Pow2(4) == 16;
  }

  lemma HeaderReads(mode: Mode, n: nat, version: nat, body: seq<bool>)
    requires n < Pow2(GetModeBits(version, mode)) && |body| >= BodyLength(mode, n)
    ensures ReadSegment(Indicator(mode) + Bin(n, GetModeBits(version, mode)) + body, version) ==
            (match mode
             case Numeric => Some(ReadDigits(body, n))
             case Alphanumeric => Some(ReadAlphanumerics(body, n))
             case Byte8 => Some(ReadBytes(body, n)))
  {
    hide GetModeBits, ReadDigits, ReadAlphanumerics, ReadBytes, BodyLength, Num, Bin, Pow2, Indicator;
    var width := GetModeBits(version, mode);
    var bits := Indicator(mode) + Bin(n, width) + body;
    IndicatorsDiffer();
    assert bits[..4] == Indicator(mode);
    assert bits[4..4 + width] == (Bin(n, width) + body)[..width];
    assert bits[4 + width..] == body;
    NumPrefix(n, width, body);
  }

  /** Whatever follows the segment, a reader gets the text back, if its length fits the count field. */
  lemma SegmentReads(text: Text, version: nat, rest: seq<bool>)
    requires |text| < Pow2(GetModeBits(version, ModeOf(text)))
    ensures ReadSegment(Segment(text, version) + rest, version) == Some(text)
  {
    hide GetModeBits, ReadSegment, Pow2, Bin, Indicator, Body;
    var mode, body := ModeOf(text), Body(text) + rest;
    BodyReads(text, rest);
    HeaderReads(mode, |text|, version, body);
    Regroup(Indicator(mode) + Bin(|text|, GetModeBits(version, mode)), Body(text), rest);
  }

  /** The body of a segment, read in its mode. */
  lemma BodyReads(text: Text, rest: seq<bool>)
    ensures var mode, body := ModeOf(text), Body(text) + rest;
            && |body| >= BodyLength(mode, |text|)
            && text == match mode
                       case Numeric => ReadDigits(body, |text|)
                       case Alphanumeric => ReadAlphanumerics(body, |text|)
                       case Byte8 => ReadBytes(body, |text|)
  {
    hide NumericTail, AlphanumericTail, ByteBits, ReadDigits, ReadAlphanumerics, ReadBytes;
    match ModeOf(text) {
      case Numeric => NumericReads(text, rest);
      case Alphanumeric => AlphanumericReads(text, rest);
      case Byte8 => BytesRead(text, rest);
    }
  }

  // ---------------------------------------------------------------- the method

  /** encodeDataCodewords. */
  method EncodeDataCodewords(dataCodewords: BitBucket, text: Text, version: nat) returns (mode: Mode)
    requires Spells(dataCodewords, []) && dataCodewords.bitOffsetOrWidth == 0
    requires |Segment(text, version)| <= 8 * dataCodewords.data.Length
    modifies dataCodewords, dataCodewords.data
    ensures mode == ModeOf(text)
    ensures Spells(dataCodewords, Segment(text, version))
    ensures dataCodewords.bitOffsetOrWidth == |Segment(text, version)|
  {
    hide GetModeBits, NumericTail, AlphanumericTail, ByteBits, Bin, Spells;
    var numeric := IsNumeric(text);
    var alphanumeric := IsAlphanumeric(text);
    mode := if numeric then Numeric else if alphanumeric then Alphanumeric else Byte8;
    ghost var head, count := Indicator(mode), Bin(|text|, GetModeBits(version, mode));
    assert [] + head == head;
    Append(dataCodewords, match mode case Numeric => 1 case Alphanumeric => 2 case Byte8 => 4, 4, [], head);
    Append(dataCodewords, |text|, GetModeBits(version, mode), head, count);
    match mode
    case Numeric => AppendNumeric(dataCodewords, text, head + count);
    case Alphanumeric => AppendAlphanumeric(dataCodewords, text, head + count);
    case Byte8 => AppendBytes(dataCodewords, text, head + count);
  }

  method AppendNumeric(bucket: BitBucket, text: Text, ghost before: seq<bool>)
    requires Spells(bucket, before) && |before| == bucket.bitOffsetOrWidth && AllNumeric(text)
    requires bucket.bitOffsetOrWidth + |NumericTail(0, 0, text)| <= 8 * bucket.data.Length
    modifies bucket, bucket.data
    ensures Spells(bucket, before + NumericTail(0, 0, text))
    ensures bucket.bitOffsetOrWidth == |before + NumericTail(0, 0, text)|
  {
    hide Spells, Bin, NumericTail, AllNumeric;
    ghost var all, sofar := before + NumericTail(0, 0, text), before;
    var accumData: nat, accumCount: nat := 0, 0;
    assert text[0..] == text;
    for i := 0 to |text|
      invariant Spells(bucket, sofar) && |sofar| == bucket.bitOffsetOrWidth && accumCount < 3
      invariant AllNumeric(text[i..]) && sofar + NumericTail(accumData, accumCount, text[i..]) == all
    {
      DigitNext(text, i);
      NumericStep(accumData, accumCount, text[i..], accumData * 10 + (text[i] - ZERO));
      accumData := accumData * 10 + (text[i] - ZERO);
      accumCount := accumCount + 1;
      if accumCount == 3 {
        ghost var bits := Bin(accumData, 10);
        Regroup(sofar, bits, NumericTail(0, 0, text[i + 1..]));
        Append(bucket, accumData, 10, sofar, bits);
        sofar := sofar + bits;
        accumData, accumCount := 0, 0;
      }
    }
    NumericEnd(accumData, accumCount);
    assert text[|text|..] == [];
    if accumCount > 0 {
      Append(bucket, accumData, accumCount * 3 + 1, sofar, Bin(accumData, accumCount * 3 + 1));
    } else {
      assert sofar + [] == sofar;
    }
  }

  lemma DigitNext(text: Text, i: nat)
    requires i < |text| && AllNumeric(text[i..])
    ensures IsDigit(text[i]) && AllNumeric(text[i + 1..])
    ensures text[i..][0] == text[i] && text[i..][1..] == text[i + 1..]
  {
    var from, rest := text[i..], text[i + 1..];
    assert from[0] == text[i];
    forall k | 0 <= k < |rest|
      ensures IsDigit(rest[k])
    {
      assert rest[k] == from[k + 1];
    }
  }

  method AppendAlphanumeric(bucket: BitBucket, text: Text, ghost before: seq<bool>)
    requires Spells(bucket, before) && |before| == bucket.bitOffsetOrWidth && AllAlphanumeric(text)
    requires bucket.bitOffsetOrWidth + |AlphanumericTail(0, 0, text)| <= 8 * bucket.data.Length
    modifies bucket, bucket.data
    ensures Spells(bucket, before + AlphanumericTail(0, 0, text))
    ensures bucket.bitOffsetOrWidth == |before + AlphanumericTail(0, 0, text)|
  {
    hide Spells, Bin, AlphanumericTail, AllAlphanumeric, GetAlphanumeric;
    ghost var all, sofar := before + AlphanumericTail(0, 0, text), before;
    var accumData: nat, accumCount: nat := 0, 0;
    assert text[0..] == text;
    for i := 0 to |text|
      invariant Spells(bucket, sofar) && |sofar| == bucket.bitOffsetOrWidth && accumCount < 2
      invariant AllAlphanumeric(text[i..]) && sofar + AlphanumericTail(accumData, accumCount, text[i..]) == all
    {
      LetterNext(text, i);
      AlphanumericStep(accumData, accumCount, text[i..], accumData * 45 + GetAlphanumeric(text[i]));
      accumData := accumData * 45 + GetAlphanumeric(text[i]);
      accumCount := accumCount + 1;
      if accumCount == 2 {
        ghost var bits := Bin(accumData, 11);
        Regroup(sofar, bits, AlphanumericTail(0, 0, text[i + 1..]));
        Append(bucket, accumData, 11, sofar, bits);
        sofar := sofar + bits;
        accumData, accumCount := 0, 0;
      }
    }
    AlphanumericEnd(accumData, accumCount);
    assert text[|text|..] == [];
    if accumCount > 0 {
      Append(bucket, accumData, 6, sofar, Bin(accumData, 6));
    } else {
      assert sofar + [] == sofar;
    }
  }

  lemma LetterNext(text: Text, i: nat)
    requires i < |text| && AllAlphanumeric(text[i..])
    ensures GetAlphanumeric(text[i]) >= 0 && AllAlphanumeric(text[i + 1..])
    ensures text[i..][0] == text[i] && text[i..][1..] == text[i + 1..]
  {
    hide GetAlphanumeric;
    var from, rest := text[i..], text[i + 1..];
    assert from[0] == text[i];
    AlphabetRoundTrip(text[i]);
    forall k | 0 <= k < |rest|
      ensures GetAlphanumeric(rest[k]) != -1
    {
      assert rest[k] == from[k + 1];
    }
  }

  lemma AlphanumericStep(acc: nat, count: nat, text: Text, next: nat)
    requires AllAlphanumeric(text) && text != [] && next == acc * 45 + GetAlphanumeric(text[0])
    ensures AlphanumericTail(acc, count, text) ==
            if count + 1 == 2 then Bin(next, 11) + AlphanumericTail(0, 0, text[1..])
            else AlphanumericTail(next, count + 1, text[1..])
  {
    hide Bin, GetAlphanumeric;
  }

  lemma AlphanumericEnd(acc: nat, count: nat)
    ensures AlphanumericTail(acc, count, []) == if count > 0 then Bin(acc, 6) else []
  {}

  /** (uint32_t)(char) c, where char is signed. */
  function SignExtend(c: Octet): nat { if c < 128 then c else 0xFFFF_FF00 + c }

  lemma SignExtendKeepsByte(c: Octet)
    ensures Bin(SignExtend(c), 8) == Bin(c, 8)
  {
    assert Pow2(8) == 256;
    BinLowBits(c, 0xFF_FFFF, 8);
  }

  method AppendBytes(bucket: BitBucket, text: Text, ghost before: seq<bool>)
    requires Spells(bucket, before) && |before| == bucket.bitOffsetOrWidth
    requires bucket.bitOffsetOrWidth + |ByteBits(text)| <= 8 * bucket.data.Length
    modifies bucket, bucket.data
    ensures Spells(bucket, before + ByteBits(text))
    ensures bucket.bitOffsetOrWidth == |before + ByteBits(text)|
  {
    hide Spells, Bin, SignExtend;
    ghost var all, sofar := before + ByteBits(text), before;
    assert text[0..] == text;
    for i := 0 to |text|
      invariant Spells(bucket, sofar) && |sofar| == bucket.bitOffsetOrWidth
      invariant sofar + ByteBits(text[i..]) == all
    {
      NextSlice(text, i);
      SignExtendKeepsByte(text[i]);
      ghost var bits := Bin(text[i], 8);
      Regroup(sofar, bits, ByteBits(text[i + 1..]));
      Append(bucket, SignExtend(text[i]), 8, sofar, bits);
      sofar := sofar + bits;
    }
    assert text[|text|..] == [] && ByteBits([]) == [];
    assert sofar + [] == sofar;
  }
}
