/** The bit buffers of main/ui/qrcode.c: bits packed into bytes, most significant bit first.
    A bucket is either a growing bit string (bitOffsetOrWidth is its length) or a square grid of
    modules (bitOffsetOrWidth is its side). */
module BitBuckets {
  import opened Bytes
  import opened Numbers

  lemma BinStep(bits: seq<bool>, offset: nat, before: seq<bool>, v: nat, n: nat)
    requires offset < |bits| && !bits[offset]
    requires bits[..offset] == before + Bin(v / 2, n)
    ensures (if v % 2 == 1 then bits[offset := true] else bits)[..offset + 1] == before + Bin(v, n + 1)
  {
    var bit := v % 2 == 1;
    assert (if bit then bits[offset := true] else bits)[..offset + 1] == bits[..offset] + [bit];
    assert Bin(v, n + 1) == Bin(v / 2, n) + [bit];
  }

  // ---------------------------------------------------------------- the bucket

  class BitBucket {
    var bitOffsetOrWidth: nat
    const data: array<Byte>

    ghost function Bits(): (bits: seq<bool>)
      reads data
      ensures |bits| == 8 * data.Length
    {
      BitsOf(data[..])
    }

    /** A buffer: the bits appended so far, and zeros behind them. */
    ghost predicate IsBuffer()
      reads this, data
    {
      && bitOffsetOrWidth <= 8 * data.Length
      && forall i :: bitOffsetOrWidth <= i < 8 * data.Length ==> !Bits()[i]
    }

    ghost function Contents(): seq<bool>
      requires IsBuffer()
      reads this, data
    {
      Bits()[..bitOffsetOrWidth]
    }

    /** A grid: bitOffsetOrWidth squared modules, row by row. */
    ghost predicate IsGrid(size: nat)
      reads this
    {
      bitOffsetOrWidth == size && size * size <= 8 * data.Length
    }

    constructor InitBuffer(capacityBytes: nat)
      ensures IsBuffer() && Contents() == []
      ensures fresh(data) && data.Length == capacityBytes
    {
      bitOffsetOrWidth := 0;
      data := new Byte[capacityBytes](i => ZeroByte());
      new;
      assert forall k :: 0 <= k < 8 * capacityBytes ==> !BitAt(data[..], k);
    }

    constructor InitGrid(size: nat)
      ensures IsGrid(size)
      ensures fresh(data) && data.Length == (size * size + 7) / 8
      ensures forall i :: 0 <= i < 8 * data.Length ==> !Bits()[i]
    {
      bitOffsetOrWidth := size;
      data := new Byte[(size * size + 7) / 8](i => ZeroByte());
      new;
      assert forall k :: 0 <= k < 8 * data.Length ==> !BitAt(data[..], k);
    }

    /** Sets or clears the bit that the mask 1 << (7 - (offset & 7)) selects in byte offset >> 3. */
    method Write(offset: nat, on: bool)
      requires offset < 8 * data.Length
      modifies data
      ensures Bits() == old(Bits())[offset := on]
    {
      SetInData(data[..], offset, on);
      data[offset / 8] := data[offset / 8][7 - offset % 8 := on];
      assert data[..] == old(data[..])[offset / 8 := old(data[offset / 8])[7 - offset % 8 := on]];
    }

    method Read(offset: nat) returns (on: bool)
      requires offset < 8 * data.Length
      ensures on == Bits()[offset]
    {
      on := data[offset / 8][7 - offset % 8];
    }

    method AppendBits(val: nat, length: nat)
      requires IsBuffer() && bitOffsetOrWidth + length <= 8 * data.Length
      modifies this, data
      ensures IsBuffer() && bitOffsetOrWidth == old(bitOffsetOrWidth) + length
      ensures Contents() == old(Contents()) + Bin(val, length)
    {
      ghost var before := Contents();
      var offset := bitOffsetOrWidth;
      var i := length - 1;
      while i >= 0
        invariant -1 <= i < length
        invariant bitOffsetOrWidth == old(bitOffsetOrWidth) && offset == bitOffsetOrWidth + length - 1 - i
        invariant Bits()[..offset] == before + Bin(Shr(val, i + 1), length - 1 - i)
        invariant forall k :: offset <= k < 8 * data.Length ==> !Bits()[k]
      {
        var bit := Shr(val, i) % 2;
        BinStep(Bits(), offset, before, Shr(val, i), length - 1 - i);
        if bit == 1 {
          Write(offset, true);   // |= never clears, and the bit was zero
        }
        i, offset := i - 1, offset + 1;
      }
      bitOffsetOrWidth := offset;
    }

    method SetBit(x: nat, y: nat, on: bool)
      requires x < bitOffsetOrWidth && y < bitOffsetOrWidth && IsGrid(bitOffsetOrWidth)
      modifies data
      ensures y * bitOffsetOrWidth + x < |Bits()|
      ensures Bits() == old(Bits())[y * bitOffsetOrWidth + x := on]
    {
      InGrid(x, y, bitOffsetOrWidth);
      Write(y * bitOffsetOrWidth + x, on);
    }

    method InvertBit(x: nat, y: nat, invert: bool)
      requires x < bitOffsetOrWidth && y < bitOffsetOrWidth && IsGrid(bitOffsetOrWidth)
      modifies data
      ensures y * bitOffsetOrWidth + x < |Bits()|
      ensures Bits() == old(Bits())[y * bitOffsetOrWidth + x := old(Bits()[y * bitOffsetOrWidth + x]) != invert]
    {
      InGrid(x, y, bitOffsetOrWidth);
      var on := Read(y * bitOffsetOrWidth + x);
      Write(y * bitOffsetOrWidth + x, on != invert);
    }

    method GetBit(x: nat, y: nat) returns (on: bool)
      requires x < bitOffsetOrWidth && y < bitOffsetOrWidth && IsGrid(bitOffsetOrWidth)
      ensures y * bitOffsetOrWidth + x < |Bits()|
      ensures on == Bits()[y * bitOffsetOrWidth + x]
    {
      InGrid(x, y, bitOffsetOrWidth);
      on := Read(y * bitOffsetOrWidth + x);
    }
  }

  /** The bucket is a buffer of exactly these bits. */
  ghost predicate Spells(b: BitBucket, bits: seq<bool>)
    reads b, b.data
  {
    b.IsBuffer() && b.Contents() == bits
  }

  /** bb_appendBits, for a value whose bits are known. */
  method Append(codewords: BitBucket, value: nat, length: nat, ghost before: seq<bool>, ghost bits: seq<bool>)
    requires Spells(codewords, before) && bits == Bin(value, length)
    requires codewords.bitOffsetOrWidth + length <= 8 * codewords.data.Length
    modifies codewords, codewords.data
    ensures Spells(codewords, before + bits) && codewords.bitOffsetOrWidth == old(codewords.bitOffsetOrWidth) + length
  {
    hide Bin, BitsOf;
    codewords.AppendBits(value, length);
  }

  lemma InGrid(x: nat, y: nat, size: nat)
    requires x < size && y < size
    ensures y * size + x < size * size
  {
    assert y * size <= (size - 1) * size;
  }
}
