/** AES-GCM of src/Helpers/AdminAuth.cpp (sections 6.5, 7.1 and 7.2 of NIST SP 800-38D).  The block cipher
    is any function of a key and a block. */
module Gcm {
  import opened Bytes
  import opened ByteOrder
  import opened Gf128
  import opened Ghash
  import F = BinaryField

  type Data = seq<Byte>

  /** The cipher under one key schedule. */
  type Cipher = Block -> Block

  type Nonce = n: seq<Byte> | |n| == 12 witness seq(12, i => ZeroByte())

  const WORD := 0x1_0000_0000

  // ---------------------------------------------------------------- the counter

  /** The low 32 bits of a block. */
  function Counter(b: Block): nat { Be(b[12..]) }

  /** inc32: one more in the low 32 bits, the other 96 untouched. */
  function Inc32(b: Block): Block {
    b[..12] + BeBytes((Counter(b) + 1) % WORD, 4)
  }

  lemma BeFour(a: Byte, b: Byte, c: Byte, d: Byte)
    ensures Be([a, b, c, d]) == ((Value(a) * 256 + Value(b)) * 256 + Value(c)) * 256 + Value(d)
  {
    hide Be, Value;
    NoDigits();
    assert [] + [a] == [a] && [a] + [b] == [a, b];
    assert [a, b] + [c] == [a, b, c] && [a, b, c] + [d] == [a, b, c, d];
    BeSnoc([], a);
    BeSnoc([a], b);
    BeSnoc([a, b], c);
    BeSnoc([a, b, c], d);
  }

  lemma NoDigits()
    ensures Be([]) == 0
  {}

  lemma CounterOf(b: Block)
    ensures Counter(b) == ((Value(b[12]) * 256 + Value(b[13])) * 256 + Value(b[14])) * 256 + Value(b[15])
  {
    hide Be, Value;
    assert b[12..] == [b[12], b[13], b[14], b[15]];
    BeFour(b[12], b[13], b[14], b[15]);
  }

  /** A block is its nonce part and its counter. */
  lemma BlockOfCounter(b: Block, c: Block)
    requires b[..12] == c[..12] && Counter(b) == Counter(c)
    ensures b == c
  {
    BytesRoundTrip(b[12..]);
    BytesRoundTrip(c[12..]);
    assert b == b[..12] + b[12..] && c == c[..12] + c[12..];
  }

  lemma Inc32Counts(b: Block)
    ensures Inc32(b)[..12] == b[..12] && Counter(Inc32(b)) == (Counter(b) + 1) % WORD
  {
    var v := (Counter(b) + 1) % WORD;
    assert Pow256(4) == WORD by { assert Pow256(2) == 65536; }
    BeRoundTrip(v, 4);
    assert Inc32(b)[12..] == BeBytes(v, 4);
  }

  /** ++counter[i]. */
  function Bumped(b: Byte): (r: Byte) { ByteOf((Value(b) + 1) % 256) }

  lemma BumpedValue(b: Byte)
    ensures Value(Bumped(b)) == (Value(b) + 1) % 256
    ensures Bumped(b) == ZeroByte() <==> Value(b) == 255
  {
    hide Value, LowBits, ZeroByte;
    ByteValue((Value(b) + 1) % 256, b);
    ByteValue(0, Bumped(b));
    ZeroIsZero();
  }

  lemma ZeroIsZero()
    ensures ByteOf(0) == ZeroByte()
  {
    ZeroLowBits(8);
  }

  lemma {:induction false} ZeroLowBits(k: nat)
    ensures LowBits(0, k) == F.Zeros(k)
  {
    if k > 0 {
      ZeroLowBits(k - 1);
    }
  }

  /** The carry has run down to byte i: the bytes behind it were 255 and are zero, but the first of them, if the carry
      stopped there, was bumped. */
  predicate CarriedTo(before: Block, after: Block, i: int, carry: bool) {
    && 11 <= i <= 15 && after[..12] == before[..12]
    && (forall k :: 12 <= k <= i ==> after[k] == before[k])
    && (forall k :: i + (if carry then 0 else 1) < k < 16 ==> Value(before[k]) == 255 && Value(after[k]) == 0)
    && (!carry ==> i < 15 && Value(before[i + 1]) < 255 && Value(after[i + 1]) == Value(before[i + 1]) + 1)
  }

  lemma CarryStep(before: Block, now: Block, i: int)
    requires CarriedTo(before, now, i, true) && 12 <= i
    ensures CarriedTo(before, now[i := Bumped(now[i])], i - 1, Bumped(now[i]) == ZeroByte())
  {
    hide Value, Bumped, ZeroByte;
    BumpedValue(now[i]);
    ByteValue(0, now[i]);
    ByteValue(0, ZeroByte());
    ZeroIsZero();
    assert now[i := Bumped(now[i])][..12] == now[..12];
  }

  lemma CarryStart(before: Block)
    ensures CarriedTo(before, before, 15, true)
  {}

  lemma CarryEnd(before: Block, after: Block, i: int, carry: bool)
    requires CarriedTo(before, after, i, carry) && (carry ==> i == 11)
    ensures after == Inc32(before)
  {
    Carried(before, after, i + 1, carry);
  }

  /** gcmIncCounter: the carry runs from the last byte up to byte 12 and no further. */
  method IncCounter(counter: array<Byte>)
    requires counter.Length == 16
    modifies counter
    ensures counter[..] == Inc32(old(counter[..]))
  {
    hide CarriedTo, Bumped, Counter, Inc32, ZeroByte;
    ghost var before: Block := counter[..];
    CarryStart(before);
    var i := 15;
    var carry := true;
    while carry && i >= 12
      invariant 11 <= i <= 15 && CarriedTo(before, counter[..], i, carry)
      decreases i + (if carry then 1 else 0)
    {
      CarryStep(before, counter[..], i);
      ghost var now: Block := counter[..];
      counter[i] := Bumped(counter[i]);
      assert counter[..] == now[i := Bumped(now[i])];
      carry := counter[i] == ZeroByte();
      i := i - 1;
    }
    CarryEnd(before, counter[..], i, carry);
  }

  /** One more in four digits of base 256. */
  lemma CarryAdds(a0: nat, a1: nat, a2: nat, a3: nat, b0: nat, b1: nat, b2: nat, b3: nat, i: nat, carry: bool)
    requires 12 <= i < 16
    requires (i > 12 ==> a0 == b0) && (i > 13 ==> a1 == b1) && (i > 14 ==> a2 == b2)
    requires (i < 15 ==> b3 == 255 && a3 == 0) && (i < 14 ==> b2 == 255 && a2 == 0) && (i < 13 ==> b1 == 255 && a1 == 0)
    requires var (a, b) := if i == 12 then (a0, b0) else if i == 13 then (a1, b1) else if i == 14 then (a2, b2) else (a3, b3);
             if carry then i == 12 && b == 255 && a == 0 else b < 255 && a == b + 1
    requires b0 < 256 && b1 < 256 && b2 < 256 && b3 < 256
    ensures ((a0 * 256 + a1) * 256 + a2) * 256 + a3 == (((b0 * 256 + b1) * 256 + b2) * 256 + b3 + 1) % WORD
  {}

  /** What the carry leaves: byte i bumped (unless the carry ran out at byte 12), zeros behind it. */
  lemma Carried(before: Block, after: Block, i: nat, carry: bool)
    requires 12 <= i < 16 && after[..12] == before[..12]
    requires forall k :: 12 <= k < i ==> after[k] == before[k]
    requires forall k :: i < k < 16 ==> Value(before[k]) == 255 && Value(after[k]) == 0
    requires if carry then i == 12 && Value(before[i]) == 255 && Value(after[i]) == 0
             else Value(before[i]) < 255 && Value(after[i]) == Value(before[i]) + 1
    ensures after == Inc32(before)
  {
    hide Value, Counter, Inc32;
    CounterOf(before);
    CounterOf(after);
    ByteValue(0, before[12]);
    ByteValue(0, before[13]);
    ByteValue(0, before[14]);
    ByteValue(0, before[15]);
    CarryAdds(Value(after[12]), Value(after[13]), Value(after[14]), Value(after[15]),
              Value(before[12]), Value(before[13]), Value(before[14]), Value(before[15]), i, carry);
    Inc32Counts(before);
    BlockOfCounter(after, Inc32(before));
  }

  lemma CounterBound(b: Block)
    ensures Counter(b) < WORD
  {
    BytesRoundTrip(b[12..]);
    assert Pow256(4) == WORD by { assert Pow256(2) == 65536; }
  }

  // ---------------------------------------------------------------- counter mode

  function XorBytes(a: Data, b: Data): (c: Data)
    requires |a| <= |b|
    ensures |c| == |a|
  {
    seq(|a|, i requires 0 <= i < |a| => XorByte(a[i], b[i]))
  }

  /** GCTR: each block of sixteen bytes, or what is left, against the next counter. */
  function Ctr(e: Cipher, counter: Block, data: Data): (out: Data)
    ensures |out| == |data|
    decreases |data|
  {
    if |data| <= 16 then XorBytes(data, e(counter))
    else XorBytes(data[..16], e(counter)) + Ctr(e, Inc32(counter), data[16..])
  }

  lemma XorTwice(a: Data, b: Data)
    requires |a| <= |b|
    ensures XorBytes(XorBytes(a, b), b) == a
  {
    forall i | 0 <= i < |a|
      ensures XorByte(XorByte(a[i], b[i]), b[i]) == a[i]
    {
      F.XorLaws(a[i], b[i], b[i]);
    }
  }

  /** The same key stream again gives the data back. */
  lemma {:induction false} CtrTwice(e: Cipher, counter: Block, data: Data)
    ensures Ctr(e, counter, Ctr(e, counter, data)) == data
    decreases |data|
  {
    hide XorBytes, Inc32;
    if |data| <= 16 {
      XorTwice(data, e(counter));
    } else {
      var first, rest := XorBytes(data[..16], e(counter)), Ctr(e, Inc32(counter), data[16..]);
      assert (first + rest)[..16] == first && (first + rest)[16..] == rest;
      XorTwice(data[..16], e(counter));
      CtrTwice(e, Inc32(counter), data[16..]);
      assert data == data[..16] + data[16..];
    }
  }

  /** The n-th counter. */
  function Nth(counter: Block, n: nat): Block {
    if n == 0 then counter else Inc32(Nth(counter, n - 1))
  }

  lemma {:induction false} NthStep(counter: Block, n: nat)
    ensures Nth(counter, n + 1) == Nth(Inc32(counter), n)
  {
    hide Inc32;
    if n > 0 {
      NthStep(counter, n - 1);
    }
  }

  /** Block n is enciphered with the start counter plus n modulo 2^32, under the same nonce. */
  lemma {:induction false} CounterWraps(counter: Block, n: nat)
    ensures Nth(counter, n)[..12] == counter[..12]
    ensures Counter(Nth(counter, n)) == (Counter(counter) + n) % WORD
  {
    hide Inc32, Counter;
    if n == 0 {
      CounterBound(counter);
    } else {
      CounterWraps(counter, n - 1);
      Inc32Counts(Nth(counter, n - 1));
    }
  }

  /** One block, or what is left of one, against its key stream. */
  method XorChunk(keystream: Block, input: Data, out: array<Byte>, off: nat, chunk: nat)
    requires chunk <= 16 && off + chunk <= |input| == out.Length
    modifies out
    ensures out[..off + chunk] == old(out[..off]) + XorBytes(input[off..off + chunk], keystream)
  {
    hide XorBytes, XorByte;
    ghost var done := out[..off];
    NoByte(input, off, keystream);
    for i := 0 to chunk
      invariant out[..off + i] == done + XorBytes(input[off..off + i], keystream)
    {
      OneMoreByte(input, off, i, keystream);
      ghost var before := out[..off + i];
      out[off + i] := XorByte(input[off + i], keystream[i]);
      assert out[..off + i + 1] == before + [XorByte(input[off + i], keystream[i])];
    }
  }

  lemma NoByte(input: Data, off: nat, keystream: Block)
    requires off <= |input|
    ensures XorBytes(input[off..off + 0], keystream) == []
  {}

  /** gcmCtrXor. */
  method CtrXor(e: Cipher, counter: array<Byte>, input: Data, out: array<Byte>)
    requires counter.Length == 16 && out.Length == |input| && counter != out
    modifies counter, out
    ensures out[..] == Ctr(e, old(counter[..]), input)
  {
    hide Inc32, XorBytes, Ctr;
    ghost var start: Block := counter[..];
    var off := 0;
    assert input[0..] == input;
    while off < |input|
      invariant off <= |input|
      invariant out[..off] + Ctr(e, counter[..], input[off..]) == Ctr(e, start, input)
    {
      ghost var c: Block, done := counter[..], out[..off];
      var keystream := e(counter[..]);
      IncCounter(counter);
      var chunk := if |input| - off < 16 then |input| - off else 16;
      CtrChunk(e, c, input[off..], chunk);
      ChunkOf(input, off, chunk);
      XorChunk(keystream, input, out, off, chunk);
      Regroup(done, XorBytes(input[off..off + chunk], keystream), Ctr(e, counter[..], input[off + chunk..]));
      off := off + chunk;
    }
    assert out[..off] + Ctr(e, counter[..], []) == out[..];
  }

  lemma ChunkOf(input: Data, off: nat, chunk: nat)
    requires off + chunk <= |input|
    ensures input[off..][..chunk] == input[off..off + chunk] && input[off..][chunk..] == input[off + chunk..]
  {}

  lemma Regroup(a: Data, b: Data, c: Data)
    ensures a + (b + c) == a + b + c
  {}

  lemma OneMoreByte(input: Data, off: nat, i: nat, keystream: Block)
    requires off + i < |input| && i < 16
    ensures XorBytes(input[off..off + i + 1], keystream)
            == XorBytes(input[off..off + i], keystream) + [XorByte(input[off + i], keystream[i])]
  {
    hide XorByte;
  }

  lemma CtrChunk(e: Cipher, counter: Block, data: Data, chunk: nat)
    requires data != [] && chunk == if |data| < 16 then |data| else 16
    ensures Ctr(e, counter, data) == XorBytes(data[..chunk], e(counter)) + Ctr(e, Inc32(counter), data[chunk..])
  {
    hide XorBytes, Inc32;
    if |data| <= 16 {
      assert data[..chunk] == data && data[chunk..] == [];
      assert XorBytes([], e(Inc32(counter))) == [];
    }
  }

  // ---------------------------------------------------------------- sealing

  const ZERO_BLOCK: Block := seq(16, i => ZeroByte())

  /** The hash subkey. */
  function Subkey(e: Cipher): Elem { PolyOf(e(ZERO_BLOCK)) }

  /** J0 for a 96-bit nonce. */
  function J0(nonce: Nonce): Block { nonce + BeBytes(1, 4) }

  function Bits64(n: nat): Data { BeBytes(8 * n, 8) }

  /** The block of the two lengths in bits. */
  function Lengths(aad: Data, ct: Data): Block { Bits64(|aad|) + Bits64(|ct|) }

  /** What GHASH absorbs. */
  function Absorbed(aad: Data, ct: Data): seq<Elem> {
    Blocks(aad) + Blocks(ct) + [PolyOf(Lengths(aad, ct))]
  }

  /** The tag, GHASH written as the sum of section 6.4: its bits, block order as PolyOf. */
  function TagBits(e: Cipher, nonce: Nonce, aad: Data, ct: Data): Elem {
    F.Xor(PolyOf(e(J0(nonce))), Sum(Subkey(e), Absorbed(aad, ct)))
  }

  ghost predicate IsTag(e: Cipher, nonce: Nonce, aad: Data, ct: Data, tag: Data) {
    |tag| == 16 && PolyOf(tag) == TagBits(e, nonce, aad, ct)
  }

  function Stream(e: Cipher, nonce: Nonce, data: Data): Data { Ctr(e, Inc32(J0(nonce)), data) }

  /** A sealed message: the cipher text under the key stream from inc32(J0), and its tag. */
  ghost predicate IsSealed(e: Cipher, nonce: Nonce, aad: Data, plain: Data, sealed: Data) {
    && |sealed| == |plain| + 16
    && sealed[..|plain|] == Stream(e, nonce, plain)
    && IsTag(e, nonce, aad, sealed[..|plain|], sealed[|plain|..])
  }

  /** writeBe64. */
  method WriteBe64(v: nat) returns (out: Data)
    ensures out == BeBytes(v, 8)
  {
    out := [];
    for i := 0 to 8
      invariant out == BeBytes(v, 8)[..i]
    {
      BeBytesAt(v, 8, i);
      out := out + [ByteOf(ShrBytes(v, 7 - i) % 256)];
    }
  }

  /** The GHASH of both inputs and their lengths, added to E(J0). */
  method ComputeTag(e: Cipher, nonce: Nonce, aad: Data, ct: Data) returns (tag: Data)
    ensures IsTag(e, nonce, aad, ct, tag)
  {
    hide Folded, Sum, Blocks, BitsOf, Mul, Bits64, F.Xor;
    var h := e(ZERO_BLOCK);
    var g := new GhashState(h);
    g.UpdateBytes(aad);
    g.UpdateBytes(ct);
    var aadBits := WriteBe64(8 * |aad|);
    var ctBits := WriteBe64(8 * |ct|);
    BothLengths(aad, ct, aadBits, ctBits);
    g.UpdateBlock(aadBits + ctBits);
    AbsorbedInOrder(Subkey(e), aad, ct);
    tag := XorBytes(e(J0(nonce)), g.y[..]);
    XoredBlocks(e(J0(nonce)), g.y[..], tag);
  }

  lemma BothLengths(aad: Data, ct: Data, a: Data, c: Data)
    requires a == BeBytes(8 * |aad|, 8) && c == BeBytes(8 * |ct|, 8)
    ensures a + c == Lengths(aad, ct)
  {}

  lemma AbsorbedInOrder(h: Elem, aad: Data, ct: Data)
    ensures Mul(F.Xor(Folded(h, Folded(h, F.Zeros(128), Blocks(aad)), Blocks(ct)), PolyOf(Lengths(aad, ct))), h)
            == Sum(h, Absorbed(aad, ct))
  {
    hide Mul, F.Xor, Blocks, BitsOf, Lengths;
    var l := PolyOf(Lengths(aad, ct));
    FoldedMore(h, F.Zeros(128), Blocks(aad), Blocks(ct));
    FoldedMore(h, F.Zeros(128), Blocks(aad) + Blocks(ct), [l]);
    assert [l][1..] == [];
    GhashIsSum(h, Absorbed(aad, ct));
  }

  /** aesGcmSeal; e is the cipher under the expanded key. */
  method Seal(e: Cipher, nonce: Nonce, aad: Data, plaintext: Data) returns (out: Data)
    ensures IsSealed(e, nonce, aad, plaintext, out)
  {
    hide IsTag, J0, Inc32, Ctr;
    var ct := Crypt(e, nonce, plaintext);
    var tag := ComputeTag(e, nonce, aad, ct);
    TagLength(e, nonce, aad, ct, tag);
    out := ct + tag;
  }

  lemma TagLength(e: Cipher, nonce: Nonce, aad: Data, ct: Data, tag: Data)
    requires IsTag(e, nonce, aad, ct, tag)
    ensures |tag| == 16
  {}

  /** The key stream from inc32(J0) over the data, either way. */
  method Crypt(e: Cipher, nonce: Nonce, input: Data) returns (out: Data)
    ensures out == Stream(e, nonce, input)
  {
    hide J0, Inc32, Ctr;
    var result := new Byte[|input|](i => ZeroByte());
    var j0 := J0(nonce);
    var counter := new Byte[16](i requires 0 <= i < 16 => j0[i]);
    assert counter[..] == j0;
    IncCounter(counter);
    CtrXor(e, counter, input, result);
    out := result[..];
  }

  class Output {
    var bytes: Data
  }

  /** diff |= a ^ b over all sixteen bytes: zero exactly when they are equal. */
  method TagsEqual(a: Block, b: Block) returns (equal: bool)
    ensures equal == (a == b)
  {
    var diff := ZeroByte();
    for i := 0 to 16
      invariant diff == ZeroByte() <==> a[..i] == b[..i]
    {
      OrIsZero(diff, a[i], b[i]);
      SamePrefix(a, b, i);
      diff := Or(diff, XorByte(a[i], b[i]));
    }
    equal := diff == ZeroByte();
    assert a[..16] == a && b[..16] == b;
  }

  function Or(a: Byte, b: Byte): Byte { seq(8, i requires 0 <= i < 8 => a[i] || b[i]) }

  lemma SamePrefix(a: Block, b: Block, i: nat)
    requires i < 16
    ensures a[..i + 1] == b[..i + 1] <==> a[..i] == b[..i] && a[i] == b[i]
  {
    assert a[..i + 1] == a[..i] + [a[i]] && b[..i + 1] == b[..i] + [b[i]];
  }

  lemma OrIsZero(d: Byte, a: Byte, b: Byte)
    ensures Or(d, XorByte(a, b)) == ZeroByte() <==> d == ZeroByte() && a == b
  {
    var r := Or(d, XorByte(a, b));
    forall i | 0 <= i < 8
      ensures r[i] == (d[i] || a[i] != b[i])
    {}
    if r == ZeroByte() {
      forall i | 0 <= i < 8
        ensures d[i] == ZeroByte()[i] && a[i] == b[i]
      {
        assert r[i] == ZeroByte()[i];
      }
    }
  }

  /** A message that opens: its tag is the one of its cipher text. */
  ghost predicate Opens(e: Cipher, nonce: Nonce, aad: Data, sealed: Data) {
    && |sealed| >= 16
    && IsTag(e, nonce, aad, sealed[..|sealed| - 16], sealed[|sealed| - 16..])
  }

  /** aesGcmOpen: true exactly when the tag is right, and then the plaintext; false leaves the output. */
  method Open(e: Cipher, nonce: Nonce, aad: Data, sealed: Data, out: Output) returns (ok: bool)
    modifies out
    ensures ok == Opens(e, nonce, aad, sealed)
    ensures ok ==> out.bytes == Stream(e, nonce, sealed[..|sealed| - 16])
    ensures !ok ==> out.bytes == old(out.bytes)
  {
    hide J0, Inc32, Ctr, TagBits, BitsOf;
    if |sealed| < 16 { return false; }
    var ctLen := |sealed| - 16;
    var ct, tagIn := sealed[..ctLen], sealed[ctLen..];
    var expected := ComputeTag(e, nonce, aad, ct);
    ok := TagsEqual(expected, tagIn);
    TagIsUnique(e, nonce, aad, ct, expected, tagIn);
    if ok {
      out.bytes := Crypt(e, nonce, ct);
    }
  }

  lemma TagIsUnique(e: Cipher, nonce: Nonce, aad: Data, ct: Data, a: Data, b: Data)
    requires IsTag(e, nonce, aad, ct, a) && |b| == 16
    ensures IsTag(e, nonce, aad, ct, b) <==> a == b
  {
    hide TagBits, BitsOf;
    if IsTag(e, nonce, aad, ct, b) {
      BitsInjective(a, b);
    }
  }

  /** Opening what was sealed succeeds and returns the plaintext, whatever the cipher, the nonce, the
      additional data and the length. */
  lemma SealedOpens(e: Cipher, nonce: Nonce, aad: Data, plain: Data, sealed: Data)
    requires IsSealed(e, nonce, aad, plain, sealed)
    ensures Opens(e, nonce, aad, sealed)
    ensures Stream(e, nonce, sealed[..|sealed| - 16]) == plain
  {
    hide IsTag, Ctr;
    CtrTwice(e, Inc32(J0(nonce)), plain);
  }

  /** Sealing is a function, and for a cipher text at most one tag opens. */
  lemma OneTagOpens(e: Cipher, nonce: Nonce, aad: Data, a: Data, b: Data)
    requires Opens(e, nonce, aad, a) && Opens(e, nonce, aad, b) && |a| == |b|
    requires a[..|a| - 16] == b[..|b| - 16]
    ensures a == b
  {
    hide IsTag;
    var n := |a| - 16;
    TagIsUnique(e, nonce, aad, a[..n], a[n..], b[n..]);
    assert a == a[..n] + a[n..] && b == b[..n] + b[n..];
  }
}
