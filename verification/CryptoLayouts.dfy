/** Which byte stands where in what src/Helpers/AdminAuth.cpp hashes and enciphers, apart from how it is put together. */
module CryptoLayouts {
  import opened Bytes
  import opened ByteOrder
  import opened Gf128
  import opened Ghash
  import opened Gcm
  import Sha256
  import Pbkdf2
  import F = BinaryField

  // ---------------------------------------------------------------- the key stream

  lemma {:induction false} CtrAt(e: Cipher, counter: Block, data: Data, k: nat)
    requires k < |data|
    ensures Ctr(e, counter, data)[k] == XorByte(data[k], e(Nth(counter, k / 16))[k % 16])
    decreases |data|
  {
    hide Inc32, XorByte;
    if k >= 16 {
      CtrAt(e, Inc32(counter), data[16..], k - 16);
      NthStep(counter, k / 16 - 1);
      assert k / 16 - 1 == (k - 16) / 16 && k % 16 == (k - 16) % 16;
    }
  }

  /** The nonce and a number of 32 bits. */
  function CounterBlock(nonce: Nonce, number: nat): Block { nonce + BeBytes(number % WORD, 4) }

  /** Section 7.1 of NIST SP 800-38D for a nonce of twelve bytes: byte k of the message meets byte k % 16 of the
      enciphered block that holds the nonce and the number k / 16 + 2; the number 1 is left for the tag. */
  lemma SealedAt(e: Cipher, nonce: Nonce, aad: Data, plain: Data, sealed: Data, k: nat)
    requires IsSealed(e, nonce, aad, plain, sealed) && k < |plain|
    ensures sealed[k] == XorByte(plain[k], e(CounterBlock(nonce, k / 16 + 2))[k % 16])
  {
    hide CounterBlock, IsTag, XorByte, J0, Inc32, Counter, BeBytes;
    assert sealed[k] == sealed[..|plain|][k];
    CtrAt(e, Inc32(J0(nonce)), plain, k);
    NthIs(nonce, k / 16);
  }

  lemma NthIs(nonce: Nonce, n: nat)
    ensures Nth(Inc32(J0(nonce)), n) == CounterBlock(nonce, n + 2)
  {
    hide Inc32, Counter, BeBytes, Nth, Pow256;
    var start, b := J0(nonce), Nth(Inc32(J0(nonce)), n);
    FourBytes();
    assert start[12..] == BeBytes(1, 4) && start[..12] == nonce;
    CounterIs(start, 1);
    Inc32Counts(start);
    CounterWraps(Inc32(start), n);
    var block := CounterBlock(nonce, n + 2);
    assert block[12..] == BeBytes((n + 2) % WORD, 4) && block[..12] == nonce;
    CounterIs(block, (n + 2) % WORD);
    BlockOfCounter(b, block);
  }

  lemma CounterIs(b: Block, v: nat)
    requires v < WORD && b[12..] == BeBytes(v, 4)
    ensures Counter(b) == v
  {
    hide BeBytes, Pow256;
    FourBytes();
    BeRoundTrip(v, 4);
  }

  lemma FourBytes()
    ensures Pow256(4) == WORD
  {}

  /** The modulus of section 6.3: x^128 + x^7 + x^2 + x + 1. */
  lemma ModulusIs()
    ensures Value(Gf128.Taps()[..8]) == 0x87 && Gf128.Taps()[8..] == F.Zeros(120)
  {
    var low: Byte := [true, true, true, false, false, false, false, true];
    assert Gf128.Taps()[..8] == low;
    LowByte();
  }

  lemma LowByte()
    ensures Value([true, true, true, false, false, false, false, true]) == 0x87
  {
    assert Value([true]) == 1;
    assert Value([false, true]) == 2;
    assert Value([false, false, true]) == 4;
    assert Value([false, false, false, true]) == 8;
    assert Value([false, false, false, false, true]) == 16;
    assert Value([true, false, false, false, false, true]) == 33;
    assert Value([true, true, false, false, false, false, true]) == 67;
  }

  // ---------------------------------------------------------------- what is authenticated

  /** Coefficient j of block i is bit j of the bytes at 16 * i, zero behind the end. */
  lemma {:induction false} BlocksAt(data: seq<Byte>, i: nat, j: nat)
    requires 16 * i < |data| && j < 128
    ensures |Blocks(data)| == (|data| + 15) / 16
    ensures Blocks(data)[i][j] == (16 * i + j / 8 < |data| && data[16 * i + j / 8][7 - j % 8])
    decreases |data|
  {
    BlockCount(data);
    if |data| >= 16 {
      if i == 0 {
        assert PolyOf(data[..16])[j] == data[..16][j / 8][7 - j % 8];
      } else {
        BlocksAt(data[16..], i - 1, j);
        if 16 * i + j / 8 < |data| {
          assert data[16..][16 * (i - 1) + j / 8] == data[16 * i + j / 8];
        }
      }
    } else {
      assert PolyOf(PaddedBlock(data))[j] == PaddedBlock(data)[j / 8][7 - j % 8];
    }
  }

  lemma {:induction false} BlockCount(data: seq<Byte>)
    ensures |Blocks(data)| == (|data| + 15) / 16
    decreases |data|
  {
    if |data| >= 16 {
      BlockCount(data[16..]);
    }
  }

  /** Section 7.1, step 5: the blocks of the authenticated data, those of the cipher text, and the two lengths in bits. */
  lemma AbsorbedAt(aad: Data, ct: Data)
    requires 8 * |aad| < Pow256(8) && 8 * |ct| < Pow256(8)
    ensures var (m, n, all) := ((|aad| + 15) / 16, (|ct| + 15) / 16, Absorbed(aad, ct));
            && |all| == m + n + 1
            && (forall i, j :: 0 <= i < m && 0 <= j < 128 ==>
                  all[i][j] == (16 * i + j / 8 < |aad| && aad[16 * i + j / 8][7 - j % 8]))
            && (forall i, j :: 0 <= i < n && 0 <= j < 128 ==>
                  all[m + i][j] == (16 * i + j / 8 < |ct| && ct[16 * i + j / 8][7 - j % 8]))
            && all[m + n] == PolyOf(Lengths(aad, ct))
            && Be(Lengths(aad, ct)[..8]) == 8 * |aad| && Be(Lengths(aad, ct)[8..]) == 8 * |ct|
  {
    hide Blocks, Pow256, BeBytes, Be, BitsOf;
    var m, n, all := (|aad| + 15) / 16, (|ct| + 15) / 16, Absorbed(aad, ct);
    BlockCount(aad);
    BlockCount(ct);
    forall i, j | 0 <= i < m && 0 <= j < 128
      ensures all[i][j] == (16 * i + j / 8 < |aad| && aad[16 * i + j / 8][7 - j % 8])
    {
      BlocksAt(aad, i, j);
    }
    forall i, j | 0 <= i < n && 0 <= j < 128
      ensures all[m + i][j] == (16 * i + j / 8 < |ct| && ct[16 * i + j / 8][7 - j % 8])
    {
      BlocksAt(ct, i, j);
      assert all[m + i] == Blocks(ct)[i];
    }
    assert Lengths(aad, ct)[..8] == Bits64(|aad|) && Lengths(aad, ct)[8..] == Bits64(|ct|);
    BeRoundTrip(8 * |aad|, 8);
    BeRoundTrip(8 * |ct|, 8);
  }

  /** Section 7.1, step 6: each bit of the tag is the bit of GHASH under the enciphered zero block, turned over where the
      enciphered block number 1 has a one. */
  lemma TagAt(e: Cipher, nonce: Nonce, aad: Data, ct: Data, tag: Data, i: nat)
    requires IsTag(e, nonce, aad, ct, tag) && i < 128
    ensures var h := PolyOf(e(seq(16, k => ZeroByte())));
            PolyOf(tag)[i] == (PolyOf(e(CounterBlock(nonce, 1)))[i] != Sum(h, Absorbed(aad, ct))[i])
  {
    hide Sum, Absorbed, PolyOf, BeBytes;
    assert CounterBlock(nonce, 1) == J0(nonce);
  }

  // ---------------------------------------------------------------- what is hashed

  /** Section 5.1.1 of FIPS 180-4: the message, 0x80, zeros and the length in bits, in as few blocks as will hold them. */
  lemma PaddedAt(message: Data)
    requires 8 * |message| < Pow256(8)
    ensures var (p, n) := (Sha256.Padded(message), |message|);
            && |p| % 64 == 0 && n + 9 <= |p| < n + 9 + 64
            && p[..n] == message && Value(p[n]) == 0x80
            && (forall k :: n < k < |p| - 8 ==> p[k] == ZeroByte())
            && Be(p[|p| - 8..]) == 8 * n
  {
    hide Pow256, BeBytes, Be, LowBits, Value;
    var p, n := Sha256.Padded(message), |message|;
    ByteValue(0x80, ZeroByte());
    BeRoundTrip(8 * n, 8);
    assert p[|p| - 8..] == BeBytes(8 * n, 8);
  }

  /** The pads of RFC 2104. */
  lemma PadsAre()
    ensures Value(Pbkdf2.IPAD) == 0x36 && Value(Pbkdf2.OPAD) == 0x5C
  {
    hide LowBits, Value;
    ByteValue(0x36, ZeroByte());
    ByteValue(0x5C, ZeroByte());
  }

  /** The block an HMAC starts from: the key, or its digest if it is longer than a block, and zeros. */
  lemma KeyBlockAt(f: Sha256.Compress, key: Data, k: nat)
    requires k < 64
    ensures Pbkdf2.KeyBlock(f, key)[k] ==
            if |key| <= 64 then (if k < |key| then key[k] else ZeroByte())
            else if k < 32 then Sha256.Sha(f, key)[k]
            else ZeroByte()
  {
    hide Sha256.Sha;
  }

  /** Block i of the key is T of number i + 1, counted from one, whatever blocks follow. */
  lemma DerivedAt(f: Sha256.Compress, password: Data, salt: Data, c: nat, n: nat, i: nat)
    requires i < n
    ensures Pbkdf2.Derived(f, password, salt, c, n)[32 * i..32 * i + 32] == Pbkdf2.Mixed(f, password, salt, i + 1, c)
  {
    hide Pbkdf2.Mixed;
    var d := Pbkdf2.Derived(f, password, salt, c, n);
    Pbkdf2.DerivedPrefix(f, password, salt, c, i + 1, n);
    assert d[32 * i..32 * i + 32] == d[..32 * (i + 1)][32 * i..];
  }

  /** The digest spells the words of the state, each most significant byte first. */
  lemma {:induction false} EmittedAt(words: seq<Sha256.Word>, i: nat)
    requires i < |words|
    ensures Be(Sha256.Emitted(words)[4 * i..4 * i + 4]) == words[i]
    decreases |words|
  {
    hide BeBytes, Be, Pow256;
    var n := |words| - 1;
    var before := Sha256.Emitted(words[..n]);
    FourBytes();
    BeRoundTrip(words[n], 4);
    if i < n {
      EmittedAt(words[..n], i);
      assert Sha256.Emitted(words)[4 * i..4 * i + 4] == before[4 * i..4 * i + 4];
    } else {
      assert Sha256.Emitted(words)[4 * i..4 * i + 4] == BeBytes(words[n], 4);
    }
  }

  const PRIMES: seq<nat> := [2, 3, 5, 7, 11, 13, 17, 19]
  const ROOTS: seq<nat> := [1, 1, 2, 2, 3, 3, 4, 4]

  /** Section 5.3.3 of FIPS 180-4: the first 32 bits behind the point of the square roots of the first eight primes. */
  lemma StartIs(i: nat)
    requires i < 8
    ensures var root := ROOTS[i] * 0x1_0000_0000 + Sha256.IV[i];
            root * root <= PRIMES[i] * 0x1_0000_0000_0000_0000 < (root + 1) * (root + 1)
  {
    match i case 0 => case 1 => case 2 => case 3 => case 4 => case 5 => case 6 => case _ =>
  }

  /** The iterated password hash: the salt goes in anew each time, in front. */
  lemma {:induction false} StretchedIs(f: Sha256.Compress, salt: Data, secret: Data, rounds: nat) returns (d: seq<Sha256.Digest>)
    requires rounds > 0
    ensures |d| == rounds && d[0] == Sha256.Sha(f, salt + secret)
    ensures forall i :: 0 < i < rounds ==> d[i] == Sha256.Sha(f, salt + d[i - 1])
    ensures Sha256.Stretched(f, salt, secret, rounds) == d[rounds - 1]
  {
    hide Sha256.Sha;
    if rounds == 1 {
      d := [Sha256.Sha(f, salt + secret)];
    } else {
      d := StretchedIs(f, salt, secret, rounds - 1);
      d := d + [Sha256.Sha(f, salt + d[rounds - 2])];
    }
  }

  // ---------------------------------------------------------------- a block of PBKDF2

  /** Whether bit (j, k) is set in an odd number of digests. */
  predicate Odd(us: seq<Sha256.Digest>, j: nat, k: nat)
    requires j < 32 && k < 8
  {
    us != [] && Odd(us[..|us| - 1], j, k) != us[|us| - 1][j][k]
  }

  /** Section 5.2 of RFC 8018: U_1 is the HMAC of the salt and the number of the block, each U the HMAC of the one before,
      and a bit of the block is set where an odd number of them has it. */
  lemma {:induction false} MixedIs(f: Sha256.Compress, password: Data, salt: Data, index: nat, c: nat) returns (us: seq<Sha256.Digest>)
    requires c > 0
    ensures |us| == c && us[0] == Pbkdf2.Hmac(f, password, salt + BeBytes(index, 4))
    ensures forall i :: 0 < i < c ==> us[i] == Pbkdf2.Hmac(f, password, us[i - 1])
    ensures us[c - 1] == Pbkdf2.Round(f, password, salt, index, c)
    ensures forall j, k :: 0 <= j < 32 && 0 <= k < 8 ==> Pbkdf2.Mixed(f, password, salt, index, c)[j][k] == Odd(us, j, k)
  {
    hide Pbkdf2.Hmac, BeBytes;
    if c == 1 {
      us := [Pbkdf2.Round(f, password, salt, index, 1)];
      forall j: nat, k: nat | j < 32 && k < 8
        ensures Odd(us, j, k) == us[0][j][k]
      {
        assert us[..0] == [] && !Odd([], j, k);
      }
    } else {
      var before := MixedIs(f, password, salt, index, c - 1);
      var u := Pbkdf2.Round(f, password, salt, index, c);
      us := before + [u];
      assert us[..c - 1] == before;
      forall j: nat, k: nat | j < 32 && k < 8
        ensures Pbkdf2.Mixed(f, password, salt, index, c)[j][k] == Odd(us, j, k)
      {
        XoredBit(Pbkdf2.Mixed(f, password, salt, index, c - 1), u, j, k);
      }
    }
  }

  lemma XoredBit(a: Sha256.Digest, b: Sha256.Digest, j: nat, k: nat)
    requires j < 32 && k < 8
    ensures Pbkdf2.XorDigest(a, b)[j][k] == (a[j][k] != b[j][k])
  {}
}
