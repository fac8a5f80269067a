/** HMAC-SHA256 (RFC 2104) and PBKDF2 of src/Helpers/AdminAuth.cpp: the loop that starts every HMAC from two
    hashed pads writes the key of section 5.2 of RFC 8018, for every length the block counter can hold. */
module Pbkdf2 {
  import opened Bytes
  import opened ByteOrder
  import opened Sha256

  // ---------------------------------------------------------------- HMAC

  /** The key, hashed if it is longer than a block, padded with zeros to a block. */
  function KeyBlock(f: Compress, key: Data): (b: Chunk) {
    if |key| > 64 then Sha(f, key) + ZeroBytes(32) else key + ZeroBytes(64 - |key|)
  }

  function Pad(block: Chunk, b: Byte): Chunk {
    seq(64, i requires 0 <= i < 64 => XorByte(block[i], b))
  }

  const IPAD: Byte := ByteOf(0x36)
  const OPAD: Byte := ByteOf(0x5c)

  /** H((K ^ opad) || H((K ^ ipad) || message)). */
  function Hmac(f: Compress, key: Data, message: Data): Digest {
    var k := KeyBlock(f, key);
    Sha(f, Pad(k, OPAD) + Sha(f, Pad(k, IPAD) + message))
  }

  // ---------------------------------------------------------------- PBKDF2

  /** U_c of a block: U_1 is the HMAC of the salt and the block number. */
  function Round(f: Compress, password: Data, salt: Data, index: nat, c: nat): Digest {
    if c <= 1 then Hmac(f, password, salt + BeBytes(index, 4))
    else Hmac(f, password, Round(f, password, salt, index, c - 1))
  }

  function XorDigest(a: Digest, b: Digest): Digest {
    seq(32, j requires 0 <= j < 32 => XorByte(a[j], b[j]))
  }

  /** U_1 ^ ... ^ U_c. */
  function Mixed(f: Compress, password: Data, salt: Data, index: nat, c: nat): Digest {
    if c <= 1 then Round(f, password, salt, index, 1)
    else XorDigest(Mixed(f, password, salt, index, c - 1), Round(f, password, salt, index, c))
  }

  /** T_1 || ... || T_n. */
  function Derived(f: Compress, password: Data, salt: Data, c: nat, n: nat): (dk: Data)
    ensures |dk| == 32 * n
  {
    if n == 0 then [] else Derived(f, password, salt, c, n - 1) + Mixed(f, password, salt, n, c)
  }

  lemma {:induction false} DerivedPrefix(f: Compress, password: Data, salt: Data, c: nat, m: nat, n: nat)
    requires m <= n
    ensures Derived(f, password, salt, c, n)[..32 * m] == Derived(f, password, salt, c, m)
    decreases n
  {
    hide Mixed;
    if m < n {
      DerivedPrefix(f, password, salt, c, m, n - 1);
      assert Derived(f, password, salt, c, n)[..32 * m] == Derived(f, password, salt, c, n - 1)[..32 * m];
    }
  }

  // ---------------------------------------------------------------- how many blocks

  /** The blocks that length dkLen takes. */
  function BlocksFor(dkLen: nat): nat { (dkLen + 31) / 32 }

  /** The loop's bound: the same in a uint32_t. */
  function NumBlocks(dkLen: nat): nat { BlocksFor(dkLen) % WORD }

  /** How much of the key is written. */
  function Written(dkLen: nat): nat {
    if dkLen < 32 * NumBlocks(dkLen) then dkLen else 32 * NumBlocks(dkLen)
  }

  /** Short of the largest bound the block loop ends. */
  predicate Ends(dkLen: nat) { NumBlocks(dkLen) < WORD - 1 }

  /** The uint32_t counter after so many turns of the loop. */
  function CounterAt(turns: nat): (i: nat)
    ensures i < WORD
  {
    if turns == 0 then 1 else (CounterAt(turns - 1) + 1) % WORD
  }

  /** Whether the loop stops before the next turn. */
  predicate Stops(dkLen: nat, turns: nat) { CounterAt(turns) > NumBlocks(dkLen) }

  lemma {:induction false} CountsUp(turns: nat)
    requires turns < WORD - 1
    ensures CounterAt(turns) == turns + 1
  {
    if turns > 0 {
      CountsUp(turns - 1);
    }
  }

  /** The loop stops after some number of turns if and only if its bound is not the largest: then it stops
      after as many turns as there are blocks, and otherwise after none. */
  lemma NeverPasses(dkLen: nat)
    ensures Ends(dkLen) <==> exists turns: nat :: Stops(dkLen, turns)
    ensures Ends(dkLen) ==> Stops(dkLen, NumBlocks(dkLen)) && forall turns: nat :: turns < NumBlocks(dkLen) ==> !Stops(dkLen, turns)
  {
    hide CounterAt;
    if Ends(dkLen) {
      CountsUp(NumBlocks(dkLen));
      assert Stops(dkLen, NumBlocks(dkLen));
      forall turns: nat | turns < NumBlocks(dkLen)
        ensures !Stops(dkLen, turns)
      {
        CountsUp(turns);
      }
    }
  }

  /** The call ends with the whole key written exactly when the key has fewer than 2^32 - 1 blocks. */
  lemma WritesWholeKey(dkLen: nat)
    requires dkLen > 0
    ensures Ends(dkLen) && Written(dkLen) == dkLen <==> BlocksFor(dkLen) < WORD - 1
  {}

  /** A key of 2^32 blocks: the call succeeds and writes nothing. */
  lemma TooLongWritesNothing()
    ensures Ends(32 * WORD) && Written(32 * WORD) == 0
  {}

  // ---------------------------------------------------------------- the methods

  /** K0, for hmacSha256 and for pbkdf2Sha256. */
  method MakeKeyBlock(f: Compress, key: Data) returns (block: Chunk)
    ensures block == KeyBlock(f, key)
  {
    hide Sha;
    if |key| > 64 {
      var sha := new Stream(f);
      sha.Update(key);
      assert [] + key == key;
      var hashed := sha.Finalize();
      block := hashed + ZeroBytes(32);
    } else {
      block := key + ZeroBytes(64 - |key|);
    }
  }

  /** A stream that has absorbed one pad. */
  method Primed(f: Compress, pad: Chunk) returns (s: Stream)
    ensures s.Valid() && fresh(s) && fresh(s.buffer) && s.f == f && s.message == pad
  {
    s := new Stream(f);
    s.Update(pad);
    assert [] + pad == pad;
  }

  /** hmacSha256. */
  method HmacSha256(f: Compress, key: Data, message: Data) returns (mac: Digest)
    ensures mac == Hmac(f, key, message)
  {
    hide Sha, Pad, KeyBlock;
    var block := MakeKeyBlock(f, key);
    var inner := Primed(f, Pad(block, IPAD));
    inner.Update(message);
    var innerDigest := inner.Finalize();
    var outer := Primed(f, Pad(block, OPAD));
    outer.Update(innerDigest);
    mac := outer.Finalize();
  }

  /** The two hashed pads of a password. */
  ghost predicate Bases(f: Compress, password: Data, inner: Stream, outer: Stream)
    reads inner, inner.buffer, outer, outer.buffer
  {
    && inner.Valid() && outer.Valid() && inner.f == f && outer.f == f
    && inner.message == Pad(KeyBlock(f, password), IPAD)
    && outer.message == Pad(KeyBlock(f, password), OPAD)
  }

  /** hmacFromBase: HMAC from copies of the two mid-states. */
  method HmacFromBase(f: Compress, password: Data, innerBase: Stream, outerBase: Stream, message: Data)
    returns (mac: Digest)
    requires Bases(f, password, innerBase, outerBase)
    ensures mac == Hmac(f, password, message)
  {
    hide Sha, Pad, KeyBlock;
    var inner := new Stream.Copy(innerBase);
    inner.Update(message);
    var innerDigest := inner.Finalize();
    var outer := new Stream.Copy(outerBase);
    outer.Update(innerDigest);
    mac := outer.Finalize();
  }

  /** One block T_i. */
  method OneBlock(f: Compress, password: Data, salt: Data, innerBase: Stream, outerBase: Stream, i: Word, iterations: nat)
    returns (t: Digest)
    requires Bases(f, password, innerBase, outerBase) && iterations > 0
    ensures t == Mixed(f, password, salt, i, iterations)
  {
    hide Hmac, XorByte;
    BeBytesAt(i, 4, 0);
    BeBytesAt(i, 4, 1);
    BeBytesAt(i, 4, 2);
    BeBytesAt(i, 4, 3);
    var index := [ByteOf(ShrBytes(i, 3) % 256), ByteOf(ShrBytes(i, 2) % 256), ByteOf(ShrBytes(i, 1) % 256), ByteOf(i % 256)];
    assert index == BeBytes(i, 4);
    var u := HmacFromBase(f, password, innerBase, outerBase, salt + index);
    t := u;
    for c := 1 to iterations
      invariant Bases(f, password, innerBase, outerBase)
      invariant u == Round(f, password, salt, i, c) && t == Mixed(f, password, salt, i, c)
    {
      u := HmacFromBase(f, password, innerBase, outerBase, u);
      t := XorDigest(t, u);
    }
  }

  /** std::copy of `take` bytes. */
  method CopyInto(t: Digest, take: nat, out: array<Byte>, written: nat)
    requires take <= 32 && written + take <= out.Length
    modifies out
    ensures out[..written + take] == old(out[..written]) + t[..take]
    ensures out[written + take..] == old(out[written + take..])
  {
    for j := 0 to take
      invariant forall k :: 0 <= k < written || written + j <= k < out.Length ==> out[k] == old(out[k])
      invariant forall k :: 0 <= k < j ==> out[written + k] == t[k]
    {
      out[written + j] := t[j];
    }
    assert forall k :: written <= k < written + take ==> out[k] == t[k - written];
  }

  /** The key so far: the first `written` bytes of i blocks, and the rest untouched. */
  ghost predicate KeySoFar(f: Compress, password: Data, salt: Data, c: nat, i: nat, written: nat,
                           before: Data, out: Data)
  {
    && written <= |out| == |before| && written <= 32 * i
    && out[..written] == Derived(f, password, salt, c, i)[..written]
    && out[written..] == before[written..]
  }

  /** One turn of the loop. */
  method WriteBlock(f: Compress, password: Data, salt: Data, innerBase: Stream, outerBase: Stream, i: Word,
                    iterations: nat, out: array<Byte>, dkLen: nat, from: nat, ghost before: Data) returns (written: nat)
    requires Bases(f, password, innerBase, outerBase) && iterations > 0 && i > 0
    requires out != innerBase.buffer && out != outerBase.buffer
    requires from <= dkLen <= out.Length && (from == 32 * (i - 1) || from == dkLen)
    requires KeySoFar(f, password, salt, iterations, i - 1, from, before, out[..])
    modifies out
    ensures written == if dkLen - from < 32 then dkLen else from + 32
    ensures KeySoFar(f, password, salt, iterations, i, written, before, out[..])
  {
    hide Hmac, Mixed, Derived, Pad, KeyBlock;
    var t := OneBlock(f, password, salt, innerBase, outerBase, i, iterations);
    var take := if dkLen - from < 32 then dkLen - from else 32;
    NextBlock(f, password, salt, iterations, i, from, take);
    assert out[..from] == out[..][..from] && out[from + take..] == out[..][from..][take..];
    assert before[from..][take..] == before[from + take..];
    CopyInto(t, take, out, from);
    written := from + take;
    assert out[..written] == out[..][..written] && out[written..] == out[..][written..];
  }

  /** The loop over the blocks. */
  method DeriveBlocks(f: Compress, password: Data, salt: Data, innerBase: Stream, outerBase: Stream,
                      iterations: nat, out: array<Byte>, dkLen: nat)
    requires Bases(f, password, innerBase, outerBase) && iterations > 0
    requires out != innerBase.buffer && out != outerBase.buffer
    requires dkLen <= out.Length && Ends(dkLen)
    modifies out
    ensures KeySoFar(f, password, salt, iterations, NumBlocks(dkLen), Written(dkLen), old(out[..]), out[..])
  {
    hide Hmac, Mixed, Derived, Pad, KeyBlock, KeySoFar;
    var numBlocks := NumBlocks(dkLen);
    var written := 0;
    var i := 1;
    ghost var before := out[..];
    NothingYet(f, password, salt, iterations, before);
    while i <= numBlocks
      invariant 1 <= i <= numBlocks + 1
      invariant Bases(f, password, innerBase, outerBase)
      invariant written == if dkLen < 32 * (i - 1) then dkLen else 32 * (i - 1)
      invariant KeySoFar(f, password, salt, iterations, i - 1, written, before, out[..])
      decreases numBlocks + 1 - i
    {
      written := WriteBlock(f, password, salt, innerBase, outerBase, i, iterations, out, dkLen, written, before);
      i := i + 1;
    }
  }

  /** pbkdf2Sha256: refuses zero iterations and zero length, and otherwise writes the first bytes of the
      derived key, as many as its 32-bit block count covers, and nothing else. */
  method Pbkdf2Sha256(f: Compress, password: Data, salt: Data, iterations: Word, out: array<Byte>, dkLen: nat)
    returns (ok: bool)
    requires dkLen <= out.Length
    requires iterations > 0 ==> Ends(dkLen)
    modifies out
    ensures ok == (iterations > 0 && dkLen > 0)
    ensures !ok ==> out[..] == old(out[..])
    ensures ok ==> KeySoFar(f, password, salt, iterations, NumBlocks(dkLen), Written(dkLen), old(out[..]), out[..])
  {
    hide Hmac, Mixed, Derived, Pad, KeyBlock, KeySoFar;
    if iterations == 0 || dkLen == 0 { return false; }
    var block := MakeKeyBlock(f, password);
    var innerBase := Primed(f, Pad(block, IPAD));
    var outerBase := Primed(f, Pad(block, OPAD));

    DeriveBlocks(f, password, salt, innerBase, outerBase, iterations, out, dkLen);
    return true;
  }

  lemma NothingYet(f: Compress, password: Data, salt: Data, c: nat, before: Data)
    ensures KeySoFar(f, password, salt, c, 0, 0, before, before)
  {}

  lemma NextBlock(f: Compress, password: Data, salt: Data, c: nat, i: nat, written: nat, take: nat)
    requires i > 0 && take <= 32 && written <= 32 * (i - 1) && (written < 32 * (i - 1) ==> take == 0)
    ensures Derived(f, password, salt, c, i)[..written + take]
            == Derived(f, password, salt, c, i - 1)[..written] + Mixed(f, password, salt, i, c)[..take]
  {
    hide Mixed;
  }

  /** For every length whose blocks the counter can hold, the call writes exactly the first dkLen bytes of
      the derived key: any longer derivation starts with them. */
  lemma ExactKey(f: Compress, password: Data, salt: Data, c: nat, dkLen: nat, n: nat)
    requires 0 < dkLen && BlocksFor(dkLen) < WORD - 1 && BlocksFor(dkLen) <= n
    ensures Written(dkLen) == dkLen <= 32 * n
    ensures Derived(f, password, salt, c, NumBlocks(dkLen))[..Written(dkLen)] == Derived(f, password, salt, c, n)[..dkLen]
  {
    hide Derived;
    DerivedPrefix(f, password, salt, c, BlocksFor(dkLen), n);
    var dk := Derived(f, password, salt, c, n);
    assert dk[..32 * BlocksFor(dkLen)][..dkLen] == dk[..dkLen];
  }
}
