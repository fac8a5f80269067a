/** The streaming SHA-256 of src/Helpers/AdminAuth.cpp, for any compression function, and what is built on it:
    HMAC (RFC 2104), the iterated password hash, and PBKDF2. */
module Sha256 {
  import opened Bytes
  import opened ByteOrder
  import Numbers

  type Data = seq<Byte>
  type Chunk = b: Data | |b| == 64 witness seq(64, i => ZeroByte())
  type Digest = b: Data | |b| == 32 witness seq(32, i => ZeroByte())

  const WORD := 0x1_0000_0000
  type Word = n: nat | n < WORD
  type State = s: seq<Word> | |s| == 8 witness [0, 0, 0, 0, 0, 0, 0, 0]

  /** transform: one block into the state. */
  type Compress = (State, Chunk) -> State

  const IV: State :=
    [0x6a09e667, 0xbb67ae85, 0x3c6ef372, 0xa54ff53a, 0x510e527f, 0x9b05688c, 0x1f83d9ab, 0x5be0cd19]

  const LENGTH_LIMIT := 0x1_0000_0000_0000_0000   // uint64_t counts bits modulo 2^64

  // ---------------------------------------------------------------- the definition

  function ZeroBytes(n: nat): (z: Data)
    ensures |z| == n
  {
    seq(n, i => ZeroByte())
  }

  /** How many zeros bring a message of n bytes, its 0x80 and eight length bytes to whole blocks. */
  function Gap(n: nat): (z: nat)
    ensures z < 64 && (n + 1 + z + 8) % 64 == 0
  {
    (119 - n % 64) % 64
  }

  const MARK: Byte := ByteOf(0x80)

  /** Section 5.1.1 of FIPS 180-4. */
  function Padded(message: Data): (p: Data)
    ensures |p| % 64 == 0
  {
    message + [MARK] + ZeroBytes(Gap(|message|)) + BeBytes(8 * |message|, 8)
  }

  function Chain(f: Compress, s: State, data: Data): State
    requires |data| % 64 == 0
    decreases |data|
  {
    if data == [] then s else Chain(f, f(s, data[..64]), data[64..])
  }

  /** The words of the state, most significant byte first. */
  function Emitted(s: seq<Word>): (d: Data)
    ensures |d| == 4 * |s|
  {
    if s == [] then [] else Emitted(s[..|s| - 1]) + BeBytes(s[|s| - 1], 4)
  }

  /** SHA-256 of a whole message. */
  function Sha(f: Compress, message: Data): Digest {
    Emitted(Chain(f, IV, Padded(message)))
  }

  lemma {:induction false} ChainMore(f: Compress, s: State, a: Data, b: Data)
    requires |a| % 64 == 0 && |b| % 64 == 0
    ensures Chain(f, s, a + b) == Chain(f, Chain(f, s, a), b)
    decreases |a|
  {
    if a == [] {
      assert a + b == b;
    } else {
      assert (a + b)[..64] == a[..64] && (a + b)[64..] == a[64..] + b;
      ChainMore(f, f(s, a[..64]), a[64..], b);
    }
  }

  lemma ChainOne(f: Compress, s: State, a: Data, block: Chunk)
    requires |a| % 64 == 0
    ensures Chain(f, s, a + block) == f(Chain(f, s, a), block)
  {
    ChainMore(f, s, a, block);
    assert block[..64] == block && block[64..] == [];
  }

  // ---------------------------------------------------------------- the stream

  /** The state after absorbing a message: its whole blocks are in the chain, its last n bytes in the
      buffer, and bitLen counts the former modulo 2^64. */
  ghost predicate Tracks(f: Compress, message: Data, n: nat, buffer: Chunk, state: State, bitLen: nat) {
    && n < 64 && n <= |message| && (|message| - n) % 64 == 0
    && buffer[..n] == message[|message| - n..]
    && state == Chain(f, IV, message[..|message| - n])
    && bitLen == 8 * (|message| - n) % LENGTH_LIMIT
  }

  lemma AbsorbedMore(f: Compress, message: Data, n: nat, buffer: Chunk, state: State, bitLen: nat, b: Byte)
    requires Tracks(f, message, n, buffer, state, bitLen) && n < 63
    ensures Tracks(f, message + [b], n + 1, buffer[n := b], state, bitLen)
  {
    hide Chain;
    LastBytes(message, n, b);
    BufferGrows(buffer, n, b);
  }

  lemma AbsorbedFull(f: Compress, message: Data, buffer: Chunk, state: State, bitLen: nat, b: Byte)
    requires Tracks(f, message, 63, buffer, state, bitLen)
    ensures var full := buffer[63 := b];
            Tracks(f, message + [b], 0, full, f(state, full), (bitLen + 512) % LENGTH_LIMIT)
  {
    hide Chain;
    var whole, full, more := message[..|message| - 63], buffer[63 := b], message + [b];
    LastBytes(message, 63, b);
    BufferGrows(buffer, 63, b);
    NothingBuffered(more, full);
    assert more == whole + full;
    ChainOne(f, IV, whole, full);
    FiveTwelve(|whole|, bitLen);
    assert |more| == |whole| + 64 && |more| % 64 == 0;
  }

  lemma AbsorbedOne(f: Compress, message: Data, n: nat, buffer: Chunk, state: State, bitLen: nat, b: Byte)
    requires Tracks(f, message, n, buffer, state, bitLen)
    ensures var full := buffer[n := b];
            if n < 63 then Tracks(f, message + [b], n + 1, full, state, bitLen)
            else Tracks(f, message + [b], 0, full, f(state, full), (bitLen + 512) % LENGTH_LIMIT)
  {
    TracksLength(f, message, n, buffer, state, bitLen);
    hide Tracks;
    if n < 63 {
      AbsorbedMore(f, message, n, buffer, state, bitLen, b);
    } else {
      AbsorbedFull(f, message, buffer, state, bitLen, b);
    }
  }

  lemma BufferGrows(buffer: Chunk, n: nat, b: Byte)
    requires n < 64
    ensures buffer[n := b][..n + 1] == buffer[..n] + [b]
    ensures n == 63 ==> buffer[n := b] == buffer[..n] + [b]
  {}

  lemma NothingBuffered(message: Data, buffer: Chunk)
    ensures buffer[..0] == message[|message|..] && message[..|message|] == message
  {}

  lemma FiveTwelve(n: nat, bitLen: nat)
    requires bitLen == 8 * n % LENGTH_LIMIT
    ensures (bitLen + 512) % LENGTH_LIMIT == 8 * (n + 64) % LENGTH_LIMIT
  {}

  lemma LastBytes(message: Data, n: nat, b: Byte)
    requires n <= |message|
    ensures (message + [b])[|message| - n..] == message[|message| - n..] + [b]
    ensures (message + [b])[..|message| - n] == message[..|message| - n]
    ensures message + [b] == message[..|message| - n] + (message[|message| - n..] + [b])
  {}

  class Stream {
    const f: Compress
    var state: State
    const buffer: array<Byte>
    var bufferLen: nat
    var bitLen: nat
    ghost var message: Data      // what was absorbed so far

    ghost predicate Valid()
      reads this, buffer
    {
      buffer.Length == 64 && Tracks(f, message, bufferLen, buffer[..], state, bitLen)
    }

    constructor (f: Compress)
      ensures Valid() && fresh(buffer) && this.f == f && message == []
    {
      this.f := f;
      state, bufferLen, bitLen, message := IV, 0, 0, [];
      buffer := new Byte[64](i => ZeroByte());
    }

    /** Sha256 is a plain value: copying it copies the buffer. */
    constructor Copy(from: Stream)
      requires from.Valid()
      ensures Valid() && fresh(buffer) && f == from.f && message == from.message
    {
      f, state, bufferLen, bitLen, message := from.f, from.state, from.bufferLen, from.bitLen, from.message;
      buffer := new Byte[64](i requires 0 <= i < 64 reads from.buffer => from.buffer[i]);
      new;
      assert buffer[..] == from.buffer[..];
      assert buffer[..bufferLen] == from.buffer[..][..bufferLen];
    }

    /** One byte of update. */
    method Absorb(b: Byte)
      requires Valid()
      modifies this, buffer
      ensures Valid() && message == old(message) + [b]
    {
      hide Tracks;
      TracksLength(f, message, bufferLen, buffer[..], state, bitLen);
      AbsorbedOne(f, message, bufferLen, buffer[..], state, bitLen, b);
      ghost var full: Chunk := buffer[..][bufferLen := b];
      buffer[bufferLen] := b;
      assert buffer[..] == full;
      bufferLen := bufferLen + 1;
      message := message + [b];
      if bufferLen == 64 {
        state := f(state, buffer[..]);
        bitLen := (bitLen + 512) % LENGTH_LIMIT;
        bufferLen := 0;
      }
    }

    /** update: the state depends on the bytes absorbed, not on how they were cut into calls. */
    method Update(data: Data)
      requires Valid()
      modifies this, buffer
      ensures Valid() && message == old(message) + data
    {
      for i := 0 to |data|
        invariant Valid() && message == old(message) + data[..i]
      {
        assert data[..i + 1] == data[..i] + [data[i]];
        Absorb(data[i]);
      }
    }

    /** while (i < to) _buffer[i++] = 0x00 */
    method Fill(from: nat, to: nat)
      requires buffer.Length == 64 && from <= to <= 64
      modifies buffer
      ensures buffer[..to] == old(buffer[..from]) + ZeroBytes(to - from)
      ensures buffer[to..] == old(buffer[to..])
    {
      var i := from;
      while i < to
        invariant from <= i <= to
        invariant forall k :: 0 <= k < from || i <= k < 64 ==> buffer[k] == old(buffer[k])
        invariant forall k :: from <= k < i ==> buffer[k] == ZeroByte()
      {
        buffer[i] := ZeroByte();
        i := i + 1;
      }
    }

    /** The length, most significant byte first, into the last eight bytes. */
    method AppendLength(totalBits: nat)
      requires buffer.Length == 64
      modifies buffer
      ensures buffer[..] == old(buffer[..56]) + BeBytes(totalBits, 8)
    {
      for b := 8 downto 0
        invariant forall k :: 0 <= k < 56 ==> buffer[k] == old(buffer[k])
        invariant forall j :: 0 <= j < 8 - b ==> buffer[56 + j] == BeBytes(totalBits, 8)[j]
      {
        BeBytesAt(totalBits, 8, 7 - b);
        buffer[56 + (7 - b)] := ByteOf(ShrBytes(totalBits, b) % 256);
      }
    }

    /** The eight words of the state, most significant byte first. */
    method Emit() returns (out: Digest)
      ensures out == Emitted(state)
    {
      var bytes: Data := [];
      assert state[..0] == [];
      for j := 0 to 8
        invariant bytes == Emitted(state[..j])
      {
        var w := state[j];
        assert state[..j + 1][..j] == state[..j];
        BeBytesAt(w, 4, 0); BeBytesAt(w, 4, 1); BeBytesAt(w, 4, 2); BeBytesAt(w, 4, 3);
        var four := [ByteOf(ShrBytes(w, 3) % 256), ByteOf(ShrBytes(w, 2) % 256),
                     ByteOf(ShrBytes(w, 1) % 256), ByteOf(w % 256)];
        assert four == BeBytes(w, 4);
        bytes := bytes + four;
      }
      assert state[..8] == state;
      out := bytes;
    }

    /** The 0x80, and if the length does not fit behind it, zeros and the block. */
    method MarkEnd() returns (i: nat, ghost first: Data)
      requires buffer.Length == 64 && bufferLen < 64
      modifies this`state, buffer
      ensures i == if bufferLen + 1 > 56 then 0 else bufferLen + 1
      ensures buffer[..i] == if i == 0 then [] else old(buffer[..bufferLen]) + [MARK]
      ensures first == if i == 0 then old(buffer[..bufferLen]) + [MARK] + ZeroBytes(63 - bufferLen) else []
      ensures state == if i == 0 then f(old(state), first) else old(state)
    {
      ghost var tail := buffer[..bufferLen];
      i := bufferLen;
      buffer[i] := MARK;
      i := i + 1;
      first := [];
      assert buffer[..i] == tail + [MARK];
      if i > 56 {
        Fill(i, 64);
        assert buffer[..] == buffer[..64];
        first := buffer[..];
        state := f(state, buffer[..]);
        i := 0;
      }
    }

    /** finalize: the digest of everything absorbed. */
    method Finalize() returns (out: Digest)
      requires Valid()
      modifies this, buffer
      ensures out == Sha(f, message) && message == old(message)
    {
      hide Chain, Emitted, BeBytes, Gap, ZeroBytes, Tracks, Padded;
      ghost var b0: Chunk, s0, bits0 := buffer[..], state, bitLen;
      TracksLength(f, message, bufferLen, b0, s0, bits0);
      assert buffer[..bufferLen] == b0[..bufferLen];
      var totalBits := (bitLen + bufferLen * 8) % LENGTH_LIMIT;
      var i;
      ghost var first;
      i, first := MarkEnd();
      Fill(i, 56);
      AppendLength(totalBits);
      state := f(state, buffer[..]);
      TrackedTail(f, message, bufferLen, b0, s0, bits0, first, buffer[..], totalBits);
      out := Emit();
    }
  }

  lemma TrackedTail(f: Compress, message: Data, n: nat, buffer: Chunk, state: State, bitLen: nat, first: Data, last: Chunk,
                    totalBits: nat)
    requires Tracks(f, message, n, buffer, state, bitLen) && totalBits == (bitLen + n * 8) % LENGTH_LIMIT
    requires if n + 1 > 56 then |first| == 64 && first == buffer[..n] + [MARK] + ZeroBytes(63 - n)
                                && last == ZeroBytes(56) + BeBytes(totalBits, 8)
             else first == [] && last == buffer[..n] + [MARK] + ZeroBytes(55 - n) + BeBytes(totalBits, 8)
    ensures Chain(f, IV, Padded(message)) == f(if first == [] then state else f(state, first), last)
  {
    hide Chain, BeBytes, ZeroBytes, Padded;
    LengthWraps(message, n, bitLen);
    PaddedTail(f, message, n, first, last, totalBits);
  }

  lemma TracksLength(f: Compress, message: Data, n: nat, buffer: Chunk, state: State, bitLen: nat)
    requires Tracks(f, message, n, buffer, state, bitLen)
    ensures n < 64
  {}

  lemma LengthWraps(message: Data, n: nat, bitLen: nat)
    requires n <= |message| && bitLen == 8 * (|message| - n) % LENGTH_LIMIT
    ensures (bitLen + n * 8) % LENGTH_LIMIT == 8 * |message| % LENGTH_LIMIT
  {}

  lemma BeStep(v: nat, n: nat)
    requires n > 0
    ensures BeBytes(v, n) == BeBytes(v / 256, n - 1) + [ByteOf(v % 256)]
  {}

  lemma LastByte(p: nat, r: nat)
    ensures (256 * p + r) / 256 == p + r / 256 && (256 * p + r) % 256 == r % 256
  {}

  /** n bytes hold a number modulo 256^n. */
  lemma {:induction false} LowBytes(q: nat, r: nat, n: nat)
    requires r < Pow256(n)
    ensures 0 <= q * Pow256(n) && BeBytes(q * Pow256(n) + r, n) == BeBytes(r, n)
  {
    hide BeBytes, ByteOf;
    if n > 0 {
      var p := q * Pow256(n - 1);
      Numbers.Scale256(q, Pow256(n - 1));
      Quotient(r, n);
      LowBytes(q, r / 256, n - 1);
      LastByte(p, r);
      BeStep(256 * p + r, n);
      BeStep(r, n);
    } else {
      assert q * 1 == q;
      NoBytes(q + r, r);
    }
  }

  lemma NoBytes(v: nat, w: nat)
    ensures BeBytes(v, 0) == BeBytes(w, 0)
  {}

  lemma Quotient(r: nat, n: nat)
    requires n > 0 && r < Pow256(n)
    ensures r / 256 < Pow256(n - 1)
  {}

  lemma EightBytesWide()
    ensures Pow256(8) == LENGTH_LIMIT
  {
    assert Pow256(1) == 0x100;
    assert Pow256(2) == 0x1_0000;
    assert Pow256(3) == 0x100_0000;
    assert Pow256(4) == 0x1_0000_0000;
    assert Pow256(5) == 0x100_0000_0000;
    assert Pow256(6) == 0x1_0000_0000_0000;
    assert Pow256(7) == 0x100_0000_0000_0000;
  }

  /** Eight bytes hold a length modulo 2^64. */
  lemma EightBytes(v: nat)
    ensures BeBytes(v % LENGTH_LIMIT, 8) == BeBytes(v, 8)
  {
    hide BeBytes, Pow256;
    EightBytesWide();
    LowBytes(v / LENGTH_LIMIT, v % LENGTH_LIMIT, 8);
    assert v == v / LENGTH_LIMIT * LENGTH_LIMIT + v % LENGTH_LIMIT;
  }

  /** The one or two blocks that finalize feeds are the rest of the padded message. */
  lemma PaddedTail(f: Compress, message: Data, n: nat, first: Data, last: Chunk, totalBits: nat)
    requires n < 64 && n <= |message| && (|message| - n) % 64 == 0
    requires totalBits == 8 * |message| % LENGTH_LIMIT
    requires if n + 1 > 56 then |first| == 64 && first == message[|message| - n..] + [MARK] + ZeroBytes(63 - n)
                                && last == ZeroBytes(56) + BeBytes(totalBits, 8)
             else first == [] && last == message[|message| - n..] + [MARK] + ZeroBytes(55 - n) + BeBytes(totalBits, 8)
    ensures var s := Chain(f, IV, message[..|message| - n]);
            Chain(f, IV, Padded(message)) == f(if first == [] then s else f(s, first), last)
  {
    hide Chain, BeBytes;
    EightBytes(8 * |message|);
    var whole, tail := message[..|message| - n], message[|message| - n..];
    var length := BeBytes(totalBits, 8);
    assert message == whole + tail;
    if n + 1 > 56 {
      GapOf(|message|, n);
      LongTail(whole, tail, n, length);
      ChainOne(f, IV, whole, first);
      ChainOne(f, IV, whole + first, last);
    } else {
      GapOf(|message|, n);
      ShortTail(whole, tail, n, length);
      ChainOne(f, IV, whole, last);
    }
  }

  lemma GapOf(length: nat, n: nat)
    requires n < 64 && n <= length && (length - n) % 64 == 0
    ensures Gap(length) == if n + 1 > 56 then 63 - n + 56 else 55 - n
  {}

  lemma ShortTail(whole: Data, tail: Data, n: nat, length: Data)
    requires n <= 55
    ensures whole + tail + [MARK] + ZeroBytes(55 - n) + length == whole + (tail + [MARK] + ZeroBytes(55 - n) + length)
  {}

  lemma LongTail(whole: Data, tail: Data, n: nat, length: Data)
    requires n < 64
    ensures whole + tail + [MARK] + ZeroBytes(63 - n + 56) + length
            == whole + (tail + [MARK] + ZeroBytes(63 - n)) + (ZeroBytes(56) + length)
  {
    assert ZeroBytes(63 - n + 56) == ZeroBytes(63 - n) + ZeroBytes(56);
  }

  // ---------------------------------------------------------------- the iterated password hash

  /** SHA-256 of salt and secret, then of salt and the digest before, `rounds` times in all. */
  function Stretched(f: Compress, salt: Data, secret: Data, rounds: nat): Digest {
    if rounds <= 1 then Sha(f, salt + secret) else Sha(f, salt + Stretched(f, salt, secret, rounds - 1))
  }

  /** SHA-256 of two pieces. */
  method HashTwo(f: Compress, a: Data, b: Data) returns (d: Digest)
    ensures d == Sha(f, a + b)
  {
    hide Sha;
    var sha := new Stream(f);
    sha.Update(a);
    sha.Update(b);
    assert [] + a + b == a + b;
    d := sha.Finalize();
  }

  /** hashSecretDigest. */
  method HashSecretDigest(f: Compress, salt: Data, secret: Data, iterations: nat) returns (digest: Digest)
    requires iterations > 0
    ensures digest == Stretched(f, salt, secret, iterations)
  {
    hide Sha;
    digest := HashTwo(f, salt, secret);
    for i := 1 to iterations
      invariant digest == Stretched(f, salt, secret, i)
    {
      digest := HashTwo(f, salt, digest);
    }
  }
}
