/** BLAKE-256 as a stream: block buffering, bit counter and padding around an uninterpreted compression function. */
module Blake256 {
  import opened ModArith
  import opened ByteOrder

  const BLOCK: nat := 64

  type State = seq<uint32>

  /** The compression function, with the two counter words or without a counter. */
  datatype Compression = Compression(
    counted: (State, seq<uint8>, uint32, uint32) -> State,
    uncounted: (State, seq<uint8>) -> State)

  const IV: State := [
    0x6a09e667, 0xbb67ae85, 0x3c6ef372, 0xa54ff53a, 0x510e527f, 0x9b05688c, 0x1f83d9ab, 0x5be0cd19
  ]

  // ----------------------------------------------------------- the raw stream

  /** The fields of the context that matter; buf holds only the bytes in use. */
  datatype Raw = Raw(h: State, t0: uint32, t1: uint32, nullt: bool, buf: seq<uint8>)

  /** One block: the counter goes up by 512 first, and carries when its low word comes out as zero. */
  function CompressBlock(f: Compression, r: Raw, block: seq<uint8>): Raw {
    var t0: uint32 := (r.t0 as int + 512) % TWO32;
    var t1: uint32 := if t0 == 0 then (r.t1 as int + 1) % TWO32 else r.t1;
    Raw(if r.nullt then f.uncounted(r.h, block) else f.counted(r.h, block, t0, t1), t0, t1, r.nullt, [])
  }

  /** Taking in data: a block is compressed as soon as it is full. */
  function Absorb(f: Compression, r: Raw, data: seq<uint8>): (r': Raw)
    requires |r.buf| < BLOCK
    ensures |r'.buf| < BLOCK
    decreases |r.buf| + |data|
  {
    var all := r.buf + data;
    if |all| < BLOCK then r.(buf := all) else Absorb(f, CompressBlock(f, r, all[..BLOCK]), all[BLOCK..])
  }

  /** The state after data does not depend on how data is cut into pieces. */
  lemma {:induction false} AbsorbConcat(f: Compression, r: Raw, a: seq<uint8>, b: seq<uint8>)
    requires |r.buf| < BLOCK
    ensures Absorb(f, Absorb(f, r, a), b) == Absorb(f, r, a + b)
    decreases |r.buf| + |a|
  {
    var all := r.buf + a;
    assert r.buf + (a + b) == all + b;
    if |all| < BLOCK {
    } else {
      assert (all + b)[..BLOCK] == all[..BLOCK] && (all + b)[BLOCK..] == all[BLOCK..] + b;
      AbsorbConcat(f, CompressBlock(f, r, all[..BLOCK]), all[BLOCK..], b);
    }
  }

  // ------------------------------------------------------------- specification

  /** The number of message bits, modulo 2^64, in eight bytes. */
  function LengthBytes(n: nat): (b: seq<uint8>)
    ensures |b| == 8
  {
    WordBytes(8 * n / TWO32 % TWO32) + WordBytes(8 * n % TWO32)
  }

  /** A one bit, zeros, another one bit, so that with the length the last block is full. */
  function Padding(n: nat): seq<uint8> {
    var b := n % BLOCK;
    if b == 55 then [0x81]
    else if b < 55 then [0x80] + Zeros(54 - b) + [0x01]
    else [0x80] + Zeros(118 - b) + [0x01]
  }

  function PaddedMessage(m: seq<uint8>): seq<uint8> {
    m + Padding(|m|) + LengthBytes(|m|)
  }

  lemma PaddedLength(m: seq<uint8>)
    ensures |PaddedMessage(m)| == BLOCK * (|m| / BLOCK + if |m| % BLOCK <= 55 then 1 else 2)
    ensures |PaddedMessage(m)| / BLOCK == |m| / BLOCK + if |m| % BLOCK <= 55 then 1 else 2
  {
    var k, b := |m| / BLOCK, |m| % BLOCK;
    assert |m| == BLOCK * k + b;
    DivUnique(|PaddedMessage(m)|, BLOCK, k + if b <= 55 then 1 else 2, 0);
  }

  function Min(a: nat, b: nat): nat {
    if a < b then a else b
  }

  /** Block i of the padded message; its counter is the number of message bits up to its end, if it holds any. */
  ghost function HashBlock(f: Compression, h: State, p: seq<uint8>, n: nat, i: nat): State
    requires BLOCK * (i + 1) <= |p|
  {
    var block := p[BLOCK * i..BLOCK * (i + 1)];
    var bits := 8 * Min(BLOCK * (i + 1), n);
    if BLOCK * i >= n then f.uncounted(h, block) else f.counted(h, block, bits % TWO32, bits / TWO32 % TWO32)
  }

  /** The state after k blocks of p, of which the first n bytes are message. */
  ghost function Chain(f: Compression, p: seq<uint8>, n: nat, k: nat): State
    requires BLOCK * k <= |p|
  {
    if k == 0 then IV else HashBlock(f, Chain(f, p, n, k - 1), p, n, k - 1)
  }

  ghost function Digest(f: Compression, m: seq<uint8>): seq<uint8> {
    PaddedLength(m);
    Output(Chain(f, PaddedMessage(m), |m|, |PaddedMessage(m)| / BLOCK))
  }

  /** The words of the state, big-endian. */
  function Output(h: State): seq<uint8> {
    if h == [] then [] else Output(h[..|h| - 1]) + WordBytes(h[|h| - 1])
  }

  /** What the context holds after absorbing m from the start. */
  ghost function After(f: Compression, m: seq<uint8>): Raw {
    var k := |m| / BLOCK;
    Raw(Chain(f, m, |m|, k), 512 * k % TWO32, 512 * k / TWO32 % TWO32, false, m[BLOCK * k..])
  }

  const INITIAL: Raw := Raw(IV, 0, 0, false, [])

  // ------------------------------------------- absorbing a message from the start

  /** The low counter word stays a multiple of 512, so adding the bits of a partial block never carries. */
  lemma Counter(k: nat, b: nat)
    requires b < BLOCK
    ensures (512 * k + 8 * b) % TWO32 == 512 * k % TWO32 + 8 * b
    ensures (512 * k + 8 * b) / TWO32 == 512 * k / TWO32
    ensures 512 * (k + 1) % TWO32 == (512 * k % TWO32 + 512) % TWO32
    ensures 512 * (k + 1) / TWO32 % TWO32
         == if 512 * (k + 1) % TWO32 == 0 then (512 * k / TWO32 % TWO32 + 1) % TWO32 else 512 * k / TWO32 % TWO32
  {
    var w := 0x80_0000;
    var q, r := k / w, 512 * (k % w);
    assert 512 * k == q * TWO32 + r by {
      assert k == q * w + k % w;
    }
    DivUnique(512 * k, TWO32, q, r);
    DivUnique(512 * k + 8 * b, TWO32, q, r + 8 * b);
    if r + 512 == TWO32 {
      DivUnique(512 * (k + 1), TWO32, q + 1, 0);
    } else {
      DivUnique(512 * (k + 1), TWO32, q, r + 512);
    }
    NextWord(q);
  }

  lemma NextWord(q: nat)
    ensures (q + 1) % TWO32 == (q % TWO32 + 1) % TWO32
  {
    DivAddMultiple(q % TWO32 + 1, q / TWO32, TWO32);
  }

  lemma AbsorbShort(f: Compression, r: Raw, data: seq<uint8>)
    requires |r.buf| + |data| < BLOCK
    ensures Absorb(f, r, data) == r.(buf := r.buf + data)
  {}

  lemma AbsorbFull(f: Compression, r: Raw, data: seq<uint8>)
    requires |r.buf| < BLOCK && |r.buf| + |data| == BLOCK
    ensures Absorb(f, r, data) == CompressBlock(f, r, r.buf + data)
  {
    var all := r.buf + data;
    assert all[..BLOCK] == all && all[BLOCK..] == [];
    var next := CompressBlock(f, r, all);
    assert next.buf + [] == [];
  }

  /** After k whole blocks. */
  lemma {:induction false} AbsorbBlocks(f: Compression, m: seq<uint8>, k: nat)
    requires BLOCK * k <= |m|
    ensures Absorb(f, INITIAL, m[..BLOCK * k])
         == Raw(Chain(f, m, |m|, k), 512 * k % TWO32, 512 * k / TWO32 % TWO32, false, [])
  {
    hide CompressBlock;
    if k == 0 {
      assert m[..0] == [] && [] + m[..0] == [];
    } else {
      var j := k - 1;
      AbsorbBlocks(f, m, j);
      var block := m[BLOCK * j..BLOCK * k];
      assert m[..BLOCK * k] == m[..BLOCK * j] + block;
      AbsorbConcat(f, INITIAL, m[..BLOCK * j], block);
      var r := Absorb(f, INITIAL, m[..BLOCK * j]);
      assert [] + block == block;
      AbsorbFull(f, r, block);
      Counter(j, 0);
      NextBlock(f, r, m, j);
    }
  }

  lemma NextBlock(f: Compression, r: Raw, m: seq<uint8>, j: nat)
    requires BLOCK * (j + 1) <= |m|
    requires r == Raw(Chain(f, m, |m|, j), 512 * j % TWO32, 512 * j / TWO32 % TWO32, false, [])
    ensures CompressBlock(f, r, m[BLOCK * j..BLOCK * (j + 1)])
         == Raw(Chain(f, m, |m|, j + 1), 512 * (j + 1) % TWO32, 512 * (j + 1) / TWO32 % TWO32, false, [])
  {
    Counter(j, 0);
  }

  /** Whatever the pieces were, the context is determined by the message. */
  lemma AbsorbMessage(f: Compression, m: seq<uint8>)
    ensures Absorb(f, INITIAL, m) == After(f, m)
  {
    hide Absorb, Chain;
    var k := |m| / BLOCK;
    AbsorbBlocks(f, m, k);
    AbsorbConcat(f, INITIAL, m[..BLOCK * k], m[BLOCK * k..]);
    assert m == m[..BLOCK * k] + m[BLOCK * k..];
    var r := Absorb(f, INITIAL, m[..BLOCK * k]);
    AbsorbShort(f, r, m[BLOCK * k..]);
    assert [] + m[BLOCK * k..] == m[BLOCK * k..];
  }

  lemma {:induction false} ChainPrefix(f: Compression, m: seq<uint8>, p: seq<uint8>, k: nat)
    requires m <= p && BLOCK * k <= |m|
    ensures Chain(f, m, |m|, k) == Chain(f, p, |m|, k)
  {
    if k > 0 {
      ChainPrefix(f, m, p, k - 1);
      var i := k - 1;
      assert m == p[..|m|];
      assert m[BLOCK * i..BLOCK * (i + 1)] == p[BLOCK * i..BLOCK * (i + 1)];
    }
  }

  // ----------------------------------------------------------------- finishing

  function Less(t: uint32, x: nat): uint32 {
    (t - x) % TWO32
  }

  const PADDING: seq<uint8> := [0x80] + Zeros(128)

  /** The bit length of the whole message, from the counter and the bytes still in the buffer. */
  function BitLength(s: Raw): (msglen: seq<uint8>)
    ensures |msglen| == 8
  {
    var b := |s.buf|;
    var lo: uint32 := (s.t0 as int + 8 * b) % TWO32;
    var hi: uint32 := if lo < 8 * b then (s.t1 as int + 1) % TWO32 else s.t1;
    WordBytes(hi) + WordBytes(lo)
  }

  /** The padding of blake256_Final, with the counter run down beforehand so that it comes back to the right value. */
  function Padded(f: Compression, s: Raw): (r: Raw)
    requires |s.buf| < BLOCK
    ensures |r.buf| < BLOCK
  {
    var b := |s.buf|;
    if b == 55 then Absorb(f, s.(t0 := Less(s.t0, 8)), [0x81])
    else if b < 55 then
      var s1 := s.(nullt := s.nullt || b == 0, t0 := Less(s.t0, 440 - 8 * b));
      var s2 := Absorb(f, Absorb(f, s1, PADDING[..55 - b]), [0x01]);
      s2.(t0 := Less(s2.t0, 8))
    else
      var s1 := Absorb(f, s.(t0 := Less(s.t0, 512 - 8 * b)), PADDING[..64 - b]);
      var s2 := Absorb(f, s1.(t0 := Less(s1.t0, 440)), PADDING[1..56]);
      var s3 := Absorb(f, s2.(nullt := true), [0x01]);
      s3.(t0 := Less(s3.t0, 8))
  }

  function Finish(f: Compression, s: Raw): Raw
    requires |s.buf| < BLOCK
  {
    var padded := Padded(f, s);
    Absorb(f, padded.(t0 := Less(padded.t0, 64)), BitLength(s))
  }

  lemma FinishIs(f: Compression, s: Raw)
    requires |s.buf| < BLOCK
    ensures var padded := Padded(f, s);
      Finish(f, s) == Absorb(f, padded.(t0 := Less(padded.t0, 64)), BitLength(s))
  {}

  lemma RunDown(t: uint32, a: nat, b: nat, c: nat)
    ensures Less(Less(t, a), b) == Less(t, a + b)
    ensures Less(Less(Less(t, a), b), c) == Less(t, a + b + c)
    ensures (Less(t, a) + b) % TWO32 == (t as int - a + b) % TWO32
  {
    var q := (t - a) / TWO32;
    assert t - a == q * TWO32 + Less(t, a);
    DivAddMultiple(Less(t, a) - b, q, TWO32);
    DivAddMultiple(Less(t, a) + b, q, TWO32);
    var q' := (t - (a + b)) / TWO32;
    assert t - (a + b) == q' * TWO32 + Less(t, a + b);
    DivAddMultiple(Less(t, a + b) - c, q', TWO32);
  }

  lemma MessageLength(m: seq<uint8>, t0: uint32, t1: uint32)
    requires t0 == 512 * (|m| / BLOCK) % TWO32 && t1 == 512 * (|m| / BLOCK) / TWO32 % TWO32
    ensures var b := |m| % BLOCK;
      && 8 * |m| % TWO32 == t0 + 8 * b < TWO32
      && 8 * |m| / TWO32 % TWO32 == t1
  {
    Counter(|m| / BLOCK, |m| % BLOCK);
    assert 8 * |m| == 512 * (|m| / BLOCK) + 8 * (|m| % BLOCK);
  }

  /** The padding that Finish feeds in, and the counter before the length, when one block is enough. */
  lemma FinishOneBlock(f: Compression, s: Raw)
    requires |s.buf| <= 55
    ensures var b := |s.buf|;
      var msglen := BitLength(s);
      Finish(f, s) == CompressBlock(f, s.(t0 := Less(s.t0, 512 - 8 * b), nullt := s.nullt || b == 0),
                                    s.buf + Padding(b) + msglen)
  {
    hide Absorb, CompressBlock, BitLength;
    var b := |s.buf|;
    var msglen := BitLength(s);
    if b == 55 {
      var s1 := s.(t0 := Less(s.t0, 8));
      AbsorbShort(f, s1, [0x81]);
      RunDown(s.t0, 8, 64, 0);
      AbsorbFull(f, s1.(buf := s.buf + [0x81], t0 := Less(s1.t0, 64)), msglen);
      BufferIgnored(f, s.(t0 := Less(s.t0, 72)), s.buf + [0x81], s.buf + [0x81] + msglen);
    } else {
      var s1 := s.(nullt := s.nullt || b == 0, t0 := Less(s.t0, 440 - 8 * b));
      var zeros := PADDING[..55 - b];
      assert zeros == [0x80] + Zeros(54 - b);
      AbsorbShort(f, s1, zeros);
      var s2 := s1.(buf := s.buf + zeros);
      AbsorbShort(f, s2, [0x01]);
      var s3 := s2.(buf := s.buf + zeros + [0x01]);
      RunDown(s.t0, 440 - 8 * b, 8, 64);
      assert s.buf + zeros + [0x01] == s.buf + Padding(b);
      AbsorbFull(f, s3.(t0 := Less(Less(s1.t0, 8), 64)), msglen);
      BufferIgnored(f, s1.(t0 := Less(s.t0, 512 - 8 * b)), s3.buf, s3.buf + msglen);
    }
  }

  /** The same when two blocks are needed; the second one is not counted. */
  lemma FinishTwoBlocks(f: Compression, s: Raw)
    requires 55 < |s.buf| < BLOCK
    ensures var b := |s.buf|;
      var msglen := BitLength(s);
      var first := CompressBlock(f, s.(t0 := Less(s.t0, 512 - 8 * b)), s.buf + PADDING[..64 - b]);
      Finish(f, s) == CompressBlock(f, first.(t0 := Less(first.t0, 512), nullt := true),
                                    Zeros(55) + [0x01] + msglen)
  {
    hide Absorb, CompressBlock, BitLength;
    var b := |s.buf|;
    var msglen := BitLength(s);
    var s0 := s.(t0 := Less(s.t0, 512 - 8 * b));
    AbsorbFull(f, s0, PADDING[..64 - b]);
    var first := CompressBlock(f, s0, s.buf + PADDING[..64 - b]);
    EmptyAfter(f, s0, s.buf + PADDING[..64 - b]);
    var s1 := first.(t0 := Less(first.t0, 440));
    assert PADDING[1..56] == Zeros(55) && [] + Zeros(55) == Zeros(55);
    AbsorbShort(f, s1, Zeros(55));
    var s2 := s1.(buf := Zeros(55), nullt := true);
    AbsorbShort(f, s2, [0x01]);
    RunDown(first.t0, 440, 8, 64);
    AbsorbFull(f, s2.(buf := Zeros(55) + [0x01], t0 := Less(Less(s1.t0, 8), 64)), msglen);
    BufferIgnored(f, first.(t0 := Less(first.t0, 512), nullt := true), Zeros(55) + [0x01], Zeros(55) + [0x01] + msglen);
  }

  lemma BufferIgnored(f: Compression, r: Raw, buf: seq<uint8>, block: seq<uint8>)
    ensures CompressBlock(f, r.(buf := buf), block) == CompressBlock(f, r, block)
  {}

  lemma EmptyAfter(f: Compression, r: Raw, block: seq<uint8>)
    ensures CompressBlock(f, r, block).buf == []
  {}

  lemma ChainStep(f: Compression, p: seq<uint8>, n: nat, k: nat)
    requires BLOCK * (k + 1) <= |p|
    ensures Chain(f, p, n, k + 1) == HashBlock(f, Chain(f, p, n, k), p, n, k)
  {}

  /** Compressing the block in which the message ends: the counter comes back as the number of message bits. */
  lemma LastMessageBlock(f: Compression, m: seq<uint8>, p: seq<uint8>, s: Raw)
    requires m < p && BLOCK * (|m| / BLOCK + 1) <= |p| && s == After(f, m)
    ensures var k, b := |m| / BLOCK, |m| % BLOCK;
      var r := CompressBlock(f, s.(t0 := Less(s.t0, 512 - 8 * b), nullt := b == 0), p[BLOCK * k..BLOCK * (k + 1)]);
      r.h == Chain(f, p, |m|, k + 1)
  {
    hide Chain;
    var k, b := |m| / BLOCK, |m| % BLOCK;
    assert |m| == BLOCK * k + b;
    ChainPrefix(f, m, p, k);
    ChainStep(f, p, |m|, k);
    MessageLength(m, s.t0, s.t1);
    RunDown(s.t0, 512 - 8 * b, 512, 0);
    DivUnique(s.t0 + 8 * b, TWO32, 0, s.t0 + 8 * b);
  }

  /** A block of padding only. */
  lemma PaddingBlock(f: Compression, p: seq<uint8>, n: nat, r: Raw, k: nat)
    requires BLOCK * (k + 1) <= |p| && n <= BLOCK * k && r.nullt && r.h == Chain(f, p, n, k)
    ensures CompressBlock(f, r, p[BLOCK * k..BLOCK * (k + 1)]).h == Chain(f, p, n, k + 1)
  {}

  lemma AfterFields(f: Compression, m: seq<uint8>)
    ensures var s := After(f, m);
      && s.buf == m[BLOCK * (|m| / BLOCK)..] && |s.buf| == |m| % BLOCK && !s.nullt
      && BitLength(s) == LengthBytes(|m|)
  {
    var s := After(f, m);
    assert |m| == BLOCK * (|m| / BLOCK) + |m| % BLOCK;
    MessageLength(m, s.t0, s.t1);
    DivUnique(s.t0 + 8 * |s.buf|, TWO32, 0, s.t0 + 8 * |s.buf|);
  }

  /** The last block of a padded message. */
  lemma PaddedOnce(m: seq<uint8>)
    requires |m| % BLOCK <= 55
    ensures var k, b, p := |m| / BLOCK, |m| % BLOCK, PaddedMessage(m);
      && |m| == BLOCK * k + b && m < p && |p| == BLOCK * (k + 1)
      && p[BLOCK * k..] == m[BLOCK * k..] + Padding(b) + LengthBytes(|m|)
  {
    hide LengthBytes, Padding;
    PaddedLength(m);
    var k, b := |m| / BLOCK, |m| % BLOCK;
    assert |m| == BLOCK * k + b;
    SamePadding(|m|);
    var padding := Padding(|m|) + LengthBytes(|m|);
    assert PaddedMessage(m) == m + padding;
  }

  lemma SamePadding(n: nat)
    ensures Padding(n % BLOCK) == Padding(n)
  {}

  /** The last two blocks of a padded message. */
  lemma PaddedTwice(m: seq<uint8>)
    requires |m| % BLOCK > 55
    ensures var k, b, p := |m| / BLOCK, |m| % BLOCK, PaddedMessage(m);
      && |m| == BLOCK * k + b && m < p && |p| == BLOCK * (k + 2)
      && p[BLOCK * k..BLOCK * (k + 1)] == m[BLOCK * k..] + PADDING[..64 - b]
      && p[BLOCK * (k + 1)..] == Zeros(55) + [0x01] + LengthBytes(|m|)
  {
    hide LengthBytes, Padding;
    PaddedLength(m);
    var k, b := |m| / BLOCK, |m| % BLOCK;
    assert |m| == BLOCK * k + b;
    var padding := Padding(|m|) + LengthBytes(|m|);
    PaddingTwice(|m|, LengthBytes(|m|));
    assert PaddedMessage(m) == m + padding;
    TakeAcross(m, padding, BLOCK * k, 64 - b);
  }

  lemma PaddingTwice(n: nat, length: seq<uint8>)
    requires n % BLOCK > 55
    ensures var padding := Padding(n) + length;
      && |padding| == 120 - n % BLOCK + |length|
      && padding[..64 - n % BLOCK] == PADDING[..64 - n % BLOCK]
      && padding[64 - n % BLOCK..] == Zeros(55) + [0x01] + length
  {}

  lemma TakeAcross(m: seq<uint8>, p: seq<uint8>, i: nat, j: nat)
    requires i <= |m| && j <= |p|
    ensures (m + p)[i..|m| + j] == m[i..] + p[..j] && (m + p)[|m| + j..] == p[j..]
    ensures j == |p| ==> (m + p)[i..] == m[i..] + p && p[..j] == p[0..] == p
  {}

  /** Finishing hashes exactly the padded message, each block with its own counter. */
  lemma FinishIsDigest(f: Compression, m: seq<uint8>)
    ensures Output(Finish(f, After(f, m)).h) == Digest(f, m)
  {
    hide CompressBlock, BitLength, LengthBytes, Finish, Chain, Output, After, PaddedMessage, Padding, Zeros;
    var s, p := After(f, m), PaddedMessage(m);
    var k, b := |m| / BLOCK, |m| % BLOCK;
    AfterFields(f, m);
    PaddedLength(m);
    if b <= 55 {
      PaddedOnce(m);
      LastMessageBlock(f, m, p, s);
      FinishOneBlock(f, s);
      assert p[BLOCK * k..BLOCK * (k + 1)] == p[BLOCK * k..];
    } else {
      PaddedTwice(m);
      LastMessageBlock(f, m, p, s);
      FinishTwoBlocks(f, s);
      assert p[BLOCK * (k + 1)..BLOCK * (k + 2)] == p[BLOCK * (k + 1)..];
      var first := CompressBlock(f, s.(t0 := Less(s.t0, 512 - 8 * b)), s.buf + PADDING[..64 - b]);
      PaddingBlock(f, p, |m|, first.(t0 := Less(first.t0, 512), nullt := true), k + 1);
    }
  }

  // ------------------------------------------------------------------- the code

  class Context {
    const f: Compression
    var h: State
    var t0: uint32
    var t1: uint32
    var nullt: bool
    var buflen: nat
    const buf: array<uint8>

    ghost predicate Valid()
      reads this
    {
      buf.Length == BLOCK && buflen < BLOCK
    }

    ghost function Contents(): Raw
      requires Valid()
      reads this, buf
    {
      Raw(h, t0, t1, nullt, buf[..buflen])
    }

    constructor (f: Compression)
      ensures Valid() && this.f == f && Contents() == INITIAL && fresh(buf)
    {
      this.f, h, t0, t1, nullt, buflen := f, IV, 0, 0, false, 0;
      buf := new uint8[BLOCK];
    }

    /** Counts a block and compresses it. */
    method Compress(block: seq<uint8>)
      modifies this`h, this`t0, this`t1
      ensures var r := CompressBlock(f, Raw(old(h), old(t0), old(t1), nullt, []), block);
        h == r.h && t0 == r.t0 && t1 == r.t1
    {
      t0 := (t0 as int + 512) % TWO32;
      if t0 == 0 {
        t1 := (t1 as int + 1) % TWO32;
      }
      h := if nullt then f.uncounted(h, block) else f.counted(h, block, t0, t1);
    }

    /** memcpy into the buffer. */
    method Store(left: nat, data: seq<uint8>)
      requires left + |data| <= buf.Length
      modifies buf
      ensures buf[..left + |data|] == old(buf[..left]) + data
    {
      forall i | 0 <= i < |data| {
        buf[left + i] := data[i];
      }
    }

    method Update(data: seq<uint8>)
      requires Valid()
      modifies this`h, this`t0, this`t1, this`buflen, buf
      ensures Valid() && Contents() == Absorb(f, old(Contents()), data)
    {
      hide CompressBlock, Absorb;
      ghost var target := Absorb(f, Contents(), data);
      var left, pos := buflen, 0;
      var fill := BLOCK - left;
      assert data[0..] == data;
      if left > 0 && |data| >= fill {
        Store(left, data[..fill]);
        AbsorbBlock(f, Contents(), data, fill);
        BufferIgnored(f, Raw(h, t0, t1, nullt, []), buf[..buflen], buf[..]);
        EmptyAfter(f, Raw(h, t0, t1, nullt, []), buf[..]);
        NulltKept(f, Raw(h, t0, t1, nullt, []), buf[..]);
        assert buf[..] == buf[..BLOCK] == buf[..buflen] + data[..fill];
        Compress(buf[..]);
        pos, left := fill, 0;
      }
      while |data| - pos >= BLOCK
        invariant left < BLOCK && pos <= |data| && (left > 0 ==> |data| - pos < BLOCK - left)
        invariant left == 0 || buf[..left] == old(buf[..buflen])
        invariant Absorb(f, Raw(h, t0, t1, nullt, buf[..left]), data[pos..]) == target
      {
        ghost var r, rest := Raw(h, t0, t1, nullt, []), data[pos..];
        assert buf[..left] == [];
        AbsorbBlock(f, r, rest, BLOCK);
        var block := data[pos..pos + BLOCK];
        EmptyAfter(f, r, block);
        NulltKept(f, r, block);
        assert [] + rest[..BLOCK] == block;
        Compress(block);
        assert Raw(h, t0, t1, nullt, []) == CompressBlock(f, r, block);
        assert buf[..left] == [];
        assert rest[BLOCK..] == data[pos + BLOCK..];
        pos := pos + BLOCK;
      }
      Keep(left, data[pos..]);
    }

    /** Leaves the rest of the data in the buffer. */
    method Keep(left: nat, rest: seq<uint8>)
      requires buf.Length == BLOCK && left + |rest| < BLOCK
      modifies this`buflen, buf
      ensures Valid() && Contents() == Absorb(f, Raw(h, t0, t1, nullt, old(buf[..left])), rest)
    {
      AbsorbShort(f, Raw(h, t0, t1, nullt, buf[..left]), rest);
      if rest != [] {
        Store(left, rest);
      } else {
        assert buf[..left] + rest == buf[..left];
      }
      buflen := left + |rest|;
    }

    /** The digest of everything that was taken in. */
    method Final(ghost m: seq<uint8>) returns (out: seq<uint8>)
      requires Valid() && Contents() == Absorb(f, INITIAL, m)
      modifies this`h, this`t0, this`t1, this`nullt, this`buflen, buf
      ensures out == Digest(f, m)
    {
      hide CompressBlock, Absorb, Output, Digest;
      AbsorbMessage(f, m);
      FinishIsDigest(f, m);
      Finalize();
      out := Output(h);
    }

    method SetCounter(t: uint32)
      requires Valid()
      modifies this`t0
      ensures Valid() && Contents() == old(Contents()).(t0 := t)
    {
      t0 := t;
    }

    method SetNull()
      requires Valid()
      modifies this`nullt
      ensures Valid() && Contents() == old(Contents()).(nullt := true)
    {
      nullt := true;
    }

    method Finalize()
      requires Valid()
      modifies this`h, this`t0, this`t1, this`nullt, this`buflen, buf
      ensures Valid() && Contents() == Finish(f, old(Contents()))
    {
      hide CompressBlock, Absorb, Padded, Finish;
      var lo: uint32 := (t0 as int + 8 * buflen) % TWO32;
      var hi := t1;
      if lo < 8 * buflen {
        hi := (hi as int + 1) % TWO32;
      }
      var msglen := WordBytes(hi) + WordBytes(lo);
      assert msglen == BitLength(Contents());
      Pad();
      FinishIs(f, old(Contents()));
      SetCounter(Less(t0, 64));
      Update(msglen);
    }

    /** Everything but the length. */
    method Pad()
      requires Valid()
      modifies this`h, this`t0, this`t1, this`nullt, this`buflen, buf
      ensures Valid() && Contents() == Padded(f, old(Contents()))
    {
      hide CompressBlock, Absorb;
      if buflen == 55 {
        SetCounter(Less(t0, 8));
        Update([0x81]);
      } else if buflen < 55 {
        if buflen == 0 {
          SetNull();
        }
        SetCounter(Less(t0, 440 - 8 * buflen));
        Update(PADDING[..55 - buflen]);
        Update([0x01]);
        SetCounter(Less(t0, 8));
      } else {
        SetCounter(Less(t0, 512 - 8 * buflen));
        Update(PADDING[..64 - buflen]);
        SetCounter(Less(t0, 440));
        Update(PADDING[1..56]);
        SetNull();
        Update([0x01]);
        SetCounter(Less(t0, 8));
      }
    }
  }

  lemma NulltKept(f: Compression, r: Raw, block: seq<uint8>)
    ensures CompressBlock(f, r, block).nullt == r.nullt
  {}

  /** Taking in the part of the data that completes a block. */
  lemma AbsorbBlock(f: Compression, r: Raw, data: seq<uint8>, fill: nat)
    requires |r.buf| < BLOCK && fill == BLOCK - |r.buf| <= |data|
    ensures Absorb(f, r, data) == Absorb(f, CompressBlock(f, r, r.buf + data[..fill]), data[fill..])
  {
    EmptyAfter(f, r, r.buf + data[..fill]);
    assert (r.buf + data)[..BLOCK] == r.buf + data[..fill];
    assert (r.buf + data)[BLOCK..] == data[fill..];
  }

  /** Hashing a message cut into any pieces gives its digest. */
  method Hash(f: Compression, pieces: seq<seq<uint8>>) returns (out: seq<uint8>)
    ensures out == Digest(f, Joined(pieces))
  {
    hide Absorb, Digest;
    var s := new Context(f);
    AbsorbShort(f, INITIAL, []);
    assert pieces[..0] == [] && [] + [] == INITIAL.buf;
    for i := 0 to |pieces|
      invariant s.Valid() && fresh(s) && fresh(s.buf) && s.f == f
      invariant s.Contents() == Absorb(f, INITIAL, Joined(pieces[..i]))
    {
      assert pieces[..i + 1][..i] == pieces[..i];
      AbsorbConcat(f, INITIAL, Joined(pieces[..i]), pieces[i]);
      s.Update(pieces[i]);
    }
    assert pieces[..|pieces|] == pieces;
    out := s.Final(Joined(pieces));
  }

  function Joined(pieces: seq<seq<uint8>>): seq<uint8> {
    if pieces == [] then [] else Joined(pieces[..|pieces| - 1]) + pieces[|pieces| - 1]
  }

  // ----------------------------------------------------------- what a digest is

  const PRIMES: seq<nat> := [2, 3, 5, 7, 11, 13, 17, 19]

  /** The initial words are the first 32 bits of the fractional parts of the square roots of the first eight primes. */
  lemma InitialWords(i: nat)
    requires i < 8
    ensures |IV| == 8
    ensures exists whole: nat :: var root := whole * 0x1_0000_0000 + IV[i];
      root * root <= PRIMES[i] * 0x1_0000_0000_0000_0000 < (root + 1) * (root + 1)
  {
    var wholes: seq<nat> := [1, 1, 2, 2, 3, 3, 4, 4];
    var whole := wholes[i];
    var root := whole * 0x1_0000_0000 + IV[i];
    assert root * root <= PRIMES[i] * 0x1_0000_0000_0000_0000 < (root + 1) * (root + 1);
  }

  /** A message is followed by a one bit, zeros, a one bit and its number of bits, up to a whole number of blocks. */
  ghost predicate IsPadded(p: seq<uint8>, m: seq<uint8>) {
    && |p| % 64 == 0 && |m| + 9 <= |p| < |m| + 9 + 64 && p[..|m|] == m
    && (var end := |p| - 9;
        && (end == |m| ==> p[end] == 0x81)
        && (end > |m| ==> p[|m|] == 0x80 && p[end] == 0x01)
        && (forall i :: |m| < i < end ==> p[i] == 0)
        && BeValue(p[end + 1..]) == 8 * |m| % 0x1_0000_0000_0000_0000)
  }

  /** A block with the number of message bits up to its end, or without it when it holds no message. */
  ghost predicate Steps(f: Compression, p: seq<uint8>, n: nat, states: seq<State>) {
    forall i :: 0 <= i < |states| - 1 && 64 * i + 64 <= |p| ==>
      var block := p[64 * i..64 * i + 64];
      var bits := if n < 64 * i + 64 then 8 * n else 512 * (i + 1);
      states[i + 1]
      == if n <= 64 * i then f.uncounted(states[i], block)
         else f.counted(states[i], block, bits % 0x1_0000_0000, bits / 0x1_0000_0000 % 0x1_0000_0000)
  }

  /** Every word of the state, most significant byte first. */
  ghost predicate WordsOf(d: seq<uint8>, h: State) {
    |d| == 4 * |h| && forall i :: 0 <= i < |h| ==> BeValue(d[4 * i..4 * i + 4]) == h[i]
  }

  lemma {:induction false} OutputWords(h: State)
    ensures WordsOf(Output(h), h)
  {
    if h != [] {
      var n := |h| - 1;
      OutputWords(h[..n]);
      var front, last := Output(h[..n]), WordBytes(h[n]);
      forall i | 0 <= i < |h|
        ensures BeValue(Output(h)[4 * i..4 * i + 4]) == h[i]
      {
        if i < n {
          assert Output(h)[4 * i..4 * i + 4] == front[4 * i..4 * i + 4];
        } else {
          assert Output(h)[4 * n..4 * n + 4] == last;
          WordOfBytes(h[n]);
          WordValue(last);
        }
      }
    }
  }

  lemma PaddedIs(m: seq<uint8>)
    ensures IsPadded(PaddedMessage(m), m)
  {
    hide BeValue;
    var p, n := PaddedMessage(m), |m|;
    PaddedLength(m);
    var front := m + Padding(n);
    assert p == front + LengthBytes(n) && p[..n] == m;
    assert p[|p| - 8..] == LengthBytes(n);
    LengthValue(n);
    forall i | 0 <= i < |Padding(n)|
      ensures p[n + i] == Padding(n)[i]
    {
      assert front[n + i] == Padding(n)[i];
    }
    PaddingBytes(n);
    forall i | n < i < |p| - 9
      ensures p[i] == 0
    {
      assert p[n + (i - n)] == Padding(n)[i - n];
    }
    assert p[n + 0] == Padding(n)[0] && p[n + (|Padding(n)| - 1)] == Padding(n)[|Padding(n)| - 1];
  }

  lemma PaddingBytes(n: nat)
    ensures var q := Padding(n);
      && 1 <= |q| <= 64 && (|q| == 1 ==> q[0] == 0x81) && (|q| > 1 ==> q[0] == 0x80 && q[|q| - 1] == 0x01)
      && (forall i :: 0 < i < |q| - 1 ==> q[i] == 0)
  {}

  lemma LengthValue(n: nat)
    ensures BeValue(LengthBytes(n)) == 8 * n % 0x1_0000_0000_0000_0000
  {
    var bits := 8 * n;
    var hi, lo := bits / TWO32 % TWO32, bits % TWO32;
    WordOfBytes(hi);
    WordValue(WordBytes(hi));
    WordOfBytes(lo);
    BeAppendWord(WordBytes(hi), lo);
    var q := bits / TWO32;
    assert bits == (q / TWO32) * 0x1_0000_0000_0000_0000 + (hi * TWO32 + lo);
    DivUnique(bits, 0x1_0000_0000_0000_0000, q / TWO32, hi * TWO32 + lo);
  }

  ghost function States(f: Compression, p: seq<uint8>, n: nat, k: nat): (states: seq<State>)
    requires BLOCK * k <= |p|
    ensures |states| == k + 1 && forall i :: 0 <= i <= k ==> states[i] == Chain(f, p, n, i)
  {
    if k == 0 then [Chain(f, p, n, 0)] else States(f, p, n, k - 1) + [Chain(f, p, n, k)]
  }

  /** A digest is the last of the states of the padded message, of which the first is given. */
  lemma DigestMeaning(f: Compression, m: seq<uint8>)
    ensures exists p: seq<uint8>, states: seq<State> ::
      && IsPadded(p, m) && |states| == |p| / 64 + 1 && states[0] == IV && Steps(f, p, |m|, states)
      && WordsOf(Digest(f, m), states[|p| / 64])
  {
    hide Chain, Output, HashBlock, IsPadded, WordsOf;
    var p, n := PaddedMessage(m), |m|;
    PaddedIs(m);
    PaddedLength(m);
    var k := |p| / BLOCK;
    var states := States(f, p, n, k);
    forall i | 0 <= i < k
      ensures states[i + 1] == HashBlock(f, states[i], p, n, i)
    {
      ChainStep(f, p, n, i);
    }
    OutputWords(states[k]);
    StepsAre(f, p, n, states);
    ChainStart(f, p, n);
  }

  lemma ChainStart(f: Compression, p: seq<uint8>, n: nat)
    ensures Chain(f, p, n, 0) == IV
  {}

  lemma StepsAre(f: Compression, p: seq<uint8>, n: nat, states: seq<State>)
    requires 64 * (|states| - 1) <= |p|
    requires forall i :: 0 <= i < |states| - 1 ==> states[i + 1] == HashBlock(f, states[i], p, n, i)
    ensures Steps(f, p, n, states)
  {}
}
