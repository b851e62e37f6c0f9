/**
 * BLAKE2b as a stream: lazy block buffering and a 128-bit byte counter around an uninterpreted
 * compression (RFC 7693).
 */
module Blake2b {
  import opened ByteOrder
  import opened ModArith
  import opened Wrappers
  import Blake256

  const BLOCK: nat := 128
  const OUT_BYTES: nat := 64
  const TWO64: int := 0x1_0000_0000_0000_0000

  type State = seq<uint64>

  /** The compression function; the flags mark the last block, and the last block of the last node of a tree. */
  type Compression = (State, seq<uint8>, uint64, uint64, bool, bool) -> State

  // ----------------------------------------------------------------- counters

  function CounterLow(t0: uint64, inc: nat): uint64 {
    (t0 as int + inc) % TWO64
  }

  /** The carry is noticed by the low word coming out smaller than what was added. */
  function CounterHigh(t0: uint64, t1: uint64, inc: nat): uint64 {
    (t1 as int + if CounterLow(t0, inc) < inc then 1 else 0) % TWO64
  }

  /** The two words hold the number of bytes modulo 2^128. */
  ghost predicate Counts(t0: uint64, t1: uint64, n: nat) {
    t0 == n % TWO64 && t1 == n / TWO64 % TWO64
  }

  lemma CounterStep(t0: uint64, t1: uint64, n: nat, inc: nat)
    requires Counts(t0, t1, n) && inc <= BLOCK
    ensures Counts(CounterLow(t0, inc), CounterHigh(t0, t1, inc), n + inc)
  {
    var q, r := n / TWO64, n % TWO64;
    assert n == q * TWO64 + r;
    if r + inc < TWO64 {
      DivUnique(n + inc, TWO64, q, r + inc);
      DivUnique(r + inc, TWO64, 0, r + inc);
    } else {
      DivUnique(n + inc, TWO64, q + 1, r + inc - TWO64);
      DivUnique(r + inc, TWO64, 1, r + inc - TWO64);
      DivAddMultiple(q % TWO64 + 1, q / TWO64, TWO64);
      assert q + 1 == q % TWO64 + 1 + q / TWO64 * TWO64;
    }
    DivUnique(q % TWO64, TWO64, 0, q % TWO64);
  }

  // ------------------------------------------------------------- specification

  function Padded(block: seq<uint8>): seq<uint8>
    requires |block| <= BLOCK
  {
    block + seq(BLOCK - |block|, i => 0)
  }

  function Compressed(f: Compression, h: State, block: seq<uint8>, n: nat, last: bool, lastNode: bool): State {
    f(h, block, n % TWO64, n / TWO64 % TWO64, last, last && lastNode)
  }

  /** The state after the first k blocks, none of which is the last. */
  ghost function Chain(f: Compression, iv: State, m: seq<uint8>, k: nat): State
    requires BLOCK * k <= |m|
  {
    if k == 0 then iv
    else Compressed(f, Chain(f, iv, m, k - 1), m[BLOCK * (k - 1)..BLOCK * k], BLOCK * k, false, false)
  }

  /** The number of blocks before the last one, which is empty only for an empty message. */
  function Before(n: nat): (k: nat)
    ensures BLOCK * k <= n <= BLOCK * (k + 1) && (n > 0 ==> BLOCK * k < n)
  {
    if n == 0 then 0 else (n - 1) / BLOCK
  }

  /** The final state: the last block is padded with zeros, counted as the whole message, and flagged. */
  ghost function FinalState(f: Compression, iv: State, m: seq<uint8>, lastNode: bool): State {
    var k := Before(|m|);
    Compressed(f, Chain(f, iv, m, k), Padded(m[BLOCK * k..]), |m|, true, lastNode)
  }

  /** What the context holds after the message m. */
  ghost predicate Holds(f: Compression, iv: State, m: seq<uint8>, h: State, t0: uint64, t1: uint64, buf: seq<uint8>) {
    var k := Before(|m|);
    h == Chain(f, iv, m, k) && Counts(t0, t1, BLOCK * k) && buf == m[BLOCK * k..]
  }

  lemma {:induction false} ChainPrefix(f: Compression, iv: State, m: seq<uint8>, p: seq<uint8>, k: nat)
    requires m <= p && BLOCK * k <= |m|
    ensures Chain(f, iv, m, k) == Chain(f, iv, p, k)
  {
    if k > 0 {
      ChainPrefix(f, iv, m, p, k - 1);
      assert m == p[..|m|];
      assert m[BLOCK * (k - 1)..BLOCK * k] == p[BLOCK * (k - 1)..BLOCK * k];
    }
  }

  lemma BeforeIs(n: nat, k: nat)
    requires BLOCK * k <= n <= BLOCK * (k + 1) && (n > 0 ==> BLOCK * k < n)
    ensures Before(n) == k
  {}

  // ------------------------------------------------------------------- the code

  /** The words of the state, least significant byte first. */
  function Output(h: State): seq<uint8> {
    if h == [] then [] else Output(h[..|h| - 1]) + LittleEndian(h[|h| - 1], 8)
  }

  class Context {
    const f: Compression
    ghost const iv: State
    const outlen: nat
    var h: State
    var t0: uint64
    var t1: uint64
    var last: bool
    var lastOfTree: bool
    const lastNode: bool
    const buf: array<uint8>
    var buflen: nat

    /** m has been taken in and the context is not finished. */
    ghost predicate Valid(m: seq<uint8>)
      reads this, buf
    {
      && buf.Length == BLOCK && buflen <= BLOCK && outlen <= OUT_BYTES && !last && !lastOfTree
      && Holds(f, iv, m, h, t0, t1, buf[..buflen])
    }

    constructor (f: Compression, iv: State, outlen: nat, lastNode: bool)
      requires outlen <= OUT_BYTES
      ensures Valid([]) && this.f == f && this.iv == iv && this.outlen == outlen && this.lastNode == lastNode
      ensures fresh(buf)
    {
      this.f, this.iv, this.outlen, this.lastNode := f, iv, outlen, lastNode;
      h, t0, t1, last, lastOfTree, buflen := iv, 0, 0, false, false, 0;
      buf := new uint8[BLOCK];
    }

    method IncrementCounter(inc: nat, ghost n: nat)
      requires inc <= BLOCK && Counts(t0, t1, n)
      modifies this`t0, this`t1
      ensures Counts(t0, t1, n + inc)
    {
      CounterStep(t0, t1, n, inc);
      t0 := (t0 as int + inc) % TWO64;
      t1 := (t1 as int + if t0 < inc then 1 else 0) % TWO64;
    }

    method Store(at: nat, data: seq<uint8>)
      requires at + |data| <= buf.Length
      modifies buf
      ensures buf[..at + |data|] == old(buf[..at]) + data
    {
      forall i | 0 <= i < |data| {
        buf[at + i] := data[i];
      }
    }

    /** A block is compressed only when more data follows it, so that the last one stays in the buffer. */
    method Update(data: seq<uint8>, ghost m: seq<uint8>)
      requires Valid(m)
      modifies this`h, this`t0, this`t1, this`buflen, buf
      ensures Valid(m + data)
    {
      hide Counts, Chain, Before, Holds;
      if |data| == 0 {
        assert m + data == m;
        return;
      }
      ghost var all := m + data;
      ghost var k := HoldsParts(f, iv, m, h, t0, t1, buf[..buflen]);
      ChainPrefix(f, iv, m, all, k);
      var pos := 0;
      var fill := BLOCK - buflen;
      if |data| > fill {
        FillBuffer(data[..fill], m, k);
        Blake256.TakeAcross(m, data, BLOCK * k, fill);
        k := Compress(buf[..], all, k);
        pos, k := WholeBlocks(data, fill, m, k);
        TakeBehind(m, data, pos, |data| - pos);
        Keep(data[pos..], all, k);
      } else {
        Blake256.TakeAcross(m, data, BLOCK * k, |data|);
        Keep(data, all, k);
      }
    }

    /** Leaves the rest of the data in the buffer. */
    method Keep(rest: seq<uint8>, ghost all: seq<uint8>, ghost k: nat)
      requires buf.Length == BLOCK && buflen + |rest| <= BLOCK && outlen <= OUT_BYTES && !last && !lastOfTree
      requires BLOCK * k < |all| <= BLOCK * k + BLOCK && all[BLOCK * k..] == buf[..buflen] + rest
      requires h == Chain(f, iv, all, k) && Counts(t0, t1, BLOCK * k)
      modifies this`buflen, buf
      ensures Valid(all)
    {
      hide Counts, Chain, Holds;
      Store(buflen, rest);
      buflen := buflen + |rest|;
      HoldsWhole(f, iv, all, k, h, t0, t1, buf[..buflen]);
    }

    method FillBuffer(data: seq<uint8>, ghost m: seq<uint8>, ghost k: nat)
      requires buf.Length == BLOCK == buflen + |data| && BLOCK * k <= |m| && buf[..buflen] == m[BLOCK * k..]
      modifies this`buflen, buf
      ensures buflen == 0 && buf[..] == m[BLOCK * k..] + data
    {
      Store(buflen, data);
      buflen := 0;
      assert buf[..] == buf[..BLOCK];
    }

    /** Blocks straight from the data, as long as something follows them. */
    method WholeBlocks(data: seq<uint8>, start: nat, ghost m: seq<uint8>, ghost k0: nat)
      returns (pos: nat, ghost k: nat)
      requires start < |data| && |m| + start == BLOCK * k0 && !last && !lastOfTree
      requires h == Chain(f, iv, m + data, k0) && Counts(t0, t1, BLOCK * k0)
      modifies this`h, this`t0, this`t1
      ensures pos < |data| <= pos + BLOCK && |m| + pos == BLOCK * k
      ensures h == Chain(f, iv, m + data, k) && Counts(t0, t1, BLOCK * k)
    {
      hide Counts, Chain;
      pos, k := start, k0;
      while |data| - pos > BLOCK
        invariant pos < |data| && |m| + pos == BLOCK * k
        invariant h == Chain(f, iv, m + data, k) && Counts(t0, t1, BLOCK * k)
      {
        TakeBehind(m, data, pos, BLOCK);
        k := Compress(data[pos..pos + BLOCK], m + data, k);
        pos := pos + BLOCK;
      }
    }

    /** Counts and compresses block k of the message. */
    method Compress(block: seq<uint8>, ghost m: seq<uint8>, ghost k: nat) returns (ghost next: nat)
      requires BLOCK * (k + 1) <= |m| && block == m[BLOCK * k..BLOCK * (k + 1)] && !last && !lastOfTree
      requires h == Chain(f, iv, m, k) && Counts(t0, t1, BLOCK * k)
      modifies this`h, this`t0, this`t1
      ensures next == k + 1 && h == Chain(f, iv, m, next) && Counts(t0, t1, BLOCK * next)
    {
      IncrementCounter(BLOCK, BLOCK * k);
      NextBlock(f, iv, m, k, h, t0, t1);
      h := f(h, block, t0, t1, last, lastOfTree);
      next := k + 1;
    }

    /** The digest of m; it fails when called twice or with too short an output. */
    method Final(outputLength: nat, ghost m: seq<uint8>) returns (digest: Option<seq<uint8>>)
      requires last || Valid(m)
      modifies this`h, this`t0, this`t1, this`last, this`lastOfTree, buf
      ensures digest.None? <==> outputLength < outlen || old(last)
      ensures digest.Some? ==> last && digest.value == Prefix(Output(FinalState(f, iv, m, lastNode)), outlen)
    {
      if outputLength < outlen || last {
        return None;
      }
      hide Counts, Chain, Holds, FinalState, Output;
      ghost var k := HoldsParts(f, iv, m, h, t0, t1, buf[..buflen]);
      IncrementCounter(buflen, BLOCK * k);
      if lastNode {
        lastOfTree := true;
      }
      last := true;
      ghost var tail := buf[..buflen];
      forall i | buflen <= i < BLOCK {
        buf[i] := 0;
      }
      assert buf[..] == Padded(tail);
      FinalBlock(f, iv, m, lastNode, k, h, t0, t1, tail);
      h := f(h, buf[..], t0, t1, last, lastOfTree);
      digest := Some(Prefix(Output(h), outlen));
    }
  }

  lemma HoldsParts(f: Compression, iv: State, m: seq<uint8>, h: State, t0: uint64, t1: uint64, buf: seq<uint8>)
    returns (k: nat)
    requires Holds(f, iv, m, h, t0, t1, buf)
    ensures k == Before(|m|)
    ensures BLOCK * k <= |m| <= BLOCK * k + BLOCK && h == Chain(f, iv, m, k) && Counts(t0, t1, BLOCK * k)
    ensures buf == m[BLOCK * k..] && |buf| == |m| - BLOCK * k
  {
    hide Chain, Counts;
    k := Before(|m|);
  }

  lemma FinalBlock(f: Compression, iv: State, m: seq<uint8>, lastNode: bool, k: nat, h: State, t0: uint64, t1: uint64,
                   tail: seq<uint8>)
    requires k == Before(|m|) && h == Chain(f, iv, m, k) && Counts(t0, t1, |m|) && tail == m[BLOCK * k..]
    ensures FinalState(f, iv, m, lastNode) == f(h, Padded(tail), t0, t1, true, lastNode)
  {
    hide Chain;
  }

  lemma HoldsWhole(f: Compression, iv: State, m: seq<uint8>, k: nat, h: State, t0: uint64, t1: uint64, buf: seq<uint8>)
    requires BLOCK * k < |m| <= BLOCK * k + BLOCK && h == Chain(f, iv, m, k) && Counts(t0, t1, BLOCK * k)
    requires buf == m[BLOCK * k..]
    ensures Holds(f, iv, m, h, t0, t1, buf)
  {
    hide Chain, Counts;
    BeforeIs(|m|, k);
  }

  lemma TakeBehind(m: seq<uint8>, data: seq<uint8>, i: nat, j: nat)
    requires i + j <= |data|
    ensures (m + data)[|m| + i..|m| + i + j] == data[i..i + j]
    ensures i + j == |data| ==> (m + data)[|m| + i..] == data[i..] && [] + data[i..] == data[i..]
  {}

  function Prefix(s: seq<uint8>, n: nat): seq<uint8> {
    if n <= |s| then s[..n] else s
  }

  lemma NextBlock(f: Compression, iv: State, m: seq<uint8>, k: nat, h: State, t0: uint64, t1: uint64)
    requires BLOCK * (k + 1) <= |m| && h == Chain(f, iv, m, k) && Counts(t0, t1, BLOCK * (k + 1))
    ensures Chain(f, iv, m, k + 1) == f(h, m[BLOCK * k..BLOCK * (k + 1)], t0, t1, false, false)
  {}

  /** Hashing a message cut into any pieces gives the digest of the whole; start is the state for a digest length. */
  method Hash(f: Compression, start: nat -> State, pieces: seq<seq<uint8>>, outlen: nat)
    returns (digest: Option<seq<uint8>>)
    ensures digest
         == if 0 < outlen <= OUT_BYTES then
              Some(Prefix(Output(FinalState(f, start(outlen), Blake256.Joined(pieces), false)), outlen))
            else None
  {
    hide FinalState, Output, Holds;
    if outlen == 0 || outlen > OUT_BYTES {
      return None;
    }
    var s := new Context(f, start(outlen), outlen, false);
    for i := 0 to |pieces|
      invariant s.Valid(Blake256.Joined(pieces[..i])) && fresh(s) && fresh(s.buf)
      invariant s.f == f && s.iv == start(outlen) && s.outlen == outlen && !s.lastNode
    {
      assert pieces[..i + 1][..i] == pieces[..i];
      s.Update(pieces[i], Blake256.Joined(pieces[..i]));
    }
    assert pieces[..|pieces|] == pieces;
    digest := s.Final(outlen, Blake256.Joined(pieces));
  }

  // ----------------------------------------------------------- what a digest is

  /** Word i of d from its last byte to its first. */
  function Backwards(d: seq<uint8>, i: nat): seq<uint8>
    requires 8 * i + 8 <= |d|
  {
    seq(8, k requires 0 <= k < 8 => d[8 * i + 7 - k])
  }

  /** Every word of the state, least significant byte first. */
  ghost predicate WordsOf(d: seq<uint8>, h: State) {
    |d| == 8 * |h| && forall i :: 0 <= i < |h| ==> BeValue(Backwards(d, i)) == h[i]
  }

  lemma {:induction false} OutputWords(h: State)
    ensures WordsOf(Output(h), h)
  {
    hide BeValue;
    if h != [] {
      var n := |h| - 1;
      OutputWords(h[..n]);
      var front, last, d := Output(h[..n]), LittleEndian(h[n], 8), Output(h);
      forall i | 0 <= i < |h|
        ensures BeValue(Backwards(d, i)) == h[i]
      {
        var word := Backwards(d, i);
        if i < n {
          assert word == Backwards(front, i);
        } else {
          forall k | 0 <= k < 8
            ensures word[k] == BeBytes(h[n], 8)[k]
          {
            ByteOrders(h[n], 8, 7 - k);
            assert word[k] == last[7 - k];
          }
          assert word == BeBytes(h[n], 8);
          assert Pow(0x100, 8) == TWO64;
          BeBytesValue(h[n], 8);
        }
      }
    }
  }

  /** Whole blocks are counted up to their end; the last one, filled up with zeros, as the whole message. */
  ghost predicate Steps(f: Compression, m: seq<uint8>, lastNode: bool, states: seq<State>) {
    var k := |states| - 2;
    && k >= 0 && 128 * k <= |m| <= 128 * k + 128 && (|m| == 128 * k ==> m == [])
    && (forall i :: 0 <= i < k ==>
          var end := 128 * i + 128;
          states[i + 1] == f(states[i], m[128 * i..end], end % 0x1_0000_0000_0000_0000,
                             end / 0x1_0000_0000_0000_0000 % 0x1_0000_0000_0000_0000, false, false))
    && states[k + 1] == f(states[k], m[128 * k..] + seq(128 * k + 128 - |m|, i => 0), |m| % 0x1_0000_0000_0000_0000,
                          |m| / 0x1_0000_0000_0000_0000 % 0x1_0000_0000_0000_0000, true, lastNode)
  }

  ghost function States(f: Compression, iv: State, m: seq<uint8>, k: nat): (states: seq<State>)
    requires BLOCK * k <= |m|
    ensures |states| == k + 1 && forall i :: 0 <= i <= k ==> states[i] == Chain(f, iv, m, i)
  {
    if k == 0 then [Chain(f, iv, m, 0)] else States(f, iv, m, k - 1) + [Chain(f, iv, m, k)]
  }

  /** The bytes before they are cut to the digest length are those of the last of the states of the message. */
  lemma DigestMeaning(f: Compression, iv: State, m: seq<uint8>, lastNode: bool)
    ensures exists states: seq<State> ::
      && |states| > 0 && states[0] == iv && Steps(f, m, lastNode, states)
      && WordsOf(Output(FinalState(f, iv, m, lastNode)), states[|states| - 1])
  {
    hide Chain, Output, WordsOf;
    var k, final := Before(|m|), FinalState(f, iv, m, lastNode);
    var states := States(f, iv, m, k) + [final];
    forall i | 0 <= i < k
      ensures var end := 128 * i + 128;
        states[i + 1] == f(states[i], m[128 * i..end], end % 0x1_0000_0000_0000_0000,
                           end / 0x1_0000_0000_0000_0000 % 0x1_0000_0000_0000_0000, false, false)
    {
      ChainStep(f, iv, m, i);
    }
    ChainStart(f, iv, m);
    OutputWords(final);
    assert Steps(f, m, lastNode, states);
  }

  lemma ChainStart(f: Compression, iv: State, m: seq<uint8>)
    ensures Chain(f, iv, m, 0) == iv
  {}

  lemma ChainStep(f: Compression, iv: State, m: seq<uint8>, i: nat)
    requires BLOCK * (i + 1) <= |m|
    ensures Chain(f, iv, m, i + 1)
         == Compressed(f, Chain(f, iv, m, i), m[BLOCK * i..BLOCK * (i + 1)], BLOCK * (i + 1), false, false)
  {}
}
