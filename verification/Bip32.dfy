/** Hierarchical deterministic nodes: private and public child derivation (BIP 32). */
module Bip32 {
  import opened ModArith
  import opened Limbs
  import opened Bignum
  import opened ByteOrder
  import opened ScalarMultiply
  import opened Ecdsa
  import opened Wrappers

  const HARDENED: nat := 0x8000_0000

  /** A curve without parameters is one of the Edwards or Montgomery curves; its public key is an opaque function. */
  datatype CurveInfo = CurveInfo(params: Option<Curve>, publicKey: seq<uint8> -> seq<uint8>)

  /** What derivation depends on: HMAC-SHA512, the public-key hash, and the table of curves. */
  datatype Env = Env(
    hmac: (seq<uint8>, seq<uint8>) -> seq<uint8>,
    hash: (nat, seq<uint8>) -> seq<uint8>,
    curves: nat -> CurveInfo)

  ghost predicate ValidEnv(env: Env) {
    && (forall key, data :: |env.hmac(key, data)| == 64)
    && (forall id, data :: |env.hash(id, data)| == 32)
    && (forall id, key :: |env.curves(id).publicKey(key)| == 32)
    && (forall id :: env.curves(id).params.Some? ==> ValidCurve(env.curves(id).params.value))
  }

  /** The struct; curve is the index of its curve_info. */
  datatype Node = Node(
    depth: uint32, childNum: uint32, chainCode: seq<uint8>, privateKey: seq<uint8>,
    privateKeyExtension: seq<uint8>, publicKey: seq<uint8>, curve: nat)

  ghost predicate Sized(node: Node) {
    |node.chainCode| == 32 && |node.privateKey| == 32 && |node.publicKey| == 33
  }

  /** A node as the constructors leave it: its private key is a scalar of its curve. */
  ghost predicate Wellformed(env: Env, node: Node) {
    && Sized(node)
    && (env.curves(node.curve).params.Some? ==>
      0 < BeValue(node.privateKey) < env.curves(node.curve).params.value.order)
  }

  // ------------------------------------------------------------- specification

  /** The compressed encoding of the point e * G. */
  function Compressed(c: Curve, e: nat): (b: seq<uint8>)
    ensures |b| == 33
  {
    [2 + c.yOf(e) % 2] + BeBytes(c.xOf(e), 32)
  }

  /** The public key of a node, computed from its private key. */
  ghost function PublicOf(env: Env, node: Node): (b: seq<uint8>)
    requires ValidEnv(env)
    ensures |b| == 33
  {
    var info := env.curves(node.curve);
    match info.params
    case Some(c) => Compressed(c, BeValue(node.privateKey))
    case None => [1] + info.publicKey(node.privateKey)
  }

  ghost function Filled(env: Env, node: Node): (r: Node)
    requires ValidEnv(env) && Sized(node)
    ensures Sized(r) && r.publicKey[0] != 0
  {
    if node.publicKey[0] != 0 then node else node.(publicKey := PublicOf(env, node))
  }

  /** The next HMAC output after a rejected one. */
  function NextTry(env: Env, chain: seq<uint8>, out: seq<uint8>, i: nat): seq<uint8>
    requires |out| == 64
  {
    env.hmac(chain, [1] + out[32..] + BeBytes(i, 4))
  }

  /** The left half must be below the order, and must not cancel the parent key. */
  predicate Accepts(order: nat, parent: nat, out: seq<uint8>)
    requires |out| == 64 && order > 0
  {
    BeValue(out[..32]) < order && (BeValue(out[..32]) + parent) % order != 0
  }

  ghost function FirstTry(env: Env, chain: seq<uint8>, out: seq<uint8>, i: nat, order: nat, parent: nat, bound: nat)
    : (r: Option<seq<uint8>>)
    requires ValidEnv(env) && |out| == 64 && order > 0
    ensures r.Some? ==> |r.value| == 64 && Accepts(order, parent, r.value)
    decreases bound
  {
    if Accepts(order, parent, out) then Some(out)
    else if bound == 0 then None
    else FirstTry(env, chain, NextTry(env, chain, out, i), i, order, parent, bound - 1)
  }

  lemma {:induction false} FirstTryBound(env: Env, chain: seq<uint8>, out: seq<uint8>, i: nat, order: nat, parent: nat,
                                         m: nat, n: nat)
    requires ValidEnv(env) && |out| == 64 && order > 0 && m <= n
    requires FirstTry(env, chain, out, i, order, parent, m).Some?
    ensures FirstTry(env, chain, out, i, order, parent, n) == FirstTry(env, chain, out, i, order, parent, m)
    decreases m
  {
    if !Accepts(order, parent, out) {
      FirstTryBound(env, chain, NextTry(env, chain, out, i), i, order, parent, m - 1, n - 1);
    }
  }

  /** The first accepted HMAC output, or None when every retry is rejected. */
  ghost function Accepted(env: Env, chain: seq<uint8>, out: seq<uint8>, i: nat, order: nat, parent: nat)
    : (r: Option<seq<uint8>>)
    requires ValidEnv(env) && |out| == 64 && order > 0
    ensures r.Some? ==> |r.value| == 64 && Accepts(order, parent, r.value)
  {
    if exists n: nat :: FirstTry(env, chain, out, i, order, parent, n).Some? then
      var n: nat :| FirstTry(env, chain, out, i, order, parent, n).Some?;
      FirstTry(env, chain, out, i, order, parent, n)
    else None
  }

  /** Which number of retries was chosen does not matter. */
  lemma AcceptedIs(env: Env, chain: seq<uint8>, out: seq<uint8>, i: nat, order: nat, parent: nat, n: nat)
    requires ValidEnv(env) && |out| == 64 && order > 0
    requires FirstTry(env, chain, out, i, order, parent, n).Some?
    ensures Accepted(env, chain, out, i, order, parent) == FirstTry(env, chain, out, i, order, parent, n)
  {
    var m: nat :| FirstTry(env, chain, out, i, order, parent, m).Some?
      && Accepted(env, chain, out, i, order, parent) == FirstTry(env, chain, out, i, order, parent, m);
    if m <= n {
      FirstTryBound(env, chain, out, i, order, parent, m, n);
    } else {
      FirstTryBound(env, chain, out, i, order, parent, n, m);
    }
  }

  /** The HMAC output after k retries. */
  ghost function Retry(env: Env, chain: seq<uint8>, out: seq<uint8>, i: nat, k: nat): (r: seq<uint8>)
    requires ValidEnv(env) && |out| == 64
    ensures |r| == 64
    decreases k
  {
    if k == 0 then out else Retry(env, chain, NextTry(env, chain, out, i), i, k - 1)
  }

  /** Output k is accepted, and none before it is. */
  ghost predicate FirstAccepted(env: Env, chain: seq<uint8>, out: seq<uint8>, i: nat, order: nat, parent: nat, k: nat)
    requires ValidEnv(env) && |out| == 64 && order > 0
  {
    && Accepts(order, parent, Retry(env, chain, out, i, k))
    && forall j: nat :: j < k ==> !Accepts(order, parent, Retry(env, chain, out, i, j))
  }

  lemma {:induction false} FirstTryAt(env: Env, chain: seq<uint8>, out: seq<uint8>, i: nat, order: nat, parent: nat,
                                      k: nat)
    requires ValidEnv(env) && |out| == 64 && order > 0 && FirstAccepted(env, chain, out, i, order, parent, k)
    ensures FirstTry(env, chain, out, i, order, parent, k) == Some(Retry(env, chain, out, i, k))
    decreases k
  {
    hide Accepts;
    if k > 0 {
      var next := NextTry(env, chain, out, i);
      assert !Accepts(order, parent, Retry(env, chain, out, i, 0));
      forall j: nat | j < k - 1
        ensures !Accepts(order, parent, Retry(env, chain, next, i, j))
      {
        assert Retry(env, chain, next, i, j) == Retry(env, chain, out, i, j + 1);
      }
      FirstTryAt(env, chain, next, i, order, parent, k - 1);
    }
  }

  lemma {:induction false} FirstTryFound(env: Env, chain: seq<uint8>, out: seq<uint8>, i: nat, order: nat, parent: nat,
                                         n: nat) returns (k: nat)
    requires ValidEnv(env) && |out| == 64 && order > 0 && FirstTry(env, chain, out, i, order, parent, n).Some?
    ensures k <= n && FirstAccepted(env, chain, out, i, order, parent, k)
    decreases n
  {
    hide Accepts;
    k := 0;
    if !Accepts(order, parent, out) {
      var next := NextTry(env, chain, out, i);
      var k' := FirstTryFound(env, chain, next, i, order, parent, n - 1);
      k := k' + 1;
      forall j: nat | j < k
        ensures !Accepts(order, parent, Retry(env, chain, out, i, j))
      {
        if j > 0 {
          assert Retry(env, chain, out, i, j) == Retry(env, chain, next, i, j - 1);
        }
      }
    }
  }

  /** The result is the first accepted output, and there is none exactly when every output is rejected. */
  lemma AcceptedFirst(env: Env, chain: seq<uint8>, out: seq<uint8>, i: nat, order: nat, parent: nat, k: nat)
    requires ValidEnv(env) && |out| == 64 && order > 0
    ensures FirstAccepted(env, chain, out, i, order, parent, k) ==>
      Accepted(env, chain, out, i, order, parent) == Some(Retry(env, chain, out, i, k))
    ensures Accepted(env, chain, out, i, order, parent).None? ==>
      !Accepts(order, parent, Retry(env, chain, out, i, k))
    ensures Accepted(env, chain, out, i, order, parent).Some? ==>
      exists j :: FirstAccepted(env, chain, out, i, order, parent, j)
  {
    hide Accepts;
    if FirstAccepted(env, chain, out, i, order, parent, k) {
      FirstTryAt(env, chain, out, i, order, parent, k);
      AcceptedIs(env, chain, out, i, order, parent, k);
    }
    if Accepts(order, parent, Retry(env, chain, out, i, k)) {
      var j := FirstAmong(env, chain, out, i, order, parent, k);
      FirstTryAt(env, chain, out, i, order, parent, j);
      AcceptedIs(env, chain, out, i, order, parent, j);
    }
    if Accepted(env, chain, out, i, order, parent).Some? {
      var n := RetriesNeeded(env, chain, out, i, order, parent);
      var j := FirstTryFound(env, chain, out, i, order, parent, n);
    }
  }

  lemma FirstOutput(env: Env, chain: seq<uint8>, out: seq<uint8>, i: nat, order: nat, parent: nat) returns (k: nat)
    requires ValidEnv(env) && |out| == 64 && order > 0 && Accepted(env, chain, out, i, order, parent).Some?
    ensures FirstAccepted(env, chain, out, i, order, parent, k)
    ensures Accepted(env, chain, out, i, order, parent) == Some(Retry(env, chain, out, i, k))
  {
    AcceptedFirst(env, chain, out, i, order, parent, 0);
    k :| FirstAccepted(env, chain, out, i, order, parent, k);
    AcceptedFirst(env, chain, out, i, order, parent, k);
  }

  lemma FirstAmong(env: Env, chain: seq<uint8>, out: seq<uint8>, i: nat, order: nat, parent: nat, k: nat)
    returns (j: nat)
    requires ValidEnv(env) && |out| == 64 && order > 0 && Accepts(order, parent, Retry(env, chain, out, i, k))
    ensures FirstAccepted(env, chain, out, i, order, parent, j)
  {
    hide Accepts, Retry;
    j := 0;
    while !Accepts(order, parent, Retry(env, chain, out, i, j))
      invariant j <= k && forall m: nat :: m < j ==> !Accepts(order, parent, Retry(env, chain, out, i, m))
      decreases k - j
    {
      j := j + 1;
    }
  }

  lemma RetriesNeeded(env: Env, chain: seq<uint8>, out: seq<uint8>, i: nat, order: nat, parent: nat) returns (n: nat)
    requires ValidEnv(env) && |out| == 64 && order > 0
    requires Accepted(env, chain, out, i, order, parent).Some?
    ensures FirstTry(env, chain, out, i, order, parent, n) == Accepted(env, chain, out, i, order, parent)
  {
    n :| FirstTry(env, chain, out, i, order, parent, n).Some?
      && Accepted(env, chain, out, i, order, parent) == FirstTry(env, chain, out, i, order, parent, n);
  }

  /** What a derivation step can do; Diverges stands for a retry loop that never accepts. */
  datatype Derived = Refused | Diverges | Child(node: Node)

  function NextDepth(depth: uint32): uint32 {
    (depth as int + 1) % 0x1_0000_0000
  }

  /** The bytes hashed by private derivation. */
  ghost function PrivateData(env: Env, node: Node, i: uint32): (data: seq<uint8>)
    requires ValidEnv(env) && Sized(node)
  {
    (if i >= HARDENED then [0] + node.privateKey else Filled(env, node).publicKey) + BeBytes(i, 4)
  }

  /** The child key: (left half + parent key) modulo the order. */
  ghost function PrivateChild(node: Node, i: uint32, key: seq<uint8>, chain: seq<uint8>): Node {
    node.(depth := NextDepth(node.depth), childNum := i, privateKey := key, chainCode := chain, publicKey := Zeros(33))
  }

  ghost function CkdPriv(env: Env, node: Node, i: uint32): (r: Derived)
    requires ValidEnv(env) && Wellformed(env, node)
    ensures r.Child? ==> Sized(r.node) && r.node.curve == node.curve
  {
    match env.curves(node.curve).params
    case None =>
      if i < HARDENED then Refused
      else
        var out := env.hmac(node.chainCode, PrivateData(env, node, i));
        Child(PrivateChild(node, i, out[..32], out[32..]))
    case Some(c) =>
      var parent := BeValue(node.privateKey);
      match Accepted(env, node.chainCode, env.hmac(node.chainCode, PrivateData(env, node, i)), i, c.order, parent)
      case None => Diverges
      case Some(out) =>
        Child(PrivateChild(node, i, BeBytes((BeValue(out[..32]) + parent) % c.order, 32), out[32..]))
  }

  /** Public derivation from the multiple of the base point that the parent public key is. */
  ghost function CkdPub(env: Env, node: Node, i: uint32, readKey: seq<uint8> -> Option<nat>): Derived
    requires ValidEnv(env) && Sized(node) && env.curves(node.curve).params.Some?
  {
    var c := env.curves(node.curve).params.value;
    match readKey(node.publicKey)
    case None => Refused
    case Some(p) =>
      if i >= HARDENED then Refused
      else
        var first := env.hmac(node.chainCode, Compressed(c, p) + BeBytes(i, 4));
        match Accepted(env, node.chainCode, first, i, c.order, p)
        case None => Diverges
        case Some(out) =>
          Child(node.(depth := NextDepth(node.depth), childNum := i, privateKey := Zeros(32), chainCode := out[32..],
                      publicKey := Compressed(c, (BeValue(out[..32]) + p) % c.order)))
  }

  /** The public half of a node. */
  ghost function Neuter(env: Env, node: Node): Node
    requires ValidEnv(env) && Sized(node)
  {
    Filled(env, node).(privateKey := Zeros(32))
  }

  ghost function NeuterDerived(env: Env, d: Derived): Derived
    requires ValidEnv(env) && (d.Child? ==> Sized(d.node))
  {
    if d.Child? then Child(Neuter(env, d.node)) else d
  }

  /** The stored public key is absent or the right one. */
  ghost predicate Consistent(env: Env, node: Node)
    requires ValidEnv(env) && Sized(node)
  {
    node.publicKey[0] != 0 ==> node.publicKey == PublicOf(env, node)
  }

  /** Decompression undoes compression on this curve. */
  ghost predicate ReadsBack(c: Curve, readKey: seq<uint8> -> Option<nat>) {
    forall e :: 0 < e < c.order ==> readKey(Compressed(c, e)) == Some(e)
  }

  /** Only points of the curve other than infinity are read. */
  ghost predicate ReadsScalars(c: Curve, readKey: seq<uint8> -> Option<nat>) {
    forall key :: readKey(key).Some? ==> 0 < readKey(key).value < c.order
  }

  lemma ChildKey(out: seq<uint8>, parent: nat, order: nat)
    requires |out| == 64 && 0 < order < TWO256
    ensures BeValue(BeBytes((BeValue(out[..32]) + parent) % order, 32)) == (BeValue(out[..32]) + parent) % order
  {
    hide BeValue, BeBytes, Pow;
    BytesPow();
    BeBytesValue((BeValue(out[..32]) + parent) % order, 32);
  }

  /** Private derivation keeps nodes well formed and consistent. */
  lemma ChildWellformed(env: Env, node: Node, i: uint32)
    requires ValidEnv(env) && Wellformed(env, node) && CkdPriv(env, node, i).Child?
    ensures Wellformed(env, CkdPriv(env, node, i).node) && Consistent(env, CkdPriv(env, node, i).node)
  {
    hide BeValue, BeBytes, Accepted, Pow, ValidCurve;
    var info := env.curves(node.curve);
    if info.params.Some? {
      var c, parent := info.params.value, BeValue(node.privateKey);
      CurveFits(c);
      var out := Accepted(env, node.chainCode, env.hmac(node.chainCode, PrivateData(env, node, i)), i, c.order,
                          parent).value;
      ChildKey(out, parent, c.order);
      ModRange(BeValue(out[..32]) + parent, c.order);
    }
  }

  lemma CurveFits(c: Curve)
    requires ValidCurve(c)
    ensures 0 < c.order < TWO256
  {}

  // ------------------------------------------------- what derivation means, byte by byte

  /** The compressed encoding: 2 or 3 by the parity of y, then x. */
  ghost predicate IsCompressed(c: Curve, e: nat, key: seq<uint8>) {
    && |key| == 33 && (key[0] == 2 || key[0] == 3)
    && key[0] % 2 == c.yOf(e) % 2 && BeValue(key[1..]) == c.xOf(e)
  }

  /** What is hashed ends with the index. */
  ghost predicate EndsWith(data: seq<uint8>, i: nat) {
    |data| == 37 && BeValue(data[33..]) == i
  }

  /** Zero and the private key for a hardened index, and otherwise the public key. */
  ghost predicate HashesParent(env: Env, node: Node, i: nat, data: seq<uint8>) {
    && EndsWith(data, i)
    && if i >= 0x8000_0000 then data[0] == 0 && BeValue(data[1..33]) == BeValue(node.privateKey)
       else if |node.publicKey| > 0 && node.publicKey[0] != 0 then data[..33] == node.publicKey
       else
         var params := env.curves(node.curve).params;
         params.Some? && IsCompressed(params.value, BeValue(node.privateKey), data[..33])
  }

  /** Hashed after the output out was rejected: one, and its right half. */
  ghost predicate HashesRejected(out: seq<uint8>, i: nat, data: seq<uint8>) {
    EndsWith(data, i) && |out| == 64 && data[0] == 1 && data[1..33] == out[32..64]
  }

  /** The left half is a scalar that does not cancel the parent key. */
  ghost predicate Usable(order: nat, parent: nat, out: seq<uint8>) {
    |out| == 64 && order > 0 && BeValue(out[..32]) < order && (BeValue(out[..32]) + parent) % order != 0
  }

  /** A run of the retry loop: only the last output is usable. */
  ghost predicate RetryRun(env: Env, chain: seq<uint8>, i: nat, order: nat, parent: nat, datas: seq<seq<uint8>>,
                           out: seq<uint8>)
  {
    && |datas| > 0 && out == env.hmac(chain, datas[|datas| - 1]) && Usable(order, parent, out)
    && forall j :: 0 <= j < |datas| - 1 ==>
      && !Usable(order, parent, env.hmac(chain, datas[j]))
      && HashesRejected(env.hmac(chain, datas[j]), i, datas[j + 1])
  }

  /** One level deeper at this index, with everything else taken over. */
  ghost predicate OneDeeper(node: Node, i: nat, child: Node) {
    && child.depth == (node.depth + 1) % 0x1_0000_0000 && child.childNum == i
    && child.curve == node.curve && child.privateKeyExtension == node.privateKeyExtension
  }

  /** The private child of a node. */
  ghost predicate IsPrivateChild(env: Env, node: Node, i: nat, child: Node) {
    && OneDeeper(node, i, child)
    && |child.publicKey| == 33 && (forall k :: 0 <= k < 33 ==> child.publicKey[k] == 0)
    && match env.curves(node.curve).params
       case None =>
         exists data :: HashesParent(env, node, i, data) && i >= 0x8000_0000
           && child.privateKey + child.chainCode == env.hmac(node.chainCode, data) && |child.privateKey| == 32
       case Some(c) =>
         exists datas, out ::
           && RetryRun(env, node.chainCode, i, c.order, BeValue(node.privateKey), datas, out)
           && HashesParent(env, node, i, datas[0])
           && |child.privateKey| == 32 && child.chainCode == out[32..]
           && c.order > 0
           && BeValue(child.privateKey) == (BeValue(out[..32]) + BeValue(node.privateKey)) % c.order
  }

  /** The public child of a node whose public key is the multiple p of the base point. */
  ghost predicate IsPublicChild(env: Env, c: Curve, node: Node, p: nat, i: nat, child: Node) {
    && OneDeeper(node, i, child) && i < 0x8000_0000
    && |child.privateKey| == 32 && (forall k :: 0 <= k < 32 ==> child.privateKey[k] == 0)
    && exists datas, out ::
      && RetryRun(env, node.chainCode, i, c.order, p, datas, out)
      && EndsWith(datas[0], i) && IsCompressed(c, p, datas[0][..33])
      && child.chainCode == out[32..] && c.order > 0
      && IsCompressed(c, (BeValue(out[..32]) + p) % c.order, child.publicKey)
  }

  lemma CompressedMeaning(c: Curve, e: nat)
    requires ValidCurve(c) && 0 < e < c.order
    ensures IsCompressed(c, e, Compressed(c, e))
  {
    hide BeValue, BeBytes, Pow, Prime;
    CoordinateRange(c, e);
    BytesPow();
    BeBytesValue(c.xOf(e), 32);
    assert Compressed(c, e)[1..] == BeBytes(c.xOf(e), 32);
  }

  lemma IndexBytes(head: seq<uint8>, i: uint32)
    requires |head| == 33
    ensures EndsWith(head + BeBytes(i, 4), i) && (head + BeBytes(i, 4))[..33] == head
    ensures (head + BeBytes(i, 4))[1..33] == head[1..] && (head + BeBytes(i, 4))[0] == head[0]
  {
    hide BeValue, BeBytes, Pow;
    FourBytes();
    BeBytesValue(i, 4);
    assert (head + BeBytes(i, 4))[33..] == BeBytes(i, 4);
  }

  lemma FourBytes()
    ensures Pow(0x100, 4) == 0x1_0000_0000
  {}

  lemma PrivateDataHashes(env: Env, node: Node, i: uint32)
    requires ValidEnv(env) && Wellformed(env, node)
    requires i < HARDENED ==> env.curves(node.curve).params.Some?
    ensures HashesParent(env, node, i, PrivateData(env, node, i))
  {
    hide BeValue, BeBytes, ValidCurve, Compressed, IsCompressed;
    if i >= HARDENED {
      IndexBytes([0] + node.privateKey, i);
      assert ([0] + node.privateKey)[1..] == node.privateKey;
    } else {
      IndexBytes(Filled(env, node).publicKey, i);
      CompressedMeaning(env.curves(node.curve).params.value, BeValue(node.privateKey));
    }
  }

  lemma {:induction false} RetryNext(env: Env, chain: seq<uint8>, out: seq<uint8>, i: nat, k: nat)
    requires ValidEnv(env) && |out| == 64
    ensures Retry(env, chain, out, i, k + 1) == NextTry(env, chain, Retry(env, chain, out, i, k), i)
    decreases k
  {
    if k > 0 {
      RetryNext(env, chain, NextTry(env, chain, out, i), i, k - 1);
    }
  }

  /** The data hashed in the first k + 1 passes of the loop. */
  ghost function Hashed(env: Env, chain: seq<uint8>, first: seq<uint8>, i: nat, k: nat): (datas: seq<seq<uint8>>)
    requires ValidEnv(env)
    ensures |datas| == k + 1 && datas[0] == first
  {
    if k == 0 then [first]
    else
      var out := Retry(env, chain, env.hmac(chain, first), i, k - 1);
      Hashed(env, chain, first, i, k - 1) + [[1] + out[32..] + BeBytes(i, 4)]
  }

  lemma {:induction false} HashedOutputs(env: Env, chain: seq<uint8>, first: seq<uint8>, i: uint32, k: nat, j: nat)
    requires ValidEnv(env) && j <= k
    ensures var datas := Hashed(env, chain, first, i, k);
      && env.hmac(chain, datas[j]) == Retry(env, chain, env.hmac(chain, first), i, j)
      && (j > 0 ==> HashesRejected(env.hmac(chain, datas[j - 1]), i, datas[j]))
    decreases k
  {
    hide BeBytes, BeValue, Retry;
    var start := env.hmac(chain, first);
    if k == 0 {
      NoRetry(env, chain, start, i);
    } else if j < k {
      HashedOutputs(env, chain, first, i, k - 1, j);
    } else {
      HashedOutputs(env, chain, first, i, k - 1, k - 1);
      var out := Retry(env, chain, start, i, k - 1);
      RetryNext(env, chain, start, i, k - 1);
      IndexBytes([1] + out[32..], i);
      assert ([1] + out[32..])[1..] == out[32..64];
    }
  }

  lemma NoRetry(env: Env, chain: seq<uint8>, out: seq<uint8>, i: nat)
    requires ValidEnv(env) && |out| == 64
    ensures Retry(env, chain, out, i, 0) == out
  {}

  lemma UsableIs(order: nat, parent: nat, out: seq<uint8>)
    requires |out| == 64 && order > 0
    ensures Usable(order, parent, out) <==> Accepts(order, parent, out)
  {}

  /** The output that is accepted ends a run of the loop. */
  lemma AcceptedRun(env: Env, chain: seq<uint8>, first: seq<uint8>, i: uint32, order: nat, parent: nat)
    returns (datas: seq<seq<uint8>>)
    requires ValidEnv(env) && order > 0
    requires Accepted(env, chain, env.hmac(chain, first), i, order, parent).Some?
    ensures |datas| > 0 && datas[0] == first
    ensures var out := Accepted(env, chain, env.hmac(chain, first), i, order, parent).value;
      RetryRun(env, chain, i, order, parent, datas, out)
  {
    hide Accepted, Accepts, Retry, Usable, HashesRejected;
    var start := env.hmac(chain, first);
    var k := FirstOutput(env, chain, start, i, order, parent);
    datas := Hashed(env, chain, first, i, k);
    HashedOutputs(env, chain, first, i, k, k);
    UsableIs(order, parent, Retry(env, chain, start, i, k));
    forall j | 0 <= j < k
      ensures !Usable(order, parent, env.hmac(chain, datas[j]))
      ensures HashesRejected(env.hmac(chain, datas[j]), i, datas[j + 1])
    {
      HashedOutputs(env, chain, first, i, k, j);
      HashedOutputs(env, chain, first, i, k, j + 1);
      UsableIs(order, parent, Retry(env, chain, start, i, j));
    }
  }

  /** Private derivation, without the functions that it is made of. */
  lemma PrivateChildMeaning(env: Env, node: Node, i: uint32)
    requires ValidEnv(env) && Wellformed(env, node) && CkdPriv(env, node, i).Child?
    ensures IsPrivateChild(env, node, i, CkdPriv(env, node, i).node)
  {
    hide BeValue, BeBytes, Accepted, Accepts, ValidCurve, HashesParent, RetryRun, PrivateData, Pow;
    PrivateDataHashes(env, node, i);
    var data := PrivateData(env, node, i);
    match env.curves(node.curve).params {
      case None =>
        var out := env.hmac(node.chainCode, data);
        assert out[..32] + out[32..] == out;
      case Some(c) =>
        var parent := BeValue(node.privateKey);
        CurveFits(c);
        var datas := AcceptedRun(env, node.chainCode, data, i, c.order, parent);
        var out := Accepted(env, node.chainCode, env.hmac(node.chainCode, data), i, c.order, parent).value;
        ChildKey(out, parent, c.order);
    }
  }

  /** Public derivation likewise. */
  lemma PublicChildMeaning(env: Env, node: Node, i: uint32, readKey: seq<uint8> -> Option<nat>)
    requires ValidEnv(env) && Sized(node) && env.curves(node.curve).params.Some?
    requires ReadsScalars(env.curves(node.curve).params.value, readKey) && CkdPub(env, node, i, readKey).Child?
    ensures var c := env.curves(node.curve).params.value;
      IsPublicChild(env, c, node, readKey(node.publicKey).value, i, CkdPub(env, node, i, readKey).node)
  {
    hide BeValue, BeBytes, Accepted, Accepts, ValidCurve, RetryRun, Compressed, IsCompressed, EndsWith;
    var c, p := env.curves(node.curve).params.value, readKey(node.publicKey).value;
    CurveFits(c);
    var first := Compressed(c, p) + BeBytes(i, 4);
    var datas := AcceptedRun(env, node.chainCode, first, i, c.order, p);
    IndexBytes(Compressed(c, p), i);
    CompressedMeaning(c, p);
    var out := Accepted(env, node.chainCode, env.hmac(node.chainCode, first), i, c.order, p).value;
    AcceptedNonzero(c.order, p, out);
    CompressedMeaning(c, (BeValue(out[..32]) + p) % c.order);
  }

  lemma AcceptedNonzero(order: nat, parent: nat, out: seq<uint8>)
    requires |out| == 64 && order > 0 && Accepts(order, parent, out)
    ensures 0 < (BeValue(out[..32]) + parent) % order < order
  {
    ModRange(BeValue(out[..32]) + parent, order);
  }

  /** Hardened input determines the private key and the index, and is never input of the other kind. */
  lemma HardenedInput(env: Env, node: Node, other: Node, i: nat, j: nat, data: seq<uint8>)
    requires Sized(node) && Sized(other) && i >= 0x8000_0000
    requires HashesParent(env, node, i, data) && HashesParent(env, other, j, data)
    ensures i == j && node.privateKey == other.privateKey
  {
    hide BeValue;
    BeUnique(node.privateKey, other.privateKey);
  }

  /** Deriving and then neutering is neutering and then deriving: N(CKDpriv(node, i)) == CKDpub(N(node), i). */
  lemma NeuteringCommutes(env: Env, node: Node, i: uint32, readKey: seq<uint8> -> Option<nat>)
    requires ValidEnv(env) && Wellformed(env, node) && Consistent(env, node)
    requires env.curves(node.curve).params.Some? && ReadsBack(env.curves(node.curve).params.value, readKey)
    requires i < HARDENED
    ensures CkdPub(env, Neuter(env, node), i, readKey) == NeuterDerived(env, CkdPriv(env, node, i))
  {
    hide BeValue, BeBytes, Accepted, Accepts;
    var c, parent := env.curves(node.curve).params.value, BeValue(node.privateKey);
    assert Filled(env, node).publicKey == Compressed(c, parent);
    if CkdPriv(env, node, i).Child? {
      ChildWellformed(env, node, i);
      var out := Accepted(env, node.chainCode, env.hmac(node.chainCode, PrivateData(env, node, i)), i, c.order,
                          parent).value;
      ChildKey(out, parent, c.order);
    }
  }

  // ------------------------------------------------------------------- the code

  /** The order of a curve as limbs, which the source stores in its curve parameters. */
  method OrderLimbs(c: Curve) returns (order: array<uint32>)
    requires ValidCurve(c)
    ensures fresh(order) && Stored(c, order) && Modulus(order[..])
    ensures 16 < c.order < TWO256 && c.order % 2 == 1 && Prime(c.order)
  {
    order := new uint32[LIMBS];
    StoreInt(c.order, order);
    OrderIsModulus(c, order[..]);
  }

  /** Writes a number as 32 big-endian bytes. */
  method BigEndian(x: array<uint32>) returns (b: seq<uint8>)
    requires Num(x) && Val(x) < TWO256
    ensures Val(x) >= 0 && b == BeBytes(Val(x), 32)
  {
    hide Value, BeValue, BeBytes;
    ValueBound(x[..]);
    var out := new uint8[32];
    WriteBe(x, out, 0);
    b := out[..];
    assert out[0..0 + 32] == b;
    WrittenBytes(b, Val(x));
  }

  /** ecdsa_get_public_key33. */
  method PublicKey33(c: Curve, privateKey: seq<uint8>) returns (key: seq<uint8>)
    requires ValidCurve(c) && |privateKey| == 32 && 0 < BeValue(privateKey) < c.order
    ensures key == Compressed(c, BeValue(privateKey))
  {
    hide Value, Weight, Prime, Coprime, BeValue, BeBytes, ValidCurve;
    var order := OrderLimbs(c);
    var k := new uint32[LIMBS];
    ReadBe(privateKey, k);
    OneCoprime(c.order);
    var r := PointMultiply(order, k, 1);
    assert Val(k) * 1 == Val(k);
    DivUnique(Val(k), c.order, 0, Val(k));
    CoordinateRange(c, r);
    var x := new uint32[LIMBS];
    StoreInt(c.xOf(r), x);
    var bytes := BigEndian(x);
    key := [2 + c.yOf(r) % 2] + bytes;
  }

  /** b = (left half of out + a) modulo the order, unless that key is not usable. */
  method AddKey(c: Curve, order: array<uint32>, a: array<uint32>, out: seq<uint8>, b: array<uint32>)
    returns (failed: bool)
    requires ValidCurve(c) && Stored(c, order) && Num(a) && 0 <= Val(a) < c.order && |out| == 64
    requires b.Length == LIMBS && b != a && b != order
    modifies b
    ensures Num(b) && (failed <==> !Accepts(c.order, Val(a), out))
    ensures !failed ==> Val(b) == (BeValue(out[..32]) + Val(a)) % c.order
  {
    hide Value, Weight, Prime, Coprime, BeValue;
    ReadBe(out[..32], b);
    var less := IsLess(b, order);
    if !less {
      return true;
    }
    PrimesFit();
    Add(b, a);
    Mod(b, order);
    failed := IsZero(b);
  }

  lemma FirstTryStep(env: Env, chain: seq<uint8>, out: seq<uint8>, i: nat, order: nat, parent: nat, n: nat)
    requires ValidEnv(env) && |out| == 64 && order > 0 && FirstTry(env, chain, out, i, order, parent, n).Some?
    ensures Accepts(order, parent, out) ==> FirstTry(env, chain, out, i, order, parent, n) == Some(out)
    ensures !Accepts(order, parent, out) ==>
      && n > 0
      && FirstTry(env, chain, NextTry(env, chain, out, i), i, order, parent, n - 1)
      == FirstTry(env, chain, out, i, order, parent, n)
  {}

  /** The HDNode struct, derived in place. */
  class HdNode {
    var depth: uint32
    var childNum: uint32
    var chainCode: seq<uint8>
    var privateKey: seq<uint8>
    var privateKeyExtension: seq<uint8>
    var publicKey: seq<uint8>
    var curve: nat

    function Contents(): Node
      reads this
    {
      Node(depth, childNum, chainCode, privateKey, privateKeyExtension, publicKey, curve)
    }

    constructor (node: Node)
      ensures Contents() == node
    {
      depth, childNum, chainCode, privateKey := node.depth, node.childNum, node.chainCode, node.privateKey;
      privateKeyExtension, publicKey, curve := node.privateKeyExtension, node.publicKey, node.curve;
    }

    /** memcpy of a whole node into this one. */
    method Assign(node: Node)
      modifies this
      ensures Contents() == node
    {
      depth, childNum, chainCode, privateKey := node.depth, node.childNum, node.chainCode, node.privateKey;
      privateKeyExtension, publicKey, curve := node.privateKeyExtension, node.publicKey, node.curve;
    }

    method FillPublicKey(env: Env)
      requires ValidEnv(env) && Wellformed(env, Contents())
      modifies `publicKey
      ensures Contents() == Filled(env, old(Contents()))
      ensures if old(publicKey)[0] != 0 then publicKey == old(publicKey)
        else match env.curves(curve).params
        case Some(c) => IsCompressed(c, BeValue(privateKey), publicKey)
        case None => publicKey == [1] + env.curves(curve).publicKey(privateKey)
    {
      hide Compressed, IsCompressed, BeValue;
      if publicKey[0] != 0 {
        return;
      }
      var info := env.curves(curve);
      match info.params {
        case Some(c) =>
          CompressedMeaning(c, BeValue(privateKey));
          publicKey := PublicKey33(c, privateKey);
        case None => publicKey := [1] + info.publicKey(privateKey);
      }
    }

    /** The first four bytes of the hash of the public key. */
    method Fingerprint(env: Env) returns (fingerprint: uint32)
      requires ValidEnv(env) && Wellformed(env, Contents())
      modifies `publicKey
      ensures Contents() == Filled(env, old(Contents()))
      ensures fingerprint == FingerprintOf(env, old(Contents())) == BeValue(env.hash(curve, publicKey)[..4])
    {
      hide BeValue;
      FillPublicKey(env);
      var digest := env.hash(curve, publicKey);
      WordValue(digest[..4]);
      fingerprint := Word(digest[..4]);
    }

    /** hdnode_private_ckd. The requires excludes only inputs on which the retry loop would not end. */
    method PrivateCkd(env: Env, i: uint32) returns (ok: bool)
      requires ValidEnv(env) && Wellformed(env, Contents()) && !CkdPriv(env, Contents(), i).Diverges?
      modifies this
      ensures ok <==> CkdPriv(env, old(Contents()), i).Child?
      ensures Contents() == if ok then CkdPriv(env, old(Contents()), i).node else old(Contents())
      ensures ok <==> i >= 0x8000_0000 || env.curves(old(curve)).params.Some?
      ensures ok ==> IsPrivateChild(env, old(Contents()), i, Contents())
    {
      hide BeValue, BeBytes, Accepted, Accepts, ValidCurve, PublicOf, IsPrivateChild, IsCompressed;
      if i >= HARDENED || env.curves(curve).params.Some? {
        PrivateChildMeaning(env, Contents(), i);
      }
      var info := env.curves(curve);
      var data: seq<uint8>;
      if i >= HARDENED {
        data := [0] + privateKey;
      } else {
        if info.params.None? {
          return false;
        }
        FillPublicKey(env);
        data := publicKey;
      }
      var out := env.hmac(chainCode, data + BeBytes(i, 4));
      match info.params {
        case Some(c) =>
          out := ChildKeyOf(env, c, i, out);
        case None => privateKey := out[..32];
      }
      chainCode := out[32..];
      depth := NextDepth(depth);
      childNum := i;
      publicKey := Zeros(33);
      return true;
    }

    /** hdnode_public_ckd, with the point that ecdsa_read_pubkey finds. */
    method PublicCkd(env: Env, i: uint32, readKey: seq<uint8> -> Option<nat>) returns (ok: bool)
      requires ValidEnv(env) && Sized(Contents()) && env.curves(curve).params.Some?
      requires ReadsScalars(env.curves(curve).params.value, readKey)
      requires !CkdPub(env, Contents(), i, readKey).Diverges?
      modifies this
      ensures ok <==> CkdPub(env, old(Contents()), i, readKey).Child?
      ensures Contents() == if ok then CkdPub(env, old(Contents()), i, readKey).node else old(Contents())
      ensures ok <==> i < 0x8000_0000 && readKey(old(publicKey)).Some?
      ensures ok ==>
        var c, p := env.curves(old(curve)).params.value, readKey(old(publicKey)).value;
        IsPublicChild(env, c, old(Contents()), p, i, Contents())
    {
      hide BeValue, BeBytes, Accepted, Accepts, ValidCurve, Compressed, IsPublicChild;
      if CkdPub(env, Contents(), i, readKey).Child? {
        PublicChildMeaning(env, Contents(), i, readKey);
      }
      var c := env.curves(curve).params.value;
      var parent := readKey(publicKey);
      if parent.None? {
        return false;
      }
      var child, chain;
      ok, child, chain := PublicCkdPoint(env, c, parent.value, chainCode, i);
      if !ok {
        return;
      }
      chainCode := chain;
      privateKey := Zeros(32);
      depth := NextDepth(depth);
      childNum := i;
      publicKey := Compressed(c, child);
    }

    /** The retry loop: out is the HMAC output whose left half was accepted. */
    method ChildKeyOf(env: Env, c: Curve, i: uint32, first: seq<uint8>) returns (out: seq<uint8>)
      requires ValidEnv(env) && ValidCurve(c) && |first| == 64 && |privateKey| == 32
      requires BeValue(privateKey) < c.order
      requires Accepted(env, chainCode, first, i, c.order, BeValue(privateKey)).Some?
      modifies `privateKey
      ensures Some(out) == Accepted(env, chainCode, first, i, c.order, old(BeValue(privateKey)))
      ensures exists k ::
        && FirstAccepted(env, chainCode, first, i, c.order, old(BeValue(privateKey)), k)
        && out == Retry(env, chainCode, first, i, k)
      ensures privateKey == BeBytes((BeValue(out[..32]) + old(BeValue(privateKey))) % c.order, 32)
    {
      hide Value, Weight, Prime, Coprime, BeValue, BeBytes, Accepted, Accepts, FirstTry, ValidCurve;
      ghost var parent := BeValue(privateKey);
      var order := OrderLimbs(c);
      var a, b := new uint32[LIMBS], new uint32[LIMBS];
      ReadBe(privateKey, a);
      out := first;
      ghost var n := RetriesNeeded(env, chainCode, first, i, c.order, parent);
      while true
        invariant |out| == 64 && Num(a) && Val(a) == parent && Stored(c, order)
        invariant privateKey == old(privateKey)
        invariant FirstTry(env, chainCode, out, i, c.order, parent, n)
               == Accepted(env, chainCode, first, i, c.order, parent)
        decreases n
      {
        var failed := AddKey(c, order, a, out, b);
        FirstTryStep(env, chainCode, out, i, c.order, parent, n);
        if !failed {
          privateKey := BigEndian(b);
          break;
        }
        n := n - 1;
        out := NextTry(env, chainCode, out, i);
      }
      ghost var k := FirstOutput(env, chainCode, first, i, c.order, parent);
    }
  }

  /** b * G + parent, or infinity when b is not below the order. */
  method AddPoint(c: Curve, out: seq<uint8>, parent: nat) returns (child: nat)
    requires ValidCurve(c) && 0 < parent < c.order && |out| == 64
    ensures child == if Accepts(c.order, parent, out) then (BeValue(out[..32]) + parent) % c.order else 0
    ensures Accepts(c.order, parent, out) <==> child != 0
  {
    hide Value, Weight, Prime, Coprime, BeValue, ValidCurve;
    var order := OrderLimbs(c);
    var k := new uint32[LIMBS];
    ReadBe(out[..32], k);
    var less := IsLess(k, order);
    if !less {
      return 0;
    }
    OneCoprime(c.order);
    var b := PointMultiply(order, k, 1);
    assert Val(k) * 1 == Val(k);
    DivUnique(Val(k), c.order, 0, Val(k));
    child := PointAdd(parent, b, c.order);
  }

  /** hdnode_public_ckd_cp: the child point and chain code, from the multiple that the parent point is. */
  method PublicCkdPoint(env: Env, c: Curve, parent: nat, chain: seq<uint8>, i: uint32)
    returns (ok: bool, child: nat, childChain: seq<uint8>)
    requires ValidEnv(env) && ValidCurve(c) && 0 < parent < c.order
    requires i < HARDENED ==>
      Accepted(env, chain, env.hmac(chain, Compressed(c, parent) + BeBytes(i, 4)), i, c.order, parent).Some?
    ensures ok <==> i < 0x8000_0000
    ensures ok ==>
      var out := Accepted(env, chain, env.hmac(chain, Compressed(c, parent) + BeBytes(i, 4)), i, c.order, parent).value;
      child == (BeValue(out[..32]) + parent) % c.order && 0 < child < c.order && childChain == out[32..]
    ensures ok ==>
      var first := env.hmac(chain, Compressed(c, parent) + BeBytes(i, 4));
      exists k ::
        && FirstAccepted(env, chain, first, i, c.order, parent, k)
        && childChain == Retry(env, chain, first, i, k)[32..]
        && child == (BeValue(Retry(env, chain, first, i, k)[..32]) + parent) % c.order
  {
    hide BeValue, BeBytes, Accepted, Accepts, FirstTry, ValidCurve, Compressed;
    ok, child, childChain := false, 0, chain;
    if i >= HARDENED {
      return;
    }
    var out := env.hmac(chain, Compressed(c, parent) + BeBytes(i, 4));
    ghost var first := out;
    ghost var n := RetriesNeeded(env, chain, first, i, c.order, parent);
    while true
      invariant |out| == 64
      invariant FirstTry(env, chain, out, i, c.order, parent, n) == Accepted(env, chain, first, i, c.order, parent)
      decreases n
    {
      child := AddPoint(c, out, parent);
      FirstTryStep(env, chain, out, i, c.order, parent, n);
      if child != 0 {
        ghost var k := FirstOutput(env, chain, first, i, c.order, parent);
        return true, child, out[32..];
      }
      n := n - 1;
      out := NextTry(env, chain, out, i);
    }
  }

  /** A list of child numbers, derived one after the other. */
  ghost function Derive(env: Env, node: Node, path: seq<uint32>): (r: Derived)
    requires ValidEnv(env) && Wellformed(env, node)
    ensures r.Child? ==> Wellformed(env, r.node) && r.node.curve == node.curve
    decreases |path|
  {
    if path == [] then Child(node)
    else
      var d := CkdPriv(env, node, path[0]);
      if d.Child? then
        ChildWellformed(env, node, path[0]);
        Derive(env, d.node, path[1..])
      else d
  }

  ghost function DerivePublic(env: Env, node: Node, path: seq<uint32>, readKey: seq<uint8> -> Option<nat>): Derived
    requires ValidEnv(env) && Sized(node) && env.curves(node.curve).params.Some?
    decreases |path|
  {
    if path == [] then Child(node)
    else
      var d := CkdPub(env, node, path[0], readKey);
      if d.Child? then DerivePublic(env, d.node, path[1..], readKey) else d
  }

  /** Neutering commutes with derivation along every path without hardened steps. */
  lemma {:induction false} NeuteringCommutesAlong(env: Env, node: Node, path: seq<uint32>,
                                                  readKey: seq<uint8> -> Option<nat>)
    requires ValidEnv(env) && Wellformed(env, node) && Consistent(env, node)
    requires env.curves(node.curve).params.Some? && ReadsBack(env.curves(node.curve).params.value, readKey)
    requires forall i :: 0 <= i < |path| ==> path[i] < HARDENED
    ensures DerivePublic(env, Neuter(env, node), path, readKey) == NeuterDerived(env, Derive(env, node, path))
    decreases |path|
  {
    hide CkdPriv, CkdPub, BeValue, ValidCurve, ReadsBack, PublicOf;
    if path != [] {
      NeuteringCommutes(env, node, path[0], readKey);
      var d := CkdPriv(env, node, path[0]);
      if d.Child? {
        ChildWellformed(env, node, path[0]);
        NeuteringCommutesAlong(env, d.node, path[1..], readKey);
      }
    }
  }

  ghost function FingerprintOf(env: Env, node: Node): uint32
    requires ValidEnv(env) && Sized(node)
  {
    Word(env.hash(node.curve, Filled(env, node).publicKey)[..4])
  }
}
