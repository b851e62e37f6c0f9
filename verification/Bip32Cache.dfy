/** Private derivation along a path, with a ring buffer that remembers derived parents. */
module Bip32Cache {
  import opened ModArith
  import opened ByteOrder
  import opened Ecdsa
  import opened Wrappers
  import opened Bip32

  const CACHE_SIZE: nat := 10
  const MAX_DEPTH: nat := 8

  /** One slot of the ring; path is the fixed buffer, of which depth words are in use. */
  datatype Slot = Slot(isSet: bool, depth: nat, path: seq<uint32>, node: Node)

  const BLANK_NODE: Node := Node(0, 0, Zeros(32), Zeros(32), Zeros(32), Zeros(33), 0)
  const BLANK_SLOT: Slot := Slot(false, 0, seq(MAX_DEPTH, i => 0), BLANK_NODE)

  /** A path written at the start of a zeroed buffer. */
  function Buffer(path: seq<uint32>): (b: seq<uint32>)
    requires |path| <= MAX_DEPTH
    ensures |b| == MAX_DEPTH && b[..|path|] == path
  {
    path + seq(MAX_DEPTH - |path|, i => 0)
  }

  /** A slot holds what derivation from the root along its path gives. */
  ghost predicate Holds(env: Env, root: Node, slot: Slot)
    requires ValidEnv(env) && Wellformed(env, root)
  {
    slot.isSet ==>
      && 0 < slot.depth <= MAX_DEPTH <= |slot.path|
      && Derive(env, root, slot.path[..slot.depth]) == Child(slot.node)
  }

  /** A slot that a search for this path below the root stops at. */
  predicate Matches(slot: Slot, path: seq<uint32>, curve: nat) {
    slot.isSet && slot.depth == |path| <= |slot.path| && slot.path[..|path|] == path && slot.node.curve == curve
  }

  /** Computing the public key first does not change what is derived. */
  lemma FilledFirst(env: Env, node: Node, i: uint32)
    requires ValidEnv(env) && Wellformed(env, node)
    ensures CkdPriv(env, Filled(env, node), i) == CkdPriv(env, node, i)
  {
    hide Accepted, Accepts, ValidCurve;
    assert PrivateData(env, Filled(env, node), i) == PrivateData(env, node, i);
  }

  /** Deriving along a path and then once more. */
  lemma {:induction false} DeriveSnoc(env: Env, node: Node, path: seq<uint32>, i: uint32)
    requires ValidEnv(env) && Wellformed(env, node)
    ensures Derive(env, node, path + [i])
         == var d := Derive(env, node, path); if d.Child? then CkdPriv(env, d.node, i) else d
    decreases |path|
  {
    hide CkdPriv, Wellformed;
    if path == [] {
      assert [i][1..] == [];
      assert path + [i] == [i];
    } else {
      assert (path + [i])[1..] == path[1..] + [i];
      var d := CkdPriv(env, node, path[0]);
      if d.Child? {
        ChildWellformed(env, node, path[0]);
        DeriveSnoc(env, d.node, path[1..], i);
      }
    }
  }

  /** Derivation that fails part of the way fails in the same way on the whole path. */
  lemma {:induction false} PrefixFails(env: Env, node: Node, path: seq<uint32>, k: nat)
    requires ValidEnv(env) && Wellformed(env, node) && k <= |path|
    requires !Derive(env, node, path[..k]).Child?
    ensures Derive(env, node, path) == Derive(env, node, path[..k])
    decreases |path|
  {
    hide CkdPriv, Wellformed;
    assert path[..k] != [];
    assert path[..k][1..] == path[1..][..k - 1];
    var d := CkdPriv(env, node, path[0]);
    if d.Child? {
      ChildWellformed(env, node, path[0]);
      PrefixFails(env, d.node, path[1..], k - 1);
    }
  }

  class CkdCache {
    const env: Env
    var rootSet: bool
    var root: Node
    var index: nat
    var slots: array<Slot>

    ghost predicate Valid()
      reads this, slots
    {
      && ValidEnv(env) && slots.Length == CACHE_SIZE && index < CACHE_SIZE
      && (rootSet ==> Wellformed(env, root))
      && (rootSet ==> forall j :: 0 <= j < CACHE_SIZE ==> Holds(env, root, slots[j]))
      && (!rootSet ==> forall j :: 0 <= j < CACHE_SIZE ==> !slots[j].isSet)
    }

    constructor (env: Env)
      requires ValidEnv(env)
      ensures Valid() && this.env == env && fresh(slots) && !rootSet
    {
      this.env, rootSet, root, index := env, false, BLANK_NODE, 0;
      slots := new Slot[CACHE_SIZE](i => BLANK_SLOT);
    }

    /** Forgets every slot and starts over from this root. */
    method Reset(node: Node)
      requires Valid() && Wellformed(env, node)
      modifies this`rootSet, this`root, this`index, slots
      ensures Valid() && rootSet && root == node
      ensures index == 0 && forall j :: 0 <= j < CACHE_SIZE ==> slots[j] == BLANK_SLOT
    {
      index := 0;
      forall j | 0 <= j < slots.Length {
        slots[j] := BLANK_SLOT;
      }
      root := node;
      rootSet := true;
    }

    /** The first slot that holds the node for this path below the root. */
    method Find(path: seq<uint32>, curve: nat) returns (found: Option<Node>)
      requires Valid() && rootSet && 0 < |path| <= MAX_DEPTH
      ensures found.Some? ==> Derive(env, root, path) == Child(found.value)
      ensures found.Some? ==> exists j ::
        && 0 <= j < CACHE_SIZE && Matches(slots[j], path, curve) && found.value == slots[j].node
        && forall k :: 0 <= k < j ==> !Matches(slots[k], path, curve)
      ensures found.None? ==> forall j :: 0 <= j < CACHE_SIZE ==> !Matches(slots[j], path, curve)
    {
      hide Wellformed, ValidEnv, Derive;
      for j := 0 to CACHE_SIZE
        invariant forall k :: 0 <= k < j ==> !Matches(slots[k], path, curve)
      {
        var slot := slots[j];
        assert Holds(env, root, slot);
        if slot.isSet && slot.depth == |path| && slot.path[..|path|] == path && slot.node.curve == curve {
          return Some(slot.node);
        }
      }
      found := None;
    }

    /** Overwrites the oldest slot. */
    method Save(path: seq<uint32>, node: Node)
      requires Valid() && rootSet && 0 < |path| <= MAX_DEPTH && Derive(env, root, path) == Child(node)
      modifies this`index, slots
      ensures Valid() && index == (old(index) + 1) % CACHE_SIZE
      ensures slots[..] == old(slots[..])[old(index) := Slot(true, |path|, Buffer(path), node)]
    {
      hide Wellformed, ValidEnv, Derive;
      slots[index] := Slot(true, |path|, Buffer(path), node);
      assert Holds(env, root, slots[index]);
      index := (index + 1) % CACHE_SIZE;
    }

    /** Uncached derivation. */
    method DeriveAlong(inout: HdNode, path: seq<uint32>) returns (ok: bool)
      requires ValidEnv(env) && Wellformed(env, inout.Contents()) && !Derive(env, inout.Contents(), path).Diverges?
      modifies inout
      ensures ok <==> Derive(env, old(inout.Contents()), path).Child?
      ensures ok ==> inout.Contents() == Derive(env, old(inout.Contents()), path).node
    {
      hide Wellformed, ValidEnv, CkdPriv;
      ghost var start := inout.Contents();
      assert path[..0] == [];
      for k := 0 to |path|
        invariant Derive(env, start, path[..k]) == Child(inout.Contents())
      {
        ghost var before := inout.Contents();
        assert path[..k + 1] == path[..k] + [path[k]];
        DeriveSnoc(env, start, path[..k], path[k]);
        if !CkdPriv(env, before, path[k]).Child? {
          PrefixFails(env, start, path, k + 1);
        }
        ok := inout.PrivateCkd(env, path[k]);
        if !ok {
          return;
        }
      }
      assert path[..|path|] == path;
      ok := true;
    }

    /** Replaces the node by its descendant, from the ring if it is there. */
    method Parent(inout: HdNode, path: seq<uint32>) returns (ok: bool)
      requires Valid() && Wellformed(env, inout.Contents()) && 0 < |path| <= MAX_DEPTH
      requires !Derive(env, inout.Contents(), path).Diverges?
      modifies this`rootSet, this`root, this`index, slots, inout
      ensures Valid()
      ensures ok <==> Derive(env, old(inout.Contents()), path).Child?
      ensures ok ==> inout.Contents() == Derive(env, old(inout.Contents()), path).node
      ensures ok ==> exists j :: 0 <= j < CACHE_SIZE && Matches(slots[j], path, old(inout.curve))
    {
      hide Wellformed, ValidEnv, Derive;
      var found := None;
      if !rootSet || root != inout.Contents() {
        Reset(inout.Contents());
      } else {
        found := Find(path, inout.curve);
      }
      match found {
        case Some(node) =>
          inout.Assign(node);
          ok := true;
        case None =>
          ok := DeriveAlong(inout, path);
          if ok {
            ghost var at := index;
            Save(path, inout.Contents());
            assert Matches(slots[at], path, old(inout.curve));
          }
      }
    }

    /** The last step, after the fingerprint of the node that is now the parent. */
    method LastStep(inout: HdNode, i: uint32, wanted: bool) returns (ok: bool, fingerprint: uint32)
      requires ValidEnv(env) && Wellformed(env, inout.Contents()) && !CkdPriv(env, inout.Contents(), i).Diverges?
      modifies inout
      ensures ok <==> CkdPriv(env, old(inout.Contents()), i).Child?
      ensures ok ==> inout.Contents() == CkdPriv(env, old(inout.Contents()), i).node
      ensures wanted ==> fingerprint == FingerprintOf(env, old(inout.Contents()))
    {
      hide ValidEnv, CkdPriv, FingerprintOf;
      FilledFirst(env, inout.Contents(), i);
      fingerprint := 0;
      if wanted {
        fingerprint := inout.Fingerprint(env);
      }
      ok := inout.PrivateCkd(env, i);
    }

    /** hdnode_private_ckd_cached: the node that uncached derivation gives, and the fingerprint of its parent. */
    method PrivateCkdCached(inout: HdNode, path: seq<uint32>, wanted: bool) returns (ok: bool, fingerprint: uint32)
      requires Valid() && Wellformed(env, inout.Contents()) && |path| <= MAX_DEPTH + 1
      requires !Derive(env, inout.Contents(), path).Diverges?
      modifies this`rootSet, this`root, this`index, slots, inout
      ensures Valid()
      ensures ok <==> Derive(env, old(inout.Contents()), path).Child?
      ensures ok ==> inout.Contents() == Derive(env, old(inout.Contents()), path).node
      ensures ok && wanted && path != [] ==>
        var parent := Derive(env, old(inout.Contents()), path[..|path| - 1]);
        parent.Child? && fingerprint == FingerprintOf(env, parent.node)
    {
      hide Wellformed, ValidEnv, CkdPriv, Derive, FingerprintOf;
      ghost var start := inout.Contents();
      var n := |path|;
      if n == 0 {
        DeriveNothing(env, start);
        return true, 0;
      }
      assert path == path[..n - 1] + [path[n - 1]];
      DeriveSnoc(env, start, path[..n - 1], path[n - 1]);
      if n == 1 {
        assert path[..0] == [];
        DeriveNothing(env, start);
        ok, fingerprint := LastStep(inout, path[0], wanted);
        return;
      }
      ok := Parent(inout, path[..n - 1]);
      fingerprint := 0;
      if ok {
        ok, fingerprint := LastStep(inout, path[n - 1], wanted);
      }
    }
  }

  lemma DeriveNothing(env: Env, node: Node)
    requires ValidEnv(env) && Wellformed(env, node)
    ensures Derive(env, node, []) == Child(node)
  {}
}
