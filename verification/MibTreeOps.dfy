/** The MIB tree as an object: registration, deletion and search (core/mib_tree.c). */
module MibTrees {
  import opened Oids
  import opened MibNodes
  import opened Registries
  import opened TreeShape
  import opened TreeDelete
  import opened TreePrune

  lemma {:induction false} AscendingCount(s: seq<SubId>, n: nat)
    requires n <= |s| && Ascending(s, n)
    ensures |set i | 0 <= i < n :: s[i]| == n
  {
    if n > 0 {
      AscendingCount(s, n - 1);
      assert (set i | 0 <= i < n :: s[i]) == (set i | 0 <= i < n - 1 :: s[i]) + {s[n - 1]};
    }
  }

  /** The child count of a group is the number of nodes directly below it. */
  lemma KidCount(nodes: Arena, at: map<Oid, Ptr>, c: Oid)
    requires TreeOk(nodes, at) && c in at && at[c] in nodes && nodes[at[c]].Group?
    ensures nodes[at[c]].cnt == |KidIds(AbsOf(nodes, at), c)|
  {
    var g := nodes[at[c]];
    assert PathOk(nodes, at, c);
    AscendingCount(g.subId, g.cnt);
    var ids := set i | 0 <= i < g.cnt :: g.subId[i];
    forall x | x in ids ensures x in KidIds(AbsOf(nodes, at), c) {
      var i :| 0 <= i < g.cnt && x == g.subId[i];
      assert IsKid(g, x, g.subPtr[i]);
      assert (c + [x])[|c|] == x;
    }
    forall x | x in KidIds(AbsOf(nodes, at), c) ensures x in ids {
      var q :| q in at && |q| == |c| + 1 && c <= q && x == q[|c|];
      Ancestor(nodes, at, q, c);
    }
    assert ids == KidIds(AbsOf(nodes, at), c);
  }

  /** A group has child `x` exactly when the path one step further is in the tree. */
  lemma KidPath(nodes: Arena, at: map<Oid, Ptr>, c: Oid, x: SubId)
    requires TreeOk(nodes, at) && c in at && at[c] in nodes && nodes[at[c]].Group?
    ensures GroupOk(nodes[at[c]])
    ensures c + [x] in at <==> exists q :: IsKid(nodes[at[c]], x, q)
    ensures forall q :: IsKid(nodes[at[c]], x, q) ==> c + [x] in at && at[c + [x]] == q
  {
    assert PathOk(nodes, at, c);
    if c + [x] in at {
      Ancestor(nodes, at, c + [x], c);
    }
  }

  /** `x` is no child of `g` and belongs at `index`. */
  ghost predicate CanTake(g: Node, index: nat, x: SubId)
    requires g.Group? && g.cnt <= |g.subId|
  {
    index <= g.cnt && forall i :: 0 <= i < g.cnt ==> g.subId[i] != x && (g.subId[i] < x <==> i < index)
  }

  /** `g` with the new child `q` under `x`: the first slot of a raw group, else the gap group_node_expand opens. */
  method WithChild(g: Node, index: nat, x: SubId, q: Ptr) returns (r: Node)
    requires g.Group? && GroupOk(g) && CanTake(g, index, x) && g.cnt < MAX_KIDS
    ensures r.Group? && GroupOk(r)
    ensures forall y, p :: IsKid(r, y, p) <==> (y == x && p == q) || IsKid(g, y, p)
  {
    if IsRawGroup(g) {
      r := g.(cnt := g.cnt + 1, subId := g.subId[0 := x], subPtr := g.subPtr[0 := q]);
    } else {
      r := Expand(g, index);
      r := r.(cnt := r.cnt + 1, subId := r.subId[index := x], subPtr := r.subPtr[index := q]);
    }
    InsertedOk(g, r, index, x, q);
  }

  /** The tree `r` with the groups along the first `k` steps of `oid` added. */
  ghost function Partial(r: Registry, oid: Oid, k: nat): Registry
    requires k <= |oid|
  {
    Registry(r.paths + Prefixes(oid[..k]), r.reg)
  }

  /** The walk along `oid` leaves the tree `r` after `k` steps. */
  lemma StartGrowing(r: Registry, oid: Oid, k: nat)
    requires Wf(r) && k < |oid| <= OID_MAX_LEN && oid[..k] in r.paths && oid[..k] + [oid[k]] !in r.paths
    requires forall j :: 0 <= j < k ==> oid[..j] !in r.reg
    requires oid[..k] !in r.reg
    ensures CanRegister(r, oid) && Partial(r, oid, k) == r
  {
    assert oid[..k + 1] == oid[..k] + [oid[k]];
    forall j | k < j <= |oid| ensures oid[..j] !in r.paths {
      if oid[..j] in r.paths { WfPrefix(r, oid[..k + 1], oid[..j]); }
    }
    assert oid == oid[..|oid|];
    forall p | p in Prefixes(oid[..k]) ensures p in r.paths {
      WfPrefix(r, p, oid[..k]);
    }
  }

  /** One more step, and the last one. */
  lemma GrowOne(r: Registry, oid: Oid, k: nat, callback: int)
    requires k < |oid| && CanRegister(r, oid)
    ensures Registry(Partial(r, oid, k).paths + {oid[..k] + [oid[k]]}, r.reg) == Partial(r, oid, k + 1)
    ensures k + 1 == |oid| ==>
      Registry(Partial(r, oid, k).paths + {oid[..k] + [oid[k]]}, r.reg[oid[..k] + [oid[k]] := callback])
        == Registered(r, oid, callback)
  {
    var one, two := oid[..k], oid[..k + 1];
    assert two == one + [oid[k]] && one == two[..k] && two == two[..k + 1];
    forall j | 0 <= j <= k ensures two[..j] == one[..j] {
    }
    assert two in Prefixes(two);
    assert Prefixes(one) + {two} == Prefixes(two);
    if k + 1 == |oid| { assert two == oid; }
  }

  lemma NotBelowLeaf(r: Registry, p: Oid, q: Oid)
    requires Wf(r) && p in r.reg && p <= q && p != q
    ensures q !in r.paths
  {
    if q in r.paths { WfPrefix(r, p, q); }
  }

  /** The walk along `oid` met an instance after `k` steps, short of the end. */
  lemma OnInstance(nodes: Arena, at: map<Oid, Ptr>, oid: Oid, k: nat)
    requires TreeOk(nodes, at) && k < |oid| && oid[..k] in at && at[oid[..k]] in nodes && nodes[at[oid[..k]]].Instance?
    ensures oid !in at && k > 0
    ensures DeleteRoot(AbsOf(nodes, at), oid) == if k + 1 == |oid| then Some(oid[..k]) else None
  {
    var r := AbsOf(nodes, at);
    AbsWf(nodes, at);
    assert oid[..k] in r.reg;
    NotBelowLeaf(r, oid[..k], oid);
    if k + 1 < |oid| { NotBelowLeaf(r, oid[..k], Up(oid)); }
  }

  /** The walk along `oid` left the tree after `k` steps. */
  lemma OffTree(nodes: Arena, at: map<Oid, Ptr>, oid: Oid, k: nat)
    requires TreeOk(nodes, at) && k < |oid| && oid[..k] in at && oid[..k] + [oid[k]] !in at
    requires at[oid[..k]] in nodes && nodes[at[oid[..k]]].Group?
    ensures DeleteRoot(AbsOf(nodes, at), oid) == None
  {
    var r := AbsOf(nodes, at);
    AbsWf(nodes, at);
    assert oid[..k + 1] == oid[..k] + [oid[k]];
    if oid in r.paths { WfPrefix(r, oid[..k + 1], oid); }
    if k + 1 < |oid| && Up(oid) in r.reg { WfPrefix(r, oid[..k + 1], Up(oid)); }
  }

  class MibTree {
    var nodes: Arena
    var nextPtr: Ptr
    ghost var at: map<Oid, Ptr>

    ghost predicate Valid()
      reads this
    {
      && TreeOk(nodes, at)
      && NULL < nextPtr && forall a :: a in nodes ==> a < nextPtr
    }

    ghost function Abs(): Registry
      reads this
    {
      AbsOf(nodes, at)
    }

    /** mib_dummy_node_init. */
    constructor ()
      ensures Valid() && Abs() == EMPTY
    {
      nodes := map[ROOT := NewGroup()];
      at := map[[] := ROOT];
      nextPtr := ROOT + 1;
      new;
      assert PathOk(nodes, at, []);
      assert at[[]] == ROOT;
    }

    /** Stores the group `r` and its fresh child `n` under sub-identifier `x`. */
    method Attach(ghost c: Oid, node: Ptr, x: SubId, r: Node, n: Node)
      requires Valid() && c in at && at[c] == node
      requires Links(nodes, at, c, x, r, nextPtr)
      requires n.Instance? || (n == NewGroup() && |c| + 1 < OID_MAX_LEN)
      modifies this
      ensures Valid() && c + [x] in at && at[c + [x]] == old(nextPtr) && old(nextPtr) in nodes && nodes[old(nextPtr)] == n
      ensures Abs() == Registry(old(at).Keys + {c + [x]},
                                if n.Instance? then old(Abs()).reg[c + [x] := n.callback] else old(Abs()).reg)
    {
      LinkChild(nodes, at, c, x, r, nextPtr, n);
      LinkAbs(nodes, at, c, x, r, nextPtr, n);
      nodes := nodes[node := r][nextPtr := n];
      at := at[c + [x] := nextPtr];
      nextPtr := nextPtr + 1;
    }

    /** The binary search every walk does at a group: child `x`, or where it would go. */
    method FindChild(ghost c: Oid, node: Ptr, x: SubId) returns (i: int, kid: Ptr)
      requires Valid() && c in at && at[c] == node && node in nodes && nodes[node].Group?
      ensures GroupOk(nodes[node])
      ensures i >= 0 ==> i < nodes[node].cnt && nodes[node].subId[i] == x && nodes[node].subPtr[i] == kid
      ensures i >= 0 ==> c + [x] in at && at[c + [x]] == kid && kid in nodes && kid != NULL
      ensures i < 0 ==> c + [x] !in at && CanTake(nodes[node], -i - 1, x)
    {
      KidPath(nodes, at, c, x);
      var g := nodes[node];
      i := BinarySearch(g.subId, g.cnt, x);
      kid := NULL;
      if i >= 0 {
        kid := g.subPtr[i];
        assert IsKid(g, x, kid);
        assert PathOk(nodes, at, c + [x]);
      }
    }

    /** One step of mib_tree_instance_insert at the group at path `c`: goes to child `x`,
        or makes the fresh node `n` that child. */
    method Visit(ghost c: Oid, node: Ptr, x: SubId, n: Node) returns (found: bool, kid: Ptr)
      requires Valid() && c in at && at[c] == node && node in nodes && nodes[node].Group?
      requires c + [x] !in at ==> nodes[node].cnt < MAX_KIDS
      requires n.Instance? || (n == NewGroup() && |c| + 1 < OID_MAX_LEN)
      modifies this
      ensures Valid() && c + [x] in at && at[c + [x]] == kid && kid in nodes
      ensures found <==> c + [x] in old(at)
      ensures found ==> nodes == old(nodes) && at == old(at)
      ensures !found ==> nodes[kid] == n
      ensures !found ==> Abs() == Registry(old(at).Keys + {c + [x]},
                                           if n.Instance? then old(Abs()).reg[c + [x] := n.callback] else old(Abs()).reg)
    {
      var i;
      i, kid := FindChild(c, node, x);
      found := i >= 0;
      if !found {
        kid := nextPtr;
        var r := WithChild(nodes[node], -i - 1, x, kid);
        Attach(c, node, x, r, n);
      }
    }

    /** The walk has left the tree `r` and stands on a group it just made. */
    ghost predicate GrowingAt(r: Registry, oid: Oid, k: nat, node: Ptr)
      reads this
    {
      k < |oid| && CanRegister(r, oid) && Abs() == Partial(r, oid, k) && node in nodes && nodes[node] == NewGroup()
    }

    /** The walk has taken `k` steps along `oid` from the tree (nodes0, at0). */
    ghost predicate InsertInv(nodes0: Arena, at0: map<Oid, Ptr>, oid: Oid, k: nat, node: Ptr, growing: bool)
      reads this
    {
      var r0 := AbsOf(nodes0, at0);
      && Valid() && Wf(r0) && HasRoom(r0, oid, MAX_KIDS) && 0 < |oid| <= OID_MAX_LEN
      && k <= |oid| && oid[..k] in at && at[oid[..k]] == node && node in nodes
      && (!growing ==> nodes == nodes0 && at == at0 && forall j :: 0 <= j < k ==> oid[..j] !in r0.reg)
      && (growing ==> GrowingAt(r0, oid, k, node))
    }

    /** One turn of the loop of mib_tree_instance_insert. */
    method InsertStep(oid: Oid, callback: int, k: nat, node: Ptr,
                      ghost nodes0: Arena, ghost at0: map<Oid, Ptr>, ghost growing: bool)
      returns (done: bool, ok: bool, node': Ptr, ghost growing': bool)
      requires InsertInv(nodes0, at0, oid, k, node, growing) && k < |oid|
      modifies this
      ensures done ==> Valid() && Abs() == Registered(AbsOf(nodes0, at0), oid, callback)
      ensures done ==> (ok <==> CanRegister(AbsOf(nodes0, at0), oid))
      ensures done && !ok ==> nodes == nodes0 && at == at0
      ensures !done ==> InsertInv(nodes0, at0, oid, k + 1, node', growing')
    {
      ghost var r0 := AbsOf(nodes0, at0);
      done, ok, node', growing' := false, false, node, growing;
      if nodes[node].Instance? {
        assert oid[..k] in r0.reg;
        done := true;
        return;
      }
      RoomHere(r0, oid, k, node, growing);
      var found;
      found, node' := Visit(oid[..k], node, oid[k], if k + 1 == |oid| then Instance(callback) else NewGroup());
      assert oid[..k + 1] == oid[..k] + [oid[k]];
      if !found {
        GrowOne(r0, oid, k, callback);
        done, ok, growing' := k + 1 == |oid|, k + 1 == |oid|, true;
      }
    }

    /** mib_tree_instance_insert. */
    method InstanceInsert(oid: Oid, callback: int) returns (ok: bool)
      requires Valid() && 0 < |oid| <= OID_MAX_LEN && HasRoom(Abs(), oid, MAX_KIDS)
      modifies this
      ensures Valid()
      ensures ok <==> CanRegister(old(Abs()), oid)
      ensures Abs() == Registered(old(Abs()), oid, callback)
      ensures ok ==> Abs().reg == old(Abs()).reg[oid := callback]
      ensures !ok ==> nodes == old(nodes) && at == old(at)
    {
      var node, k := ROOT, 0;
      ghost var nodes0, at0, growing := nodes, at, false;
      AbsWf(nodes, at);
      while k < |oid|
        invariant 0 <= k <= |oid| && InsertInv(nodes0, at0, oid, k, node, growing)
      {
        var done;
        done, ok, node, growing := InsertStep(oid, callback, k, node, nodes0, at0, growing);
        if done {
          return;
        }
        k := k + 1;
      }
      assert oid[..k] == oid;
      ok := false;
    }

    /** A missing child can be taken, and then the whole registration will succeed. */
    lemma RoomHere(r: Registry, oid: Oid, k: nat, node: Ptr, growing: bool)
      requires Valid() && k < |oid| <= OID_MAX_LEN && oid[..k] in at && at[oid[..k]] == node && node in nodes && nodes[node].Group?
      requires Wf(r) && HasRoom(r, oid, MAX_KIDS)
      requires !growing ==> Abs() == r && forall j :: 0 <= j < k ==> oid[..j] !in r.reg
      requires growing ==> GrowingAt(r, oid, k, node)
      ensures oid[..k] + [oid[k]] !in at ==>
        nodes[node].cnt < MAX_KIDS && CanRegister(r, oid) && Abs() == Partial(r, oid, k)
      ensures growing ==> oid[..k] + [oid[k]] !in at
    {
      assert oid[..k + 1] == oid[..k] + [oid[k]];
      if growing {
        KidPath(nodes, at, oid[..k], oid[k]);
      } else if oid[..k] + [oid[k]] !in at {
        KidCount(nodes, at, oid[..k]);
        StartGrowing(r, oid, k);
      }
    }

    /** mib_node_reg: 0 on success, -1 on failure. */
    method NodeReg(oid: Oid, callback: int) returns (ret: int)
      requires Valid() && HasRoom(Abs(), oid, MAX_KIDS)
      modifies this
      ensures Valid()
      ensures ret == (if CanRegister(old(Abs()), oid) then 0 else -1)
      ensures Abs() == Registered(old(Abs()), oid, callback)
      ensures ret == 0 ==> Abs().reg == old(Abs()).reg[oid := callback]
      ensures ret != 0 ==> nodes == old(nodes) && at == old(at)
    {
      if |oid| == 0 || |oid| > OID_MAX_LEN {
        return -1;
      }
      var ok := InstanceInsert(oid, callback);
      ret := if ok then 0 else -1;
    }

    /** What mib_tree_node_search reports: the node found (or NULL) and the pair parent, child, sub_idx. */
    method NodeSearch(oid: Oid) returns (node: Ptr, parent: Ptr, child: Ptr, subIdx: nat, ghost d: Oid)
      requires Valid()
      ensures oid == [] ==> node == ROOT && child == ROOT
      ensures oid != [] ==> (node != NULL <==> DeleteRoot(Abs(), oid).Some?)
      ensures oid != [] && node != NULL ==>
        DeleteRoot(Abs(), oid) == Some(d) && d in at && child == node == at[d] && PairOk(d, parent, subIdx)
    {
      AbsWf(nodes, at);
      parent, child, node, subIdx, d := ROOT, ROOT, ROOT, 0, [];
      var k := 0;
      while k < |oid|
        invariant 0 <= k <= |oid| && d == oid[..k] && d in at && node == at[d] && child == node && node in nodes && node != NULL
        invariant k > 0 ==> PairOk(d, parent, subIdx)
      {
        if nodes[node].Instance? {
          OnInstance(nodes, at, oid, k);
          return if |oid| - k == 1 then node else NULL, parent, node, subIdx, d;
        }
        var i, kid := FindChild(d, node, oid[k]);
        if i < 0 {
          OffTree(nodes, at, oid, k);
          return NULL, parent, node, subIdx, d;
        }
        assert oid[..k + 1] == d + [oid[k]] && Up(oid[..k + 1]) == d;
        parent, subIdx, node, child := node, i, kid, kid;
        k := k + 1;
        d := oid[..k];
      }
      assert d == oid;
    }

    /** `parent` is the group above path `d` and lists it at `subIdx`. */
    ghost predicate PairOk(d: Oid, parent: Ptr, subIdx: nat)
      reads this
    {
      && d != [] && Up(d) in at && parent == at[Up(d)] && parent in nodes && nodes[parent].Group? && GroupOk(nodes[parent])
      && subIdx < nodes[parent].cnt && nodes[parent].subId[subIdx] == d[|d| - 1]
    }

    /** Stores the arena left by the deletion loop, with the shrunk parent `r` of `d`. */
    method Unlink(kept: Arena, parent: Ptr, r: Node, ghost d: Oid)
      requires Valid() && Unlinks(nodes, at, d, r) && parent == at[Up(d)] && kept == nodes - Subtree(at, d)
      modifies this
      ensures Valid() && Abs() == Without(old(Abs()), d) && nodes.Keys == kept.Keys
    {
      PruneTree(nodes, at, d, r);
      PruneAbs(nodes, at, d, r);
      Outside(nodes, at, d, Up(d));
      nodes := kept[parent := r];
      at := Kept(at, d);
    }

    /** mib_node_unreg; returns the freed nodes in order. */
    method NodeUnreg(oid: Oid) returns (freed: seq<Ptr>)
      requires Valid()
      modifies this
      ensures Valid() && Abs() == Unregistered(old(Abs()), oid)
      ensures nodes.Keys == old(nodes).Keys - (set a | a in freed)
      ensures NoDuplicates(freed) && ChildrenFirst(old(at), freed)
    {
      freed := [];
      var node, parent, child, subIdx, d := NodeSearch(oid);
      if node != NULL && child != ROOT {
        var kept;
        kept, freed := FreeSubtree(nodes, at, d, child);
        var r := Shrink(nodes[parent], subIdx);
        Unlink(kept, parent, r, d);
      }
    }

    /** A whole run of registrations and unregistrations on a new tree. */
    method Replay(ops: seq<Op>)
      requires Valid() && Abs() == EMPTY
      requires forall k :: 0 <= k < |ops| && ops[k].Register? ==> HasRoom(Run(ops[..k]), ops[k].oid, MAX_KIDS)
      modifies this
      ensures Valid() && Abs() == Run(ops)
    {
      for k := 0 to |ops|
        invariant Valid() && Abs() == Run(ops[..k])
      {
        assert ops[..k + 1][..k] == ops[..k];
        match ops[k]
        case Register(oid, callback) =>
          var _ := NodeReg(oid, callback);
        case Unregister(oid) =>
          var _ := NodeUnreg(oid);
      }
      assert ops[..|ops|] == ops;
    }
  }
}
