/** What the MIB tree denotes: the node paths and the registered callbacks (core/mib_tree.c:626-862). */
module Registries {
  import opened Oids

  /** `paths` holds every node of the tree, `reg` the instance nodes with their callbacks. */
  datatype Registry = Registry(paths: set<Oid>, reg: map<Oid, int>)

  datatype Op = Register(oid: Oid, callback: int) | Unregister(oid: Oid)

  const EMPTY := Registry({[]}, map[])

  ghost predicate Wf(r: Registry) {
    && [] in r.paths && [] !in r.reg
    && r.reg.Keys <= r.paths
    && (forall p :: p in r.paths ==> |p| <= OID_MAX_LEN)
    && (forall p, k :: p in r.paths && 0 <= k < |p| ==> p[..k] in r.paths && p[..k] !in r.reg)
  }

  /** The walk meets no instance and the whole path is not yet a node. */
  ghost predicate CanRegister(r: Registry, oid: Oid) {
    && 0 < |oid| <= OID_MAX_LEN
    && oid !in r.paths
    && forall k :: 0 <= k < |oid| ==> oid[..k] !in r.reg
  }

  ghost function Prefixes(oid: Oid): set<Oid> {
    set k | 0 <= k <= |oid| :: oid[..k]
  }

  ghost function Registered(r: Registry, oid: Oid, callback: int): Registry {
    if CanRegister(r, oid) then Registry(r.paths + Prefixes(oid), r.reg[oid := callback]) else r
  }

  /** The node mib_tree_node_search finds: the node at `oid`, or an instance one sub-identifier short of it. */
  ghost function DeleteRoot(r: Registry, oid: Oid): Option<Oid> {
    if oid == [] then None
    else if oid in r.paths then Some(oid)
    else if oid[..|oid| - 1] in r.reg then Some(oid[..|oid| - 1])
    else None
  }

  ghost function Without(r: Registry, d: Oid): Registry {
    Registry(set p | p in r.paths && !(d <= p), map p | p in r.reg && !(d <= p) :: r.reg[p])
  }

  ghost function Unregistered(r: Registry, oid: Oid): Registry {
    var d := DeleteRoot(r, oid);
    if d.Some? then Without(r, d.value) else r
  }

  ghost function Apply(r: Registry, op: Op): Registry {
    match op
    case Register(oid, callback) => Registered(r, oid, callback)
    case Unregister(oid) => Unregistered(r, oid)
  }

  ghost function Run(ops: seq<Op>): Registry {
    if ops == [] then EMPTY else Apply(Run(ops[..|ops| - 1]), ops[|ops| - 1])
  }

  lemma WfPrefix(r: Registry, p: Oid, q: Oid)
    requires Wf(r) && q in r.paths && p <= q
    ensures p in r.paths && (p != q ==> p !in r.reg)
  {
    if |p| < |q| {
      assert p == q[..|p|] && q[..|p|] in r.paths;
    } else {
      assert p == q;
    }
  }

  lemma RegisteredWf(r: Registry, oid: Oid, callback: int)
    requires Wf(r)
    ensures Wf(Registered(r, oid, callback))
  {
    var r' := Registered(r, oid, callback);
    if CanRegister(r, oid) {
      assert oid == oid[..|oid|];
      forall p, k | p in r'.paths && 0 <= k < |p| ensures p[..k] in r'.paths && p[..k] !in r'.reg {
        if p !in r.paths {
          var j :| 0 <= j <= |oid| && p == oid[..j];
          assert p[..k] == oid[..k];
        }
      }
    }
  }

  lemma UnregisteredWf(r: Registry, oid: Oid)
    requires Wf(r)
    ensures Wf(Unregistered(r, oid))
  {
    var d := DeleteRoot(r, oid);
    if d.Some? {
      forall p, k | p in r.paths && 0 <= k < |p| && !(d.value <= p) ensures !(d.value <= p[..k]) {
      }
    }
  }

  /** Every register/unregister run leaves a prefix-closed tree whose instances are leaves. */
  lemma {:induction false} RunWf(ops: seq<Op>)
    ensures Wf(Run(ops))
  {
    if ops != [] {
      var init, op := ops[..|ops| - 1], ops[|ops| - 1];
      RunWf(init);
      match op
      case Register(oid, callback) => RegisteredWf(Run(init), oid, callback);
      case Unregister(oid) => UnregisteredWf(Run(init), oid);
    }
  }

  /** No registered identifier is a prefix of another, after any run. */
  lemma PrefixFree(ops: seq<Op>, p: Oid, q: Oid)
    requires p in Run(ops).reg && q in Run(ops).reg && p <= q
    ensures p == q
  {
    RunWf(ops);
    WfPrefix(Run(ops), p, q);
  }

  /** Unregistering removes exactly the registered identifiers it covers, unless it names
      the root or extends a registered identifier by one sub-identifier. */
  lemma UnregisteredExact(r: Registry, oid: Oid)
    requires Wf(r)
    ensures Unregistered(r, oid).reg == (map p | p in r.reg && !(oid <= p) :: r.reg[p])
      <==> !(oid == [] && r.reg != map[]) && !(oid != [] && oid[..|oid| - 1] in r.reg)
  {
    var kept := map p | p in r.reg && !(oid <= p) :: r.reg[p];
    if oid == [] {
      assert kept == map[];
    } else {
      var up := oid[..|oid| - 1];
      if up in r.reg {
        assert oid !in r.paths;
        assert up in kept && up !in Unregistered(r, oid).reg;
      } else if oid !in r.paths {
        forall p | p in r.reg ensures !(oid <= p) {
          if oid <= p { WfPrefix(r, oid, p); }
        }
        assert kept == r.reg;
      }
    }
  }

  /** Unregistering undoes a registration, but the groups it created stay and block later registrations. */
  lemma UnregisterUndoes(r: Registry, oid: Oid, callback: int)
    requires Wf(r) && CanRegister(r, oid)
    ensures var r' := Unregistered(Registered(r, oid, callback), oid);
      && r'.reg == r.reg
      && r'.paths == r.paths + (Prefixes(oid) - {oid})
      && forall k :: 0 <= k < |oid| ==> !CanRegister(r', oid[..k])
  {
    var m := Registered(r, oid, callback);
    var r' := Unregistered(m, oid);
    assert oid == oid[..|oid|];
    assert oid in Prefixes(oid);
    assert DeleteRoot(m, oid) == Some(oid);
    forall p | p in r.paths ensures !(oid <= p) {
      if oid <= p { WfPrefix(r, oid, p); }
    }
    assert r'.reg == r.reg;
    forall k | 0 <= k < |oid| ensures oid[..k] in r'.paths {
      assert oid[..k] in Prefixes(oid);
    }
  }

  /** Sub-identifiers of the nodes directly below `p`. */
  ghost function KidIds(r: Registry, p: Oid): set<SubId> {
    set q | q in r.paths && |q| == |p| + 1 && p <= q :: q[|p|]
  }

  /** The group that has to take a new child for `oid` holds fewer than `limit`. */
  ghost predicate HasRoom(r: Registry, oid: Oid, limit: nat) {
    forall k :: 0 <= k < |oid| && oid[..k] in r.paths && oid[..k + 1] !in r.paths ==>
      |KidIds(r, oid[..k])| < limit
  }
}
