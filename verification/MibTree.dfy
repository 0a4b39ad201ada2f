/** Shape of the MIB tree in memory: nodes in an arena, addressed by pointers (core/mib_tree.c). */
module TreeShape {
  import opened Oids
  import opened MibNodes
  import opened Registries

  type Arena = map<Ptr, Node>

  /** The node at path `p` is allocated and lists exactly nodes of the tree as its children. */
  ghost predicate DownOk(nodes: Arena, at: map<Oid, Ptr>, p: Oid)
    requires p in at
  {
    && at[p] in nodes && at[p] != NULL && |p| <= OID_MAX_LEN
    && (nodes[at[p]].Group? ==>
          && |p| < OID_MAX_LEN && GroupOk(nodes[at[p]])
          && forall x, q :: IsKid(nodes[at[p]], x, q) ==> p + [x] in at && at[p + [x]] == q)
  }

  /** The parent of the node at path `p` is a group that lists it. */
  ghost predicate UpOk(nodes: Arena, at: map<Oid, Ptr>, p: Oid)
    requires p in at
  {
    p != [] ==>
      && Up(p) in at && at[Up(p)] in nodes && nodes[at[Up(p)]].Group? && GroupOk(nodes[at[Up(p)]])
      && IsKid(nodes[at[Up(p)]], p[|p| - 1], at[p])
  }

  ghost predicate PathOk(nodes: Arena, at: map<Oid, Ptr>, p: Oid)
    requires p in at
  {
    DownOk(nodes, at, p) && UpOk(nodes, at, p)
  }

  function Up(p: Oid): Oid
    requires p != []
  {
    p[..|p| - 1]
  }

  /** `at` gives the node of every path: one tree, no sharing, no node out of reach. */
  ghost predicate TreeOk(nodes: Arena, at: map<Oid, Ptr>) {
    && [] in at && at[[]] == ROOT && ROOT in nodes && nodes[ROOT].Group?
    && (forall p {:trigger PathOk(nodes, at, p)} :: p in at ==> PathOk(nodes, at, p))
    && (forall p, q {:trigger at[p], at[q]} :: p in at && q in at && at[p] == at[q] ==> p == q)
    && (forall a :: a in nodes ==> exists p :: p in at && at[p] == a)
  }

  ghost function AbsOf(nodes: Arena, at: map<Oid, Ptr>): Registry {
    Registry(at.Keys, map p | p in at && at[p] in nodes && nodes[at[p]].Instance? :: nodes[at[p]].callback)
  }

  /** A prefix of a path is a path, and a proper one is a group that lists the next step. */
  lemma {:induction false} Ancestor(nodes: Arena, at: map<Oid, Ptr>, p: Oid, c: Oid)
    requires TreeOk(nodes, at) && p in at && c <= p
    ensures c in at && PathOk(nodes, at, c)
    ensures |c| < |p| ==>
      && nodes[at[c]].Group? && c + [p[|c|]] in at
      && IsKid(nodes[at[c]], p[|c|], at[c + [p[|c|]]])
    decreases |p|
  {
    assert PathOk(nodes, at, p);
    if |c| < |p| {
      assert PathOk(nodes, at, Up(p));
      if |c| == |p| - 1 {
        assert c == Up(p) && c + [p[|c|]] == p;
      } else {
        assert c <= Up(p) && Up(p)[|c|] == p[|c|];
        Ancestor(nodes, at, Up(p), c);
      }
    } else {
      assert c == p;
    }
  }

  lemma AbsWf(nodes: Arena, at: map<Oid, Ptr>)
    requires TreeOk(nodes, at)
    ensures Wf(AbsOf(nodes, at))
  {
    var r := AbsOf(nodes, at);
    forall p | p in r.paths ensures |p| <= OID_MAX_LEN {
      assert PathOk(nodes, at, p);
    }
    forall p, k | p in r.paths && 0 <= k < |p| ensures p[..k] in r.paths && p[..k] !in r.reg {
      Ancestor(nodes, at, p, p[..k]);
    }
  }

  /** Group `c` after taking the fresh node `q` as child `x`. */
  ghost predicate Links(nodes: Arena, at: map<Oid, Ptr>, c: Oid, x: SubId, r: Node, q: Ptr) {
    && TreeOk(nodes, at) && c in at && c + [x] !in at && q !in nodes && q != NULL
    && at[c] in nodes && nodes[at[c]].Group? && GroupOk(nodes[at[c]])
    && r.Group? && GroupOk(r)
    && forall y, p :: IsKid(r, y, p) <==> (y == x && p == q) || IsKid(nodes[at[c]], y, p)
  }

  lemma LinkDown(nodes: Arena, at: map<Oid, Ptr>, c: Oid, x: SubId, r: Node, q: Ptr, n: Node, p: Oid)
    requires Links(nodes, at, c, x, r, q) && p in at
    ensures DownOk(nodes[at[c] := r][q := n], at[c + [x] := q], p)
  {
    assert PathOk(nodes, at, p);
    assert p != c ==> at[p] != at[c];
  }

  lemma LinkUp(nodes: Arena, at: map<Oid, Ptr>, c: Oid, x: SubId, r: Node, q: Ptr, n: Node, p: Oid)
    requires Links(nodes, at, c, x, r, q) && p in at
    ensures UpOk(nodes[at[c] := r][q := n], at[c + [x] := q], p)
  {
    assert PathOk(nodes, at, p);
    if p != [] {
      assert Up(p) != c ==> at[Up(p)] != at[c];
    }
  }

  lemma LinkNew(nodes: Arena, at: map<Oid, Ptr>, c: Oid, x: SubId, r: Node, q: Ptr, n: Node)
    requires Links(nodes, at, c, x, r, q)
    requires n.Instance? || (n == NewGroup() && |c| + 1 < OID_MAX_LEN)
    ensures PathOk(nodes[at[c] := r][q := n], at[c + [x] := q], c + [x])
  {
    assert PathOk(nodes, at, c);
    assert Up(c + [x]) == c;
    assert IsKid(r, x, q);
  }

  lemma LinkPaths(nodes: Arena, at: map<Oid, Ptr>, c: Oid, x: SubId, r: Node, q: Ptr, n: Node)
    requires Links(nodes, at, c, x, r, q)
    requires n.Instance? || (n == NewGroup() && |c| + 1 < OID_MAX_LEN)
    ensures var nodes', at' := nodes[at[c] := r][q := n], at[c + [x] := q];
      forall p {:trigger PathOk(nodes', at', p)} :: p in at' ==> PathOk(nodes', at', p)
  {
    var nodes', at' := nodes[at[c] := r][q := n], at[c + [x] := q];
    forall p | p in at' ensures PathOk(nodes', at', p) {
      if p == c + [x] {
        LinkNew(nodes, at, c, x, r, q, n);
      } else {
        LinkDown(nodes, at, c, x, r, q, n, p);
        LinkUp(nodes, at, c, x, r, q, n, p);
      }
    }
  }

  /** The arena and the paths stay in one-to-one correspondence. */
  lemma LinkBijection(nodes: Arena, at: map<Oid, Ptr>, c: Oid, x: SubId, r: Node, q: Ptr, n: Node)
    requires Links(nodes, at, c, x, r, q)
    ensures var nodes', at' := nodes[at[c] := r][q := n], at[c + [x] := q];
      && (forall a :: a in nodes' ==> exists p :: p in at' && at'[p] == a)
      && (forall p, p' {:trigger at'[p], at'[p']} :: p in at' && p' in at' && at'[p] == at'[p'] ==> p == p')
  {
    var nodes', at' := nodes[at[c] := r][q := n], at[c + [x] := q];
    forall a | a in nodes' ensures exists p :: p in at' && at'[p] == a {
      if a == q {
        assert at'[c + [x]] == a;
      } else {
        var p :| p in at && at[p] == a;
        assert at'[p] == a;
      }
    }
    forall p | p in at ensures at[p] != q {
      assert PathOk(nodes, at, p);
    }
  }

  /** Hanging a fresh leaf or empty group below group `c` keeps the tree in shape. */
  lemma LinkChild(nodes: Arena, at: map<Oid, Ptr>, c: Oid, x: SubId, r: Node, q: Ptr, n: Node)
    requires Links(nodes, at, c, x, r, q)
    requires n.Instance? || (n == NewGroup() && |c| + 1 < OID_MAX_LEN)
    ensures TreeOk(nodes[at[c] := r][q := n], at[c + [x] := q])
  {
    LinkPaths(nodes, at, c, x, r, q, n);
    LinkBijection(nodes, at, c, x, r, q, n);
    assert c + [x] != [];
  }

  lemma LinkAbs(nodes: Arena, at: map<Oid, Ptr>, c: Oid, x: SubId, r: Node, q: Ptr, n: Node)
    requires Links(nodes, at, c, x, r, q)
    ensures AbsOf(nodes[at[c] := r][q := n], at[c + [x] := q]) ==
      Registry(at.Keys + {c + [x]}, if n.Instance? then AbsOf(nodes, at).reg[c + [x] := n.callback] else AbsOf(nodes, at).reg)
  {
    forall p | p in at ensures SameLeaf(nodes, nodes[at[c] := r][q := n], at[p]) {
      assert PathOk(nodes, at, p);
    }
    ExtendAbs(nodes, nodes[at[c] := r][q := n], at, c + [x], q, n);
  }

  /** Node `a` is the same leaf, or a group in both. */
  ghost predicate SameLeaf(nodes: Arena, nodes': Arena, a: Ptr) {
    a in nodes && a in nodes' && (nodes[a].Instance? || nodes'[a].Instance? ==> nodes[a] == nodes'[a])
  }

  lemma ExtendAbs(nodes: Arena, nodes': Arena, at: map<Oid, Ptr>, c: Oid, q: Ptr, n: Node)
    requires c !in at && q in nodes' && nodes'[q] == n
    requires forall p :: p in at ==> SameLeaf(nodes, nodes', at[p])
    ensures AbsOf(nodes', at[c := q]) ==
      Registry(at.Keys + {c}, if n.Instance? then AbsOf(nodes, at).reg[c := n.callback] else AbsOf(nodes, at).reg)
  {
    var L, R := AbsOf(nodes', at[c := q]).reg, AbsOf(nodes, at).reg;
    if n.Instance? {
      assert L == R[c := n.callback];
    } else {
      assert L == R;
    }
  }
}
