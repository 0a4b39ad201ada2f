/** The tree after a subtree has been freed and unlinked from its parent. */
module TreePrune {
  import opened Oids
  import opened MibNodes
  import opened Registries
  import opened TreeShape
  import opened TreeDelete

  ghost function Kept(at: map<Oid, Ptr>, d: Oid): map<Oid, Ptr> {
    map p | p in at && !(d <= p) :: at[p]
  }

  /** `r` is the parent of `d` without that child. */
  ghost predicate Unlinks(nodes: Arena, at: map<Oid, Ptr>, d: Oid, r: Node) {
    && TreeOk(nodes, at) && d in at && d != []
    && Up(d) in at && at[Up(d)] in nodes && nodes[at[Up(d)]].Group? && GroupOk(nodes[at[Up(d)]])
    && r.Group? && GroupOk(r)
    && forall y, p :: IsKid(r, y, p) <==> y != d[|d| - 1] && IsKid(nodes[at[Up(d)]], y, p)
  }

  ghost function Pruned(nodes: Arena, at: map<Oid, Ptr>, d: Oid, r: Node): Arena
    requires d != [] && Up(d) in at
  {
    (nodes - Subtree(at, d))[at[Up(d)] := r]
  }

  /** A node outside the subtree keeps its place in the arena. */
  lemma Outside(nodes: Arena, at: map<Oid, Ptr>, d: Oid, p: Oid)
    requires TreeOk(nodes, at) && p in at && !(d <= p)
    ensures at[p] in nodes && at[p] !in Subtree(at, d)
  {
    assert PathOk(nodes, at, p);
    assert forall q :: q in at && d <= q ==> at[q] != at[p];
  }

  lemma PruneDown(nodes: Arena, at: map<Oid, Ptr>, d: Oid, r: Node, p: Oid)
    requires Unlinks(nodes, at, d, r) && p in at && !(d <= p)
    ensures DownOk(Pruned(nodes, at, d, r), Kept(at, d), p)
  {
    assert PathOk(nodes, at, p);
    Outside(nodes, at, d, p);
    var g := Pruned(nodes, at, d, r)[at[p]];
    if g.Group? {
      assert p != Up(d) ==> g == nodes[at[p]];
      forall x | d <= p + [x] ensures p == Up(d) && x == d[|d| - 1] {
        assert d == p + [x];
      }
    }
  }

  lemma PruneParent(nodes: Arena, at: map<Oid, Ptr>, d: Oid, p: Oid)
    requires TreeOk(nodes, at) && d != [] && p != [] && Up(p) in at && !(d <= p)
    ensures !(d <= Up(p)) && at[Up(p)] in nodes && at[Up(p)] !in Subtree(at, d)
    ensures Up(p) == Up(d) ==> p[|p| - 1] != d[|d| - 1]
  {
    Outside(nodes, at, d, Up(p));
    assert p == Up(p) + [p[|p| - 1]] && d == Up(d) + [d[|d| - 1]];
  }

  lemma PruneUp(nodes: Arena, at: map<Oid, Ptr>, d: Oid, r: Node, p: Oid)
    requires Unlinks(nodes, at, d, r) && p in at && !(d <= p)
    ensures UpOk(Pruned(nodes, at, d, r), Kept(at, d), p)
  {
    assert PathOk(nodes, at, p);
    if p != [] {
      PruneParent(nodes, at, d, p);
      assert at[Up(p)] == at[Up(d)] <==> Up(p) == Up(d);
    }
  }

  lemma PruneBijection(nodes: Arena, at: map<Oid, Ptr>, d: Oid, r: Node)
    requires Unlinks(nodes, at, d, r)
    ensures var nodes', at' := Pruned(nodes, at, d, r), Kept(at, d);
      && (forall a :: a in nodes' ==> exists p :: p in at' && at'[p] == a)
      && (forall p, q {:trigger at'[p], at'[q]} :: p in at' && q in at' && at'[p] == at'[q] ==> p == q)
  {
    var nodes', at' := Pruned(nodes, at, d, r), Kept(at, d);
    Outside(nodes, at, d, Up(d));
    forall a | a in nodes' ensures exists p :: p in at' && at'[p] == a {
      var p :| p in at && at[p] == a;
      assert d <= p ==> a in Subtree(at, d);
      assert at'[p] == a;
    }
  }

  lemma PruneTree(nodes: Arena, at: map<Oid, Ptr>, d: Oid, r: Node)
    requires Unlinks(nodes, at, d, r)
    ensures TreeOk(Pruned(nodes, at, d, r), Kept(at, d))
  {
    var nodes', at' := Pruned(nodes, at, d, r), Kept(at, d);
    forall p | p in at' ensures PathOk(nodes', at', p) {
      PruneDown(nodes, at, d, r, p);
      PruneUp(nodes, at, d, r, p);
    }
    PruneBijection(nodes, at, d, r);
    Outside(nodes, at, d, []);
    if Up(d) != [] { assert at[Up(d)] != at[[]]; }
  }

  lemma PruneAbs(nodes: Arena, at: map<Oid, Ptr>, d: Oid, r: Node)
    requires Unlinks(nodes, at, d, r)
    ensures AbsOf(Pruned(nodes, at, d, r), Kept(at, d)) == Without(AbsOf(nodes, at), d)
  {
    var nodes', at' := Pruned(nodes, at, d, r), Kept(at, d);
    forall p | p in at' ensures SameLeaf(nodes, nodes', at[p]) {
      Outside(nodes, at, d, p);
    }
    assert AbsOf(nodes', at').reg == Without(AbsOf(nodes, at), d).reg;
  }
}
