/** GETNEXT search in the MIB tree (core/mib_tree.c:317-499). */
module TreeSearch {
  import opened Oids
  import opened Positions
  import opened MibNodes
  import opened Registries
  import opened TreeShape
  import opened TreeDelete
  import opened Handlers

  /** All variables of the tree. */
  ghost function All(nodes: Arena, at: map<Oid, Ptr>, h: Handlers): set<Oid> {
    Instances(AbsOf(nodes, at).reg, h.vars)
  }

  /** The handler above `o` answers a search for `q`. */
  ghost predicate Answered(reg: map<Oid, int>, h: Handlers, q: Oid, o: Oid) {
    forall p :: p in reg && p <= o ==> Right(h, reg[p], AskArg(p, q))
  }

  /** The variables that a search for `q` can be answered with. */
  ghost function LitIn(reg: map<Oid, int>, h: Handlers, q: Oid): set<Oid> {
    set o | o in Instances(reg, h.vars) && Answered(reg, h, q, o)
  }

  ghost function Lit(nodes: Arena, at: map<Oid, Ptr>, h: Handlers, q: Oid): set<Oid> {
    LitIn(AbsOf(nodes, at).reg, h, q)
  }

  /** A variable lies strictly below a leaf of the tree, so never at a node, and below a group
      only through a listed child. */
  lemma VariablePlace(nodes: Arena, at: map<Oid, Ptr>, h: Handlers, o: Oid) returns (p: Oid, s: Oid)
    requires TreeOk(nodes, at) && HandlersOk(h) && o in All(nodes, at, h)
    ensures o == p + s && s != [] && p in at && at[p] in nodes && nodes[at[p]].Instance?
    ensures s in h.vars(nodes[at[p]].callback)
    ensures o !in at
    ensures forall c :: c in at && c <= o ==> c <= p
  {
    var reg := AbsOf(nodes, at).reg;
    p, s :| p in reg && s in h.vars(reg[p]) && o == p + s;
    AbsWf(nodes, at);
    forall c | c in at && c <= o ensures c <= p {
      if |p| < |c| {
        assert p <= c;
        WfPrefix(AbsOf(nodes, at), p, c);
      } else {
        assert c == o[..|c|] == p[..|c|];
      }
    }
    assert o <= o && !(o <= p);
  }

  lemma VariableKid(nodes: Arena, at: map<Oid, Ptr>, h: Handlers, c: Oid, o: Oid) returns (i: nat)
    requires TreeOk(nodes, at) && HandlersOk(h) && o in All(nodes, at, h) && c in at && c <= o
    requires at[c] in nodes && nodes[at[c]].Group?
    ensures GroupOk(nodes[at[c]]) && |c| < |o| && i < nodes[at[c]].cnt && nodes[at[c]].subId[i] == o[|c|]
  {
    var p, s := VariablePlace(nodes, at, h, o);
    assert c <= p && c != p;
    i := KidIndex(nodes, at, c, p);
  }

  /** Below a leaf, the variables are those its handler serves. */
  lemma VariableBelow(nodes: Arena, at: map<Oid, Ptr>, h: Handlers, c: Oid, o: Oid)
    requires TreeOk(nodes, at) && HandlersOk(h) && c in at && at[c] in nodes && nodes[at[c]].Instance? && c <= o
    ensures o in All(nodes, at, h) <==> o[|c|..] in h.vars(nodes[at[c]].callback)
  {
    assert o == c + o[|c|..];
    var reg := AbsOf(nodes, at).reg;
    if o[|c|..] in h.vars(nodes[at[c]].callback) {
      assert c in reg;
    }
    if o in All(nodes, at, h) {
      var p, s := VariablePlace(nodes, at, h, o);
      if c != p { Ancestor(nodes, at, p, c); }
      assert s == o[|c|..];
    }
  }

  /** Below a leaf, all variables can be answers to a search or none. */
  lemma LitBelow(nodes: Arena, at: map<Oid, Ptr>, h: Handlers, q: Oid, c: Oid, o: Oid)
    requires TreeOk(nodes, at) && HandlersOk(h) && c in at && at[c] in nodes && nodes[at[c]].Instance? && c <= o
    ensures o in Lit(nodes, at, h, q) <==>
      o[|c|..] in h.vars(nodes[at[c]].callback) && Right(h, nodes[at[c]].callback, AskArg(c, q))
  {
    VariableBelow(nodes, at, h, c, o);
    var reg := AbsOf(nodes, at).reg;
    assert c in reg;
    if o in All(nodes, at, h) {
      forall p | p in reg && p <= o ensures p == c {
        OneAbove(nodes, at, c, p, o);
      }
    }
  }

  /** At most one leaf lies above an identifier. */
  lemma OneAbove(nodes: Arena, at: map<Oid, Ptr>, c: Oid, p: Oid, o: Oid)
    requires TreeOk(nodes, at) && c in AbsOf(nodes, at).reg && p in AbsOf(nodes, at).reg && c <= o && p <= o
    ensures p == c
  {
    AbsWf(nodes, at);
    if |p| <= |c| {
      assert p <= c;
      WfPrefix(AbsOf(nodes, at), p, c);
    } else {
      assert c <= p;
      WfPrefix(AbsOf(nodes, at), c, p);
    }
  }

  /** The candidates for an answer. */
  ghost predicate Target(all: set<Oid>, view: Oid, q: Oid, o: Oid) {
    o in all && view <= o && Less(q, o)
  }

  /** Standing on `c`, the search has lost no candidate and not run past the request. */
  ghost predicate OnTrack(all: set<Oid>, view: Oid, q: Oid, c: Oid, lo: int) {
    && (c <= q || Less(q, c))
    && forall o :: Target(all, view, q, o) ==> Ahead(c, lo, o)
  }

  /** Candidates below `c` lie below children from `x` on. */
  ghost predicate Floor(all: set<Oid>, view: Oid, q: Oid, c: Oid, x: int) {
    forall o :: Target(all, view, q, o) && c <= o && |c| < |o| ==> o[|c|] >= x
  }

  /** Resuming at child `i`. */
  lemma FloorResumed(nodes: Arena, at: map<Oid, Ptr>, h: Handlers, view: Oid, q: Oid, c: Oid, lo: int, i: nat)
    requires TreeOk(nodes, at) && HandlersOk(h) && OnTrack(Lit(nodes, at, h, q), view, q, c, lo)
    requires c in at && at[c] in nodes && nodes[at[c]].Group? && GroupOk(nodes[at[c]]) && i < nodes[at[c]].cnt
    requires i == 0 || lo == nodes[at[c]].subId[i]
    ensures Floor(Lit(nodes, at, h, q), view, q, c, nodes[at[c]].subId[i])
  {
    var g := nodes[at[c]];
    forall o | Target(Lit(nodes, at, h, q), view, q, o) && c <= o ensures o[|c|] >= g.subId[i] {
      assert Ahead(c, lo, o) && !After(c, o);
      var j := VariableKid(nodes, at, h, c, o);
      assert i == 0 || g.subId[j] >= g.subId[i];
    }
  }

  /** Following the request: its own sub-identifier is found at `i`, or would go there. */
  lemma FloorRequested(nodes: Arena, at: map<Oid, Ptr>, h: Handlers, view: Oid, q: Oid, c: Oid, i: nat)
    requires TreeOk(nodes, at) && HandlersOk(h) && c <= q && |c| < |q|
    requires c in at && at[c] in nodes && nodes[at[c]].Group? && GroupOk(nodes[at[c]]) && i <= nodes[at[c]].cnt
    requires forall j :: 0 <= j < i ==> nodes[at[c]].subId[j] < q[|c|]
    ensures forall o :: Target(Lit(nodes, at, h, q), view, q, o) && c <= o ==> |c| < |o| && i < nodes[at[c]].cnt
    ensures i < nodes[at[c]].cnt ==> Floor(Lit(nodes, at, h, q), view, q, c, nodes[at[c]].subId[i])
  {
    forall o | Target(Lit(nodes, at, h, q), view, q, o) && c <= o
      ensures |c| < |o| && i < nodes[at[c]].cnt && o[|c|] >= nodes[at[c]].subId[i]
    {
      FloorFor(nodes, at, h, q, c, i, o);
    }
  }

  lemma FloorFor(nodes: Arena, at: map<Oid, Ptr>, h: Handlers, q: Oid, c: Oid, i: nat, o: Oid)
    requires TreeOk(nodes, at) && HandlersOk(h) && c <= q && |c| < |q|
    requires c in at && at[c] in nodes && nodes[at[c]].Group? && GroupOk(nodes[at[c]]) && i <= nodes[at[c]].cnt
    requires forall j :: 0 <= j < i ==> nodes[at[c]].subId[j] < q[|c|]
    requires o in All(nodes, at, h) && Less(q, o) && c <= o
    ensures |c| < |o| && i < nodes[at[c]].cnt && o[|c|] >= nodes[at[c]].subId[i]
  {
    var j := VariableKid(nodes, at, h, c, o);
    AboveRequest(q, c, o);
  }

  lemma AboveRequest(q: Oid, c: Oid, o: Oid)
    requires c <= q && |c| < |q| && c <= o && |c| < |o| && Less(q, o)
    ensures o[|c|] >= q[|c|]
  {
    if o[|c|] < q[|c|] {
      assert o[..|c|] == c == q[..|c|];
      LessAt(o, q, |c|);
      LessAsymmetric(o, q);
    }
  }

  /** Moving to child `x`, the first that may hold a candidate. */
  lemma TrackDown(nodes: Arena, at: map<Oid, Ptr>, h: Handlers, view: Oid, q: Oid, c: Oid, lo: int, x: SubId)
    requires TreeOk(nodes, at) && HandlersOk(h) && OnTrack(Lit(nodes, at, h, q), view, q, c, lo)
    requires c + [x] in at && lo <= x && Floor(Lit(nodes, at, h, q), view, q, c, x)
    requires c + [x] <= q || Less(q, c + [x])
    ensures OnTrack(Lit(nodes, at, h, q), view, q, c + [x], 0)
  {
    forall o | Target(Lit(nodes, at, h, q), view, q, o) ensures Ahead(c + [x], 0, o) {
      AheadDown(c, lo, x, o);
      var p, s := VariablePlace(nodes, at, h, o);
    }
  }

  /** No candidate is left below `c`. */
  ghost predicate NoneBelow(all: set<Oid>, view: Oid, q: Oid, c: Oid) {
    forall o :: Target(all, view, q, o) ==> After(c, o)
  }

  lemma VariableUp(nodes: Arena, at: map<Oid, Ptr>, h: Handlers, c: Oid, i: nat, o: Oid)
    requires TreeOk(nodes, at) && HandlersOk(h) && c in at && at[c] in nodes && nodes[at[c]].Group? && GroupOk(nodes[at[c]])
    requires i < nodes[at[c]].cnt && o in All(nodes, at, h) && After(c + [nodes[at[c]].subId[i]], o)
    ensures Ahead(c, Resume(nodes[at[c]], NextIdx(nodes[at[c]], i)), o)
  {
    var g := nodes[at[c]];
    AheadUp(c, g.subId[i], Resume(g, NextIdx(g, i)), o);
    if c <= o {
      var j := VariableKid(nodes, at, h, c, o);
      assert j <= i || j >= i + 1;
    }
  }

  /** Back to the parent of `c`, to resume after child `i`. */
  lemma TrackUp(nodes: Arena, at: map<Oid, Ptr>, h: Handlers, view: Oid, q: Oid, c: Oid, i: nat)
    requires TreeOk(nodes, at) && HandlersOk(h) && c in at && at[c] in nodes && nodes[at[c]].Group? && GroupOk(nodes[at[c]])
    requires i < nodes[at[c]].cnt
    requires var d := c + [nodes[at[c]].subId[i]]; (d <= q || Less(q, d)) && NoneBelow(Lit(nodes, at, h, q), view, q, d)
    ensures var g := nodes[at[c]];
      && OnTrack(Lit(nodes, at, h, q), view, q, c, Resume(g, NextIdx(g, i)))
      && forall x: SubId :: x >= Resume(g, NextIdx(g, i)) ==> Less(q, c + [x])
  {
    var g := nodes[at[c]];
    forall o | Target(Lit(nodes, at, h, q), view, q, o) ensures Ahead(c, Resume(g, NextIdx(g, i)), o) {
      VariableUp(nodes, at, h, c, i, o);
    }
    RequestUp(q, c, g.subId[i]);
  }

  lemma RequestUp(q: Oid, c: Oid, y: SubId)
    requires c + [y] <= q || Less(q, c + [y])
    ensures c <= q || Less(q, c)
    ensures forall x: SubId :: x > y ==> Less(q, c + [x])
  {
    var d := c + [y];
    if d <= q {
      assert c <= d;
      forall x: SubId | x > y ensures Less(q, c + [x]) {
        assert q[..|c|] == d[..|c|] == c == (c + [x])[..|c|];
        LessAt(q, c + [x], |c|);
      }
    } else {
      var n := CommonLen(q, d);
      if n < |c| {
        assert q[..n] == d[..n] == c[..n];
        LessAt(q, c, n);
      } else {
        assert q[..|c|] == d[..|c|] == c;
      }
      forall x: SubId | x > y ensures Less(q, c + [x]) {
        assert d[..|c|] == c == (c + [x])[..|c|];
        LessAt(d, c + [x], |c|);
        LessTransitive(q, d, c + [x]);
      }
    }
  }

  // ---------------------------------------------------------------------
  // At an instance node
  // ---------------------------------------------------------------------

  /** The search at leaf `c` asks its handler for the variable after `s`. */
  ghost predicate Asks(nodes: Arena, at: map<Oid, Ptr>, h: Handlers, view: Oid, q: Oid, c: Oid, s: Oid) {
    && TreeOk(nodes, at) && HandlersOk(h) && OnTrack(Lit(nodes, at, h, q), view, q, c, 0)
    && c in at && at[c] in nodes && nodes[at[c]].Instance?
    && ((s == [] && LessEq(q, c)) || q == c + s)
  }

  lemma AskAbove(nodes: Arena, at: map<Oid, Ptr>, h: Handlers, view: Oid, q: Oid, c: Oid, s: Oid, t: Oid)
    requires Asks(nodes, at, h, view, q, c, s) && t != []
    ensures Less(q, c + t) <==> Less(s, t)
  {
    LessConcat(c, s, t);
    if s == [] {
      LessAt([], t, 0);
      PrefixLess(c, c + t);
      LessLessEq(q, c, c + t);
    }
  }

  /** What is asked at leaf `c` is what the search for `q` asks there. */
  lemma AskedIs(nodes: Arena, at: map<Oid, Ptr>, h: Handlers, view: Oid, q: Oid, c: Oid, s: Oid)
    requires Asks(nodes, at, h, view, q, c, s)
    ensures s == AskArg(c, q)
  {
    if c <= q && q != c + s {
      if c != q {
        PrefixLess(c, q);
        LessAsymmetric(c, q);
      }
    }
  }

  /** A candidate below leaf `c` is one of its variables after `s`. */
  lemma AskTarget(nodes: Arena, at: map<Oid, Ptr>, h: Handlers, view: Oid, q: Oid, c: Oid, s: Oid, o: Oid)
    requires Asks(nodes, at, h, view, q, c, s) && Target(Lit(nodes, at, h, q), view, q, o) && c <= o
    ensures o[|c|..] in h.vars(nodes[at[c]].callback) && Less(s, o[|c|..]) && o == c + o[|c|..]
  {
    LitBelow(nodes, at, h, q, c, o);
    AskAbove(nodes, at, h, view, q, c, s, o[|c|..]);
    assert o == c + o[|c|..];
  }

  /** The handler has nothing more: no candidate below `c`. */
  lemma AskNone(nodes: Arena, at: map<Oid, Ptr>, h: Handlers, view: Oid, q: Oid, c: Oid, s: Oid)
    requires Asks(nodes, at, h, view, q, c, s) && h.next(nodes[at[c]].callback, s) == None
    ensures NoneBelow(Lit(nodes, at, h, q), view, q, c)
  {
    AskedIs(nodes, at, h, view, q, c, s);
    forall o | Target(Lit(nodes, at, h, q), view, q, o) ensures After(c, o) {
      if c <= o {
        LitBelow(nodes, at, h, q, c, o);
        AskTarget(nodes, at, h, view, q, c, s, o);
      }
    }
  }

  /** The handler's answer is the least candidate, if it lies in the view. */
  lemma AskSome(nodes: Arena, at: map<Oid, Ptr>, h: Handlers, view: Oid, q: Oid, c: Oid, s: Oid, w: Oid)
    requires Asks(nodes, at, h, view, q, c, s) && h.next(nodes[at[c]].callback, s) == Some(w)
    ensures w != [] && c + w in Lit(nodes, at, h, q) && Less(q, c + w)
    ensures forall o :: Target(Lit(nodes, at, h, q), view, q, o) ==> LessEq(c + w, o)
  {
    assert Right(h, nodes[at[c]].callback, s);
    assert (c + w)[|c|..] == w;
    AskedIs(nodes, at, h, view, q, c, s);
    LitBelow(nodes, at, h, q, c, c + w);
    AskAbove(nodes, at, h, view, q, c, s, w);
    forall o | Target(Lit(nodes, at, h, q), view, q, o) ensures LessEq(c + w, o) {
      if c <= o {
        AskTarget(nodes, at, h, view, q, c, s, o);
        LessConcat(c, w, o[|c|..]);
      } else {
        SubtreeBefore(c, c + w, o, o);
      }
    }
  }

  /** The search can only meet the view by an answer inside it: the request is not before the
      view, or the view's path leaves the tree at the start node `d`. */
  ghost predicate Scoped(nodes: Arena, at: map<Oid, Ptr>, view: Oid, d: Oid, q: Oid) {
    && d in at && at[d] in nodes && d <= view
    && (LessEq(view, q) || (|d| < |view| && d + [view[|d|]] !in at && nodes[at[d]].Group?))
  }

  /** Off the tree there is nothing in the view, and nothing the view lies under. */
  lemma OffView(nodes: Arena, at: map<Oid, Ptr>, h: Handlers, view: Oid, d: Oid, c: Oid, o: Oid)
    requires TreeOk(nodes, at) && HandlersOk(h) && d <= view && |d| < |view| && d + [view[|d|]] !in at
    requires d in at && at[d] in nodes && nodes[at[d]].Group?
    requires c in at && d <= c && c <= o && o in All(nodes, at, h)
    ensures !(view <= o) && !(o <= view)
  {
    var p, s := VariablePlace(nodes, at, h, o);
    var x := view[|d|];
    assert d <= p && d != p;
    Ancestor(nodes, at, p, d);
    assert p[|d|] == o[|d|] != x;
  }

  /** An answer outside the view: nothing of the view is left below `c`, and the answer is no prefix of the view. */
  lemma AskOutside(nodes: Arena, at: map<Oid, Ptr>, h: Handlers, view: Oid, d: Oid, q: Oid, c: Oid, s: Oid, w: Oid)
    requires Asks(nodes, at, h, view, q, c, s) && h.next(nodes[at[c]].callback, s) == Some(w)
    requires Scoped(nodes, at, view, d, q) && d <= c
    requires !(view <= c + w)
    ensures !(c + w <= view) && NoneBelow(Lit(nodes, at, h, q), view, q, c)
  {
    AskSome(nodes, at, h, view, q, c, s, w);
    if LessEq(view, q) {
      LessLessEq(view, q, c + w);
      if c + w <= view && c + w != view {
        PrefixLess(c + w, view);
        LessAsymmetric(c + w, view);
      }
      forall o ensures !Target(Lit(nodes, at, h, q), view, q, o) {
        if Target(Lit(nodes, at, h, q), view, q, o) { SubtreeConvex(view, q, c + w, o); }
      }
    } else {
      OffView(nodes, at, h, view, d, c, c + w);
      forall o | Target(Lit(nodes, at, h, q), view, q, o) ensures After(c, o) {
        if c <= o { OffView(nodes, at, h, view, d, c, o); }
      }
    }
  }
}
