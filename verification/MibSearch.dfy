/** Exact and GETNEXT search below one view (core/mib_tree.c:244-315, 324-379). */
module MibSearch {
  import opened Oids
  import opened Positions
  import opened MibNodes
  import opened Registries
  import opened TreeShape
  import opened Handlers
  import opened TreeSearch
  import opened TreeNext
  import opened MibTrees

  /** How mib_tree_search ends, with the node it stands on and the sub-identifiers consumed. */
  datatype Outcome =
    | OutOfView
    | NoChild(node: Ptr, depth: nat)
    | AtNode(node: Ptr, depth: nat)
    | AtHandler(node: Ptr, depth: nat, callback: int, sub: Oid)

  /** The walk along `oid` ends on path `d` as `r` says. */
  ghost predicate WalkedTo(nodes: Arena, at: map<Oid, Ptr>, oid: Oid, d: Oid, r: Outcome) {
    && !r.OutOfView? && d in at && d <= oid && r.node == at[d] && r.depth == |d| && r.node in nodes
    && (r.NoChild? ==> nodes[r.node].Group? && |d| < |oid| && d + [oid[|d|]] !in at)
    && (r.AtNode? ==> d == oid)
    && (r.AtHandler? ==> nodes[r.node] == Instance(r.callback) && r.sub == oid[|d|..] && r.sub != [])
  }

  /** mib_tree_search. */
  method Search(tree: MibTree, view: Oid, oid: Oid) returns (r: Outcome, ghost d: Oid)
    requires tree.Valid()
    ensures r.OutOfView? <==> !(view <= oid)
    ensures !r.OutOfView? ==> WalkedTo(tree.nodes, tree.at, oid, d, r)
  {
    d := [];
    var cover := OidCover(view, oid);
    if cover <= 0 {
      return OutOfView, d;
    }
    var node, k := ROOT, 0;
    while k < |oid|
      invariant 0 <= k <= |oid| && d == oid[..k] && d in tree.at && node == tree.at[d] && node in tree.nodes
    {
      if tree.nodes[node].Instance? {
        return AtHandler(node, k, tree.nodes[node].callback, oid[k..]), d;
      }
      var i, kid := tree.FindChild(d, node, oid[k]);
      if i < 0 {
        return NoChild(node, k), d;
      }
      assert oid[..k + 1] == d + [oid[k]];
      node, k := kid, k + 1;
      d := oid[..k];
    }
    assert d == oid;
    r := AtNode(node, k);
  }

  /** A GET reaches a handler exactly for identifiers in the view that lie below a registered one. */
  lemma SearchReaches(nodes: Arena, at: map<Oid, Ptr>, oid: Oid, d: Oid, r: Outcome, p: Oid)
    requires TreeOk(nodes, at) && WalkedTo(nodes, at, oid, d, r)
    ensures r.AtHandler? ==> d in AbsOf(nodes, at).reg && AbsOf(nodes, at).reg[d] == r.callback && oid == d + r.sub
    ensures p in AbsOf(nodes, at).reg && p <= oid && p != oid ==> r.AtHandler? && d == p
  {
    var reg := AbsOf(nodes, at);
    AbsWf(nodes, at);
    if p in reg.reg && p <= oid && p != oid {
      if |d| <= |p| {
        assert d <= p;
        if d != p {
          Ancestor(nodes, at, p, d);
        }
      } else {
        assert p <= d;
        WfPrefix(reg, p, d);
      }
    }
  }

  /** What the search below a view runs with: the request, or the view when the request lies outside. */
  function Sought(view: Oid, req: Oid): Oid {
    if view <= req then req else view
  }

  /** What mib_tree_search_next answers for a request against one view, from the variables `all`. */
  ghost predicate Answers(all: set<Oid>, view: Oid, req: Oid, r: Option<Oid>) {
    if view <= req then IsNext(Visible(all, view), req, r)
    else if CmpValue(req, view) < 0 then IsNext(Visible(all, view), view, r)
    else r == None
  }

  /** `oid` in a buffer of BUF_LEN slots. */
  function Padded(oid: Oid): Oid {
    if |oid| >= BUF_LEN then oid else oid + seq(BUF_LEN - |oid|, _ => 0)
  }

  /** Where the traversal starts, with the request `q` it really runs with. */
  lemma StartTrail(nodes: Arena, at: map<Oid, Ptr>, h: Handlers, view: Oid, d: Oid, q: Oid, s: Trail)
    requires TreeOk(nodes, at) && HandlersOk(h) && d in at && at[d] in nodes && d <= view && Scoped(nodes, at, view, d, q)
    requires s.node == at[d] && s.popped == None && s.stack == [] && |s.buf| == BUF_LEN && s.cur == |d|
    requires |d| <= OID_MAX_LEN && s.buf[..|d|] == d
    requires s.immediate ==> q == d
    requires !s.immediate ==> |q| <= BUF_LEN && d <= q && s.idLen == |q| - |d| && s.buf[..|q|] == q
    requires !s.immediate && nodes[at[d]].Group? ==> |q| > |d|
    ensures TrailOk(nodes, at, h, view, d, q, s, d, 0)
  {
    assert PathOk(nodes, at, d);
    if s.immediate { BelowRequest(q, d); }
    forall o | Target(Lit(nodes, at, h, q), view, q, o) ensures Ahead(d, 0, o) {
      assert d <= o;
      var p, t := VariablePlace(nodes, at, h, o);
    }
  }

  /** mib_tree_search_next: the variable found, with its identifier or else the restored request. */
  method SearchNext(tree: MibTree, h: Handlers, view: Oid, req: Oid) returns (r: Option<Oid>, oid: Oid)
    requires tree.Valid() && HandlersOk(h) && |view| <= BUF_LEN && |req| <= BUF_LEN
    requires forall o :: o in All(tree.nodes, tree.at, h) ==> |o| <= OID_MAX_LEN
    ensures Answers(Lit(tree.nodes, tree.at, h, Sought(view, req)), view, req, r)
    ensures oid == if r.Some? then r.value else req
  {
    r := None;
    var cover := OidCover(view, req);
    if cover > 0 {
      PrefixLessEq(view, req);
      r := SearchFrom(tree, h, view, req, true);
    } else {
      var cmp := OidCmp(req, view);
      if cmp < 0 {
        r := SearchFrom(tree, h, view, view, false);
      }
    }
    oid := if r.Some? then r.value else req;
  }

  lemma PrefixLessEq(a: Oid, b: Oid)
    requires a <= b
    ensures LessEq(a, b)
  {
    if a != b { PrefixLess(a, b); }
  }

  /** Finds the start node at the view and runs the traversal; `inside` when the request lies in the view. */
  method SearchFrom(tree: MibTree, h: Handlers, view: Oid, req: Oid, inside: bool) returns (r: Option<Oid>)
    requires tree.Valid() && HandlersOk(h) && view <= req && |req| <= BUF_LEN
    requires !inside ==> req == view
    requires forall o :: o in All(tree.nodes, tree.at, h) ==> |o| <= OID_MAX_LEN
    ensures IsNext(Visible(Lit(tree.nodes, tree.at, h, req), view), req, r)
  {
    var start, d := Search(tree, view, view);
    var immediate := if inside then |req| <= start.depth else tree.nodes[start.node].Group?;
    var s := Trail(start.node, None, [], immediate, |req| - start.depth, Padded(req), start.depth);
    assert Padded(req)[..|req|] == req && Padded(req)[..|d|] == req[..|d|] == d;
    PrefixLessEq(view, req);
    assert PathOk(tree.nodes, tree.at, d);
    ghost var q := if immediate then d else req;
    StartTrail(tree.nodes, tree.at, h, view, d, q, s);
    r := Traverse(tree.nodes, h, view, s, tree.at, d, q);
    if q != req {
      AnsweredOffTree(tree.nodes, tree.at, h, view, d, q, req, r);
    }
  }

  lemma AnsweredOffTree(nodes: Arena, at: map<Oid, Ptr>, h: Handlers, view: Oid, d: Oid, q: Oid, req: Oid, r: Option<Oid>)
    requires TreeOk(nodes, at) && HandlersOk(h) && d <= view && |d| < |view| && d + [view[|d|]] !in at
    requires d in at && at[d] in nodes && nodes[at[d]].Group?
    requires IsNext(Visible(Lit(nodes, at, h, q), view), q, r)
    ensures IsNext(Visible(Lit(nodes, at, h, req), view), req, r)
  {
    NothingOffTree(nodes, at, h, view, d);
    assert forall o :: o in Visible(Lit(nodes, at, h, q), view) ==> o in Visible(All(nodes, at, h), view);
    assert forall o :: o in Visible(Lit(nodes, at, h, req), view) ==> o in Visible(All(nodes, at, h), view);
  }

  /** A view whose path leaves the tree shows nothing. */
  lemma NothingOffTree(nodes: Arena, at: map<Oid, Ptr>, h: Handlers, view: Oid, d: Oid)
    requires TreeOk(nodes, at) && HandlersOk(h) && d <= view && |d| < |view| && d + [view[|d|]] !in at
    requires d in at && at[d] in nodes && nodes[at[d]].Group?
    ensures Visible(All(nodes, at, h), view) == {}
  {
    forall o | o in All(nodes, at, h) ensures !(view <= o) {
      if view <= o { OffView(nodes, at, h, view, d, d, o); }
    }
  }

  /** The answer is the least variable of the view above the request exactly when the request lies in
      the view, or compares with it without wrapping and does not precede a view that is itself a
      variable, or when the answer cannot be wrong because nothing (else) is in the view. */
  lemma AnswersExactly(all: set<Oid>, view: Oid, req: Oid, r: Option<Oid>)
    requires Answers(all, view, req, r)
    ensures IsNext(Visible(all, view), req, r) <==>
      if view <= req then true
      else if OrderSafe(req, view) then !(Less(req, view) && view in all)
      else if Less(req, view) then Visible(all, view) == {}
      else Visible(all, view) <= {view}
  {
    CmpOrders(req, view);
    LessTotal(req, view);
    if !(view <= req) {
      if Less(req, view) {
        AheadOfView(all, view, req, r);
      } else {
        BehindView(all, view, req);
      }
    }
  }

  /** All of the view is above a request that precedes it. */
  lemma AheadOfView(all: set<Oid>, view: Oid, req: Oid, r: Option<Oid>)
    requires Less(req, view)
    ensures forall o :: o in Visible(all, view) ==> Less(req, o) && (o != view ==> Less(view, o))
    ensures IsNext(Visible(all, view), view, r) ==> (IsNext(Visible(all, view), req, r) <==> view !in all)
    ensures IsNext(Visible(all, view), req, None) <==> Visible(all, view) == {}
  {
    forall o | o in Visible(all, view) ensures Less(req, o) && (o != view ==> Less(view, o)) {
      PrefixLessEq(view, o);
      LessLessEq(req, view, o);
    }
    LessIrreflexive(view);
    if view in all { assert view in Visible(all, view); }
    if r.Some? && LessEq(r.value, view) && Less(view, r.value) { LessAsymmetric(view, r.value); }
  }

  /** None of the view is above a request that follows it. */
  lemma BehindView(all: set<Oid>, view: Oid, req: Oid)
    requires Less(view, req) && !(view <= req)
    ensures forall o :: o in Visible(all, view) ==> !Less(req, o)
    ensures IsNext(Visible(all, view), view, None) <==> Visible(all, view) <= {view}
  {
    forall o | o in Visible(all, view) ensures !Less(req, o) {
      SubtreeBefore(view, o, req, req);
      LessAsymmetric(o, req);
    }
    forall o | o in Visible(all, view) && o != view ensures Less(view, o) {
      PrefixLess(view, o);
    }
    LessIrreflexive(view);
  }

  /** A handler with the one variable [0] behind callback 7. */
  const ONE_VARIABLE := Handlers((c: int, q: Oid) => if c == 7 && Less(q, [0]) then Some([0]) else None,
                                 (c: int) => if c == 7 then {[0]} else {})

  lemma OneVariableRight()
    ensures HandlersRight(ONE_VARIABLE)
  {
    forall c, q ensures Right(ONE_VARIABLE, c, q) {
      assert c == 7 ==> [0] in ONE_VARIABLE.vars(c);
    }
  }

  lemma OneVariableIs()
    ensures Instances(Registered(EMPTY, [1], 7).reg, ONE_VARIABLE.vars) <= {[1, 0]}
    ensures CanRegister(EMPTY, [1]) ==> [1, 0] in Instances(Registered(EMPTY, [1], 7).reg, ONE_VARIABLE.vars)
  {
    assert [1] + [0] == [1, 0];
  }

  /** A tree with [1] registered, and so the one variable [1, 0]. */
  method OneVariableTree() returns (tree: MibTree)
    ensures fresh(tree) && tree.Valid() && All(tree.nodes, tree.at, ONE_VARIABLE) == {[1, 0]}
  {
    tree := new MibTree();
    RoomForOne(tree);
    OneVariableIs();
    var _ := tree.NodeReg([1], 7);
  }

  /** A view that is itself a variable is not answered to a request before it: in that tree, a search
      below the view [1, 0] finds nothing after the empty request. */
  method ViewRootSkipped() returns (tree: MibTree, r: Option<Oid>)
    ensures fresh(tree) && tree.Valid() && HandlersRight(ONE_VARIABLE)
    ensures [1, 0] in Visible(All(tree.nodes, tree.at, ONE_VARIABLE), [1, 0]) && Less([], [1, 0])
    ensures r == None && !IsNext(Visible(All(tree.nodes, tree.at, ONE_VARIABLE), [1, 0]), [], r)
  {
    OneVariableRight();
    tree := OneVariableTree();
    var oid;
    r, oid := SearchNext(tree, ONE_VARIABLE, [1, 0], []);
    LessAt([], [1, 0], 0);
    CommonLenIs([], [1, 0], 0);
    LessIrreflexive([1, 0]);
  }

  lemma RoomForOne(tree: MibTree)
    requires tree.Valid() && tree.Abs() == EMPTY
    ensures CanRegister(tree.Abs(), [1]) && HasRoom(tree.Abs(), [1], MAX_KIDS)
  {
    assert forall q :: q in EMPTY.paths ==> q == [];
    assert KidIds(EMPTY, []) == {};
    forall k | 0 <= k < |[1]| ensures [1][..k] == [] {}
  }
}
