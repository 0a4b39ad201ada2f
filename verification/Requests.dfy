/** GET and GETNEXT on behalf of a community (core/snmp_msg_proc.c:29-80, 143-194). */
module Requests {
  import opened Oids
  import opened Handlers
  import opened TreeSearch
  import opened TreeNext
  import opened MibTrees
  import opened MibSearch
  import opened ViewLists
  import V = Views
  import opened MultiView
  import opened Reach

  /** How a variable binding comes back: with a value, with an exception, or with the tag it arrived with. */
  datatype Tag = Value | NoSuchObject | NoSuchInstance | EndOfMibView | AsReceived

  const NO_ACCESS := 6

  lemma ListShows(all: set<Oid>, views: seq<Oid>, list: seq<ViewId>, granted: set<Oid>)
    requires V.ListOk(views, list, granted)
    ensures Shown(all, views, list) == Readable(all, granted)
  {
  }

  /** The views in a list are the minimal grants. */
  lemma RootIsMinimal(views: seq<Oid>, list: seq<ViewId>, granted: set<Oid>, i: nat)
    requires V.ListOk(views, list, granted) && i < |list|
    ensures Minimal(granted, views[list[i]])
  {
    var v := views[list[i]];
    assert Covers(views, list, v);
    assert V.Granted(granted, v);
    forall g | g in granted && g <= v ensures g == v {
      assert V.Granted(granted, g);
      var j :| 0 <= j < |list| && views[list[j]] <= g;
      ChainDisjoint(views, list, i, j, v);
    }
  }

  lemma MinimalIsRoot(views: seq<Oid>, list: seq<ViewId>, granted: set<Oid>, v: Oid) returns (i: nat)
    requires V.ListOk(views, list, granted) && Minimal(granted, v)
    ensures i < |list| && views[list[i]] == v
  {
    assert V.Granted(granted, v);
    i :| 0 <= i < |list| && views[list[i]] <= v;
    RootIsMinimal(views, list, granted, i);
  }

  /** What the views of the list offer is what can be reached by the grants. */
  lemma OffersAgree(reg: map<Oid, int>, h: Handlers, views: seq<Oid>, list: seq<ViewId>, granted: set<Oid>, req: Oid)
    requires V.ListOk(views, list, granted)
    ensures OfferedByAll(reg, h, views, list, req) == Reachable(reg, h, granted, req)
  {
    forall o ensures (exists i :: 0 <= i < |list| && Offers(reg, h, views[list[i]], req, o)) <==> Reached(reg, h, granted, req, o) {
      if i :| 0 <= i < |list| && Offers(reg, h, views[list[i]], req, o) {
        RootIsMinimal(views, list, granted, i);
      }
      if Reached(reg, h, granted, req, o) {
        var v :| Minimal(granted, v) && Offers(reg, h, v, req, o);
        var i := MinimalIsRoot(views, list, granted, v);
      }
    }
  }

  lemma ChainDistinct(views: seq<Oid>, list: seq<ViewId>)
    requires InRange(views, list) && Chain(views, list)
    ensures forall i, j :: 0 <= i < j < |list| ==> list[i] != list[j]
  {
    forall i, j | 0 <= i < j < |list| ensures list[i] != list[j] {
      assert After(views[list[i]], views[list[j]]);
    }
  }

  /** A tree whose handlers keep their promise and whose variables fit the buffer. */
  ghost predicate Searchable(tree: MibTree, h: Handlers)
    reads tree
  {
    tree.Valid() && HandlersOk(h) && forall o :: o in All(tree.nodes, tree.at, h) ==> |o| <= OID_MAX_LEN
  }

  /** What every request needs: a tree to search and views that fit the buffer. */
  ghost predicate Ready(tree: MibTree, h: Handlers, table: V.ViewTable)
    reads tree, table
  {
    && Searchable(tree, h) && table.Valid()
    && (forall i :: 0 <= i < |table.views| ==> |table.views[i]| <= BUF_LEN)
  }

  /** Asking for the next view after each one runs through the list in order. */
  method ViewAfter(list: seq<ViewId>, ghost k: nat, view: Option<ViewId>) returns (r: Option<ViewId>)
    requires forall i, j :: 0 <= i < j < |list| ==> list[i] != list[j]
    requires k <= |list| && view == (if k == 0 then None else Some(list[k - 1]))
    ensures r == if k < |list| then Some(list[k]) else None
  {
    r := NextView(list, view);
    if k > 0 {
      assert view == Some(list[k - 1]);
    }
  }

  /** One view of the loop of mib_getnext. */
  method SearchView(tree: MibTree, h: Handlers, v: Oid, req: Oid) returns (r: Option<Oid>, oid: Oid)
    requires Searchable(tree, h) && |v| <= BUF_LEN && |req| <= BUF_LEN
    ensures ViewAnswers(tree.Abs().reg, h, v, req, r)
    ensures oid == if r.Some? then r.value else req
  {
    r, oid := SearchNext(tree, h, v, req);
  }

  /** One turn of the loop of mib_getnext: the next view, and the search below it. */
  method TryView(tree: MibTree, h: Handlers, views: seq<Oid>, list: seq<ViewId>, req: Oid, view: Option<ViewId>, ghost k: nat)
    returns (view': Option<ViewId>, r: Option<Oid>, oid: Oid)
    requires Searchable(tree, h) && InRange(views, list) && Chain(views, list) && |req| <= BUF_LEN
    requires forall i :: 0 <= i < |views| ==> |views[i]| <= BUF_LEN
    requires NoneUpTo(tree.Abs().reg, h, views, list, req, k) && view == if k == 0 then None else Some(list[k - 1])
    ensures view' == if k < |list| then Some(list[k]) else None
    ensures view'.None? || r.Some? ==> FirstAnswer(tree.Abs().reg, h, views, list, req, r, k)
    ensures view'.Some? && r.None? ==> NoneUpTo(tree.Abs().reg, h, views, list, req, k + 1)
    ensures oid == if r.Some? then r.value else req
  {
    ChainDistinct(views, list);
    view' := ViewAfter(list, k, view);
    r, oid := None, req;
    if view'.Some? {
      r, oid := SearchView(tree, h, views[view'.value], req);
      if r.None? {
        NoneMore(tree.Abs().reg, h, views, list, req, k);
      }
    }
  }

  /** The view loop of mib_getnext. */
  method GetNextViews(tree: MibTree, h: Handlers, views: seq<Oid>, list: seq<ViewId>, req: Oid)
    returns (r: Option<Oid>, oid: Oid, ghost k: nat)
    requires Searchable(tree, h) && InRange(views, list) && Chain(views, list) && |req| <= BUF_LEN
    requires forall i :: 0 <= i < |views| ==> |views[i]| <= BUF_LEN
    ensures FirstAnswer(tree.Abs().reg, h, views, list, req, r, k)
    ensures oid == if r.Some? then r.value else req
  {
    k := 0;
    var view;
    view, r, oid := TryView(tree, h, views, list, req, None, 0);
    while view.Some? && r.None?
      invariant k <= |list| && view == if k < |list| then Some(list[k]) else None
      invariant view.None? || r.Some? ==> FirstAnswer(tree.Abs().reg, h, views, list, req, r, k)
      invariant view.Some? && r.None? ==> NoneUpTo(tree.Abs().reg, h, views, list, req, k + 1)
      invariant oid == if r.Some? then r.value else req
      decreases |list| - k
    {
      k := k + 1;
      view, r, oid := TryView(tree, h, views, list, req, view, k);
    }
  }

  /** The answer is the least variable that can be reached above the request; it is the least readable one
      exactly when that one can be reached. */
  ghost predicate AnsweredRight(reg: map<Oid, int>, h: Handlers, granted: set<Oid>, req: Oid, r: Option<Oid>) {
    var readable, reachable := Readable(Instances(reg, h.vars), granted), Reachable(reg, h, granted, req);
    && IsNext(reachable, req, r)
    && (IsNext(readable, req, r) <==> forall o :: IsNext(readable, req, Some(o)) ==> o in reachable)
  }

  /** Comparisons with the views do not mislead the search: no view before the request that compares above it
      has anything to offer, and the least variable that can be reached above the request lies in a view that
      the request is in or compares right with. */
  ghost predicate ComparesTo(reg: map<Oid, int>, h: Handlers, granted: set<Oid>, req: Oid) {
    && (forall v :: Minimal(granted, v) && Less(v, req) && !Placed(v, req) ==> Offered(reg, h, v, req) == {})
    && (forall o, v :: IsNext(Reachable(reg, h, granted, req), req, Some(o)) && Minimal(granted, v) && v <= o ==> Placed(v, req))
  }

  /** Exactly then is the answer the least variable that can be reached; and it is the least readable one
      exactly when, moreover, that one can be reached. */
  ghost predicate AnsweredExactly(reg: map<Oid, int>, h: Handlers, granted: set<Oid>, req: Oid, r: Option<Oid>) {
    var readable, reachable := Readable(Instances(reg, h.vars), granted), Reachable(reg, h, granted, req);
    && (IsNext(reachable, req, r) <==> ComparesTo(reg, h, granted, req))
    && (IsNext(readable, req, r) <==>
          ComparesTo(reg, h, granted, req) && forall o :: IsNext(readable, req, Some(o)) ==> o in reachable)
  }

  lemma ComparesAgree(reg: map<Oid, int>, h: Handlers, views: seq<Oid>, list: seq<ViewId>, granted: set<Oid>, req: Oid)
    requires V.ListOk(views, list, granted)
    ensures Compares(reg, h, views, list, req) <==> ComparesTo(reg, h, granted, req)
  {
    OffersAgree(reg, h, views, list, granted, req);
    forall i | 0 <= i < |list| ensures Minimal(granted, views[list[i]]) {
      RootIsMinimal(views, list, granted, i);
    }
    forall v | Minimal(granted, v) ensures exists i :: 0 <= i < |list| && views[list[i]] == v {
      var i := MinimalIsRoot(views, list, granted, v);
    }
  }

  lemma AnswerExact(reg: map<Oid, int>, h: Handlers, views: seq<Oid>, list: seq<ViewId>, granted: set<Oid>, req: Oid, r: Option<Oid>, k: nat)
    requires V.ListOk(views, list, granted) && FirstAnswer(reg, h, views, list, req, r, k)
    ensures AnsweredExactly(reg, h, granted, req, r)
  {
    FirstExactly(reg, h, views, list, req, r, k);
    MultiViewExact(reg, h, views, list, req, r, k);
    ComparesAgree(reg, h, views, list, granted, req);
    OffersAgree(reg, h, views, list, granted, req);
    ListShows(Instances(reg, h.vars), views, list, granted);
  }

  lemma SmallComparesTo(reg: map<Oid, int>, h: Handlers, views: seq<Oid>, list: seq<ViewId>, granted: set<Oid>, req: Oid)
    requires V.ListOk(views, list, granted) && AllSmall(views) && Small(req)
    ensures ComparesTo(reg, h, granted, req)
  {
    SmallRight(reg, h, views, list, req);
    ComparesAgree(reg, h, views, list, granted, req);
  }

  /** mib_getnext for an SNMPv1 or SNMPv2c community. */
  method GetNext(tree: MibTree, h: Handlers, table: V.ViewTable, name: string, req: Oid)
    returns (oid: Oid, tag: Tag, err: int)
    requires Ready(tree, h, table) && |req| <= BUF_LEN
    ensures name !in table.grants ==> oid == req && tag == AsReceived && err == NO_ACCESS
    ensures name in table.grants ==> err == 0 && (tag == Value || (tag == EndOfMibView && oid == req))
    ensures name in table.grants ==>
      AnsweredExactly(tree.Abs().reg, h, table.grants[name].ro, req, if tag == Value then Some(oid) else None)
    ensures name in table.grants && Small(req) ==>
      && ComparesTo(tree.Abs().reg, h, table.grants[name].ro, req)
      && AnsweredRight(tree.Abs().reg, h, table.grants[name].ro, req, if tag == Value then Some(oid) else None)
  {
    var c := table.CommunitySearch(name);
    if c < 0 {
      return req, AsReceived, NO_ACCESS;
    }
    var list := table.communities[c].ro;
    var r;
    ghost var k;
    r, oid, k := GetNextViews(tree, h, table.views, list, req);
    tag, err := if r.Some? then Value else EndOfMibView, 0;
    AnswerExact(tree.Abs().reg, h, table.views, list, table.grants[name].ro, req, r, k);
    if Small(req) {
      SmallComparesTo(tree.Abs().reg, h, table.views, list, table.grants[name].ro, req);
    }
  }

  /** No later view covers an identifier that precedes this one. */
  lemma AheadOfLater(views: seq<Oid>, list: seq<ViewId>, k: nat, req: Oid, i: nat)
    requires InRange(views, list) && Chain(views, list) && k <= i < |list| && Less(req, views[list[k]])
    ensures !(views[list[i]] <= req)
  {
    if views[list[i]] <= req {
      PrefixLessEq(views[list[i]], req);
      if k < i { LessLessEq(views[list[k]], views[list[i]], req); }
      LessAsymmetric(req, views[list[k]]);
    }
  }

  /** A search below a view finds a variable exactly when the identifier is one and lies in the view. */
  lemma SearchFinds(tree: MibTree, h: Handlers, view: Oid, req: Oid, d: Oid, r: Outcome)
    requires tree.Valid() && HandlersOk(h)
    requires r.OutOfView? <==> !(view <= req)
    requires !r.OutOfView? ==> WalkedTo(tree.nodes, tree.at, req, d, r)
    ensures r.AtHandler? && r.sub in h.vars(r.callback) <==> view <= req && req in All(tree.nodes, tree.at, h)
  {
    if r.AtHandler? {
      VariableBelow(tree.nodes, tree.at, h, d, req);
    }
    if view <= req && req in All(tree.nodes, tree.at, h) {
      var p, s := VariablePlace(tree.nodes, tree.at, h, req);
      assert p in tree.Abs().reg;
      SearchReaches(tree.nodes, tree.at, req, d, r, p);
    }
  }

  /** One view of the loop of mib_get: a hit, or a reason to stop early. */
  method GetOne(tree: MibTree, h: Handlers, v: Oid, req: Oid) returns (hit: bool, ahead: bool)
    requires tree.Valid() && HandlersOk(h)
    ensures hit <==> v <= req && req in All(tree.nodes, tree.at, h)
    ensures ahead <==> CmpValue(req, v) < 0
  {
    var r, d := Search(tree, v, req);
    SearchFinds(tree, h, v, req, d, r);
    hit := r.AtHandler? && r.sub in h.vars(r.callback);
    var cmp := OidCmp(req, v);
    ahead := cmp < 0;
  }

  /** Stopping at the first view the request precedes misses nothing. */
  lemma StopEarly(views: seq<Oid>, list: seq<ViewId>, k: nat, req: Oid)
    requires InRange(views, list) && Chain(views, list) && AllSmall(views) && Small(req) && k < |list|
    requires CmpValue(req, views[list[k]]) < 0
    requires forall i :: 0 <= i < k ==> !(views[list[i]] <= req)
    ensures !Covers(views, list, req)
  {
    CmpOrders(req, views[list[k]]);
    forall i | k <= i < |list| ensures !(views[list[i]] <= req) {
      AheadOfLater(views, list, k, req, i);
    }
  }

  /** The loop gets to a view that covers the request: no earlier one compares above it. */
  ghost predicate GetsTo(views: seq<Oid>, list: seq<ViewId>, req: Oid, k: nat)
    requires InRange(views, list)
  {
    k < |list| && views[list[k]] <= req && forall i :: 0 <= i < k ==> CmpValue(req, views[list[i]]) >= 0
  }

  /** The first `k` views compare below the request and, if it is a variable, do not cover it. */
  ghost predicate PassedUpTo(views: seq<Oid>, list: seq<ViewId>, req: Oid, variable: bool, k: nat)
    requires InRange(views, list)
  {
    && k <= |list| && (forall i :: 0 <= i < k ==> CmpValue(req, views[list[i]]) >= 0)
    && (variable ==> forall i :: 0 <= i < k ==> !(views[list[i]] <= req))
  }

  lemma PassedMore(views: seq<Oid>, list: seq<ViewId>, req: Oid, variable: bool, k: nat)
    requires InRange(views, list) && PassedUpTo(views, list, req, variable, k) && k < |list|
    requires CmpValue(req, views[list[k]]) >= 0 && (variable ==> !(views[list[k]] <= req))
    ensures PassedUpTo(views, list, req, variable, k + 1)
  {
  }

  lemma NeverGets(views: seq<Oid>, list: seq<ViewId>, req: Oid, k: nat)
    requires InRange(views, list) && PassedUpTo(views, list, req, true, k)
    requires k < |list| ==> CmpValue(req, views[list[k]]) < 0 && !(views[list[k]] <= req)
    ensures forall j :: !GetsTo(views, list, req, j)
  {
  }

  /** The view loop of mib_get. */
  method GetViews(tree: MibTree, h: Handlers, views: seq<Oid>, list: seq<ViewId>, req: Oid) returns (found: bool)
    requires tree.Valid() && HandlersOk(h) && InRange(views, list) && Chain(views, list)
    ensures found <==> req in All(tree.nodes, tree.at, h) && exists k :: GetsTo(views, list, req, k)
  {
    ghost var variable := req in All(tree.nodes, tree.at, h);
    ChainDistinct(views, list);
    var view: Option<ViewId> := None;
    ghost var k := 0;
    while true
      invariant PassedUpTo(views, list, req, variable, k)
      invariant view == if k == 0 then None else Some(list[k - 1])
      decreases |list| - k
    {
      view := ViewAfter(list, k, view);
      if view.None? {
        if variable { NeverGets(views, list, req, k); }
        return false;
      }
      var hit, ahead := GetOne(tree, h, views[view.value], req);
      if hit {
        assert GetsTo(views, list, req, k);
        return true;
      }
      if ahead {
        if variable { NeverGets(views, list, req, k); }
        return false;
      }
      PassedMore(views, list, req, variable, k);
      k := k + 1;
    }
  }

  /** No view before the request compares above it. */
  ghost predicate ComparesRight(granted: set<Oid>, req: Oid) {
    forall v :: Minimal(granted, v) && Less(v, req) ==> OrderSafe(req, v)
  }

  lemma GetsToExactly(views: seq<Oid>, list: seq<ViewId>, granted: set<Oid>, req: Oid)
    requires V.ListOk(views, list, granted)
    ensures (exists k :: GetsTo(views, list, req, k)) <==> Covers(views, list, req) && ComparesRight(granted, req)
  {
    if k :| GetsTo(views, list, req, k) {
      forall v | Minimal(granted, v) && Less(v, req) ensures OrderSafe(req, v) {
        var i := MinimalIsRoot(views, list, granted, v);
        EarlierView(views, list, req, k, i);
      }
    }
    if Covers(views, list, req) && ComparesRight(granted, req) {
      var k :| 0 <= k < |list| && views[list[k]] <= req;
      forall i | 0 <= i < k ensures CmpValue(req, views[list[i]]) >= 0 {
        RootIsMinimal(views, list, granted, i);
        ViewsOrdered(views, list, i, k, views[list[i]], req);
        CmpOrders(req, views[list[i]]);
        if Less(req, views[list[i]]) { LessAsymmetric(req, views[list[i]]); }
      }
      assert GetsTo(views, list, req, k);
    }
  }

  /** A view before a request that view `k` covers is an earlier one, or view `k` itself. */
  lemma EarlierView(views: seq<Oid>, list: seq<ViewId>, req: Oid, k: nat, i: nat)
    requires InRange(views, list) && Chain(views, list) && GetsTo(views, list, req, k) && i < |list| && Less(views[list[i]], req)
    ensures OrderSafe(req, views[list[i]])
  {
    CmpOrders(req, views[list[i]]);
    LessAsymmetric(views[list[i]], req);
    if i > k {
      ViewsOrdered(views, list, k, i, req, views[list[i]]);
    } else if i == k {
      PrefixParts(views[list[i]], req);
    }
  }

  lemma PrefixParts(v: Oid, req: Oid)
    requires v <= req
    ensures OrderSafe(req, v)
  {
    CommonLenIs(req, v, |v|);
  }

  /** mib_get for an SNMPv1 or SNMPv2c community: a readable variable is found exactly when no view
      before it compares above it, as below 2^31 none does. */
  method Get(tree: MibTree, h: Handlers, table: V.ViewTable, name: string, req: Oid) returns (found: bool)
    requires Ready(tree, h, table)
    ensures found <==>
      && name in table.grants && req in Readable(All(tree.nodes, tree.at, h), table.grants[name].ro)
      && ComparesRight(table.grants[name].ro, req)
    ensures Small(req) && name in table.grants ==> ComparesRight(table.grants[name].ro, req)
  {
    var c := table.CommunitySearch(name);
    if c < 0 {
      return false;
    }
    var list := table.communities[c].ro;
    GetsToExactly(table.views, list, table.grants[name].ro, req);
    if Small(req) { SmallCompares(table.views, list, table.grants[name].ro, req); }
    found := GetViews(tree, h, table.views, list, req);
  }

  lemma SmallCompares(views: seq<Oid>, list: seq<ViewId>, granted: set<Oid>, req: Oid)
    requires V.ListOk(views, list, granted) && AllSmall(views) && Small(req)
    ensures ComparesRight(granted, req)
  {
    forall v | Minimal(granted, v) ensures OrderSafe(req, v) {
      var i := MinimalIsRoot(views, list, granted, v);
      CmpOrders(req, views[list[i]]);
    }
  }
}
