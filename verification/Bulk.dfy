/** GETBULK chaining and SET on behalf of a community (core/snmp_msg_proc.c:257-320, 389-458). */
module Bulk {
  import opened Oids
  import opened Handlers
  import opened Registries
  import opened TreeShape
  import opened TreeSearch
  import opened TreeNext
  import opened MibTrees
  import opened MibSearch
  import opened ViewLists
  import V = Views
  import opened Reach
  import opened Requests
  import opened Walks

  /** The answer to one GETNEXT by a community that can read what `next` runs through. */
  ghost function Reply(known: bool, next: Oid -> Option<Oid>, q: Oid): (Oid, Tag) {
    if !known then (q, AsReceived)
    else if next(q).Some? then (next(q).value, Value) else (q, EndOfMibView)
  }

  /** What a variable binding holds after `r` rounds. */
  ghost function Held(known: bool, next: Oid -> Option<Oid>, q: Oid, r: nat): Oid {
    if known then Walk(next, q, r) else q
  }

  ghost function Row(known: bool, next: Oid -> Option<Oid>, reqs: seq<Oid>, r: nat, j: nat): seq<(Oid, Tag)>
    requires j <= |reqs|
  {
    if j == 0 then [] else Row(known, next, reqs, r, j - 1) + [Reply(known, next, Held(known, next, reqs[j - 1], r))]
  }

  /** The response: round by round, the reply to each binding. */
  ghost function Rows(known: bool, next: Oid -> Option<Oid>, reqs: seq<Oid>, r: nat): seq<(Oid, Tag)> {
    if r == 0 then [] else Rows(known, next, reqs, r - 1) + Row(known, next, reqs, r - 1, |reqs|)
  }

  lemma {:induction false} RowAt(known: bool, next: Oid -> Option<Oid>, reqs: seq<Oid>, r: nat, k: nat, j: nat)
    requires j < k <= |reqs|
    ensures |Row(known, next, reqs, r, k)| == k
    ensures Row(known, next, reqs, r, k)[j] == Reply(known, next, Held(known, next, reqs[j], r))
    decreases k
  {
    if k - 1 > 0 {
      RowAt(known, next, reqs, r, k - 1, if j < k - 1 then j else 0);
    }
  }

  lemma {:induction false} RowsLength(known: bool, next: Oid -> Option<Oid>, reqs: seq<Oid>, r: nat)
    ensures |Rows(known, next, reqs, r)| == r * |reqs|
  {
    if r > 0 {
      RowsLength(known, next, reqs, r - 1);
      if |reqs| > 0 { RowAt(known, next, reqs, r - 1, |reqs|, 0); }
    }
  }

  /** Output r*n+j is the (r+1)-fold successor of request binding j. */
  lemma {:induction false} RowsAt(known: bool, next: Oid -> Option<Oid>, reqs: seq<Oid>, reps: nat, r: nat, j: nat)
    requires r < reps && j < |reqs|
    ensures r * |reqs| + j < |Rows(known, next, reqs, reps)|
    ensures Rows(known, next, reqs, reps)[r * |reqs| + j] == Reply(known, next, Held(known, next, reqs[j], r))
    ensures known ==> Rows(known, next, reqs, reps)[r * |reqs| + j].0 == Walk(next, reqs[j], r + 1)
    decreases reps
  {
    RowsLength(known, next, reqs, reps - 1);
    if r == reps - 1 {
      RowAt(known, next, reqs, r, |reqs|, j);
    } else {
      RowsAt(known, next, reqs, reps - 1, r, j);
    }
  }

  /** What a GETBULK needs beyond Ready: comparisons with its answers do not wrap. */
  ghost predicate BulkReady(tree: MibTree, h: Handlers, table: V.ViewTable)
    reads tree, table
  {
    Ready(tree, h, table) && forall o :: o in All(tree.nodes, tree.at, h) ==> Small(o)
  }

  /** The answer to each request of the community. */
  ghost function NextFor(tree: MibTree, h: Handlers, table: V.ViewTable, name: string): Oid -> Option<Oid>
    reads tree, table
  {
    Step(tree.Abs().reg, h, V.GrantsOf(table.grants, name).ro)
  }

  /** One GETNEXT inside a GETBULK. */
  method BulkOne(tree: MibTree, h: Handlers, table: V.ViewTable, name: string, req: Oid) returns (oid: Oid, tag: Tag)
    requires BulkReady(tree, h, table) && |req| <= BUF_LEN && Small(req)
    ensures (oid, tag) == Reply(name in table.grants, NextFor(tree, h, table, name), req)
    ensures |oid| <= BUF_LEN && Small(oid)
  {
    var err;
    oid, tag, err := GetNext(tree, h, table, name, req);
    if name in table.grants {
      StepAnswer(tree.Abs().reg, h, table.grants[name].ro, req, if tag == Value then Some(oid) else None);
      assert tag == Value ==> oid in All(tree.nodes, tree.at, h);
    }
  }

  lemma StepAnswer(reg: map<Oid, int>, h: Handlers, granted: set<Oid>, req: Oid, r: Option<Oid>)
    requires AnsweredRight(reg, h, granted, req, r)
    ensures Step(reg, h, granted)(req) == r && (r.Some? ==> r.value in Instances(reg, h.vars))
  {
    StepIs(reg, h, granted, req);
    NextUnique(Reachable(reg, h, granted, req), req, Step(reg, h, granted)(req), r);
  }

  /** In round `r`, the first `j` bindings already hold their new answers. */
  ghost predicate Holding(known: bool, next: Oid -> Option<Oid>, reqs: seq<Oid>, vbs: seq<Oid>, r: nat, j: nat) {
    && |vbs| == |reqs|
    && forall i :: 0 <= i < |reqs| ==>
         vbs[i] == Held(known, next, reqs[i], if i < j then r + 1 else r) && |vbs[i]| <= BUF_LEN && Small(vbs[i])
  }

  lemma HoldNext(known: bool, next: Oid -> Option<Oid>, reqs: seq<Oid>, vbs: seq<Oid>, r: nat, j: nat, oid: Oid, tag: Tag)
    requires Holding(known, next, reqs, vbs, r, j) && j < |reqs|
    requires (oid, tag) == Reply(known, next, vbs[j]) && |oid| <= BUF_LEN && Small(oid)
    ensures Holding(known, next, reqs, vbs[j := oid], r, j + 1)
    ensures Row(known, next, reqs, r, j + 1) == Row(known, next, reqs, r, j) + [(oid, tag)]
  {
  }

  /** One round of snmp_bulkget over the request bindings. */
  method BulkRound(tree: MibTree, h: Handlers, table: V.ViewTable, name: string, vbs: seq<Oid>, ghost reqs: seq<Oid>, ghost r: nat)
    returns (vbs': seq<Oid>, row: seq<(Oid, Tag)>)
    requires BulkReady(tree, h, table)
    requires Holding(name in table.grants, NextFor(tree, h, table, name), reqs, vbs, r, 0)
    ensures Holding(name in table.grants, NextFor(tree, h, table, name), reqs, vbs', r + 1, 0)
    ensures row == Row(name in table.grants, NextFor(tree, h, table, name), reqs, r, |reqs|)
  {
    ghost var known, next := name in table.grants, NextFor(tree, h, table, name);
    vbs', row := vbs, [];
    for j := 0 to |vbs|
      invariant Holding(known, next, reqs, vbs', r, j) && row == Row(known, next, reqs, r, j)
    {
      var oid, tag := BulkOne(tree, h, table, name, vbs'[j]);
      HoldNext(known, next, reqs, vbs', r, j, oid, tag);
      vbs' := vbs'[j := oid];
      row := row + [(oid, tag)];
    }
  }

  /** snmp_bulkget: every binding is asked for again in every round, with the last answer. */
  method BulkGet(tree: MibTree, h: Handlers, table: V.ViewTable, name: string, reqs: seq<Oid>, repeat: nat)
    returns (out: seq<(Oid, Tag)>)
    requires BulkReady(tree, h, table)
    requires forall j :: 0 <= j < |reqs| ==> |reqs[j]| <= BUF_LEN && Small(reqs[j])
    ensures out == Rows(name in table.grants, NextFor(tree, h, table, name), reqs, repeat)
  {
    ghost var known, next := name in table.grants, NextFor(tree, h, table, name);
    var vbs := reqs;
    out := [];
    HoldFirst(known, next, reqs);
    for r := 0 to repeat
      invariant Holding(known, next, reqs, vbs, r, 0) && out == Rows(known, next, reqs, r)
    {
      var row;
      vbs, row := BulkRound(tree, h, table, name, vbs, reqs, r);
      RowAdded(known, next, reqs, r);
      out := out + row;
    }
  }

  lemma HoldFirst(known: bool, next: Oid -> Option<Oid>, reqs: seq<Oid>)
    requires forall j :: 0 <= j < |reqs| ==> |reqs[j]| <= BUF_LEN && Small(reqs[j])
    ensures Holding(known, next, reqs, reqs, 0, 0) && Rows(known, next, reqs, 0) == []
  {
  }

  lemma RowAdded(known: bool, next: Oid -> Option<Oid>, reqs: seq<Oid>, r: nat)
    ensures Rows(known, next, reqs, r + 1) == Rows(known, next, reqs, r) + Row(known, next, reqs, r, |reqs|)
  {
  }

  // ---------------------------------------------------------------------
  // Walks
  // ---------------------------------------------------------------------

  /** What `n` requests of a walk from `q` over the variables `s` are answered with: each member above `q`
      once, in ascending order, and then the end of the view. */
  ghost predicate Walked(s: set<Oid>, q: Oid, out: seq<(Oid, Tag)>) {
    var k := |Above(s, q)|;
    && (forall i :: 0 <= i < |out| ==> out[i].1 == if i < k then Value else EndOfMibView)
    && (forall i, j :: 0 <= i < j < |out| && j < k ==> Less(out[i].0, out[j].0))
    && (forall i :: 0 <= i < |out| && i < k ==> out[i].0 in Above(s, q))
    && (|out| >= k ==> forall o :: o in Above(s, q) ==> exists i :: 0 <= i < k && out[i].0 == o)
  }

  /** The answers are the steps of the walk, with values for the first `k`. */
  ghost predicate Traces(next: Oid -> Option<Oid>, q: Oid, k: nat, out: seq<(Oid, Tag)>) {
    forall i :: 0 <= i < |out| ==> out[i] == (Walk(next, q, i + 1), if i < k then Value else EndOfMibView)
  }

  lemma TracesReplies(s: set<Oid>, next: Oid -> Option<Oid>, q: Oid, out: seq<(Oid, Tag)>)
    requires Completes(s, next, q) && forall i :: 0 <= i < |out| ==> out[i] == Reply(true, next, Walk(next, q, i))
    ensures Traces(next, q, |Above(s, q)|, out)
  {
    forall i | 0 <= i < |out| ensures out[i] == (Walk(next, q, i + 1), if i < |Above(s, q)| then Value else EndOfMibView) {
      WalkedOne(next, q, |Above(s, q)|, i);
    }
  }

  lemma WalkedInside(s: set<Oid>, next: Oid -> Option<Oid>, q: Oid, out: seq<(Oid, Tag)>, i: nat)
    requires Completes(s, next, q) && Traces(next, q, |Above(s, q)|, out) && i < |out| && i < |Above(s, q)|
    ensures out[i].0 in Above(s, q)
  {
    VisitedWalk(next, q, |Above(s, q)|, i + 1);
  }

  lemma WalkedUp(s: set<Oid>, next: Oid -> Option<Oid>, q: Oid, out: seq<(Oid, Tag)>, i: nat, j: nat)
    requires Completes(s, next, q) && Traces(next, q, |Above(s, q)|, out) && i < j < |out| && j < |Above(s, q)|
    ensures Less(out[i].0, out[j].0)
  {
    assert Less(Walk(next, q, i + 1), Walk(next, q, j + 1));
  }

  lemma WalkedAll(s: set<Oid>, next: Oid -> Option<Oid>, q: Oid, out: seq<(Oid, Tag)>)
    requires Completes(s, next, q) && Traces(next, q, |Above(s, q)|, out)
    ensures Walked(s, q, out)
  {
    forall i | 0 <= i < |out| && i < |Above(s, q)| ensures out[i].0 in Above(s, q) {
      WalkedInside(s, next, q, out, i);
    }
    forall i, j | 0 <= i < j < |out| && j < |Above(s, q)| ensures Less(out[i].0, out[j].0) {
      WalkedUp(s, next, q, out, i, j);
    }
    WalkedCovers(s, next, q, out);
  }

  lemma WalkedCovers(s: set<Oid>, next: Oid -> Option<Oid>, q: Oid, out: seq<(Oid, Tag)>)
    requires Completes(s, next, q) && Traces(next, q, |Above(s, q)|, out)
    ensures |out| >= |Above(s, q)| ==> forall o :: o in Above(s, q) ==> exists i :: 0 <= i < |Above(s, q)| && out[i].0 == o
  {
    var k := |Above(s, q)|;
    if |out| >= k {
      forall o | o in Above(s, q) ensures exists i :: 0 <= i < k && out[i].0 == o {
        var i := VisitedIndex(next, q, k, o);
        assert out[i - 1].0 == o;
      }
    }
  }

  lemma WalkedOne(next: Oid -> Option<Oid>, q: Oid, k: nat, i: nat)
    requires forall a, b :: 0 <= a < b <= k ==> Less(Walk(next, q, a), Walk(next, q, b))
    requires forall n :: n >= k ==> next(Walk(next, q, n)) == None
    ensures Reply(true, next, Walk(next, q, i)) == (Walk(next, q, i + 1), if i < k then Value else EndOfMibView)
  {
    if i < k {
      assert Less(Walk(next, q, i), Walk(next, q, i + 1));
      LessIrreflexive(Walk(next, q, i));
    }
  }

  /** After `i` requests from `q` the last answer is `cur`. */
  ghost predicate Asked(known: bool, next: Oid -> Option<Oid>, q: Oid, out: seq<(Oid, Tag)>, i: nat, cur: Oid) {
    && |out| == i && cur == Held(known, next, q, i)
    && forall j :: 0 <= j < i ==> out[j] == Reply(known, next, Held(known, next, q, j))
  }

  lemma AskedOnce(known: bool, next: Oid -> Option<Oid>, q: Oid, out: seq<(Oid, Tag)>, i: nat, cur: Oid, oid: Oid, tag: Tag)
    requires Asked(known, next, q, out, i, cur) && (oid, tag) == Reply(known, next, cur)
    ensures Asked(known, next, q, out + [(oid, tag)], i + 1, oid)
  {
  }

  /** A client that repeats GETNEXT with the last answer. */
  method WalkFrom(tree: MibTree, h: Handlers, table: V.ViewTable, name: string, req: Oid, n: nat) returns (out: seq<(Oid, Tag)>)
    requires BulkReady(tree, h, table) && |req| <= BUF_LEN && Small(req)
    ensures |out| == n
    ensures name in table.grants ==>
      var reg, granted := tree.Abs().reg, table.grants[name].ro;
      Clear(reg, h, granted, req) ==> Walked(Reachable(reg, h, granted, req), req, out)
  {
    ghost var known, next := name in table.grants, NextFor(tree, h, table, name);
    out := [];
    var cur := req;
    for i := 0 to n
      invariant |cur| <= BUF_LEN && Small(cur) && Asked(known, next, req, out, i, cur)
    {
      var oid, tag := BulkOne(tree, h, table, name, cur);
      AskedOnce(known, next, req, out, i, cur, oid, tag);
      out := out + [(oid, tag)];
      cur := oid;
    }
    if known {
      WalkOutput(tree, h, table.grants[name].ro, req, next, out);
    }
  }

  lemma WalkOutput(tree: MibTree, h: Handlers, granted: set<Oid>, req: Oid, next: Oid -> Option<Oid>, out: seq<(Oid, Tag)>)
    requires tree.Valid() && next == Step(tree.Abs().reg, h, granted)
    requires forall j :: 0 <= j < |out| ==> out[j] == Reply(true, next, Walk(next, req, j))
    ensures Clear(tree.Abs().reg, h, granted, req) ==> Walked(Reachable(tree.Abs().reg, h, granted, req), req, out)
  {
    TreeLeaves(tree);
    WalkExactly(tree.Abs().reg, h, granted, req);
    if Clear(tree.Abs().reg, h, granted, req) {
      TracesReplies(Reachable(tree.Abs().reg, h, granted, req), next, req, out);
      WalkedAll(Reachable(tree.Abs().reg, h, granted, req), next, req, out);
    }
  }

  lemma TreeLeaves(tree: MibTree)
    requires tree.Valid()
    ensures Leaves(tree.Abs().reg)
  {
    AbsWf(tree.nodes, tree.at);
    forall p, q | p in tree.Abs().reg && q in tree.Abs().reg && p <= q ensures p == q {
      WfPrefix(tree.Abs(), p, q);
    }
  }

  // ---------------------------------------------------------------------
  // SET
  // ---------------------------------------------------------------------

  /** A handler call: callback and sub-identifier. */
  type Call = (int, Oid)

  /** `req` lies strictly below the registered identifier `p`. */
  ghost predicate Below(reg: map<Oid, int>, p: Oid, req: Oid) {
    p in reg && p <= req && p != req
  }

  ghost predicate HasHandler(reg: map<Oid, int>, req: Oid) {
    exists p :: Below(reg, p, req)
  }

  /** The call goes to the handler registered above `req`, with the rest of `req`. */
  ghost predicate RightCall(reg: map<Oid, int>, req: Oid, call: Call) {
    exists p :: Below(reg, p, req) && call == (reg[p], req[|p|..])
  }

  /** One view of the loop of mib_set: the handler runs if the walk reaches it. */
  method SetOne(tree: MibTree, v: Oid, req: Oid) returns (call: Option<Call>)
    requires tree.Valid()
    ensures call.Some? <==> v <= req && HasHandler(tree.Abs().reg, req)
    ensures call.Some? ==> RightCall(tree.Abs().reg, req, call.value)
  {
    var r, d := Search(tree, v, req);
    if !r.OutOfView? {
      SearchReaches(tree.nodes, tree.at, req, d, r, d);
      if p :| Below(tree.Abs().reg, p, req) {
        SearchReaches(tree.nodes, tree.at, req, d, r, p);
      }
    }
    if r.AtHandler? {
      assert Below(tree.Abs().reg, d, req);
      call := Some((r.callback, r.sub));
    } else {
      call := None;
    }
  }

  /** After the first `k` views: no call yet and none due, or the one call a view allowed. */
  ghost predicate SetSoFar(reg: map<Oid, int>, views: seq<Oid>, list: seq<ViewId>, req: Oid, k: nat, calls: seq<Call>)
    requires InRange(views, list) && k <= |list|
  {
    if calls == [] then HasHandler(reg, req) ==> forall i :: 0 <= i < k ==> !(views[list[i]] <= req)
    else |calls| == 1 && RightCall(reg, req, calls[0]) && exists i :: 0 <= i < k && views[list[i]] <= req
  }

  /** View `k` makes the call or not; only one view of a chain ever does. */
  lemma SetTurn(reg: map<Oid, int>, views: seq<Oid>, list: seq<ViewId>, req: Oid, k: nat, calls: seq<Call>, call: Option<Call>)
    requires InRange(views, list) && Chain(views, list) && k < |list| && SetSoFar(reg, views, list, req, k, calls)
    requires call.Some? <==> views[list[k]] <= req && HasHandler(reg, req)
    requires call.Some? ==> RightCall(reg, req, call.value)
    ensures SetSoFar(reg, views, list, req, k + 1, calls + if call.Some? then [call.value] else [])
  {
    if calls != [] && call.Some? {
      var i :| 0 <= i < k && views[list[i]] <= req;
      ChainDisjoint(views, list, i, k, req);
    } else if calls != [] {
      assert calls + [] == calls;
    }
  }

  /** The view loop of mib_set; `accepts` is the handler's verdict on each call. */
  method SetViews(tree: MibTree, table: V.ViewTable, list: seq<ViewId>, req: Oid, accepts: Call -> bool)
    returns (calls: seq<Call>)
    requires tree.Valid() && table.Valid() && InRange(table.views, list) && Chain(table.views, list)
    ensures |calls| <= 1
    ensures |calls| == 1 ==> Covers(table.views, list, req) && RightCall(tree.Abs().reg, req, calls[0])
    ensures Small(req) && Covers(table.views, list, req) && HasHandler(tree.Abs().reg, req) ==> |calls| == 1
  {
    ghost var views, reg := table.views, tree.Abs().reg;
    ChainDistinct(views, list);
    var view: Option<ViewId> := None;
    ghost var k := 0;
    calls := [];
    while true
      invariant k <= |list| && view == (if k == 0 then None else Some(list[k - 1]))
      invariant SetSoFar(reg, views, list, req, k, calls)
      decreases |list| - k
    {
      view := ViewAfter(list, k, view);
      if view.None? {
        return;
      }
      var v := table.views[view.value];
      var call := SetOne(tree, v, req);
      SetTurn(reg, views, list, req, k, calls, call);
      calls := calls + if call.Some? then [call.value] else [];
      var cmp := OidCmp(req, v);
      if call.Some? && accepts(call.value) {
        return;
      }
      if cmp < 0 {
        if Small(req) && calls == [] && HasHandler(reg, req) { StopEarly(views, list, k, req); }
        return;
      }
      k := k + 1;
    }
  }

  /** mib_set for an SNMPv1 or SNMPv2c community: at most one handler call, and only below a subtree
      granted for writing. */
  method Set(tree: MibTree, table: V.ViewTable, name: string, req: Oid, accepts: Call -> bool)
    returns (calls: seq<Call>, noAccess: bool)
    requires tree.Valid() && table.Valid()
    ensures |calls| <= 1
    ensures |calls| == 1 ==> RightCall(tree.Abs().reg, req, calls[0])
    ensures |calls| == 1 ==> name in table.grants && V.Granted(table.grants[name].rw, req) && V.Granted(table.grants[name].ro, req)
    ensures noAccess <==> name !in table.grants || !V.Granted(table.grants[name].rw, req)
    ensures noAccess <==> !V.CanWrite(table.views, table.communities, name, req)
    ensures |calls| == 1 ==> V.CanWrite(table.views, table.communities, name, req) && V.CanRead(table.views, table.communities, name, req)
    ensures Small(req) ==> (|calls| == 1 <==> !noAccess && HasHandler(tree.Abs().reg, req))
  {
    V.ListsAgree(table.views, table.communities, table.grants, name, req);
    calls, noAccess := [], true;
    var c := table.CommunitySearch(name);
    if c >= 0 {
      var list := table.communities[c].rw;
      assert V.CommunityOk(table.views, table.communities[c], table.grants[name]);
      var covered := ViewCover(table.views, list, req);
      if covered {
        calls := SetViews(tree, table, list, req, accepts);
        noAccess := false;
      }
    }
  }
}
