/** The traversal loop of mib_tree_search_next (core/mib_tree.c:374-498). */
module TreeNext {
  import opened Oids
  import opened Positions
  import opened MibNodes
  import opened TreeShape
  import opened TreeDelete
  import opened Handlers
  import opened TreeSearch

  /** Room in a duplicated identifier (ASN1_VALUE_MAX_LEN). */
  const BUF_LEN := 1024

  /** The loop variables: current node, `n_idx` of the entry just popped, backlog, search mode, what is
      left of the request, and the identifier buffer with its cursor. */
  datatype Trail = Trail(node: Ptr, popped: Option<int>, stack: seq<Backlog>, immediate: bool, idLen: nat,
                         buf: Oid, cur: nat)

  /** What is backlogged at a group when its child `i` is entered. */
  function Later(g: Node, node: Ptr, i: nat): Backlog
    requires g.Group?
  {
    if i + 1 >= g.cnt then Backlog(NULL, 0) else Backlog(node, i + 1)
  }

  ghost predicate LaterOk(nodes: Arena, at: map<Oid, Ptr>, e: Backlog, c: Oid, l: nat)
    requires l < |c|
  {
    && c[..l] in at && at[c[..l]] in nodes && nodes[at[c[..l]]].Group? && GroupOk(nodes[at[c[..l]]])
    && exists i :: 0 <= i < nodes[at[c[..l]]].cnt && nodes[at[c[..l]]].subId[i] == c[l]
                   && e == Later(nodes[at[c[..l]]], at[c[..l]], i)
  }

  ghost predicate TrailStack(nodes: Arena, at: map<Oid, Ptr>, d: Oid, c: Oid, stack: seq<Backlog>) {
    && d <= c && |stack| == |c| - |d|
    && forall j :: 0 <= j < |stack| ==> LaterOk(nodes, at, stack[j], c, |d| + j)
  }

  lemma PushLater(nodes: Arena, at: map<Oid, Ptr>, d: Oid, c: Oid, stack: seq<Backlog>, i: nat)
    requires TrailStack(nodes, at, d, c, stack)
    requires c in at && at[c] in nodes && nodes[at[c]].Group? && GroupOk(nodes[at[c]]) && i < nodes[at[c]].cnt
    ensures TrailStack(nodes, at, d, c + [nodes[at[c]].subId[i]], stack + [Later(nodes[at[c]], at[c], i)])
  {
    var g := nodes[at[c]];
    var c', stack' := c + [g.subId[i]], stack + [Later(g, at[c], i)];
    assert c'[..|c|] == c;
    forall j | 0 <= j < |stack'| ensures LaterOk(nodes, at, stack'[j], c', |d| + j) {
      if j < |stack| {
        assert LaterOk(nodes, at, stack[j], c, |d| + j);
        assert c'[..|d| + j] == c[..|d| + j];
      }
    }
  }

  lemma PopLater(nodes: Arena, at: map<Oid, Ptr>, d: Oid, c: Oid, stack: seq<Backlog>) returns (i: nat)
    requires TrailStack(nodes, at, d, c, stack) && stack != []
    ensures c != [] && TrailStack(nodes, at, d, Up(c), stack[..|stack| - 1])
    ensures Up(c) in at && at[Up(c)] in nodes && nodes[at[Up(c)]].Group? && GroupOk(nodes[at[Up(c)]])
    ensures i < nodes[at[Up(c)]].cnt && Up(c) + [nodes[at[Up(c)]].subId[i]] == c
    ensures stack[|stack| - 1] == Later(nodes[at[Up(c)]], at[Up(c)], i)
  {
    var c', stack' := Up(c), stack[..|stack| - 1];
    forall j | 0 <= j < |stack'| ensures LaterOk(nodes, at, stack'[j], c', |d| + j) {
      assert LaterOk(nodes, at, stack[j], c, |d| + j);
      assert c'[..|d| + j] == c[..|d| + j];
    }
    assert LaterOk(nodes, at, stack[|stack| - 1], c, |c| - 1);
    var g := nodes[at[c']];
    i :| 0 <= i < g.cnt && g.subId[i] == c[|c| - 1] && stack[|stack| - 1] == Later(g, at[c'], i);
    assert c == c' + [g.subId[i]];
  }

  /** What the search mode promises about the node at `c`. */
  ghost predicate ModeOk(n: Node, q: Oid, s: Trail, c: Oid, lo: int) {
    && (n.Instance? ==> s.popped.None? && lo == 0 && (s.immediate ==> LessEq(q, c)))
    && (n.Group? ==>
          && GroupOk(n)
          && (s.popped.None? && n.cnt > 0 ==> lo <= n.subId[0])
          && (s.popped.Some? ==> s.immediate && 0 < s.popped.value < n.cnt && lo == n.subId[s.popped.value])
          && (s.immediate ==> forall x: SubId :: x >= lo ==> Less(q, c + [x])))
    && (!s.immediate ==>
          && lo == 0 && s.popped.None? && c <= q && |q| == |c| + s.idLen && |q| <= |s.buf| && q == s.buf[..|q|]
          && (n.Group? ==> s.idLen > 0))
  }

  /** The buffer holds the current path, and the cursor is the start depth plus the backlog size. */
  ghost predicate BufOk(s: Trail, d: Oid, c: Oid) {
    |s.buf| == BUF_LEN && |c| <= OID_MAX_LEN && s.buf[..|c|] == c && s.cur == |d| + |s.stack|
  }

  /** The fixed data of one search: the tree, the view and the request it runs with, from start node `d`. */
  ghost predicate SearchOk(nodes: Arena, at: map<Oid, Ptr>, h: Handlers, view: Oid, d: Oid, q: Oid) {
    && TreeOk(nodes, at) && HandlersOk(h) && Scoped(nodes, at, view, d, q)
    && forall o :: o in All(nodes, at, h) ==> |o| <= OID_MAX_LEN
  }

  /** The search stands on path `c`, whose children below `lo` are done. */
  ghost predicate TrailOk(nodes: Arena, at: map<Oid, Ptr>, h: Handlers, view: Oid, d: Oid, q: Oid, s: Trail, c: Oid, lo: int) {
    && c in at && at[c] in nodes && d <= c
    && OnTrack(Lit(nodes, at, h, q), view, q, c, lo)
    && BufOk(s, d, c)
    && (s.node != NULL ==> s.node == at[c] && ModeOk(nodes[at[c]], q, s, c, lo) && TrailStack(nodes, at, d, c, s.stack))
    && (s.node == NULL ==>
          && lo == TWO32 && NoneBelow(Lit(nodes, at, h, q), view, q, c)
          && (TrailStack(nodes, at, d, c, s.stack)
              || (s.stack != [] && s.stack[|s.stack| - 1] == Backlog(NULL, 0) && nodes[at[c]].Group?
                  && TrailStack(nodes, at, d, c, s.stack[..|s.stack| - 1]))))
  }

  /** The backlog never exceeds 64 entries, and the cursor is the start depth plus its size. */
  lemma BacklogBound(nodes: Arena, at: map<Oid, Ptr>, h: Handlers, view: Oid, d: Oid, q: Oid, s: Trail, c: Oid, lo: int)
    requires TreeOk(nodes, at) && TrailOk(nodes, at, h, view, d, q, s, c, lo)
    ensures |s.stack| <= OID_MAX_LEN && s.cur == |d| + |s.stack| <= OID_MAX_LEN
  {
    assert PathOk(nodes, at, c);
  }

  /** Orders the steps the search takes without moving to another path. */
  function Phase(s: Trail, c: Oid, d: Oid): nat {
    if s.node != NULL then (if s.immediate then 3 else 4)
    else if |s.stack| + |d| > |c| then 2 else 1
  }

  /** The search has come closer to its end. */
  ghost predicate Closer(at: map<Oid, Ptr>, d: Oid, s: Trail, c: Oid, lo: int, s': Trail, c': Oid, lo': int) {
    || Todo(at, c', lo') < Todo(at, c, lo)
    || (Todo(at, c', lo') <= Todo(at, c, lo) && (|c'| < |c| || (c' == c && Phase(s', c', d) < Phase(s, c, d))))
  }

  lemma BelowRequest(q: Oid, c: Oid)
    requires LessEq(q, c)
    ensures forall x: SubId :: Less(q, c + [x])
  {
    forall x: SubId ensures Less(q, c + [x]) {
      PrefixLess(c, c + [x]);
      LessLessEq(q, c, c + [x]);
    }
  }

  /** The child at index `i` of group `c`, and how much is left to visit once there. */
  lemma KidAt(nodes: Arena, at: map<Oid, Ptr>, c: Oid, lo: int, i: nat)
    requires TreeOk(nodes, at) && c in at && at[c] in nodes && nodes[at[c]].Group? && GroupOk(nodes[at[c]])
    requires i < nodes[at[c]].cnt && lo <= nodes[at[c]].subId[i]
    ensures var d := c + [nodes[at[c]].subId[i]];
      && d in at && at[d] == nodes[at[c]].subPtr[i] && at[d] in nodes && at[d] != NULL && PathOk(nodes, at, d)
      && |d| <= OID_MAX_LEN && Todo(at, d, 0) < Todo(at, c, lo)
  {
    var x := nodes[at[c]].subId[i];
    assert PathOk(nodes, at, c) && IsKid(nodes[at[c]], x, nodes[at[c]].subPtr[i]);
    assert PathOk(nodes, at, c + [x]);
    forall p | p in at && Ahead(c + [x], 0, p) ensures Ahead(c, lo, p) {
      AheadDown(c, lo, x, p);
    }
    StrictlyFewerTodo(at, c, lo, c + [x], 0, c + [x]);
  }

  /** The trail after entering child `i` of group `g`: backlog `g`, write the sub-identifier, go down. */
  function Down(g: Node, s: Trail, i: nat, immediate: bool, idLen: nat): Trail
    requires g.Group? && i < |g.subId| && i < |g.subPtr| && s.cur < |s.buf|
  {
    Trail(g.subPtr[i], None, s.stack + [Later(g, s.node, i)], immediate, idLen, s.buf[s.cur := g.subId[i]], s.cur + 1)
  }

  lemma DownBuf(g: Node, s: Trail, i: nat, immediate: bool, idLen: nat, d: Oid, c: Oid)
    requires g.Group? && i < |g.subId| && i < |g.subPtr| && BufOk(s, d, c) && |c| < OID_MAX_LEN && s.cur == |c|
    ensures BufOk(Down(g, s, i, immediate, idLen), d, c + [g.subId[i]])
  {
    assert s.buf[s.cur := g.subId[i]][..|c| + 1] == s.buf[..|c|] + [g.subId[i]];
  }

  lemma DownMode(n: Node, q: Oid, s: Trail, s': Trail, c: Oid, x: SubId)
    requires s'.popped == None && |s.buf| == |s'.buf| == BUF_LEN && |c| < OID_MAX_LEN && s'.buf == s.buf[|c| := x]
    requires n.Group? ==> GroupOk(n)
    requires s'.immediate ==> LessEq(q, c + [x])
    requires !s'.immediate ==>
      && c <= q && |q| == |c| + s'.idLen + 1 && |q| <= |s.buf| && q == s.buf[..|q|] && q[|c|] == x
      && (n.Group? ==> s'.idLen > 0)
    ensures ModeOk(n, q, s', c + [x], 0)
  {
    if s'.immediate {
      BelowRequest(q, c + [x]);
    } else {
      assert q[..|c| + 1] == c + [x];
      assert s'.buf[..|q|] == s.buf[..|q|];
    }
  }

  /** Enters child `i` of the group under the cursor. */
  method Descend(nodes: Arena, s: Trail, i: nat, immediate: bool, idLen: nat, ghost at: map<Oid, Ptr>, ghost h: Handlers,
                 ghost view: Oid, ghost d: Oid, ghost q: Oid, ghost c: Oid, ghost lo: int)
    returns (s': Trail)
    requires SearchOk(nodes, at, h, view, d, q) && TrailOk(nodes, at, h, view, d, q, s, c, lo) && s.node != NULL
    requires nodes[s.node].Group? && i < nodes[s.node].cnt && lo <= nodes[s.node].subId[i]
    requires Floor(Lit(nodes, at, h, q), view, q, c, nodes[s.node].subId[i])
    requires immediate ==> LessEq(q, c + [nodes[s.node].subId[i]])
    requires !immediate ==> !s.immediate && s.idLen == idLen + 1 && nodes[s.node].subId[i] == q[|c|]
    requires !immediate && idLen == 0 ==> nodes[s.node].subPtr[i] in nodes && nodes[nodes[s.node].subPtr[i]].Instance?
    ensures TrailOk(nodes, at, h, view, d, q, s', c + [nodes[s.node].subId[i]], 0)
    ensures Todo(at, c + [nodes[s.node].subId[i]], 0) < Todo(at, c, lo)
  {
    ghost var x := nodes[s.node].subId[i];
    KidAt(nodes, at, c, lo, i);
    assert |s.stack| < OID_MAX_LEN;
    s' := Down(nodes[s.node], s, i, immediate, idLen);
    PushLater(nodes, at, d, c, s.stack, i);
    DownBuf(nodes[s.node], s, i, immediate, idLen, d, c);
    DownMode(nodes[at[c + [x]]], q, s, s', c, x);
    if !immediate { assert c + [x] <= q; }
    TrackDown(nodes, at, h, view, q, c, lo, x);
  }

  /** An emptied group leads to no node. */
  method EnterEmpty(nodes: Arena, s: Trail, ghost at: map<Oid, Ptr>, ghost h: Handlers,
                    ghost view: Oid, ghost d: Oid, ghost q: Oid, ghost c: Oid, ghost lo: int)
    returns (s': Trail)
    requires SearchOk(nodes, at, h, view, d, q) && TrailOk(nodes, at, h, view, d, q, s, c, lo) && s.node != NULL
    requires nodes[s.node].Group? && nodes[s.node].cnt == 0
    ensures TrailOk(nodes, at, h, view, d, q, s', c, TWO32) && Closer(at, d, s, c, lo, s', c, TWO32)
  {
    assert PathOk(nodes, at, c);
    s' := Down(nodes[s.node], s, 0, true, s.idLen);
    EmptyBelow(nodes, at, h, view, q, c, lo);
    assert s'.stack[..|s'.stack| - 1] == s.stack;
    assert s'.buf[..|c|] == s.buf[..|c|];
  }

  /** In immediate mode: the child to resume at, or the first one. */
  method EnterImmediate(nodes: Arena, s: Trail, ghost at: map<Oid, Ptr>, ghost h: Handlers,
                        ghost view: Oid, ghost d: Oid, ghost q: Oid, ghost c: Oid, ghost lo: int)
    returns (s': Trail, ghost c': Oid, ghost lo': int)
    requires SearchOk(nodes, at, h, view, d, q) && TrailOk(nodes, at, h, view, d, q, s, c, lo) && s.node != NULL
    requires nodes[s.node].Group? && s.immediate
    ensures TrailOk(nodes, at, h, view, d, q, s', c', lo') && Closer(at, d, s, c, lo, s', c', lo')
  {
    var g := nodes[s.node];
    var i := if s.popped.Some? then s.popped.value else 0;
    if g.cnt == 0 {
      s' := EnterEmpty(nodes, s, at, h, view, d, q, c, lo);
      c', lo' := c, TWO32;
    } else {
      FloorResumed(nodes, at, h, view, q, c, lo, i);
      s' := Descend(nodes, s, i, true, s.idLen, at, h, view, d, q, c, lo);
      c', lo' := c + [g.subId[i]], 0;
    }
  }

  lemma EmptyBelow(nodes: Arena, at: map<Oid, Ptr>, h: Handlers, view: Oid, q: Oid, c: Oid, lo: int)
    requires TreeOk(nodes, at) && HandlersOk(h) && OnTrack(Lit(nodes, at, h, q), view, q, c, lo)
    requires c in at && at[c] in nodes && nodes[at[c]].Group? && nodes[at[c]].cnt == 0
    ensures NoneBelow(Lit(nodes, at, h, q), view, q, c) && OnTrack(Lit(nodes, at, h, q), view, q, c, TWO32)
    ensures Todo(at, c, TWO32) <= Todo(at, c, lo)
  {
    forall o | Target(Lit(nodes, at, h, q), view, q, o) ensures After(c, o) {
      if c <= o { var j := VariableKid(nodes, at, h, c, o); }
    }
    forall p | p in at && Ahead(c, TWO32, p) ensures Ahead(c, lo, p) {
    }
    FewerTodo(at, c, lo, c, TWO32);
  }

  /** The request's own sub-identifier is child `i`. */
  method EnterFound(nodes: Arena, s: Trail, i: nat, ghost at: map<Oid, Ptr>, ghost h: Handlers,
                    ghost view: Oid, ghost d: Oid, ghost q: Oid, ghost c: Oid)
    returns (s': Trail)
    requires SearchOk(nodes, at, h, view, d, q) && TrailOk(nodes, at, h, view, d, q, s, c, 0) && s.node != NULL
    requires nodes[s.node].Group? && !s.immediate && i < nodes[s.node].cnt && nodes[s.node].subId[i] == q[|c|]
    requires Floor(Lit(nodes, at, h, q), view, q, c, q[|c|])
    ensures TrailOk(nodes, at, h, view, d, q, s', c + [q[|c|]], 0) && Todo(at, c + [q[|c|]], 0) < Todo(at, c, 0)
  {
    KidAt(nodes, at, c, 0, i);
    var immediate := s.idLen == 1 && nodes[nodes[s.node].subPtr[i]].Group?;
    if immediate { LastStep(q, c); }
    s' := Descend(nodes, s, i, immediate, s.idLen - 1, at, h, view, d, q, c, 0);
  }

  /** All children are above the request: take the first in immediate mode. */
  method EnterSwitched(nodes: Arena, s: Trail, ghost at: map<Oid, Ptr>, ghost h: Handlers,
                       ghost view: Oid, ghost d: Oid, ghost q: Oid, ghost c: Oid)
    returns (s': Trail)
    requires SearchOk(nodes, at, h, view, d, q) && TrailOk(nodes, at, h, view, d, q, s, c, 0) && s.node != NULL
    requires nodes[s.node].Group? && !s.immediate && nodes[s.node].cnt > 0 && q[|c|] < nodes[s.node].subId[0]
    requires Floor(Lit(nodes, at, h, q), view, q, c, nodes[s.node].subId[0])
    ensures TrailOk(nodes, at, h, view, d, q, s', c, nodes[s.node].subId[0])
    ensures Closer(at, d, s, c, 0, s', c, nodes[s.node].subId[0])
  {
    s' := s.(immediate := true);
    SwitchMode(nodes, at, h, view, q, c, 0);
  }

  /** The search in the group's sub-identifiers for that of the request. */
  method FindRequested(nodes: Arena, s: Trail, ghost at: map<Oid, Ptr>, ghost h: Handlers,
                       ghost view: Oid, ghost d: Oid, ghost q: Oid, ghost c: Oid)
    returns (index: int, i: nat)
    requires SearchOk(nodes, at, h, view, d, q) && TrailOk(nodes, at, h, view, d, q, s, c, 0) && s.node != NULL
    requires nodes[s.node].Group? && !s.immediate
    ensures i == (if index < 0 then -index - 1 else index) && i <= nodes[s.node].cnt
    ensures index >= 0 ==> i < nodes[s.node].cnt && nodes[s.node].subId[i] == q[|c|]
    ensures index < 0 && i < nodes[s.node].cnt ==> q[|c|] < nodes[s.node].subId[i]
    ensures if i < nodes[s.node].cnt then Floor(Lit(nodes, at, h, q), view, q, c, nodes[s.node].subId[i])
            else NoneBelow(Lit(nodes, at, h, q), view, q, c)
  {
    var g := nodes[s.node];
    assert s.buf[s.cur] == s.buf[..|q|][|c|] == q[|c|];
    index := BinarySearch(g.subId, g.cnt, s.buf[s.cur]);
    i := if index < 0 then -index - 1 else index;
    FloorRequested(nodes, at, h, view, q, c, i);
  }

  /** Following the request: its sub-identifier, else the next one up; `stuck` when there is none. */
  method EnterRequested(nodes: Arena, s: Trail, ghost at: map<Oid, Ptr>, ghost h: Handlers,
                        ghost view: Oid, ghost d: Oid, ghost q: Oid, ghost c: Oid)
    returns (stuck: bool, s': Trail, ghost c': Oid, ghost lo': int)
    requires SearchOk(nodes, at, h, view, d, q) && TrailOk(nodes, at, h, view, d, q, s, c, 0) && s.node != NULL
    requires nodes[s.node].Group? && !s.immediate
    ensures stuck ==> NoneBelow(Lit(nodes, at, h, q), view, q, c)
    ensures !stuck ==> TrailOk(nodes, at, h, view, d, q, s', c', lo') && Closer(at, d, s, c, 0, s', c', lo')
  {
    stuck, s', c', lo' := false, s, c, 0;
    var index, i := FindRequested(nodes, s, at, h, view, d, q, c);
    if index >= 0 {
      s' := EnterFound(nodes, s, i, at, h, view, d, q, c);
      c' := c + [q[|c|]];
    } else if i == nodes[s.node].cnt {
      stuck := true;
    } else if i == 0 {
      s' := EnterSwitched(nodes, s, at, h, view, d, q, c);
      lo' := nodes[s.node].subId[0];
    } else {
      RequestBefore(q, c, nodes[s.node].subId[i]);
      s' := Descend(nodes, s, i, true, s.idLen - 1, at, h, view, d, q, c, 0);
      c' := c + [nodes[s.node].subId[i]];
    }
  }

  lemma LastStep(q: Oid, c: Oid)
    requires c <= q && |q| == |c| + 1
    ensures q == c + [q[|c|]]
  {
  }

  lemma RequestBefore(q: Oid, c: Oid, x: SubId)
    requires c <= q && |c| < |q| && q[|c|] < x
    ensures Less(q, c + [x])
  {
    assert q[..|c|] == c == (c + [x])[..|c|];
    LessAt(q, c + [x], |c|);
  }

  /** All children of `c` are above the request: it need not be followed any further. */
  lemma SwitchMode(nodes: Arena, at: map<Oid, Ptr>, h: Handlers, view: Oid, q: Oid, c: Oid, lo: int)
    requires OnTrack(Lit(nodes, at, h, q), view, q, c, lo) && c <= q && |c| < |q|
    requires c in at && at[c] in nodes && nodes[at[c]].Group? && GroupOk(nodes[at[c]]) && nodes[at[c]].cnt > 0
    requires q[|c|] < nodes[at[c]].subId[0] && lo <= nodes[at[c]].subId[0]
    requires Floor(Lit(nodes, at, h, q), view, q, c, nodes[at[c]].subId[0])
    ensures OnTrack(Lit(nodes, at, h, q), view, q, c, nodes[at[c]].subId[0])
    ensures forall x: SubId :: x >= nodes[at[c]].subId[0] ==> Less(q, c + [x])
    ensures Todo(at, c, nodes[at[c]].subId[0]) <= Todo(at, c, lo)
  {
    forall x: SubId | x >= nodes[at[c]].subId[0] ensures Less(q, c + [x]) {
      RequestBefore(q, c, x);
    }
    forall p | p in at && Ahead(c, nodes[at[c]].subId[0], p) ensures Ahead(c, lo, p) {
    }
    FewerTodo(at, c, lo, c, nodes[at[c]].subId[0]);
  }

  /** `w` copied into the buffer at the cursor. */
  function Written(buf: Oid, cur: nat, w: Oid): Oid
    requires cur + |w| <= |buf|
  {
    buf[..cur] + w + buf[cur + |w|..]
  }

  lemma MakesAsk(nodes: Arena, at: map<Oid, Ptr>, h: Handlers, view: Oid, d: Oid, q: Oid, s: Trail, c: Oid)
    requires SearchOk(nodes, at, h, view, d, q) && TrailOk(nodes, at, h, view, d, q, s, c, 0)
    requires s.node != NULL && nodes[s.node].Instance?
    ensures s.cur == |c| && (!s.immediate ==> s.cur + s.idLen <= BUF_LEN)
    ensures Asks(nodes, at, h, view, q, c, if s.immediate || s.idLen == 0 then [] else s.buf[s.cur..s.cur + s.idLen])
  {
    if !s.immediate {
      assert q == q[..|c|] + q[|c|..];
      assert q[|c|..] == s.buf[|c|..|q|];
    }
  }

  /** The handler answered `w`: the answer if it lies in the view. */
  method TakeAnswer(nodes: Arena, h: Handlers, view: Oid, s: Trail, w: Oid, ghost at: map<Oid, Ptr>,
                    ghost d: Oid, ghost q: Oid, ghost c: Oid, ghost sub: Oid)
    returns (r: Option<Oid>, buf: Oid)
    requires SearchOk(nodes, at, h, view, d, q) && d <= c && s.cur == |c| <= |s.buf| == BUF_LEN && s.buf[..|c|] == c
    requires Asks(nodes, at, h, view, q, c, sub) && h.next(nodes[at[c]].callback, sub) == Some(w)
    ensures r.Some? ==> IsNext(Visible(Lit(nodes, at, h, q), view), q, r)
    ensures r.None? ==> NoneBelow(Lit(nodes, at, h, q), view, q, c)
    ensures |buf| == BUF_LEN && buf[..|c|] == c
  {
    AskSome(nodes, at, h, view, q, c, sub, w);
    assert s.cur + |w| <= OID_MAX_LEN;
    buf := Written(s.buf, s.cur, w);
    assert buf[..|c|] == c && buf[..s.cur + |w|] == c + w;
    var cover := OidCover(view, buf[..s.cur + |w|]);
    if !(view <= c + w) {
      AskOutside(nodes, at, h, view, d, q, c, sub, w);
    }
    r := if cover != 0 then Some(buf[..s.cur + |w|]) else None;
  }

  /** The instance case: ask the handler; an answer outside the view counts as none. */
  method AskHandler(nodes: Arena, h: Handlers, view: Oid, s: Trail, ghost at: map<Oid, Ptr>,
                    ghost d: Oid, ghost q: Oid, ghost c: Oid)
    returns (r: Option<Oid>, buf: Oid)
    requires SearchOk(nodes, at, h, view, d, q) && TrailOk(nodes, at, h, view, d, q, s, c, 0)
    requires s.node != NULL && nodes[s.node].Instance?
    ensures r.Some? ==> IsNext(Visible(Lit(nodes, at, h, q), view), q, r)
    ensures r.None? ==> NoneBelow(Lit(nodes, at, h, q), view, q, c)
    ensures |buf| == BUF_LEN && buf[..|c|] == c
  {
    MakesAsk(nodes, at, h, view, d, q, s, c);
    var sub := if s.immediate || s.idLen == 0 then [] else s.buf[s.cur..s.cur + s.idLen];
    var a := h.next(nodes[s.node].callback, sub);
    if a.None? {
      AskNone(nodes, at, h, view, q, c, sub);
      r, buf := None, s.buf;
    } else {
      r, buf := TakeAnswer(nodes, h, view, s, a.value, at, d, q, c, sub);
    }
  }

  /** Nothing is left under the start node: no candidate exists. */
  lemma NoCandidate(nodes: Arena, at: map<Oid, Ptr>, h: Handlers, view: Oid, d: Oid, q: Oid)
    requires SearchOk(nodes, at, h, view, d, q) && NoneBelow(Lit(nodes, at, h, q), view, q, d)
    ensures IsNext(Visible(Lit(nodes, at, h, q), view), q, None)
  {
    forall o | o in Visible(Lit(nodes, at, h, q), view) ensures !Less(q, o) {
      assert d <= o;
      assert Less(q, o) ==> Target(Lit(nodes, at, h, q), view, q, o);
    }
  }

  /** The trail after popping the backlog. */
  function Popped(s: Trail, buf: Oid): Trail
    requires s.stack != [] && s.cur > 0
  {
    var e := s.stack[|s.stack| - 1];
    Trail(e.node, if e.node == NULL then None else Some(e.nIdx), s.stack[..|s.stack| - 1], true, s.idLen, buf, s.cur - 1)
  }

  lemma PopBuf(s: Trail, buf: Oid, d: Oid, c: Oid)
    requires s.stack != [] && s.cur == |d| + |s.stack| && 0 < |c| <= OID_MAX_LEN && |buf| == BUF_LEN && buf[..|c|] == c
    ensures BufOk(Popped(s, buf), d, Up(c))
  {
    assert buf[..|c| - 1] == buf[..|c|][..|c| - 1];
  }

  /** Back at group `c` after child `i`: the next child, or none. */
  lemma PopTrail(nodes: Arena, at: map<Oid, Ptr>, h: Handlers, view: Oid, d: Oid, q: Oid, s: Trail, c: Oid, i: nat)
    requires SearchOk(nodes, at, h, view, d, q) && c in at && at[c] in nodes && nodes[at[c]].Group? && GroupOk(nodes[at[c]])
    requires i < nodes[at[c]].cnt && OnTrack(Lit(nodes, at, h, q), view, q, c, Resume(nodes[at[c]], NextIdx(nodes[at[c]], i)))
    requires forall x: SubId :: x >= Resume(nodes[at[c]], NextIdx(nodes[at[c]], i)) ==> Less(q, c + [x])
    requires TrailStack(nodes, at, d, c, s.stack) && BufOk(s, d, c) && s.immediate
    requires s.node == Later(nodes[at[c]], at[c], i).node
    requires s.popped == if s.node == NULL then None else Some(Later(nodes[at[c]], at[c], i).nIdx)
    ensures TrailOk(nodes, at, h, view, d, q, s, c, Resume(nodes[at[c]], NextIdx(nodes[at[c]], i)))
  {
    assert PathOk(nodes, at, c);
    if i + 1 >= nodes[at[c]].cnt {
      ExhaustedAt(nodes, at, h, view, q, c);
    }
  }

  /** Back from the visited child `c` to the group above it. */
  lemma PopChild(nodes: Arena, at: map<Oid, Ptr>, h: Handlers, view: Oid, d: Oid, q: Oid, s: Trail, buf: Oid, c: Oid, lo: int)
    returns (lo': int)
    requires SearchOk(nodes, at, h, view, d, q) && OnTrack(Lit(nodes, at, h, q), view, q, c, lo)
    requires TrailStack(nodes, at, d, c, s.stack) && s.stack != [] && s.cur == |d| + |s.stack| && |c| <= OID_MAX_LEN
    requires NoneBelow(Lit(nodes, at, h, q), view, q, c) && |buf| == BUF_LEN && buf[..|c|] == c
    ensures c != [] && TrailOk(nodes, at, h, view, d, q, Popped(s, buf), Up(c), lo')
    ensures Todo(at, Up(c), lo') <= Todo(at, c, lo)
  {
    var i, s' := PoppedIs(nodes, at, d, s, buf, c);
    lo' := ResumeAt(nodes, at, h, view, q, c, lo, i);
    PopTrail(nodes, at, h, view, d, q, s', Up(c), i);
  }

  /** The popped trail stands at the group above `c`, whose child `i` was `c`. */
  lemma PoppedIs(nodes: Arena, at: map<Oid, Ptr>, d: Oid, s: Trail, buf: Oid, c: Oid) returns (i: nat, s': Trail)
    requires TrailStack(nodes, at, d, c, s.stack) && s.stack != [] && s.cur == |d| + |s.stack| && |c| <= OID_MAX_LEN
    requires |buf| == BUF_LEN && buf[..|c|] == c
    ensures s' == Popped(s, buf) && s'.immediate && c != [] && BufOk(s', d, Up(c)) && TrailStack(nodes, at, d, Up(c), s'.stack)
    ensures Up(c) in at && at[Up(c)] in nodes && nodes[at[Up(c)]].Group? && GroupOk(nodes[at[Up(c)]])
    ensures i < nodes[at[Up(c)]].cnt && Up(c) + [nodes[at[Up(c)]].subId[i]] == c
    ensures s'.node == Later(nodes[at[Up(c)]], at[Up(c)], i).node
    ensures s'.popped == if s'.node == NULL then None else Some(Later(nodes[at[Up(c)]], at[Up(c)], i).nIdx)
  {
    i := PopLater(nodes, at, d, c, s.stack);
    s' := Popped(s, buf);
    PopBuf(s, buf, d, c);
  }

  /** Where the group above `c` is resumed after its child `i`. */
  lemma ResumeAt(nodes: Arena, at: map<Oid, Ptr>, h: Handlers, view: Oid, q: Oid, c: Oid, lo: int, i: nat) returns (lo': int)
    requires TreeOk(nodes, at) && HandlersOk(h) && c != [] && OnTrack(Lit(nodes, at, h, q), view, q, c, lo) && NoneBelow(Lit(nodes, at, h, q), view, q, c)
    requires Up(c) in at && at[Up(c)] in nodes && nodes[at[Up(c)]].Group? && GroupOk(nodes[at[Up(c)]])
    requires i < nodes[at[Up(c)]].cnt && Up(c) + [nodes[at[Up(c)]].subId[i]] == c
    ensures lo' == Resume(nodes[at[Up(c)]], NextIdx(nodes[at[Up(c)]], i))
    ensures OnTrack(Lit(nodes, at, h, q), view, q, Up(c), lo') && Todo(at, Up(c), lo') <= Todo(at, c, lo)
    ensures forall x: SubId :: x >= lo' ==> Less(q, Up(c) + [x])
  {
    var g := nodes[at[Up(c)]];
    lo' := Resume(g, NextIdx(g, i));
    TrackUp(nodes, at, h, view, q, Up(c), i);
    TodoUp(at, c, lo, lo');
  }

  /** Pops the backlog once nothing is left below `c`. */
  method BackUp(s: Trail, buf: Oid, ghost nodes: Arena, ghost at: map<Oid, Ptr>, ghost h: Handlers,
                ghost view: Oid, ghost d: Oid, ghost q: Oid, ghost c: Oid, ghost lo: int)
    returns (s': Trail, ghost c': Oid, ghost lo': int)
    requires SearchOk(nodes, at, h, view, d, q) && TrailOk(nodes, at, h, view, d, q, s, c, lo) && s.stack != []
    requires NoneBelow(Lit(nodes, at, h, q), view, q, c) && |buf| == BUF_LEN && buf[..|c|] == c
    ensures TrailOk(nodes, at, h, view, d, q, s', c', lo') && Closer(at, d, s, c, lo, s', c', lo')
  {
    s' := Popped(s, buf);
    if s.node == NULL && |s.stack| + |d| > |c| {
      c', lo' := c, TWO32;
    } else {
      lo' := PopChild(nodes, at, h, view, d, q, s, buf, c, lo);
      c' := Up(c);
    }
  }

  lemma TodoUp(at: map<Oid, Ptr>, c: Oid, lo: int, lo': int)
    requires c != [] && c[|c| - 1] < lo'
    ensures Todo(at, Up(c), lo') <= Todo(at, c, lo)
  {
    assert c == Up(c) + [c[|c| - 1]];
    forall p | p in at && Ahead(Up(c), lo', p) ensures Ahead(c, lo, p) {
      AheadUp(Up(c), c[|c| - 1], lo', p);
    }
    FewerTodo(at, c, lo, Up(c), lo');
  }

  lemma ExhaustedAt(nodes: Arena, at: map<Oid, Ptr>, h: Handlers, view: Oid, q: Oid, c: Oid)
    requires OnTrack(Lit(nodes, at, h, q), view, q, c, TWO32)
    ensures NoneBelow(Lit(nodes, at, h, q), view, q, c)
  {
  }

  /** One turn of the loop of mib_tree_search_next. */
  method NextStep(nodes: Arena, h: Handlers, view: Oid, s: Trail, ghost at: map<Oid, Ptr>,
                  ghost d: Oid, ghost q: Oid, ghost c: Oid, ghost lo: int)
    returns (done: bool, r: Option<Oid>, s': Trail, ghost c': Oid, ghost lo': int)
    requires SearchOk(nodes, at, h, view, d, q) && TrailOk(nodes, at, h, view, d, q, s, c, lo)
    ensures done ==> IsNext(Visible(Lit(nodes, at, h, q), view), q, r)
    ensures !done ==> TrailOk(nodes, at, h, view, d, q, s', c', lo') && Closer(at, d, s, c, lo, s', c', lo')
  {
    done, r, s', c', lo' := false, None, s, c, lo;
    var buf := s.buf;
    if s.node != NULL {
      if nodes[s.node].Group? {
        if s.immediate {
          s', c', lo' := EnterImmediate(nodes, s, at, h, view, d, q, c, lo);
          return;
        }
        var stuck;
        stuck, s', c', lo' := EnterRequested(nodes, s, at, h, view, d, q, c);
        if !stuck {
          return;
        }
      } else {
        r, buf := AskHandler(nodes, h, view, s, at, d, q, c);
        if r.Some? {
          done := true;
          return;
        }
      }
    }
    if s.stack == [] {
      assert c == d;
      NoCandidate(nodes, at, h, view, d, q);
      done := true;
    } else {
      s', c', lo' := BackUp(s, buf, nodes, at, h, view, d, q, c, lo);
    }
  }

  /** The loop of mib_tree_search_next, from the start node `d`: the least variable of the view above `q`. */
  method Traverse(nodes: Arena, h: Handlers, view: Oid, start: Trail, ghost at: map<Oid, Ptr>, ghost d: Oid, ghost q: Oid)
    returns (r: Option<Oid>)
    requires SearchOk(nodes, at, h, view, d, q) && TrailOk(nodes, at, h, view, d, q, start, d, 0)
    ensures IsNext(Visible(Lit(nodes, at, h, q), view), q, r)
  {
    var s, done := start, false;
    ghost var c, lo := d, 0;
    r := None;
    while !done
      invariant !done ==> TrailOk(nodes, at, h, view, d, q, s, c, lo)
      invariant done ==> IsNext(Visible(Lit(nodes, at, h, q), view), q, r)
      decreases !done, Todo(at, c, lo), |c|, Phase(s, c, d)
    {
      done, r, s, c, lo := NextStep(nodes, h, view, s, at, d, q, c, lo);
    }
  }
}
