/** Deleting a subtree node by node (core/mib_tree.c:558-574, 675-740). */
module TreeDelete {
  import opened Oids
  import opened Positions
  import opened MibNodes
  import opened TreeShape

  datatype Backlog = Backlog(node: Ptr, nIdx: int)

  /** A node below group `c` hangs off one of its listed children. */
  lemma KidIndex(nodes: Arena, at: map<Oid, Ptr>, c: Oid, p: Oid) returns (i: nat)
    requires TreeOk(nodes, at) && c in at && p in at && c <= p && |c| < |p|
    ensures at[c] in nodes && nodes[at[c]].Group? && GroupOk(nodes[at[c]])
    ensures i < nodes[at[c]].cnt && nodes[at[c]].subId[i] == p[|c|]
  {
    Ancestor(nodes, at, p, c);
    i :| 0 <= i < nodes[at[c]].cnt && nodes[at[c]].subId[i] == p[|c|];
  }

  /** Where a traversal resumes after `i - 1` children; past the last one when `i` is -1. */
  function Resume(g: Node, i: int): int
    requires g.Group? && i < |g.subId|
  {
    if i < 0 then TWO32 else g.subId[i]
  }

  function NextIdx(g: Node, i: nat): int
    requires g.Group?
  {
    if i + 1 >= g.cnt then -1 else i + 1
  }

  /** Nodes not yet freed by a traversal of the subtree at `d` that stands on `c`. */
  ghost predicate Alive(d: Oid, c: Oid, lo: int, p: Oid) {
    !(d <= p) || p <= c || Ahead(c, lo, p)
  }

  lemma AliveDown(nodes: Arena, at: map<Oid, Ptr>, d: Oid, c: Oid, lo: int, i: nat, p: Oid)
    requires TreeOk(nodes, at) && c in at && p in at && at[c] in nodes && nodes[at[c]].Group? && GroupOk(nodes[at[c]])
    requires i < nodes[at[c]].cnt && lo <= nodes[at[c]].subId[i]
    requires i > 0 ==> lo == nodes[at[c]].subId[i]
    ensures var x := nodes[at[c]].subId[i];
      (Alive(d, c, lo, p) <==> Alive(d, c + [x], 0, p)) && (Ahead(c + [x], 0, p) ==> Ahead(c, lo, p))
  {
    var x := nodes[at[c]].subId[i];
    AheadDown(c, lo, x, p);
    if c <= p && |c| < |p| {
      var j := KidIndex(nodes, at, c, p);
    }
    if p <= c + [x] && |p| <= |c| {
      assert p == (c + [x])[..|p|] == c[..|p|];
    }
  }

  lemma AliveUp(nodes: Arena, at: map<Oid, Ptr>, d: Oid, c: Oid, i: nat, p: Oid)
    requires TreeOk(nodes, at) && c in at && p in at && at[c] in nodes && nodes[at[c]].Group? && GroupOk(nodes[at[c]])
    requires i < nodes[at[c]].cnt
    ensures var g := nodes[at[c]];
      && (Alive(d, c, Resume(g, NextIdx(g, i)), p) <==>
            !(d <= p) || (p != c + [g.subId[i]] && (p <= c + [g.subId[i]] || After(c + [g.subId[i]], p))))
      && (Ahead(c, Resume(g, NextIdx(g, i)), p) ==> After(c + [g.subId[i]], p))
  {
    var g := nodes[at[c]];
    var x, lo := g.subId[i], Resume(g, NextIdx(g, i));
    AheadUp(c, x, lo, p);
    if c <= p && |c| < |p| {
      var j := KidIndex(nodes, at, c, p);
      assert j <= i || j >= i + 1;
    }
    if p <= c + [x] && |p| <= |c| {
      assert p == (c + [x])[..|p|] == c[..|p|];
    }
  }

  /** With no child left under `c`, what is ahead lies after its subtree. */
  lemma NothingBelow(nodes: Arena, at: map<Oid, Ptr>, c: Oid, lo: int, p: Oid)
    requires TreeOk(nodes, at) && c in at && p in at
    requires at[c] in nodes && (nodes[at[c]].Instance? || nodes[at[c]].cnt == 0 || lo == TWO32)
    ensures Ahead(c, lo, p) <==> After(c, p)
  {
    if c <= p && |c| < |p| {
      var j := KidIndex(nodes, at, c, p);
    }
  }

  /** The nodes of the subtree at `d`. */
  ghost function Subtree(at: map<Oid, Ptr>, d: Oid): set<Ptr> {
    set p | p in at && d <= p :: at[p]
  }

  /** All nodes strictly below node `a` are among `gone`. */
  ghost predicate DescendantsIn(at: map<Oid, Ptr>, a: Ptr, gone: seq<Ptr>) {
    forall p, q :: p in at && q in at && at[p] == a && p <= q && p != q ==> at[q] in gone
  }

  /** No node is freed before a node below it. */
  ghost predicate ChildrenFirst(at: map<Oid, Ptr>, freed: seq<Ptr>) {
    forall i :: 0 <= i < |freed| ==> DescendantsIn(at, freed[i], freed[..i])
  }

  ghost predicate NoDuplicates(freed: seq<Ptr>) {
    forall i, j :: 0 <= i < j < |freed| ==> freed[i] != freed[j]
  }

  /** Exactly the nodes that are not `Alive` (and `c` itself when `gone`) have been freed, each once, children first. */
  ghost predicate Progress(nodes0: Arena, at: map<Oid, Ptr>, nodes: Arena, freed: seq<Ptr>,
                            d: Oid, c: Oid, lo: int, gone: bool) {
    && (forall a :: a in nodes ==> a in nodes0 && nodes[a] == nodes0[a])
    && (forall p {:trigger at[p]} :: p in at ==>
          && (at[p] in nodes <==> Alive(d, c, lo, p) && !(gone && p == c))
          && (at[p] in freed <==> at[p] !in nodes))
    && (forall a :: a in freed ==> a in nodes0)
    && NoDuplicates(freed) && ChildrenFirst(at, freed)
  }

  lemma FreeOrder(at: map<Oid, Ptr>, freed: seq<Ptr>, c: Oid)
    requires c in at && at[c] !in freed && NoDuplicates(freed) && ChildrenFirst(at, freed)
    requires forall p :: p in at && at[p] == at[c] ==> p == c
    requires forall q :: q in at && c <= q && q != c ==> at[q] in freed
    ensures NoDuplicates(freed + [at[c]]) && ChildrenFirst(at, freed + [at[c]])
  {
    var freed' := freed + [at[c]];
    forall i | 0 <= i < |freed'| ensures DescendantsIn(at, freed'[i], freed'[..i]) {
      assert freed'[..i] == freed[..i];
      if i == |freed| {
        assert freed[..i] == freed;
      } else {
        assert DescendantsIn(at, freed[i], freed[..i]);
      }
    }
  }

  /** The backlog entry for the step from `c[..l]` to `c[..l + 1]`. */
  ghost predicate EntryOk(nodes: Arena, at: map<Oid, Ptr>, e: Backlog, c: Oid, l: nat)
    requires l < |c|
  {
    && c[..l] in at && e.node == at[c[..l]] && e.node in nodes && nodes[e.node].Group? && GroupOk(nodes[e.node])
    && exists i :: 0 <= i < nodes[e.node].cnt && nodes[e.node].subId[i] == c[l] && e.nIdx == NextIdx(nodes[e.node], i)
  }

  ghost predicate StackOk(nodes: Arena, at: map<Oid, Ptr>, d: Oid, c: Oid, stack: seq<Backlog>) {
    && d <= c && |stack| == |c| - |d|
    && forall j :: 0 <= j < |stack| ==> EntryOk(nodes, at, stack[j], c, |d| + j)
  }

  lemma Push(nodes: Arena, at: map<Oid, Ptr>, d: Oid, c: Oid, stack: seq<Backlog>, x: SubId, e: Backlog)
    requires StackOk(nodes, at, d, c, stack) && EntryOk(nodes, at, e, c + [x], |c|)
    ensures StackOk(nodes, at, d, c + [x], stack + [e])
  {
    var c', stack' := c + [x], stack + [e];
    forall j | 0 <= j < |stack'| ensures EntryOk(nodes, at, stack'[j], c', |d| + j) {
      if j < |stack| {
        assert EntryOk(nodes, at, stack[j], c, |d| + j);
        assert c'[..|d| + j] == c[..|d| + j];
      }
    }
  }

  lemma Pop(nodes: Arena, at: map<Oid, Ptr>, d: Oid, c: Oid, stack: seq<Backlog>)
    requires StackOk(nodes, at, d, c, stack) && stack != []
    ensures c != [] && StackOk(nodes, at, d, Up(c), stack[..|stack| - 1])
    ensures EntryOk(nodes, at, stack[|stack| - 1], c, |c| - 1)
  {
    var c', stack' := Up(c), stack[..|stack| - 1];
    forall j | 0 <= j < |stack'| ensures EntryOk(nodes, at, stack'[j], c', |d| + j) {
      assert EntryOk(nodes, at, stack[j], c, |d| + j);
      assert c'[..|d| + j] == c[..|d| + j];
    }
  }

  /** What the traversal has still to enter; it shrinks with every step down. */
  ghost function Pending(at: map<Oid, Ptr>, c: Oid, lo: int): set<Oid> {
    set p | p in at && Ahead(c, lo, p)
  }

  ghost function Todo(at: map<Oid, Ptr>, c: Oid, lo: int): nat {
    |Pending(at, c, lo)|
  }

  lemma FewerTodo(at: map<Oid, Ptr>, c: Oid, lo: int, c': Oid, lo': int)
    requires forall p :: p in at && Ahead(c', lo', p) ==> Ahead(c, lo, p)
    ensures Todo(at, c', lo') <= Todo(at, c, lo)
  {
    SubsetSize(Pending(at, c', lo'), Pending(at, c, lo));
  }

  lemma StrictlyFewerTodo(at: map<Oid, Ptr>, c: Oid, lo: int, c': Oid, lo': int, q: Oid)
    requires forall p :: p in at && Ahead(c', lo', p) ==> Ahead(c, lo, p)
    requires q in at && Ahead(c, lo, q) && !Ahead(c', lo', q)
    ensures Todo(at, c', lo') < Todo(at, c, lo)
  {
    assert q in Pending(at, c, lo) && q !in Pending(at, c', lo');
    SubsetSize(Pending(at, c', lo'), Pending(at, c, lo));
  }

  lemma SubsetSize<T>(a: set<T>, b: set<T>)
    requires a <= b
    ensures |a| <= |b| && (a != b ==> |a| < |b|)
  {
    assert |b| == |a| + |b - a| by { assert b == a + (b - a); }
    if a != b {
      var x :| x in b - a;
      assert |b - a| > 0;
    }
  }

  lemma SameProgress(nodes0: Arena, at: map<Oid, Ptr>, nodes: Arena, freed: seq<Ptr>,
                     d: Oid, c: Oid, lo: int, gone: bool, c': Oid, lo': int)
    requires Progress(nodes0, at, nodes, freed, d, c, lo, gone)
    requires forall p :: p in at ==> (Alive(d, c, lo, p) && !(gone && p == c) <==> Alive(d, c', lo', p))
    ensures Progress(nodes0, at, nodes, freed, d, c', lo', false)
  {
  }

  lemma StepDown(nodes0: Arena, at: map<Oid, Ptr>, nodes: Arena, freed: seq<Ptr>, d: Oid, c: Oid, lo: int, i: nat)
    requires TreeOk(nodes0, at) && c in at && at[c] in nodes0 && nodes0[at[c]].Group? && GroupOk(nodes0[at[c]])
    requires Progress(nodes0, at, nodes, freed, d, c, lo, false)
    requires i < nodes0[at[c]].cnt && lo <= nodes0[at[c]].subId[i]
    requires i > 0 ==> lo == nodes0[at[c]].subId[i]
    ensures var g := nodes0[at[c]];
      && c + [g.subId[i]] in at && at[c + [g.subId[i]]] == g.subPtr[i]
      && Progress(nodes0, at, nodes, freed, d, c + [g.subId[i]], 0, false)
      && Todo(at, c + [g.subId[i]], 0) < Todo(at, c, lo)
      && EntryOk(nodes0, at, Backlog(at[c], NextIdx(g, i)), c + [g.subId[i]], |c|)
  {
    var g := nodes0[at[c]];
    var x := g.subId[i];
    assert PathOk(nodes0, at, c);
    assert IsKid(g, x, g.subPtr[i]);
    forall p | p in at
      ensures Alive(d, c, lo, p) <==> Alive(d, c + [x], 0, p)
      ensures Ahead(c + [x], 0, p) ==> Ahead(c, lo, p)
    {
      AliveDown(nodes0, at, d, c, lo, i, p);
    }
    SameProgress(nodes0, at, nodes, freed, d, c, lo, false, c + [x], 0);
    assert Ahead(c, lo, c + [x]) && !Ahead(c + [x], 0, c + [x]);
    StrictlyFewerTodo(at, c, lo, c + [x], 0, c + [x]);
    assert (c + [x])[..|c|] == c;
  }

  /** Node `c` has no child left to visit. */
  ghost predicate Exhausted(nodes: Arena, at: map<Oid, Ptr>, c: Oid, lo: int) {
    c in at && at[c] in nodes && (nodes[at[c]].Instance? || nodes[at[c]].cnt == 0 || lo == TWO32)
  }

  /** Freeing the exhausted node `c`. */
  lemma FreeExhausted(nodes0: Arena, at: map<Oid, Ptr>, nodes: Arena, freed: seq<Ptr>, d: Oid, c: Oid, lo: int)
    requires TreeOk(nodes0, at) && Exhausted(nodes0, at, c, lo) && d <= c
    requires Progress(nodes0, at, nodes, freed, d, c, lo, false)
    ensures at[c] in nodes
    ensures Progress(nodes0, at, nodes - {at[c]}, freed + [at[c]], d, c, lo, true)
  {
    assert PathOk(nodes0, at, c);
    forall p | p in at && c <= p && p != c ensures !Alive(d, c, lo, p) {
      NothingBelow(nodes0, at, c, lo, p);
    }
    assert forall p :: p in at && p != c ==> at[p] != at[c];
    FreeOrder(at, freed, c);
  }

  lemma StepUpAt(nodes: Arena, at: map<Oid, Ptr>, d: Oid, c: Oid, lo: int, i: nat, p: Oid)
    requires TreeOk(nodes, at) && Exhausted(nodes, at, c, lo) && d <= c && |d| < |c| && p in at
    requires Up(c) in at && at[Up(c)] in nodes && nodes[at[Up(c)]].Group? && GroupOk(nodes[at[Up(c)]])
    requires i < nodes[at[Up(c)]].cnt && Up(c) + [nodes[at[Up(c)]].subId[i]] == c
    ensures var lo' := Resume(nodes[at[Up(c)]], NextIdx(nodes[at[Up(c)]], i));
      && (Alive(d, Up(c), lo', p) <==> Alive(d, c, lo, p) && p != c)
      && (Ahead(Up(c), lo', p) ==> Ahead(c, lo, p))
  {
    NothingBelow(nodes, at, c, lo, p);
    AliveUp(nodes, at, d, Up(c), i, p);
  }

  lemma StepUpAll(nodes: Arena, at: map<Oid, Ptr>, d: Oid, c: Oid, lo: int, i: nat) returns (lo': int)
    requires TreeOk(nodes, at) && Exhausted(nodes, at, c, lo) && d <= c && |d| < |c|
    requires Up(c) in at && at[Up(c)] in nodes && nodes[at[Up(c)]].Group? && GroupOk(nodes[at[Up(c)]])
    requires i < nodes[at[Up(c)]].cnt && Up(c) + [nodes[at[Up(c)]].subId[i]] == c
    ensures lo' == Resume(nodes[at[Up(c)]], NextIdx(nodes[at[Up(c)]], i))
    ensures forall p :: p in at ==> (Alive(d, c, lo, p) && p != c <==> Alive(d, Up(c), lo', p))
    ensures forall p :: p in at && Ahead(Up(c), lo', p) ==> Ahead(c, lo, p)
  {
    lo' := Resume(nodes[at[Up(c)]], NextIdx(nodes[at[Up(c)]], i));
    forall p | p in at
      ensures Alive(d, c, lo, p) && p != c <==> Alive(d, Up(c), lo', p)
      ensures Ahead(Up(c), lo', p) ==> Ahead(c, lo, p)
    {
      StepUpAt(nodes, at, d, c, lo, i, p);
    }
  }

  lemma StepUpFrom(nodes0: Arena, at: map<Oid, Ptr>, nodes: Arena, freed: seq<Ptr>, d: Oid, c: Oid, lo: int, i: nat)
    requires TreeOk(nodes0, at) && Exhausted(nodes0, at, c, lo) && d <= c && |d| < |c|
    requires Progress(nodes0, at, nodes, freed, d, c, lo, true)
    requires Up(c) in at && at[Up(c)] in nodes0 && nodes0[at[Up(c)]].Group? && GroupOk(nodes0[at[Up(c)]])
    requires i < nodes0[at[Up(c)]].cnt && Up(c) + [nodes0[at[Up(c)]].subId[i]] == c
    ensures var lo' := Resume(nodes0[at[Up(c)]], NextIdx(nodes0[at[Up(c)]], i));
      && Progress(nodes0, at, nodes, freed, d, Up(c), lo', false)
      && Todo(at, Up(c), lo') <= Todo(at, c, lo)
  {
    var lo' := StepUpAll(nodes0, at, d, c, lo, i);
    SameProgress(nodes0, at, nodes, freed, d, c, lo, true, Up(c), lo');
    FewerTodo(at, c, lo, Up(c), lo');
  }

  /** The entry for the last step to `c` names its parent and the slot after it. */
  lemma EntryParent(nodes: Arena, at: map<Oid, Ptr>, e: Backlog, c: Oid) returns (i: nat)
    requires c != [] && EntryOk(nodes, at, e, c, |c| - 1)
    ensures Up(c) in at && e.node == at[Up(c)] && e.node in nodes && nodes[e.node].Group? && GroupOk(nodes[e.node])
    ensures i < nodes[e.node].cnt && Up(c) + [nodes[e.node].subId[i]] == c && e.nIdx == NextIdx(nodes[e.node], i)
  {
    i :| 0 <= i < nodes[e.node].cnt && nodes[e.node].subId[i] == c[|c| - 1] && e.nIdx == NextIdx(nodes[e.node], i);
  }

  /** Back from the freed node `c` to its parent. */
  lemma StepUp(nodes0: Arena, at: map<Oid, Ptr>, nodes: Arena, freed: seq<Ptr>, d: Oid, c: Oid, lo: int, e: Backlog)
    requires TreeOk(nodes0, at) && Exhausted(nodes0, at, c, lo) && d <= c && |d| < |c|
    requires Progress(nodes0, at, nodes, freed, d, c, lo, true)
    requires EntryOk(nodes0, at, e, c, |c| - 1)
    ensures var lo' := Resume(nodes0[e.node], e.nIdx);
      && Up(c) in at && e.node == at[Up(c)]
      && Progress(nodes0, at, nodes, freed, d, Up(c), lo', false)
      && Todo(at, Up(c), lo') <= Todo(at, c, lo)
  {
    var i := EntryParent(nodes0, at, e, c);
    StepUpFrom(nodes0, at, nodes, freed, d, c, lo, i);
  }

  /** The loop variables of __mib_tree_delete: current node, `n_idx` of the entry just popped, backlog. */
  datatype Cursor = Cursor(node: Ptr, popped: Option<int>, stack: seq<Backlog>)

  /** The traversal of the subtree at `d` stands on `c` and has finished the children below `lo`. */
  ghost predicate CursorOk(nodes: Arena, at: map<Oid, Ptr>, d: Oid, s: Cursor, c: Oid, lo: int) {
    && c in at && d <= c && PathOk(nodes, at, c)
    && (s.node != NULL ==> s.node == at[c] && StackOk(nodes, at, d, c, s.stack))
    && (s.node == NULL ==>
          && s.popped == None && Exhausted(nodes, at, c, 0) && nodes[at[c]].Group?
          && s.stack != [] && s.stack[|s.stack| - 1] == Backlog(at[c], -1)
          && StackOk(nodes, at, d, c, s.stack[..|s.stack| - 1]))
    && (s.popped.None? ==> lo == 0)
    && (s.popped.Some? ==>
          && s.node != NULL && nodes[s.node].Group?
          && (s.popped.value == -1 || 0 < s.popped.value < nodes[s.node].cnt)
          && lo == Resume(nodes[s.node], s.popped.value))
  }

  /** The backlog never exceeds 64 entries. */
  lemma BacklogBound(nodes: Arena, at: map<Oid, Ptr>, d: Oid, s: Cursor, c: Oid, lo: int)
    requires CursorOk(nodes, at, d, s, c, lo)
    ensures |s.stack| <= OID_MAX_LEN
  {
  }

  /** Backlogs the group under the cursor and moves to its next child. */
  method Enter(n: Node, s: Cursor, ghost nodes0: Arena, ghost at: map<Oid, Ptr>, ghost nodes: Arena,
               ghost freed: seq<Ptr>, ghost d: Oid, ghost c: Oid, ghost lo: int)
    returns (s': Cursor, ghost c': Oid)
    requires TreeOk(nodes0, at) && CursorOk(nodes0, at, d, s, c, lo) && d != []
    requires Progress(nodes0, at, nodes, freed, d, c, lo, false)
    requires s.node != NULL && s.node in nodes0 && nodes0[s.node] == n && n.Group? && s.popped != Some(-1)
    ensures CursorOk(nodes0, at, d, s', c', 0)
    ensures Progress(nodes0, at, nodes, freed, d, c', 0, false)
    ensures Todo(at, c', 0) < Todo(at, c, lo) || (c' == c && lo == 0 && s'.node == NULL)
  {
    var i := if s.popped.Some? then s.popped.value else 0;
    assert |s.stack| < OID_MAX_LEN;
    var e := Backlog(s.node, if i + 1 >= n.cnt then -1 else i + 1);
    s' := Cursor(n.subPtr[i], None, s.stack + [e]);
    c' := c;
    if n.cnt > 0 {
      StepDown(nodes0, at, nodes, freed, d, c, lo, i);
      Push(nodes0, at, d, c, s.stack, n.subId[i], e);
      c' := c + [n.subId[i]];
      assert PathOk(nodes0, at, c');
    } else {
      assert s'.stack[..|s'.stack| - 1] == s.stack;
    }
  }

  /** Frees the node under the cursor. */
  method Release(nodes: Arena, freed: seq<Ptr>, s: Cursor, ghost nodes0: Arena, ghost at: map<Oid, Ptr>,
                 ghost d: Oid, ghost c: Oid, ghost lo: int)
    returns (nodes': Arena, freed': seq<Ptr>)
    requires TreeOk(nodes0, at) && CursorOk(nodes0, at, d, s, c, lo) && s.node != NULL
    requires nodes0[s.node].Instance? || s.popped == Some(-1)
    requires Progress(nodes0, at, nodes, freed, d, c, lo, false)
    ensures Exhausted(nodes0, at, c, lo)
    ensures Progress(nodes0, at, nodes', freed', d, c, lo, true)
  {
    FreeExhausted(nodes0, at, nodes, freed, d, c, lo);
    nodes', freed' := nodes - {s.node}, freed + [s.node];
  }

  /** The node under the cursor has not been freed. */
  lemma Present(nodes0: Arena, at: map<Oid, Ptr>, nodes: Arena, freed: seq<Ptr>, d: Oid, s: Cursor, c: Oid, lo: int)
    requires CursorOk(nodes0, at, d, s, c, lo) && s.node != NULL
    requires Progress(nodes0, at, nodes, freed, d, c, lo, false)
    ensures s.node in nodes && s.node in nodes0 && nodes[s.node] == nodes0[s.node]
  {
  }

  /** Pops the backlog after node `c` was freed, or after an empty group led to no node. */
  method Backtrack(s: Cursor, ghost nodes0: Arena, ghost at: map<Oid, Ptr>, ghost nodes: Arena,
                   ghost freed: seq<Ptr>, ghost d: Oid, ghost c: Oid, ghost lo: int)
    returns (s': Cursor, ghost c': Oid, ghost lo': int)
    requires TreeOk(nodes0, at) && CursorOk(nodes0, at, d, s, c, lo) && s.stack != []
    requires s.node != NULL ==>
      Exhausted(nodes0, at, c, lo) && Progress(nodes0, at, nodes, freed, d, c, lo, true)
    requires s.node == NULL ==> Progress(nodes0, at, nodes, freed, d, c, lo, false)
    ensures CursorOk(nodes0, at, d, s', c', lo') && s'.node != NULL
    ensures Progress(nodes0, at, nodes, freed, d, c', lo', false)
    ensures Todo(at, c', lo') <= Todo(at, c, lo)
    ensures if s.node != NULL then |c'| < |c| else c' == c && s'.popped == Some(-1)
  {
    var e := s.stack[|s.stack| - 1];
    s' := Cursor(e.node, Some(e.nIdx), s.stack[..|s.stack| - 1]);
    if s.node != NULL {
      Pop(nodes0, at, d, c, s.stack);
      StepUp(nodes0, at, nodes, freed, d, c, lo, e);
      c', lo' := Up(c), Resume(nodes0[e.node], e.nIdx);
      assert PathOk(nodes0, at, c');
    } else {
      Reenter(nodes0, at, nodes, freed, d, c);
      c', lo' := c, TWO32;
    }
  }

  ghost predicate DeleteInv(nodes0: Arena, at: map<Oid, Ptr>, d: Oid, nodes: Arena, freed: seq<Ptr>, s: Cursor, c: Oid, lo: int) {
    TreeOk(nodes0, at) && d != [] && CursorOk(nodes0, at, d, s, c, lo)
    && Progress(nodes0, at, nodes, freed, d, c, lo, false)
  }

  function Phase(s: Cursor): nat {
    if s.node == NULL then 1 else if s.popped == Some(-1) then 0 else 2
  }

  /** One turn of the loop of __mib_tree_delete. */
  method DeleteStep(nodes: Arena, freed: seq<Ptr>, s: Cursor, ghost nodes0: Arena, ghost at: map<Oid, Ptr>,
                    ghost d: Oid, ghost c: Oid, ghost lo: int)
    returns (done: bool, nodes': Arena, freed': seq<Ptr>, s': Cursor, ghost c': Oid, ghost lo': int)
    requires DeleteInv(nodes0, at, d, nodes, freed, s, c, lo)
    ensures done ==> c' == d && Exhausted(nodes0, at, d, lo') && Progress(nodes0, at, nodes', freed', d, d, lo', true)
    ensures !done ==> DeleteInv(nodes0, at, d, nodes', freed', s', c', lo')
    ensures !done ==>
      || Todo(at, c', lo') < Todo(at, c, lo)
      || (Todo(at, c', lo') == Todo(at, c, lo) && (|c'| < |c| || (c' == c && Phase(s') < Phase(s))))
  {
    done, nodes', freed', s', c', lo' := false, nodes, freed, s, c, lo;
    if s.node != NULL {
      Present(nodes0, at, nodes, freed, d, s, c, lo);
      var n := nodes[s.node];
      if n.Group? && s.popped != Some(-1) {
        s', c' := Enter(n, s, nodes0, at, nodes, freed, d, c, lo);
        lo' := 0;
        return;
      }
      nodes', freed' := Release(nodes, freed, s, nodes0, at, d, c, lo);
    }
    if s.stack == [] {
      assert c == d;
      done := true;
    } else {
      s', c', lo' := Backtrack(s, nodes0, at, nodes', freed', d, c, lo);
    }
  }

  /** The loop of __mib_tree_delete: frees every node of the subtree at `d`, the parents last. */
  method FreeSubtree(nodes0: Arena, ghost at: map<Oid, Ptr>, ghost d: Oid, child: Ptr)
    returns (nodes: Arena, freed: seq<Ptr>)
    requires TreeOk(nodes0, at) && d in at && at[d] == child && d != []
    ensures nodes == nodes0 - Subtree(at, d)
    ensures NoDuplicates(freed) && ChildrenFirst(at, freed) && (set a | a in freed) == Subtree(at, d)
  {
    nodes, freed := nodes0, [];
    var s := Cursor(child, None, []);
    ghost var c, lo := d, 0;
    StartDelete(nodes0, at, d);
    var done := false;
    while !done
      invariant !done ==> DeleteInv(nodes0, at, d, nodes, freed, s, c, lo)
      invariant done ==> Exhausted(nodes0, at, d, lo) && Progress(nodes0, at, nodes, freed, d, d, lo, true)
      decreases !done, Todo(at, c, lo), |c|, Phase(s)
    {
      done, nodes, freed, s, c, lo := DeleteStep(nodes, freed, s, nodes0, at, d, c, lo);
    }
    AllFreed(nodes0, at, nodes, freed, d, lo);
  }

  lemma AllFreed(nodes0: Arena, at: map<Oid, Ptr>, nodes: Arena, freed: seq<Ptr>, d: Oid, lo: int)
    requires TreeOk(nodes0, at) && Exhausted(nodes0, at, d, lo)
    requires Progress(nodes0, at, nodes, freed, d, d, lo, true)
    ensures nodes == nodes0 - Subtree(at, d)
    ensures (set a | a in freed) == Subtree(at, d)
  {
    forall p | p in at ensures Alive(d, d, lo, p) && p != d <==> !(d <= p) {
      NothingBelow(nodes0, at, d, lo, p);
    }
    forall a | a in nodes0 ensures a in nodes <==> a !in Subtree(at, d) {
      var p :| p in at && at[p] == a;
    }
    forall a | a in freed ensures a in Subtree(at, d) {
      var p :| p in at && at[p] == a;
    }
  }

  lemma StartDelete(nodes: Arena, at: map<Oid, Ptr>, d: Oid)
    requires TreeOk(nodes, at) && d in at
    ensures PathOk(nodes, at, d) && Progress(nodes, at, nodes, [], d, d, 0, false)
  {
    assert PathOk(nodes, at, d);
    forall p | p in at ensures at[p] in nodes && Alive(d, d, 0, p) {
      assert PathOk(nodes, at, p);
    }
  }

  /** An empty group is revisited at its end. */
  lemma Reenter(nodes0: Arena, at: map<Oid, Ptr>, nodes: Arena, freed: seq<Ptr>, d: Oid, c: Oid)
    requires TreeOk(nodes0, at) && Exhausted(nodes0, at, c, 0)
    requires Progress(nodes0, at, nodes, freed, d, c, 0, false)
    ensures Progress(nodes0, at, nodes, freed, d, c, TWO32, false)
    ensures Todo(at, c, TWO32) == Todo(at, c, 0)
  {
    forall p | p in at ensures Ahead(c, 0, p) <==> Ahead(c, TWO32, p) {
      NothingBelow(nodes0, at, c, 0, p);
      NothingBelow(nodes0, at, c, TWO32, p);
    }
    SameProgress(nodes0, at, nodes, freed, d, c, 0, false, c, TWO32);
    assert Pending(at, c, TWO32) == Pending(at, c, 0);
  }
}
