/** Nodes of the MIB tree: growable sorted child arrays (core/mib_tree.c:91-112, 518-605). */
module MibNodes {
  import opened Oids

  /** A pointer to a tree node; `NULL` is no node. */
  type Ptr = nat

  const NULL: Ptr := 0
  const ROOT: Ptr := 1

  /** `subId` and `subPtr` are the allocated arrays; the first `cnt` slots are in use. */
  datatype Node =
    | Group(cap: nat, cnt: nat, subId: seq<SubId>, subPtr: seq<Ptr>)
    | Instance(callback: int)

  /** Most children a group can hold before its 16-bit capacity overflows. */
  const MAX_KIDS := 47421

  /** `alloc_nr`. */
  function AllocNr(x: nat): nat {
    (x + 2) * 3 / 2
  }

  /** The capacities a group reaches from 1 by `alloc_nr`. */
  const CAPS: seq<nat> :=
    [1, 4, 9, 16, 27, 43, 67, 103, 157, 238, 360, 543, 817, 1228, 1845, 2770, 4158, 6240, 9363,
     14047, 21073, 31612, 47421]

  ghost predicate CapInChain(c: nat) {
    exists k :: 0 <= k < |CAPS| && c == CAPS[k]
  }

  lemma CapsChain(k: nat)
    requires k < |CAPS|
    ensures 0 < CAPS[k] <= MAX_KIDS
    ensures k + 1 < |CAPS| ==> AllocNr(CAPS[k]) == CAPS[k + 1] < MAX_KIDS || (k == 21 && AllocNr(CAPS[k]) == MAX_KIDS)
    ensures k + 1 == |CAPS| <==> CAPS[k] == MAX_KIDS
  {
  }

  /** The stored 16-bit capacity is what was allocated, except after the last link of the chain. */
  lemma CapOverflow(c: nat)
    requires CapInChain(c)
    ensures 0 < c <= MAX_KIDS
    ensures c < AllocNr(c)
    ensures c != MAX_KIDS <==> AllocNr(c) % 0x1_0000 == AllocNr(c)
    ensures c != MAX_KIDS ==> CapInChain(AllocNr(c))
  {
    var k :| 0 <= k < |CAPS| && c == CAPS[k];
    CapsChain(k);
    if c != MAX_KIDS {
      assert AllocNr(c) == CAPS[k + 1];
    }
  }

  predicate Ascending(s: seq<SubId>, n: nat)
    requires n <= |s|
  {
    forall i, j :: 0 <= i < j < n ==> s[i] < s[j]
  }

  ghost predicate GroupOk(g: Node)
    requires g.Group?
  {
    && CapInChain(g.cap) && 0 < g.cap
    && |g.subId| == g.cap && |g.subPtr| == g.cap && g.cnt <= g.cap
    && Ascending(g.subId, g.cnt)
    && (g.cnt == 0 ==> g.subId[0] == 0 && g.subPtr[0] == NULL)
  }

  /** What a group denotes: which node is its child under which sub-identifier. */
  ghost predicate IsKid(g: Node, x: SubId, p: Ptr)
    requires g.Group? && g.cnt <= |g.subId| && g.cnt <= |g.subPtr|
  {
    exists i :: 0 <= i < g.cnt && g.subId[i] == x && g.subPtr[i] == p
  }

  /** oid_binary_search over the first `n` slots. */
  method BinarySearch(ids: seq<SubId>, n: nat, oid: SubId) returns (r: int)
    requires n <= |ids| && Ascending(ids, n)
    ensures r >= 0 ==> r < n && ids[r] == oid
    ensures r < 0 ==> -r - 1 <= n
    ensures r < 0 ==> forall i :: 0 <= i < n ==> ids[i] != oid && (ids[i] < oid <==> i < -r - 1)
  {
    var low, high := -1, n;
    while low + 1 < high
      invariant -1 <= low < high <= n
      invariant low >= 0 ==> ids[low] < oid
      invariant high < n ==> ids[high] >= oid
    {
      var mid := low + (high - low) / 2;
      if ids[mid] < oid {
        low := mid;
      } else {
        high := mid;
      }
    }
    if high >= n || ids[high] != oid {
      r := -high - 1;
    } else {
      r := high;
    }
  }

  predicate IsRawGroup(g: Node)
    requires g.Group? && |g.subId| > 0
  {
    g.subId[0] == 0 && g.cnt == 0
  }

  /** mib_group_node_new. */
  function NewGroup(): (g: Node)
    ensures g.Group? && GroupOk(g) && g.cnt == 0 && IsRawGroup(g)
  {
    assert CAPS[0] == 1;
    Group(1, 0, [0], [NULL])
  }

  /** `r` holds the first `cnt` slots of `s`, those from `index` on moved up by one. */
  ghost predicate Gapped<T>(s: seq<T>, r: seq<T>, cnt: nat, index: nat)
    requires index <= cnt <= |s| && cnt < |r|
  {
    && (forall j {:trigger s[j]} :: 0 <= j < index ==> r[j] == s[j])
    && (forall j {:trigger s[j]} :: index <= j < cnt ==> r[j + 1] == s[j])
  }

  /** `r` holds the first `cnt` slots of `s` without the one at `index`. */
  ghost predicate Closed<T>(s: seq<T>, r: seq<T>, cnt: nat, index: nat)
    requires index < cnt <= |s| && cnt - 1 <= |r|
  {
    && (forall j {:trigger r[j]} :: 0 <= j < index ==> r[j] == s[j])
    && (forall j {:trigger r[j]} :: index <= j < cnt - 1 ==> r[j] == s[j + 1])
  }

  /** The copying loop of group_node_expand: `s` moved to a fresh array with a gap at `index`. */
  method CopyWithGap<T>(s: seq<T>, cnt: nat, index: nat, fresh_: seq<T>) returns (r: seq<T>)
    requires index <= cnt <= |s| && cnt < |fresh_|
    ensures |r| == |fresh_|
    ensures Gapped(s, r, cnt, index)
  {
    r := fresh_;
    for i := 0 to cnt
      invariant |r| == |fresh_|
      invariant forall j :: 0 <= j < i && j < index ==> r[j] == s[j]
      invariant forall j :: index < j < i + 1 ==> r[j] == s[j - 1]
    {
      if i < index {
        r := r[i := s[i]];
      } else {
        r := r[i + 1 := s[i]];
      }
    }
  }

  /** The in-place loop of group_node_expand, from the last slot down. */
  method ShiftRight<T>(s: seq<T>, cnt: nat, index: nat) returns (r: seq<T>)
    requires index <= cnt < |s|
    ensures |r| == |s|
    ensures Gapped(s, r, cnt, index)
  {
    r := s;
    var i := cnt - 1;
    while i >= index
      invariant index - 1 <= i < cnt && |r| == |s|
      invariant forall j :: 0 <= j <= i ==> r[j] == s[j]
      invariant forall j :: i + 1 < j <= cnt ==> r[j] == s[j - 1]
    {
      r := r[i + 1 := r[i]];
      i := i - 1;
    }
  }

  /** The loop of group_node_shrink. */
  method ShiftLeft<T>(s: seq<T>, cnt: nat, index: nat) returns (r: seq<T>)
    requires index < cnt <= |s|
    ensures |r| == |s| && Closed(s, r, cnt, index)
  {
    r := s;
    var i := index;
    while i < cnt - 1
      invariant index <= i <= cnt - 1 && |r| == |s|
      invariant forall j :: 0 <= j < index ==> r[j] == s[j]
      invariant forall j :: index <= j < i ==> r[j] == s[j + 1]
      invariant forall j :: i < j < cnt ==> r[j] == s[j]
    {
      r := r[i := r[i + 1]];
      i := i + 1;
    }
  }

  /** group_node_expand: opens a gap at `index`, reallocating when full. */
  method Expand(g: Node, index: nat) returns (r: Node)
    requires g.Group? && GroupOk(g) && !IsRawGroup(g) && index <= g.cnt < MAX_KIDS
    ensures r.Group? && r.cnt == g.cnt < r.cap == |r.subId| == |r.subPtr| && CapInChain(r.cap)
    ensures Gapped(g.subId, r.subId, g.cnt, index) && Gapped(g.subPtr, r.subPtr, g.cnt, index)
  {
    if g.cnt + 1 > g.cap {
      CapOverflow(g.cap);
      var subId := CopyWithGap(g.subId, g.cnt, index, seq<SubId>(AllocNr(g.cap), _ => 0));
      var subPtr := CopyWithGap(g.subPtr, g.cnt, index, seq<Ptr>(AllocNr(g.cap), _ => NULL));
      r := Group(AllocNr(g.cap) % 0x1_0000, g.cnt, subId, subPtr);
    } else {
      var subId := ShiftRight(g.subId, g.cnt, index);
      var subPtr := ShiftRight(g.subPtr, g.cnt, index);
      r := Group(g.cap, g.cnt, subId, subPtr);
    }
  }

  lemma ClosedOk(g: Node, r: Node, index: nat)
    requires g.Group? && GroupOk(g) && index < g.cnt && g.cnt > 1
    requires r.Group? && r.cap == g.cap == |r.subId| == |r.subPtr| && r.cnt == g.cnt - 1
    requires Closed(g.subId, r.subId, g.cnt, index) && Closed(g.subPtr, r.subPtr, g.cnt, index)
    ensures GroupOk(r)
    ensures forall y, q :: IsKid(r, y, q) <==> y != g.subId[index] && IsKid(g, y, q)
  {
    forall y, q | IsKid(g, y, q) && y != g.subId[index] ensures IsKid(r, y, q) {
      var i :| 0 <= i < g.cnt && g.subId[i] == y && g.subPtr[i] == q;
      var j := if i < index then i else i - 1;
      assert r.subId[j] == y && r.subPtr[j] == q;
    }
    forall y, q | IsKid(r, y, q) ensures y != g.subId[index] && IsKid(g, y, q) {
      var i :| 0 <= i < r.cnt && r.subId[i] == y && r.subPtr[i] == q;
      var j := if i < index then i else i + 1;
      assert g.subId[j] == y && g.subPtr[j] == q;
    }
  }

  /** group_node_shrink: closes the gap left by the child at `index`. */
  method Shrink(g: Node, index: nat) returns (r: Node)
    requires g.Group? && GroupOk(g) && index < g.cnt
    ensures r.Group? && GroupOk(r) && r.cap == g.cap && r.cnt == g.cnt - 1
    ensures forall y, q :: IsKid(r, y, q) <==> y != g.subId[index] && IsKid(g, y, q)
  {
    if g.cnt > 1 {
      var subId := ShiftLeft(g.subId, g.cnt, index);
      var subPtr := ShiftLeft(g.subPtr, g.cnt, index);
      r := Group(g.cap, g.cnt - 1, subId, subPtr);
      ClosedOk(g, r, index);
    } else {
      r := Group(g.cap, 0, g.subId[0 := 0], g.subPtr[0 := NULL]);
    }
  }

  /** `g` with child `x` put into the gap at its sorted position. */
  lemma InsertedOk(g: Node, r: Node, index: nat, x: SubId, p: Ptr)
    requires g.Group? && GroupOk(g) && index <= g.cnt
    requires forall i :: 0 <= i < g.cnt ==> g.subId[i] != x && (g.subId[i] < x <==> i < index)
    requires r.Group? && CapInChain(r.cap) && g.cnt < r.cap == |r.subId| == |r.subPtr| && r.cnt == g.cnt + 1
    requires r.subId[index] == x && r.subPtr[index] == p
    requires Gapped(g.subId, r.subId, g.cnt, index) && Gapped(g.subPtr, r.subPtr, g.cnt, index)
    ensures GroupOk(r)
    ensures forall y, q :: IsKid(r, y, q) <==> (y == x && q == p) || IsKid(g, y, q)
  {
    GapAscending(g.subId, r.subId, g.cnt, index);
    CapOverflow(r.cap);
    forall y, q ensures IsKid(r, y, q) <==> (y == x && q == p) || IsKid(g, y, q) {
      GapKid(g, r, index, y, q);
    }
  }

  lemma GapKid(g: Node, r: Node, index: nat, y: SubId, q: Ptr)
    requires g.Group? && r.Group? && index <= g.cnt && r.cnt == g.cnt + 1
    requires g.cnt <= |g.subId| && g.cnt <= |g.subPtr| && g.cnt < |r.subId| && g.cnt < |r.subPtr|
    requires Gapped(g.subId, r.subId, g.cnt, index) && Gapped(g.subPtr, r.subPtr, g.cnt, index)
    ensures IsKid(r, y, q) <==> (y == r.subId[index] && q == r.subPtr[index]) || IsKid(g, y, q)
  {
    if IsKid(g, y, q) {
      var i :| 0 <= i < g.cnt && g.subId[i] == y && g.subPtr[i] == q;
      var j := if i < index then i else i + 1;
      assert r.subId[j] == y && r.subPtr[j] == q;
    }
    if i :| 0 <= i < r.cnt && i != index && r.subId[i] == y && r.subPtr[i] == q {
      var j := if i < index then i else i - 1;
      assert g.subId[j] == y && g.subPtr[j] == q;
    }
  }

  lemma GapAscending(s: seq<SubId>, r: seq<SubId>, cnt: nat, index: nat)
    requires index <= cnt <= |s| && cnt < |r| && Gapped(s, r, cnt, index) && Ascending(s, cnt)
    requires forall i :: 0 <= i < cnt ==> s[i] != r[index] && (s[i] < r[index] <==> i < index)
    ensures Ascending(r, cnt + 1)
  {
    GappedAt(s, r, cnt, index);
  }

  lemma GappedAt<T>(s: seq<T>, r: seq<T>, cnt: nat, index: nat)
    requires index <= cnt <= |s| && cnt < |r| && Gapped(s, r, cnt, index)
    ensures forall j {:trigger r[j]} :: index < j <= cnt ==> r[j] == s[j - 1]
    ensures forall j {:trigger r[j]} :: 0 <= j < index ==> r[j] == s[j]
  {
    forall j | index < j <= cnt ensures r[j] == s[j - 1] {
      var k := j - 1;
      assert r[k + 1] == s[k];
    }
  }
}
