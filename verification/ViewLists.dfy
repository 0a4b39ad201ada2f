/** The per-community lists of views (core/mib_view.c:86-128, 227-284). */
module ViewLists {
  import opened Oids

  /** Views are interned: a view is its position among all views ever created. */
  type ViewId = nat

  ghost predicate InRange(views: seq<Oid>, list: seq<ViewId>) {
    forall i :: 0 <= i < |list| ==> list[i] < |views|
  }

  /** Strictly ascending, and no view covers another. */
  ghost predicate Chain(views: seq<Oid>, list: seq<ViewId>)
    requires InRange(views, list)
  {
    forall i, j :: 0 <= i < j < |list| ==> After(views[list[i]], views[list[j]])
  }

  ghost predicate Covers(views: seq<Oid>, list: seq<ViewId>, o: Oid)
    requires InRange(views, list)
  {
    exists i :: 0 <= i < |list| && views[list[i]] <= o
  }

  ghost predicate AllSmall(views: seq<Oid>) {
    forall i :: 0 <= i < |views| ==> Small(views[i])
  }

  /** Two prefixes of one identifier are comparable; two members of a chain never are. */
  lemma ChainDisjoint(views: seq<Oid>, list: seq<ViewId>, i: nat, j: nat, o: Oid)
    requires InRange(views, list) && Chain(views, list) && i < |list| && j < |list|
    requires views[list[i]] <= o && views[list[j]] <= o
    ensures i == j
  {
    if i < j {
      SubtreeBefore(views[list[i]], o, views[list[j]], o);
      LessIrreflexive(o);
    } else if j < i {
      SubtreeBefore(views[list[j]], o, views[list[i]], o);
      LessIrreflexive(o);
    }
  }

  /** A covered member and a covering member cannot both be in a chain. */
  lemma ChainOneSide(views: seq<Oid>, list: seq<ViewId>, i: nat, j: nat, oid: Oid)
    requires InRange(views, list) && Chain(views, list) && i < |list| && j < |list|
    requires views[list[i]] <= oid && oid <= views[list[j]]
    ensures i == j && views[list[j]] == oid
  {
    ChainDisjoint(views, list, i, j, views[list[j]]);
  }

  /** The members of `list` that `oid` does not cover. */
  ghost function Uncovered(views: seq<Oid>, list: seq<ViewId>, oid: Oid): seq<ViewId>
    requires InRange(views, list)
  {
    if list == [] then []
    else if oid <= views[list[0]] then Uncovered(views, list[1..], oid)
    else [list[0]] + Uncovered(views, list[1..], oid)
  }

  lemma {:induction false} UncoveredMembers(views: seq<Oid>, list: seq<ViewId>, oid: Oid)
    requires InRange(views, list)
    ensures forall v :: v in Uncovered(views, list, oid) <==> v in list && !(oid <= views[v])
    ensures InRange(views, Uncovered(views, list, oid))
  {
    if list != [] {
      UncoveredMembers(views, list[1..], oid);
      assert list == [list[0]] + list[1..];
    }
  }

  lemma {:induction false} UncoveredChain(views: seq<Oid>, list: seq<ViewId>, oid: Oid)
    requires InRange(views, list) && Chain(views, list)
    ensures InRange(views, Uncovered(views, list, oid)) && Chain(views, Uncovered(views, list, oid))
  {
    UncoveredMembers(views, list, oid);
    if list != [] {
      var rest := Uncovered(views, list[1..], oid);
      UncoveredChain(views, list[1..], oid);
      UncoveredMembers(views, list[1..], oid);
      forall j | 0 <= j < |rest| ensures After(views[list[0]], views[rest[j]]) {
        assert rest[j] in list[1..];
        var k :| 0 <= k < |list[1..]| && list[1..][k] == rest[j];
        assert list[k + 1] == rest[j];
      }
    }
  }

  lemma {:induction false} UncoveredAppend(views: seq<Oid>, a: seq<ViewId>, b: seq<ViewId>, oid: Oid)
    requires InRange(views, a) && InRange(views, b) && InRange(views, a + b)
    ensures Uncovered(views, a + b, oid) == Uncovered(views, a, oid) + Uncovered(views, b, oid)
  {
    if a == [] {
      assert a + b == b;
    } else {
      assert (a + b)[1..] == a[1..] + b;
      UncoveredAppend(views, a[1..], b, oid);
    }
  }

  /** The filter has looked at the first `seen` members and kept the first `curr` of what remains. */
  ghost predicate Filtering(views: seq<Oid>, list: seq<ViewId>, oid: Oid, kept: seq<ViewId>, curr: nat, seen: nat)
    requires InRange(views, list)
  {
    && curr <= |kept| && curr <= seen <= |list|
    && kept[..curr] == Uncovered(views, list[..seen], oid) && kept[curr..] == list[seen..]
    && (forall i :: 0 <= i < seen ==> !(views[list[i]] <= oid))
    && (if curr == seen then kept == list else exists i :: 0 <= i < seen && oid <= views[list[i]])
  }

  lemma FilterTurn(views: seq<Oid>, list: seq<ViewId>, oid: Oid, kept: seq<ViewId>, curr: nat, seen: nat)
    requires InRange(views, list) && Filtering(views, list, oid, kept, curr, seen) && curr < |kept|
    ensures seen < |list| && kept[curr] == list[seen] && |kept| - curr == |list| - seen
    ensures Uncovered(views, list[..seen + 1], oid) ==
      Uncovered(views, list[..seen], oid) + if oid <= views[list[seen]] then [] else [list[seen]]
  {
    assert |kept[curr..]| == |list[seen..]|;
    assert kept[curr] == kept[curr..][0] == list[seen..][0];
    assert list[..seen + 1] == list[..seen] + [list[seen]];
    UncoveredAppend(views, list[..seen], [list[seen]], oid);
  }

  lemma FilterDrop(views: seq<Oid>, list: seq<ViewId>, oid: Oid, kept: seq<ViewId>, curr: nat, seen: nat)
    requires InRange(views, list) && Filtering(views, list, oid, kept, curr, seen) && curr < |kept|
    requires oid <= views[kept[curr]] && oid != views[kept[curr]]
    ensures Filtering(views, list, oid, kept[..curr] + kept[curr + 1..], curr, seen + 1)
  {
    FilterTurn(views, list, oid, kept, curr, seen);
    var kept' := kept[..curr] + kept[curr + 1..];
    assert kept'[..curr] == kept[..curr];
    assert kept'[curr..] == kept[curr..][1..] == list[seen..][1..] == list[seen + 1..];
  }

  lemma FilterKeep(views: seq<Oid>, list: seq<ViewId>, oid: Oid, kept: seq<ViewId>, curr: nat, seen: nat)
    requires InRange(views, list) && Filtering(views, list, oid, kept, curr, seen) && curr < |kept|
    requires !(oid <= views[kept[curr]]) && !(views[kept[curr]] <= oid)
    ensures Filtering(views, list, oid, kept, curr + 1, seen + 1)
  {
    FilterTurn(views, list, oid, kept, curr, seen);
    assert kept[..curr + 1] == kept[..curr] + [kept[curr]];
    assert kept[curr + 1..] == kept[curr..][1..] == list[seen..][1..] == list[seen + 1..];
  }

  /** Finding a covering view means that nothing was dropped before. */
  lemma FilterFound(views: seq<Oid>, list: seq<ViewId>, oid: Oid, kept: seq<ViewId>, curr: nat, seen: nat)
    requires InRange(views, list) && Chain(views, list)
    requires Filtering(views, list, oid, kept, curr, seen) && curr < |kept| && kept[curr] < |views| && views[kept[curr]] <= oid
    ensures kept == list && Covers(views, list, oid)
  {
    FilterTurn(views, list, oid, kept, curr, seen);
    if curr < seen {
      var i :| 0 <= i < seen && oid <= views[list[i]];
      ChainOneSide(views, list, seen, i, oid);
    }
  }

  lemma FilterStart(views: seq<Oid>, list: seq<ViewId>, oid: Oid)
    requires InRange(views, list)
    ensures Filtering(views, list, oid, list, 0, 0)
  {
    assert list[..0] == [];
  }

  lemma FilterEnd(views: seq<Oid>, list: seq<ViewId>, oid: Oid, kept: seq<ViewId>, seen: nat)
    requires InRange(views, list) && Filtering(views, list, oid, kept, |kept|, seen)
    ensures kept == Uncovered(views, list, oid) && !Covers(views, list, oid)
  {
    assert |kept[|kept|..]| == |list[seen..]|;
    assert list[..seen] == list && kept[..|kept|] == kept;
  }

  /** One turn of the loop of community_view_filter. */
  method FilterStep(views: seq<Oid>, kept: seq<ViewId>, curr: nat, oid: Oid, ghost list: seq<ViewId>, ghost seen: nat)
    returns (found: bool, kept': seq<ViewId>, curr': nat)
    requires InRange(views, list) && Chain(views, list)
    requires Filtering(views, list, oid, kept, curr, seen) && curr < |kept|
    ensures found ==> kept' == list && Covers(views, list, oid)
    ensures !found ==> Filtering(views, list, oid, kept', curr', seen + 1) && |kept'| - curr' < |kept| - curr
  {
    found, kept', curr' := false, kept, curr;
    FilterTurn(views, list, oid, kept, curr, seen);
    var cover := OidCover(views[kept[curr]], oid);
    if cover > 0 {
      FilterFound(views, list, oid, kept, curr, seen);
      found := true;
    } else if cover < 0 {
      FilterDrop(views, list, oid, kept, curr, seen);
      kept' := kept[..curr] + kept[curr + 1..];
    } else {
      FilterKeep(views, list, oid, kept, curr, seen);
      curr' := curr + 1;
    }
  }

  /** community_view_filter: reports a covering view, or drops the covered ones in place. */
  method Filter(views: seq<Oid>, list: seq<ViewId>, oid: Oid) returns (filtered: bool, kept: seq<ViewId>)
    requires InRange(views, list) && Chain(views, list)
    ensures filtered <==> Covers(views, list, oid)
    ensures filtered ==> kept == list
    ensures !filtered ==> kept == Uncovered(views, list, oid)
  {
    kept, filtered := list, false;
    FilterStart(views, list, oid);
    var curr: nat := 0;
    ghost var seen: nat := 0;
    while curr < |kept| && !filtered
      invariant !filtered ==> Filtering(views, list, oid, kept, curr, seen)
      invariant filtered ==> kept == list && Covers(views, list, oid)
      decreases !filtered, |kept| - curr
    {
      filtered, kept, curr := FilterStep(views, kept, curr, oid, list, seen);
      seen := seen + 1;
    }
    if !filtered {
      FilterEnd(views, list, oid, kept, seen);
    }
  }

  /** `id` stands apart from every member of `list`: neither covers the other. */
  ghost predicate Apart(views: seq<Oid>, list: seq<ViewId>, id: ViewId)
    requires InRange(views, list) && id < |views|
  {
    forall i :: 0 <= i < |list| ==> !(views[list[i]] <= views[id]) && !(views[id] <= views[list[i]])
  }

  lemma InsertChain(views: seq<Oid>, list: seq<ViewId>, id: ViewId, k: nat)
    requires InRange(views, list) && Chain(views, list) && id < |views| && k <= |list|
    requires forall i :: 0 <= i < k ==> After(views[list[i]], views[id])
    requires forall i :: k <= i < |list| ==> After(views[id], views[list[i]])
    ensures InRange(views, list[..k] + [id] + list[k..]) && Chain(views, list[..k] + [id] + list[k..])
  {
    var r := list[..k] + [id] + list[k..];
    assert forall i :: 0 <= i < |r| ==> r[i] == if i < k then list[i] else if i == k then id else list[i - 1];
    forall i, j | 0 <= i < j < |r| ensures After(views[r[i]], views[r[j]]) {
      if j < k {
        assert r[i] == list[i] && r[j] == list[j];
      } else if i > k {
        assert r[i] == list[i - 1] && r[j] == list[j - 1];
      }
    }
  }

  /** community_view_add: in front of the first greater view, else at the end. */
  method Add(views: seq<Oid>, list: seq<ViewId>, id: ViewId) returns (r: seq<ViewId>)
    requires InRange(views, list) && Chain(views, list) && id < |views| && Apart(views, list, id) && AllSmall(views)
    ensures InRange(views, r) && Chain(views, r)
    ensures exists k :: 0 <= k <= |list| && r == list[..k] + [id] + list[k..]
  {
    var k := 0;
    while k < |list|
      invariant 0 <= k <= |list|
      invariant forall i :: 0 <= i < k ==> After(views[list[i]], views[id])
    {
      var cmp := OidCmp(views[list[k]], views[id]);
      CmpOrders(views[list[k]], views[id]);
      LessTotal(views[list[k]], views[id]);
      if cmp > 0 {
        break;
      }
      k := k + 1;
    }
    forall i | k <= i < |list| ensures After(views[id], views[list[i]]) {
      if k < i { SubtreeBefore(views[list[k]], views[list[k]], views[list[i]], views[list[i]]); LessTransitive(views[id], views[list[k]], views[list[i]]); }
    }
    InsertChain(views, list, id, k);
    r := list[..k] + [id] + list[k..];
  }

  /** mib_community_view_cover over one list. */
  method ViewCover(views: seq<Oid>, list: seq<ViewId>, oid: Oid) returns (r: bool)
    requires InRange(views, list)
    ensures r <==> Covers(views, list, oid)
  {
    for i := 0 to |list|
      invariant forall j :: 0 <= j < i ==> !(views[list[j]] <= oid)
    {
      var cover := OidCover(views[list[i]], oid);
      if cover > 0 {
        return true;
      }
    }
    r := false;
  }

  /** mib_community_next_view: the first view for None, else the one after `v`. */
  method NextView(list: seq<ViewId>, v: Option<ViewId>) returns (r: Option<ViewId>)
    requires forall i, j :: 0 <= i < j < |list| ==> list[i] != list[j]
    ensures v.None? ==> r == if list == [] then None else Some(list[0])
    ensures forall k :: 0 <= k < |list| && v == Some(list[k]) ==> r == if k + 1 < |list| then Some(list[k + 1]) else None
    ensures v.Some? && v.value !in list ==> r == None
  {
    for i := 0 to |list|
      invariant i > 0 ==> v.Some?
      invariant forall k :: 0 <= k < i && v == Some(list[k]) ==> k + 1 == |list|
    {
      if v.None? {
        return Some(list[0]);
      } else if v.value == list[i] {
        if i + 1 != |list| {
          return Some(list[i + 1]);
        }
      }
    }
    r := None;
  }
}
