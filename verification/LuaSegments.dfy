/** Generation of a group's index segments: tables are inserted in order of their numbers, and the
    scalars are then spread between them (lualib/smithsnmp/init.lua:261-394). */
module LuaSegments {
  import opened Oids
  import opened LuaIndex
  import opened LuaGroup

  ghost predicate IsTableSegment(m: Member, seg: IndexTable) {
    && m.kind.Table? && |seg| >= 4 && seg[0] == [Num(m.no)] && seg[1] == [Num(m.kind.entryNo)]
    && DimSorted(seg[2]) && Holds(seg[2], m.kind.vars) && RowsOk(seg, 3, m.kind.indexes)
  }

  ghost predicate IsScalarSegment(seg: IndexTable) {
    && |seg| == 2 && DimSorted(seg[0]) && (forall i :: 0 <= i < |seg[0]| ==> seg[0][i].Num?)
    && seg[1] == [Num(0)]
  }

  /** The segment of a table; None when its keys cannot be compared. */
  method TableSegment(m: Member) returns (r: Option<IndexTable>)
    requires m.kind.Table? && MemberOk(m)
    ensures r.None? <==> m.kind.indexes.Keys? && Mixed(m.kind.indexes.keys)
    ensures r.Some? ==> IsTableSegment(m, r.value)
  {
    var seg := [[Num(m.no)], [Num(m.kind.entryNo)], Sort(Nums(m.kind.vars))];
    NumsSorted(m.kind.vars);
    match m.kind.indexes
    case Cascade(dims) =>
      for d := 0 to |dims|
        invariant |seg| == 3 + d && seg[0] == [Num(m.no)] && seg[1] == [Num(m.kind.entryNo)] && seg[2] == Sort(Nums(m.kind.vars))
        invariant forall k :: 3 <= k < |seg| ==> DimSorted(seg[k]) && Holds(seg[k], dims[k - 3])
      {
        NumsSorted(dims[d]);
        seg := seg + [Sort(Nums(dims[d]))];
      }
      r := Some(seg);
    case Keys(keys) =>
      if Mixed(keys) {
        return None;
      }
      KeysSorted(keys);
      r := Some(seg + [Sort(keys)]);
  }

  lemma TableSegmentOk(m: Member, seg: IndexTable)
    requires IsTableSegment(m, seg)
    ensures IndexOk(seg)
  {
    forall d | 0 <= d < |seg| ensures DimSorted(seg[d]) {
      SortedDim(m, seg, d);
    }
    forall d, i | 0 <= d < |seg| - 1 && 0 <= i < |seg[d]| ensures seg[d][i].Num? {
      InnerNumbers(m, seg, d, i);
    }
  }

  lemma SortedDim(m: Member, seg: IndexTable, d: nat)
    requires IsTableSegment(m, seg) && d < |seg|
    ensures DimSorted(seg[d])
  {
    if d < 2 {
      assert |seg[d]| == 1;
    }
  }

  lemma InnerNumbers(m: Member, seg: IndexTable, d: nat, i: nat)
    requires IsTableSegment(m, seg) && d < |seg| - 1 && i < |seg[d]|
    ensures seg[d][i].Num?
  {
    if d >= 3 { assert Holds(seg[d], m.kind.indexes.dims[d - 3]); }
  }

  /** The segment of a table holds exactly its variables. */
  lemma TableVars(m: Member, seg: IndexTable, o: Oid)
    requires IsTableSegment(m, seg)
    ensures o in Prod(seg, 0) <==> MemberVar(m, o)
  {
    ProdCons(seg, 0, [m.no], o);
    if |o| > 0 {
      ProdCons(seg, 1, [m.kind.entryNo], o[1..]);
      if |o| > 1 {
        ProdCons(seg, 2, m.kind.vars, o[1..][1..]);
        if |o| > 2 {
          assert o[1..][1..][1..] == o[3..];
          RowsAre(seg, 3, m.kind.indexes, o[3..]);
        }
      }
    }
  }

  lemma ScalarVars(seg: IndexTable, o: Oid)
    requires IsScalarSegment(seg)
    ensures o in Prod(seg, 0) <==> |o| == 2 && Num(o[0]) in seg[0] && o[1] == 0
  {
    var s := seq(|seg[0]|, i requires 0 <= i < |seg[0]| => seg[0][i].n);
    forall x ensures Num(x) in seg[0] <==> x in s {
      if x in s { var i :| 0 <= i < |s| && s[i] == x; assert seg[0][i] == Num(x); }
      if Num(x) in seg[0] { var i :| 0 <= i < |s| && seg[0][i] == Num(x); assert s[i] == x; }
    }
    ProdCons(seg, 0, s, o);
    if |o| > 0 {
      ProdLast(seg, [0], o[1..]);
    }
  }

  // ---------------------------------------------------------------------
  // Order
  // ---------------------------------------------------------------------

  ghost predicate Before(s: IndexTable, t: IndexTable) {
    |s| > 0 && |t| > 0 && forall x, y :: x in s[0] && y in t[0] ==> x.Num? && y.Num? && x.n < y.n
  }

  ghost predicate Ascending(gi: seq<IndexTable>) {
    forall a, b :: 0 <= a < b < |gi| ==> Before(gi[a], gi[b])
  }

  predicate Single(seg: IndexTable) {
    |seg| > 0 && |seg[0]| == 1 && seg[0][0].Num?
  }

  ghost predicate Singles(gi: seq<IndexTable>) {
    forall i :: 0 <= i < |gi| ==> Single(gi[i])
  }

  function InsertAt(gi: seq<IndexTable>, i: nat, seg: IndexTable): (r: seq<IndexTable>)
    requires i <= |gi|
    ensures |r| == |gi| + 1 && forall s :: s in r <==> s == seg || s in gi
  {
    var r := gi[..i] + [seg] + gi[i..];
    assert gi == gi[..i] + gi[i..];
    r
  }

  lemma InsertAscending(gi: seq<IndexTable>, i: nat, seg: IndexTable)
    requires i <= |gi| && Ascending(gi)
    requires forall a :: 0 <= a < i ==> Before(gi[a], seg)
    requires forall b :: i <= b < |gi| ==> Before(seg, gi[b])
    ensures Ascending(InsertAt(gi, i, seg))
  {
    var r := InsertAt(gi, i, seg);
    forall a, b | 0 <= a < b < |r| ensures Before(r[a], r[b]) {
      assert r[a] == if a < i then gi[a] else if a == i then seg else gi[a - 1];
      assert r[b] == if b < i then gi[b] else if b == i then seg else gi[b - 1];
    }
  }

  lemma SingleBefore(s: IndexTable, t: IndexTable)
    requires Single(s) && Single(t)
    ensures Before(s, t) <==> s[0][0].n < t[0][0].n
  {
    assert s[0] == [s[0][0]] && t[0] == [t[0][0]];
  }

  /** The position of the first table with a larger number. */
  method Place(gi: seq<IndexTable>, seg: IndexTable) returns (at: nat)
    requires Singles(gi) && Ascending(gi) && Single(seg)
    requires forall i :: 0 <= i < |gi| ==> gi[i][0] != seg[0]
    ensures at <= |gi| && (forall a :: 0 <= a < at ==> Before(gi[a], seg))
    ensures at < |gi| ==> Before(seg, gi[at])
  {
    for i := 0 to |gi|
      invariant forall a :: 0 <= a < i ==> Before(gi[a], seg)
    {
      SingleBefore(seg, gi[i]);
      SingleBefore(gi[i], seg);
      if seg[0][0].n < gi[i][0][0].n {
        return i;
      }
      assert gi[i][0] == [gi[i][0][0]] && seg[0] == [seg[0][0]];
    }
    at := |gi|;
  }

  /** A table goes before the first one with a larger number. */
  method InsertTable(gi: seq<IndexTable>, seg: IndexTable) returns (r: seq<IndexTable>, ghost at: nat)
    requires Singles(gi) && Ascending(gi) && Single(seg)
    requires forall i :: 0 <= i < |gi| ==> gi[i][0] != seg[0]
    ensures Singles(r) && Ascending(r)
    ensures at <= |gi| && r == InsertAt(gi, at, seg)
  {
    var place := Place(gi, seg);
    at := place;
    forall b | at <= b < |gi| ensures Before(seg, gi[b]) {
      if at < b {
        assert Before(gi[at], gi[b]);
        SingleBefore(seg, gi[at]);
        SingleBefore(gi[at], gi[b]);
        SingleBefore(seg, gi[b]);
      }
    }
    InsertAscending(gi, at, seg);
    r := InsertAt(gi, place, seg);
    forall i | 0 <= i < |r| ensures Single(r[i]) { assert r[i] in r; }
  }

  // ---------------------------------------------------------------------
  // Scalars
  // ---------------------------------------------------------------------

  /** Ascending numbers. */
  ghost predicate Ascends(s: seq<Elem>) {
    && (forall i :: 0 <= i < |s| ==> s[i].Num?)
    && forall i, j :: 0 <= i < j < |s| ==> s[i].n < s[j].n
  }

  /** How many leading scalars have numbers up to `no`. */
  method CountUpTo(s: seq<Elem>, no: SubId) returns (j: nat)
    requires Ascends(s)
    ensures j <= |s| && (forall k :: 0 <= k < j ==> s[k].n <= no) && forall k :: j <= k < |s| ==> no < s[k].n
  {
    j := 0;
    while j < |s|
      invariant j <= |s| && forall k :: 0 <= k < j ==> s[k].n <= no
    {
      if s[j].n > no {
        break;
      }
      j := j + 1;
    }
  }

  lemma ScalarSegmentOf(s: seq<Elem>)
    requires Ascends(s)
    ensures IsScalarSegment([s, [Num(0)]])
  {
    forall i, j | 0 <= i < j < |s| ensures Less(Key(s[i]), Key(s[j])) {
      HeadFirst(s[i].n, [], s[j].n, []);
      assert [s[i].n] + [] == Key(s[i]) && [s[j].n] + [] == Key(s[j]);
    }
  }

  /** The segment is one of the tables, or holds scalars only. */
  ghost predicate Known(tables: seq<IndexTable>, scalars: seq<Elem>, seg: IndexTable) {
    seg in tables || (IsScalarSegment(seg) && forall e :: e in seg[0] ==> e in scalars)
  }

  ghost predicate Placed(gi: seq<IndexTable>, e: Elem) {
    exists seg :: seg in gi && IsScalarSegment(seg) && e in seg[0]
  }

  /** Part way through spreading `scalars` over `tables`: `rest` is left, and segments before `i` are settled. */
  ghost predicate Spread(tables: seq<IndexTable>, scalars: seq<Elem>, gi: seq<IndexTable>, rest: seq<Elem>, i: nat) {
    && i <= |gi| && Ascending(gi) && Ascends(rest) && Kept(tables, scalars, gi, rest)
    && (forall a :: 0 <= a < i ==> Before(gi[a], [rest]))
    && (forall a :: i <= a < |gi| ==> gi[a] in tables)
  }

  /** No table and no scalar is lost. */
  ghost predicate Kept(tables: seq<IndexTable>, scalars: seq<Elem>, gi: seq<IndexTable>, rest: seq<Elem>) {
    && (forall seg :: seg in tables ==> seg in gi)
    && (forall seg :: seg in gi ==> Known(tables, scalars, seg))
    && (forall e :: e in rest ==> e in scalars)
    && (forall e :: e in scalars ==> e in rest || Placed(gi, e))
  }

  ghost predicate Separable(tables: seq<IndexTable>, scalars: seq<Elem>) {
    && (forall seg :: seg in tables ==> Single(seg))
    && forall seg, e :: seg in tables && e in scalars ==> e !in seg[0]
  }

  lemma HeadOnly(seg: IndexTable)
    requires Single(seg)
    ensures forall y :: y in seg[0] ==> y == seg[0][0]
  {
  }

  /** What lies below the head of a segment lies before every later segment. */
  lemma BeforeHead(seg: IndexTable, first: IndexTable, later: IndexTable)
    requires |seg| > 0 && Single(first) && Before(first, later)
    requires forall x :: x in seg[0] ==> x.Num? && x.n < first[0][0].n
    ensures Before(seg, later)
  {
    assert first[0][0] in first[0];
  }

  /** Scalars up to the next table go in front of it. */
  lemma ScalarsFit(tables: seq<IndexTable>, scalars: seq<Elem>, gi: seq<IndexTable>, rest: seq<Elem>, i: nat, j: nat)
    requires Spread(tables, scalars, gi, rest, i) && Separable(tables, scalars) && i < |gi| && j <= |rest|
    requires forall k :: 0 <= k < j ==> rest[k].n <= gi[i][0][0].n
    ensures var seg := [rest[..j], [Num(0)]];
      && (forall a :: 0 <= a < i ==> Before(gi[a], seg))
      && (forall b :: i <= b < |gi| ==> Before(seg, gi[b]))
  {
    var seg: IndexTable := [rest[..j], [Num(0)]];
    forall x | x in rest[..j] ensures x in rest && x.Num? && x.n < gi[i][0][0].n {
      assert x in rest && x in scalars && gi[i] in tables;
      assert gi[i][0][0] in gi[i][0];
    }
    forall a | 0 <= a < i ensures Before(gi[a], seg) {
      assert Before(gi[a], [rest]);
    }
    forall b | i <= b < |gi| ensures Before(seg, gi[b]) {
      if i < b {
        assert Before(gi[i], gi[b]);
        BeforeHead(seg, gi[i], gi[b]);
      } else {
        HeadOnly(gi[i]);
      }
    }
  }

  lemma RestAfter(seg: IndexTable, rest: seq<Elem>, j: nat)
    requires Before(seg, [rest]) && j <= |rest|
    ensures Before(seg, [rest[j..]])
  {
    forall x, y | x in seg[0] && y in rest[j..] ensures x.Num? && y.Num? && x.n < y.n {
      assert y in [rest][0];
    }
  }

  /** The segments settled after scalars were put in front of a table. */
  lemma Settled(tables: seq<IndexTable>, scalars: seq<Elem>, gi: seq<IndexTable>, rest: seq<Elem>, i: nat, j: nat, a: nat)
    requires Spread(tables, scalars, gi, rest, i) && Separable(tables, scalars) && i < |gi| && j <= |rest| && a < i + 2
    requires forall k :: j <= k < |rest| ==> gi[i][0][0].n < rest[k].n
    ensures Before(InsertAt(gi, i, [rest[..j], [Num(0)]])[a], [rest[j..]])
  {
    var r := InsertAt(gi, i, [rest[..j], [Num(0)]]);
    if a < i {
      assert r[a] == gi[a];
      RestAfter(gi[a], rest, j);
    } else if a == i {
      assert r[a] == [rest[..j], [Num(0)]];
    } else {
      assert r[a] == gi[i] && gi[i][0] == [gi[i][0][0]];
    }
  }

  lemma PlacedKept(gi: seq<IndexTable>, i: nat, seg: IndexTable, e: Elem)
    requires i <= |gi| && (Placed(gi, e) || (IsScalarSegment(seg) && e in seg[0]))
    ensures Placed(InsertAt(gi, i, seg), e)
  {
    if Placed(gi, e) {
      var s :| s in gi && IsScalarSegment(s) && e in s[0];
      assert s in InsertAt(gi, i, seg);
    } else {
      assert seg in InsertAt(gi, i, seg);
    }
  }

  lemma AllKept(tables: seq<IndexTable>, scalars: seq<Elem>, gi: seq<IndexTable>, rest: seq<Elem>, at: nat, j: nat)
    requires Kept(tables, scalars, gi, rest) && Ascends(rest) && j <= |rest| && at <= |gi|
    ensures Kept(tables, scalars, InsertAt(gi, at, [rest[..j], [Num(0)]]), rest[j..])
  {
    ScalarSegmentOf(rest[..j]);
    var seg: IndexTable := [rest[..j], [Num(0)]];
    assert Known(tables, scalars, seg);
    forall e | e in scalars && e !in rest[j..] ensures Placed(InsertAt(gi, at, seg), e) {
      assert rest == rest[..j] + rest[j..];
      PlacedKept(gi, at, seg, e);
    }
  }

  /** The segments stay in order when scalars are put in front of a table. */
  lemma OrderKept(tables: seq<IndexTable>, scalars: seq<Elem>, gi: seq<IndexTable>, rest: seq<Elem>, i: nat, j: nat)
    requires Spread(tables, scalars, gi, rest, i) && Separable(tables, scalars) && i < |gi| && j <= |rest|
    requires forall k :: 0 <= k < j ==> rest[k].n <= gi[i][0][0].n
    requires forall k :: j <= k < |rest| ==> gi[i][0][0].n < rest[k].n
    ensures var gi' := InsertAt(gi, i, [rest[..j], [Num(0)]]);
      && Ascending(gi')
      && (forall a :: 0 <= a < i + 2 ==> Before(gi'[a], [rest[j..]]))
      && (forall a :: i + 2 <= a < |gi'| ==> gi'[a] in tables)
  {
    var seg: IndexTable := [rest[..j], [Num(0)]];
    var gi' := InsertAt(gi, i, seg);
    ScalarsFit(tables, scalars, gi, rest, i, j);
    InsertAscending(gi, i, seg);
    forall a | 0 <= a < i + 2 ensures Before(gi'[a], [rest[j..]]) {
      Settled(tables, scalars, gi, rest, i, j, a);
    }
    forall a | i + 2 <= a < |gi'| ensures gi'[a] in tables { assert gi'[a] == gi[a - 1]; }
  }

  /** The turn for one table. */
  method SpreadOne(ghost tables: seq<IndexTable>, ghost scalars: seq<Elem>, gi: seq<IndexTable>, rest: seq<Elem>, i: nat)
    returns (gi': seq<IndexTable>, rest': seq<Elem>, i': nat)
    requires Spread(tables, scalars, gi, rest, i) && Separable(tables, scalars) && i < |gi|
    ensures Spread(tables, scalars, gi', rest', i') && |gi'| - i' == |gi| - i - 1
  {
    assert gi[i] in tables;
    var j := CountUpTo(rest, gi[i][0][0].n);
    gi', rest', i' := gi, rest, i;
    if j > 0 {
      OrderKept(tables, scalars, gi, rest, i, j);
      AllKept(tables, scalars, gi, rest, i, j);
      gi' := InsertAt(gi, i, [rest[..j], [Num(0)]]);
      i' := i' + 1;
      rest' := rest[j..];
    } else {
      assert gi[i][0] == [gi[i][0][0]];
      assert Before(gi[i], [rest]);
    }
    i' := i' + 1;
  }

  /** The scalars are spread between the tables, by number. */
  method Separate(tables: seq<IndexTable>, scalars: seq<Elem>) returns (gi: seq<IndexTable>)
    requires Ascending(tables) && Ascends(scalars) && Separable(tables, scalars)
    ensures Ascending(gi)
    ensures forall seg :: seg in tables ==> seg in gi
    ensures forall seg :: seg in gi ==> Known(tables, scalars, seg)
    ensures forall e :: e in scalars ==> Placed(gi, e)
  {
    var rest, i: nat := scalars, 0;
    gi := tables;
    while i < |gi|
      invariant Spread(tables, scalars, gi, rest, i)
      decreases |gi| - i
    {
      gi, rest, i := SpreadOne(tables, scalars, gi, rest, i);
    }
    if rest != [] {
      AllKept(tables, scalars, gi, rest, |gi|, |rest|);
      assert rest[..|rest|] == rest;
      forall a | 0 <= a < |gi| ensures Before(gi[a], [rest, [Num(0)]]) { assert Before(gi[a], [rest]); }
      InsertAscending(gi, |gi|, [rest, [Num(0)]]);
      gi := InsertAt(gi, |gi|, [rest, [Num(0)]]);
    }
  }

  // ---------------------------------------------------------------------
  // The whole group
  // ---------------------------------------------------------------------

  /** A relation between tables and their segments. */
  type Rel = (Member, IndexTable) -> bool

  ghost predicate Tabular(rel: Rel) {
    forall m, seg :: rel(m, seg) ==> m.kind.Table? && |seg| > 0 && seg[0] == [Num(m.no)]
  }

  ghost predicate HasScalar(group: Group, k: nat, no: SubId) {
    exists j :: 0 <= j < k <= |group| && group[j] == Member(no, Scalar)
  }

  ghost predicate HasTable(rel: Rel, group: Group, k: nat, seg: IndexTable) {
    exists j :: 0 <= j < k <= |group| && rel(group[j], seg)
  }

  ghost predicate TableIn(rel: Rel, tables: seq<IndexTable>, m: Member) {
    exists seg :: seg in tables && rel(m, seg)
  }

  /** The first `k` members are collected: tables in order of their numbers, scalars as they come;
      table `i` belongs to member `from[i]`. */
  ghost predicate Collected(rel: Rel, group: Group, k: nat, tables: seq<IndexTable>, from: seq<nat>, scalars: seq<Elem>) {
    && Singles(tables) && Ascending(tables) && k <= |group|
    && Gathered(rel, group, k, tables, from) && Listed(group, k, scalars)
  }

  ghost predicate Gathered(rel: Rel, group: Group, k: nat, tables: seq<IndexTable>, from: seq<nat>)
    requires k <= |group|
  {
    && |from| == |tables| && (forall i :: 0 <= i < |from| ==> from[i] < k && rel(group[from[i]], tables[i]))
    && (forall j :: 0 <= j < k && group[j].kind.Table? ==> j in from)
  }

  ghost predicate Listed(group: Group, k: nat, scalars: seq<Elem>)
    requires k <= |group|
  {
    && DistinctKeys(scalars)
    && (forall e :: e in scalars ==> e.Num? && HasScalar(group, k, e.n))
    && (forall j :: 0 <= j < k && group[j].kind.Scalar? ==> Num(group[j].no) in scalars)
  }

  /** Some table of the group has keys that cannot be compared. */
  ghost predicate Unsortable(group: Group) {
    exists j :: 0 <= j < |group| && MixedKeys(group[j])
  }

  predicate MixedKeys(m: Member) {
    m.kind.Table? && m.kind.indexes.Keys? && Mixed(m.kind.indexes.keys)
  }

  lemma StillScalar(group: Group, k: nat, no: SubId)
    requires HasScalar(group, k, no) && k < |group|
    ensures HasScalar(group, k + 1, no)
  {
    var j :| 0 <= j < k && group[j] == Member(no, Scalar);
  }

  lemma AddScalar(group: Group, k: nat, scalars: seq<Elem>)
    requires k < |group| && Listed(group, k, scalars) && GroupOk(group) && group[k].kind.Scalar?
    ensures Listed(group, k + 1, scalars + [Num(group[k].no)])
  {
    var m := group[k];
    assert group[k] == Member(m.no, Scalar);
    forall e | e in scalars + [Num(m.no)] ensures e.Num? && HasScalar(group, k + 1, e.n) {
      if e in scalars { StillScalar(group, k, e.n); }
    }
    forall e | e in scalars ensures e.n != m.no {
      var j :| 0 <= j < k && group[j] == Member(e.n, Scalar);
    }
  }

  lemma PassTable(group: Group, k: nat, scalars: seq<Elem>)
    requires k < |group| && Listed(group, k, scalars) && group[k].kind.Table?
    ensures Listed(group, k + 1, scalars)
  {
    forall e | e in scalars ensures e.Num? && HasScalar(group, k + 1, e.n) {
      StillScalar(group, k, e.n);
    }
  }

  lemma AddTable(rel: Rel, group: Group, k: nat, tables: seq<IndexTable>, from: seq<nat>, seg: IndexTable, at: nat)
    requires k < |group| && Gathered(rel, group, k, tables, from) && rel(group[k], seg) && at <= |tables|
    ensures Gathered(rel, group, k + 1, InsertAt(tables, at, seg), from[..at] + [k] + from[at..])
  {
    var tables', from' := InsertAt(tables, at, seg), from[..at] + [k] + from[at..];
    assert from == from[..at] + from[at..];
    forall i | 0 <= i < |from'| ensures from'[i] < k + 1 && rel(group[from'[i]], tables'[i]) {
      assert tables'[i] == if i < at then tables[i] else if i == at then seg else tables[i - 1];
    }
  }

  /** The turn for a table. */
  method CollectTable(ghost rel: Rel, group: Group, k: nat, tables: seq<IndexTable>, ghost from: seq<nat>, ghost scalars: seq<Elem>, seg: IndexTable)
    returns (tables': seq<IndexTable>, ghost from': seq<nat>)
    requires Tabular(rel) && GroupOk(group) && Collected(rel, group, k, tables, from, scalars) && k < |group| && rel(group[k], seg)
    ensures Collected(rel, group, k + 1, tables', from', scalars)
  {
    forall i | 0 <= i < |tables| ensures tables[i][0] != seg[0] {
      assert tables[i][0][0] == Num(group[from[i]].no);
    }
    ghost var at;
    tables', at := InsertTable(tables, seg);
    from' := from[..at] + [k] + from[at..];
    AddTable(rel, group, k, tables, from, seg, at);
    PassTable(group, k, scalars);
  }

  lemma TabularSegments()
    ensures Tabular(IsTableSegment)
  {
  }

  /** The turn for a member; None when it raises an error. */
  method CollectMember(ghost rel: Rel, group: Group, k: nat, tables: seq<IndexTable>, ghost from: seq<nat>, scalars: seq<Elem>)
    returns (r: Option<(seq<IndexTable>, seq<Elem>)>, ghost from': seq<nat>)
    requires rel == IsTableSegment && Tabular(rel) && GroupOk(group) && Collected(rel, group, k, tables, from, scalars) && k < |group|
    ensures r.None? <==> MixedKeys(group[k])
    ensures r.Some? ==> Collected(rel, group, k + 1, r.value.0, from', r.value.1)
  {
    from' := from;
    if group[k].kind.Table? {
      var seg := TableSegment(group[k]);
      if seg.None? {
        return None, from;
      }
      var tables';
      tables', from' := CollectTable(rel, group, k, tables, from, scalars, seg.value);
      r := Some((tables', scalars));
    } else {
      AddScalar(group, k, scalars);
      r := Some((tables, scalars + [Num(group[k].no)]));
    }
  }

  /** `mib_group_indexes_generate`, first loop; None when it raises an error. */
  method Collect(ghost rel: Rel, group: Group) returns (r: Option<(seq<IndexTable>, seq<Elem>)>, ghost from: seq<nat>)
    requires rel == IsTableSegment && Tabular(rel) && GroupOk(group)
    ensures r.None? <==> Unsortable(group)
    ensures r.Some? ==> Collected(rel, group, |group|, r.value.0, from, r.value.1)
  {
    var tables: seq<IndexTable>, scalars: seq<Elem> := [], [];
    from := [];
    for k := 0 to |group|
      invariant Collected(rel, group, k, tables, from, scalars)
      invariant forall j :: 0 <= j < k ==> !MixedKeys(group[j])
    {
      r, from := CollectMember(rel, group, k, tables, from, scalars);
      if r.None? {
        return;
      }
      tables, scalars := r.value.0, r.value.1;
    }
    r := Some((tables, scalars));
  }

  lemma SortNumbers(scalars: seq<Elem>)
    requires DistinctKeys(scalars) && forall e :: e in scalars ==> e.Num?
    ensures Ascends(Sort(scalars)) && forall e :: e in Sort(scalars) <==> e in scalars
  {
    var s := Sort(scalars);
    SortStrict(scalars);
    forall e ensures e in s <==> e in scalars { SortMembers(scalars, e); }
    forall i | 0 <= i < |s| ensures s[i].Num? { assert s[i] in s; }
    forall i, j | 0 <= i < j < |s| ensures s[i].n < s[j].n {
      HeadFirst(s[i].n, [], s[j].n, []);
      assert [s[i].n] + [] == Key(s[i]) && [s[j].n] + [] == Key(s[j]);
    }
  }

  /** The numbers of scalars differ from those of tables. */
  lemma NumbersDiffer(rel: Rel, group: Group, tables: seq<IndexTable>, from: seq<nat>, scalars: seq<Elem>, t: nat, e: Elem)
    requires Tabular(rel) && GroupOk(group) && Collected(rel, group, |group|, tables, from, scalars) && t < |tables| && e in scalars
    ensures e !in tables[t][0]
  {
    var k :| 0 <= k < |group| && group[k] == Member(e.n, Scalar);
    assert tables[t][0] == [Num(group[from[t]].no)];
  }

  lemma Separated(rel: Rel, group: Group, tables: seq<IndexTable>, from: seq<nat>, scalars: seq<Elem>, s: seq<Elem>)
    requires Tabular(rel) && GroupOk(group) && Collected(rel, group, |group|, tables, from, scalars)
    requires forall e :: e in s <==> e in scalars
    ensures Separable(tables, s)
  {
    forall seg, e | seg in tables && e in s ensures e !in seg[0] {
      var t :| 0 <= t < |tables| && tables[t] == seg;
      NumbersDiffer(rel, group, tables, from, scalars, t, e);
    }
    forall seg | seg in tables ensures Single(seg) {
      var t :| 0 <= t < |tables| && tables[t] == seg;
    }
  }

  /** Every segment comes from the group, and every member is in a segment. */
  ghost predicate Generated(group: Group, gi: seq<IndexTable>) {
    && Ascending(gi)
    && (forall i :: 0 <= i < |gi| ==> FromGroup(group, gi[i]))
    && (forall j :: 0 <= j < |group| ==> InSegments(gi, group[j]))
  }

  ghost predicate FromGroup(group: Group, seg: IndexTable) {
    || HasTable(IsTableSegment, group, |group|, seg)
    || (IsScalarSegment(seg) && forall e :: e in seg[0] ==> HasScalar(group, |group|, e.n))
  }

  ghost predicate InSegments(gi: seq<IndexTable>, m: Member) {
    match m.kind
    case Scalar => Placed(gi, Num(m.no))
    case Table(_, _, _) => TableIn(IsTableSegment, gi, m)
  }

  lemma AllFrom(group: Group, tables: seq<IndexTable>, from: seq<nat>, scalars: seq<Elem>, seg: IndexTable)
    requires Collected(IsTableSegment, group, |group|, tables, from, scalars) && Known(tables, scalars, seg)
    ensures FromGroup(group, seg)
  {
    if seg in tables {
      var t :| 0 <= t < |tables| && tables[t] == seg;
      assert IsTableSegment(group[from[t]], seg);
    }
  }

  lemma AllIn(group: Group, tables: seq<IndexTable>, from: seq<nat>, scalars: seq<Elem>, gi: seq<IndexTable>, j: nat)
    requires Collected(IsTableSegment, group, |group|, tables, from, scalars) && j < |group|
    requires (forall seg :: seg in tables ==> seg in gi) && forall e :: e in scalars ==> Placed(gi, e)
    ensures InSegments(gi, group[j])
  {
    if group[j].kind.Table? {
      var t :| 0 <= t < |from| && from[t] == j;
      assert tables[t] in gi && IsTableSegment(group[j], tables[t]);
    }
  }

  lemma AllGenerated(group: Group, tables: seq<IndexTable>, from: seq<nat>, scalars: seq<Elem>, gi: seq<IndexTable>)
    requires Collected(IsTableSegment, group, |group|, tables, from, scalars) && Ascending(gi)
    requires forall seg :: seg in tables ==> seg in gi
    requires forall seg :: seg in gi ==> Known(tables, scalars, seg)
    requires forall e :: e in scalars ==> Placed(gi, e)
    ensures Generated(group, gi)
  {
    forall i | 0 <= i < |gi| ensures FromGroup(group, gi[i]) {
      AllFrom(group, tables, from, scalars, gi[i]);
    }
    forall j | 0 <= j < |group| ensures InSegments(gi, group[j]) {
      AllIn(group, tables, from, scalars, gi, j);
    }
  }

  /** `mib_group_indexes_generate`; None when it raises an error. */
  method Generate(group: Group) returns (r: Option<seq<IndexTable>>)
    requires GroupOk(group)
    ensures r.None? <==> Unsortable(group)
    ensures r.Some? ==> Generated(group, r.value)
  {
    TabularSegments();
    var c, from := Collect(IsTableSegment, group);
    if c.None? {
      return None;
    }
    var (tables, scalars) := c.value;
    var sorted := Sort(scalars);
    SortNumbers(scalars);
    Separated(IsTableSegment, group, tables, from, scalars, sorted);
    var gi := Separate(tables, sorted);
    forall seg | seg in gi ensures Known(tables, scalars, seg) {
      assert Known(tables, sorted, seg);
    }
    AllGenerated(group, tables, from, scalars, gi);
    r := Some(gi);
  }
}
