/** The index segments of a Lua MIB group, generated from its scalars and tables
    (lualib/smithsnmp/init.lua:261-394). */
module LuaGroup {
  import opened Oids
  import opened LuaIndex

  /** How the rows of a table are indexed: by one list of numbers per index, or by a list of keys. */
  datatype Indexes = Cascade(dims: seq<seq<SubId>>) | Keys(keys: seq<Elem>)

  datatype Object = Scalar | Table(entryNo: SubId, vars: seq<SubId>, indexes: Indexes)

  datatype Member = Member(no: SubId, kind: Object)

  /** A group in the order in which its keys are enumerated, which Lua leaves open. */
  type Group = seq<Member>

  // ---------------------------------------------------------------------
  // What a group serves
  // ---------------------------------------------------------------------

  /** `t` is the index of a row. */
  ghost predicate IsRow(indexes: Indexes, t: Oid) {
    match indexes
    case Cascade(dims) => |t| == |dims| && forall d :: 0 <= d < |dims| ==> t[d] in dims[d]
    case Keys(keys) => exists i :: 0 <= i < |keys| && Key(keys[i]) == t
  }

  /** `o` is a variable of the member. */
  ghost predicate MemberVar(m: Member, o: Oid) {
    match m.kind
    case Scalar => o == [m.no, 0]
    case Table(entryNo, vars, indexes) =>
      |o| >= 3 && o[0] == m.no && o[1] == entryNo && o[2] in vars && IsRow(indexes, o[3..])
  }

  ghost predicate IsVar(group: Group, o: Oid) {
    exists i :: 0 <= i < |group| && MemberVar(group[i], o)
  }

  ghost predicate Distinct(s: seq<SubId>) {
    forall i, j :: 0 <= i < j < |s| ==> s[i] != s[j]
  }

  /** Index lists hold no number twice, and keys are distinct and not empty. */
  ghost predicate IndexesOk(indexes: Indexes) {
    match indexes
    case Cascade(dims) => |dims| > 0 && forall d :: 0 <= d < |dims| ==> Distinct(dims[d])
    case Keys(keys) => DistinctKeys(keys) && forall i :: 0 <= i < |keys| ==> Key(keys[i]) != []
  }

  ghost predicate DistinctKeys(s: seq<Elem>) {
    forall i, j :: 0 <= i < j < |s| ==> Key(s[i]) != Key(s[j])
  }

  ghost predicate MemberOk(m: Member) {
    m.kind.Table? ==> Distinct(m.kind.vars) && IndexesOk(m.kind.indexes)
  }

  ghost predicate GroupOk(group: Group) {
    && (forall i :: 0 <= i < |group| ==> MemberOk(group[i]))
    && (forall i, j :: 0 <= i < j < |group| ==> group[i].no != group[j].no)
  }

  /** Sorting keys of both kinds raises an error. */
  predicate Mixed(keys: seq<Elem>) {
    (exists i :: 0 <= i < |keys| && keys[i].Num?) && exists i :: 0 <= i < |keys| && keys[i].Tab?
  }

  // ---------------------------------------------------------------------
  // Sorting (Lua's table.sort)
  // ---------------------------------------------------------------------

  function Insert(e: Elem, s: seq<Elem>): seq<Elem> {
    if s == [] then [e]
    else if Less(Key(e), Key(s[0])) then [e] + s
    else [s[0]] + Insert(e, s[1..])
  }

  function Sort(s: seq<Elem>): seq<Elem> {
    if s == [] then [] else Insert(s[0], Sort(s[1..]))
  }

  lemma {:induction false} InsertMembers(e: Elem, s: seq<Elem>, x: Elem)
    ensures x in Insert(e, s) <==> x == e || x in s
  {
    if s != [] && !Less(Key(e), Key(s[0])) {
      InsertMembers(e, s[1..], x);
      assert x in s <==> x == s[0] || x in s[1..];
    }
  }

  lemma {:induction false} SortMembers(s: seq<Elem>, x: Elem)
    ensures x in Sort(s) <==> x in s
  {
    if s != [] {
      SortMembers(s[1..], x);
      InsertMembers(s[0], Sort(s[1..]), x);
      assert x in s <==> x == s[0] || x in s[1..];
    }
  }

  ghost predicate Strict(s: seq<Elem>) {
    forall i, j :: 0 <= i < j < |s| ==> Less(Key(s[i]), Key(s[j]))
  }

  lemma {:induction false} InsertStrict(e: Elem, s: seq<Elem>)
    requires Strict(s) && forall i :: 0 <= i < |s| ==> Key(s[i]) != Key(e)
    ensures Strict(Insert(e, s))
  {
    if s == [] {
    } else if Less(Key(e), Key(s[0])) {
      forall j | 0 < j < |s| ensures Less(Key(e), Key(s[j])) {
        LessTransitive(Key(e), Key(s[0]), Key(s[j]));
      }
    } else {
      var rest := Insert(e, s[1..]);
      InsertStrict(e, s[1..]);
      LessTotal(Key(e), Key(s[0]));
      forall x | x in rest ensures Less(Key(s[0]), Key(x)) {
        InsertMembers(e, s[1..], x);
      }
    }
  }

  /** Sorting distinct keys makes them strictly ascending. */
  lemma {:induction false} SortStrict(s: seq<Elem>)
    requires DistinctKeys(s)
    ensures Strict(Sort(s))
  {
    if s != [] {
      SortStrict(s[1..]);
      var rest := Sort(s[1..]);
      forall i | 0 <= i < |rest| ensures Key(rest[i]) != Key(s[0]) {
        SortMembers(s[1..], rest[i]);
      }
      InsertStrict(s[0], rest);
    }
  }

  // ---------------------------------------------------------------------
  // Segments
  // ---------------------------------------------------------------------

  function Nums(s: seq<SubId>): (r: seq<Elem>) {
    seq(|s|, i requires 0 <= i < |s| => Num(s[i]))
  }

  /** The dimension holds exactly the given numbers. */
  ghost predicate Holds(dim: seq<Elem>, s: seq<SubId>) {
    && (forall i :: 0 <= i < |dim| ==> dim[i].Num?)
    && forall x :: Num(x) in dim <==> x in s
  }

  lemma NumsMembers(s: seq<SubId>, e: Elem)
    ensures e in Nums(s) <==> e.Num? && e.n in s
  {
    if e.Num? && e.n in s {
      var i :| 0 <= i < |s| && s[i] == e.n;
      assert Nums(s)[i] == e;
    }
  }

  /** Sorting a list of numbers without repetition. */
  lemma NumsSorted(s: seq<SubId>)
    requires Distinct(s)
    ensures DimSorted(Sort(Nums(s))) && Holds(Sort(Nums(s)), s)
  {
    var dim := Sort(Nums(s));
    SortStrict(Nums(s));
    forall i | 0 <= i < |dim| ensures dim[i].Num? {
      SortMembers(Nums(s), dim[i]);
      NumsMembers(s, dim[i]);
    }
    forall x ensures Num(x) in dim <==> x in s {
      SortMembers(Nums(s), Num(x));
      NumsMembers(s, Num(x));
    }
  }

  lemma KeysSorted(keys: seq<Elem>)
    requires IndexesOk(Keys(keys))
    ensures DimSorted(Sort(keys)) && forall e :: e in Sort(keys) <==> e in keys
  {
    SortStrict(keys);
    forall e ensures e in Sort(keys) <==> e in keys {
      SortMembers(keys, e);
    }
    forall i | 0 <= i < |Sort(keys)| ensures Key(Sort(keys)[i]) != [] {
      assert Sort(keys)[i] in keys;
    }
  }

  /** `it` has sorted dimensions for the rows from `d` on. */
  ghost predicate RowsOk(it: IndexTable, d: nat, indexes: Indexes) {
    match indexes
    case Cascade(dims) => |it| == d + |dims| && |dims| > 0 && forall k :: d <= k < |it| ==> DimSorted(it[k]) && Holds(it[k], dims[k - d])
    case Keys(keys) => |it| == d + 1 && DimSorted(it[d]) && forall e :: e in it[d] <==> e in keys
  }

  /** The member starts with a sub-identifier of its dimension. */
  lemma ProdCons(it: IndexTable, d: nat, s: seq<SubId>, o: Oid)
    requires d < |it| - 1 && Holds(it[d], s)
    ensures o in Prod(it, d) <==> o != [] && o[0] in s && o[1..] in Prod(it, d + 1)
  {
    if o in Prod(it, d) {
      var i, t :| 0 <= i < |it[d]| && t in Prod(it, d + 1) && o == Key(it[d][i]) + t;
      assert o[1..] == t && it[d][i] == Num(o[0]);
    }
    if o != [] && Num(o[0]) in it[d] && o[1..] in Prod(it, d + 1) {
      var i :| 0 <= i < |it[d]| && it[d][i] == Num(o[0]);
      assert o == Key(it[d][i]) + o[1..];
    }
  }

  lemma ProdLast(it: IndexTable, s: seq<SubId>, o: Oid)
    requires |it| > 0 && Holds(it[|it| - 1], s)
    ensures o in Prod(it, |it| - 1) <==> |o| == 1 && o[0] in s
  {
    var dim := it[|it| - 1];
    if o in Prod(it, |it| - 1) {
      var i :| 0 <= i < |dim| && o == Key(dim[i]);
      assert dim[i] == Num(o[0]);
    }
    if |o| == 1 && o[0] in s {
      var i :| 0 <= i < |dim| && dim[i] == Num(o[0]);
      assert o == Key(dim[i]);
    }
  }

  lemma {:induction false} RowsAre(it: IndexTable, d: nat, indexes: Indexes, t: Oid)
    requires RowsOk(it, d, indexes)
    ensures t in Prod(it, d) <==> IsRow(indexes, t)
    decreases |it| - d
  {
    match indexes
    case Cascade(dims) =>
      assert Holds(it[d], dims[0]);
      if |dims| == 1 {
        ProdLast(it, dims[0], t);
      } else {
        ProdCons(it, d, dims[0], t);
        assert RowsOk(it, d + 1, Cascade(dims[1..]));
        if t != [] {
          RowsAre(it, d + 1, Cascade(dims[1..]), t[1..]);
          CascadeShift(dims, t);
        }
      }
    case Keys(keys) =>
      if t in Prod(it, d) {
        var i :| 0 <= i < |it[d]| && t == Key(it[d][i]);
        assert it[d][i] in keys;
      }
      if IsRow(indexes, t) {
        var i :| 0 <= i < |keys| && Key(keys[i]) == t;
        assert keys[i] in it[d];
      }
  }

  lemma CascadeShift(dims: seq<seq<SubId>>, t: Oid)
    requires t != [] && dims != []
    ensures IsRow(Cascade(dims), t) <==> t[0] in dims[0] && IsRow(Cascade(dims[1..]), t[1..])
  {
    if t[0] in dims[0] && IsRow(Cascade(dims[1..]), t[1..]) {
      forall d | 0 <= d < |t| ensures t[d] in dims[d] {
        assert d > 0 ==> t[1..][d - 1] in dims[1..][d - 1];
      }
    }
  }
}
