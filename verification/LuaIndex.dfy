/** The index table of one segment of a Lua MIB group, and the successor in it
    (lualib/smithsnmp/init.lua:215-259, 396-514). */
module LuaIndex {
  import opened Oids
  import opened Handlers

  /** An index element: a number, or an array of numbers. */
  datatype Elem = Num(n: SubId) | Tab(ids: Oid)

  type IndexTable = seq<seq<Elem>>

  function Key(e: Elem): Oid {
    match e
    case Num(n) => [n]
    case Tab(ids) => ids
  }

  ghost predicate DimSorted(dim: seq<Elem>) {
    && (forall i, j :: 0 <= i < j < |dim| ==> Less(Key(dim[i]), Key(dim[j])))
    && (forall i :: 0 <= i < |dim| ==> Key(dim[i]) != [])
  }

  /** Every dimension ascending; arrays only in the last one. */
  ghost predicate IndexOk(it: IndexTable) {
    && |it| > 0
    && (forall d :: 0 <= d < |it| ==> DimSorted(it[d]))
    && (forall d, i :: 0 <= d < |it| - 1 && 0 <= i < |it[d]| ==> it[d][i].Num?)
  }

  /** The identifiers of a segment: one element of every dimension from `d` on. */
  ghost function Prod(it: IndexTable, d: nat): set<Oid>
    requires d < |it|
    decreases |it| - d
  {
    if d == |it| - 1 then set i | 0 <= i < |it[d]| :: Key(it[d][i])
    else set i, t | 0 <= i < |it[d]| && t in Prod(it, d + 1) :: Key(it[d][i]) + t
  }

  function Prepend(k: Oid, r: Option<Oid>): Option<Oid> {
    if r.Some? then Some(k + r.value) else None
  }

  /** The first identifier from dimension `d` on. */
  function Firsts(it: IndexTable, d: nat): Option<Oid>
    requires d < |it|
    decreases |it| - d
  {
    if it[d] == [] then None
    else if d == |it| - 1 then Some(Key(it[d][0]))
    else Prepend(Key(it[d][0]), Firsts(it, d + 1))
  }

  /** Position of the first element above `r`. */
  function FirstAbove(dim: seq<Elem>, r: Oid): (i: nat)
    ensures i <= |dim| && (forall j :: 0 <= j < i ==> !Less(r, Key(dim[j])))
    ensures i < |dim| ==> Less(r, Key(dim[i]))
  {
    if dim == [] || Less(r, Key(dim[0])) then 0 else 1 + FirstAbove(dim[1..], r)
  }

  /** The successor of `r` from dimension `d` on, dimension by dimension. */
  function NextIn(it: IndexTable, d: nat, r: Oid): Option<Oid>
    requires IndexOk(it) && d < |it|
    decreases |it| - d
  {
    if d == |it| - 1 then
      var i := FirstAbove(it[d], r);
      if i < |it[d]| then Some(Key(it[d][i])) else None
    else if r == [] then Firsts(it, d)
    else
      var i := FirstAbove(it[d], [r[0]]);
      var up := if i < |it[d]| then Prepend(Key(it[d][i]), Firsts(it, d + 1)) else None;
      if i > 0 && Key(it[d][i - 1]) == [r[0]] then
        var same := NextIn(it, d + 1, r[1..]);
        if same.Some? then Prepend([r[0]], same) else up
      else up
  }

  lemma HeadFirst(a: SubId, s: Oid, b: SubId, t: Oid)
    ensures Less([a] + s, [b] + t) <==> a < b || (a == b && Less(s, t))
  {
    if a == b {
      LessConcat([a], s, t);
    } else {
      CommonLenIs([a] + s, [b] + t, 0);
    }
  }

  /** Members of a segment, by first dimension. */
  lemma ProdHead(it: IndexTable, d: nat, o: Oid) returns (i: nat, t: Oid)
    requires IndexOk(it) && d < |it| - 1 && o in Prod(it, d)
    ensures i < |it[d]| && t in Prod(it, d + 1) && o == Key(it[d][i]) + t && Key(it[d][i]) == [it[d][i].n]
  {
    i, t :| 0 <= i < |it[d]| && t in Prod(it, d + 1) && o == Key(it[d][i]) + t;
  }

  lemma {:induction false} FirstsLeast(it: IndexTable, d: nat)
    requires IndexOk(it) && d < |it|
    ensures Firsts(it, d).None? <==> Prod(it, d) == {}
    ensures Firsts(it, d).Some? ==> Firsts(it, d).value in Prod(it, d)
    ensures Firsts(it, d).Some? ==> forall o :: o in Prod(it, d) ==> LessEq(Firsts(it, d).value, o)
    decreases |it| - d
  {
    if d == |it| - 1 {
      if it[d] != [] { assert Key(it[d][0]) in Prod(it, d); }
    } else {
      FirstsLeast(it, d + 1);
      var rest := Firsts(it, d + 1);
      if it[d] != [] && rest.Some? {
        var x := Key(it[d][0]) + rest.value;
        assert x in Prod(it, d);
        forall o | o in Prod(it, d) ensures LessEq(x, o) {
          var i, t := ProdHead(it, d, o);
          HeadFirst(it[d][0].n, rest.value, it[d][i].n, t);
          if i > 0 { HeadFirst(it[d][0].n, [], it[d][i].n, []); }
        }
      }
    }
  }

  lemma EmptyLeast(o: Oid)
    requires o != []
    ensures Less([], o)
  {
    LessAt([], o, 0);
  }

  lemma {:induction false} ProdNonEmpty(it: IndexTable, d: nat, o: Oid)
    requires IndexOk(it) && d < |it| && o in Prod(it, d)
    ensures o != []
    decreases |it| - d
  {
    if d == |it| - 1 {
      var i :| 0 <= i < |it[d]| && o == Key(it[d][i]);
    } else {
      var i, t := ProdHead(it, d, o);
    }
  }

  /** The next element of dimension `d`, followed by the first of the rest, is the least above all
      identifiers that start with `x` or less. */
  lemma UpIsLeast(it: IndexTable, d: nat, x: SubId, o: Oid)
    requires IndexOk(it) && d < |it| - 1 && o in Prod(it, d) && o[..1] != [] && o[0] > x
    ensures var i := FirstAbove(it[d], [x]);
      && i < |it[d]| && Firsts(it, d + 1).Some? && it[d][i].n > x
      && Key(it[d][i]) + Firsts(it, d + 1).value in Prod(it, d)
      && LessEq(Key(it[d][i]) + Firsts(it, d + 1).value, o)
  {
    var i := FirstAbove(it[d], [x]);
    var j, t := ProdHead(it, d, o);
    HeadFirst(x, [], it[d][j].n, []);
    assert [x] + [] == [x] && [it[d][j].n] + [] == [it[d][j].n];
    assert i <= j;
    FirstsLeast(it, d + 1);
    var f := Firsts(it, d + 1).value;
    HeadFirst(x, [], it[d][i].n, []);
    HeadFirst(it[d][i].n, f, it[d][j].n, t);
    if i < j { HeadFirst(it[d][i].n, [], it[d][j].n, []); }
  }

  /** The successor from dimension `d` on is the least member above `r`. */
  lemma {:induction false} NextInIs(it: IndexTable, d: nat, r: Oid)
    requires IndexOk(it) && d < |it|
    ensures IsNext(Prod(it, d), r, NextIn(it, d, r))
    decreases |it| - d
  {
    if d == |it| - 1 {
      NextInLast(it, r);
    } else if r == [] {
      FirstsLeast(it, d);
      forall o | o in Prod(it, d) ensures Less(r, o) {
        ProdNonEmpty(it, d, o);
        EmptyLeast(o);
      }
    } else {
      NextInIs(it, d + 1, r[1..]);
      NextInHead(it, d, r);
    }
  }

  lemma NextInLast(it: IndexTable, r: Oid)
    requires IndexOk(it)
    ensures IsNext(Prod(it, |it| - 1), r, NextIn(it, |it| - 1, r))
  {
    var dim := it[|it| - 1];
    assert Prod(it, |it| - 1) == set i | 0 <= i < |dim| :: Key(dim[i]);
    LeastInDim(dim, r);
  }

  lemma NotBefore(dim: seq<Elem>, r: Oid, j: nat)
    requires j < |dim| && Less(r, Key(dim[j]))
    ensures FirstAbove(dim, r) <= j
  {
  }

  lemma LeastInDim(dim: seq<Elem>, r: Oid)
    requires DimSorted(dim)
    ensures var i := FirstAbove(dim, r);
      IsNext(set k | 0 <= k < |dim| :: Key(dim[k]), r, if i < |dim| then Some(Key(dim[i])) else None)
  {
    var i := FirstAbove(dim, r);
    var keys := set k | 0 <= k < |dim| :: Key(dim[k]);
    if i < |dim| { assert Key(dim[i]) in keys; }
    forall o | o in keys && Less(r, o) ensures i < |dim| && LessEq(Key(dim[i]), o) {
      var j :| 0 <= j < |dim| && o == Key(dim[j]);
      NotBefore(dim, r, j);
    }
  }

  lemma NextInHead(it: IndexTable, d: nat, r: Oid)
    requires IndexOk(it) && d < |it| - 1 && r != []
    requires IsNext(Prod(it, d + 1), r[1..], NextIn(it, d + 1, r[1..]))
    ensures IsNext(Prod(it, d), r, NextIn(it, d, r))
  {
    var i := FirstAbove(it[d], [r[0]]);
    var same := NextIn(it, d + 1, r[1..]);
    var res := NextIn(it, d, r);
    assert r == [r[0]] + r[1..];
    forall o | o in Prod(it, d) && Less(r, o) ensures res.Some? && LessEq(res.value, o) {
      HeadAbove(it, d, r, o);
    }
    if res.Some? {
      HeadMember(it, d, r);
    }
  }

  /** The dimension has the request's own sub-identifier exactly just below the first one above it. */
  lemma OwnPosition(it: IndexTable, d: nat, x: SubId, j: nat)
    requires IndexOk(it) && d < |it| - 1 && j < |it[d]| && it[d][j].n == x
    ensures FirstAbove(it[d], [x]) == j + 1
  {
    var i := FirstAbove(it[d], [x]);
    forall k | 0 <= k < |it[d]| ensures Less([x], Key(it[d][k])) <==> k > j {
      HeadFirst(x, [], it[d][k].n, []);
      assert [x] + [] == [x] && [it[d][k].n] + [] == Key(it[d][k]);
      if k < j { HeadFirst(it[d][k].n, [], x, []); assert Less(Key(it[d][k]), Key(it[d][j])); }
      if j < k { assert Less(Key(it[d][j]), Key(it[d][k])); }
    }
    assert j + 1 < |it[d]| ==> Less([x], Key(it[d][j + 1]));
    assert i < |it[d]| ==> Less([x], Key(it[d][i]));
  }

  lemma HeadAbove(it: IndexTable, d: nat, r: Oid, o: Oid)
    requires IndexOk(it) && d < |it| - 1 && r != [] && o in Prod(it, d) && Less(r, o)
    requires IsNext(Prod(it, d + 1), r[1..], NextIn(it, d + 1, r[1..]))
    ensures NextIn(it, d, r).Some? && LessEq(NextIn(it, d, r).value, o)
  {
    var j, t := ProdHead(it, d, o);
    assert r == [r[0]] + r[1..];
    HeadFirst(r[0], r[1..], it[d][j].n, t);
    var same := NextIn(it, d + 1, r[1..]);
    if it[d][j].n == r[0] {
      OwnPosition(it, d, r[0], j);
      HeadFirst(r[0], same.value, r[0], t);
    } else {
      UpIsLeast(it, d, r[0], o);
      var i := FirstAbove(it[d], [r[0]]);
      if i > 0 && Key(it[d][i - 1]) == [r[0]] && same.Some? {
        HeadFirst(r[0], same.value, it[d][j].n, t);
      }
    }
  }

  lemma HeadMember(it: IndexTable, d: nat, r: Oid)
    requires IndexOk(it) && d < |it| - 1 && r != [] && NextIn(it, d, r).Some?
    requires IsNext(Prod(it, d + 1), r[1..], NextIn(it, d + 1, r[1..]))
    ensures NextIn(it, d, r).value in Prod(it, d) && Less(r, NextIn(it, d, r).value)
  {
    var i := FirstAbove(it[d], [r[0]]);
    var same := NextIn(it, d + 1, r[1..]);
    assert r == [r[0]] + r[1..];
    if i > 0 && Key(it[d][i - 1]) == [r[0]] && same.Some? {
      assert Key(it[d][i - 1]) + same.value in Prod(it, d);
      HeadFirst(r[0], r[1..], r[0], same.value);
    } else {
      FirstsLeast(it, d + 1);
      var f := Firsts(it, d + 1).value;
      assert Key(it[d][i]) + f in Prod(it, d);
      HeadFirst(r[0], [], it[d][i].n, []);
      HeadFirst(r[0], r[1..], it[d][i].n, f);
    }
  }
}
