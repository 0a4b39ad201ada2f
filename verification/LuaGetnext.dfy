/** The backtracking search of a Lua index table, which rewrites the request in place
    (lualib/smithsnmp/init.lua:396-514). */
module LuaGetnext {
  import opened Oids
  import opened LuaIndex

  /** What was chosen in a dimension, and where it stands in the request. */
  datatype Rec = Rec(offset: nat, pos: nat)

  datatype Result = Raised | Returned(value: Option<Oid>)

  /** The remainder stops in the middle of an array element: comparing them indexes past the request. */
  ghost predicate Truncates(rest: Oid, e: Elem) {
    e.Tab? && rest <= e.ids && rest != e.ids
  }

  /** `compare`: the sign of request minus element; None when Lua raises an error. */
  method Compare(oid: Oid, offset: nat, e: Elem) returns (r: Option<int>)
    requires offset < |oid| && Key(e) != []
    ensures r.None? <==> Truncates(oid[offset..], e)
    ensures r.Some? ==> (r.value < 0 <==> Less(oid[offset..], Key(e)))
    ensures r.Some? && e.Num? ==> r.value == oid[offset] - e.n
  {
    var rest := oid[offset..];
    if e.Num? {
      assert rest == [oid[offset]] + rest[1..] && Key(e) == [e.n] + [];
      HeadFirst(oid[offset], rest[1..], e.n, []);
      return Some((oid[offset] as int) - e.n);
    }
    var i := 0;
    while i < |e.ids|
      invariant 0 <= i <= |e.ids| && i <= |rest| && rest[..i] == e.ids[..i]
    {
      if offset + i >= |oid| {
        assert rest == rest[..i];
        return None;
      }
      var diff := (oid[offset + i] as int) - e.ids[i];
      if diff != 0 {
        CommonLenIs(rest, e.ids, i);
        return Some(diff);
      }
      assert rest[..i + 1] == rest[..i] + [rest[i]] && e.ids[..i + 1] == e.ids[..i] + [e.ids[i]];
      i := i + 1;
    }
    assert e.ids == e.ids[..i];
    CommonLenIs(rest, e.ids, i);
    r := Some(|oid| - offset - |e.ids|);
  }

  /** How the scan of one dimension ends. */
  datatype Scan = Error | Equal(i: nat) | AboveAt(i: nat) | NotFound

  /** The loop over an inner dimension, whose elements are numbers. */
  method ScanInner(oid: Oid, offset: nat, xl: seq<Elem>) returns (r: Scan)
    requires offset < |oid| && DimSorted(xl) && forall i :: 0 <= i < |xl| ==> xl[i].Num?
    ensures !r.Error?
    ensures r.Equal? ==> r.i < |xl| && xl[r.i].n == oid[offset]
    ensures r.AboveAt? ==> r.i < |xl| && r.i == FirstAbove(xl, [oid[offset]])
    ensures r.NotFound? ==> FirstAbove(xl, [oid[offset]]) == |xl|
    ensures !r.Equal? ==> forall i :: 0 <= i < |xl| ==> xl[i].n != oid[offset]
  {
    for i := 0 to |xl|
      invariant forall j :: 0 <= j < i ==> xl[j].n < oid[offset]
      invariant forall j :: 0 <= j < i ==> !Less([oid[offset]], Key(xl[j]))
    {
      HeadFirst(oid[offset], [], xl[i].n, []);
      assert [oid[offset]] + [] == [oid[offset]] && [xl[i].n] + [] == Key(xl[i]);
      var cmp := Compare(oid, offset, xl[i]);
      if cmp.value == 0 {
        return Equal(i);
      } else if cmp.value < 0 {
        FirstAboveIs(xl, [oid[offset]], i);
        forall j | i < j < |xl| ensures xl[j].n != oid[offset] {
          HeadFirst(xl[i].n, [], xl[j].n, []);
          assert [xl[i].n] + [] == Key(xl[i]) && [xl[j].n] + [] == Key(xl[j]);
        }
        return AboveAt(i);
      }
    }
    FirstAboveIs(xl, [oid[offset]], |xl|);
    r := NotFound;
  }

  lemma {:induction false} FirstAboveIs(dim: seq<Elem>, r: Oid, i: nat)
    requires i <= |dim| && (forall j :: 0 <= j < i ==> !Less(r, Key(dim[j])))
    requires i < |dim| ==> Less(r, Key(dim[i]))
    ensures FirstAbove(dim, r) == i
  {
    var k := FirstAbove(dim, r);
    assert k < |dim| ==> Less(r, Key(dim[k]));
    assert i < |dim| ==> Less(r, Key(dim[i]));
  }

  /** An element above the remainder but not longer than it comes after all that extend the remainder. */
  lemma TruncatesBefore(xl: seq<Elem>, rest: Oid, i: nat, j: nat)
    requires DimSorted(xl) && i < |xl| && j < |xl| && Less(rest, Key(xl[i])) && !Truncates(rest, xl[i]) && Truncates(rest, xl[j])
    requires rest != []
    ensures j < i
  {
    var a, b := Key(xl[i]), Key(xl[j]);
    LessIrreflexive(a);
    assert After(rest, a);
    SubtreeBefore(rest, b, a, a);
    if i < j { LessAsymmetric(a, b); }
    if i == j { LessIrreflexive(a); }
  }

  /** The loop over the last dimension. */
  method ScanLast(oid: Oid, offset: nat, xl: seq<Elem>) returns (r: Scan)
    requires offset < |oid| && DimSorted(xl)
    ensures !r.Equal?
    ensures r.Error? <==> exists i :: 0 <= i < |xl| && Truncates(oid[offset..], xl[i])
    ensures r.AboveAt? ==> r.i < |xl| && r.i == FirstAbove(xl, oid[offset..])
    ensures r.NotFound? ==> FirstAbove(xl, oid[offset..]) == |xl|
  {
    var rest := oid[offset..];
    for i := 0 to |xl|
      invariant forall j :: 0 <= j < i ==> !Less(rest, Key(xl[j])) && !Truncates(rest, xl[j])
    {
      var cmp := Compare(oid, offset, xl[i]);
      if cmp.None? {
        return Error;
      } else if cmp.value < 0 {
        FirstAboveIs(xl, rest, i);
        forall j | i < j < |xl| ensures !Truncates(rest, xl[j]) {
          if Truncates(rest, xl[j]) { TruncatesBefore(xl, rest, i, j); }
        }
        return AboveAt(i);
      }
    }
    FirstAboveIs(xl, rest, |xl|);
    r := NotFound;
  }

  // ---------------------------------------------------------------------
  // What the search computes, from the dimensions already matched
  // ---------------------------------------------------------------------

  /** The next element after `x` in dimension `d`, followed by the first of the rest. */
  function Up(it: IndexTable, d: nat, x: SubId): Option<Oid>
    requires d + 1 < |it|
  {
    var i := FirstAbove(it[d], [x]);
    if i < |it[d]| then Prepend(Key(it[d][i]), Firsts(it, d + 1)) else None
  }

  /** The overall answer, when dimensions before `dim` match the request and `x` is the answer from `dim` on. */
  function Unwind(it: IndexTable, r: Oid, dim: nat, x: Option<Oid>): Option<Oid>
    requires dim <= |r| && dim < |it|
  {
    if dim == 0 then x
    else Unwind(it, r, dim - 1, if x.Some? then Prepend([r[dim - 1]], x) else Up(it, dim - 1, r[dim - 1]))
  }

  lemma {:induction false} UnwindSome(it: IndexTable, r: Oid, dim: nat, t: Oid)
    requires dim <= |r| && dim < |it|
    ensures Unwind(it, r, dim, Some(t)) == Some(r[..dim] + t)
  {
    if dim == 0 {
      assert r[..0] + t == t;
    } else {
      UnwindSome(it, r, dim - 1, [r[dim - 1]] + t);
      assert r[..dim - 1] + ([r[dim - 1]] + t) == r[..dim] + t;
    }
  }

  /** The request matches an element in every dimension before `dim`, as recorded. */
  ghost predicate Matched(it: IndexTable, r: Oid, record: seq<Rec>, dim: nat) {
    && |record| == |it| && dim <= |r| && dim < |it|
    && forall d :: 0 <= d < dim ==> record[d].offset == d && record[d].pos < |it[d]| && Key(it[d][record[d].pos]) == [r[d]]
  }

  lemma MatchedUp(it: IndexTable, r: Oid, record: seq<Rec>, dim: nat)
    requires IndexOk(it) && Matched(it, r, record, dim) && dim > 0
    ensures FirstAbove(it[dim - 1], [r[dim - 1]]) == record[dim - 1].pos + 1
  {
    OwnPosition(it, dim - 1, r[dim - 1], record[dim - 1].pos);
  }

  /** An empty dimension further on leaves nothing to find. */
  lemma {:induction false} UnwindNothing(it: IndexTable, r: Oid, dim: nat)
    requires dim <= |r| && dim < |it| && Firsts(it, dim).None?
    ensures Unwind(it, r, dim, None) == None
  {
    if dim > 0 {
      assert Firsts(it, dim - 1).None?;
      UnwindNothing(it, r, dim - 1);
    }
  }

  ghost predicate Has(xl: seq<Elem>, x: SubId) {
    exists i :: 0 <= i < |xl| && Key(xl[i]) == [x]
  }

  /** The rewritten request starts with an element of the segment not below the request's own start. */
  ghost predicate Rewritten(it: IndexTable, r: Oid, w: Oid) {
    && w != [] && (r == [] || r[0] <= w[0])
    && |it| > 0 && Has(it[0], w[0])
  }

  /** Where the search stands: still following the request, on a freshly chosen element, or filling up with first elements. */
  datatype Mode = Following | Chosen | Filling

  ghost predicate StandsAt(it: IndexTable, r: Oid, t: Option<Oid>, oid: Oid, record: seq<Rec>, dim: nat, mode: Mode) {
    && IndexOk(it) && |record| == |it| && dim < |it|
    && match mode
       case Following => oid == r && Matched(it, r, record, dim) && t == Unwind(it, r, dim, NextIn(it, dim, r[dim..]))
       case Chosen =>
         && dim + 1 < |it| && |oid| == dim + 1 && t == Prepend(oid, Firsts(it, dim + 1))
         && Has(it[dim], oid[dim]) && Rewritten(it, r, oid)
       case Filling => |oid| == dim && t == Prepend(oid, Firsts(it, dim)) && ((oid == r && Matched(it, r, record, dim)) || Rewritten(it, r, oid))
  }

  lemma PrependTwice(a: Oid, b: Oid, x: Option<Oid>)
    ensures Prepend(a, Prepend(b, x)) == Prepend(a + b, x)
  {
    assert x.Some? ==> a + (b + x.value) == a + b + x.value;
  }

  /** An answer from `dim` on decides the search, or shows that there is none. */
  lemma Settle(it: IndexTable, r: Oid, dim: nat, x: Option<Oid>)
    requires dim <= |r| && dim < |it| && (x.None? ==> Firsts(it, dim).None?)
    ensures Unwind(it, r, dim, x) == Prepend(r[..dim], x)
  {
    if x.Some? {
      UnwindSome(it, r, dim, x.value);
    } else {
      UnwindNothing(it, r, dim);
    }
  }

  /** A larger element at `dim`, below matched dimensions, with the first of the rest. */
  lemma Larger(it: IndexTable, r: Oid, record: seq<Rec>, dim: nat, i: nat)
    requires IndexOk(it) && Matched(it, r, record, dim) && dim < |r| && dim + 1 < |it|
    requires i < |it[dim]| && i == FirstAbove(it[dim], [r[dim]])
    ensures Unwind(it, r, dim, Up(it, dim, r[dim])) == Prepend(r[..dim] + Key(it[dim][i]), Firsts(it, dim + 1))
    ensures Rewritten(it, r, r[..dim] + Key(it[dim][i]))
  {
    var w := r[..dim] + Key(it[dim][i]);
    Settle(it, r, dim, Up(it, dim, r[dim]));
    PrependTwice(r[..dim], Key(it[dim][i]), Firsts(it, dim + 1));
    HeadFirst(r[dim], [], it[dim][i].n, []);
    assert [r[dim]] + [] == [r[dim]] && [it[dim][i].n] + [] == Key(it[dim][i]);
    var at := if dim > 0 then record[0].pos else i;
    assert Key(it[0][at]) == [w[0]];
  }

  /** The request runs out after dimensions that all match. */
  lemma RunsOut(it: IndexTable, r: Oid, t: Option<Oid>, record: seq<Rec>, dim: nat)
    requires StandsAt(it, r, t, r, record, dim, Following) && |r| == dim
    ensures StandsAt(it, r, t, r, record, dim, Filling)
  {
    assert r[dim..] == [] && r[..dim] == r;
    assert NextIn(it, dim, []) == Firsts(it, dim) by {
      if it[dim] != [] { EmptyLeast(Key(it[dim][0])); }
    }
    Settle(it, r, dim, Firsts(it, dim));
  }

  /** First elements are appended one dimension after the other. */
  lemma Fill(it: IndexTable, r: Oid, t: Option<Oid>, oid: Oid, record: seq<Rec>, dim: nat)
    requires StandsAt(it, r, t, oid, record, dim, Filling) && it[dim] != []
    ensures dim + 1 == |it| ==> t == Some(oid + Key(it[dim][0]))
    ensures dim + 1 < |it| ==> StandsAt(it, r, t, oid + Key(it[dim][0]), record[dim := Rec(dim, 0)], dim + 1, Filling)
    ensures dim + 1 < |it| ==> Rewritten(it, r, oid + Key(it[dim][0]))
  {
    if dim + 1 < |it| {
      var w := oid + Key(it[dim][0]);
      PrependTwice(oid, Key(it[dim][0]), Firsts(it, dim + 1));
      var at := if dim == 0 then 0 else if !Rewritten(it, r, oid) then record[0].pos else var j :| 0 <= j < |it[0]| && Key(it[0][j]) == [oid[0]]; j;
      assert Key(it[0][at]) == [w[0]];
    }
  }

  /** The request's own element is present: follow it. */
  lemma FollowOn(it: IndexTable, r: Oid, t: Option<Oid>, record: seq<Rec>, dim: nat, i: nat)
    requires StandsAt(it, r, t, r, record, dim, Following) && dim < |r| && dim + 1 < |it|
    requires i < |it[dim]| && it[dim][i].n == r[dim]
    ensures StandsAt(it, r, t, r, record[dim := Rec(dim, i)], dim + 1, Following)
  {
    OwnPosition(it, dim, r[dim], i);
    assert r[dim..][1..] == r[dim + 1..];
    UnwindOne(it, r, dim + 1, NextIn(it, dim + 1, r[dim + 1..]));
  }

  lemma UnwindOne(it: IndexTable, r: Oid, dim: nat, x: Option<Oid>)
    requires 0 < dim <= |r| && dim < |it|
    ensures Unwind(it, r, dim, x) == Unwind(it, r, dim - 1, if x.Some? then Prepend([r[dim - 1]], x) else Up(it, dim - 1, r[dim - 1]))
  {
  }

  /** The request's own element is absent: the next larger one follows, if any. */
  lemma Absent(it: IndexTable, dim: nat, rest: Oid)
    requires IndexOk(it) && dim + 1 < |it| && rest != [] && forall j :: 0 <= j < |it[dim]| ==> it[dim][j].n != rest[0]
    ensures NextIn(it, dim, rest) == Up(it, dim, rest[0])
  {
  }

  /** Nothing from `dim` on is above the request: the answer lies further up. */
  ghost predicate Above(it: IndexTable, r: Oid, t: Option<Oid>, dim: nat)
    requires dim <= |r| && dim < |it|
  {
    t == Unwind(it, r, dim, None)
  }

  /** The answer starts with element `pos` of dimension `dim`, the next after the request's own. */
  ghost predicate Resumes(it: IndexTable, r: Oid, t: Option<Oid>, dim: nat, pos: nat) {
    && dim < |r| && dim + 1 < |it| && pos < |it[dim]|
    && pos == FirstAbove(it[dim], [r[dim]]) && t == Unwind(it, r, dim, Up(it, dim, r[dim]))
  }

  /** Dimensions from `dim` up to `from` stand at their last element. */
  ghost predicate AtEnd(it: IndexTable, record: seq<Rec>, dim: nat, from: nat) {
    from <= |it| && from <= |record| && forall d :: dim <= d < from ==> record[d].pos + 1 >= |it[d]|
  }

  lemma ClimbOne(it: IndexTable, r: Oid, t: Option<Oid>, record: seq<Rec>, from: nat)
    requires IndexOk(it) && Matched(it, r, record, from) && Above(it, r, t, from) && from > 0
    ensures record[from - 1].pos + 1 < |it[from - 1]| ==> Resumes(it, r, t, from - 1, record[from - 1].pos + 1)
    ensures record[from - 1].pos + 1 >= |it[from - 1]| ==> Above(it, r, t, from - 1)
  {
    MatchedUp(it, r, record, from);
    UnwindOne(it, r, from, None);
  }

  /** Climbing over exhausted dimensions. */
  lemma {:induction false} Climb(it: IndexTable, r: Oid, t: Option<Oid>, record: seq<Rec>, dim: nat, from: nat)
    requires IndexOk(it) && Matched(it, r, record, from) && Above(it, r, t, from) && dim <= from && AtEnd(it, record, dim, from)
    ensures Above(it, r, t, dim)
    decreases from
  {
    if dim < from {
      ClimbOne(it, r, t, record, from);
      Climb(it, r, t, record, dim, from - 1);
    }
  }

  /** The loop that climbs back to the last dimension with an element left; None when there is none. */
  method Backtrack(it: IndexTable, record: seq<Rec>, from: nat) returns (up: Option<(nat, nat)>)
    requires from <= |it| == |record|
    ensures up.None? ==> AtEnd(it, record, 0, from)
    ensures up.Some? ==> var (dim, pos) := up.value;
      dim < from && AtEnd(it, record, dim + 1, from) && pos == record[dim].pos + 1 < |it[dim]|
  {
    var dim: nat := from;
    while true
      invariant dim <= from && AtEnd(it, record, dim, from)
      decreases dim
    {
      if dim == 0 {
        return None;
      }
      dim := dim - 1;
      var pos := record[dim].pos + 1;
      if pos < |it[dim]| {
        return Some((dim, pos));
      }
    }
  }

  /** The request follows every inner dimension, and then stops in the middle of an array element. */
  ghost predicate StopsShort(it: IndexTable, r: Oid) {
    && 0 < |it| <= |r|
    && (forall d :: 0 <= d < |it| - 1 ==> Has(it[d], r[d]))
    && Short(it[|it| - 1], r[|it| - 1..])
  }

  ghost predicate Short(xl: seq<Elem>, rest: Oid) {
    exists i :: 0 <= i < |xl| && Truncates(rest, xl[i])
  }

  lemma FollowsInner(it: IndexTable, r: Oid, record: seq<Rec>)
    requires |it| > 0 && Matched(it, r, record, |it| - 1)
    ensures StopsShort(it, r) <==> |it| <= |r| && Short(it[|it| - 1], r[|it| - 1..])
  {
    forall d | 0 <= d < |it| - 1 ensures Has(it[d], r[d]) {
      assert Key(it[d][record[d].pos]) == [r[d]];
    }
  }

  /** How a search ends. */
  ghost predicate EndsWell(it: IndexTable, r: Oid, t: Option<Oid>, res: Result, final: Oid) {
    res.Returned? ==>
      && res.value == t
      && if t.Some? then final == t.value else final == r || Rewritten(it, r, final)
  }

  /** The scan of an inner dimension, and where the search stands after it. */
  method Inner(ghost r: Oid, ghost t: Option<Oid>, ghost mode: Mode, oid: Oid, record: seq<Rec>, it: IndexTable, dim: nat)
    returns (found: bool, oid': Oid, record': seq<Rec>, ghost mode': Mode)
    requires StandsAt(it, r, t, oid, record, dim, mode) && dim < |oid| && dim + 1 < |it| && !mode.Filling?
    ensures found ==> StandsAt(it, r, t, oid', record', dim + 1, mode') && !mode'.Chosen? && (mode'.Following? ==> mode.Following?)
    ensures found && mode.Following? && !mode'.Following? ==> !StopsShort(it, r)
    ensures !found ==> oid' == oid && record' == record && mode.Following? && Above(it, r, t, dim) && !StopsShort(it, r)
  {
    var scan := ScanInner(oid, dim, it[dim]);
    oid', record', mode' := oid, record, mode;
    match scan
    case Equal(i) =>
      found, record' := true, record[dim := Rec(dim, i)];
      if mode.Following? {
        FollowOn(it, r, t, record, dim, i);
      } else {
        mode' := Filling;
      }
    case AboveAt(i) =>
      assert !Has(it[dim], oid[dim]);
      Absent(it, dim, oid[dim..]);
      Larger(it, r, record, dim, i);
      found, record', oid', mode' := true, record[dim := Rec(dim, i)], oid[..dim] + Key(it[dim][i]), Filling;
    case NotFound =>
      assert !Has(it[dim], oid[dim]);
      Absent(it, dim, oid[dim..]);
      found := false;
  }

  /** `getnext`: the search from dimension `dim`, with the request table `oid` rewritten to `final`. */
  method Getnext(ghost r: Oid, ghost t: Option<Oid>, ghost mode: Mode, oid: Oid, record: seq<Rec>, it: IndexTable, dim: nat)
    returns (res: Result, final: Oid, ghost backtracks: nat)
    requires StandsAt(it, r, t, oid, record, dim, mode)
    ensures res.Raised? <==> mode.Following? && StopsShort(it, r)
    ensures EndsWell(it, r, t, res, final)
    ensures backtracks <= if mode.Following? then 1 else 0
    decreases if mode.Following? then 1 else 0, |it| - dim, 0
  {
    if it[dim] == [] {
      Nothing(it, r, t, oid, record, dim, mode);
      return Returned(None), oid, 0;
    }
    if dim == |oid| {
      if mode.Following? { RunsOut(it, r, t, record, dim); }
      Fill(it, r, t, oid, record, dim);
      final := oid + Key(it[dim][0]);
      if dim + 1 == |it| {
        return Returned(Some(final)), final, 0;
      }
      res, final, backtracks := Getnext(r, t, Filling, final, record[dim := Rec(dim, 0)], it, dim + 1);
    } else if dim + 1 < |it| {
      var found, oid', record', mode' := Inner(r, t, mode, oid, record, it, dim);
      if found {
        res, final, backtracks := Getnext(r, t, mode', oid', record', it, dim + 1);
      } else {
        res, final, backtracks := Resume(oid, t, record, it, dim);
      }
    } else {
      FollowsInner(it, r, record);
      var scan := ScanLast(oid, dim, it[dim]);
      match scan
      case Error =>
        res, final, backtracks := Raised, oid, 0;
      case AboveAt(i) =>
        Settle(it, r, dim, Some(Key(it[dim][i])));
        final := oid[..dim] + Key(it[dim][i]);
        res, backtracks := Returned(Some(final)), 0;
      case NotFound =>
        res, final, backtracks := Resume(oid, t, record, it, dim);
    }
  }

  /** Climbing back after the request's own dimensions are exhausted, and the search from there. */
  method Resume(r: Oid, ghost t: Option<Oid>, record: seq<Rec>, it: IndexTable, from: nat)
    returns (res: Result, final: Oid, ghost backtracks: nat)
    requires IndexOk(it) && Matched(it, r, record, from) && Above(it, r, t, from)
    ensures res.Returned? && EndsWell(it, r, t, res, final)
    ensures backtracks <= 1
    decreases 0, |it|, 1
  {
    var up := Backtrack(it, record, from);
    if up.None? {
      Climb(it, r, t, record, 0, from);
      return Returned(None), r, 0;
    }
    var (dim, pos) := up.value;
    Climb(it, r, t, record, dim + 1, from);
    ClimbOne(it, r, t, record, dim + 1);
    Larger(it, r, record, dim, pos);
    res, final, backtracks := Getnext(r, t, Chosen, r[..dim] + Key(it[dim][pos]), record, it, dim);
    backtracks := backtracks + 1;
  }

  /** An empty dimension ends the search with nothing. */
  lemma Nothing(it: IndexTable, r: Oid, t: Option<Oid>, oid: Oid, record: seq<Rec>, dim: nat, mode: Mode)
    requires StandsAt(it, r, t, oid, record, dim, mode) && it[dim] == []
    ensures t.None? && (mode.Following? ==> !StopsShort(it, r))
  {
    if mode.Following? {
      assert Firsts(it, dim).None? && NextIn(it, dim, r[dim..]).None?;
      UnwindNothing(it, r, dim);
      EmptyDim(it, r, dim);
    }
  }

  lemma EmptyDim(it: IndexTable, r: Oid, dim: nat)
    requires dim < |it| && it[dim] == []
    ensures !StopsShort(it, r)
  {
    if dim + 1 < |it| && dim < |r| {
      assert !Has(it[dim], r[dim]);
    }
  }

  /** `group_index_table_getnext`: the least identifier of the segment above the request. */
  method SegmentGetnext(oid: Oid, it: IndexTable) returns (res: Result, final: Oid)
    requires IndexOk(it)
    ensures res.Raised? <==> StopsShort(it, oid)
    ensures res.Returned? ==> IsNext(Prod(it, 0), oid, res.value)
    ensures res.Returned? && res.value.Some? ==> final == res.value.value
    ensures res == Returned(None) ==> final == oid || Rewritten(it, oid, final)
  {
    ghost var t := NextIn(it, 0, oid);
    NextInIs(it, 0, oid);
    assert oid[0..] == oid;
    var record := seq(|it|, _ => Rec(0, 0));
    ghost var backtracks;
    res, final, backtracks := Getnext(oid, t, Following, oid, record, it, 0);
  }
}
