/** The GETNEXT handler of a Lua MIB group: segments are tried in order, on a request table that
    failed attempts rewrite (lualib/smithsnmp/init.lua:713-737). */
module LuaHandler {
  import opened Oids
  import opened LuaIndex
  import opened LuaGetnext
  import opened LuaGroup
  import opened LuaSegments

  // ---------------------------------------------------------------------
  // What the generated segments serve
  // ---------------------------------------------------------------------

  ghost predicate Served(gi: seq<IndexTable>, o: Oid) {
    exists i :: 0 <= i < |gi| && gi[i] != [] && o in Prod(gi[i], 0)
  }

  ghost predicate SegmentsOk(gi: seq<IndexTable>) {
    Ascending(gi) && forall i :: 0 <= i < |gi| ==> |gi[i]| >= 2 && IndexOk(gi[i])
  }

  lemma SegmentOk(group: Group, seg: IndexTable)
    requires FromGroup(group, seg)
    ensures |seg| >= 2 && IndexOk(seg)
  {
    if HasTable(IsTableSegment, group, |group|, seg) {
      var j :| 0 <= j < |group| && IsTableSegment(group[j], seg);
      TableSegmentOk(group[j], seg);
    } else {
      ScalarSegmentOk(seg);
    }
  }

  lemma ScalarSegmentOk(seg: IndexTable)
    requires IsScalarSegment(seg)
    ensures IndexOk(seg)
  {
    assert DimSorted(seg[1]);
  }

  lemma GeneratedOk(group: Group, gi: seq<IndexTable>)
    requires Generated(group, gi)
    ensures SegmentsOk(gi)
  {
    forall i | 0 <= i < |gi| ensures |gi[i]| >= 2 && IndexOk(gi[i]) {
      SegmentOk(group, gi[i]);
    }
  }

  lemma ServedIsVar(group: Group, seg: IndexTable, o: Oid)
    requires FromGroup(group, seg) && o in Prod(seg, 0)
    ensures IsVar(group, o)
  {
    if HasTable(IsTableSegment, group, |group|, seg) {
      var j :| 0 <= j < |group| && IsTableSegment(group[j], seg);
      TableVars(group[j], seg, o);
    } else {
      ScalarVars(seg, o);
      assert HasScalar(group, |group|, Num(o[0]).n);
      var j :| 0 <= j < |group| && group[j] == Member(o[0], Scalar);
      assert MemberVar(group[j], o);
    }
  }

  lemma VarIsServed(gi: seq<IndexTable>, m: Member, o: Oid)
    requires InSegments(gi, m) && MemberVar(m, o)
    ensures Served(gi, o)
  {
    if m.kind.Scalar? {
      var seg :| seg in gi && IsScalarSegment(seg) && Num(m.no) in seg[0];
      ScalarVars(seg, o);
      var i :| 0 <= i < |gi| && gi[i] == seg;
    } else {
      var seg :| seg in gi && IsTableSegment(m, seg);
      TableVars(m, seg, o);
      var i :| 0 <= i < |gi| && gi[i] == seg;
    }
  }

  /** The segments hold exactly the group's variables. */
  lemma SegmentsServe(group: Group, gi: seq<IndexTable>, o: Oid)
    requires Generated(group, gi)
    ensures Served(gi, o) <==> IsVar(group, o)
  {
    if Served(gi, o) {
      var i :| 0 <= i < |gi| && o in Prod(gi[i], 0);
      ServedIsVar(group, gi[i], o);
    }
    if IsVar(group, o) {
      var j :| 0 <= j < |group| && MemberVar(group[j], o);
      VarIsServed(gi, group[j], o);
    }
  }

  /** Every number of the group heads exactly one segment. */
  lemma NumberInOne(group: Group, gi: seq<IndexTable>, no: SubId)
    requires Generated(group, gi)
    ensures (exists i :: 0 <= i < |gi| && Num(no) in gi[i][0]) <==> exists j :: 0 <= j < |group| && group[j].no == no
    ensures forall a, b :: 0 <= a < b < |gi| && Num(no) in gi[a][0] ==> Num(no) !in gi[b][0]
  {
    GeneratedOk(group, gi);
    if i :| 0 <= i < |gi| && Num(no) in gi[i][0] {
      assert FromGroup(group, gi[i]);
      if HasTable(IsTableSegment, group, |group|, gi[i]) {
        var j :| 0 <= j < |group| && IsTableSegment(group[j], gi[i]);
        assert group[j].no == no;
      } else {
        assert HasScalar(group, |group|, Num(no).n);
      }
    }
    if j :| 0 <= j < |group| && group[j].no == no {
      assert InSegments(gi, group[j]);
      var seg := HeadSegment(gi, group[j]);
      var i :| 0 <= i < |gi| && gi[i] == seg;
    }
    forall a, b | 0 <= a < b < |gi| && Num(no) in gi[a][0] ensures Num(no) !in gi[b][0] {
      assert Before(gi[a], gi[b]);
    }
  }

  lemma HeadSegment(gi: seq<IndexTable>, m: Member) returns (seg: IndexTable)
    requires InSegments(gi, m)
    ensures seg in gi && |seg| > 0 && Num(m.no) in seg[0]
  {
    if m.kind.Scalar? {
      seg :| seg in gi && IsScalarSegment(seg) && Num(m.no) in seg[0];
    } else {
      seg :| seg in gi && IsTableSegment(m, seg);
    }
  }

  // ---------------------------------------------------------------------
  // Trying the segments
  // ---------------------------------------------------------------------

  /** `cur` is the request, or starts with the number of a segment tried and not below the request's start. */
  ghost predicate Drifted(gi: seq<IndexTable>, req: Oid, cur: Oid, i: nat) {
    || cur == req
    || (cur != [] && (req == [] || req[0] <= cur[0]) && HeadIn(gi, i, cur[0]))
  }

  ghost predicate HeadIn(gi: seq<IndexTable>, i: nat, no: SubId) {
    exists a :: 0 <= a < i <= |gi| && gi[a] != [] && Num(no) in gi[a][0]
  }

  /** All numbers heading later segments are above a drifted request. */
  lemma LaterHead(gi: seq<IndexTable>, req: Oid, cur: Oid, i: nat, k: nat, no: SubId)
    requires SegmentsOk(gi) && Drifted(gi, req, cur, i) && cur != req && i <= k < |gi| && Num(no) in gi[k][0]
    ensures cur != [] && cur[0] < no && (req == [] || req[0] < no)
  {
    var a :| 0 <= a < i && Num(cur[0]) in gi[a][0];
    assert Before(gi[a], gi[k]);
  }

  lemma ProdStarts(it: IndexTable, o: Oid)
    requires IndexOk(it) && |it| >= 2 && o in Prod(it, 0)
    ensures o != [] && Num(o[0]) in it[0]
  {
    var i, t := ProdHead(it, 0, o);
    assert it[0][i] == Num(o[0]);
  }

  /** Later segments do not tell a drifted request from the original. */
  lemma LaterAgree(gi: seq<IndexTable>, req: Oid, cur: Oid, i: nat, k: nat, o: Oid)
    requires SegmentsOk(gi) && Drifted(gi, req, cur, i) && i <= k < |gi| && o in Prod(gi[k], 0)
    ensures Less(req, o) <==> Less(cur, o)
  {
    if cur != req {
      ProdStarts(gi[k], o);
      LaterHead(gi, req, cur, i, k, o[0]);
      HeadBelow(cur, o);
      if req == [] { EmptyLeast(o); } else { HeadBelow(req, o); }
    }
  }

  lemma HeadBelow(a: Oid, b: Oid)
    requires a != [] && b != [] && a[0] < b[0]
    ensures Less(a, b)
  {
    HeadFirst(a[0], a[1..], b[0], b[1..]);
    assert a == [a[0]] + a[1..] && b == [b[0]] + b[1..];
  }

  lemma ShortHead(it: IndexTable, r: Oid)
    requires IndexOk(it) && |it| >= 2 && StopsShort(it, r)
    ensures r != [] && Num(r[0]) in it[0]
  {
    assert Has(it[0], r[0]);
    var i :| 0 <= i < |it[0]| && Key(it[0][i]) == [r[0]];
    assert it[0][i] == Num(r[0]);
  }

  lemma LaterShort(gi: seq<IndexTable>, req: Oid, cur: Oid, i: nat, k: nat)
    requires SegmentsOk(gi) && Drifted(gi, req, cur, i) && i <= k < |gi|
    ensures StopsShort(gi[k], req) <==> StopsShort(gi[k], cur)
  {
    if cur != req && StopsShort(gi[k], req) {
      ShortHead(gi[k], req);
      LaterHead(gi, req, cur, i, k, req[0]);
    }
    if cur != req && StopsShort(gi[k], cur) {
      ShortHead(gi[k], cur);
      LaterHead(gi, req, cur, i, k, cur[0]);
    }
  }

  /** The request stops in the middle of an array key of the table's. */
  ghost predicate MemberShort(m: Member, r: Oid) {
    && m.kind.Table? && m.kind.indexes.Keys? && |r| >= 4
    && r[0] == m.no && r[1] == m.kind.entryNo && r[2] in m.kind.vars
    && exists i :: 0 <= i < |m.kind.indexes.keys| && Truncates(r[3..], m.kind.indexes.keys[i])
  }

  ghost predicate GroupShort(group: Group, r: Oid) {
    exists j :: 0 <= j < |group| && MemberShort(group[j], r)
  }

  ghost predicate AnyShort(gi: seq<IndexTable>, r: Oid) {
    exists i :: 0 <= i < |gi| && StopsShort(gi[i], r)
  }

  lemma HasNumber(xl: seq<Elem>, s: seq<SubId>, x: SubId)
    requires Holds(xl, s)
    ensures Has(xl, x) <==> x in s
  {
    if Has(xl, x) {
      var i :| 0 <= i < |xl| && Key(xl[i]) == [x];
      assert xl[i] == Num(x);
    }
    if x in s {
      var i :| 0 <= i < |xl| && xl[i] == Num(x);
      assert Key(xl[i]) == [x];
    }
  }

  lemma NumbersNeverShort(xl: seq<Elem>, s: seq<SubId>, rest: Oid)
    requires Holds(xl, s)
    ensures !Short(xl, rest)
  {
  }

  lemma KeysShort(xl: seq<Elem>, keys: seq<Elem>, rest: Oid)
    requires forall e :: e in xl <==> e in keys
    ensures Short(xl, rest) <==> exists i :: 0 <= i < |keys| && Truncates(rest, keys[i])
  {
    if Short(xl, rest) {
      var i :| 0 <= i < |xl| && Truncates(rest, xl[i]);
      assert xl[i] in keys;
    }
    if i :| 0 <= i < |keys| && Truncates(rest, keys[i]) {
      assert keys[i] in xl;
    }
  }

  lemma TableShort(m: Member, seg: IndexTable, r: Oid)
    requires IsTableSegment(m, seg)
    ensures StopsShort(seg, r) <==> MemberShort(m, r)
  {
    var last := |seg| - 1;
    match m.kind.indexes
    case Cascade(dims) =>
      assert Holds(seg[last], dims[last - 3]);
      if last < |r| { NumbersNeverShort(seg[last], dims[last - 3], r[last..]); }
    case Keys(keys) =>
      if |r| >= 4 {
        HasNumber(seg[0], [m.no], r[0]);
        HasNumber(seg[1], [m.kind.entryNo], r[1]);
        HasNumber(seg[2], m.kind.vars, r[2]);
        KeysShort(seg[3], keys, r[3..]);
      }
  }

  lemma ScalarNeverShort(seg: IndexTable, r: Oid)
    requires IsScalarSegment(seg)
    ensures !StopsShort(seg, r)
  {
    if |r| >= 2 { NumbersNeverShort(seg[1], [0], r[1..]); }
  }

  /** Comparing the request fails in a segment exactly when it stops inside an array key. */
  lemma ShortOfGroup(group: Group, gi: seq<IndexTable>, r: Oid)
    requires Generated(group, gi)
    ensures AnyShort(gi, r) <==> GroupShort(group, r)
  {
    if AnyShort(gi, r) {
      var i :| 0 <= i < |gi| && StopsShort(gi[i], r);
      assert FromGroup(group, gi[i]);
      if IsScalarSegment(gi[i]) {
        ScalarNeverShort(gi[i], r);
      } else {
        var j :| 0 <= j < |group| && IsTableSegment(group[j], gi[i]);
        TableShort(group[j], gi[i], r);
      }
    }
    if GroupShort(group, r) {
      var j :| 0 <= j < |group| && MemberShort(group[j], r);
      assert InSegments(gi, group[j]);
      var seg :| seg in gi && IsTableSegment(group[j], seg);
      TableShort(group[j], seg, r);
      var i :| 0 <= i < |gi| && gi[i] == seg;
    }
  }

  /** `r` is the group's least variable above `q`. */
  ghost predicate IsNextVar(group: Group, q: Oid, r: Option<Oid>) {
    match r
    case Some(o) => IsVar(group, o) && Less(q, o) && forall p :: IsVar(group, p) && Less(q, p) ==> LessEq(o, p)
    case None => forall p :: IsVar(group, p) ==> !Less(q, p)
  }

  /** Segments before `i` hold nothing above the request. */
  ghost predicate Tried(gi: seq<IndexTable>, req: Oid, cur: Oid, i: nat) {
    && SegmentsOk(gi) && i <= |gi| && Drifted(gi, req, cur, i)
    && (forall a :: 0 <= a < i ==> Passed(gi[a], req))
  }

  ghost predicate Passed(it: IndexTable, req: Oid) {
    it != [] && !StopsShort(it, req) && forall o :: o in Prod(it, 0) ==> !Less(req, o)
  }

  /** A failed attempt lets the request drift no further than the segment tried. */
  lemma DriftOn(gi: seq<IndexTable>, req: Oid, cur: Oid, i: nat, final: Oid)
    requires SegmentsOk(gi) && Drifted(gi, req, cur, i) && i < |gi| && (final == cur || Rewritten(gi[i], cur, final))
    ensures Drifted(gi, req, final, i + 1)
  {
    if final == cur {
      if cur != req {
        var a :| 0 <= a < i && gi[a] != [] && Num(cur[0]) in gi[a][0];
        assert HeadIn(gi, i + 1, cur[0]);
      }
    } else {
      var k :| 0 <= k < |gi[i][0]| && Key(gi[i][0][k]) == [final[0]];
      assert gi[i][0][k] == Num(final[0]);
      assert HeadIn(gi, i + 1, final[0]);
      if cur != req { LaterHead(gi, req, cur, i, i, final[0]); }
    }
  }

  lemma PassedOver(gi: seq<IndexTable>, req: Oid, cur: Oid, i: nat)
    requires SegmentsOk(gi) && Drifted(gi, req, cur, i) && i < |gi| && IsNext(Prod(gi[i], 0), cur, None) && !StopsShort(gi[i], cur)
    ensures Passed(gi[i], req)
  {
    LaterShort(gi, req, cur, i, i);
    forall o | o in Prod(gi[i], 0) ensures !Less(req, o) {
      LaterAgree(gi, req, cur, i, i, o);
    }
  }

  lemma Failed(gi: seq<IndexTable>, req: Oid, cur: Oid, i: nat, final: Oid)
    requires Tried(gi, req, cur, i) && i < |gi| && IsNext(Prod(gi[i], 0), cur, None) && !StopsShort(gi[i], cur)
    requires final == cur || Rewritten(gi[i], cur, final)
    ensures Tried(gi, req, final, i + 1)
  {
    DriftOn(gi, req, cur, i, final);
    PassedOver(gi, req, cur, i);
  }

  lemma Exhausts(group: Group, gi: seq<IndexTable>, req: Oid, cur: Oid)
    requires Generated(group, gi) && Tried(gi, req, cur, |gi|)
    ensures IsNextVar(group, req, None) && !AnyShort(gi, req)
  {
    forall p | IsVar(group, p) ensures !Less(req, p) {
      SegmentsServe(group, gi, p);
      var k :| 0 <= k < |gi| && p in Prod(gi[k], 0);
      assert Passed(gi[k], req);
    }
    forall k | 0 <= k < |gi| ensures !StopsShort(gi[k], req) {
      assert Passed(gi[k], req);
    }
  }

  /** Identifiers of later segments are above those of earlier ones. */
  lemma SegmentOrder(gi: seq<IndexTable>, i: nat, k: nat, o: Oid, p: Oid)
    requires SegmentsOk(gi) && i < k < |gi| && o in Prod(gi[i], 0) && p in Prod(gi[k], 0)
    ensures Less(o, p)
  {
    ProdStarts(gi[i], o);
    ProdStarts(gi[k], p);
    assert Before(gi[i], gi[k]);
    HeadBelow(o, p);
  }

  lemma NotPassed(gi: seq<IndexTable>, req: Oid, i: nat, k: nat, p: Oid)
    requires i <= |gi| && k < |gi| && gi[k] != [] && p in Prod(gi[k], 0) && Less(req, p)
    requires forall a :: 0 <= a < i ==> Passed(gi[a], req)
    ensures i <= k
  {
  }

  lemma Succeeds(group: Group, gi: seq<IndexTable>, req: Oid, cur: Oid, i: nat, o: Oid)
    requires Generated(group, gi) && Tried(gi, req, cur, i) && i < |gi| && IsNext(Prod(gi[i], 0), cur, Some(o))
    ensures IsNextVar(group, req, Some(o))
  {
    SegmentsServe(group, gi, o);
    LaterAgree(gi, req, cur, i, i, o);
    forall p | IsVar(group, p) && Less(req, p) ensures LessEq(o, p) {
      SegmentsServe(group, gi, p);
      var k :| 0 <= k < |gi| && p in Prod(gi[k], 0);
      NotPassed(gi, req, i, k, p);
      if k == i {
        LaterAgree(gi, req, cur, i, i, p);
      } else {
        SegmentOrder(gi, i, k, o, p);
      }
    }
  }

  lemma HeadNotAbove(a: Oid, b: Oid)
    requires a != [] && b != [] && Less(a, b)
    ensures a[0] <= b[0]
  {
    HeadFirst(a[0], a[1..], b[0], b[1..]);
    assert a == [a[0]] + a[1..] && b == [b[0]] + b[1..];
  }

  lemma NoneShort(gi: seq<IndexTable>, req: Oid, cur: Oid, i: nat, o: Oid)
    requires Tried(gi, req, cur, i) && i < |gi| && !StopsShort(gi[i], cur) && o in Prod(gi[i], 0) && Less(req, o)
    ensures !AnyShort(gi, req)
  {
    forall k | 0 <= k < |gi| ensures !StopsShort(gi[k], req) {
      if k < i {
        assert Passed(gi[k], req);
      } else if k == i {
        LaterShort(gi, req, cur, i, i);
      } else {
        assert Before(gi[i], gi[k]);
        ProdStarts(gi[i], o);
        if StopsShort(gi[k], req) {
          ShortHead(gi[k], req);
          HeadNotAbove(req, o);
        }
      }
    }
  }

  /** The GETNEXT handler: the group's least variable above the request. */
  method GroupGetnext(group: Group, req: Oid) returns (res: Result)
    requires GroupOk(group)
    ensures res.Raised? <==> Unsortable(group) || GroupShort(group, req)
    ensures res.Returned? ==> IsNextVar(group, req, res.value)
  {
    var g := Generate(group);
    if g.None? {
      return Raised;
    }
    var gi := g.value;
    GeneratedOk(group, gi);
    ShortOfGroup(group, gi, req);
    var i, cur := 0, req;
    while i < |gi|
      invariant 0 <= i <= |gi| && Tried(gi, req, cur, i)
    {
      var r, final := SegmentGetnext(cur, gi[i]);
      if r.Raised? {
        LaterShort(gi, req, cur, i, i);
        return Raised;
      }
      if r.value.Some? {
        Succeeds(group, gi, req, cur, i, r.value.value);
        NoneShort(gi, req, cur, i, r.value.value);
        return r;
      }
      Failed(gi, req, cur, i, final);
      cur, i := final, i + 1;
    }
    Exhausts(group, gi, req, cur);
    res := Returned(None);
  }

  /** Responses have the two or at least four sub-identifiers that the handler can dispatch on, and dispatch
      finds a scalar, or a column of an entry of a table. */
  lemma VarLength(group: Group, o: Oid)
    requires GroupOk(group) && IsVar(group, o)
    ensures |o| == 2 || |o| >= 4
    ensures |o| == 2 ==> exists j :: 0 <= j < |group| && group[j].no == o[0] && group[j].kind.Scalar?
    ensures |o| >= 4 ==> exists j :: 0 <= j < |group| && group[j].no == o[0] && group[j].kind.Table?
                                  && group[j].kind.entryNo == o[1] && o[2] in group[j].kind.vars
  {
    var j :| 0 <= j < |group| && MemberVar(group[j], o);
    if group[j].kind.Table? {
      assert MemberOk(group[j]);
      match group[j].kind.indexes
      case Cascade(dims) => assert |o[3..]| == |dims|;
      case Keys(keys) =>
        var i :| 0 <= i < |keys| && Key(keys[i]) == o[3..];
        assert Key(keys[i]) != [];
    }
  }
}
