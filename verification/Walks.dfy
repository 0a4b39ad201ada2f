/** Iterated successors in a finite set of identifiers: what a GETNEXT walk visits. */
module Walks {
  import opened Oids

  /** The members of `s` above `q`. */
  ghost function Above(s: set<Oid>, q: Oid): set<Oid> {
    set o | o in s && Less(q, o)
  }

  lemma {:induction false} LeastExists(t: set<Oid>) returns (x: Oid)
    requires t != {}
    ensures x in t && forall o :: o in t ==> LessEq(x, o)
    decreases |t|
  {
    var y :| y in t;
    if t == {y} {
      x := y;
    } else {
      var t' := t - {y};
      assert t == t' + {y};
      var z := LeastExists(t');
      LessTotal(y, z);
      x := if Less(y, z) then y else z;
      forall o | o in t ensures LessEq(x, o) {
        if o != y { LessLessEq(x, z, o); }
      }
    }
  }

  /** Every finite set has a successor function. */
  lemma NextExists(s: set<Oid>, q: Oid)
    ensures exists r :: IsNext(s, q, r)
  {
    if Above(s, q) == {} {
      assert forall o :: o in s ==> o !in Above(s, q);
      assert IsNext(s, q, None);
    } else {
      var x := LeastExists(Above(s, q));
      assert forall o :: o in s && Less(q, o) ==> o in Above(s, q);
      assert IsNext(s, q, Some(x));
    }
  }

  /** A successor function of `s`. */
  ghost function NextOf(s: set<Oid>): Oid -> Option<Oid> {
    (q: Oid) => (NextExists(s, q); var r :| IsNext(s, q, r); r)
  }

  /** `next` answers every request with the least member above it. */
  ghost predicate Successor(s: set<Oid>, next: Oid -> Option<Oid>) {
    forall q {:trigger IsNext(s, q, next(q))} :: IsNext(s, q, next(q))
  }

  /** The next member of a smaller set is that of the whole set exactly when the latter belongs to the smaller set. */
  lemma SubsetNext(s: set<Oid>, t: set<Oid>, q: Oid, r: Option<Oid>)
    requires s <= t && IsNext(s, q, r)
    ensures IsNext(t, q, r) <==> forall o :: IsNext(t, q, Some(o)) ==> o in s
  {
    NextExists(t, q);
    var x :| IsNext(t, q, x);
    if x.Some? && x.value in s {
      assert IsNext(s, q, x);
      NextUnique(s, q, r, x);
    }
    if IsNext(t, q, r) {
      forall o | IsNext(t, q, Some(o)) ensures o in s {
        NextUnique(t, q, r, Some(o));
      }
    }
  }

  lemma NextOfIs(s: set<Oid>)
    ensures Successor(s, NextOf(s))
  {
    forall q ensures IsNext(s, q, NextOf(s)(q)) {
      NextExists(s, q);
    }
  }

  /** The identifier a client holds after `n` GETNEXT requests from `q`, each repeating the last answer;
      the request is echoed once nothing is left. */
  ghost function Walk(next: Oid -> Option<Oid>, q: Oid, n: nat): Oid {
    if n == 0 then q
    else
      var prev := Walk(next, q, n - 1);
      if next(prev).Some? then next(prev).value else prev
  }

  /** The identifiers answered to the first `n` requests. */
  ghost function Visited(next: Oid -> Option<Oid>, q: Oid, n: nat): set<Oid> {
    if n == 0 then {} else Visited(next, q, n - 1) + {Walk(next, q, n)}
  }

  lemma NoneAbove(s: set<Oid>, q: Oid, r: Option<Oid>)
    requires IsNext(s, q, r)
    ensures r == None <==> Above(s, q) == {}
  {
    if r.None? {
      assert forall o :: o in s ==> !Less(q, o);
    } else {
      assert r.value in Above(s, q);
    }
  }

  /** A step leaves exactly the rest to visit. */
  lemma StepAbove(s: set<Oid>, q: Oid, x: Oid)
    requires IsNext(s, q, Some(x))
    ensures x in Above(s, q) && Above(s, x) == Above(s, q) - {x}
  {
    forall o | o in Above(s, x) ensures o in Above(s, q) - {x} {
      LessTransitive(q, x, o);
      LessIrreflexive(x);
    }
  }

  lemma WalkRises(s: set<Oid>, next: Oid -> Option<Oid>, q: Oid, n: nat)
    requires Successor(s, next) && |Above(s, Walk(next, q, n))| > 0
    ensures Less(Walk(next, q, n), Walk(next, q, n + 1))
  {
    var prev := Walk(next, q, n);
    assert IsNext(s, prev, next(prev));
    NoneAbove(s, prev, next(prev));
  }

  lemma WalkTakes(s: set<Oid>, next: Oid -> Option<Oid>, q: Oid, n: nat)
    requires Successor(s, next) && |Above(s, Walk(next, q, n))| > 0
    ensures Above(s, Walk(next, q, n)) == Above(s, Walk(next, q, n + 1)) + {Walk(next, q, n + 1)}
    ensures Walk(next, q, n + 1) !in Above(s, Walk(next, q, n + 1))
  {
    var prev := Walk(next, q, n);
    assert IsNext(s, prev, next(prev));
    NoneAbove(s, prev, next(prev));
    StepAbove(s, prev, next(prev).value);
  }

  lemma {:induction false} WalkCount(s: set<Oid>, next: Oid -> Option<Oid>, q: Oid, n: nat)
    requires Successor(s, next) && n <= |Above(s, q)|
    ensures |Above(s, Walk(next, q, n))| == |Above(s, q)| - n
  {
    if n > 0 {
      WalkCount(s, next, q, n - 1);
      WalkTakes(s, next, q, n - 1);
    }
  }

  /** The members above `q` are those still above after `n` answers and the `n` answers. */
  lemma {:induction false} WalkVisits(s: set<Oid>, next: Oid -> Option<Oid>, q: Oid, n: nat, o: Oid)
    requires Successor(s, next) && n <= |Above(s, q)|
    ensures o in Above(s, q) <==> o in Above(s, Walk(next, q, n)) || o in Visited(next, q, n)
  {
    if n > 0 {
      WalkVisits(s, next, q, n - 1, o);
      WalkCount(s, next, q, n - 1);
      WalkTakes(s, next, q, n - 1);
      VisitedMore(next, q, n, o);
      assert o in Above(s, Walk(next, q, n - 1)) <==> o in Above(s, Walk(next, q, n)) || o == Walk(next, q, n);
    }
  }

  lemma VisitedMore(next: Oid -> Option<Oid>, q: Oid, n: nat, o: Oid)
    requires n > 0
    ensures o in Visited(next, q, n) <==> o in Visited(next, q, n - 1) || o == Walk(next, q, n)
  {
  }

  lemma {:induction false} WalkAscends(s: set<Oid>, next: Oid -> Option<Oid>, q: Oid, i: nat, j: nat)
    requires Successor(s, next) && i < j <= |Above(s, q)|
    ensures Less(Walk(next, q, i), Walk(next, q, j))
    decreases j
  {
    WalkCount(s, next, q, j - 1);
    WalkRises(s, next, q, j - 1);
    if i < j - 1 {
      WalkAscends(s, next, q, i, j - 1);
      LessTransitive(Walk(next, q, i), Walk(next, q, j - 1), Walk(next, q, j));
    }
  }

  lemma {:induction false} WalkRests(s: set<Oid>, next: Oid -> Option<Oid>, q: Oid, n: nat)
    requires Successor(s, next) && n >= |Above(s, q)|
    ensures next(Walk(next, q, n)) == None && Walk(next, q, n) == Walk(next, q, |Above(s, q)|)
    decreases n
  {
    if n == |Above(s, q)| {
      WalkCount(s, next, q, n);
      assert IsNext(s, Walk(next, q, n), next(Walk(next, q, n)));
      NoneAbove(s, Walk(next, q, n), next(Walk(next, q, n)));
    } else {
      WalkRests(s, next, q, n - 1);
    }
  }

  /** The walk visits every member above `q` exactly once, in ascending order, and then stays where it is
      with no successor. */
  ghost predicate Completes(s: set<Oid>, next: Oid -> Option<Oid>, q: Oid) {
    var k := |Above(s, q)|;
    && Visited(next, q, k) == Above(s, q)
    && (forall i, j :: 0 <= i < j <= k ==> Less(Walk(next, q, i), Walk(next, q, j)))
    && (forall n :: n >= k ==> next(Walk(next, q, n)) == None && Walk(next, q, n) == Walk(next, q, k))
  }

  lemma WalkComplete(s: set<Oid>, next: Oid -> Option<Oid>, q: Oid)
    requires Successor(s, next)
    ensures Completes(s, next, q)
  {
    var k := |Above(s, q)|;
    WalkCount(s, next, q, k);
    forall o ensures o in Above(s, q) <==> o in Visited(next, q, k) {
      WalkVisits(s, next, q, k, o);
    }
    forall i, j | 0 <= i < j <= k ensures Less(Walk(next, q, i), Walk(next, q, j)) {
      WalkAscends(s, next, q, i, j);
    }
    forall n | n >= k ensures next(Walk(next, q, n)) == None && Walk(next, q, n) == Walk(next, q, k) {
      WalkRests(s, next, q, n);
    }
  }

  /** `next` is right at the start and at the members above it. */
  ghost predicate SuccessorFrom(s: set<Oid>, next: Oid -> Option<Oid>, q: Oid) {
    IsNext(s, q, next(q)) && forall o :: o in Above(s, q) ==> IsNext(s, o, next(o))
  }

  lemma StaysAbove(s: set<Oid>, next: Oid -> Option<Oid>, q: Oid, w: Oid)
    requires SuccessorFrom(s, next, q) && (w == q || w in Above(s, q)) && next(w).Some?
    ensures next(w).value in Above(s, q)
  {
    if w != q { LessTransitive(q, w, next(w).value); }
  }

  /** A walk only asks at its start and at members above it, so it is that of any successor function. */
  lemma {:induction false} WalkStays(s: set<Oid>, next: Oid -> Option<Oid>, whole: Oid -> Option<Oid>, q: Oid, n: nat)
    requires SuccessorFrom(s, next, q) && Successor(s, whole)
    ensures Walk(next, q, n) == Walk(whole, q, n) && next(Walk(next, q, n)) == whole(Walk(next, q, n))
    ensures Walk(next, q, n) == q || Walk(next, q, n) in Above(s, q)
  {
    if n > 0 {
      WalkStays(s, next, whole, q, n - 1);
      if next(Walk(next, q, n - 1)).Some? { StaysAbove(s, next, q, Walk(next, q, n - 1)); }
    }
    var w := Walk(next, q, n);
    assert IsNext(s, w, whole(w));
    NextUnique(s, w, next(w), whole(w));
  }

  lemma {:induction false} VisitedSame(s: set<Oid>, next: Oid -> Option<Oid>, whole: Oid -> Option<Oid>, q: Oid, n: nat)
    requires SuccessorFrom(s, next, q) && Successor(s, whole)
    ensures Visited(next, q, n) == Visited(whole, q, n)
  {
    if n > 0 {
      VisitedSame(s, next, whole, q, n - 1);
      WalkStays(s, next, whole, q, n);
    }
  }

  lemma WalkFrom(s: set<Oid>, next: Oid -> Option<Oid>, q: Oid)
    requires SuccessorFrom(s, next, q)
    ensures Completes(s, next, q)
  {
    NextOfIs(s);
    WalkLike(s, next, NextOf(s), q);
  }

  lemma WalkLike(s: set<Oid>, next: Oid -> Option<Oid>, whole: Oid -> Option<Oid>, q: Oid)
    requires SuccessorFrom(s, next, q) && Successor(s, whole)
    ensures Completes(s, next, q)
  {
    var k := |Above(s, q)|;
    WalkComplete(s, whole, q);
    VisitedSame(s, next, whole, q, k);
    forall i, j | 0 <= i < j <= k ensures Less(Walk(next, q, i), Walk(next, q, j)) {
      WalkStays(s, next, whole, q, i);
      WalkStays(s, next, whole, q, j);
    }
    WalkStays(s, next, whole, q, k);
    forall n | n >= k ensures next(Walk(next, q, n)) == None && Walk(next, q, n) == Walk(next, q, k) {
      WalkStays(s, next, whole, q, n);
    }
  }

  lemma {:induction false} VisitedIndex(next: Oid -> Option<Oid>, q: Oid, n: nat, o: Oid) returns (i: nat)
    requires o in Visited(next, q, n)
    ensures 1 <= i <= n && o == Walk(next, q, i)
  {
    if o == Walk(next, q, n) {
      i := n;
    } else {
      VisitedMore(next, q, n, o);
      i := VisitedIndex(next, q, n - 1, o);
    }
  }

  /** In a complete walk the answer at a visited member lies up to every larger one. */
  lemma VisitedNext(s: set<Oid>, next: Oid -> Option<Oid>, q: Oid, o: Oid, x: Oid)
    requires Completes(s, next, q) && o in Above(s, q) && x in Above(s, q) && Less(o, x)
    ensures next(o).Some? && Less(o, next(o).value) && LessEq(next(o).value, x)
  {
    var k := |Above(s, q)|;
    var i := VisitedIndex(next, q, k, o);
    var j := VisitedIndex(next, q, k, x);
    Positioned(next, q, k, i, j);
    assert Less(Walk(next, q, i), Walk(next, q, i + 1));
    assert i + 1 == j || Less(Walk(next, q, i + 1), Walk(next, q, j));
    StepsUp(next, q, i, j);
  }

  lemma StepsUp(next: Oid -> Option<Oid>, q: Oid, i: nat, j: nat)
    requires Less(Walk(next, q, i), Walk(next, q, i + 1))
    requires i + 1 == j || Less(Walk(next, q, i + 1), Walk(next, q, j))
    ensures var r := next(Walk(next, q, i)); r.Some? && Less(Walk(next, q, i), r.value) && LessEq(r.value, Walk(next, q, j))
  {
    LessIrreflexive(Walk(next, q, i));
  }

  lemma Positioned(next: Oid -> Option<Oid>, q: Oid, k: nat, i: nat, j: nat)
    requires forall a, b :: 0 <= a < b <= k ==> Less(Walk(next, q, a), Walk(next, q, b))
    requires i <= k && j <= k && Less(Walk(next, q, i), Walk(next, q, j))
    ensures i < j
  {
    LessIrreflexive(Walk(next, q, i));
    if j < i { LessAsymmetric(Walk(next, q, j), Walk(next, q, i)); }
  }

  lemma {:induction false} VisitedWalk(next: Oid -> Option<Oid>, q: Oid, n: nat, i: nat)
    requires 1 <= i <= n
    ensures Walk(next, q, i) in Visited(next, q, n)
  {
    if i < n {
      VisitedWalk(next, q, n - 1, i);
    }
  }
}
