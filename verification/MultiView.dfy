/** A request against all views of a community (core/snmp_msg_proc.c:170-193). */
module MultiView {
  import opened Oids
  import opened Handlers
  import opened TreeSearch
  import opened MibSearch
  import opened ViewLists
  import opened Walks

  /** The variables a list of views shows. */
  ghost function Shown(all: set<Oid>, views: seq<Oid>, list: seq<ViewId>): set<Oid>
    requires InRange(views, list)
  {
    set o | o in all && Covers(views, list, o)
  }

  /** The view loop ended with `r`: the answer of the first view that has one. */
  ghost predicate FirstAnswer(reg: map<Oid, int>, h: Handlers, views: seq<Oid>, list: seq<ViewId>, req: Oid, r: Option<Oid>, k: nat)
    requires InRange(views, list)
  {
    && NoneUpTo(reg, h, views, list, req, k)
    && (if k < |list| then r.Some? && ViewAnswers(reg, h, views[list[k]], req, r) else r.None?)
  }

  /** The first `k` views have no answer. */
  ghost predicate NoneUpTo(reg: map<Oid, int>, h: Handlers, views: seq<Oid>, list: seq<ViewId>, req: Oid, k: nat)
    requires InRange(views, list)
  {
    k <= |list| && forall i :: 0 <= i < k ==> ViewAnswers(reg, h, views[list[i]], req, None)
  }

  lemma NoneMore(reg: map<Oid, int>, h: Handlers, views: seq<Oid>, list: seq<ViewId>, req: Oid, k: nat)
    requires InRange(views, list) && NoneUpTo(reg, h, views, list, req, k) && k < |list|
    requires ViewAnswers(reg, h, views[list[k]], req, None)
    ensures NoneUpTo(reg, h, views, list, req, k + 1)
  {
  }

  ghost predicate ViewAnswers(reg: map<Oid, int>, h: Handlers, v: Oid, req: Oid, r: Option<Oid>) {
    Answers(LitIn(reg, h, Sought(v, req)), v, req, r)
  }

  /** The request can be answered with `o` below view `v`: it is not the view itself, and its handler
      answers what is asked for. */
  ghost predicate Offers(reg: map<Oid, int>, h: Handlers, v: Oid, req: Oid, o: Oid) {
    v <= o && o != v && Answered(reg, h, Sought(v, req), o)
  }

  /** What the request can be answered with, below one view and below all of a list. */
  ghost function Offered(reg: map<Oid, int>, h: Handlers, v: Oid, req: Oid): set<Oid> {
    set o | o in Instances(reg, h.vars) && Offers(reg, h, v, req, o)
  }

  ghost function OfferedByAll(reg: map<Oid, int>, h: Handlers, views: seq<Oid>, list: seq<ViewId>, req: Oid): set<Oid>
    requires InRange(views, list)
  {
    set o | o in Instances(reg, h.vars) && exists i :: 0 <= i < |list| && Offers(reg, h, views[list[i]], req, o)
  }

  /** The request lies below the view, or compares with it without wrapping. */
  ghost predicate Placed(v: Oid, req: Oid) {
    v <= req || OrderSafe(req, v)
  }

  lemma SmallPlaced(v: Oid, req: Oid)
    requires Small(v) && Small(req)
    ensures Placed(v, req)
  {
    CmpOrders(req, v);
  }

  /** The answer below one view is the least one offered there. */
  lemma ViewAnswer(reg: map<Oid, int>, h: Handlers, v: Oid, req: Oid, r: Option<Oid>)
    requires ViewAnswers(reg, h, v, req, r) && Placed(v, req)
    ensures IsNext(Offered(reg, h, v, req), req, r)
  {
    var lit := LitIn(reg, h, Sought(v, req));
    CmpOrders(req, v);
    LessTotal(req, v);
    LessIrreflexive(v);
    assert forall o :: o in Offered(reg, h, v, req) <==> o in Visible(lit, v) && o != v;
    if v <= req {
      PrefixLessEq(v, req);
      if Less(req, v) { LessLessEq(v, req, v); }
    } else if Less(req, v) {
      AheadOfView(lit, v, req, r);
    } else {
      BehindView(lit, v, req);
    }
  }

  /** When the comparison wraps, a view after the request is passed over, and one before it is answered from
      its start on. */
  lemma WrappedAnswer(reg: map<Oid, int>, h: Handlers, v: Oid, req: Oid, r: Option<Oid>)
    requires ViewAnswers(reg, h, v, req, r) && !Placed(v, req)
    ensures Less(req, v) != Less(v, req)
    ensures Less(req, v) ==> r.None?
    ensures Less(v, req) ==> (r.None? <==> Offered(reg, h, v, req) == {})
    ensures r.Some? ==> r.value in Offered(reg, h, v, req) && Less(r.value, req)
  {
    var lit := LitIn(reg, h, v);
    CmpOrders(req, v);
    LessTotal(req, v);
    LessAsymmetricWhen(req, v);
    LessIrreflexive(v);
    assert forall o :: o in Offered(reg, h, v, req) <==> o in Visible(lit, v) && o != v;
    if Less(v, req) {
      BehindView(lit, v, req);
      forall o | o in Offered(reg, h, v, req) ensures Less(v, o) && Less(o, req) {
        PrefixLessEq(v, o);
        assert !Less(req, o);
        LessTotal(req, o);
      }
    }
  }

  lemma LessAsymmetricWhen(a: Oid, b: Oid)
    ensures !(Less(a, b) && Less(b, a))
  {
    if Less(a, b) { LessAsymmetric(a, b); }
  }

  /** What an earlier view shows comes before what a later one shows. */
  lemma ViewsOrdered(views: seq<Oid>, list: seq<ViewId>, i: nat, j: nat, o: Oid, u: Oid)
    requires InRange(views, list) && Chain(views, list) && i < j < |list| && views[list[i]] <= o && views[list[j]] <= u
    ensures Less(o, u)
  {
    SubtreeBefore(views[list[i]], o, views[list[j]], u);
  }

  /** What is offered is answered by no later view. */
  lemma AnswerNotAfter(reg: map<Oid, int>, h: Handlers, views: seq<Oid>, list: seq<ViewId>, req: Oid, r: Option<Oid>, k: nat, i: nat, o: Oid)
    requires InRange(views, list) && FirstAnswer(reg, h, views, list, req, r, k)
    requires i < |list| && o in Offered(reg, h, views[list[i]], req) && Placed(views[list[i]], req) && Less(req, o)
    ensures k <= i && r.Some?
  {
    if i < k {
      assert ViewAnswers(reg, h, views[list[i]], req, None);
      ViewAnswer(reg, h, views[list[i]], req, None);
    }
  }

  /** An answer is offered. */
  lemma AnswerOffered(reg: map<Oid, int>, h: Handlers, views: seq<Oid>, list: seq<ViewId>, req: Oid, r: Option<Oid>, k: nat)
    requires InRange(views, list) && FirstAnswer(reg, h, views, list, req, r, k) && r.Some?
    ensures r.value in Offered(reg, h, views[list[k]], req) && r.value in OfferedByAll(reg, h, views, list, req)
    ensures Placed(views[list[k]], req) ==> IsNext(Offered(reg, h, views[list[k]], req), req, r)
    ensures !Placed(views[list[k]], req) ==> Less(views[list[k]], req) && Less(r.value, req)
  {
    var v := views[list[k]];
    if Placed(v, req) { ViewAnswer(reg, h, v, req, r); } else { WrappedAnswer(reg, h, v, req, r); }
    assert Offers(reg, h, v, req, r.value);
  }

  /** No view before the request that compares above it has anything to offer, and the least variable offered
      above the request lies in a view that compares right. */
  ghost predicate Compares(reg: map<Oid, int>, h: Handlers, views: seq<Oid>, list: seq<ViewId>, req: Oid)
    requires InRange(views, list)
  {
    && (forall i :: 0 <= i < |list| && Less(views[list[i]], req) && !Placed(views[list[i]], req) ==> Offered(reg, h, views[list[i]], req) == {})
    && (forall o, i :: IsNext(OfferedByAll(reg, h, views, list, req), req, Some(o)) && 0 <= i < |list| && views[list[i]] <= o ==>
          Placed(views[list[i]], req))
  }

  lemma AnswerAbove(reg: map<Oid, int>, h: Handlers, views: seq<Oid>, list: seq<ViewId>, req: Oid, r: Option<Oid>, k: nat)
    requires InRange(views, list) && FirstAnswer(reg, h, views, list, req, r, k) && Compares(reg, h, views, list, req) && r.Some?
    ensures IsNext(Offered(reg, h, views[list[k]], req), req, r) && r.value in OfferedByAll(reg, h, views, list, req)
  {
    AnswerOffered(reg, h, views, list, req, r, k);
  }

  /** An answer of view `k` is not above what a later view offers, nor above what it offers itself. */
  lemma NotAbove(reg: map<Oid, int>, h: Handlers, views: seq<Oid>, list: seq<ViewId>, req: Oid, a: Oid, k: nat, i: nat, o: Oid)
    requires InRange(views, list) && Chain(views, list) && k <= i < |list|
    requires IsNext(Offered(reg, h, views[list[k]], req), req, Some(a)) && o in Offered(reg, h, views[list[i]], req) && Less(req, o)
    ensures LessEq(a, o)
  {
    var s := Offered(reg, h, views[list[k]], req);
    NextLeast(s, req, a, o);
    if k < i { OfferedBefore(reg, h, views, list, req, a, k, i, o); }
  }

  lemma NextLeast(s: set<Oid>, q: Oid, a: Oid, o: Oid)
    requires IsNext(s, q, Some(a)) && Less(q, o)
    ensures a in s && (o in s ==> LessEq(a, o))
  {
  }

  lemma OfferedBefore(reg: map<Oid, int>, h: Handlers, views: seq<Oid>, list: seq<ViewId>, req: Oid, a: Oid, k: nat, i: nat, o: Oid)
    requires InRange(views, list) && Chain(views, list) && k < i < |list| && a in Offered(reg, h, views[list[k]], req) && views[list[i]] <= o
    ensures Less(a, o)
  {
    ViewsOrdered(views, list, k, i, a, o);
  }

  /** The least variable offered above the request is the answer. */
  lemma LeastAnswered(reg: map<Oid, int>, h: Handlers, views: seq<Oid>, list: seq<ViewId>, req: Oid, r: Option<Oid>, k: nat, o: Oid, i: nat)
    requires InRange(views, list) && Chain(views, list) && FirstAnswer(reg, h, views, list, req, r, k) && i < |list|
    requires Offers(reg, h, views[list[i]], req, o) && o in Instances(reg, h.vars) && Placed(views[list[i]], req) && Less(req, o)
    requires r.Some? ==> IsNext(Offered(reg, h, views[list[k]], req), req, r) && LessEq(o, r.value)
    ensures r == Some(o)
  {
    AnswerNotAfter(reg, h, views, list, req, r, k, i, o);
    NotAbove(reg, h, views, list, req, r.value, k, i, o);
    LessEqAntisymmetric(r.value, o);
  }

  lemma ComparesNext(reg: map<Oid, int>, h: Handlers, views: seq<Oid>, list: seq<ViewId>, req: Oid, r: Option<Oid>, k: nat)
    requires InRange(views, list) && Chain(views, list) && FirstAnswer(reg, h, views, list, req, r, k)
    requires Compares(reg, h, views, list, req)
    ensures IsNext(OfferedByAll(reg, h, views, list, req), req, r)
  {
    var all := OfferedByAll(reg, h, views, list, req);
    NextExists(all, req);
    var x :| IsNext(all, req, x);
    if r.Some? { AnswerAbove(reg, h, views, list, req, r, k); }
    if x.Some? {
      var i :| 0 <= i < |list| && Offers(reg, h, views[list[i]], req, x.value);
      LeastAnswered(reg, h, views, list, req, r, k, x.value, i);
    }
  }

  lemma LessEqAntisymmetric(a: Oid, b: Oid)
    requires LessEq(a, b) && LessEq(b, a)
    ensures a == b
  {
    LessAsymmetricWhen(a, b);
  }

  lemma SpoilerNotPassed(reg: map<Oid, int>, h: Handlers, views: seq<Oid>, list: seq<ViewId>, req: Oid, r: Option<Oid>, k: nat, i: nat)
    requires InRange(views, list) && FirstAnswer(reg, h, views, list, req, r, k)
    requires i < |list| && Less(views[list[i]], req) && !Placed(views[list[i]], req) && Offered(reg, h, views[list[i]], req) != {}
    ensures k <= i && r.Some?
  {
    if i < k {
      assert ViewAnswers(reg, h, views[list[i]], req, None);
      WrappedAnswer(reg, h, views[list[i]], req, None);
    }
  }

  lemma BeforeBoth(views: seq<Oid>, list: seq<ViewId>, k: nat, i: nat, a: Oid, req: Oid)
    requires InRange(views, list) && Chain(views, list) && k < i < |list| && views[list[k]] <= a && Less(views[list[i]], req)
    ensures Less(a, req)
  {
    ViewsOrdered(views, list, k, i, a, views[list[i]]);
    LessTransitive(a, views[list[i]], req);
  }

  /** A view that wrongly compares above the request spoils the answer if it has anything to offer. */
  lemma SpoiledBy(reg: map<Oid, int>, h: Handlers, views: seq<Oid>, list: seq<ViewId>, req: Oid, r: Option<Oid>, k: nat, i: nat)
    requires InRange(views, list) && Chain(views, list) && FirstAnswer(reg, h, views, list, req, r, k)
    requires i < |list| && Less(views[list[i]], req) && !Placed(views[list[i]], req) && Offered(reg, h, views[list[i]], req) != {}
    ensures r.Some? && Less(r.value, req)
  {
    SpoilerNotPassed(reg, h, views, list, req, r, k, i);
    AnswerOffered(reg, h, views, list, req, r, k);
    if k < i { BeforeBoth(views, list, k, i, r.value, req); }
  }

  /** The answer of the view loop is the least one that any view offers above the request, if and only if the
      comparisons with the views do not mislead it. */
  lemma FirstExactly(reg: map<Oid, int>, h: Handlers, views: seq<Oid>, list: seq<ViewId>, req: Oid, r: Option<Oid>, k: nat)
    requires InRange(views, list) && Chain(views, list) && FirstAnswer(reg, h, views, list, req, r, k)
    ensures IsNext(OfferedByAll(reg, h, views, list, req), req, r) <==> Compares(reg, h, views, list, req)
  {
    var all := OfferedByAll(reg, h, views, list, req);
    if Compares(reg, h, views, list, req) {
      ComparesNext(reg, h, views, list, req, r, k);
    }
    if IsNext(all, req, r) {
      forall i | 0 <= i < |list| && Less(views[list[i]], req) && !Placed(views[list[i]], req) ensures Offered(reg, h, views[list[i]], req) == {} {
        NotSpoiled(reg, h, views, list, req, r, k, i);
      }
      forall o, i | IsNext(all, req, Some(o)) && 0 <= i < |list| && views[list[i]] <= o ensures Placed(views[list[i]], req) {
        NextUnique(all, req, r, Some(o));
        AnswerPlaced(reg, h, views, list, req, r, k, i);
      }
    }
  }

  lemma NotSpoiled(reg: map<Oid, int>, h: Handlers, views: seq<Oid>, list: seq<ViewId>, req: Oid, r: Option<Oid>, k: nat, i: nat)
    requires InRange(views, list) && Chain(views, list) && FirstAnswer(reg, h, views, list, req, r, k)
    requires r.Some? ==> Less(req, r.value)
    requires i < |list| && Less(views[list[i]], req) && !Placed(views[list[i]], req)
    ensures Offered(reg, h, views[list[i]], req) == {}
  {
    if Offered(reg, h, views[list[i]], req) != {} {
      SpoiledBy(reg, h, views, list, req, r, k, i);
      LessAsymmetricWhen(req, r.value);
    }
  }

  lemma AnswerPlaced(reg: map<Oid, int>, h: Handlers, views: seq<Oid>, list: seq<ViewId>, req: Oid, r: Option<Oid>, k: nat, i: nat)
    requires InRange(views, list) && Chain(views, list) && FirstAnswer(reg, h, views, list, req, r, k)
    requires r.Some? && Less(req, r.value) && i < |list| && views[list[i]] <= r.value
    ensures Placed(views[list[i]], req)
  {
    AnswerOffered(reg, h, views, list, req, r, k);
    ChainDisjoint(views, list, i, k, r.value);
    LessAsymmetricWhen(req, r.value);
  }

  /** It is the least variable shown above the request exactly when, moreover, that variable is offered: when it
      is not itself one of the views, and its handler answers what is asked for. */
  lemma MultiViewExact(reg: map<Oid, int>, h: Handlers, views: seq<Oid>, list: seq<ViewId>, req: Oid, r: Option<Oid>, k: nat)
    requires InRange(views, list) && Chain(views, list) && FirstAnswer(reg, h, views, list, req, r, k)
    ensures var shown := Shown(Instances(reg, h.vars), views, list);
      IsNext(shown, req, r) <==>
      && Compares(reg, h, views, list, req)
      && forall o :: IsNext(shown, req, Some(o)) ==> o in OfferedByAll(reg, h, views, list, req)
  {
    var offered, shown := OfferedByAll(reg, h, views, list, req), Shown(Instances(reg, h.vars), views, list);
    FirstExactly(reg, h, views, list, req, r, k);
    assert offered <= shown;
    if IsNext(offered, req, r) {
      SubsetNext(offered, shown, req, r);
    } else if r.Some? {
      AnswerOffered(reg, h, views, list, req, r, k);
    }
  }

  /** Below 2^31 the comparisons are right. */
  lemma SmallRight(reg: map<Oid, int>, h: Handlers, views: seq<Oid>, list: seq<ViewId>, req: Oid)
    requires InRange(views, list) && AllSmall(views) && Small(req)
    ensures Compares(reg, h, views, list, req)
  {
    forall i | 0 <= i < |list| ensures Placed(views[list[i]], req) {
      SmallPlaced(views[list[i]], req);
    }
  }
}
