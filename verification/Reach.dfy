/** What a community can be answered with, and what a walk of GETNEXT requests visits of it
    (core/snmp_msg_proc.c:143-194). */
module Reach {
  import opened Oids
  import opened Handlers
  import opened TreeSearch
  import opened MibSearch
  import opened MultiView
  import opened Walks
  import V = Views

  /** The variables below granted subtrees. */
  ghost function Readable(all: set<Oid>, granted: set<Oid>): set<Oid> {
    set o | o in all && V.Granted(granted, o)
  }

  /** A granted subtree no other granted subtree covers: what is kept as a view. */
  ghost predicate Minimal(granted: set<Oid>, v: Oid) {
    v in granted && forall g :: g in granted && g <= v ==> g == v
  }

  /** The variables that a request can be answered with: those below the root of a view whose handler
      answers what is asked for. */
  ghost function Reachable(reg: map<Oid, int>, h: Handlers, granted: set<Oid>, req: Oid): set<Oid> {
    set o | o in Instances(reg, h.vars) && Reached(reg, h, granted, req, o)
  }

  ghost predicate Reached(reg: map<Oid, int>, h: Handlers, granted: set<Oid>, req: Oid, o: Oid) {
    exists v :: Minimal(granted, v) && Offers(reg, h, v, req, o)
  }

  /** No registered identifier is a prefix of another. */
  ghost predicate Leaves(reg: map<Oid, int>) {
    forall p, q :: p in reg && q in reg && p <= q ==> p == q
  }

  /** Only one view lies above an identifier. */
  lemma OneView(granted: set<Oid>, v: Oid, w: Oid, o: Oid)
    requires Minimal(granted, v) && Minimal(granted, w) && v <= o && w <= o
    ensures v == w
  {
    assert |v| <= |w| ==> v <= w;
    assert |w| <= |v| ==> w <= v;
  }

  lemma OneLeaf(reg: map<Oid, int>, p: Oid, q: Oid, o: Oid)
    requires Leaves(reg) && p in reg && q in reg && p <= o && q <= o
    ensures p == q
  {
    assert |p| <= |q| ==> p <= q;
    assert |q| <= |p| ==> q <= p;
  }

  /** What lies between two identifiers under a prefix lies under it. */
  lemma Between(v: Oid, x: Oid, y: Oid, z: Oid)
    requires v <= x && v <= z && LessEq(x, y) && LessEq(y, z)
    ensures v <= y
  {
    PrefixLessEq(v, x);
    SubtreeConvex(v, x, y, z);
  }

  /** The handler above `o` answers when it answers at some leaf. */
  lemma AnsweredAt(reg: map<Oid, int>, h: Handlers, q: Oid, p: Oid, o: Oid)
    requires Leaves(reg) && p in reg && p <= o
    ensures Answered(reg, h, q, o) <==> Right(h, reg[p], AskArg(p, q))
  {
    if Right(h, reg[p], AskArg(p, q)) {
      forall p' | p' in reg && p' <= o ensures p' == p {
        OneLeaf(reg, p, p', o);
      }
    }
  }

  lemma LeafAbove(reg: map<Oid, int>, h: Handlers, o: Oid) returns (p: Oid)
    requires o in Instances(reg, h.vars)
    ensures p in reg && p <= o && o[|p|..] in h.vars(reg[p])
  {
    var s;
    p, s :| p in reg && s in h.vars(reg[p]) && o == p + s;
    assert o[|p|..] == s;
  }

  /** From `o` on, what is sought below a view is what `q` sought there, if the view is not entered yet. */
  lemma SoughtLater(v: Oid, q: Oid, o: Oid, x: Oid)
    requires v <= x && Less(q, o) && Less(o, x)
    ensures v <= q ==> v <= o
    ensures !(v <= o) ==> Sought(v, q) == Sought(v, o) == v
  {
    if v <= q { Between(v, q, o, x); }
  }

  /** A leaf that the search for `o` does not meet is asked for its first variable, and so it was for `q`. */
  lemma AskedFirst(v: Oid, q: Oid, o: Oid, x: Oid, p: Oid)
    requires v <= x && v <= o && Less(q, o) && Less(o, x) && p <= x && !(p <= o)
    ensures AskArg(p, o) == [] && AskArg(p, Sought(v, q)) == []
  {
    if p <= q { Between(p, q, o, x); }
  }

  /** A later search reaches nothing that the first could not. */
  lemma NothingGained(reg: map<Oid, int>, h: Handlers, granted: set<Oid>, q: Oid, o: Oid, x: Oid)
    requires Leaves(reg) && o in Reachable(reg, h, granted, q) && Less(q, o)
    requires x in Reachable(reg, h, granted, o) && Less(o, x)
    ensures x in Reachable(reg, h, granted, q)
  {
    var v :| Minimal(granted, v) && Offers(reg, h, v, o, x);
    var p := LeafAbove(reg, h, x);
    SoughtLater(v, q, o, x);
    AnsweredAt(reg, h, Sought(v, o), p, x);
    AnsweredAt(reg, h, Sought(v, q), p, x);
    if v <= o {
      var w :| Minimal(granted, w) && Offers(reg, h, w, q, o);
      OneView(granted, v, w, o);
      if !(p <= o) { AskedFirst(v, q, o, x, p); }
    }
    assert Offers(reg, h, v, q, x);
  }

  /** A later search reaches `x` if it reaches anything up to `x`. */
  lemma NothingLost(reg: map<Oid, int>, h: Handlers, granted: set<Oid>, q: Oid, o: Oid, y: Oid, x: Oid)
    requires Leaves(reg) && Less(q, o) && Less(o, y) && LessEq(y, x)
    requires y in Reachable(reg, h, granted, o) && x in Reachable(reg, h, granted, q)
    ensures x in Reachable(reg, h, granted, o)
  {
    LessLessEq(o, y, x);
    var v :| Minimal(granted, v) && Offers(reg, h, v, q, x);
    var p := LeafAbove(reg, h, x);
    SoughtLater(v, q, o, x);
    AnsweredAt(reg, h, Sought(v, o), p, x);
    if v <= o {
      if p <= o {
        Between(p, o, y, x);
        Between(v, o, y, x);
        var w :| Minimal(granted, w) && Offers(reg, h, w, o, y);
        OneView(granted, v, w, y);
      } else {
        AskedFirst(v, q, o, x, p);
      }
    }
    assert Offers(reg, h, v, o, x);
  }

  // ---------------------------------------------------------------------
  // Walks
  // ---------------------------------------------------------------------

  /** The answer to a request. */
  ghost function Step(reg: map<Oid, int>, h: Handlers, granted: set<Oid>): Oid -> Option<Oid> {
    (q: Oid) => NextOf(Reachable(reg, h, granted, q))(q)
  }

  lemma StepIs(reg: map<Oid, int>, h: Handlers, granted: set<Oid>, q: Oid)
    ensures IsNext(Reachable(reg, h, granted, q), q, Step(reg, h, granted)(q))
  {
    var s := Reachable(reg, h, granted, q);
    NextOfIs(s);
    assert IsNext(s, q, NextOf(s)(q));
  }

  /** No variable reachable from `q` is lost to a later request of the walk. */
  ghost predicate Clear(reg: map<Oid, int>, h: Handlers, granted: set<Oid>, q: Oid) {
    var above := Above(Reachable(reg, h, granted, q), q);
    forall o, x :: o in above && x in above && Less(o, x) ==> x in Reachable(reg, h, granted, o)
  }

  /** A clear walk steps through what was reachable from its start. */
  lemma ClearSteps(reg: map<Oid, int>, h: Handlers, granted: set<Oid>, q: Oid, o: Oid)
    requires Leaves(reg) && Clear(reg, h, granted, q) && o in Above(Reachable(reg, h, granted, q), q)
    ensures IsNext(Reachable(reg, h, granted, q), o, Step(reg, h, granted)(o))
  {
    var first, later := Reachable(reg, h, granted, q), Reachable(reg, h, granted, o);
    StepIs(reg, h, granted, o);
    var r := Step(reg, h, granted)(o);
    forall x | Less(o, x) ensures x in first <==> x in later {
      LessTransitive(q, o, x);
      if x in first { assert x in Above(first, q); }
      if x in later { NothingGained(reg, h, granted, q, o, x); }
    }
  }

  /** A complete walk loses nothing. */
  lemma CompleteClear(reg: map<Oid, int>, h: Handlers, granted: set<Oid>, q: Oid, o: Oid, x: Oid)
    requires Leaves(reg) && Completes(Reachable(reg, h, granted, q), Step(reg, h, granted), q)
    requires o in Above(Reachable(reg, h, granted, q), q) && x in Above(Reachable(reg, h, granted, q), q) && Less(o, x)
    ensures x in Reachable(reg, h, granted, o)
  {
    VisitedNext(Reachable(reg, h, granted, q), Step(reg, h, granted), q, o, x);
    StepIs(reg, h, granted, o);
    NothingLost(reg, h, granted, q, o, Step(reg, h, granted)(o).value, x);
  }

  /** A walk from `q` visits everything reachable above `q` exactly once, in ascending order, and then stays
      where it is, if and only if no variable is lost to a later request. */
  lemma WalkExactly(reg: map<Oid, int>, h: Handlers, granted: set<Oid>, q: Oid)
    requires Leaves(reg)
    ensures Completes(Reachable(reg, h, granted, q), Step(reg, h, granted), q) <==> Clear(reg, h, granted, q)
  {
    var s, step := Reachable(reg, h, granted, q), Step(reg, h, granted);
    if Clear(reg, h, granted, q) {
      StepIs(reg, h, granted, q);
      forall o | o in Above(s, q) ensures IsNext(s, o, step(o)) {
        ClearSteps(reg, h, granted, q, o);
      }
      WalkFrom(s, step, q);
    }
    if Completes(s, step, q) {
      forall o, x | o in Above(s, q) && x in Above(s, q) && Less(o, x) ensures x in Reachable(reg, h, granted, o) {
        CompleteClear(reg, h, granted, q, o, x);
      }
    }
  }

  /** Handlers answer requests for what comes after one of their variables. */
  ghost predicate Resumable(reg: map<Oid, int>, h: Handlers) {
    forall p, s :: p in reg && s in h.vars(reg[p]) ==> Right(h, reg[p], s)
  }

  /** Then every walk is clear. */
  lemma ResumableClear(reg: map<Oid, int>, h: Handlers, granted: set<Oid>, q: Oid)
    requires Leaves(reg) && Resumable(reg, h)
    ensures Clear(reg, h, granted, q)
  {
    var s := Reachable(reg, h, granted, q);
    forall o, x | o in Above(s, q) && x in Above(s, q) && Less(o, x) ensures x in Reachable(reg, h, granted, o) {
      ResumedReaches(reg, h, granted, q, o, x);
    }
  }

  lemma ResumedReaches(reg: map<Oid, int>, h: Handlers, granted: set<Oid>, q: Oid, o: Oid, x: Oid)
    requires Leaves(reg) && Resumable(reg, h) && Less(q, o) && Less(o, x)
    requires o in Reachable(reg, h, granted, q) && x in Reachable(reg, h, granted, q)
    ensures x in Reachable(reg, h, granted, o)
  {
    var v :| Minimal(granted, v) && Offers(reg, h, v, q, x);
    var p := LeafAbove(reg, h, x);
    SoughtLater(v, q, o, x);
    AnsweredAt(reg, h, Sought(v, o), p, x);
    if v <= o {
      if p <= o {
        var p' := LeafAbove(reg, h, o);
        OneLeaf(reg, p, p', o);
      } else {
        AskedFirst(v, q, o, x, p);
      }
    }
    assert Offers(reg, h, v, o, x);
  }

  /** Every granted subtree lies under a view. */
  lemma {:induction false} MinimalBelow(granted: set<Oid>, g: Oid) returns (v: Oid)
    requires g in granted
    ensures Minimal(granted, v) && v <= g
    decreases |g|
  {
    if Minimal(granted, g) {
      v := g;
    } else {
      var f :| f in granted && f <= g && f != g;
      v := MinimalBelow(granted, f);
    }
  }

  /** Handlers that miss no answer reach all but the roots of views, from everywhere. */
  lemma AllReached(reg: map<Oid, int>, h: Handlers, granted: set<Oid>, req: Oid, o: Oid)
    requires HandlersRight(h)
    ensures o in Reachable(reg, h, granted, req) <==> o in Readable(Instances(reg, h.vars), granted) && !Minimal(granted, o)
  {
    if o in Readable(Instances(reg, h.vars), granted) && !Minimal(granted, o) {
      var g :| g in granted && g <= o;
      var v := MinimalBelow(granted, g);
      assert Offers(reg, h, v, req, o);
    }
    if o in Reachable(reg, h, granted, req) {
      var v :| Minimal(granted, v) && Offers(reg, h, v, req, o);
      assert v in granted;
      if Minimal(granted, o) { OneView(granted, v, o, o); }
    }
  }

  /** When no view is itself a variable either, that is all that is readable. */
  lemma AllReadable(reg: map<Oid, int>, h: Handlers, granted: set<Oid>, req: Oid)
    requires HandlersRight(h) && forall v :: Minimal(granted, v) ==> v !in Instances(reg, h.vars)
    ensures Reachable(reg, h, granted, req) == Readable(Instances(reg, h.vars), granted)
  {
    forall o ensures o in Reachable(reg, h, granted, req) <==> o in Readable(Instances(reg, h.vars), granted) {
      AllReached(reg, h, granted, req, o);
    }
  }

  /** Then walks visit every readable variable above their start. */
  lemma WalkReadable(reg: map<Oid, int>, h: Handlers, granted: set<Oid>, q: Oid)
    requires Leaves(reg) && HandlersRight(h) && forall v :: Minimal(granted, v) ==> v !in Instances(reg, h.vars)
    ensures Clear(reg, h, granted, q)
    ensures Completes(Readable(Instances(reg, h.vars), granted), Step(reg, h, granted), q)
  {
    AllReadable(reg, h, granted, q);
    ResumableClear(reg, h, granted, q);
    WalkExactly(reg, h, granted, q);
  }
}
