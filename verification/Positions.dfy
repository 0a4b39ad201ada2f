/** Positions of a depth-first traversal in lexicographic order. */
module Positions {
  import opened Oids

  /** `o` comes at or after child `lo` of `c`: still to be visited by a traversal that stands
      on `c` and has finished the children below `lo`. */
  predicate Ahead(c: Oid, lo: int, o: Oid) {
    (c <= o && |o| > |c| && o[|c|] >= lo) || After(c, o)
  }

  /** Stepping down to child `x`, the first one not below `lo`. */
  lemma AheadDown(c: Oid, lo: int, x: SubId, o: Oid)
    requires lo <= x
    ensures Ahead(c + [x], 0, o) ==> Ahead(c, lo, o) && o != c + [x]
    ensures Ahead(c, lo, o) && (c <= o && |o| > |c| ==> o[|c|] >= x) ==> o == c + [x] || Ahead(c + [x], 0, o)
  {
    var d := c + [x];
    if After(d, o) {
      var k := AfterAt(d, o);
      if k < |c| {
        assert c[..k] == d[..k];
        AfterIntro(c, o, k);
      } else {
        assert c == d[..k] == o[..k];
      }
    }
    if After(c, o) {
      SubtreeBefore(c, d, o, o);
    } else if c <= o && |o| > |c| {
      if o[|c|] == x {
        assert d == o[..|c| + 1];
      } else if o[|c|] > x {
        assert c == d[..|c|] == o[..|c|];
        AfterIntro(d, o, |c|);
      }
    }
  }

  /** Stepping back up from child `x` to resume at `lo`. */
  lemma AheadUp(c: Oid, x: SubId, lo: int, o: Oid)
    requires x < lo
    ensures Ahead(c, lo, o) ==> After(c + [x], o)
    ensures After(c + [x], o) && (c <= o && |o| > |c| ==> o[|c|] >= lo || o[|c|] <= x) ==> Ahead(c, lo, o)
  {
    var d := c + [x];
    if After(d, o) {
      var k := AfterAt(d, o);
      if k < |c| {
        assert c[..k] == d[..k];
        AfterIntro(c, o, k);
      } else {
        assert c == d[..k] == o[..k];
      }
    }
    if After(c, o) {
      SubtreeBefore(c, d, o, o);
    } else if c <= o && |o| > |c| && o[|c|] > x {
      assert c == d[..|c|] == o[..|c|];
      AfterIntro(d, o, |c|);
    }
  }
}
