/** Object identifiers and their lexicographic order (core/mib_tree.c, core/asn1.h). */
module Oids {

  /** `oid_t` is an unsigned 32-bit integer. */
  type SubId = x: int | 0 <= x < 0x1_0000_0000
  type Oid = seq<SubId>

  const OID_MAX_LEN := 64
  const TWO31 := 0x8000_0000
  const TWO32 := 0x1_0000_0000

  datatype Option<+T> = None | Some(value: T)

  /** Length of the longest common prefix. */
  function CommonLen(a: Oid, b: Oid): (n: nat)
    ensures n <= |a| && n <= |b|
    ensures a[..n] == b[..n]
    ensures n < |a| && n < |b| ==> a[n] != b[n]
  {
    if a == [] || b == [] || a[0] != b[0] then 0
    else
      var n := CommonLen(a[1..], b[1..]);
      assert a[..n + 1] == [a[0]] + a[1..][..n];
      assert b[..n + 1] == [b[0]] + b[1..][..n];
      n + 1
  }

  /** Lexicographic order of section 4.2.2 of RFC 3416. */
  predicate Less(a: Oid, b: Oid) {
    var n := CommonLen(a, b);
    n < |b| && (n == |a| || a[n] < b[n])
  }

  predicate LessEq(a: Oid, b: Oid) {
    a == b || Less(a, b)
  }

  lemma SamePrefix(a: Oid, b: Oid, n: nat)
    requires n <= |a| && n <= |b| && a[..n] == b[..n]
    ensures forall i :: 0 <= i < n ==> a[i] == b[i]
  {
    forall i | 0 <= i < n ensures a[i] == b[i] {
      assert a[i] == a[..n][i] == b[..n][i];
    }
  }

  lemma CommonLenIs(a: Oid, b: Oid, n: nat)
    requires n <= |a| && n <= |b| && a[..n] == b[..n]
    requires n < |a| && n < |b| ==> a[n] != b[n]
    ensures CommonLen(a, b) == n
  {
    var m := CommonLen(a, b);
    SamePrefix(a, b, n);
    SamePrefix(a, b, m);
  }

  /** A witness for `Less`: the position where the two part. */
  lemma LessAt(a: Oid, b: Oid, k: nat)
    requires k <= |a| && k < |b| && a[..k] == b[..k]
    requires k == |a| || a[k] < b[k]
    ensures Less(a, b)
  {
    CommonLenIs(a, b, k);
  }

  lemma LessIrreflexive(a: Oid)
    ensures !Less(a, a)
  {
    CommonLenIs(a, a, |a|);
  }

  lemma LessAsymmetric(a: Oid, b: Oid)
    requires Less(a, b)
    ensures !Less(b, a)
  {
    CommonLenIs(b, a, CommonLen(a, b));
  }

  lemma LessTotal(a: Oid, b: Oid)
    ensures a == b || Less(a, b) || Less(b, a)
  {
    var n := CommonLen(a, b);
    CommonLenIs(b, a, n);
    if n == |a| && n == |b| {
      assert a == a[..n] && b == b[..n];
    }
  }

  lemma LessTransitive(a: Oid, b: Oid, c: Oid)
    requires Less(a, b) && Less(b, c)
    ensures Less(a, c)
  {
    var m, n := CommonLen(a, b), CommonLen(b, c);
    var k := if m <= n then m else n;
    assert a[..k] == a[..m][..k] == b[..m][..k] == b[..k];
    assert b[..k] == b[..n][..k] == c[..n][..k] == c[..k];
    if m < n {
      assert b[m] == b[..n][m] == c[..n][m] == c[m];
    } else if n < m {
      assert a[n] == a[..m][n] == b[..m][n] == b[n];
    }
    LessAt(a, c, k);
  }

  /** A proper prefix comes first. */
  lemma PrefixLess(a: Oid, b: Oid)
    requires a <= b && a != b
    ensures Less(a, b)
  {
    LessAt(a, b, |a|);
  }

  /** `o` lies after the whole subtree rooted at `c`. */
  predicate After(c: Oid, o: Oid) {
    Less(c, o) && !(c <= o)
  }

  lemma AfterAt(c: Oid, o: Oid) returns (k: nat)
    requires After(c, o)
    ensures k < |c| && k < |o| && c[..k] == o[..k] && c[k] < o[k]
  {
    k := CommonLen(c, o);
    assert c == c[..|c|];
  }

  lemma AfterIntro(c: Oid, o: Oid, k: nat)
    requires k < |c| && k < |o| && c[..k] == o[..k] && c[k] < o[k]
    ensures After(c, o)
  {
    LessAt(c, o, k);
  }

  /** Everything under `c` precedes everything after `c`'s subtree. */
  lemma SubtreeBefore(c: Oid, r: Oid, o: Oid, s: Oid)
    requires After(c, o) && c <= r && o <= s
    ensures Less(r, s) && After(r, s)
  {
    var k := AfterAt(c, o);
    assert r[..k] == c[..k] && s[..k] == o[..k];
    assert r[k] == c[k] && s[k] == o[k];
    AfterIntro(r, s, k);
  }

  /** The identifiers under one prefix form an interval. */
  lemma SubtreeConvex(v: Oid, x: Oid, y: Oid, z: Oid)
    requires LessEq(v, x) && LessEq(x, y) && LessEq(y, z) && v <= z
    ensures v <= y
  {
    if !(v <= y) {
      if y == z { assert false; }
      LessLessEq(v, x, y);
      if v == y { assert false; }
      assert After(v, y);
      SubtreeBefore(v, z, y, y);
      LessAsymmetric(y, z);
    }
  }

  lemma LessLessEq(a: Oid, b: Oid, c: Oid)
    requires LessEq(a, b) && LessEq(b, c)
    ensures LessEq(a, c)
    ensures Less(a, b) || Less(b, c) ==> Less(a, c)
  {
    if Less(a, b) && Less(b, c) {
      LessTransitive(a, b, c);
    }
  }

  // ---------------------------------------------------------------------
  // oid_cmp and oid_cover
  // ---------------------------------------------------------------------

  /** `(int)(a - b)` computed on unsigned 32-bit operands. */
  function CDiff(a: SubId, b: SubId): int {
    var d := (a - b) % TWO32;
    if d < TWO31 then d else d - TWO32
  }

  /** What oid_cmp returns: the wrapped difference where the two part, else the length difference. */
  function CmpValue(a: Oid, b: Oid): int {
    var n := CommonLen(a, b);
    if n < |a| && n < |b| then CDiff(a[n], b[n]) else |a| - |b|
  }

  /** The sub-identifiers where the two part differ by less than half the 32-bit range. */
  predicate OrderSafe(a: Oid, b: Oid) {
    var n := CommonLen(a, b);
    n < |a| && n < |b| ==> -TWO31 <= a[n] - b[n] < TWO31
  }

  /** All sub-identifiers below 2^31. */
  predicate Small(a: Oid) {
    forall i :: 0 <= i < |a| ==> a[i] < TWO31
  }

  method OidCmp(src: Oid, target: Oid) returns (ret: int)
    ensures ret == CmpValue(src, target)
  {
    ret := 0;
    var i := 0;
    while i < |src| && i < |target|
      invariant i <= |src| && i <= |target| && ret == 0
      invariant src[..i] == target[..i]
    {
      ret := CDiff(src[i], target[i]);
      if ret != 0 {
        CommonLenIs(src, target, i);
        return;
      }
      assert src[..i + 1] == src[..i] + [src[i]];
      assert target[..i + 1] == target[..i] + [target[i]];
      i := i + 1;
    }
    CommonLenIs(src, target, i);
    ret := |src| - |target|;
  }

  /** oid_cmp decides equality on all inputs, and order exactly when no difference wraps. */
  lemma CmpOrders(a: Oid, b: Oid)
    ensures CmpValue(a, b) == 0 <==> a == b
    ensures OrderSafe(a, b) <==> (CmpValue(a, b) < 0 <==> Less(a, b))
    ensures Small(a) && Small(b) ==> OrderSafe(a, b)
  {
    assert a == a[..|a|] && b == b[..|b|];
  }

  /** 2147483648 is reported below 0. */
  lemma CmpWrapExample()
    ensures CmpValue([0x8000_0000], [0]) < 0 && Less([0], [0x8000_0000])
  {
    CommonLenIs([0x8000_0000], [0], 0);
    LessAt([0], [0x8000_0000], 0);
  }

  /** 1 when `oid1` is a prefix of `oid2` (or equal), -1 when `oid2` is a proper prefix of `oid1`, else 0. */
  method OidCover(oid1: Oid, oid2: Oid) returns (ret: int)
    ensures ret > 0 <==> oid1 <= oid2
    ensures ret < 0 <==> oid2 <= oid1 && oid1 != oid2
    ensures ret in {-1, 0, 1}
  {
    if |oid1| <= |oid2| {
      var c := OidCmp(oid1, oid2[..|oid1|]);
      CmpOrders(oid1, oid2[..|oid1|]);
      if c == 0 {
        return 1;
      }
    }
    if |oid2| <= |oid1| {
      var c := OidCmp(oid1[..|oid2|], oid2);
      CmpOrders(oid1[..|oid2|], oid2);
      if c == 0 {
        return -1;
      }
    }
    ret := 0;
  }

  // ---------------------------------------------------------------------
  // The successor of an identifier in a set
  // ---------------------------------------------------------------------

  /** `r` is the least member of `s` above `q`, or None when there is none. */
  ghost predicate IsNext(s: set<Oid>, q: Oid, r: Option<Oid>) {
    match r
    case None => forall o :: o in s ==> !Less(q, o)
    case Some(x) => x in s && Less(q, x) && forall o :: o in s && Less(q, o) ==> LessEq(x, o)
  }

  lemma NextUnique(s: set<Oid>, q: Oid, r1: Option<Oid>, r2: Option<Oid>)
    requires IsNext(s, q, r1) && IsNext(s, q, r2)
    ensures r1 == r2
  {
    if r1.Some? && r2.Some? && r1 != r2 {
      LessAsymmetric(r1.value, r2.value);
    }
  }
}
