/** Iterated hash functions over an arbitrary compression function: padding, digest, and keyed digest
    (section 3 of RFC 1321, section 2 of RFC 2104). */
module Digests {
  import opened Oids
  import opened Ber

  const TWO64 := TWO32 * TWO32

  type Regs = seq<SubId>

  /** A hash function over 64-byte blocks; `bigEndian` tells how the bit count is written. */
  datatype Alg = Alg(init: Regs, compress: (Regs, Bytes) -> Regs, digest: Regs -> Bytes, bigEndian: bool)

  /** Whole blocks through the compression function. */
  function Absorb(alg: Alg, regs: Regs, d: Bytes): Regs
    requires |d| % 64 == 0
  {
    if d == [] then regs else alg.compress(Absorb(alg, regs, d[..|d| - 64]), d[|d| - 64..])
  }

  lemma SumMod(a: nat, b: nat)
    requires a % 64 == 0 && b % 64 == 0
    ensures (a + b) % 64 == 0
  {
  }

  lemma {:induction false} AbsorbSplit(alg: Alg, regs: Regs, a: Bytes, b: Bytes)
    requires |a| % 64 == 0 && |b| % 64 == 0
    ensures (|a| + |b|) % 64 == 0 && Absorb(alg, regs, a + b) == Absorb(alg, Absorb(alg, regs, a), b)
  {
    SumMod(|a|, |b|);
    if b == [] {
      assert a + b == a;
    } else {
      assert |b| >= 64 && (|b| - 64) % 64 == 0;
      AbsorbSplit(alg, regs, a, b[..|b| - 64]);
      assert (a + b)[..|a + b| - 64] == a + b[..|b| - 64];
      assert (a + b)[|a + b| - 64..] == b[|b| - 64..];
    }
  }

  /** A 32-bit word in the algorithm's byte order. */
  function WordBytes(alg: Alg, v: SubId): (r: Bytes)
    ensures |r| == 4
  {
    var a := Word(v);
    if alg.bigEndian then [a[3], a[2], a[1], a[0]] else a
  }

  /** The 64-bit count of bits. */
  function CountBytes(alg: Alg, n: nat): (r: Bytes)
    ensures |r| == 8
  {
    var bits := 8 * n % TWO64;
    var low, high := bits % TWO32, bits / TWO32;
    if alg.bigEndian then WordBytes(alg, high) + WordBytes(alg, low) else WordBytes(alg, low) + WordBytes(alg, high)
  }

  /** The number that bytes stand for, in the algorithm's byte order. */
  ghost function NumberOf(alg: Alg, b: Bytes): nat {
    if alg.bigEndian then Value(b) else LittleEndian(b)
  }

  lemma {:induction false} LittleConcat(a: Bytes, b: Bytes)
    ensures LittleEndian(a + b) == LittleEndian(a) + Pow(|a|) * LittleEndian(b)
  {
    if a == [] {
      assert a + b == b;
    } else {
      LittleConcat(a[1..], b);
      assert (a + b)[1..] == a[1..] + b;
      Product(Pow(|a| - 1), LittleEndian(b));
    }
  }

  lemma Product(p: nat, v: nat)
    ensures 256 * (p * v) == (256 * p) * v
  {
  }

  lemma Scaled(v: nat, p: nat)
    ensures v * p * 256 == v * (256 * p)
  {
  }

  lemma {:induction false} BigConcat(a: Bytes, b: Bytes)
    ensures Value(a + b) == Value(a) * Pow(|b|) + Value(b)
  {
    if b == [] {
      assert a + b == a;
    } else {
      var front, last := b[..|b| - 1], b[|b| - 1];
      BigConcat(a, front);
      assert (a + b)[..|a + b| - 1] == a + front && (a + b)[|a + b| - 1] == last;
      Scaled(Value(a), Pow(|front|));
    }
  }

  lemma {:induction false} ValueReversed(s: Bytes)
    ensures Value(Reversed(s)) == LittleEndian(s)
  {
    if s != [] {
      ValueReversed(s[1..]);
      ValueAppend(Reversed(s[1..]), s[0]);
    }
  }

  lemma WordReversed(a: Bytes)
    requires |a| == 4
    ensures Reversed(a) == [a[3], a[2], a[1], a[0]]
  {
    assert a[1..] == [a[1], a[2], a[3]] && a[1..][1..] == [a[2], a[3]] && a[1..][1..][1..] == [a[3]];
    assert Reversed([a[3]]) == [a[3]];
    assert Reversed([a[2], a[3]]) == [a[3], a[2]];
    assert Reversed(a[1..]) == [a[3], a[2], a[1]];
  }

  /** A word is written in the byte order of the algorithm. */
  lemma WordMeans(alg: Alg, v: SubId)
    ensures NumberOf(alg, WordBytes(alg, v)) == v
  {
    WordValue(v);
    if alg.bigEndian {
      WordReversed(Word(v));
      ValueReversed(Word(v));
    }
  }

  lemma WordPair(alg: Alg, low: SubId, high: SubId)
    ensures alg.bigEndian ==> NumberOf(alg, WordBytes(alg, high) + WordBytes(alg, low)) == (high as int) * TWO32 + low
    ensures !alg.bigEndian ==> NumberOf(alg, WordBytes(alg, low) + WordBytes(alg, high)) == (high as int) * TWO32 + low
  {
    WordMeans(alg, low);
    WordMeans(alg, high);
    PowFour();
    if alg.bigEndian {
      BigConcat(WordBytes(alg, high), WordBytes(alg, low));
    } else {
      LittleConcat(WordBytes(alg, low), WordBytes(alg, high));
    }
  }

  /** The count written is the number of bits, modulo 2^64. */
  lemma CountMeans(alg: Alg, n: nat)
    ensures NumberOf(alg, CountBytes(alg, n)) == 8 * n % TWO64
  {
    var bits := 8 * n % TWO64;
    var low, high := bits % TWO32, bits / TWO32;
    WordPair(alg, low, high);
  }

  /** Zeros up to eight bytes before a block boundary. */
  function PadZeros(n: nat): nat {
    if n % 64 < 56 then 55 - n % 64 else 119 - n % 64
  }

  lemma PadFits(n: nat)
    ensures (n + 1 + PadZeros(n) + 8) % 64 == 0
  {
    var q, r := n / 64, n % 64;
    assert n + 1 + PadZeros(n) + 8 == if r < 56 then (q + 1) * 64 else (q + 2) * 64;
  }

  function Pad(alg: Alg, n: nat): (r: Bytes)
    ensures (n + |r|) % 64 == 0
  {
    PadFits(n);
    [0x80] + Zeros(PadZeros(n)) + CountBytes(alg, n)
  }

  /** A padded message (section 3 of RFC 1321): the message, a byte of 0x80, fewer than 64 zeros up to eight
      bytes before a block boundary, and the number of bits of the message in eight bytes. */
  ghost predicate Padded(alg: Alg, msg: Bytes, m: Bytes) {
    && |msg| + 9 <= |m| < |msg| + 9 + 64 && |m| % 64 == 0
    && m[..|msg|] == msg && m[|msg|] == 0x80
    && (forall i :: |msg| < i < |m| - 8 ==> m[i] == 0)
    && NumberOf(alg, m[|m| - 8..]) == 8 * |msg| % TWO64
  }

  lemma PadIs(alg: Alg, msg: Bytes)
    ensures Padded(alg, msg, msg + Pad(alg, |msg|))
  {
    var n := |msg|;
    var m, front := msg + Pad(alg, n), msg + [0x80] + Zeros(PadZeros(n));
    assert m == front + CountBytes(alg, n);
    Prefix(front, CountBytes(alg, n));
    CountMeans(alg, n);
    assert forall i :: n < i < |front| ==> front[i] == 0;
  }

  lemma {:induction false} LittleInjective(a: Bytes, b: Bytes)
    requires |a| == |b| && LittleEndian(a) == LittleEndian(b)
    ensures a == b
  {
    if a != [] {
      LittleInjective(a[1..], b[1..]);
      assert a == [a[0]] + a[1..] && b == [b[0]] + b[1..];
    }
  }

  lemma {:induction false} ValueInjective(a: Bytes, b: Bytes)
    requires |a| == |b| && Value(a) == Value(b)
    ensures a == b
  {
    if a != [] {
      var n := |a| - 1;
      ValueInjective(a[..n], b[..n]);
      assert a == a[..n] + [a[n]] && b == b[..n] + [b[n]];
    }
  }

  /** There is only one padded form of a message. */
  lemma PaddedUnique(alg: Alg, msg: Bytes, m: Bytes, m': Bytes)
    requires Padded(alg, msg, m) && Padded(alg, msg, m')
    ensures m == m'
  {
    assert |m| / 64 == |m'| / 64;
    if alg.bigEndian { ValueInjective(m[|m| - 8..], m'[|m'| - 8..]); } else { LittleInjective(m[|m| - 8..], m'[|m'| - 8..]); }
    forall i | 0 <= i < |m| ensures m[i] == m'[i] {
      if i < |msg| {
        assert m[..|msg|][i] == m'[..|msg|][i];
      } else if i >= |m| - 8 {
        assert m[|m| - 8..][i - (|m| - 8)] == m'[|m| - 8..][i - (|m| - 8)];
      }
    }
  }

  /** The digest of a message. */
  function Digest(alg: Alg, msg: Bytes): Bytes {
    alg.digest(Absorb(alg, alg.init, msg + Pad(alg, |msg|)))
  }

  // ---------------------------------------------------------------------
  // Exclusive or
  // ---------------------------------------------------------------------

  function Two(k: nat): (r: nat)
    ensures r >= 1
  {
    if k == 0 then 1 else 2 * Two(k - 1)
  }

  /** Bit `k` of a number. */
  function Bit(x: nat, k: nat): nat {
    x / Two(k) % 2
  }

  /** Exclusive or, from the lowest bit on. */
  function Xor(a: nat, b: nat): nat {
    if a == 0 && b == 0 then 0 else (a + b) % 2 + 2 * Xor(a / 2, b / 2)
  }

  lemma HalfBit(x: nat, k: nat)
    requires k > 0
    ensures Bit(x, k) == Bit(x / 2, k - 1)
  {
    var p := Two(k - 1);
    var h := x / 2;
    var q, r := h / p, h % p;
    assert h == q * p + r;
    assert x == q * (2 * p) + (2 * r + x % 2) by { assert q * (2 * p) == 2 * (q * p); }
    Quotient(x, 2 * p, q, 2 * r + x % 2);
  }

  lemma Quotient(x: nat, p: nat, q: nat, r: nat)
    requires x == q * p + r && r < p
    ensures x / p == q
  {
    var q', r' := x / p, x % p;
    assert x == q' * p + r';
    assert q' < q ==> (q' + 1) * p <= q * p;
    assert q < q' ==> (q + 1) * p <= q' * p;
  }

  /** Bit `k`, by halving. */
  function Digit(x: nat, k: nat): nat
    decreases k
  {
    if k == 0 then x % 2 else Digit(x / 2, k - 1)
  }

  lemma {:induction false} BitIs(x: nat, k: nat)
    ensures Bit(x, k) == Digit(x, k)
    decreases k
  {
    if k == 0 {
      assert Two(0) == 1;
    } else {
      HalfBit(x, k);
      BitIs(x / 2, k - 1);
    }
  }

  lemma {:induction false} XorHalf(a: nat, b: nat)
    ensures Xor(a, b) % 2 == (a + b) % 2 && Xor(a, b) / 2 == Xor(a / 2, b / 2)
  {
    Digits((a + b) % 2, Xor(a / 2, b / 2));
  }

  lemma Digits(low: nat, high: nat)
    requires low < 2
    ensures (low + 2 * high) % 2 == low && (low + 2 * high) / 2 == high
  {
  }

  lemma {:induction false} XorDigit(a: nat, b: nat, k: nat)
    ensures Digit(Xor(a, b), k) == 1 <==> Digit(a, k) != Digit(b, k)
    decreases k
  {
    XorHalf(a, b);
    if k > 0 {
      XorDigit(a / 2, b / 2, k - 1);
    }
  }

  /** A bit is set in the exclusive or exactly when it is set in one of the two numbers. */
  lemma XorBit(a: nat, b: nat, k: nat)
    ensures Bit(Xor(a, b), k) == 1 <==> Bit(a, k) != Bit(b, k)
  {
    BitIs(a, k);
    BitIs(b, k);
    BitIs(Xor(a, b), k);
    XorDigit(a, b, k);
  }

  lemma {:induction false} XorBound(a: nat, b: nat, k: nat)
    requires a < Two(k) && b < Two(k)
    ensures Xor(a, b) < Two(k)
    decreases k
  {
    if !(a == 0 && b == 0) {
      assert k > 0;
      XorBound(a / 2, b / 2, k - 1);
    }
  }

  function XorByte(a: Byte, b: Byte): Byte {
    assert Two(8) == 256 by { assert Two(4) == 16; }
    XorBound(a, b, 8);
    Xor(a, b)
  }

  function XorAll(k: Bytes, b: Byte): (r: Bytes)
    ensures |r| == |k|
  {
    seq(|k|, i requires 0 <= i < |k| => XorByte(k[i], b))
  }

  /** A block of the key followed by zeros, with the bits of `pad` flipped in every byte (section 2 of RFC 2104). */
  ghost predicate KeyBlock(key: Bytes, pad: Byte, block: Bytes) {
    |block| == 64 && forall i :: 0 <= i < 64 ==> Flipped(block[i], if i < |key| then key[i] else 0, pad)
  }

  ghost predicate Flipped(r: Byte, x: Byte, pad: Byte) {
    forall k :: 0 <= k < 8 ==> (Bit(r, k) == 1 <==> Bit(x, k) != Bit(pad, k))
  }

  lemma KeyBlockIs(key: Bytes, pad: Byte)
    requires |key| <= 64
    ensures KeyBlock(key, pad, XorAll(key + Zeros(64 - |key|), pad))
  {
    var ext := key + Zeros(64 - |key|);
    var block := XorAll(ext, pad);
    forall i | 0 <= i < 64 ensures Flipped(block[i], if i < |key| then key[i] else 0, pad) {
      forall k | 0 <= k < 8 ensures Bit(block[i], k) == 1 <==> Bit(ext[i], k) != Bit(pad, k) {
        XorBit(ext[i], pad, k);
      }
    }
  }

  /** The keyed digest, with the key extended to a block. */
  function Hmac(alg: Alg, key: Bytes, msg: Bytes): Bytes
    requires |key| <= 64
  {
    var k := key + Zeros(64 - |key|);
    Digest(alg, XorAll(k, 0x5c) + Digest(alg, XorAll(k, 0x36) + msg))
  }

  /** The digest is that of the registers after the blocks of the padded message. */
  ghost predicate IsDigest(alg: Alg, msg: Bytes, md: Bytes) {
    exists m :: Padded(alg, msg, m) && md == alg.digest(Absorb(alg, alg.init, m))
  }

  lemma DigestIs(alg: Alg, msg: Bytes)
    ensures IsDigest(alg, msg, Digest(alg, msg))
  {
    PadIs(alg, msg);
  }

  /** The keyed digest: an inner digest, keyed with 0x36, inside an outer one, keyed with 0x5c. */
  ghost predicate IsHmac(alg: Alg, key: Bytes, msg: Bytes, mac: Bytes) {
    exists inner: Bytes, outer: Bytes ::
      KeyBlock(key, 0x36, inner) && KeyBlock(key, 0x5c, outer) && mac == Digest(alg, outer + Digest(alg, inner + msg))
  }

  lemma HmacIs(alg: Alg, key: Bytes, msg: Bytes)
    requires |key| <= 64
    ensures IsHmac(alg, key, msg, Hmac(alg, key, msg))
  {
    KeyBlockIs(key, 0x36);
    KeyBlockIs(key, 0x5c);
  }

  /** Numbers of `n` bits with the same bits are the same. */
  lemma {:induction false} SameDigits(a: nat, b: nat, n: nat)
    requires a < Two(n) && b < Two(n) && forall k :: 0 <= k < n ==> (Digit(a, k) == 1 <==> Digit(b, k) == 1)
    ensures a == b
    decreases n
  {
    if n > 0 {
      assert Digit(a, 0) == 1 <==> Digit(b, 0) == 1;
      forall k | 0 <= k < n - 1 ensures Digit(a / 2, k) == 1 <==> Digit(b / 2, k) == 1 {
        assert Digit(a, k + 1) == Digit(a / 2, k) && Digit(b, k + 1) == Digit(b / 2, k);
      }
      SameDigits(a / 2, b / 2, n - 1);
    }
  }

  lemma FlippedUnique(a: Byte, b: Byte, x: Byte, pad: Byte)
    requires Flipped(a, x, pad) && Flipped(b, x, pad)
    ensures a == b
  {
    assert Two(8) == 256 by { assert Two(4) == 16; }
    forall k | 0 <= k < 8 ensures Digit(a, k) == 1 <==> Digit(b, k) == 1 {
      BitIs(a, k);
      BitIs(b, k);
    }
    SameDigits(a, b, 8);
  }

  /** There is only one key block, */
  lemma KeyBlockUnique(key: Bytes, pad: Byte, a: Bytes, b: Bytes)
    requires KeyBlock(key, pad, a) && KeyBlock(key, pad, b)
    ensures a == b
  {
    forall i | 0 <= i < 64 ensures a[i] == b[i] {
      var x := if i < |key| then key[i] else 0;
      FlippedUnique(a[i], b[i], x, pad);
    }
  }

  /** and so only one keyed digest. */
  lemma HmacUnique(alg: Alg, key: Bytes, msg: Bytes, mac: Bytes)
    requires |key| <= 64
    ensures IsHmac(alg, key, msg, mac) <==> mac == Hmac(alg, key, msg)
  {
    HmacIs(alg, key, msg);
    if IsHmac(alg, key, msg, mac) {
      var inner: Bytes, outer: Bytes :|
        KeyBlock(key, 0x36, inner) && KeyBlock(key, 0x5c, outer) && mac == Digest(alg, outer + Digest(alg, inner + msg));
      var k := key + Zeros(64 - |key|);
      KeyBlockIs(key, 0x36);
      KeyBlockIs(key, 0x5c);
      KeyBlockUnique(key, 0x36, inner, XorAll(k, 0x36));
      KeyBlockUnique(key, 0x5c, outer, XorAll(k, 0x5c));
    }
  }

  /** `n` bytes of a password repeated over and over. */
  function Repeated(password: Bytes, n: nat): (r: Bytes)
    requires password != []
    ensures |r| == n && forall i :: 0 <= i < n ==> r[i] == password[i % |password|]
  {
    seq(n, i requires 0 <= i < n => password[i % |password|])
  }
}
