/** BER contents octets of integers, and BER lengths (core/snmp_encoder.c:32-130, 207-313, 399-483;
    core/snmp_decoder.c:86-131, 201-232), on a little-endian machine. Masks and shifts of the code are
    written as arithmetic: testing 0x80 is comparing with 128, and shifting an octet in is
    multiplying by 256 and adding, modulo the width of the variable. */
module Ber {
  import opened Oids

  type Byte = x: int | 0 <= x < 256
  type Bytes = seq<Byte>

  type Int32 = x: int | -TWO31 <= x < TWO31

  lemma Assoc(p: Bytes, a: Bytes, b: Bytes)
    ensures p + a + b == p + (a + b)
  {
  }

  function Zeros(n: nat): (r: Bytes)
    ensures |r| == n
  {
    seq(n, _ => 0)
  }

  lemma Prefix(a: Bytes, b: Bytes)
    ensures (a + b)[..|a|] == a && (a + b)[|a|..] == b
  {
  }

  // ---------------------------------------------------------------------
  // Meaning of octet strings
  // ---------------------------------------------------------------------

  function Pow(n: nat): (r: nat)
    ensures r >= 1
  {
    if n == 0 then 1 else 256 * Pow(n - 1)
  }

  /** Big-endian value. */
  function Value(s: Bytes): nat {
    if s == [] then 0 else Value(s[..|s| - 1]) * 256 + s[|s| - 1]
  }

  lemma {:induction false} ValueBound(s: Bytes)
    ensures Value(s) < Pow(|s|)
  {
    if s != [] { ValueBound(s[..|s| - 1]); }
  }

  /** Two's complement value (section 8.3.3 of X.690). */
  function Signed(s: Bytes): int {
    if s != [] && s[0] >= 128 then Value(s) - Pow(|s|) else Value(s)
  }

  /** The first nine bits are not all equal (section 8.3.2 of X.690). */
  predicate Minimal(s: Bytes) {
    |s| >= 1 && (|s| == 1 || !((s[0] == 0 && s[1] < 128) || (s[0] == 255 && s[1] >= 128)))
  }

  /** Contents octets of an integer, signed or not. */
  function IntBytes(v: int): (r: Bytes)
    ensures |r| >= 1
    decreases if v < 0 then -v else v
  {
    if -128 <= v < 128 then [v % 256] else IntBytes(v / 256) + [v % 256]
  }

  function Base256(v: nat): (r: Bytes)
    ensures |r| >= 1
  {
    if v < 256 then [v] else Base256(v / 256) + [v % 256]
  }

  /** A length, in the short form up to 127 and in the shortest long form above (section 8.1.3 of X.690). */
  function LengthBytes(v: nat): (r: Bytes)
    ensures |r| >= 1
  {
    if v < 128 then [v] else [128 + |Base256(v)| % 128] + Base256(v)
  }

  lemma {:induction false} Base256Short(v: nat, n: nat)
    requires v < Pow(n) && n > 0
    ensures |Base256(v)| <= n
  {
    if v >= 256 {
      Base256Short(v / 256, n - 1);
    }
  }

  lemma ValueAppend(s: Bytes, b: Byte)
    ensures Value(s + [b]) == Value(s) * 256 + b
  {
    assert (s + [b])[..|s|] == s;
  }

  lemma ValueOne(b: Byte)
    ensures Value([b]) == b && Pow(1) == 256
  {
    ValueAppend([], b);
    assert [] + [b] == [b];
  }

  lemma SignedAppend(s: Bytes, b: Byte)
    requires s != []
    ensures Signed(s + [b]) == Signed(s) * 256 + b
  {
    ValueAppend(s, b);
    assert (s + [b])[0] == s[0] && Pow(|s + [b]|) == 256 * Pow(|s|);
  }

  /** The contents octets mean the value. */
  lemma {:induction false} IntBytesMean(v: int)
    ensures Signed(IntBytes(v)) == v
    decreases if v < 0 then -v else v
  {
    if -128 <= v < 128 {
      ValueOne(v % 256);
    } else {
      IntBytesMean(v / 256);
      SignedAppend(IntBytes(v / 256), v % 256);
    }
  }

  lemma {:induction false} IntBytesMinimal(v: int)
    ensures Minimal(IntBytes(v))
    decreases if v < 0 then -v else v
  {
    if !(-128 <= v < 128) {
      IntBytesMinimal(v / 256);
      if -128 <= v / 256 < 128 {
        assert IntBytes(v) == [v / 256 % 256, v % 256];
      }
    }
  }

  /** No shorter string of octets means the same integer. */
  lemma {:induction false} IntBytesShortest(s: Bytes)
    requires s != []
    ensures |IntBytes(Signed(s))| <= |s|
  {
    if |s| == 1 {
      ValueOne(s[0]);
    } else {
      var front, b := s[..|s| - 1], s[|s| - 1];
      assert s == front + [b];
      SignedAppend(front, b);
      IntBytesShortest(front);
    }
  }

  lemma {:induction false} Base256Mean(v: nat)
    ensures Value(Base256(v)) == v
  {
    if v < 256 {
      ValueAppend([], v);
      assert [] + [v] == [v];
    } else {
      Base256Mean(v / 256);
      ValueAppend(Base256(v / 256), v % 256);
    }
  }

  // ---------------------------------------------------------------------
  // Machine words
  // ---------------------------------------------------------------------

  /** A 32-bit word in memory. */
  function Word(v: SubId): (a: Bytes)
    ensures |a| == 4
  {
    [v % 256, v / 256 % 256, v / 256 / 256 % 256, v / 256 / 256 / 256]
  }

  function LittleEndian(s: Bytes): nat {
    if s == [] then 0 else s[0] + 256 * LittleEndian(s[1..])
  }

  function Reversed(s: Bytes): Bytes {
    if s == [] then [] else Reversed(s[1..]) + [s[0]]
  }

  lemma WordValue(v: SubId)
    ensures LittleEndian(Word(v)) == v
  {
    var a := Word(v);
    var w := v / 256;
    var x := w / 256;
    assert a[1..] == [w % 256, x % 256, x / 256];
    assert a[1..][1..] == [x % 256, x / 256];
    assert a[1..][1..][1..] == [x / 256];
    assert LittleEndian([x / 256]) == x / 256;
    assert LittleEndian(a[1..][1..]) == x && LittleEndian(a[1..]) == w;
  }

  function Signed32(v: SubId): Int32 {
    if v < TWO31 then v else v - TWO32
  }

  function Unsigned32(v: Int32): SubId {
    if v < 0 then v + TWO32 else v
  }

  /** Dropping high zero octets keeps the value. */
  lemma {:induction false} DropZeros(a: Bytes, n: nat)
    requires n <= |a| && forall k :: n <= k < |a| ==> a[k] == 0
    ensures LittleEndian(a[..n]) == LittleEndian(a)
    decreases |a|
  {
    if n > 0 {
      DropZeros(a[1..], n - 1);
      assert a[..n][1..] == a[1..][..n - 1];
    } else if a != [] {
      DropZeros(a[1..], 0);
      assert a[1..][..0] == [];
    }
  }

  /** Dropping high 0xff octets keeps the two's complement value. */
  lemma {:induction false} DropOnes(a: Bytes, n: nat)
    requires n <= |a| && forall k :: n <= k < |a| ==> a[k] == 255
    ensures LittleEndian(a[..n]) - Pow(n) == LittleEndian(a) - Pow(|a|)
    decreases |a|
  {
    if n > 0 {
      DropOnes(a[1..], n - 1);
      assert a[..n][1..] == a[1..][..n - 1];
    } else if a != [] {
      DropOnes(a[1..], 0);
      assert a[1..][..0] == [];
    }
  }

  lemma {:induction false} LittleBound(s: Bytes)
    ensures LittleEndian(s) < Pow(|s|)
    ensures s != [] && s[|s| - 1] != 0 ==> LittleEndian(s) >= Pow(|s| - 1)
    ensures s != [] && s[|s| - 1] != 255 ==> LittleEndian(s) < Pow(|s|) - Pow(|s| - 1)
  {
    if |s| > 1 {
      LittleBound(s[1..]);
      assert s[1..][|s| - 2] == s[|s| - 1];
    }
  }

  /** The octets written for a non-negative word whose high zero octets are dropped. */
  lemma {:induction false} PositiveBytes(s: Bytes)
    requires s != [] && (|s| > 1 ==> s[|s| - 1] != 0)
    ensures IntBytes(LittleEndian(s)) == (if s[|s| - 1] >= 128 then [0] else []) + Reversed(s)
  {
    var v := LittleEndian(s);
    if |s| == 1 {
      assert v == s[0] && Reversed(s) == [s[0]];
    } else {
      PositiveBytes(s[1..]);
      LittleBound(s);
      LittleBound(s[1..]);
      assert v / 256 == LittleEndian(s[1..]) && v % 256 == s[0];
      assert v >= 256;
    }
  }

  lemma NegativeByte(b: Byte)
    ensures IntBytes((b as int) - 256) == (if b < 128 then [255] else []) + [b]
  {
    var v := (b as int) - 256;
    assert v % 256 == b && v / 256 == -1;
    assert IntBytes(-1) == [255];
  }

  /** One more low octet. */
  lemma NegativeStep(w: int, b: Byte)
    requires w < -1
    ensures IntBytes(256 * w + b) == IntBytes(w) + [b]
  {
    var v := 256 * w + b;
    assert v / 256 == w && v % 256 == b && v < -128;
  }

  /** The octets written for a negative word whose high 0xff octets are dropped. */
  lemma {:induction false} NegativeBytes(s: Bytes)
    requires s != [] && (|s| > 1 ==> s[|s| - 1] != 255)
    ensures IntBytes(LittleEndian(s) - Pow(|s|)) == (if s[|s| - 1] < 128 then [255] else []) + Reversed(s)
  {
    if |s| == 1 {
      assert Pow(1) == 256 && LittleEndian(s) == s[0] && Reversed(s) == [s[0]];
      NegativeByte(s[0]);
    } else {
      var t, w := s[1..], LittleEndian(s[1..]) - Pow(|s| - 1);
      NegativeBytes(t);
      LittleBound(t);
      assert t[|t| - 1] == s[|s| - 1];
      assert LittleEndian(s) - Pow(|s|) == 256 * w + s[0];
      NegativeStep(w, s[0]);
    }
  }

  lemma {:induction false} LengthOctets(s: Bytes)
    requires s != [] && (|s| > 1 ==> s[|s| - 1] != 0)
    ensures Base256(LittleEndian(s)) == Reversed(s)
  {
    var v := LittleEndian(s);
    if |s| == 1 {
      assert v == s[0] && Reversed(s) == [s[0]];
    } else {
      LengthOctets(s[1..]);
      LittleBound(s);
      LittleBound(s[1..]);
      assert v / 256 == LittleEndian(s[1..]) && v % 256 == s[0] && v >= 256;
    }
  }

  // ---------------------------------------------------------------------
  // Encoders
  // ---------------------------------------------------------------------

  /** The highest octet that differs from `fill`, or the lowest. */
  method Top(a: Bytes, fill: Byte) returns (i: nat)
    requires |a| == 4
    ensures i < 4 && (forall k :: i < k < 4 ==> a[k] == fill) && (i > 0 ==> a[i] != fill)
  {
    i := 3;
    while i > 0 && a[i] == fill
      invariant i < 4 && forall k :: i < k < 4 ==> a[k] == fill
    {
      i := i - 1;
    }
  }

  /** Octets `top` down to 0. */
  method CopyDown(a: Bytes, top: nat) returns (buf: Bytes)
    requires top < |a|
    ensures buf == Reversed(a[..top + 1])
  {
    var i: int := top;
    buf := [];
    while i >= 0
      invariant -1 <= i <= top && buf + Reversed(a[..i + 1]) == Reversed(a[..top + 1])
    {
      ReversedLast(a[..i + 1]);
      assert a[..i + 1][..i] == a[..i];
      buf := buf + [a[i]];
      i := i - 1;
    }
  }

  lemma {:induction false} ReversedLast(s: Bytes)
    requires s != []
    ensures Reversed(s) == [s[|s| - 1]] + Reversed(s[..|s| - 1])
  {
    if |s| > 1 {
      ReversedLast(s[1..]);
      assert s[1..][..|s| - 2] == s[..|s| - 1][1..];
    }
  }

  lemma IntWord(value: Int32, i: nat)
    requires i < 4
    requires var a := Word(Unsigned32(value));
      var fill := if value < 0 then 255 else 0;
      (forall k :: i < k < 4 ==> a[k] == fill) && (i > 0 ==> a[i] != fill)
    ensures var a := Word(Unsigned32(value));
      IntBytes(value) == (if value >= 0 && a[i] >= 128 then [0] else if value < 0 && a[i] < 128 then [255] else []) + Reversed(a[..i + 1])
    ensures |Reversed(Word(Unsigned32(value))[..i + 1])| == i + 1
  {
    var a := Word(Unsigned32(value));
    WordValue(Unsigned32(value));
    ReversedLength(a[..i + 1]);
    if value >= 0 {
      DropZeros(a, i + 1);
      PositiveBytes(a[..i + 1]);
    } else {
      DropOnes(a, i + 1);
      PowFour();
      NegativeBytes(a[..i + 1]);
    }
  }

  lemma PowFour()
    ensures Pow(4) == TWO32
  {
    assert Pow(2) == 65536;
    assert Pow(3) == 16777216;
  }

  lemma {:induction false} ReversedLength(s: Bytes)
    ensures |Reversed(s)| == |s|
  {
    if s != [] { ReversedLength(s[1..]); }
  }

  method IntEncTry(value: Int32) returns (len: nat)
    ensures len == |IntBytes(value)|
  {
    var a := Word(Unsigned32(value));
    var i;
    len := 0;
    if value >= 0 {
      i := Top(a, 0);
      if a[i] >= 128 {
        len := len + 1;
      }
    } else {
      i := Top(a, 255);
      if a[i] < 128 {
        len := len + 1;
      }
    }
    IntWord(value, i);
    len := len + i + 1;
  }

  method IntEnc(value: Int32) returns (buf: Bytes)
    ensures buf == IntBytes(value)
  {
    var a := Word(Unsigned32(value));
    var i;
    buf := [];
    if value >= 0 {
      i := Top(a, 0);
      if a[i] >= 128 {
        buf := [0];
      }
    } else {
      i := Top(a, 255);
      if a[i] < 128 {
        buf := [255];
      }
    }
    IntWord(value, i);
    var rest := CopyDown(a, i);
    buf := buf + rest;
  }

  lemma UintWord(value: SubId, i: nat)
    requires i < 4
    requires var a := Word(value); (forall k :: i < k < 4 ==> a[k] == 0) && (i > 0 ==> a[i] != 0)
    ensures var a := Word(value);
      && IntBytes(value) == (if a[i] >= 128 then [0] else []) + Reversed(a[..i + 1])
      && LengthBytes(value) == (if value > 127 then [129 + i] else []) + Reversed(a[..i + 1])
      && |Reversed(a[..i + 1])| == i + 1
  {
    var a := Word(value);
    WordValue(value);
    DropZeros(a, i + 1);
    PositiveBytes(a[..i + 1]);
    ReversedLength(a[..i + 1]);
    LengthOctets(a[..i + 1]);
  }

  method UintEncTry(value: SubId) returns (len: nat)
    ensures len == |IntBytes(value)|
  {
    var a := Word(value);
    var i := Top(a, 0);
    len := 0;
    if a[i] >= 128 {
      len := len + 1;
    }
    UintWord(value, i);
    len := len + i + 1;
  }

  method UintEnc(value: SubId) returns (buf: Bytes)
    ensures buf == IntBytes(value)
  {
    var a := Word(value);
    var i := Top(a, 0);
    buf := [];
    if a[i] >= 128 {
      buf := [0];
    }
    UintWord(value, i);
    var rest := CopyDown(a, i);
    buf := buf + rest;
  }

  method LengthEncTry(value: SubId) returns (len: nat)
    ensures len == |LengthBytes(value)|
  {
    var a := Word(value);
    var i := Top(a, 0);
    len := 0;
    if value > 127 {
      len := len + 1;
    }
    UintWord(value, i);
    len := len + i + 1;
  }

  method LengthEnc(value: SubId) returns (buf: Bytes)
    ensures buf == LengthBytes(value)
  {
    var a := Word(value);
    var i := Top(a, 0);
    buf := [];
    if value > 127 {
      buf := [128 + i + 1];
    }
    UintWord(value, i);
    var rest := CopyDown(a, i);
    buf := buf + rest;
  }
}
