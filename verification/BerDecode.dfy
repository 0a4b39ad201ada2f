/** Decoding of BER integers and lengths (core/snmp_decoder.c:86-131, 201-232). */
module BerDecode {
  import opened Oids
  import opened Ber

  /** `(v << 8) | b` in 32 bits. */
  function ShiftIn(v: SubId, b: Byte): SubId {
    (v * 256 + b) % TWO32
  }

  lemma {:induction false} PowMono(m: nat, n: nat)
    requires m <= n
    ensures Pow(m) <= Pow(n)
  {
    if m < n { PowMono(m, n - 1); }
  }

  lemma Below(n: nat)
    requires n <= 4
    ensures Pow(n) <= TWO32
  {
    PowMono(n, 4);
    PowFour();
  }

  /** The first octet carries the sign. */
  lemma {:induction false} HighBit(s: Bytes)
    requires s != []
    ensures s[0] >= 128 <==> Value(s) >= 128 * Pow(|s| - 1)
  {
    if |s| == 1 {
      ValueOne(s[0]);
    } else {
      HighBit(s[..|s| - 1]);
    }
  }

  lemma ValueNext(buf: Bytes, i: nat)
    requires i < |buf|
    ensures Value(buf[..i + 1]) == Value(buf[..i]) * 256 + buf[i]
  {
    ValueAppend(buf[..i], buf[i]);
    assert buf[..i + 1] == buf[..i] + [buf[i]];
  }

  /** `pad` octets of ones, and then the octets of `s`. */
  function Padded(pad: nat, s: Bytes): int {
    Pow(pad + |s|) - Pow(|s|) + Value(s)
  }

  lemma ShiftStep(pad: nat, buf: Bytes, i: nat)
    requires i < |buf| && pad + |buf| <= 4
    ensures 0 <= Padded(pad, buf[..i]) < TWO32
    ensures ShiftIn(Padded(pad, buf[..i]), buf[i]) == Padded(pad, buf[..i + 1])
  {
    PowMono(i, pad + i);
    Below(pad + i);
    Below(pad + i + 1);
    var s := buf[..i];
    ValueNext(buf, i);
    ValueBound(s);
    ValueBound(buf[..i + 1]);
    assert Pow(i + 1) == 256 * Pow(i) && Pow(pad + i + 1) == 256 * Pow(pad + i);
    var p := Padded(pad, s);
    assert Padded(pad, buf[..i + 1]) == p * 256 + buf[i];
    assert 0 <= p * 256 + buf[i] < TWO32;
  }

  /** Octets shifted into a word that holds `pad` octets of ones. */
  method ShiftAll(u: SubId, buf: Bytes, from: nat, ghost pad: nat) returns (v: SubId)
    requires from <= |buf| && pad + |buf| <= 4 && u == Padded(pad, buf[..from])
    ensures v == Padded(pad, buf)
  {
    v := u;
    var i := from;
    while i < |buf|
      invariant from <= i <= |buf| && v == Padded(pad, buf[..i])
    {
      ShiftStep(pad, buf, i);
      v := ShiftIn(v, buf[i]);
      i := i + 1;
    }
    assert buf[..i] == buf;
  }

  method Ones(n: nat) returns (v: SubId)
    requires n <= 4
    ensures v == Pow(n) - 1
  {
    v := 0;
    for j := 0 to n
      invariant v == Pow(j) - 1
    {
      Below(j + 1);
      v := ShiftIn(v, 255);
    }
  }

  /** An integer of at most four octets. */
  method IntDec(buf: Bytes) returns (value: Int32)
    requires 1 <= |buf| <= 4
    ensures value == Signed(buf)
  {
    HighBit(buf);
    PowFour();
    Below(|buf|);
    assert Pow(|buf|) == 256 * Pow(|buf| - 1);
    var u: SubId := 0;
    if buf[0] >= 128 {
      var pad := 4 - |buf|;
      u := Ones(pad);
      assert buf[..0] == [];
      u := ShiftAll(u, buf, 0, pad);
      PowMono(|buf| - 1, 3);
      assert u >= TWO31;
    } else {
      var i := 0;
      if buf[0] == 0 {
        i := 1;
      }
      assert Value(buf[..i]) == 0 by { if i == 1 { ValueOne(buf[0]); assert buf[..1] == [buf[0]]; } }
      u := ShiftAll(u, buf, i, 0);
      PowMono(|buf| - 1, 3);
    }
    value := Signed32(u);
  }

  lemma ModStep(v: nat, b: Byte)
    ensures (v % TWO32 * 256 + b) % TWO32 == (v * 256 + b) % TWO32
  {
    var q := v / TWO32;
    assert v == q * TWO32 + v % TWO32;
    assert v * 256 + b == q * 256 * TWO32 + (v % TWO32 * 256 + b);
    ModAdd(q * 256, v % TWO32 * 256 + b);
  }

  lemma {:induction false} ModAdd(k: nat, x: nat)
    ensures (k * TWO32 + x) % TWO32 == x % TWO32
  {
    if k > 0 {
      ModAdd(k - 1, x);
      assert k * TWO32 + x == ((k - 1) * TWO32 + x) + TWO32;
    }
  }

  /** An unsigned integer of any length, modulo 2^32. */
  method UintDec(buf: Bytes) returns (value: SubId)
    requires |buf| >= 1
    ensures value == Value(buf) % TWO32
  {
    var i := 0;
    if buf[0] == 0 {
      i := 1;
    }
    value := 0;
    assert Value(buf[..i]) == 0 by { if i == 1 { ValueOne(buf[0]); assert buf[..1] == [buf[0]]; } }
    while i < |buf|
      invariant 0 <= i <= |buf| && value == Value(buf[..i]) % TWO32
    {
      ValueNext(buf, i);
      ModStep(Value(buf[..i]), buf[i]);
      value := ShiftIn(value, buf[i]);
      i := i + 1;
    }
    assert buf[..i] == buf;
  }

  // ---------------------------------------------------------------------
  // Lengths
  // ---------------------------------------------------------------------

  /** How many octets a length takes. */
  function LengthSize(buf: Bytes): nat
    requires buf != []
  {
    if buf[0] >= 128 then 1 + (buf[0] - 128) else 1
  }

  /** What it says. */
  function LengthValue(buf: Bytes): SubId
    requires buf != [] && LengthSize(buf) <= |buf|
  {
    if buf[0] >= 128 then Value(buf[1..LengthSize(buf)]) % TWO32 else buf[0]
  }

  method LengthDec(buf: Bytes) returns (len: nat, value: SubId)
    requires buf != [] && LengthSize(buf) <= |buf|
    ensures len == LengthSize(buf) && value == LengthValue(buf)
  {
    var i := 0;
    len := 1;
    if buf[0] >= 128 {
      len := len + (buf[0] - 128);
      i := i + 1;
    }
    ghost var from := i;
    value := 0;
    while i < len
      invariant from <= i <= len && value == Value(buf[from..i]) % TWO32
    {
      ValueAppend(buf[from..i], buf[i]);
      assert buf[from..i + 1] == buf[from..i] + [buf[i]];
      ModStep(Value(buf[from..i]), buf[i]);
      value := ShiftIn(value, buf[i]);
      i := i + 1;
    }
    if buf[0] < 128 {
      ValueOne(buf[0]);
      assert buf[0..1] == [buf[0]];
    }
  }

  // ---------------------------------------------------------------------
  // Round trips
  // ---------------------------------------------------------------------

  lemma {:induction false} IntSize(v: int, n: nat)
    requires n > 0 && -128 * Pow(n - 1) <= v < 128 * Pow(n - 1)
    ensures |IntBytes(v)| <= n
    decreases n
  {
    if !(-128 <= v < 128) {
      assert n > 1 && Pow(n - 1) == 256 * Pow(n - 2);
      IntSize(v / 256, n - 1);
    }
  }

  /** A 32-bit integer takes one to four octets, which decode to it. */
  lemma IntRoundTrip(v: Int32)
    ensures 1 <= |IntBytes(v)| <= 4 && Signed(IntBytes(v)) == v
  {
    IntBytesMean(v);
    assert Pow(2) == 65536 && Pow(3) == 16777216;
    IntSize(v, 4);
  }

  lemma UintRoundTrip(v: SubId)
    ensures 1 <= |IntBytes(v)| <= 5 && Value(IntBytes(v)) % TWO32 == v
  {
    IntBytesMean(v);
    PowFour();
    IntSize(v, 5);
    var s := IntBytes(v);
    HighBit(s);
    ValueBound(s);
    assert s[0] < 128;
  }

  lemma Middle(a: Bytes, b: Bytes, c: Bytes)
    ensures (a + b + c)[|a|..|a| + |b|] == b
  {
  }

  /** The long form. */
  lemma LongForm(c: Byte, b: Bytes, rest: Bytes)
    requires c == 128 + |b|
    ensures LengthSize([c] + b + rest) == 1 + |b| && LengthValue([c] + b + rest) == Value(b) % TWO32
  {
    var buf := [c] + b + rest;
    Middle([c], b, rest);
    assert buf[0] == c && LengthSize(buf) == 1 + |b|;
    assert buf[1..1 + |b|] == b;
  }

  lemma ShortForm(c: Byte, rest: Bytes)
    requires c < 128
    ensures LengthSize([c] + rest) == 1 && LengthValue([c] + rest) == c
  {
    assert ([c] + rest)[0] == c;
  }

  lemma Base256Fits(v: SubId)
    ensures |Base256(v)| <= 4 && Value(Base256(v)) % TWO32 == v
  {
    PowFour();
    Base256Short(v, 4);
    Base256Mean(v);
  }

  /** A length, whatever follows it. */
  lemma LengthRoundTrip(v: SubId, rest: Bytes)
    ensures LengthSize(LengthBytes(v) + rest) == |LengthBytes(v)| && LengthValue(LengthBytes(v) + rest) == v
  {
    if v < 128 {
      ShortForm(v, rest);
    } else {
      Base256Fits(v);
      LongForm(128 + |Base256(v)|, Base256(v), rest);
    }
  }
}
