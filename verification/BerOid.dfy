/** BER contents octets of object identifiers (core/snmp_encoder.c:137-160, 320-349;
    core/snmp_decoder.c:32-44, 138-156). */
module BerOid {
  import opened Oids
  import opened Ber

  /** Base 128 digits, all marked as followed by another. */
  function High(v: nat): Bytes {
    if v == 0 then [] else High(v / 128) + [v % 128 + 128]
  }

  /** One sub-identifier: base 128, the last digit unmarked (section 8.19.2 of X.690). */
  function SubBytes(v: nat): (r: Bytes)
    ensures |r| >= 1
  {
    High(v / 128) + [v % 128]
  }

  function SubsBytes(s: Oid): Bytes {
    if s == [] then [] else SubBytes(s[0]) + SubsBytes(s[1..])
  }

  function FirstByte(x: int, y: int): Byte {
    (x * 40 + y) % 256
  }

  /** The octets of an identifier; the first one holds the first two sub-identifiers. */
  function OidBytes(o: Oid): Bytes {
    if o == [] then []
    else if |o| == 1 then [o[0] % 256]
    else [FirstByte(o[0], o[1])] + SubsBytes(o[2..])
  }

  // ---------------------------------------------------------------------
  // Encoding
  // ---------------------------------------------------------------------

  /** The digits are collected in `tmp`, lowest first. */
  method Digits(id: SubId) returns (tmp: Bytes)
    ensures |tmp| >= 1 && Reversed(tmp) == SubBytes(id)
  {
    tmp := [id % 128 + 128];
    var rest: nat := id / 128;
    while rest > 0
      invariant |tmp| >= 1 && tmp[0] == id % 128 + 128
      invariant High(rest) + Reversed(tmp[1..]) == High(id / 128)
      decreases rest
    {
      var more := tmp + [rest % 128 + 128];
      ReversedLast(more[1..]);
      assert more[1..][..|more| - 2] == tmp[1..];
      assert High(rest) == High(rest / 128) + [rest % 128 + 128];
      tmp := more;
      rest := rest / 128;
    }
    var first: Byte := tmp[0] % 128;
    assert tmp[1..] == ([first] + tmp[1..])[1..];
    tmp := [first] + tmp[1..];
  }

  lemma {:induction false} SubsAppend(s: Oid, x: SubId)
    ensures SubsBytes(s + [x]) == SubsBytes(s) + SubBytes(x)
  {
    if s == [] {
      assert [x][1..] == [] && s + [x] == [x];
    } else {
      SubsAppend(s[1..], x);
      assert (s + [x])[1..] == s[1..] + [x];
    }
  }

  lemma SubsNext(oid: Oid, i: nat)
    requires 2 <= i < |oid|
    ensures SubsBytes(oid[2..i + 1]) == SubsBytes(oid[2..i]) + SubBytes(oid[i])
  {
    SubsAppend(oid[2..i], oid[i]);
    assert oid[2..i + 1] == oid[2..i] + [oid[i]];
  }

  method OidEnc(oid: Oid) returns (buf: Bytes)
    ensures buf == OidBytes(oid)
  {
    if |oid| == 0 {
      return [];
    } else if |oid| == 1 {
      return [oid[0] % 256];
    }
    buf := [FirstByte(oid[0], oid[1])];
    var i := 2;
    while i < |oid|
      invariant 2 <= i <= |oid| && buf == [FirstByte(oid[0], oid[1])] + SubsBytes(oid[2..i])
    {
      var tmp := Digits(oid[i]);
      var more := CopyDown(tmp, |tmp| - 1);
      assert tmp[..|tmp|] == tmp;
      SubsNext(oid, i);
      buf := buf + more;
      i := i + 1;
    }
    assert oid[2..i] == oid[2..];
  }

  /** An 8-bit counter, counting `n` digits. */
  method CountUp(from: Byte, n: nat) returns (len: Byte)
    ensures len == (from + n) % 256
  {
    len := from;
    for k := 0 to n
      invariant len == (from + k) % 256
    {
      len := (len + 1) % 256;
    }
  }

  lemma ModPlus(t: nat, n: nat)
    ensures (t % 256 + n) % 256 == (t + n) % 256
  {
  }

  /** The size computed beforehand, whose counters are 8 bits wide. */
  method OidEncTry(oid: Oid) returns (len: Byte)
    requires |oid| <= 255
    ensures len == |OidBytes(oid)| % 256
    ensures len == |OidBytes(oid)| <==> |OidBytes(oid)| <= 255
  {
    if |oid| < 2 {
      return |oid|;
    }
    len := 1;
    var i := 2;
    while i < |oid|
      invariant 2 <= i <= |oid| && len == (1 + |SubsBytes(oid[2..i])|) % 256
    {
      var tmp := Digits(oid[i]);
      ReversedLength(tmp);
      ModPlus(1 + |SubsBytes(oid[2..i])|, |tmp|);
      len := CountUp(len, |tmp|);
      SubsNext(oid, i);
      i := i + 1;
    }
    assert oid[2..i] == oid[2..];
  }

  // ---------------------------------------------------------------------
  // Decoding
  // ---------------------------------------------------------------------

  /** `(id << 7) | (b & 0x7f)` in 32 bits. */
  function Push(id: SubId, b: Byte): SubId {
    (id * 128 + b % 128) % TWO32
  }

  /** The sub-identifiers in `s`, with `id` read so far of the first. */
  function Subs(id: SubId, s: Bytes): Oid
    decreases |s|
  {
    if s == [] then []
    else if s[0] < 128 then [Push(id, s[0])] + Subs(0, s[1..])
    else Subs(Push(id, s[0]), s[1..])
  }

  /** The identifier that non-empty contents octets stand for. */
  function OidValue(buf: Bytes): Oid
    requires buf != []
  {
    [buf[0] / 40, buf[0] % 40] + Subs(0, buf[1..])
  }

  method OidDec(buf: Bytes) returns (oid: Oid)
    requires buf != []
    ensures oid == OidValue(buf)
  {
    oid := [buf[0] / 40, buf[0] % 40];
    var id: SubId := 0;
    var i := 1;
    while i < |buf|
      invariant 1 <= i <= |buf| && oid + Subs(id, buf[i..]) == OidValue(buf)
    {
      assert buf[i..][1..] == buf[i + 1..];
      id := Push(id, buf[i]);
      if buf[i] < 128 {
        oid := oid + [id];
        id := 0;
      }
      i := i + 1;
    }
  }

  method OidDecTry(buf: Bytes) returns (n: nat)
    requires buf != []
    ensures n == |OidValue(buf)|
  {
    n := 2;
    ghost var id: SubId := 0;
    var i := 1;
    while i < |buf|
      invariant 1 <= i <= |buf| && n + |Subs(id, buf[i..])| == |OidValue(buf)|
    {
      assert buf[i..][1..] == buf[i + 1..];
      id := if buf[i] < 128 then 0 else Push(id, buf[i]);
      if buf[i] < 128 {
        n := n + 1;
      }
      i := i + 1;
    }
  }

  // ---------------------------------------------------------------------
  // Round trip
  // ---------------------------------------------------------------------

  lemma PushBack(v: SubId)
    ensures Push(v / 128, v % 128) == v && Push(v / 128, v % 128 + 128) == v
  {
    assert v / 128 * 128 + v % 128 == v;
  }

  lemma ReadDigit(id: SubId, d: Byte, rest: Bytes)
    ensures Subs(id, [d] + rest) == if d < 128 then [Push(id, d)] + Subs(0, rest) else Subs(Push(id, d), rest)
  {
    assert ([d] + rest)[1..] == rest;
  }

  lemma HighStep(v: nat, rest: Bytes)
    requires v > 0
    ensures High(v) + rest == High(v / 128) + ([v % 128 + 128] + rest)
  {
  }

  /** Reading the marked digits of a number. */
  lemma {:induction false} ReadHigh(v: SubId, rest: Bytes)
    ensures Subs(0, High(v) + rest) == Subs(v, rest)
  {
    if v == 0 {
      assert High(0) + rest == rest;
    } else {
      var d: Byte := v % 128 + 128;
      ReadHigh(v / 128, [d] + rest);
      HighStep(v, rest);
      ReadDigit(v / 128, d, rest);
      PushBack(v);
    }
  }

  lemma ReadSub(v: SubId, rest: Bytes)
    ensures Subs(0, SubBytes(v) + rest) == [v] + Subs(0, rest)
  {
    var d: Byte := v % 128;
    ReadHigh(v / 128, [d] + rest);
    assert SubBytes(v) + rest == High(v / 128) + ([d] + rest);
    ReadDigit(v / 128, d, rest);
    PushBack(v);
  }

  lemma {:induction false} ReadSubs(s: Oid)
    ensures Subs(0, SubsBytes(s)) == s
  {
    if s != [] {
      ReadSub(s[0], SubsBytes(s[1..]));
      ReadSubs(s[1..]);
      assert s == [s[0]] + s[1..];
    }
  }

  /** The first two sub-identifiers fit one octet. */
  predicate Encodable(o: Oid) {
    |o| >= 2 && o[1] < 40 && (o[0] as int) * 40 + o[1] < 256
  }

  lemma ReadPair(o: Oid)
    requires |o| >= 2
    ensures OidValue(OidBytes(o)) == [FirstByte(o[0], o[1]) / 40, FirstByte(o[0], o[1]) % 40] + o[2..]
  {
    ReadSubs(o[2..]);
    assert OidBytes(o)[1..] == SubsBytes(o[2..]);
  }

  lemma PairIs(o: Oid, x: SubId, y: SubId)
    requires |o| >= 2
    ensures [x, y] + o[2..] == o <==> o[0] == x && o[1] == y
  {
    assert ([x, y] + o[2..])[0] == x && ([x, y] + o[2..])[1] == y;
    assert o == [o[0], o[1]] + o[2..];
  }

  /** An identifier that is not empty decodes to itself exactly when its first two sub-identifiers fit. */
  lemma OidRoundTrip(o: Oid)
    requires o != []
    ensures OidBytes(o) != [] && (OidValue(OidBytes(o)) == o <==> Encodable(o))
  {
    if |o| == 1 {
      assert |OidValue(OidBytes(o))| >= 2;
    } else {
      var b := FirstByte(o[0], o[1]);
      ReadPair(o);
      PairIs(o, b / 40, b % 40);
      FirstTwo(o[0], o[1]);
    }
  }

  lemma FirstTwo(x: nat, y: nat)
    ensures FirstByte(x, y) / 40 == x && FirstByte(x, y) % 40 == y <==> y < 40 && x * 40 + y < 256
  {
    var b := FirstByte(x, y);
    assert b == b / 40 * 40 + b % 40;
  }

  /** A second sub-identifier of 40 is read as the next first one. */
  lemma OidLost()
    ensures OidValue(OidBytes([1, 40, 7])) == [2, 0, 7]
  {
    ReadSubs([7]);
    assert OidBytes([1, 40, 7])[1..] == SubsBytes([1, 40, 7][2..]);
    assert [1, 40, 7][2..] == [7];
  }
}
