/** The octets of AgentX responses and what they say (core/agentx_msg_out.c:366-503,
    core/agentx_msg_in.c:70-121, 172-197, 227-296, core/agentx_decoder.c:33-134; sections 5.1, 5.3 and
    5.4 of RFC 2741), in the byte order of a little-endian host. */
module AgentX {
  import opened Oids
  import opened Ber
  import opened Chunks
  import opened Parsing

  const OID_LEN_MAX := 64
  const VALUE_LEN_MAX := 1024
  const ERR_VALUE_LEN := -201
  const ERR_OID_LEN := -202

  datatype Value = Int(v: SubId) | Big(low: SubId, high: SubId) | Str(s: Bytes) | Ids(o: Oid) | Nothing

  type Short = n: int | 0 <= n < 65536

  /** A variable binding whose value is laid out as its type says. */
  datatype Binding = Binding(oid: Oid, kind: Short, value: Value)

  predicate WellTyped(b: Binding) {
    Typed(b.kind, b.value)
  }

  /** The kind of value that each type has (section 5.4 of RFC 2741). */
  predicate Typed(kind: int, v: Value) {
    if kind in {0x02, 0x41, 0x42, 0x43} then v.Int?
    else if kind == 0x46 then v.Big?
    else if kind in {0x04, 0x40} then v.Str?
    else if kind == 0x06 then v.Ids?
    else v.Nothing?
  }

  // ---------------------------------------------------------------------
  // Sizes
  // ---------------------------------------------------------------------

  /** Rounded up to a multiple of four. */
  function Round4(n: nat): (r: nat)
    ensures r % 4 == 0 && n <= r < n + 4
  {
    (n + 3) / 4 * 4
  }

  function OidSize(o: Oid): nat {
    if |o| > 5 then 4 + (|o| - 5) * 4 else 4
  }

  function ValueSize(v: Value): nat {
    match v
    case Int(_) => 4
    case Big(_, _) => 8
    case Str(s) => 4 + Round4(|s|)
    case Ids(o) => OidSize(o)
    case Nothing => 0
  }

  function BindingSize(b: Binding): nat {
    4 + OidSize(b.oid) + ValueSize(b.value)
  }

  // ---------------------------------------------------------------------
  // Octets
  // ---------------------------------------------------------------------

  function Words(s: Oid): (r: Bytes)
    ensures |r| == 4 * |s|
  {
    if s == [] then [] else Words(s[..|s| - 1]) + Word(s[|s| - 1])
  }

  /** An identifier, without its first four sub-identifiers and with the fifth as a prefix. */
  function OidBytes(o: Oid): (r: Bytes)
    ensures |r| == OidSize(o)
  {
    [if |o| > 5 then (|o| - 5) % 256 else 0, if |o| > 4 then o[4] % 256 else 0, 0, 0] + if |o| > 5 then Words(o[5..]) else []
  }

  /** A string, padded with zeros. */
  function StrBytes(s: Bytes): (r: Bytes)
    ensures |r| == 4 + Round4(|s|)
  {
    Word(|s| % TWO32) + (s + Zeros(Round4(|s|) - |s|))
  }

  function ValueBytes(v: Value): (r: Bytes)
    ensures |r| == ValueSize(v)
  {
    match v
    case Int(x) => Word(x)
    case Big(low, high) => Word(low) + Word(high)
    case Str(s) => StrBytes(s)
    case Ids(o) => OidBytes(o)
    case Nothing => []
  }

  /** The octets of a binding are as many as its size says. */
  function BindingBytes(b: Binding): (r: Bytes)
    ensures |r| == BindingSize(b)
  {
    Word(b.kind) + OidBytes(b.oid) + ValueBytes(b.value)
  }

  // ---------------------------------------------------------------------
  // What octets say
  // ---------------------------------------------------------------------

  function ParseWord(s: Bytes): Parsed<SubId> {
    if |s| < 4 then Malformed else Ok(LittleEndian(s[..4]) % TWO32, s[4..])
  }

  function ParseWords(s: Bytes, n: nat): Parsed<Oid> {
    if n == 0 then Ok([], s)
    else match ParseWord(s)
      case Ok(v, rest) => (match ParseWords(rest, n - 1)
        case Ok(vs, end) => Ok([v] + vs, end)
        case _ => Malformed)
      case _ => Malformed
  }

  function ParseOid(s: Bytes): Parsed<Oid> {
    if |s| < 4 then Malformed
    else if s[0] == 0 && s[1] == 0 then Ok([], s[4..])
    else match ParseWords(s[4..], s[0])
      case Ok(subs, rest) => Ok([1, 3, 6, 1, s[1]] + subs, rest)
      case _ => Malformed
  }

  function ParseStr(s: Bytes): Parsed<Value> {
    match ParseWord(s)
    case Ok(n, rest) =>
      if n > VALUE_LEN_MAX then Err(ERR_VALUE_LEN)
      else if Round4(n) > |rest| then Malformed
      else Ok(Str(rest[..n]), rest[Round4(n)..])
    case _ => Malformed
  }

  /** How many octets the identifier will take when decoded. */
  function OidRoom(s: Bytes): nat {
    if |s| < 2 || (s[0] == 0 && s[1] == 0) then 0 else ((s[0] as int) + 5) * 4
  }

  function ParseIds(s: Bytes): Parsed<Value> {
    if OidRoom(s) > VALUE_LEN_MAX then Err(ERR_VALUE_LEN)
    else match ParseOid(s)
      case Ok(o, rest) => Ok(Ids(o), rest)
      case _ => Malformed
  }

  function ParseInt(s: Bytes): Parsed<Value> {
    match ParseWord(s)
    case Ok(v, rest) => Ok(Int(v), rest)
    case _ => Malformed
  }

  function ParseBig(s: Bytes): Parsed<Value> {
    match ParseWord(s)
    case Ok(low, rest) => (match ParseWord(rest)
      case Ok(high, end) => Ok(Big(low, high), end)
      case _ => Malformed)
    case _ => Malformed
  }

  /** The decoder looks at the low octet of the type. */
  function ParseValue(kind: Short, s: Bytes): Parsed<Value> {
    match kind % 256
    case 0x02 | 0x41 | 0x42 | 0x43 => ParseInt(s)
    case 0x46 => ParseBig(s)
    case 0x04 | 0x40 => ParseStr(s)
    case 0x06 => ParseIds(s)
    case _ => Ok(Nothing, s)
  }

  function ParseNamed(kind: Short, s: Bytes): Parsed<Binding> {
    if OidRoom(s) / 4 > OID_LEN_MAX then Err(ERR_OID_LEN)
    else match ParseOid(s)
      case Ok(o, rest) => (match ParseValue(kind, rest)
        case Ok(v, end) => Ok(Binding(o, kind, v), end)
        case Err(c) => Err(c)
        case Malformed => Malformed)
      case _ => Malformed
  }

  /** A binding: its type in the low half of a word, its name, its value. */
  function ParseBinding(s: Bytes): Parsed<Binding> {
    match ParseWord(s)
    case Ok(w, rest) => ParseNamed(w % 65536, rest)
    case _ => Malformed
  }

  /** Bindings until the payload is used up. */
  function ParsePayload(one: Reader<Binding>, s: Bytes, payload: nat): Parsed<seq<Binding>>
    decreases |s|
  {
    if payload == 0 then Ok([], s)
    else match one(s)
      case Ok(b, rest) =>
        if |rest| >= |s| || |s| - |rest| > payload then Malformed
        else (match ParsePayload(one, rest, payload - (|s| - |rest|))
          case Ok(bs, end) => Ok([b] + bs, end)
          case Err(c) => Err(c)
          case Malformed => Malformed)
      case Err(c) => Err(c)
      case Malformed => Malformed
  }

  // ---------------------------------------------------------------------
  // What is read, octet by octet
  // ---------------------------------------------------------------------

  /** Four octets, the least significant first. */
  function Four(s: Bytes, i: nat): SubId
    requires i + 4 <= |s|
  {
    (s[i] as int) + 256 * (s[i + 1] as int) + 65536 * (s[i + 2] as int) + 16777216 * (s[i + 3] as int)
  }

  lemma FourIs(s: Bytes)
    requires |s| >= 4
    ensures LittleEndian(s[..4]) % TWO32 == Four(s, 0)
  {
    var a := s[..4];
    assert a[1..] == s[1..4] && s[1..4][1..] == s[2..4] && s[2..4][1..] == s[3..4] && s[3..4][1..] == [];
    assert LittleEndian(s[3..4]) == s[3];
    assert LittleEndian(s[2..4]) == (s[2] as int) + 256 * s[3] as int;
    assert LittleEndian(s[1..4]) == (s[1] as int) + 256 * LittleEndian(s[2..4]);
    assert LittleEndian(a) == (s[0] as int) + 256 * LittleEndian(s[1..4]);
  }

  lemma WordIs(s: Bytes)
    ensures ParseWord(s) == if |s| < 4 then Malformed else Ok(Four(s, 0), s[4..])
  {
    if |s| >= 4 { FourIs(s); }
  }

  function Fours(s: Bytes, i: nat, n: nat): (r: Oid)
    requires i + 4 * n <= |s|
    ensures |r| == n
  {
    seq(n, k requires 0 <= k < n => Four(s, i + 4 * k))
  }

  lemma {:induction false} WordsAre(s: Bytes, n: nat)
    ensures ParseWords(s, n) == if |s| < 4 * n then Malformed else Ok(Fours(s, 0, n), s[4 * n..])
    decreases n
  {
    if n > 0 {
      WordIs(s);
      if |s| >= 4 {
        WordsAre(s[4..], n - 1);
        if |s| >= 4 * n {
          assert s[4..][4 * (n - 1)..] == s[4 * n..];
          assert [Four(s, 0)] + Fours(s[4..], 0, n - 1) == Fours(s, 0, n);
        }
      }
    }
  }

  lemma OidIs(s: Bytes)
    ensures ParseOid(s) ==
      if |s| < 4 then Malformed
      else if s[0] == 0 && s[1] == 0 then Ok([], s[4..])
      else if |s| < 4 + 4 * (s[0] as int) then Malformed
      else Ok([1, 3, 6, 1, s[1]] + Fours(s, 4, s[0]), s[4 + 4 * (s[0] as int)..])
  {
    if |s| >= 4 {
      WordsAre(s[4..], s[0]);
      if |s| >= 4 + 4 * (s[0] as int) {
        assert Fours(s[4..], 0, s[0]) == Fours(s, 4, s[0]) && s[4..][4 * (s[0] as int)..] == s[4 + 4 * (s[0] as int)..];
      }
    }
  }

  /** 32-bit numbers: four octets. */
  lemma WordTypes(kind: Short, s: Bytes)
    requires kind % 256 in {0x02, 0x41, 0x42, 0x43}
    ensures ParseValue(kind, s) == if |s| < 4 then Malformed else Ok(Int(Four(s, 0)), s[4..])
  {
    WordIs(s);
  }

  /** 64-bit numbers: eight octets. */
  lemma LongType(kind: Short, s: Bytes)
    requires kind % 256 == 0x46
    ensures ParseValue(kind, s) == if |s| < 8 then Malformed else Ok(Big(Four(s, 0), Four(s, 4)), s[8..])
  {
    WordIs(s);
    if |s| >= 4 {
      WordIs(s[4..]);
      assert |s| >= 8 ==> s[4..][4..] == s[8..] && Four(s[4..], 0) == Four(s, 4);
    }
  }

  /** Strings and addresses: a length, at most 1024, that many octets, and padding. */
  lemma TextTypes(kind: Short, s: Bytes)
    requires kind % 256 in {0x04, 0x40}
    ensures ParseValue(kind, s) ==
      if |s| < 4 then Malformed
      else if Four(s, 0) > 1024 then Err(-201)
      else if |s| < 4 + (Four(s, 0) + 3) / 4 * 4 then Malformed
      else Ok(Str(s[4..4 + Four(s, 0)]), s[4 + (Four(s, 0) + 3) / 4 * 4..])
  {
    WordIs(s);
    if |s| >= 4 {
      var n, padded := Four(s, 0), (Four(s, 0) + 3) / 4 * 4;
      assert |s| >= 4 + padded ==> s[4..][..n] == s[4..4 + n] && s[4..][padded..] == s[4 + padded..];
    }
  }

  /** Identifiers: a count, a prefix, and that many sub-identifiers after 1.3.6.1 and the prefix. */
  lemma NameType(kind: Short, s: Bytes)
    requires kind % 256 == 0x06
    ensures ParseValue(kind, s) ==
      if |s| >= 2 && s[0] > 251 then Err(-201)
      else if |s| < 4 then Malformed
      else if s[0] == 0 && s[1] == 0 then Ok(Ids([]), s[4..])
      else if |s| < 4 + 4 * (s[0] as int) then Malformed
      else Ok(Ids([1, 3, 6, 1, s[1]] + Fours(s, 4, s[0])), s[4 + 4 * (s[0] as int)..])
  {
    OidIs(s);
  }

  /** Nothing is read for all others. */
  lemma OtherTypes(kind: Short, s: Bytes)
    requires kind % 256 !in {0x02, 0x04, 0x06, 0x40, 0x41, 0x42, 0x43, 0x46}
    ensures ParseValue(kind, s) == Ok(Nothing, s)
  {
  }

  /** An address is read as its four octets. */
  lemma AddressRead(address: Bytes, rest: Bytes)
    requires |address| == 4
    ensures ParseValue(0x40, [4, 0, 0, 0] + address + rest) == Ok(Str(address), rest)
  {
    var s := [4, 0, 0, 0] + address + rest;
    TextTypes(0x40, s);
    assert s[4..8] == address && s[8..] == rest;
  }

  // ---------------------------------------------------------------------
  // Round trip
  // ---------------------------------------------------------------------

  lemma ReadWord(v: SubId, rest: Bytes)
    ensures ParseWord(Word(v) + rest) == Ok(v, rest)
  {
    WordValue(v);
    Prefix(Word(v), rest);
  }

  lemma {:induction false} WordsCons(s: Oid)
    requires s != []
    ensures Words(s) == Word(s[0]) + Words(s[1..])
  {
    if |s| == 1 {
      assert s[..0] == [] && s[1..] == [];
    } else {
      var front := s[..|s| - 1];
      WordsCons(front);
      assert front[1..] == s[1..][..|s| - 2];
      Assoc(Word(s[0]), Words(front[1..]), Word(s[|s| - 1]));
    }
  }

  lemma {:induction false} ReadWords(s: Oid, rest: Bytes)
    ensures ParseWords(Words(s) + rest, |s|) == Ok(s, rest)
  {
    if s == [] {
      assert [] + rest == rest;
    } else {
      WordsCons(s);
      Assoc(Word(s[0]), Words(s[1..]), rest);
      ReadWord(s[0], Words(s[1..]) + rest);
      ReadWords(s[1..], rest);
      assert [s[0]] + s[1..] == s;
    }
  }

  /** Identifiers that can be told from their octets. */
  predicate Recoverable(o: Oid) {
    o == [] || (|o| >= 5 && o[..4] == [1, 3, 6, 1] && o[4] < 256 && (o[4] != 0 || |o| > 5))
  }

  /** The octets after the four of the head. */
  lemma ReadTail(head: Bytes, subs: Oid, rest: Bytes)
    requires |head| == 4 && head[0] == |subs| && !(head[0] == 0 && head[1] == 0)
    ensures ParseOid(head + Words(subs) + rest) == Ok([1, 3, 6, 1, head[1]] + subs, rest)
  {
    Assoc(head, Words(subs), rest);
    Prefix(head, Words(subs) + rest);
    ReadWords(subs, rest);
  }

  lemma ReadNull(head: Bytes, rest: Bytes)
    requires |head| == 4 && head[0] == 0 && head[1] == 0
    ensures ParseOid(head + rest) == Ok([], rest)
  {
    Prefix(head, rest);
  }

  lemma Spliced(o: Oid, p: SubId)
    requires |o| >= 5
    ensures [1, 3, 6, 1, p] + o[5..] == o <==> o[..4] == [1, 3, 6, 1] && o[4] == p
  {
    var r := [1, 3, 6, 1, p] + o[5..];
    assert r[..4] == [1, 3, 6, 1] && r[4] == p;
    assert o == o[..4] + [o[4]] + o[5..];
  }

  lemma LongOid(o: Oid, rest: Bytes)
    requires 5 < |o| <= 260
    ensures ParseOid(OidBytes(o) + rest) == Ok([1, 3, 6, 1, o[4] % 256] + o[5..], rest)
  {
    var head: Bytes := [|o| - 5, o[4] % 256, 0, 0];
    assert OidBytes(o) == head + Words(o[5..]);
    ReadTail(head, o[5..], rest);
  }

  lemma ShortOid(o: Oid, rest: Bytes)
    requires |o| <= 5
    ensures ParseOid(OidBytes(o) + rest) == Ok(if |o| == 5 && o[4] % 256 != 0 then [1, 3, 6, 1, o[4] % 256] else [], rest)
  {
    var head: Bytes := [0, if |o| > 4 then o[4] % 256 else 0, 0, 0];
    assert OidBytes(o) == head;
    if head[1] == 0 {
      ReadNull(head, rest);
    } else {
      assert head + Words([]) == head && [1, 3, 6, 1, o[4] % 256] + [] == [1, 3, 6, 1, o[4] % 256];
      ReadTail(head, [], rest);
    }
  }

  /** An identifier of up to 260 sub-identifiers is read back exactly when it starts with 1.3.6.1 and a
      fifth sub-identifier that fits an octet, and is not 1.3.6.1.0; or when it is empty. */
  lemma OidRoundTrip(o: Oid, rest: Bytes)
    requires |o| <= 260
    ensures ParseOid(OidBytes(o) + rest) == Ok(o, rest) <==> Recoverable(o)
  {
    if |o| > 5 {
      LongOid(o, rest);
      Spliced(o, o[4] % 256);
    } else {
      ShortOid(o, rest);
      if |o| == 5 {
        Spliced(o, o[4] % 256);
        assert o[5..] == [];
      }
    }
  }

  /** Values that are read back. */
  predicate ValueOk(v: Value) {
    && (v.Str? ==> |v.s| <= VALUE_LEN_MAX)
    && (v.Ids? ==> |v.o| <= 256 && Recoverable(v.o))
  }

  lemma StrFrom(s: Bytes, text: Bytes, pad: Bytes, rest: Bytes)
    requires ParseWord(s) == Ok(|text|, text + pad + rest) && |text| <= VALUE_LEN_MAX && |text| + |pad| == Round4(|text|)
    ensures ParseStr(s) == Ok(Str(text), rest)
  {
    Assoc(text, pad, rest);
    Prefix(text, pad + rest);
    Prefix(text + pad, rest);
  }

  lemma ReadText(n: SubId, text: Bytes, pad: Bytes, rest: Bytes)
    requires n == |text| <= VALUE_LEN_MAX && |text| + |pad| == Round4(|text|)
    ensures ParseStr(Word(n) + (text + pad) + rest) == Ok(Str(text), rest)
  {
    Assoc(Word(n), text + pad, rest);
    ReadWord(n, text + pad + rest);
    StrFrom(Word(n) + (text + pad + rest), text, pad, rest);
  }

  lemma ReadStr(text: Bytes, rest: Bytes)
    requires |text| <= VALUE_LEN_MAX
    ensures ParseStr(StrBytes(text) + rest) == Ok(Str(text), rest)
  {
    ReadText(|text| % TWO32, text, Zeros(Round4(|text|) - |text|), rest);
  }

  lemma ReadBig(low: SubId, high: SubId, rest: Bytes)
    ensures ParseBig(Word(low) + Word(high) + rest) == Ok(Big(low, high), rest)
  {
    Assoc(Word(low), Word(high), rest);
    ReadWord(low, Word(high) + rest);
    ReadWord(high, rest);
  }

  lemma RoomOf(o: Oid, rest: Bytes)
    requires |o| <= 260 && Recoverable(o)
    ensures OidRoom(OidBytes(o) + rest) == 4 * |o|
  {
    var s := OidBytes(o) + rest;
    assert s[0] == (if |o| > 5 then |o| - 5 else 0) && s[1] == if |o| > 4 then o[4] % 256 else 0;
  }

  lemma ReadIds(o: Oid, rest: Bytes)
    requires |o| <= 256 && Recoverable(o)
    ensures ParseIds(OidBytes(o) + rest) == Ok(Ids(o), rest)
  {
    RoomOf(o, rest);
    OidRoundTrip(o, rest);
  }

  lemma ReadInt(x: SubId, rest: Bytes)
    ensures ParseInt(Word(x) + rest) == Ok(Int(x), rest)
  {
    ReadWord(x, rest);
  }

  lemma ReadLaidOut(v: Value, s: Bytes, rest: Bytes)
    requires ValueOk(v) && s == ValueBytes(v) + rest
    ensures v.Int? ==> ParseInt(s) == Ok(v, rest)
    ensures v.Big? ==> ParseBig(s) == Ok(v, rest)
    ensures v.Str? ==> ParseStr(s) == Ok(v, rest)
    ensures v.Ids? ==> ParseIds(s) == Ok(v, rest)
    ensures v.Nothing? ==> s == rest
  {
    match v
    case Int(x) => ReadInt(x, rest);
    case Big(low, high) => ReadBig(low, high, rest);
    case Str(text) => ReadStr(text, rest);
    case Ids(o) => ReadIds(o, rest);
    case Nothing => assert [] + rest == rest;
  }

  /** The type picks the reader. */
  lemma Picks(kind: Short, v: Value, s: Bytes, rest: Bytes)
    requires kind < 256 && Typed(kind, v)
    requires v.Int? ==> ParseInt(s) == Ok(v, rest)
    requires v.Big? ==> ParseBig(s) == Ok(v, rest)
    requires v.Str? ==> ParseStr(s) == Ok(v, rest)
    requires v.Ids? ==> ParseIds(s) == Ok(v, rest)
    requires v.Nothing? ==> s == rest
    ensures ParseValue(kind, s) == Ok(v, rest)
  {
    assert kind % 256 == kind;
  }

  lemma ReadValue(kind: Short, v: Value, rest: Bytes)
    requires kind < 256 && Typed(kind, v) && ValueOk(v)
    ensures ParseValue(kind, ValueBytes(v) + rest) == Ok(v, rest)
  {
    ReadLaidOut(v, ValueBytes(v) + rest, rest);
    Picks(kind, v, ValueBytes(v) + rest, rest);
  }

  /** Bindings that are read back. */
  predicate BindingOk(b: Binding) {
    WellTyped(b) && b.kind < 256 && |b.oid| <= OID_LEN_MAX && Recoverable(b.oid) && ValueOk(b.value)
  }

  lemma NamedFrom(kind: Short, s: Bytes, o: Oid, mid: Bytes, v: Value, rest: Bytes)
    requires OidRoom(s) / 4 <= OID_LEN_MAX && ParseOid(s) == Ok(o, mid) && ParseValue(kind, mid) == Ok(v, rest)
    ensures ParseNamed(kind, s) == Ok(Binding(o, kind, v), rest)
  {
  }

  lemma ReadNamed(b: Binding, rest: Bytes)
    requires BindingOk(b)
    ensures ParseNamed(b.kind, OidBytes(b.oid) + (ValueBytes(b.value) + rest)) == Ok(b, rest)
  {
    var name, tail := OidBytes(b.oid), ValueBytes(b.value) + rest;
    RoomOf(b.oid, tail);
    OidRoundTrip(b.oid, tail);
    ReadValue(b.kind, b.value, rest);
    NamedFrom(b.kind, name + tail, b.oid, tail, b.value, rest);
  }

  lemma BindingFrom(s: Bytes, kind: Short, mid: Bytes, b: Binding, rest: Bytes)
    requires ParseWord(s) == Ok(kind, mid) && ParseNamed(kind, mid) == Ok(b, rest)
    ensures ParseBinding(s) == Ok(b, rest)
  {
  }

  lemma ReadBinding(b: Binding, rest: Bytes)
    requires BindingOk(b)
    ensures ParseBinding(BindingBytes(b) + rest) == Ok(b, rest)
  {
    var kind, name, value := Word(b.kind), OidBytes(b.oid), ValueBytes(b.value);
    Assoc(kind + name, value, rest);
    Assoc(kind, name, value + rest);
    ReadWord(b.kind, name + (value + rest));
    ReadNamed(b, rest);
    BindingFrom(kind + (name + (value + rest)), b.kind, name + (value + rest), b, rest);
  }

  /** The octets read back as the binding, whatever follows. */
  ghost predicate ReadsBack(one: Reader<Binding>, e: Bytes, b: Binding) {
    |e| > 0 && forall more: Bytes :: one(e + more) == Ok(b, more)
  }

  lemma PayloadFrom(one: Reader<Binding>, e: Bytes, b: Binding, more: Bytes, n: nat, bs: seq<Binding>, end: Bytes)
    requires ReadsBack(one, e, b) && ParsePayload(one, more, n) == Ok(bs, end)
    ensures ParsePayload(one, e + more, |e| + n) == Ok([b] + bs, end)
  {
    assert one(e + more) == Ok(b, more);
  }

  lemma {:induction false} ReadAll(one: Reader<Binding>, f: Binding -> Bytes, g: Binding -> nat, bs: seq<Binding>, rest: Bytes)
    requires forall i :: 0 <= i < |bs| ==> ReadsBack(one, f(bs[i]), bs[i]) && |f(bs[i])| == g(bs[i])
    ensures ParsePayload(one, Concat(f, bs) + rest, Sum(g, bs)) == Ok(bs, rest)
  {
    if bs == [] {
      assert [] + rest == rest;
    } else {
      var tail := bs[1..];
      ReadAll(one, f, g, tail, rest);
      ListCons(f, g, bs);
      Assoc(f(bs[0]), Concat(f, tail), rest);
      PayloadFrom(one, f(bs[0]), bs[0], Concat(f, tail) + rest, Sum(g, tail), tail, rest);
      assert [bs[0]] + tail == bs;
    }
  }

  /** The bindings of a response are read back, and use up the payload exactly. */
  lemma ReadBindings(bs: seq<Binding>, rest: Bytes)
    requires forall i :: 0 <= i < |bs| ==> BindingOk(bs[i])
    ensures ParsePayload(ParseBinding, Concat(BindingBytes, bs) + rest, Sum(BindingSize, bs)) == Ok(bs, rest)
  {
    forall i | 0 <= i < |bs| ensures ReadsBack(ParseBinding, BindingBytes(bs[i]), bs[i]) {
      forall more: Bytes ensures ParseBinding(BindingBytes(bs[i]) + more) == Ok(bs[i], more) {
        ReadBinding(bs[i], more);
      }
    }
    ReadAll(ParseBinding, BindingBytes, BindingSize, bs, rest);
  }

  lemma OidAligned(o: Oid)
    ensures OidSize(o) % 4 == 0
  {
    assert |o| > 5 ==> OidSize(o) == 4 * (|o| - 4);
  }

  lemma ValueAligned(v: Value)
    ensures ValueSize(v) % 4 == 0
  {
    if v.Ids? { OidAligned(v.o); }
  }

  lemma BindingAligned(b: Binding)
    ensures BindingSize(b) % 4 == 0
  {
    OidAligned(b.oid);
    ValueAligned(b.value);
    var n, m := OidSize(b.oid) / 4, ValueSize(b.value) / 4;
    assert BindingSize(b) == 4 * (1 + n + m);
  }

  lemma BindingsAligned(bs: seq<Binding>)
    ensures Sum(BindingSize, bs) % 4 == 0
  {
    forall i | 0 <= i < |bs| ensures BindingSize(bs[i]) % 4 == 0 {
      BindingAligned(bs[i]);
    }
    SumAligned(BindingSize, bs);
  }

  /** The size computed for any bindings is that of the octets written. */
  lemma SizesAgree(bs: seq<Binding>)
    ensures |Concat(BindingBytes, bs)| == Sum(BindingSize, bs)
  {
    ConcatSize(BindingBytes, BindingSize, bs);
  }

  // ---------------------------------------------------------------------
  // The response PDU
  // ---------------------------------------------------------------------

  const PDU_RESPONSE: Byte := 18
  const HEADER_SIZE := 20

  /** The header fields that a response takes over, and its error. */
  datatype Response = Response(version: Byte, flags: Byte, session: SubId, transaction: SubId, packet: SubId, error: Short, index: Short)

  function PduSize(bs: seq<Binding>): nat {
    HEADER_SIZE + 8 + Sum(BindingSize, bs)
  }

  /** Neither a context nor the other byte order. */
  predicate PlainFlags(flags: Byte) {
    flags / 8 % 2 == 0 && flags / 16 % 2 == 0
  }

  function ShortBytes(n: Short): (r: Bytes)
    ensures |r| == 2
  {
    [n % 256, n / 256]
  }

  function HeadBytes(h: Response, payload: SubId): (r: Bytes)
    ensures |r| == HEADER_SIZE
  {
    [h.version, PDU_RESPONSE, h.flags, 0] + (Word(h.session) + (Word(h.transaction) + (Word(h.packet) + Word(payload))))
  }

  /** The time field, which stays zero, and the error. */
  function StatusBytes(h: Response): (r: Bytes)
    ensures |r| == 8
  {
    Zeros(4) + (ShortBytes(h.error) + ShortBytes(h.index))
  }

  /** The payload length, in 32 bits. */
  function Payload(bs: seq<Binding>): SubId {
    (8 + Sum(BindingSize, bs)) % TWO32
  }

  lemma PayloadIs(bs: seq<Binding>)
    requires PduSize(bs) < TWO32
    ensures Payload(bs) == 8 + Sum(BindingSize, bs) == PduSize(bs) - HEADER_SIZE
  {
  }

  lemma Multiple4(n: nat)
    requires n % 4 == 0
    ensures (28 + n) % 4 == 0
  {
  }

  /** The PDU takes a multiple of four octets. */
  lemma PduAligned(bs: seq<Binding>)
    ensures PduSize(bs) % 4 == 0
  {
    BindingsAligned(bs);
    Multiple4(Sum(BindingSize, bs));
  }

  /** The PDU sent. */
  function PduBytes(h: Response, bs: seq<Binding>): (r: Bytes)
    ensures |r| == PduSize(bs)
  {
    SizesAgree(bs);
    HeadBytes(h, Payload(bs)) + (StatusBytes(h) + Concat(BindingBytes, bs))
  }

  datatype Pdu = Pdu(head: Response, bindings: seq<Binding>)

  function ParseShort(s: Bytes): Parsed<Short> {
    if |s| < 2 then Malformed else Ok((s[0] as int) + (s[1] as int) * 256, s[2..])
  }

  /** Session, transaction, packet and payload length. */
  function ParseFour(s: Bytes): Parsed<seq<SubId>> {
    ParseWords(s, 4)
  }

  function ParseStatus(s: Bytes): Parsed<(Short, Short)> {
    match ParseWord(s)
    case Ok(_, a) => (match ParseShort(a)
      case Ok(error, b) => (match ParseShort(b)
        case Ok(index, c) => Ok((error, index), c)
        case _ => Malformed)
      case _ => Malformed)
    case _ => Malformed
  }

  /** A response PDU in plain byte order and without a context; other PDUs are not read here. */
  function ParsePdu(one: Reader<Binding>, s: Bytes): Parsed<Pdu> {
    if |s| < 4 || s[1] != 18 || !PlainFlags(s[2]) then Malformed
    else match ParseFour(s[4..])
      case Ok(w, a) => if |w| != 4 then Malformed else (match ParseStatus(a)
        case Ok(e, b) =>
          if w[3] < 8 then Malformed
          else (match ParsePayload(one, b, w[3] - 8)
            case Ok(bs, rest) => Ok(Pdu(Response(s[0], s[2], w[0], w[1], w[2], e.0, e.1), bs), rest)
            case Err(c) => Err(c)
            case Malformed => Malformed)
        case _ => Malformed)
      case _ => Malformed
  }

  lemma ReadShort(n: Short, rest: Bytes)
    ensures ParseShort(ShortBytes(n) + rest) == Ok(n, rest)
  {
    Prefix(ShortBytes(n), rest);
  }

  lemma ReadStatus(h: Response, rest: Bytes)
    ensures ParseStatus(StatusBytes(h) + rest) == Ok((h.error, h.index), rest)
  {
    var a, b := ShortBytes(h.error), ShortBytes(h.index);
    Assoc(Zeros(4), a + b, rest);
    Assoc(a, b, rest);
    assert Word(0) == Zeros(4);
    ReadWord(0, a + (b + rest));
    ReadShort(h.error, b + rest);
    ReadShort(h.index, rest);
  }

  lemma FourWords(a: SubId, b: SubId, c: SubId, d: SubId)
    ensures Words([a, b, c, d]) == Word(a) + (Word(b) + (Word(c) + Word(d)))
  {
    WordsCons([a, b, c, d]);
    assert [a, b, c, d][1..] == [b, c, d];
    WordsCons([b, c, d]);
    assert [b, c, d][1..] == [c, d];
    WordsCons([c, d]);
    assert [c, d][1..] == [d];
    WordsCons([d]);
    assert [d][1..] == [] && Word(d) + [] == Word(d);
  }

  lemma ReadHead(h: Response, payload: SubId, rest: Bytes)
    ensures var s := HeadBytes(h, payload) + rest;
      s[0] == h.version && s[1] == PDU_RESPONSE && s[2] == h.flags && ParseFour(s[4..]) == Ok([h.session, h.transaction, h.packet, payload], rest)
  {
    var w := [h.session, h.transaction, h.packet, payload];
    FourWords(h.session, h.transaction, h.packet, payload);
    var first: Bytes := [h.version, PDU_RESPONSE, h.flags, 0];
    Assoc(first, Words(w), rest);
    Prefix(first, Words(w) + rest);
    ReadWords(w, rest);
  }

  lemma PduFrom(one: Reader<Binding>, s: Bytes, h: Response, payload: SubId, a: Bytes, b: Bytes, bs: seq<Binding>)
    requires |s| >= 4 && s[0] == h.version && s[1] == PDU_RESPONSE && s[2] == h.flags && PlainFlags(h.flags) && payload >= 8
    requires ParseFour(s[4..]) == Ok([h.session, h.transaction, h.packet, payload], a)
    requires ParseStatus(a) == Ok((h.error, h.index), b) && ParsePayload(one, b, payload - 8) == Ok(bs, [])
    ensures ParsePdu(one, s) == Ok(Pdu(h, bs), [])
  {
  }

  lemma ReadPdu(one: Reader<Binding>, h: Response, payload: SubId, list: Bytes, bs: seq<Binding>)
    requires PlainFlags(h.flags) && payload >= 8 && ParsePayload(one, list, payload - 8) == Ok(bs, [])
    ensures ParsePdu(one, HeadBytes(h, payload) + (StatusBytes(h) + list)) == Ok(Pdu(h, bs), [])
  {
    ReadHead(h, payload, StatusBytes(h) + list);
    ReadStatus(h, list);
    PduFrom(one, HeadBytes(h, payload) + (StatusBytes(h) + list), h, payload, StatusBytes(h) + list, list, bs);
  }

  /** A response with plain flags reads back as its header and all its bindings, and nothing is left. */
  lemma PduRoundTrip(h: Response, bs: seq<Binding>)
    requires PlainFlags(h.flags) && PduSize(bs) < TWO32 && forall i :: 0 <= i < |bs| ==> BindingOk(bs[i])
    ensures ParsePdu(ParseBinding, PduBytes(h, bs)) == Ok(Pdu(h, bs), [])
  {
    var list := Concat(BindingBytes, bs);
    ReadBindings(bs, []);
    assert list + [] == list;
    PayloadIs(bs);
    ReadPdu(ParseBinding, h, Payload(bs), list, bs);
  }

  /** The octets that no reader looks at are zero: reserved ones, the time, and padding. */
  lemma ReservedZero(h: Response, bs: seq<Binding>, o: Oid, text: Bytes)
    ensures PduBytes(h, bs)[3] == 0 && PduBytes(h, bs)[20..24] == [0, 0, 0, 0]
    ensures OidBytes(o)[2] == OidBytes(o)[3] == 0
    ensures forall i :: 4 + |text| <= i < |StrBytes(text)| ==> StrBytes(text)[i] == 0
  {
    var head, list := HeadBytes(h, Payload(bs)), Concat(BindingBytes, bs);
    assert PduBytes(h, bs)[20..24] == (StatusBytes(h) + list)[..4];
    assert (StatusBytes(h) + list)[..4] == Zeros(4);
    assert StrBytes(text)[4..] == text + Zeros(Round4(|text|) - |text|);
    forall i | 4 + |text| <= i < |StrBytes(text)| ensures StrBytes(text)[i] == 0 {
      assert StrBytes(text)[i] == StrBytes(text)[4..][i - 4];
    }
  }
}
