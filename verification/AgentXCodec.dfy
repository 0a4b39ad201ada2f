/** The passes of the AgentX agent: sizing and writing a response, and parsing bindings with a moving
    pointer (core/agentx_msg_out.c:366-503, core/agentx_msg_in.c:70-121, 172-197, core/agentx_decoder.c:33-134). */
module AgentXCodec {
  import opened Oids
  import opened Ber
  import opened Chunks
  import opened Parsing
  import opened AgentX

  // ---------------------------------------------------------------------
  // Writing
  // ---------------------------------------------------------------------

  /** What a value adds to the size; identifiers are measured in octets. */
  method SizeValue(b: Binding) returns (len: nat)
    requires WellTyped(b)
    ensures len == ValueSize(b.value)
  {
    match b.kind
    case 0x02 | 0x41 | 0x42 | 0x43 => len := 4;
    case 0x46 => len := 8;
    case 0x04 | 0x40 => len := 4 + (|b.value.s| + 3) / 4 * 4;
    case 0x06 =>
      var valLen := 4 * |b.value.o|;
      if valLen > 5 * 4 {
        len := 4 + valLen - 5 * 4;
      } else {
        len := 4;
      }
    case _ => len := 0;
  }

  method SizeBinding(b: Binding) returns (len: nat)
    requires WellTyped(b)
    ensures len == BindingSize(b)
  {
    if |b.oid| > 5 {
      len := 4 + 4 + (|b.oid| - 5) * 4;
    } else {
      len := 4 + 4;
    }
    var more := SizeValue(b);
    len := len + more;
  }

  /** The sizing pass. */
  method SizePdu(bs: seq<Binding>) returns (len: nat)
    requires forall i :: 0 <= i < |bs| ==> WellTyped(bs[i])
    ensures len == PduSize(bs)
  {
    len := HEADER_SIZE + 4 + 2 * 2;
    for i := 0 to |bs|
      invariant len == HEADER_SIZE + 8 + Sum(BindingSize, bs[..i])
    {
      var more := SizeBinding(bs[i]);
      len := len + more;
      Next(BindingBytes, BindingSize, bs, i);
    }
    assert bs[..|bs|] == bs;
  }

  /** The sub-identifiers from the sixth on. */
  method PutSubs(buf: Bytes, o: Oid) returns (r: Bytes)
    ensures r == buf + if |o| > 5 then Words(o[5..]) else []
  {
    r := buf;
    var i := 5;
    while i < |o|
      invariant 5 <= i && (i <= |o| || |o| <= 5) && r == buf + if |o| > 5 then Words(o[5..i]) else []
    {
      assert o[5..i + 1][..i - 5] == o[5..i];
      Assoc(buf, Words(o[5..i]), Word(o[i]));
      r := r + Word(o[i]);
      i := i + 1;
    }
    assert |o| > 5 ==> o[5..i] == o[5..];
  }

  method PutOid(buf: Bytes, o: Oid) returns (r: Bytes)
    ensures r == buf + OidBytes(o)
  {
    var n: Byte := if |o| > 5 then (|o| - 5) % 256 else 0;
    var prefix: Byte := if |o| > 4 then o[4] % 256 else 0;
    r := PutSubs(buf + [n, prefix, 0, 0], o);
    Assoc(buf, [n, prefix, 0, 0], if |o| > 5 then Words(o[5..]) else []);
  }

  method PutValue(buf: Bytes, b: Binding) returns (r: Bytes)
    requires WellTyped(b)
    ensures r == buf + ValueBytes(b.value)
  {
    match b.kind
    case 0x02 | 0x41 | 0x42 | 0x43 => r := buf + Word(b.value.v);
    case 0x46 =>
      r := buf + Word(b.value.low) + Word(b.value.high);
      Assoc(buf, Word(b.value.low), Word(b.value.high));
    case 0x04 | 0x40 =>
      var s := b.value.s;
      r := buf + Word(|s| % TWO32) + (s + Zeros((|s| + 3) / 4 * 4 - |s|));
      Assoc(buf, Word(|s| % TWO32), s + Zeros(Round4(|s|) - |s|));
    case 0x06 => r := PutOid(buf, b.value.o);
    case _ =>
      r := buf;
      assert buf + [] == buf;
  }

  method PutBinding(buf: Bytes, b: Binding) returns (r: Bytes)
    requires WellTyped(b)
    ensures r == buf + BindingBytes(b)
  {
    r := PutOid(buf + Word(b.kind), b.oid);
    r := PutValue(r, b);
    Assoc(buf, Word(b.kind), OidBytes(b.oid));
    Assoc(buf, Word(b.kind) + OidBytes(b.oid), ValueBytes(b.value));
  }

  /** The writing pass over the bindings. */
  method PutBindings(buf: Bytes, bs: seq<Binding>) returns (r: Bytes)
    requires forall i :: 0 <= i < |bs| ==> WellTyped(bs[i])
    ensures r == buf + Concat(BindingBytes, bs)
  {
    r := buf;
    assert buf + [] == buf;
    for i := 0 to |bs|
      invariant r == buf + Concat(BindingBytes, bs[..i])
    {
      r := PutBinding(r, bs[i]);
      Next(BindingBytes, BindingSize, bs, i);
      Assoc(buf, Concat(BindingBytes, bs[..i]), BindingBytes(bs[i]));
    }
    assert bs[..|bs|] == bs;
  }

  /** `agentx_response_pdu`: the writing pass fills the buffer that the sizing pass measured. */
  method ResponsePdu(h: Response, bs: seq<Binding>) returns (pdu: Bytes, len: nat)
    requires (forall i :: 0 <= i < |bs| ==> WellTyped(bs[i])) && PduSize(bs) < TWO32
    ensures pdu == PduBytes(h, bs) && len == |pdu| && len % 4 == 0
    ensures PlainFlags(h.flags) && (forall i :: 0 <= i < |bs| ==> BindingOk(bs[i])) ==>
      ParsePdu(ParseBinding, pdu) == Ok(Pdu(h, bs), [])
  {
    len := SizePdu(bs);
    PayloadIs(bs);
    var payload: SubId := len - HEADER_SIZE;
    var front := PutHead(h, payload);
    pdu := PutBindings(front, bs);
    Assembled(h, bs, payload, front);
    PduAligned(bs);
    if PlainFlags(h.flags) && forall i :: 0 <= i < |bs| ==> BindingOk(bs[i]) { PduRoundTrip(h, bs); }
  }

  method PutHead(h: Response, payload: SubId) returns (r: Bytes)
    ensures r == HeadBytes(h, payload) + StatusBytes(h)
  {
    var first: Bytes := [h.version, PDU_RESPONSE, h.flags, 0];
    r := first + Word(h.session) + Word(h.transaction) + Word(h.packet) + Word(payload);
    Five(first, Word(h.session), Word(h.transaction), Word(h.packet), Word(payload));
    ghost var head := r;
    r := r + Zeros(4) + ShortBytes(h.error) + ShortBytes(h.index);
    Assoc(head + Zeros(4), ShortBytes(h.error), ShortBytes(h.index));
    Assoc(head, Zeros(4), ShortBytes(h.error) + ShortBytes(h.index));
  }

  lemma Five(a: Bytes, b: Bytes, c: Bytes, d: Bytes, e: Bytes)
    ensures a + b + c + d + e == a + (b + (c + (d + e)))
  {
    Assoc(a + b + c, d, e);
    Assoc(a + b, c, d + e);
    Assoc(a, b, c + (d + e));
  }

  lemma Assembled(h: Response, bs: seq<Binding>, payload: SubId, front: Bytes)
    requires payload == Payload(bs) && front == HeadBytes(h, payload) + StatusBytes(h)
    ensures front + Concat(BindingBytes, bs) == PduBytes(h, bs)
  {
    Assoc(HeadBytes(h, payload), StatusBytes(h), Concat(BindingBytes, bs));
  }

  // ---------------------------------------------------------------------
  // Parsing
  // ---------------------------------------------------------------------

  /** The pointer stands where the rest begins. */
  ghost predicate At(buf: Bytes, next: nat, rest: Bytes) {
    next <= |buf| && rest == buf[next..]
  }

  method WordAt(buf: Bytes, pos: nat) returns (r: Parsed<SubId>)
    requires pos <= |buf|
    ensures r == ParseWord(buf[pos..]) && (r.Ok? ==> At(buf, pos + 4, r.rest))
  {
    if |buf| - pos < 4 {
      return Malformed;
    }
    assert buf[pos..][..4] == buf[pos..pos + 4] && buf[pos..][4..] == buf[pos + 4..];
    r := Ok(LittleEndian(buf[pos..pos + 4]) % TWO32, buf[pos + 4..]);
  }

  /** Sub-identifiers read before the rest. */
  function Prepended(acc: Oid, p: Parsed<Oid>): Parsed<Oid> {
    if p.Ok? then Ok(acc + p.value, p.rest) else Malformed
  }

  /** The loop over the sub-identifiers. */
  method WordsAt(buf: Bytes, pos: nat, n: nat) returns (r: Parsed<Oid>, next: nat)
    requires pos <= |buf|
    ensures r == Prepended([], ParseWords(buf[pos..], n)) && (r.Ok? ==> At(buf, next, r.rest))
  {
    var i, subs := 0, [];
    next := pos;
    while i < n
      invariant 0 <= i <= n && pos <= next <= |buf|
      invariant Prepended([], ParseWords(buf[pos..], n)) == Prepended(subs, ParseWords(buf[next..], n - i))
    {
      var w := WordAt(buf, next);
      if !w.Ok? {
        return Malformed, pos;
      }
      Moved(subs, w.value, ParseWords(buf[next + 4..], n - i - 1));
      subs := subs + [w.value];
      next := next + 4;
      i := i + 1;
    }
    assert subs + [] == subs;
    r := Ok(subs, buf[next..]);
  }

  lemma Moved(acc: Oid, v: SubId, p: Parsed<Oid>)
    ensures p.Ok? ==> Prepended(acc, Ok([v] + p.value, p.rest)) == Prepended(acc + [v], p)
  {
    assert p.Ok? ==> acc + ([v] + p.value) == acc + [v] + p.value;
  }

  lemma {:induction false} NoError(s: Bytes, n: nat)
    ensures Prepended([], ParseWords(s, n)) == ParseWords(s, n)
  {
    var p := ParseWords(s, n);
    assert p.Ok? ==> [] + p.value == p.value;
    if n > 0 && ParseWord(s).Ok? {
      NoError(s[4..], n - 1);
    }
  }

  method OidAt(buf: Bytes, pos: nat) returns (r: Parsed<Oid>, next: nat)
    requires pos <= |buf|
    ensures r == ParseOid(buf[pos..]) && (r.Ok? ==> At(buf, next, r.rest))
  {
    next := pos;
    if |buf| - pos < 4 {
      return Malformed, pos;
    }
    var n, prefix := buf[pos], buf[pos + 1];
    assert buf[pos..][4..] == buf[pos + 4..];
    if n == 0 && prefix == 0 {
      return Ok([], buf[pos + 4..]), pos + 4;
    }
    var subs;
    subs, next := WordsAt(buf, pos + 4, n);
    NoError(buf[pos + 4..], n);
    if !subs.Ok? {
      return Malformed, pos;
    }
    r := Ok([1, 3, 6, 1, prefix] + subs.value, subs.rest);
  }

  method RoomAt(buf: Bytes, pos: nat) returns (room: nat)
    requires pos <= |buf|
    ensures room == OidRoom(buf[pos..])
  {
    if |buf| - pos < 2 || (buf[pos] == 0 && buf[pos + 1] == 0) {
      return 0;
    }
    room := ((buf[pos] as int) + 5) * 4;
  }

  method StrAt(buf: Bytes, pos: nat) returns (r: Parsed<Value>, next: nat)
    requires pos <= |buf|
    ensures r == ParseStr(buf[pos..]) && (r.Ok? ==> At(buf, next, r.rest))
  {
    var n := WordAt(buf, pos);
    next := pos;
    if !n.Ok? {
      return Malformed, pos;
    }
    if n.value > VALUE_LEN_MAX {
      return Err(ERR_VALUE_LEN), pos;
    }
    var text := pos + 4;
    var padded := (n.value + 3) / 4 * 4;
    if padded > |buf| - text {
      return Malformed, pos;
    }
    next := text + padded;
    assert buf[text..][..n.value] == buf[text..text + n.value] && buf[text..][padded..] == buf[next..];
    r := Ok(Str(buf[text..text + n.value]), buf[next..]);
  }

  method IdsAt(buf: Bytes, pos: nat) returns (r: Parsed<Value>, next: nat)
    requires pos <= |buf|
    ensures r == ParseIds(buf[pos..]) && (r.Ok? ==> At(buf, next, r.rest))
  {
    var room := RoomAt(buf, pos);
    next := pos;
    if room > VALUE_LEN_MAX {
      return Err(ERR_VALUE_LEN), pos;
    }
    var o;
    o, next := OidAt(buf, pos);
    if !o.Ok? {
      return Malformed, pos;
    }
    r := Ok(Ids(o.value), o.rest);
  }

  method BigAt(buf: Bytes, pos: nat) returns (r: Parsed<Value>, next: nat)
    requires pos <= |buf|
    ensures r == ParseBig(buf[pos..]) && (r.Ok? ==> At(buf, next, r.rest))
  {
    next := pos;
    var low := WordAt(buf, pos);
    if !low.Ok? {
      return Malformed, pos;
    }
    var high := WordAt(buf, pos + 4);
    if !high.Ok? {
      return Malformed, pos;
    }
    next := pos + 8;
    r := Ok(Big(low.value, high.value), high.rest);
  }

  /** `agentx_value_dec`. */
  method ValueAt(buf: Bytes, pos: nat, kind: Short) returns (r: Parsed<Value>, next: nat)
    requires pos <= |buf|
    ensures r == ParseValue(kind, buf[pos..]) && (r.Ok? ==> At(buf, next, r.rest))
  {
    next := pos;
    match kind % 256
    case 0x02 | 0x41 | 0x42 | 0x43 =>
      var v := WordAt(buf, pos);
      if !v.Ok? {
        return Malformed, pos;
      }
      r, next := Ok(Int(v.value), v.rest), pos + 4;
    case 0x46 => r, next := BigAt(buf, pos);
    case 0x04 | 0x40 => r, next := StrAt(buf, pos);
    case 0x06 => r, next := IdsAt(buf, pos);
    case _ => r := Ok(Nothing, buf[pos..]);
  }

  method NamedAt(buf: Bytes, pos: nat, kind: Short) returns (r: Parsed<Binding>, next: nat)
    requires pos <= |buf|
    ensures r == ParseNamed(kind, buf[pos..]) && (r.Ok? ==> At(buf, next, r.rest))
  {
    var room := RoomAt(buf, pos);
    next := pos;
    if room / 4 > OID_LEN_MAX {
      return Err(ERR_OID_LEN), pos;
    }
    var o, mid := OidAt(buf, pos);
    if !o.Ok? {
      return Malformed, pos;
    }
    var v;
    v, next := ValueAt(buf, mid, kind);
    if !v.Ok? {
      return if v.Err? then Err(v.code) else Malformed, pos;
    }
    r := Ok(Binding(o.value, kind, v.value), v.rest);
  }

  /** `var_bind_alloc`. */
  method VarBindAlloc(buf: Bytes, pos: nat) returns (r: Parsed<Binding>, next: nat)
    requires pos <= |buf|
    ensures r == ParseBinding(buf[pos..]) && (r.Ok? ==> At(buf, next, r.rest))
  {
    next := pos;
    var w := WordAt(buf, pos);
    if !w.Ok? {
      return Malformed, pos;
    }
    r, next := NamedAt(buf, pos + 4, w.value % 65536);
  }

  ghost predicate Look(s: Bytes) {
    true
  }

  /** `one` is the decoder above, wherever the proof looks. */
  ghost predicate IsReader(one: Reader<Binding>) {
    forall s: Bytes {:trigger Look(s)} :: Look(s) ==> one(s) == ParseBinding(s)
  }

  method BindingBy(ghost one: Reader<Binding>, buf: Bytes, pos: nat) returns (r: Parsed<Binding>, next: nat)
    requires IsReader(one) && pos <= |buf|
    ensures r == one(buf[pos..]) && (r.Ok? ==> At(buf, next, r.rest))
  {
    assert Look(buf[pos..]);
    r, next := VarBindAlloc(buf, pos);
  }

  /** Bindings read before the rest. */
  function Gathered(acc: seq<Binding>, p: Parsed<seq<Binding>>): Parsed<seq<Binding>> {
    match p
    case Ok(bs, rest) => Ok(acc + bs, rest)
    case Err(c) => Err(c)
    case Malformed => Malformed
  }

  lemma Turn(one: Reader<Binding>, acc: seq<Binding>, s: Bytes, payload: nat)
    requires payload > 0
    ensures one(s).Err? ==> Gathered(acc, ParsePayload(one, s, payload)) == Err(one(s).code)
    ensures one(s).Malformed? ==> Gathered(acc, ParsePayload(one, s, payload)) == Malformed
    ensures one(s).Ok? && (|one(s).rest| >= |s| || |s| - |one(s).rest| > payload) ==> Gathered(acc, ParsePayload(one, s, payload)) == Malformed
    ensures one(s).Ok? && |one(s).rest| < |s| && |s| - |one(s).rest| <= payload ==>
      Gathered(acc, ParsePayload(one, s, payload))
      == Gathered(acc + [one(s).value], ParsePayload(one, one(s).rest, payload - (|s| - |one(s).rest|)))
  {
    if one(s).Ok? && |one(s).rest| < |s| && |s| - |one(s).rest| <= payload {
      var p := ParsePayload(one, one(s).rest, payload - (|s| - |one(s).rest|));
      assert p.Ok? ==> acc + ([one(s).value] + p.value) == acc + [one(s).value] + p.value;
    }
  }

  lemma Started(p: Parsed<seq<Binding>>)
    ensures Gathered([], p) == p
  {
    assert p.Ok? ==> [] + p.value == p.value;
  }

  lemma Finished(acc: seq<Binding>, rest: Bytes)
    ensures Gathered(acc, Ok([], rest)) == Ok(acc, rest)
  {
    assert acc + [] == acc;
  }

  /** `var_bind_parse`: bindings until the payload is used up. */
  method VarBindParse(ghost one: Reader<Binding>, buf: Bytes, pos: nat, payload: nat) returns (r: Parsed<seq<Binding>>)
    requires IsReader(one) && pos <= |buf|
    ensures r == ParsePayload(one, buf[pos..], payload)
  {
    var cur: nat, left: nat, bs := pos, payload, [];
    ghost var whole := ParsePayload(one, buf[pos..], payload);
    Started(whole);
    while left > 0
      invariant cur <= |buf| && whole == Gathered(bs, ParsePayload(one, buf[cur..], left))
      decreases left
    {
      Turn(one, bs, buf[cur..], left);
      var b, next := BindingBy(one, buf, cur);
      if !b.Ok? {
        return if b.Err? then Err(b.code) else Malformed;
      }
      if next <= cur || next - cur > left {
        return Malformed;
      }
      bs, left, cur := bs + [b.value], left - (next - cur), next;
    }
    Finished(bs, buf[cur..]);
    r := Ok(bs, buf[cur..]);
  }

  method ShortAt(buf: Bytes, pos: nat) returns (r: Parsed<Short>)
    requires pos <= |buf|
    ensures r == ParseShort(buf[pos..]) && (r.Ok? ==> At(buf, pos + 2, r.rest))
  {
    if |buf| - pos < 2 {
      return Malformed;
    }
    assert buf[pos..][2..] == buf[pos + 2..];
    r := Ok((buf[pos] as int) + (buf[pos + 1] as int) * 256, buf[pos + 2..]);
  }

  method StatusAt(buf: Bytes, pos: nat) returns (r: Parsed<(Short, Short)>)
    requires pos <= |buf|
    ensures r == ParseStatus(buf[pos..]) && (r.Ok? ==> At(buf, pos + 8, r.rest))
  {
    var time := WordAt(buf, pos);
    if !time.Ok? {
      return Malformed;
    }
    var error := ShortAt(buf, pos + 4);
    if !error.Ok? {
      return Malformed;
    }
    var index := ShortAt(buf, pos + 6);
    if !index.Ok? {
      return Malformed;
    }
    r := Ok((error.value, index.value), index.rest);
  }

  /** `pdu_hdr_parse` and the bindings, for a response in plain byte order and without a context. */
  method Decode(ghost one: Reader<Binding>, buf: Bytes) returns (r: Parsed<Pdu>)
    requires IsReader(one)
    ensures r == ParsePdu(one, buf)
  {
    if |buf| < 4 || buf[1] != PDU_RESPONSE || !PlainFlags(buf[2]) {
      return Malformed;
    }
    var w, a := WordsAt(buf, 4, 4);
    NoError(buf[4..], 4);
    if !w.Ok? {
      return Malformed;
    }
    if |w.value| != 4 {
      return Malformed;
    }
    var e := StatusAt(buf, a);
    if !e.Ok? {
      return Malformed;
    }
    if w.value[3] < 8 {
      return Malformed;
    }
    var bs := VarBindParse(one, buf, a + 8, w.value[3] - 8);
    if !bs.Ok? {
      return if bs.Err? then Err(bs.code) else Malformed;
    }
    r := Ok(Pdu(Response(buf[0], buf[2], w.value[0], w.value[1], w.value[2], e.value.0, e.value.1), bs.value), bs.rest);
  }
}
