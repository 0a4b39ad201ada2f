/** The decoder as it runs: a cursor that advances over the received buffer
    (core/snmp_msg_in.c:93-234, 442-574, 622-656). */
module Decode {
  import opened Oids
  import opened Ber
  import opened BerOid
  import opened Framing
  import opened Parsing
  import opened Elements
  import opened SecureHeader
  import opened Receive
  import opened DecodeElements
  import opened DecodeSecure

  method ValueAt(buf: Bytes, pos: nat) returns (r: Parsed<Value>, next: nat)
    requires pos <= |buf|
    ensures r == ParseValue(buf[pos..]) && (r.Ok? ==> At(buf, next, r.rest))
  {
    next := pos;
    if pos == |buf| {
      return Malformed, pos;
    }
    assert buf[pos..][1..] == buf[pos + 1..];
    var len, body := LengthAt(buf, pos + 1);
    if !len.Ok? {
      return Malformed, pos;
    }
    if len.value > VALUE_MAX_LEN {
      return Err(ERR_VB_VALUE_LEN), pos;
    }
    if len.value > |buf| - body {
      return Malformed, pos;
    }
    next := body + len.value;
    assert buf[body..][..len.value] == buf[body..next] && buf[body..][len.value..] == buf[next..];
    r := Ok(Value(buf[pos], buf[body..next]), buf[next..]);
  }

  /** `var_bind_alloc`: the identifier is measured before it is decoded. */
  method VarBindAlloc(buf: Bytes, pos: nat) returns (r: Parsed<VarBind>)
    requires pos <= |buf|
    ensures r == ParseBinding(buf[pos..])
  {
    var b, mid := ElementAt(buf, pos, TAG_OBJID, ERR_VB_OID_TYPE);
    if b.Err? {
      return Err(b.code);
    }
    if b.Malformed? {
      return Malformed;
    }
    var n := 0;
    if |b.value| > 0 {
      n := OidDecTry(b.value);
    }
    if n > OID_MAX_LEN {
      return Err(ERR_VB_OID_LEN);
    }
    var v, _ := ValueAt(buf, mid);
    if v.Err? {
      return Err(v.code);
    }
    if v.Malformed? {
      return Malformed;
    }
    var oid := [];
    if |b.value| > 0 {
      oid := OidDec(b.value);
    }
    r := Ok(VarBind(oid, v.value.kind, v.value.octets), v.rest);
  }

  /** `pdu_hdr_parse`. */
  method PduHdrParse(buf: Bytes, pos: nat) returns (r: Parsed<PduHeader>, next: nat)
    requires pos <= |buf|
    ensures r == ParsePduHeader(buf[pos..]) && (r.Ok? ==> At(buf, next, r.rest))
  {
    next := pos;
    if pos == |buf| {
      return Malformed, pos;
    }
    assert buf[pos..][1..] == buf[pos + 1..];
    var len;
    len, next := LengthAt(buf, pos + 1);
    if !len.Ok? {
      return Malformed, pos;
    }
    var ints;
    ints, next := ThreeInts(buf, next, buf[pos]);
    r := ints;
  }

  method ThreeInts(buf: Bytes, pos: nat, pduType: Byte) returns (r: Parsed<PduHeader>, next: nat)
    requires pos <= |buf|
    ensures r == ParseThree(buf[pos..], pduType) && (r.Ok? ==> At(buf, next, r.rest))
  {
    next := pos;
    var reqId, p := IntAt(buf, pos, ERR_PDU_REQID);
    if !reqId.Ok? {
      return if reqId.Err? then Err(reqId.code) else Malformed, pos;
    }
    var errStat, q := IntAt(buf, p, ERR_PDU_ERRSTAT);
    if !errStat.Ok? {
      return if errStat.Err? then Err(errStat.code) else Malformed, pos;
    }
    var errIdx;
    errIdx, next := IntAt(buf, q, ERR_PDU_ERRIDX);
    if !errIdx.Ok? {
      return if errIdx.Err? then Err(errIdx.code) else Malformed, pos;
    }
    r := Ok(PduHeader(pduType, reqId.value, errStat.value, errIdx.value), errIdx.rest);
  }

  /** Bindings read before the rest. */
  function Prepended(acc: seq<VarBind>, p: Parsed<seq<VarBind>>): Parsed<seq<VarBind>> {
    match p
    case Ok(vbs, rest) => Ok(acc + vbs, rest)
    case Err(c) => Err(c)
    case Malformed => Malformed
  }

  lemma Finished(acc: seq<VarBind>, rest: Bytes)
    ensures Prepended(acc, Ok([], rest)) == Ok(acc, rest)
  {
    assert acc + [] == acc;
  }

  lemma Unprepended(p: Parsed<seq<VarBind>>)
    ensures Prepended([], p) == p
  {
    assert p.Ok? ==> [] + p.value == p.value;
  }

  /** One turn of the loop over the bindings, on what is left of the list. */
  lemma Turn(length: Reader<nat>, one: Reader<VarBind>, acc: seq<VarBind>, s: Bytes, n: nat, len: nat, body: Bytes)
    requires n > 0 && s != [] && s[0] == TAG_SEQ && length(s[1..]) == Ok(len, body) && |body| < |s|
    ensures !one(body).Ok? ==> Prepended(acc, ParseBindings(length, one, s, n)) == if one(body).Err? then Err(one(body).code) else Malformed
    ensures one(body).Ok? && (len > |body| || |s| - |body| + len > n) ==> Prepended(acc, ParseBindings(length, one, s, n)) == Malformed
    ensures one(body).Ok? && len <= |body| && |s| - |body| + len <= n ==>
      Prepended(acc, ParseBindings(length, one, s, n))
      == Prepended(acc + [one(body).value], ParseBindings(length, one, body[len..], n - (|s| - |body| + len)))
  {
    if one(body).Ok? && len <= |body| && |s| - |body| + len <= n {
      var p := ParseBindings(length, one, body[len..], n - (|s| - |body| + len));
      assert p.Ok? ==> acc + ([one(body).value] + p.value) == acc + [one(body).value] + p.value;
    }
  }

  ghost predicate Look(s: Bytes) {
    true
  }

  /** `length` and `one` are the decoders above, wherever the proof looks. */
  ghost predicate Readers(length: Reader<nat>, one: Reader<VarBind>) {
    forall s: Bytes {:trigger Look(s)} :: Look(s) ==> length(s) == ParseLength(s) && one(s) == ParseBinding(s)
  }

  method LengthBy(ghost length: Reader<nat>, ghost one: Reader<VarBind>, buf: Bytes, pos: nat) returns (r: Parsed<nat>, next: nat)
    requires Readers(length, one) && pos <= |buf|
    ensures r == length(buf[pos..]) && (r.Ok? ==> pos < next && At(buf, next, r.rest))
  {
    assert Look(buf[pos..]);
    r, next := LengthAt(buf, pos);
  }

  method BindingBy(ghost length: Reader<nat>, ghost one: Reader<VarBind>, buf: Bytes, pos: nat) returns (r: Parsed<VarBind>)
    requires Readers(length, one) && pos <= |buf|
    ensures r == one(buf[pos..])
  {
    assert Look(buf[pos..]);
    r := VarBindAlloc(buf, pos);
  }

  /** One turn of the loop: the binding and where the next one starts, or how the loop ends. */
  method BindingAt(ghost length: Reader<nat>, ghost one: Reader<VarBind>, buf: Bytes, cur: nat, n: nat, ghost acc: seq<VarBind>)
    returns (r: Parsed<VarBind>, next: nat)
    requires Readers(length, one) && cur <= |buf| && n > 0
    ensures !r.Ok? ==> Prepended(acc, ParseBindings(length, one, buf[cur..], n)) == if r.Err? then Err(r.code) else Malformed
    ensures r.Ok? ==> cur < next <= |buf| && next - cur <= n
    ensures r.Ok? ==>
      Prepended(acc, ParseBindings(length, one, buf[cur..], n))
      == Prepended(acc + [r.value], ParseBindings(length, one, buf[next..], n - (next - cur)))
  {
    next := cur;
    if cur == |buf| {
      return Malformed, cur;
    }
    if buf[cur] != TAG_SEQ {
      return Err(ERR_VB_SEQ), cur;
    }
    assert buf[cur..][1..] == buf[cur + 1..];
    var len, body := LengthBy(length, one, buf, cur + 1);
    if !len.Ok? {
      return Malformed, cur;
    }
    Turn(length, one, acc, buf[cur..], n, len.value, buf[body..]);
    var vb := BindingBy(length, one, buf, body);
    if !vb.Ok? {
      return if vb.Err? then Err(vb.code) else Malformed, cur;
    }
    if len.value > |buf| - body || body - cur + len.value > n {
      return Malformed, cur;
    }
    next := body + len.value;
    assert buf[body..][len.value..] == buf[next..];
    r := vb;
  }

  /** The loop of `var_bind_parse`. */
  method Bindings(ghost length: Reader<nat>, ghost one: Reader<VarBind>, buf: Bytes, pos: nat, listLen: nat) returns (r: Parsed<seq<VarBind>>)
    requires Readers(length, one) && pos <= |buf|
    ensures r == ParseBindings(length, one, buf[pos..], listLen)
  {
    var cur: nat, n: nat, vbs := pos, listLen, [];
    ghost var whole := ParseBindings(length, one, buf[pos..], listLen);
    Unprepended(whole);
    while n > 0
      invariant cur <= |buf| && whole == Prepended(vbs, ParseBindings(length, one, buf[cur..], n))
      decreases n
    {
      var vb, next := BindingAt(length, one, buf, cur, n, vbs);
      if !vb.Ok? {
        return if vb.Err? then Err(vb.code) else Malformed;
      }
      vbs, n, cur := vbs + [vb.value], n - (next - cur), next;
    }
    Finished(vbs, buf[cur..]);
    r := Ok(vbs, buf[cur..]);
  }

  /** `var_bind_parse`. */
  method VarBindParse(buf: Bytes, pos: nat) returns (r: Parsed<seq<VarBind>>)
    requires pos <= |buf|
    ensures r == ParseList(buf[pos..])
  {
    if pos == |buf| {
      return Malformed;
    }
    if buf[pos] != TAG_SEQ {
      return Err(ERR_VB_LIST_SEQ);
    }
    assert buf[pos..][1..] == buf[pos + 1..];
    var n, next := LengthAt(buf, pos + 1);
    if !n.Ok? {
      return Malformed;
    }
    r := Bindings(ParseLength, ParseBinding, buf, next, n.value);
  }

  /** `snmp_decode`, from the context name on. */
  method Body(version: Field, sender: Option<Sender>, buf: Bytes, pos: nat) returns (r: Parsed<Received>)
    requires pos <= |buf|
    ensures r == ParseBody(version, sender, buf[pos..])
  {
    var name, b := TextAt(buf, pos, ERR_CONTEXT_NAME, UpTo(CONTEXT_NAME_MAX), ERR_CONTEXT_NAME_LEN);
    if !name.Ok? {
      return if name.Err? then Err(name.code) else Malformed;
    }
    var h, c := PduHdrParse(buf, b);
    if !h.Ok? {
      return if h.Err? then Err(h.code) else Malformed;
    }
    var vbs := VarBindParse(buf, c);
    if !vbs.Ok? {
      return if vbs.Err? then Err(vbs.code) else Malformed;
    }
    r := Ok(Received(version, sender, name.value, h.value.pduType, h.value.reqId, h.value.errStat, h.value.errIdx, vbs.value), vbs.rest);
  }

  /** The part of `snmp_decode` that only version 3 has. */
  method Secured(version: Field, buf: Bytes, pos: nat) returns (r: Parsed<Received>)
    requires pos <= |buf|
    ensures r == ParseSecured(version, buf[pos..])
  {
    var h, b := HeadAt(buf, pos);
    if !h.Ok? {
      return if h.Err? then Err(h.code) else Malformed;
    }
    if MayBeEnciphered(h.value.security.flags) {
      return Ok(Enciphered(version, h.value), h.rest);
    }
    var id, c := ScopeAt(buf, b);
    if !id.Ok? {
      return if id.Err? then Err(id.code) else Malformed;
    }
    r := Body(version, Some(Sender(h.value, id.value)), buf, c);
  }

  /** `snmp_decode`, from the version on. */
  method Data(ghost data: Reader<Received>, buf: Bytes, pos: nat) returns (r: Parsed<Received>)
    requires pos <= |buf| && forall s: Bytes {:trigger Look(s)} :: Look(s) ==> data(s) == ParseData(s)
    ensures r == data(buf[pos..])
  {
    assert Look(buf[pos..]);
    var version, a := IntAt(buf, pos, ERR_VERSION);
    if !version.Ok? {
      return if version.Err? then Err(version.code) else Malformed;
    }
    if version.value.value >= 3 {
      r := Secured(version.value, buf, a);
    } else {
      r := Body(version.value, None, buf, a);
    }
  }

  /** `snmp_recv`: the outermost tag and length are checked first. */
  method Outer(ghost data: Reader<Received>, buf: Bytes) returns (r: Parsed<Received>)
    requires forall s: Bytes {:trigger Look(s)} :: Look(s) ==> data(s) == ParseData(s)
    ensures r == ParseOuter(buf, data)
  {
    if buf == [] {
      return Malformed;
    }
    if buf[0] != TAG_SEQ {
      return Err(ERR_PDU_TYPE);
    }
    var len, next := LengthAt(buf, 1);
    if !len.Ok? {
      return Malformed;
    }
    if (next + len.value) % TWO32 != |buf| {
      return Err(ERR_PDU_LEN);
    }
    r := Data(data, buf, next);
  }

  /** A received datagram is decoded to what its octets say. */
  method Recv(buf: Bytes) returns (r: Parsed<Received>)
    ensures r == Parse(buf)
  {
    r := Outer(ParseData, buf);
  }
}
