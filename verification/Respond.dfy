/** Writing a response: a pass that computes the lengths, and a pass that writes the octets
    (core/snmp_msg_out.c:36-284, 367-389; core/snmp_msg_proc.c:122-133). */
module Respond {
  import opened Oids
  import opened Ber
  import opened BerOid
  import opened Chunks
  import opened Framing
  import R = Receive
  import P = Parsing

  // ---------------------------------------------------------------------
  // Sizes
  // ---------------------------------------------------------------------

  method SizeOf(n: nat) returns (size: nat)
    requires n < TWO32
    ensures size == Size(n)
  {
    var lenLen := LengthEncTry(n);
    size := 1 + lenLen + n;
  }

  method GlobalEncodeTry(s: Security) returns (len: nat)
    requires GlobalLen(s) < TWO32
    ensures len == GlobalLen(s) && |GlobalBody(s)| == len + GlobalExcess(s)
  {
    SecurityCount(s);
    len := SizeOf(s.msgId.len);
    var more := SizeOf(s.maxSize.len);
    len := len + more;
    more := SizeOf(|s.flags|);
    len := len + more;
    more := SizeOf(s.model.len);
    len := len + more;
  }

  method SecurityEncodeTry(s: Security) returns (len: nat)
    requires SecurityLen(s) < TWO32
    ensures len == SecurityLen(s) && |SecurityBody(s)| == len + SecurityExcess(s)
  {
    SecurityCount(s);
    len := SizeOf(|ENGINE_ID|);
    var more := SizeOf(s.boots.len);
    len := len + more;
    more := SizeOf(s.time.len);
    len := len + more;
    more := SizeOf(|s.user|);
    len := len + more;
    more := SizeOf(|s.auth|);
    len := len + more;
    more := SizeOf(|s.priv|);
    len := len + more;
  }

  // ---------------------------------------------------------------------
  // Octets, appended at the cursor
  // ---------------------------------------------------------------------

  method PutHeader(buf: Bytes, tag: Byte, n: nat) returns (r: Bytes)
    requires n < TWO32
    ensures r == buf + Header(tag, n)
  {
    var len := LengthEnc(n);
    r := buf + [tag] + len;
  }

  method PutInt(buf: Bytes, f: Field) returns (r: Bytes)
    requires f.len < TWO32
    ensures r == buf + IntElement(f)
  {
    var value := IntEnc(f.value);
    r := PutHeader(buf, TAG_INT, f.len);
    r := r + value;
    Assoc(buf, Header(TAG_INT, f.len), value);
  }

  method PutStr(buf: Bytes, s: Bytes) returns (r: Bytes)
    requires |s| < TWO32
    ensures r == buf + StrElement(s)
  {
    r := PutHeader(buf, TAG_OCTSTR, |s|);
    r := r + s;
    Assoc(buf, Header(TAG_OCTSTR, |s|), s);
  }

  lemma Three(p: Bytes, a: Bytes, b: Bytes, c: Bytes)
    ensures p + a + b + c == p + (a + (b + c))
  {
  }

  lemma Four(p: Bytes, a: Bytes, b: Bytes, c: Bytes, d: Bytes)
    ensures p + a + b + c + d == p + (a + (b + (c + d)))
  {
    Three(p, a, b, c);
  }

  method GlobalEncode(buf: Bytes, s: Security) returns (r: Bytes)
    requires GlobalLen(s) < TWO32
    ensures r == buf + Header(TAG_SEQ, GlobalLen(s)) + GlobalBody(s)
  {
    r := PutHeader(buf, TAG_SEQ, GlobalLen(s));
    ghost var p := r;
    r := PutInt(r, s.msgId);
    r := PutInt(r, s.maxSize);
    r := PutStr(r, s.flags);
    r := PutInt(r, s.model);
    Four(p, IntElement(s.msgId), IntElement(s.maxSize), StrElement(s.flags), IntElement(s.model));
  }

  method SecurityEncode(buf: Bytes, s: Security) returns (r: Bytes)
    requires SecurityLen(s) < TWO32
    ensures r == buf + SecurityString(s)
  {
    r := PutHeader(buf, TAG_SEQ, SecurityLen(s));
    ghost var p := r;
    r := PutStr(r, ENGINE_ID);
    r := PutInt(r, s.boots);
    r := PutInt(r, s.time);
    ghost var q := r;
    r := PutStr(r, s.user);
    r := PutStr(r, s.auth);
    r := PutStr(r, s.priv);
    ghost var tail := StrElement(s.user) + (StrElement(s.auth) + StrElement(s.priv));
    Three(q, StrElement(s.user), StrElement(s.auth), StrElement(s.priv));
    Four(p, StrElement(ENGINE_ID), IntElement(s.boots), IntElement(s.time), tail);
    Assoc(buf, Header(TAG_SEQ, SecurityLen(s)), SecurityBody(s));
  }

  /** The PDU header, up to the bindings. */
  function PduHead(m: Message, vbs: seq<VarBind>): Bytes {
    Header(m.pduType, PduLen(m, vbs)) + (IntElement(m.reqId) + (IntElement(m.errStat) + (IntElement(m.errIdx) + Header(TAG_SEQ, ListLen(vbs)))))
  }

  method PduEncode(buf: Bytes, m: Message, pduLen: nat, vbListLen: nat, ghost vbs: seq<VarBind>) returns (r: Bytes)
    requires pduLen == PduLen(m, vbs) < TWO32 && vbListLen == ListLen(vbs)
    ensures r == buf + PduHead(m, vbs)
  {
    r := PutHeader(buf, m.pduType, pduLen);
    ghost var p := r;
    r := PutInt(r, m.reqId);
    r := PutInt(r, m.errStat);
    r := PutInt(r, m.errIdx);
    r := PutHeader(r, TAG_SEQ, vbListLen);
    Four(p, IntElement(m.reqId), IntElement(m.errStat), IntElement(m.errIdx), Header(TAG_SEQ, ListLen(vbs)));
    Assoc(buf, Header(m.pduType, pduLen), IntElement(m.reqId) + (IntElement(m.errStat) + (IntElement(m.errIdx) + Header(TAG_SEQ, ListLen(vbs)))));
  }

  method BindingEncode(buf: Bytes, vb: VarBind, vbLen: nat) returns (r: Bytes)
    requires vbLen == VbLen(vb) < TWO32 && |vb.oid| <= 255
    ensures r == buf + Element(vb)
  {
    r := PutHeader(buf, TAG_SEQ, vbLen);
    ghost var p := r;
    var oidLen := OidEncTry(vb.oid);
    r := PutHeader(r, TAG_OBJID, oidLen);
    var oid := OidEnc(vb.oid);
    r := r + oid;
    ghost var q := r;
    r := PutHeader(r, vb.kind, |vb.value|);
    r := r + vb.value;
    Assoc(p, Header(TAG_OBJID, oidLen), oid);
    Assoc(q, Header(vb.kind, |vb.value|), vb.value);
    Assoc(p, Header(TAG_OBJID, oidLen) + oid, Header(vb.kind, |vb.value|) + vb.value);
    Assoc(buf, Header(TAG_SEQ, vbLen), VbBody(vb));
  }

  // ---------------------------------------------------------------------
  // The datagram
  // ---------------------------------------------------------------------

  /** Octets before the bindings. */
  function HeadBytes(m: Message, vbs: seq<VarBind>): Bytes {
    Header(TAG_SEQ, DataLen(m, vbs)) + (IntElement(m.version) + (SecuredBytes(m, vbs) + (StrElement(m.contextName) + PduHead(m, vbs))))
  }

  /** What version 3 puts between the version and the context name. */
  function SecuredBytes(m: Message, vbs: seq<VarBind>): Bytes {
    if Secure(m) then
      Header(TAG_SEQ, GlobalLen(m.security)) + (GlobalBody(m.security)
      + (Header(TAG_OCTSTR, Size(SecurityLen(m.security))) + (SecurityString(m.security)
      + (Header(TAG_SEQ, ScopeLen(m, vbs)) + StrElement(ENGINE_ID)))))
    else []
  }

  /** The octets before the bindings and the bindings make up the datagram. */
  lemma HeadAndList(m: Message, vbs: seq<VarBind>)
    ensures HeadBytes(m, vbs) + ListBytes(vbs) == Sent(m, vbs)
  {
    var l := ListBytes(vbs);
    var (a, b, c, h) := (IntElement(m.reqId), IntElement(m.errStat), IntElement(m.errIdx), Header(TAG_SEQ, ListLen(vbs)));
    Assoc(c, h, l);
    Assoc(b, c + h, l);
    Assoc(a, b + (c + h), l);
    Assoc(Header(m.pduType, PduLen(m, vbs)), a + (b + (c + h)), l);
    assert PduHead(m, vbs) + l == Header(m.pduType, PduLen(m, vbs)) + PduBody(m, vbs);
    var ctx := StrElement(m.contextName);
    Assoc(ctx, PduHead(m, vbs), l);
    var tail := ctx + PduHead(m, vbs);
    Assoc(SecuredBytes(m, vbs), tail, l);
    Assoc(IntElement(m.version), SecuredBytes(m, vbs) + tail, l);
    Assoc(Header(TAG_SEQ, DataLen(m, vbs)), IntElement(m.version) + (SecuredBytes(m, vbs) + tail), l);
    SecuredScope(m, vbs, tail + l);
  }

  lemma SecuredScope(m: Message, vbs: seq<VarBind>, rest: Bytes)
    requires rest == StrElement(m.contextName) + (Header(m.pduType, PduLen(m, vbs)) + PduBody(m, vbs))
    ensures IntElement(m.version) + (SecuredBytes(m, vbs) + rest) == DataBody(m, vbs)
  {
    if Secure(m) {
      var s := m.security;
      var (g, h, k) := (Header(TAG_SEQ, GlobalLen(s)), Header(TAG_OCTSTR, Size(SecurityLen(s))), Header(TAG_SEQ, ScopeLen(m, vbs)));
      var e := StrElement(ENGINE_ID);
      Assoc(k, e, rest);
      Assoc(SecurityString(s), k + e, rest);
      Assoc(h, SecurityString(s) + (k + e), rest);
      Assoc(GlobalBody(s), h + (SecurityString(s) + (k + e)), rest);
      Assoc(g, GlobalBody(s) + (h + (SecurityString(s) + (k + e))), rest);
    } else {
      assert [] + rest == rest;
    }
  }

  /** The part of the data that only version 3 has, without the scope itself. */
  method MeasureSecurity(m: Message, scopeLen: nat, ghost vbs: seq<VarBind>) returns (len: nat)
    requires Secure(m) && scopeLen == ScopeLen(m, vbs) && SendLen(m, vbs) < TWO32 && Size(scopeLen) < TWO32
    ensures len + ScopeLen(m, vbs) + Size(m.version.len) == DataLen(m, vbs)
  {
    var paraLen := SecurityEncodeTry(m.security);
    var strLen := SizeOf(paraLen);
    var msgLen := GlobalEncodeTry(m.security);
    len := SizeOf(msgLen);
    var more := SizeOf(strLen);
    len := len + more;
    var lenLen := LengthEncTry(scopeLen);
    len := len + 1 + lenLen;
    if m.security.flags != [] && m.security.flags[0] / 2 % 2 == 1 {
      more := LengthEncTry(1 + lenLen + scopeLen);
      len := len + 1 + more;
    }
  }

  method PutSecurity(buf: Bytes, m: Message, scopeLen: nat, ghost vbs: seq<VarBind>) returns (r: Bytes)
    requires Secure(m) && scopeLen == ScopeLen(m, vbs) && SendLen(m, vbs) < TWO32
    ensures r == buf + SecuredBytes(m, vbs)
  {
    var s := m.security;
    r := GlobalEncode(buf, s);
    r := PutHeader(r, TAG_OCTSTR, Size(SecurityLen(s)));
    r := SecurityEncode(r, s);
    r := PutHeader(r, TAG_SEQ, scopeLen);
    ghost var q := r;
    r := PutStr(r, ENGINE_ID);
    ghost var (g, h, k, e) := (Header(TAG_SEQ, GlobalLen(s)), Header(TAG_OCTSTR, Size(SecurityLen(s))), Header(TAG_SEQ, scopeLen), StrElement(ENGINE_ID));
    Four(buf + g, GlobalBody(s), h, SecurityString(s), k);
    Assoc(buf + g, GlobalBody(s) + (h + (SecurityString(s) + k)), e);
    Assoc(GlobalBody(s), h + (SecurityString(s) + k), e);
    Assoc(h, SecurityString(s) + k, e);
    Assoc(SecurityString(s), k, e);
    Assoc(buf, g, GlobalBody(s) + (h + (SecurityString(s) + (k + e))));
  }

  lemma {:induction false} BindingFits(vbs: seq<VarBind>, i: nat)
    requires i < |vbs|
    ensures VbLen(vbs[i]) < ListLen(vbs)
  {
    if i < |vbs| - 1 {
      BindingFits(vbs[..|vbs| - 1], i);
    }
  }

  method MeasurePdu(m: Message, vbListLen: nat, ghost vbs: seq<VarBind>) returns (len: nat)
    requires vbListLen == ListLen(vbs) && SendLen(m, vbs) < TWO32
    ensures len == PduLen(m, vbs) && |PduBody(m, vbs)| == len + PduExcess(m, vbs)
  {
    PduCount(m, vbs);
    len := SizeOf(vbListLen);
    var more := SizeOf(m.reqId.len);
    len := len + more;
    more := SizeOf(m.errStat.len);
    len := len + more;
    more := SizeOf(m.errIdx.len);
    len := len + more;
  }

  method MeasureScope(m: Message, pduLen: nat, ghost vbs: seq<VarBind>) returns (len: nat)
    requires pduLen == PduLen(m, vbs) && SendLen(m, vbs) < TWO32
    ensures len == ScopeLen(m, vbs) && |ScopeBody(m, vbs)| == len + PduExcess(m, vbs)
  {
    ScopeCount(m, vbs);
    len := SizeOf(pduLen);
    var more := SizeOf(|m.contextName|);
    len := len + more;
    if m.version.value >= 3 {
      more := SizeOf(|ENGINE_ID|);
      len := len + more;
    }
  }

  method MeasureData(m: Message, scopeLen: nat, ghost vbs: seq<VarBind>) returns (len: nat)
    requires scopeLen == ScopeLen(m, vbs) && SendLen(m, vbs) < TWO32
    ensures len == DataLen(m, vbs) && (!Encrypts(m) ==> |DataBody(m, vbs)| == len + TotalExcess(m, vbs))
    ensures forall cipher: Bytes :: Encrypts(m) && |cipher| == Size(ScopeLen(m, vbs)) ==>
      |EncipheredBody(m, cipher)| == len + Excess(m.version) + GlobalExcess(m.security) + SecurityExcess(m.security)
  {
    if !Encrypts(m) { SentCount(m, vbs); }
    forall cipher: Bytes | Encrypts(m) && |cipher| == Size(ScopeLen(m, vbs))
      ensures |EncipheredBody(m, cipher)| == DataLen(m, vbs) + Excess(m.version) + GlobalExcess(m.security) + SecurityExcess(m.security)
    {
      EncipheredCount(m, vbs, cipher);
    }
    len := 0;
    if m.version.value >= 3 {
      len := MeasureSecurity(m, scopeLen, vbs);
    }
    len := len + scopeLen;
    var more := SizeOf(m.version.len);
    len := len + more;
  }

  /** Everything up to the bindings. */
  method EncodeHead(m: Message, dataLen: nat, scopeLen: nat, pduLen: nat, vbListLen: nat, ghost vbs: seq<VarBind>) returns (buf: Bytes)
    requires SendLen(m, vbs) < TWO32 && dataLen == DataLen(m, vbs) && scopeLen == ScopeLen(m, vbs)
    requires pduLen == PduLen(m, vbs) && vbListLen == ListLen(vbs)
    ensures buf == HeadBytes(m, vbs)
  {
    buf := PutHeader([], TAG_SEQ, dataLen);
    assert buf == Header(TAG_SEQ, dataLen);
    buf := PutInt(buf, m.version);
    ghost var p := buf;
    if m.version.value >= 3 {
      buf := PutSecurity(buf, m, scopeLen, vbs);
    } else {
      assert p + [] == p;
    }
    buf := PutStr(buf, m.contextName);
    buf := PduEncode(buf, m, pduLen, vbListLen, vbs);
    Four(Header(TAG_SEQ, dataLen), IntElement(m.version), SecuredBytes(m, vbs), StrElement(m.contextName), PduHead(m, vbs));
  }

  /** The bindings. */
  method EncodeList(buf: Bytes, vbs: seq<VarBind>, lens: seq<nat>) returns (r: Bytes)
    requires ListLen(vbs) < TWO32 && |lens| == |vbs|
    requires forall i :: 0 <= i < |vbs| ==> lens[i] == VbLen(vbs[i]) && |vbs[i].oid| <= 255
    ensures r == buf + ListBytes(vbs)
  {
    r := buf;
    for i := 0 to |vbs|
      invariant r == buf + ListBytes(vbs[..i])
    {
      BindingFits(vbs, i);
      r := BindingEncode(r, vbs[i], lens[i]);
      Assoc(buf, ListBytes(vbs[..i]), Element(vbs[i]));
      Next(Element, ElementLen, vbs, i);
    }
    assert vbs[..|vbs|] == vbs;
  }

  /** The cursor ends at the computed size exactly when the excesses cancel out. */
  lemma CountAgrees(m: Message, vbs: seq<VarBind>)
    ensures !Encrypts(m) ==> (|Sent(m, vbs)| == SendLen(m, vbs) <==> TotalExcess(m, vbs) == 0)
  {
    if !Encrypts(m) { SentCount(m, vbs); }
  }

  lemma ListFits(m: Message, vbs: seq<VarBind>)
    requires SendLen(m, vbs) < TWO32
    ensures ListLen(vbs) < TWO32 && DataLen(m, vbs) < TWO32
  {
  }

  method MeasureAll(m: Message, vbListLen: nat, ghost vbs: seq<VarBind>) returns (pdu: nat, scope: nat, data: nat, size: nat)
    requires vbListLen == ListLen(vbs) && SendLen(m, vbs) < TWO32
    ensures pdu == PduLen(m, vbs) && scope == ScopeLen(m, vbs) && data == DataLen(m, vbs) && size == SendLen(m, vbs)
  {
    ListFits(m, vbs);
    pdu := MeasurePdu(m, vbListLen, vbs);
    scope := MeasureScope(m, pdu, vbs);
    data := MeasureData(m, scope, vbs);
    size := SizeOf(data);
  }

  method EncodeAll(m: Message, dataLen: nat, scopeLen: nat, pduLen: nat, vbListLen: nat, vbs: seq<VarBind>, lens: seq<nat>) returns (buf: Bytes)
    requires SendLen(m, vbs) < TWO32 && dataLen == DataLen(m, vbs) && scopeLen == ScopeLen(m, vbs)
    requires pduLen == PduLen(m, vbs) && vbListLen == ListLen(vbs) && |lens| == |vbs|
    requires forall i :: 0 <= i < |vbs| ==> lens[i] == VbLen(vbs[i]) && |vbs[i].oid| <= 255
    ensures buf == Sent(m, vbs)
  {
    ListFits(m, vbs);
    buf := EncodeHead(m, dataLen, scopeLen, pduLen, vbListLen, vbs);
    buf := EncodeList(buf, vbs, lens);
    HeadAndList(m, vbs);
  }

  /** The computed lengths, the size allocated for the datagram, and what is sent of it. */
  datatype Output = Output(pduLen: nat, scopeLen: nat, dataLen: nat, capacity: nat, sendBuf: Bytes, sendLen: nat)

  class Datagram {
    var msg: Message
    var vbOut: seq<VarBind>
    var vbLens: seq<nat>
    var vbListLen: nat
    var out: Output

    /** The lengths of the bindings and of their list are kept up to date. */
    ghost predicate Valid()
      reads this
    {
      && vbListLen == ListLen(vbOut) && |vbLens| == |vbOut|
      && (forall i :: 0 <= i < |vbOut| ==> vbLens[i] == VbLen(vbOut[i]))
      && (forall i :: 0 <= i < |vbOut| ==> |vbOut[i].oid| <= 255)
    }

    constructor (msg: Message)
      ensures Valid() && this.msg == msg && vbOut == []
    {
      this.msg := msg;
      vbOut, vbLens, vbListLen := [], [], 0;
      out := Output(0, 0, 0, 0, [], 0);
    }

    /** A binding is added to the response. */
    method AddBinding(vb: VarBind)
      requires Valid() && |vb.oid| <= 255 && Size(VbLen(vb)) < TWO32
      modifies this`vbOut, this`vbLens, this`vbListLen
      ensures Valid() && vbOut == old(vbOut) + [vb]
    {
      var oidLen := OidEncTry(vb.oid);
      var vbLen := SizeOf(oidLen);
      var more := SizeOf(|vb.value|);
      vbLen := vbLen + more;
      more := SizeOf(vbLen);
      vbListLen := vbListLen + more;
      vbOut, vbLens := vbOut + [vb], vbLens + [vbLen];
      assert vbOut[..|vbOut| - 1] == old(vbOut);
    }

    /** `snmp_response`, without the cryptography: the datagram, in a buffer of the computed size. */
    method Response()
      requires Valid() && SendLen(msg, vbOut) < TWO32
      modifies this`out
      ensures Valid() && out.sendBuf == Sent(msg, vbOut) && out.sendLen == out.capacity == SendLen(msg, vbOut)
      ensures R.Deliverable(msg, vbOut) ==> R.Parse(out.sendBuf) == P.Ok(R.Delivered(msg, vbOut), [])
    {
      if R.Deliverable(msg, vbOut) { R.RoundTrip(msg, vbOut); }
      var pdu, scope, data, size := MeasureAll(msg, vbListLen, vbOut);
      var buf := EncodeAll(msg, data, scope, pdu, vbListLen, vbOut, vbLens);
      out := Output(pdu, scope, data, size, buf, size);
    }
  }
}
