/** Decoding of datagrams (core/snmp_msg_in.c:93-234, 442-574, 622-656). */
module Receive {
  import opened Oids
  import opened Ber
  import opened BerOid
  import opened Chunks
  import opened Framing
  import opened Parsing
  import opened Elements
  import opened SecureHeader

  const CONTEXT_NAME_MAX := 40
  const VALUE_MAX_LEN := 1024

  const ERR_VERSION := -100
  const ERR_CONTEXT_NAME := -502
  const ERR_CONTEXT_NAME_LEN := -503
  const ERR_PDU_TYPE := -600
  const ERR_PDU_LEN := -601
  const ERR_PDU_REQID := -602
  const ERR_PDU_ERRSTAT := -603
  const ERR_PDU_ERRIDX := -604
  const ERR_VB_LIST_SEQ := -700
  const ERR_VB_SEQ := -701
  const ERR_VB_OID_TYPE := -702
  const ERR_VB_VALUE_LEN := -704
  const ERR_VB_OID_LEN := -705

  /** A decoded request, with what version 3 adds; or, when its flags ask for authentication and encryption, only
      what precedes the part that may be enciphered. */
  datatype Received =
    | Received(version: Field, sender: Option<Sender>, contextName: Bytes, pduType: Byte, reqId: Field, errStat: Field,
               errIdx: Field, vbs: seq<VarBind>)
    | Enciphered(version: Field, header: SecureHead)

  /** Who sent the request, and the engine whose context it addresses. */
  datatype Sender = Sender(header: SecureHead, contextId: Bytes)

  // ---------------------------------------------------------------------
  // What the octets say
  // ---------------------------------------------------------------------

  function Identifier(b: Bytes): Oid {
    if b == [] then [] else OidValue(b)
  }

  datatype Value = Value(kind: Byte, octets: Bytes)

  function ParseValue(s: Bytes): Parsed<Value> {
    if s == [] then Malformed
    else match ParseLength(s[1..])
      case Ok(n, rest) =>
        if n > VALUE_MAX_LEN then Err(ERR_VB_VALUE_LEN)
        else if n > |rest| then Malformed
        else Ok(Value(s[0], rest[..n]), rest[n..])
      case _ => Malformed
  }

  /** A binding, from its identifier on. */
  function ParseBinding(s: Bytes): Parsed<VarBind> {
    match ParseElement(s, 0x06, ERR_VB_OID_TYPE)
    case Err(c) => Err(c)
    case Malformed => Malformed
    case Ok(b, rest) =>
      if |Identifier(b)| > OID_MAX_LEN then Err(ERR_VB_OID_LEN)
      else match ParseValue(rest)
        case Ok(v, more) => Ok(VarBind(Identifier(b), v.kind, v.octets), more)
        case Err(c) => Err(c)
        case Malformed => Malformed
  }

  /** Bindings in the next `n` octets, whose lengths are read by `length` and whose contents by `one`. */
  function ParseBindings(length: Reader<nat>, one: Reader<VarBind>, s: Bytes, n: nat): Parsed<seq<VarBind>>
    decreases |s|
  {
    if n == 0 then Ok([], s)
    else if s == [] then Malformed
    else if s[0] != 0x30 then Err(ERR_VB_SEQ)
    else match length(s[1..])
      case Ok(len, body) =>
        if |body| >= |s| then Malformed else
        var used := |s| - |body| + len;
        (match one(body)
         case Err(c) => Err(c)
         case Malformed => Malformed
         case Ok(vb, _) =>
           if len > |body| || used > n then Malformed
           else match ParseBindings(length, one, body[len..], n - used)
             case Ok(vbs, rest) => Ok([vb] + vbs, rest)
             case Err(c) => Err(c)
             case Malformed => Malformed)
      case _ => Malformed
  }

  /** The list of bindings. */
  function ParseList(s: Bytes): Parsed<seq<VarBind>> {
    if s == [] then Malformed
    else if s[0] != 0x30 then Err(ERR_VB_LIST_SEQ)
    else match ParseLength(s[1..])
      case Ok(n, rest) => ParseBindings(ParseLength, ParseBinding, rest, n)
      case _ => Malformed
  }

  datatype PduHeader = PduHeader(pduType: Byte, reqId: Field, errStat: Field, errIdx: Field)

  /** The integers of the PDU header. */
  function ParseThree(a: Bytes, pduType: Byte): Parsed<PduHeader> {
    match ParseInt(a, ERR_PDU_REQID)
    case Ok(reqId, b) => (match ParseInt(b, ERR_PDU_ERRSTAT)
      case Ok(errStat, c) => (match ParseInt(c, ERR_PDU_ERRIDX)
        case Ok(errIdx, d) => Ok(PduHeader(pduType, reqId, errStat, errIdx), d)
        case Err(e) => Err(e)
        case Malformed => Malformed)
      case Err(e) => Err(e)
      case Malformed => Malformed)
    case Err(e) => Err(e)
    case Malformed => Malformed
  }

  function ParsePduHeader(s: Bytes): Parsed<PduHeader> {
    if s == [] then Malformed
    else match ParseLength(s[1..])
      case Ok(_, a) => ParseThree(a, s[0])
      case _ => Malformed
  }

  function ParseContext(s: Bytes): Parsed<Bytes> {
    ParseText(s, ERR_CONTEXT_NAME, UpTo(CONTEXT_NAME_MAX), ERR_CONTEXT_NAME_LEN)
  }

  /** From the context name on. */
  function ParseBody(version: Field, sender: Option<Sender>, a: Bytes): Parsed<Received> {
    match ParseContext(a)
    case Err(e) => Err(e)
    case Malformed => Malformed
    case Ok(name, b) => (match ParsePduHeader(b)
      case Err(e) => Err(e)
      case Malformed => Malformed
      case Ok(h, c) => (match ParseList(c)
        case Err(e) => Err(e)
        case Malformed => Malformed
        case Ok(vbs, d) => Ok(Received(version, sender, name, h.pduType, h.reqId, h.errStat, h.errIdx, vbs), d)))
  }

  /** Version 3, from the global data on. */
  function ParseSecured(version: Field, a: Bytes): Parsed<Received> {
    match ParseHead(a)
    case Err(e) => Err(e)
    case Malformed => Malformed
    case Ok(h, b) =>
      if MayBeEnciphered(h.security.flags) then Ok(Enciphered(version, h), b)
      else match ParseScope(b)
        case Err(e) => Err(e)
        case Malformed => Malformed
        case Ok(id, c) => ParseBody(version, Some(Sender(h, id)), c)
  }

  function ParseData(s: Bytes): Parsed<Received> {
    match ParseInt(s, ERR_VERSION)
    case Err(e) => Err(e)
    case Malformed => Malformed
    case Ok(version, a) => if version.value >= 3 then ParseSecured(version, a) else ParseBody(version, None, a)
  }

  /** The outermost element, whose contents `data` reads. */
  function ParseOuter(s: Bytes, data: Reader<Received>): Parsed<Received> {
    if s == [] then Malformed
    else if s[0] != 0x30 then Err(ERR_PDU_TYPE)
    else match ParseLength(s[1..])
      case Ok(n, rest) => if (|s| - |rest| + n) % TWO32 != |s| then Err(ERR_PDU_LEN) else data(rest)
      case _ => Malformed
  }

  /** A received datagram. */
  function Parse(s: Bytes): Parsed<Received> {
    ParseOuter(s, ParseData)
  }

  // ---------------------------------------------------------------------
  // Round trip
  // ---------------------------------------------------------------------

  /** A binding that survives: an encodable identifier of at most 64 sub-identifiers in 255 octets, and a value of at most 1024 octets. */
  predicate BindingOk(vb: VarBind) {
    && (vb.oid == [] || Encodable(vb.oid)) && |vb.oid| <= OID_MAX_LEN && |OidBytes(vb.oid)| <= 255
    && |vb.value| <= VALUE_MAX_LEN
  }

  lemma ReadValue(kind: Byte, value: Bytes, rest: Bytes)
    requires |value| <= VALUE_MAX_LEN
    ensures ParseValue(Header(kind, |value|) + value + rest) == Ok(Value(kind, value), rest)
  {
    ReadHeader(kind, |value|, value + rest);
    Assoc(Header(kind, |value|), value, rest);
    Prefix(value, rest);
  }

  lemma ReadIdentifier(o: Oid)
    requires o == [] || Encodable(o)
    ensures Identifier(OidBytes(o)) == o
  {
    if o != [] { OidRoundTrip(o); }
  }

  /** The two parts of a binding. */
  lemma BindingFrom(s: Bytes, b: Bytes, mid: Bytes, v: Value, rest: Bytes)
    requires ParseElement(s, TAG_OBJID, ERR_VB_OID_TYPE) == Ok(b, mid) && |Identifier(b)| <= OID_MAX_LEN && ParseValue(mid) == Ok(v, rest)
    ensures ParseBinding(s) == Ok(VarBind(Identifier(b), v.kind, v.octets), rest)
  {
  }

  lemma ReadParts(b: Bytes, kind: Byte, value: Bytes, rest: Bytes)
    requires |b| < TWO32 && |Identifier(b)| <= OID_MAX_LEN && |value| <= VALUE_MAX_LEN
    ensures ParseBinding(Header(TAG_OBJID, |b|) + b + (Header(kind, |value|) + value) + rest) == Ok(VarBind(Identifier(b), kind, value), rest)
  {
    var head, tail := Header(TAG_OBJID, |b|) + b, Header(kind, |value|) + value;
    Assoc(head, tail, rest);
    ReadElement(TAG_OBJID, b, tail + rest, ERR_VB_OID_TYPE);
    ReadValue(kind, value, rest);
    BindingFrom(head + (tail + rest), b, tail + rest, Value(kind, value), rest);
  }

  lemma BodyIs(vb: VarBind, b: Bytes)
    requires b == OidBytes(vb.oid) && |b| <= 255
    ensures VbBody(vb) == Header(TAG_OBJID, |b|) + b + (Header(vb.kind, |vb.value|) + vb.value)
  {
  }

  lemma ReadBody(vb: VarBind, b: Bytes, rest: Bytes, s: Bytes)
    requires |b| <= 255 && Identifier(b) == vb.oid && |vb.oid| <= OID_MAX_LEN && |vb.value| <= VALUE_MAX_LEN
    requires s == Header(TAG_OBJID, |b|) + b + (Header(vb.kind, |vb.value|) + vb.value)
    ensures ParseBinding(s + rest) == Ok(vb, rest)
  {
    ReadParts(b, vb.kind, vb.value, rest);
  }

  lemma ReadBinding(vb: VarBind, rest: Bytes)
    requires BindingOk(vb)
    ensures ParseBinding(VbBody(vb) + rest) == Ok(vb, rest)
  {
    ReadIdentifier(vb.oid);
    BodyIs(vb, OidBytes(vb.oid));
    ReadBody(vb, OidBytes(vb.oid), rest, VbBody(vb));
  }

  /** One binding, and then the others. */
  lemma BindingsFrom(length: Reader<nat>, one: Reader<VarBind>, s: Bytes, n: nat, len: nat, body: Bytes, vb: VarBind, rest: Bytes, vbs: seq<VarBind>, end: Bytes)
    requires n > 0 && s != [] && s[0] == TAG_SEQ && length(s[1..]) == Ok(len, body) && one(body) == Ok(vb, rest)
    requires len <= |body| && |s| - |body| + len <= n && body[len..] == rest && |body| < |s|
    requires ParseBindings(length, one, rest, n - (|s| - |body| + len)) == Ok(vbs, end)
    ensures ParseBindings(length, one, s, n) == Ok([vb] + vbs, end)
  {
  }

  /** `e` is an element with contents `v`. */
  ghost predicate IsElement(length: Reader<nat>, e: Bytes, size: nat, v: Bytes) {
    && size > 0 && |e| == size && e[0] == TAG_SEQ && |v| < size
    && forall more: Bytes :: length((e + more)[1..]) == Ok(|v|, v + more)
  }

  lemma HeaderReads(v: Bytes)
    requires |v| < TWO32
    ensures IsElement(ParseLength, Header(TAG_SEQ, |v|) + v, Size(|v|), v)
  {
    forall more: Bytes ensures ParseLength((Header(TAG_SEQ, |v|) + v + more)[1..]) == Ok(|v|, v + more) {
      Assoc(Header(TAG_SEQ, |v|), v, more);
      ReadHeader(TAG_SEQ, |v|, v + more);
    }
  }

  lemma ReadElements(length: Reader<nat>, one: Reader<VarBind>, e: Bytes, size: nat, v: Bytes, vb: VarBind, more: Bytes, n: nat, vbs: seq<VarBind>, end: Bytes)
    requires IsElement(length, e, size, v) && one(v + more) == Ok(vb, more) && ParseBindings(length, one, more, n) == Ok(vbs, end)
    ensures ParseBindings(length, one, e + more, size + n) == Ok([vb] + vbs, end)
  {
    var s := e + more;
    assert length(s[1..]) == Ok(|v|, v + more);
    Prefix(v, more);
    BindingsFrom(length, one, s, size + n, |v|, v + more, vb, more, vbs, end);
  }

  /** The element reads back as the binding, whatever follows. */
  ghost predicate ReadsBack(length: Reader<nat>, one: Reader<VarBind>, e: Bytes, size: nat, vb: VarBind) {
    exists v: Bytes :: IsElement(length, e, size, v) && Contains(one, v, vb)
  }

  ghost predicate Contains(one: Reader<VarBind>, v: Bytes, vb: VarBind) {
    forall more: Bytes :: one(v + more) == Ok(vb, more)
  }

  lemma ReadNext(length: Reader<nat>, one: Reader<VarBind>, e: Bytes, size: nat, vb: VarBind, more: Bytes, n: nat, tail: seq<VarBind>, rest: Bytes)
    requires ReadsBack(length, one, e, size, vb) && ParseBindings(length, one, more, n) == Ok(tail, rest)
    ensures ParseBindings(length, one, e + more, size + n) == Ok([vb] + tail, rest)
  {
    var v: Bytes :| IsElement(length, e, size, v) && Contains(one, v, vb);
    assert one(v + more) == Ok(vb, more);
    ReadElements(length, one, e, size, v, vb, more, n, tail, rest);
  }

  /** A list reads back when its elements do. */
  lemma {:induction false} ReadAll(length: Reader<nat>, one: Reader<VarBind>, f: VarBind -> Bytes, g: VarBind -> nat, vbs: seq<VarBind>, rest: Bytes)
    requires forall i :: 0 <= i < |vbs| ==> ReadsBack(length, one, f(vbs[i]), g(vbs[i]), vbs[i])
    ensures ParseBindings(length, one, Concat(f, vbs) + rest, Sum(g, vbs)) == Ok(vbs, rest)
  {
    if vbs == [] {
      assert [] + rest == rest;
    } else {
      var tail := vbs[1..];
      ReadAll(length, one, f, g, tail, rest);
      ListCons(f, g, vbs);
      Assoc(f(vbs[0]), Concat(f, tail), rest);
      ReadNext(length, one, f(vbs[0]), g(vbs[0]), vbs[0], Concat(f, tail) + rest, Sum(g, tail), tail, rest);
      assert [vbs[0]] + tail == vbs;
    }
  }

  lemma BindingReadsBack(vb: VarBind, v: Bytes)
    requires BindingOk(vb) && v == VbBody(vb)
    ensures ReadsBack(ParseLength, ParseBinding, Header(TAG_SEQ, |v|) + v, Size(|v|), vb)
  {
    SmallBinding(vb);
    HeaderReads(v);
    forall more: Bytes ensures ParseBinding(v + more) == Ok(vb, more) {
      ReadBinding(vb, more);
    }
    assert Contains(ParseBinding, v, vb);
  }

  lemma SmallBinding(vb: VarBind)
    requires BindingOk(vb)
    ensures |VbBody(vb)| == VbLen(vb) < TWO32
  {
    FramedBinding(vb);
    PowFour();
    Base256Short(|OidBytes(vb.oid)|, 4);
    Base256Short(|vb.value|, 4);
  }

  lemma ElementReadsBack(vb: VarBind)
    requires BindingOk(vb)
    ensures ReadsBack(ParseLength, ParseBinding, Element(vb), ElementLen(vb), vb)
  {
    SmallBinding(vb);
    BindingReadsBack(vb, VbBody(vb));
  }

  lemma ReadBindings(vbs: seq<VarBind>, rest: Bytes)
    requires forall i :: 0 <= i < |vbs| ==> BindingOk(vbs[i])
    ensures ParseBindings(ParseLength, ParseBinding, ListBytes(vbs) + rest, ListLen(vbs)) == Ok(vbs, rest)
  {
    forall i | 0 <= i < |vbs| ensures ReadsBack(ParseLength, ParseBinding, Element(vbs[i]), ElementLen(vbs[i]), vbs[i]) {
      ElementReadsBack(vbs[i]);
    }
    ReadAll(ParseLength, ParseBinding, Element, ElementLen, vbs, rest);
  }

  lemma ReadList(vbs: seq<VarBind>, rest: Bytes)
    requires ListLen(vbs) < TWO32 && forall i :: 0 <= i < |vbs| ==> BindingOk(vbs[i])
    ensures ParseList(Header(TAG_SEQ, ListLen(vbs)) + ListBytes(vbs) + rest) == Ok(vbs, rest)
  {
    ReadBindings(vbs, rest);
    Assoc(Header(TAG_SEQ, ListLen(vbs)), ListBytes(vbs), rest);
    ReadHeader(TAG_SEQ, ListLen(vbs), ListBytes(vbs) + rest);
  }

  lemma ReadContext(name: Bytes, rest: Bytes)
    requires |name| <= CONTEXT_NAME_MAX
    ensures ParseContext(StrElement(name) + rest) == Ok(name, rest)
  {
    ReadText(name, rest, ERR_CONTEXT_NAME, UpTo(CONTEXT_NAME_MAX), ERR_CONTEXT_NAME_LEN);
  }

  lemma PduFrom(s: Bytes, n: nat, a: Bytes, reqId: Field, b: Bytes, errStat: Field, c: Bytes, errIdx: Field, d: Bytes)
    requires s != [] && ParseLength(s[1..]) == Ok(n, a) && ParseInt(a, ERR_PDU_REQID) == Ok(reqId, b)
    requires ParseInt(b, ERR_PDU_ERRSTAT) == Ok(errStat, c) && ParseInt(c, ERR_PDU_ERRIDX) == Ok(errIdx, d)
    ensures ParsePduHeader(s) == Ok(PduHeader(s[0], reqId, errStat, errIdx), d)
  {
  }

  lemma ReadPduHeader(pduType: Byte, n: nat, reqId: Field, errStat: Field, errIdx: Field, d: Bytes)
    requires n < TWO32 && Excess(reqId) == 0 && Excess(errStat) == 0 && Excess(errIdx) == 0
    ensures ParsePduHeader(Header(pduType, n) + (IntElement(reqId) + (IntElement(errStat) + (IntElement(errIdx) + d))))
      == Ok(PduHeader(pduType, reqId, errStat, errIdx), d)
  {
    var c := IntElement(errIdx) + d;
    var b := IntElement(errStat) + c;
    var a := IntElement(reqId) + b;
    ReadHeader(pduType, n, a);
    ReadInt(reqId, b, ERR_PDU_REQID);
    ReadInt(errStat, c, ERR_PDU_ERRSTAT);
    ReadInt(errIdx, d, ERR_PDU_ERRIDX);
    PduFrom(Header(pduType, n) + a, n, a, reqId, b, errStat, c, errIdx, d);
  }

  lemma BodyFrom(version: Field, sender: Option<Sender>, a: Bytes, name: Bytes, b: Bytes, h: PduHeader, c: Bytes, vbs: seq<VarBind>, d: Bytes)
    requires ParseContext(a) == Ok(name, b) && ParsePduHeader(b) == Ok(h, c) && ParseList(c) == Ok(vbs, d)
    ensures ParseBody(version, sender, a) == Ok(Received(version, sender, name, h.pduType, h.reqId, h.errStat, h.errIdx, vbs), d)
  {
  }

  /** The octets from the context name on. */
  function Tail(m: Message, vbs: seq<VarBind>): Bytes {
    StrElement(m.contextName) + (Header(m.pduType, PduLen(m, vbs)) + PduBody(m, vbs))
  }

  /** What a datagram decodes to. */
  function Delivered(m: Message, vbs: seq<VarBind>): Received {
    var sender := if Secure(m) then Some(Sender(SecureHead(m.security, ENGINE_ID), ENGINE_ID)) else None;
    Received(m.version, sender, m.contextName, m.pduType, m.reqId, m.errStat, m.errIdx, vbs)
  }

  /** A message whose recorded lengths are exact, whose strings fit and whose bindings survive. */
  ghost predicate Deliverable(m: Message, vbs: seq<VarBind>) {
    && Exact(m, vbs) && SendLen(m, vbs) < TWO32 && |m.contextName| <= CONTEXT_NAME_MAX
    && (forall i :: 0 <= i < |vbs| ==> BindingOk(vbs[i]))
    && (Secure(m) ==> HeadOk(m.security) && !Encrypts(m))
  }

  lemma ReadTail(m: Message, vbs: seq<VarBind>, sender: Option<Sender>)
    requires Deliverable(m, vbs)
    ensures ParseBody(m.version, sender, Tail(m, vbs)) == Ok(Received(m.version, sender, m.contextName, m.pduType, m.reqId, m.errStat, m.errIdx, vbs), [])
  {
    Inner(m, vbs);
    var c := Header(TAG_SEQ, ListLen(vbs)) + ListBytes(vbs);
    ReadList(vbs, []);
    assert c + [] == c;
    var b := Header(m.pduType, PduLen(m, vbs)) + PduBody(m, vbs);
    ReadPduHeader(m.pduType, PduLen(m, vbs), m.reqId, m.errStat, m.errIdx, c);
    ReadContext(m.contextName, b);
    BodyFrom(m.version, sender, Tail(m, vbs), m.contextName, b, PduHeader(m.pduType, m.reqId, m.errStat, m.errIdx), c, vbs, []);
  }

  lemma SecuredFrom(version: Field, a: Bytes, h: SecureHead, b: Bytes, id: Bytes, c: Bytes, r: Parsed<Received>)
    requires ParseHead(a) == Ok(h, b) && !MayBeEnciphered(h.security.flags) && ParseScope(b) == Ok(id, c)
    requires ParseBody(version, Some(Sender(h, id)), c) == r
    ensures ParseSecured(version, a) == r
  {
  }

  /** What version 3 puts before the context name is read back. */
  lemma ReadSecured(m: Message, vbs: seq<VarBind>)
    requires Deliverable(m, vbs) && Secure(m)
    ensures ParseSecured(m.version, HeadOctets(m.security) + (ScopeOctets(ScopeLen(m, vbs)) + Tail(m, vbs))) == Ok(Delivered(m, vbs), [])
  {
    var h, scope := SecureHead(m.security, ENGINE_ID), ScopeOctets(ScopeLen(m, vbs));
    SecuredFits(m, vbs);
    ReadHead(m.security, scope + Tail(m, vbs));
    ReadScope(ScopeLen(m, vbs), Tail(m, vbs));
    ReadTail(m, vbs, Some(Sender(h, ENGINE_ID)));
    SecuredFrom(m.version, HeadOctets(m.security) + (scope + Tail(m, vbs)), h, scope + Tail(m, vbs), ENGINE_ID, Tail(m, vbs), Ok(Delivered(m, vbs), []));
  }

  lemma SecuredFits(m: Message, vbs: seq<VarBind>)
    requires Secure(m) && SendLen(m, vbs) < TWO32
    ensures ScopeLen(m, vbs) < TWO32 && GlobalLen(m.security) < TWO32 && Size(SecurityLen(m.security)) < TWO32
  {
  }

  /** The contents of the datagram. */
  lemma DataIs(m: Message, vbs: seq<VarBind>)
    ensures DataBody(m, vbs) == IntElement(m.version) +
      if Secure(m) then HeadOctets(m.security) + (ScopeOctets(ScopeLen(m, vbs)) + Tail(m, vbs)) else Tail(m, vbs)
  {
    var tail := Tail(m, vbs);
    if Secure(m) {
      var s := m.security;
      var (g, h, k) := (Header(TAG_SEQ, GlobalLen(s)), Header(TAG_OCTSTR, Size(SecurityLen(s))), Header(TAG_SEQ, ScopeLen(m, vbs)));
      Assoc(k, StrElement(ENGINE_ID), tail);
      var rest := k + (StrElement(ENGINE_ID) + tail);
      HeadParts(s, rest);
    } else {
      assert [] + tail == tail;
    }
  }

  lemma ReadData(m: Message, vbs: seq<VarBind>)
    requires Deliverable(m, vbs)
    ensures ParseData(DataBody(m, vbs)) == Ok(Delivered(m, vbs), [])
  {
    DataIs(m, vbs);
    if Secure(m) {
      ReadSecured(m, vbs);
      ReadInt(m.version, HeadOctets(m.security) + (ScopeOctets(ScopeLen(m, vbs)) + Tail(m, vbs)), ERR_VERSION);
    } else {
      ReadTail(m, vbs, None);
      ReadInt(m.version, Tail(m, vbs), ERR_VERSION);
    }
  }

  /** Decoding a response of any version that is not enciphered gives back what was sent. */
  lemma RoundTrip(m: Message, vbs: seq<VarBind>)
    requires Deliverable(m, vbs)
    ensures Parse(Sent(m, vbs)) == Ok(Delivered(m, vbs), [])
  {
    var n, body := DataLen(m, vbs), DataBody(m, vbs);
    FramedDatagram(m, vbs);
    ReadHeader(TAG_SEQ, n, body);
    Inner(m, vbs);
    ReadData(m, vbs);
    ParseFrom(Header(TAG_SEQ, n) + body, n, body, ParseData);
  }

  lemma Inner(m: Message, vbs: seq<VarBind>)
    ensures PduLen(m, vbs) < SendLen(m, vbs) && DataLen(m, vbs) < SendLen(m, vbs)
  {
  }

  lemma ParseFrom(s: Bytes, n: nat, body: Bytes, data: Reader<Received>)
    requires s != [] && s[0] == TAG_SEQ && ParseLength(s[1..]) == Ok(n, body) && n == |body| && |s| < TWO32
    ensures ParseOuter(s, data) == data(body)
  {
  }
}
