/** The lengths of a response datagram and the octets it is written with (core/snmp_msg_out.c:36-284,
    367-389; core/snmp_msg_proc.c:122-133). */
module Framing {
  import opened Oids
  import opened Ber
  import opened BerOid
  import opened Chunks

  const TAG_INT: Byte := 0x02
  const TAG_OCTSTR: Byte := 0x04
  const TAG_OBJID: Byte := 0x06
  const TAG_SEQ: Byte := 0x30

  /** The agent's engine identifier (core/snmp.c:32-38), with the terminating zero of its declared size. */
  const ENGINE_ID: Bytes := [0x80, 0, 0, 0, 4, 83, 109, 97, 114, 116, 83, 78, 77, 80, 0]

  /** An integer, and the length recorded for it when the request was decoded. */
  datatype Field = Field(value: Int32, len: nat)

  /** A variable binding, with its value already encoded. */
  datatype VarBind = VarBind(oid: Oid, kind: Byte, value: Bytes)

  /** What version 3 adds. */
  datatype Security = Security(
    msgId: Field, maxSize: Field, flags: Bytes, model: Field,
    boots: Field, time: Field, user: Bytes, auth: Bytes, priv: Bytes)

  datatype Message = Message(
    version: Field, security: Security, contextName: Bytes, pduType: Byte,
    reqId: Field, errStat: Field, errIdx: Field)

  predicate Secure(m: Message) {
    m.version.value >= 3
  }

  /** The flags are the first octet received. */
  predicate Encrypts(m: Message) {
    Secure(m) && m.security.flags != [] && m.security.flags[0] / 2 % 2 == 1
  }

  // ---------------------------------------------------------------------
  // Sizes
  // ---------------------------------------------------------------------

  /** The size of an element with `n` contents octets. */
  function Size(n: nat): nat {
    1 + |LengthBytes(n)| + n
  }

  /** The size of an identifier as computed beforehand, in 8 bits. */
  function OidLen(o: Oid): nat {
    |OidBytes(o)| % 256
  }

  function VbLen(vb: VarBind): nat {
    Size(OidLen(vb.oid)) + Size(|vb.value|)
  }

  function ElementLen(vb: VarBind): nat {
    Size(VbLen(vb))
  }

  function ListLen(vbs: seq<VarBind>): nat {
    Sum(ElementLen, vbs)
  }

  function PduLen(m: Message, vbs: seq<VarBind>): nat {
    Size(ListLen(vbs)) + Size(m.reqId.len) + Size(m.errStat.len) + Size(m.errIdx.len)
  }

  function ScopeLen(m: Message, vbs: seq<VarBind>): nat {
    Size(PduLen(m, vbs)) + Size(|m.contextName|) + if Secure(m) then Size(|ENGINE_ID|) else 0
  }

  function GlobalLen(s: Security): nat {
    Size(s.msgId.len) + Size(s.maxSize.len) + Size(|s.flags|) + Size(s.model.len)
  }

  function SecurityLen(s: Security): nat {
    Size(|ENGINE_ID|) + Size(s.boots.len) + Size(s.time.len) + Size(|s.user|) + Size(|s.auth|) + Size(|s.priv|)
  }

  function DataLen(m: Message, vbs: seq<VarBind>): nat {
    var scope := ScopeLen(m, vbs);
    var secured :=
      if Secure(m) then
        Size(GlobalLen(m.security)) + Size(Size(SecurityLen(m.security))) + 1 + |LengthBytes(scope)|
        + if Encrypts(m) then 1 + |LengthBytes(Size(scope))| else 0
      else 0;
    secured + scope + Size(m.version.len)
  }

  function SendLen(m: Message, vbs: seq<VarBind>): nat {
    Size(DataLen(m, vbs))
  }

  // ---------------------------------------------------------------------
  // Octets
  // ---------------------------------------------------------------------

  function Header(tag: Byte, n: nat): Bytes {
    [tag] + LengthBytes(n)
  }

  function IntElement(f: Field): Bytes {
    Header(TAG_INT, f.len) + IntBytes(f.value)
  }

  function StrElement(s: Bytes): Bytes {
    Header(TAG_OCTSTR, |s|) + s
  }

  function VbBody(vb: VarBind): Bytes {
    Header(TAG_OBJID, OidLen(vb.oid)) + OidBytes(vb.oid) + (Header(vb.kind, |vb.value|) + vb.value)
  }

  function Element(vb: VarBind): Bytes {
    Header(TAG_SEQ, VbLen(vb)) + VbBody(vb)
  }

  function ListBytes(vbs: seq<VarBind>): Bytes {
    Concat(Element, vbs)
  }

  function PduBody(m: Message, vbs: seq<VarBind>): Bytes {
    IntElement(m.reqId) + (IntElement(m.errStat) + (IntElement(m.errIdx) + (Header(TAG_SEQ, ListLen(vbs)) + ListBytes(vbs))))
  }

  function ScopeBody(m: Message, vbs: seq<VarBind>): Bytes {
    (if Secure(m) then StrElement(ENGINE_ID) else [])
    + (StrElement(m.contextName) + (Header(m.pduType, PduLen(m, vbs)) + PduBody(m, vbs)))
  }

  function GlobalBody(s: Security): Bytes {
    IntElement(s.msgId) + (IntElement(s.maxSize) + (StrElement(s.flags) + IntElement(s.model)))
  }

  function SecurityBody(s: Security): Bytes {
    StrElement(ENGINE_ID) + (IntElement(s.boots) + (IntElement(s.time) + (StrElement(s.user) + (StrElement(s.auth) + StrElement(s.priv)))))
  }

  function SecurityString(s: Security): Bytes {
    Header(TAG_SEQ, SecurityLen(s)) + SecurityBody(s)
  }

  function DataBody(m: Message, vbs: seq<VarBind>): Bytes {
    IntElement(m.version)
    + if Secure(m) then
        Header(TAG_SEQ, GlobalLen(m.security)) + (GlobalBody(m.security)
        + (Header(TAG_OCTSTR, Size(SecurityLen(m.security))) + (SecurityString(m.security)
        + (Header(TAG_SEQ, ScopeLen(m, vbs)) + ScopeBody(m, vbs)))))
      else ScopeBody(m, vbs)
  }

  /** The datagram sent. */
  function Sent(m: Message, vbs: seq<VarBind>): Bytes {
    Header(TAG_SEQ, DataLen(m, vbs)) + DataBody(m, vbs)
  }

  // ---------------------------------------------------------------------
  // Sizes against octets
  // ---------------------------------------------------------------------

  /** By how much the octets of an integer exceed the recorded length. */
  function Excess(f: Field): int {
    |IntBytes(f.value)| - f.len
  }

  function OidExcess(o: Oid): int {
    |OidBytes(o)| - OidLen(o)
  }

  function ListExcess(vbs: seq<VarBind>): int {
    if vbs == [] then 0 else ListExcess(vbs[..|vbs| - 1]) + OidExcess(vbs[|vbs| - 1].oid)
  }

  function PduExcess(m: Message, vbs: seq<VarBind>): int {
    Excess(m.reqId) + Excess(m.errStat) + Excess(m.errIdx) + ListExcess(vbs)
  }

  function GlobalExcess(s: Security): int {
    Excess(s.msgId) + Excess(s.maxSize) + Excess(s.model)
  }

  function SecurityExcess(s: Security): int {
    Excess(s.boots) + Excess(s.time)
  }

  function TotalExcess(m: Message, vbs: seq<VarBind>): int {
    Excess(m.version) + PduExcess(m, vbs) + if Secure(m) then GlobalExcess(m.security) + SecurityExcess(m.security) else 0
  }

  lemma {:induction false} ListCount(vbs: seq<VarBind>)
    ensures |ListBytes(vbs)| == ListLen(vbs) + ListExcess(vbs)
  {
    if vbs != [] {
      ListCount(vbs[..|vbs| - 1]);
    }
  }

  lemma PduCount(m: Message, vbs: seq<VarBind>)
    ensures |PduBody(m, vbs)| == PduLen(m, vbs) + PduExcess(m, vbs)
  {
    ListCount(vbs);
  }

  lemma ScopeCount(m: Message, vbs: seq<VarBind>)
    ensures |ScopeBody(m, vbs)| == ScopeLen(m, vbs) + PduExcess(m, vbs)
  {
    PduCount(m, vbs);
  }

  lemma SecurityCount(s: Security)
    ensures |GlobalBody(s)| == GlobalLen(s) + GlobalExcess(s)
    ensures |SecurityBody(s)| == SecurityLen(s) + SecurityExcess(s)
    ensures |SecurityString(s)| == Size(SecurityLen(s)) + SecurityExcess(s)
  {
  }

  /** With encryption off, the octets written exceed the computed size by exactly the sum of the excesses. */
  lemma SentCount(m: Message, vbs: seq<VarBind>)
    requires !Encrypts(m)
    ensures |DataBody(m, vbs)| == DataLen(m, vbs) + TotalExcess(m, vbs)
    ensures |Sent(m, vbs)| == SendLen(m, vbs) + TotalExcess(m, vbs)
  {
    ScopeCount(m, vbs);
    SecurityCount(m.security);
  }

  /** The contents of a datagram whose scoped PDU is enciphered: the cipher text stands in a string. */
  function EncipheredBody(m: Message, cipher: Bytes): Bytes {
    IntElement(m.version) + (Header(TAG_SEQ, GlobalLen(m.security)) + (GlobalBody(m.security)
    + (Header(TAG_OCTSTR, Size(SecurityLen(m.security))) + (SecurityString(m.security) + StrElement(cipher)))))
  }

  /** With encryption on, the size computed leaves room for a cipher text as long as the scoped PDU. */
  lemma EncipheredCount(m: Message, vbs: seq<VarBind>, cipher: Bytes)
    requires Encrypts(m) && |cipher| == Size(ScopeLen(m, vbs))
    ensures |EncipheredBody(m, cipher)| == DataLen(m, vbs) + Excess(m.version) + GlobalExcess(m.security) + SecurityExcess(m.security)
  {
    SecurityCount(m.security);
  }

  /** Every recorded integer length is that of its encoding, and every identifier takes at most 255 octets. */
  ghost predicate Exact(m: Message, vbs: seq<VarBind>) {
    && Excess(m.version) == 0 && Excess(m.reqId) == 0 && Excess(m.errStat) == 0 && Excess(m.errIdx) == 0
    && (forall i :: 0 <= i < |vbs| ==> |OidBytes(vbs[i].oid)| <= 255)
    && (Secure(m) ==> ExactSecurity(m.security))
  }

  ghost predicate ExactSecurity(s: Security) {
    Excess(s.msgId) == 0 && Excess(s.maxSize) == 0 && Excess(s.model) == 0 && Excess(s.boots) == 0 && Excess(s.time) == 0
  }

  lemma {:induction false} ExactList(vbs: seq<VarBind>)
    requires forall i :: 0 <= i < |vbs| ==> |OidBytes(vbs[i].oid)| <= 255
    ensures ListExcess(vbs) == 0
  {
    if vbs != [] {
      var front := vbs[..|vbs| - 1];
      forall i | 0 <= i < |front| ensures |OidBytes(front[i].oid)| <= 255 { assert front[i] == vbs[i]; }
      ExactList(front);
      assert |OidBytes(vbs[|vbs| - 1].oid)| <= 255;
    }
  }

  /** Every nested length is that of the octets it brackets: bindings, PDU and scope, */
  lemma FramedPdu(m: Message, vbs: seq<VarBind>)
    requires Exact(m, vbs)
    ensures |ListBytes(vbs)| == ListLen(vbs) && |PduBody(m, vbs)| == PduLen(m, vbs) && |ScopeBody(m, vbs)| == ScopeLen(m, vbs)
  {
    ExactList(vbs);
    ListCount(vbs);
    PduCount(m, vbs);
    ScopeCount(m, vbs);
  }

  lemma FramedBinding(vb: VarBind)
    requires |OidBytes(vb.oid)| <= 255
    ensures |VbBody(vb)| == VbLen(vb) && OidLen(vb.oid) == |OidBytes(vb.oid)|
  {
  }

  /** the global data and the security parameters, */
  lemma FramedSecurity(s: Security)
    requires ExactSecurity(s)
    ensures |GlobalBody(s)| == GlobalLen(s) && |SecurityBody(s)| == SecurityLen(s) && |SecurityString(s)| == Size(SecurityLen(s))
  {
    SecurityCount(s);
  }

  /** and, with encryption off, the whole datagram. */
  lemma FramedDatagram(m: Message, vbs: seq<VarBind>)
    requires Exact(m, vbs) && !Encrypts(m)
    ensures |DataBody(m, vbs)| == DataLen(m, vbs) && |Sent(m, vbs)| == SendLen(m, vbs)
  {
    ExactList(vbs);
    SentCount(m, vbs);
  }

  lemma OneOctet(v: Int32)
    ensures |IntBytes(0)| == 1 && (|IntBytes(v)| == 1 <==> -128 <= v < 128)
  {
  }

  lemma IndexExcess(m: Message, vbs: seq<VarBind>, f: Field)
    requires Exact(m, vbs)
    ensures TotalExcess(m.(errIdx := f), vbs) == Excess(f)
  {
    ExactList(vbs);
  }

  /** GETBULK answers with error index 0, but keeps the recorded length of the repetition count:
      from 128 repetitions on the datagram is shorter than announced. */
  lemma BulkFallsShort(m: Message, vbs: seq<VarBind>, repetitions: Int32)
    requires Exact(m, vbs) && !Encrypts(m) && m.errIdx == Field(repetitions, |IntBytes(repetitions)|)
    ensures |Sent(m.(errIdx := m.errIdx.(value := 0)), vbs)| == SendLen(m.(errIdx := m.errIdx.(value := 0)), vbs)
      <==> -128 <= repetitions < 128
  {
    var m' := m.(errIdx := m.errIdx.(value := 0));
    SentCount(m', vbs);
    OneOctet(repetitions);
    IndexExcess(m, vbs, m'.errIdx);
  }
}
