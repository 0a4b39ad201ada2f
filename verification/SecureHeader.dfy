/** What version 3 puts before the context name: global data, security parameters and the head of the scoped
    PDU (core/snmp_msg_in.c:236-380, 463-543). */
module SecureHeader {
  import opened Oids
  import opened Ber
  import opened Framing
  import opened Parsing
  import opened Elements

  const ERR_GLOBAL_DATA_LEN := -200
  const ERR_GLOBAL_ID := -201
  const ERR_GLOBAL_SIZE := -202
  const ERR_GLOBAL_FLAGS := -203
  const ERR_GLOBAL_MODEL := -204
  const ERR_SECURITY_STR := -300
  const ERR_SECURITY_SEQ := -301
  const ERR_SECURITY_ENGINE_ID := -302
  const ERR_SECURITY_ENGINE_ID_LEN := -303
  const ERR_SECURITY_ENGINE_BOOTS := -304
  const ERR_SECURITY_ENGINE_TIME := -305
  const ERR_SECURITY_USER_NAME := -306
  const ERR_SECURITY_USER_NAME_LEN := -307
  const ERR_SECURITY_AUTH_PARA := -308
  const ERR_SECURITY_AUTH_PARA_LEN := -309
  const ERR_SECURITY_PRIV_PARA_LEN := -311
  const ERR_SCOPE_PDU_SEQ := -400
  const ERR_CONTEXT_ID := -500
  const ERR_CONTEXT_ID_LEN := -501

  const ENGINE_ID_MAX := 32
  const USER_NAME_MAX := 40
  const AUTH_PARA_LEN := 12
  const PRIV_PARA_LEN := 8

  datatype Global = Global(msgId: Field, maxSize: Field, flags: Bytes, model: Field)

  datatype Engine = Engine(id: Bytes, boots: Field, time: Field)

  datatype User = User(name: Bytes, auth: Bytes, priv: Bytes)

  /** The security part of a message, and the engine identifier in it. */
  datatype SecureHead = SecureHead(security: Security, engineId: Bytes)

  /** The flags ask for authentication and for encryption. */
  predicate MayBeEnciphered(flags: Bytes) {
    flags != [] && flags[0] % 2 == 1 && flags[0] / 2 % 2 == 1
  }

  // ---------------------------------------------------------------------
  // What the octets say
  // ---------------------------------------------------------------------

  function ParseGlobal(s: Bytes): Parsed<Global> {
    match ParseInt(s, ERR_GLOBAL_ID)
    case Err(e) => Err(e)
    case Malformed => Malformed
    case Ok(msgId, a) => (match ParseInt(a, ERR_GLOBAL_SIZE)
      case Err(e) => Err(e)
      case Malformed => Malformed
      case Ok(maxSize, b) => (match ParseText(b, ERR_GLOBAL_FLAGS, Any, ERR_GLOBAL_FLAGS)
        case Err(e) => Err(e)
        case Malformed => Malformed
        case Ok(flags, c) => (match ParseInt(c, ERR_GLOBAL_MODEL)
          case Err(e) => Err(e)
          case Malformed => Malformed
          case Ok(model, d) => Ok(Global(msgId, maxSize, flags, model), d))))
  }

  function ParseEngine(s: Bytes): Parsed<Engine> {
    match ParseText(s, ERR_SECURITY_ENGINE_ID, UpTo(ENGINE_ID_MAX), ERR_SECURITY_ENGINE_ID_LEN)
    case Err(e) => Err(e)
    case Malformed => Malformed
    case Ok(id, a) => (match ParseInt(a, ERR_SECURITY_ENGINE_BOOTS)
      case Err(e) => Err(e)
      case Malformed => Malformed
      case Ok(boots, b) => (match ParseInt(b, ERR_SECURITY_ENGINE_TIME)
        case Err(e) => Err(e)
        case Malformed => Malformed
        case Ok(time, c) => Ok(Engine(id, boots, time), c)))
  }

  /** A wrong tag of the privacy parameter is reported like one of the engine time. */
  function ParseUser(s: Bytes): Parsed<User> {
    match ParseText(s, ERR_SECURITY_USER_NAME, UpTo(USER_NAME_MAX), ERR_SECURITY_USER_NAME_LEN)
    case Err(e) => Err(e)
    case Malformed => Malformed
    case Ok(name, a) => (match ParseText(a, ERR_SECURITY_AUTH_PARA, ZeroOr(AUTH_PARA_LEN), ERR_SECURITY_AUTH_PARA_LEN)
      case Err(e) => Err(e)
      case Malformed => Malformed
      case Ok(auth, b) => (match ParseText(b, ERR_SECURITY_ENGINE_TIME, ZeroOr(PRIV_PARA_LEN), ERR_SECURITY_PRIV_PARA_LEN)
        case Err(e) => Err(e)
        case Malformed => Malformed
        case Ok(priv, c) => Ok(User(name, auth, priv), c)))
  }

  /** The security parameters: a sequence inside of a string. */
  function ParseParameters(s: Bytes): Parsed<(Engine, User)> {
    match ParseTag(s, 0x04, ERR_SECURITY_STR)
    case Err(e) => Err(e)
    case Malformed => Malformed
    case Ok(_, a) => (match ParseTag(a, 0x30, ERR_SECURITY_SEQ)
      case Err(e) => Err(e)
      case Malformed => Malformed
      case Ok(_, b) => (match ParseEngine(b)
        case Err(e) => Err(e)
        case Malformed => Malformed
        case Ok(engine, c) => (match ParseUser(c)
          case Err(e) => Err(e)
          case Malformed => Malformed
          case Ok(user, d) => Ok((engine, user), d))))
  }

  function Assembled(g: Global, e: Engine, u: User): SecureHead {
    SecureHead(Security(g.msgId, g.maxSize, g.flags, g.model, e.boots, e.time, u.name, u.auth, u.priv), e.id)
  }

  /** Global data and security parameters. */
  function ParseHead(s: Bytes): Parsed<SecureHead> {
    match ParseTag(s, 0x30, ERR_GLOBAL_DATA_LEN)
    case Err(e) => Err(e)
    case Malformed => Malformed
    case Ok(_, a) => (match ParseGlobal(a)
      case Err(e) => Err(e)
      case Malformed => Malformed
      case Ok(g, b) => (match ParseParameters(b)
        case Err(e) => Err(e)
        case Malformed => Malformed
        case Ok(p, c) => Ok(Assembled(g, p.0, p.1), c)))
  }

  /** The head of the scoped PDU, with the engine of the context. */
  function ParseScope(s: Bytes): Parsed<Bytes> {
    match ParseTag(s, 0x30, ERR_SCOPE_PDU_SEQ)
    case Err(e) => Err(e)
    case Malformed => Malformed
    case Ok(_, a) => ParseText(a, ERR_CONTEXT_ID, UpTo(ENGINE_ID_MAX), ERR_CONTEXT_ID_LEN)
  }

  // ---------------------------------------------------------------------
  // Round trip
  // ---------------------------------------------------------------------

  /** Exact lengths, and strings that fit. */
  ghost predicate HeadOk(s: Security) {
    && ExactSecurity(s) && |s.flags| < TWO32 && |s.user| <= USER_NAME_MAX
    && (s.auth == [] || |s.auth| == AUTH_PARA_LEN) && (s.priv == [] || |s.priv| == PRIV_PARA_LEN)
  }

  lemma GlobalFrom(s: Bytes, g: Global, a: Bytes, b: Bytes, c: Bytes, d: Bytes)
    requires ParseInt(s, ERR_GLOBAL_ID) == Ok(g.msgId, a) && ParseInt(a, ERR_GLOBAL_SIZE) == Ok(g.maxSize, b)
    requires ParseText(b, ERR_GLOBAL_FLAGS, Any, ERR_GLOBAL_FLAGS) == Ok(g.flags, c) && ParseInt(c, ERR_GLOBAL_MODEL) == Ok(g.model, d)
    ensures ParseGlobal(s) == Ok(g, d)
  {
  }

  lemma ReadGlobal(s: Security, rest: Bytes)
    requires HeadOk(s)
    ensures ParseGlobal(GlobalBody(s) + rest) == Ok(Global(s.msgId, s.maxSize, s.flags, s.model), rest)
  {
    var c := IntElement(s.model) + rest;
    var b := StrElement(s.flags) + c;
    var a := IntElement(s.maxSize) + b;
    FourParts(IntElement(s.msgId), IntElement(s.maxSize), StrElement(s.flags), IntElement(s.model), rest);
    ReadInt(s.msgId, a, ERR_GLOBAL_ID);
    ReadInt(s.maxSize, b, ERR_GLOBAL_SIZE);
    ReadText(s.flags, c, ERR_GLOBAL_FLAGS, Any, ERR_GLOBAL_FLAGS);
    ReadInt(s.model, rest, ERR_GLOBAL_MODEL);
    GlobalFrom(IntElement(s.msgId) + a, Global(s.msgId, s.maxSize, s.flags, s.model), a, b, c, rest);
  }

  lemma FourParts(a: Bytes, b: Bytes, c: Bytes, d: Bytes, rest: Bytes)
    ensures a + (b + (c + d)) + rest == a + (b + (c + (d + rest)))
  {
    Assoc(a, b + (c + d), rest);
    Assoc(b, c + d, rest);
    Assoc(c, d, rest);
  }

  lemma EngineFrom(s: Bytes, e: Engine, a: Bytes, b: Bytes, c: Bytes)
    requires ParseText(s, ERR_SECURITY_ENGINE_ID, UpTo(ENGINE_ID_MAX), ERR_SECURITY_ENGINE_ID_LEN) == Ok(e.id, a)
    requires ParseInt(a, ERR_SECURITY_ENGINE_BOOTS) == Ok(e.boots, b) && ParseInt(b, ERR_SECURITY_ENGINE_TIME) == Ok(e.time, c)
    ensures ParseEngine(s) == Ok(e, c)
  {
  }

  lemma ReadEngine(e: Engine, rest: Bytes)
    requires |e.id| <= ENGINE_ID_MAX && Excess(e.boots) == 0 && Excess(e.time) == 0
    ensures ParseEngine(StrElement(e.id) + (IntElement(e.boots) + (IntElement(e.time) + rest))) == Ok(e, rest)
  {
    var b := IntElement(e.time) + rest;
    var a := IntElement(e.boots) + b;
    ReadText(e.id, a, ERR_SECURITY_ENGINE_ID, UpTo(ENGINE_ID_MAX), ERR_SECURITY_ENGINE_ID_LEN);
    ReadInt(e.boots, b, ERR_SECURITY_ENGINE_BOOTS);
    ReadInt(e.time, rest, ERR_SECURITY_ENGINE_TIME);
    EngineFrom(StrElement(e.id) + a, e, a, b, rest);
  }

  lemma UserFrom(s: Bytes, u: User, a: Bytes, b: Bytes, c: Bytes)
    requires ParseText(s, ERR_SECURITY_USER_NAME, UpTo(USER_NAME_MAX), ERR_SECURITY_USER_NAME_LEN) == Ok(u.name, a)
    requires ParseText(a, ERR_SECURITY_AUTH_PARA, ZeroOr(AUTH_PARA_LEN), ERR_SECURITY_AUTH_PARA_LEN) == Ok(u.auth, b)
    requires ParseText(b, ERR_SECURITY_ENGINE_TIME, ZeroOr(PRIV_PARA_LEN), ERR_SECURITY_PRIV_PARA_LEN) == Ok(u.priv, c)
    ensures ParseUser(s) == Ok(u, c)
  {
  }

  lemma ReadUser(u: User, rest: Bytes)
    requires |u.name| <= USER_NAME_MAX && (u.auth == [] || |u.auth| == AUTH_PARA_LEN) && (u.priv == [] || |u.priv| == PRIV_PARA_LEN)
    ensures ParseUser(StrElement(u.name) + (StrElement(u.auth) + (StrElement(u.priv) + rest))) == Ok(u, rest)
  {
    var b := StrElement(u.priv) + rest;
    var a := StrElement(u.auth) + b;
    ReadText(u.name, a, ERR_SECURITY_USER_NAME, UpTo(USER_NAME_MAX), ERR_SECURITY_USER_NAME_LEN);
    ReadText(u.auth, b, ERR_SECURITY_AUTH_PARA, ZeroOr(AUTH_PARA_LEN), ERR_SECURITY_AUTH_PARA_LEN);
    ReadText(u.priv, rest, ERR_SECURITY_ENGINE_TIME, ZeroOr(PRIV_PARA_LEN), ERR_SECURITY_PRIV_PARA_LEN);
    UserFrom(StrElement(u.name) + a, u, a, b, rest);
  }

  lemma SixParts(a: Bytes, b: Bytes, c: Bytes, d: Bytes, e: Bytes, f: Bytes, rest: Bytes)
    ensures a + (b + (c + (d + (e + f)))) + rest == a + (b + (c + (d + (e + (f + rest)))))
  {
    FourParts(a, b, c, d + (e + f), rest);
    Assoc(d, e + f, rest);
    Assoc(e, f, rest);
  }

  lemma ParametersFrom(s: Bytes, n: nat, a: Bytes, k: nat, b: Bytes, e: Engine, c: Bytes, u: User, d: Bytes)
    requires ParseTag(s, 0x04, ERR_SECURITY_STR) == Ok(n, a) && ParseTag(a, 0x30, ERR_SECURITY_SEQ) == Ok(k, b)
    requires ParseEngine(b) == Ok(e, c) && ParseUser(c) == Ok(u, d)
    ensures ParseParameters(s) == Ok((e, u), d)
  {
  }

  lemma ReadBodies(s: Security, rest: Bytes)
    requires HeadOk(s)
    ensures var users := StrElement(s.user) + (StrElement(s.auth) + (StrElement(s.priv) + rest));
      && ParseEngine(SecurityBody(s) + rest) == Ok(Engine(ENGINE_ID, s.boots, s.time), users)
      && ParseUser(users) == Ok(User(s.user, s.auth, s.priv), rest)
  {
    SixParts(StrElement(ENGINE_ID), IntElement(s.boots), IntElement(s.time), StrElement(s.user), StrElement(s.auth), StrElement(s.priv), rest);
    ReadEngine(Engine(ENGINE_ID, s.boots, s.time), StrElement(s.user) + (StrElement(s.auth) + (StrElement(s.priv) + rest)));
    ReadUser(User(s.user, s.auth, s.priv), rest);
  }

  lemma ReadParameters(s: Security, rest: Bytes)
    requires HeadOk(s) && Size(SecurityLen(s)) < TWO32
    ensures ParseParameters(Header(TAG_OCTSTR, Size(SecurityLen(s))) + (SecurityString(s) + rest))
      == Ok((Engine(ENGINE_ID, s.boots, s.time), User(s.user, s.auth, s.priv)), rest)
  {
    var b := SecurityBody(s) + rest;
    var a := SecurityString(s) + rest;
    Assoc(Header(TAG_SEQ, SecurityLen(s)), SecurityBody(s), rest);
    ReadTag(TAG_OCTSTR, Size(SecurityLen(s)), a, ERR_SECURITY_STR);
    ReadTag(TAG_SEQ, SecurityLen(s), b, ERR_SECURITY_SEQ);
    ReadBodies(s, rest);
    ParametersFrom(Header(TAG_OCTSTR, Size(SecurityLen(s))) + a, Size(SecurityLen(s)), a, SecurityLen(s), b,
      Engine(ENGINE_ID, s.boots, s.time), StrElement(s.user) + (StrElement(s.auth) + (StrElement(s.priv) + rest)),
      User(s.user, s.auth, s.priv), rest);
  }

  /** The octets of the global data and the security parameters, as they are sent. */
  function HeadOctets(s: Security): Bytes {
    Header(TAG_SEQ, GlobalLen(s)) + (GlobalBody(s) + (Header(TAG_OCTSTR, Size(SecurityLen(s))) + SecurityString(s)))
  }

  lemma HeadParts(s: Security, rest: Bytes)
    ensures HeadOctets(s) + rest
      == Header(TAG_SEQ, GlobalLen(s)) + (GlobalBody(s) + (Header(TAG_OCTSTR, Size(SecurityLen(s))) + (SecurityString(s) + rest)))
  {
    FourParts(Header(TAG_SEQ, GlobalLen(s)), GlobalBody(s), Header(TAG_OCTSTR, Size(SecurityLen(s))), SecurityString(s), rest);
  }

  lemma HeadFrom(s: Bytes, n: nat, a: Bytes, g: Global, b: Bytes, e: Engine, u: User, c: Bytes)
    requires ParseTag(s, 0x30, ERR_GLOBAL_DATA_LEN) == Ok(n, a) && ParseGlobal(a) == Ok(g, b) && ParseParameters(b) == Ok((e, u), c)
    ensures ParseHead(s) == Ok(Assembled(g, e, u), c)
  {
  }

  /** Every field of the security part is read back. */
  lemma ReadHead(s: Security, rest: Bytes)
    requires HeadOk(s) && GlobalLen(s) < TWO32 && Size(SecurityLen(s)) < TWO32
    ensures ParseHead(HeadOctets(s) + rest) == Ok(SecureHead(s, ENGINE_ID), rest)
  {
    var b := Header(TAG_OCTSTR, Size(SecurityLen(s))) + (SecurityString(s) + rest);
    var a := GlobalBody(s) + b;
    HeadParts(s, rest);
    ReadTag(TAG_SEQ, GlobalLen(s), a, ERR_GLOBAL_DATA_LEN);
    ReadGlobal(s, b);
    ReadParameters(s, rest);
    HeadFrom(Header(TAG_SEQ, GlobalLen(s)) + a, GlobalLen(s), a, Global(s.msgId, s.maxSize, s.flags, s.model), b,
      Engine(ENGINE_ID, s.boots, s.time), User(s.user, s.auth, s.priv), rest);
  }

  /** The octets of the head of the scoped PDU. */
  function ScopeOctets(n: nat): Bytes {
    Header(TAG_SEQ, n) + StrElement(ENGINE_ID)
  }

  lemma ReadScope(n: nat, rest: Bytes)
    requires n < TWO32
    ensures ParseScope(ScopeOctets(n) + rest) == Ok(ENGINE_ID, rest)
  {
    Assoc(Header(TAG_SEQ, n), StrElement(ENGINE_ID), rest);
    ReadTag(TAG_SEQ, n, StrElement(ENGINE_ID) + rest, ERR_SCOPE_PDU_SEQ);
    ReadText(ENGINE_ID, rest, ERR_CONTEXT_ID, UpTo(ENGINE_ID_MAX), ERR_CONTEXT_ID_LEN);
  }
}
