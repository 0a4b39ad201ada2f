/** Decoding what version 3 puts before the context name (core/snmp_msg_in.c:236-380, 463-543). */
module DecodeSecure {
  import opened Ber
  import opened Framing
  import opened Parsing
  import opened Elements
  import opened SecureHeader
  import opened DecodeElements

  /** `global_data_decode`. */
  method GlobalAt(buf: Bytes, pos: nat) returns (r: Parsed<Global>, next: nat)
    requires pos <= |buf|
    ensures r == ParseGlobal(buf[pos..]) && (r.Ok? ==> At(buf, next, r.rest))
  {
    next := pos;
    var msgId, a := IntAt(buf, pos, ERR_GLOBAL_ID);
    if !msgId.Ok? {
      return if msgId.Err? then Err(msgId.code) else Malformed, pos;
    }
    var maxSize, b := IntAt(buf, a, ERR_GLOBAL_SIZE);
    if !maxSize.Ok? {
      return if maxSize.Err? then Err(maxSize.code) else Malformed, pos;
    }
    var flags, c := TextAt(buf, b, ERR_GLOBAL_FLAGS, Any, ERR_GLOBAL_FLAGS);
    if !flags.Ok? {
      return if flags.Err? then Err(flags.code) else Malformed, pos;
    }
    var model;
    model, next := IntAt(buf, c, ERR_GLOBAL_MODEL);
    if !model.Ok? {
      return if model.Err? then Err(model.code) else Malformed, pos;
    }
    r := Ok(Global(msgId.value, maxSize.value, flags.value, model.value), model.rest);
  }

  method EngineAt(buf: Bytes, pos: nat) returns (r: Parsed<Engine>, next: nat)
    requires pos <= |buf|
    ensures r == ParseEngine(buf[pos..]) && (r.Ok? ==> At(buf, next, r.rest))
  {
    next := pos;
    var id, a := TextAt(buf, pos, ERR_SECURITY_ENGINE_ID, UpTo(ENGINE_ID_MAX), ERR_SECURITY_ENGINE_ID_LEN);
    if !id.Ok? {
      return if id.Err? then Err(id.code) else Malformed, pos;
    }
    var boots, b := IntAt(buf, a, ERR_SECURITY_ENGINE_BOOTS);
    if !boots.Ok? {
      return if boots.Err? then Err(boots.code) else Malformed, pos;
    }
    var time;
    time, next := IntAt(buf, b, ERR_SECURITY_ENGINE_TIME);
    if !time.Ok? {
      return if time.Err? then Err(time.code) else Malformed, pos;
    }
    r := Ok(Engine(id.value, boots.value, time.value), time.rest);
  }

  method UserAt(buf: Bytes, pos: nat) returns (r: Parsed<User>, next: nat)
    requires pos <= |buf|
    ensures r == ParseUser(buf[pos..]) && (r.Ok? ==> At(buf, next, r.rest))
  {
    next := pos;
    var name, a := TextAt(buf, pos, ERR_SECURITY_USER_NAME, UpTo(USER_NAME_MAX), ERR_SECURITY_USER_NAME_LEN);
    if !name.Ok? {
      return if name.Err? then Err(name.code) else Malformed, pos;
    }
    var auth, b := TextAt(buf, a, ERR_SECURITY_AUTH_PARA, ZeroOr(AUTH_PARA_LEN), ERR_SECURITY_AUTH_PARA_LEN);
    if !auth.Ok? {
      return if auth.Err? then Err(auth.code) else Malformed, pos;
    }
    var priv;
    priv, next := TextAt(buf, b, ERR_SECURITY_ENGINE_TIME, ZeroOr(PRIV_PARA_LEN), ERR_SECURITY_PRIV_PARA_LEN);
    if !priv.Ok? {
      return if priv.Err? then Err(priv.code) else Malformed, pos;
    }
    r := Ok(User(name.value, auth.value, priv.value), priv.rest);
  }

  /** `security_parameter_decode`. */
  method ParametersAt(buf: Bytes, pos: nat) returns (r: Parsed<(Engine, User)>, next: nat)
    requires pos <= |buf|
    ensures r == ParseParameters(buf[pos..]) && (r.Ok? ==> At(buf, next, r.rest))
  {
    next := pos;
    var str, a := TagAt(buf, pos, TAG_OCTSTR, ERR_SECURITY_STR);
    if !str.Ok? {
      return if str.Err? then Err(str.code) else Malformed, pos;
    }
    var para, b := TagAt(buf, a, TAG_SEQ, ERR_SECURITY_SEQ);
    if !para.Ok? {
      return if para.Err? then Err(para.code) else Malformed, pos;
    }
    var engine, c := EngineAt(buf, b);
    if !engine.Ok? {
      return if engine.Err? then Err(engine.code) else Malformed, pos;
    }
    var user;
    user, next := UserAt(buf, c);
    if !user.Ok? {
      return if user.Err? then Err(user.code) else Malformed, pos;
    }
    r := Ok((engine.value, user.value), user.rest);
  }

  /** Global data and security parameters. */
  method HeadAt(buf: Bytes, pos: nat) returns (r: Parsed<SecureHead>, next: nat)
    requires pos <= |buf|
    ensures r == ParseHead(buf[pos..]) && (r.Ok? ==> At(buf, next, r.rest))
  {
    next := pos;
    var len, a := TagAt(buf, pos, TAG_SEQ, ERR_GLOBAL_DATA_LEN);
    if !len.Ok? {
      return if len.Err? then Err(len.code) else Malformed, pos;
    }
    var g, b := GlobalAt(buf, a);
    if !g.Ok? {
      return if g.Err? then Err(g.code) else Malformed, pos;
    }
    var p;
    p, next := ParametersAt(buf, b);
    if !p.Ok? {
      return if p.Err? then Err(p.code) else Malformed, pos;
    }
    var (e, u) := p.value;
    r := Ok(SecureHead(Security(g.value.msgId, g.value.maxSize, g.value.flags, g.value.model, e.boots, e.time, u.name, u.auth, u.priv), e.id), p.rest);
  }

  /** The head of the scoped PDU. */
  method ScopeAt(buf: Bytes, pos: nat) returns (r: Parsed<Bytes>, next: nat)
    requires pos <= |buf|
    ensures r == ParseScope(buf[pos..]) && (r.Ok? ==> At(buf, next, r.rest))
  {
    next := pos;
    var len, a := TagAt(buf, pos, TAG_SEQ, ERR_SCOPE_PDU_SEQ);
    if !len.Ok? {
      return if len.Err? then Err(len.code) else Malformed, pos;
    }
    r, next := TextAt(buf, a, ERR_CONTEXT_ID, UpTo(ENGINE_ID_MAX), ERR_CONTEXT_ID_LEN);
  }
}
