/** Reading tagged elements with a cursor that advances over the received buffer (core/snmp_msg_in.c:93-574). */
module DecodeElements {
  import opened Ber
  import opened BerDecode
  import opened Framing
  import opened Parsing
  import opened Elements

  /** The cursor stands where the rest begins. */
  ghost predicate At(buf: Bytes, next: nat, rest: Bytes) {
    next <= |buf| && rest == buf[next..]
  }

  method LengthAt(buf: Bytes, pos: nat) returns (r: Parsed<nat>, next: nat)
    requires pos <= |buf|
    ensures r == ParseLength(buf[pos..]) && (r.Ok? ==> pos < next && At(buf, next, r.rest))
  {
    var s := buf[pos..];
    if s == [] || LengthSize(s) > |s| {
      return Malformed, pos;
    }
    var len, value := LengthDec(s);
    next := pos + len;
    r := Ok(value, buf[next..]);
  }

  /** An element with a given tag, and its contents. */
  method ElementAt(buf: Bytes, pos: nat, tag: Byte, code: int) returns (r: Parsed<Bytes>, next: nat)
    requires pos <= |buf|
    ensures r == ParseElement(buf[pos..], tag, code) && (r.Ok? ==> At(buf, next, r.rest))
  {
    next := pos;
    if pos == |buf| {
      return Malformed, pos;
    }
    if buf[pos] != tag {
      return Err(code), pos;
    }
    assert buf[pos..][1..] == buf[pos + 1..];
    var len, body := LengthAt(buf, pos + 1);
    if !len.Ok? {
      return Malformed, pos;
    }
    if len.value > |buf| - body {
      return Malformed, pos;
    }
    next := body + len.value;
    assert buf[body..][..len.value] == buf[body..next] && buf[body..][len.value..] == buf[next..];
    r := Ok(buf[body..next], buf[next..]);
  }

  method IntAt(buf: Bytes, pos: nat, code: int) returns (r: Parsed<Field>, next: nat)
    requires pos <= |buf|
    ensures r == ParseInt(buf[pos..], code) && (r.Ok? ==> At(buf, next, r.rest))
  {
    var b;
    b, next := ElementAt(buf, pos, TAG_INT, code);
    if b.Err? {
      return Err(b.code), pos;
    }
    if b.Malformed? || |b.value| > 4 {
      return Malformed, pos;
    }
    var value: Int32 := 0;
    if |b.value| > 0 {
      value := IntDec(b.value);
    }
    r := Ok(Field(value, |b.value|), b.rest);
  }

  /** A tag, and the length after it. */
  method TagAt(buf: Bytes, pos: nat, tag: Byte, code: int) returns (r: Parsed<nat>, next: nat)
    requires pos <= |buf|
    ensures r == ParseTag(buf[pos..], tag, code) && (r.Ok? ==> pos < next && At(buf, next, r.rest))
  {
    next := pos;
    if pos == |buf| {
      return Malformed, pos;
    }
    if buf[pos] != tag {
      return Err(code), pos;
    }
    assert buf[pos..][1..] == buf[pos + 1..];
    r, next := LengthAt(buf, pos + 1);
  }

  /** A string whose length is checked before it is read. */
  method TextAt(buf: Bytes, pos: nat, code: int, limit: Limit, lenCode: int) returns (r: Parsed<Bytes>, next: nat)
    requires pos <= |buf|
    ensures r == ParseText(buf[pos..], code, limit, lenCode) && (r.Ok? ==> At(buf, next, r.rest))
  {
    var len, body := TagAt(buf, pos, TAG_OCTSTR, code);
    next := pos;
    if !len.Ok? {
      return if len.Err? then Err(len.code) else Malformed, pos;
    }
    if !Allows(limit, len.value) {
      return Err(lenCode), pos;
    }
    if len.value > |buf| - body {
      return Malformed, pos;
    }
    next := body + len.value;
    assert buf[body..][..len.value] == buf[body..next] && buf[body..][len.value..] == buf[next..];
    r := Ok(buf[body..next], buf[next..]);
  }
}
