/** Reading tagged elements (core/snmp_msg_in.c:93-574): what the octets say, and that what was written is
    read back. Tags are those of section 8.1.2 of X.690. */
module Elements {
  import opened Oids
  import opened Ber
  import opened BerDecode
  import opened Framing
  import opened Parsing

  function ParseLength(s: Bytes): Parsed<nat> {
    if s == [] || LengthSize(s) > |s| then Malformed else Ok(LengthValue(s), s[LengthSize(s)..])
  }

  /** `n` contents octets. */
  function ParseOctets(s: Bytes, n: nat): Parsed<Bytes> {
    if n > |s| then Malformed else Ok(s[..n], s[n..])
  }

  /** An element with a given tag. */
  function ParseElement(s: Bytes, tag: Byte, code: int): Parsed<Bytes> {
    if s == [] then Malformed
    else if s[0] != tag then Err(code)
    else match ParseLength(s[1..])
      case Ok(n, rest) => ParseOctets(rest, n)
      case _ => Malformed
  }

  function ParseInt(s: Bytes, code: int): Parsed<Field> {
    match ParseElement(s, 0x02, code)
    case Ok(b, rest) => if |b| > 4 then Malformed else Ok(Field(if b == [] then 0 else Word32(b), |b|), rest)
    case Err(c) => Err(c)
    case Malformed => Malformed
  }

  function Word32(b: Bytes): Int32
    requires 1 <= |b| <= 4
  {
    SignedBound(b);
    Signed(b)
  }

  lemma SignedBound(b: Bytes)
    requires 1 <= |b| <= 4
    ensures -TWO31 <= Signed(b) < TWO31
  {
    HighBit(b);
    ValueBound(b);
    PowMono(|b| - 1, 3);
    assert Pow(|b|) == 256 * Pow(|b| - 1) && Pow(2) == 65536 && Pow(3) == 16777216;
  }

  /** A tag, and the length after it. */
  function ParseTag(s: Bytes, tag: Byte, code: int): Parsed<nat> {
    if s == [] then Malformed
    else if s[0] != tag then Err(code)
    else ParseLength(s[1..])
  }

  /** What is asked of the length of a string: that it fits a buffer with a terminating zero, in 32 bits;
      that it is zero or a given length; or nothing. */
  datatype Limit = UpTo(max: nat) | ZeroOr(len: nat) | Any

  predicate Allows(limit: Limit, n: nat) {
    match limit
    case UpTo(max) => (n + 1) % TWO32 <= max + 1
    case ZeroOr(len) => n == 0 || n == len
    case Any => true
  }

  /** A string whose length is checked before it is read. */
  function ParseText(s: Bytes, code: int, limit: Limit, lenCode: int): Parsed<Bytes> {
    match ParseTag(s, 0x04, code)
    case Ok(n, rest) => if !Allows(limit, n) then Err(lenCode) else ParseOctets(rest, n)
    case Err(c) => Err(c)
    case Malformed => Malformed
  }

  // ---------------------------------------------------------------------
  // Round trip
  // ---------------------------------------------------------------------

  lemma ReadLength(n: nat, rest: Bytes)
    requires n < TWO32
    ensures ParseLength(LengthBytes(n) + rest) == Ok(n, rest)
  {
    LengthRoundTrip(n, rest);
    Prefix(LengthBytes(n), rest);
  }

  lemma ReadHeader(tag: Byte, n: nat, rest: Bytes)
    requires n < TWO32
    ensures (Header(tag, n) + rest)[0] == tag && ParseLength((Header(tag, n) + rest)[1..]) == Ok(n, rest)
  {
    ReadLength(n, rest);
    Assoc([tag], LengthBytes(n), rest);
    Prefix([tag], LengthBytes(n) + rest);
  }

  lemma ReadElement(tag: Byte, b: Bytes, rest: Bytes, code: int)
    requires |b| < TWO32
    ensures ParseElement(Header(tag, |b|) + b + rest, tag, code) == Ok(b, rest)
  {
    ReadHeader(tag, |b|, b + rest);
    Assoc(Header(tag, |b|), b, rest);
    Prefix(b, rest);
  }

  lemma ReadInt(f: Field, rest: Bytes, code: int)
    requires Excess(f) == 0
    ensures ParseInt(IntElement(f) + rest, code) == Ok(f, rest)
  {
    IntRoundTrip(f.value);
    ReadElement(TAG_INT, IntBytes(f.value), rest, code);
  }

  lemma ReadTag(tag: Byte, n: nat, rest: Bytes, code: int)
    requires n < TWO32
    ensures ParseTag(Header(tag, n) + rest, tag, code) == Ok(n, rest)
  {
    ReadHeader(tag, n, rest);
  }

  lemma ReadText(text: Bytes, rest: Bytes, code: int, limit: Limit, lenCode: int)
    requires |text| < TWO32 && Allows(limit, |text|)
    ensures ParseText(StrElement(text) + rest, code, limit, lenCode) == Ok(text, rest)
  {
    ReadTag(TAG_OCTSTR, |text|, text + rest, code);
    Assoc(Header(TAG_OCTSTR, |text|), text, rest);
    Prefix(text, rest);
  }
}
