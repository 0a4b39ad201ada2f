/** What is built from the streaming context: keyed digests and localized keys (3rd/crypto/openssl_md5.c:185-334). */
module Md5 {
  import opened Oids
  import opened Ber
  import opened Digests
  import opened Md32

  const SECRET_LEN := 16
  const PASSWORD_STREAM := 1048576

  /** The digest is as long as MD5's. */
  ghost predicate Sized(alg: Alg) {
    forall regs :: |alg.digest(regs)| == SECRET_LEN
  }

  function Flat(chunks: seq<Bytes>): Bytes {
    if chunks == [] then [] else Flat(chunks[..|chunks| - 1]) + chunks[|chunks| - 1]
  }

  /** However a message is split, its digest is that of the whole. */
  method Streaming(alg: Alg, chunks: seq<Bytes>) returns (md: Bytes)
    ensures md == Digest(alg, Flat(chunks)) && IsDigest(alg, Flat(chunks), md)
  {
    var c := new Context(alg);
    for i := 0 to |chunks|
      invariant fresh(c) && fresh(c.data) && c.alg == alg && c.Valid() && c.Message() == Flat(chunks[..i])
    {
      c.Update(chunks[i]);
      assert chunks[..i + 1][..i] == chunks[..i];
    }
    assert chunks[..|chunks|] == chunks;
    md := c.Final();
  }

  /** The loop that feeds the message in pieces of 64 bytes. */
  method Feed(c: Context, data: Bytes)
    requires c.Valid()
    modifies c, c.data
    ensures c.Valid() && c.Message() == old(c.Message()) + data
  {
    var pos := 0;
    ghost var before := c.Message();
    assert before + data[..0] == before;
    while |data| - pos >= 64
      invariant 0 <= pos <= |data| && c.Valid() && c.Message() == before + data[..pos]
    {
      c.Update(data[pos..pos + 64]);
      Extend(before, data, pos, pos + 64);
      pos := pos + 64;
    }
    c.Update(data[pos..]);
    Extend(before, data, pos, |data|);
    assert data[pos..] == data[pos..|data|] && data[..|data|] == data;
  }

  lemma Extend(before: Bytes, data: Bytes, p: nat, q: nat)
    requires p <= q <= |data|
    ensures before + data[..p] + data[p..q] == before + data[..q]
  {
    Assoc(before, data[..p], data[p..q]);
    assert data[..p] + data[p..q] == data[..q];
  }

  /** `MD5_hmac`; None when its arguments are refused. */
  method Md5Hmac(alg: Alg, data: Bytes, macLen: nat, secret: Bytes) returns (mac: Option<Bytes>)
    requires Sized(alg) && macLen <= 64
    ensures mac.None? <==> |secret| != SECRET_LEN || data == [] || macLen == 0
    ensures mac.Some? ==> mac.value == (Hmac(alg, secret, data) + Zeros(48))[..macLen] && IsHmac(alg, secret, data, Hmac(alg, secret, data))
  {
    if |secret| != SECRET_LEN || |data| <= 0 || macLen <= 0 {
      return None;
    }
    HmacIs(alg, secret, data);
    var extended := secret + Zeros(64 - |secret|);
    var k1, k2 := XorAll(extended, 0x36), XorAll(extended, 0x5c);
    var c := new Context(alg);
    c.Update(k1);
    Feed(c, data);
    assert c.Message() == k1 + data by { assert [] + k1 == k1; }
    var inner := c.Final();
    c := new Context(alg);
    c.Update(k2);
    c.Update(inner);
    assert c.Message() == k2 + inner by { assert [] + k2 == k2; }
    var outer := c.Final();
    mac := Some((outer + Zeros(48))[..macLen]);
  }

  /** One buffer of the password, repeated from byte `from` on. */
  method PasswordPiece(password: Bytes, from: nat) returns (buf: Bytes)
    requires password != []
    ensures |buf| == 64 && forall i :: 0 <= i < 64 ==> buf[i] == password[(from + i) % |password|]
  {
    buf := [];
    var index := from;
    for i := 0 to 64
      invariant |buf| == i && index == from + i && forall j :: 0 <= j < i ==> buf[j] == password[(from + j) % |password|]
    {
      buf := buf + [password[index % |password|]];
      index := index + 1;
    }
  }

  lemma RepeatedMore(password: Bytes, n: nat, buf: Bytes)
    requires password != [] && |buf| == 64 && forall i :: 0 <= i < 64 ==> buf[i] == password[(n + i) % |password|]
    ensures Repeated(password, n) + buf == Repeated(password, n + 64)
  {
    var all, r := Repeated(password, n) + buf, Repeated(password, n + 64);
    forall i | 0 <= i < n + 64 ensures all[i] == r[i] {
      if i >= n { assert all[i] == buf[i - n]; }
    }
  }

  method StreamPiece(c: Context, password: Bytes, count: nat)
    requires password != [] && c.Valid() && c.Message() == Repeated(password, count)
    modifies c, c.data
    ensures c.Valid() && c.Message() == Repeated(password, count + 64)
  {
    var buf := PasswordPiece(password, count);
    c.Update(buf);
    RepeatedMore(password, count, buf);
  }

  method StreamPassword(c: Context, password: Bytes)
    requires password != [] && c.Valid() && c.Message() == []
    modifies c, c.data
    ensures c.Valid() && c.Message() == Repeated(password, PASSWORD_STREAM)
  {
    var count := 0;
    assert Repeated(password, 0) == [];
    while count < PASSWORD_STREAM
      invariant 0 <= count <= PASSWORD_STREAM && count % 64 == 0
      invariant c.Valid() && c.Message() == Repeated(password, count)
    {
      StreamPiece(c, password, count);
      count := count + 64;
    }
  }

  /** `MD5_key`: the digest of a megabyte of password, localized with the engine identifier. */
  method Md5Key(alg: Alg, password: Bytes, engineId: Bytes) returns (key: Bytes)
    requires Sized(alg) && password != [] && 2 * SECRET_LEN + |engineId| <= 64
    ensures var d := Digest(alg, Repeated(password, 1048576)); key == Digest(alg, d + engineId + d)
  {
    var c := new Context(alg);
    StreamPassword(c, password);
    var d := c.Final();
    c := new Context(alg);
    var localized := d + engineId + d;
    c.Update(localized);
    assert [] + localized == localized;
    key := c.Final();
  }
}
