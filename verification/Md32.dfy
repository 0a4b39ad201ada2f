/** The streaming hash context (3rd/crypto/openssl_md32_common.h:282-383). */
module Md32 {
  import opened Oids
  import opened Ber
  import opened Digests

  lemma Halves(x: nat, l: nat)
    requires l < TWO32
    ensures (x * TWO32 + l) % TWO64 == x % TWO32 * TWO32 + l
  {
    var q, r := x / TWO32, x % TWO32;
    assert x * TWO32 + l == q * TWO64 + (r * TWO32 + l);
    assert 0 <= r * TWO32 + l < TWO64;
  }

  lemma TwoSteps(a: nat, b: nat)
    ensures ((a % TWO32) + b) % TWO32 == (a + b) % TWO32
  {
  }

  /** The two halves of the bit count after `len` more bytes. */
  method AddCount(nl: SubId, nh: SubId, len: nat) returns (nl': SubId, nh': SubId)
    ensures (nh' as int) * TWO32 + nl' == ((nh as int) * TWO32 + nl + 8 * len) % TWO64
  {
    var q, r := len / 0x20000000, len % 0x20000000;
    assert 8 * len == q * TWO32 + 8 * r;
    var sum: int := (nl as int) + 8 * r;
    var l: SubId := sum % TWO32;
    var h: int := nh;
    ghost var carry := if l < nl then 1 else 0;
    assert sum == carry * TWO32 + l;
    if l < nl {
      h := (h + 1) % TWO32;
    }
    TwoSteps((nh as int) + carry, q);
    Halves((nh as int) + carry + q, l);
    h := (h + q) % TWO32;
    nl', nh' := l, h;
  }

  /** Blocks through the compression function, one after the other. */
  method BlockDataOrder(alg: Alg, regs: Regs, p: Bytes, n: nat) returns (r: Regs)
    requires |p| == 64 * n
    ensures |p| % 64 == 0 && r == Absorb(alg, regs, p)
  {
    r := regs;
    assert p[..0] == [];
    Multiple(n);
    for i := 0 to n
      invariant 64 * i % 64 == 0 && r == Absorb(alg, regs, p[..64 * i])
    {
      Multiple(i + 1);
      AbsorbNext(alg, regs, p, i);
      r := alg.compress(r, p[64 * i..64 * (i + 1)]);
    }
    assert p[..64 * n] == p;
  }

  lemma Multiple(n: nat)
    ensures 64 * n % 64 == 0
  {
  }

  lemma AbsorbNext(alg: Alg, regs: Regs, p: Bytes, i: nat)
    requires 64 * (i + 1) <= |p|
    ensures Absorb(alg, regs, p[..64 * (i + 1)]) == alg.compress(Absorb(alg, regs, p[..64 * i]), p[64 * i..64 * (i + 1)])
  {
    var q := p[..64 * (i + 1)];
    assert q[..|q| - 64] == p[..64 * i] && q[|q| - 64..] == p[64 * i..64 * (i + 1)];
  }

  /** The registers after the whole blocks `done`. */
  ghost predicate Absorbed(alg: Alg, regs: Regs, done: Bytes) {
    |done| % 64 == 0 && regs == Absorb(alg, alg.init, done)
  }

  /** The two halves of the count of bits in `n` bytes. */
  ghost predicate Counted(nl: SubId, nh: SubId, n: nat) {
    (nh as int) * TWO32 + nl == 8 * n % TWO64
  }

  lemma CountMore(x: int, n: nat, len: nat)
    requires x == 8 * n % TWO64
    ensures (x + 8 * len) % TWO64 == 8 * (n + len) % TWO64
  {
  }

  lemma AbsorbMore(alg: Alg, regs: Regs, done: Bytes, b: Bytes)
    requires Absorbed(alg, regs, done) && |b| % 64 == 0
    ensures Absorbed(alg, Absorb(alg, regs, b), done + b)
  {
    AbsorbSplit(alg, alg.init, done, b);
  }

  /** The count as it is written. */
  lemma CountWritten(alg: Alg, nl: SubId, nh: SubId, n: nat)
    requires Counted(nl, nh, n)
    ensures CountBytes(alg, n) == if alg.bigEndian then WordBytes(alg, nh) + WordBytes(alg, nl) else WordBytes(alg, nl) + WordBytes(alg, nh)
  {
    var bits := 8 * n % TWO64;
    assert bits % TWO32 == nl && bits / TWO32 == nh;
  }

  /** The padding of a message whose last block has room for the count, */
  lemma PadShort(alg: Alg, done: Bytes, tail: Bytes)
    requires |done| % 64 == 0 && |tail| < 56
    ensures var msg := done + tail;
      msg + Pad(alg, |msg|) == done + (tail + [0x80] + Zeros(55 - |tail|) + CountBytes(alg, |msg|))
  {
    assert |done + tail| % 64 == |tail|;
  }

  /** and of one whose last block has not. */
  lemma PadLong(alg: Alg, done: Bytes, tail: Bytes)
    requires |done| % 64 == 0 && 56 <= |tail| < 64
    ensures var msg := done + tail;
      msg + Pad(alg, |msg|) == done + (tail + [0x80] + Zeros(63 - |tail|)) + (Zeros(56) + CountBytes(alg, |msg|))
  {
    assert |done + tail| % 64 == |tail|;
    assert Zeros(119 - |tail|) == Zeros(63 - |tail|) + Zeros(56);
  }

  class Context {
    const alg: Alg
    var regs: Regs
    var nl: SubId
    var nh: SubId
    var num: nat
    const data: array<Byte>
    /** The bytes that went through the compression function. */
    ghost var done: Bytes

    /** The registers and the buffer agree with the bytes streamed. */
    ghost predicate Solid()
      reads this, data
    {
      data.Length == 64 && num < 64 && Absorbed(alg, regs, done)
    }

    /** The bytes streamed so far. */
    ghost function Message(): Bytes
      requires Solid()
      reads this, data
    {
      done + data[..num]
    }

    ghost predicate Valid()
      reads this, data
    {
      Solid() && Counted(nl, nh, |Message()|)
    }

    constructor (alg: Alg)
      ensures Valid() && fresh(data) && this.alg == alg && Message() == []
    {
      this.alg := alg;
      regs, nl, nh, num := alg.init, 0, 0, 0;
      data := new Byte[64](_ => 0);
      done := [];
    }

    /** Bytes copied into the buffer. */
    method CopyIn(n: nat, src: Bytes)
      requires data.Length == 64 && n + |src| <= 64
      modifies data
      ensures data[..] == old(data[..n]) + src + old(data[n + |src|..])
      ensures data[..n + |src|] == old(data[..n]) + src
    {
      forall i | 0 <= i < |src| {
        data[n + i] := src[i];
      }
    }

    /** The buffer is full: it goes through the compression function. */
    method Flush()
      requires data.Length == 64 && Absorbed(alg, regs, done)
      modifies this`regs, this`num, this`done, data
      ensures Solid() && num == 0 && Message() == old(done + data[..])
    {
      var b := data[..];
      regs := BlockDataOrder(alg, regs, b, 1);
      AbsorbMore(alg, old(regs), done, b);
      done := done + b;
      num := 0;
      CopyIn(0, Zeros(64));
      assert done + data[..0] == done;
    }

    /** The bytes fit into the buffer. */
    method Keep(src: Bytes)
      requires Solid() && |src| + num < 64
      modifies this`num, data
      ensures Solid() && Message() == old(Message()) + src
    {
      CopyIn(num, src);
      Assoc(done, old(data[..num]), src);
      num := num + |src|;
    }

    /** Whole blocks straight from the input. */
    method Whole(src: Bytes, n: nat)
      requires Solid() && num == 0 && |src| == 64 * n
      modifies this`regs, this`done
      ensures Solid() && Message() == old(Message()) + src
    {
      regs := BlockDataOrder(alg, regs, src, n);
      AbsorbMore(alg, old(regs), done, src);
      done := done + src;
      assert data[..0] == [];
    }

    /** Whole blocks straight from the input, and then the rest into the empty buffer. */
    method Direct(src: Bytes)
      requires Solid() && num == 0
      modifies this`regs, this`num, this`done, data
      ensures Solid() && Message() == old(Message()) + src
    {
      var n := |src| / 64;
      var whole, rest := src[..64 * n], src[64 * n..];
      ghost var before := Message();
      assert before + [] == before;
      if n > 0 {
        Whole(whole, n);
      }
      if |rest| != 0 {
        Keep(rest);
      }
      assert src == whole + rest;
      Assoc(before, whole, rest);
      assert before + whole + [] == before + whole;
    }

    /** The buffer is filled up and flushed. */
    method TopUp(src: Bytes)
      requires Solid() && |src| == 64 - num
      modifies this`regs, this`num, this`done, data
      ensures Solid() && num == 0 && Message() == old(Message()) + src
    {
      CopyIn(num, src);
      assert data[..] == data[..64];
      Assoc(done, old(data[..num]), src);
      Flush();
    }

    method Append(src: Bytes)
      requires Solid()
      modifies this`regs, this`num, this`done, data
      ensures Solid() && Message() == old(Message()) + src
    {
      if num == 0 {
        Direct(src);
      } else if |src| >= 64 || |src| + num >= 64 {
        var room := 64 - num;
        assert src == src[..room] + src[room..];
        Assoc(Message(), src[..room], src[room..]);
        TopUp(src[..room]);
        Direct(src[room..]);
      } else {
        Keep(src);
      }
    }

    /** More bytes of the message. */
    method Update(src: Bytes)
      requires Valid()
      modifies this, data
      ensures Valid() && Message() == old(Message()) + src
    {
      if |src| == 0 {
        assert Message() + src == Message();
        return;
      }
      CountMore((nh as int) * TWO32 + nl, |Message()|, |src|);
      nl, nh := AddCount(nl, nh, |src|);
      Append(src);
    }

    /** The last block, of which `n` bytes are written: zeros, the count, and the compression function. */
    method Finish(n: nat, ghost total: nat)
      requires data.Length == 64 && n <= 56 && Absorbed(alg, regs, done) && Counted(nl, nh, total)
      modifies this`regs, this`num, this`done, data
      ensures Solid() && done == old(done) + (old(data[..n]) + Zeros(56 - n) + CountBytes(alg, total))
    {
      CopyIn(n, Zeros(56 - n));
      ghost var front := data[..56];
      CountWritten(alg, nl, nh, total);
      var low, high := WordBytes(alg, nl), WordBytes(alg, nh);
      CopyIn(56, if alg.bigEndian then high + low else low + high);
      assert data[..] == data[..64] == front + CountBytes(alg, total);
      ghost var b := data[..];
      Flush();
      assert done + data[..0] == done;
    }

    /** A last block without room for the count: zeros, and the compression function. */
    method Spill(n: nat)
      requires data.Length == 64 && 56 < n <= 64 && Absorbed(alg, regs, done)
      modifies this`regs, this`num, this`done, data
      ensures Solid() && num == 0 && done == old(done) + (old(data[..n]) + Zeros(64 - n))
    {
      CopyIn(n, Zeros(64 - n));
      assert data[..] == data[..64];
      Flush();
      assert done + data[..0] == done;
    }

    /** The padding. */
    method Close()
      requires Valid()
      modifies this, data
      ensures Absorbed(alg, regs, old(Message()) + Pad(alg, |old(Message())|))
    {
      ghost var msg, tail := Message(), data[..num];
      var n := num;
      CopyIn(n, [0x80]);
      n := n + 1;
      if n > 56 {
        PadLong(alg, done, tail);
        Spill(n);
        assert data[..0] + Zeros(56) == Zeros(56);
        Finish(0, |msg|);
      } else {
        PadShort(alg, done, tail);
        Finish(n, |msg|);
      }
    }

    /** The digest of the message. */
    method Final() returns (md: Bytes)
      requires Valid()
      modifies this, data
      ensures md == Digest(alg, old(Message())) && IsDigest(alg, old(Message()), md)
    {
      DigestIs(alg, Message());
      Close();
      md := alg.digest(regs);
    }
  }
}
