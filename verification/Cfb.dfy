/** CFB mode over an arbitrary 16-byte block function (3rd/crypto/openssl_cfb128.c:73-178). */
module Cfb {
  type Buf = seq<bv8>
  type Block = b: Buf | |b| == 16 witness seq(16, _ => 0)
  type Used = n: int | 0 <= n < 16

  /** The block function under a key, and exclusive or of bytes. */
  datatype Cipher = Cipher(block: Block -> Block, xor: (bv8, bv8) -> bv8)

  /** What is used of exclusive or. */
  ghost predicate SelfInverse(c: Cipher) {
    forall k, x :: c.xor(k, c.xor(k, x)) == x
  }

  lemma XorSelfInverse(block: Block -> Block)
    ensures SelfInverse(Cipher(block, (a, b) => a ^ b))
  {
    var c := Cipher(block, (a, b) => a ^ b);
    forall k, x ensures c.xor(k, c.xor(k, x)) == x {
      XorTwice(k, x);
    }
  }

  lemma XorTwice(k: bv8, x: bv8)
    ensures k ^ (k ^ x) == x
  {
  }

  // ---------------------------------------------------------------------
  // Runs of a machine that turns bytes into bytes
  // ---------------------------------------------------------------------

  datatype Machine<!S> = Machine(step: (S, bv8) -> S, out: (S, bv8) -> bv8)

  datatype Run<S> = Run(out: Buf, state: S)

  function Process<S>(m: Machine<S>, s: S, input: Buf): (r: Run<S>)
    ensures |r.out| == |input|
  {
    if input == [] then Run([], s)
    else
      var front := Process(m, s, input[..|input| - 1]);
      var c := input[|input| - 1];
      Run(front.out + [m.out(front.state, c)], m.step(front.state, c))
  }

  lemma ProcessNext<S>(m: Machine<S>, s: S, input: Buf, l: nat)
    requires l < |input|
    ensures var front := Process(m, s, input[..l]);
      Process(m, s, input[..l + 1]) == Run(front.out + [m.out(front.state, input[l])], m.step(front.state, input[l]))
  {
    assert input[..l + 1][..l] == input[..l];
  }

  lemma {:induction false} ProcessSplit<S>(m: Machine<S>, s: S, a: Buf, b: Buf)
    ensures var first := Process(m, s, a);
      var second := Process(m, first.state, b);
      Process(m, s, a + b) == Run(first.out + second.out, second.state)
  {
    var first := Process(m, s, a);
    if b == [] {
      assert a + b == a && first.out + [] == first.out;
    } else {
      var b', c := b[..|b| - 1], b[|b| - 1];
      ProcessSplit(m, s, a, b');
      assert (a + b)[..|a + b| - 1] == a + b';
      var second := Process(m, first.state, b');
      assert first.out + second.out + [m.out(second.state, c)] == first.out + (second.out + [m.out(second.state, c)]);
    }
  }

  lemma ProcessAppend<S>(m: Machine<S>, s: S, input: Buf, c: bv8)
    ensures var front := Process(m, s, input);
      Process(m, s, input + [c]) == Run(front.out + [m.out(front.state, c)], m.step(front.state, c))
  {
    assert (input + [c])[..|input|] == input;
  }

  /** `d` undoes `e` byte by byte. */
  ghost predicate Undoes<S(!new)>(e: Machine<S>, d: Machine<S>) {
    forall s, c :: d.out(s, e.out(s, c)) == c && d.step(s, e.out(s, c)) == e.step(s, c)
  }

  /** One more byte is undone when those before it were. */
  lemma ByteMoreUndone<S(!new)>(e: Machine<S>, d: Machine<S>, s: S, front: Buf, c: bv8)
    requires Undoes(e, d)
    requires Process(d, s, Process(e, s, front).out) == Run(front, Process(e, s, front).state)
    ensures Process(d, s, Process(e, s, front + [c]).out) == Run(front + [c], Process(e, s, front + [c]).state)
  {
    var sent := Process(e, s, front);
    ProcessAppend(e, s, front, c);
    ProcessAppend(d, s, sent.out, e.out(sent.state, c));
  }

  lemma {:induction false} RunUndone<S(!new)>(e: Machine<S>, d: Machine<S>, s: S, plain: Buf)
    requires Undoes(e, d)
    ensures Process(d, s, Process(e, s, plain).out) == Run(plain, Process(e, s, plain).state)
  {
    if plain != [] {
      var front, c := plain[..|plain| - 1], plain[|plain| - 1];
      RunUndone(e, d, s, front);
      ByteMoreUndone(e, d, s, front, c);
      assert plain == front + [c];
    }
  }

  // ---------------------------------------------------------------------
  // One byte at a time
  // ---------------------------------------------------------------------

  /** The feedback register and how many of its bytes are used. */
  datatype State = State(iv: Block, n: Used)

  /** The register before a byte: refreshed when it is used up. */
  function Ready(c: Cipher, s: State): Block {
    if s.n == 0 then c.block(s.iv) else s.iv
  }

  function Out(c: Cipher, s: State, b: bv8): bv8 {
    c.xor(Ready(c, s)[s.n], b)
  }

  function Step(c: Cipher, enc: bool, s: State, b: bv8): State {
    State(Ready(c, s)[s.n := if enc then Out(c, s, b) else b], (s.n + 1) % 16)
  }

  /** The mode. */
  function Mode(c: Cipher, enc: bool): Machine<State> {
    Machine((s, b) => Step(c, enc, s, b), (s, b) => Out(c, s, b))
  }

  lemma ByteUndone(c: Cipher, s: State, b: bv8)
    requires SelfInverse(c)
    ensures Out(c, s, Out(c, s, b)) == b && Step(c, false, s, Out(c, s, b)) == Step(c, true, s, b)
  {
    var k := Ready(c, s)[s.n];
    assert c.xor(k, c.xor(k, b)) == b;
  }

  /** Decryption inverts encryption, and both leave the same state. */
  lemma Inverts(c: Cipher, s: State, plain: Buf)
    requires SelfInverse(c)
    ensures var sent := Process(Mode(c, true), s, plain);
      Process(Mode(c, false), s, sent.out) == Run(plain, sent.state)
  {
    var e, d := Mode(c, true), Mode(c, false);
    forall t, b ensures d.out(t, e.out(t, b)) == b && d.step(t, e.out(t, b)) == e.step(t, b) {
      ByteUndone(c, t, b);
    }
    RunUndone(e, d, s, plain);
  }

  /** In particular with the exclusive or of bytes. */
  lemma XorInverts(block: Block -> Block, s: State, plain: Buf)
    ensures var c := Cipher(block, (a, b) => a ^ b);
      var sent := Process(Mode(c, true), s, plain);
      Process(Mode(c, false), s, sent.out) == Run(plain, sent.state)
  {
    var c := Cipher(block, (a, b) => a ^ b);
    XorSelfInverse(block);
    Inverts(c, s, plain);
  }

  /** The block function, in place. */
  method Refresh(c: Cipher, ivec: array<bv8>)
    requires ivec.Length == 16
    modifies ivec
    ensures ivec[..] == c.block(old(ivec[..]))
  {
    var b := c.block(ivec[..]);
    forall i | 0 <= i < 16 {
      ivec[i] := b[i];
    }
  }

  /** A byte goes through the register. */
  method Byte(c: Cipher, enc: bool, ivec: array<bv8>, n: Used, b: bv8) returns (o: bv8)
    requires ivec.Length == 16
    modifies ivec
    ensures o == c.xor(old(ivec[n]), b) && ivec[..] == old(ivec[..])[n := if enc then o else b]
  {
    o := c.xor(ivec[n], b);
    ivec[n] := if enc then o else b;
  }

  method StepInPlace(c: Cipher, enc: bool, ivec: array<bv8>, n: Used, b: bv8) returns (o: bv8)
    requires ivec.Length == 16
    modifies ivec
    ensures o == Out(c, State(old(ivec[..]), n), b)
    ensures State(ivec[..], (n + 1) % 16) == Step(c, enc, State(old(ivec[..]), n), b)
  {
    if n == 0 {
      Refresh(c, ivec);
    }
    o := Byte(c, enc, ivec, n, b);
  }

  /** The byte-at-a-time path. */
  method ByteByByte(c: Cipher, enc: bool, input: Buf, ivec: array<bv8>, num: Used) returns (out: Buf, num': Used)
    requires ivec.Length == 16
    modifies ivec
    ensures Run(out, State(ivec[..], num')) == Process(Mode(c, enc), State(old(ivec[..]), num), input)
  {
    var l := 0;
    num', out := num, [];
    ghost var s, m := State(ivec[..], num), Mode(c, enc);
    assert input[..0] == [];
    while l < |input|
      invariant 0 <= l <= |input| && Run(out, State(ivec[..], num')) == Process(m, s, input[..l])
    {
      ProcessNext(m, s, input, l);
      var o := StepInPlace(c, enc, ivec, num', input[l]);
      out := out + [o];
      num' := (num' + 1) % 16;
      l := l + 1;
    }
    assert input[..l] == input;
  }
}
