/** The block-at-a-time path of CFB mode (3rd/crypto/openssl_cfb128.c:86-117, 130-164). */
module CfbWide {
  import opened Cfb

  function Xor(c: Cipher, k: Buf, b: Buf): (r: Buf)
    requires |b| <= |k|
    ensures |r| == |b| && forall i :: 0 <= i < |b| ==> r[i] == c.xor(k[i], b[i])
  {
    seq(|b|, i requires 0 <= i < |b| => c.xor(k[i], b[i]))
  }

  /** The register after the first bytes of a refreshed block. */
  function Register(c: Cipher, enc: bool, k: Block, b: Buf): Block
    requires |b| <= 16
  {
    (if enc then Xor(c, k, b) else b) + k[|b|..]
  }

  lemma RegisterNext(c: Cipher, enc: bool, k: Block, b: Buf, x: bv8)
    requires |b| < 16
    ensures Register(c, enc, k, b)[|b|] == k[|b|]
    ensures Register(c, enc, k, b + [x]) == Register(c, enc, k, b)[|b| := if enc then c.xor(k[|b|], x) else x]
    ensures Xor(c, k, b + [x]) == Xor(c, k, b) + [c.xor(k[|b|], x)]
  {
    var r, r' := Register(c, enc, k, b), Register(c, enc, k, b + [x]);
    forall i | 0 <= i < 16 ensures r'[i] == r[|b| := if enc then c.xor(k[|b|], x) else x][i] {
    }
  }

  ghost predicate Touch(s: State, x: bv8) {
    true
  }

  /** `m` is the mode, wherever the proof touches it. */
  ghost predicate IsMode(m: Machine<State>, c: Cipher, enc: bool) {
    forall s, x {:trigger Touch(s, x)} :: Touch(s, x) ==> m.step(s, x) == Step(c, enc, s, x) && m.out(s, x) == Out(c, s, x)
  }

  /** One more byte through the mode. */
  lemma ModeAppend(c: Cipher, enc: bool, m: Machine<State>, s: State, b: Buf, x: bv8, out: Buf, t: State)
    requires IsMode(m, c, enc) && Process(m, s, b) == Run(out, t)
    ensures Process(m, s, b + [x]) == Run(out + [Out(c, t, x)], Step(c, enc, t, x))
  {
    ProcessAppend(m, s, b, x);
    assert Touch(t, x);
  }

  lemma FreshFirst(c: Cipher, enc: bool, iv: Block, k: Block, x: bv8)
    requires k == c.block(iv)
    ensures [Out(c, State(iv, 0), x)] == Xor(c, k, [x])
    ensures Step(c, enc, State(iv, 0), x) == State(Register(c, enc, k, [x]), 1)
  {
    assert k[0 := if enc then c.xor(k[0], x) else x] == Register(c, enc, k, [x]);
  }

  lemma FreshNext(c: Cipher, enc: bool, k: Block, b: Buf, x: bv8)
    requires 0 < |b| < 16
    ensures Xor(c, k, b) + [Out(c, State(Register(c, enc, k, b), |b|), x)] == Xor(c, k, b + [x])
    ensures Step(c, enc, State(Register(c, enc, k, b), |b|), x) == State(Register(c, enc, k, b + [x]), (|b| + 1) % 16)
  {
    RegisterNext(c, enc, k, b, x);
  }

  /** The run over the first bytes of a block, with register `k` after the refresh. */
  function Fresh(c: Cipher, enc: bool, k: Block, b: Buf): Run<State>
    requires |b| <= 16
  {
    Run(Xor(c, k, b), State(Register(c, enc, k, b), |b| % 16))
  }

  lemma FreshMore(c: Cipher, enc: bool, k: Block, b: Buf, x: bv8, r: Run<State>)
    requires 0 < |b| < 16 && r == Fresh(c, enc, k, b)
    ensures Run(r.out + [Out(c, r.state, x)], Step(c, enc, r.state, x)) == Fresh(c, enc, k, b + [x])
  {
    FreshState(c, enc, k, b);
    FreshNext(c, enc, k, b, x);
    FreshState(c, enc, k, b + [x]);
  }

  lemma FreshState(c: Cipher, enc: bool, k: Block, b: Buf)
    requires |b| <= 16
    ensures Fresh(c, enc, k, b).out == Xor(c, k, b) && Fresh(c, enc, k, b).state.iv == Register(c, enc, k, b)
    ensures Fresh(c, enc, k, b).state.n == if |b| < 16 then |b| else 0
  {
  }

  lemma FreshOne(c: Cipher, enc: bool, m: Machine<State>, iv: Block, k: Block, x: bv8)
    requires IsMode(m, c, enc) && k == c.block(iv)
    ensures Process(m, State(iv, 0), [x]) == Fresh(c, enc, k, [x])
  {
    ModeAppend(c, enc, m, State(iv, 0), [], x, [], State(iv, 0));
    FreshFirst(c, enc, iv, k, x);
    assert [] + [x] == [x] && [] + Xor(c, k, [x]) == Xor(c, k, [x]);
  }

  /** The first bytes of a fresh block, through the mode. */
  lemma {:induction false} FreshBlock(c: Cipher, enc: bool, m: Machine<State>, iv: Block, k: Block, b: Buf)
    requires 0 < |b| <= 16 && IsMode(m, c, enc) && k == c.block(iv)
    ensures Process(m, State(iv, 0), b) == Fresh(c, enc, k, b)
  {
    var front, x := b[..|b| - 1], b[|b| - 1];
    if |b| == 1 {
      assert b == [x];
      FreshOne(c, enc, m, iv, k, x);
    } else {
      assert b == front + [x];
      FreshBlock(c, enc, m, iv, k, front);
      var r := Process(m, State(iv, 0), front);
      ModeAppend(c, enc, m, State(iv, 0), front, x, r.out, r.state);
      FreshMore(c, enc, k, front, x, r);
    }
  }

  // ---------------------------------------------------------------------
  // Ciphertext feedback (section 6.3 of NIST SP 800-38A)
  // ---------------------------------------------------------------------

  /** What is enciphered for block `j`: the ciphertext before it, or the initial register. */
  function Feedback(iv: Block, cipher: Buf, j: nat): Block
    requires 16 * j <= |cipher|
  {
    if j == 0 then iv else cipher[16 * (j - 1)..16 * j]
  }

  /** Every byte is combined with its byte of the enciphered ciphertext before its block. */
  ghost predicate FedBack(c: Cipher, iv: Block, cipher: Buf, input: Buf, out: Buf) {
    && |cipher| == |input| == |out|
    && forall p :: 0 <= p < |input| ==> out[p] == c.xor(c.block(Feedback(iv, cipher, p / 16))[p % 16], input[p])
  }

  lemma FedBackMore(c: Cipher, iv: Block, cipher: Buf, input: Buf, out: Buf, sent: Buf, b: Buf, o: Buf, j: nat)
    requires FedBack(c, iv, cipher, input, out) && |input| == 16 * j && |sent| == |b| == |o| == 16
    requires o == Xor(c, c.block(Feedback(iv, cipher, j)), b)
    ensures FedBack(c, iv, cipher + sent, input + b, out + o)
  {
    forall p | 0 <= p < |input + b|
      ensures (out + o)[p] == c.xor(c.block(Feedback(iv, cipher + sent, p / 16))[p % 16], (input + b)[p])
    {
      var i := p / 16;
      assert i <= j && (cipher + sent)[..16 * j] == cipher;
      assert i > 0 ==> (cipher + sent)[16 * (i - 1)..16 * i] == cipher[16 * (i - 1)..16 * i];
      assert Feedback(iv, cipher + sent, i) == Feedback(iv, cipher, i);
      if p >= |input| { assert i == j && p % 16 == p - |input|; }
    }
  }

  function CipherText(enc: bool, input: Buf, out: Buf): Buf {
    if enc then out else input
  }

  /** A run over `j` blocks is ciphertext feedback, and leaves the last block of ciphertext in the register. */
  ghost predicate FeedOk(c: Cipher, enc: bool, iv: Block, input: Buf, j: nat, r: Run<State>) {
    && |input| == |r.out| == 16 * j && FedBack(c, iv, CipherText(enc, input, r.out), input, r.out)
    && r.state == State(Feedback(iv, CipherText(enc, input, r.out), j), 0)
  }

  lemma FullRegister(c: Cipher, enc: bool, k: Block, b: Buf)
    requires |b| == 16
    ensures Fresh(c, enc, k, b) == Run(Xor(c, k, b), State(CipherText(enc, b, Xor(c, k, b)), 0))
  {
    assert k[16..] == [] && CipherText(enc, b, Xor(c, k, b)) + [] == CipherText(enc, b, Xor(c, k, b));
  }

  lemma FeedMore(c: Cipher, enc: bool, iv: Block, input: Buf, j: nat, r: Run<State>, b: Buf)
    requires FeedOk(c, enc, iv, input, j, r) && |b| == 16
    ensures var o := Xor(c, c.block(r.state.iv), b);
      FeedOk(c, enc, iv, input + b, j + 1, Run(r.out + o, State(CipherText(enc, b, o), 0)))
  {
    var o := Xor(c, c.block(r.state.iv), b);
    var cipher, sent := CipherText(enc, input, r.out), CipherText(enc, b, o);
    FedBackMore(c, iv, cipher, input, r.out, sent, b, o, j);
    assert (cipher + sent)[16 * j..16 * (j + 1)] == sent;
    assert cipher + sent == CipherText(enc, input + b, r.out + o);
  }

  lemma OneMoreBlock(c: Cipher, enc: bool, m: Machine<State>, s: State, front: Buf, b: Buf, r: Run<State>)
    requires IsMode(m, c, enc) && |b| == 16 && r == Process(m, s, front) && r.state.n == 0
    ensures var o := Xor(c, c.block(r.state.iv), b);
      Process(m, s, front + b) == Run(r.out + o, State(CipherText(enc, b, o), 0))
  {
    var k := c.block(r.state.iv);
    FreshBlock(c, enc, m, r.state.iv, k, b);
    FullRegister(c, enc, k, b);
    assert r.state == State(r.state.iv, 0);
    ProcessSplit(m, s, front, b);
  }

  lemma FeedFirst(c: Cipher, enc: bool, iv: Block, r: Run<State>)
    requires r == Run([], State(iv, 0))
    ensures FeedOk(c, enc, iv, [], 0, r)
  {
  }

  lemma FeedNext(c: Cipher, enc: bool, m: Machine<State>, iv: Block, front: Buf, b: Buf, j: nat, r: Run<State>)
    requires IsMode(m, c, enc) && |b| == 16 && r == Process(m, State(iv, 0), front) && FeedOk(c, enc, iv, front, j, r)
    ensures FeedOk(c, enc, iv, front + b, j + 1, Process(m, State(iv, 0), front + b))
  {
    OneMoreBlock(c, enc, m, State(iv, 0), front, b, r);
    FeedMore(c, enc, iv, front, j, r, b);
  }

  ghost predicate Seen(front: Buf, b: Buf, j: nat) {
    true
  }

  /** One more block keeps `ok`. */
  ghost predicate Keeps(ok: (Buf, nat) -> bool) {
    forall front: Buf, b: Buf, j: nat {:trigger Seen(front, b, j)} :: Seen(front, b, j) && |b| == 16 && ok(front, j) ==> ok(front + b, j + 1)
  }

  lemma {:induction false} ByBlocks(ok: (Buf, nat) -> bool, input: Buf, j: nat)
    requires |input| == 16 * j && ok([], 0) && Keeps(ok)
    ensures ok(input, j)
    decreases j
  {
    if j == 0 {
      assert input == [];
    } else {
      var front, b := input[..16 * (j - 1)], input[16 * (j - 1)..];
      ByBlocks(ok, front, j - 1);
      assert Seen(front, b, j - 1);
      assert front + b == input;
    }
  }

  /** Over whole blocks the mode is ciphertext feedback, whichever of input and output is the ciphertext. */
  lemma FeedbackBlocks(c: Cipher, enc: bool, m: Machine<State>, iv: Block, input: Buf, j: nat)
    requires IsMode(m, c, enc) && |input| == 16 * j
    ensures FeedOk(c, enc, iv, input, j, Process(m, State(iv, 0), input))
  {
    var ok := (x: Buf, i: nat) => FeedOk(c, enc, iv, x, i, Process(m, State(iv, 0), x));
    FeedFirst(c, enc, iv, Process(m, State(iv, 0), []));
    forall front: Buf, b: Buf, i: nat | |b| == 16 && ok(front, i) ensures ok(front + b, i + 1) {
      FeedNext(c, enc, m, iv, front, b, i, Process(m, State(iv, 0), front));
    }
    ByBlocks(ok, input, j);
  }

  lemma ModeFeedsBack(c: Cipher, enc: bool, iv: Block, input: Buf)
    requires |input| % 16 == 0
    ensures var r := Process(Mode(c, enc), State(iv, 0), input);
      FedBack(c, iv, if enc then r.out else input, input, r.out)
  {
    FeedbackBlocks(c, enc, Mode(c, enc), iv, input, |input| / 16);
  }

  lemma StepUses(c: Cipher, enc: bool, s: State, x: bv8)
    ensures Step(c, enc, s, x).n == (s.n + 1) % 16
  {
  }

  /** The count of used bytes goes round. */
  lemma {:induction false} UsedAfter(c: Cipher, enc: bool, m: Machine<State>, s: State, input: Buf)
    requires IsMode(m, c, enc)
    ensures Process(m, s, input).state.n == (s.n + |input|) % 16
  {
    if input != [] {
      var front, x := input[..|input| - 1], input[|input| - 1];
      UsedAfter(c, enc, m, s, front);
      assert input == front + [x];
      var r := Process(m, s, front);
      ModeAppend(c, enc, m, s, front, x, r.out, r.state);
      StepUses(c, enc, r.state, x);
      Round(s.n, |front|);
    }
  }

  lemma Round(n: nat, l: nat)
    ensures ((n + l) % 16 + 1) % 16 == (n + l + 1) % 16
  {
  }

  /** Eight bytes of the register at once. */
  method Word(c: Cipher, enc: bool, ivec: array<bv8>, n: nat, w: Buf) returns (o: Buf)
    requires ivec.Length == 16 && n + 8 <= 16 && |w| == 8
    modifies ivec
    ensures o == Xor(c, old(ivec[n..n + 8]), w)
    ensures ivec[..] == old(ivec[..n]) + (if enc then o else w) + old(ivec[n + 8..])
  {
    o := Xor(c, ivec[n..n + 8], w);
    var kept := if enc then o else w;
    forall i | 0 <= i < 8 {
      ivec[n + i] := kept[i];
    }
  }

  lemma Halves(c: Cipher, k: Block, b: Block)
    ensures Xor(c, k[0..8], b[0..8]) + Xor(c, k[8..16], b[8..16]) == Xor(c, k, b)
    ensures b[0..8] + b[8..16] == b
  {
  }

  lemma TwoWords(k: Block, low: Buf, high: Buf, r: Buf)
    requires |low| == 8 && |high| == 8 && r == k[..0] + low + k[8..]
    ensures |r| == 16 && r[8..16] == k[8..16] && r[..8] + high + r[16..] == low + high
  {
  }

  lemma RegisterWhole(c: Cipher, enc: bool, k: Block, b: Block)
    ensures Register(c, enc, k, b) == if enc then Xor(c, k, b) else b
  {
  }

  /** A whole block of input against a refreshed register. */
  method WholeBlock(c: Cipher, enc: bool, ivec: array<bv8>, b: Block) returns (o: Buf)
    requires ivec.Length == 16
    modifies ivec
    ensures o == Xor(c, old(ivec[..]), b) && ivec[..] == if enc then o else b
  {
    ghost var k: Block := ivec[..];
    var low := Word(c, enc, ivec, 0, b[0..8]);
    ghost var r := ivec[..];
    ghost var low' := if enc then low else b[0..8];
    TwoWords(k, low', b[8..16], r);
    assert ivec[8..16] == r[8..16];
    var high := Word(c, enc, ivec, 8, b[8..16]);
    TwoWords(k, low', if enc then high else b[8..16], r);
    Halves(c, k, b);
    o := low + high;
  }

  /** One byte of what is left. */
  method TailByte(c: Cipher, enc: bool, ivec: array<bv8>, ghost k: Block, b: Buf, n: nat) returns (x: bv8)
    requires ivec.Length == 16 && n < |b| < 16 && ivec[..] == Register(c, enc, k, b[..n])
    modifies ivec
    ensures ivec[..] == Register(c, enc, k, b[..n + 1])
    ensures Xor(c, k, b[..n + 1]) == Xor(c, k, b[..n]) + [x]
  {
    RegisterNext(c, enc, k, b[..n], b[n]);
    assert b[..n + 1] == b[..n] + [b[n]];
    assert ivec[n] == ivec[..][n];
    x := Byte(c, enc, ivec, n, b[n]);
  }

  /** What is left of the input against a refreshed register. */
  method Tail(c: Cipher, enc: bool, ivec: array<bv8>, b: Buf) returns (o: Buf)
    requires ivec.Length == 16 && |b| < 16
    modifies ivec
    ensures o == Xor(c, old(ivec[..]), b) && ivec[..] == Register(c, enc, old(ivec[..]), b)
  {
    ghost var k: Block := ivec[..];
    o := [];
    var n := 0;
    assert b[..0] == [] && Register(c, enc, k, []) == k;
    while n < |b|
      invariant 0 <= n <= |b| && o == Xor(c, k, b[..n]) && ivec[..] == Register(c, enc, k, b[..n])
    {
      var x := TailByte(c, enc, ivec, k, b, n);
      o := o + [x];
      n := n + 1;
    }
    assert b[..n] == b;
  }

  // ---------------------------------------------------------------------
  // The whole path
  // ---------------------------------------------------------------------

  /** A byte that does not need a refresh. */
  method UsedByte(c: Cipher, enc: bool, ivec: array<bv8>, n: Used, b: bv8) returns (o: bv8)
    requires ivec.Length == 16 && n != 0
    modifies ivec
    ensures o == Out(c, State(old(ivec[..]), n), b)
    ensures State(ivec[..], (n + 1) % 16) == Step(c, enc, State(old(ivec[..]), n), b)
  {
    o := Byte(c, enc, ivec, n, b);
  }

  /** One more byte of the input, in a block used in part. */
  method UseOne(c: Cipher, enc: bool, ghost m: Machine<State>, ghost s: State, input: Buf, ivec: array<bv8>, out: Buf, pos: nat, n: Used) returns (out': Buf)
    requires ivec.Length == 16 && IsMode(m, c, enc) && pos < |input| && n != 0
    requires Run(out, State(ivec[..], n)) == Process(m, s, input[..pos])
    modifies ivec
    ensures Run(out', State(ivec[..], (n + 1) % 16)) == Process(m, s, input[..pos + 1])
  {
    assert Touch(State(ivec[..], n), input[pos]);
    ProcessNext(m, s, input, pos);
    var o := UsedByte(c, enc, ivec, n, input[pos]);
    out' := out + [o];
  }

  /** What a block used in part still takes; then the register is used up, or the input is. */
  method UseUp(c: Cipher, enc: bool, ghost m: Machine<State>, input: Buf, ivec: array<bv8>, num: Used) returns (out: Buf, pos: nat, n: Used)
    requires ivec.Length == 16 && IsMode(m, c, enc)
    modifies ivec
    ensures pos <= |input| && Run(out, State(ivec[..], n)) == Process(m, State(old(ivec[..]), num), input[..pos])
    ensures n == 0 <==> num == 0 || num + |input| >= 16
    ensures n != 0 ==> pos == |input|
  {
    ghost var s := State(ivec[..], num);
    out, pos, n := [], 0, num;
    assert input[..0] == [];
    while n != 0 && pos < |input|
      decreases |input| - pos
      invariant pos <= |input| && Run(out, State(ivec[..], n)) == Process(m, s, input[..pos])
      invariant if num == 0 then pos == 0 == n else num + pos <= 16 && n == if num + pos == 16 then 0 else num + pos
    {
      out := UseOne(c, enc, m, s, input, ivec, out, pos, n);
      n := (n + 1) % 16;
      pos := pos + 1;
    }
  }

  /** A block through the mode, from a used-up register. */
  method NextBlock(c: Cipher, enc: bool, ghost m: Machine<State>, ivec: array<bv8>, b: Block) returns (o: Buf)
    requires ivec.Length == 16 && IsMode(m, c, enc)
    modifies ivec
    ensures Run(o, State(ivec[..], 0)) == Process(m, State(old(ivec[..]), 0), b)
  {
    ghost var iv: Block := ivec[..];
    Refresh(c, ivec);
    ghost var k: Block := ivec[..];
    o := WholeBlock(c, enc, ivec, b);
    FreshBlock(c, enc, m, iv, k, b);
    FreshState(c, enc, k, b);
    RegisterWhole(c, enc, k, b);
  }

  /** The last bytes, from a used-up register. */
  method LastBytes(c: Cipher, enc: bool, ghost m: Machine<State>, ivec: array<bv8>, b: Buf) returns (o: Buf)
    requires ivec.Length == 16 && IsMode(m, c, enc) && 0 < |b| < 16
    modifies ivec
    ensures Run(o, State(ivec[..], |b|)) == Process(m, State(old(ivec[..]), 0), b)
  {
    ghost var iv: Block := ivec[..];
    Refresh(c, ivec);
    ghost var k: Block := ivec[..];
    o := Tail(c, enc, ivec, b);
    FreshBlock(c, enc, m, iv, k, b);
    FreshState(c, enc, k, b);
  }

  /** Two parts of the input after each other. */
  lemma Joined<S>(m: Machine<S>, s: S, input: Buf, p: nat, q: nat, first: Run<S>, second: Run<S>)
    requires p <= q <= |input| && first == Process(m, s, input[..p]) && second == Process(m, first.state, input[p..q])
    ensures Process(m, s, input[..q]) == Run(first.out + second.out, second.state)
  {
    ProcessSplit(m, s, input[..p], input[p..q]);
    assert input[..p] + input[p..q] == input[..q];
  }

  /** One more block of the input. */
  method OneBlock(c: Cipher, enc: bool, ghost m: Machine<State>, ghost s: State, input: Buf, ivec: array<bv8>, out: Buf, p: nat) returns (out': Buf)
    requires ivec.Length == 16 && IsMode(m, c, enc) && p + 16 <= |input|
    requires Run(out, State(ivec[..], 0)) == Process(m, s, input[..p])
    modifies ivec
    ensures Run(out', State(ivec[..], 0)) == Process(m, s, input[..p + 16])
  {
    ghost var first := Run(out, State(ivec[..], 0));
    var o := NextBlock(c, enc, m, ivec, input[p..p + 16]);
    Joined(m, s, input, p, p + 16, first, Run(o, State(ivec[..], 0)));
    out' := out + o;
  }

  /** Whole blocks, and then what is left. */
  method Blocks(c: Cipher, enc: bool, ghost m: Machine<State>, ghost s: State, input: Buf, ivec: array<bv8>, out: Buf, pos: nat) returns (out': Buf, n: Used)
    requires ivec.Length == 16 && IsMode(m, c, enc) && pos <= |input|
    requires Run(out, State(ivec[..], 0)) == Process(m, s, input[..pos])
    modifies ivec
    ensures Run(out', State(ivec[..], n)) == Process(m, s, input)
  {
    var p := pos;
    out' := out;
    while |input| - p >= 16
      invariant pos <= p <= |input| && Run(out', State(ivec[..], 0)) == Process(m, s, input[..p])
    {
      out' := OneBlock(c, enc, m, s, input, ivec, out', p);
      p := p + 16;
    }
    n := 0;
    assert input[..|input|] == input;
    if p < |input| {
      n := |input| - p;
      out' := Remainder(c, enc, m, s, input, ivec, out', p);
    }
  }

  method Remainder(c: Cipher, enc: bool, ghost m: Machine<State>, ghost s: State, input: Buf, ivec: array<bv8>, out: Buf, p: nat) returns (out': Buf)
    requires ivec.Length == 16 && IsMode(m, c, enc) && p < |input| < p + 16
    requires Run(out, State(ivec[..], 0)) == Process(m, s, input[..p])
    modifies ivec
    ensures Run(out', State(ivec[..], |input| - p)) == Process(m, s, input[..|input|])
  {
    ghost var first := Run(out, State(ivec[..], 0));
    var o := LastBytes(c, enc, m, ivec, input[p..|input|]);
    Joined(m, s, input, p, |input|, first, Run(o, State(ivec[..], |input| - p)));
    out' := out + o;
  }

  /** The block-at-a-time path gives the output and the register of the byte-at-a-time path, and its
      count of used bytes exactly when it starts at a block boundary or gets past one. */
  method BlockByBlock(c: Cipher, enc: bool, input: Buf, ivec: array<bv8>, num: Used) returns (out: Buf, num': Used)
    requires ivec.Length == 16
    modifies ivec
    ensures var r := Process(Mode(c, enc), State(old(ivec[..]), num), input);
      && out == r.out && ivec[..] == r.state.iv
      && (num' == r.state.n <==> num == 0 || num + |input| >= 16)
  {
    ghost var s, m := State(ivec[..], num), Mode(c, enc);
    var pos, n;
    out, pos, n := UseUp(c, enc, m, input, ivec, num);
    UsedAfter(c, enc, m, s, input);
    if n == 0 {
      out, num' := Blocks(c, enc, m, s, input, ivec, out, pos);
    } else {
      assert input[..pos] == input;
      num' := 0;
    }
  }
}
