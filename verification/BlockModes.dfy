/** BlockTransformation::AdvancedProcessBlocks (crypto++/cryptlib.cpp) and the
    CBC and CFB modes that rely on its order of processing
    (crypto++/modes.cpp).  Memory is one array of blocks, and a pointer is an
    index into it, so any two operands may overlap by whole blocks. */
module BlockModes {

  /** How input and xor block become an output block. */
  type Combine<!B> = (B, B) -> B

  /** A block operation: what it leaves in the output block, and what it leaves
      there when the xor block is the output block, which it may overwrite
      before reading. */
  datatype BlockOp<!B> = BlockOp(apart: Combine<B>, aliased: Combine<B>) {
    function At(xorIsOut: bool): Combine<B> {
      if xorIsOut then aliased else apart
    }
  }

  /** An operation that reads its xor block in time. */
  function InTime<B>(f: Combine<B>): BlockOp<B> {
    BlockOp(f, f)
  }

  ghost predicate Agree<B(!new)>(f: Combine<B>, g: Combine<B>) {
    forall a, x :: f(a, x) == g(a, x)
  }

  /** The xor block may be the output block. */
  ghost predicate Tolerant<B(!new)>(op: BlockOp<B>) {
    Agree(op.aliased, op.apart)
  }

  // ----- the loop, block by block

  function Step<B>(f: Combine<B>, m: seq<B>, a: nat, x: nat, o: nat): seq<B>
    requires a < |m| && x < |m| && o < |m|
  {
    m[o := f(m[a], m[x])]
  }

  /** n blocks in ascending or descending order. */
  function Run<B>(f: Combine<B>, m: seq<B>, a: nat, x: nat, o: nat, n: nat, reverse: bool): (r: seq<B>)
    requires a + n <= |m| && x + n <= |m| && o + n <= |m|
    ensures |r| == |m|
    decreases n
  {
    if n == 0 then m
    else if reverse then Run(f, Step(f, m, a + n - 1, x + n - 1, o + n - 1), a, x, o, n - 1, reverse)
    else Step(f, Run(f, m, a, x, o, n - 1, reverse), a + n - 1, x + n - 1, o + n - 1)
  }

  /** xorBlocks and outBlocks advance together, so that they meet in every block
      or in none. */
  method AdvancedProcessBlocks<B(!new)>(
    mem: array<B>, op: BlockOp<B>, inBlocks: nat, xorBlocks: nat, outBlocks: nat, blocks: nat, reverse: bool)
    requires inBlocks + blocks <= mem.Length && xorBlocks + blocks <= mem.Length && outBlocks + blocks <= mem.Length
    modifies mem
    ensures mem[..] ==
      Run(op.At(xorBlocks == outBlocks), old(mem[..]), inBlocks, xorBlocks, outBlocks, blocks, reverse)
    ensures
      && Safe(reverse, outBlocks, inBlocks, blocks) && Safe(reverse, outBlocks, xorBlocks, blocks)
      && (xorBlocks != outBlocks || Tolerant(op)) ==>
        && OnlyAt(old(mem[..]), mem[..], outBlocks, blocks)
        && Region(mem[..], outBlocks, blocks) ==
          Combined(op.apart, Region(old(mem[..]), inBlocks, blocks), Region(old(mem[..]), xorBlocks, blocks))
  {
    hide Run, Safe, OnlyAt, Region, Combined, Tolerant;
    var a: int, x: int, o: int, increment := inBlocks, xorBlocks, outBlocks, 1;
    ghost var start, f := mem[..], op.At(xorBlocks == outBlocks);
    NoRun(f, start, inBlocks, xorBlocks, outBlocks, reverse);
    if reverse {
      a, x, o := a + blocks - 1, x + blocks - 1, o + blocks - 1;
      increment := -1;
    }
    var left := blocks;
    while left >= 1
      invariant 0 <= left <= blocks
      invariant reverse ==> a == inBlocks + left - 1 && x == xorBlocks + left - 1 && o == outBlocks + left - 1
      invariant !reverse ==>
        a == inBlocks + blocks - left && x == xorBlocks + blocks - left && o == outBlocks + blocks - left
      invariant increment == if reverse then -1 else 1
      invariant reverse ==>
        Run(f, mem[..], inBlocks, xorBlocks, outBlocks, left, true) ==
          Run(f, start, inBlocks, xorBlocks, outBlocks, blocks, true)
      invariant !reverse ==> mem[..] == Run(f, start, inBlocks, xorBlocks, outBlocks, blocks - left, false)
    {
      ghost var before := mem[..];
      RunStep(f, if reverse then before else start, inBlocks, xorBlocks, outBlocks,
        if reverse then left else blocks - left + 1, reverse);
      mem[o] := op.At(x == o)(mem[a], mem[x]);
      assert mem[..] == Step(f, before, a, x, o);
      a, x, o := a + increment, x + increment, o + increment;
      left := left - 1;
    }
    NoRun(f, mem[..], inBlocks, xorBlocks, outBlocks, reverse);
    if Safe(reverse, outBlocks, inBlocks, blocks) && Safe(reverse, outBlocks, xorBlocks, blocks) {
      RunSafe(f, start, inBlocks, xorBlocks, outBlocks, blocks, reverse);
      if Tolerant(op) {
        CombinedSame(op, Region(start, inBlocks, blocks), Region(start, xorBlocks, blocks));
      }
    }
  }

  lemma RunStep<B>(f: Combine<B>, m: seq<B>, a: nat, x: nat, o: nat, n: nat, reverse: bool)
    requires 1 <= n && a + n <= |m| && x + n <= |m| && o + n <= |m|
    ensures reverse ==>
      Run(f, m, a, x, o, n, true) == Run(f, Step(f, m, a + n - 1, x + n - 1, o + n - 1), a, x, o, n - 1, true)
    ensures !reverse ==>
      Run(f, m, a, x, o, n, false) == Step(f, Run(f, m, a, x, o, n - 1, false), a + n - 1, x + n - 1, o + n - 1)
  {
  }

  // ----- regions of memory

  function Region<B>(m: seq<B>, i: nat, n: nat): (r: seq<B>)
    requires i + n <= |m|
    ensures |r| == n
  {
    m[i..i + n]
  }

  /** Only the n blocks from o on differ. */
  ghost predicate OnlyAt<B>(m: seq<B>, r: seq<B>, o: nat, n: nat) {
    |r| == |m| && forall j :: 0 <= j < |m| && !(o <= j < o + n) ==> r[j] == m[j]
  }

  predicate Apart(o: nat, n: nat, i: nat, k: nat) {
    o + n <= i || i + k <= o
  }

  lemma RegionKept<B>(m: seq<B>, r: seq<B>, o: nat, n: nat, i: nat, k: nat)
    requires OnlyAt(m, r, o, n) && i + k <= |m| && Apart(o, n, i, k)
    ensures Region(r, i, k) == Region(m, i, k)
  {
  }

  lemma RegionLast<B>(m: seq<B>, i: nat, n: nat, iv: B)
    requires 1 <= n && i + n <= |m|
    ensures Region(m, i, n) == Region(m, i, n - 1) + [m[i + n - 1]]
    ensures Last(iv, Region(m, i, n)) == m[i + n - 1]
  {
  }

  lemma RegionFirst<B>(m: seq<B>, i: nat, n: nat)
    requires 1 <= n && i + n <= |m|
    ensures Region(m, i, n) == [m[i]] + Region(m, i + 1, n - 1)
  {
  }

  lemma OnlyAtKept<B>(m: seq<B>, r: seq<B>, o: nat, n: nat, j: nat)
    requires OnlyAt(m, r, o, n) && j < |m| && Apart(o, n, j, 1)
    ensures r[j] == m[j]
  {
  }

  /** One change after another. */
  lemma OnlyAtTwice<B>(m: seq<B>, q: seq<B>, r: seq<B>, o: nat, n: nat, o2: nat, n2: nat, p: nat, k: nat)
    requires OnlyAt(m, q, o, n) && OnlyAt(q, r, o2, n2) && p <= o && o + n <= p + k && p <= o2 && o2 + n2 <= p + k
    ensures OnlyAt(m, r, p, k)
  {
  }

  // ----- when the order does not matter

  /** No operand block is overwritten before it is read. */
  predicate Safe(reverse: bool, o: nat, a: nat, n: nat) {
    Apart(o, n, a, n) || if reverse then a <= o else o <= a
  }

  /** Every output block is the function of the original operands. */
  function Combined<B>(f: Combine<B>, a: seq<B>, x: seq<B>): (r: seq<B>)
    requires |a| == |x|
    ensures |r| == |a|
  {
    seq(|a|, i requires 0 <= i < |a| => f(a[i], x[i]))
  }

  lemma StepAt<B>(f: Combine<B>, m: seq<B>, a: nat, x: nat, o: nat)
    requires a < |m| && x < |m| && o < |m|
    ensures OnlyAt(m, Step(f, m, a, x, o), o, 1) && Step(f, m, a, x, o)[o] == f(m[a], m[x])
    ensures Run(f, m, a, x, o, 1, false) == Step(f, m, a, x, o)
  {
    assert Run(f, m, a, x, o, 0, false) == m;
  }

  lemma {:induction false} RunSafe<B>(f: Combine<B>, m: seq<B>, a: nat, x: nat, o: nat, n: nat, reverse: bool)
    requires a + n <= |m| && x + n <= |m| && o + n <= |m|
    requires Safe(reverse, o, a, n) && Safe(reverse, o, x, n)
    ensures OnlyAt(m, Run(f, m, a, x, o, n, reverse), o, n)
    ensures Region(Run(f, m, a, x, o, n, reverse), o, n) == Combined(f, Region(m, a, n), Region(m, x, n))
    decreases n
  {
    hide Run, Region, OnlyAt, Combined;
    if n == 0 {
      RunSafeNone(f, m, a, x, o, reverse);
    } else {
      if reverse {
        var m1 := Step(f, m, a + n - 1, x + n - 1, o + n - 1);
        RunSafe(f, m1, a, x, o, n - 1, reverse);
        ReverseStep(f, m, a, x, o, n);
      } else {
        RunSafe(f, m, a, x, o, n - 1, reverse);
        ForwardStep(f, m, a, x, o, n);
      }
    }
  }

  lemma RunSafeNone<B>(f: Combine<B>, m: seq<B>, a: nat, x: nat, o: nat, reverse: bool)
    requires a <= |m| && x <= |m| && o <= |m|
    ensures OnlyAt(m, Run(f, m, a, x, o, 0, reverse), o, 0)
    ensures Region(Run(f, m, a, x, o, 0, reverse), o, 0) == Combined(f, Region(m, a, 0), Region(m, x, 0))
  {
  }

  lemma ReverseStep<B>(f: Combine<B>, m: seq<B>, a: nat, x: nat, o: nat, n: nat)
    requires 1 <= n && a + n <= |m| && x + n <= |m| && o + n <= |m| && Safe(true, o, a, n) && Safe(true, o, x, n)
    requires
      var m1 := Step(f, m, a + n - 1, x + n - 1, o + n - 1);
      var r := Run(f, m1, a, x, o, n - 1, true);
      OnlyAt(m1, r, o, n - 1) && Region(r, o, n - 1) == Combined(f, Region(m1, a, n - 1), Region(m1, x, n - 1))
    ensures OnlyAt(m, Run(f, m, a, x, o, n, true), o, n)
    ensures Region(Run(f, m, a, x, o, n, true), o, n) == Combined(f, Region(m, a, n), Region(m, x, n))
  {
    hide Run, Step, Region, OnlyAt, Combined;
    RunStep(f, m, a, x, o, n, true);
    var r, k := Run(f, m, a, x, o, n, true), n - 1;
    var m1 := Step(f, m, a + k, x + k, o + k);
    StepAt(f, m, a + k, x + k, o + k);
    RegionKept(m, m1, o + k, 1, a, k);
    RegionKept(m, m1, o + k, 1, x, k);
    OnlyAtKept(m1, r, o, k, o + k);
    OnlyAtTwice(m, m1, r, o + k, 1, o, k, o, n);
    CombinedTo(f, m, a, x, r, o, n);
  }

  lemma ForwardStep<B>(f: Combine<B>, m: seq<B>, a: nat, x: nat, o: nat, n: nat)
    requires 1 <= n && a + n <= |m| && x + n <= |m| && o + n <= |m| && Safe(false, o, a, n) && Safe(false, o, x, n)
    requires
      var q := Run(f, m, a, x, o, n - 1, false);
      OnlyAt(m, q, o, n - 1) && Region(q, o, n - 1) == Combined(f, Region(m, a, n - 1), Region(m, x, n - 1))
    ensures OnlyAt(m, Run(f, m, a, x, o, n, false), o, n)
    ensures Region(Run(f, m, a, x, o, n, false), o, n) == Combined(f, Region(m, a, n), Region(m, x, n))
  {
    hide Run, Step, Region, OnlyAt, Combined;
    RunStep(f, m, a, x, o, n, false);
    var r, k := Run(f, m, a, x, o, n, false), n - 1;
    var q := Run(f, m, a, x, o, k, false);
    StepAt(f, q, a + k, x + k, o + k);
    OnlyAtKept(m, q, o, k, a + k);
    OnlyAtKept(m, q, o, k, x + k);
    RegionKept(q, r, o + k, 1, o, k);
    OnlyAtTwice(m, q, r, o, k, o + k, 1, o, n);
    CombinedTo(f, m, a, x, r, o, n);
  }

  lemma CombinedTo<B>(f: Combine<B>, m: seq<B>, a: nat, x: nat, r: seq<B>, o: nat, n: nat)
    requires 1 <= n && a + n <= |m| && x + n <= |m| && o + n <= |r|
    requires Region(r, o, n - 1) == Combined(f, Region(m, a, n - 1), Region(m, x, n - 1))
    requires r[o + n - 1] == f(m[a + n - 1], m[x + n - 1])
    ensures Region(r, o, n) == Combined(f, Region(m, a, n), Region(m, x, n))
  {
    hide Region, Combined;
    RegionLast(r, o, n, r[o]);
    RegionLast(m, a, n, r[o]);
    RegionLast(m, x, n, r[o]);
    CombinedSnoc(f, Region(m, a, n - 1), Region(m, x, n - 1), m[a + n - 1], m[x + n - 1]);
  }

  lemma CombinedSame<B(!new)>(op: BlockOp<B>, a: seq<B>, x: seq<B>)
    requires |a| == |x| && Tolerant(op)
    ensures Combined(op.aliased, a, x) == Combined(op.apart, a, x)
  {
  }

  lemma CombinedSnoc<B>(f: Combine<B>, a: seq<B>, x: seq<B>, b: B, y: B)
    requires |a| == |x|
    ensures Combined(f, a + [b], x + [y]) == Combined(f, a, x) + [f(b, y)]
  {
  }

  /** In particular reverse order in place, the xor blocks one block behind, is
      a forward pass into separate memory. */
  lemma ReverseInPlace<B>(f: Combine<B>, m: seq<B>, a: nat, n: nat, far: seq<B>, o: nat)
    requires 1 <= a && a + n <= |m| <= |far| && Region(far, 0, |m|) == m && |m| <= o && o + n <= |far|
    ensures Region(Run(f, m, a, a - 1, a, n, true), a, n) == Region(Run(f, far, a, a - 1, o, n, false), o, n)
    ensures OnlyAt(m, Run(f, m, a, a - 1, a, n, true), a, n)
  {
    hide Run, Combined;
    RunSafe(f, m, a, a - 1, a, n, true);
    RunSafe(f, far, a, a - 1, o, n, false);
    assert Region(m, a, n) == Region(far, a, n) && Region(m, a - 1, n) == Region(far, a - 1, n);
  }

  // ----- chaining modes

  /** Every output depends on the one before it. */
  function Chain<B>(f: Combine<B>, iv: B, p: seq<B>): (c: seq<B>)
    ensures |c| == |p|
  {
    if p == [] then []
    else
      var c := Chain(f, iv, p[..|p| - 1]);
      c + [f(p[|p| - 1], Last(iv, c))]
  }

  function Last<B>(iv: B, c: seq<B>): B {
    if c == [] then iv else c[|c| - 1]
  }

  /** Every output depends on the input before it. */
  function Unchain<B>(g: Combine<B>, iv: B, c: seq<B>): (p: seq<B>)
    ensures |p| == |c|
  {
    seq(|c|, i requires 0 <= i < |c| => g(c[i], if i == 0 then iv else c[i - 1]))
  }

  ghost predicate Undoes<B(!new)>(g: Combine<B>, f: Combine<B>) {
    forall p, x :: g(f(p, x), x) == p
  }

  lemma {:induction false} ChainRoundTrip<B(!new)>(f: Combine<B>, g: Combine<B>, iv: B, p: seq<B>)
    requires Undoes(g, f)
    ensures Unchain(g, iv, Chain(f, iv, p)) == p
  {
    if p != [] {
      var n := |p| - 1;
      ChainRoundTrip(f, g, iv, p[..n]);
      var c := Chain(f, iv, p);
      assert c[..n] == Chain(f, iv, p[..n]);
      assert Unchain(g, iv, c)[..n] == Unchain(g, iv, c[..n]);
      assert g(f(p[n], Last(iv, c[..n])), Last(iv, c[..n])) == p[n];
      assert p == p[..n] + [p[n]];
    }
  }

  /** A message may be cut anywhere, the last output block carrying over. */
  lemma {:induction false} ChainJoin<B>(f: Combine<B>, iv: B, p: seq<B>, q: seq<B>)
    ensures Chain(f, iv, p + q) == Chain(f, iv, p) + Chain(f, Last(iv, Chain(f, iv, p)), q)
  {
    if q == [] {
      assert p + q == p;
    } else {
      var n := |q| - 1;
      ChainJoin(f, iv, p, q[..n]);
      assert (p + q)[..|p + q| - 1] == p + q[..n];
    }
  }

  /** So may a ciphertext, the last input block carrying over. */
  lemma UnchainJoin<B>(g: Combine<B>, iv: B, c: seq<B>, d: seq<B>)
    ensures Unchain(g, iv, c + d) == Unchain(g, iv, c) + Unchain(g, Last(iv, c), d)
  {
  }

  /** Ascending order with the previous output as xor block is a chain. */
  lemma {:induction false} RunChain<B>(f: Combine<B>, m: seq<B>, a: nat, o: nat, n: nat)
    requires 1 <= o && a + n <= |m| && o + n <= |m| && Safe(false, o, a, n)
    ensures OnlyAt(m, Run(f, m, a, o - 1, o, n, false), o, n)
    ensures Region(Run(f, m, a, o - 1, o, n, false), o, n) == Chain(f, m[o - 1], Region(m, a, n))
    decreases n
  {
    if n > 0 {
      RunChain(f, m, a, o, n - 1);
      RunChainStep(f, m, a, o, n);
    }
  }

  lemma RunChainStep<B>(f: Combine<B>, m: seq<B>, a: nat, o: nat, n: nat)
    requires 1 <= n && 1 <= o && a + n <= |m| && o + n <= |m| && Safe(false, o, a, n)
    requires OnlyAt(m, Run(f, m, a, o - 1, o, n - 1, false), o, n - 1)
    requires Region(Run(f, m, a, o - 1, o, n - 1, false), o, n - 1) == Chain(f, m[o - 1], Region(m, a, n - 1))
    ensures OnlyAt(m, Run(f, m, a, o - 1, o, n, false), o, n)
    ensures Region(Run(f, m, a, o - 1, o, n, false), o, n) == Chain(f, m[o - 1], Region(m, a, n))
  {
    var r, k := Run(f, m, a, o - 1, o, n, false), n - 1;
    var q := Run(f, m, a, o - 1, o, k, false);
    assert r == Step(f, q, a + k, o - 1 + k, o + k);
    hide Run, Step, Region, OnlyAt, Chain;
    StepAt(f, q, a + k, o - 1 + k, o + k);
    OnlyAtKept(m, q, o, k, a + k);
    OnlyAtKept(m, q, o, k, o - 1);
    RegionKept(q, r, o + k, 1, o, k);
    OnlyAtTwice(m, q, r, o, k, o + k, 1, o, n);
    RegionLast(r, o, n, r[o]);
    RegionLast(m, a, n, r[o]);
    if k > 0 {
      RegionLast(q, o, k, m[o - 1]);
    }
    ChainSnoc(f, m[o - 1], Region(m, a, k), m[a + k]);
  }

  lemma ChainSnoc<B>(f: Combine<B>, iv: B, p: seq<B>, b: B)
    ensures Chain(f, iv, p + [b]) == Chain(f, iv, p) + [f(b, Last(iv, Chain(f, iv, p)))]
  {
    assert (p + [b])[..|p|] == p;
  }

  /** What the two calls of CBC encryption compute. */
  lemma CbcRun<B>(f: Combine<B>, m: seq<B>, register: nat, a: nat, o: nat, n: nat)
    requires 1 <= n && a + n <= |m| && o + n <= |m| && register < |m| && Safe(false, o, a, n)
    ensures var r := Run(f, Step(f, m, a, register, o), a + 1, o, o + 1, n - 1, false);
      OnlyAt(m, r, o, n) && Region(r, o, n) == Chain(f, m[register], Region(m, a, n))
  {
    hide Run, Chain, Step, Region, OnlyAt;
    var first, k := Step(f, m, a, register, o), n - 1;
    StepAt(f, m, a, register, o);
    RunChain(f, first, a + 1, o + 1, k);
    var r := Run(f, first, a + 1, o, o + 1, k, false);
    RegionFirst(r, o, n);
    RegionFirst(m, a, n);
    RegionKept(m, first, o, 1, a + 1, k);
    OnlyAtKept(first, r, o + 1, k, o);
    OnlyAtTwice(m, first, r, o, 1, o + 1, k, o, n);
    ChainCons(f, m[register], m[a], Region(m, a + 1, k));
  }

  lemma ChainCons<B>(f: Combine<B>, iv: B, b: B, p: seq<B>)
    ensures Chain(f, iv, [b] + p) == [f(b, iv)] + Chain(f, f(b, iv), p)
  {
    ChainJoin(f, iv, [b], p);
    ChainSnoc(f, iv, [], b);
    assert [] + [b] == [b];
  }

  /** What the two calls of CBC decryption compute. */
  lemma CbcUnrun<B>(g: Combine<B>, m: seq<B>, register: nat, a: nat, o: nat, n: nat)
    requires 1 <= n && a + n <= |m| && o + n <= |m| && register < |m| && Safe(true, o, a, n)
    requires Apart(o, n, register, 1)
    ensures var r := Step(g, Run(g, m, a + 1, a, o + 1, n - 1, true), a, register, o);
      OnlyAt(m, r, o, n) && Region(r, o, n) == Unchain(g, m[register], Region(m, a, n))
  {
    hide Run, Combined, Unchain, Step, Region, OnlyAt;
    var k := n - 1;
    var q := Run(g, m, a + 1, a, o + 1, k, true);
    RunSafe(g, m, a + 1, a, o + 1, k, true);
    var r := Step(g, q, a, register, o);
    StepAt(g, q, a, register, o);
    OnlyAtKept(m, q, o + 1, k, a);
    OnlyAtKept(m, q, o + 1, k, register);
    RegionFirst(r, o, n);
    RegionKept(q, r, o, 1, o + 1, k);
    OnlyAtTwice(m, q, r, o + 1, k, o, 1, o, n);
    RegionFirst(m, a, n);
    RegionLast(m, a, n, m[a]);
    UnchainCombined(g, m[register], m[a], Region(m, a + 1, k), Region(m, a, k), m[a + k]);
  }

  lemma UnchainCombined<B>(g: Combine<B>, iv: B, first: B, rest: seq<B>, front: seq<B>, last: B)
    requires [first] + rest == front + [last]
    ensures Unchain(g, iv, [first] + rest) == [g(first, iv)] + Combined(g, rest, front)
  {
    var c := [first] + rest;
    assert forall i :: 0 <= i < |rest| ==> c[i + 1] == rest[i] && c[i] == front[i];
  }

  // ----- the modes

  /** CBC_Encryption::ProcessData: mem[register] is m_register.  outString may be
      inString, lie below it, or be apart from it. */
  method CbcEncrypt<B(!new)>(mem: array<B>, f: Combine<B>, register: nat, outString: nat, inString: nat, blocks: nat)
    requires inString + blocks <= mem.Length && outString + blocks <= mem.Length && register < mem.Length
    requires Apart(outString, blocks, register, 1) && Safe(false, outString, inString, blocks)
    modifies mem
    ensures mem[..] == Updated(old(mem[..]), register, outString,
      Chain(f, old(mem[register]), Region(old(mem[..]), inString, blocks)),
      Last(old(mem[register]), Chain(f, old(mem[register]), Region(old(mem[..]), inString, blocks))))
  {
    hide Run, Chain, Step, Region, OnlyAt, Updated;
    ghost var m := mem[..];
    if blocks == 0 {
      NothingUpdated(f, m, register, outString, inString);
      return;
    }
    AdvancedProcessBlocks(mem, InTime(f), inString, register, outString, 1, false);
    ghost var first := mem[..];
    StepAt(f, m, inString, register, outString);
    if blocks > 1 {
      AdvancedProcessBlocks(mem, InTime(f), inString + 1, outString, outString + 1, blocks - 1, false);
    } else {
      NoRun(f, first, inString + 1, outString, outString + 1, false);
    }
    CbcRun(f, m, register, inString, outString, blocks);
    ghost var r := mem[..];
    mem[register] := mem[outString + blocks - 1];
    RegionLast(r, outString, blocks, m[register]);
    IsUpdated(m, r, register, outString, blocks, mem[register]);
  }

  /** mem with c written at o and the register set. */
  function Updated<B>(m: seq<B>, register: nat, o: nat, c: seq<B>, last: B): seq<B>
    requires o + |c| <= |m| && register < |m|
  {
    (m[..o] + c + m[o + |c|..])[register := last]
  }

  lemma IsUpdated<B>(m: seq<B>, r: seq<B>, register: nat, o: nat, n: nat, last: B)
    requires OnlyAt(m, r, o, n) && o + n <= |m| && register < |m|
    ensures r[register := last] == Updated(m, register, o, Region(r, o, n), last)
  {
  }

  lemma NothingUpdated<B>(f: Combine<B>, m: seq<B>, register: nat, o: nat, i: nat)
    requires o <= |m| && i <= |m| && register < |m|
    ensures Chain(f, m[register], Region(m, i, 0)) == [] == Unchain(f, m[register], Region(m, i, 0))
    ensures Region(m, i, 0) == [] && m == Updated(m, register, o, [], m[register])
  {
  }

  lemma NoRun<B>(f: Combine<B>, m: seq<B>, a: nat, x: nat, o: nat, reverse: bool)
    requires a <= |m| && x <= |m| && o <= |m|
    ensures Run(f, m, a, x, o, 0, reverse) == m
  {
  }

  /** CBC_Decryption::ProcessData: mem[register] is m_register.  outString may be
      inString, lie above it, or be apart from it. */
  method CbcDecrypt<B(!new)>(mem: array<B>, op: BlockOp<B>, register: nat, outString: nat, inString: nat, blocks: nat)
    requires inString + blocks <= mem.Length && outString + blocks <= mem.Length && register < mem.Length
    requires Apart(outString, blocks, register, 1) && Safe(true, outString, inString, blocks)
    modifies mem
    ensures mem[..] == Updated(old(mem[..]), register, outString,
      Unchain(op.apart, old(mem[register]), Region(old(mem[..]), inString, blocks)),
      Last(old(mem[register]), Region(old(mem[..]), inString, blocks)))
  {
    hide Run, Unchain, Step, Region, OnlyAt, Updated;
    ghost var m, g := mem[..], op.apart;
    if blocks == 0 {
      NothingUpdated(g, m, register, outString, inString);
      return;
    }
    var temp := mem[inString + blocks - 1];
    if blocks > 1 {
      AdvancedProcessBlocks(mem, op, inString + 1, inString, outString + 1, blocks - 1, true);
    } else {
      NoRun(g, m, inString + 1, inString, outString + 1, true);
    }
    AdvancedProcessBlocks(mem, op, inString, register, outString, 1, false);
    StepAt(g, Run(g, m, inString + 1, inString, outString + 1, blocks - 1, true), inString, register, outString);
    CbcUnrun(g, m, register, inString, outString, blocks);
    ghost var r := mem[..];
    mem[register] := temp;
    RegionLast(m, inString, blocks, m[register]);
    IsUpdated(m, r, register, outString, blocks, temp);
  }

  /** ECB_OneWay::ProcessData: with a null xorBlocks every block is just
      transformed.  outString may be inString, lie below it, or be apart. */
  method EcbProcess<B(!new)>(mem: array<B>, E: B -> B, outString: nat, inString: nat, blocks: nat)
    requires inString + blocks <= mem.Length && outString + blocks <= mem.Length
    requires Safe(false, outString, inString, blocks)
    modifies mem
    ensures OnlyAt(old(mem[..]), mem[..], outString, blocks)
    ensures forall i :: 0 <= i < blocks ==>
              Region(mem[..], outString, blocks)[i] == E(Region(old(mem[..]), inString, blocks)[i])
  {
    var f: Combine<B> := (b, _) => E(b);
    AdvancedProcessBlocks(mem, InTime(f), inString, inString, outString, blocks, false);
  }

  // ----- CFB, where the roles of input and xor block are exchanged

  function Flip<B>(h: Combine<B>): Combine<B> {
    (a, x) => h(x, a)
  }

  lemma {:induction false} RunFlip<B>(h: Combine<B>, m: seq<B>, a: nat, x: nat, o: nat, n: nat, reverse: bool)
    requires a + n <= |m| && x + n <= |m| && o + n <= |m|
    ensures Run(h, m, a, x, o, n, reverse) == Run(Flip(h), m, x, a, o, n, reverse)
    decreases n
  {
    if n > 0 {
      if reverse {
        RunFlip(h, Step(h, m, a + n - 1, x + n - 1, o + n - 1), a, x, o, n - 1, reverse);
      } else {
        RunFlip(h, m, a, x, o, n - 1, reverse);
      }
    }
  }

  /** CFB_ModePolicy::Iterate, encrypting.  In place, every xor block is the
      output block. */
  method CfbEncrypt<B(!new)>(mem: array<B>, op: BlockOp<B>, register: nat, output: nat, input: nat, blocks: nat)
    requires 1 <= blocks && input + blocks <= mem.Length && output + blocks <= mem.Length && register < mem.Length
    requires Apart(output, blocks, register, 1) && Safe(false, output, input, blocks)
    modifies mem
    ensures var c := Chain(Flip(op.At(input == output)), old(mem[register]), Region(old(mem[..]), input, blocks));
      mem[..] == Updated(old(mem[..]), register, output, c, Last(old(mem[register]), c))
    ensures input != output || Tolerant(op) ==>
      var c := Chain(Flip(op.apart), old(mem[register]), Region(old(mem[..]), input, blocks));
      mem[..] == Updated(old(mem[..]), register, output, c, Last(old(mem[register]), c))
  {
    hide Run, Chain, Step, Region, OnlyAt, Updated, Tolerant;
    ghost var m, h := mem[..], op.At(input == output);
    AdvancedProcessBlocks(mem, op, register, input, output, 1, false);
    ghost var first := mem[..];
    RunFlip(h, m, register, input, output, 1, false);
    StepAt(Flip(h), m, input, register, output);
    AdvancedProcessBlocks(mem, op, output, input + 1, output + 1, blocks - 1, false);
    RunFlip(h, first, output, input + 1, output + 1, blocks - 1, false);
    CbcRun(Flip(h), m, register, input, output, blocks);
    ghost var r := mem[..];
    mem[register] := mem[output + blocks - 1];
    RegionLast(r, output, blocks, m[register]);
    IsUpdated(m, r, register, output, blocks, mem[register]);
    if Tolerant(op) {
      ToleratedChain(op, m[register], Region(m, input, blocks));
    }
  }

  /** CFB_ModePolicy::Iterate, decrypting. */
  method CfbDecrypt<B(!new)>(mem: array<B>, op: BlockOp<B>, register: nat, output: nat, input: nat, blocks: nat)
    requires 1 <= blocks && input + blocks <= mem.Length && output + blocks <= mem.Length && register < mem.Length
    requires Apart(output, blocks, register, 1) && Safe(true, output, input, blocks)
    modifies mem
    ensures mem[..] == Updated(old(mem[..]), register, output,
      Unchain(Flip(op.At(input == output)), old(mem[register]), Region(old(mem[..]), input, blocks)),
      Last(old(mem[register]), Region(old(mem[..]), input, blocks)))
    ensures input != output || Tolerant(op) ==>
      mem[..] == Updated(old(mem[..]), register, output,
        Unchain(Flip(op.apart), old(mem[register]), Region(old(mem[..]), input, blocks)),
        Last(old(mem[register]), Region(old(mem[..]), input, blocks)))
  {
    hide Run, Unchain, Step, Region, OnlyAt, Updated, Tolerant;
    ghost var m, h := mem[..], op.At(input == output);
    var temp := mem[input + blocks - 1];
    AdvancedProcessBlocks(mem, op, input, input + 1, output + 1, blocks - 1, true);
    RunFlip(h, m, input, input + 1, output + 1, blocks - 1, true);
    ghost var q := mem[..];
    AdvancedProcessBlocks(mem, op, register, input, output, 1, false);
    RunFlip(h, q, register, input, output, 1, false);
    StepAt(Flip(h), q, input, register, output);
    CbcUnrun(Flip(h), m, register, input, output, blocks);
    ghost var r := mem[..];
    mem[register] := temp;
    RegionLast(m, input, blocks, m[register]);
    IsUpdated(m, r, register, output, blocks, temp);
    if Tolerant(op) {
      ToleratedUnchain(op, m[register], Region(m, input, blocks));
    }
  }

  lemma {:induction false} ToleratedChain<B(!new)>(op: BlockOp<B>, iv: B, p: seq<B>)
    requires Tolerant(op)
    ensures Chain(Flip(op.aliased), iv, p) == Chain(Flip(op.apart), iv, p)
  {
    if p != [] {
      ToleratedChain(op, iv, p[..|p| - 1]);
      var x := Last(iv, Chain(Flip(op.apart), iv, p[..|p| - 1]));
      assert op.aliased(x, p[|p| - 1]) == op.apart(x, p[|p| - 1]);
    }
  }

  lemma ToleratedUnchain<B(!new)>(op: BlockOp<B>, iv: B, c: seq<B>)
    requires Tolerant(op)
    ensures Unchain(Flip(op.aliased), iv, c) == Unchain(Flip(op.apart), iv, c)
  {
    forall i | 0 <= i < |c|
      ensures Unchain(Flip(op.aliased), iv, c)[i] == Unchain(Flip(op.apart), iv, c)[i]
    {
      var x := if i == 0 then iv else c[i - 1];
      assert op.aliased(x, c[i]) == op.apart(x, c[i]);
    }
  }

  ghost predicate SameChain<B>(f: Combine<B>, g: Combine<B>, iv: B, p: seq<B>) {
    Chain(f, iv, p) == Chain(g, iv, p)
  }

  ghost predicate SameUnchain<B>(f: Combine<B>, g: Combine<B>, iv: B, c: seq<B>) {
    Unchain(f, iv, c) == Unchain(g, iv, c)
  }

  /** In-place CFB is CFB, for every register and message, exactly when the
      operation tolerates an xor block that is its output block; the same for
      decryption. */
  lemma CfbInPlaceExact<B(!new)>(op: BlockOp<B>)
    ensures (forall iv, p :: SameChain(Flip(op.aliased), Flip(op.apart), iv, p)) <==> Tolerant(op)
    ensures (forall iv, c :: SameUnchain(Flip(op.aliased), Flip(op.apart), iv, c)) <==> Tolerant(op)
  {
    hide Chain, Unchain;
    var f, g := Flip(op.aliased), Flip(op.apart);
    if Tolerant(op) {
      forall iv, p ensures SameChain(f, g, iv, p) && SameUnchain(f, g, iv, p) {
        ToleratedChain(op, iv, p);
        ToleratedUnchain(op, iv, p);
      }
    } else {
      var a, x :| op.aliased(a, x) != op.apart(a, x);
      OneBlock(f, a, x);
      OneBlock(g, a, x);
      assert !SameChain(f, g, a, [x]) && !SameUnchain(f, g, a, [x]);
    }
  }

  lemma OneBlock<B>(f: Combine<B>, iv: B, b: B)
    ensures Chain(f, iv, [b]) == [f(b, iv)] == Unchain(f, iv, [b])
  {
    ChainSnoc(f, iv, [], b);
    assert [] + [b] == [b];
  }

  // ----- decryption undoes encryption

  ghost predicate IsXor<B(!new)>(xor: Combine<B>) {
    (forall a, b :: xor(a, b) == xor(b, a)) && forall a, b :: xor(a, xor(a, b)) == b
  }

  /** BT_XorInput: the xor comes first. */
  function CbcForward<B>(E: B -> B, xor: Combine<B>): Combine<B> {
    (p, x) => E(xor(x, p))
  }

  /** ProcessAndXorBlock: the xor comes last. */
  function XorLast<B>(E: B -> B, xor: Combine<B>): Combine<B> {
    (c, x) => xor(E(c), x)
  }

  lemma CbcUndone<B(!new)>(E: B -> B, D: B -> B, xor: Combine<B>)
    requires IsXor(xor) && forall b :: D(E(b)) == b
    ensures Undoes(XorLast(D, xor), CbcForward(E, xor))
  {
    var f, g := CbcForward(E, xor), XorLast(D, xor);
    forall p, x ensures g(f(p, x), x) == p {
      assert g(f(p, x), x) == xor(D(E(xor(x, p))), x);
      assert D(E(xor(x, p))) == xor(x, p);
      assert xor(xor(x, p), x) == xor(x, xor(x, p));
    }
  }

  /** CFB uses the forward transformation both ways. */
  lemma CfbUndone<B(!new)>(E: B -> B, xor: Combine<B>)
    requires IsXor(xor)
    ensures Undoes(Flip(XorLast(E, xor)), Flip(XorLast(E, xor)))
  {
    var f := Flip(XorLast(E, xor));
    forall p, x ensures f(f(p, x), x) == p {
      assert f(f(p, x), x) == xor(E(x), xor(E(x), p));
    }
  }

  lemma {:induction false} ChainAt<B>(f: Combine<B>, iv: B, p: seq<B>, i: nat)
    requires i < |p|
    ensures Chain(f, iv, p)[i] == f(p[i], if i == 0 then iv else Chain(f, iv, p)[i - 1])
  {
    var n := |p| - 1;
    if i < n {
      ChainAt(f, iv, p[..n], i);
    }
  }

  /** CBC: c[i] = E(c[i - 1] xor p[i]), c[-1] being the register, and back. */
  lemma CbcIs<B>(E: B -> B, D: B -> B, xor: Combine<B>, iv: B, p: seq<B>, i: nat)
    requires i < |p|
    ensures var c := Chain(CbcForward(E, xor), iv, p); c[i] == E(xor(if i == 0 then iv else c[i - 1], p[i]))
    ensures Unchain(XorLast(D, xor), iv, p)[i] == xor(D(p[i]), if i == 0 then iv else p[i - 1])
  {
    hide Chain, CbcForward, XorLast, Unchain;
    var c := Chain(CbcForward(E, xor), iv, p);
    ChainAt(CbcForward(E, xor), iv, p, i);
    CbcForwardIs(E, xor, p[i], if i == 0 then iv else c[i - 1]);
    UnchainAt(XorLast(D, xor), iv, p, i);
    XorLastIs(D, xor, p[i], if i == 0 then iv else p[i - 1]);
  }

  lemma CbcForwardIs<B>(E: B -> B, xor: Combine<B>, p: B, x: B)
    ensures CbcForward(E, xor)(p, x) == E(xor(x, p))
  {
  }

  lemma XorLastIs<B>(E: B -> B, xor: Combine<B>, c: B, x: B)
    ensures XorLast(E, xor)(c, x) == xor(E(c), x) && Flip(XorLast(E, xor))(x, c) == xor(E(c), x)
  {
  }

  lemma UnchainAt<B>(g: Combine<B>, iv: B, c: seq<B>, i: nat)
    requires i < |c|
    ensures Unchain(g, iv, c)[i] == g(c[i], if i == 0 then iv else c[i - 1])
  {
  }

  /** CFB: c[i] = E(c[i - 1]) xor p[i], and back. */
  lemma CfbIs<B>(E: B -> B, xor: Combine<B>, iv: B, p: seq<B>, i: nat)
    requires i < |p|
    ensures var c := Chain(Flip(XorLast(E, xor)), iv, p); c[i] == xor(E(if i == 0 then iv else c[i - 1]), p[i])
    ensures Unchain(Flip(XorLast(E, xor)), iv, p)[i] == xor(E(if i == 0 then iv else p[i - 1]), p[i])
  {
    hide Chain, XorLast, Flip, Unchain;
    var f := Flip(XorLast(E, xor));
    ChainAt(f, iv, p, i);
    XorLastIs(E, xor, if i == 0 then iv else Chain(f, iv, p)[i - 1], p[i]);
    UnchainAt(f, iv, p, i);
    XorLastIs(E, xor, if i == 0 then iv else p[i - 1], p[i]);
  }

  /** What an update does to a region and to the rest. */
  lemma UpdatedParts<B>(m: seq<B>, register: nat, o: nat, c: seq<B>, last: B)
    requires o + |c| <= |m| && register < |m| && Apart(o, |c|, register, 1)
    ensures var r := Updated(m, register, o, c, last);
      && |r| == |m| && Region(r, o, |c|) == c && r[register] == last
      && forall j :: 0 <= j < |m| && j != register && Apart(o, |c|, j, 1) ==> r[j] == m[j]
  {
  }

  /** Encrypting a buffer in place and decrypting it in place gives it back, in
      CBC mode, and leaves both sides ready for the next message.  No xor block
      is an output block, so that any block operation will do. */
  method CbcInPlace<B(!new)>(
    mem: array<B>, E: B -> B, decrypt: BlockOp<B>, ghost D: B -> B, xor: Combine<B>, encReg: nat, decReg: nat, a: nat,
    n: nat)
    requires IsXor(xor) && decrypt.apart == XorLast(D, xor) && forall b :: D(E(b)) == b
    requires a + n <= mem.Length && encReg < mem.Length && decReg < mem.Length && encReg != decReg
    requires Apart(a, n, encReg, 1) && Apart(a, n, decReg, 1) && mem[encReg] == mem[decReg]
    modifies mem
    ensures Region(mem[..], a, n) == Region(old(mem[..]), a, n)
    ensures mem[encReg] == mem[decReg]
  {
    hide Chain, Unchain, Undoes, Region, Updated;
    var f, g := CbcForward(E, xor), decrypt.apart;
    ghost var m := mem[..];
    ghost var p, iv := Region(m, a, n), m[decReg];
    CbcEncrypt(mem, f, encReg, a, a, n);
    ghost var c := Chain(f, iv, p);
    UpdatedParts(m, encReg, a, c, Last(iv, c));
    ghost var m2 := mem[..];
    CbcDecrypt(mem, decrypt, decReg, a, a, n);
    UpdatedParts(m2, decReg, a, Unchain(g, iv, c), Last(iv, c));
    CbcUndone(E, D, xor);
    ChainRoundTrip(f, g, iv, p);
  }

  /** The same in CFB mode, for an operation that tolerates being in place. */
  method CfbInPlace<B(!new)>(
    mem: array<B>, op: BlockOp<B>, ghost E: B -> B, ghost xor: Combine<B>, encReg: nat, decReg: nat, a: nat, n: nat)
    requires IsXor(xor) && op.apart == XorLast(E, xor) && Tolerant(op)
    requires 1 <= n && a + n <= mem.Length && encReg < mem.Length && decReg < mem.Length && encReg != decReg
    requires Apart(a, n, encReg, 1) && Apart(a, n, decReg, 1) && mem[encReg] == mem[decReg]
    modifies mem
    ensures Region(mem[..], a, n) == Region(old(mem[..]), a, n)
    ensures mem[encReg] == mem[decReg]
  {
    hide Chain, Unchain, Undoes, Region, Updated, Tolerant;
    ghost var m, f := mem[..], Flip(op.apart);
    ghost var p, iv := Region(m, a, n), m[decReg];
    CfbEncrypt(mem, op, encReg, a, a, n);
    ghost var c := Chain(f, iv, p);
    UpdatedParts(m, encReg, a, c, Last(iv, c));
    ghost var m2 := mem[..];
    CfbDecrypt(mem, op, decReg, a, a, n);
    UpdatedParts(m2, decReg, a, Unchain(f, iv, c), Last(iv, c));
    CfbUndone(E, xor);
    ChainRoundTrip(f, f, iv, p);
  }
}
