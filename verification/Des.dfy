/** DES, DES-EDE2, DES-EDE3 and DES-XEX3 (crypto++/des.cpp; FIPS 46-3).  The
    combined S and P boxes are arbitrary throughout. */
module Des {
  import opened DesPermutation
  import opened DesKeys

  /** Spbox[8][64] */
  type Boxes = (int, bv6) -> bv32

  // ----- the rounds

  function Box(sp: Boxes, n: int, work: bv32): bv32 {
    sp(n, (work & 0x3f) as bv6)
  }

  function EvenBoxes(sp: Boxes, work: bv32): bv32 {
    Box(sp, 6, work) ^ Box(sp, 4, work >> 8) ^ Box(sp, 2, work >> 16) ^ Box(sp, 0, work >> 24)
  }

  function OddBoxes(sp: Boxes, work: bv32): bv32 {
    Box(sp, 7, work) ^ Box(sp, 5, work >> 8) ^ Box(sp, 3, work >> 16) ^ Box(sp, 1, work >> 24)
  }

  function EvenInput(half: bv32, k0: bv32): bv32 {
    half.RotateRight(4) ^ k0
  }

  function OddInput(half: bv32, k1: bv32): bv32 {
    half ^ k1
  }

  /** What one round adds to the other half. */
  function RoundFunction(sp: Boxes, half: bv32, key: Words): bv32 {
    EvenBoxes(sp, EvenInput(half, key.0)) ^ OddBoxes(sp, OddInput(half, key.1))
  }

  function Round(sp: Boxes, key: Words, w: Words): Words {
    (w.1, w.0 ^ RoundFunction(sp, w.1, key))
  }

  /** The Feistel network of the standard: the halves change places in every
      round. */
  function Rounds(sp: Boxes, keys: seq<Words>, w: Words): Words {
    if keys == [] then w else Rounds(sp, keys[1..], Round(sp, keys[0], w))
  }

  lemma {:induction false} RoundsConcat(sp: Boxes, a: seq<Words>, b: seq<Words>, w: Words)
    ensures Rounds(sp, a + b, w) == Rounds(sp, b, Rounds(sp, a, w))
    decreases |a|
  {
    hide Round;
    if a == [] {
      assert a + b == b;
    } else {
      RoundsConcat(sp, a[1..], b, Round(sp, a[0], w));
      assert (a + b)[1..] == a[1..] + b;
    }
  }

  lemma RoundInverse(sp: Boxes, key: Words, w: Words)
    ensures Round(sp, key, Swap(Round(sp, key, w))) == Swap(w)
  {
    hide RoundFunction;
    assert (w.0 ^ RoundFunction(sp, w.1, key)) ^ RoundFunction(sp, w.1, key) == w.0;
  }

  /** With the round keys reversed the network runs backwards, up to a swap of
      the halves, whatever the round function. */
  lemma {:induction false} FeistelInverse(sp: Boxes, keys: seq<Words>, w: Words)
    ensures Rounds(sp, Reverse(keys), Swap(Rounds(sp, keys, w))) == Swap(w)
    decreases |keys|
  {
    hide Round, Swap;
    if keys != [] {
      var v := Round(sp, keys[0], w);
      FeistelInverse(sp, keys[1..], v);
      RoundsConcat(sp, Reverse(keys[1..]), [keys[0]], Swap(Rounds(sp, keys, w)));
      assert Rounds(sp, [keys[0]], Swap(v)) == Round(sp, keys[0], Swap(v));
      RoundInverse(sp, keys[0], w);
    }
  }

  lemma {:induction false} ReverseReverse<T>(s: seq<T>)
    ensures Reverse(Reverse(s)) == s
  {
    forall i | 0 <= i < |s| ensures Reverse(Reverse(s))[i] == s[i] {
      ReverseAt(Reverse(s), i);
      ReverseAt(s, |s| - 1 - i);
    }
  }

  class RawDES {
    const Spbox: Boxes
    const k: array<bv32>
    ghost var keys: seq<Words>

    ghost predicate Valid()
      reads this, k
    {
      k.Length == 32 && |keys| == 16 && Holds(k[..], keys)
    }

    constructor (sp: Boxes)
      ensures Spbox == sp && fresh(k) && k.Length == 32
    {
      Spbox := sp;
      k := new bv32[32];
    }

    method SetKey(dir: CipherDir, key: seq<bv8>)
      requires |key| == 8 && k.Length == 32
      modifies this, k
      ensures Valid() && keys == KeysFor(dir, key)
    {
      RawSetKey(dir, key, k);
      keys := KeysFor(dir, key);
    }

    /** One round's contribution, in the two steps of the source. */
    method AddRound(x: bv32, half: bv32, k0: bv32, k1: bv32) returns (y: bv32)
      ensures y == x ^ RoundFunction(Spbox, half, (k0, k1))
    {
      hide EvenBoxes, OddBoxes, RoundFunction, EvenInput, OddInput;
      var work := EvenInput(half, k0);
      y := x ^ EvenBoxes(Spbox, work);
      work := OddInput(half, k1);
      y := y ^ OddBoxes(Spbox, work);
      RoundParts(Spbox, x, half, k0, k1);
    }

    /** Eight times two rounds without moving the halves are the sixteen. */
    method RawProcessBlock(l_: bv32, r_: bv32) returns (l: bv32, r: bv32)
      requires Valid()
      ensures (l, r) == Rounds(Spbox, keys, (l_, r_))
    {
      hide EvenBoxes, OddBoxes, RoundFunction, Rounds;
      l, r := l_, r_;
      assert keys[0..] == keys;
      for i := 0 to 8
        invariant Rounds(Spbox, keys[2 * i..], (l, r)) == Rounds(Spbox, keys, (l_, r_))
      {
        ghost var l0, r0 := l, r;
        assert (k[4 * i], k[4 * i + 1]) == keys[2 * i] by {
          assert k[..][2 * (2 * i)] == keys[2 * i].0;
        }
        assert (k[4 * i + 2], k[4 * i + 3]) == keys[2 * i + 1] by {
          assert k[..][2 * (2 * i + 1)] == keys[2 * i + 1].0;
        }
        l := AddRound(l, r, k[4 * i + 0], k[4 * i + 1]);
        r := AddRound(r, l, k[4 * i + 2], k[4 * i + 3]);
        TwoRounds(Spbox, keys, 2 * i, (l0, r0), (l, r));
      }
      NoRounds(Spbox, keys[16..], (l, r));
    }
  }

  lemma XorAssociative(x: bv32, y: bv32, z: bv32)
    ensures (x ^ y) ^ z == x ^ (y ^ z)
  {
  }

  lemma RoundParts(sp: Boxes, x: bv32, half: bv32, k0: bv32, k1: bv32)
    ensures (x ^ EvenBoxes(sp, EvenInput(half, k0))) ^ OddBoxes(sp, OddInput(half, k1)) ==
      x ^ RoundFunction(sp, half, (k0, k1))
  {
    hide EvenBoxes, OddBoxes, EvenInput, OddInput;
    XorAssociative(x, EvenBoxes(sp, EvenInput(half, k0)), OddBoxes(sp, OddInput(half, k1)));
  }

  lemma NoRounds(sp: Boxes, keys: seq<Words>, w: Words)
    requires |keys| == 0
    ensures Rounds(sp, keys, w) == w
  {
  }

  lemma RoundsStep(sp: Boxes, keys: seq<Words>, i: int, w: Words)
    requires 0 <= i < |keys|
    ensures Rounds(sp, keys[i..], w) == Rounds(sp, keys[i + 1..], Round(sp, keys[i], w))
  {
    hide Round;
    assert keys[i..][1..] == keys[i + 1..];
  }

  lemma TwoRounds(sp: Boxes, keys: seq<Words>, i: int, w: Words, v: Words)
    requires 0 <= i < |keys| - 1
    requires v.0 == w.0 ^ RoundFunction(sp, w.1, keys[i]) && v.1 == w.1 ^ RoundFunction(sp, v.0, keys[i + 1])
    ensures Rounds(sp, keys[i..], w) == Rounds(sp, keys[i + 2..], v)
  {
    hide RoundFunction, Rounds;
    RoundsStep(sp, keys, i, w);
    RoundsStep(sp, keys, i + 1, (w.1, v.0));
    assert i + 1 + 1 == i + 2;
  }
}
