/** The DES key schedule (crypto++/des.cpp; FIPS 46-3, figure 3) and the parity
    bits of a key. */
module DesKeys {

  datatype CipherDir = ENCRYPTION | DECRYPTION

  function ReverseCipherDir(dir: CipherDir): CipherDir {
    if dir == ENCRYPTION then DECRYPTION else ENCRYPTION
  }

  /** Permuted choice 1, which leaves out the parity bits, by quarters. */
  const C1: seq<int> := [57, 49, 41, 33, 25, 17, 9] + [1, 58, 50, 42, 34, 26, 18]
  const C2: seq<int> := [10, 2, 59, 51, 43, 35, 27] + [19, 11, 3, 60, 52, 44, 36]
  const D1: seq<int> := [63, 55, 47, 39, 31, 23, 15] + [7, 62, 54, 46, 38, 30, 22]
  const D2: seq<int> := [14, 6, 61, 53, 45, 37, 29] + [21, 13, 5, 28, 20, 12, 4]
  const Pc1: seq<int> := C1 + C2 + D1 + D2

  /** Left rotations before each round's choice. */
  const Totrot: seq<int> := [1, 2, 4, 6, 8, 10, 12, 14, 15, 17, 19, 21, 23, 25, 27, 28]

  /** Permuted choice 2. */
  const Pc2: seq<int> :=
    [14, 17, 11, 24, 1, 5] + [3, 28, 15, 6, 21, 10] + [23, 19, 12, 4, 26, 8] + [16, 7, 27, 20, 13, 2] +
    [41, 52, 31, 37, 47, 55] + [30, 40, 51, 45, 33, 48] + [44, 49, 39, 56, 34, 53] + [46, 42, 50, 36, 29, 32]

  /** Bit numbers in a key of 8 bytes, its parity bits not among them. */
  predicate KeyBits(row: seq<int>) {
    forall x <- row :: 1 <= x <= 64 && x % 8 != 0
  }

  lemma Join(s: seq<int>, t: seq<int>)
    requires KeyBits(s) && KeyBits(t)
    ensures KeyBits(s + t)
  {
  }

  lemma Tables()
    ensures |Pc1| == 56 && |Totrot| == 16 && |Pc2| == 48
    ensures KeyBits(Pc1)
    ensures forall x <- Totrot :: 1 <= x <= 28
    ensures forall x <- Pc2 :: 1 <= x <= 56
  {
    ChoiceRows();
  }

  lemma ChoiceRows()
    ensures KeyBits(Pc1)
  {
    assert KeyBits(C1);
    assert KeyBits(C2);
    assert KeyBits(D1);
    assert KeyBits(D2);
    hide KeyBits, C1, C2, D1, D2;
    Join(C1, C2);
    Join(C1 + C2, D1);
    Join(C1 + C2 + D1, D2);
  }

  // ----- what the tables are

  /** The columns of PC-1, read downwards: 57 49 ... 1, 58 ... for C, and 63 55
      ... 7, 62 ... for D, whose last four come from the fourth column. */
  function Pc1Column(j: int): int {
    if j < 28 then 57 - 8 * (j % 8) + j / 8
    else if j < 52 then 63 - 8 * ((j - 28) % 8) - (j - 28) / 8
    else 28 - 8 * (j - 52)
  }

  lemma Pc1Columns(j: int)
    requires 0 <= j < 56
    ensures |Pc1| == 56 && Pc1[j] == Pc1Column(j)
  {
    if j < 14 {
      QuarterC1(j);
    } else if j < 28 {
      QuarterC2(j - 14);
    } else if j < 42 {
      QuarterD1(j - 28);
    } else {
      QuarterD2(j - 42);
    }
  }

  lemma QuarterC1(j: int)
    requires 0 <= j < 14
    ensures |C1| == 14 && C1[j] == Pc1Column(j)
  {
    assert j == 0 || j == 1 || j == 2 || j == 3 || j == 4 || j == 5 || j == 6 || j >= 7;
  }

  lemma QuarterC2(j: int)
    requires 0 <= j < 14
    ensures |C2| == 14 && C2[j] == Pc1Column(14 + j)
  {
    assert j == 0 || j == 1 || j == 2 || j == 3 || j == 4 || j == 5 || j == 6 || j >= 7;
  }

  lemma QuarterD1(j: int)
    requires 0 <= j < 14
    ensures |D1| == 14 && D1[j] == Pc1Column(28 + j)
  {
    assert j == 0 || j == 1 || j == 2 || j == 3 || j == 4 || j == 5 || j == 6 || j >= 7;
  }

  lemma QuarterD2(j: int)
    requires 0 <= j < 14
    ensures |D2| == 14 && D2[j] == Pc1Column(42 + j)
  {
    assert j == 0 || j == 1 || j == 2 || j == 3 || j == 4 || j == 5 || j == 6 || j >= 7;
  }

  /** PC-2, row by row. */
  lemma Pc2Rows()
    ensures |Pc2| == 48
    ensures Pc2[..6] == [14, 17, 11, 24, 1, 5] && Pc2[6..12] == [3, 28, 15, 6, 21, 10]
    ensures Pc2[12..18] == [23, 19, 12, 4, 26, 8] && Pc2[18..24] == [16, 7, 27, 20, 13, 2]
    ensures Pc2[24..30] == [41, 52, 31, 37, 47, 55] && Pc2[30..36] == [30, 40, 51, 45, 33, 48]
    ensures Pc2[36..42] == [44, 49, 39, 56, 34, 53] && Pc2[42..] == [46, 42, 50, 36, 29, 32]
  {
  }

  /** It takes 24 bits of each half, none twice, and leaves out eight. */
  lemma Pc2Halves()
    ensures |Pc2| == 48
    ensures forall x <- Pc2[..24] :: 1 <= x <= 28
    ensures forall x <- Pc2[24..] :: 29 <= x <= 56
    ensures forall x :: x in Pc2 <==> 1 <= x <= 56 && x !in {9, 18, 22, 25, 35, 38, 43, 54}
    ensures forall i, j :: 0 <= i < j < 48 ==> Pc2[i] != Pc2[j]
  {
    Pc2Members();
    hide Pc2;
    var out := {9, 18, 22, 25, 35, 38, 43, 54};
    assert |out| == 8;
    NoneTwice(Pc2, 56, out);
  }

  lemma NoneTwice(s: seq<int>, n: nat, out: set<int>)
    requires forall x :: x in s <==> 1 <= x <= n && x !in out
    requires (forall x <- out :: 1 <= x <= n) && |s| == n - |out|
    ensures forall i, j :: 0 <= i < j < |s| ==> s[i] != s[j]
  {
    hide Upto;
    RangeSize(n);
    var all, used := Upto(n), Elements(s);
    forall x ensures x in used <==> x in all && x !in out {
      assert x in used <==> x in s;
    }
    assert used == all - out;
    assert out <= all by {
      forall x <- out ensures x in all {
      }
    }
    assert |used| == |all| - |out|;
    NoRepeats(s);
  }

  lemma Pc2Members()
    ensures |Pc2| == 48
    ensures forall x <- Pc2[..24] :: 1 <= x <= 28
    ensures forall x <- Pc2[24..] :: 29 <= x <= 56
    ensures forall x :: x in Pc2 <==> 1 <= x <= 56 && x !in {9, 18, 22, 25, 35, 38, 43, 54}
  {
  }

  ghost function Elements(s: seq<int>): set<int> {
    set x <- s
  }

  ghost function Upto(n: nat): set<int> {
    if n == 0 then {} else Upto(n - 1) + {n}
  }

  lemma {:induction false} RangeSize(n: nat)
    ensures |Upto(n)| == n && forall x :: x in Upto(n) <==> 1 <= x <= n
  {
    if n > 0 {
      RangeSize(n - 1);
    }
  }

  lemma {:induction false} ElementCount(s: seq<int>)
    ensures |Elements(s)| <= |s|
  {
    if s != [] {
      var n := |s| - 1;
      ElementCount(s[..n]);
      assert s == s[..n] + [s[n]];
      assert Elements(s) == Elements(s[..n]) + {s[n]};
    }
  }

  /** As many elements as places leave no room for a repetition. */
  lemma {:induction false} NoRepeats(s: seq<int>)
    requires |Elements(s)| == |s|
    ensures forall i, j :: 0 <= i < j < |s| ==> s[i] != s[j]
  {
    if s != [] {
      var n := |s| - 1;
      ElementCount(s[..n]);
      assert s == s[..n] + [s[n]];
      assert Elements(s) == Elements(s[..n]) + {s[n]};
      assert s[n] !in s[..n];
      NoRepeats(s[..n]);
      forall i, j | 0 <= i < j < |s| ensures s[i] != s[j] {
        if j == n {
          assert s[i] in s[..n];
        } else {
          assert s[i] == s[..n][i] && s[j] == s[..n][j];
        }
      }
    }
  }

  // ----- the subkeys

  /** bytebit: bit 0 is left-most in byte. */
  function ByteBit(m: int): bv8
    requires 0 <= m < 8
  {
    match m
    case 0 => 0x80
    case 1 => 0x40
    case 2 => 0x20
    case 3 => 0x10
    case 4 => 0x08
    case 5 => 0x04
    case 6 => 0x02
    case 7 => 0x01
  }

  predicate KeyBit(key: seq<bv8>, l: int)
    requires |key| == 8 && 0 <= l < 64
  {
    key[l / 8] & ByteBit(l % 8) != 0
  }

  /** The two 28-bit halves of a key. */
  function Choice(key: seq<bv8>): (c: seq<bool>)
    requires |key| == 8
    ensures |c| == 56
  {
    Tables();
    seq(56, j requires 0 <= j < 56 => assert Pc1[j] in Pc1; KeyBit(key, Pc1[j] - 1))
  }

  /** Where position j of the halves rotated left by n comes from. */
  function RotatedFrom(j: int, n: int): (l: int)
    requires 0 <= j < 56 && 0 <= n <= 28
    ensures 0 <= l < 56
  {
    if j + n < (if j < 28 then 28 else 56) then j + n else j + n - 28
  }

  function Rotated(c: seq<bool>, n: int): (r: seq<bool>)
    requires |c| == 56 && 0 <= n <= 28
    ensures |r| == 56
  {
    seq(56, j requires 0 <= j < 56 => c[RotatedFrom(j, n)])
  }

  /** Both halves one place to the left. */
  function RotateOnce(c: seq<bool>): (r: seq<bool>)
    requires |c| == 56
    ensures |r| == 56
  {
    c[1..28] + [c[0]] + c[29..] + [c[28]]
  }

  lemma RotatedNext(c: seq<bool>, n: int)
    requires |c| == 56 && 0 <= n < 28
    ensures Rotated(c, n + 1) == RotateOnce(Rotated(c, n))
    ensures Rotated(c, 0) == c && Rotated(c, 28) == c
  {
  }

  /** One place before rounds 1, 2, 9 and 16, two before the others, and all the
      way round in the end (i counts the rounds from 0). */
  lemma ScheduleRotations(c: seq<bool>, i: int)
    requires |c| == 56 && 0 <= i < 16
    ensures |Totrot| == 16 && 1 <= Totrot[i] <= 28 && (i > 0 ==> 1 <= Totrot[i - 1] <= 28)
    ensures i == 0 ==> Rotated(c, Totrot[0]) == RotateOnce(c)
    ensures i == 1 || i == 8 || i == 15 ==> Rotated(c, Totrot[i]) == RotateOnce(Rotated(c, Totrot[i - 1]))
    ensures 2 <= i <= 7 || 9 <= i <= 14 ==>
              Rotated(c, Totrot[i]) == RotateOnce(RotateOnce(Rotated(c, Totrot[i - 1])))
    ensures i == 15 ==> Rotated(c, Totrot[i]) == c
  {
    TotalRotations(i);
    hide Totrot, Rotated, RotateOnce;
    RotatedNext(c, 0);
    if i > 0 {
      var n := Totrot[i - 1];
      RotatedNext(c, n);
      if Totrot[i] == n + 2 {
        RotatedNext(c, n + 1);
      }
    }
  }

  lemma TotalRotations(i: int)
    requires 0 <= i < 16
    ensures |Totrot| == 16 && Totrot[0] == 1 && Totrot[15] == 28 && 1 <= Totrot[i] <= 28
    ensures i > 0 ==> 1 <= Totrot[i - 1] <= 27
    ensures i == 1 || i == 8 || i == 15 ==> Totrot[i] == Totrot[i - 1] + 1
    ensures 2 <= i <= 7 || 9 <= i <= 14 ==> Totrot[i] == Totrot[i - 1] + 2
  {
  }

  /** The 48 bits chosen for one round. */
  function Selected(r: seq<bool>): (s: seq<bool>)
    requires |r| == 56
    ensures |s| == 48
  {
    Tables();
    seq(48, j requires 0 <= j < 48 => assert Pc2[j] in Pc2; r[Pc2[j] - 1])
  }

  /** The first n of the six bits of group g, in a byte. */
  function SixBits(s: seq<bool>, g: int, n: nat): bv8
    requires |s| == 48 && 0 <= g < 8 && n <= 6
  {
    if n == 0 then 0
    else SixBits(s, g, n - 1) | if s[6 * g + n - 1] then ByteBit(n - 1) >> 2 else 0
  }

  /** Four bytes, most significant first. */
  function Spread(a: bv8, b: bv8, c: bv8, d: bv8): bv32 {
    (a as bv32 << 24) | (b as bv32 << 16) | (c as bv32 << 8) | d as bv32
  }

  /** The two words of one round: even and odd groups. */
  function RoundKey(c: seq<bool>, i: int): (bv32, bv32)
    requires |c| == 56 && 0 <= i < 16
  {
    Tables();
    assert Totrot[i] in Totrot;
    var s := Selected(Rotated(c, Totrot[i]));
    (Spread(SixBits(s, 0, 6), SixBits(s, 2, 6), SixBits(s, 4, 6), SixBits(s, 6, 6)),
     Spread(SixBits(s, 1, 6), SixBits(s, 3, 6), SixBits(s, 5, 6), SixBits(s, 7, 6)))
  }

  /** The sixteen round keys of an encryption. */
  function Schedule(key: seq<bv8>): (ks: seq<(bv32, bv32)>)
    requires |key| == 8
    ensures |ks| == 16
  {
    seq(16, i requires 0 <= i < 16 => RoundKey(Choice(key), i))
  }

  function Reverse<T>(s: seq<T>): (r: seq<T>)
    ensures |r| == |s|
  {
    if s == [] then [] else Reverse(s[1..]) + [s[0]]
  }

  /** The round keys in the order in which a direction uses them. */
  function KeysFor(dir: CipherDir, key: seq<bv8>): seq<(bv32, bv32)>
    requires |key| == 8
  {
    if dir == ENCRYPTION then Schedule(key) else Reverse(Schedule(key))
  }

  // ----- RawSetKey

  method PermuteKey(key: seq<bv8>, pc1m: array<bool>)
    requires |key| == 8 && pc1m.Length == 56
    modifies pc1m
    ensures pc1m[..] == Choice(key)
  {
    hide Pc1, KeyBit, Choice;
    for j := 0 to 56
      invariant forall i :: 0 <= i < j ==> pc1m[i] == Choice(key)[i]
    {
      ChoiceAt(key, j);
      pc1m[j] := KeyBit(key, Pc1[j] - 1);
    }
  }

  method RotateHalves(pc1m: array<bool>, pcr: array<bool>, n: int)
    requires pc1m.Length == 56 && pcr.Length == 56 && pcr != pc1m && 0 <= n <= 28
    modifies pcr
    ensures pcr[..] == Rotated(pc1m[..], n)
  {
    for j := 0 to 56
      invariant forall i :: 0 <= i < j ==> pcr[i] == pc1m[RotatedFrom(i, n)]
    {
      var l := j + n;
      pcr[j] := pc1m[if l < (if j < 28 then 28 else 56) then l else l - 28];
    }
  }

  /** How many bits of group g are among the first j. */
  function InGroup(g: int, j: int): (n: nat)
    ensures n <= 6
  {
    if j <= 6 * g then 0 else if j >= 6 * g + 6 then 6 else j - 6 * g
  }

  method SelectBits(pcr: array<bool>, ks: array<bv8>)
    requires pcr.Length == 56 && ks.Length == 8
    modifies ks
    ensures forall g :: 0 <= g < 8 ==> ks[g] == SixBits(Selected(pcr[..]), g, 6)
  {
    hide ByteBit, Pc2, Selected, SixBits, InGroup;
    for g := 0 to 8
      invariant forall h :: 0 <= h < g ==> ks[h] == 0
    {
      ks[g] := 0;
    }
    ghost var s := Selected(pcr[..]);
    SelectStart(s);
    for j := 0 to 48
      invariant forall g :: 0 <= g < 8 ==> ks[g] == SixBits(s, g, InGroup(g, j))
    {
      SelectedFrom(pcr[..], j);
      SelectStep(s, ks[..], j);
      if pcr[Pc2[j] - 1] {
        var l := j % 6;
        ks[j / 6] := ks[j / 6] | (ByteBit(l) >> 2);
      }
    }
    SelectEnd(s);
  }

  lemma SelectedFrom(r: seq<bool>, j: int)
    requires |r| == 56 && 0 <= j < 48
    ensures |Pc2| == 48 && 1 <= Pc2[j] <= 56 && Selected(r)[j] == r[Pc2[j] - 1]
  {
    Tables();
    assert Pc2[j] in Pc2;
  }

  lemma SelectStart(s: seq<bool>)
    requires |s| == 48
    ensures forall g :: 0 <= g < 8 ==> SixBits(s, g, InGroup(g, 0)) == 0
  {
  }

  lemma SelectEnd(s: seq<bool>)
    requires |s| == 48
    ensures forall g :: 0 <= g < 8 ==> InGroup(g, 48) == 6
  {
  }

  lemma SelectStep(s: seq<bool>, ks: seq<bv8>, j: int)
    requires |s| == 48 && |ks| == 8 && 0 <= j < 48
    requires forall g :: 0 <= g < 8 ==> ks[g] == SixBits(s, g, InGroup(g, j))
    ensures var ks2 := if s[j] then ks[j / 6 := ks[j / 6] | (ByteBit(j % 6) >> 2)] else ks;
      forall g :: 0 <= g < 8 ==> ks2[g] == SixBits(s, g, InGroup(g, j + 1))
  {
    hide ByteBit;
    var g, l := j / 6, j % 6;
    assert InGroup(g, j) == l && InGroup(g, j + 1) == l + 1;
    assert forall h :: 0 <= h < 8 && h != g ==> InGroup(h, j + 1) == InGroup(h, j);
    OrZero(ks[g]);
    assert SixBits(s, g, l + 1) == SixBits(s, g, l) | if s[j] then ByteBit(l) >> 2 else 0;
  }

  lemma OrZero(x: bv8)
    ensures x | 0 == x
  {
  }

  /** The two words of every round, in the order of the source. */
  ghost predicate Holds(k: seq<bv32>, ks: seq<(bv32, bv32)>) {
    |k| == 2 * |ks| && forall i :: 0 <= i < |ks| ==> (k[2 * i], k[2 * i + 1]) == ks[i]
  }

  method ForwardSchedule(key: seq<bv8>, k: array<bv32>)
    requires |key| == 8 && k.Length == 32
    modifies k
    ensures Holds(k[..], Schedule(key))
  {
    hide ByteBit, Pc2, Pc1, Totrot, Selected, SixBits, Rotated, Spread, RoundKey, Choice;
    var pc1m, pcr, ks := new bool[56], new bool[56], new bv8[8];
    PermuteKey(key, pc1m);
    ghost var c := Choice(key);
    for i := 0 to 16
      invariant pc1m[..] == c
      invariant forall m :: 0 <= m < i ==> (k[2 * m], k[2 * m + 1]) == RoundKey(c, m)
    {
      Rotation(i);
      RotateHalves(pc1m, pcr, Totrot[i]);
      SelectBits(pcr, ks);
      RoundWords(c, i, ks[..]);
      k[2 * i] := Spread(ks[0], ks[2], ks[4], ks[6]);
      k[2 * i + 1] := Spread(ks[1], ks[3], ks[5], ks[7]);
    }
  }

  lemma Rotation(i: int)
    requires 0 <= i < 16
    ensures |Totrot| == 16 && 1 <= Totrot[i] <= 28
  {
    Tables();
    assert Totrot[i] in Totrot;
  }

  lemma RoundWords(c: seq<bool>, i: int, ks: seq<bv8>)
    requires |c| == 56 && 0 <= i < 16 && |ks| == 8
    requires |Totrot| == 16 && 1 <= Totrot[i] <= 28
    requires forall g :: 0 <= g < 8 ==> ks[g] == SixBits(Selected(Rotated(c, Totrot[i])), g, 6)
    ensures RoundKey(c, i) == (Spread(ks[0], ks[2], ks[4], ks[6]), Spread(ks[1], ks[3], ks[5], ks[7]))
  {
    hide ByteBit, Selected, SixBits, Rotated, Spread;
  }

  lemma {:induction false} ReverseAt<T>(s: seq<T>, i: int)
    requires 0 <= i < |s|
    ensures Reverse(s)[i] == s[|s| - 1 - i]
  {
    if i < |s| - 1 {
      ReverseAt(s[1..], i);
    }
  }

  /** The order of the round keys depends on the direction. */
  method RawSetKey(dir: CipherDir, key: seq<bv8>, k: array<bv32>)
    requires |key| == 8 && k.Length == 32
    modifies k
    ensures Holds(k[..], KeysFor(dir, key))
  {
    hide Schedule;
    ForwardSchedule(key, k);
    if dir == DECRYPTION {
      ghost var was := k[..];
      var i := 0;
      while i < 16
        invariant 0 <= i <= 16 && i % 2 == 0
        invariant forall j :: 0 <= j < i / 2 ==> (k[2 * j], k[2 * j + 1]) == (was[30 - 2 * j], was[31 - 2 * j])
        invariant forall j :: 0 <= j < i / 2 ==> (k[30 - 2 * j], k[31 - 2 * j]) == (was[2 * j], was[2 * j + 1])
        invariant forall m :: i <= m < 32 - i ==> k[m] == was[m]
      {
        k[i], k[32 - 2 - i] := k[32 - 2 - i], k[i];
        k[i + 1], k[32 - 1 - i] := k[32 - 1 - i], k[i + 1];
        i := i + 2;
      }
      ReversedPairs(was, k[..], Schedule(key));
    }
  }

  lemma ReversedPairs(was: seq<bv32>, k: seq<bv32>, ks: seq<(bv32, bv32)>)
    requires |ks| == 16 && Holds(was, ks) && |k| == 32
    requires forall j :: 0 <= j < 8 ==> (k[2 * j], k[2 * j + 1]) == (was[30 - 2 * j], was[31 - 2 * j])
    requires forall j :: 0 <= j < 8 ==> (k[30 - 2 * j], k[31 - 2 * j]) == (was[2 * j], was[2 * j + 1])
    ensures Holds(k, Reverse(ks))
  {
    forall i | 0 <= i < 16 ensures (k[2 * i], k[2 * i + 1]) == Reverse(ks)[i] {
      ReverseAt(ks, i);
      if i < 8 {
        assert ks[15 - i] == (was[2 * (15 - i)], was[2 * (15 - i) + 1]);
      } else {
        var j := 15 - i;
        assert (k[30 - 2 * j], k[31 - 2 * j]) == (was[2 * j], was[2 * j + 1]);
      }
    }
  }

  // ----- parity bits

  ghost predicate SameButParity(a: seq<bv8>, b: seq<bv8>) {
    |a| == |b| == 8 && forall i :: 0 <= i < 8 ==> a[i] & 0xfe == b[i] & 0xfe
  }

  /** The parity bits of a key do not matter. */
  lemma ParityIgnored(a: seq<bv8>, b: seq<bv8>)
    requires SameButParity(a, b)
    ensures forall dir :: KeysFor(dir, a) == KeysFor(dir, b)
  {
    hide RoundKey, KeyBit, Pc1;
    forall j | 0 <= j < 56 ensures Choice(a)[j] == Choice(b)[j] {
      ChoiceAt(a, j);
      ChoiceAt(b, j);
      SameKeyBit(a, b, Pc1[j] - 1);
    }
    assert Choice(a) == Choice(b);
    assert Schedule(a) == Schedule(b);
  }

  lemma ChoiceAt(key: seq<bv8>, j: int)
    requires |key| == 8 && 0 <= j < 56
    ensures |Pc1| == 56 && 1 <= Pc1[j] <= 64 && (Pc1[j] - 1) % 8 != 7 && Choice(key)[j] == KeyBit(key, Pc1[j] - 1)
  {
    hide Pc1, KeyBit, Totrot, Pc2;
    Tables();
    assert Pc1[j] in Pc1;
  }

  lemma SameKeyBit(a: seq<bv8>, b: seq<bv8>, l: int)
    requires SameButParity(a, b) && 0 <= l < 64 && l % 8 != 7
    ensures KeyBit(a, l) == KeyBit(b, l)
  {
    SameMasked(a[l / 8], b[l / 8], l % 8);
  }

  lemma SameMasked(x: bv8, y: bv8, m: int)
    requires x & 0xfe == y & 0xfe && 0 <= m < 7
    ensures x & ByteBit(m) == y & ByteBit(m)
  {
  }

  predicate CheckParity(b: bv8) {
    var a := b ^ (b >> 4);
    (a ^ (a >> 1) ^ (a >> 2) ^ (a >> 3)) & 1 == 1
  }

  function Ones(b: bv8, n: nat): nat
    requires n <= 8
  {
    if n == 0 then 0 else Ones(b, n - 1) + if b & ByteBit(n - 1) != 0 then 1 else 0
  }

  /** A byte passes when it has an odd number of ones. */
  lemma OddParity(b: bv8)
    ensures CheckParity(b) <==> Ones(b, 8) % 2 == 1
  {
    hide CheckParity, Ones;
    XorOfBits(b);
    OnesStep(b, 0);
    OnesStep(b, 2);
    OnesStep(b, 4);
    OnesStep(b, 6);
  }

  lemma OnesStep(b: bv8, n: nat)
    requires n <= 6
    ensures Ones(b, 0) == 0
    ensures Ones(b, n + 2) % 2 == 1 <==>
      (Ones(b, n) % 2 == 1) != ((b & ByteBit(n) != 0) != (b & ByteBit(n + 1) != 0))
  {
    hide ByteBit;
    assert Ones(b, n + 1) == Ones(b, n) + if b & ByteBit(n) != 0 then 1 else 0;
  }

  lemma XorOfBits(b: bv8)
    ensures CheckParity(b) ==
      ((((b & 0x80 != 0) != (b & 0x40 != 0)) != ((b & 0x20 != 0) != (b & 0x10 != 0))) !=
       (((b & 0x08 != 0) != (b & 0x04 != 0)) != ((b & 0x02 != 0) != (b & 0x01 != 0))))
  {
  }

  method CheckKeyParityBits(key: seq<bv8>) returns (ok: bool)
    requires |key| == 8
    ensures ok <==> forall i :: 0 <= i < 8 ==> Ones(key[i], 8) % 2 == 1
  {
    hide CheckParity, Ones;
    for i := 0 to 8
      invariant forall j :: 0 <= j < i ==> Ones(key[j], 8) % 2 == 1
    {
      OddParity(key[i]);
      if !CheckParity(key[i]) {
        return false;
      }
    }
    return true;
  }

  /** Every byte gets odd parity, and no other bit of the key changes. */
  method CorrectKeyParityBits(key: array<bv8>)
    requires key.Length == 8
    modifies key
    ensures forall i :: 0 <= i < 8 ==> Ones(key[i], 8) % 2 == 1
    ensures SameButParity(key[..], old(key[..]))
  {
    hide CheckParity, Ones;
    for i := 0 to 8
      invariant forall j :: 0 <= j < i ==> Ones(key[j], 8) % 2 == 1 && key[j] & 0xfe == old(key[j]) & 0xfe
      invariant forall j :: i <= j < 8 ==> key[j] == old(key[j])
    {
      OddParity(key[i]);
      FlipParity(key[i]);
      if !CheckParity(key[i]) {
        key[i] := key[i] ^ 1;
      }
    }
  }

  lemma FlipParity(b: bv8)
    ensures (b ^ 1) & 0xfe == b & 0xfe
    ensures Ones(b ^ 1, 8) % 2 == 1 <==> !CheckParity(b)
  {
    hide Ones;
    OddParity(b ^ 1);
  }
}
