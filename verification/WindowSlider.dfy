/** The signed sliding-window recoder of crypto++/algebra.cpp, and the digit
    string it is meant to produce. */
module WindowSliders {
  import opened Powers

  /** A signed digit and the bit position it stands at. */
  datatype Digit = Digit(value: int, position: nat)

  /** Whether the window at the bottom of rest is taken as a negative digit. */
  predicate Negate(rest: nat, w: nat, fastNegate: bool) {
    fastNegate && Bit(rest, w) == 1
  }

  /** The digit an odd number starts with: its lowest w bits, moved into the
      negative range when that clears the bit above them. */
  function FirstDigit(rest: nat, w: nat, fastNegate: bool): int {
    if Negate(rest, w, fastNegate) then Low(rest, w) - Pow2(w) else Low(rest, w)
  }

  /** What is left above that digit. */
  function AboveDigit(rest: nat, w: nat, fastNegate: bool): nat {
    if Negate(rest, w, fastNegate) then Shr(rest, w) + 1 else Shr(rest, w)
  }

  /** The arithmetic of FirstDigit, on the parts of an odd number. */
  lemma DigitShape(rest: nat, s: nat, low: nat, p: int, shifted: int, fastNegate: bool)
    requires rest == shifted + low && rest % 2 == 1
    requires shifted % 2 == 0 && shifted >= 2 * s && p % 2 == 0 && low < p
    ensures var negate := fastNegate && s % 2 == 1;
      var d, above := if negate then low - p else low, if negate then s + 1 else s;
      && d % 2 == 1
      && -p < d < p
      && above < rest
      && (fastNegate ==> above % 2 == 0)
      && (!fastNegate ==> d > 0)
      && (negate <==> d < 0)
  {
  }

  lemma FirstDigitFacts(rest: nat, w: nat, fastNegate: bool)
    requires w >= 1 && rest % 2 == 1
    ensures var d, above := FirstDigit(rest, w, fastNegate), AboveDigit(rest, w, fastNegate);
      && d % 2 == 1
      && -Pow2(w) < d < Pow2(w)
      && rest == Shl(above, w) + d
      && above < rest
      && (fastNegate ==> above % 2 == 0)
      && (!fastNegate ==> d > 0)
      && (Negate(rest, w, fastNegate) <==> d < 0)
  {
    hide Shl, Shr, Low, Pow2;
    var s, low, p := Shr(rest, w), Low(rest, w), Pow2(w);
    var shifted := Shl(s, w);
    assert rest == shifted + low by { ShrLow(rest, w); }
    assert shifted % 2 == 0 && shifted >= 2 * s by { ShlEven(s, w); }
    Pow2Even(w);
    assert Shl(s + 1, w) == shifted + p by { ShlSum(s, 1, w); ShlOne(w); }
    DigitShape(rest, s, low, p, shifted, fastNegate);
  }

  /** The digits that represent rest * 2^position. */
  function Recode(rest: nat, position: nat, w: nat, fastNegate: bool): seq<Digit>
    requires w >= 1
    decreases rest
  {
    if rest == 0 then
      []
    else if rest % 2 == 0 then
      Recode(rest / 2, position + 1, w, fastNegate)
    else
      FirstDigitFacts(rest, w, fastNegate);
      [Digit(FirstDigit(rest, w, fastNegate), position)]
      + Recode(AboveDigit(rest, w, fastNegate), position + w, w, fastNegate)
  }

  /** The number that a digit string stands for. */
  function DigitSum(ds: seq<Digit>): int {
    if ds == [] then 0 else Shl(ds[0].value, ds[0].position) + DigitSum(ds[1..])
  }

  /** Odd digits of magnitude below 2^w, in rising positions at least gap apart
      and none below the given position. */
  ghost predicate WellSpaced(ds: seq<Digit>, w: nat, gap: nat, from: nat) {
    ds != [] ==>
      && ds[0].value % 2 == 1
      && -Pow2(w) < ds[0].value < Pow2(w)
      && ds[0].position >= from
      && WellSpaced(ds[1..], w, gap, ds[0].position + gap)
  }

  /** Recoding is exact. */
  lemma {:induction false} RecodeExact(rest: nat, position: nat, w: nat, fastNegate: bool)
    requires w >= 1
    ensures DigitSum(Recode(rest, position, w, fastNegate)) == Shl(rest, position)
    decreases rest
  {
    if rest == 0 {
      ShlZero(position);
    } else if rest % 2 == 0 {
      var half := rest / 2;
      RecodeExact(half, position + 1, w, fastNegate);
      ShlSum(half, half, position);
    } else {
      var d, above := FirstDigit(rest, w, fastNegate), AboveDigit(rest, w, fastNegate);
      FirstDigitFacts(rest, w, fastNegate);
      RecodeExact(above, position + w, w, fastNegate);
      ShlShl(above, w, position);
      ShlSum(Shl(above, w), d, position);
      var ds := Recode(rest, position, w, fastNegate);
      assert ds[1..] == Recode(above, position + w, w, fastNegate);
    }
  }

  /** Recoding is a width-w window form, and with negative digits a
      width-(w + 1) non-adjacent form. */
  lemma {:induction false} RecodeWellSpaced(rest: nat, position: nat, w: nat, fastNegate: bool, from: nat)
    requires w >= 1
    requires from <= position || (from == position + 1 && rest % 2 == 0)
    ensures WellSpaced(Recode(rest, position, w, fastNegate), w, if fastNegate then w + 1 else w, from)
    ensures !fastNegate ==> forall d <- Recode(rest, position, w, fastNegate) :: d.value > 0
    decreases rest
  {
    if rest == 0 {
    } else if rest % 2 == 0 {
      RecodeWellSpaced(rest / 2, position + 1, w, fastNegate, from);
    } else {
      FirstDigitFacts(rest, w, fastNegate);
      var above := AboveDigit(rest, w, fastNegate);
      RecodeWellSpaced(above, position + w, w, fastNegate, position + if fastNegate then w + 1 else w);
      var ds := Recode(rest, position, w, fastNegate);
      assert ds[1..] == Recode(above, position + w, w, fastNegate);
    }
  }

  lemma RecodeSkip(rest: nat, position: nat, w: nat, fastNegate: bool)
    requires w >= 1 && rest % 2 == 0
    ensures Recode(rest, position, w, fastNegate) == Recode(rest / 2, position + 1, w, fastNegate)
    ensures Recode(0, position, w, fastNegate) == []
  {
  }

  lemma RecodeTake(rest: nat, position: nat, w: nat, fastNegate: bool)
    requires w >= 1 && rest % 2 == 1
    ensures Recode(rest, position, w, fastNegate)
         == [Digit(FirstDigit(rest, w, fastNegate), position)]
            + Recode(AboveDigit(rest, w, fastNegate), position + w, w, fastNegate)
  {
  }

  /** Bits in the words that hold e: Integer::WordCount times WORD_BITS. */
  function WordBits(e: nat, wordBits: nat): (n: nat)
    requires wordBits >= 1
    ensures BitCount(e) <= n < BitCount(e) + wordBits
  {
    RoundUp(BitCount(e), wordBits)
  }

  /** The window width chosen for an exponent when the caller asks for none. */
  function DefaultWindow(expLen: nat): (w: nat)
    ensures 1 <= w <= 7
  {
    if expLen <= 17 then 1
    else if expLen <= 24 then 2
    else if expLen <= 70 then 3
    else if expLen <= 197 then 4
    else if expLen <= 539 then 5
    else if expLen <= 1434 then 6
    else 7
  }

  /** Where the width changes, and that it only grows. */
  lemma WindowWidths(a: nat, b: nat)
    requires a <= b
    ensures DefaultWindow(a) <= DefaultWindow(b)
    ensures DefaultWindow(0) == 1 && DefaultWindow(17) == 1 && DefaultWindow(18) == 2 && DefaultWindow(24) == 2
    ensures DefaultWindow(25) == 3 && DefaultWindow(70) == 3 && DefaultWindow(71) == 4 && DefaultWindow(197) == 4
    ensures DefaultWindow(198) == 5 && DefaultWindow(539) == 5 && DefaultWindow(540) == 6
    ensures DefaultWindow(1434) == 6 && DefaultWindow(1435) == 7
  {
  }

  class WindowSlider {
    const wordBits: nat
    var exp: nat
    var windowModulus: int
    var windowSize: nat
    var windowBegin: nat
    var expWindow: int
    var fastNegate: bool
    var negateNext: bool
    var firstTime: bool
    var finished: bool

    ghost const original: nat
    ghost var emitted: seq<Digit>

    /** The digits still to come. */
    ghost function Rest(): seq<Digit>
      requires windowSize >= 1
      reads this
    {
      if firstTime then
        Recode(exp, 0, windowSize, fastNegate)
      else
        Recode(Shr(exp, windowSize), windowBegin + windowSize, windowSize, fastNegate)
    }

    /** The window that the public fields describe. */
    function Current(): Digit
      reads this
    {
      Digit(if negateNext then -expWindow else expWindow, windowBegin)
    }

    ghost predicate Valid()
      reads this
    {
      && wordBits >= 1
      && windowSize >= 1
      && windowModulus == Pow2(windowSize)
      && 0 <= expWindow <= windowModulus
      && (firstTime ==> emitted == [] && windowBegin == 0 && !finished)
      && Recode(original, 0, windowSize, fastNegate) == emitted + Rest()
      && (finished ==> Rest() == [])
      && (!firstTime && !finished ==> emitted != [] && emitted[|emitted| - 1] == Current())
    }

    constructor (wordBits: nat, expIn: nat, fastNegate: bool, windowSizeIn: nat)
      requires wordBits >= 1
      ensures Valid()
      ensures original == expIn && this.fastNegate == fastNegate && emitted == [] && firstTime
      ensures windowSize == if windowSizeIn == 0 then DefaultWindow(BitCount(expIn)) else windowSizeIn
    {
      this.wordBits := wordBits;
      exp := expIn;
      windowBegin := 0;
      expWindow := 0;
      negateNext := false;
      this.fastNegate := fastNegate;
      firstTime := true;
      finished := false;
      original := expIn;
      emitted := [];
      var size := windowSizeIn;
      if size == 0 {
        var expLen := BitCount(expIn);
        size := DefaultWindow(expLen);
      }
      windowSize := size;
      windowModulus := Pow2(size);
    }

    /** Advances to the next digit of the recoding, or to finished when there
        is none. */
    method FindNextWindow()
      requires Valid()
      modifies this
      ensures Valid() && !firstTime
      ensures windowSize == old(windowSize) && fastNegate == old(fastNegate)
      ensures finished <==> old(Rest()) == []
      ensures !finished ==> emitted == old(emitted) + [Current()]
      ensures !finished ==> old(Rest()) == [Current()] + Rest()
      ensures finished ==> emitted == old(emitted)
    {
      hide Shl, Shr, Low, Pow2, Recode;
      ghost var todo := Rest();
      var skipCount, found := SkipZeros(exp, wordBits, if firstTime then 0 else windowSize);
      RecodeShifted(exp, windowBegin, if firstTime then 0 else windowSize, skipCount, windowSize, fastNegate);
      firstTime := false;
      if !found {
        ShrZero(0, windowSize);
        RecodeSkip(0, windowBegin, windowSize, fastNegate);
        RecodeSkip(0, windowBegin + windowSize, windowSize, fastNegate);
        finished := true;
        return;
      }

      TakeWindow(skipCount);
      assert todo == [Current()] + Rest();
      Appended(emitted, Current(), Rest());
      emitted := emitted + [Current()];
    }

    /** FindNextWindow from the shift on: the window at the set bit skipCount,
        rounded up past the bit above it when negation is cheap. */
    method TakeWindow(skipCount: nat)
      requires windowSize >= 1 && windowModulus == Pow2(windowSize) && Bit(exp, skipCount) == 1 && !firstTime
      modifies `exp, `windowBegin, `expWindow, `negateNext
      ensures 0 <= expWindow <= windowModulus
      ensures Recode(Shr(old(exp), skipCount), old(windowBegin) + skipCount, windowSize, fastNegate) ==
        [Current()] + Rest()
    {
      hide Shl, Shr, Low, Pow2, Recode;
      exp := Shr(exp, skipCount);
      windowBegin := windowBegin + skipCount;
      expWindow := Low(exp, windowSize);
      WindowTaken(exp, windowBegin, windowSize, fastNegate);
      if fastNegate && Bit(exp, windowSize) == 1 {
        negateNext := true;
        expWindow := Pow2(windowSize) - expWindow;
        exp := exp + windowModulus;
      } else {
        negateNext := false;
      }
    }
  }

  /** The window of an odd number, rounded up or not, is the first digit of its
      recoding, and the number above it the rest. */
  lemma WindowTaken(e: nat, position: nat, w: nat, fastNegate: bool)
    requires w >= 1 && e % 2 == 1
    ensures var negate := fastNegate && Bit(e, w) == 1;
      var window := if negate then Pow2(w) - Low(e, w) else Low(e, w);
      var above := if negate then e + Pow2(w) else e;
      && 0 <= window <= Pow2(w)
      && Recode(e, position, w, fastNegate) ==
        [Digit(if negate then -window else window, position)] + Recode(Shr(above, w), position + w, w, fastNegate)
  {
    hide Shl, Shr, Low, Pow2, Recode;
    RecodeTake(e, position, w, fastNegate);
    if fastNegate && Bit(e, w) == 1 {
      AddAbove(e, w);
    }
  }

  lemma Appended<T>(done: seq<T>, d: T, rest: seq<T>)
    ensures done + ([d] + rest) == (done + [d]) + rest
  {
  }

  /** The loop of FindNextWindow: moves up from bit start to the next set bit,
      giving up at the end of the words that hold exp. */
  method SkipZeros(exp: nat, wordBits: nat, start: nat) returns (skipCount: nat, found: bool)
    requires wordBits >= 1
    ensures start <= skipCount
    ensures forall i :: start <= i < skipCount ==> Bit(exp, i) == 0
    ensures found ==> Bit(exp, skipCount) == 1
    ensures !found ==> Shr(exp, start) == 0
  {
    hide Shl, Pow2;
    var expLen := WordBits(exp, wordBits);
    skipCount := start;
    while Bit(exp, skipCount) == 0
      invariant start <= skipCount
      invariant forall i :: start <= i < skipCount ==> Bit(exp, i) == 0
      decreases expLen - skipCount
    {
      if skipCount >= expLen {
        Pow2Monotone(BitCount(exp), skipCount);
        ShrZero(exp, skipCount);
        ZerosBelow(exp, start, skipCount);
        return skipCount, false;
      }
      skipCount := skipCount + 1;
    }
    found := true;
  }

  /** Zero bits shift out without changing what is zero. */
  lemma {:induction false} ZerosBelow(exp: nat, start: nat, end: nat)
    requires start <= end && Shr(exp, end) == 0
    requires forall i :: start <= i < end ==> Bit(exp, i) == 0
    ensures Shr(exp, start) == 0
  {
    if start < end {
      assert Bit(exp, end - 1) == 0;
      ShrStep(exp, end - 1);
      ZerosBelow(exp, start, end - 1);
    }
  }

  /** Zero bits shift out without changing the digits. */
  lemma {:induction false} RecodeShifted(exp: nat, position: nat, start: nat, end: nat, w: nat, fastNegate: bool)
    requires w >= 1 && start <= end
    requires forall i :: start <= i < end ==> Bit(exp, i) == 0
    ensures Recode(Shr(exp, start), position + start, w, fastNegate)
         == Recode(Shr(exp, end), position + end, w, fastNegate)
    ensures Shr(exp, 0) == exp
  {
    hide Recode;
    if start < end {
      RecodeShifted(exp, position, start, end - 1, w, fastNegate);
      assert Bit(exp, end - 1) == 0;
      ShrStep(exp, end - 1);
      RecodeSkip(Shr(exp, end - 1), position + end - 1, w, fastNegate);
    }
  }

  lemma AddAbove(e: nat, w: nat)
    ensures Shr(e + Pow2(w), w) == Shr(e, w) + 1
  {
    ShrLow(e, w);
    ShlSum(Shr(e, w), 1, w);
    ShlOne(w);
    ShrUnique(e + Pow2(w), w, Shr(e, w) + 1, Low(e, w));
  }
}
