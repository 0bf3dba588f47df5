/** The lazy expression evaluator of gmpxx.h: an expression tree is evaluated
    straight into its destination, with a temporary only where the code finds
    one necessary.

    Memory holds integers at mpz locations; an mpq variable is the two
    locations of its numerator and denominator, which are mpz locations in
    their own right (get_num and get_den), so that an expression can alias its
    destination in whole or in part. */
module GmpExpr {
  import opened Powers
  import opened Rationals

  datatype ZPtr = Own(id: nat) | NumOf(id: nat) | DenOf(id: nat)

  /** Names an mpq variable. */
  type QPtr = nat

  type Cells = map<ZPtr, int>

  // ----- integer operations

  datatype ZOp = Plus | Minus | Times | Divides | Modulus

  datatype UnaryOp = Positive | Negative | Absolute

  /** A built-in operand, promoted to unsigned long or to signed long. */
  datatype Scalar = UI(l: nat) | SI(i: int) {
    function Value(): int {
      if UI? then l else i
    }
  }

  /** Truncating division, as mpz_tdiv_q and the built-in operators do. */
  function TDiv(a: int, b: int): int
    requires b != 0
  {
    var q := Abs(a) / Abs(b);
    if (a >= 0) == (b > 0) then q else -q
  }

  function TRem(a: int, b: int): int
    requires b != 0
  {
    var r := Abs(a) % Abs(b);
    if a >= 0 then r else -r
  }

  predicate ZDefined(op: ZOp, b: int) {
    op == Divides || op == Modulus ==> b != 0
  }

  function ZApply(op: ZOp, a: int, b: int): int
    requires ZDefined(op, b)
  {
    match op
    case Plus => a + b
    case Minus => a - b
    case Times => a * b
    case Divides => TDiv(a, b)
    case Modulus => TRem(a, b)
  }

  function ZApply1(op: UnaryOp, a: int): int {
    match op
    case Positive => a
    case Negative => -a
    case Absolute => Abs(a)
  }

  function QApply1(op: UnaryOp, q: Rat): Rat {
    Rat(ZApply1(op, q.n), q.d)
  }

  lemma QApply1Canonical(op: UnaryOp, q: Rat)
    requires Canonical(q)
    ensures Canonical(QApply1(op, q))
  {
    if op != Positive {
      NegateCanonical(q);
    }
  }

  /** Negation, absolute value and the three exact operations. */
  lemma IntegerOperations(a: int, b: int)
    ensures ZApply1(Positive, a) == a && ZApply1(Negative, a) + a == 0
    ensures ZApply1(Absolute, a) >= 0 && (ZApply1(Absolute, a) == a || ZApply1(Absolute, a) + a == 0)
    ensures ZApply(Plus, a, b) - b == a && ZApply(Minus, a, b) + b == a
    ensures ZApply(Plus, a, 0) == a && ZApply(Times, a, 0) == 0 && ZApply(Times, a, b + 1) == ZApply(Times, a, b) + a
  {
    assert a * (b + 1) == a * b + a;
  }

  /** Division rounds towards zero: quotient and remainder make up the dividend,
      the remainder is smaller than the divisor, and it is zero or has the sign
      of the dividend. */
  lemma TruncatingDivision(a: int, b: int)
    requires b != 0
    ensures a == ZApply(Divides, a, b) * b + ZApply(Modulus, a, b)
    ensures Abs(ZApply(Modulus, a, b)) < Abs(b)
    ensures ZApply(Modulus, a, b) == 0 || (ZApply(Modulus, a, b) > 0 <==> a > 0)
  {
    var x, y := Abs(a), Abs(b);
    QuotientNonNegative(x, y);
    Signs(a, b, x / y, x % y);
  }

  lemma Signs(a: int, b: int, q: int, r: int)
    requires b != 0 && Abs(a) == q * Abs(b) + r && 0 <= r < Abs(b)
    ensures a == (if (a >= 0) == (b > 0) then q else -q) * b + (if a >= 0 then r else -r)
  {
    assert (-q) * b == -(q * b) && q * (-b) == -(q * b);
  }

  lemma TDivNegative(a: int, b: int)
    requires b != 0
    ensures TDiv(a, -b) == -TDiv(a, b) && TRem(a, -b) == TRem(a, b)
  {
    assert Abs(-b) == Abs(b);
  }

  lemma TDivOne(a: int)
    ensures TDiv(a, 1) == a
  {
  }

  /** __builtin_ctzl, for which zero is no argument. */
  function TrailingZeros(l: nat): nat {
    if l == 0 || l % 2 == 1 then 0 else TrailingZeros(l / 2) + 1
  }

  /** Every power of two is recognised, and nothing else. */
  lemma {:induction false} TrailingZerosOfPower(n: nat)
    ensures TrailingZeros(Pow2(n)) == n
  {
    if n > 0 {
      TrailingZerosOfPower(n - 1);
      assert Pow2(n) == 2 * Pow2(n - 1);
    }
  }

  lemma TDivSmall(a: int, b: int)
    requires Abs(b) > Abs(a)
    ensures TDiv(a, b) == 0 && TRem(a, b) == a
  {
    SmallQuotient(Abs(a), Abs(b));
  }

  lemma TDivSame(a: int, b: int)
    requires Abs(b) == Abs(a) > 0
    ensures TDiv(a, b) == (if a == b then 1 else -1) && TRem(a, b) == 0
  {
    ExactDivision(Abs(a), Abs(b), 1);
    assert Abs(a) == (Abs(a) / Abs(b)) * Abs(b) + Abs(a) % Abs(b);
  }

  lemma SmallQuotient(x: nat, y: nat)
    requires x < y
    ensures x / y == 0 && x % y == x
  {
  }

  // ----- expressions and their values

  datatype ZExpr =
    | ZVar(p: ZPtr)
    | ZUnary(uop: UnaryOp, e: ZExpr)
    | ZBinary(op: ZOp, l: ZExpr, r: ZExpr)
    | ZScalarRight(sop: ZOp, sl: ZExpr, k: Scalar)
    | ZScalarLeft(lop: ZOp, j: Scalar, sr: ZExpr)

  datatype QExpr =
    | QVar(q: QPtr)
    | QUnary(uop: UnaryOp, e: QExpr)
    | QBinary(op: QOp, l: QExpr, r: QExpr)
    | QScalarRight(sop: QOp, sl: QExpr, k: Scalar)
    | QScalarLeft(lop: QOp, j: Scalar, sr: QExpr)
    | QWithZ(qop: QOp, ql: QExpr, zr: ZExpr)
    | ZWithQ(zop: QOp, zl: ZExpr, qr: QExpr)

  /** half is 2^(bits-1) for the width of long. */
  predicate InRange(s: Scalar, half: int) {
    match s
    case UI(l) => l < 2 * half
    case SI(i) => -half <= i < half
  }

  /** The tree can be evaluated: its variables exist, and no division is by
      zero or overflows the built-in long. */
  predicate ZOk(e: ZExpr, m: Cells, half: int)
    decreases e, 0
  {
    match e
    case ZVar(p) => p in m
    case ZUnary(_, e1) => ZOk(e1, m, half)
    case ZBinary(op, l, r) => ZOk(l, m, half) && ZOk(r, m, half) && ZDefined(op, ZValue(r, m, half))
    case ZScalarRight(op, l, k) => ZOk(l, m, half) && InRange(k, half) && ZDefined(op, k.Value())
    case ZScalarLeft(op, k, r) =>
      ZOk(r, m, half) && InRange(k, half) && LeftDefined(op, k, ZValue(r, m, half), half)
  }

  predicate LeftDefined(op: ZOp, k: Scalar, b: int, half: int) {
    && ZDefined(op, b)
    && ((op == Divides || op == Modulus) && b == -1 ==> k != SI(-half))
  }

  /** The scalars are those of unsigned long and long, and the one quotient that
      overflows is that of the least long by -1. */
  lemma ScalarRange(half: int, l: nat, i: int, b: int, k: Scalar)
    requires half >= 1
    ensures InRange(UI(l), half) <==> l <= 2 * half - 1
    ensures InRange(SI(i), half) <==> -half - 1 < i && i + 1 <= half
    ensures LeftDefined(Divides, k, b, half) <==> b != 0 && !(k == SI(-half) && b + 1 == 0)
    ensures LeftDefined(Modulus, k, b, half) <==> b != 0 && !(k == SI(-half) && b + 1 == 0)
    ensures LeftDefined(Plus, k, b, half) && LeftDefined(Minus, k, b, half) && LeftDefined(Times, k, b, half)
  {
  }

  function ZValue(e: ZExpr, m: Cells, half: int): int
    requires ZOk(e, m, half)
    decreases e, 1
  {
    match e
    case ZVar(p) => m[p]
    case ZUnary(op, e1) => ZApply1(op, ZValue(e1, m, half))
    case ZBinary(op, l, r) => ZApply(op, ZValue(l, m, half), ZValue(r, m, half))
    case ZScalarRight(op, l, k) => ZApply(op, ZValue(l, m, half), k.Value())
    case ZScalarLeft(op, k, r) => ZApply(op, k.Value(), ZValue(r, m, half))
  }

  function QAt(m: Cells, q: QPtr): Rat
    requires NumOf(q) in m && DenOf(q) in m
  {
    Rat(m[NumOf(q)], m[DenOf(q)])
  }

  ghost predicate CanonicalAt(m: Cells, q: QPtr) {
    NumOf(q) in m && DenOf(q) in m && Canonical(QAt(m, q))
  }

  ghost predicate QOk(e: QExpr, m: Cells, half: int)
    decreases e, 0
  {
    match e
    case QVar(q) => CanonicalAt(m, q)
    case QUnary(_, e1) => QOk(e1, m, half)
    case QBinary(op, l, r) => QOk(l, m, half) && QOk(r, m, half) && QDefined(op, QValue(r, m, half))
    case QScalarRight(op, l, k) => QOk(l, m, half) && InRange(k, half) && QDefined(op, Whole(k.Value()))
    case QScalarLeft(op, k, r) => QOk(r, m, half) && InRange(k, half) && QDefined(op, QValue(r, m, half))
    case QWithZ(op, l, r) => QOk(l, m, half) && ZOk(r, m, half) && QDefined(op, Whole(ZValue(r, m, half)))
    case ZWithQ(op, l, r) => ZOk(l, m, half) && QOk(r, m, half) && QDefined(op, QValue(r, m, half))
  }

  /** The exact value of a rational expression, as a canonical pair. */
  ghost function QValue(e: QExpr, m: Cells, half: int): (v: Rat)
    requires QOk(e, m, half)
    ensures Canonical(v)
    decreases e, 1
  {
    match e
    case QVar(q) => QAt(m, q)
    case QUnary(op, e1) =>
      QApply1Canonical(op, QValue(e1, m, half));
      QApply1(op, QValue(e1, m, half))
    case QBinary(op, l, r) =>
      QApplyCanonical(op, QValue(l, m, half), QValue(r, m, half));
      QApply(op, QValue(l, m, half), QValue(r, m, half))
    case QScalarRight(op, l, k) =>
      QApplyCanonical(op, QValue(l, m, half), Whole(k.Value()));
      QApply(op, QValue(l, m, half), Whole(k.Value()))
    case QScalarLeft(op, k, r) =>
      QApplyCanonical(op, Whole(k.Value()), QValue(r, m, half));
      QApply(op, Whole(k.Value()), QValue(r, m, half))
    case QWithZ(op, l, r) =>
      QApplyCanonical(op, QValue(l, m, half), Whole(ZValue(r, m, half)));
      QApply(op, QValue(l, m, half), Whole(ZValue(r, m, half)))
    case ZWithQ(op, l, r) =>
      QApplyCanonical(op, Whole(ZValue(l, m, half)), QValue(r, m, half));
      QApply(op, Whole(ZValue(l, m, half)), QValue(r, m, half))
  }

  // ----- the value of a rational tree is the number it denotes

  /** The number that a tree denotes. */
  ghost function Denotes(e: QExpr, m: Cells, half: int): real
    requires QOk(e, m, half)
  {
    match e
    case QVar(q) => m[NumOf(q)] as real / m[DenOf(q)] as real
    case QUnary(op, e1) => Unary(op, Denotes(e1, m, half))
    case QBinary(op, l, r) => Binary(op, Denotes(l, m, half), Denotes(r, m, half))
    case QScalarRight(op, l, k) => Binary(op, Denotes(l, m, half), k.Value() as real)
    case QScalarLeft(op, k, r) => Binary(op, k.Value() as real, Denotes(r, m, half))
    case QWithZ(op, l, r) => Binary(op, Denotes(l, m, half), ZValue(r, m, half) as real)
    case ZWithQ(op, l, r) => Binary(op, ZValue(l, m, half) as real, Denotes(r, m, half))
  }

  /** Dividing by zero cannot happen; some value has to be given. */
  function Binary(op: QOp, x: real, y: real): real {
    match op
    case QPlus => x + y
    case QMinus => x - y
    case QTimes => x * y
    case QDivides => if y == 0.0 then 0.0 else x / y
  }

  function Unary(op: UnaryOp, x: real): real {
    match op
    case Positive => x
    case Negative => -x
    case Absolute => if x < 0.0 then -x else x
  }

  lemma BinaryNumber(op: QOp, r: Rat, s: Rat)
    requires r.d > 0 && s.d > 0 && QDefined(op, s)
    ensures QApply(op, r, s).d > 0 && Number(QApply(op, r, s)) == Binary(op, Number(r), Number(s))
  {
    hide QApply, Number;
    Arithmetic(op, r, s);
  }

  lemma UnaryIs(op: UnaryOp, q: Rat)
    requires q.d > 0
    ensures Number(QApply1(op, q)) == Unary(op, Number(q))
  {
    UnaryNumber(q);
    if q.n >= 0 {
      assert Number(q) >= 0.0;
    } else {
      assert Number(q) < 0.0 by {
        assert Number(q) * q.d as real == q.n as real;
      }
    }
  }

  lemma {:induction false} QDenotes(e: QExpr, m: Cells, half: int)
    requires QOk(e, m, half)
    ensures QValue(e, m, half).d > 0 && Number(QValue(e, m, half)) == Denotes(e, m, half)
  {
    hide QApply, LowestTerms, Binary, Unary, Whole, QApply1;
    match e
    case QVar(_) =>
    case QUnary(op, e1) =>
      QDenotes(e1, m, half);
      UnaryIs(op, QValue(e1, m, half));
    case QBinary(op, l, r) =>
      QDenotes(l, m, half);
      QDenotes(r, m, half);
      BinaryNumber(op, QValue(l, m, half), QValue(r, m, half));
    case QScalarRight(op, l, k) =>
      QDenotes(l, m, half);
      WithWhole(op, QValue(l, m, half), k.Value());
    case QScalarLeft(op, k, r) =>
      QDenotes(r, m, half);
      WholeWith(op, k.Value(), QValue(r, m, half));
    case QWithZ(op, l, r) =>
      QDenotes(l, m, half);
      WithWhole(op, QValue(l, m, half), ZValue(r, m, half));
    case ZWithQ(op, l, r) =>
      QDenotes(r, m, half);
      WholeWith(op, ZValue(l, m, half), QValue(r, m, half));
  }

  lemma WithWhole(op: QOp, r: Rat, z: int)
    requires r.d > 0 && QDefined(op, Whole(z))
    ensures QApply(op, r, Whole(z)).d > 0 && Number(QApply(op, r, Whole(z))) == Binary(op, Number(r), z as real)
  {
    hide QApply, Number, Binary;
    WholeNumber(z);
    BinaryNumber(op, r, Whole(z));
  }

  lemma WholeWith(op: QOp, z: int, r: Rat)
    requires r.d > 0 && QDefined(op, r)
    ensures QApply(op, Whole(z), r).d > 0 && Number(QApply(op, Whole(z), r)) == Binary(op, z as real, Number(r))
  {
    hide QApply, Number, Binary;
    WholeNumber(z);
    BinaryNumber(op, Whole(z), r);
  }

  /** A rational stored at an mpq location. */
  function Put(m: Cells, q: QPtr, v: Rat): Cells {
    m[NumOf(q) := v.n][DenOf(q) := v.d]
  }

  /** The operands in the order they are written in. */
  function QOrdered(op: QOp, a: Rat, b: Rat, bFirst: bool): Rat
    requires a.d > 0 && b.d > 0 && QDefined(op, if bFirst then a else b)
  {
    if bFirst then QApply(op, b, a) else QApply(op, a, b)
  }

  // ----- memory does not matter beyond the variables of a tree

  /** The cells that a tree mentions. */
  function ZCells(e: ZExpr): set<ZPtr> {
    match e
    case ZVar(p) => {p}
    case ZUnary(_, e1) => ZCells(e1)
    case ZBinary(_, l, r) => ZCells(l) + ZCells(r)
    case ZScalarRight(_, l, _) => ZCells(l)
    case ZScalarLeft(_, _, r) => ZCells(r)
  }

  function QCells(e: QExpr): set<ZPtr> {
    match e
    case QVar(q) => {NumOf(q), DenOf(q)}
    case QUnary(_, e1) => QCells(e1)
    case QBinary(_, l, r) => QCells(l) + QCells(r)
    case QScalarRight(_, l, _) => QCells(l)
    case QScalarLeft(_, _, r) => QCells(r)
    case QWithZ(_, l, r) => QCells(l) + ZCells(r)
    case ZWithQ(_, l, r) => ZCells(l) + QCells(r)
  }

  ghost predicate SameOn(cells: set<ZPtr>, m: Cells, m': Cells) {
    forall p <- cells :: p in m ==> p in m' && m'[p] == m[p]
  }

  lemma {:induction false} ZFrame(e: ZExpr, m: Cells, m': Cells, half: int)
    requires ZOk(e, m, half) && SameOn(ZCells(e), m, m')
    ensures ZOk(e, m', half) && ZValue(e, m', half) == ZValue(e, m, half)
  {
    match e
    case ZVar(p) => assert p in ZCells(e);
    case ZUnary(_, e1) => ZFrame(e1, m, m', half);
    case ZBinary(_, l, r) => ZFrame(l, m, m', half); ZFrame(r, m, m', half);
    case ZScalarRight(_, l, _) => ZFrame(l, m, m', half);
    case ZScalarLeft(_, _, r) => ZFrame(r, m, m', half);
  }

  lemma {:induction false} QFrame(e: QExpr, m: Cells, m': Cells, half: int)
    requires QOk(e, m, half) && SameOn(QCells(e), m, m')
    ensures QOk(e, m', half) && QValue(e, m', half) == QValue(e, m, half)
  {
    match e
    case QVar(q) => assert NumOf(q) in QCells(e) && DenOf(q) in QCells(e);
    case QUnary(_, e1) => QFrame(e1, m, m', half);
    case QBinary(_, l, r) => QFrame(l, m, m', half); QFrame(r, m, m', half);
    case QScalarRight(_, l, _) => QFrame(l, m, m', half);
    case QScalarLeft(_, _, r) => QFrame(r, m, m', half);
    case QWithZ(_, l, r) => QFrame(l, m, m', half); ZFrame(r, m, m', half);
    case ZWithQ(_, l, r) => ZFrame(l, m, m', half); QFrame(r, m, m', half);
  }

  /** A memory with more cells, none of them changed. */
  ghost predicate Extends(m: Cells, m': Cells) {
    forall p <- m :: p in m' && m'[p] == m[p]
  }

  lemma ZExtended(e: ZExpr, m: Cells, m': Cells, half: int)
    requires ZOk(e, m, half) && Extends(m, m')
    ensures ZOk(e, m', half) && ZValue(e, m', half) == ZValue(e, m, half)
  {
    ZFrame(e, m, m', half);
  }

  lemma QExtended(e: QExpr, m: Cells, m': Cells, half: int)
    requires QOk(e, m, half) && Extends(m, m')
    ensures QOk(e, m', half) && QValue(e, m', half) == QValue(e, m, half)
  {
    QFrame(e, m, m', half);
  }

  lemma ZVariable(p: ZPtr, m: Cells, half: int)
    requires ZOk(ZVar(p), m, half)
    ensures p in m && ZValue(ZVar(p), m, half) == m[p]
  {
  }

  class Memory {
    const half: int
    var cells: Cells
    /** Identifiers from here up are unused. */
    var next: nat

    ghost predicate Valid()
      reads this
    {
      half >= 1 && forall p <- cells :: p.id < next
    }

    predicate HasQ(q: QPtr)
      reads this
    {
      NumOf(q) in cells && DenOf(q) in cells
    }

    // ----- function objects on mpz

    method PlusScalar(z: ZPtr, w: ZPtr, k: Scalar)
      requires z in cells && w in cells
      modifies `cells
      ensures cells == old(cells)[z := ZApply(Plus, old(cells)[w], k.Value())]
      decreases k.SI?
    {
      match k
      case UI(l) =>
        var constant: bool := *;
        if constant && l == 0 {
          if z != w {
            cells := cells[z := cells[w]];
          }
        } else {
          cells := cells[z := cells[w] + l];
        }
      case SI(i) =>
        if i >= 0 {
          PlusScalar(z, w, UI(i));
        } else {
          cells := cells[z := cells[w] - Abs(i)];
        }
    }

    method MinusScalar(z: ZPtr, w: ZPtr, k: Scalar)
      requires z in cells && w in cells
      modifies `cells
      ensures cells == old(cells)[z := ZApply(Minus, old(cells)[w], k.Value())]
      decreases k.SI?
    {
      match k
      case UI(l) =>
        var constant: bool := *;
        if constant && l == 0 {
          if z != w {
            cells := cells[z := cells[w]];
          }
        } else {
          cells := cells[z := cells[w] - l];
        }
      case SI(i) =>
        if i >= 0 {
          MinusScalar(z, w, UI(i));
        } else {
          cells := cells[z := cells[w] + Abs(i)];
        }
    }

    method ScalarMinus(z: ZPtr, k: Scalar, w: ZPtr)
      requires z in cells && w in cells
      modifies `cells
      ensures cells == old(cells)[z := ZApply(Minus, k.Value(), old(cells)[w])]
      decreases k.SI?
    {
      match k
      case UI(l) =>
        var constant: bool := *;
        if constant && l == 0 {
          cells := cells[z := -cells[w]];
        } else {
          cells := cells[z := l - cells[w]];
        }
      case SI(i) =>
        if i >= 0 {
          ScalarMinus(z, UI(i), w);
        } else {
          cells := cells[z := cells[w] + Abs(i)];
          cells := cells[z := -cells[z]];
        }
    }

    /** The left shift that a constant power of two becomes. */
    method LeftShift(z: ZPtr, w: ZPtr, n: nat)
      requires z in cells && w in cells
      modifies `cells
      ensures cells == old(cells)[z := Shl(old(cells)[w], n)]
    {
      var constant: bool := *;
      if constant && n == 0 {
        if z != w {
          cells := cells[z := cells[w]];
        }
      } else {
        cells := cells[z := Shl(cells[w], n)];
      }
    }

    /** A factor known to the compiler to be zero or a power of two is no
        multiplication. */
    method TimesScalar(z: ZPtr, w: ZPtr, k: Scalar)
      requires z in cells && w in cells
      modifies `cells
      ensures cells == old(cells)[z := ZApply(Times, old(cells)[w], k.Value())]
      decreases k.SI?
    {
      var constant: bool := *;
      match k
      case UI(l) =>
        if constant && l == 0 {
          cells := cells[z := 0];
        } else if constant && l == Pow2(TrailingZeros(l)) {
          ShlIsProduct(cells[w], TrailingZeros(l));
          LeftShift(z, w, TrailingZeros(l));
        } else {
          cells := cells[z := cells[w] * l];
        }
      case SI(i) =>
        if constant {
          if i >= 0 {
            TimesScalar(z, w, UI(i));
          } else {
            TimesScalar(z, w, UI(Abs(i)));
            cells := cells[z := -cells[z]];
          }
        } else {
          cells := cells[z := cells[w] * i];
        }
    }

    method DividesScalar(z: ZPtr, w: ZPtr, k: Scalar)
      requires z in cells && w in cells && k.Value() != 0
      modifies `cells
      ensures cells == old(cells)[z := ZApply(Divides, old(cells)[w], k.Value())]
      decreases k.SI?
    {
      match k
      case UI(l) =>
        var constant: bool := *;
        if constant && l == 1 {
          TDivOne(cells[w]);
          if z != w {
            cells := cells[z := cells[w]];
          }
        } else if constant && l == Pow2(TrailingZeros(l)) {
          cells := cells[z := TDiv(cells[w], Pow2(TrailingZeros(l)))];
        } else {
          cells := cells[z := TDiv(cells[w], l)];
        }
      case SI(i) =>
        if i >= 0 {
          DividesScalar(z, w, UI(i));
        } else {
          TDivNegative(cells[w], i);
          DividesScalar(z, w, UI(Abs(i)));
          cells := cells[z := -cells[z]];
        }
    }

    method ModulusScalar(z: ZPtr, w: ZPtr, k: Scalar)
      requires z in cells && w in cells && k.Value() != 0
      modifies `cells
      ensures cells == old(cells)[z := ZApply(Modulus, old(cells)[w], k.Value())]
    {
      TDivNegative(cells[w], k.Value());
      cells := cells[z := TRem(cells[w], Abs(k.Value()))];
    }

    /** The quotient of a built-in and an mpz, by way of built-in division when
        the divisor fits. */
    method ScalarDivides(z: ZPtr, k: Scalar, w: ZPtr)
      requires half >= 1 && z in cells && w in cells && InRange(k, half) && LeftDefined(Divides, k, cells[w], half)
      modifies `cells
      ensures cells == old(cells)[z := ZApply(Divides, k.Value(), old(cells)[w])]
    {
      match k
      case UI(l) =>
        if cells[w] >= 0 {
          if cells[w] < 2 * half {
            cells := cells[z := l / cells[w]];
          } else {
            TDivSmall(l, cells[w]);
            cells := cells[z := 0];
          }
        } else {
          TDivNegative(l, cells[w]);
          cells := cells[z := -cells[w]];
          if cells[z] < 2 * half {
            cells := cells[z := l / cells[z]];
            cells := cells[z := -cells[z]];
          } else {
            TDivSmall(l, cells[z]);
            cells := cells[z := 0];
          }
        }
      case SI(i) =>
        if -half <= cells[w] < half {
          cells := cells[z := TDiv(i, cells[w])];
        } else if Abs(cells[w]) == Abs(i) {
          TDivSame(i, cells[w]);
          cells := cells[z := -1];
        } else {
          TDivSmall(i, cells[w]);
          cells := cells[z := 0];
        }
    }

    method ScalarModulus(z: ZPtr, k: Scalar, w: ZPtr)
      requires half >= 1 && z in cells && w in cells && InRange(k, half) && LeftDefined(Modulus, k, cells[w], half)
      modifies `cells
      ensures cells == old(cells)[z := ZApply(Modulus, k.Value(), old(cells)[w])]
    {
      match k
      case UI(l) =>
        if cells[w] >= 0 {
          if cells[w] < 2 * half {
            cells := cells[z := l % cells[w]];
          } else {
            TDivSmall(l, cells[w]);
            cells := cells[z := l];
          }
        } else {
          TDivNegative(l, cells[w]);
          cells := cells[z := -cells[w]];
          if cells[z] < 2 * half {
            cells := cells[z := l % cells[z]];
          } else {
            TDivSmall(l, cells[z]);
            cells := cells[z := l];
          }
        }
      case SI(i) =>
        if -half <= cells[w] < half {
          cells := cells[z := TRem(i, cells[w])];
        } else if Abs(cells[w]) == Abs(i) {
          TDivSame(i, cells[w]);
          cells := cells[z := 0];
        } else {
          TDivSmall(i, cells[w]);
          cells := cells[z := i];
        }
    }

    // ----- function objects on mpq

    method QPlusZ(q: QPtr, r: QPtr, z: ZPtr)
      requires HasQ(q) && CanonicalAt(cells, r) && z in cells
      modifies `cells
      ensures cells == Put(old(cells), q, QApply(QPlus, QAt(old(cells), r), Whole(old(cells)[z])))
    {
      hide QApply, Canonical;
      MixedPlus(QAt(cells, r), cells[z]);
      if q == r {
        cells := cells[NumOf(q) := cells[NumOf(q)] + cells[DenOf(q)] * cells[z]];
      } else {
        cells := cells[NumOf(q) := cells[DenOf(r)] * cells[z]];
        cells := cells[NumOf(q) := cells[NumOf(q)] + cells[NumOf(r)]];
        cells := cells[DenOf(q) := cells[DenOf(r)]];
      }
    }

    method QMinusZ(q: QPtr, r: QPtr, z: ZPtr)
      requires HasQ(q) && CanonicalAt(cells, r) && z in cells
      modifies `cells
      ensures cells == Put(old(cells), q, QApply(QMinus, QAt(old(cells), r), Whole(old(cells)[z])))
      ensures QAt(cells, q) == Rat(QAt(old(cells), r).n - old(cells)[z] * QAt(old(cells), r).d, QAt(old(cells), r).d)
    {
      hide QApply, Canonical;
      MixedPlus(QAt(cells, r), cells[z]);
      if q == r {
        cells := cells[NumOf(q) := cells[NumOf(q)] - cells[DenOf(q)] * cells[z]];
      } else {
        cells := cells[NumOf(q) := cells[DenOf(r)] * cells[z]];
        cells := cells[NumOf(q) := cells[NumOf(r)] - cells[NumOf(q)]];
        cells := cells[DenOf(q) := cells[DenOf(r)]];
      }
    }

    method ZMinusQ(q: QPtr, z: ZPtr, r: QPtr)
      requires HasQ(q) && CanonicalAt(cells, r) && z in cells
      modifies `cells
      ensures cells == Put(old(cells), q, QApply(QMinus, Whole(old(cells)[z]), QAt(old(cells), r)))
    {
      hide QApply, Canonical;
      MixedPlus(QAt(cells, r), cells[z]);
      QMinusZ(q, r, z);
      cells := cells[NumOf(q) := -cells[NumOf(q)]];
    }

    method QPlusScalar(q: QPtr, r: QPtr, k: Scalar)
      requires HasQ(q) && CanonicalAt(cells, r)
      modifies `cells
      ensures cells == Put(old(cells), q, QApply(QPlus, QAt(old(cells), r), Whole(k.Value())))
      decreases k.SI?, 1
    {
      hide QApply, Canonical;
      MixedPlus(QAt(cells, r), k.Value());
      match k
      case UI(l) =>
        var constant: bool := *;
        if constant && l == 0 {
          if q != r {
            cells := Put(cells, q, QAt(cells, r));
          }
        } else if q == r {
          cells := cells[NumOf(q) := cells[NumOf(q)] + cells[DenOf(q)] * l];
        } else {
          cells := cells[NumOf(q) := cells[DenOf(r)] * l];
          cells := cells[NumOf(q) := cells[NumOf(q)] + cells[NumOf(r)]];
          cells := cells[DenOf(q) := cells[DenOf(r)]];
        }
      case SI(i) =>
        if i >= 0 {
          QPlusScalar(q, r, UI(i));
        } else {
          MixedPlus(QAt(cells, r), Abs(i));
          NegatedProduct(i, cells[DenOf(r)]);
          QMinusScalar(q, r, UI(Abs(i)));
        }
    }

    method QMinusScalar(q: QPtr, r: QPtr, k: Scalar)
      requires HasQ(q) && CanonicalAt(cells, r)
      modifies `cells
      ensures cells == Put(old(cells), q, QApply(QMinus, QAt(old(cells), r), Whole(k.Value())))
      decreases k.SI?, 0
    {
      hide QApply, Canonical;
      MixedPlus(QAt(cells, r), k.Value());
      match k
      case UI(l) =>
        var constant: bool := *;
        if constant && l == 0 {
          if q != r {
            cells := Put(cells, q, QAt(cells, r));
          }
        } else if q == r {
          cells := cells[NumOf(q) := cells[NumOf(q)] - cells[DenOf(q)] * l];
        } else {
          cells := cells[NumOf(q) := cells[DenOf(r)] * l];
          cells := cells[NumOf(q) := cells[NumOf(r)] - cells[NumOf(q)]];
          cells := cells[DenOf(q) := cells[DenOf(r)]];
        }
      case SI(i) =>
        if i >= 0 {
          QMinusScalar(q, r, UI(i));
        } else {
          MixedPlus(QAt(cells, r), Abs(i));
          NegatedProduct(i, cells[DenOf(r)]);
          QPlusScalar(q, r, UI(Abs(i)));
        }
    }

    method ScalarMinusQ(q: QPtr, k: Scalar, r: QPtr)
      requires HasQ(q) && CanonicalAt(cells, r)
      modifies `cells
      ensures cells == Put(old(cells), q, QApply(QMinus, Whole(k.Value()), QAt(old(cells), r)))
    {
      hide QApply, Canonical;
      MixedPlus(QAt(cells, r), k.Value());
      QMinusScalar(q, r, k);
      cells := cells[NumOf(q) := -cells[NumOf(q)]];
    }

    /** operator++ and operator-- on an mpq. */
    method Increment(q: QPtr, up: bool)
      requires CanonicalAt(cells, q)
      modifies `cells
      ensures cells == Put(old(cells), q, QApply(if up then QPlus else QMinus, QAt(old(cells), q), Whole(1)))
    {
      MixedPlus(QAt(cells, q), 1);
      cells := cells[NumOf(q) := if up then cells[NumOf(q)] + cells[DenOf(q)] else cells[NumOf(q)] - cells[DenOf(q)]];
    }

    /** A built-in on the right of an mpq; other than for + and - the code
        converts it and calls the library. */
    method QScalarRightOp(op: QOp, q: QPtr, r: QPtr, k: Scalar)
      requires HasQ(q) && CanonicalAt(cells, r) && QDefined(op, Whole(k.Value()))
      modifies `cells
      ensures cells == Put(old(cells), q, QApply(op, QAt(old(cells), r), Whole(k.Value())))
    {
      match op
      case QPlus => QPlusScalar(q, r, k);
      case QMinus => QMinusScalar(q, r, k);
      case QTimes => QMultiplied(op, q, r, k);
      case QDivides => QMultiplied(op, q, r, k);
    }

    /** Product and quotient with a scalar, where a constant zero, one or other
        power of two and a constant sign have branches of their own. */
    method QMultiplied(op: QOp, q: QPtr, r: QPtr, k: Scalar)
      requires (op == QTimes || op == QDivides) && HasQ(q) && CanonicalAt(cells, r) && QDefined(op, Whole(k.Value()))
      modifies `cells
      ensures cells == Put(old(cells), q, QApply(op, QAt(old(cells), r), Whole(k.Value())))
      decreases k.SI?
    {
      hide QApply, Canonical;
      PositiveAt(cells, r);
      var constant: bool := *;
      match k
      case UI(l) =>
        if constant && op == QTimes && l == 0 {
          ZeroProduct(QAt(cells, r));
          cells := Put(cells, q, Rat(0, 1));
        } else if constant && l == 1 {
          UnitScalar(QAt(cells, r));
          if q != r {
            cells := Put(cells, q, QAt(cells, r));
          } else {
            assert Put(cells, q, QAt(cells, q)) == cells;
          }
        } else if constant && l == Pow2(TrailingZeros(l)) {
          cells := Put(cells, q, QApply(op, QAt(cells, r), Whole(Pow2(TrailingZeros(l)))));
        } else {
          cells := Put(cells, q, QApply(op, QAt(cells, r), Whole(l)));
        }
      case SI(i) =>
        if constant {
          if i >= 0 {
            QMultiplied(op, q, r, UI(i));
          } else {
            NegatedScalar(QAt(cells, r), Abs(i));
            ghost var m, v := cells, QApply(op, QAt(cells, r), Whole(Abs(i)));
            QMultiplied(op, q, r, UI(Abs(i)));
            cells := Put(cells, q, QNegate(QAt(cells, q)));
            PutPut(m, q, v, QNegate(v));
          }
        } else {
          cells := Put(cells, q, QApply(op, QAt(cells, r), Whole(i)));
        }
    }

    method QScalarLeftOp(op: QOp, q: QPtr, k: Scalar, r: QPtr)
      requires HasQ(q) && CanonicalAt(cells, r) && QDefined(op, QAt(cells, r))
      modifies `cells
      ensures cells == Put(old(cells), q, QApply(op, Whole(k.Value()), QAt(old(cells), r)))
    {
      match op
      case QPlus =>
        MixedPlus(QAt(cells, r), k.Value());
        QPlusScalar(q, r, k);
      case QMinus => ScalarMinusQ(q, k, r);
      case QTimes =>
        ProductCommutes(QAt(cells, r), k.Value());
        QMultiplied(op, q, r, k);
      case QDivides => cells := Put(cells, q, QApply(op, Whole(k.Value()), QAt(cells, r)));
    }

    /** The function objects + and - on an mpq and an mpz, in either order. */
    method MixedOp(op: QOp, q: QPtr, r: QPtr, z: ZPtr, zFirst: bool)
      requires op == QPlus || op == QMinus
      requires HasQ(q) && CanonicalAt(cells, r) && z in cells
      modifies `cells
      ensures cells == Put(old(cells), q,
                QOrdered(op, QAt(old(cells), r), Whole(old(cells)[z]), zFirst))
    {
      if op == QPlus {
        MixedPlus(QAt(cells, r), cells[z]);
        QPlusZ(q, r, z);
      } else if zFirst {
        ZMinusQ(q, z, r);
      } else {
        QMinusZ(q, r, z);
      }
    }

    // ----- function objects on mpz, by operation

    method ZScalarRightOp(op: ZOp, z: ZPtr, w: ZPtr, k: Scalar)
      requires z in cells && w in cells && ZDefined(op, k.Value())
      modifies `cells
      ensures cells == old(cells)[z := ZApply(op, old(cells)[w], k.Value())]
    {
      match op
      case Plus => PlusScalar(z, w, k);
      case Minus => MinusScalar(z, w, k);
      case Times => TimesScalar(z, w, k);
      case Divides => DividesScalar(z, w, k);
      case Modulus => ModulusScalar(z, w, k);
    }

    method ZScalarLeftOp(op: ZOp, z: ZPtr, k: Scalar, w: ZPtr)
      requires half >= 1 && z in cells && w in cells && InRange(k, half) && LeftDefined(op, k, cells[w], half)
      modifies `cells
      ensures cells == old(cells)[z := ZApply(op, k.Value(), old(cells)[w])]
    {
      match op
      case Plus => PlusScalar(z, w, k);
      case Minus => ScalarMinus(z, k, w);
      case Times => TimesScalar(z, w, k);
      case Divides => ScalarDivides(z, k, w);
      case Modulus => ScalarModulus(z, k, w);
    }

    // ----- eval

    /** __gmp_temp<mpz_t>, or an mpz_class constructed from an expression. */
    method ZTemp(e: ZExpr) returns (t: ZPtr)
      requires Valid() && ZOk(e, cells, half)
      modifies this
      ensures Valid() && t.Own? && t !in old(cells)
      ensures cells == old(cells)[t := ZValue(e, old(cells), half)]
      ensures Extends(old(cells), cells)
      decreases e, 2
    {
      t := Own(next);
      next := next + 1;
      cells := cells[t := 0];
      ZExtended(e, old(cells), cells, half);
      ZEval(t, e);
    }

    method ZFree(t: ZPtr)
      requires Valid()
      modifies `cells
      ensures Valid() && cells == old(cells) - {t}
    {
      cells := cells - {t};
    }

    /** eval(p) on an integer expression, and __gmp_set_expr: p gets the value
        the tree had, and nothing else changes, wherever p occurs in it. */
    method ZEval(p: ZPtr, e: ZExpr)
      requires Valid() && p in cells && ZOk(e, cells, half)
      modifies this
      ensures Valid()
      ensures cells == old(cells)[p := ZValue(e, old(cells), half)]
      decreases e, 1
    {
      hide ZApply, ZApply1;
      match e
      case ZVar(w) =>
        cells := cells[p := cells[w]];
      case ZUnary(op, e1) =>
        if e1.ZVar? {
          cells := cells[p := ZApply1(op, cells[e1.p])];
        } else {
          ZEval(p, e1);
          cells := cells[p := ZApply1(op, cells[p])];
        }
      case ZBinary(op, l, r) =>
        ZEvalBinary(p, op, l, r, e);
      case ZScalarRight(op, l, k) =>
        if l.ZVar? {
          ZScalarRightOp(op, p, l.p, k);
        } else {
          ZEval(p, l);
          ZScalarRightOp(op, p, p, k);
        }
      case ZScalarLeft(op, k, r) =>
        if r.ZVar? {
          ZScalarLeftOp(op, p, k, r.p);
        } else {
          ZEval(p, r);
          ZScalarLeftOp(op, p, k, p);
        }
    }

    method ZEvalBinary(p: ZPtr, op: ZOp, l: ZExpr, r: ZExpr, ghost e: ZExpr)
      requires Valid() && p in cells
      requires ZOk(l, cells, half) && ZOk(r, cells, half) && ZDefined(op, ZValue(r, cells, half))
      requires l < e && r < e
      modifies this
      ensures Valid()
      ensures cells == old(cells)[p := ZApply(op, ZValue(l, old(cells), half), ZValue(r, old(cells), half))]
      decreases e, 0
    {
      hide ZApply, ZValue, ZOk;
      if l.ZVar? {
        ZVariable(l.p, cells, half);
      }
      if r.ZVar? {
        ZVariable(r.p, cells, half);
      }
      if l.ZVar? && r.ZVar? {
        cells := cells[p := ZApply(op, cells[l.p], cells[r.p])];
      } else if l.ZVar? && p != l.p {
        ZEval(p, r);
        cells := cells[p := ZApply(op, cells[l.p], cells[p])];
      } else if l.ZVar? {
        var temp := ZTemp(r);
        DropTemp(old(cells), temp, cells[temp], p, ZApply(op, cells[l.p], cells[temp]));
        cells := cells[p := ZApply(op, cells[l.p], cells[temp])];
        ZFree(temp);
      } else if r.ZVar? && p != r.p {
        ZEval(p, l);
        cells := cells[p := ZApply(op, cells[p], cells[r.p])];
      } else if r.ZVar? {
        var temp := ZTemp(l);
        DropTemp(old(cells), temp, cells[temp], p, ZApply(op, cells[temp], cells[r.p]));
        cells := cells[p := ZApply(op, cells[temp], cells[r.p])];
        ZFree(temp);
      } else {
        var temp2 := ZTemp(r);
        ZExtended(l, old(cells), cells, half);
        ZEval(p, l);
        var v := ZApply(op, cells[p], cells[temp2]);
        DropTemp(old(cells), temp2, cells[temp2], p, v);
        Overwrite(old(cells)[temp2 := cells[temp2]], p, cells[p], v);
        cells := cells[p := v];
        ZFree(temp2);
      }
    }

    method QAllocate() returns (t: QPtr)
      requires Valid()
      modifies this
      ensures Valid()
      ensures NumOf(t) !in old(cells) && DenOf(t) !in old(cells)
      ensures cells == Put(old(cells), t, Whole(0))
    {
      t := next;
      next := next + 1;
      cells := Put(cells, t, Whole(0));
    }

    method QFree(t: QPtr)
      requires Valid()
      modifies `cells
      ensures Valid() && cells == old(cells) - {NumOf(t), DenOf(t)}
    {
      cells := cells - {NumOf(t), DenOf(t)};
    }

    /** __gmp_temp<mpq_t>, or an mpq_class constructed from an expression. */
    method QTemp(e: QExpr) returns (t: QPtr)
      requires Valid() && QOk(e, cells, half)
      modifies this
      ensures Valid()
      ensures NumOf(t) !in old(cells) && DenOf(t) !in old(cells)
      ensures cells == Put(old(cells), t, QValue(e, old(cells), half))
      ensures Extends(old(cells), cells)
      decreases e, 3
    {
      t := QAllocate();
      QExtended(e, old(cells), cells, half);
      QEval(t, e);
      PutPut(old(cells), t, Whole(0), QAt(cells, t));
    }

    method QTempZ(e: ZExpr) returns (t: QPtr)
      requires Valid() && ZOk(e, cells, half)
      modifies this
      ensures Valid()
      ensures NumOf(t) !in old(cells) && DenOf(t) !in old(cells)
      ensures cells == Put(old(cells), t, Whole(ZValue(e, old(cells), half)))
      ensures Extends(old(cells), cells)
    {
      t := QAllocate();
      ZExtended(e, old(cells), cells, half);
      SetQFromZ(t, e);
      PutPut(old(cells), t, Whole(0), QAt(cells, t));
    }

    /** __gmp_set_expr of an integer expression into an mpq: the numerator is
        evaluated in place, then the denominator becomes one. */
    method SetQFromZ(q: QPtr, e: ZExpr)
      requires Valid() && HasQ(q) && ZOk(e, cells, half)
      modifies this
      ensures Valid()
      ensures cells == Put(old(cells), q, Whole(ZValue(e, old(cells), half)))
    {
      if e.ZVar? {
        cells := Put(cells, q, Whole(cells[e.p]));
      } else {
        ZEval(NumOf(q), e);
        cells := cells[DenOf(q) := 1];
      }
    }

    /** __gmp_set_expr: the destination is the canonical form of the number that
        the tree denoted, and nothing else changes. */
    method Assign(q: QPtr, e: QExpr)
      requires Valid() && HasQ(q) && QOk(e, cells, half)
      modifies this
      ensures Valid() && CanonicalAt(cells, q) && cells == Put(old(cells), q, QAt(cells, q))
      ensures Number(QAt(cells, q)) == Denotes(e, old(cells), half)
    {
      QDenotes(e, cells, half);
      hide QValue, QOk, Denotes, LowestTerms, Number;
      QEval(q, e);
    }

    /** eval(q) on a rational expression. */
    method QEval(q: QPtr, e: QExpr)
      requires Valid() && HasQ(q) && QOk(e, cells, half)
      modifies this
      ensures Valid()
      ensures cells == Put(old(cells), q, QValue(e, old(cells), half))
      decreases e, 2
    {
      hide QApply, QApply1, LowestTerms, QOrdered;
      match e
      case QVar(r) =>
        cells := Put(cells, q, QAt(cells, r));
      case QUnary(op, e1) =>
        if e1.QVar? {
          cells := Put(cells, q, QApply1(op, QAt(cells, e1.q)));
        } else {
          QEval(q, e1);
          PutPut(old(cells), q, QAt(cells, q), QApply1(op, QAt(cells, q)));
          cells := Put(cells, q, QApply1(op, QAt(cells, q)));
        }
      case QBinary(op, l, r) =>
        QEvalBinary(q, op, l, r, e);
      case QScalarRight(op, l, k) =>
        if l.QVar? {
          QScalarRightOp(op, q, l.q, k);
        } else {
          QEval(q, l);
          ghost var before := cells;
          QScalarRightOp(op, q, q, k);
          PutPut(old(cells), q, QAt(before, q), QAt(cells, q));
        }
      case QScalarLeft(op, k, r) =>
        if r.QVar? {
          QScalarLeftOp(op, q, k, r.q);
        } else {
          QEval(q, r);
          ghost var before := cells;
          QScalarLeftOp(op, q, k, q);
          PutPut(old(cells), q, QAt(before, q), QAt(cells, q));
        }
      case QWithZ(op, l, r) =>
        if op == QPlus || op == QMinus {
          MixedEval(q, op, l, r, false, e);
        } else {
          ConvertedEval(q, op, l, r, false, e);
        }
        OrderedIs(op, QValue(l, old(cells), half), Whole(ZValue(r, old(cells), half)), false);
      case ZWithQ(op, l, r) =>
        if op == QPlus || op == QMinus {
          MixedEval(q, op, r, l, true, e);
        } else {
          ConvertedEval(q, op, r, l, true, e);
        }
        OrderedIs(op, QValue(r, old(cells), half), Whole(ZValue(l, old(cells), half)), true);
    }

    method QEvalBinary(q: QPtr, op: QOp, l: QExpr, r: QExpr, ghost e: QExpr)
      requires Valid() && HasQ(q)
      requires QOk(l, cells, half) && QOk(r, cells, half) && QDefined(op, QValue(r, cells, half))
      requires l < e && r < e
      modifies this
      ensures Valid()
      ensures cells == Put(old(cells), q, QApply(op, QValue(l, old(cells), half), QValue(r, old(cells), half)))
      decreases e, 1
    {
      hide QApply, LowestTerms, QOrdered;
      if l.QVar? && r.QVar? {
        cells := Put(cells, q, QApply(op, QAt(cells, l.q), QAt(cells, r.q)));
      } else if l.QVar? {
        OrderedIs(op, QValue(r, cells, half), QAt(cells, l.q), true);
        QVarWithExpr(q, op, l.q, r, true);
      } else if r.QVar? {
        OrderedIs(op, QValue(l, cells, half), QAt(cells, r.q), false);
        QVarWithExpr(q, op, r.q, l, false);
      } else {
        QBothExprs(q, op, l, r, e);
      }
    }

    /** One operand is a variable: the other is evaluated into the destination,
        unless the destination is that variable. */
    method QVarWithExpr(q: QPtr, op: QOp, x: QPtr, e: QExpr, varFirst: bool)
      requires Valid() && HasQ(q) && CanonicalAt(cells, x) && QOk(e, cells, half)
      requires QDefined(op, if varFirst then QValue(e, cells, half) else QAt(cells, x))
      modifies this
      ensures Valid()
      ensures cells == Put(old(cells), q, QOrdered(op, QValue(e, old(cells), half), QAt(old(cells), x), varFirst))
      decreases e, 4
    {
      hide QOrdered, LowestTerms, QValue, QOk;
      ghost var v := QOrdered(op, QValue(e, cells, half), QAt(cells, x), varFirst);
      if q != x {
        QEval(q, e);
        PutPut(old(cells), q, QAt(cells, q), v);
        cells := Put(cells, q, QOrdered(op, QAt(cells, q), QAt(cells, x), varFirst));
      } else {
        var temp := QTemp(e);
        DropQTemp(old(cells), temp, QAt(cells, temp), q, v);
        cells := Put(cells, q, QOrdered(op, QAt(cells, temp), QAt(cells, x), varFirst));
        QFree(temp);
      }
    }

    method QBothExprs(q: QPtr, op: QOp, l: QExpr, r: QExpr, ghost e: QExpr)
      requires Valid() && HasQ(q)
      requires QOk(l, cells, half) && QOk(r, cells, half) && QDefined(op, QValue(r, cells, half))
      requires l < e && r < e
      modifies this
      ensures Valid()
      ensures cells == Put(old(cells), q, QApply(op, QValue(l, old(cells), half), QValue(r, old(cells), half)))
      decreases e, 0
    {
      hide QApply, LowestTerms, QValue, QOk, Extends;
      ghost var v := QApply(op, QValue(l, cells, half), QValue(r, cells, half));
      var temp2 := QTemp(r);
      ghost var before := cells;
      QExtended(l, old(cells), cells, half);
      QEval(q, l);
      PutPut(before, q, QAt(cells, q), v);
      DropQTemp(old(cells), temp2, QAt(cells, temp2), q, v);
      cells := Put(cells, q, QApply(op, QAt(cells, q), QAt(cells, temp2)));
      QFree(temp2);
    }

    /** The specialisations for + and - on an mpq and an mpz, which do not
        convert the mpz; zFirst says that it is the left operand. */
    method MixedEval(q: QPtr, op: QOp, l: QExpr, r: ZExpr, zFirst: bool, ghost e: QExpr)
      requires Valid() && HasQ(q) && (op == QPlus || op == QMinus)
      requires QOk(l, cells, half) && ZOk(r, cells, half)
      requires l < e && r < e
      modifies this
      ensures Valid()
      ensures cells == Put(old(cells), q, QOrdered(op, QValue(l, old(cells), half), Whole(ZValue(r, old(cells),
        half)), zFirst))
      decreases e, 1
    {
      hide QOrdered, LowestTerms, QValue, QOk, ZValue, ZOk, Extends;
      ghost var v := QOrdered(op, QValue(l, cells, half), Whole(ZValue(r, cells, half)), zFirst);
      if l.QVar? {
        QVariable(l.q, cells, half);
      }
      if r.ZVar? {
        ZVariable(r.p, cells, half);
      }
      if l.QVar? && r.ZVar? {
        MixedOp(op, q, l.q, r.p, zFirst);
      } else if l.QVar? {
        var temp := ZTemp(r);
        DropZTempQ(old(cells), temp, cells[temp], q, v);
        MixedOp(op, q, l.q, temp, zFirst);
        ZFree(temp);
      } else if r.ZVar? {
        var temp := QTemp(l);
        DropQTemp(old(cells), temp, QAt(cells, temp), q, v);
        MixedOp(op, q, temp, r.p, zFirst);
        QFree(temp);
      } else {
        MixedBothExprs(q, op, l, r, zFirst, e);
      }
    }

    method MixedBothExprs(q: QPtr, op: QOp, l: QExpr, r: ZExpr, zFirst: bool, ghost e: QExpr)
      requires Valid() && HasQ(q) && (op == QPlus || op == QMinus)
      requires QOk(l, cells, half) && ZOk(r, cells, half)
      requires l < e && r < e
      modifies this
      ensures Valid()
      ensures cells == Put(old(cells), q, QOrdered(op, QValue(l, old(cells), half), Whole(ZValue(r, old(cells),
        half)), zFirst))
      decreases e, 0
    {
      hide QOrdered, LowestTerms, QValue, QOk, ZValue, ZOk, Extends;
      ghost var v := QOrdered(op, QValue(l, cells, half), Whole(ZValue(r, cells, half)), zFirst);
      hide Put, QAt;
      var temp := ZTemp(r);
      QExtended(l, old(cells), cells, half);
      QEval(q, l);
      AfterMixed(old(cells), temp, ZValue(r, old(cells), half), q, QValue(l, old(cells), half), v);
      MixedOp(op, q, q, temp, zFirst);
      ZFree(temp);
    }

    /** An mpq and an mpz under * or /: the mpz is converted first. */
    method ConvertedEval(q: QPtr, op: QOp, l: QExpr, r: ZExpr, zFirst: bool, ghost e: QExpr)
      requires Valid() && HasQ(q)
      requires QOk(l, cells, half) && ZOk(r, cells, half)
      requires QDefined(op, if zFirst then QValue(l, cells, half) else Whole(ZValue(r, cells, half)))
      requires l < e && r < e
      modifies this
      ensures Valid()
      ensures cells == Put(old(cells), q, QOrdered(op, QValue(l, old(cells), half), Whole(ZValue(r, old(cells),
        half)), zFirst))
      decreases e, 0
    {
      hide QOrdered, LowestTerms, QValue, QOk, ZValue, ZOk, Extends;
      ghost var v := QOrdered(op, QValue(l, cells, half), Whole(ZValue(r, cells, half)), zFirst);
      if l.QVar? {
        QVariable(l.q, cells, half);
        if q != l.q {
          SetQFromZ(q, r);
          PutPut(old(cells), q, QAt(cells, q), v);
          cells := Put(cells, q, QOrdered(op, QAt(cells, l.q), QAt(cells, q), zFirst));
        } else {
          var temp := QTempZ(r);
          DropQTemp(old(cells), temp, QAt(cells, temp), q, v);
          cells := Put(cells, q, QOrdered(op, QAt(cells, l.q), QAt(cells, temp), zFirst));
          QFree(temp);
        }
      } else {
        var temp := QTempZ(r);
        ghost var before := cells;
        QExtended(l, old(cells), cells, half);
        QEval(q, l);
        PutPut(before, q, QAt(cells, q), v);
        DropQTemp(old(cells), temp, QAt(cells, temp), q, v);
        cells := Put(cells, q, QOrdered(op, QAt(cells, q), QAt(cells, temp), zFirst));
        QFree(temp);
      }
    }
  }

  /** A freed temporary leaves no trace. */
  lemma DropTemp(m: Cells, t: ZPtr, v: int, p: ZPtr, w: int)
    requires t !in m && p in m
    ensures m[t := v][p := w] - {t} == m[p := w]
  {
  }

  lemma Overwrite(m: Cells, p: ZPtr, v: int, w: int)
    ensures m[p := v][p := w] == m[p := w]
  {
  }

  lemma DropQTemp(m: Cells, t: QPtr, v: Rat, q: QPtr, w: Rat)
    requires NumOf(t) !in m && DenOf(t) !in m && NumOf(q) in m && DenOf(q) in m
    ensures Put(Put(m, t, v), q, w) - {NumOf(t), DenOf(t)} == Put(m, q, w)
  {
  }

  lemma DropZTempQ(m: Cells, t: ZPtr, v: int, q: QPtr, w: Rat)
    requires t !in m && NumOf(q) in m && DenOf(q) in m
    ensures Put(m[t := v], q, w) - {t} == Put(m, q, w)
  {
  }

  lemma AfterMixed(m: Cells, t: ZPtr, z: int, q: QPtr, a: Rat, v: Rat)
    requires t.Own? && t !in m && NumOf(q) in m && DenOf(q) in m
    ensures var m1 := Put(m[t := z], q, a);
      && NumOf(q) in m1 && DenOf(q) in m1 && QAt(m1, q) == a
      && t in m1 && m1[t] == z
      && Put(m1, q, v) - {t} == Put(m, q, v)
  {
    PutPut(m[t := z], q, a, v);
    DropZTempQ(m, t, z, q, v);
  }

  lemma PutPut(m: Cells, q: QPtr, v: Rat, w: Rat)
    ensures Put(Put(m, q, v), q, w) == Put(m, q, w)
  {
  }

  lemma PositiveAt(m: Cells, q: QPtr)
    requires CanonicalAt(m, q)
    ensures QAt(m, q).d > 0
  {
  }

  lemma QVariable(q: QPtr, m: Cells, half: int)
    requires QOk(QVar(q), m, half)
    ensures CanonicalAt(m, q) && QValue(QVar(q), m, half) == QAt(m, q)
  {
  }

  lemma OrderedIs(op: QOp, a: Rat, b: Rat, bFirst: bool)
    requires a.d > 0 && b.d > 0 && QDefined(op, if bFirst then a else b)
    ensures QOrdered(op, a, b, bFirst) == if bFirst then QApply(op, b, a) else QApply(op, a, b)
  {
  }

  lemma NegatedProduct(i: int, d: int)
    requires i < 0
    ensures Abs(i) * d == -(i * d)
  {
  }
}
