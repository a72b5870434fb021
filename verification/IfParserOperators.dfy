/** What each operator of the #if evaluator computes, on the text of its operands. */
module IfParserOperators {
  import opened Options
  import opened IfParser
  import opened IfParserProofs
  import opened IfParserRoundTrip
  import opened IfParserGrouping

  /** Operands that may stand on the two sides of an operator of level `k`, and have values. */
  predicate Sides(g: IfParser, k: nat, l: Expr, r: Expr) {
    && WellFormed(l) && Fits(l, k + 1) && Returns(g, l)
    && WellFormed(r) && Fits(r, k) && Returns(g, r)
  }

  /** The evaluator on the text of two operands with an operator in between. */
  function Written(g: IfParser, l: Expr, operator: string, r: Expr): Parse
    requires WellFormed(l) && WellFormed(r)
  {
    ParseIfExpression(g, Print(l) + (operator + Print(r)))
  }

  /** The whole text is read, and the value is a truth value. */
  predicate IsTruth(p: Parse, b: bool) {
    p == Ok("", if b then 1 else 0)
  }

  lemma Evaluates(g: IfParser, l: Expr, op: Op, r: Expr)
    requires Sides(g, Level(op), l, r)
    ensures Written(g, l, Text(op), r) == Ok("", Apply(g, op, Eval(g, l), Eval(g, r)))
  {
    var e := Binary(l, "", op, r);
    assert Value(g, l) == Some(Eval(g, l)) && Value(g, r) == Some(Eval(g, r));
    assert Fits(l, Level(op) + 1) && Fits(r, Level(op)) && WellFormed(l) && WellFormed(r);
    assert Written(g, l, Text(op), r) == ParseIfExpression(g, Print(l) + (Text(op) + Print(r)));
    hide *;
    PrintBinary(l, op, r);
    FitsBinary(e);
    ValueOfBinary(g, e);
    ReadsFitting(g, e);
    AnswerIs("", Value(g, e));
  }

  // ---- Logic ----------------------------------------------------------------------------------

  lemma AndIsBoth(g: IfParser, l: Expr, r: Expr)
    requires Sides(g, 1, l, r)
    ensures IsTruth(Written(g, l, "&&", r), Eval(g, l) != 0 && Eval(g, r) != 0)
  {
    hide Written, Sides, Eval;
    Evaluates(g, l, And, r);
  }

  lemma OrIsEither(g: IfParser, l: Expr, r: Expr)
    requires Sides(g, 0, l, r)
    ensures IsTruth(Written(g, l, "||", r), Eval(g, l) != 0 || Eval(g, r) != 0)
  {
    hide Written, Sides, Eval;
    Evaluates(g, l, Or, r);
  }

  /** A sign and its operand. */
  lemma NotIsZero(g: IfParser, e: Expr)
    requires WellFormed(e) && Fits(e, 9) && Returns(g, e)
    ensures IsTruth(ParseIfExpression(g, "!" + Print(e)), Eval(g, e) == 0)
  {
    var n := Not("", e);
    assert Print(n) == "" + ("!" + Print(e)) == "!" + Print(e);
    assert Value(g, n) == Some(Truth(Eval(g, e) == 0)) && WellFormed(n) && Fits(n, 0);
    hide ParseIfExpression, Print, Value, Eval;
    ReadsFitting(g, n);
  }

  lemma MinusCancels(g: IfParser, e: Expr)
    requires WellFormed(e) && Fits(e, 9) && Returns(g, e)
    ensures var p := ParseIfExpression(g, "-" + Print(e)); p.Ok? && p.cp == "" && p.val + Eval(g, e) == 0
  {
    var n, v := Neg("", e), Eval(g, e);
    assert Print(n) == "" + ("-" + Print(e)) == "-" + Print(e);
    assert Value(g, n) == Some(-v) && WellFormed(n) && Fits(n, 0);
    hide *;
    ReadsFitting(g, n);
    AnswerIs("", Value(g, n));
  }

  // ---- Comparisons ----------------------------------------------------------------------------

  /** By the sign of the difference. */
  lemma OrderIsOfDifference(g: IfParser, l: Expr, r: Expr)
    requires Sides(g, 5, l, r)
    ensures var d := Eval(g, l) - Eval(g, r);
            && IsTruth(Written(g, l, "<", r), d < 0) && IsTruth(Written(g, l, "<=", r), !(d > 0))
            && IsTruth(Written(g, l, ">", r), d > 0) && IsTruth(Written(g, l, ">=", r), !(d < 0))
  {
    hide Written, Sides, Eval;
    Evaluates(g, l, Lt, r);
    Evaluates(g, l, Le, r);
    Evaluates(g, l, Gt, r);
    Evaluates(g, l, Ge, r);
  }

  lemma EqualityIsOfDifference(g: IfParser, l: Expr, r: Expr)
    requires Sides(g, 4, l, r)
    ensures var d := Eval(g, l) - Eval(g, r);
            IsTruth(Written(g, l, "==", r), d == 0) && IsTruth(Written(g, l, "!=", r), d != 0)
  {
    hide Written, Sides, Eval;
    Evaluates(g, l, Eq, r);
    Evaluates(g, l, Ne, r);
  }

  // ---- Arithmetic -----------------------------------------------------------------------------

  lemma SumsAreSums(g: IfParser, l: Expr, r: Expr)
    requires Sides(g, 7, l, r)
    ensures Written(g, l, "+", r) == Ok("", Eval(g, l) + Eval(g, r))
    ensures Written(g, l, "-", r) == Ok("", Eval(g, l) - Eval(g, r))
  {
    hide Written, Sides, Eval;
    Evaluates(g, l, Add, r);
    Evaluates(g, l, Sub, r);
  }

  lemma ProductIsProduct(g: IfParser, l: Expr, r: Expr)
    requires Sides(g, 8, l, r)
    ensures Written(g, l, "*", r) == Ok("", Eval(g, l) * Eval(g, r))
  {
    hide Written, Sides, Eval;
    Evaluates(g, l, Mul, r);
  }

  lemma QuotientRemainder(a: int, b: int)
    requires b != 0
    ensures var m := a - b * Quotient(a, b);
            Abs(m) < Abs(b) && (m != 0 ==> (m < 0 <==> a < 0))
  {
    var q := Abs(a) / Abs(b);
    var rest := Abs(a) % Abs(b);
    assert Abs(a) == Abs(b) * q + rest;
    if a < 0 {
      assert b * Quotient(a, b) == -(Abs(b) * q) by { Signs(b, q); }
    } else {
      assert b * Quotient(a, b) == Abs(b) * q by { Signs(b, q); }
    }
  }

  lemma Signs(b: int, q: int)
    ensures b * q == (if b < 0 then -(Abs(b) * q) else Abs(b) * q) && b * (-q) == -(b * q)
  {
  }

  /** The dividend is quotient times divisor plus remainder; the remainder is smaller than the divisor, and
      of the sign of the dividend. */
  lemma DivisionTruncates(g: IfParser, l: Expr, r: Expr)
    requires Sides(g, 8, l, r) && Eval(g, r) != 0
    ensures var a, b := Eval(g, l), Eval(g, r);
            var q, m := Written(g, l, "/", r), Written(g, l, "%", r);
            && q.Ok? && q.cp == "" && m.Ok? && m.cp == ""
            && a == q.val * b + m.val && Abs(m.val) < Abs(b) && (m.val != 0 ==> (m.val < 0 <==> a < 0))
  {
    var a, b := Eval(g, l), Eval(g, r);
    assert Level(Div) == 8 && Level(Rem) == 8 && Text(Div) == "/" && Text(Rem) == "%";
    hide *;
    Evaluates(g, l, Div, r);
    Evaluates(g, l, Rem, r);
    Divides(g, a, b);
  }

  lemma Divides(g: IfParser, a: int, b: int)
    requires b != 0
    ensures var q, m := Apply(g, Div, a, b), Apply(g, Rem, a, b);
            a == q * b + m && Abs(m) < Abs(b) && (m != 0 ==> (m < 0 <==> a < 0))
  {
    hide Quotient;
    QuotientRemainder(a, b);
    Commutes(Quotient(a, b), b);
  }

  lemma Commutes(q: int, b: int)
    ensures q * b == b * q
  {
  }

  // ---- Bits -----------------------------------------------------------------------------------

  /** Bit `k` of a number in two's complement. */
  function Bit(x: int, k: nat): int
    decreases k
  {
    if k == 0 then x % 2 else Bit(x / 2, k - 1)
  }

  lemma {:induction false} ConjoinedBit(a: int, b: int, k: nat)
    ensures Bit(Conjoin(a, b), k) == if Bit(a, k) == 1 && Bit(b, k) == 1 then 1 else 0
    ensures 0 <= Bit(a, k) <= 1
    decreases k
  {
    hide Conjoin;
    ConjoinBits(a, b);
    if k == 0 {
      TimesBit(a % 2, b % 2);
    } else {
      ConjoinedBit(a / 2, b / 2, k - 1);
    }
  }

  lemma {:induction false} ComplementBit(x: int, k: nat)
    ensures Bit(-1 - x, k) == 1 - Bit(x, k)
    decreases k
  {
    assert (-1 - x) / 2 == -1 - x / 2 && (-1 - x) % 2 == 1 - x % 2;
    if k > 0 { ComplementBit(x / 2, k - 1); }
  }

  lemma DisjoinedBit(a: int, b: int, k: nat)
    ensures Bit(Disjoin(a, b), k) == if Bit(a, k) == 1 || Bit(b, k) == 1 then 1 else 0
  {
    hide Conjoin, Bit;
    ConjoinedBit(-1 - a, -1 - b, k);
    ConjoinedBit(a, b, k);
    ConjoinedBit(b, a, k);
    ComplementBit(a, k);
    ComplementBit(b, k);
    ComplementBit(Conjoin(-1 - a, -1 - b), k);
  }

  /** Bit by bit. */
  lemma AmpersandIsOfBits(g: IfParser, l: Expr, r: Expr, k: nat)
    requires Sides(g, 3, l, r)
    ensures var p := Written(g, l, "&", r);
            p.Ok? && p.cp == "" && (Bit(p.val, k) == 1 <==> Bit(Eval(g, l), k) == 1 && Bit(Eval(g, r), k) == 1)
  {
    var a, b := Eval(g, l), Eval(g, r);
    hide Written, Sides, Eval, Conjoin, Bit;
    Evaluates(g, l, BitAnd, r);
    ConjoinedBit(a, b, k);
  }

  lemma BarIsOfBits(g: IfParser, l: Expr, r: Expr, k: nat)
    requires Sides(g, 2, l, r)
    ensures var p := Written(g, l, "|", r);
            p.Ok? && p.cp == "" && (Bit(p.val, k) == 1 <==> Bit(Eval(g, l), k) == 1 || Bit(Eval(g, r), k) == 1)
  {
    var a, b := Eval(g, l), Eval(g, r);
    hide Written, Sides, Eval, Disjoin, Bit;
    Evaluates(g, l, BitOr, r);
    DisjoinedBit(a, b, k);
  }

  // ---- Shifts ---------------------------------------------------------------------------------

  lemma QuotientUnique(a: int, d: int, q: int, rest: int)
    requires d > 0 && a == q * d + rest && 0 <= rest < d
    ensures a / d == q
  {
    var x := q - a / d;
    assert x * d == a % d - rest;
    SmallMultiple(x, d);
  }

  lemma SmallMultiple(x: int, d: int)
    requires d > 0
    ensures x > 0 ==> x * d >= d
    ensures x < 0 ==> x * d <= -d
  {
  }

  /** Dividing by the next power of two is halving once more, rounding down. */
  lemma HalvesAgain(a: int, p: int)
    requires p > 0
    ensures a / (2 * p) == (a / p) / 2
  {
    var q, r := a / p, a % p;
    var h, b := q / 2, q % 2;
    assert a == q * p + r && q == 2 * h + b;
    assert q * p == h * (2 * p) + b * p by { Distributes(h, b, p); }
    assert 0 <= b * p <= p by { if b == 0 { TimesOne(p); } else { TimesOne(p); } }
    QuotientUnique(a, 2 * p, h, b * p + r);
  }

  lemma Distributes(h: int, b: int, p: int)
    ensures (2 * h + b) * p == h * (2 * p) + b * p
  {
  }

  lemma TimesOne(p: int)
    ensures 0 * p == 0 && 1 * p == p
  {
  }

  lemma LeftBy(a: int, n: nat)
    ensures a * Power2(0) == a && a * Power2(n + 1) == 2 * (a * Power2(n))
  {
    Doubles(a, Power2(n));
  }

  lemma Doubles(a: int, p: int)
    ensures a * (2 * p) == 2 * (a * p)
  {
  }

  lemma RightBy(a: int, n: nat)
    ensures Power2(0) == 1 && Power2(n) > 0 && Power2(n + 1) > 0
    ensures a / Power2(n + 1) == (a / Power2(n)) / 2
  {
    Power2Positive(n);
    HalvesAgain(a, Power2(n));
  }

  /** By 0 places nothing changes; by one place more the value is doubled. */
  lemma ShiftLeftDoubles(g: IfParser, l: Expr, r: Expr, s: Expr)
    requires Sides(g, 6, l, r) && Sides(g, 6, l, s) && 0 <= Eval(g, r) && Eval(g, s) == Eval(g, r) + 1
    ensures var p, q := Written(g, l, "<<", r), Written(g, l, "<<", s);
            && p.Ok? && p.cp == "" && q.Ok? && q.cp == ""
            && (Eval(g, r) == 0 ==> p.val == Eval(g, l)) && q.val == 2 * p.val
  {
    var a, n := Eval(g, l), Eval(g, r);
    hide Written, Sides, Eval, Power2;
    Evaluates(g, l, Shl, r);
    Evaluates(g, l, Shl, s);
    LeftBy(a, n);
  }

  /** ... or halved, rounding down. */
  lemma ShiftRightHalves(g: IfParser, l: Expr, r: Expr, s: Expr)
    requires Sides(g, 6, l, r) && Sides(g, 6, l, s) && 0 <= Eval(g, r) && Eval(g, s) == Eval(g, r) + 1
    ensures var p, q := Written(g, l, ">>", r), Written(g, l, ">>", s);
            && p.Ok? && p.cp == "" && q.Ok? && q.cp == ""
            && (Eval(g, r) == 0 ==> p.val == Eval(g, l)) && 2 * q.val <= p.val <= 2 * q.val + 1
  {
    var a, n := Eval(g, l), Eval(g, r);
    assert Level(Shr) == 6 && Text(Shr) == ">>";
    hide *;
    Evaluates(g, l, Shr, r);
    Evaluates(g, l, Shr, s);
    Halves(g, a, n);
  }

  lemma Halves(g: IfParser, a: int, n: nat)
    ensures Apply(g, Shr, a, 0) == a
    ensures var x, y := Apply(g, Shr, a, n), Apply(g, Shr, a, n + 1); 2 * y <= x <= 2 * y + 1
  {
    RightBy(a, 0);
    RightBy(a, n);
    hide Power2;
    var x := a / Power2(n);
    assert Apply(g, Shr, a, n) == x && Apply(g, Shr, a, n + 1) == x / 2;
  }
}
