/** Operators of one level group to the right in the #if evaluator, and to the left in C: when that
    makes a difference. */
module IfParserGrouping {
  import opened Options
  import opened IfParser
  import opened IfParserProofs
  import opened IfParserRoundTrip

  /** a op1 b op2 c, as C groups it and as the evaluator does. */
  function ToTheLeft(g: IfParser, op1: Op, op2: Op, a: int, b: int, c: int): int {
    Apply(g, op2, Apply(g, op1, a, b), c)
  }

  function ToTheRight(g: IfParser, op1: Op, op2: Op, a: int, b: int, c: int): int {
    Apply(g, op1, a, Apply(g, op2, b, c))
  }

  predicate GroupsAlike(op1: Op, op2: Op) {
    (op1 == op2 && (op1.Mul? || op1.Add? || op1.BitAnd? || op1.BitOr? || op1.And? || op1.Or?)) ||
    (op1.Add? && op2.Sub?)
  }

  // ---- Where it makes none --------------------------------------------------------------------

  /** The last bit of a conjunction, and the others. */
  lemma ConjoinBits(a: int, b: int)
    ensures Conjoin(a, b) / 2 == Conjoin(a / 2, b / 2)
    ensures Conjoin(a, b) % 2 == (a % 2) * (b % 2)
  {
    if a == 0 {
      TimesBit(0, b % 2);
    } else if a == -1 {
      TimesBit(1, b % 2);
    } else {
      TimesBit(a % 2, b % 2);
      HalfAndBit(Conjoin(a / 2, b / 2), (a % 2) * (b % 2));
    }
  }

  lemma TimesBit(x: int, y: int)
    requires 0 <= x <= 1 && 0 <= y <= 1
    ensures 0 <= x * y <= 1 && x * y == if x == 0 then 0 else y
  {
  }

  lemma HalfAndBit(x: int, bit: int)
    requires 0 <= bit <= 1
    ensures (2 * x + bit) / 2 == x && (2 * x + bit) % 2 == bit
  {
  }

  lemma {:induction false} ConjoinAssociates(a: int, b: int, c: int)
    ensures Conjoin(Conjoin(a, b), c) == Conjoin(a, Conjoin(b, c))
    decreases Abs(a)
  {
    if a != 0 && a != -1 {
      var x, y := Conjoin(Conjoin(a, b), c), Conjoin(a, Conjoin(b, c));
      ConjoinAssociates(a / 2, b / 2, c / 2);
      ConjoinBits(a, b);
      ConjoinBits(b, c);
      ConjoinBits(Conjoin(a, b), c);
      ConjoinBits(a, Conjoin(b, c));
      BitsAssociate(a % 2, b % 2, c % 2);
      assert x == 2 * (x / 2) + x % 2 && y == 2 * (y / 2) + y % 2;
    }
  }

  lemma BitsAssociate(a: int, b: int, c: int)
    ensures (a * b) * c == a * (b * c)
  {
  }

  lemma AlikeIsAlike(g: IfParser, op1: Op, op2: Op, a: int, b: int, c: int)
    requires GroupsAlike(op1, op2)
    ensures ToTheLeft(g, op1, op2, a, b, c) == ToTheRight(g, op1, op2, a, b, c)
  {
    hide Conjoin, Disjoin, Quotient, Power2;
    match op1
    case Mul => BitsAssociate(a, b, c);
    case BitAnd => ConjoinAssociates(a, b, c);
    case BitOr => DisjoinAssociates(a, b, c);
    case Add =>
    case And =>
    case Or =>
  }

  lemma DisjoinAssociates(a: int, b: int, c: int)
    ensures Disjoin(Disjoin(a, b), c) == Disjoin(a, Disjoin(b, c))
  {
    hide Conjoin;
    ConjoinAssociates(-1 - a, -1 - b, -1 - c);
    assert -1 - Disjoin(a, b) == Conjoin(-1 - a, -1 - b) && -1 - Disjoin(b, c) == Conjoin(-1 - b, -1 - c);
  }

  // ---- Where it makes one ---------------------------------------------------------------------

  /** Three numbers on which any other pair of operators of one level gives two values. */
  function Witness(op1: Op, op2: Op): (nat, nat, nat) {
    match op1
    case Mul => (2, 1, 2)
    case Div => if op2.Div? then (4, 2, 2) else (2, 1, 2)
    case Rem => if op2.Mul? then (1, 2, 2) else if op2.Div? then (1, 4, 2) else (1, 3, 2)
    case Sub => (0, 0, 1)
    case Shl => (1, 0, 1)
    case Shr => (1, 0, 1)
    case Lt => AboutLess(op2)
    case Le => AboutLess(op2)
    case Gt => AboutGreater(op2)
    case Ge => AboutGreater(op2)
    case Eq => (0, 0, 2)
    case Ne => if op2.Eq? then (2, 0, 2) else (2, 0, 1)
    case _ => (0, 0, 0)
  }

  function AboutLess(op2: Op): (nat, nat, nat) {
    if op2.Gt? then (2, 3, 0) else if op2.Ge? then (2, 0, 0) else (2, 0, 1)
  }

  function AboutGreater(op2: Op): (nat, nat, nat) {
    if op2.Gt? then (2, 0, 1) else if op2.Ge? then (2, 0, 2) else (2, 0, 0)
  }

  lemma OthersDiffer(g: IfParser, op1: Op, op2: Op)
    requires Level(op1) == Level(op2) && !GroupsAlike(op1, op2)
    ensures var w := Witness(op1, op2);
            ToTheLeft(g, op1, op2, w.0, w.1, w.2) != ToTheRight(g, op1, op2, w.0, w.1, w.2)
  {
    assert Level(op1) >= 4 && (Level(op1) == 7 ==> op1.Sub?);
    if Level(op1) == 6 { assert Witness(op1, op2) == (1, 0, 1); }
    hide ToTheLeft, ToTheRight, Witness, GroupsAlike, Apply;
    if Level(op1) == 8 {
      ProductsDiffer(g, op1, op2);
    } else if Level(op1) == 7 {
      DifferencesDiffer(g, op1, op2);
    } else if Level(op1) == 6 {
      ShiftsDiffer(g, op1, op2);
    } else if Level(op1) == 5 {
      OrdersDiffer(g, op1, op2);
    } else {
      EqualitiesDiffer(g, op1, op2);
    }
  }

  lemma DifferencesDiffer(g: IfParser, op1: Op, op2: Op)
    requires op1.Sub? && Level(op2) == 7
    ensures var w := Witness(op1, op2);
            ToTheLeft(g, op1, op2, w.0, w.1, w.2) != ToTheRight(g, op1, op2, w.0, w.1, w.2)
  {
    hide Conjoin, Quotient, Power2;
  }

  lemma EqualitiesDiffer(g: IfParser, op1: Op, op2: Op)
    requires Level(op1) == Level(op2) == 4
    ensures var w := Witness(op1, op2);
            ToTheLeft(g, op1, op2, w.0, w.1, w.2) != ToTheRight(g, op1, op2, w.0, w.1, w.2)
  {
    hide Conjoin, Quotient, Power2;
  }

  lemma ProductsDiffer(g: IfParser, op1: Op, op2: Op)
    requires Level(op1) == Level(op2) == 8 && !GroupsAlike(op1, op2)
    ensures var w := Witness(op1, op2);
            ToTheLeft(g, op1, op2, w.0, w.1, w.2) != ToTheRight(g, op1, op2, w.0, w.1, w.2)
  {
    if op1.Mul? {
      assert Quotient(1, 2) == 0 && Quotient(2, 2) == 1;
    } else if op1.Div? {
      assert Quotient(4, 2) == 2 && Quotient(2, 2) == 1 && Quotient(4, 1) == 4 && Quotient(2, 1) == 2 &&
          Quotient(1, 2) == 0;
    } else {
      assert Quotient(1, 2) == 0 && Quotient(4, 2) == 2 && Quotient(1, 4) == 0 && Quotient(3, 2) == 1 &&
          Quotient(1, 1) == 1 && Quotient(1, 3) == 0;
    }
  }

  lemma ShiftsDiffer(g: IfParser, op1: Op, op2: Op)
    requires Level(op1) == Level(op2) == 6
    ensures ToTheLeft(g, op1, op2, 1, 0, 1) != ToTheRight(g, op1, op2, 1, 0, 1)
  {
    assert Power2(0) == 1 && Power2(1) == 2;
  }

  lemma OrdersDiffer(g: IfParser, op1: Op, op2: Op)
    requires Level(op1) == Level(op2) == 5
    ensures var w := Witness(op1, op2);
            ToTheLeft(g, op1, op2, w.0, w.1, w.2) != ToTheRight(g, op1, op2, w.0, w.1, w.2)
  {
  }

  // ---- On the text ----------------------------------------------------------------------------

  /** An operand of operators of level `k`. */
  predicate Operand(k: nat, e: Expr) { WellFormed(e) && Fits(e, k + 1) }

  function Chain(a: Expr, op1: Op, b: Expr, op2: Op, c: Expr): string
    requires WellFormed(a) && WellFormed(b) && WellFormed(c)
  {
    Print(a) + (Text(op1) + (Print(b) + (Text(op2) + Print(c))))
  }

  lemma PrintBinary(l: Expr, op: Op, r: Expr)
    requires WellFormed(l) && WellFormed(r)
    ensures Print(Binary(l, "", op, r)) == Print(l) + (Text(op) + Print(r))
  {
    assert "" + (Text(op) + Print(r)) == Text(op) + Print(r);
  }

  lemma {:induction false} FitsLower(e: Expr, k: nat)
    requires Fits(e, k + 1)
    ensures Fits(e, k) && Fits(e, 0)
  {
  }

  /** Three operands that have values. */
  predicate Operands(g: IfParser, k: nat, a: Expr, b: Expr, c: Expr) {
    && Operand(k, a) && Operand(k, b) && Operand(k, c)
    && Returns(g, a) && Returns(g, b) && Returns(g, c)
  }

  /** The evaluator's value of a chain of two operators of one level is the one grouped to the right. */
  lemma ChainGroupsRight(g: IfParser, a: Expr, op1: Op, b: Expr, op2: Op, c: Expr)
    requires Level(op1) == Level(op2) && Operands(g, Level(op1), a, b, c)
    ensures ParseIfExpression(g, Chain(a, op1, b, op2, c))
            == Ok("", ToTheRight(g, op1, op2, Eval(g, a), Eval(g, b), Eval(g, c)))
  {
    var inner := Binary(b, "", op2, c);
    var e := Binary(a, "", op1, inner);
    ChainValue(g, a, op1, b, op2, c);
    ChainText(a, op1, b, op2, c);
    assert Fits(a, Level(op1) + 1) && Fits(b, Level(op1) + 1) && Fits(c, Level(op1) + 1);
    assert Value(g, e) == Some(ToTheRight(g, op1, op2, Eval(g, a), Eval(g, b), Eval(g, c)));
    hide *;
    FitsLower(c, Level(op1));
    FitsBinary(inner);
    FitsBinary(e);
    ReadsFitting(g, e);
    assert Answer("", Value(g, e)) == Ok("", ToTheRight(g, op1, op2, Eval(g, a), Eval(g, b), Eval(g, c))) by {
      AnswerIs("", Value(g, e));
    }
  }

  lemma AnswerIs(rest: string, v: Option<int>)
    requires v.Some?
    ensures Answer(rest, v) == Ok(rest, v.value)
  {
  }

  lemma ChainText(a: Expr, op1: Op, b: Expr, op2: Op, c: Expr)
    requires WellFormed(a) && WellFormed(b) && WellFormed(c)
    ensures Print(Binary(a, "", op1, Binary(b, "", op2, c))) == Chain(a, op1, b, op2, c)
  {
    hide Print;
    PrintBinary(b, op2, c);
    PrintBinary(a, op1, Binary(b, "", op2, c));
  }

  lemma ChainValue(g: IfParser, a: Expr, op1: Op, b: Expr, op2: Op, c: Expr)
    requires Returns(g, a) && Returns(g, b) && Returns(g, c)
    ensures Value(g, Binary(a, "", op1, Binary(b, "", op2, c)))
            == Some(ToTheRight(g, op1, op2, Eval(g, a), Eval(g, b), Eval(g, c)))
  {
    hide Apply, Eval, Returns;
    var inner := Binary(b, "", op2, c);
    assert Value(g, a) == Some(Eval(g, a)) && Value(g, b) == Some(Eval(g, b)) && Value(g, c) == Some(Eval(g, c));
    hide Value;
    ValueOfBinary(g, inner);
    ValueOfBinary(g, Binary(a, "", op1, inner));
  }

  lemma FitsBinary(e: Expr)
    requires e.Binary? && WellFormed(e.l) && WellFormed(e.r) && e.ws == ""
    requires Fits(e.l, Level(e.op) + 1) && Fits(e.r, Level(e.op))
    ensures WellFormed(e) && Fits(e, 0) && Fits(e, Level(e.op))
  {
    hide Level;
  }

  /** A chain of two operators of one level has C's value for all operands and all callbacks if and
      only if they are the same associative operator, or + followed by -. */
  lemma GroupsAsInCExactly(op1: Op, op2: Op)
    requires Level(op1) == Level(op2)
    ensures GroupsAlike(op1, op2) <==>
            forall g: IfParser, a, b, c ::
              Operands(g, Level(op1), a, b, c) ==>
                ParseIfExpression(g, Chain(a, op1, b, op2, c))
                == Ok("", ToTheLeft(g, op1, op2, Eval(g, a), Eval(g, b), Eval(g, c)))
  {
    hide Print, Parenthesize, ParseIfExpression, Level, Text, ToTheLeft, ToTheRight, Witness, Chain;
    if GroupsAlike(op1, op2) {
      forall g: IfParser, a, b, c | Operands(g, Level(op1), a, b, c)
        ensures ParseIfExpression(g, Chain(a, op1, b, op2, c))
                == Ok("", ToTheLeft(g, op1, op2, Eval(g, a), Eval(g, b), Eval(g, c)))
      {
        ChainGroupsRight(g, a, op1, b, op2, c);
        AlikeIsAlike(g, op1, op2, Eval(g, a), Eval(g, b), Eval(g, c));
      }
    } else {
      var g := IfParser((_: string) => Some(0), (_: string) => false, (_: string) => 0, (_: Op, _: int, _: int) => 0);
      var w := Witness(op1, op2);
      var a, b, c := Number("", Decimal, w.0, ""), Number("", Decimal, w.1, ""), Number("", Decimal, w.2, "");
      assert Operands(g, Level(op1), a, b, c);
      ChainGroupsRight(g, a, op1, b, op2, c);
      OthersDiffer(g, op1, op2);
    }
  }

  /** So a - b - c is a - (b - c), which is C's value exactly when c is 0. */
  lemma SubtractionGroupsRight(g: IfParser, a: Expr, b: Expr, c: Expr)
    requires Operands(g, 7, a, b, c)
    ensures var r := ParseIfExpression(g, Chain(a, Sub, b, Sub, c));
            var left := Eval(g, a) - Eval(g, b) - Eval(g, c);
            r.Ok? && r.cp == "" && (r.val == left <==> Eval(g, c) == 0)
  {
    ChainGroupsRight(g, a, Sub, b, Sub, c);
  }
}
