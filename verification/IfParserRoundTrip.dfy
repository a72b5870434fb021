/** Printing an expression tree and evaluating the text gives the value of the tree. */
module IfParserRoundTrip {
  import opened Options
  import opened IfParser
  import opened IfParserProofs

  datatype Radix = Decimal | Octal | Hexadecimal {
    function Base(): nat {
      match this
      case Decimal => 10
      case Octal => 8
      case Hexadecimal => 16
    }

    function Prefix(): string {
      match this
      case Decimal => ""
      case Octal => "0"
      case Hexadecimal => "0x"
    }
  }

  /** An expression as it stands in the text.  `ws` is the white space in front of the node's first
      own token, `gap` and `close` white space inside it; Group is a pair of parentheses. */
  datatype Expr =
    | Number(ws: string, radix: Radix, n: nat, qualifiers: string)
    | Variable(ws: string, name: string)
    | Character(ws: string, c: char)
    | Defined(ws: string, gap: string, parens: bool, name: string, close: string)
    | Assertion(ws: string, name: string, args: seq<string>)
    | Group(ws: string, e: Expr, close: string)
    | Not(ws: string, e: Expr)
    | Neg(ws: string, e: Expr)
    | Binary(l: Expr, ws: string, op: Op, r: Expr)

  predicate Blank(ws: string) {
    forall i :: 0 <= i < |ws| ==> IsSpace(ws[i])
  }

  predicate IsName(name: string) {
    name != "" && IsVarFirstLetter(name[0]) && forall i :: 0 <= i < |name| ==> IsVarLetter(name[i])
  }

  function DigitChar(d: nat): char
    requires d < 16
  {
    if d < 10 then '0' + d as char else 'a' + (d - 10) as char
  }

  function Digits(n: nat, base: nat): string
    requires 2 <= base <= 16
  {
    if n < base then [DigitChar(n)] else Digits(n / base, base) + [DigitChar(n % base)]
  }

  function PrintArguments(args: seq<string>): string
    requires args != []
  {
    if |args| == 1 then args[0] + ")" else args[0] + "," + PrintArguments(args[1..])
  }

  predicate WellFormed(e: Expr) {
    match e
    case Number(ws, _, _, q) => Blank(ws) && forall i :: 0 <= i < |q| ==> IsQualifier(q[i])
    case Variable(ws, name) => Blank(ws) && IsName(name) && !AtDefined(name)
    case Character(ws, c) => Blank(ws) && c != '\\' && c != '\'' && !IsSpace(c)
    case Defined(ws, gap, parens, name, close) =>
      && Blank(ws) && Blank(gap) && Blank(close) && IsName(name)
      && (!parens ==> close == "" && (gap != "" || name[0] == '_'))
    case Assertion(ws, name, args) =>
      Blank(ws) && IsName(name) && args != [] && forall i :: 0 <= i < |args| ==> IsName(args[i])
    case Group(ws, e, close) => Blank(ws) && Blank(close) && WellFormed(e)
    case Not(ws, e) => Blank(ws) && WellFormed(e)
    case Neg(ws, e) => Blank(ws) && WellFormed(e)
    case Binary(l, ws, op, r) => Blank(ws) && WellFormed(l) && WellFormed(r)
  }

  function Print(e: Expr): string
    requires WellFormed(e)
  {
    match e
    case Number(ws, radix, n, q) => ws + (radix.Prefix() + (Digits(n, radix.Base()) + q))
    case Variable(ws, name) => ws + name
    case Character(ws, c) => ws + ['\'', c, '\'']
    case Defined(ws, gap, parens, name, close) =>
      ws + ("defined" + (gap + (if parens then "(" + (name + (close + ")")) else name)))
    case Assertion(ws, name, args) => ws + ("#" + (name + ("(" + PrintArguments(args))))
    case Group(ws, e, close) => ws + ("(" + (Print(e) + (close + ")")))
    case Not(ws, e) => ws + ("!" + Print(e))
    case Neg(ws, e) => ws + ("-" + Print(e))
    case Binary(l, ws, op, r) => Print(l) + (ws + (Text(op) + Print(r)))
  }

  /** eval_variable returns on every variable of the tree.  Nothing is short-circuited, so each is
      asked. */
  predicate Returns(g: IfParser, e: Expr) {
    match e
    case Variable(_, name) => g.evalVariable(name).Some?
    case Group(_, e, _) => Returns(g, e)
    case Not(_, e) => Returns(g, e)
    case Neg(_, e) => Returns(g, e)
    case Binary(l, _, _, r) => Returns(g, l) && Returns(g, r)
    case _ => true
  }

  function Eval(g: IfParser, e: Expr): int
    requires Returns(g, e)
  {
    match e
    case Number(_, _, n, _) => n
    case Variable(_, name) => g.evalVariable(name).value
    case Character(_, c) => c as int
    case Defined(_, _, _, name, _) => Truth(g.evalDefined(name))
    case Assertion(_, _, _) => 1
    case Group(_, e, _) => Eval(g, e)
    case Not(_, e) => Truth(Eval(g, e) == 0)
    case Neg(_, e) => -Eval(g, e)
    case Binary(l, _, op, r) => Apply(g, op, Eval(g, l), Eval(g, r))
  }

  /** The tree may stand where level `k` is expected: C's precedence, every operator associating to
      the right. */
  predicate Fits(e: Expr, k: nat) {
    match e
    case Binary(l, _, op, r) => k <= Level(op) && Fits(l, Level(op) + 1) && Fits(r, Level(op))
    case Group(_, e, _) => Fits(e, 0)
    case Not(_, e) => Fits(e, 9)
    case Neg(_, e) => Fits(e, 9)
    case _ => true
  }

  /** What follows an expression of level `k` must not continue it. */
  predicate Stops(rest: string, k: nat) {
    && !IsVarLetter(Peek(rest, 0))
    && forall j {:trigger OperatorAt(j, SkipSpace(rest))} :: k <= j < 9 ==> OperatorAt(j, SkipSpace(rest)) == None
  }

  // ---- Tokens ---------------------------------------------------------------------------------

  lemma {:induction false} SkipBlank(ws: string, t: string)
    requires Blank(ws)
    ensures SkipSpace(ws + t) == SkipSpace(t)
  {
    if ws == "" {
      assert ws + t == t;
    } else {
      assert (ws + t)[1..] == ws[1..] + t;
      SkipBlank(ws[1..], t);
    }
  }

  lemma {:induction false} NameLengthOf(name: string, rest: string)
    requires forall i :: 0 <= i < |name| ==> IsVarLetter(name[i])
    requires !IsVarLetter(Peek(rest, 0))
    ensures NameLength(name + rest) == |name|
  {
    if name == "" {
      assert name + rest == rest;
    } else {
      assert (name + rest)[1..] == name[1..] + rest;
      NameLengthOf(name[1..], rest);
    }
  }

  lemma VariableOf(ws: string, name: string, rest: string)
    requires Blank(ws) && IsName(name) && !IsVarLetter(Peek(rest, 0))
    ensures ParseVariable(ws + (name + rest)) == GotName(rest, name)
  {
    SkipBlank(ws, name + rest);
    assert (name + rest)[1..] == name[1..] + rest;
    NameLengthOf(name[1..], rest);
    assert (name + rest)[..|name|] == name && (name + rest)[|name|..] == rest;
  }

  lemma ScanOne(d: nat, base: nat, acc: nat, rest: string)
    requires d < base <= 16
    ensures ScanDigits([DigitChar(d)] + rest, base, acc) == ScanDigits(rest, base, acc * base + d)
  {
    assert ([DigitChar(d)] + rest)[1..] == rest;
  }

  lemma DivMod(n: nat, base: nat)
    requires 2 <= base <= n
    ensures n / base < n && n / base * base + n % base == n
  {
  }

  lemma {:induction false} ScanDigitsOf(n: nat, base: nat, rest: string)
    requires 2 <= base <= 16
    ensures ScanDigits(Digits(n, base) + rest, base, 0) == ScanDigits(rest, base, n)
    decreases n
  {
    if n < base {
      ScanOne(n, base, 0, rest);
    } else {
      var a, d := n / base, n % base;
      DivMod(n, base);
      assert Digits(n, base) + rest == Digits(a, base) + ([DigitChar(d)] + rest);
      ScanDigitsOf(a, base, [DigitChar(d)] + rest);
      ScanOne(d, base, a, rest);
    }
  }

  lemma FirstDigit(n: nat, base: nat)
    requires 2 <= base <= 16 && n < base
    ensures Digits(n, base) == [DigitChar(n)] && DigitValue(DigitChar(n)) == n
    ensures base <= 10 ==> IsDigit(DigitChar(n))
    ensures DigitChar(n) == '0' <==> n == 0
  {
  }

  lemma QuotientPositive(n: nat, base: nat)
    requires 0 < base <= n
    ensures n / base > 0
  {
  }

  lemma {:induction false} DigitsFirst(n: nat, base: nat)
    requires base == 8 || base == 10 || base == 16
    ensures Digits(n, base) != "" && DigitValue(Digits(n, base)[0]) < base
    ensures base <= 10 ==> IsDigit(Digits(n, base)[0])
    ensures n > 0 ==> Digits(n, base)[0] != '0'
    ensures n == 0 ==> Digits(n, base) == "0"
    decreases n
  {
    if n < base {
      FirstDigit(n, base);
    } else {
      DivMod(n, base);
      assert n / base > 0 by { QuotientPositive(n, base); }
      DigitsFirst(n / base, base);
      hide DigitValue, IsDigit, DigitChar;
    }
  }

  lemma {:induction false} SkipQualifiersOf(q: string, rest: string)
    requires forall i :: 0 <= i < |q| ==> IsQualifier(q[i])
    requires !IsVarLetter(Peek(rest, 0))
    ensures SkipQualifiers(q + rest) == rest
  {
    if q == "" {
      assert q + rest == rest;
    } else {
      assert (q + rest)[1..] == q[1..] + rest;
      SkipQualifiersOf(q[1..], rest);
    }
  }

  /** strtol reads back the digits, in each radix. */
  lemma StrtolOf(radix: Radix, n: nat, t: string)
    requires t == "" || DigitValue(t[0]) >= 16
    requires Peek(t, 0) != 'x' && Peek(t, 0) != 'X'
    ensures Strtol(radix.Prefix() + (Digits(n, radix.Base()) + t)) == (t, n)
    ensures IsDigit(Peek(radix.Prefix() + (Digits(n, radix.Base()) + t), 0))
  {
    var ds := Digits(n, radix.Base()) + t;
    var s := radix.Prefix() + ds;
    ScanDigitsOf(n, radix.Base(), t);
    DigitsFirst(n, radix.Base());
    match radix
    case Decimal =>
      assert s == ds;
      if n == 0 { ScanOne(0, 8, 0, t); }
    case Octal =>
      assert s[1..] == ds;
      assert ScanDigits(s, 8, 0) == ScanDigits(ds, 8, 0);
    case Hexadecimal => assert s[2..] == ds;
  }

  lemma NumberOf(radix: Radix, n: nat, q: string, rest: string)
    requires forall i :: 0 <= i < |q| ==> IsQualifier(q[i])
    requires !IsVarLetter(Peek(rest, 0))
    ensures ParseNumber(radix.Prefix() + (Digits(n, radix.Base()) + (q + rest))) == Ok(rest, n)
    ensures IsDigit(Peek(radix.Prefix() + (Digits(n, radix.Base()) + (q + rest)), 0))
  {
    var t := q + rest;
    if q != "" { assert t[0] == q[0]; } else { assert t == rest; }
    StrtolOf(radix, n, t);
    SkipQualifiersOf(q, rest);
  }

  lemma {:induction false} ArgumentsOf(open: char, args: seq<string>, rest: string)
    requires args != [] && forall i :: 0 <= i < |args| ==> IsName(args[i])
    ensures ParseArguments([open] + (PrintArguments(args) + rest)) == Ok(rest, 1)
    decreases |args|
  {
    hide ParseVariable, IsName;
    var s := [open] + (PrintArguments(args) + rest);
    if |args| == 1 {
      assert s[1..] == "" + (args[0] + (")" + rest));
      VariableOf("", args[0], ")" + rest);
      assert (")" + rest)[1..] == rest;
    } else {
      var tail := [','] + (PrintArguments(args[1..]) + rest);
      assert s[1..] == "" + (args[0] + tail);
      VariableOf("", args[0], tail);
      ArgumentsOf(',', args[1..], rest);
    }
  }

  // ---- Operators ------------------------------------------------------------------------------

  /** No expression starts with a character that would extend an operator in front of it. */
  predicate StartsOperand(c: char) {
    c != '<' && c != '>' && c != '=' && c != '&' && c != '|'
  }

  lemma DigitsStartOperand(n: nat, base: nat)
    requires base == 8 || base == 10 || base == 16
    ensures Digits(n, base) != "" && StartsOperand(Digits(n, base)[0])
  {
    DigitsFirst(n, base);
  }

  lemma {:induction false} PrintStartsOperand(e: Expr)
    requires WellFormed(e)
    ensures Print(e) != "" && StartsOperand(Print(e)[0])
  {
    match e
    case Number(ws, radix, n, _) => DigitsStartOperand(n, radix.Base());
    case Binary(l, _, _, _) => PrintStartsOperand(l);
    case _ =>
  }

  lemma OperatorStops(op: Op, t: string, j: nat)
    requires t != "" && StartsOperand(t[0]) && j < 9
    ensures j == Level(op) ==> OperatorAt(j, Text(op) + t) == Some((op, |Text(op)|))
    ensures j > Level(op) ==> OperatorAt(j, Text(op) + t) == None
  {
  }

  /** In front of an operator, an expression of any tighter level ends. */
  lemma StopsAtOperator(ws: string, op: Op, t: string)
    requires Blank(ws) && t != "" && StartsOperand(t[0])
    ensures SkipSpace(ws + (Text(op) + t)) == Text(op) + t
    ensures Stops(ws + (Text(op) + t), Level(op) + 1)
  {
    var s := Text(op) + t;
    SkipBlank(ws, s);
    assert s[0] == Text(op)[0];
    assert !IsVarLetter(Peek(ws + s, 0)) by {
      if ws == "" { assert ws + s == s; } else { assert (ws + s)[0] == ws[0]; }
    }
    forall j | Level(op) < j < 9 ensures OperatorAt(j, SkipSpace(ws + s)) == None { OperatorStops(op, t, j); }
  }

  // ---- The round trip -------------------------------------------------------------------------

  /** The value of the tree, if evaluating it comes to an end. */
  function Value(g: IfParser, e: Expr): Option<int> {
    if Returns(g, e) then Some(Eval(g, e)) else None
  }

  lemma ValueOfBinary(g: IfParser, e: Expr)
    requires e.Binary?
    ensures Value(g, e) ==
            if Value(g, e.l).None? || Value(g, e.r).None? then None
            else Some(Apply(g, e.op, Value(g, e.l).value, Value(g, e.r).value))
  {
    hide Apply;
  }

  /** A parse that has read a value `v` and stands in front of the remainder, up to white space; or is
      lost, when the value never comes. */
  predicate Reaches(r: Parse, v: Option<int>, rest: string, k: nat) {
    if v.None? then r == Lost(Endless)
    else r.Ok? && r.val == v.value && SkipSpace(r.cp) == SkipSpace(rest) && (k < 9 ==> r.cp == SkipSpace(rest))
  }

  /** The parser for level `k`, on the printed tree, computes its value and stops in front of the
      remainder; or never returns, when eval_variable does not. */
  predicate Reads(g: IfParser, k: nat, e: Expr, rest: string)
    requires WellFormed(e)
  {
    Reaches(ParseLevel(g, k, Print(e) + rest), Value(g, e), rest, k)
  }

  lemma ValueSkipsBlank(g: IfParser, ws: string, s: string)
    requires Blank(ws)
    ensures ParseValue(g, ws + s) == ParseValue(g, s)
  {
    SkipBlank(ws, s);
  }

  /** At level 9 it is enough to read the tree without its leading white space. */
  lemma ReadsToken(g: IfParser, e: Expr, ws: string, s: string, rest: string)
    requires WellFormed(e) && Blank(ws) && Print(e) + rest == ws + s
    requires ParseValue(g, s) == Answer(rest, Value(g, e)) || ParseValue(g, s) == Answer(SkipSpace(rest), Value(g, e))
    ensures Reads(g, 9, e, rest)
  {
    hide ParseValue, ParseProduct, ParseSum, ParseShift, ParseInequality, ParseEquality, ParseBand, ParseBor, ParseLand;
    hide ParseLor;
    ValueSkipsBlank(g, ws, s);
    SkipSpaceStops(rest);
  }

  lemma DefinedLetters(s: string, k: nat)
    requires AtDefined(s) && k < 7
    ensures k < |s| && IsVarLetter(s[k])
  {
    assert s[k] == s[..7][k] == "defined"[k];
  }

  lemma NotDefined(name: string, rest: string)
    requires IsName(name) && !IsVarLetter(Peek(rest, 0))
    requires AtDefined(name + rest)
    ensures AtDefined(name)
  {
    var s := name + rest;
    if |name| < 7 {
      DefinedLetters(s, |name|);
      assert false;
    } else {
      assert name[..7] == s[..7] == "defined";
    }
  }

  lemma TokenVariable(g: IfParser, name: string, rest: string)
    requires IsName(name) && !AtDefined(name) && !IsVarLetter(Peek(rest, 0))
    ensures ParseValue(g, name + rest) == Answer(rest, g.evalVariable(name))
  {
    hide AtDefined, ParseVariable, ParseDefined, ParseNumber, ParseCharacter, ParseArguments, ParseLor;
    var s := name + rest;
    VariableOf("", name, rest);
    assert "" + s == s;
    assert s[0] == name[0];
    if AtDefined(s) { NotDefined(name, rest); }
  }

  lemma TokenNumber(g: IfParser, radix: Radix, n: nat, q: string, rest: string)
    requires forall i :: 0 <= i < |q| ==> IsQualifier(q[i])
    requires !IsVarLetter(Peek(rest, 0))
    ensures ParseValue(g, radix.Prefix() + (Digits(n, radix.Base()) + (q + rest))) == Ok(rest, n)
  {
    NumberOf(radix, n, q, rest);
  }

  lemma TokenCharacter(g: IfParser, c: char, rest: string)
    requires c != '\\' && c != '\'' && !IsSpace(c)
    ensures ParseValue(g, ['\'', c, '\''] + rest) == Ok(rest, c as int)
  {
    var s := ['\'', c, '\''] + rest;
    var u, v := s[1..], ['\''] + rest;
    assert s[0] == '\'' && u[0] == c && u[1..] == v && v[0] == '\'' && v[1..] == rest;
    assert SkipSpace(s) == s && SkipSpace(u) == u;
    assert FindQuote(u) == FindQuote(v) == v;
  }

  lemma TokenDefined(g: IfParser, gap: string, t: string)
    requires Blank(gap) && t != "" && (gap != "" || !IsAlnum(t[0])) && !IsSpace(t[0])
    ensures AtDefined("defined" + (gap + t))
    ensures SkipSpace(("defined" + (gap + t))[7..]) == t
    ensures ParseValue(g, "defined" + (gap + t)) == ParseDefined(g, "defined" + (gap + t))
  {
    var s := "defined" + (gap + t);
    assert s[7..] == gap + t;
    assert s[..7] == "defined";
    if gap != "" { assert s[7] == gap[0]; } else { assert s[7] == t[0]; }
    SkipBlank(gap, t);
  }

  lemma TokenDefinedName(g: IfParser, gap: string, name: string, rest: string)
    requires Blank(gap) && IsName(name) && (gap != "" || name[0] == '_') && !IsVarLetter(Peek(rest, 0))
    ensures ParseValue(g, "defined" + (gap + (name + rest))) == Ok(SkipSpace(rest), Truth(g.evalDefined(name)))
  {
    hide ParseVariable, SkipSpace;
    var t := name + rest;
    assert t[0] == name[0];
    TokenDefined(g, gap, t);
    assert t == "" + t;
    VariableOf("", name, rest);
  }

  lemma TokenDefinedParens(g: IfParser, gap: string, name: string, close: string, rest: string)
    requires Blank(gap) && IsName(name) && Blank(close)
    ensures ParseValue(g, "defined" + (gap + ("(" + (name + (close + (")" + rest)))))) ==
              Ok(rest, Truth(g.evalDefined(name)))
  {
    hide ParseVariable;
    var u := close + (")" + rest);
    var t := "(" + (name + u);
    TokenDefined(g, gap, t);
    assert t[1..] == "" + (name + u);
    if close != "" { assert u[0] == close[0]; }
    VariableOf("", name, u);
    SkipBlank(close, ")" + rest);
    assert (")" + rest)[1..] == rest;
  }

  lemma TokenAssertion(g: IfParser, name: string, t: string, rest: string)
    requires IsName(name) && Peek(t, 0) == '(' && ParseArguments(t) == Ok(rest, 1)
    ensures ParseValue(g, "#" + (name + t)) == Ok(rest, 1)
  {
    hide ParseVariable, ParseArguments;
    var s := "#" + (name + t);
    assert s[0] == '#' && s[1..] == "" + (name + t);
    VariableOf("", name, t);
  }

  lemma TokenGroup(g: IfParser, p: string, close: string, rest: string, v: Option<int>)
    requires Blank(close) && ParseLor(g, p + (close + (")" + rest))) == Answer(SkipSpace(close + (")" + rest)), v)
    ensures ParseValue(g, "(" + (p + (close + (")" + rest)))) == Answer(rest, v)
  {
    var t := p + (close + (")" + rest));
    assert ("(" + t)[1..] == t;
    SkipBlank(close, ")" + rest);
    assert (")" + rest)[1..] == rest;
  }

  lemma ReadsNumber(g: IfParser, e: Expr, rest: string)
    requires WellFormed(e) && !IsVarLetter(Peek(rest, 0)) && e.Number?
    ensures Reads(g, 9, e, rest)
  {
    hide ParseValue, ParseProduct, ParseSum, ParseShift, ParseInequality, ParseEquality, ParseBand, ParseBor, ParseLand;
    hide ParseLor;
    var s := e.radix.Prefix() + (Digits(e.n, e.radix.Base()) + (e.qualifiers + rest));
    TokenNumber(g, e.radix, e.n, e.qualifiers, rest);
    assert Print(e) + rest == e.ws + s;
    ReadsToken(g, e, e.ws, s, rest);
  }

  lemma ReadsName(g: IfParser, e: Expr, rest: string)
    requires WellFormed(e) && !IsVarLetter(Peek(rest, 0)) && (e.Variable? || e.Character?)
    ensures Reads(g, 9, e, rest)
  {
    hide ParseValue, ParseProduct, ParseSum, ParseShift, ParseInequality, ParseEquality, ParseBand, ParseBor, ParseLand;
    hide ParseLor;
    var s := (if e.Variable? then e.name else ['\'', e.c, '\'']) + rest;
    if e.Variable? { TokenVariable(g, e.name, rest); } else { TokenCharacter(g, e.c, rest); }
    assert Print(e) + rest == e.ws + s;
    ReadsToken(g, e, e.ws, s, rest);
  }

  lemma ReadsDefinedParens(g: IfParser, e: Expr, rest: string)
    requires WellFormed(e) && e.Defined? && e.parens
    ensures Reads(g, 9, e, rest)
  {
    hide ParseValue, ParseProduct, ParseSum, ParseShift, ParseInequality, ParseEquality, ParseBand, ParseBor, ParseLand;
    hide ParseLor;
    var t := "(" + (e.name + (e.close + (")" + rest)));
    TokenDefinedParens(g, e.gap, e.name, e.close, rest);
    assert "(" + (e.name + (e.close + ")")) + rest == t;
    assert Print(e) + rest == e.ws + ("defined" + (e.gap + t));
    ReadsToken(g, e, e.ws, "defined" + (e.gap + t), rest);
  }

  lemma ReadsDefinedName(g: IfParser, e: Expr, rest: string)
    requires WellFormed(e) && !IsVarLetter(Peek(rest, 0)) && e.Defined? && !e.parens
    ensures Reads(g, 9, e, rest)
  {
    hide ParseValue, ParseProduct, ParseSum, ParseShift, ParseInequality, ParseEquality, ParseBand, ParseBor, ParseLand;
    hide ParseLor;
    var s := "defined" + (e.gap + (e.name + rest));
    TokenDefinedName(g, e.gap, e.name, rest);
    assert Print(e) + rest == e.ws + s;
    ReadsToken(g, e, e.ws, s, rest);
  }

  lemma AssertionText(e: Expr, rest: string)
    requires WellFormed(e) && e.Assertion?
    ensures Print(e) + rest == e.ws + ("#" + (e.name + (['('] + (PrintArguments(e.args) + rest))))
  {
    hide PrintArguments, IsName;
  }

  lemma ReadsAssertion(g: IfParser, e: Expr, rest: string)
    requires WellFormed(e) && e.Assertion?
    ensures Reads(g, 9, e, rest)
  {
    assert Eval(g, e) == 1;
    assert Blank(e.ws) && IsName(e.name) && e.args != [] && forall i :: 0 <= i < |e.args| ==> IsName(e.args[i]);
    var t := ['('] + (PrintArguments(e.args) + rest);
    assert Peek(t, 0) == '(';
    hide *;
    ArgumentsOf('(', e.args, rest);
    TokenAssertion(g, e.name, t, rest);
    AssertionText(e, rest);
    ReadsToken(g, e, e.ws, "#" + (e.name + t), rest);
  }

  lemma GroupText(e: Expr, rest: string)
    requires WellFormed(e) && e.Group?
    ensures Print(e) + rest == e.ws + ("(" + (Print(e.e) + (e.close + (")" + rest))))
  {
    assert Print(e) == e.ws + ("(" + (Print(e.e) + (e.close + ")")));
    hide Print;
  }

  lemma ReadsGroup(g: IfParser, e: Expr, rest: string)
    requires WellFormed(e) && e.Group?
    requires Reads(g, 0, e.e, e.close + (")" + rest))
    ensures Reads(g, 9, e, rest)
  {
    assert Value(g, e) == Value(g, e.e) && WellFormed(e.e) && Blank(e.ws) && Blank(e.close);
    var inner := Print(e.e) + (e.close + (")" + rest));
    assert ParseLevel(g, 0, inner) == ParseLor(g, inner);
    hide ParseLevel, ParseLor, ParseValue, Value, Print, SkipSpace;
    GroupText(e, rest);
    TokenGroup(g, Print(e.e), e.close, rest, Value(g, e.e));
    hide Reads;
    ReadsToken(g, e, e.ws, "(" + (Print(e.e) + (e.close + (")" + rest))), rest);
  }

  lemma TokenPrefix(g: IfParser, c: char, s: string)
    requires c == '!' || c == '-'
    ensures var r := ParseValue(g, s);
            ParseValue(g, [c] + s) == if r.Ok? then Ok(r.cp, if c == '!' then Truth(r.val == 0) else -r.val) else r
  {
    assert ([c] + s)[1..] == s;
  }

  lemma PrefixText(e: Expr, c: char, rest: string)
    requires WellFormed(e) && (e.Not? || e.Neg?) && c == if e.Not? then '!' else '-'
    ensures Print(e) + rest == e.ws + ([c] + (Print(e.e) + rest))
  {
    assert Print(e) == e.ws + ([c] + Print(e.e));
    hide Print;
  }

  lemma PrefixValue(g: IfParser, e: Expr)
    requires e.Not? || e.Neg?
    ensures Value(g, e) ==
            match Value(g, e.e)
            case None => None
            case Some(v) => Some(if e.Not? then Truth(v == 0) else -v)
  {
  }

  lemma ReadsIs(g: IfParser, e: Expr, rest: string)
    requires WellFormed(e)
    ensures Reads(g, 9, e, rest) <==> Reaches(ParseValue(g, Print(e) + rest), Value(g, e), rest, 9)
  {
    hide ParseValue, Print, Value, Reaches;
  }

  lemma ReadsPrefix(g: IfParser, e: Expr, rest: string)
    requires WellFormed(e) && (e.Not? || e.Neg?)
    requires Reads(g, 9, e.e, rest)
    ensures Reads(g, 9, e, rest)
  {
    var c := if e.Not? then '!' else '-';
    var t := Print(e.e) + rest;
    assert WellFormed(e.e) && Blank(e.ws);
    hide *;
    ReadsIs(g, e.e, rest);
    ReadsIs(g, e, rest);
    PrefixValue(g, e);
    PrefixText(e, c, rest);
    TokenPrefix(g, c, t);
    ValueSkipsBlank(g, e.ws, [c] + t);
    ReachesPrefix(e.Not?, ParseValue(g, t), Value(g, e.e), rest);
  }

  lemma ReachesPrefix(not: bool, r: Parse, v: Option<int>, rest: string)
    requires Reaches(r, v, rest, 9)
    ensures Reaches(if r.Ok? then Ok(r.cp, if not then Truth(r.val == 0) else -r.val) else r,
                    if v.None? then None else Some(if not then Truth(v.value == 0) else -v.value), rest, 9)
  {
    hide SkipSpace, Truth;
  }

  lemma BinaryText(e: Expr, rest: string)
    requires WellFormed(e) && e.Binary?
    ensures Print(e) + rest == Print(e.l) + (e.ws + (Text(e.op) + (Print(e.r) + rest)))
  {
    hide Text;
    assert Print(e) == Print(e.l) + (e.ws + (Text(e.op) + Print(e.r)));
    hide Print;
  }

  /** An operator and its right operand, behind the left one. */
  lemma AtOperator(e: Expr, rest: string)
    requires WellFormed(e) && e.Binary? && Print(e.r) != "" && StartsOperand(Print(e.r)[0])
    ensures var t := Print(e.r) + rest;
            && SkipSpace(e.ws + (Text(e.op) + t)) == Text(e.op) + t
            && OperatorAt(Level(e.op), Text(e.op) + t) == Some((e.op, |Text(e.op)|))
            && (Text(e.op) + t)[|Text(e.op)|..] == t
  {
    hide Print;
    var t := Print(e.r) + rest;
    assert t[0] == Print(e.r)[0];
    StopsAtOperator(e.ws, e.op, t);
    OperatorStops(e.op, t, Level(e.op));
  }

  lemma ReadsBinary(g: IfParser, e: Expr, rest: string)
    requires WellFormed(e) && e.Binary?
    requires Reads(g, Level(e.op) + 1, e.l, e.ws + (Text(e.op) + (Print(e.r) + rest)))
    requires Reads(g, Level(e.op), e.r, rest)
    requires Print(e.r) != "" && StartsOperand(Print(e.r)[0])
    ensures Reads(g, Level(e.op), e, rest)
  {
    assert Level(e.op) < 9 && WellFormed(e.l) && WellFormed(e.r);
    var k, t := Level(e.op), Print(e.r) + rest;
    var s := Text(e.op) + t;
    var left, right := ParseLevel(g, k + 1, Print(e.l) + (e.ws + s)), ParseLevel(g, k, t);
    assert Reaches(left, Value(g, e.l), e.ws + s, k + 1) && Reaches(right, Value(g, e.r), rest, k);
    assert Reads(g, k, e, rest) <==> Reaches(ParseLevel(g, k, Print(e) + rest), Value(g, e), rest, k);
    hide *;
    ValueOfBinary(g, e);
    BinaryText(e, rest);
    Unfold(g, k, Print(e) + rest);
    AtOperator(e, rest);
    ReachesBinary(g, e.op, left, right, Value(g, e.l), Value(g, e.r), e.ws + s, rest, k);
  }

  /** Reading the left operand and then the right one is reading their combination. */
  lemma ReachesBinary(g: IfParser, op: Op, left: Parse, right: Parse, v: Option<int>, w: Option<int>,
                      s: string, rest: string, k: nat)
    requires k < 9 && Reaches(left, v, s, k + 1) && Reaches(right, w, rest, k)
    ensures left.Ok? ==> SkipSpace(left.cp) == SkipSpace(s)
    ensures Reaches(if left.Ok? then Combine(g, op, left.val, right) else left,
                    if v.None? || w.None? then None else Some(Apply(g, op, v.value, w.value)), rest, k)
  {
    hide SkipSpace, Apply;
  }

  lemma ReadsLoose(g: IfParser, k: nat, e: Expr, rest: string)
    requires k < 9 && WellFormed(e) && Stops(rest, k)
    requires Reads(g, k + 1, e, rest)
    ensures Reads(g, k, e, rest)
  {
    hide ParseValue, ParseProduct, ParseSum, ParseShift, ParseInequality, ParseEquality, ParseBand, ParseBor, ParseLand;
    hide ParseLor;
    Unfold(g, k, Print(e) + rest);
    SkipSpaceStops(rest);
    assert OperatorAt(k, SkipSpace(rest)) == None;
  }

  /** The general round trip.  For every tree that fits level `k`, with any white space and any
      redundant parentheses, followed by any text that does not continue an expression of level
      `k`, the function for level `k` consumes exactly the tree and returns its value; or never
      returns, exactly when there is a variable in the tree on which eval_variable does not. */
  lemma {:induction false} RoundTrip(g: IfParser, k: nat, e: Expr, rest: string)
    requires k <= 9 && WellFormed(e) && Fits(e, k) && Stops(rest, k)
    ensures Reads(g, k, e, rest)
    decreases e, 9 - k
  {
    hide ParseValue, ParseProduct, ParseSum, ParseShift, ParseInequality, ParseEquality, ParseBand, ParseBor, ParseLand;
    hide ParseLor;
    if e.Binary? && Level(e.op) == k {
      PrintStartsOperand(e.r);
      var t := Print(e.r) + rest;
      assert t[0] == Print(e.r)[0];
      StopsAtOperator(e.ws, e.op, t);
      RoundTrip(g, k + 1, e.l, e.ws + (Text(e.op) + t));
      RoundTrip(g, k, e.r, rest);
      ReadsBinary(g, e, rest);
    } else if k < 9 {
      RoundTrip(g, k + 1, e, rest);
      ReadsLoose(g, k, e, rest);
    } else {
      match e
      case Group(_, inner, close) =>
        StopsAtParen(close, rest);
        RoundTrip(g, 0, inner, close + (")" + rest));
        ReadsGroup(g, e, rest);
      case Not(_, inner) =>
        RoundTrip(g, 9, inner, rest);
        ReadsPrefix(g, e, rest);
      case Neg(_, inner) =>
        RoundTrip(g, 9, inner, rest);
        ReadsPrefix(g, e, rest);
      case Number(_, _, _, _) => ReadsNumber(g, e, rest);
      case Variable(_, _) => ReadsName(g, e, rest);
      case Character(_, _) => ReadsName(g, e, rest);
      case Defined(_, _, parens, _, _) =>
        if parens { ReadsDefinedParens(g, e, rest); } else { ReadsDefinedName(g, e, rest); }
      case Assertion(_, _, _) => ReadsAssertion(g, e, rest);
      case Binary(_, _, _, _) =>
    }
  }

  lemma StopsAtParen(close: string, rest: string)
    requires Blank(close)
    ensures Stops(close + (")" + rest), 0)
  {
    var s := ")" + rest;
    SkipBlank(close, s);
    assert s[0] == ')' && SkipSpace(s) == s;
    forall j: nat | j < 9 ensures OperatorAt(j, s) == None {
      assert Peek(s, 0) == ')';
    }
    if close == "" { assert close + s == s; } else { assert (close + s)[0] == close[0]; }
  }

  // ---- Consequences ---------------------------------------------------------------------------

  /** Parentheses put exactly where precedence and right associativity need them. */
  function Parenthesize(e: Expr, k: nat): Expr {
    match e
    case Binary(l, ws, op, r) =>
      var b := Binary(Parenthesize(l, Level(op) + 1), ws, op, Parenthesize(r, Level(op)));
      if k <= Level(op) then b else Group("", b, "")
    case Group(ws, e, close) => Group(ws, Parenthesize(e, 0), close)
    case Not(ws, e) => Not(ws, Parenthesize(e, 9))
    case Neg(ws, e) => Neg(ws, Parenthesize(e, 9))
    case _ => e
  }

  lemma {:induction false} ParenthesizeFits(e: Expr, k: nat)
    requires WellFormed(e)
    ensures WellFormed(Parenthesize(e, k)) && Fits(Parenthesize(e, k), k)
    ensures Fits(e, k) <==> Parenthesize(e, k) == e
  {
    hide IsName, AtDefined, IsQualifier, IsSpace, Level;
    match e
    case Binary(l, _, op, r) =>
      ParenthesizeFits(l, Level(op) + 1);
      ParenthesizeFits(r, Level(op));
      hide *;
      BinaryFits(e, k);
    case Group(_, inner, _) =>
      ParenthesizeFits(inner, 0);
      hide *;
      InnerFits(e, inner, k);
    case Not(_, inner) =>
      ParenthesizeFits(inner, 9);
      hide *;
      InnerFits(e, inner, k);
    case Neg(_, inner) =>
      ParenthesizeFits(inner, 9);
      hide *;
      InnerFits(e, inner, k);
    case _ =>
  }

  lemma InnerFits(e: Expr, inner: Expr, k: nat)
    requires WellFormed(e) && (e.Group? || e.Not? || e.Neg?) && inner == e.e
    requires var j := if e.Group? then 0 else 9;
             && WellFormed(Parenthesize(inner, j)) && Fits(Parenthesize(inner, j), j)
             && (Fits(inner, j) <==> Parenthesize(inner, j) == inner)
    ensures WellFormed(Parenthesize(e, k)) && Fits(Parenthesize(e, k), k)
    ensures Fits(e, k) <==> Parenthesize(e, k) == e
  {
    hide IsName, AtDefined, IsQualifier, IsSpace, Level;
  }

  lemma BinaryFits(e: Expr, k: nat)
    requires e.Binary? && WellFormed(e)
    requires var l, r := Parenthesize(e.l, Level(e.op) + 1), Parenthesize(e.r, Level(e.op));
             WellFormed(l) && WellFormed(r) && Fits(l, Level(e.op) + 1) && Fits(r, Level(e.op)) &&
             (Fits(e.l, Level(e.op) + 1) <==> l == e.l) && (Fits(e.r, Level(e.op)) <==> r == e.r)
    ensures WellFormed(Parenthesize(e, k)) && Fits(Parenthesize(e, k), k)
    ensures Fits(e, k) <==> Parenthesize(e, k) == e
  {
    hide IsName, AtDefined, IsQualifier, IsSpace, Level;
    var b := Binary(Parenthesize(e.l, Level(e.op) + 1), e.ws, e.op, Parenthesize(e.r, Level(e.op)));
    assert WellFormed(b) && Fits(b, Level(e.op));
    if k > Level(e.op) {
      assert Parenthesize(e, k) == Group("", b, "");
    } else {
      assert Parenthesize(e, k) == b;
    }
  }

  lemma {:induction false} ParenthesizeKeepsValue(g: IfParser, e: Expr, k: nat)
    ensures Value(g, Parenthesize(e, k)) == Value(g, e)
  {
    hide Level, Apply, Truth;
    match e
    case Binary(l, ws, op, r) =>
      ParenthesizeKeepsValue(g, l, Level(op) + 1);
      ParenthesizeKeepsValue(g, r, Level(op));
      var b := Binary(Parenthesize(l, Level(op) + 1), ws, op, Parenthesize(r, Level(op)));
      ValueOfBinary(g, e);
      ValueOfBinary(g, b);
      assert Value(g, Group("", b, "")) == Value(g, b);
    case Group(_, e, _) => ParenthesizeKeepsValue(g, e, 0);
    case Not(_, e) => ParenthesizeKeepsValue(g, e, 9);
    case Neg(_, e) => ParenthesizeKeepsValue(g, e, 9);
    case _ =>
  }

  /** For every expression tree at all, printed with the parentheses it needs and no others, the
      evaluator consumes the whole text and returns the value of the tree; if it has one. */
  lemma EvaluatesEveryTree(g: IfParser, e: Expr)
    requires WellFormed(e)
    ensures WellFormed(Parenthesize(e, 0))
    ensures ParseIfExpression(g, Print(Parenthesize(e, 0))) == Answer("", Value(g, e))
  {
    var p := Parenthesize(e, 0);
    ParenthesizeFits(e, 0);
    ParenthesizeKeepsValue(g, e, 0);
    forall j: nat | j < 9 ensures OperatorAt(j, SkipSpace("")) == None { assert Peek("", 0) == '\0'; }
    RoundTrip(g, 0, p, "");
    assert Print(p) + "" == Print(p);
  }

  lemma ReadsFitting(g: IfParser, e: Expr)
    requires WellFormed(e) && Fits(e, 0)
    ensures ParseIfExpression(g, Print(e)) == Answer("", Value(g, e))
  {
    ParenthesizeFits(e, 0);
    EvaluatesEveryTree(g, e);
  }

  /** The names that the tree has variables of. */
  function Variables(e: Expr): set<string> {
    match e
    case Variable(_, name) => {name}
    case Group(_, e, _) => Variables(e)
    case Not(_, e) => Variables(e)
    case Neg(_, e) => Variables(e)
    case Binary(l, _, _, r) => Variables(l) + Variables(r)
    case _ => {}
  }

  /** A tree has a value exactly when each of its variables has one, whatever the operators. */
  lemma {:induction false} ReturnsExactly(g: IfParser, e: Expr)
    ensures Returns(g, e) <==> forall x :: x in Variables(e) ==> g.evalVariable(x).Some?
  {
    match e
    case Group(_, e, _) => ReturnsExactly(g, e);
    case Not(_, e) => ReturnsExactly(g, e);
    case Neg(_, e) => ReturnsExactly(g, e);
    case Binary(l, _, _, r) =>
      ReturnsExactly(g, l);
      ReturnsExactly(g, r);
    case _ =>
  }

  /** A name is read as a variable exactly when it does not look like the operator `defined`, which
      every name starting with `defined_` does. */
  lemma VariablesReadExactly(name: string)
    requires IsName(name)
    ensures (forall g: IfParser :: ParseIfExpression(g, name) == Answer("", g.evalVariable(name))) <==> !AtDefined(name)
  {
    if AtDefined(name) {
      var g := IfParser((_: string) => Some(2), (_: string) => true, (_: string) => 0, (_: Op, _: int, _: int) => 0);
      ReadAsDefined(g, name);
    } else {
      forall g: IfParser ensures ParseIfExpression(g, name) == Answer("", g.evalVariable(name)) {
        ReadAsVariable(g, name);
      }
    }
  }

  lemma ReadAsVariable(g: IfParser, name: string)
    requires IsName(name) && !AtDefined(name)
    ensures ParseIfExpression(g, name) == Answer("", g.evalVariable(name))
  {
    var e := Variable("", name);
    ParenthesizeFits(e, 0);
    EvaluatesEveryTree(g, e);
    assert Print(e) == "" + name == name;
  }

  lemma ReadAsDefined(g: IfParser, name: string)
    requires IsName(name) && AtDefined(name)
    ensures var r := ParseIfExpression(g, name);
            if |name| == 7 then r.Fail? else r == Ok("", Truth(g.evalDefined(name[7..])))
  {
    hide ParseIfExpression, ParseLor, ParseLevel;
    if |name| == 7 {
      DefinedAlone(g, name);
    } else {
      var x := name[7..];
      assert x[0] == name[7] && x[0] == '_';
      assert forall i :: 0 <= i < |x| ==> x[i] == name[i + 7];
      assert name == name[..7] + x == "defined" + x;
      DefinedJoined(g, x);
    }
  }

  lemma DefinedAlone(g: IfParser, name: string)
    requires AtDefined(name) && |name| == 7
    ensures ParseIfExpression(g, name).Fail?
  {
    assert name[7..] == "";
    assert ParseValue(g, name).Fail? by { hide ParseLor; }
    hide ParseValue;
    FailsThrough(g, 0, name);
  }

  lemma DefinedJoined(g: IfParser, x: string)
    requires IsName(x) && x[0] == '_'
    ensures ParseIfExpression(g, "defined" + x) == Ok("", Truth(g.evalDefined(x)))
  {
    var e := Defined("", "", false, x, "");
    assert WellFormed(e) && Parenthesize(e, 0) == e && Value(g, e) == Some(Truth(g.evalDefined(x)));
    assert Print(e) == "" + ("defined" + ("" + x)) == "defined" + x;
    hide ParseIfExpression, Value, Print;
    EvaluatesEveryTree(g, e);
  }
}
