/** cppsetup.c: how the #if evaluator looks symbols up. */
module Cppsetup {
  import opened Options
  import opened SymbolTable
  import opened IfParser
  import P = IfParserProofs
  import R = IfParserRoundTrip

  /** The definitions that isdefined can see. */
  type Env = map<CString, CString>

  const MAXNAMELEN := 256

  function LookupVariable(env: Env, name: CString): Option<CString> {
    if |name| > MAXNAMELEN || name !in env then None else Some(env[name])
  }

  /** Where the evaluation of a symbol goes next after reaching the text `v`. */
  function Next(env: Env, v: CString): Option<CString> {
    if v == "" || !IsVarFirstLetter(v[0]) then None else LookupVariable(env, v)
  }

  /** The text reached after `n` steps. */
  ghost function Iterate(env: Env, v: CString, n: nat): Option<CString>
    decreases n
  {
    if n == 0 then Some(v)
    else
      match Next(env, v)
      case None => None
      case Some(w) => Iterate(env, w, n - 1)
  }

  /** The text at the end of the chain, when `seen` has been passed on the way; None for a chain that
      comes back to a symbol. */
  ghost function ChainEnd(env: Env, v: CString, seen: set<CString>): Option<CString>
    decreases env.Keys - seen
  {
    match Next(env, v)
    case None => Some(v)
    case Some(w) => if v in seen then None else ChainEnd(env, w, seen + {v})
  }

  lemma {:induction false} IterateAdds(env: Env, v: CString, m: nat, n: nat)
    ensures var a := Iterate(env, v, m);
            Iterate(env, v, m + n) == if a.None? then None else Iterate(env, a.value, n)
    decreases m
  {
    if m > 0 && Next(env, v).Some? { IterateAdds(env, Next(env, v).value, m - 1, n); }
  }

  /** A chain that comes back goes on for ever. */
  lemma {:induction false} Periodic(env: Env, v: CString, i: nat, k: nat, n: nat)
    requires i < k && Iterate(env, v, k).Some? && Iterate(env, v, i) == Iterate(env, v, k)
    ensures Iterate(env, v, n).Some?
    decreases n
  {
    if n <= k {
      IterateAdds(env, v, n, k - n);
    } else {
      IterateAdds(env, v, k, n - k);
      IterateAdds(env, v, i, n - k);
      Periodic(env, v, i, k, i + (n - k));
    }
  }

  ghost predicate PassedBefore(env: Env, v0: CString, k: nat, seen: set<CString>) {
    forall s :: s in seen ==> exists i :: 0 <= i < k && Iterate(env, v0, i) == Some(s)
  }

  lemma {:induction false} ChainEndFrom(env: Env, v0: CString, k: nat, v: CString, seen: set<CString>)
    requires Iterate(env, v0, k) == Some(v) && PassedBefore(env, v0, k, seen)
    ensures var e := ChainEnd(env, v, seen);
            if e.Some? then exists n: nat :: n >= k && Iterate(env, v0, n) == e && Iterate(env, v0, n + 1) == None
            else forall n: nat :: Iterate(env, v0, n).Some?
    decreases env.Keys - seen
  {
    IterateAdds(env, v0, k, 1);
    match Next(env, v)
    case None =>
    case Some(w) =>
      assert Iterate(env, w, 0) == Some(w);
      if v in seen {
        var i :| 0 <= i < k && Iterate(env, v0, i) == Some(v);
        forall n: nat ensures Iterate(env, v0, n).Some? { Periodic(env, v0, i, k, n); }
      } else {
        forall s | s in seen + {v} ensures exists i :: 0 <= i < k + 1 && Iterate(env, v0, i) == Some(s) {
          if s in seen { var i :| 0 <= i < k && Iterate(env, v0, i) == Some(s); }
        }
        ChainEndFrom(env, v0, k + 1, w, seen + {v});
      }
  }

  /** Following definitions from `v` ends exactly when ChainEnd gives a text, and that is the text it
      ends with; otherwise it never ends. */
  lemma ChainsEndExactly(env: Env, v: CString)
    ensures var e := ChainEnd(env, v, {});
            && (e.Some? <==> exists n: nat :: Iterate(env, v, n) == None)
            && (e.Some? ==> exists n: nat :: Iterate(env, v, n) == e && Iterate(env, v, n + 1) == None)
  {
    ChainEndFrom(env, v, 0, v, {});
  }

  /** atoi. */
  function Atoi(s: string): int {
    var t := SkipSpace(s);
    if t != "" && t[0] == '-' then -(ScanDigits(t[1..], 10, 0).1 as int)
    else if t != "" && t[0] == '+' then ScanDigits(t[1..], 10, 0).1
    else ScanDigits(t, 10, 0).1
  }

  /** What a symbol stands for: 0 if it is unknown, else the number at the end of its chain of
      definitions; None if the chain comes back, on which C loops for ever. */
  ghost function SymbolValue(env: Env, name: CString): Option<int> {
    if LookupVariable(env, name).None? then Some(0)
    else
      match ChainEnd(env, name, {})
      case None => None
      case Some(text) => Some(Atoi(text))
  }

  /** _my_eval_variable.  Where C starts to go round, the loop here stops. */
  method EvalVariable(env: Env, name: CString) returns (r: Option<int>)
    requires IsVarFirstLetter(Peek(name, 0))
    ensures r == SymbolValue(env, name)
  {
    var s := LookupVariable(env, name);
    if s.None? {
      return Some(0);
    }
    var text := name;
    var seen := {};
    while s.Some?
      invariant s == Next(env, text)
      invariant ChainEnd(env, text, seen) == ChainEnd(env, name, {})
      decreases env.Keys - seen
    {
      if text in seen {
        return None;
      }
      seen := seen + {text};
      text := s.value;
      if text == "" || !IsVarFirstLetter(text[0]) {
        s := None;
        break;
      }
      s := LookupVariable(env, text);
    }
    r := Some(Atoi(text));
  }

  /** The callbacks cppsetup installs. */
  ghost function Parser(env: Env, escape: string -> int, undefined: (Op, int, int) -> int): IfParser {
    IfParser(
      (name: string) => if IsCString(name) then SymbolValue(env, name) else Some(0),
      (name: string) => IsCString(name) && LookupVariable(env, name).Some?,
      escape, undefined)
  }

  predicate IsCString(s: string) {
    forall i :: 0 <= i < |s| ==> s[i] != '\0'
  }

  /** Is `#if line` true?  A line that does not parse keeps the value stored so far. */
  ghost function Condition(g: IfParser, line: CString): Verdict {
    match ParseIfExpression(g, line)
    case Ok(_, val) => Decided(val != 0)
    case Fail(_, _, val) => Decided(val != 0)
    case Lost(loss) => Undecided(loss)
  }

  /** What the condition is for a tree: C's, that its value is not 0, if it has a value. */
  function TreeVerdict(g: IfParser, e: R.Expr): Verdict {
    if R.Returns(g, e) then Decided(R.Eval(g, e) != 0) else Undecided(Endless)
  }

  lemma ConditionOfTree(g: IfParser, e: R.Expr)
    requires R.WellFormed(e)
    ensures R.WellFormed(R.Parenthesize(e, 0))
    ensures var text := R.Print(R.Parenthesize(e, 0));
            IsCString(text) ==> Condition(g, text) == TreeVerdict(g, e)
  {
    R.EvaluatesEveryTree(g, e);
    assert R.Value(g, e) == if R.Returns(g, e) then Some(R.Eval(g, e)) else None;
    hide R.Eval, R.Returns, R.Print, R.Parenthesize, ParseIfExpression;
  }

  /** A line that does not parse is judged by the value stored so far: here the closing parenthesis is
      missing. */
  lemma UnclosedIsJudged(g: IfParser, e: R.Expr)
    requires R.WellFormed(e) && R.Fits(e, 0) && R.Returns(g, e) && IsCString(R.Print(e))
    ensures var text := "(" + R.Print(e);
            ParseIfExpression(g, text).Fail? && Condition(g, text) == Decided(R.Eval(g, e) != 0)
  {
    var text := "(" + R.Print(e);
    assert R.Value(g, e) == Some(R.Eval(g, e));
    assert text[1..] == R.Print(e);
    hide R.Print, R.Eval, R.Returns, R.Value, ParseLor, ParseIfExpression;
    R.ReadsFitting(g, e);
    assert ParseValue(g, text) == Fail("", ")", R.Eval(g, e));
    hide ParseValue;
    P.FailsThrough(g, 0, text);
    LevelZero(g, text);
  }

  lemma LevelZero(g: IfParser, text: string)
    ensures ParseIfExpression(g, text) == P.ParseLevel(g, 0, text)
  {
    hide ParseLor;
  }

  lemma {:induction false} VariablesAreNames(e: R.Expr, x: string)
    requires R.WellFormed(e) && x in R.Variables(e)
    ensures R.IsName(x) && IsCString(x)
  {
    match e
    case Group(_, e, _) => VariablesAreNames(e, x);
    case Not(_, e) => VariablesAreNames(e, x);
    case Neg(_, e) => VariablesAreNames(e, x);
    case Binary(l, _, _, r) => if x in R.Variables(l) { VariablesAreNames(l, x); } else { VariablesAreNames(r, x); }
    case _ =>
  }

  /** The condition of a tree is decided if and only if the chain of definitions of each of its
      variables ends, an unknown one's at itself: nothing is short-circuited. */
  lemma DecidedExactly(env: Env, escape: string -> int, undefined: (Op, int, int) -> int, e: R.Expr)
    requires R.WellFormed(e)
    ensures TreeVerdict(Parser(env, escape, undefined), e).Decided? <==>
            forall x: CString :: x in R.Variables(e) ==> ChainEnd(env, x, {}).Some?
  {
    var g := Parser(env, escape, undefined);
    R.ReturnsExactly(g, e);
    forall x | x in R.Variables(e) ensures IsCString(x) && (g.evalVariable(x).Some? <==> ChainEnd(env, x, {}).Some?) {
      VariablesAreNames(e, x);
    }
  }

  /** A symbol defined as itself, as in #define A A, is never decided. */
  lemma SelfDefinitionIsEndless(env: Env, escape: string -> int, undefined: (Op, int, int) -> int, name: CString)
    requires R.IsName(name) && !AtDefined(name) && |name| <= MAXNAMELEN && name in env && env[name] == name
    ensures Condition(Parser(env, escape, undefined), name) == Undecided(Endless)
  {
    R.ReadAsVariable(Parser(env, escape, undefined), name);
    assert Next(env, name) == Some(name);
    assert ChainEnd(env, name, {}) == ChainEnd(env, name, {name}) == None;
    hide ParseIfExpression;
  }

  // ---- What the texts mean ----------------------------------------------------------------------

  /** A C identifier. */
  predicate IsIdentifier(name: string) {
    && name != "" && !('0' <= name[0] <= '9')
    && forall i :: 0 <= i < |name| ==>
         'a' <= name[i] <= 'z' || 'A' <= name[i] <= 'Z' || '0' <= name[i] <= '9' || name[i] == '_'
  }

  predicate Blanks(ws: string) { forall i :: 0 <= i < |ws| ==> ws[i] == ' ' || ws[i] == '\t' }

  function Signed(sign: string, n: int): int { if sign == "-" then -n else n }

  lemma IdentifierIsName(name: string)
    ensures IsIdentifier(name) <==> R.IsName(name)
  {
  }

  /** defined(X), with blanks anywhere, is 1 for a symbol that has a definition, of at most 256
      letters, and 0 for any other. */
  lemma DefinedSeesDefinitions(env: Env, escape: string -> int, undefined: (Op, int, int) -> int,
                               gap: string, open: string, name: CString, close: string)
    requires IsIdentifier(name) && Blanks(gap) && Blanks(open) && Blanks(close)
    ensures var text := gap + ("defined" + (open + ("(" + (name + (close + ")")))));
            ParseIfExpression(Parser(env, escape, undefined), text) ==
            Ok("", if name in env && |name| <= 256 then 1 else 0)
  {
    var g := Parser(env, escape, undefined);
    var e := R.Defined(gap, open, true, name, close);
    IdentifierIsName(name);
    assert IsCString(name);
    assert R.WellFormed(e) && R.Fits(e, 0);
    assert R.Value(g, e) == Some(if name in env && |name| <= 256 then 1 else 0);
    assert R.Print(e) == gap + ("defined" + (open + ("(" + (name + (close + ")")))));
    hide R.Print, R.Value, ParseIfExpression, Parser;
    R.ReadsFitting(g, e);
  }

  /** A symbol without a definition is 0, whatever the length of its name ... */
  lemma UnknownIsZero(env: Env, escape: string -> int, undefined: (Op, int, int) -> int, name: CString)
    requires IsIdentifier(name) && !AtDefined(name) && name !in env
    ensures ParseIfExpression(Parser(env, escape, undefined), name) == Ok("", 0)
  {
    IdentifierIsName(name);
    assert SymbolValue(env, name) == Some(0);
    hide *;
    ReadsValue(env, escape, undefined, name);
    AnswerOf(SymbolValue(env, name), 0);
  }

  lemma {:induction false} SkipsBlanks(ws: string, t: string)
    requires Blanks(ws) && (t == "" || !IsSpace(t[0]))
    ensures SkipSpace(ws + t) == t
  {
    if ws == "" {
      assert ws + t == t;
    } else {
      assert (ws + t)[1..] == ws[1..] + t;
      SkipsBlanks(ws[1..], t);
    }
  }

  /** The number at the start of a text, in decimal whatever it starts with. */
  lemma AtoiOf(ws: string, sign: string, n: nat, rest: string)
    requires Blanks(ws) && (sign == "" || sign == "+" || sign == "-") && (rest == "" || !('0' <= rest[0] <= '9'))
    ensures Atoi(ws + (sign + (R.Digits(n, 10) + rest))) == Signed(sign, n)
  {
    var number := R.Digits(n, 10) + rest;
    R.DigitsFirst(n, 10);
    assert number[0] == R.Digits(n, 10)[0] && IsDigit(number[0]);
    ScansNumber(n, rest);
    hide R.Digits, ScanDigits;
    if sign == "" {
      assert sign + number == number;
    } else {
      assert (sign + number)[0] == sign[0] && (sign + number)[1..] == number;
    }
    SkipsBlanks(ws, sign + number);
  }

  lemma ScansNumber(n: nat, rest: string)
    requires rest == "" || !('0' <= rest[0] <= '9')
    ensures ScanDigits(R.Digits(n, 10) + rest, 10, 0) == (rest, n)
  {
    R.ScanDigitsOf(n, 10, rest);
  }

  lemma AtoiOfName(name: string)
    requires name != "" && IsVarFirstLetter(name[0])
    ensures Atoi(name) == 0
  {
  }

  /** ... one defined as a number is that number ... */
  lemma NumberIsRead(env: Env, escape: string -> int, undefined: (Op, int, int) -> int, name: CString,
                     ws: string, sign: string, n: nat, rest: string)
    requires IsIdentifier(name) && !AtDefined(name) && |name| <= 256 && name in env
    requires Blanks(ws) && (sign == "" || sign == "+" || sign == "-") && (rest == "" || !('0' <= rest[0] <= '9'))
    requires env[name] == ws + (sign + (R.Digits(n, 10) + rest))
    ensures ParseIfExpression(Parser(env, escape, undefined), name) == Ok("", Signed(sign, n))
  {
    var text := env[name];
    IdentifierIsName(name);
    AtoiOf(ws, sign, n, rest);
    NumberIsNoName(ws, sign, n, rest);
    EndsAtText(env, name);
    hide *;
    ReadsValue(env, escape, undefined, name);
    AnswerOf(SymbolValue(env, name), Signed(sign, n));
  }

  lemma ReadsValue(env: Env, escape: string -> int, undefined: (Op, int, int) -> int, name: CString)
    requires R.IsName(name) && !AtDefined(name)
    ensures ParseIfExpression(Parser(env, escape, undefined), name) == Answer("", SymbolValue(env, name))
  {
    assert IsCString(name);
    assert Parser(env, escape, undefined).evalVariable(name) == SymbolValue(env, name);
    hide *;
    R.ReadAsVariable(Parser(env, escape, undefined), name);
  }

  lemma AnswerOf(v: Option<int>, n: int)
    ensures v == Some(n) ==> Answer("", v) == Ok("", n)
  {
  }

  lemma NumberIsNoName(ws: string, sign: string, n: nat, rest: string)
    requires Blanks(ws) && (sign == "" || sign == "+" || sign == "-")
    ensures var text := ws + (sign + (R.Digits(n, 10) + rest)); text != "" && !IsVarFirstLetter(text[0])
  {
    R.DigitsFirst(n, 10);
    var number := R.Digits(n, 10) + rest;
    assert number[0] == R.Digits(n, 10)[0];
    assert sign != "" ==> (sign + number)[0] == sign[0];
    assert sign == "" ==> sign + number == number;
    assert ws != "" ==> (ws + (sign + number))[0] == ws[0];
    assert ws == "" ==> ws + (sign + number) == sign + number;
  }

  lemma EndsAtText(env: Env, name: CString)
    requires LookupVariable(env, name).Some? && R.IsName(name)
    requires env[name] == "" || !IsVarFirstLetter(env[name][0])
    ensures SymbolValue(env, name) == Some(Atoi(env[name]))
  {
    assert Next(env, name) == Some(env[name]) && Next(env, env[name]) == None;
    assert ChainEnd(env, name, {}) == ChainEnd(env, env[name], {name}) == Some(env[name]);
  }

  /** ... and one defined as another symbol is what that one is, or never decided if that is not. */
  lemma SynonymIsSame(env: Env, escape: string -> int, undefined: (Op, int, int) -> int, name: CString, other: CString)
    requires IsIdentifier(name) && !AtDefined(name) && |name| <= 256 && name in env && env[name] == other
    requires IsIdentifier(other) && !AtDefined(other)
    ensures var g := Parser(env, escape, undefined);
            ParseIfExpression(g, name) == ParseIfExpression(g, other)
  {
    IdentifierIsName(name);
    IdentifierIsName(other);
    SynonymValue(env, name, other);
    hide *;
    ReadsValue(env, escape, undefined, name);
    ReadsValue(env, escape, undefined, other);
  }

  lemma SynonymValue(env: Env, name: CString, other: CString)
    requires LookupVariable(env, name) == Some(other) && R.IsName(name) && R.IsName(other)
    ensures SymbolValue(env, name) == SymbolValue(env, other)
  {
    assert Next(env, name) == Some(other);
    AtoiOfName(other);
    if LookupVariable(env, other).None? {
      assert Next(env, other) == None;
      assert ChainEnd(env, name, {}) == ChainEnd(env, other, {name}) == Some(other);
    } else {
      EndsTogether(env, name, other);
    }
  }

  lemma EndsTogether(env: Env, name: CString, other: CString)
    requires Next(env, name) == Some(other)
    ensures ChainEnd(env, name, {}) == ChainEnd(env, other, {})
  {
    hide ChainEnd, Next;
    ChainsEndExactly(env, name);
    ChainsEndExactly(env, other);
    if ChainEnd(env, name, {}).Some? {
      var n: nat :| Iterate(env, name, n) == ChainEnd(env, name, {}) && Iterate(env, name, n + 1) == None;
      OneFurther(env, name, other, n);
      assert Iterate(env, other, n) == None;
    }
    if ChainEnd(env, other, {}).Some? {
      var m: nat :| Iterate(env, other, m) == ChainEnd(env, other, {}) && Iterate(env, other, m + 1) == None;
      OneFurther(env, name, other, m);
      OneFurther(env, name, other, m + 1);
      EndsAt(env, name, m + 1);
    }
  }

  lemma OneFurther(env: Env, name: CString, other: CString, n: nat)
    requires Next(env, name) == Some(other)
    ensures Iterate(env, name, n + 1) == Iterate(env, other, n)
  {
  }

  lemma EndsAt(env: Env, v: CString, n: nat)
    requires Iterate(env, v, n).Some? && Iterate(env, v, n + 1) == None
    ensures ChainEnd(env, v, {}) == Iterate(env, v, n)
  {
    ChainsEndExactly(env, v);
    hide ChainEnd, Iterate;
    var m: nat :| Iterate(env, v, m) == ChainEnd(env, v, {}) && Iterate(env, v, m + 1) == None;
    StopsOnce(env, v, n, m);
  }

  lemma StopsOnce(env: Env, v: CString, n: nat, m: nat)
    requires Iterate(env, v, n).Some? && Iterate(env, v, n + 1) == None
    requires Iterate(env, v, m).Some? && Iterate(env, v, m + 1) == None
    ensures n == m
  {
    if n < m { IterateAdds(env, v, n + 1, m - n - 1); }
    if m < n { IterateAdds(env, v, m + 1, n - m - 1); }
  }
}
