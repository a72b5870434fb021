/** The #if expression evaluator of makedepend: a recursive-descent parser that computes the value
    as it goes.  A `const char *` into the expression is modelled by the text it points at, up to
    the terminating NUL, so advancing a pointer is dropping characters. */
module IfParser {
  import opened Options

  datatype Op =
    | Mul | Div | Rem | Add | Sub | Shl | Shr
    | Lt | Le | Gt | Ge | Eq | Ne | BitAnd | BitOr | And | Or

  /** The callbacks of struct _if_parser, eval_variable with None where it never returns; and the value
      C gives to a character escape and to an operation it leaves undefined (division by zero, shift by
      a negative amount). */
  datatype IfParser = IfParser(
    evalVariable: string -> Option<int>,
    evalDefined: string -> bool,
    escape: string -> int,
    undefined: (Op, int, int) -> int)

  /** How evaluation gets away from its text: eval_variable never returns; or the quote that closes a
      character constant is looked for behind the NUL that ends the text. */
  datatype Loss = Endless | Overread

  /** NULL, with what handle_error was told, or the pointer behind the parsed text; either way `val` is
      what has been stored through valp.  Or neither, when evaluation is lost. */
  datatype Parse = Fail(at: string, expecting: string, val: int) | Ok(cp: string, val: int) | Lost(loss: Loss) {
    predicate IsFailure() { !Ok? }
    function PropagateFailure(): Parse requires !Ok? { this }
    function Extract(): (string, int) requires Ok? { (cp, val) }
  }

  /** What cppsetup makes of an expression: whether it is true, or that it is lost on the way. */
  datatype Verdict = Decided(holds: bool) | Undecided(loss: Loss)

  datatype Name = NoName(at: string) | GotName(rest: string, name: string)

  predicate IsSpace(c: char) { c == ' ' || '\t' <= c <= '\r' }
  predicate IsDigit(c: char) { '0' <= c <= '9' }
  predicate IsAlpha(c: char) { 'a' <= c <= 'z' || 'A' <= c <= 'Z' }
  predicate IsAlnum(c: char) { IsAlpha(c) || IsDigit(c) }
  predicate IsVarFirstLetter(c: char) { IsAlpha(c) || c == '_' }
  predicate IsVarLetter(c: char) { IsAlnum(c) || c == '_' }
  predicate IsQualifier(c: char) { c == 'U' || c == 'u' || c == 'L' || c == 'l' }

  /** The character a pointer points at; NUL at the end. */
  function Peek(cp: string, i: nat): char {
    if i < |cp| then cp[i] else '\0'
  }

  function SkipSpace(cp: string): (r: string)
    ensures |r| <= |cp|
  {
    if cp != "" && IsSpace(cp[0]) then SkipSpace(cp[1..]) else cp
  }

  function NameLength(cp: string): (n: nat)
    ensures n <= |cp|
  {
    if cp != "" && IsVarLetter(cp[0]) then 1 + NameLength(cp[1..]) else 0
  }

  function ParseVariable(cp: string): (r: Name)
    ensures r.GotName? ==> |r.rest| < |cp|
  {
    var s := SkipSpace(cp);
    if s == "" || !IsVarFirstLetter(s[0]) then NoName(s)
    else
      var n := 1 + NameLength(s[1..]);
      GotName(s[n..], s[..n])
  }

  function DigitValue(c: char): nat {
    if IsDigit(c) then c as int - '0' as int
    else if 'a' <= c <= 'z' then c as int - 'a' as int + 10
    else if 'A' <= c <= 'Z' then c as int - 'A' as int + 10
    else 99
  }

  /** strtol's digit loop. */
  function ScanDigits(cp: string, base: nat, acc: nat): (r: (string, nat))
    ensures |r.0| <= |cp|
  {
    if cp != "" && DigitValue(cp[0]) < base then ScanDigits(cp[1..], base, acc * base + DigitValue(cp[0]))
    else (cp, acc)
  }

  /** strtol with base 0, at a digit. */
  function Strtol(cp: string): (r: (string, nat))
    ensures |r.0| <= |cp|
  {
    if Peek(cp, 0) == '0' && (Peek(cp, 1) == 'x' || Peek(cp, 1) == 'X') && DigitValue(Peek(cp, 2)) < 16
    then ScanDigits(cp[2..], 16, 0)
    else if Peek(cp, 0) == '0' then ScanDigits(cp, 8, 0)
    else ScanDigits(cp, 10, 0)
  }

  function SkipQualifiers(cp: string): (r: string)
    ensures |r| <= |cp|
  {
    if cp != "" && IsQualifier(cp[0]) then SkipQualifiers(cp[1..]) else cp
  }

  function ParseNumber(cp: string): (r: Parse)
    ensures r.Ok? ==> |r.cp| <= |cp|
  {
    var s := SkipSpace(cp);
    if !IsDigit(Peek(s, 0)) then Fail(s, "number", 0)
    else
      var (rest, n) := Strtol(s);
      Ok(SkipQualifiers(rest), n)
  }

  /** The text from the first quote on; empty when there is none, and C walks past the terminator. */
  function FindQuote(cp: string): (r: string)
    ensures |r| <= |cp|
    ensures r != "" ==> r[0] == '\''
  {
    if cp == "" || cp[0] == '\'' then cp else FindQuote(cp[1..])
  }

  function ParseCharacter(g: IfParser, cp: string): (r: Parse)
    ensures r.Ok? ==> |r.cp| <= |cp| && Peek(r.cp, 0) == '\''
  {
    var s := SkipSpace(cp);
    var val := if Peek(s, 0) == '\\' then g.escape(s[1..]) else Peek(s, 0) as int;
    var q := FindQuote(s);
    if q == "" then Lost(Overread) else Ok(q, val)
  }

  /** The argument list of `#machine(vax, i386)`, from the opening parenthesis or a separator. */
  function ParseArguments(cp: string): (r: Parse)
    requires cp != ""
    ensures r.Ok? ==> |r.cp| < |cp|
    decreases |cp|
  {
    match ParseVariable(cp[1..])
    case NoName(at) => Fail(at, "variable name", 0)
    case GotName(rest, _) =>
      var s := SkipSpace(rest);
      if s == "" then Fail(s, ")", 0)
      else if s[0] == ')' then Ok(s[1..], 1)
      else ParseArguments(s)
  }

  /** Does the text start the operator `defined`?  The character behind it is only checked with
      isalnum, so `defined_x` counts. */
  predicate AtDefined(cp: string) {
    "defined" <= cp && !IsAlnum(Peek(cp, 7))
  }

  function ParseDefined(g: IfParser, cp: string): (r: Parse)
    requires AtDefined(cp)
    ensures r.Ok? ==> |r.cp| < |cp|
  {
    var s := SkipSpace(cp[7..]);
    var paren := Peek(s, 0) == '(';
    match ParseVariable(if paren then s[1..] else s)
    case NoName(at) => Fail(at, "variable name", 0)
    case GotName(rest, name) =>
      var s := SkipSpace(rest);
      if paren && Peek(s, 0) != ')' then Fail(s, ")", 0)
      else Ok(if paren then s[1..] else s, if g.evalDefined(name) then 1 else 0)
  }

  function Truth(b: bool): int { if b then 1 else 0 }

  function Abs(a: int): nat { if a < 0 then -a else a }

  /** C's division truncates toward zero. */
  function Quotient(a: int, b: int): int
    requires b != 0
  {
    var q := Abs(a) / Abs(b);
    if (a < 0) == (b < 0) then q else -q
  }

  /** Two's-complement conjunction; `/` and `%` by 2 round toward minus infinity. */
  function Conjoin(a: int, b: int): int
    decreases Abs(a)
  {
    if a == 0 then 0 else if a == -1 then b
    else 2 * Conjoin(a / 2, b / 2) + (a % 2) * (b % 2)
  }

  function Disjoin(a: int, b: int): int { -1 - Conjoin(-1 - a, -1 - b) }

  function Power2(n: nat): nat { if n == 0 then 1 else 2 * Power2(n - 1) }

  lemma Power2Positive(n: nat)
    ensures Power2(n) > 0
  {
  }

  function Apply(g: IfParser, op: Op, a: int, b: int): int {
    match op
    case Mul => a * b
    case Div => if b == 0 then g.undefined(op, a, b) else Quotient(a, b)
    case Rem => if b == 0 then g.undefined(op, a, b) else a - b * Quotient(a, b)
    case Add => a + b
    case Sub => a - b
    case Shl => if b < 0 then g.undefined(op, a, b) else a * Power2(b)
    case Shr => if b < 0 then g.undefined(op, a, b) else Power2Positive(b); a / Power2(b)
    case Lt => Truth(a < b)
    case Le => Truth(a <= b)
    case Gt => Truth(a > b)
    case Ge => Truth(a >= b)
    case Eq => Truth(a == b)
    case Ne => Truth(a != b)
    case BitAnd => Conjoin(a, b)
    case BitOr => Disjoin(a, b)
    case And => Truth(a != 0 && b != 0)
    case Or => Truth(a != 0 || b != 0)
  }

  /** A variable in front of the text `rest`. */
  function Answer(rest: string, value: Option<int>): Parse {
    if value.Some? then Ok(rest, value.value) else Lost(Endless)
  }

  /** The value after the right operand has been parsed; if that failed, the left one stays. */
  function Combine(g: IfParser, op: Op, v: int, right: Parse): Parse {
    match right
    case Fail(at, expecting, _) => Fail(at, expecting, v)
    case Ok(cp, w) => Ok(cp, Apply(g, op, v, w))
    case Lost(_) => right
  }

  function ParseValue(g: IfParser, cp: string): (r: Parse)
    ensures r.Ok? ==> |r.cp| <= |cp|
    decreases |cp|, 0
  {
    var s := SkipSpace(cp);
    if s == "" then Ok(s, 0)
    else if s[0] == '(' then
      var (c, v) :- ParseIfExpression(g, s[1..]);
      var c := SkipSpace(c);
      if Peek(c, 0) != ')' then Fail(c, ")", v) else Ok(c[1..], v)
    else if s[0] == '!' then
      var (c, v) :- ParseValue(g, s[1..]);
      Ok(c, Truth(v == 0))
    else if s[0] == '-' then
      var (c, v) :- ParseValue(g, s[1..]);
      Ok(c, -v)
    else if s[0] == '#' then
      match ParseVariable(s[1..])
      case NoName(at) => Fail(at, "variable name", 0)
      case GotName(rest, _) =>
        var c := SkipSpace(rest);
        if Peek(c, 0) != '(' then Fail(c, "(", 0) else ParseArguments(c)
    else if s[0] == '\'' then
      var (c, v) :- ParseCharacter(g, s[1..]);
      Ok(c[1..], v)
    else if AtDefined(s) then ParseDefined(g, s)
    else if IsDigit(s[0]) then ParseNumber(s)
    else if !IsVarFirstLetter(s[0]) then Fail(s, "variable or number", 0)
    else
      match ParseVariable(s)
      case NoName(at) => Fail(at, "variable name", 0)
      case GotName(rest, name) => Answer(rest, g.evalVariable(name))
  }

  function ParseProduct(g: IfParser, cp: string): (r: Parse)
    ensures r.Ok? ==> |r.cp| <= |cp|
    decreases |cp|, 1
  {
    var (c, v) :- ParseValue(g, cp);
    var c := SkipSpace(c);
    match Peek(c, 0)
    case '*' =>
      Combine(g, Mul, v, ParseProduct(g, c[1..]))
    case '/' =>
      Combine(g, Div, v, ParseProduct(g, c[1..]))
    case '%' =>
      Combine(g, Rem, v, ParseProduct(g, c[1..]))
    case _ => Ok(c, v)
  }

  function ParseSum(g: IfParser, cp: string): (r: Parse)
    ensures r.Ok? ==> |r.cp| <= |cp|
    decreases |cp|, 2
  {
    var (c, v) :- ParseProduct(g, cp);
    var c := SkipSpace(c);
    match Peek(c, 0)
    case '+' =>
      Combine(g, Add, v, ParseSum(g, c[1..]))
    case '-' =>
      Combine(g, Sub, v, ParseSum(g, c[1..]))
    case _ => Ok(c, v)
  }

  function ParseShift(g: IfParser, cp: string): (r: Parse)
    ensures r.Ok? ==> |r.cp| <= |cp|
    decreases |cp|, 3
  {
    var (c, v) :- ParseSum(g, cp);
    var c := SkipSpace(c);
    if Peek(c, 0) == '<' && Peek(c, 1) == '<' then
      Combine(g, Shl, v, ParseShift(g, c[2..]))
    else if Peek(c, 0) == '>' && Peek(c, 1) == '>' then
      Combine(g, Shr, v, ParseShift(g, c[2..]))
    else Ok(c, v)
  }

  function ParseInequality(g: IfParser, cp: string): (r: Parse)
    ensures r.Ok? ==> |r.cp| <= |cp|
    decreases |cp|, 4
  {
    var (c, v) :- ParseShift(g, cp);
    var c := SkipSpace(c);
    if Peek(c, 0) == '<' then
      if Peek(c, 1) == '=' then
        Combine(g, Le, v, ParseInequality(g, c[2..]))
      else
        Combine(g, Lt, v, ParseInequality(g, c[1..]))
    else if Peek(c, 0) == '>' then
      if Peek(c, 1) == '=' then
        Combine(g, Ge, v, ParseInequality(g, c[2..]))
      else
        Combine(g, Gt, v, ParseInequality(g, c[1..]))
    else Ok(c, v)
  }

  /** A single `=` is taken for `==`. */
  function ParseEquality(g: IfParser, cp: string): (r: Parse)
    ensures r.Ok? ==> |r.cp| <= |cp|
    decreases |cp|, 5
  {
    var (c, v) :- ParseInequality(g, cp);
    var c := SkipSpace(c);
    if Peek(c, 0) == '=' then
      var c := if Peek(c, 1) == '=' then c[1..] else c;
      Combine(g, Eq, v, ParseEquality(g, c[1..]))
    else if Peek(c, 0) == '!' && Peek(c, 1) == '=' then
      Combine(g, Ne, v, ParseEquality(g, c[2..]))
    else Ok(c, v)
  }

  function ParseBand(g: IfParser, cp: string): (r: Parse)
    ensures r.Ok? ==> |r.cp| <= |cp|
    decreases |cp|, 6
  {
    var (c, v) :- ParseEquality(g, cp);
    var c := SkipSpace(c);
    if Peek(c, 0) == '&' && Peek(c, 1) != '&' then
      Combine(g, BitAnd, v, ParseBand(g, c[1..]))
    else Ok(c, v)
  }

  function ParseBor(g: IfParser, cp: string): (r: Parse)
    ensures r.Ok? ==> |r.cp| <= |cp|
    decreases |cp|, 7
  {
    var (c, v) :- ParseBand(g, cp);
    var c := SkipSpace(c);
    if Peek(c, 0) == '|' && Peek(c, 1) != '|' then
      Combine(g, BitOr, v, ParseBor(g, c[1..]))
    else Ok(c, v)
  }

  function ParseLand(g: IfParser, cp: string): (r: Parse)
    ensures r.Ok? ==> |r.cp| <= |cp|
    decreases |cp|, 8
  {
    var (c, v) :- ParseBor(g, cp);
    var c := SkipSpace(c);
    if Peek(c, 0) == '&' then
      if Peek(c, 1) != '&' then Fail(c, "&&", v)
      else
        Combine(g, And, v, ParseLand(g, c[2..]))
    else Ok(c, v)
  }

  function ParseLor(g: IfParser, cp: string): (r: Parse)
    ensures r.Ok? ==> |r.cp| <= |cp|
    decreases |cp|, 9
  {
    var (c, v) :- ParseLand(g, cp);
    var c := SkipSpace(c);
    if Peek(c, 0) == '|' then
      if Peek(c, 1) != '|' then Fail(c, "||", v)
      else
        Combine(g, Or, v, ParseLor(g, c[2..]))
    else Ok(c, v)
  }

  function ParseIfExpression(g: IfParser, cp: string): (r: Parse)
    ensures r.Ok? ==> |r.cp| <= |cp|
    decreases |cp|, 10
  {
    ParseLor(g, cp)
  }

  // ---- The pointer-advancing loops, over the whole expression and an offset into it -----------

  method SkipSpaceLoop(text: string, start: nat) returns (cp: nat)
    requires start <= |text|
    ensures start <= cp <= |text|
    ensures text[cp..] == SkipSpace(text[start..])
  {
    cp := start;
    while cp < |text| && IsSpace(text[cp])
      invariant start <= cp <= |text|
      invariant SkipSpace(text[cp..]) == SkipSpace(text[start..])
    {
      cp := cp + 1;
    }
  }

  lemma VariableBetween(text: string, start: nat, first: nat, cp: nat)
    requires start <= first < cp <= |text| && SkipSpace(text[start..]) == text[first..] && IsVarFirstLetter(text[first])
    requires NameLength(text[first + 1..]) == cp - first - 1
    ensures ParseVariable(text[start..]) == GotName(text[cp..], text[first..cp])
  {
    hide SkipSpace, NameLength;
    var s := text[first..];
    assert s[1..] == text[first + 1..] && s[cp - first..] == text[cp..] && s[..cp - first] == text[first..cp];
  }

  method ParseVariableLoop(text: string, start: nat) returns (cp: nat, name: Name)
    requires start <= |text|
    ensures start <= cp <= |text|
    ensures name == ParseVariable(text[start..])
    ensures name.GotName? ==> name.rest == text[cp..]
  {
    var first := SkipSpaceLoop(text, start);
    cp := first;
    if cp == |text| || !IsVarFirstLetter(text[cp]) {
      return cp, NoName(text[cp..]);
    }
    cp := cp + 1;
    while cp < |text| && IsVarLetter(text[cp])
      invariant first < cp <= |text|
      invariant NameLength(text[first + 1..]) == cp - first - 1 + NameLength(text[cp..])
    {
      assert text[cp..][1..] == text[cp + 1..];
      cp := cp + 1;
    }
    VariableBetween(text, start, first, cp);
    name := GotName(text[cp..], text[first..cp]);
  }

  method SkipQualifiersLoop(text: string, start: nat) returns (cp: nat)
    requires start <= |text|
    ensures start <= cp <= |text|
    ensures text[cp..] == SkipQualifiers(text[start..])
  {
    cp := start;
    while cp < |text| && IsQualifier(text[cp])
      invariant start <= cp <= |text|
      invariant SkipQualifiers(text[cp..]) == SkipQualifiers(text[start..])
    {
      cp := cp + 1;
    }
  }
}
