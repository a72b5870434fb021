/** What the #if evaluator computes: the value of the expression tree its text was printed from. */
module IfParserProofs {
  import opened Options
  import opened IfParser

  // ---- One scheme for the ten functions -------------------------------------------------------

  /** The function for a precedence level: 0 is ||, 8 is * / %, 9 is a value. */
  function ParseLevel(g: IfParser, k: nat, cp: string): Parse {
    match k
    case 0 => ParseLor(g, cp)
    case 1 => ParseLand(g, cp)
    case 2 => ParseBor(g, cp)
    case 3 => ParseBand(g, cp)
    case 4 => ParseEquality(g, cp)
    case 5 => ParseInequality(g, cp)
    case 6 => ParseShift(g, cp)
    case 7 => ParseSum(g, cp)
    case 8 => ParseProduct(g, cp)
    case _ => ParseValue(g, cp)
  }

  function Level(op: Op): nat {
    match op
    case Mul => 8 case Div => 8 case Rem => 8
    case Add => 7 case Sub => 7
    case Shl => 6 case Shr => 6
    case Lt => 5 case Le => 5 case Gt => 5 case Ge => 5
    case Eq => 4 case Ne => 4
    case BitAnd => 3
    case BitOr => 2
    case And => 1
    case Or => 0
  }

  function Text(op: Op): string {
    match op
    case Mul => "*" case Div => "/" case Rem => "%"
    case Add => "+" case Sub => "-"
    case Shl => "<<" case Shr => ">>"
    case Lt => "<" case Le => "<=" case Gt => ">" case Ge => ">="
    case Eq => "==" case Ne => "!="
    case BitAnd => "&"
    case BitOr => "|"
    case And => "&&"
    case Or => "||"
  }

  /** The operator of level `k` that the text starts with, and its length. */
  function OperatorAt(k: nat, cp: string): Option<(Op, nat)> {
    var a, b := Peek(cp, 0), Peek(cp, 1);
    match k
    case 0 => if a == '|' && b == '|' then Some((Or, 2)) else None
    case 1 => if a == '&' && b == '&' then Some((And, 2)) else None
    case 2 => if a == '|' && b != '|' then Some((BitOr, 1)) else None
    case 3 => if a == '&' && b != '&' then Some((BitAnd, 1)) else None
    case 4 =>
      if a == '=' then Some((Eq, if b == '=' then 2 else 1))
      else if a == '!' && b == '=' then Some((Ne, 2)) else None
    case 5 =>
      if a == '<' then Some(if b == '=' then (Le, 2) else (Lt, 1))
      else if a == '>' then Some(if b == '=' then (Ge, 2) else (Gt, 1)) else None
    case 6 =>
      if a == '<' && b == '<' then Some((Shl, 2))
      else if a == '>' && b == '>' then Some((Shr, 2)) else None
    case 7 => if a == '+' then Some((Add, 1)) else if a == '-' then Some((Sub, 1)) else None
    case 8 =>
      if a == '*' then Some((Mul, 1)) else if a == '/' then Some((Div, 1))
      else if a == '%' then Some((Rem, 1)) else None
    case _ => None
  }

  /** Neither a lone & nor a lone |. */
  predicate NoLone(c: char, cp: string) {
    !(Peek(cp, 0) == c && Peek(cp, 1) != c)
  }

  lemma SkipSpaceStops(cp: string)
    ensures SkipSpace(cp) == "" || !IsSpace(SkipSpace(cp)[0])
    ensures SkipSpace(SkipSpace(cp)) == SkipSpace(cp)
  {
  }

  lemma {:induction false} BandLeavesNoLone(g: IfParser, cp: string)
    ensures ParseBand(g, cp).Ok? ==>
              NoLone('&', ParseBand(g, cp).cp) && SkipSpace(ParseBand(g, cp).cp) == ParseBand(g, cp).cp
    decreases |cp|
  {
    var r := ParseEquality(g, cp);
    if r.Ok? {
      var c := SkipSpace(r.cp);
      SkipSpaceStops(r.cp);
      if Peek(c, 0) == '&' && Peek(c, 1) != '&' {
        BandLeavesNoLone(g, c[1..]);
      }
    }
  }

  /** After parse_bor, on any input, the pointer is at no lone & and at no lone |. */
  lemma {:induction false} BorLeavesNoLone(g: IfParser, cp: string)
    ensures var r := ParseBor(g, cp);
            r.Ok? ==> NoLone('&', r.cp) && NoLone('|', r.cp) && SkipSpace(r.cp) == r.cp
    decreases |cp|
  {
    BandLeavesNoLone(g, cp);
    var r := ParseBand(g, cp);
    if r.Ok? {
      var c := SkipSpace(r.cp);
      if Peek(c, 0) == '|' && Peek(c, 1) != '|' {
        BorLeavesNoLone(g, c[1..]);
      }
    }
  }

  /** After parse_land, on any input, the pointer is at no & at all and at no lone |. */
  lemma {:induction false} LandLeavesNoLone(g: IfParser, cp: string)
    ensures var r := ParseLand(g, cp);
            r.Ok? ==> Peek(r.cp, 0) != '&' && NoLone('|', r.cp) && SkipSpace(r.cp) == r.cp
    decreases |cp|
  {
    BorLeavesNoLone(g, cp);
    var r := ParseBor(g, cp);
    if r.Ok? && Peek(r.cp, 0) == '&' {
      LandLeavesNoLone(g, r.cp[2..]);
    }
  }

  /** The ten functions are one: parse the next level, and while an operator of this level follows,
      parse this level again on the right.  In particular the two "expecting" branches of
      parse_land and parse_lor are never taken. */
  lemma Unfold(g: IfParser, k: nat, cp: string)
    requires k < 9
    ensures ParseLevel(g, k, cp) ==
            var r := ParseLevel(g, k + 1, cp);
            if !r.Ok? then r else
            var c := SkipSpace(r.cp);
            match OperatorAt(k, c)
            case None => Ok(c, r.val)
            case Some(o) =>
              Combine(g, o.0, r.val, ParseLevel(g, k, c[o.1..]))
  {
    hide SkipSpace, Combine, ParseValue;
    if k < 2 {
      BorLeavesNoLone(g, cp);
      LandLeavesNoLone(g, cp);
    } else if k < 5 {
      assert k == 2 || k == 3 || k == 4;
    } else {
      assert k == 5 || k == 6 || k == 7 || k == 8;
    }
  }

  // ---- On every input -------------------------------------------------------------------------

  /** `a` is `b` with some leading characters dropped. */
  predicate IsSuffix(a: string, b: string) {
    a == b || (b != "" && IsSuffix(a, b[1..]))
  }

  /** How many quotes of character constants there are. */
  function Quotes(s: string): nat {
    if s == "" then 0 else (if s[0] == '\'' then 1 else 0) + Quotes(s[1..])
  }

  /** The names in a text; `inWord` tells whether a letter or digit stands in front of it. */
  function Names(s: string, inWord: bool): set<string> {
    if s == "" then {}
    else
      var here := if inWord then NoName(s) else ParseVariable(s);
      (if here.GotName? then {here.name} else {}) + Names(s[1..], IsVarLetter(s[0]))
  }

  /** There is a name in the text on which eval_variable never returns. */
  predicate Asks(g: IfParser, s: string) {
    exists x :: x in Names(s, false) && g.evalVariable(x).None?
  }

  /** `a` is what is left of `b` when some leading characters are dropped: quotes in pairs, unless there
      is a #machine(vax), whose names any character may separate. */
  predicate Behind(a: string, b: string) {
    IsSuffix(a, b) && ('#' in b || Quotes(a) % 2 == Quotes(b) % 2)
  }

  /** A quote may have no partner. */
  predicate Unpaired(s: string) {
    Quotes(s) % 2 == 1 || (Quotes(s) > 0 && '#' in s)
  }

  lemma {:induction false} SuffixTrans(a: string, b: string, c: string)
    requires IsSuffix(a, b) && IsSuffix(b, c)
    ensures IsSuffix(a, c)
    decreases |c|
  {
    if b != c { SuffixTrans(a, b, c[1..]); }
  }

  lemma BehindTrans(a: string, b: string, c: string)
    requires Behind(a, b) && Behind(b, c)
    ensures Behind(a, c)
  {
    hide Quotes, IsSuffix;
    SuffixTrans(a, b, c);
    SuffixHas(b, c);
  }

  lemma {:induction false} SuffixHas(a: string, b: string)
    requires IsSuffix(a, b)
    ensures '#' in a ==> '#' in b
    ensures Quotes(a) <= Quotes(b)
    decreases |b|
  {
    if a != b {
      SuffixHas(a, b[1..]);
      assert b == [b[0]] + b[1..];
    }
  }

  lemma BehindOne(s: string)
    requires s != "" && s[0] != '\''
    ensures Behind(s[1..], s)
  {
    assert IsSuffix(s[1..], s[1..]);
  }

  lemma {:induction false} BehindDrop(s: string, n: nat)
    requires n <= |s| && forall i :: 0 <= i < n ==> s[i] != '\''
    ensures Behind(s[n..], s)
  {
    if n > 0 {
      assert s[n..] == s[1..][n - 1..];
      BehindDrop(s[1..], n - 1);
      BehindOne(s);
      BehindTrans(s[n..], s[1..], s);
    }
  }

  lemma {:induction false} SuffixMeans(a: string, b: string)
    ensures IsSuffix(a, b) <==> |a| <= |b| && b[|b| - |a|..] == a
    decreases |b|
  {
    if b != "" && a != b {
      SuffixMeans(a, b[1..]);
      if |a| < |b| { assert b[1..][|b| - 1 - |a|..] == b[|b| - |a|..]; }
    }
  }

  /** `a` is what is left of `b` behind a character that no name contains. */
  predicate Fresh(a: string, b: string) {
    b != "" && ((a == b[1..] && !IsVarLetter(b[0])) || Fresh(a, b[1..]))
  }

  lemma {:induction false} FreshWithin(a: string, b: string, c: string)
    requires Fresh(a, b) && IsSuffix(b, c)
    ensures Fresh(a, c)
    decreases |c|
  {
    if b != c { FreshWithin(a, b, c[1..]); }
  }

  lemma {:induction false} NamesWithin(a: string, b: string, inWord: bool)
    requires Fresh(a, b)
    ensures Names(a, false) <= Names(b, inWord)
    decreases |b|
  {
    hide ParseVariable;
    if !(a == b[1..] && !IsVarLetter(b[0])) { NamesWithin(a, b[1..], IsVarLetter(b[0])); }
  }

  /** `r` is a result that parsing `cp` may give.  Behind the parsed text the rest of `cp` is
      untouched, and quotes are used up in pairs.  A failure never asked for && or || or a quote.
      Evaluation is lost behind the text only if a quote may have no partner there, and for ever only
      if the text has a name on which eval_variable never returns. */
  predicate Proper(g: IfParser, r: Parse, cp: string) {
    match r
    case Ok(rest, _) => Behind(rest, cp)
    case Fail(_, expecting, _) => expecting != "&&" && expecting != "||" && expecting != "'"
    case Lost(Overread) => Unpaired(cp)
    case Lost(Endless) => Asks(g, cp)
  }

  lemma ProperWithin(g: IfParser, r: Parse, a: string, cp: string)
    requires Proper(g, r, a) && Behind(a, cp) && (a == cp || Fresh(a, cp))
    ensures Proper(g, r, cp)
  {
    hide Quotes, Names, IsSuffix, Fresh;
    match r
    case Ok(rest, _) => BehindTrans(rest, a, cp);
    case Fail(_, _, _) =>
    case Lost(Overread) => SuffixHas(a, cp);
    case Lost(Endless) => if a != cp { NamesWithin(a, cp, false); }
  }

  lemma {:induction false} SkipSpaceBehind(cp: string)
    ensures Behind(SkipSpace(cp), cp)
    ensures SkipSpace(cp) == cp || Fresh(SkipSpace(cp), cp)
  {
    if cp != "" && IsSpace(cp[0]) {
      SkipSpaceBehind(cp[1..]);
      BehindOne(cp);
      BehindTrans(SkipSpace(cp), cp[1..], cp);
    }
  }

  lemma {:induction false} NameLetters(cp: string)
    ensures forall i :: 0 <= i < NameLength(cp) ==> IsVarLetter(cp[i])
  {
    if cp != "" && IsVarLetter(cp[0]) {
      NameLetters(cp[1..]);
      forall i | 0 <= i < NameLength(cp) ensures IsVarLetter(cp[i]) {
        if i > 0 { assert cp[i] == cp[1..][i - 1]; }
      }
    }
  }

  lemma VariableBehind(cp: string)
    ensures ParseVariable(cp).GotName? ==> Behind(ParseVariable(cp).rest, cp)
  {
    hide SkipSpace, NameLength, Behind;
    SkipSpaceBehind(cp);
    if ParseVariable(cp).GotName? {
      var s := SkipSpace(cp);
      NameLetters(s[1..]);
      var n := 1 + NameLength(s[1..]);
      forall i | 0 <= i < n ensures s[i] != '\'' {
        if i > 0 { assert s[i] == s[1..][i - 1]; }
      }
      BehindDrop(s, n);
      BehindTrans(s[n..], s, cp);
    }
  }

  lemma {:induction false} ScanDigitsBehind(cp: string, base: nat, acc: nat)
    requires base <= 16
    ensures Behind(ScanDigits(cp, base, acc).0, cp)
    decreases |cp|
  {
    hide Behind;
    if cp != "" && DigitValue(cp[0]) < base {
      ScanDigitsBehind(cp[1..], base, acc * base + DigitValue(cp[0]));
      BehindOne(cp);
      BehindTrans(ScanDigits(cp, base, acc).0, cp[1..], cp);
    } else {
      BehindDrop(cp, 0);
    }
  }

  lemma {:induction false} QualifiersBehind(cp: string)
    ensures Behind(SkipQualifiers(cp), cp)
  {
    if cp != "" && IsQualifier(cp[0]) {
      QualifiersBehind(cp[1..]);
      BehindOne(cp);
      BehindTrans(SkipQualifiers(cp), cp[1..], cp);
    }
  }

  lemma NumberProper(g: IfParser, cp: string)
    requires cp != "" && IsDigit(cp[0])
    ensures Proper(g, ParseNumber(cp), cp)
  {
    hide Behind, ScanDigits, SkipQualifiers;
    var rest := Strtol(cp).0;
    if Peek(cp, 0) == '0' && (Peek(cp, 1) == 'x' || Peek(cp, 1) == 'X') && DigitValue(Peek(cp, 2)) < 16 {
      ScanDigitsBehind(cp[2..], 16, 0);
      BehindDrop(cp, 2);
      BehindTrans(rest, cp[2..], cp);
    } else {
      ScanDigitsBehind(cp, if Peek(cp, 0) == '0' then 8 else 10, 0);
    }
    QualifiersBehind(rest);
    BehindTrans(SkipQualifiers(rest), rest, cp);
    assert SkipSpace(cp) == cp;
  }

  lemma {:induction false} FindQuoteLeaves(cp: string)
    ensures IsSuffix(FindQuote(cp), cp) && Quotes(FindQuote(cp)) == Quotes(cp)
    ensures FindQuote(cp) == "" <==> '\'' !in cp
  {
    if cp != "" && cp[0] != '\'' {
      FindQuoteLeaves(cp[1..]);
      SuffixTrans(FindQuote(cp), cp[1..], cp);
      assert cp == [cp[0]] + cp[1..];
    }
  }

  /** A character constant gets lost exactly when no other quote follows in the text. */
  lemma UnclosedExactly(g: IfParser, s: string)
    requires s != "" && s[0] == '\''
    ensures ParseValue(g, s) == Lost(Overread) <==> '\'' !in s[1..]
    ensures ParseValue(g, s).Ok? <==> '\'' in s[1..]
  {
    hide ParseLor, FindQuote, SkipSpace;
    assert SkipSpace(s) == s by { SkipSpaceIs(s); }
    var t := SkipSpace(s[1..]);
    FindQuoteLeaves(t);
    SkipSpaceQuotes(s[1..]);
  }

  lemma SkipSpaceIs(s: string)
    requires s != "" && !IsSpace(s[0])
    ensures SkipSpace(s) == s
  {
  }

  lemma {:induction false} SkipSpaceQuotes(s: string)
    ensures '\'' in SkipSpace(s) <==> '\'' in s
  {
    if s != "" && IsSpace(s[0]) {
      SkipSpaceQuotes(s[1..]);
      assert s == [s[0]] + s[1..];
    }
  }

  lemma QuotedProper(g: IfParser, s: string)
    requires s != "" && s[0] == '\''
    ensures Proper(g, ParseValue(g, s), s)
  {
    hide ParseLor, FindQuote, SkipSpace, IsSuffix;
    SkipSpaceIs(s);
    var u := s[1..];
    var t := SkipSpace(u);
    var q := FindQuote(t);
    SkipSpaceBehind(u);
    FindQuoteLeaves(t);
    if q != "" {
      SuffixTrans(q, t, u);
      DropsTwo(q, s);
    }
  }

  lemma DropsTwo(q: string, s: string)
    requires q != "" && s != "" && IsSuffix(q, s[1..])
    ensures IsSuffix(q[1..], s)
  {
    hide Quotes;
    assert IsSuffix(q[1..], q[1..]);
    assert IsSuffix(q[1..], q);
    SuffixTrans(q[1..], q, s[1..]);
  }

  lemma {:induction false} ArgumentsSuffix(cp: string)
    requires cp != ""
    ensures var r := ParseArguments(cp);
            && !r.Lost? && (r.Ok? ==> IsSuffix(r.cp, cp))
            && (r.Fail? ==> r.expecting != "&&" && r.expecting != "||" && r.expecting != "'")
    decreases |cp|
  {
    hide SkipSpace, ParseVariable, Quotes;
    VariableBehind(cp[1..]);
    match ParseVariable(cp[1..])
    case NoName(_) =>
    case GotName(rest, _) =>
      var s := SkipSpace(rest);
      SuffixTrans(rest, cp[1..], cp);
      SkipSpaceBehind(rest);
      SuffixTrans(s, rest, cp);
      if s != "" {
        SuffixTrans(s[1..], s, cp);
        if s[0] != ')' {
          ArgumentsSuffix(s);
          if ParseArguments(s).Ok? { SuffixTrans(ParseArguments(s).cp, s, cp); }
        }
      }
  }

  lemma AssertionProper(g: IfParser, s: string)
    requires s != "" && s[0] == '#'
    ensures Proper(g, ParseValue(g, s), s)
  {
    hide ParseLor, SkipSpace, ParseVariable, Quotes, ParseArguments;
    SkipSpaceIs(s);
    VariableBehind(s[1..]);
    match ParseVariable(s[1..])
    case NoName(_) =>
    case GotName(rest, _) =>
      var c := SkipSpace(rest);
      SuffixTrans(rest, s[1..], s);
      SkipSpaceBehind(rest);
      SuffixTrans(c, rest, s);
      if Peek(c, 0) == '(' {
        ArgumentsSuffix(c);
        if ParseArguments(c).Ok? { SuffixTrans(ParseArguments(c).cp, c, s); }
      }
  }

  lemma DefinedProper(g: IfParser, cp: string)
    requires AtDefined(cp)
    ensures Proper(g, ParseDefined(g, cp), cp)
  {
    hide Behind, SkipSpace, ParseVariable;
    var s := SkipSpace(cp[7..]);
    SkipSpaceBehind(cp[7..]);
    assert forall i :: 0 <= i < 7 ==> cp[i] == cp[..7][i] == "defined"[i];
    BehindDrop(cp, 7);
    BehindTrans(s, cp[7..], cp);
    var t := if Peek(s, 0) == '(' then s[1..] else s;
    if Peek(s, 0) == '(' {
      BehindOne(s);
      BehindTrans(t, s, cp);
    }
    VariableBehind(t);
    match ParseVariable(t)
    case NoName(_) =>
    case GotName(rest, _) =>
      var u := SkipSpace(rest);
      BehindTrans(rest, t, cp);
      SkipSpaceBehind(rest);
      BehindTrans(u, rest, cp);
      if Peek(u, 0) == ')' {
        BehindOne(u);
        BehindTrans(u[1..], u, cp);
      }
  }

  lemma GroupProper(g: IfParser, s: string)
    requires s != "" && s[0] == '(' && Proper(g, ParseLor(g, s[1..]), s[1..])
    ensures Proper(g, ParseValue(g, s), s)
  {
    hide Behind, SkipSpace, ParseLor, Unpaired, Names, Asks;
    SkipSpaceIs(s);
    BehindOne(s);
    var r := ParseIfExpression(g, s[1..]);
    match r
    case Ok(rest, _) =>
      var c := SkipSpace(rest);
      SkipSpaceBehind(rest);
      BehindTrans(rest, s[1..], s);
      BehindTrans(c, rest, s);
      if Peek(c, 0) == ')' {
        BehindOne(c);
        BehindTrans(c[1..], c, s);
      }
    case _ => ProperWithin(g, r, s[1..], s);
  }

  lemma PrefixProper(g: IfParser, s: string)
    requires s != "" && (s[0] == '!' || s[0] == '-') && Proper(g, ParseValue(g, s[1..]), s[1..])
    ensures Proper(g, ParseValue(g, s), s)
  {
    hide Behind, SkipSpace, Unpaired, Names, Asks;
    SkipSpaceIs(s);
    BehindOne(s);
    ProperWithin(g, ParseValue(g, s[1..]), s[1..], s);
  }

  lemma NameProper(g: IfParser, s: string)
    requires s != "" && IsVarFirstLetter(s[0]) && !AtDefined(s)
    ensures Proper(g, ParseValue(g, s), s)
  {
    hide Behind, SkipSpace, ParseVariable;
    SkipSpaceIs(s);
    VariableBehind(s);
  }

  lemma {:induction false} ValueProper(g: IfParser, cp: string)
    ensures Proper(g, ParseValue(g, cp), cp)
    decreases |cp|, 0
  {
    hide Behind, SkipSpace, Proper, ParseVariable, ParseDefined, ParseNumber, AtDefined;
    var s := SkipSpace(cp);
    SkipSpaceBehind(cp);
    SkipSpaceStops(cp);
    ValueBehindSpace(g, cp);
    if s == "" {
      OkProper(g, s, 0, cp);
    } else {
      if s[0] == '(' {
        LevelProper(g, 0, s[1..]);
        GroupProper(g, s);
      } else if s[0] == '!' || s[0] == '-' {
        ValueProper(g, s[1..]);
        PrefixProper(g, s);
      } else if s[0] == '#' {
        AssertionProper(g, s);
      } else if s[0] == '\'' {
        QuotedProper(g, s);
      } else {
        WordProper(g, s);
      }
      ProperWithin(g, ParseValue(g, s), s, cp);
    }
  }

  lemma ValueBehindSpace(g: IfParser, cp: string)
    ensures ParseValue(g, SkipSpace(cp)) == ParseValue(g, cp)
    ensures SkipSpace(cp) == "" ==> ParseValue(g, cp) == Ok("", 0)
  {
    hide SkipSpace;
    SkipSpaceStops(cp);
  }

  lemma WordProper(g: IfParser, s: string)
    requires s != "" && SkipSpace(s) == s
    requires s[0] != '(' && s[0] != '!' && s[0] != '-' && s[0] != '#' && s[0] != '\''
    ensures Proper(g, ParseValue(g, s), s)
  {
    hide Behind, SkipSpace, ParseVariable, ParseDefined, ParseNumber, AtDefined, Quotes, Names, Asks;
    if AtDefined(s) {
      DefinedProper(g, s);
    } else if IsDigit(s[0]) {
      NumberProper(g, s);
    } else if IsVarFirstLetter(s[0]) {
      NameProper(g, s);
    }
  }

  lemma OperatorFits(k: nat, c: string)
    ensures match OperatorAt(k, c)
            case None => true
            case Some(o) => 0 < o.1 <= |c| && forall i :: 0 <= i < o.1 ==> c[i] != '\'' && !IsVarLetter(c[i])
  {
  }

  lemma {:induction false} SuffixLength(a: string, b: string)
    requires IsSuffix(a, b)
    ensures |a| <= |b|
  {
    if a != b { SuffixLength(a, b[1..]); }
  }

  lemma OkProper(g: IfParser, a: string, v: int, cp: string)
    ensures Proper(g, Ok(a, v), cp) <==> Behind(a, cp)
  {
  }

  lemma BehindLength(a: string, b: string)
    requires Behind(a, b)
    ensures |a| <= |b|
  {
    SuffixLength(a, b);
  }

  lemma CombineProper(g: IfParser, op: Op, left: int, r: Parse, cp: string)
    requires Proper(g, r, cp)
    ensures Proper(g, Combine(g, op, left, r), cp)
  {
    hide Behind, Unpaired, Names, Asks, Apply;
  }

  lemma {:induction false} FreshDrop(s: string, n: nat)
    requires 0 < n <= |s| && !IsVarLetter(s[n - 1])
    ensures Fresh(s[n..], s)
  {
    if n > 1 {
      assert s[n..] == s[1..][n - 1..];
      FreshDrop(s[1..], n - 1);
    }
  }

  lemma FreshBehind(a: string, b: string, c: string)
    requires Fresh(a, b) && Behind(b, c)
    ensures Fresh(a, c)
  {
    FreshWithin(a, b, c);
  }

  /** What every function of the chain gives, on every input. */
  lemma {:induction false} LevelProper(g: IfParser, k: nat, cp: string)
    requires k <= 9
    ensures Proper(g, ParseLevel(g, k, cp), cp)
    decreases |cp|, 1, 9 - k
  {
    if k == 9 {
      ValueProper(g, cp);
    } else {
      LevelProper(g, k + 1, cp);
      var r := ParseLevel(g, k + 1, cp);
      var c := if r.Ok? then SkipSpace(r.cp) else "";
      hide *;
      Unfold(g, k, cp);
      if r.Ok? {
        OkProper(g, r.cp, r.val, cp);
        OkProper(g, c, r.val, cp);
        SkipSpaceBehind(r.cp);
        BehindTrans(c, r.cp, cp);
        BehindLength(c, cp);
        OperatorFits(k, c);
        match OperatorAt(k, c)
        case None =>
        case Some(o) =>
          var rest := c[o.1..];
          BehindDrop(c, o.1);
          BehindTrans(rest, c, cp);
          FreshDrop(c, o.1);
          FreshBehind(rest, c, cp);
          LevelProper(g, k, rest);
          CombineProper(g, o.0, r.val, ParseLevel(g, k, rest), rest);
          ProperWithin(g, Combine(g, o.0, r.val, ParseLevel(g, k, rest)), rest, cp);
      }
    }
  }

  /** So an expression with no quote left over, all of whose names have an answer, is always decided. */
  lemma PairedAndAnswered(g: IfParser, line: string)
    requires !Unpaired(line) && !Asks(g, line)
    ensures !ParseIfExpression(g, line).Lost?
  {
    LevelProper(g, 0, line);
  }

  // ---- An expression that is lost -------------------------------------------------------------

  lemma {:induction false} FailsThrough(g: IfParser, k: nat, cp: string)
    requires k <= 9 && !ParseValue(g, cp).Ok?
    ensures ParseLevel(g, k, cp) == ParseValue(g, cp)
    decreases 9 - k
  {
    hide ParseValue, ParseProduct, ParseSum, ParseShift, ParseInequality, ParseEquality, ParseBand, ParseBor, ParseLand;
    hide ParseLor;
    if k < 9 {
      FailsThrough(g, k + 1, cp);
      Unfold(g, k, cp);
    }
  }

  lemma {:induction false} ValueThrough(g: IfParser, k: nat, cp: string, rest: string, v: int)
    requires k <= 9 && ParseValue(g, cp) == Ok(rest, v) && SkipSpace(rest) == rest
    requires forall j: nat :: j < 9 ==> OperatorAt(j, rest) == None
    ensures ParseLevel(g, k, cp) == Ok(rest, v)
    decreases 9 - k
  {
    hide ParseValue, ParseProduct, ParseSum, ParseShift, ParseInequality, ParseEquality, ParseBand, ParseBor, ParseLand;
    hide ParseLor, SkipSpace;
    if k < 9 {
      ValueThrough(g, k + 1, cp, rest, v);
      Unfold(g, k, cp);
    }
  }

  lemma {:induction false} FindQuoteIs(x: string, z: string)
    requires '\'' !in x
    ensures FindQuote(x + ("'" + z)) == "'" + z
  {
    if x == "" {
      assert x + ("'" + z) == "'" + z;
    } else {
      assert (x + ("'" + z))[1..] == x[1..] + ("'" + z);
      FindQuoteIs(x[1..], z);
    }
  }

  /** A constant 'x with no closing quote.  On the line alone evaluation is lost; in memory, where the
      text `y` of the next lines stands behind the NUL of the line, it goes on to the first quote
      there, and the line is true. */
  lemma UnclosedReadsOn(g: IfParser, x: char, y: string, z: string)
    requires x != '\'' && x != '\\' && x != '\0' && !IsSpace(x) && '\'' !in y
    requires SkipSpace(z) == z && forall j: nat :: j < 9 ==> OperatorAt(j, z) == None
    ensures ParseIfExpression(g, ['\'', x]) == Lost(Overread)
    ensures ParseIfExpression(g, ['\'', x, '\0'] + (y + ("'" + z))) == Ok(z, x as int) && x as int != 0
  {
    var alone, memory := ['\'', x], ['\'', x, '\0'] + (y + ("'" + z));
    UnclosedExactly(g, alone);
    assert alone[1..] == [x];
    FailsThrough(g, 0, alone);
    var u := [x, '\0'] + y;
    assert memory[1..] == u + ("'" + z);
    FindQuoteIs(u, z);
    ConstantIs(g, memory, x, z);
    ValueThrough(g, 0, memory, z, x as int);
  }

  lemma ConstantIs(g: IfParser, s: string, x: char, z: string)
    requires |s| > 1 && s[0] == '\'' && s[1] == x && x != '\\' && !IsSpace(x) && FindQuote(s[1..]) == "'" + z
    ensures ParseValue(g, s) == Ok(z, x as int)
  {
    hide ParseLor, SkipSpace, FindQuote;
    SkipSpaceIs(s);
    SkipSpaceIs(s[1..]);
    assert ("'" + z)[1..] == z;
  }

  const NEXTLINES: string := "#include \"x.h\"\n#endif\nchar c = "

  /** So #if 'a, in front of these lines and 'b'; is true, and x.h is included. */
  lemma UnclosedIsDecidedBehind(g: IfParser)
    ensures ParseIfExpression(g, "'a") == Lost(Overread)
    ensures ParseIfExpression(g, "'a\0" + (NEXTLINES + ("'" + "b';\n"))) == Ok("b';\n", 97)
  {
    var z := "b';\n";
    assert '\'' !in NEXTLINES;
    SkipSpaceIs(z);
    forall j: nat | j < 9 ensures OperatorAt(j, z) == None { assert Peek(z, 0) == 'b'; }
    hide NEXTLINES;
    UnclosedReadsOn(g, 'a', NEXTLINES, z);
  }
}
