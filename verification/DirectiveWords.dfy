/** What each directive, written on a line with any spacing, does to a scan. */
module DirectiveWords {
  import opened Options
  import opened SymbolTable
  import opened IncludePaths
  import opened IfParser
  import opened Directives
  import opened SymbolLookup
  import opened Engine
  import opened EngineTrees
  import opened EngineInvariants
  import opened EngineInclusions
  import Dependencies

  /** The line is a # and this word and this argument, with blanks in front of both. */
  ghost predicate Says(line: CString, word: CString, arg: CString) {
    && (arg == "" || !IsBlank(arg[0]))
    && exists gap: CString, space: CString ::
         AllBlank(gap) && AllBlank(space) && (arg != "" ==> space != "") && line == Line(gap, word, space, arg)
  }

  predicate IsWord(word: CString) {
    word != "" && forall i :: 0 <= i < |word| ==> IsLower(word[i])
  }

  /** A name with nothing behind it that could belong to it. */
  predicate IsSymbol(name: CString, behind: CString) {
    && name != "" && (forall i :: 0 <= i < |name| ==> IsVarLetter(name[i]))
    && (behind == "" || !IsVarLetter(behind[0]))
  }

  /** The state with a symbol bound in the table of `file`. */
  function Bound(st: State, file: nat, name: CString, value: CString): (r: State)
    requires file < |st.slots|
    ensures |r.slots| == |st.slots|
  {
    st.(slots := st.slots[file := st.slots[file].(symbols := st.slots[file].symbols[name := value])])
  }

  /** What a symbol is to a file: the value on the command line, or in the file or one it includes. */
  function Meaning(st: State, name: CString, red: nat): Option<CString> {
    Visible(st.slots, st.command, name, red)
  }

  // ---- The characters -------------------------------------------------------------------------

  const SMALL_LETTERS := "abcdefghijklmnopqrstuvwxyz"
  const CAPITAL_LETTERS := "ABCDEFGHIJKLMNOPQRSTUVWXYZ"
  const DIGITS := "0123456789"

  /** Blanks of a directive, and white space and numbers of an expression, one by one. */
  lemma SpacesAndDigits(c: char)
    ensures IsBlank(c) <==> c in " \t"
    ensures IsSpace(c) <==> c in " \t\n\r\U{b}\U{c}"
    ensures IsDigit(c) <==> c in DIGITS
    ensures IsQualifier(c) <==> c in "ulUL"
  {
    if IsDigit(c) { assert DIGITS[c as int - 48] == c; }
  }

  lemma SmallLetters(c: char)
    ensures IsLower(c) <==> c in SMALL_LETTERS
  {
    if IsLower(c) { assert SMALL_LETTERS[c as int - 97] == c; }
  }

  lemma CapitalLetters(c: char)
    ensures 'A' <= c <= 'Z' <==> c in CAPITAL_LETTERS
  {
    if 'A' <= c <= 'Z' { assert CAPITAL_LETTERS[c as int - 65] == c; }
  }

  /** ... and the words of directives, and names. */
  lemma Letters(c: char)
    ensures IsLower(c) <==> c in SMALL_LETTERS
    ensures IsVarFirstLetter(c) <==> c == '_' || c in SMALL_LETTERS || c in CAPITAL_LETTERS
    ensures IsVarLetter(c) <==> c == '_' || c in SMALL_LETTERS || c in CAPITAL_LETTERS || c in DIGITS
  {
    SpacesAndDigits(c);
    SmallLetters(c);
    CapitalLetters(c);
    hide SMALL_LETTERS, CAPITAL_LETTERS, DIGITS;
  }

  // ---- Reading the line -----------------------------------------------------------------------

  lemma Reads(line: CString, word: CString, arg: CString)
    requires IsWord(word) && Says(line, word, arg)
    ensures Scan(line) == Classify(word, arg, line) && line != "" && line[0] == '#'
  {
    hide Scan, Classify, Line;
    var gap, space :| AllBlank(gap) && AllBlank(space) && (arg != "" ==> space != "") &&
        line == Line(gap, word, space, arg);
    ScanOfLine(gap, word, space, arg);
    LineStarts(gap, word, space, arg);
  }

  lemma LineStarts(gap: CString, word: CString, space: CString, arg: CString)
    ensures var line := Line(gap, word, space, arg); line != "" && line[0] == '#'
  {
  }

  lemma {:induction false} NameEnds(name: CString, behind: CString)
    requires (forall i :: 0 <= i < |name| ==> IsVarLetter(name[i])) && (behind == "" || !IsVarLetter(behind[0]))
    ensures NameLength(name + behind) == |name|
  {
    if name == "" {
      assert name + behind == behind;
    } else {
      assert (name + behind)[1..] == name[1..] + behind;
      NameEnds(name[1..], behind);
    }
  }

  lemma SymbolIs(name: CString, behind: CString, arg: CString)
    requires IsSymbol(name, behind) && arg == name + behind
    ensures Symbol(arg) == name
  {
    NameEnds(name, behind);
  }

  lemma One(line: CString)
    ensures ScanAll([line]) == [Scan(line)]
  {
    hide Scan;
    assert [line][1..] == [];
  }

  lemma Three(a: CString, b: CString, c: CString)
    ensures ScanAll([a, b, c]) == [Scan(a), Scan(b), Scan(c)]
  {
    hide Scan;
    assert [a, b, c][1..] == [b, c] && [b, c][1..] == [c];
    One(c);
  }

  // ---- define and undef -----------------------------------------------------------------------

  /** The parts of a definition: a name, one character, and a value; a missing value is 1. */
  lemma PartsOf(name: CString, space: CString, value: CString, def: CString)
    requires IsSymbol(name, "") && AllBlank(space) && (value == "" || (space != "" && !IsBlank(value[0])))
    requires def == name + (space + value)
    ensures DefineParts(def) == (name, if value == "" then "1" else value)
  {
    var behind := space + value;
    if space == "" { assert behind == ""; } else { assert behind[0] == space[0]; }
    NameEnds(name, behind);
    assert def[..|name|] == name;
    if space == "" {
      assert |def| == |name|;
    } else {
      assert def[|name| + 1..] == space[1..] + value;
      SkipAllBlank(space[1..], value);
    }
  }

  lemma DefineInIs(st: State, file: nat, def: CString, name: CString, value: CString)
    requires file < |st.slots| && DefineParts(def) == (name, value)
    ensures DefineIn(st, file, def) == Bound(st, file, name, value)
  {
  }

  /** Is a definition of `name` with this value, with any blanks in between, or none and no value. */
  ghost predicate DefinesAs(line: CString, name: CString, value: CString) {
    IsSymbol(name, "") && exists space: CString, given: CString :: IsGiven(line, name, value, space, given)
  }

  ghost predicate IsGiven(line: CString, name: CString, value: CString, space: CString, given: CString) {
    && AllBlank(space) && (given == "" || (space != "" && !IsBlank(given[0])))
    && value == (if given == "" then "1" else given) && Says(line, "define", name + (space + given))
  }

  lemma DefinesScans(line: CString, name: CString, value: CString)
    requires DefinesAs(line, name, value)
    ensures Scan(line).Define? && DefineParts(Scan(line).def) == (name, value)
  {
    var space: CString, given: CString :| IsGiven(line, name, value, space, given);
    assert IsSymbol(name, "");
    assert Says(line, "define", name + (space + given));
    GivenParts(line, name, value, space, given);
    assert IsWord("define");
    hide *;
    var def := name + (space + given);
    Reads(line, "define", def);
    DefineWord(def, line);
  }

  lemma GivenParts(line: CString, name: CString, value: CString, space: CString, given: CString)
    requires IsSymbol(name, "") && IsGiven(line, name, value, space, given)
    ensures DefineParts(name + (space + given)) == (name, value)
  {
    hide DefineParts, Says;
    PartsOf(name, space, given, name + (space + given));
  }

  lemma DefineWord(arg: CString, line: CString)
    ensures Classify("define", arg, line) == Define(arg)
  {
  }

  /** A definition binds the name to the value, in the file the line is in. */
  lemma DefineBinds(h: Host, st: State, line: CString, name: CString, value: CString, k: seq<Directive>,
                    file: nat, red: nat, depth: nat)
    requires file < |st.slots| && DefinesAs(line, name, value)
    ensures FindIncludes(h, st, ScanAll([line]) + k, file, red, depth)
            == FindIncludes(h, Bound(st, file, name, value), k, file, red, depth)
  {
    hide Scan, DefineParts, DefinesAs;
    DefinesScans(line, name, value);
    One(line);
    DefineInIs(st, file, Scan(line).def, name, value);
    var lines := [Scan(line)] + k;
    assert lines[0] == Scan(line) && lines[1..] == k;
    hide DefineIn, Bound;
  }

  /** ... where it is seen, unless the command line defines it too. */
  lemma BoundIsSeen(st: State, file: nat, name: CString, value: CString)
    requires file < |st.slots|
    ensures Meaning(Bound(st, file, name, value), name, file)
            == Some(if name in st.command then st.command[name] else value)
  {
    var st' := Bound(st, file, name, value);
    assert Found(st'.slots, name, {}, file) == Some(file);
  }

  lemma UndefWord(arg: CString, line: CString)
    ensures Classify("undef", arg, line) == Undef(Symbol(arg))
  {
  }

  /** A symbol that two graphs agree on is found in the same file. */
  lemma {:induction false} FoundAlike(g: Slots, g': Slots, symbol: CString, stack: set<nat>, f: nat)
    requires |g'| == |g| && forall i :: 0 <= i < |g| ==> g'[i].list == g[i].list
    requires forall i :: 0 <= i < |g| ==> (symbol in g'[i].symbols <==> symbol in g[i].symbols)
    ensures Found(g', symbol, stack, f) == Found(g, symbol, stack, f)
    decreases Nodes(g) - stack, 0, 0
  {
    assert Nodes(g') == Nodes(g);
    if f < |g| && f !in stack && symbol !in g[f].symbols { FoundInAlike(g, g', symbol, stack + {f}, g[f].list); }
  }

  lemma {:induction false} FoundInAlike(g: Slots, g': Slots, symbol: CString, stack: set<nat>, fs: seq<nat>)
    requires |g'| == |g| && forall i :: 0 <= i < |g| ==> g'[i].list == g[i].list
    requires forall i :: 0 <= i < |g| ==> (symbol in g'[i].symbols <==> symbol in g[i].symbols)
    ensures FoundIn(g', symbol, stack, fs) == FoundIn(g, symbol, stack, fs)
    decreases Nodes(g) - stack, 1, |fs|
  {
    if fs != [] {
      FoundAlike(g, g', symbol, stack, fs[0]);
      FoundInAlike(g, g', symbol, stack, fs[1..]);
    }
  }

  /** Behind an undefinition the symbol means nothing to the root any more, and every other symbol means
      to every file what it meant. */
  lemma UndefinedIs(st: State, red: nat, name: CString, other: CString, f: nat)
    ensures Meaning(UndefineFrom(st, red, name), name, red).None?
    ensures other != name ==> Meaning(UndefineFrom(st, red, name), other, f) == Meaning(st, other, f)
  {
    var st' := UndefineFrom(st, red, name);
    UndefineIsUndefine(st, red, name);
    hide UndefineFrom;
    UndefinedIsGone(st, st', red, name);
    if other != name {
      assert forall i :: 0 <= i < |st.slots| ==> st'.slots[i].list == st.slots[i].list;
      FoundAlike(st.slots, st'.slots, other, {}, f);
      if other !in st.command && Found(st.slots, other, {}, f).Some? {
        var b := Found(st.slots, other, {}, f).value;
        FoundDefines(st.slots, other, {}, f);
        assert st'.slots[b].symbols[other] == st.slots[b].symbols[other];
      }
    }
  }

  lemma UndefinedIsGone(st: State, st': State, red: nat, name: CString)
    requires Without(st.slots, name, red, st'.slots) && st'.command == st.command - {name}
    ensures Meaning(st', name, red).None?
  {
    FoundIsReachable(st'.slots, name, {}, red);
    forall b: nat ensures !Defines(st'.slots, name, {}, red, b) {
      if b < |st.slots| && Reaches(st'.slots, {}, red, b) {
        SameReach(st.slots, st'.slots, {}, red, b);
        assert st'.slots[b] == st.slots[b].(symbols := st.slots[b].symbols - {name});
      }
    }
  }

  /** An undefinition. */
  lemma UndefHides(h: Host, st: State, line: CString, name: CString, behind: CString, k: seq<Directive>,
                   file: nat, red: nat, depth: nat) returns (st': State)
    requires file < |st.slots| && IsSymbol(name, behind) && Says(line, "undef", name + behind)
    ensures |st'.slots| == |st.slots|
    ensures FindIncludes(h, st, ScanAll([line]) + k, file, red, depth) == FindIncludes(h, st', k, file, red, depth)
    ensures Meaning(st', name, red).None?
    ensures forall other: CString, f: nat :: other != name ==> Meaning(st', other, f) == Meaning(st, other, f)
  {
    hide Scan, Classify, Meaning, Symbol;
    var arg := name + behind;
    Reads(line, "undef", arg);
    UndefWord(arg, line);
    SymbolIs(name, behind, arg);
    One(line);
    st' := UndefineFrom(st, red, name);
    var lines := [Undef(name)] + k;
    assert lines[0] == Undef(name) && lines[1..] == k;
    hide UndefineFrom;
    UndefinedIs(st, red, name, "", 0);
    forall other: CString, f: nat | other != name ensures Meaning(st', other, f) == Meaning(st, other, f) {
      UndefinedIs(st, red, name, other, f);
    }
  }

  // ---- if, ifdef, ifndef, else, endif ---------------------------------------------------------

  lemma GroupWords(arg: CString, line: CString)
    ensures Classify("ifdef", arg, line) == Ifdef(Symbol(arg)) && Classify("ifndef", arg, line) == Ifndef(Symbol(arg))
    ensures Classify("if", arg, line) == If(arg) && Classify("elif", arg, line) == Elif(arg, line)
    ensures Classify("else", arg, line) == Else(line) && Classify("endif", arg, line) == Endif(line)
  {
  }

  /** A definition between the line `open` and an #endif, for the verdict on `open`. */
  lemma GroupOfOne(h: Host, st: State, open: Directive, def: CString, end: CString, name: CString, value: CString,
                   k: seq<Directive>, file: nat, red: nat, depth: nat)
    requires file < |st.slots| && Opens(open) && DefineParts(def) == (name, value)
    ensures FindIncludes(h, st, [open, Define(def), Endif(end)] + k, file, red, depth) ==
            match Holds(h, st, red, open)
            case Undecided(loss) => Outcome(st, [Define(def), Endif(end)] + k, Halt(Unevaluated(loss)))
            case Decided(b) => FindIncludes(h, if b then Bound(st, file, name, value) else st, k, file, red, depth)
  {
    var body := Cons(Plain(Define(def)), Nil);
    var items := Cons(Chain(open, body, End(end)), Nil);
    var lines := [open, Define(def), Endif(end)] + k;
    var rest := [Define(def), Endif(end)] + k;
    assert lines[0] == open && lines[1..] == rest;
    EmitsThree(open, def, end, k);
    DefineInIs(st, file, def, name, value);
    match Holds(h, st, red, open)
    case Undecided(loss) =>
      hide Holds;
    case Decided(b) =>
      hide Holds, DefineIn, DefineParts, FindIncludes, Bound;
      Selects(h, st, items, k, file, red, depth);
      ExecOfOne(h, st, open, def, end, b, file, red);
  }

  lemma ExecOfOne(h: Host, st: State, open: Directive, def: CString, end: CString, b: bool, file: nat, red: nat)
    requires file < |st.slots| && Opens(open) && Holds(h, st, red, open) == Decided(b)
    ensures var items := Cons(Chain(open, Cons(Plain(Define(def)), Nil), End(end)), Nil);
            WellFormed(items) &&
                Exec(h, st, items, file, red) == Outcome(if b then DefineIn(st, file, def) else st, [], Eof)
  {
    hide Holds, DefineIn;
    var body := Cons(Plain(Define(def)), Nil);
    assert WellFormed(Nil) && WellFormed(body) && WellFormedTail(End(end));
    assert WellFormed(Cons(Chain(open, body, End(end)), Nil));
    assert Exec(h, st, body, file, red) == Outcome(DefineIn(st, file, def), [], Eof);
    assert SkipLoss(h, st, red, body) == None;
    assert TailLoss(h, DefineIn(st, file, def), red, End(end)) == None;
    var st' := if b then DefineIn(st, file, def) else st;
    assert ExecChain(h, st, Decided(b), body, End(end), file, red) == Outcome(st', [], Eof);
    assert Exec(h, st', Nil, file, red) == Outcome(st', [], Eof);
  }

  lemma EmitsThree(open: Directive, def: CString, end: CString, k: seq<Directive>)
    ensures Emit(Cons(Chain(open, Cons(Plain(Define(def)), Nil), End(end)), Nil), k)
            == [open, Define(def), Endif(end)] + k
  {
    var body := Cons(Plain(Define(def)), Nil);
    assert Emit(Nil, k) == k && EmitTail(End(end), k) == [Endif(end)] + k;
    assert Emit(body, [Endif(end)] + k) == [Define(def)] + ([Endif(end)] + k);
    assert [open] + ([Define(def)] + ([Endif(end)] + k)) == [open, Define(def), Endif(end)] + k;
  }

  /** Three lines of text: one that opens a group, a definition, and one that closes the group. */
  ghost predicate IsGroup(lines: seq<CString>, word: CString, arg: CString, name: CString, value: CString) {
    && |lines| == 3 && IsWord(word) && Says(lines[0], word, arg)
    && DefinesAs(lines[1], name, value) && exists rest: CString :: Says(lines[2], "endif", rest)
  }

  lemma GroupScans(lines: seq<CString>, word: CString, arg: CString, name: CString, value: CString)
    returns (def: CString)
    requires IsGroup(lines, word, arg, name, value)
    ensures DefineParts(def) == (name, value)
    ensures ScanAll(lines) == [Classify(word, arg, lines[0]), Define(def), Endif(lines[2])]
  {
    hide Scan, Classify, DefineParts, Says, DefinesAs, IsWord;
    var rest: CString :| Says(lines[2], "endif", rest);
    Reads(lines[0], word, arg);
    DefinesScans(lines[1], name, value);
    def := Scan(lines[1]).def;
    EndifReads(lines[2], rest);
    Three(lines[0], lines[1], lines[2]);
    assert lines == [lines[0], lines[1], lines[2]];
  }

  lemma EndifReads(line: CString, rest: CString)
    requires Says(line, "endif", rest)
    ensures Scan(line) == Endif(line)
  {
    hide Scan, Classify;
    Reads(line, "endif", rest);
    GroupWords(rest, line);
  }

  /** Between #ifdef X and #endif a definition is performed if and only if X means something to the
      root. */
  lemma IfdefSelects(h: Host, st: State, lines: seq<CString>, x: CString, behind: CString, name: CString,
                     value: CString,
                     k: seq<Directive>, file: nat, red: nat, depth: nat)
    requires file < |st.slots| && IsSymbol(x, behind) && IsGroup(lines, "ifdef", x + behind, name, value)
    ensures FindIncludes(h, st, ScanAll(lines) + k, file, red, depth)
            == FindIncludes(h, if Meaning(st, x, red).Some? then Bound(st, file, name, value) else st,
                            k, file, red, depth)
  {
    assert Holds(h, st, red, Ifdef(x)) == Decided(Meaning(st, x, red).Some?);
    hide *;
    var def := GroupScans(lines, "ifdef", x + behind, name, value);
    SymbolIs(x, behind, x + behind);
    GroupWords(x + behind, lines[0]);
    OpensAll(x);
    GroupOfOne(h, st, Ifdef(x), def, lines[2], name, value, k, file, red, depth);
  }

  /** ... between #ifndef X and #endif if and only if it does not. */
  lemma IfndefSelects(h: Host, st: State, lines: seq<CString>, x: CString, behind: CString, name: CString,
                      value: CString,
                      k: seq<Directive>, file: nat, red: nat, depth: nat)
    requires file < |st.slots| && IsSymbol(x, behind) && IsGroup(lines, "ifndef", x + behind, name, value)
    ensures FindIncludes(h, st, ScanAll(lines) + k, file, red, depth)
            == FindIncludes(h, if Meaning(st, x, red).None? then Bound(st, file, name, value) else st,
                            k, file, red, depth)
  {
    assert Holds(h, st, red, Ifndef(x)) == Decided(Meaning(st, x, red).None?);
    hide *;
    var def := GroupScans(lines, "ifndef", x + behind, name, value);
    SymbolIs(x, behind, x + behind);
    GroupWords(x + behind, lines[0]);
    OpensAll(x);
    GroupOfOne(h, st, Ifndef(x), def, lines[2], name, value, k, file, red, depth);
  }

  lemma OpensAll(x: CString)
    ensures Opens(Ifdef(x)) && Opens(Ifndef(x)) && Opens(If(x))
  {
  }

  /** `m` is all that symbols mean to a file. */
  ghost predicate AllMeanings(st: State, red: nat, m: map<CString, CString>) {
    forall s: CString {:trigger Meaning(st, s, red)} ::
      Meaning(st, s, red) == if s in m then Some(m[s]) else None
  }

  lemma EnvIsMeanings(st: State, red: nat, m: map<CString, CString>)
    requires AllMeanings(st, red, m)
    ensures Env(st, red) == m
  {
    var env := Env(st, red);
    forall s: CString ensures s in env <==> s in m {
      var v := Meaning(st, s, red);
      if v.Some? { SeenIsNamed(st, s, red); }
    }
    forall s: CString | s in env ensures env[s] == m[s] { assert Meaning(st, s, red) == Some(m[s]); }
  }

  lemma SeenIsNamed(st: State, s: CString, red: nat)
    requires Meaning(st, s, red).Some?
    ensures s in Names(st.slots) + st.command.Keys
  {
    if s !in st.command { FoundDefines(st.slots, s, {}, red); }
  }

  /** Between #if and #endif if and only if the expression, read with all that symbols mean to the root,
      is true; and when that is never decided the scan stops at the line. */
  lemma IfSelects(h: Host, st: State, lines: seq<CString>, exp: CString, m: map<CString, CString>,
                  name: CString, value: CString, k: seq<Directive>, file: nat, red: nat, depth: nat)
    requires file < |st.slots| && IsGroup(lines, "if", exp, name, value) && AllMeanings(st, red, m)
    ensures var o := FindIncludes(h, st, ScanAll(lines) + k, file, red, depth);
            match h.condition(exp, m)
            case Undecided(loss) => o.st == st && o.kind == Halt(Unevaluated(loss))
            case Decided(b) => o == FindIncludes(h, if b then Bound(st, file, name, value) else st, k, file, red, depth)
  {
    EnvIsMeanings(st, red, m);
    assert Holds(h, st, red, If(exp)) == h.condition(exp, m);
    hide *;
    var def := GroupScans(lines, "if", exp, name, value);
    GroupWords(exp, lines[0]);
    OpensAll(exp);
    GroupOfOne(h, st, If(exp), def, lines[2], name, value, k, file, red, depth);
  }

  /** Inside a group, #else, #elif and #endif end it, whatever is behind the word; of an #elif that comes
      up while a group is skipped, the expression is read. */
  lemma GroupsEnd(h: Host, st: State, line: CString, arg: CString, m: map<CString, CString>, k: seq<Directive>,
                  file: nat, red: nat, depth: nat)
    requires file < |st.slots| && depth > 0 && AllMeanings(st, red, m)
    ensures var lines := ScanAll([line]) + k;
            && (Says(line, "else", arg) ==>
                  && FindIncludes(h, st, lines, file, red, depth) == Outcome(st, k, TElse)
                  && Gobble(h, st, red, lines) == (TElse, k))
            && (Says(line, "endif", arg) ==>
                  && FindIncludes(h, st, lines, file, red, depth) == Outcome(st, k, TEndif)
                  && Gobble(h, st, red, lines) == (TEndif, k))
            && (Says(line, "elif", arg) ==>
                  && FindIncludes(h, st, lines, file, red, depth) == Outcome(st, k, TElif)
                  && Gobble(h, st, red, lines) ==
                       (match h.condition(arg, m)
                        case Undecided(loss) => Halt(Unevaluated(loss))
                        case Decided(b) => if b then TElif else TElifFalse, k))
  {
    hide Scan, Classify, Says;
    One(line);
    GroupWords(arg, line);
    if Says(line, "else", arg) {
      Reads(line, "else", arg);
      EndsGroup(h, st, Else(line), k, file, red, depth);
    }
    if Says(line, "endif", arg) {
      Reads(line, "endif", arg);
      EndsGroup(h, st, Endif(line), k, file, red, depth);
    }
    if Says(line, "elif", arg) {
      Reads(line, "elif", arg);
      EnvIsMeanings(st, red, m);
      EndsGroup(h, st, Elif(arg, line), k, file, red, depth);
    }
  }

  lemma EndsGroup(h: Host, st: State, d: Directive, k: seq<Directive>, file: nat, red: nat, depth: nat)
    requires file < |st.slots| && depth > 0 && (d.Else? || d.Elif? || d.Endif?)
    ensures FindIncludes(h, st, [d] + k, file, red, depth)
            == Outcome(st, k, if d.Else? then TElse else if d.Elif? then TElif else TEndif)
    ensures Gobble(h, st, red, [d] + k)
            == (if d.Else? then TElse else if d.Endif? then TEndif
                else match h.condition(d.exp, Env(st, red))
                     case Undecided(loss) => Halt(Unevaluated(loss))
                     case Decided(b) => if b then TElif else TElifFalse, k)
  {
    hide Env;
    assert ([d] + k)[0] == d && ([d] + k)[1..] == k;
  }

  // ---- The other words ------------------------------------------------------------------------

  /** A word that is none of the nine does nothing: line, pragma, error, ident, sccs and eject, and any
      that is not known. */
  lemma OtherWordsDoNothing(h: Host, st: State, line: CString, word: CString, arg: CString, k: seq<Directive>,
                            file: nat, red: nat, depth: nat)
    requires file < |st.slots| && IsWord(word) && Says(line, word, arg)
    requires word != "if" && word != "ifdef" && word != "ifndef" && word != "elif" && word != "else" && word != "endif"
    requires word != "define" && word != "undef" && word != "include"
    ensures FindIncludes(h, st, ScanAll([line]) + k, file, red, depth) == FindIncludes(h, st, k, file, red, depth)
  {
    Nothing(word, arg, line);
    hide *;
    Reads(line, word, arg);
    One(line);
    NothingDone(h, st, Scan(line), k, file, red, depth);
  }

  /** Nor do an #undef without a name ... */
  lemma NamelessUndefDoesNothing(h: Host, st: State, line: CString, arg: CString, k: seq<Directive>,
                                 file: nat, red: nat, depth: nat)
    requires file < |st.slots| && Says(line, "undef", arg) && (arg == "" || !IsVarLetter(arg[0]))
    ensures FindIncludes(h, st, ScanAll([line]) + k, file, red, depth) == FindIncludes(h, st, k, file, red, depth)
  {
    UndefWord(arg, line);
    assert Symbol(arg) == "";
    hide Scan, Classify, Symbol;
    Reads(line, "undef", arg);
    One(line);
    var lines := [Undef("")] + k;
    assert lines[0] == Undef("") && lines[1..] == k;
  }

  /** ... and an #include of what is neither a macro nor has a quote or a bracket in it. */
  lemma IncompleteIncludeDoesNothing(h: Host, st: State, line: CString, arg: CString, k: seq<Directive>,
                                     file: nat, red: nat, depth: nat)
    requires file < |st.slots| && Says(line, "include", arg)
    requires Meaning(st, arg, red).None? && '"' !in arg && '<' !in arg
    ensures FindIncludes(h, st, ScanAll([line]) + k, file, red, depth) == FindIncludes(h, st, k, file, red, depth)
  {
    IncludeWord(arg, line);
    EnvMeans(st, red, arg);
    NoNameIn(arg);
    var env := Env(st, red);
    assert MacroEnd(env, arg, {}) == Some(arg);
    hide Scan, Classify, Meaning, Env, MacroEnd, IncludeName, IncludeArgument;
    Reads(line, "include", arg);
    One(line);
    IncludeArgumentIs(h, st, arg, |line|, file, red, env, st, Some(arg), None);
    NoActGoesOn(h, st, Include(arg, |line|), k, file, red, depth);
  }

  lemma {:induction false} NoNameIn(p: CString)
    requires '"' !in p && '<' !in p
    ensures IncludeName(p).None?
  {
    if p != "" { NoNameIn(p[1..]); }
  }

  lemma NothingDone(h: Host, st: State, d: Directive, k: seq<Directive>, file: nat, red: nat, depth: nat)
    requires file < |st.slots| && (d.Ignored? || d.Unknown?)
    ensures FindIncludes(h, st, [d] + k, file, red, depth) == FindIncludes(h, st, k, file, red, depth)
  {
    assert ([d] + k)[0] == d && ([d] + k)[1..] == k;
  }

  lemma Nothing(word: CString, arg: CString, line: CString)
    requires word != "if" && word != "ifdef" && word != "ifndef" && word != "elif" && word != "else" && word != "endif"
    requires word != "define" && word != "undef" && word != "include"
    ensures Classify(word, arg, line).Ignored? || Classify(word, arg, line).Unknown?
  {
  }

  // ---- include --------------------------------------------------------------------------------

  /** The argument of an #include names a file: in quotes or in brackets, or by a macro for such a text. */
  ghost predicate NamesFile(st: State, red: nat, arg: CString, macro: bool, quoted: bool, name: CString) {
    exists text: CString, behind: CString ::
      && text == (if quoted then "\"" + name + "\"" + behind else "<" + name + ">" + behind)
      && (if quoted then '"' else '>') !in name && Meaning(st, text, red).None?
      && (if macro then Meaning(st, arg, red) == Some(text) else arg == text)
  }

  /** The record that the search for `name` on behalf of `file` comes to: the first of that name that has
      not included through a macro, `file` itself being one that has, if it does now. */
  predicate Fits(st: State, file: nat, macro: bool, name: CString, i: nat) {
    i < st.inclistp && i < |st.slots| && st.slots[i].incstring == name
    && !st.slots[i].includedSym && !(macro && i == file)
  }

  ghost predicate Known(st: State, file: nat, macro: bool, name: CString, target: nat) {
    Fits(st, file, macro, name, target) && forall i: nat :: i < target ==> !Fits(st, file, macro, name, i)
  }

  ghost predicate NotKnown(st: State, file: nat, macro: bool, name: CString) {
    forall i: nat :: !Fits(st, file, macro, name, i)
  }

  lemma {:induction false} UptoClose(name: CString, close: char, behind: CString)
    requires close !in name && close != '\0'
    ensures Upto(name + ([close] + behind), close) == name
  {
    var t := name + ([close] + behind);
    if name != "" {
      assert t[1..] == name[1..] + ([close] + behind) && t[0] == name[0];
      UptoClose(name[1..], close, behind);
    }
  }

  lemma NameIs(text: CString, quoted: bool, name: CString, behind: CString)
    requires text == if quoted then "\"" + name + "\"" + behind else "<" + name + ">" + behind
    requires (if quoted then '"' else '>') !in name
    ensures IncludeName(text) == Some((name, quoted))
  {
    var close := if quoted then '"' else '>';
    var rest := name + ([close] + behind);
    TextIs(text, quoted, name, behind);
    UptoClose(name, close, behind);
    assert IncludeName(text) == Some((Upto(rest, close), quoted)) by { hide Upto; }
  }

  lemma TextIs(text: CString, quoted: bool, name: CString, behind: CString)
    requires text == if quoted then "\"" + name + "\"" + behind else "<" + name + ">" + behind
    ensures text != "" && text[0] == (if quoted then '"' else '<')
    ensures text[1..] == name + ([if quoted then '"' else '>'] + behind)
  {
  }

  lemma EnvMeans(st: State, red: nat, s: CString)
    ensures s in Env(st, red) <==> Meaning(st, s, red).Some?
    ensures s in Env(st, red) ==> Meaning(st, s, red) == Some(Env(st, red)[s])
  {
    if Meaning(st, s, red).Some? { SeenIsNamed(st, s, red); }
  }

  /** What the argument of such an #include comes to. */
  lemma ArgumentIs(st: State, red: nat, arg: CString, macro: bool, quoted: bool, name: CString)
    requires NamesFile(st, red, arg, macro, quoted, name)
    ensures var env := Env(st, red);
            && (arg in env <==> macro) && MacroEnd(env, arg, {}).Some?
            && IncludeName(MacroEnd(env, arg, {}).value) == Some((name, quoted))
  {
    hide Env, Meaning, IncludeName;
    var text: CString, behind: CString :|
      && text == (if quoted then "\"" + name + "\"" + behind else "<" + name + ">" + behind)
      && (if quoted then '"' else '>') !in name && Meaning(st, text, red).None?
      && (if macro then Meaning(st, arg, red) == Some(text) else arg == text);
    EnvMeans(st, red, text);
    EnvMeans(st, red, arg);
    NameIs(text, quoted, name, behind);
    MacroOfOne(Env(st, red), arg, text);
  }

  lemma MacroOfOne(env: map<CString, CString>, arg: CString, text: CString)
    requires text !in env && (arg == text || (arg in env && env[arg] == text))
    ensures MacroEnd(env, arg, {}) == Some(text)
  {
  }

  lemma LookupIs(st: State, file: nat, macro: bool, name: CString)
    requires file < |st.slots| && st.inclistp <= |st.slots|
    ensures var st1 := if macro then MarkSym(st, file) else st;
            match FirstWith(st1.slots, Min(st1.inclistp, |st1.slots|), 0, name)
            case Some(target) => Known(st, file, macro, name, target)
            case None => NotKnown(st, file, macro, name)
  {
    var st1 := if macro then MarkSym(st, file) else st;
    var n := Min(st1.inclistp, |st1.slots|);
    forall i: nat | i < n
      ensures Fits(st, file, macro, name, i) <==> st1.slots[i].incstring == name && !st1.slots[i].includedSym
    {
      if i != file { assert st1.slots[i] == st.slots[i]; }
    }
    var f := FirstWith(st1.slots, n, 0, name);
    if f.Some? {
      assert Fits(st, file, macro, name, f.value);
      forall i: nat | i < f.value ensures !Fits(st, file, macro, name, i) {}
    } else {
      forall i: nat ensures !Fits(st, file, macro, name, i) {
        if i < n { assert st1.slots[i].incstring != name || st1.slots[i].includedSym; }
      }
    }
  }

  lemma OnlyOneKnown(st: State, file: nat, macro: bool, name: CString, a: nat, b: nat)
    requires Known(st, file, macro, name, a) && Known(st, file, macro, name, b)
    ensures a == b
  {
  }

  /** A line of text that includes a file. */
  ghost predicate IsInclude(st: State, red: nat, line: CString, macro: bool, quoted: bool, name: CString) {
    exists arg: CString :: Says(line, "include", arg) && NamesFile(st, red, arg, macro, quoted, name)
  }

  lemma IncludeWord(arg: CString, line: CString)
    ensures Classify("include", arg, line) == Include(arg, |line|)
  {
  }

  lemma IncludeScans(st: State, red: nat, line: CString, macro: bool, quoted: bool, name: CString)
    returns (arg: CString)
    requires IsInclude(st, red, line, macro, quoted, name)
    ensures Scan(line) == Include(arg, |line|) && NamesFile(st, red, arg, macro, quoted, name)
  {
    hide Scan, Classify, Says, NamesFile;
    arg :| Says(line, "include", arg) && NamesFile(st, red, arg, macro, quoted, name);
    Reads(line, "include", arg);
    IncludeWord(arg, line);
  }

  /** `file` includes `target`, a record of `name` which has been read; whatever comes after. */
  ghost predicate Included(st: State, file: nat, target: nat, name: CString) {
    && file < |st.slots| && target in st.slots[file].list
    && target < st.inclistp && target < |st.slots| && st.slots[target].incstring == name && st.slots[target].searched
  }

  lemma StaysIncluded(a: State, b: State, file: nat, target: nat, name: CString)
    requires Grows(a, b) && Included(a, file, target, name) && file < a.inclistp
    ensures Included(b, file, target, name)
  {
    assert SlotGrows(a.slots[file], b.slots[file]) && SlotGrows(a.slots[target], b.slots[target]);
    var k :| 0 <= k < |a.slots[file].list| && a.slots[file].list[k] == target;
    assert b.slots[file].list[k] == target;
  }

  /** The state in which add_include starts, and what it leaves. */
  lemma AddIncludes(h: Host, st: State, file: nat, red: nat, inc: CString, dot: bool, target: nat)
    requires Inv(st) && file < st.inclistp && Target(h, st, file, inc, dot) == Some(target)
    ensures Included(AddInclude(h, st, file, red, inc, dot).st, file, target, inc)
  {
    var o, st' := AddInclude(h, st, file, red, inc, dot), WithRecord(h, st, file, inc, dot);
    AddIncludeKeeps(h, st, file, red, inc, dot);
    NameListed(h, st, file, red, inc, dot);
    assert (file, target) in OfName(h, st, file, red, inc, dot);
    assert Listed(o.st, file, target);
    RecordIsThere(h, st, file, red, inc, dot, target);
    hide AddInclude, OfName, Listed;
    assert ListOk(o.st.slots[file].list, o.st.inclistp);
    var k :| 0 <= k < |o.st.slots[file].list| && o.st.slots[file].list[k] == target;
    assert o.st.slots[target].searched;
  }

  lemma RecordIsThere(h: Host, st: State, file: nat, red: nat, inc: CString, dot: bool, target: nat)
    requires Inv(st) && file < st.inclistp && Target(h, st, file, inc, dot) == Some(target)
    ensures var o := AddInclude(h, st, file, red, inc, dot);
            target < o.st.inclistp && target < |o.st.slots| && o.st.slots[target].incstring == inc
    ensures FirstWith(st.slots, Min(st.inclistp, |st.slots|), 0, inc).None? ==>
              Some(AddInclude(h, st, file, red, inc, dot).st.slots[target].file) ==
                  h.resolve(st.slots[file].file, inc, dot)
  {
    var st' := WithRecord(h, st, file, inc, dot);
    var o := Link(h, st', file, red, target);
    hide Link;
    assert AddInclude(h, st, file, red, inc, dot) == o;
    if FirstWith(st.slots, Min(st.inclistp, |st.slots|), 0, inc).None? {
      NewIncludeKeeps(st, h.resolve(st.slots[file].file, inc, dot).value, inc);
    }
    LinkKeeps(h, st', file, red, target);
    assert SlotGrows(st'.slots[target], o.st.slots[target]);
  }

  /** A line that includes a file in force, well nested or not around it: the record that is known by the
      name, or else a new one for the path that the search on disk gives, is on the list of the file for
      good, read; the search being told whether the name is in quotes. */
  lemma IncludeLinks(h: Host, st: State, line: CString, macro: bool, quoted: bool, name: CString, target: nat,
                     k: seq<Directive>, file: nat, red: nat, depth: nat)
    requires Inv(st) && file < st.inclistp && IsInclude(st, red, line, macro, quoted, name)
    requires || Known(st, file, macro, name, target)
             || (&& NotKnown(st, file, macro, name) && h.resolve(st.slots[file].file, name, quoted).Some?
                 && target == st.inclistp && st.inclistp + 2 < |st.slots|)
    ensures Included(FindIncludes(h, st, ScanAll([line]) + k, file, red, depth).st, file, target, name)
    ensures NotKnown(st, file, macro, name) ==>
              Some(FindIncludes(h, st, ScanAll([line]) + k, file, red, depth).st.slots[target].file)
              == h.resolve(st.slots[file].file, name, quoted)
    ensures macro ==> FindIncludes(h, st, ScanAll([line]) + k, file, red, depth).st.slots[file].includedSym
  {
    var st1 := if macro then MarkSym(st, file) else st;
    var o := AddInclude(h, st1, file, red, name, quoted);
    var arg := IncludeScans(st, red, line, macro, quoted, name);
    MarkSymKeeps(st, file);
    assert st1.slots[file].file == st.slots[file].file && st1.inclistp == st.inclistp && Inv(st1);
    assert macro ==> st1.slots[file].includedSym;
    hide *;
    One(line);
    ArgumentIs(st, red, arg, macro, quoted, name);
    TargetIs(h, st, file, macro, quoted, name, target, st1);
    AddIncludes(h, st1, file, red, name, quoted, target);
    RecordIsThere(h, st1, file, red, name, quoted, target);
    AddIncludeKeeps(h, st1, file, red, name, quoted);
    ActIncludes(h, st, arg, |line|, file, red, name, quoted, st1);
    GoesOn(h, st, Include(arg, |line|), k, file, red, depth);
    AllStay(h, st1, o.st, FindIncludes(h, st, ScanAll([line]) + k, file, red, depth).st, file, target, name, macro,
        quoted);
  }

  lemma TargetIs(h: Host, st: State, file: nat, macro: bool, quoted: bool, name: CString, target: nat, st1: State)
    requires Inv(st) && file < st.inclistp && st1 == if macro then MarkSym(st, file) else st
    requires || Known(st, file, macro, name, target)
             || (&& NotKnown(st, file, macro, name) && h.resolve(st.slots[file].file, name, quoted).Some?
                 && target == st.inclistp && st.inclistp + 2 < |st.slots|)
    ensures Target(h, st1, file, name, quoted) == Some(target)
    ensures NotKnown(st, file, macro, name) <==> FirstWith(st1.slots, Min(st1.inclistp, |st1.slots|), 0, name).None?
  {
    LookupIs(st, file, macro, name);
    var f := FirstWith(st1.slots, Min(st1.inclistp, |st1.slots|), 0, name);
    if Known(st, file, macro, name, target) && f.Some? { OnlyOneKnown(st, file, macro, name, f.value, target); }
    hide FirstWith;
  }

  lemma ActIncludes(h: Host, st: State, arg: CString, room: nat, file: nat, red: nat, name: CString, dot: bool,
                    st1: State)
    requires file < |st.slots| && |st1.slots| == |st.slots|
    requires var env := Env(st, red);
             && st1 == (if arg in env then MarkSym(st, file) else st) && MacroEnd(env, arg, {}).Some?
             && IncludeName(MacroEnd(env, arg, {}).value) == Some((name, dot))
    ensures Act(h, st, Include(arg, room), file, red).st == AddInclude(h, st1, file, red, name, dot).st
  {
    hide Env, MacroEnd, IncludeName, AddInclude, MarkSym, IncludeArgument;
    var env := Env(st, red);
    IncludeArgumentIs(h, st, arg, room, file, red, env, st1, MacroEnd(env, arg, {}), Some((name, dot)));
  }

  /** Whatever follows an #include, it only adds to what that has left. */
  lemma GoesOn(h: Host, st: State, d: Directive, k: seq<Directive>, file: nat, red: nat, depth: nat)
    requires Inv(st) && file < st.inclistp && d.Include?
    ensures Grows(Act(h, st, d, file, red).st, FindIncludes(h, st, [d] + k, file, red, depth).st)
  {
    var lines, o := [d] + k, Act(h, st, d, file, red);
    assert lines[0] == d && lines[1..] == k;
    ActKeeps(h, st, d, file, red);
    SameKeeps(o.st);
    if !o.kind.Halt? { ScanKeeps(h, o.st, k, file, red, depth); }
    hide Act, Grows, Inv;
  }

  lemma AllStay(h: Host, st1: State, a: State, b: State, file: nat, target: nat, name: CString, macro: bool,
                quoted: bool)
    requires Keeps(st1, a) && Grows(a, b) && Included(a, file, target, name) && file < st1.inclistp
    ensures Included(b, file, target, name) && b.slots[target].file == a.slots[target].file
    ensures file < |st1.slots| && (st1.slots[file].includedSym ==> b.slots[file].includedSym)
  {
    StaysIncluded(a, b, file, target, name);
    assert SlotGrows(a.slots[target], b.slots[target]);
    assert SlotGrows(st1.slots[file], a.slots[file]) && SlotGrows(a.slots[file], b.slots[file]);
  }

  /** ... and when the name is not known and not found, nothing happens. */
  lemma NotFoundDoesNothing(h: Host, st: State, line: CString, quoted: bool, name: CString, k: seq<Directive>,
                            file: nat, red: nat, depth: nat)
    requires Inv(st) && file < st.inclistp && IsInclude(st, red, line, false, quoted, name)
    requires NotKnown(st, file, false, name) && h.resolve(st.slots[file].file, name, quoted).None?
    ensures FindIncludes(h, st, ScanAll([line]) + k, file, red, depth) == FindIncludes(h, st, k, file, red, depth)
  {
    var arg := IncludeScans(st, red, line, false, quoted, name);
    LookupIs(st, file, false, name);
    var d := Include(arg, |line|);
    assert AddInclude(h, st, file, red, name, quoted) == Outcome(st, [], Eof);
    assert file < |st.slots|;
    hide *;
    One(line);
    ArgumentIs(st, red, arg, false, quoted, name);
    NoAct(h, st, arg, |line|, file, red, name, quoted);
    NoActGoesOn(h, st, d, k, file, red, depth);
  }

  lemma NoAct(h: Host, st: State, arg: CString, room: nat, file: nat, red: nat, name: CString, dot: bool)
    requires file < |st.slots| && AddInclude(h, st, file, red, name, dot) == Outcome(st, [], Eof)
    requires var env := Env(st, red);
             && arg !in env && MacroEnd(env, arg, {}).Some?
             && IncludeName(MacroEnd(env, arg, {}).value) == Some((name, dot))
    ensures Act(h, st, Include(arg, room), file, red) == Outcome(st, [], Eof)
  {
    hide Env, MacroEnd, IncludeName, AddInclude, IncludeArgument;
    var env := Env(st, red);
    IncludeArgumentIs(h, st, arg, room, file, red, env, st, MacroEnd(env, arg, {}), Some((name, dot)));
  }

  lemma NoActGoesOn(h: Host, st: State, d: Directive, k: seq<Directive>, file: nat, red: nat, depth: nat)
    requires file < |st.slots| && d.Include? && Act(h, st, d, file, red) == Outcome(st, [], Eof)
    ensures FindIncludes(h, st, [d] + k, file, red, depth) == FindIncludes(h, st, k, file, red, depth)
  {
    var lines := [d] + k;
    assert lines[0] == d && lines[1..] == k;
    hide Act;
  }

  /** ... and when it is found and the last but two of the slots is taken, the scan stops there. */
  lemma NoSlotStops(h: Host, st: State, line: CString, quoted: bool, name: CString, k: seq<Directive>,
                    file: nat, red: nat, depth: nat)
    requires Inv(st) && file < st.inclistp && IsInclude(st, red, line, false, quoted, name)
    requires NotKnown(st, file, false, name) && h.resolve(st.slots[file].file, name, quoted).Some?
    requires st.inclistp + 2 >= |st.slots|
    ensures FindIncludes(h, st, ScanAll([line]) + k, file, red, depth) == Outcome(st, k, Halt(OutOfSlots))
  {
    var arg := IncludeScans(st, red, line, false, quoted, name);
    LookupIs(st, file, false, name);
    var d := Include(arg, |line|);
    assert AddInclude(h, st, file, red, name, quoted) == Outcome(st, [], Halt(OutOfSlots));
    assert file < |st.slots|;
    hide *;
    One(line);
    ArgumentIs(st, red, arg, false, quoted, name);
    StopsAct(h, st, arg, |line|, file, red, name, quoted);
    StopsThere(h, st, d, k, file, red, depth);
  }

  lemma StopsAct(h: Host, st: State, arg: CString, room: nat, file: nat, red: nat, name: CString, dot: bool)
    requires file < |st.slots| && AddInclude(h, st, file, red, name, dot) == Outcome(st, [], Halt(OutOfSlots))
    requires var env := Env(st, red);
             && arg !in env && MacroEnd(env, arg, {}).Some?
             && IncludeName(MacroEnd(env, arg, {}).value) == Some((name, dot))
    ensures Act(h, st, Include(arg, room), file, red) == Outcome(st, [], Halt(OutOfSlots))
  {
    hide Env, MacroEnd, IncludeName, AddInclude, IncludeArgument;
    var env := Env(st, red);
    IncludeArgumentIs(h, st, arg, room, file, red, env, st, MacroEnd(env, arg, {}), Some((name, dot)));
  }

  lemma StopsThere(h: Host, st: State, d: Directive, k: seq<Directive>, file: nat, red: nat, depth: nat)
    requires file < |st.slots| && d.Include? && Act(h, st, d, file, red) == Outcome(st, [], Halt(OutOfSlots))
    ensures FindIncludes(h, st, [d] + k, file, red, depth) == Outcome(st, k, Halt(OutOfSlots))
  {
    var lines := [d] + k;
    assert lines[0] == d && lines[1..] == k;
    hide Act;
  }
}
