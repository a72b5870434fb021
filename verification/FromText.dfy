/** The parts of makedepend joined: from the text of the files to the dependencies that are printed. */
module FromText {
  import opened Options
  import opened SymbolTable
  import opened IncludePaths
  import opened IfParser
  import opened Directives
  import opened Engine
  import opened EngineTrees
  import opened EngineInvariants
  import opened EngineFollowed
  import opened EngineInclusions
  import opened MainLoop
  import Dependencies
  import G = GetLine
  import B = GetLineBare
  import C = Cppsetup
  import P = IfParserProofs
  import R = IfParserRoundTrip

  predicate NulFree(s: string) { forall i :: 0 <= i < |s| ==> s[i] != '\0' }

  // ---- The lines of a file --------------------------------------------------------------------

  lemma {:induction false} RunNulFree(pre: string, t: string, n: nat)
    requires NulFree(pre) && NulFree(t)
    ensures var r := G.Run(pre, t, n); NulFree(r.1) && (r.0.Some? ==> NulFree(r.0.value))
    decreases |t|, 0
  {
    if t == "" {
    } else if G.StartsWith(t, '/', '*') {
      RunCommentNulFree(pre + "  ", t[2..], n);
    } else if G.StartsWith(t, '\\', '\n') {
      RunNulFree(pre + "  ", t[2..], n + 1);
    } else if t[0] == '\n' {
      if !G.IsHash(pre) {
        RunNulFree("", t[1..], n + 1);
      } else if G.Bare(pre) && |t| > 1 {
        RunNulFree("", t[2..], n + 1);
      }
    } else {
      RunNulFree(pre + [t[0]], t[1..], n);
    }
  }

  lemma {:induction false} RunCommentNulFree(pre: string, t: string, n: nat)
    requires NulFree(pre) && NulFree(t)
    ensures var r := G.RunComment(pre, t, n); NulFree(r.1) && (r.0.Some? ==> NulFree(r.0.value))
    decreases |t|, 1
  {
    if t == "" {
      RunNulFree(pre, "", n);
    } else if G.StartsWith(t, '*', '/') {
      RunNulFree(pre + "  ", t[2..], n);
    } else {
      RunCommentNulFree(pre + " ", t[1..], n + if t[0] == '\n' then 1 else 0);
    }
  }

  /** The # lines of a text, as the scan gets them. */
  function LinesOf(t: CString): (lines: seq<CString>)
    ensures lines == G.AllLines(t)
    decreases |t|
  {
    RunNulFree("", t, 0);
    var r := G.Run("", t, 0);
    if r.0.None? then [] else [r.0.value] + LinesOf(r.1)
  }

  // ---- The world the scan works in ------------------------------------------------------------

  /** Files by path, the search for a file, and what C leaves open in an expression. */
  datatype Files = Files(
    text: CString -> CString,
    resolve: (CString, CString, bool) -> Option<CString>,
    escape: string -> int,
    undefined: (Op, int, int) -> int)

  /** getline reads the files, and cppsetup evaluates the conditions. */
  ghost function HostOf(f: Files): Host {
    Host(f.resolve,
         (path: CString) => LinesOf(f.text(path)),
         (exp: CString, env: map<CString, CString>) => C.Condition(C.Parser(env, f.escape, f.undefined), exp))
  }

  /** However it is spaced, #if with a printed expression is true exactly when the tree's value is not
      0, with the definitions then visible; and it is decided exactly when no variable of the tree is
      defined in a circle. */
  lemma PrintedCondition(f: Files, st: State, red: nat, gap: CString, space: CString, e: R.Expr, text: CString)
    requires R.WellFormed(e) && R.WellFormed(R.Parenthesize(e, 0)) && text == R.Print(R.Parenthesize(e, 0))
    requires AllBlank(gap) && AllBlank(space) && space != "" && (text == "" || !IsBlank(text[0]))
    ensures Scan(Line(gap, "if", space, text)) == If(text)
    ensures var v := Holds(HostOf(f), st, red, If(text));
            && v == C.TreeVerdict(C.Parser(Env(st, red), f.escape, f.undefined), e)
            && (v.Decided? <==> forall x: CString :: x in R.Variables(e) ==> C.ChainEnd(Env(st, red), x, {}).Some?)
  {
    PrintedLine(gap, space, text);
    hide *;
    HoldsPrinted(f, st, red, e, text);
    C.DecidedExactly(Env(st, red), f.escape, f.undefined, e);
  }

  lemma PrintedLine(gap: CString, space: CString, text: CString)
    requires AllBlank(gap) && AllBlank(space) && space != "" && (text == "" || !IsBlank(text[0]))
    ensures Scan(Line(gap, "if", space, text)) == If(text)
  {
    hide Scan, Classify, Line;
    ScanOfLine(gap, "if", space, text);
    IfWord(text, Line(gap, "if", space, text));
  }

  lemma HoldsPrinted(f: Files, st: State, red: nat, e: R.Expr, text: CString)
    requires R.WellFormed(e) && R.WellFormed(R.Parenthesize(e, 0)) && text == R.Print(R.Parenthesize(e, 0))
    ensures Opens(If(text))
    ensures Holds(HostOf(f), st, red, If(text)) == C.TreeVerdict(C.Parser(Env(st, red), f.escape, f.undefined), e)
  {
    assert C.IsCString(text);
    hide *;
    HoldsIf(f, st, red, text);
    C.ConditionOfTree(C.Parser(Env(st, red), f.escape, f.undefined), e);
  }

  lemma HoldsIf(f: Files, st: State, red: nat, exp: CString)
    ensures Opens(If(exp))
    ensures Holds(HostOf(f), st, red, If(exp)) == C.Condition(C.Parser(Env(st, red), f.escape, f.undefined), exp)
  {
    hide C.Condition, C.Parser, Env;
  }

  lemma IfWord(arg: CString, line: CString)
    ensures Classify("if", arg, line) == If(arg)
  {
  }

  // ---- Conditions that are decided ------------------------------------------------------------

  /** A chain of definitions that goes down in rank ends. */
  lemma {:induction false} RankedChainEnds(b: Bounds, env: C.Env, v: CString, seen: set<CString>)
    requires TableOk(b, env) && b.rank(v).Some?
    requires forall s :: s in seen ==> b.rank(s).Some? && b.rank(s).value > b.rank(v).value
    ensures C.ChainEnd(env, v, seen).Some?
    decreases env.Keys - seen
  {
    hide NameFits;
    match C.Next(env, v)
    case None =>
    case Some(w) =>
      assert BindingOk(b, v, env[v]);
      RankedChainEnds(b, env, w, seen + {v});
  }

  /** An expression on a line is decided, whatever it is, when its quotes come in pairs and its names
      are ranked. */
  lemma PairedIsDecided(f: Files, b: Bounds, exp: CString)
    requires !P.Unpaired(exp) && forall x :: x in P.Names(exp, false) ==> b.rank(x).Some?
    ensures Decides(HostOf(f), b, exp)
  {
    forall env | TableOk(b, env) ensures HostOf(f).condition(exp, env).Decided? {
      var g := C.Parser(env, f.escape, f.undefined);
      forall x | x in P.Names(exp, false) ensures g.evalVariable(x).Some? { RankedHasValue(f, b, env, x); }
      P.PairedAndAnswered(g, exp);
      hide P.Names, P.Unpaired, C.Parser, ParseIfExpression;
    }
  }

  lemma RankedHasValue(f: Files, b: Bounds, env: C.Env, x: string)
    requires TableOk(b, env) && b.rank(x).Some?
    ensures C.Parser(env, f.escape, f.undefined).evalVariable(x).Some?
  {
    hide TableOk, C.ChainEnd;
    if C.IsCString(x) { RankedChainEnds(b, env, x, {}); }
  }

  /** A printed expression is decided when its variables are ranked; a name that is only an operand of
      `defined` need not be. */
  lemma PrintedIsDecided(f: Files, b: Bounds, e: R.Expr, text: CString)
    requires R.WellFormed(e) && R.WellFormed(R.Parenthesize(e, 0)) && text == R.Print(R.Parenthesize(e, 0))
    requires forall x :: x in R.Variables(e) ==> b.rank(x).Some?
    ensures Decides(HostOf(f), b, text)
  {
    forall env | TableOk(b, env) ensures HostOf(f).condition(text, env).Decided? {
      var g := C.Parser(env, f.escape, f.undefined);
      forall x: CString | x in R.Variables(e) ensures C.ChainEnd(env, x, {}).Some? { RankedChainEnds(b, env, x, {}); }
      C.ConditionOfTree(g, e);
      C.DecidedExactly(env, f.escape, f.undefined, e);
      hide R.Print, R.Variables, C.Parser, C.Condition, C.TreeVerdict, C.ChainEnd, TableOk;
    }
  }

  // ---- A condition that is not ----------------------------------------------------------------

  lemma SelfDefinitionParts(name: CString, def: CString)
    requires R.IsName(name) && def == name + (" " + name)
    ensures DefineParts(def) == (name, name)
  {
    R.NameLengthOf(name, " " + name);
    assert def[..|name|] == name && def[|name| + 1..] == name;
  }

  lemma DefinedIsVisible(st: State, file: nat, def: CString, name: CString, value: CString)
    requires file < |st.slots| && name !in st.command && DefineParts(def) == (name, value)
    ensures var env := Env(DefineIn(st, file, def), file); name in env && env[name] == value
  {
    var st' := DefineIn(st, file, def);
    assert st'.slots[file].symbols[name] == value && st'.command == st.command;
    assert Found(st'.slots, name, {}, file) == Some(file);
    assert name in Names(st'.slots);
    hide DefineIn;
  }

  /** Behind #define A A, the line #if A is as far as the scan is followed: C loops for ever there. */
  lemma SelfDefinitionStopsTheScan(f: Files, st: State, file: nat, name: CString, def: CString, k: seq<Directive>)
    requires file < |st.slots| && name !in st.command
    requires R.IsName(name) && !AtDefined(name) && |name| <= C.MAXNAMELEN && def == name + (" " + name)
    ensures FindIncludes(HostOf(f), st, [Define(def)] + ([If(name)] + k), file, file, 0)
            == Outcome(DefineIn(st, file, def), k, Halt(Unevaluated(Endless)))
  {
    var h, st', last := HostOf(f), DefineIn(st, file, def), [If(name)] + k;
    assert |st'.slots| == |st.slots|;
    hide *;
    SelfDefinitionParts(name, def);
    DefinedIsVisible(st, file, def, name, name);
    C.SelfDefinitionIsEndless(Env(st', file), f.escape, f.undefined, name);
    HoldsIf(f, st', file, name);
    PerformsDefine(h, st, def, last, file);
    StopsAtIf(h, st', name, k, file);
  }

  lemma PerformsDefine(h: Host, st: State, def: CString, k: seq<Directive>, file: nat)
    requires file < |st.slots|
    ensures FindIncludes(h, st, [Define(def)] + k, file, file, 0) ==
              FindIncludes(h, DefineIn(st, file, def), k, file, file, 0)
  {
    var lines := [Define(def)] + k;
    assert lines[0] == Define(def) && lines[1..] == k;
    hide DefineIn;
  }

  lemma StopsAtIf(h: Host, st: State, exp: CString, k: seq<Directive>, file: nat)
    requires file < |st.slots| && Opens(If(exp)) && Holds(h, st, file, If(exp)) == Undecided(Endless)
    ensures FindIncludes(h, st, [If(exp)] + k, file, file, 0) == Outcome(st, k, Halt(Unevaluated(Endless)))
  {
    var lines := [If(exp)] + k;
    assert lines[0] == If(exp) && lines[1..] == k;
    hide Holds, DoIf, DoIfFalse;
  }

  // ---- The theorem ----------------------------------------------------------------------------

  /** The # lines of a text, comments and continuations blanked, bare lines dropped, are those of a
      well-nested structure; and no bare line does harm. */
  ghost predicate Means(t: CString, items: Items) {
    && WellFormed(items)
    && B.Mild(G.LinesFrom("", G.Blank(t)))
    && exists lines: seq<CString> :: lines == B.Kept(G.LinesFrom("", G.Blank(t))) && ScanAll(lines) == Emit(items, [])
  }

  lemma ScanOfText(t: CString, items: Items)
    requires Means(t, items)
    ensures ScanAll(LinesOf(t)) == Emit(items, [])
  {
    B.ReturnsTheKeptLines(t);
  }

  /** From the text of a file of the command line to what is printed for it.  The scan performs what
      the structure of the text means, in a world in which getline reads every file and the evaluator
      computes every condition.  Conditions being decided, macros not running in a circle where an
      #include follows them, and names reached through them fitting the line, it is followed to its
      end or to a full array; and the report lists every file that the inclusions lead to, those of
      earlier files and those that the structure of the text puts in force, except the file itself, once,
      each of which has been read. */
  lemma FromTextToReport(f: Files, st: State, name: CString, items: Items, b: Bounds, e: Inclusions)
    requires Inv(st) && Shows(st, e) && Means(f.text(name), items)
    requires HostOk(HostOf(f), b) && StateOk(b, st)
    requires NewInclude(st, name, name).Some?
    ensures var h, root := HostOf(f), st.inclistp;
            var st1, o := NewInclude(st, name, name).value, ScanRoot(h, st, name);
            var x := Exec(h, st1, items, root, root);
            && o.st == x.st && (o.kind.Halt? ==> o.kind == Halt(OutOfSlots))
            && (if x.kind.Halt? then o.kind == x.kind else o.kind == Eof && o.rest == [])
            && (!o.kind.Halt? ==>
                  IsReport(o.st, e + InItems(h, st1, items, root, root), root,
                           Dependencies.DependenciesOf(o.st.slots, root)))
  {
    var h, root := HostOf(f), st.inclistp;
    var st1 := NewInclude(st, name, name).value;
    ScanOfText(f.text(name), items);
    assert h.contents(name) == LinesOf(f.text(name));
    RootOk(b, st, name);
    LinesAreOk(h, b, name);
    hide Inv, Means, HostOk, StateOk, LinesOk, FindIncludes, Exec, HostOf, IsReport, Dependencies.DependenciesOf;
    hide Emit, LinesOf, Shows, Performed, InItems;
    ScansStructure(h, st1, items, root, root);
    ScanIsFollowed(h, b, st1, Emit(items, []), root, root, 0);
    RootInclusions(h, st, name, items);
    if !ScanRoot(h, st, name).kind.Halt? { ReportsClosure(h, st, name, e); }
  }

  /** The inclusions of a file of the command line are those of its structure. */
  lemma RootInclusions(h: Host, st: State, name: CString, items: Items)
    requires WellFormed(items) && NewInclude(st, name, name).Some? && ScanAll(h.contents(name)) == Emit(items, [])
    ensures ForRoot(h, st, name) == InItems(h, NewInclude(st, name, name).value, items, st.inclistp, st.inclistp)
  {
    var st1 := NewInclude(st, name, name).value;
    var x := Exec(h, st1, items, st.inclistp, st.inclistp);
    assert Performed(h, x.st, [], st.inclistp, st.inclistp, 0) == {};
    hide Performed, InItems, Exec, Emit;
    PerformsStructure(h, st1, items, [], st.inclistp, st.inclistp, 0);
  }

  lemma RootOk(b: Bounds, st: State, name: CString)
    requires StateOk(b, st) && NewInclude(st, name, name).Some?
    ensures StateOk(b, NewInclude(st, name, name).value)
  {
    hide BindingOk;
  }

  lemma LinesAreOk(h: Host, b: Bounds, name: CString)
    requires HostOk(h, b)
    ensures LinesOk(h, b, ScanAll(h.contents(name)))
  {
    hide LineOk;
  }
}
