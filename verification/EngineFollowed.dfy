/** When the scan is followed to its end, or to the fatal error of a full array: a condition on the
    texts alone. */
module EngineFollowed {
  import opened Options
  import opened SymbolTable
  import opened IncludePaths
  import opened IfParser
  import opened SymbolLookup
  import opened Directives
  import opened Engine

  /** The scan is not stopped by anything but a full array. */
  predicate Ends(kind: Type) {
    kind.Halt? ==> kind.why == OutOfSlots
  }

  /** A length for the names of included files, and a rank for the names whose definitions are looked
      up: those of variables in conditions and of macros in #include lines. */
  datatype Bounds = Bounds(room: nat, rank: string -> Option<nat>)

  /** An argument that names a file itself. */
  predicate NamesAFile(arg: CString) {
    arg != "" && (arg[0] == '"' || arg[0] == '<')
  }

  predicate NameFits(b: Bounds, value: CString) {
    IncludeName(value).Some? ==> |IncludeName(value).value.0| <= b.room
  }

  /** A definition of a name that is looked up leads to one of lower rank, so that no chain comes back;
      and a file that it names fits the lines that include through a macro. */
  predicate BindingOk(b: Bounds, name: CString, value: CString) {
    && (b.rank(name).Some? ==> b.rank(value).Some? && b.rank(value).value < b.rank(name).value)
    && NameFits(b, value) && !NamesAFile(name)
  }

  ghost predicate TableOk(b: Bounds, m: map<CString, CString>) {
    forall s :: s in m ==> BindingOk(b, s, m[s])
  }

  ghost predicate StateOk(b: Bounds, st: State) {
    TableOk(b, st.command) && forall i :: 0 <= i < |st.slots| ==> TableOk(b, st.slots[i].symbols)
  }

  /** The expression is decided by any such definitions. */
  ghost predicate Decides(h: Host, b: Bounds, exp: CString) {
    forall env :: TableOk(b, env) ==> h.condition(exp, env).Decided?
  }

  predicate DefinitionOk(b: Bounds, def: CString) {
    var (name, value) := DefineParts(def);
    BindingOk(b, name, value)
  }

  ghost predicate LineOk(h: Host, b: Bounds, d: Directive) {
    match d
    case If(exp) => Decides(h, b, exp)
    case Elif(exp, text) => Decides(h, b, exp) && DefinitionOk(b, text)
    case Else(text) => DefinitionOk(b, text)
    case Endif(text) => DefinitionOk(b, text)
    case Define(def) => DefinitionOk(b, def)
    case Include(arg, room) => NamesAFile(arg) || (b.rank(arg).Some? && b.room <= room)
    case _ => true
  }

  ghost predicate LinesOk(h: Host, b: Bounds, lines: seq<Directive>) {
    forall i :: 0 <= i < |lines| ==> LineOk(h, b, lines[i])
  }

  ghost predicate HostOk(h: Host, b: Bounds) {
    forall path :: LinesOk(h, b, ScanAll(h.contents(path)))
  }

  // ---- The records ----------------------------------------------------------------------------

  lemma SetSlotOk(b: Bounds, st: State, i: nat, s: Slot)
    requires i < |st.slots| && (st.slots[i].searched ==> s.searched) && StateOk(b, st) && TableOk(b, s.symbols)
    ensures StateOk(b, SetSlot(st, i, s))
  {
  }

  lemma DefineOk(b: Bounds, st: State, file: nat, def: CString)
    requires file < |st.slots| && StateOk(b, st) && DefinitionOk(b, def)
    ensures StateOk(b, DefineIn(st, file, def))
  {
    hide DefineParts, BindingOk;
    var (name, val) := DefineParts(def);
    SetSlotOk(b, st, file, st.slots[file].(symbols := st.slots[file].symbols[name := val]));
  }

  lemma UndefineOk(b: Bounds, st: State, red: nat, name: CString)
    requires StateOk(b, st)
    ensures StateOk(b, UndefineFrom(st, red, name))
  {
    hide BindingOk;
  }

  lemma MarkSymOk(b: Bounds, st: State, file: nat)
    requires file < |st.slots| && StateOk(b, st)
    ensures StateOk(b, MarkSym(st, file))
  {
    hide BindingOk;
  }

  lemma EnvOk(b: Bounds, st: State, red: nat)
    requires StateOk(b, st)
    ensures TableOk(b, Env(st, red))
  {
    hide Found, BindingOk;
    var env := Env(st, red);
    forall s | s in env ensures BindingOk(b, s, env[s]) {
      if s !in st.command {
        FoundDefines(st.slots, s, {}, red);
      }
    }
  }

  lemma TestDecides(h: Host, b: Bounds, st: State, red: nat, exp: CString)
    requires StateOk(b, st) && Decides(h, b, exp)
    ensures Test(h, st, red, exp).Decided?
  {
    hide StateOk, TableOk, Env;
    EnvOk(b, st, red);
  }

  lemma HoldsDecides(h: Host, b: Bounds, st: State, red: nat, d: Directive)
    requires StateOk(b, st) && LineOk(h, b, d) && Opens(d)
    ensures Holds(h, st, red, d).Decided?
  {
    hide StateOk, Test, Decides;
    if d.If? { TestDecides(h, b, st, red, d.exp); }
  }

  /** A chain of macros goes down in rank, so it ends; and a name of a file at its end fits. */
  lemma {:induction false} MacroEndOk(b: Bounds, env: map<CString, CString>, p: CString, seen: set<CString>)
    requires TableOk(b, env) && b.rank(p).Some? && (p in env || NameFits(b, p))
    requires forall s :: s in seen ==> b.rank(s).Some? && b.rank(s).value > b.rank(p).value
    ensures MacroEnd(env, p, seen).Some? && NameFits(b, MacroEnd(env, p, seen).value)
    decreases env.Keys - seen
  {
    hide NameFits;
    if p in env {
      assert BindingOk(b, p, env[p]);
      MacroEndOk(b, env, env[p], seen + {p});
    }
  }

  // ---- Skipping -------------------------------------------------------------------------------

  lemma RestOk(h: Host, b: Bounds, lines: seq<Directive>)
    requires LinesOk(h, b, lines) && lines != []
    ensures LinesOk(h, b, lines[1..]) && LineOk(h, b, lines[0])
  {
    hide LineOk;
  }

  lemma ElifDecides(h: Host, b: Bounds, st: State, red: nat, d: Directive)
    requires StateOk(b, st) && LineOk(h, b, d) && d.Elif?
    ensures !ElifType(Test(h, st, red, d.exp)).Halt?
  {
    hide StateOk, Test, Decides;
    TestDecides(h, b, st, red, d.exp);
  }

  lemma {:induction false} GobbleOk(h: Host, b: Bounds, st: State, red: nat, lines: seq<Directive>)
    requires StateOk(b, st) && LinesOk(h, b, lines)
    ensures var g := Gobble(h, st, red, lines); LinesOk(h, b, g.1) && !g.0.Halt?
    decreases |lines|, 0
  {
    hide StateOk, LinesOk, LineOk, Test, ElifType;
    if lines != [] {
      var d, rest := lines[0], lines[1..];
      RestOk(h, b, lines);
      if Opens(d) {
        var g := Gobble(h, st, red, rest);
        GobbleOk(h, b, st, red, rest);
        SkipRestOk(h, b, st, red, g.1, g.0);
        GobbleOk(h, b, st, red, SkipRest(h, st, red, g.1, g.0).1);
      } else if d.Elif? {
        ElifDecides(h, b, st, red, d);
      } else if !d.Else? && !d.Endif? {
        GobbleOk(h, b, st, red, rest);
      }
    }
  }

  lemma {:induction false} SkipRestOk(h: Host, b: Bounds, st: State, red: nat, lines: seq<Directive>, kind: Type)
    requires StateOk(b, st) && LinesOk(h, b, lines) && !kind.Halt?
    ensures var s := SkipRest(h, st, red, lines, kind); LinesOk(h, b, s.1) && !s.0.Halt?
    decreases |lines|, 1
  {
    hide StateOk, LinesOk, Test;
    if kind == TElif || kind == TElifFalse || kind == TElse {
      var g := Gobble(h, st, red, lines);
      GobbleOk(h, b, st, red, lines);
      if kind != TElse && g.0 != Eof { SkipRestOk(h, b, st, red, g.1, g.0); }
    }
  }

  // ---- The scan -------------------------------------------------------------------------------

  ghost predicate Good(h: Host, b: Bounds, o: Outcome) {
    StateOk(b, o.st) && LinesOk(h, b, o.rest) && Ends(o.kind)
  }

  /** What goes wrong in a scan shows in the texts: when every condition is decided, every chain of
      macros of an #include goes down in rank, and every name reached through a macro fits its line,
      then no scan is left before its end, unless the array of records is full. */
  lemma {:induction false} ScanIsFollowed(h: Host, b: Bounds, st: State, lines: seq<Directive>, file: nat, red: nat,
                                          depth: nat)
    requires file < |st.slots| && HostOk(h, b) && StateOk(b, st) && LinesOk(h, b, lines)
    ensures Good(h, b, FindIncludes(h, st, lines, file, red, depth))
    decreases Unsearched(st.slots), |lines|, 0
  {
    if lines != [] {
      hide StateOk, LinesOk, HostOk, LineOk, Holds, Gobble, DefineIn, Groups, Act;
      var d, rest := lines[0], lines[1..];
      RestOk(h, b, lines);
      if Opens(d) {
        HoldsDecides(h, b, st, red, d);
        var v := Holds(h, st, red, d);
        GroupsFollowed(h, b, st, v, rest, file, red, depth);
        var o := Groups(h, st, v, rest, file, red, depth);
        if !o.kind.Halt? { ScanIsFollowed(h, b, o.st, o.rest, file, red, depth); }
      } else if (d.Else? || d.Elif? || d.Endif?) && depth > 0 {
      } else if d.Else? || d.Elif? {
        StrayOk(h, b, st, d, file);
        GobbleOk(h, b, st, red, rest);
        ScanIsFollowed(h, b, DefineIn(st, file, d.text), Gobble(h, st, red, rest).1, file, red, depth);
      } else {
        ActFollowed(h, b, st, d, file, red);
        var o := Act(h, st, d, file, red);
        if !o.kind.Halt? { ScanIsFollowed(h, b, o.st, rest, file, red, depth); }
      }
    }
  }

  lemma StrayOk(h: Host, b: Bounds, st: State, d: Directive, file: nat)
    requires file < |st.slots| && StateOk(b, st) && LineOk(h, b, d) && (d.Else? || d.Elif?)
    ensures StateOk(b, DefineIn(st, file, d.text))
  {
    hide StateOk, DefinitionOk, Decides, DefineIn;
    DefineOk(b, st, file, d.text);
  }

  lemma {:induction false} GroupsFollowed(h: Host, b: Bounds, st: State, v: Verdict, lines: seq<Directive>,
                                          file: nat, red: nat, depth: nat)
    requires file < |st.slots| && HostOk(h, b) && StateOk(b, st) && LinesOk(h, b, lines) && v.Decided?
    ensures Good(h, b, Groups(h, st, v, lines, file, red, depth))
    decreases Unsearched(st.slots), |lines|, 2
  {
    hide StateOk, LinesOk, HostOk, DoIf, DoIfFalse;
    if v.holds {
      DoIfFollowed(h, b, st, lines, file, red, depth);
    } else {
      DoIfFalseFollowed(h, b, st, lines, file, red, depth);
    }
  }

  lemma {:induction false} DoIfFollowed(h: Host, b: Bounds, st: State, lines: seq<Directive>, file: nat, red: nat,
                                        depth: nat)
    requires file < |st.slots| && HostOk(h, b) && StateOk(b, st) && LinesOk(h, b, lines)
    ensures Good(h, b, DoIf(h, st, lines, file, red, depth))
    decreases Unsearched(st.slots), |lines|, 1
  {
    hide StateOk, LinesOk, HostOk, SkipRest, FindIncludes;
    ScanIsFollowed(h, b, st, lines, file, red, depth + 1);
    var o := FindIncludes(h, st, lines, file, red, depth + 1);
    if !o.kind.Halt? { SkipRestOk(h, b, o.st, red, o.rest, o.kind); }
  }

  lemma {:induction false} DoIfFalseFollowed(h: Host, b: Bounds, st: State, lines: seq<Directive>, file: nat,
                                             red: nat, depth: nat)
    requires file < |st.slots| && HostOk(h, b) && StateOk(b, st) && LinesOk(h, b, lines)
    ensures Good(h, b, DoIfFalse(h, st, lines, file, red, depth))
    decreases Unsearched(st.slots), |lines|, 1
  {
    hide StateOk, LinesOk, HostOk, Gobble, FindIncludes, DoIf;
    var g := Gobble(h, st, red, lines);
    GobbleOk(h, b, st, red, lines);
    match g.0
    case TElse => ScanIsFollowed(h, b, st, g.1, file, red, depth + 1);
    case TElif => DoIfFollowed(h, b, st, g.1, file, red, depth);
    case TElifFalse => DoIfFalseFollowed(h, b, st, g.1, file, red, depth);
    case _ =>
  }

  ghost predicate Done(b: Bounds, o: Outcome) {
    StateOk(b, o.st) && Ends(o.kind)
  }

  lemma {:induction false} ActFollowed(h: Host, b: Bounds, st: State, d: Directive, file: nat, red: nat)
    requires file < |st.slots| && HostOk(h, b) && StateOk(b, st) && LineOk(h, b, d)
    ensures Done(b, Act(h, st, d, file, red))
    decreases Unsearched(st.slots), 0, 4
  {
    hide StateOk, HostOk, DefinitionOk, Decides, DefineIn, UndefineFrom, IncludeArgument;
    match d
    case Endif(text) => DefineOk(b, st, file, text);
    case Define(def) => DefineOk(b, st, file, def);
    case Undef(name) => UndefineOk(b, st, red, name);
    case Include(arg, room) => IncludeFollowed(h, b, st, arg, room, file, red);
    case _ =>
  }

  lemma {:induction false} IncludeFollowed(h: Host, b: Bounds, st: State, arg: CString, room: nat, file: nat, red: nat)
    requires file < |st.slots| && HostOk(h, b) && StateOk(b, st) && LineOk(h, b, Include(arg, room))
    ensures Done(b, IncludeArgument(h, st, arg, room, file, red))
    decreases Unsearched(st.slots), 0, 3
  {
    var marked := MarkSym(st, file);
    assert |marked.slots| == |st.slots| && Unsearched(marked.slots) <= Unsearched(st.slots);
    hide *;
    var env := Env(st, red);
    var p := MacroEnd(env, arg, {});
    var name := if p.Some? then IncludeName(p.value) else None;
    EnvOk(b, st, red);
    ArgumentOk(h, b, env, arg, room);
    MarkSymOk(b, st, file);
    var st' := if arg in env then marked else st;
    IncludeArgumentIs(h, st, arg, room, file, red, env, st', p, name);
    if name.Some? {
      AddIncludeFollowed(h, b, st', file, red, name.value.0, name.value.1);
      DoneIs(b, AddInclude(h, st', file, red, name.value.0, name.value.1));
    }
    DoneIs(b, IncludeArgument(h, st, arg, room, file, red));
  }

  lemma DoneIs(b: Bounds, o: Outcome)
    ensures Done(b, o) <==> StateOk(b, o.st) && (o.kind.Halt? ==> o.kind.why == OutOfSlots)
  {
    hide StateOk;
  }

  /** The argument of an #include leads to a text, and a name reached through a macro fits the line. */
  lemma ArgumentOk(h: Host, b: Bounds, env: map<CString, CString>, arg: CString, room: nat)
    requires LineOk(h, b, Include(arg, room)) && TableOk(b, env)
    ensures var p := MacroEnd(env, arg, {});
            p.Some? && (arg in env && IncludeName(p.value).Some? ==> |IncludeName(p.value).value.0| <= room)
  {
    hide IncludeName;
    if arg in env {
      assert BindingOk(b, arg, env[arg]);
      MacroEndOk(b, env, arg, {});
    }
  }

  lemma {:induction false} AddIncludeFollowed(h: Host, b: Bounds, st: State, file: nat, red: nat, inc: CString,
                                              dot: bool)
    requires file < |st.slots| && HostOk(h, b) && StateOk(b, st)
    ensures Done(b, AddInclude(h, st, file, red, inc, dot))
    decreases Unsearched(st.slots), 0, 2
  {
    hide HostOk, Link, BindingOk;
    match FirstWith(st.slots, Min(st.inclistp, |st.slots|), 0, inc)
    case Some(target) => LinkFollowed(h, b, st, file, red, target);
    case None =>
      match h.resolve(st.slots[file].file, inc, dot)
      case None =>
      case Some(path) =>
        match NewInclude(st, path, inc)
        case None =>
        case Some(st') => LinkFollowed(h, b, st', file, red, st.inclistp);
  }

  lemma {:induction false} LinkFollowed(h: Host, b: Bounds, st: State, file: nat, red: nat, target: nat)
    requires file < |st.slots| && target < |st.slots| && HostOk(h, b) && StateOk(b, st)
    ensures Done(b, Link(h, st, file, red, target))
    decreases Unsearched(st.slots), 0, 1
  {
    hide FindIncludes, BindingOk, LineOk;
    var st1 := IncludedBy(st, file, target);
    assert StateOk(b, st1);
    if !st1.slots[target].searched {
      var st2 := SetSlot(st1, target, st1.slots[target].(searched := true));
      SetSlotOk(b, st1, target, st1.slots[target].(searched := true));
      var st3 := st2.(scanned := st2.scanned + [target]);
      assert LinesOk(h, b, ScanAll(h.contents(st3.slots[target].file)));
      ScanIsFollowed(h, b, st3, ScanAll(h.contents(st3.slots[target].file)), target, red, 0);
    }
  }
}
