/** The scan of makedepend as a function: find_includes, gobble and deftype select the lines in force,
    and add_include scans every file it meets for the first time.  Total on every stream of
    directives, well nested or not. */
module Engine {
  import opened Options
  import opened SymbolTable
  import opened IncludePaths
  import opened IfParser
  import opened Directives
  import opened FileRecords
  import opened SymbolLookup
  import Dependencies

  /** The records, the first free slot, the definitions of the command line, and the slots whose
      files add_include has read and scanned, in order. */
  datatype State = State(slots: Slots, inclistp: nat, command: map<CString, CString>, scanned: seq<nat>)

  /** The rest of the world: where an include file is, which `#` lines a file holds, and what #if makes
      of an expression, given the definitions it can see. */
  datatype Host = Host(
    resolve: (CString, CString, bool) -> Option<CString>,
    contents: CString -> seq<CString>,
    condition: (CString, map<CString, CString>) -> Verdict)

  /** Why the scan is not followed any further: the array of records is full, which is a fatal error;
      macros of an #include run in a circle, on which C loops for ever; the name of a file, reached
      through a macro, has been copied over more than its own line, so that what C reads next is not
      the text of the file; or the evaluation of a condition never returns, or leaves its line. */
  datatype Why = OutOfSlots | EndlessMacro | Overwritten | Unevaluated(loss: Loss)

  /** The types find_includes and gobble return; Halt when the program stops, never returns, or goes on
      as the model does not say. */
  datatype Type = Eof | TElse | TEndif | TElif | TElifFalse | Halt(why: Why)

  datatype Outcome = Outcome(st: State, rest: seq<Directive>, kind: Type)

  // ---- Looking symbols up ---------------------------------------------------------------------

  function Names(slots: Slots): set<CString> {
    set i, s | 0 <= i < |slots| && s in slots[i].symbols :: s
  }

  /** All that isdefined sees from `red`. */
  function Env(st: State, red: nat): map<CString, CString> {
    map s | s in Names(st.slots) + st.command.Keys && Visible(st.slots, st.command, s, red).Some?
      :: Visible(st.slots, st.command, s, red).value
  }

  function Test(h: Host, st: State, red: nat, exp: CString): Verdict {
    h.condition(exp, Env(st, red))
  }

  function IsDefined(st: State, red: nat, name: CString): bool {
    Visible(st.slots, st.command, name, red).Some?
  }

  // ---- Changing the records -------------------------------------------------------------------

  function Unsearched(slots: Slots): nat {
    if slots == [] then 0
    else Unsearched(slots[..|slots| - 1]) + (if slots[|slots| - 1].searched then 0 else 1)
  }

  lemma {:induction false} UnsearchedUpdate(slots: Slots, i: nat, s: Slot)
    requires i < |slots|
    ensures Unsearched(slots[i := s]) + (if slots[i].searched then 0 else 1) ==
              Unsearched(slots) + (if s.searched then 0 else 1)
  {
    var n := |slots| - 1;
    if i < n {
      assert slots[i := s][..n] == slots[..n][i := s];
      UnsearchedUpdate(slots[..n], i, s);
    } else {
      assert slots[i := s][..n] == slots[..n];
    }
  }

  lemma {:induction false} UnsearchedSame(a: Slots, b: Slots)
    requires |a| == |b| && forall i :: 0 <= i < |a| ==> a[i].searched == b[i].searched
    ensures Unsearched(a) == Unsearched(b)
  {
    if a != [] { UnsearchedSame(a[..|a| - 1], b[..|b| - 1]); }
  }

  /** No slot becomes unsearched. */
  predicate NoMore(before: State, after: State) {
    |after.slots| == |before.slots| && Unsearched(after.slots) <= Unsearched(before.slots)
  }

  function SetSlot(st: State, i: nat, s: Slot): (r: State)
    requires i < |st.slots| && (st.slots[i].searched ==> s.searched)
    ensures NoMore(st, r)
    ensures !st.slots[i].searched && s.searched ==> Unsearched(r.slots) < Unsearched(st.slots)
  {
    UnsearchedUpdate(st.slots, i, s);
    st.(slots := st.slots[i := s])
  }

  /** define: bind a symbol in the table of `file`. */
  function DefineIn(st: State, file: nat, def: CString): (r: State)
    requires file < |st.slots|
    ensures NoMore(st, r)
  {
    var (name, val) := DefineParts(def);
    SetSlot(st, file, st.slots[file].(symbols := st.slots[file].symbols[name := val]))
  }

  /** undefine: remove a symbol from the command line and from all that `red` reaches. */
  function UndefineFrom(st: State, red: nat, name: CString): (r: State)
    ensures NoMore(st, r)
  {
    var reached := Dependencies.Visit(st.slots, {}, [red]);
    var slots := seq(|st.slots|, i requires 0 <= i < |st.slots| =>
      if i in reached then st.slots[i].(symbols := st.slots[i].symbols - {name}) else st.slots[i]);
    UnsearchedSame(st.slots, slots);
    State(slots, st.inclistp, st.command - {name}, st.scanned)
  }

  /** The lookup loop of inc_path: the first record with this include string that is not marked as
      having included through a macro. */
  function FirstWith(slots: Slots, n: nat, i: nat, inc: CString): (r: Option<nat>)
    requires n <= |slots|
    ensures r.Some? ==> i <= r.value < n && slots[r.value].incstring == inc && !slots[r.value].includedSym
    ensures r.Some? ==> forall k :: i <= k < r.value ==> slots[k].incstring != inc || slots[k].includedSym
    ensures r.None? ==> forall k :: i <= k < n ==> slots[k].incstring != inc || slots[k].includedSym
    decreases n - i
  {
    if i >= n then None
    else if slots[i].incstring == inc && !slots[i].includedSym then Some(i)
    else FirstWith(slots, n, i + 1, inc)
  }

  /** newinclude: take the next slot; None is the fatal error of a full array. */
  function NewInclude(st: State, path: CString, inc: CString): (r: Option<State>)
    ensures r.Some? ==> NoMore(st, r.value) && st.inclistp < |st.slots| && r.value.inclistp == st.inclistp + 1
  {
    if st.inclistp + 2 >= |st.slots| then None
    else
      var slot := st.slots[st.inclistp].(file := path, incstring := inc, includedSym := false);
      Some(SetSlot(st, st.inclistp, slot).(inclistp := st.inclistp + 1))
  }

  /** included_by: append to the list of `file` unless it is there. */
  function IncludedBy(st: State, file: nat, target: nat): (r: State)
    requires file < |st.slots|
    ensures NoMore(st, r)
  {
    if target in st.slots[file].list then st
    else SetSlot(st, file, st.slots[file].(list := st.slots[file].list + [target]))
  }

  /** The text at the end of a chain of macros that starts at the argument of an #include. */
  function MacroEnd(env: map<CString, CString>, p: CString, seen: set<CString>): Option<CString>
    decreases env.Keys - seen
  {
    if p !in env then Some(p) else if p in seen then None else MacroEnd(env, env[p], seen + {p})
  }

  // ---- Skipping -------------------------------------------------------------------------------

  predicate Opens(d: Directive) {
    d.If? || d.Ifdef? || d.Ifndef?
  }

  /** gobble: skip to the #else, #elif or #endif of this group.  The condition of every #elif on the
      way, in a nested group too, is evaluated whether or not it matters. */
  function Gobble(h: Host, st: State, red: nat, lines: seq<Directive>): (r: (Type, seq<Directive>))
    ensures |r.1| <= |lines| && (r.0 != Eof ==> |r.1| < |lines|)
    decreases |lines|, 0
  {
    if lines == [] then (Eof, [])
    else
      var d, rest := lines[0], lines[1..];
      if Opens(d) then
        var g := Gobble(h, st, red, rest);
        var s := SkipRest(h, st, red, g.1, g.0);
        if s.0.Halt? then s else Gobble(h, st, red, s.1)
      else if d.Else? then (TElse, rest)
      else if d.Endif? then (TEndif, rest)
      else if d.Elif? then (ElifType(Test(h, st, red, d.exp)), rest)
      else Gobble(h, st, red, rest)
  }

  function ElifType(v: Verdict): Type {
    match v
    case Decided(holds) => if holds then TElif else TElifFalse
    case Undecided(loss) => Halt(Unevaluated(loss))
  }

  /** The loop after a group in force: skip every #elif group, and the #else group. */
  function SkipRest(h: Host, st: State, red: nat, lines: seq<Directive>, kind: Type): (r: (Type, seq<Directive>))
    ensures |r.1| <= |lines| && (r.0 == Eof || r.0.Halt?)
    decreases |lines|, 1
  {
    if kind == TElif || kind == TElifFalse then
      var g := Gobble(h, st, red, lines);
      if g.0 == Eof then g else SkipRest(h, st, red, g.1, g.0)
    else if kind == TElse then
      var g := Gobble(h, st, red, lines);
      (if g.0.Halt? then g.0 else Eof, g.1)
    else (if kind.Halt? then kind else Eof, lines)
  }

  // ---- Scanning -------------------------------------------------------------------------------

  /** find_includes, in nesting depth `depth`, for `file` on behalf of the root `red`. */
  function FindIncludes(h: Host, st: State, lines: seq<Directive>, file: nat, red: nat, depth: nat): (r: Outcome)
    requires file < |st.slots|
    ensures NoMore(st, r.st) && |r.rest| <= |lines|
    decreases Unsearched(st.slots), |lines|, 0
  {
    if lines == [] then Outcome(st, [], Eof)
    else
      var d, rest := lines[0], lines[1..];
      if Opens(d) then
        var o := Groups(h, st, Holds(h, st, red, d), rest, file, red, depth);
        if o.kind.Halt? then o else FindIncludes(h, o.st, o.rest, file, red, depth)
      else if (d.Else? || d.Elif? || d.Endif?) && depth > 0 then
        Outcome(st, rest, if d.Else? then TElse else if d.Elif? then TElif else TEndif)
      else if d.Else? || d.Elif? then
        // a stray one: skip to the end of the group, then fall through to define with the line itself
        var g := Gobble(h, st, red, rest);
        if g.0.Halt? then Outcome(st, g.1, g.0) else FindIncludes(h, DefineIn(st, file, d.text), g.1, file, red, depth)
      else
        var o := Act(h, st, d, file, red);
        if o.kind.Halt? then o.(rest := rest) else FindIncludes(h, o.st, rest, file, red, depth)
  }

  /** Does the line that opens a group put it in force? */
  function Holds(h: Host, st: State, red: nat, d: Directive): Verdict
    requires Opens(d)
  {
    match d
    case If(exp) => Test(h, st, red, exp)
    case Ifdef(name) => Decided(IsDefined(st, red, name))
    case Ifndef(name) => Decided(!IsDefined(st, red, name))
  }

  /** What a group that opens with verdict `v` comes to, with the rest of its chain. */
  function Groups(h: Host, st: State, v: Verdict, lines: seq<Directive>, file: nat, red: nat, depth: nat): (r: Outcome)
    requires file < |st.slots|
    ensures NoMore(st, r.st) && |r.rest| <= |lines|
    decreases Unsearched(st.slots), |lines|, 2
  {
    match v
    case Undecided(loss) => Outcome(st, lines, Halt(Unevaluated(loss)))
    case Decided(holds) =>
      if holds then DoIf(h, st, lines, file, red, depth) else DoIfFalse(h, st, lines, file, red, depth)
  }

  /** The label doif: the first group is in force, the others are skipped. */
  function DoIf(h: Host, st: State, lines: seq<Directive>, file: nat, red: nat, depth: nat): (r: Outcome)
    requires file < |st.slots|
    ensures NoMore(st, r.st) && |r.rest| <= |lines|
    decreases Unsearched(st.slots), |lines|, 1
  {
    var o := FindIncludes(h, st, lines, file, red, depth + 1);
    if o.kind.Halt? then o
    else
      var s := SkipRest(h, o.st, red, o.rest, o.kind);
      Outcome(o.st, s.1, s.0)
  }

  /** The label doiffalse: the first group is skipped. */
  function DoIfFalse(h: Host, st: State, lines: seq<Directive>, file: nat, red: nat, depth: nat): (r: Outcome)
    requires file < |st.slots|
    ensures NoMore(st, r.st) && |r.rest| <= |lines|
    decreases Unsearched(st.slots), |lines|, 1
  {
    var g := Gobble(h, st, red, lines);
    match g.0
    case TElse => FindIncludes(h, st, g.1, file, red, depth + 1)
    case TElif => DoIf(h, st, g.1, file, red, depth)
    case TElifFalse => DoIfFalse(h, st, g.1, file, red, depth)
    case Halt(_) => Outcome(st, g.1, g.0)
    case _ => Outcome(st, g.1, Eof)
  }

  /** A line in force that opens or closes no group. */
  function Act(h: Host, st: State, d: Directive, file: nat, red: nat): (r: Outcome)
    requires file < |st.slots|
    ensures NoMore(st, r.st)
    decreases Unsearched(st.slots), 0, 4
  {
    match d
    case Endif(text) => Outcome(DefineIn(st, file, text), [], Eof)
    case Define(def) => Outcome(DefineIn(st, file, def), [], Eof)
    case Undef(name) => Outcome(if name == "" then st else UndefineFrom(st, red, name), [], Eof)
    case Include(arg, room) => IncludeArgument(h, st, arg, room, file, red)
    case _ => Outcome(st, [], Eof)
  }

  /** The record of a file that has included through a macro. */
  function MarkSym(st: State, file: nat): (r: State)
    requires file < |st.slots|
    ensures NoMore(st, r)
  {
    SetSlot(st, file, st.slots[file].(includedSym := true))
  }

  /** #include: follow macros to the file name, which is copied over the line, of length `room`. */
  function IncludeArgument(h: Host, st: State, arg: CString, room: nat, file: nat, red: nat): (r: Outcome)
    requires file < |st.slots|
    ensures NoMore(st, r.st)
    decreases Unsearched(st.slots), 0, 3
  {
    var env := Env(st, red);
    match MacroEnd(env, arg, {})
    case None => Outcome(st, [], Halt(EndlessMacro))
    case Some(p) =>
      var st := if arg in env then MarkSym(st, file) else st;
      match IncludeName(p)
      case None => Outcome(st, [], Eof)
      case Some(name) =>
        var o := AddInclude(h, st, file, red, name.0, name.1);
        if arg in env && |name.0| > room && !o.kind.Halt? then o.(kind := Halt(Overwritten)) else o
  }

  /** What an #include comes to, from its macros and their end. */
  lemma IncludeArgumentIs(h: Host, st: State, arg: CString, room: nat, file: nat, red: nat,
                          env: map<CString, CString>, st': State, p: Option<CString>, name: Option<(CString, bool)>)
    requires file < |st.slots| && file < |st'.slots|
    requires env == Env(st, red) && st' == (if arg in env then MarkSym(st, file) else st)
    requires p == MacroEnd(env, arg, {}) && name == if p.Some? then IncludeName(p.value) else None
    ensures IncludeArgument(h, st, arg, room, file, red) ==
            if p.None? then Outcome(st, [], Halt(EndlessMacro))
            else if name.None? then Outcome(st', [], Eof)
            else
              var o := AddInclude(h, st', file, red, name.value.0, name.value.1);
              if arg in env && |name.value.0| > room && !o.kind.Halt? then o.(kind := Halt(Overwritten)) else o
  {
    hide Env, MacroEnd, IncludeName, AddInclude, MarkSym;
  }

  /** add_include with inc_path: find the record of the include file or make one, link it, and scan
      the file unless that has been done. */
  function AddInclude(h: Host, st: State, file: nat, red: nat, inc: CString, dot: bool): (r: Outcome)
    requires file < |st.slots|
    ensures NoMore(st, r.st)
    decreases Unsearched(st.slots), 0, 2
  {
    match FirstWith(st.slots, Min(st.inclistp, |st.slots|), 0, inc)
    case Some(target) => Link(h, st, file, red, target)
    case None =>
      match h.resolve(st.slots[file].file, inc, dot)
      case None => Outcome(st, [], Eof)
      case Some(path) =>
        match NewInclude(st, path, inc)
        case None => Outcome(st, [], Halt(OutOfSlots))
        case Some(st') => Link(h, st', file, red, st.inclistp)
  }

  function Link(h: Host, st: State, file: nat, red: nat, target: nat): (r: Outcome)
    requires file < |st.slots| && target < |st.slots|
    ensures NoMore(st, r.st)
    decreases Unsearched(st.slots), 0, 1
  {
    var st := IncludedBy(st, file, target);
    if st.slots[target].searched then Outcome(st, [], Eof)
    else
      var st' := SetSlot(st, target, st.slots[target].(searched := true));
      var st'' := st'.(scanned := st'.scanned + [target]);
      FindIncludes(h, st'', ScanAll(h.contents(st''.slots[target].file)), target, red, 0)
  }
}
