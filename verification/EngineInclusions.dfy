/** The inclusions that a scan performs, kept beside it, and the lists of the records: they come to the
    same. */
module EngineInclusions {
  import opened Options
  import opened SymbolTable
  import opened IncludePaths
  import opened IfParser
  import opened Directives
  import opened Engine
  import opened EngineInvariants
  import opened EngineTrees

  /** Pairs of a file and a file it includes, by slot number. */
  type Inclusions = set<(nat, nat)>

  // ---- What is performed ----------------------------------------------------------------------

  /** The record that an #include of `inc` in `file` comes to: the one that is found, or the next free
      one; none when there is no such file or no more room. */
  function Target(h: Host, st: State, file: nat, inc: CString, dot: bool): (r: Option<nat>)
    requires file < |st.slots|
    ensures r.Some? ==> r.value < |st.slots|
  {
    match FirstWith(st.slots, Min(st.inclistp, |st.slots|), 0, inc)
    case Some(target) => Some(target)
    case None =>
      if h.resolve(st.slots[file].file, inc, dot).None? || NewInclude(st, "", inc).None? then None
      else Some(st.inclistp)
  }

  /** The inclusions of find_includes on these lines, those in the files it reads on the way too. */
  function Performed(h: Host, st: State, lines: seq<Directive>, file: nat, red: nat, depth: nat): Inclusions
    requires file < |st.slots|
    decreases Unsearched(st.slots), |lines|, 0
  {
    if lines == [] then {}
    else
      var d, rest := lines[0], lines[1..];
      if Opens(d) then
        var v := Holds(h, st, red, d);
        var o := Groups(h, st, v, rest, file, red, depth);
        InGroups(h, st, v, rest, file, red, depth)
        + if o.kind.Halt? then {} else Performed(h, o.st, o.rest, file, red, depth)
      else if (d.Else? || d.Elif? || d.Endif?) && depth > 0 then {}
      else if d.Else? || d.Elif? then
        var g := Gobble(h, st, red, rest);
        if g.0.Halt? then {} else Performed(h, DefineIn(st, file, d.text), g.1, file, red, depth)
      else
        var o := Act(h, st, d, file, red);
        OfLine(h, st, d, file, red) + if o.kind.Halt? then {} else Performed(h, o.st, rest, file, red, depth)
  }

  /** Of a chain of groups: those of the group that is in force. */
  function InGroups(h: Host, st: State, v: Verdict, lines: seq<Directive>, file: nat, red: nat, depth: nat): Inclusions
    requires file < |st.slots|
    decreases Unsearched(st.slots), |lines|, 1
  {
    match v
    case Undecided(_) => {}
    case Decided(true) => Performed(h, st, lines, file, red, depth + 1)
    case Decided(false) =>
      var g := Gobble(h, st, red, lines);
      match g.0
      case TElse => Performed(h, st, g.1, file, red, depth + 1)
      case TElif => Performed(h, st, g.1, file, red, depth + 1)
      case TElifFalse => InGroups(h, st, Decided(false), g.1, file, red, depth)
      case _ => {}
  }

  /** Of one line in force: one, and those in the file it names, if that has not been read before. */
  function OfLine(h: Host, st: State, d: Directive, file: nat, red: nat): Inclusions
    requires file < |st.slots|
    decreases Unsearched(st.slots), 0, 3
  {
    if !d.Include? then {}
    else
      var env := Env(st, red);
      match MacroEnd(env, d.arg, {})
      case None => {}
      case Some(p) =>
        match IncludeName(p)
        case None => {}
        case Some(name) =>
          OfName(h, if d.arg in env then MarkSym(st, file) else st, file, red, name.0, name.1)
  }

  function OfName(h: Host, st: State, file: nat, red: nat, inc: CString, dot: bool): Inclusions
    requires file < |st.slots|
    decreases Unsearched(st.slots), 0, 2
  {
    match Target(h, st, file, inc, dot)
    case None => {}
    case Some(target) =>
      {(file, target)} + InFile(h, WithRecord(h, st, file, inc, dot), file, red, target)
  }

  /** The records when the one that `inc` comes to is there. */
  function WithRecord(h: Host, st: State, file: nat, inc: CString, dot: bool): (r: State)
    requires file < |st.slots| && Target(h, st, file, inc, dot).Some?
    ensures NoMore(st, r)
  {
    if FirstWith(st.slots, Min(st.inclistp, |st.slots|), 0, inc).Some? then st
    else NewInclude(st, h.resolve(st.slots[file].file, inc, dot).value, inc).value
  }

  function InFile(h: Host, st: State, file: nat, red: nat, target: nat): Inclusions
    requires file < |st.slots| && target < |st.slots|
    decreases Unsearched(st.slots), 0, 1
  {
    var st := IncludedBy(st, file, target);
    if st.slots[target].searched then {}
    else
      var st' := SetSlot(st, target, st.slots[target].(searched := true));
      var st'' := st'.(scanned := st'.scanned + [target]);
      Performed(h, st'', ScanAll(h.contents(st''.slots[target].file)), target, red, 0)
  }

  // ---- What is recorded -----------------------------------------------------------------------

  /** `t` is on the list of `i`. */
  ghost predicate Listed(st: State, i: nat, t: nat) {
    i < |st.slots| && t in st.slots[i].list
  }

  /** The lists say what `e` says. */
  ghost predicate Shows(st: State, e: Inclusions) {
    forall i: nat, t: nat :: Listed(st, i, t) <==> (i, t) in e
  }

  /** Exactly the inclusions of `e` have been added to the lists. */
  ghost predicate Gains(a: State, b: State, e: Inclusions) {
    |b.slots| == |a.slots| && forall i: nat, t: nat :: Listed(b, i, t) <==> Listed(a, i, t) || (i, t) in e
  }

  lemma GainsNothing(a: State, b: State)
    requires |b.slots| == |a.slots| && forall i :: 0 <= i < |a.slots| ==> b.slots[i].list == a.slots[i].list
    ensures Gains(a, b, {})
  {
  }

  lemma GainsBoth(a: State, b: State, c: State, e: Inclusions, f: Inclusions)
    requires Gains(a, b, e) && Gains(b, c, f)
    ensures Gains(a, c, e + f)
  {
    hide Listed;
  }

  lemma GainsSame(a: State, b: State, e: Inclusions, f: Inclusions)
    requires Gains(a, b, e) && e == f
    ensures Gains(a, b, f)
  {
  }

  lemma ShowsMore(a: State, b: State, e: Inclusions, f: Inclusions)
    requires Shows(a, e) && Gains(a, b, f)
    ensures Shows(b, e + f)
  {
    hide Listed;
  }

  lemma LinkGains(st: State, file: nat, target: nat)
    requires file < |st.slots|
    ensures Gains(st, IncludedBy(st, file, target), {(file, target)})
  {
    var st' := IncludedBy(st, file, target);
    forall i: nat, t: nat ensures Listed(st', i, t) <==> Listed(st, i, t) || (i, t) in {(file, target)} {
      if i == file && target !in st.slots[file].list {
        assert st'.slots[file].list == st.slots[file].list + [target];
      }
    }
  }

  lemma SetSlotGains(st: State, i: nat, s: Slot)
    requires i < |st.slots| && (st.slots[i].searched ==> s.searched) && s.list == st.slots[i].list
    ensures Gains(st, SetSlot(st, i, s), {})
  {
    GainsNothing(st, SetSlot(st, i, s));
  }

  lemma DefineGains(st: State, file: nat, def: CString)
    requires file < |st.slots|
    ensures Gains(st, DefineIn(st, file, def), {})
  {
    hide DefineParts;
    GainsNothing(st, DefineIn(st, file, def));
  }

  lemma UndefineGains(st: State, red: nat, name: CString)
    ensures Gains(st, UndefineFrom(st, red, name), {})
  {
    GainsNothing(st, UndefineFrom(st, red, name));
  }

  lemma Onward(a: State, b: State, c: State, e: Inclusions, f: Inclusions, halts: bool)
    requires Gains(a, b, e) && (!halts ==> Gains(b, c, f))
    ensures Gains(a, if halts then b else c, e + if halts then {} else f)
  {
    if halts { GainsSame(a, b, e, e + {}); } else { GainsBoth(a, b, c, e, f); }
  }

  lemma After(a: State, b: State, c: State, f: Inclusions)
    requires Gains(a, b, {}) && Gains(b, c, f)
    ensures Gains(a, c, f)
  {
    GainsBoth(a, b, c, {}, f);
    GainsSame(a, c, {} + f, f);
  }

  // ---- They are the same ----------------------------------------------------------------------

  /** A scan adds to the lists exactly the inclusions it performs: every #include in force whose file is
      known or found puts that file on the list of its own, read before or not, and nothing else does. */
  lemma {:induction false} PerformedIsListed(h: Host, st: State, lines: seq<Directive>, file: nat, red: nat, depth: nat)
    requires file < |st.slots|
    ensures Gains(st, FindIncludes(h, st, lines, file, red, depth).st, Performed(h, st, lines, file, red, depth))
    decreases Unsearched(st.slots), |lines|, 0
  {
    hide Gains, Holds, Gobble, DefineIn, Act, Groups, InGroups, OfLine;
    if lines == [] {
      GainsNothing(st, st);
    } else {
      var d, rest := lines[0], lines[1..];
      if Opens(d) {
        var v := Holds(h, st, red, d);
        var o := Groups(h, st, v, rest, file, red, depth);
        GroupsListed(h, st, v, rest, file, red, depth);
        if !o.kind.Halt? { PerformedIsListed(h, o.st, o.rest, file, red, depth); }
        Onward(st, o.st, FindIncludes(h, o.st, o.rest, file, red, depth).st,
               InGroups(h, st, v, rest, file, red, depth), Performed(h, o.st, o.rest, file, red, depth), o.kind.Halt?);
      } else if (d.Else? || d.Elif? || d.Endif?) && depth > 0 {
        GainsNothing(st, st);
      } else if d.Else? || d.Elif? {
        var g := Gobble(h, st, red, rest);
        if g.0.Halt? {
          GainsNothing(st, st);
        } else {
          var st' := DefineIn(st, file, d.text);
          DefineGains(st, file, d.text);
          PerformedIsListed(h, st', g.1, file, red, depth);
          After(st, st', FindIncludes(h, st', g.1, file, red, depth).st, Performed(h, st', g.1, file, red, depth));
        }
      } else {
        var o := Act(h, st, d, file, red);
        LineListed(h, st, d, file, red);
        if !o.kind.Halt? { PerformedIsListed(h, o.st, rest, file, red, depth); }
        Onward(st, o.st, FindIncludes(h, o.st, rest, file, red, depth).st,
               OfLine(h, st, d, file, red), Performed(h, o.st, rest, file, red, depth), o.kind.Halt?);
      }
    }
  }

  lemma {:induction false} GroupsListed(h: Host, st: State, v: Verdict, lines: seq<Directive>,
                                        file: nat, red: nat, depth: nat)
    requires file < |st.slots|
    ensures Gains(st, Groups(h, st, v, lines, file, red, depth).st, InGroups(h, st, v, lines, file, red, depth))
    decreases Unsearched(st.slots), |lines|, 1
  {
    hide Gains, Gobble, FindIncludes, Performed;
    match v
    case Undecided(_) => GainsNothing(st, st);
    case Decided(true) => PerformedIsListed(h, st, lines, file, red, depth + 1);
    case Decided(false) =>
      var g := Gobble(h, st, red, lines);
      match g.0
      case TElse => PerformedIsListed(h, st, g.1, file, red, depth + 1);
      case TElif =>
        assert Groups(h, st, v, lines, file, red, depth) == DoIf(h, st, g.1, file, red, depth);
        PerformedIsListed(h, st, g.1, file, red, depth + 1);
      case TElifFalse => GroupsListed(h, st, Decided(false), g.1, file, red, depth);
      case _ => GainsNothing(st, st);
  }

  lemma {:induction false} LineListed(h: Host, st: State, d: Directive, file: nat, red: nat)
    requires file < |st.slots|
    ensures Gains(st, Act(h, st, d, file, red).st, OfLine(h, st, d, file, red))
    decreases Unsearched(st.slots), 0, 3
  {
    hide Gains, DefineIn, UndefineFrom, IncludeArgument;
    match d
    case Endif(text) => DefineGains(st, file, text);
    case Define(def) => DefineGains(st, file, def);
    case Undef(name) => if name == "" { GainsNothing(st, st); } else { UndefineGains(st, red, name); }
    case Include(arg, room) => ArgumentListed(h, st, arg, room, file, red);
    case _ => GainsNothing(st, st);
  }

  lemma OfLineIs(h: Host, st: State, arg: CString, room: nat, file: nat, red: nat,
                 env: map<CString, CString>, st': State, p: Option<CString>, name: Option<(CString, bool)>)
    requires file < |st.slots| && |st'.slots| == |st.slots|
    requires env == Env(st, red) && st' == (if arg in env then MarkSym(st, file) else st)
    requires p == MacroEnd(env, arg, {}) && name == if p.Some? then IncludeName(p.value) else None
    ensures OfLine(h, st, Include(arg, room), file, red) ==
            if name.None? then {} else OfName(h, st', file, red, name.value.0, name.value.1)
  {
    hide Env, MacroEnd, IncludeName, OfName, MarkSym;
  }

  lemma {:induction false} ArgumentListed(h: Host, st: State, arg: CString, room: nat, file: nat, red: nat)
    requires file < |st.slots|
    ensures Gains(st, IncludeArgument(h, st, arg, room, file, red).st, OfLine(h, st, Include(arg, room), file, red))
    decreases Unsearched(st.slots), 0, 2, 1
  {
    var marked := MarkSym(st, file);
    assert |marked.slots| == |st.slots| && Unsearched(marked.slots) <= Unsearched(st.slots);
    GainsNothing(st, st);
    GainsNothing(st, marked);
    hide *;
    var env := Env(st, red);
    var st' := if arg in env then marked else st;
    var p := MacroEnd(env, arg, {});
    var name := if p.Some? then IncludeName(p.value) else None;
    IncludeArgumentIs(h, st, arg, room, file, red, env, st', p, name);
    OfLineIs(h, st, arg, room, file, red, env, st', p, name);
    if name.Some? {
      var o := AddInclude(h, st', file, red, name.value.0, name.value.1);
      NameListed(h, st', file, red, name.value.0, name.value.1);
      After(st, st', o.st, OfName(h, st', file, red, name.value.0, name.value.1));
    }
  }

  lemma {:induction false} NameListed(h: Host, st: State, file: nat, red: nat, inc: CString, dot: bool)
    requires file < |st.slots|
    ensures Gains(st, AddInclude(h, st, file, red, inc, dot).st, OfName(h, st, file, red, inc, dot))
    decreases Unsearched(st.slots), 0, 2, 0
  {
    hide Gains, Link, InFile;
    GainsNothing(st, st);
    match Target(h, st, file, inc, dot)
    case None =>
    case Some(target) =>
      var st' := WithRecord(h, st, file, inc, dot);
      GainsNothing(st, st');
      LinkListed(h, st', file, red, target);
      After(st, st', Link(h, st', file, red, target).st, {(file, target)} + InFile(h, st', file, red, target));
  }

  lemma {:induction false} LinkListed(h: Host, st: State, file: nat, red: nat, target: nat)
    requires file < |st.slots| && target < |st.slots|
    ensures Gains(st, Link(h, st, file, red, target).st, {(file, target)} + InFile(h, st, file, red, target))
    decreases Unsearched(st.slots), 0, 1
  {
    hide Gains, FindIncludes, Performed;
    var st1 := IncludedBy(st, file, target);
    LinkGains(st, file, target);
    if st1.slots[target].searched {
      GainsSame(st, st1, {(file, target)}, {(file, target)} + {});
    } else {
      var st2 := SetSlot(st1, target, st1.slots[target].(searched := true));
      SetSlotGains(st1, target, st1.slots[target].(searched := true));
      var st3 := st2.(scanned := st2.scanned + [target]);
      GainsNothing(st1, st3);
      var lines := ScanAll(h.contents(st3.slots[target].file));
      PerformedIsListed(h, st3, lines, target, red, 0);
      After(st1, st3, FindIncludes(h, st3, lines, target, red, 0).st, Performed(h, st3, lines, target, red, 0));
      GainsBoth(st, st1, FindIncludes(h, st3, lines, target, red, 0).st, {(file, target)},
                Performed(h, st3, lines, target, red, 0));
    }
  }

  // ---- What is reached ------------------------------------------------------------------------

  ghost predicate Way(e: Inclusions, a: nat, b: nat, p: seq<nat>) {
    && |p| > 0 && p[0] == a && p[|p| - 1] == b
    && forall i, j :: 0 <= i && j == i + 1 && j < |p| ==> (p[i], p[j]) in e
  }

  /** Inclusions lead from `a` to `b`. */
  ghost predicate Includes(e: Inclusions, a: nat, b: nat) {
    exists p :: Way(e, a, b, p)
  }

  /** Searching the lists comes to what the inclusions lead to. */
  lemma ReachedIsIncluded(st: State, e: Inclusions, a: nat, b: nat)
    requires SlotsOk(st) && Shows(st, e) && a < |st.slots|
    ensures Reaches(st.slots, {}, a, b) <==> Includes(e, a, b)
  {
    if Reaches(st.slots, {}, a, b) {
      var p :| Path(st.slots, {}, a, b, p);
      forall i, j | 0 <= i && j == i + 1 && j < |p| ensures (p[i], p[j]) in e { assert Listed(st, p[i], p[j]); }
      assert Way(e, a, b, p);
    }
    if Includes(e, a, b) {
      var p :| Way(e, a, b, p);
      forall i, j | 0 <= i && j == i + 1 && j < |p| ensures p[i] < |st.slots| && p[j] in st.slots[p[i]].list {
        assert Listed(st, p[i], p[j]);
      }
      forall i | 0 <= i < |p| ensures p[i] < |st.slots| {
        if i > 0 {
          var before := i - 1;
          assert (p[before], p[i]) in e && Listed(st, p[before], p[i]);
          assert ListOk(st.slots[p[before]].list, st.inclistp);
        }
      }
      assert Path(st.slots, {}, a, b, p);
    }
  }

  // ---- The structure of a file ----------------------------------------------------------------

  /** The inclusions of the lines that the structure puts in force. */
  function InItems(h: Host, st: State, items: Items, file: nat, red: nat): Inclusions
    requires WellFormed(items) && file < |st.slots|
    decreases Size(items), 0
  {
    match items
    case Nil => {}
    case Cons(item, more) =>
      match item
      case Plain(d) =>
        var o := Act(h, st, d, file, red);
        OfLine(h, st, d, file, red) + if o.kind.Halt? then {} else InItems(h, o.st, more, file, red)
      case Chain(open, body, tail) =>
        var v := Holds(h, st, red, open);
        var o := ExecChain(h, st, v, body, tail, file, red);
        InChain(h, st, v, body, tail, file, red) + if o.kind.Halt? then {} else InItems(h, o.st, more, file, red)
  }

  function InChain(h: Host, st: State, v: Verdict, body: Items, t: Tail, file: nat, red: nat): Inclusions
    requires WellFormed(body) && WellFormedTail(t) && file < |st.slots|
    decreases Size(body) + TailSize(t), 1
  {
    match v
    case Undecided(_) => {}
    case Decided(true) => InItems(h, st, body, file, red)
    case Decided(false) => if SkipLoss(h, st, red, body).Some? then {} else InTail(h, st, t, file, red)
  }

  function InTail(h: Host, st: State, t: Tail, file: nat, red: nat): Inclusions
    requires WellFormedTail(t) && file < |st.slots|
    decreases TailSize(t), 0
  {
    match t
    case End(_) => {}
    case Otherwise(_, body, _) => InItems(h, st, body, file, red)
    case ElseIf(exp, _, body, tail) => InChain(h, st, Test(h, st, red, exp), body, tail, file, red)
  }

  /** On the lines of a well-nested piece of file: those of its structure, and then those of what
      follows. */
  lemma {:induction false} PerformsStructure(h: Host, st: State, items: Items, k: seq<Directive>,
                                             file: nat, red: nat, depth: nat)
    requires WellFormed(items) && file < |st.slots|
    ensures var e := Exec(h, st, items, file, red);
            Performed(h, st, Emit(items, k), file, red, depth) ==
            InItems(h, st, items, file, red) + if e.kind.Halt? then {} else Performed(h, e.st, k, file, red, depth)
    decreases Size(items), 0
  {
    hide Act, OfLine, Holds, Groups, InGroups, ExecChain, InChain, Leaves;
    match items
    case Nil =>
    case Cons(item, more) =>
      var lines := Emit(items, k);
      match item
      case Plain(d) =>
        var o := Act(h, st, d, file, red);
        assert lines[0] == d && lines[1..] == Emit(more, k);
        if !o.kind.Halt? { PerformsStructure(h, o.st, more, k, file, red, depth); }
      case Chain(open, body, tail) =>
        var after := Emit(more, k);
        var v := Holds(h, st, red, open);
        assert lines[0] == open && lines[1..] == Emit(body, EmitTail(tail, after));
        SelectsChain(h, st, v, body, tail, after, file, red, depth);
        PerformsChain(h, st, v, body, tail, after, file, red, depth);
        var o := ExecChain(h, st, v, body, tail, file, red);
        LeavesIs(Groups(h, st, v, lines[1..], file, red, depth), o, after);
        if !o.kind.Halt? { PerformsStructure(h, o.st, more, k, file, red, depth); }
  }

  lemma LeavesIs(o: Outcome, e: Outcome, k: seq<Directive>)
    requires Leaves(o, e, k)
    ensures o.st == e.st && (o.kind.Halt? <==> e.kind.Halt?) && (!e.kind.Halt? ==> o.rest == k)
  {
  }

  lemma {:induction false} PerformsChain(h: Host, st: State, v: Verdict, body: Items, tail: Tail, k: seq<Directive>,
                                         file: nat, red: nat, depth: nat)
    requires WellFormed(body) && WellFormedTail(tail) && file < |st.slots|
    ensures InGroups(h, st, v, Emit(body, EmitTail(tail, k)), file, red, depth)
            == InChain(h, st, v, body, tail, file, red)
    decreases Size(body) + TailSize(tail), 2
  {
    hide Performed, InItems, Emit, EmitTail, Gobble, SkipLoss, Exec;
    var lines := Emit(body, EmitTail(tail, k));
    match v
    case Undecided(_) =>
    case Decided(true) => PerformsTaken(h, st, body, tail, k, file, red, depth);
    case Decided(false) =>
      GobbleItems(h, st, red, body, EmitTail(tail, k));
      if SkipLoss(h, st, red, body).None? {
        GobbleHead(h, st, red, tail, k);
        match tail
        case End(_) =>
        case Otherwise(_, other, end) =>
          PerformsTaken(h, st, other, End(end), k, file, red, depth);
          EmitEnd(end, k);
        case ElseIf(exp, _, other, tail') =>
          PerformsChain(h, st, Test(h, st, red, exp), other, tail', k, file, red, depth);
      }
  }

  lemma EmitEnd(end: CString, k: seq<Directive>)
    ensures EmitTail(End(end), k) == [Endif(end)] + k
  {
  }

  /** A group in force, up to the line that ends it. */
  lemma {:induction false} PerformsTaken(h: Host, st: State, body: Items, tail: Tail, k: seq<Directive>,
                                         file: nat, red: nat, depth: nat)
    requires WellFormed(body) && WellFormedTail(tail) && file < |st.slots|
    ensures Performed(h, st, Emit(body, EmitTail(tail, k)), file, red, depth + 1) == InItems(h, st, body, file, red)
    decreases Size(body) + TailSize(tail), 1
  {
    var e := Exec(h, st, body, file, red);
    assert Performed(h, e.st, EmitTail(tail, k), file, red, depth + 1) == {};
    hide Performed, InItems, Exec;
    PerformsStructure(h, st, body, EmitTail(tail, k), file, red, depth + 1);
  }
}
