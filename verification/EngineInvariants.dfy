/** What every scan keeps, on every stream of directives: no file is scanned twice, no list repeats a
    file, no include string has two records. */
module EngineInvariants {
  import opened Options
  import opened SymbolTable
  import opened IncludePaths
  import opened IfParser
  import opened Directives
  import opened SymbolLookup
  import opened Engine
  import Dependencies

  /** Slots not handed out yet are blank. */
  ghost predicate Blank(s: Slot) {
    s.list == [] && s.symbols == map[] && !s.searched && !s.includedSym
  }

  ghost predicate ListOk(l: seq<nat>, n: nat) {
    (forall k :: 0 <= k < |l| ==> l[k] < n) && Dependencies.NoRepeats(l)
  }

  ghost predicate SlotsOk(st: State) {
    && st.inclistp <= |st.slots|
    && (forall i :: 0 <= i < |st.slots| ==> ListOk(st.slots[i].list, st.inclistp))
    && (forall i :: st.inclistp <= i < |st.slots| ==> Blank(st.slots[i]))
  }

  ghost predicate ScannedOk(st: State) {
    && Dependencies.NoRepeats(st.scanned)
    && forall k :: 0 <= k < |st.scanned| ==> st.scanned[k] < |st.slots| && st.slots[st.scanned[k]].searched
  }

  /** Two records of one include string, other than `x` and `y`: at least one of them has included
      through a macro. */
  ghost predicate UniqueBut(st: State, x: nat, y: nat) {
    forall i, j | 0 <= i < j < Min(st.inclistp, |st.slots|) &&
                  !st.slots[i].includedSym && !st.slots[j].includedSym && !(i == x && j == y)
      :: st.slots[i].incstring != st.slots[j].incstring
  }

  ghost predicate Unique(st: State) {
    UniqueBut(st, 0, 0)
  }

  /** Every file on a list has been read, except perhaps `but`. */
  ghost predicate AllRead(st: State, but: set<nat>) {
    forall i, k :: 0 <= i < |st.slots| && 0 <= k < |st.slots[i].list| ==>
      var t := st.slots[i].list[k]; t in but || (t < |st.slots| && st.slots[t].searched)
  }

  ghost predicate Inv(st: State) {
    SlotsOk(st) && ScannedOk(st) && AllRead(st, {})
  }

  /** Between linking `target` and starting to read it. */
  ghost predicate Linking(st: State, target: nat) {
    SlotsOk(st) && ScannedOk(st) && AllRead(st, {target})
  }

  /** A later state of the same run: records in use keep their names, searched files stay searched,
      lists and the log of scans only grow, and include strings stay unique if they are. */
  ghost predicate Grows(a: State, b: State) {
    Stays(a, b) && forall x: nat, y: nat {:trigger UniqueBut(b, x, y)} :: UniqueBut(a, x, y) ==> UniqueBut(b, x, y)
  }

  /** The same, without the promise about include strings. */
  ghost predicate Stays(a: State, b: State) {
    && |b.slots| == |a.slots| && a.inclistp <= b.inclistp && a.scanned <= b.scanned
    && a.inclistp <= |a.slots| && b.inclistp <= |b.slots|
    && (forall i :: 0 <= i < a.inclistp ==> SlotGrows(a.slots[i], b.slots[i]))
  }

  ghost predicate SlotGrows(s: Slot, t: Slot) {
    && t.incstring == s.incstring && t.file == s.file
    && s.list <= t.list && (s.searched ==> t.searched) && (s.includedSym ==> t.includedSym)
  }

  lemma GrowsTrans(a: State, b: State, c: State)
    requires Grows(a, b) && Grows(b, c)
    ensures Grows(a, c)
  {
    forall i | 0 <= i < a.inclistp ensures SlotGrows(a.slots[i], c.slots[i]) {
      assert SlotGrows(a.slots[i], b.slots[i]) && SlotGrows(b.slots[i], c.slots[i]);
    }
  }

  // ---- Single changes -------------------------------------------------------------------------

  lemma SetSlotKeeps(st: State, i: nat, s: Slot)
    requires Inv(st) && i < st.inclistp && SlotGrows(st.slots[i], s) && s.list == st.slots[i].list
    ensures Inv(SetSlot(st, i, s)) && Grows(st, SetSlot(st, i, s))
  {
  }

  lemma MarkSymKeeps(st: State, file: nat)
    requires Inv(st) && file < st.inclistp
    ensures Keeps(st, MarkSym(st, file)) && Inv(MarkSym(st, file))
  {
    SetSlotKeeps(st, file, st.slots[file].(includedSym := true));
  }

  lemma DefineKeeps(st: State, file: nat, def: CString)
    requires Inv(st) && file < st.inclistp
    ensures Keeps(st, DefineIn(st, file, def))
  {
    var (name, val) := DefineParts(def);
    SetSlotKeeps(st, file, st.slots[file].(symbols := st.slots[file].symbols[name := val]));
  }

  lemma UndefineKeeps(st: State, red: nat, name: CString)
    requires Inv(st)
    ensures Keeps(st, UndefineFrom(st, red, name))
  {
    var st' := UndefineFrom(st, red, name);
    assert forall i :: 0 <= i < |st.slots| ==> st'.slots[i] == st.slots[i].(symbols := st'.slots[i].symbols);
  }

  /** The engine's undefine is the one of the symbol tables. */
  lemma UndefineIsUndefine(st: State, red: nat, name: CString)
    ensures Without(st.slots, name, red, UndefineFrom(st, red, name).slots)
    ensures UndefineFrom(st, red, name).command == st.command - {name}
  {
    forall b: nat | b < |st.slots|
      ensures b in Dependencies.Visit(st.slots, {}, [red]) <==> Reaches(st.slots, {}, red, b)
    {
      Dependencies.VisitsReachable(st.slots, {}, [red], b);
      assert red in [red];
    }
  }

  lemma IncludedByOk(st: State, file: nat, target: nat)
    requires SlotsOk(st) && ScannedOk(st) && file < st.inclistp && target < st.inclistp
    ensures var st' := IncludedBy(st, file, target);
            SlotsOk(st') && ScannedOk(st') && Grows(st, st')
    ensures target in IncludedBy(st, file, target).slots[file].list
  {
    if target !in st.slots[file].list {
      assert ListOk(st.slots[file].list, st.inclistp);
      assert ListOk(st.slots[file].list + [target], st.inclistp);
    }
  }

  lemma IncludedByReads(st: State, file: nat, target: nat)
    requires AllRead(st, {}) && file < |st.slots|
    ensures AllRead(IncludedBy(st, file, target), {target})
  {
    var st' := IncludedBy(st, file, target);
    forall i, k | 0 <= i < |st'.slots| && 0 <= k < |st'.slots[i].list|
      ensures var t := st'.slots[i].list[k]; t == target || (t < |st'.slots| && st'.slots[t].searched)
    {
      if k < |st.slots[i].list| { assert st'.slots[i].list[k] == st.slots[i].list[k]; }
    }
  }

  lemma IncludedByKeeps(st: State, file: nat, target: nat)
    requires Inv(st) && file < st.inclistp && target < st.inclistp
    ensures Linking(IncludedBy(st, file, target), target) && Grows(st, IncludedBy(st, file, target))
    ensures target in IncludedBy(st, file, target).slots[file].list
  {
    hide ScannedOk, UniqueBut, AllRead, Grows, IncludedBy;
    IncludedByOk(st, file, target);
    IncludedByReads(st, file, target);
  }

  /** A new record keeps everything but uniqueness, and uniqueness exactly when its include string
      is not that of a record that has not included through a macro. */
  lemma NewIncludeKeeps(st: State, path: CString, inc: CString)
    requires Inv(st) && NewInclude(st, path, inc).Some?
    ensures var st' := NewInclude(st, path, inc).value;
            && Inv(st') && Stays(st, st')
            && st'.slots[st.inclistp] == st.slots[st.inclistp].(file := path, incstring := inc)
            && match FirstWith(st.slots, st.inclistp, 0, inc)
               case None => Grows(st, st')
               case Some(f) => Unique(st) ==> UniqueBut(st', f, st.inclistp)
  {
    var st' := NewInclude(st, path, inc).value;
    var n := st.inclistp;
    assert Blank(st.slots[n]);
    assert forall i :: 0 <= i < |st.slots| && i != n ==> st'.slots[i] == st.slots[i];
    match FirstWith(st.slots, n, 0, inc)
    case None =>
      forall x: nat, y: nat | UniqueBut(st, x, y) ensures UniqueBut(st', x, y) {
        NewIsUniqueBut(st, st', x, y);
      }
    case Some(f) =>
      if Unique(st) { NewIsUniqueBut(st, st', 0, 0); }
  }

  /** A record with a new include string makes no pair; one with that of `f` makes one pair, if
      include strings were unique. */
  lemma NewIsUniqueBut(st: State, st': State, x: nat, y: nat)
    requires var n := st.inclistp;
             && n + 1 == st'.inclistp <= |st.slots| == |st'.slots|
             && forall i :: 0 <= i < n ==> st'.slots[i] == st.slots[i]
    requires UniqueBut(st, x, y)
    ensures var n := st.inclistp;
            match FirstWith(st.slots, n, 0, st'.slots[n].incstring)
            case None => UniqueBut(st', x, y)
            case Some(f) => x == 0 && y == 0 ==> UniqueBut(st', f, n)
  {
    var n := st.inclistp;
    var inc := st'.slots[n].incstring;
    match FirstWith(st.slots, n, 0, inc)
    case None =>
    case Some(f) =>
      if x == 0 && y == 0 {
        forall i, j | 0 <= i < j < n + 1 &&
                      !st'.slots[i].includedSym && !st'.slots[j].includedSym && !(i == f && j == n)
          ensures st'.slots[i].incstring != st'.slots[j].incstring
        {
          if j < n {
            assert st.slots[i].incstring != st.slots[j].incstring;
          } else if i < f {
          } else {
            assert st.slots[f].incstring != st.slots[i].incstring;
          }
        }
      }
  }

  lemma ScanStartsKeeps(st: State, target: nat)
    requires Linking(st, target) && target < st.inclistp && !st.slots[target].searched
    ensures var st' := SetSlot(st, target, st.slots[target].(searched := true));
            var st'' := st'.(scanned := st'.scanned + [target]);
            Inv(st'') && Grows(st, st'')
  {
    assert ListOk(st.slots[target].list, st.inclistp);
    assert target !in st.scanned;
  }

  // ---- Whole scans ----------------------------------------------------------------------------

  ghost predicate Keeps(st: State, st': State) {
    Inv(st') && Grows(st, st')
  }

  /** Whatever the lines, well nested or not: a scan keeps the invariant and only adds. */
  lemma {:induction false} ScanKeeps(h: Host, st: State, lines: seq<Directive>, file: nat, red: nat, depth: nat)
    requires Inv(st) && file < st.inclistp
    ensures Keeps(st, FindIncludes(h, st, lines, file, red, depth).st)
    decreases Unsearched(st.slots), |lines|, 0
  {
    if lines != [] {
      var d, rest := lines[0], lines[1..];
      if Opens(d) {
        var v := Holds(h, st, red, d);
        var o := Groups(h, st, v, rest, file, red, depth);
        GroupsKeep(h, st, v, rest, file, red, depth);
        if !o.kind.Halt? {
          ScanKeeps(h, o.st, o.rest, file, red, depth);
          GrowsTrans(st, o.st, FindIncludes(h, o.st, o.rest, file, red, depth).st);
        }
      } else if (d.Else? || d.Elif? || d.Endif?) && depth > 0 {
        SameKeeps(st);
      } else if d.Else? || d.Elif? {
        var g := Gobble(h, st, red, rest);
        if g.0.Halt? {
          SameKeeps(st);
        } else {
          var st' := DefineIn(st, file, d.text);
          DefineKeeps(st, file, d.text);
          ScanKeeps(h, st', g.1, file, red, depth);
          GrowsTrans(st, st', FindIncludes(h, st', g.1, file, red, depth).st);
        }
      } else {
        var o := Act(h, st, d, file, red);
        ActKeeps(h, st, d, file, red);
        if !o.kind.Halt? {
          ScanKeeps(h, o.st, rest, file, red, depth);
          GrowsTrans(st, o.st, FindIncludes(h, o.st, rest, file, red, depth).st);
        }
      }
    } else {
      SameKeeps(st);
    }
  }

  lemma SameKeeps(st: State)
    requires Inv(st)
    ensures Keeps(st, st)
  {
  }

  lemma {:induction false} GroupsKeep(h: Host, st: State, v: Verdict, lines: seq<Directive>, file: nat, red: nat,
                                      depth: nat)
    requires Inv(st) && file < st.inclistp
    ensures Keeps(st, Groups(h, st, v, lines, file, red, depth).st)
    decreases Unsearched(st.slots), |lines|, 2
  {
    hide DoIf, DoIfFalse, Inv, Grows;
    match v
    case Undecided(_) => SameKeeps(st);
    case Decided(true) => DoIfKeeps(h, st, lines, file, red, depth);
    case Decided(false) => DoIfFalseKeeps(h, st, lines, file, red, depth);
  }

  lemma {:induction false} DoIfKeeps(h: Host, st: State, lines: seq<Directive>, file: nat, red: nat, depth: nat)
    requires Inv(st) && file < st.inclistp
    ensures Keeps(st, DoIf(h, st, lines, file, red, depth).st)
    decreases Unsearched(st.slots), |lines|, 1
  {
    ScanKeeps(h, st, lines, file, red, depth + 1);
  }

  lemma {:induction false} DoIfFalseKeeps(h: Host, st: State, lines: seq<Directive>, file: nat, red: nat, depth: nat)
    requires Inv(st) && file < st.inclistp
    ensures Keeps(st, DoIfFalse(h, st, lines, file, red, depth).st)
    decreases Unsearched(st.slots), |lines|, 1
  {
    var g := Gobble(h, st, red, lines);
    SameKeeps(st);
    match g.0
    case TElse => ScanKeeps(h, st, g.1, file, red, depth + 1);
    case TElif => DoIfKeeps(h, st, g.1, file, red, depth);
    case TElifFalse => DoIfFalseKeeps(h, st, g.1, file, red, depth);
    case _ =>
  }

  lemma {:induction false} ActKeeps(h: Host, st: State, d: Directive, file: nat, red: nat)
    requires Inv(st) && file < st.inclistp
    ensures Keeps(st, Act(h, st, d, file, red).st)
    decreases Unsearched(st.slots), 0, 4
  {
    hide Inv, Grows, Keeps, DefineIn, UndefineFrom, IncludeArgument;
    SameKeeps(st);
    match d
    case Endif(text) => DefineKeeps(st, file, text);
    case Define(def) => DefineKeeps(st, file, def);
    case Undef(name) => UndefineKeeps(st, red, name);
    case Include(arg, room) => IncludeKeeps(h, st, arg, room, file, red);
    case _ =>
  }

  lemma {:induction false} IncludeKeeps(h: Host, st: State, arg: CString, room: nat, file: nat, red: nat)
    requires Inv(st) && file < st.inclistp
    ensures Keeps(st, IncludeArgument(h, st, arg, room, file, red).st)
    decreases Unsearched(st.slots), 0, 3
  {
    assert file < |st.slots|;
    hide Inv, Grows, Keeps, Env, MacroEnd, IncludeName, AddInclude, IncludeArgument;
    SameKeeps(st);
    MarkSymKeeps(st, file);
    var env := Env(st, red);
    var st' := if arg in env then MarkSym(st, file) else st;
    var p := MacroEnd(env, arg, {});
    var name := if p.Some? then IncludeName(p.value) else None;
    IncludeArgumentIs(h, st, arg, room, file, red, env, st', p, name);
    assert st'.inclistp == st.inclistp;
    if name.Some? {
      AddIncludeKeeps(h, st', file, red, name.value.0, name.value.1);
      KeepsTrans(st, st', AddInclude(h, st', file, red, name.value.0, name.value.1).st);
    }
  }

  lemma KeepsTrans(a: State, b: State, c: State)
    requires Keeps(a, b) && Keeps(b, c)
    ensures Keeps(a, c)
  {
    GrowsTrans(a, b, c);
  }

  lemma {:induction false} AddIncludeKeeps(h: Host, st: State, file: nat, red: nat, inc: CString, dot: bool)
    requires Inv(st) && file < st.inclistp
    ensures Keeps(st, AddInclude(h, st, file, red, inc, dot).st)
    decreases Unsearched(st.slots), 0, 2
  {
    SameKeeps(st);
    match FirstWith(st.slots, Min(st.inclistp, |st.slots|), 0, inc)
    case Some(target) => LinkKeeps(h, st, file, red, target);
    case None =>
      match h.resolve(st.slots[file].file, inc, dot)
      case None =>
      case Some(path) =>
        match NewInclude(st, path, inc)
        case None =>
        case Some(st') =>
          NewIncludeKeeps(st, path, inc);
          LinkKeeps(h, st', file, red, st.inclistp);
          GrowsTrans(st, st', Link(h, st', file, red, st.inclistp).st);
  }

  lemma {:induction false} LinkKeeps(h: Host, st: State, file: nat, red: nat, target: nat)
    requires Inv(st) && file < st.inclistp && target < st.inclistp
    ensures Keeps(st, Link(h, st, file, red, target).st)
    decreases Unsearched(st.slots), 0, 1
  {
    var st1 := IncludedBy(st, file, target);
    IncludedByKeeps(st, file, target);
    if st1.slots[target].searched {
      assert AllRead(st1, {});
    } else {
      var st2 := SetSlot(st1, target, st1.slots[target].(searched := true));
      var st3 := st2.(scanned := st2.scanned + [target]);
      ScanStartsKeeps(st1, target);
      var lines := ScanAll(h.contents(st3.slots[target].file));
      ScanKeeps(h, st3, lines, target, red, 0);
      GrowsTrans(st, st1, st3);
      GrowsTrans(st, st3, FindIncludes(h, st3, lines, target, red, 0).st);
    }
  }
}
