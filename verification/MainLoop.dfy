/** The main loop of makedepend: scan each file of the command line and print what it depends on. */
module MainLoop {
  import opened Options
  import opened SymbolTable
  import opened IncludePaths
  import opened Directives
  import opened Engine
  import opened EngineInvariants
  import opened EngineInclusions
  import Dependencies
  import M = EngineMethods

  /** Scan a file of the command line.  It gets a record of its own, without a lookup. */
  function ScanRoot(h: Host, st: State, name: CString): (r: Outcome)
    ensures NoMore(st, r.st)
  {
    match NewInclude(st, name, name)
    case None => Outcome(st, [], Halt(OutOfSlots))
    case Some(st') => FindIncludes(h, st', ScanAll(h.contents(name)), st.inclistp, st.inclistp, 0)
  }

  /** The files printed for each file of the command line, until the scan stops. */
  function RunAll(h: Host, st: State, files: seq<CString>): (r: (State, seq<seq<nat>>, Type))
    ensures |r.1| <= |files| && (!r.2.Halt? ==> |r.1| == |files|)
    decreases |files|
  {
    if files == [] then (st, [], Eof)
    else
      var o := ScanRoot(h, st, files[0]);
      if o.kind.Halt? then (o.st, [], o.kind)
      else
        var more := RunAll(h, o.st, files[1..]);
        (more.0, [Dependencies.DependenciesOf(o.st.slots, st.inclistp)] + more.1, more.2)
  }

  /** The inclusions performed for a file of the command line. */
  function ForRoot(h: Host, st: State, name: CString): Inclusions {
    match NewInclude(st, name, name)
    case None => {}
    case Some(st') => Performed(h, st', ScanAll(h.contents(name)), st.inclistp, st.inclistp, 0)
  }

  /** The inclusions performed for all of them, one after the other. */
  function ForAll(h: Host, st: State, files: seq<CString>): Inclusions
    decreases |files|
  {
    if files == [] then {}
    else
      var o := ScanRoot(h, st, files[0]);
      ForRoot(h, st, files[0]) + if o.kind.Halt? then {} else ForAll(h, o.st, files[1..])
  }

  /** A list of each file that the inclusions `e` lead to from `root`, except `root` itself, once; each of
      them has been read. */
  ghost predicate IsReport(st: State, e: Inclusions, root: nat, d: seq<nat>) {
    && Dependencies.NoRepeats(d)
    && (forall x: nat :: x in d <==> x != root && Includes(e, root, x))
    && (forall x: nat :: x in d ==> x < st.inclistp && x < |st.slots| && st.slots[x].searched)
  }

  /** The report on one file, from any state earlier files left, in which the inclusions `e` have been
      performed: it lists each file that those and the ones performed now lead to, except the file itself,
      once; and every file listed has been read. */
  lemma ReportsClosure(h: Host, st: State, name: CString, e: Inclusions)
    requires Inv(st) && Shows(st, e) && !ScanRoot(h, st, name).kind.Halt?
    ensures var o, root := ScanRoot(h, st, name), st.inclistp;
            && Inv(o.st) && Stays(st, o.st) && Shows(o.st, e + ForRoot(h, st, name))
            && IsReport(o.st, e + ForRoot(h, st, name), root, Dependencies.DependenciesOf(o.st.slots, root))
  {
    var o, root := ScanRoot(h, st, name), st.inclistp;
    var st' := NewInclude(st, name, name).value;
    var lines := ScanAll(h.contents(name));
    NewIncludeKeeps(st, name, name);
    ScanKeeps(h, st', lines, root, root, 0);
    StaysTrans(st, st', o.st);
    GainsNothing(st, st');
    PerformedIsListed(h, st', lines, root, root, 0);
    After(st, st', o.st, Performed(h, st', lines, root, root, 0));
    ShowsMore(st, o.st, e, ForRoot(h, st, name));
    hide ScanRoot, ForRoot, Shows;
    ListIsReport(o.st, e + ForRoot(h, st, name), root);
  }

  lemma ListIsReport(st: State, e: Inclusions, root: nat)
    requires Inv(st) && Shows(st, e) && root < |st.slots|
    ensures IsReport(st, e, root, Dependencies.DependenciesOf(st.slots, root))
  {
    var g := st.slots;
    var d := Dependencies.DependenciesOf(g, root);
    Dependencies.PrintsEachReachableOnce(g, root);
    forall x: nat ensures x in d <==> x != root && Includes(e, root, x) { ReachedIsIncluded(st, e, root, x); }
    forall x: nat | x in d ensures x < st.inclistp && g[x].searched {
      Dependencies.ReachedIsListed(g, root, x);
      var i :| 0 <= i < |g| && x in g[i].list;
      assert ListOk(g[i].list, st.inclistp);
    }
  }

  lemma StaysTrans(a: State, b: State, c: State)
    requires Stays(a, b) && Grows(b, c)
    ensures Stays(a, c)
  {
    forall i | 0 <= i < a.inclistp ensures SlotGrows(a.slots[i], c.slots[i]) {
      assert SlotGrows(a.slots[i], b.slots[i]) && SlotGrows(b.slots[i], c.slots[i]);
    }
  }

  /** The record of a file of the command line is the only one made unchecked: include strings stay
      unique through its scan exactly when its name is not already the include string of a record, or
      one of the two has then included through a macro. */
  lemma RootMayRepeat(h: Host, st: State, name: CString)
    requires Inv(st) && Unique(st) && NewInclude(st, name, name).Some?
    ensures var st' := ScanRoot(h, st, name).st;
            Unique(st') <==>
              match FirstWith(st.slots, st.inclistp, 0, name)
              case None => true
              case Some(f) => st'.slots[f].includedSym || st'.slots[st.inclistp].includedSym
  {
    var o, root := ScanRoot(h, st, name), st.inclistp;
    var st' := NewInclude(st, name, name).value;
    NewIncludeKeeps(st, name, name);
    ScanKeeps(h, st', ScanAll(h.contents(name)), root, root, 0);
    assert Grows(st', o.st);
    match FirstWith(st.slots, st.inclistp, 0, name)
    case None => assert UniqueBut(st', 0, 0);
    case Some(f) =>
      assert SlotGrows(st'.slots[f], o.st.slots[f]) && SlotGrows(st'.slots[root], o.st.slots[root]);
      assert o.st.slots[f].incstring == o.st.slots[root].incstring;
      assert UniqueBut(o.st, f, root);
  }

  /** The state from which the k-th report of a run is made, and the inclusions performed before. */
  lemma {:induction false} ReportedFrom(h: Host, st: State, e: Inclusions, files: seq<CString>, k: nat)
    returns (st1: State, e1: Inclusions)
    requires Inv(st) && Shows(st, e) && k < |RunAll(h, st, files).1|
    ensures Inv(st1) && Shows(st1, e1) && !ScanRoot(h, st1, files[k]).kind.Halt?
    ensures e1 + ForRoot(h, st1, files[k]) == e + ForAll(h, st, files[..k + 1])
    ensures RunAll(h, st, files).1[k] == Dependencies.DependenciesOf(ScanRoot(h, st1, files[k]).st.slots, st1.inclistp)
    decreases k
  {
    hide ScanRoot, Inv, Shows, ForRoot;
    var o := ScanRoot(h, st, files[0]);
    if k > 0 {
      ReportsClosure(h, st, files[0], e);
      st1, e1 := ReportedFrom(h, o.st, e + ForRoot(h, st, files[0]), files[1..], k - 1);
      assert files[..k + 1][1..] == files[1..][..k] && files[..k + 1][0] == files[0];
    } else {
      st1, e1 := st, e;
      assert files[..1][1..] == [];
    }
  }

  lemma BlankStart(slots: Slots, command: map<CString, CString>)
    requires forall i :: 0 <= i < |slots| ==> Blank(slots[i])
    ensures Inv(State(slots, 0, command, [])) && Shows(State(slots, 0, command, []), {})
  {
  }

  /** Every report of a whole run from the blank records makedepend starts with: the k-th file is
      scanned from a state that satisfies the invariants, and its report lists each file that the
      inclusions performed up to then lead to, except the file itself, once, each of which has been
      read. */
  lemma RunReports(h: Host, slots: Slots, command: map<CString, CString>, files: seq<CString>, k: nat)
    returns (st1: State)
    requires forall i :: 0 <= i < |slots| ==> Blank(slots[i])
    requires k < |RunAll(h, State(slots, 0, command, []), files).1|
    ensures Inv(st1) && !ScanRoot(h, st1, files[k]).kind.Halt?
    ensures var st := State(slots, 0, command, []);
            IsReport(ScanRoot(h, st1, files[k]).st, ForAll(h, st, files[..k + 1]), st1.inclistp,
                RunAll(h, st, files).1[k])
  {
    BlankStart(slots, command);
    hide Inv, Shows, ScanRoot, RunAll, IsReport, ForRoot, ForAll, Dependencies.DependenciesOf;
    var e1;
    st1, e1 := ReportedFrom(h, State(slots, 0, command, []), {}, files, k);
    ReportsClosure(h, st1, files[k], e1);
    assert {} + ForAll(h, State(slots, 0, command, []), files[..k + 1]) ==
        ForAll(h, State(slots, 0, command, []), files[..k + 1]);
  }

  function Prepend(out: seq<seq<nat>>, r: (State, seq<seq<nat>>, Type)): (State, seq<seq<nat>>, Type) {
    (r.0, out + r.1, r.2)
  }

  /** One turn: the first file is scanned and reported, or stops the run. */
  lemma RunStep(h: Host, st: State, files: seq<CString>, out: seq<seq<nat>>)
    requires files != []
    ensures var o := ScanRoot(h, st, files[0]);
            Prepend(out, RunAll(h, st, files)) ==
            if o.kind.Halt? then (o.st, out, o.kind)
            else Prepend(out + [Dependencies.DependenciesOf(o.st.slots, st.inclistp)], RunAll(h, o.st, files[1..]))
  {
    hide ScanRoot, Dependencies.DependenciesOf;
    var o := ScanRoot(h, st, files[0]);
    if o.kind.Halt? {
      assert out + [] == out;
    } else {
      var report, rest := Dependencies.DependenciesOf(o.st.slots, st.inclistp), RunAll(h, o.st, files[1..]).1;
      assert out + ([report] + rest) == out + [report] + rest;
    }
  }

  /** The turn on one file, from its record to the end of its scan. */
  method ReadRoot(m: M.Makedepend, name: CString) returns (kind: Type)
    modifies m
    ensures var o := ScanRoot(m.host, old(m.st), name);
            m.st == o.st && (o.kind.Halt? ==> kind == o.kind) && (!o.kind.Halt? ==> !kind.Halt?)
  {
    hide FindIncludes, NewInclude;
    var root := m.st.inclistp;
    var more := NewInclude(m.st, name, name);
    if more.None? {
      return Halt(OutOfSlots);
    }
    var content := new M.FilePointer(m.host.contents(name));
    m.st := more.value;
    kind := m.FindIncludes(content, root, root, 0);
  }

  /** The loop itself. */
  method Run(m: M.Makedepend, files: seq<CString>) returns (out: seq<seq<nat>>, kind: Type)
    modifies m
    ensures RunAll(m.host, old(m.st), files) == (m.st, out, kind)
  {
    hide RunAll, ScanRoot;
    out := [];
    var fp := 0;
    ghost var whole := RunAll(m.host, m.st, files);
    assert files[0..] == files && [] + whole.1 == whole.1;
    while fp < |files|
      invariant fp <= |files|
      invariant whole == Prepend(out, RunAll(m.host, m.st, files[fp..]))
    {
      ghost var now := files[fp..];
      assert now[0] == files[fp] && now[1..] == files[fp + 1..];
      RunStep(m.host, m.st, now, out);
      var root := m.st.inclistp;
      kind := ReadRoot(m, files[fp]);
      if kind.Halt? {
        return;
      }
      out := out + [Dependencies.DependenciesOf(m.st.slots, root)];
      fp := fp + 1;
    }
    NoMoreFiles(m.host, m.st, files[fp..], out);
    kind := Eof;
  }

  lemma NoMoreFiles(h: Host, st: State, files: seq<CString>, out: seq<seq<nat>>)
    requires files == []
    ensures Prepend(out, RunAll(h, st, files)) == (st, out, Eof)
  {
    assert out + [] == out;
  }
}
