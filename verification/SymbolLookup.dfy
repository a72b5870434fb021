/** isdefined, fdefined and undefine of makedepend's parse.c: the symbols of a file and of everything
    it includes, and of the command line. */
module SymbolLookup {
  import opened Options
  import opened SymbolTable
  import opened IncludePaths
  import opened FileRecords

  /** A struct symtab pointer: entry `val` of the table of `src` binds `symbol` to `value`. */
  ghost predicate Points(src: IncList, val: nat, symbol: CString, value: CString)
    reads src`ndefs, src`defs, src.defs
  {
    src.Fits() && val < src.ndefs && src.Table()[val] == Symtab(symbol, value)
  }

  /** The result of fdefined is what `r` says: NULL, or the entry for `symbol` in slot `srcfile`. */
  ghost predicate Answers(w: World, g: Slots, symbol: CString, r: Option<nat>, val: Option<nat>, srcfile: nat)
    reads w.records`ndefs, w.records`defs
    reads (set r | r in w.records && r.defs != null :: r.defs)
  {
    && (val.Some? <==> r.Some?)
    && (val.Some? ==>
          && srcfile == r.value && srcfile < |w.inclist| && srcfile < |g| && w.inclist[srcfile] in w.records
          && symbol in g[srcfile].symbols
          && Points(w.inclist[srcfile], val.value, symbol, g[srcfile].symbols[symbol]))
  }

  /** The search through a file and what it includes.  i_defchecked marks the files on the stack of
      the recursion, and is put back. */
  method Fdefined(w: World, symbol: CString, file: nat, ghost g: Slots, ghost command: map<CString, CString>,
                  ghost stack: set<nat>)
    returns (val: Option<nat>, srcfile: nat)
    requires w.Valid() && w.Shows(g, command) && w.Stacked(stack) && Closed(g) && file < |g|
    modifies w.records`defchecked
    ensures w.Shows(g, command) && w.Stacked(stack)
    ensures srcfile < |g| && Answers(w, g, symbol, Found(g, symbol, stack, file), val, srcfile)
    decreases Nodes(g) - stack, 0
  {
    hide IncList.Valid;
    var f := w.inclist[file];
    srcfile := file;
    if f.defchecked {
      return None, file;
    }
    f.defchecked := true;
    assert w.Stacked(stack + {file}) && w.Shows(g, command);
    hide World.Shows, World.Stacked;
    val := f.Slookup(symbol);
    if val.None? {
      val, srcfile := FdefinedBelow(w, symbol, file, g, command, stack + {file});
    }
    f.defchecked := false;
  }

  /** The loop of fdefined over the files that `file` includes. */
  method FdefinedBelow(w: World, symbol: CString, file: nat, ghost g: Slots, ghost command: map<CString, CString>,
                       ghost stack: set<nat>)
    returns (val: Option<nat>, srcfile: nat)
    requires w.Valid() && w.Shows(g, command) && w.Stacked(stack) && Closed(g) && file < |g|
    modifies w.records`defchecked
    ensures w.Shows(g, command) && w.Stacked(stack)
    ensures srcfile < |g| && Answers(w, g, symbol, FoundIn(g, symbol, stack, g[file].list), val, srcfile)
    decreases Nodes(g) - stack, 1
  {
    hide IncList.Valid;
    val, srcfile := None, file;
    var i := 0;
    while i < |w.inclist[file].list|
      invariant i <= |g[file].list| && val.None? && srcfile < |g|
      invariant w.Shows(g, command) && w.Stacked(stack)
      invariant FoundIn(g, symbol, stack, g[file].list) == FoundIn(g, symbol, stack, g[file].list[i..])
    {
      assert g[file].list[i..][1..] == g[file].list[i + 1..];
      val, srcfile := Fdefined(w, symbol, w.inclist[file].list[i], g, command, stack);
      if val.Some? { break; }
      i := i + 1;
    }
  }

  /** The value isdefined finds, the command line first. */
  function Visible(g: Slots, command: map<CString, CString>, symbol: CString, file: nat): Option<CString> {
    if symbol in command then Some(command[symbol])
    else
      match Found(g, symbol, {}, file)
      case None => None
      case Some(b) => FoundDefines(g, symbol, {}, file); Some(g[b].symbols[symbol])
  }

  lemma FoundDefines(g: Slots, symbol: CString, stack: set<nat>, file: nat)
    ensures var r := Found(g, symbol, stack, file);
            r.Some? ==> symbol in g[r.value].symbols
  {
    FoundIsReachable(g, symbol, stack, file);
  }

  /** The record isdefined names for `symbol`. */
  ghost function Holder(w: World, g: Slots, command: map<CString, CString>, symbol: CString, file: nat): IncList
    requires |g| == |w.inclist|
  {
    if symbol !in command && Found(g, symbol, {}, file).Some? then w.inclist[Found(g, symbol, {}, file).value]
    else w.maininclist
  }

  method Isdefined(w: World, symbol: CString, file: nat, ghost g: Slots, ghost command: map<CString, CString>)
    returns (val: Option<nat>, src: IncList)
    requires w.Valid() && w.Shows(g, command) && w.Stacked({}) && Closed(g) && file < |g|
    modifies w.records`defchecked
    ensures w.Valid() && w.Shows(g, command) && w.Stacked({})
    ensures val.Some? <==> Visible(g, command, symbol, file).Some?
    ensures val.Some? ==> Points(src, val.value, symbol, Visible(g, command, symbol, file).value)
    ensures val.Some? ==> src == Holder(w, g, command, symbol, file)
  {
    hide IncList.Valid;
    src := w.maininclist;
    val := src.Slookup(symbol);
    if val.None? {
      var srcfile;
      val, srcfile := Fdefined(w, symbol, file, g, command, {});
      src := w.inclist[srcfile];
    }
  }

  // ---- undefine -------------------------------------------------------------------------------

  /** The slots without `symbol`, in every file reachable from `file`. */
  ghost predicate Without(g: Slots, symbol: CString, file: nat, g': Slots) {
    && |g'| == |g|
    && forall b: nat {:trigger g'[b]} :: b < |g| ==>
         g'[b] == if Reaches(g, {}, file, b) then g[b].(symbols := g[b].symbols - {symbol}) else g[b]
  }

  /** On the way there: some of those files still define it. */
  ghost predicate Partly(g: Slots, symbol: CString, file: nat, g': Slots) {
    && |g'| == |g|
    && forall b: nat {:trigger g'[b]} :: b < |g| ==>
         || g'[b] == g[b]
         || (Reaches(g, {}, file, b) && g'[b] == g[b].(symbols := g[b].symbols - {symbol}))
  }

  lemma SameReach(g: Slots, g': Slots, avoid: set<nat>, a: nat, b: nat)
    requires |g'| == |g| && forall i :: 0 <= i < |g| ==> g'[i].list == g[i].list
    ensures Reaches(g, avoid, a, b) <==> Reaches(g', avoid, a, b)
  {
    if Reaches(g, avoid, a, b) { var p :| Path(g, avoid, a, b, p); assert Path(g', avoid, a, b, p); }
    if Reaches(g', avoid, a, b) { var p :| Path(g', avoid, a, b, p); assert Path(g, avoid, a, b, p); }
  }

  /** Nothing visible any more means everything is removed. */
  lemma NoneVisible(g: Slots, symbol: CString, file: nat, g': Slots, command: map<CString, CString>)
    requires Partly(g, symbol, file, g') && Visible(g', command, symbol, file) == None
    ensures Without(g, symbol, file, g') && symbol !in command
  {
    FoundIsReachable(g', symbol, {}, file);
    forall b: nat | b < |g|
      ensures g'[b] == if Reaches(g, {}, file, b) then g[b].(symbols := g[b].symbols - {symbol}) else g[b]
    {
      SameReach(g, g', {}, file, b);
      assert !Defines(g', symbol, {}, file, b);
      if Reaches(g, {}, file, b) { assert symbol !in g'[b].symbols; }
    }
  }

  /** One removal, in the slot the lookup named. */
  lemma RemoveOne(g: Slots, symbol: CString, file: nat, g': Slots, b: nat)
    requires Partly(g, symbol, file, g') && Found(g', symbol, {}, file) == Some(b)
    ensures b < |g| && symbol in g'[b].symbols
    ensures Partly(g, symbol, file, g'[b := g'[b].(symbols := g'[b].symbols - {symbol})])
    ensures Closed(g') ==> Closed(g'[b := g'[b].(symbols := g'[b].symbols - {symbol})])
  {
    FoundIsReachable(g', symbol, {}, file);
    SameReach(g, g', {}, file, b);
    assert g'[b] == g[b];
  }

  ghost function Definers(g: Slots, symbol: CString): set<nat> {
    set b | b in Below(|g|) && symbol in g[b].symbols
  }

  /** What is left after removing one definition. */
  ghost function Removed(g: Slots, command: map<CString, CString>, symbol: CString, file: nat)
    : (Slots, map<CString, CString>)
  {
    if symbol in command then (g, command - {symbol})
    else
      match Found(g, symbol, {}, file)
      case None => (g, command)
      case Some(b) => (g[b := g[b].(symbols := g[b].symbols - {symbol})], command)
  }

  /** One turn of the loop of undefine. */
  method RemoveFrom(w: World, src: IncList, ptr: nat, symbol: CString, file: nat, ghost g: Slots,
                    ghost command: map<CString, CString>)
    requires w.Valid() && w.Shows(g, command) && w.Stacked({})
    requires Visible(g, command, symbol, file).Some? && src == Holder(w, g, command, symbol, file)
    requires Points(src, ptr, symbol, Visible(g, command, symbol, file).value)
    modifies src`ndefs, src`symbols, src.defs
    ensures w.Valid() && w.Stacked({})
    ensures w.Shows(Removed(g, command, symbol, file).0, Removed(g, command, symbol, file).1)
  {
    hide IncList.Valid;
    src.Remove(ptr);
  }

  /** It is one step of the way, and there are finitely many. */
  lemma RemovedStep(g: Slots, symbol: CString, file: nat, g': Slots, command: map<CString, CString>)
    requires Partly(g, symbol, file, g') && Closed(g') && Visible(g', command, symbol, file).Some?
    ensures var r := Removed(g', command, symbol, file);
            && Partly(g, symbol, file, r.0) && Closed(r.0) && |r.0| == |g'|
            && r.1 - {symbol} == command - {symbol}
            && (symbol in command ==> symbol !in r.1)
            && (symbol !in command ==> r.1 == command && Definers(r.0, symbol) < Definers(g', symbol))
  {
    if symbol !in command {
      var b := Found(g', symbol, {}, file).value;
      RemoveOne(g, symbol, file, g', b);
      assert b in Definers(g', symbol) && b !in Definers(Removed(g', command, symbol, file).0, symbol);
    }
  }

  lemma NothingToRemove(m: map<CString, CString>, symbol: CString)
    requires symbol !in m
    ensures m - {symbol} == m
  {
  }

  lemma HolderRecorded(w: World, g: Slots, command: map<CString, CString>, symbol: CString, file: nat)
    requires w.Valid() && w.Shows(g, command)
    ensures |g| == |w.inclist| && Holder(w, g, command, symbol, file) in w.records
  {
  }

  /** The condition of the loop of undefine with its body: remove the definition that isdefined finds. */
  method RemoveVisible(w: World, symbol: CString, file: nat, ghost g: Slots, ghost command: map<CString, CString>)
    returns (found: bool)
    requires w.Valid() && w.Shows(g, command) && w.Stacked({}) && Closed(g) && file < |g|
    modifies w.records`defchecked, w.records`ndefs, w.records`symbols
    modifies (set r | r in w.records && r.defs != null :: r.defs)
    ensures found <==> Visible(g, command, symbol, file).Some?
    ensures w.Valid() && w.Stacked({})
    ensures !found ==> w.Shows(g, command)
    ensures found ==> w.Shows(Removed(g, command, symbol, file).0, Removed(g, command, symbol, file).1)
  {
    hide IncList.Valid, World.Valid, World.Shows, World.Stacked, Definers, Found, FoundIn, Visible, Removed, Holder;
    hide Closed;
    var ptr, src := Isdefined(w, symbol, file, g, command);
    found := ptr.Some?;
    if found {
      HolderRecorded(w, g, command, symbol, file);
      RemoveFrom(w, src, ptr.value, symbol, file, g, command);
    }
  }

  /** Remove `symbol` from the command line and from every file reachable from `file`. */
  method Undefine(w: World, symbol: CString, file: nat, ghost g: Slots, ghost command: map<CString, CString>)
    returns (ghost g': Slots)
    requires w.Valid() && w.Shows(g, command) && w.Stacked({}) && Closed(g) && file < |g|
    modifies w.records`defchecked, w.records`ndefs, w.records`symbols
    modifies (set r | r in w.records && r.defs != null :: r.defs)
    ensures w.Valid() && w.Stacked({})
    ensures w.Shows(g', command - {symbol}) && Without(g, symbol, file, g')
  {
    assert Partly(g, symbol, file, g);
    hide IncList.Valid, World.Valid, World.Shows, World.Stacked, Partly, Without, Definers, Found, FoundIn, Visible;
    hide Removed, Holder, Closed;
    g' := g;
    ghost var command' := command;
    while true
      invariant w.Valid() && w.Stacked({}) && w.Shows(g', command') && Closed(g') && |g'| == |g|
      invariant Partly(g, symbol, file, g')
      invariant command' - {symbol} == command - {symbol}
      decreases symbol in command', Definers(g', symbol)
    {
      var found := RemoveVisible(w, symbol, file, g', command');
      if !found { break; }
      RemovedStep(g, symbol, file, g', command');
      g', command' := Removed(g', command', symbol, file).0, Removed(g', command', symbol, file).1;
    }
    NoneVisible(g, symbol, file, g', command');
    NothingToRemove(command', symbol);
  }
}
