/** What the scan of makedepend means on well-nested files: exactly the lines of the first true group
    of every #if chain are in force. */
module EngineTrees {
  import opened Options
  import opened SymbolTable
  import opened IncludePaths
  import opened IfParser
  import opened Directives
  import opened Engine

  /** The structure of a file: single lines and chains of groups. */
  datatype Items = Nil | Cons(item: Item, more: Items)

  datatype Item = Plain(d: Directive) | Chain(open: Directive, body: Items, tail: Tail)

  datatype Tail =
    | End(text: CString)
    | Otherwise(text: CString, body: Items, end: CString)
    | ElseIf(exp: CString, text: CString, body: Items, tail: Tail)

  predicate WellFormed(items: Items) {
    match items
    case Nil => true
    case Cons(item, more) =>
      WellFormed(more) &&
      match item
      case Plain(d) => !Opens(d) && !d.Else? && !d.Elif? && !d.Endif?
      case Chain(open, body, tail) => Opens(open) && WellFormed(body) && WellFormedTail(tail)
  }

  predicate WellFormedTail(t: Tail) {
    match t
    case End(_) => true
    case Otherwise(_, body, _) => WellFormed(body)
    case ElseIf(_, _, body, tail) => WellFormed(body) && WellFormedTail(tail)
  }

  /** The lines of the file, followed by `k`. */
  function Emit(items: Items, k: seq<Directive>): seq<Directive> {
    match items
    case Nil => k
    case Cons(item, more) =>
      match item
      case Plain(d) => [d] + Emit(more, k)
      case Chain(open, body, tail) => [open] + Emit(body, EmitTail(tail, Emit(more, k)))
  }

  function EmitTail(t: Tail, k: seq<Directive>): seq<Directive> {
    match t
    case End(text) => [Endif(text)] + k
    case Otherwise(text, body, end) => [Else(text)] + Emit(body, [Endif(end)] + k)
    case ElseIf(exp, text, body, tail) => [Elif(exp, text)] + Emit(body, EmitTail(tail, k))
  }

  function Size(items: Items): nat {
    match items
    case Nil => 0
    case Cons(item, more) => Size(more) + if item.Chain? then 1 + Size(item.body) + TailSize(item.tail) else 1
  }

  function TailSize(t: Tail): nat {
    match t
    case End(_) => 0
    case Otherwise(_, body, _) => 1 + Size(body)
    case ElseIf(_, _, body, tail) => 1 + Size(body) + TailSize(tail)
  }

  /** Skipping lines changes nothing, but every #elif among them is evaluated, whatever its depth: the
      first that gets lost. */
  function SkipLoss(h: Host, st: State, red: nat, items: Items): Option<Loss>
    decreases Size(items), 0
  {
    match items
    case Nil => None
    case Cons(item, more) =>
      var loss := if item.Chain? then ChainLoss(h, st, red, item.body, item.tail) else None;
      if loss.Some? then loss else SkipLoss(h, st, red, more)
  }

  function ChainLoss(h: Host, st: State, red: nat, body: Items, t: Tail): Option<Loss>
    decreases Size(body) + TailSize(t), 1
  {
    var loss := SkipLoss(h, st, red, body);
    if loss.Some? then loss
    else if HeadLoss(h, st, red, t).Some? then HeadLoss(h, st, red, t)
    else TailLoss(h, st, red, t)
  }

  function HeadLoss(h: Host, st: State, red: nat, t: Tail): Option<Loss> {
    if t.ElseIf? && Test(h, st, red, t.exp).Undecided? then Some(Test(h, st, red, t.exp).loss) else None
  }

  /** The same for the rest of a chain, the condition it starts with aside: find_includes stops in
      front of it without a look. */
  function TailLoss(h: Host, st: State, red: nat, t: Tail): Option<Loss>
    decreases TailSize(t), 0
  {
    match t
    case End(_) => None
    case Otherwise(_, body, _) => SkipLoss(h, st, red, body)
    case ElseIf(_, _, body, tail) => ChainLoss(h, st, red, body, tail)
  }

  /** Outcome `o`, unless something gets lost behind it. */
  function Unless(o: Outcome, loss: Option<Loss>): (r: Outcome)
    ensures r.st == o.st
  {
    if !o.kind.Halt? && loss.Some? then o.(kind := Halt(Unevaluated(loss.value))) else o
  }

  /** The structural meaning: perform the lines in force, in order, each in the state the previous
      ones left; of a chain, the first group whose condition holds in the current state. */
  function Exec(h: Host, st: State, items: Items, file: nat, red: nat): (r: Outcome)
    requires WellFormed(items) && file < |st.slots|
    ensures NoMore(st, r.st)
    decreases Size(items), 0
  {
    match items
    case Nil => Outcome(st, [], Eof)
    case Cons(item, more) =>
      var o :=
        match item
        case Plain(d) => Act(h, st, d, file, red)
        case Chain(open, body, tail) => ExecChain(h, st, Holds(h, st, red, open), body, tail, file, red);
      if o.kind.Halt? then o else Exec(h, o.st, more, file, red)
  }

  /** A chain of groups, the first of which opens with verdict `v`. */
  function ExecChain(h: Host, st: State, v: Verdict, body: Items, t: Tail, file: nat, red: nat): (r: Outcome)
    requires WellFormed(body) && WellFormedTail(t) && file < |st.slots|
    ensures NoMore(st, r.st)
    decreases Size(body) + TailSize(t), 1
  {
    match v
    case Undecided(loss) => Outcome(st, [], Halt(Unevaluated(loss)))
    case Decided(true) =>
      var o := Exec(h, st, body, file, red);
      Unless(o, TailLoss(h, o.st, red, t))
    case Decided(false) =>
      match SkipLoss(h, st, red, body)
      case Some(loss) => Outcome(st, [], Halt(Unevaluated(loss)))
      case None => ExecTail(h, st, t, file, red)
  }

  function ExecTail(h: Host, st: State, t: Tail, file: nat, red: nat): (r: Outcome)
    requires WellFormedTail(t) && file < |st.slots|
    ensures NoMore(st, r.st)
    decreases TailSize(t), 0
  {
    match t
    case End(_) => Outcome(st, [], Eof)
    case Otherwise(_, body, _) => Exec(h, st, body, file, red)
    case ElseIf(exp, _, body, tail) => ExecChain(h, st, Test(h, st, red, exp), body, tail, file, red)
  }

  // ---- Skipped groups -------------------------------------------------------------------------

  /** How the rest of a chain starts, and what follows that line. */
  function Head(h: Host, st: State, red: nat, t: Tail): Type {
    match t
    case End(_) => TEndif
    case Otherwise(_, _, _) => TElse
    case ElseIf(exp, _, _, _) => ElifType(Test(h, st, red, exp))
  }

  function AfterHead(t: Tail, k: seq<Directive>): seq<Directive> {
    match t
    case End(_) => k
    case Otherwise(_, body, end) => Emit(body, [Endif(end)] + k)
    case ElseIf(_, _, body, tail) => Emit(body, EmitTail(tail, k))
  }

  lemma GobbleHead(h: Host, st: State, red: nat, t: Tail, k: seq<Directive>)
    ensures Gobble(h, st, red, EmitTail(t, k)) == (Head(h, st, red, t), AfterHead(t, k))
  {
    hide Emit;
    var lines := EmitTail(t, k);
    assert lines[1..] == AfterHead(t, k);
  }

  /** gobble runs over well-nested lines, however deep, and changes nothing; unless it gets lost in a
      condition there. */
  lemma {:induction false} GobbleItems(h: Host, st: State, red: nat, items: Items, k: seq<Directive>)
    requires WellFormed(items)
    ensures match SkipLoss(h, st, red, items)
            case None => Gobble(h, st, red, Emit(items, k)) == Gobble(h, st, red, k)
            case Some(loss) => Gobble(h, st, red, Emit(items, k)).0 == Halt(Unevaluated(loss))
    decreases Size(items), 0
  {
    match items
    case Nil =>
    case Cons(item, more) =>
      GobbleItems(h, st, red, more, k);
      match item
      case Plain(d) => assert Emit(items, k)[1..] == Emit(more, k);
      case Chain(open, body, tail) =>
        var rest := EmitTail(tail, Emit(more, k));
        assert Emit(items, k)[1..] == Emit(body, rest);
        GobbleChain(h, st, red, body, tail, Emit(more, k));
  }

  /** The groups of a chain, from behind the line that opens it. */
  lemma {:induction false} GobbleChain(h: Host, st: State, red: nat, body: Items, t: Tail, k: seq<Directive>)
    requires WellFormed(body) && WellFormedTail(t)
    ensures var g := Gobble(h, st, red, Emit(body, EmitTail(t, k)));
            SkipsTo(SkipRest(h, st, red, g.1, g.0), ChainLoss(h, st, red, body, t), k)
    decreases Size(body) + TailSize(t), 1
  {
    hide Gobble, Emit, SkipLoss, EmitTail;
    GobbleItems(h, st, red, body, EmitTail(t, k));
    GobbleHead(h, st, red, t, k);
    if SkipLoss(h, st, red, body).None? && HeadLoss(h, st, red, t).None? {
      SkipTail(h, st, red, t, k, Head(h, st, red, t));
    }
  }

  /** Skipping ends in front of `k`, or gets lost. */
  predicate SkipsTo(r: (Type, seq<Directive>), loss: Option<Loss>, k: seq<Directive>) {
    if loss.None? then r == (Eof, k) else r.0 == Halt(Unevaluated(loss.value))
  }

  /** What may be known of the start of the rest of a chain when its skipping begins. */
  predicate Fits(t: Tail, kind: Type) {
    match t
    case End(_) => kind == TEndif
    case Otherwise(_, _, _) => kind == TElse
    case ElseIf(_, _, _, _) => kind == TElif || kind == TElifFalse
  }

  /** After the group in force the rest of the chain is skipped, to its #endif and no further; unless
      the scan gets lost in a condition there. */
  lemma {:induction false} SkipTail(h: Host, st: State, red: nat, t: Tail, k: seq<Directive>, kind: Type)
    requires WellFormedTail(t) && Fits(t, kind)
    ensures SkipsTo(SkipRest(h, st, red, AfterHead(t, k), kind), TailLoss(h, st, red, t), k)
    decreases TailSize(t), 0
  {
    match t
    case End(_) =>
    case Otherwise(_, body, end) =>
      GobbleItems(h, st, red, body, [Endif(end)] + k);
      GobbleHead(h, st, red, End(end), k);
    case ElseIf(_, _, body, tail) =>
      GobbleChain(h, st, red, body, tail, k);
      SkipsOn(h, st, red, AfterHead(t, k), kind);
  }

  lemma SkipsOn(h: Host, st: State, red: nat, lines: seq<Directive>, kind: Type)
    requires kind == TElif || kind == TElifFalse
    ensures var g := Gobble(h, st, red, lines); SkipRest(h, st, red, lines, kind) == SkipRest(h, st, red, g.1, g.0)
  {
    hide Gobble;
  }

  // ---- The theorem ----------------------------------------------------------------------------

  /** find_includes, on the lines of a well-nested piece of file followed by anything, performs what
      the structure means and goes on with what follows; or stops where the structure stops. */
  ghost predicate Performs(h: Host, o: Outcome, e: Outcome, k: seq<Directive>, file: nat, red: nat, depth: nat)
    requires file < |e.st.slots|
  {
    if e.kind.Halt? then o.kind == e.kind && o.st == e.st
    else o == FindIncludes(h, e.st, k, file, red, depth)
  }

  lemma {:induction false} Selects(h: Host, st: State, items: Items, k: seq<Directive>, file: nat, red: nat, depth: nat)
    requires WellFormed(items) && file < |st.slots|
    ensures Performs(h, FindIncludes(h, st, Emit(items, k), file, red, depth), Exec(h, st, items, file, red),
                     k, file, red, depth)
    decreases Size(items), 0
  {
    match items
    case Nil =>
    case Cons(item, more) =>
      var lines := Emit(items, k);
      match item
      case Plain(d) =>
        var o := Act(h, st, d, file, red);
        assert lines[0] == d && lines[1..] == Emit(more, k);
        if !o.kind.Halt? { Selects(h, o.st, more, k, file, red, depth); }
      case Chain(open, body, tail) =>
        var after := Emit(more, k);
        assert lines[0] == open && lines[1..] == Emit(body, EmitTail(tail, after));
        var v := Holds(h, st, red, open);
        SelectsChain(h, st, v, body, tail, after, file, red, depth);
        var o := ExecChain(h, st, v, body, tail, file, red);
        if !o.kind.Halt? { Selects(h, o.st, more, k, file, red, depth); }
  }

  /** What doif and doiffalse come to: the state of `e`, and the lines behind the #endif. */
  ghost predicate Leaves(o: Outcome, e: Outcome, k: seq<Directive>) {
    if e.kind.Halt? then o.kind == e.kind && o.st == e.st
    else !o.kind.Halt? && o.st == e.st && o.rest == k
  }

  lemma {:induction false} SelectsChain(h: Host, st: State, v: Verdict, body: Items, tail: Tail, k: seq<Directive>,
                                        file: nat, red: nat, depth: nat)
    requires WellFormed(body) && WellFormedTail(tail) && file < |st.slots|
    ensures Leaves(Groups(h, st, v, Emit(body, EmitTail(tail, k)), file, red, depth),
                   ExecChain(h, st, v, body, tail, file, red), k)
    decreases Size(body) + TailSize(tail), 2
  {
    hide DoIf, DoIfFalse, Exec, ExecTail, Emit, EmitTail;
    match v
    case Undecided(_) =>
    case Decided(true) => Takes(h, st, body, tail, k, file, red, depth);
    case Decided(false) => Skips(h, st, body, tail, k, file, red, depth);
  }

  lemma {:induction false} Takes(h: Host, st: State, body: Items, tail: Tail, k: seq<Directive>, file: nat, red: nat,
                                 depth: nat)
    requires WellFormed(body) && WellFormedTail(tail) && file < |st.slots|
    ensures var e := Exec(h, st, body, file, red);
            Leaves(DoIf(h, st, Emit(body, EmitTail(tail, k)), file, red, depth),
                   Unless(e, TailLoss(h, e.st, red, tail)), k)
    decreases Size(body) + TailSize(tail), 1
  {
    hide Exec, Emit, SkipRest, TailLoss, FindIncludes;
    Selects(h, st, body, EmitTail(tail, k), file, red, depth + 1);
    var e := Exec(h, st, body, file, red);
    if !e.kind.Halt? {
      StopsAtTail(h, e.st, tail, k, file, red, depth + 1);
      SkipTail(h, e.st, red, tail, k, StopType(tail));
    }
  }

  /** How a group in force ends. */
  function StopType(t: Tail): (kind: Type)
    ensures Fits(t, kind)
  {
    match t
    case End(_) => TEndif
    case Otherwise(_, _, _) => TElse
    case ElseIf(_, _, _, _) => TElif
  }

  lemma StopsAtTail(h: Host, st: State, tail: Tail, k: seq<Directive>, file: nat, red: nat, depth: nat)
    requires file < |st.slots| && depth > 0
    ensures FindIncludes(h, st, EmitTail(tail, k), file, red, depth) == Outcome(st, AfterHead(tail, k), StopType(tail))
  {
    assert EmitTail(tail, k)[1..] == AfterHead(tail, k);
  }

  lemma {:induction false} Skips(h: Host, st: State, body: Items, tail: Tail, k: seq<Directive>, file: nat, red: nat,
                                 depth: nat)
    requires WellFormed(body) && WellFormedTail(tail) && file < |st.slots|
    ensures Leaves(DoIfFalse(h, st, Emit(body, EmitTail(tail, k)), file, red, depth),
                   ExecChain(h, st, Decided(false), body, tail, file, red), k)
    decreases Size(body) + TailSize(tail), 1
  {
    hide Exec, Emit, SkipRest, SkipLoss, FindIncludes, Gobble;
    GobbleItems(h, st, red, body, EmitTail(tail, k));
    if SkipLoss(h, st, red, body).None? {
      GobbleHead(h, st, red, tail, k);
      match tail
      case End(_) =>
      case Otherwise(_, other, end) =>
        Selects(h, st, other, [Endif(end)] + k, file, red, depth + 1);
        var e := Exec(h, st, other, file, red);
        if !e.kind.Halt? { StopsAtTail(h, e.st, End(end), k, file, red, depth + 1); }
      case ElseIf(exp, _, other, tail') =>
        var v := Test(h, st, red, exp);
        SelectsChain(h, st, v, other, tail', k, file, red, depth);
    }
  }

  /** A well-nested file read to its end: exactly the selected lines, and every line consumed. */
  lemma ScansStructure(h: Host, st: State, items: Items, file: nat, red: nat)
    requires WellFormed(items) && file < |st.slots|
    ensures var o, e := FindIncludes(h, st, Emit(items, []), file, red, 0), Exec(h, st, items, file, red);
            o.st == e.st && (if e.kind.Halt? then o.kind == e.kind else o.kind == Eof && o.rest == [])
  {
    Selects(h, st, items, [], file, red, 0);
  }

  // ---- Lines that are not well nested ---------------------------------------------------------

  /** What a line that falls through into define binds: the empty name, to the line without its #. */
  lemma StrayParts(line: CString)
    requires line != "" && line[0] == '#'
    ensures DefineParts(line).0 == ""
    ensures DefineParts(line).1 == if SkipBlanks(line[1..]) == "" then "1" else SkipBlanks(line[1..])
  {
  }

  /** A stray #endif, or anything that begins like one, defines a symbol whose name is empty. */
  lemma StrayEndifDefines(h: Host, st: State, text: CString, k: seq<Directive>, file: nat, red: nat)
    requires file < |st.slots| && text != "" && text[0] == '#'
    ensures FindIncludes(h, st, [Endif(text)] + k, file, red, 0) ==
              FindIncludes(h, DefineIn(st, file, text), k, file, red, 0)
    ensures "" in DefineIn(st, file, text).slots[file].symbols
  {
    StrayParts(text);
    var lines := [Endif(text)] + k;
    assert lines[0] == Endif(text) && lines[1..] == k;
    hide DefineParts;
    assert DefineIn(st, file, text).slots[file].symbols ==
        st.slots[file].symbols[DefineParts(text).0 := DefineParts(text).1];
    hide DefineIn;
  }

  /** A stray #else does that too, and skips the lines to the next #else, #elif or #endif, here a
      definition. */
  lemma StrayElseSkips(h: Host, st: State, text: CString, def: CString, end: CString, k: seq<Directive>, file: nat,
                       red: nat)
    requires file < |st.slots|
    ensures FindIncludes(h, st, [Else(text)] + ([Define(def)] + ([Endif(end)] + k)), file, red, 0)
            == FindIncludes(h, DefineIn(st, file, text), k, file, red, 0)
  {
    var last := [Endif(end)] + k;
    var rest := [Define(def)] + last;
    var lines := [Else(text)] + rest;
    assert lines[0] == Else(text) && lines[1..] == rest;
    assert rest[0] == Define(def) && rest[1..] == last && last[0] == Endif(end) && last[1..] == k;
    assert Gobble(h, st, red, last) == (TEndif, k);
    assert Gobble(h, st, red, rest) == (TEndif, k);
    hide DefineIn, Gobble;
  }
}
