/** find_includes, gobble, add_include and the main loop of makedepend as loops over a file pointer,
    proved to compute the functions of Engine. */
module EngineMethods {
  import opened Options
  import opened SymbolTable
  import opened IncludePaths
  import opened IfParser
  import opened Directives
  import opened SymbolLookup
  import E = Engine
  import Dependencies

  /** struct filepointer, over the `#` lines that getline returns. */
  class FilePointer {
    const lines: seq<CString>
    var pos: nat

    constructor (lines: seq<CString>)
      ensures this.lines == lines && pos == 0
    {
      this.lines := lines;
      pos := 0;
    }

    ghost predicate Valid()
      reads this
    {
      pos <= |lines|
    }

    /** What is still to be read. */
    ghost function Rest(): seq<Directive>
      requires Valid()
      reads this
    {
      ScanAll(lines)[pos..]
    }

    method Next() returns (d: Directive)
      requires Valid() && pos < |lines|
      modifies this
      ensures Valid() && pos == old(pos) + 1
      ensures old(Rest()) == [d] + Rest()
    {
      d := Scan(lines[pos]);
      pos := pos + 1;
    }
  }

  class Makedepend {
    const host: E.Host
    var st: E.State

    constructor (host: E.Host, slots: Slots, command: map<CString, CString>)
      ensures this.host == host && st == E.State(slots, 0, command, [])
    {
      this.host := host;
      st := E.State(slots, 0, command, []);
    }

    /** gobble. */
    method Gobble(fp: FilePointer, red: nat) returns (kind: E.Type)
      requires fp.Valid()
      modifies fp
      ensures fp.Valid() && fp.pos >= old(fp.pos) && (kind != E.Eof ==> fp.pos > old(fp.pos))
      ensures (kind, fp.Rest()) == E.Gobble(host, st, red, old(fp.Rest()))
      decreases |fp.lines| - fp.pos, 0
    {
      while fp.pos < |fp.lines|
        invariant fp.Valid() && fp.pos >= old(fp.pos)
        invariant E.Gobble(host, st, red, fp.Rest()) == E.Gobble(host, st, red, old(fp.Rest()))
        decreases |fp.lines| - fp.pos
      {
        var d := fp.Next();
        if E.Opens(d) {
          kind := Gobble(fp, red);
          kind := SkipRest(fp, red, kind);
          if kind.Halt? { return; }
        } else if d.Else? {
          return E.TElse;
        } else if d.Endif? {
          return E.TEndif;
        } else if d.Elif? {
          return E.ElifType(E.Test(host, st, red, d.exp));
        }
      }
      kind := E.Eof;
    }

    /** The statements that follow a group in find_includes and in gobble: gobble while the group
        ended in #elif, and once more if it ended in #else. */
    method SkipRest(fp: FilePointer, red: nat, first: E.Type) returns (kind: E.Type)
      requires fp.Valid()
      modifies fp
      ensures fp.Valid() && fp.pos >= old(fp.pos)
      ensures (kind, fp.Rest()) == E.SkipRest(host, st, red, old(fp.Rest()), first)
      decreases |fp.lines| - fp.pos, 1
    {
      kind := first;
      while kind == E.TElif || kind == E.TElifFalse
        invariant fp.Valid() && fp.pos >= old(fp.pos)
        invariant E.SkipRest(host, st, red, fp.Rest(), kind) == E.SkipRest(host, st, red, old(fp.Rest()), first)
        decreases |fp.lines| - fp.pos, kind == E.TElif || kind == E.TElifFalse
      {
        kind := Gobble(fp, red);
      }
      if kind == E.TElse {
        kind := Gobble(fp, red);
      }
      if !kind.Halt? {
        kind := E.Eof;
      }
    }

    /** How far the scan has to go. */
    ghost function Left(): nat
      reads this
    {
      E.Unsearched(st.slots)
    }

    /** The result of a method is that of the function, up to the lines left when the scan stops. */
    ghost predicate Gives(o: E.Outcome, kind: E.Type, rest: seq<Directive>)
      reads this
    {
      kind == o.kind && st == o.st && (!kind.Halt? ==> rest == o.rest)
    }

    /** find_includes. */
    method FindIncludes(fp: FilePointer, file: nat, red: nat, depth: nat) returns (kind: E.Type)
      requires fp.Valid() && file < |st.slots|
      modifies this, fp
      ensures fp.Valid() && fp.pos >= old(fp.pos)
      ensures Gives(E.FindIncludes(host, old(st), old(fp.Rest()), file, red, depth), kind, fp.Rest())
      decreases Left(), |fp.lines| - fp.pos, 2
    {
      ghost var whole := E.FindIncludes(host, st, fp.Rest(), file, red, depth);
      while fp.pos < |fp.lines|
        invariant fp.Valid() && fp.pos >= old(fp.pos)
        invariant E.NoMore(old(st), st)
        invariant E.FindIncludes(host, st, fp.Rest(), file, red, depth) == whole
        decreases |fp.lines| - fp.pos
      {
        ghost var lines := fp.Rest();
        var d := fp.Next();
        assert lines[1..] == fp.Rest();
        if E.Opens(d) {
          var v := E.Holds(host, st, red, d);
          kind := Groups(fp, v, file, red, depth);
          if kind.Halt? { return; }
        } else if (d.Else? || d.Elif? || d.Endif?) && depth > 0 {
          return if d.Else? then E.TElse else if d.Elif? then E.TElif else E.TEndif;
        } else if d.Else? || d.Elif? {
          kind := Gobble(fp, red);
          if kind.Halt? { return; }
          st := E.DefineIn(st, file, d.text);
        } else {
          kind := Perform(d, file, red);
          if kind.Halt? { return; }
        }
      }
      kind := E.Eof;
    }

    /** The labels doiffalse and doif, for a group that opens with verdict `first`. */
    method Groups(fp: FilePointer, first: Verdict, file: nat, red: nat, depth: nat) returns (kind: E.Type)
      requires fp.Valid() && file < |st.slots|
      modifies this, fp
      ensures fp.Valid() && fp.pos >= old(fp.pos)
      ensures var o := E.Groups(host, old(st), first, old(fp.Rest()), file, red, depth);
              && st == o.st && (o.kind.Halt? ==> kind == o.kind)
              && (!o.kind.Halt? ==> !kind.Halt? && fp.Rest() == o.rest)
      decreases Left(), |fp.lines| - fp.pos, 3
    {
      hide E.FindIncludes, E.SkipRest, E.Gobble;
      if first.Undecided? {
        return E.Halt(E.Unevaluated(first.loss));
      }
      var inForce := first.holds;
      ghost var whole := E.Groups(host, st, first, fp.Rest(), file, red, depth);
      while !inForce
        invariant fp.Valid() && fp.pos >= old(fp.pos) && st == old(st)
        invariant whole == E.Groups(host, st, Decided(inForce), fp.Rest(), file, red, depth)
        decreases |fp.lines| - fp.pos, !inForce
      {
        kind := Gobble(fp, red);
        if kind == E.TElse {
          kind := FindIncludes(fp, file, red, depth + 1);
          return;
        }
        if kind != E.TElif && kind != E.TElifFalse {
          return;
        }
        inForce := kind == E.TElif;
      }
      kind := FindIncludes(fp, file, red, depth + 1);
      if !kind.Halt? {
        kind := SkipRest(fp, red, kind);
      }
    }

    /** The other lines in force. */
    method Perform(d: Directive, file: nat, red: nat) returns (kind: E.Type)
      requires file < |st.slots|
      modifies this
      ensures Comes(E.Act(host, old(st), d, file, red), kind)
      decreases Left(), 0, 4
    {
      kind := E.Eof;
      match d
      case Endif(text) => st := E.DefineIn(st, file, text);
      case Define(def) => st := E.DefineIn(st, file, def);
      case Undef(name) => if name != "" { st := E.UndefineFrom(st, red, name); }
      case Include(arg, room) => kind := IncludeArgument(arg, room, file, red);
      case _ =>
    }

    /** What a line in force comes to: the state, and whether the scan stops. */
    ghost predicate Comes(o: E.Outcome, kind: E.Type)
      reads this
    {
      st == o.st && (o.kind.Halt? ==> kind == o.kind) && (!o.kind.Halt? ==> !kind.Halt?)
    }

    method IncludeArgument(arg: CString, room: nat, file: nat, red: nat) returns (kind: E.Type)
      requires file < |st.slots|
      modifies this
      ensures Comes(E.IncludeArgument(host, old(st), arg, room, file, red), kind)
      decreases Left(), 0, 3
    {
      var env := E.Env(st, red);
      var end := FollowMacros(env, arg);
      if end.None? {
        return E.Halt(E.EndlessMacro);
      }
      if arg in env {
        st := E.MarkSym(st, file);
      }
      var name := IncludeName(end.value);
      if name.None? {
        return E.Eof;
      }
      kind := AddInclude(file, red, name.value.0, name.value.1);
      if arg in env && |name.value.0| > room && !kind.Halt? {
        kind := E.Halt(E.Overwritten);
      }
    }

    /** The loop of deftype over macros that stand for the file name.  Where C starts to go round, the
        loop here stops. */
    method FollowMacros(env: map<CString, CString>, arg: CString) returns (end: Option<CString>)
      ensures end == E.MacroEnd(env, arg, {})
    {
      var p := arg;
      var seen := {};
      while p in env
        invariant E.MacroEnd(env, p, seen) == E.MacroEnd(env, arg, {})
        decreases env.Keys - seen
      {
        if p in seen {
          return None;
        }
        seen := seen + {p};
        p := env[p];
      }
      end := Some(p);
    }

    /** add_include, with the lookup loop of inc_path. */
    method AddInclude(file: nat, red: nat, inc: CString, dot: bool) returns (kind: E.Type)
      requires file < |st.slots|
      modifies this
      ensures Comes(E.AddInclude(host, old(st), file, red, inc, dot), kind)
      decreases Left(), 0, 2
    {
      var n := Min(st.inclistp, |st.slots|);
      var ip := 0;
      while ip < n && !(st.slots[ip].incstring == inc && !st.slots[ip].includedSym)
        invariant ip <= n
        invariant E.FirstWith(st.slots, n, ip, inc) == E.FirstWith(st.slots, n, 0, inc)
      {
        ip := ip + 1;
      }
      if ip < n {
        kind := Link(file, red, ip);
      } else {
        var path := host.resolve(st.slots[file].file, inc, dot);
        if path.None? {
          return E.Eof;
        }
        var target := st.inclistp;
        var more := E.NewInclude(st, path.value, inc);
        if more.None? {
          return E.Halt(E.OutOfSlots);
        }
        st := more.value;
        kind := Link(file, red, target);
      }
    }

    /** included_by, and the scan of a file met for the first time. */
    method Link(file: nat, red: nat, target: nat) returns (kind: E.Type)
      requires file < |st.slots| && target < |st.slots|
      modifies this
      ensures Comes(E.Link(host, old(st), file, red, target), kind)
      decreases Left(), 0, 1
    {
      st := E.IncludedBy(st, file, target);
      if st.slots[target].searched {
        return E.Eof;
      }
      st := E.SetSlot(st, target, st.slots[target].(searched := true));
      st := st.(scanned := st.scanned + [target]);
      var content := new FilePointer(host.contents(st.slots[target].file));
      kind := FindIncludes(content, target, red, 0);
    }
  }
}
