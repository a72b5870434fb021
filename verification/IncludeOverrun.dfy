/** The name of an included file is copied over the #include line itself, at the start of the buffer
    that getline works on.  A name reached through a macro may be longer than the line. */
module IncludeOverrun {
  import opened Options
  import opened SymbolTable
  import opened SymbolLookup
  import opened Directives
  import opened Engine
  import G = GetLine

  /** The buffer after a name and a NUL have been written at an index. */
  function Written(buf: string, at: nat, name: string): string
    requires at + |name| < |buf|
  {
    buf[..at] + name + ['\0'] + buf[at + |name| + 1..]
  }

  /** The copying loops of deftype, from the character behind the quote or bracket of a macro's value. */
  method CopyName(buf: array<char>, at: nat, p: CString, close: char)
    requires at + |Upto(p, close)| < buf.Length
    modifies buf
    ensures buf[..] == Written(old(buf[..]), at, Upto(p, close))
  {
    ghost var name := Upto(p, close);
    ghost var before := buf[..];
    var line, i := at, 0;
    assert p[0..] == p && name[..0] == "";
    while i < |p| && p[i] != close
      invariant i <= |p| && i <= |name| && line == at + i
      invariant name[i..] == Upto(p[i..], close)
      invariant buf[..at] == before[..at] && buf[at..line] == name[..i] && buf[line..] == before[line..]
    {
      assert p[i..][1..] == p[i + 1..] && p[i..][0] == p[i];
      assert name[i..] == [p[i]] + Upto(p[i + 1..], close);
      assert name[i] == name[i..][0] == p[i] && name[i + 1..] == name[i..][1..];
      CopyStep(buf[..], before, at, line, name, i);
      buf[line] := p[i];
      line, i := line + 1, i + 1;
    }
    assert i < |p| ==> p[i..][0] == close;
    assert name[i..] == "" && i == |name| && name[..i] == name;
    ghost var almost := buf[..];
    buf[line] := '\0';
    assert buf[..] == almost[line := '\0'];
    NameWritten(almost, before, at, name);
  }

  lemma CopyStep(now: string, before: string, at: nat, line: nat, name: string, i: nat)
    requires |now| == |before| && at <= line < |now| && line == at + i && i < |name|
    requires now[..at] == before[..at] && now[at..line] == name[..i] && now[line..] == before[line..]
    ensures var next := now[line := name[i]];
            next[..at] == before[..at] && next[at..line + 1] == name[..i + 1] && next[line + 1..] == before[line + 1..]
  {
    var next := now[line := name[i]];
    assert next[at..line + 1] == now[at..line] + [name[i]];
    assert next[line + 1..] == now[line..][1..] && before[line + 1..] == before[line..][1..];
  }

  lemma NameWritten(almost: string, before: string, at: nat, name: string)
    requires |almost| == |before| && at + |name| < |before|
    requires almost[..at] == before[..at] && almost[at..at + |name|] == name
    requires almost[at + |name|..] == before[at + |name|..]
    ensures almost[at + |name| := '\0'] == Written(before, at, name)
  {
    var z := at + |name|;
    assert almost == almost[..at] + almost[at..z] + [almost[z]] + almost[z + 1..];
    assert almost[z + 1..] == almost[z..][1..] && before[z + 1..] == before[z..][1..];
  }

  /** A line at an index of the buffer, with the text still to be read behind its NUL, and the NUL that
      ends the file. */
  ghost predicate LineAt(buf: string, at: nat, len: nat) {
    at + len < |buf| && buf[|buf| - 1] == '\0' && forall k :: at + len < k < |buf| - 1 ==> buf[k] != '\0'
  }

  /** The text behind the line is what it was if and only if the name is no longer than the line, or
      happens to be the rest of the file, letter for letter. */
  lemma TextBehindKeptExactly(buf: string, at: nat, len: nat, name: string)
    requires LineAt(buf, at, len) && at + |name| < |buf|
    ensures Written(buf, at, name)[at + len + 1..] == buf[at + len + 1..] <==>
            |name| <= len || (at + |name| == |buf| - 1 && name[len + 1..] == buf[at + len + 1..|buf| - 1])
  {
    var z, b := at + |name|, at + len + 1;
    var after := Written(buf, at, name);
    if |name| <= len {
      assert after[b..] == buf[b..];
    } else {
      assert after[b..] == name[len + 1..] + (['\0'] + buf[z + 1..]);
      assert buf[b..] == buf[b..z] + ([buf[z]] + buf[z + 1..]);
      if after[b..] == buf[b..] {
        assert buf[z] == buf[b..][z - b] == after[b..][z - b] == '\0';
        assert name[len + 1..] == after[b..][..z - b] == buf[b..z];
      }
    }
  }

  lemma {:induction false} UptoFits(p: CString, close: char)
    ensures |Upto(p, close)| <= |p|
  {
    if p != "" && p[0] != close { UptoFits(p[1..], close); }
  }

  lemma {:induction false} NameFits(p: CString)
    ensures IncludeName(p).Some? ==> |IncludeName(p).value.0| < |p|
  {
    if p == "" {
    } else if p[0] == '"' {
      UptoFits(p[1..], '"');
    } else if p[0] == '<' {
      UptoFits(p[1..], '>');
    } else {
      NameFits(p[1..]);
    }
  }

  /** A name that stands on the line itself always fits. */
  lemma OwnNameFits(line: CString)
    requires Scan(line).Include? && IncludeName(Scan(line).arg).Some?
    ensures Scan(line).room == |line| && |IncludeName(Scan(line).arg).value.0| < |line|
  {
    NameFits(Scan(line).arg);
  }

  // ---- A file that is not read as it stands ---------------------------------------------------

  lemma ReadsLine(x: string)
    requires '\n' !in x && '/' !in x && '\\' !in x
    ensures G.Run("", x + "\n", 0) ==
            if !G.IsHash(x) then G.Run("", "", 1) else if G.Bare(x) then (None, "", 1) else (Some(x), "", 1)
  {
    G.ReadsPlain("", x, "\n", 0);
    assert "" + x == x && "\n"[1..] == "";
  }

  /** A line that has been returned, in front of what is still to be read. */
  function InBuffer(line: string, rest: string): string {
    line + (['\0'] + (rest + ['\0']))
  }

  function Behind(buf: string, line: string): string
    requires |line| + 1 < |buf|
  {
    buf[|line| + 1..|buf| - 1]
  }

  lemma WrittenBehind(line: string, rest: string, name: string)
    requires |line| < |name| < |line| + 1 + |rest|
    ensures Behind(InBuffer(line, rest), line) == rest
    ensures Behind(Written(InBuffer(line, rest), 0, name), line) ==
              name[|line| + 1..] + (['\0'] + rest[|name| - |line|..])
  {
    var buf := InBuffer(line, rest);
    var after := Written(buf, 0, name);
    assert buf[|name| + 1..] == rest[|name| - |line|..] + ['\0'];
    assert after == name + (['\0'] + (rest[|name| - |line|..] + ['\0']));
  }

  const LINE: CString := "#include X"
  const NEXT: CString := "#define Y\n"
  const VALUE: CString := "<long/name.h>"
  const NAME: CString := "long/name.h"

  /** With X defined as <long/name.h>, the name that #include X stands for reaches into the line behind
      it, by one character.  #define Y is lost. */
  lemma DirectiveIsOverwritten()
    ensures Scan(LINE) == Include("X", 10) && IncludeName(VALUE) == Some((NAME, false))
    ensures |LINE| == 10 && |NAME| == 11
    ensures var buf := InBuffer(LINE, NEXT);
            && G.AllLines(Behind(buf, LINE)) == ["#define Y"]
            && G.AllLines(Behind(Written(buf, 0, NAME), LINE)) == []
  {
    IncludeXScans();
    NameIs();
    WrittenBehind(LINE, NEXT, NAME);
    hide Written, InBuffer, Behind, Scan, IncludeName;
    assert NAME[11..] == "" && NEXT[1..] == "define Y\n";
    assert "" + (['\0'] + "define Y\n") == ['\0'] + "define Y\n";
    DefineYReads();
    OverwrittenReads();
  }

  lemma IncludeXScans()
    ensures Scan(LINE) == Include("X", 10)
  {
    LineIs();
    IncludeWord("X", LINE);
    assert "include" != "";
    hide Scan, Classify, Line;
    ScanOfLine("", "include", " ", "X");
  }

  lemma LineIs()
    ensures Line("", "include", " ", "X") == LINE && |LINE| == 10
  {
    assert " " + "X" == " X";
    assert "include" + " X" == "include X";
    assert "" + "include X" == "include X";
  }

  lemma IncludeWord(arg: CString, line: CString)
    ensures Classify("include", arg, line) == Include(arg, |line|)
  {
  }

  lemma DefineYReads()
    ensures G.AllLines(NEXT) == ["#define Y"]
  {
    ReadsLine("#define Y");
    assert NEXT == "#define Y" + "\n";
    assert G.IsHash("#define Y") && "#define Y"[1] == 'd';
    assert !G.Bare("#define Y");
  }

  lemma OverwrittenReads()
    ensures G.AllLines(['\0'] + "define Y\n") == []
  {
    var x := ['\0'] + "define Y";
    assert x + "\n" == ['\0'] + "define Y\n";
    ReadsLine(x);
    assert x[0] == '\0';
  }

  lemma NameIs()
    ensures IncludeName(VALUE) == Some((NAME, false))
  {
    assert VALUE[1..] == NAME + ([('>')] + "");
    UptoAll(NAME, '>', "");
  }

  lemma {:induction false} UptoAll(name: CString, close: char, rest: CString)
    requires close !in name && close != '\0'
    ensures Upto(name + ([close] + rest), close) == name
  {
    var t := name + ([close] + rest);
    if name != "" {
      assert t[1..] == name[1..] + ([close] + rest) && t[0] == name[0];
      UptoAll(name[1..], close, rest);
    }
  }

  /** Where a macro leads to a name longer than the line, the scan is not followed: what is read next is
      not the text of the file. */
  lemma ScanStopsThere(h: Host, st: State, arg: CString, room: nat, value: CString, file: nat, red: nat)
    requires file < |st.slots| && arg in Env(st, red) && Env(st, red)[arg] == value && value !in Env(st, red)
    requires IncludeName(value).Some? && |IncludeName(value).value.0| > room
    ensures Act(h, st, Include(arg, room), file, red).kind.Halt?
  {
    TwoMacros(Env(st, red), arg, value);
    hide Env, MacroEnd, IncludeName, AddInclude, MarkSym;
  }

  lemma TwoMacros(env: map<CString, CString>, x: CString, v: CString)
    requires x in env && env[x] == v && v !in env
    ensures MacroEnd(env, x, {}) == Some(v)
  {
  }
}
