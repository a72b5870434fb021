/** getline of makedepend's main.c: the `#` lines of a file, with comments and continuations blanked
    in place. */
module GetLine {
  import opened Options

  // ---- What the lines of a file are -----------------------------------------------------------

  predicate StartsWith(t: string, a: char, b: char) {
    |t| >= 2 && t[0] == a && t[1] == b
  }

  /** Comments become blanks, newlines inside them too; so does a backslash before a newline, with
      the newline. */
  function Blank(t: string): (u: string)
    ensures |u| == |t|
    decreases |t|
  {
    if t == "" then ""
    else if StartsWith(t, '/', '*') then "  " + BlankComment(t[2..])
    else if StartsWith(t, '\\', '\n') then "  " + Blank(t[2..])
    else [t[0]] + Blank(t[1..])
  }

  function BlankComment(t: string): (u: string)
    ensures |u| == |t|
    decreases |t|
  {
    if t == "" then ""
    else if StartsWith(t, '*', '/') then "  " + Blank(t[2..])
    else " " + BlankComment(t[1..])
  }

  /** The lines of a text that starts in the middle of a line, behind `pre`. */
  function LinesFrom(pre: string, u: string): seq<string>
    decreases |u|
  {
    if u == "" then [pre]
    else if u[0] == '\n' then [pre] + LinesFrom("", u[1..])
    else LinesFrom(pre + [u[0]], u[1..])
  }

  predicate IsHash(line: string) { line != "" && line[0] == '#' }

  /** A # and nothing else but blanks. */
  predicate Bare(line: string) {
    IsHash(line) && forall i :: 0 < i < |line| ==> line[i] == ' ' || line[i] == '\t'
  }

  function HashLines(lines: seq<string>): seq<string> {
    if lines == [] then [] else (if IsHash(lines[0]) then [lines[0]] else []) + HashLines(lines[1..])
  }

  ghost predicate NoBare(lines: seq<string>) {
    forall i :: 0 <= i < |lines| ==> !Bare(lines[i])
  }

  function Newlines(t: string): nat {
    if t == "" then 0 else (if t[0] == '\n' then 1 else 0) + Newlines(t[1..])
  }

  // ---- What getline does, as coded ------------------------------------------------------------

  /** The line returned, the text left for the next call, the line number. */
  type Result = (Option<string>, string, nat)

  /** From a point outside comments, with `pre` read of the current line and `t` to come.  After a
      bare line the scan goes on behind the first character of the next line. */
  function Run(pre: string, t: string, lineno: nat): (r: Result)
    ensures |r.1| <= |t| && (r.0.Some? && pre == "" ==> |r.1| < |t|)
    decreases |t|, 0
  {
    if t == "" then (if IsHash(pre) then Some(pre) else None, "", lineno)
    else if StartsWith(t, '/', '*') then RunComment(pre + "  ", t[2..], lineno)
    else if StartsWith(t, '\\', '\n') then Run(pre + "  ", t[2..], lineno + 1)
    else if t[0] == '\n' then
      if !IsHash(pre) then Run("", t[1..], lineno + 1)
      else if !Bare(pre) then (Some(pre), t[1..], lineno + 1)
      else if |t| == 1 then (None, "", lineno + 1)
      else Run("", t[2..], lineno + 1)
    else Run(pre + [t[0]], t[1..], lineno)
  }

  function RunComment(pre: string, t: string, lineno: nat): (r: Result)
    ensures |r.1| <= |t|
    decreases |t|, 1
  {
    if t == "" then Run(pre, "", lineno)
    else if StartsWith(t, '*', '/') then Run(pre + "  ", t[2..], lineno)
    else RunComment(pre + " ", t[1..], lineno + if t[0] == '\n' then 1 else 0)
  }

  /** All the lines successive calls return. */
  function AllLines(t: string): seq<string>
    decreases |t|
  {
    var r := Run("", t, 0);
    if r.0.None? then [] else [r.0.value] + AllLines(r.1)
  }

  /** Plain text is read character by character. */
  lemma {:induction false} ReadsPlain(pre: string, x: string, t: string, n: nat)
    requires '\n' !in x && '/' !in x && '\\' !in x
    ensures Run(pre, x + t, n) == Run(pre + x, t, n)
    decreases |x|
  {
    if x == "" {
      assert x + t == t && pre + x == pre;
    } else {
      assert (x + t)[1..] == x[1..] + t && (x + t)[0] == x[0];
      ReadsPlain(pre + [x[0]], x[1..], t, n);
      assert pre + [x[0]] + x[1..] == pre + x;
    }
  }

  // ---- The connection -------------------------------------------------------------------------

  lemma LinesStep(pre: string, u: string)
    requires u != ""
    ensures u[0] != '\n' ==> LinesFrom(pre, u) == LinesFrom(pre + [u[0]], u[1..])
    ensures u[0] == '\n' ==> LinesFrom(pre, u) == [pre] + LinesFrom("", u[1..])
  {
  }

  lemma LinesTwoBlanks(pre: string, u: string)
    ensures LinesFrom(pre, "  " + u) == LinesFrom(pre + "  ", u)
  {
    var v := "  " + u;
    assert v[1..] == " " + u && v[1..][1..] == u;
    assert pre + [' '] + [' '] == pre + "  ";
  }

  lemma HashLinesFirst(line: string, more: seq<string>)
    ensures HashLines([line] + more) == (if IsHash(line) then [line] else []) + HashLines(more)
  {
    assert ([line] + more)[1..] == more;
  }

  lemma NoBareFirst(line: string, more: seq<string>)
    requires NoBare([line] + more)
    ensures !Bare(line) && NoBare(more)
  {
    assert ([line] + more)[0] == line;
    assert forall i :: 0 <= i < |more| ==> more[i] == ([line] + more)[i + 1];
  }

  /** `r` is the next # line of `lines` behind the current point, and counts the newlines of `t` up to
      what is left. */
  ghost predicate Correct(r: Result, lines: seq<string>, t: string, lineno: nat) {
    && r.2 + Newlines(r.1) == lineno + Newlines(t)
    && HashLines(lines) == (if r.0.Some? then [r.0.value] + HashLines(LinesAfter(r.1)) else [])
    && (r.0.Some? ==> NoBare(LinesAfter(r.1)))
  }

  /** The lines from the start of a line on; none at the end of the file. */
  function LinesAfter(t: string): seq<string> {
    if t == "" then [] else LinesFrom("", Blank(t))
  }

  lemma {:induction false} RunIsCorrect(pre: string, t: string, lineno: nat)
    requires NoBare(LinesFrom(pre, Blank(t)))
    ensures Correct(Run(pre, t, lineno), LinesFrom(pre, Blank(t)), t, lineno)
    decreases |t|, 0
  {
    var u := Blank(t);
    if t == "" {
      HashLinesFirst(pre, []);
      assert [pre] + [] == [pre];
    } else if StartsWith(t, '/', '*') {
      LinesTwoBlanks(pre, BlankComment(t[2..]));
      RunCommentIsCorrect(pre + "  ", t[2..], lineno);
      assert t[1..][1..] == t[2..];
    } else if StartsWith(t, '\\', '\n') {
      LinesTwoBlanks(pre, Blank(t[2..]));
      RunIsCorrect(pre + "  ", t[2..], lineno + 1);
      assert t[1..][1..] == t[2..];
    } else {
      LinesStep(pre, u);
      assert u[1..] == Blank(t[1..]);
      if t[0] == '\n' {
        var more := LinesFrom("", Blank(t[1..]));
        NoBareFirst(pre, more);
        HashLinesFirst(pre, more);
        if IsHash(pre) {
          EmptyLine();
        } else {
          RunIsCorrect("", t[1..], lineno + 1);
        }
      } else {
        RunIsCorrect(pre + [t[0]], t[1..], lineno);
      }
    }
  }

  lemma EmptyLine()
    ensures HashLines(LinesFrom("", Blank(""))) == HashLines(LinesAfter(""))
    ensures NoBare(LinesAfter(""))
  {
    HashLinesFirst("", []);
    assert [""] + [] == [""];
  }

  lemma {:induction false} RunCommentIsCorrect(pre: string, t: string, lineno: nat)
    requires NoBare(LinesFrom(pre, BlankComment(t)))
    ensures Correct(RunComment(pre, t, lineno), LinesFrom(pre, BlankComment(t)), t, lineno)
    decreases |t|, 1
  {
    if t == "" {
      RunIsCorrect(pre, "", lineno);
    } else if StartsWith(t, '*', '/') {
      LinesTwoBlanks(pre, Blank(t[2..]));
      RunIsCorrect(pre + "  ", t[2..], lineno);
      assert t[1..][1..] == t[2..];
    } else {
      LinesStep(pre, BlankComment(t));
      RunCommentIsCorrect(pre + " ", t[1..], lineno + if t[0] == '\n' then 1 else 0);
    }
  }

  /** For a file without bare lines, successive calls return exactly the # lines of the blanked text,
      in order. */
  lemma {:induction false} ReturnsTheHashLines(t: string)
    requires NoBare(LinesAfter(t))
    ensures AllLines(t) == HashLines(LinesAfter(t))
    decreases |t|
  {
    var r := Run("", t, 0);
    if t != "" {
      RunIsCorrect("", t, 0);
      if r.0.Some? { ReturnsTheHashLines(r.1); }
    }
  }

  /** In general: a bare line swallows the character behind it, as if that were not in the file. */
  lemma BareLineSwallows(pre: string, c: char, s: string, lineno: nat)
    requires Bare(pre)
    ensures Run(pre, ['\n', c] + s, lineno) == Run("", s, lineno + 1)
  {
    var t := ['\n', c] + s;
    assert t[2..] == s;
  }

  lemma BareLineRun()
    ensures AllLines("#\n#if\n") == []
  {
    var t := "#\n#if\n";
    assert t[1..] == "\n#if\n" && "" + ['#'] == "#";
    assert Bare("#");
    assert "\n#if\n" == ['\n', '#'] + "if\n";
    BareLineSwallows("#", '#', "if\n", 0);
    assert "if\n"[1..] == "f\n" && "f\n"[1..] == "\n" && "\n"[1..] == "";
    assert "" + ['i'] == "i" && "i" + ['f'] == "if";
    assert Run("if", "\n", 1) == Run("", "", 2);
    assert Run("", "if\n", 1) == Run("i", "f\n", 1) == Run("if", "\n", 1);
  }

  lemma BareLineText()
    ensures LinesAfter("#\n#if\n") == ["#", "#if", ""]
  {
    var t := "#\n#if\n";
    assert t[1..] == "\n#if\n" && "\n#if\n"[1..] == "#if\n" && "#if\n"[1..] == "if\n" && "if\n"[1..] == "f\n" &&
        "f\n"[1..] == "\n";
    assert Blank(t) == t by {
      assert Blank("\n") == "\n" && Blank("f\n") == "f\n" && Blank("if\n") == "if\n" && Blank("#if\n") == "#if\n" &&
          Blank("\n#if\n") == "\n#if\n";
    }
    hide Blank;
    assert LinesFrom("#if", "\n") == ["#if"] + LinesFrom("", "") == ["#if", ""];
    assert "#i" + ['f'] == "#if" && "#" + ['i'] == "#i" && "" + ['#'] == "#";
    assert LinesFrom("#i", "f\n") == ["#if", ""] && LinesFrom("#", "if\n") == ["#if", ""];
    assert LinesFrom("", "#if\n") == ["#if", ""];
    assert LinesFrom("#", "\n#if\n") == ["#"] + ["#if", ""];
    assert ["#"] + ["#if", ""] == ["#", "#if", ""];
    assert LinesFrom("", t) == LinesFrom("#", t[1..]);
  }

  /** So with a bare line the lines may be others: here the only directive is lost. */
  lemma BareLineLosesALine()
    ensures AllLines("#\n#if\n") == [] && HashLines(LinesAfter("#\n#if\n")) == ["#", "#if"]
  {
    BareLineRun();
    BareLineText();
    HashLinesFirst("", []);
    HashLinesFirst("#if", [""]);
    HashLinesFirst("#", ["#if", ""]);
    assert [""] + [] == [""] && ["#if"] + [""] == ["#if", ""] && ["#"] + ["#if", ""] == ["#", "#if", ""];
  }

  /** One step of the scan. */
  lemma RunStep(pre: string, t: string, lineno: nat)
    ensures Run(pre, t, lineno) ==
            if t == "" then (if IsHash(pre) then Some(pre) else None, "", lineno)
            else if StartsWith(t, '/', '*') then RunComment(pre + "  ", t[2..], lineno)
            else if StartsWith(t, '\\', '\n') then Run(pre + "  ", t[2..], lineno + 1)
            else if t[0] == '\n' then
              if !IsHash(pre) then Run("", t[1..], lineno + 1)
              else if !Bare(pre) then (Some(pre), t[1..], lineno + 1)
              else if |t| == 1 then (None, "", lineno + 1)
              else Run("", t[2..], lineno + 1)
            else Run(pre + [t[0]], t[1..], lineno)
  {
  }

  lemma CommentStep(pre: string, t: string, lineno: nat)
    ensures RunComment(pre, t, lineno) ==
            if t == "" then Run(pre, "", lineno)
            else if StartsWith(t, '*', '/') then Run(pre + "  ", t[2..], lineno)
            else RunComment(pre + " ", t[1..], lineno + if t[0] == '\n' then 1 else 0)
  {
  }

  /** The second blank of a continuation is read as a blank. */
  lemma SpliceStep(pre: string, s: string, lineno: nat)
    ensures Run(pre + " ", " " + s, lineno) == Run(pre + "  ", s, lineno)
  {
    assert (" " + s)[1..] == s && pre + " " + [' '] == pre + "  ";
  }

  // ---- The code -------------------------------------------------------------------------------

  lemma BlankedOne(b: string, bol: nat, q: nat, eof: nat)
    requires bol <= q < eof < |b|
    ensures var c := b[q := ' ']; c[bol..q + 1] == b[bol..q] + " " && c[q + 1..eof] == b[q..eof][1..]
  {
  }

  lemma BlankedTwo(b: string, bol: nat, q: nat, eof: nat)
    requires bol <= q && q + 1 < eof < |b|
    ensures var c := b[q := ' '][q + 1 := ' ']; c[bol..q + 2] == b[bol..q] + "  " && c[q + 2..eof] == b[q..eof][2..]
  {
  }

  /** struct filepointer; f_end is the last index, where the NUL is. */
  class FilePointer {
    const buf: array<char>
    var p: nat
    var line: nat

    constructor (text: string)
      requires forall i :: 0 <= i < |text| ==> text[i] != '\0'
      ensures Valid() && fresh(buf) && Rest() == text && line == 0
    {
      buf := new char[|text| + 1](i => if 0 <= i < |text| then text[i] else '\0');
      p, line := 0, 0;
      new;
      assert buf[..buf.Length - 1] == text;
    }

    ghost predicate Valid()
      reads this, buf
    {
      Unread(p)
    }

    /** The NUL at the end is the only one from `from` on. */
    ghost predicate Unread(from: nat)
      reads buf
    {
      && buf.Length > 0
      && buf[buf.Length - 1] == '\0'
      && forall i :: from <= i < buf.Length - 1 ==> buf[i] != '\0'
    }

    /** The text not yet read, which no call has touched. */
    ghost function Rest(): string
      reads this, buf
    {
      if p < buf.Length then buf[p..buf.Length - 1] else ""
    }

    /** The rest of a comment: blank it to its end or to the NUL, and leave `q` on its last character. */
    method BlankOut(ghost bol: nat, start: nat, lineno: nat) returns (q: nat, lineno': nat)
      requires bol <= start < buf.Length && Unread(start)
      modifies buf
      ensures start <= q + 1 && q < buf.Length && Unread(start)
      ensures forall i :: 0 <= i < start ==> buf[i] == old(buf[i])
      ensures forall i :: start <= i <= q && i < buf.Length - 1 ==> buf[i] == ' '
      ensures var eof := buf.Length - 1;
              RunComment(old(buf[bol..start]), old(buf[start..eof]), lineno)
              == if q == eof then Run(buf[bol..eof], "", lineno') else Run(buf[bol..q + 1], buf[q + 1..eof], lineno')
    {
      hide Run, RunComment;
      ghost var eof := buf.Length - 1;
      ghost var whole := RunComment(buf[bol..start], buf[start..eof], lineno);
      q, lineno' := start, lineno;
      while buf[q] != '\0'
        invariant start <= q <= eof
        invariant forall i :: 0 <= i < start ==> buf[i] == old(buf[i])
        invariant forall i :: start <= i < q ==> buf[i] == ' '
        invariant RunComment(buf[bol..q], buf[q..eof], lineno') == whole
        invariant Unread(start)
        decreases eof - q
      {
        ghost var pre, t := buf[bol..q], buf[q..eof];
        CommentStep(pre, t, lineno');
        if buf[q] == '*' && buf[q + 1] == '/' {
          BlankedTwo(buf[..], bol, q, eof);
          buf[q], buf[q + 1] := ' ', ' ';
          q := q + 1;
          return;
        }
        if buf[q] == '\n' {
          lineno' := lineno' + 1;
        }
        BlankedOne(buf[..], bol, q, eof);
        buf[q] := ' ';
        q := q + 1;
      }
      assert buf[q..eof] == "";
      CommentStep(buf[bol..q], "", lineno');
    }

    /** Is the line from `bol` to the NUL at `end` a # followed by blanks only? */
    method JustHash(bol: nat, end: nat) returns (bare: bool)
      requires bol < end < buf.Length && buf[bol] == '#' && buf[end] == '\0'
      requires forall i :: bol <= i < end ==> buf[i] != '\0'
      ensures bare <==> Bare(buf[bol..end])
    {
      var cp := bol + 1;
      while buf[cp] != '\0' && (buf[cp] == ' ' || buf[cp] == '\t')
        invariant bol < cp <= end
        invariant forall i :: bol < i < cp ==> buf[i] == ' ' || buf[i] == '\t'
        decreases end - cp
      {
        cp := cp + 1;
      }
      bare := buf[cp] == '\0';
      assert cp < end ==> buf[bol..end][cp - bol] == buf[cp];
      assert forall i :: 0 < i < end - bol ==> buf[bol..end][i] == buf[bol + i];
    }

    /** Where a scan of one call stands: `bol` starts the current line, `q` is the next character;
        `whole` is what the call will return. */
    ghost predicate At(bol: nat, q: nat, lineno: nat, whole: Result)
      reads buf
    {
      var eof := buf.Length - 1;
      && Unread(bol) && bol <= q <= eof + 1
      && (if bol > eof then whole == (None, "", lineno)
          else if q > eof then Run(buf[bol..eof], "", lineno) == whole
          else Run(buf[bol..q], buf[q..eof], lineno) == whole)
    }

    /** At the start of a comment. */
    method Comment(ghost bol: nat, start: nat, lineno: nat, ghost whole: Result) returns (q: nat, lineno': nat)
      requires start < buf.Length - 1 && buf[start] == '/' && buf[start + 1] == '*' && At(bol, start, lineno, whole)
      modifies buf
      ensures q > start && At(bol, q, lineno', whole)
    {
      hide Run, RunComment;
      ghost var eof := buf.Length - 1;
      ghost var pre, t := buf[bol..start], buf[start..eof];
      RunStep(pre, t, lineno);
      buf[start], buf[start + 1] := ' ', ' ';
      assert buf[bol..start + 2] == pre + "  " && buf[start + 2..eof] == t[2..];
      q, lineno' := BlankOut(bol, start + 2, lineno);
      q := q + 1;
    }

    /** At a backslash before a newline. */
    method Splice(ghost bol: nat, start: nat, lineno: nat, ghost whole: Result) returns (q: nat, lineno': nat)
      requires start < buf.Length - 1 && buf[start] == '\\' && buf[start + 1] == '\n' && At(bol, start, lineno, whole)
      modifies buf
      ensures q > start && At(bol, q, lineno', whole)
    {
      hide Run, RunComment;
      ghost var eof := buf.Length - 1;
      ghost var pre, t := buf[bol..start], buf[start..eof];
      RunStep(pre, t, lineno);
      buf[start], buf[start + 1] := ' ', ' ';
      q, lineno' := start + 1, lineno + 1;
      assert buf[bol..q] == pre + " " && buf[q..eof] == " " + t[2..];
      SpliceStep(pre, t[2..], lineno');
    }

    /** At the end of a line: is it one to return?  Behind a bare one, the character that starts the
        next line is stepped over. */
    method EndLine(bol: nat, end: nat, lineno: nat, ghost whole: Result) returns (q: nat, found: bool)
      requires end < buf.Length - 1 && buf[end] == '\n' && At(bol, end, lineno, whole)
      modifies buf
      ensures found ==>
                && q == end + 1 && Unread(q) && bol <= end
                && whole == (Some(buf[bol..end]), buf[q..buf.Length - 1], lineno + 1)
      ensures !found ==> q > end && At(q, q, lineno + 1, whole)
    {
      hide Run, RunComment;
      ghost var eof := buf.Length - 1;
      ghost var pre, t := buf[bol..end], buf[end..eof];
      RunStep(pre, t, lineno);
      q, found := end, false;
      if buf[bol] == '#' {
        buf[end] := '\0';
        q := q + 1;
        assert buf[bol..end] == pre && buf[q..eof] == t[1..];
        var bare := JustHash(bol, end);
        if !bare {
          return q, true;
        }
        assert q < eof ==> buf[q + 1..eof] == t[2..];
      }
      q := q + 1;
      assert q <= eof ==> buf[q..q] == "" && (buf[q..eof] == t[1..] || buf[q..eof] == t[2..]);
    }

    /** The next # line.  Behind a bare line at the very end C looks at one byte beyond the buffer;
        that byte is taken not to be a #. */
    method Getline() returns (r: Option<string>)
      requires Valid()
      modifies this, buf
      ensures Valid() && p >= old(p)
      ensures (r, Rest(), line) == Run("", old(Rest()), old(line))
    {
      hide Run, RunComment;
      var q, eof := p, buf.Length - 1;
      RunStep("", "", line);
      if q >= eof {
        return None;
      }
      var lineno, bol := line, p;
      ghost var whole := Run("", Rest(), line);
      assert buf[bol..q] == "";
      while q < eof
        invariant p == old(p) && line == old(line) && p <= bol && At(bol, q, lineno, whole)
        decreases eof + 1 - q
      {
        if buf[q] == '/' && buf[q + 1] == '*' {
          q, lineno := Comment(bol, q, lineno, whole);
        } else if buf[q] == '\\' && buf[q + 1] == '\n' {
          q, lineno := Splice(bol, q, lineno, whole);
        } else {
          if buf[q] == '\n' {
            var end := q;
            var found: bool;
            q, found := EndLine(bol, end, lineno, whole);
            lineno := lineno + 1;
            if found {
              r := Some(buf[bol..end]);
              p, line := q, lineno;
              return;
            }
            bol := q;
          } else {
            ghost var pre, t := buf[bol..q], buf[q..eof];
            RunStep(pre, t, lineno);
            q := q + 1;
            assert buf[bol..q] == pre + [t[0]] && buf[q..eof] == t[1..];
          }
        }
      }
      if bol <= eof {
        RunStep(buf[bol..eof], "", lineno);
        assert q == eof ==> buf[q..eof] == "";
      }
      r := if bol < eof && buf[bol] == '#' then Some(buf[bol..eof]) else None;
      p, line := q, lineno;
    }
  }
}
