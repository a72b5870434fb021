/**
 * The loops of imake that do what the functions of Imake say: the walk over the
 * Imakefile's buffer, which ends each word with a NUL for as long as it looks at
 * it, and the reader and the in-place line editor that run after the preprocessor.
 */
module ImakeMethods {
  import opened Imake

  /** There is a C string from p to the NUL at z. */
  ghost predicate IsString(b: seq<char>, p: int, z: int) {
    0 <= p <= z < |b| && b[z] == '\0' && forall k :: p <= k < z ==> b[k] != '\0'
  }

  /** The C string at an index: what is there up to the first NUL. */
  function StringAt(b: seq<char>, p: nat): string
    requires p <= |b|
    decreases |b| - p
  {
    if p == |b| || b[p] == '\0' then [] else [b[p]] + StringAt(b, p + 1)
  }

  lemma {:induction false} StringUpTo(b: seq<char>, p: nat, z: nat)
    requires IsString(b, p, z)
    ensures StringAt(b, p) == b[p..z]
    decreases z - p
  {
    if p < z {
      assert b[p..z] == [b[p]] + b[p + 1..z];
      StringUpTo(b, p + 1, z);
    }
  }

  // ---- CleanCppInput ----------------------------------------------------------------------------

  method AfterBlanks(buf: array<char>, start: nat, ghost n: nat) returns (ptoken: nat)
    requires IsString(buf[..], start, n)
    ensures start <= ptoken <= n && SkipBlanks(buf[start..n]) == buf[ptoken..n]
  {
    ptoken := start;
    while buf[ptoken] == ' ' || buf[ptoken] == '\t'
      invariant start <= ptoken <= n
      invariant SkipBlanks(buf[start..n]) == SkipBlanks(buf[ptoken..n])
      decreases n - ptoken
    {
      assert buf[ptoken..n][1..] == buf[ptoken + 1..n];
      ptoken := ptoken + 1;
    }
    assert ptoken < n ==> buf[ptoken..n][0] == buf[ptoken];
  }

  method AfterWord(buf: array<char>, ptoken: nat, ghost n: nat) returns (pend: nat)
    requires IsString(buf[..], ptoken, n)
    ensures ptoken <= pend <= n && Word(buf[ptoken..n]) == buf[ptoken..pend]
  {
    pend := ptoken;
    assert buf[ptoken..pend] == [];
    while buf[pend] != '\0' && buf[pend] != ' ' && buf[pend] != '\t' && buf[pend] != '\n'
      invariant ptoken <= pend <= n
      invariant Word(buf[ptoken..n]) == buf[ptoken..pend] + Word(buf[pend..n])
      decreases n - pend
    {
      assert buf[pend..n][1..] == buf[pend + 1..n];
      assert buf[ptoken..pend + 1] == buf[ptoken..pend] + [buf[pend]];
      pend := pend + 1;
    }
    assert pend < n ==> buf[pend..n][0] == buf[pend];
  }

  /** The word after a '#' is compared with the directives' names while a NUL stands where it ends.
      */
  method IsDirectiveAt(buf: array<char>, pbuf: nat, ghost n: nat) returns (directive: bool)
    requires pbuf < n && IsString(buf[..], pbuf, n)
    modifies buf
    ensures buf[..] == old(buf[..])
    ensures directive == IsDirective(buf[pbuf + 1..n])
  {
    hide DIRECTIVES;
    ghost var content := buf[..];
    var ptoken := AfterBlanks(buf, pbuf + 1, n);
    var pend := AfterWord(buf, ptoken, n);
    ghost var word := buf[ptoken..pend];
    var savec := buf[pend];
    buf[pend] := '\0';
    StringUpTo(buf[..], ptoken, pend);
    assert buf[ptoken..pend] == word;
    directive := StringAt(buf[..], ptoken) in DIRECTIVES;
    buf[pend] := savec;
    assert buf[..] == content;
  }

  lemma CleanInputStep(pp: char, p: char, s: string, rest: string)
    requires s != [] && rest == s[1..]
    ensures CleanInput(pp, p, s) ==
            (if s[0] == '#' && p == '\n' && pp != '\\' && !IsDirective(rest) then CommentWord(rest) else [s[0]]) +
            CleanInput(p, s[0], rest)
  {
  }

  /** What has been written, what is still to be written as it is, and what is still to be looked at
      make up the whole. */
  ghost predicate Makes(whole: string, written: string, content: string, punwritten: nat, pbuf: nat, n: nat) {
    2 <= punwritten <= pbuf <= n < |content| &&
    written + content[punwritten..pbuf] + CleanInput(content[pbuf - 2], content[pbuf - 1], content[pbuf..n]) == whole
  }

  predicate StartsComment(content: string, pbuf: nat, n: nat)
    requires 2 <= pbuf < n <= |content|
  {
    content[pbuf] == '#' && content[pbuf - 1] == '\n' && content[pbuf - 2] != '\\' && !IsDirective(content[pbuf + 1..n])
  }

  lemma MakesStep(whole: string, written: string, content: string, punwritten: nat, pbuf: nat, n: nat)
    requires Makes(whole, written, content, punwritten, pbuf, n) && pbuf < n
    ensures !StartsComment(content, pbuf, n) ==> Makes(whole, written, content, punwritten, pbuf + 1, n)
    ensures StartsComment(content, pbuf, n) ==>
              Makes(whole, written + content[punwritten..pbuf] + CommentWord(content[pbuf + 1..n]),
                    content, pbuf + 1, pbuf + 1, n)
  {
    hide CleanInput, IsDirective, CommentWord;
    var done, rest := content[punwritten..pbuf], content[pbuf + 1..n];
    CleanInputStep(content[pbuf - 2], content[pbuf - 1], content[pbuf..n], rest);
    var more := CleanInput(content[pbuf - 1], content[pbuf], rest);
    if StartsComment(content, pbuf, n) {
      assert content[pbuf + 1..pbuf + 1] == [];
      assert whole == written + done + (CommentWord(rest) + more) == (written + done + CommentWord(rest)) + [] + more;
    } else {
      assert content[punwritten..pbuf + 1] == done + [content[pbuf]];
      assert whole == written + done + ([content[pbuf]] + more) == written + (done + [content[pbuf]]) + more;
    }
  }

  lemma MakesNothing(imakefile: string, content: string)
    requires '\0' !in imakefile && content == "\n\n" + imakefile + ['\0']
    ensures Makes(CleanInput('\n', '\n', imakefile), [], content, 2, 2, |imakefile| + 2)
    ensures IsString(content, 2, |imakefile| + 2)
  {
    hide CleanInput;
    var n := |imakefile| + 2;
    assert content[2..2] == [] && content[2..n] == imakefile;
    assert [] + content[2..2] + CleanInput('\n', '\n', imakefile) == CleanInput('\n', '\n', imakefile);
    assert forall k :: 2 <= k < n ==> content[k] == imakefile[k - 2];
  }

  lemma MakesAll(whole: string, written: string, content: string, punwritten: nat, n: nat)
    requires Makes(whole, written, content, punwritten, n, n)
    ensures written + content[punwritten..n] == whole
    ensures punwritten == 2 && written == [] ==> content[2..n] == whole
  {
    assert content[n..n] == [];
    assert [] + content[punwritten..n] + [] == content[punwritten..n];
  }

  lemma AtEnd(content: string, pbuf: nat, n: nat)
    requires IsString(content, 2, n) && 2 <= pbuf <= n
    ensures content[pbuf] == '\0' <==> pbuf == n
    ensures IsString(content, pbuf, n)
  {
  }

  /** Does a comment start at the character pbuf points at? */
  method StartsCommentHere(buf: array<char>, pbuf: nat, ghost n: nat) returns (comment: bool)
    requires 2 <= pbuf < n && IsString(buf[..], pbuf, n)
    modifies buf
    ensures buf[..] == old(buf[..])
    ensures comment == StartsComment(buf[..], pbuf, n)
  {
    comment := false;
    if buf[pbuf] == '#' && buf[pbuf - 1] == '\n' && buf[pbuf - 2] != '\\' {
      var directive := IsDirectiveAt(buf, pbuf, n);
      comment := !directive;
    }
  }

  /** What is written to the temporary file, if one had to be opened. */
  method CleanCppInput(imakefile: string) returns (rewritten: bool, written: string)
    requires '\0' !in imakefile
    ensures (if rewritten then written else imakefile) == CleanInput('\n', '\n', imakefile)
  {
    hide IsDirective, CleanInput, CommentWord, Makes, IsString, StartsComment;
    ghost var n := |imakefile| + 2;
    var content := "\n\n" + imakefile + ['\0'];
    var buf := new char[|content|](i requires 0 <= i < |content| => content[i]);
    assert buf[..] == content && content[2..n] == imakefile;
    ghost var whole := CleanInput('\n', '\n', imakefile);
    rewritten, written := false, [];
    var punwritten, pbuf := 2, 2;
    MakesNothing(imakefile, content);
    while buf[pbuf] != '\0'
      invariant 2 <= punwritten <= pbuf <= n && buf[..] == content
      invariant !rewritten ==> punwritten == 2 && written == []
      invariant Makes(whole, written, content, punwritten, pbuf, n)
      decreases n - pbuf
    {
      AtEnd(content, pbuf, n);
      MakesStep(whole, written, content, punwritten, pbuf, n);
      var comment := StartsCommentHere(buf, pbuf, n);
      if comment {
        rewritten := true;
        ChooseWord(content, pbuf, n);
        assert buf[punwritten..pbuf] == content[punwritten..pbuf];
        written := written + buf[punwritten..pbuf] + if Blank(buf[pbuf + 1]) then "XCOMM" else "XCOMM ";
        punwritten := pbuf + 1;
      }
      pbuf := pbuf + 1;
    }
    AtEnd(content, pbuf, n);
    MakesAll(whole, written, content, punwritten, n);
    if rewritten {
      written := written + buf[punwritten..pbuf];
    }
  }

  lemma ChooseWord(content: string, pbuf: nat, n: nat)
    requires pbuf < n && IsString(content, pbuf, n)
    ensures CommentWord(content[pbuf + 1..n]) == if Blank(content[pbuf + 1]) then "XCOMM" else "XCOMM "
  {
    if pbuf + 1 < n { assert content[pbuf + 1..n][0] == content[pbuf + 1]; }
  }

  // ---- What the loops below do in one step ------------------------------------------------------

  lemma {:induction false} TrimLast(s: string, c: char)
    ensures Trim(s + [c]) == if Blank(c) then Trim(s) else s + [c]
  {
    if s == [] {
      assert ([c])[1..] == [] && s + [c] == [c];
    } else {
      TrimLast(s[1..], c);
      assert (s + [c])[1..] == s[1..] + [c];
      assert s == [s[0]] + s[1..];
    }
  }

  lemma LineStep(s: string)
    requires s != []
    ensures SoftEnd(s) ==> LineEnd(s) == 0 && NextLine(s) == 2
    ensures s[0] == '\n' ==> LineEnd(s) == 0 && NextLine(s) == 1
    ensures !SoftEnd(s) && s[0] != '\n' ==> LineEnd(s) == 1 + LineEnd(s[1..]) && NextLine(s) == 1 + NextLine(s[1..])
  {
  }

  /** What the reader sees at an index, in terms of the text from there. */
  lemma LineAt(b: seq<char>, p1: nat, end: nat)
    requires IsString(b, p1, end)
    ensures p1 == end ==> LineEnd(b[p1..end]) == 0 && NextLine(b[p1..end]) == 0
    ensures p1 < end && b[p1] == '@' && b[p1 + 1] == '@' ==> LineEnd(b[p1..end]) == 0 && NextLine(b[p1..end]) == 2
    ensures p1 < end && b[p1] == '\n' ==> LineEnd(b[p1..end]) == 0 && NextLine(b[p1..end]) == 1
    ensures p1 < end && !(b[p1] == '@' && b[p1 + 1] == '@') && b[p1] != '\n' ==>
              LineEnd(b[p1..end]) == 1 + LineEnd(b[p1 + 1..end]) && NextLine(b[p1..end]) == 1 + NextLine(b[p1 + 1..end])
  {
    var s := b[p1..end];
    if p1 < end {
      assert SoftEnd(s) <==> b[p1] == '@' && b[p1 + 1] == '@';
      hide LineEnd, NextLine, SoftEnd;
      LineStep(s);
      assert s[1..] == b[p1 + 1..end];
    }
  }

  lemma UncommentStep(first: bool, s: string)
    requires s != []
    ensures first && CommentHere(s) ==> Uncomment(first, s) == "#" + Uncomment(false, s[5..])
    ensures !(first && CommentHere(s)) ==> Uncomment(first, s) == [s[0]] + Uncomment(Blank(s[0]), s[1..])
  {
  }

  predicate FirstAt(b: seq<char>, line: nat, pend: nat)
    requires pend <= |b|
  {
    pend == line || (0 < pend && Blank(b[pend - 1]))
  }

  predicate CommentAt(b: seq<char>, pend: nat) {
    && pend + 5 < |b|
    && b[pend] == 'X' && b[pend + 1] == 'C' && b[pend + 2] == 'O' && b[pend + 3] == 'M' && b[pend + 4] == 'M'
    && (Blank(b[pend + 5]) || b[pend + 5] == '\0')
  }

  lemma CommentAtIsHere(b: seq<char>, pend: nat, z: nat)
    requires pend < z && IsString(b, pend, z)
    ensures CommentHere(b[pend..z]) <==> CommentAt(b, pend)
    ensures CommentAt(b, pend) ==> pend + 5 <= z
  {
    var s := b[pend..z];
    assert forall k: nat :: k < |s| ==> s[k] == b[pend + k];
    if CommentAt(b, pend) { WordInside(b, pend, z); }
    if pend + 5 <= z { SpellsXcomm(s); }
  }

  /** A word is there before the string ends. */
  lemma WordInside(b: seq<char>, pend: nat, z: nat)
    requires pend < z && IsString(b, pend, z) && CommentAt(b, pend)
    ensures pend + 5 <= z
  {
  }

  lemma SpellsXcomm(s: string)
    requires |s| >= 5
    ensures s[..5] == "XCOMM" <==> s[0] == 'X' && s[1] == 'C' && s[2] == 'O' && s[3] == 'M' && s[4] == 'M'
  {
    if s[0] == 'X' && s[1] == 'C' && s[2] == 'O' && s[3] == 'M' && s[4] == 'M' { assert s[..5] == "XCOMM"; }
    if s[..5] == "XCOMM" { assert forall k: nat :: k < 5 ==> s[k] == s[..5][k] == "XCOMM"[k]; }
  }

  lemma CopiedDown(before: seq<char>, after: seq<char>, to: nat, from: nat, z: nat)
    requires to <= from <= z < |before| == |after|
    requires forall i :: 0 <= i < to || z <= i < |after| ==> after[i] == before[i]
    requires forall i :: to <= i <= to + (z - from) ==> after[i] == before[i + (from - to)]
    ensures after[..to] == before[..to] && after[z..] == before[z..]
    ensures after[to..to + (z - from) + 1] == before[from..z + 1]
  {
  }

  /** The line is s; up to pend it is done, and what follows is still as it was. */
  ghost predicate Undone(s: string, b: seq<char>, line: nat, pend: nat, z: nat) {
    line <= pend && IsString(b, line, z) && pend <= z &&
    Uncomment(true, s) == b[line..pend] + Uncomment(FirstAt(b, line, pend), b[pend..z])
  }

  lemma StepOver(s: string, b: seq<char>, line: nat, pend: nat, z: nat)
    requires Undone(s, b, line, pend, z) && pend < z && !(FirstAt(b, line, pend) && CommentAt(b, pend))
    ensures Undone(s, b, line, pend + 1, z)
  {
    hide Uncomment, CommentHere, CommentAt;
    var done, rest := b[line..pend], b[pend..z];
    CommentAtIsHere(b, pend, z);
    UncommentStep(FirstAt(b, line, pend), rest);
    assert rest[1..] == b[pend + 1..z];
    assert b[line..pend + 1] == done + [b[pend]];
    assert done + ([b[pend]] + Uncomment(Blank(b[pend]), b[pend + 1..z])) ==
        (done + [b[pend]]) + Uncomment(Blank(b[pend]), b[pend + 1..z]);
  }

  lemma StepReplaced(s: string, b: seq<char>, c: seq<char>, line: nat, pend: nat, z: nat)
    requires Undone(s, b, line, pend, z) && pend < z && FirstAt(b, line, pend) && CommentAt(b, pend) && pend + 5 <= z
    requires |c| == |b| && c[..pend] == b[..pend] && c[pend] == '#' && c[pend + 1..z - 3] == b[pend + 5..z + 1]
    ensures Undone(s, c, line, pend + 1, z - 4)
  {
    hide Uncomment, CommentHere, CommentAt;
    var done, rest := b[line..pend], b[pend..z];
    CommentAtIsHere(b, pend, z);
    UncommentStep(true, rest);
    Shifted(b, c, line, pend, z);
    hide IsString;
    var more := Uncomment(false, c[pend + 1..z - 4]);
    assert FirstAt(c, line, pend + 1) == false;
    assert done + ("#" + more) == (done + "#") + more;
  }

  lemma NothingDone(b: seq<char>, line: nat, z: nat)
    requires IsString(b, line, z)
    ensures Undone(b[line..z], b, line, line, z)
  {
    hide Uncomment;
    assert b[line..line] == [];
  }

  lemma AllDone(s: string, b: seq<char>, line: nat, z: nat)
    requires Undone(s, b, line, z, z)
    ensures IsString(b, line, z) && b[line..z] == Uncomment(true, s)
  {
    assert b[z..z] == [];
  }

  lemma UndoneText(s: string, b: seq<char>, line: nat, pend: nat, z: nat)
    requires Undone(s, b, line, pend, z)
    ensures z < |b| && b[z] == '\0' && (pend < z ==> b[pend] != '\0')
  {
  }

  lemma Shifted(b: seq<char>, c: seq<char>, line: nat, pend: nat, z: nat)
    requires IsString(b, line, z) && line <= pend && pend + 5 <= z
    requires |c| == |b| && c[..pend] == b[..pend] && c[pend] == '#' && c[pend + 1..z - 3] == b[pend + 5..z + 1]
    ensures IsString(c, line, z - 4)
    ensures c[line..pend + 1] == b[line..pend] + "#" && c[pend + 1..z - 4] == b[pend..z][5..]
  {
    forall k | pend < k <= z - 4 ensures c[k] == b[k + 4] {
      assert c[k] == c[pend + 1..z - 3][k - pend - 1];
    }
    forall k | 0 <= k < pend ensures c[k] == b[k] {
      assert c[k] == c[..pend][k];
    }
  }

  lemma Cut(b: seq<char>, line: nat, pend: nat, z: nat)
    requires IsString(b, line, pend) && line <= z <= pend
    ensures var cut := b[z := '\0'];
            IsString(cut, line, z) && cut[line..z] == b[line..z] && cut[pend..] == b[pend..]
  {
  }

  lemma LineRead(before: seq<char>, after: seq<char>, line: nat, z: nat, p1: nat, end: nat)
    requires IsString(before, line, end) && line <= z <= p1 <= end
    requires after == if z < end then before[z := '\0'] else before
    requires z < end ==> z < p1
    ensures IsString(after, p1, end) && IsString(after, line, z)
    ensures after[line..z] == before[line..end][..z - line] && after[p1..end] == before[line..end][p1 - line..]
  {
  }

  /** Where a marker may hold a space and a quote. */
  lemma QuoteNext(b: seq<char>, p: nat, z: nat)
    requires IsString(b, p, z) && p < z
    ensures " \"" <= b[p..z] <==> b[p] == ' ' && b[p + 1] == '"'
  {
    var s := b[p..z];
    if " \"" <= s { assert s[0] == " \""[0] && s[1] == " \""[1]; }
    if b[p] == ' ' && b[p + 1] == '"' { assert s[..2] == " \""; }
  }

  /** Where a marker may hold the word "line". */
  lemma LineWord(b: seq<char>, p: nat, z: nat)
    requires IsString(b, p, z)
    ensures "line " <= b[p..z] <==>
              p + 5 <= z && b[p] == 'l' && b[p + 1] == 'i' && b[p + 2] == 'n' && b[p + 3] == 'e' && b[p + 4] == ' '
  {
    var s := b[p..z];
    if "line " <= s { assert forall k :: 0 <= k < 5 ==> s[k] == "line "[k]; }
    if p + 5 <= z && b[p] == 'l' && b[p + 1] == 'i' && b[p + 2] == 'n' && b[p + 3] == 'e' && b[p + 4] == ' ' {
      assert s[..5] == "line ";
    }
  }

  lemma NoOutput(blankline: bool)
    ensures CleanOutput(Lines([]), blankline) == []
  {
  }

  lemma OutputStep(makefile: string, written: string, unread: string, blankline: bool)
    requires unread != [] && written + CleanOutput(Lines(unread), blankline) == makefile
    ensures var line, rest := Tidy(unread[..LineEnd(unread)]), Lines(unread[NextLine(unread)..]);
            if line == [] then (if blankline then written else written + "\n") + CleanOutput(rest, true) == makefile
            else written + line + "\n" + CleanOutput(rest, false) == makefile
  {
    hide Tidy, LineEnd, NextLine;
    var line, rest := Tidy(unread[..LineEnd(unread)]), Lines(unread[NextLine(unread)..]);
    if line == [] {
      assert written + ("\n" + CleanOutput(rest, true)) == (written + "\n") + CleanOutput(rest, true);
      assert [] + CleanOutput(rest, true) == CleanOutput(rest, true);
    } else {
      assert written + (line + "\n" + CleanOutput(rest, false)) == written + line + "\n" + CleanOutput(rest, false);
    }
  }

  // ---- ReadLine, isempty and CleanCppOutput -----------------------------------------------------

  class Reader {
    const buf: array<char>
    const end: nat
    var pline: nat

    ghost predicate Valid()
      reads this, buf
    {
      IsString(buf[..], pline, end)
    }

    ghost function Unread(): string
      requires pline <= end <= buf.Length
      reads this, buf
    {
      buf[pline..end]
    }

    /** The first line of unread has just been read, and stands at an index. */
    ghost predicate AtLine(unread: string, line: nat)
      reads this, buf
    {
      var z := line + LineEnd(unread);
      Valid() && unread != [] && z <= pline && IsString(buf[..], line, z) &&
      buf[line..z] == unread[..LineEnd(unread)] && Unread() == unread[NextLine(unread)..]
    }

    constructor (text: string)
      requires '\0' !in text
      ensures Valid() && Unread() == text && fresh(buf)
    {
      var content := text + ['\0'];
      var b := new char[|content|](i requires 0 <= i < |content| => content[i]);
      assert b[..] == content && content[0..|text|] == text;
      buf, end, pline := b, |text|, 0;
    }

    /** Where the line that starts at pline ends. */
    method EndOfLine() returns (p1: nat)
      requires Valid()
      ensures pline <= p1 <= end && p1 == pline + LineEnd(Unread())
      ensures p1 == end ==> NextLine(Unread()) == p1 - pline
      ensures p1 < end ==> NextLine(Unread()) == p1 - pline + if buf[p1] == '\n' then 1 else 2
    {
      hide LineEnd, NextLine, SoftEnd;
      ghost var s := Unread();
      p1 := pline;
      while p1 < end && !(buf[p1] == '@' && buf[p1 + 1] == '@') && buf[p1] != '\n'
        invariant pline <= p1 <= end
        invariant LineEnd(s) == p1 - pline + LineEnd(buf[p1..end])
        invariant NextLine(s) == p1 - pline + NextLine(buf[p1..end])
        decreases end - p1
      {
        LineAt(buf[..], p1, end);
        assert buf[..][p1..end] == buf[p1..end] && buf[..][p1 + 1..end] == buf[p1 + 1..end];
        p1 := p1 + 1;
      }
      LineAt(buf[..], p1, end);
      assert buf[..][p1..end] == buf[p1..end];
    }

    /** The next line, as the index of a C string; none at the end of the file. */
    method ReadLine() returns (found: bool, line: nat)
      requires Valid()
      modifies `pline, buf
      ensures Valid()
      ensures found <==> old(Unread()) != []
      ensures found ==> AtLine(old(Unread()), line)
    {
      hide LineEnd, NextLine;
      ghost var s, before := Unread(), buf[..];
      var p1 := EndOfLine();
      ghost var z := p1;
      if p1 < end {
        var skip := if buf[p1] == '\n' then 1 else 2;
        buf[p1] := '\0';
        p1 := p1 + skip;
      }
      found, line := pline != p1, pline;
      pline := p1;
      LineRead(before, buf[..], line, z, p1, end);
      assert buf[line..z] == buf[..][line..z] && buf[p1..end] == buf[..][p1..end];
    }

    /** Is this a line marker? The line is the C string from line to z. */
    method IsMarker(line: nat, ghost z: nat) returns (marker: bool)
      requires IsString(buf[..], line, z) && buf[line] == '#'
      ensures marker == Marker(buf[line..z])
    {
      ghost var s := buf[line..z];
      var pend := line + 1;
      if buf[pend] == ' ' { pend := pend + 1; }
      ghost var unspaced := buf[pend..z];
      assert unspaced == if |s| > 1 && s[1] == ' ' then s[2..] else s[1..];
      LineWord(buf[..], pend, z);
      if buf[pend] == 'l' && buf[pend + 1] == 'i' && buf[pend + 2] == 'n' && buf[pend + 3] == 'e' &&
          buf[pend + 4] == ' ' {
        pend := pend + 5;
      }
      ghost var number := buf[pend..z];
      assert number == if "line " <= unspaced then unspaced[5..] else unspaced;
      marker := IsNumber(pend, z);
    }

    /** The rest of a marker: a number, and nothing more or a space and a quote. */
    method IsNumber(start: nat, ghost z: nat) returns (marker: bool)
      requires IsString(buf[..], start, z)
      ensures marker == var number := buf[start..z];
              number != [] && Digit(number[0]) &&
              var rest := SkipDigits(number);
              rest == [] || rest[0] == '\n' || " \"" <= rest
    {
      var pend := start;
      if !Digit(buf[pend]) {
        return false;
      }
      ghost var number := buf[start..z];
      while Digit(buf[pend])
        invariant start <= pend <= z
        invariant SkipDigits(number) == SkipDigits(buf[pend..z])
        decreases z - pend
      {
        assert buf[pend..z][1..] == buf[pend + 1..z];
        pend := pend + 1;
      }
      ghost var rest := buf[pend..z];
      assert SkipDigits(number) == rest;
      if buf[pend] == '\n' || buf[pend] == '\0' {
        return true;
      }
      marker := buf[pend] == ' ' && buf[pend + 1] == '"';
      QuoteNext(buf[..], pend, z);
      assert rest == buf[..][pend..z];
    }

    /** strcpy, to a place before the string itself; its NUL goes with it. */
    method StrcpyDown(to: nat, from: nat, ghost z: nat)
      requires to <= from && IsString(buf[..], from, z)
      modifies buf
      ensures buf[..to] == old(buf[..to])
      ensures buf[to..to + (z - from) + 1] == old(buf[from..z + 1])
      ensures buf[z..] == old(buf[z..])
    {
      var k := 0;
      ghost var before := buf[..];
      while buf[from + k] != '\0'
        invariant 0 <= k <= z - from
        invariant forall i :: (0 <= i < to || from + k <= i < buf.Length) ==> buf[i] == before[i]
        invariant forall i :: to <= i < to + k ==> buf[i] == before[i + (from - to)]
        decreases z - from - k
      {
        buf[to + k] := buf[from + k];
        k := k + 1;
      }
      buf[to + k] := '\0';
      CopiedDown(before, buf[..], to, from, z);
    }

    /** The step at one character of the line: the rest of it moves down when a word for '#' starts
        there. */
    method UncommentHere(line: nat, pend: nat, ghost z: nat, ghost s: string) returns (ghost z': nat)
      requires Undone(s, buf[..], line, pend, z) && pend < z
      modifies buf
      ensures pend < z' <= z && Undone(s, buf[..], line, pend + 1, z')
      ensures buf[z..] == old(buf[z..])
    {
      hide CommentAt, FirstAt, Uncomment;
      ghost var before := buf[..];
      z' := z;
      CommentAtIsHere(before, pend, z);
      if FirstAt(buf[..], line, pend) && CommentAt(buf[..], pend) {
        buf[pend] := '#';
        StrcpyDown(pend + 1, pend + 5, z);
        StepReplaced(s, before, buf[..], line, pend, z);
        z' := z - 4;
      } else {
        StepOver(s, before, line, pend, z);
      }
    }

    /** Turns the words for '#' back, moving the rest of the line down each time. */
    method UncommentLine(line: nat, ghost z0: nat) returns (pend: nat)
      requires IsString(buf[..], line, z0)
      modifies buf
      ensures pend <= z0 && IsString(buf[..], line, pend)
      ensures buf[line..pend] == Uncomment(true, old(buf[line..z0]))
      ensures buf[z0..] == old(buf[z0..])
    {
      hide Undone;
      ghost var z := z0;
      ghost var s, after := buf[line..z0], buf[z0..];
      pend := line;
      NothingDone(buf[..], line, z0);
      while buf[pend] != '\0'
        invariant line <= pend <= z <= z0 < buf.Length && buf[z] == '\0' && (pend < z ==> buf[pend] != '\0')
        invariant Undone(s, buf[..], line, pend, z)
        invariant buf[z0..] == after
        decreases z - pend
      {
        z := UncommentHere(line, pend, z, s);
        assert buf[z0..] == after;
        pend := pend + 1;
        UndoneText(s, buf[..], line, pend, z);
      }
      AllDone(s, buf[..], line, pend);
    }

    /** Cuts the blanks at the end of a line off. */
    method TrimLine(line: nat, pend: nat)
      requires IsString(buf[..], line, pend)
      modifies buf
      ensures line + |Trim(old(buf[line..pend]))| <= pend
      ensures IsString(buf[..], line, line + |Trim(old(buf[line..pend]))|)
      ensures buf[line..line + |Trim(old(buf[line..pend]))|] == Trim(old(buf[line..pend]))
      ensures buf[pend..] == old(buf[pend..])
    {
      ghost var before, whole := buf[..], buf[line..pend];
      assert whole == before[line..pend];
      var last: int := pend - 1;
      while last >= line && (buf[last] == ' ' || buf[last] == '\t')
        invariant line - 1 <= last < pend && buf[..] == before
        invariant Trim(whole) == Trim(buf[line..last + 1])
      {
        assert buf[line..last + 1] == buf[line..last] + [buf[last]];
        TrimLast(buf[line..last], buf[last]);
        last := last - 1;
      }
      ghost var kept := buf[line..last + 1];
      if last >= line {
        assert kept == buf[line..last] + [buf[last]];
        TrimLast(buf[line..last], buf[last]);
      }
      assert Trim(whole) == kept;
      buf[last + 1] := '\0';
      Cut(before, line, pend, last + 1);
      assert buf[..] == before[last + 1 := '\0'];
      assert buf[line..last + 1] == buf[..][line..last + 1] && buf[pend..] == buf[..][pend..];
    }

    /** Undoes the comments' words in a line that is no directive; pend is its end then. */
    method EndOfEdited(line: nat, ghost z: nat) returns (marker: bool, pend: nat)
      requires IsString(buf[..], line, z)
      modifies buf
      ensures marker ==> Tidy(old(buf[line..z])) == [] && buf[..] == old(buf[..])
      ensures !marker ==> pend <= z && IsString(buf[..], line, pend) && Tidy(old(buf[line..z])) == Trim(buf[line..pend])
      ensures buf[z..] == old(buf[z..])
    {
      hide Marker, Uncomment, Trim;
      marker, pend := false, line;
      if buf[line] == '#' {
        marker := IsMarker(line, z);
        while !marker && buf[pend] != '\0'
          invariant line <= pend <= z
          decreases z - pend
        {
          pend := pend + 1;
        }
      } else {
        pend := UncommentLine(line, z);
      }
    }

    /** Edits a line where it stands and says whether it is to be taken as empty. */
    method IsEmpty(line: nat, ghost z: nat) returns (empty: bool)
      requires IsString(buf[..], line, z)
      modifies buf
      ensures empty <==> Tidy(old(buf[line..z])) == []
      ensures !empty ==> StringAt(buf[..], line) == Tidy(old(buf[line..z]))
      ensures buf[z..] == old(buf[z..])
    {
      hide Tidy, Trim, StringAt;
      ghost var after := buf[z..];
      var marker, pend := EndOfEdited(line, z);
      if marker {
        return true;
      }
      ghost var tidy := Trim(buf[line..pend]);
      ghost var tail := buf[pend..];
      assert tail[z - pend..] == after;
      TrimLine(line, pend);
      assert buf[z..] == buf[pend..][z - pend..];
      empty := buf[line] == '\0';
      StringUpTo(buf[..], line, line + |tidy|);
      assert buf[..][line..line + |tidy|] == tidy;
    }

    /** The edit does not reach into what is still to be read. */
    method IsEmptyLine(ghost unread: string, line: nat) returns (empty: bool)
      requires AtLine(unread, line)
      modifies buf
      ensures empty <==> Tidy(unread[..LineEnd(unread)]) == []
      ensures line <= buf.Length && (!empty ==> StringAt(buf[..], line) == Tidy(unread[..LineEnd(unread)]))
      ensures Valid() && Unread() == unread[NextLine(unread)..]
    {
      hide Tidy, LineEnd, NextLine, StringAt;
      ghost var z := line + LineEnd(unread);
      ghost var after := buf[z..];
      empty := IsEmpty(line, z);
      assert forall k :: z <= k < buf.Length ==> buf[k] == buf[z..][k - z] == after[k - z];
    }
  }

  method CleanCppOutput(input: string) returns (written: string)
    requires '\0' !in input
    ensures written == HEADER + CleanOutput(Lines(input), false)
  {
    hide Tidy, LineEnd, NextLine, Lines, CleanOutput, HEADER, StringAt, IsString;
    var reader := new Reader(input);
    written := HEADER;
    var blankline := 0;
    var found, line := reader.ReadLine();
    ghost var unread := input;
    ghost var makefile := HEADER + CleanOutput(Lines(input), false);
    while found
      invariant reader.Valid() && fresh(reader) && fresh(reader.buf)
      invariant blankline >= 0
      invariant found <==> unread != []
      invariant found ==> reader.AtLine(unread, line)
      invariant written + CleanOutput(Lines(unread), blankline > 0) == makefile
      decreases |unread|
    {
      ghost var rest := unread[NextLine(unread)..];
      OutputStep(makefile, written, unread, blankline > 0);
      var empty := reader.IsEmptyLine(unread, line);
      if empty {
        if blankline == 0 {
          written := written + "\n";
        }
        blankline := blankline + 1;
      } else {
        blankline := 0;
        written := written + StringAt(reader.buf[..], line);
        written := written + "\n";
      }
      unread := rest;
      found, line := reader.ReadLine();
    }
    NoOutput(blankline > 0);
  }
}
