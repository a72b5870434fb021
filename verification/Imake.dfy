/**
 * How imake carries make comments through the C preprocessor
 * (xc/config/imake/imake.c): before the preprocessor runs, a comment's '#' is
 * replaced by a word that means nothing to it; afterwards the word becomes '#'
 * again, the preprocessor's own line markers are dropped, trailing blanks are
 * trimmed and runs of blank lines are squeezed into one.
 */
module Imake {

  const HEADER := "# Makefile generated by imake - do not edit!\n" +
                  "# $XConsortium: imake.c,v 1.91 95/01/12 16:15:47 kaleb Exp $\n"

  const DIRECTIVES := ["define", "if", "ifdef", "ifndef", "include", "line", "else", "elif",
                       "endif", "error", "pragma", "undef"]

  predicate Blank(c: char) { c == ' ' || c == '\t' }
  predicate Digit(c: char) { '0' <= c <= '9' }

  // ---- Before the preprocessor ------------------------------------------------------------------

  function SkipBlanks(s: string): string {
    if s != [] && Blank(s[0]) then SkipBlanks(s[1..]) else s
  }

  function Word(s: string): string {
    if s == [] || Blank(s[0]) || s[0] == '\n' then [] else [s[0]] + Word(s[1..])
  }

  /** What follows a '#' is a directive's name. */
  predicate IsDirective(s: string) { Word(SkipBlanks(s)) in DIRECTIVES }

  /** What replaces a '#' that what follows does not make a directive. */
  function CommentWord(rest: string): string {
    if rest != [] && Blank(rest[0]) then "XCOMM" else "XCOMM "
  }

  /** The text from one position on; pp and p are the two characters before it. */
  function CleanInput(pp: char, p: char, s: string): string
    decreases |s|
  {
    if s == [] then []
    else
      (if s[0] == '#' && p == '\n' && pp != '\\' && !IsDirective(s[1..]) then CommentWord(s[1..]) else [s[0]]) +
      CleanInput(p, s[0], s[1..])
  }

  // ---- After the preprocessor -------------------------------------------------------------------

  /** Two @ signs end a line as a newline does. */
  predicate SoftEnd(s: string) { |s| >= 2 && s[0] == '@' && s[1] == '@' }

  function LineEnd(s: string): (k: nat)
    ensures k <= |s|
    ensures k < |s| ==> s[k] == '\n' || SoftEnd(s[k..])
  {
    if s == [] || s[0] == '\n' || SoftEnd(s) then 0 else 1 + LineEnd(s[1..])
  }

  /** Where the next line starts. */
  function NextLine(s: string): (k: nat)
    ensures k <= |s| && (s != [] ==> k > 0)
  {
    var k := LineEnd(s);
    if k == |s| then k else if s[k] == '\n' then k + 1 else k + 2
  }

  function Lines(s: string): seq<string>
    decreases |s|
  {
    if s == [] then [] else [s[..LineEnd(s)]] + Lines(s[NextLine(s)..])
  }

  function SkipDigits(s: string): string {
    if s != [] && Digit(s[0]) then SkipDigits(s[1..]) else s
  }

  /** "# n", "# n "...", "# line n" and "# line n "...", as the preprocessor leaves them. */
  predicate Marker(line: string) {
    |line| > 0 && line[0] == '#' &&
    var unspaced := if |line| > 1 && line[1] == ' ' then line[2..] else line[1..];
    var number := if "line " <= unspaced then unspaced[5..] else unspaced;
    number != [] && Digit(number[0]) &&
    var rest := SkipDigits(number);
    rest == [] || rest[0] == '\n' || " \"" <= rest
  }

  predicate CommentHere(s: string) { "XCOMM" <= s && (|s| == 5 || Blank(s[5])) }

  /** first says that s starts a line or follows a blank. */
  function Uncomment(first: bool, s: string): string
    decreases |s|
  {
    if s == [] then []
    else if first && CommentHere(s) then "#" + Uncomment(false, s[5..])
    else [s[0]] + Uncomment(Blank(s[0]), s[1..])
  }

  function Trim(s: string): string {
    if s == [] then []
    else
      var rest := Trim(s[1..]);
      if rest == [] && Blank(s[0]) then [] else [s[0]] + rest
  }

  /** What isempty leaves of a line; nothing is left of one that it finds empty. */
  function Tidy(line: string): string {
    if line != [] && line[0] == '#' then if Marker(line) then [] else Trim(line)
    else Trim(Uncomment(true, line))
  }

  function CleanOutput(lines: seq<string>, blankline: bool): string
    decreases |lines|
  {
    if lines == [] then []
    else if Tidy(lines[0]) == [] then (if blankline then [] else "\n") + CleanOutput(lines[1..], true)
    else Tidy(lines[0]) + "\n" + CleanOutput(lines[1..], false)
  }

  /** The makefile that comes of an Imakefile when the preprocessor changes nothing. */
  function Makefile(imakefile: string): string {
    HEADER + CleanOutput(Lines(CleanInput('\n', '\n', imakefile)), false)
  }

  // ---- What the writer of the Imakefile should find in the makefile -----------------------------

  /** A comment line, unless the line before it asks to be continued. */
  predicate IsComment(continued: bool, line: string) {
    line != [] && line[0] == '#' && !continued && !IsDirective(line[1..])
  }

  function Spaced(s: string): string { if s != [] && Blank(s[0]) then s else " " + s }

  function Expected(continued: bool, line: string): string {
    Trim(if IsComment(continued, line) then "#" + Spaced(line[1..]) else line)
  }

  predicate Continues(line: string) { line != [] && line[|line| - 1] == '\\' }

  function Restored(continued: bool, lines: seq<string>, blankline: bool): string
    decreases |lines|
  {
    if lines == [] then []
    else
      var line := Expected(continued, lines[0]);
      if line == [] then (if blankline then [] else "\n") + Restored(Continues(lines[0]), lines[1..], true)
      else line + "\n" + Restored(Continues(lines[0]), lines[1..], false)
  }

  ghost predicate HasToken(first: bool, s: string) {
    exists k :: 0 <= k < |s| && CommentHere(s[k..]) && if k == 0 then first else Blank(s[k - 1])
  }

  /** A line that comes back: the word for '#' is not in it, and it does not look like a line
      marker, unless it is a comment. */
  ghost predicate ComesBack(continued: bool, line: string) {
    if IsComment(continued, line) then !HasToken(true, line[1..])
    else if line != [] && line[0] == '#' then !Marker(line)
    else !HasToken(true, line)
  }

  ghost predicate AllComeBack(continued: bool, lines: seq<string>)
    decreases |lines|
  {
    lines == [] || (ComesBack(continued, lines[0]) && AllComeBack(Continues(lines[0]), lines[1..]))
  }

  ghost predicate NoSoftEnd(s: string) { forall k :: 0 <= k < |s| ==> !SoftEnd(s[k..]) }

  /** For any text without soft line ends, the makefile is the restored text if and only if every
      line is one that comes back. */
  lemma RestoredExactly(imakefile: string)
    requires NoSoftEnd(imakefile)
    ensures Makefile(imakefile) == HEADER + Restored(false, Lines(imakefile), false)
       <==> AllComeBack(false, Lines(imakefile))
  {
    assert Makefile(imakefile) == HEADER + CleanOutput(Lines(CleanInput('\n', '\n', imakefile)), false);
    hide *;
    var lines := Lines(imakefile);
    LinesOfCleanInput('\n', imakefile);
    OutputCompares(false, lines, false, false);
    var output, restored := CleanOutput(Protect(false, lines), false), Restored(false, lines, false);
    assert |HEADER + output| == |HEADER| + |output| && |HEADER + restored| == |HEADER| + |restored|;
  }

  // ---- Comment protection works line by line ----------------------------------------------------

  function ProtectLine(continued: bool, line: string): string {
    if IsComment(continued, line) then "XCOMM" + Spaced(line[1..]) else line
  }

  function Protect(continued: bool, lines: seq<string>): seq<string>
    decreases |lines|
  {
    if lines == [] then [] else [ProtectLine(continued, lines[0])] + Protect(Continues(lines[0]), lines[1..])
  }

  /** The rest of a text after one of its lines: nothing, or a newline and more lines. */
  ghost predicate Tail(s: string) { s == [] || s[0] == '\n' }

  lemma {:induction false} WordOfLine(x: string, tail: string)
    requires '\n' !in x && Tail(tail)
    ensures Word(x + tail) == Word(x) && Word(SkipBlanks(x + tail)) == Word(SkipBlanks(x))
  {
    if x == [] {
      assert x + tail == tail;
    } else {
      assert (x + tail)[1..] == x[1..] + tail;
      WordOfLine(x[1..], tail);
    }
  }

  /** The last of a character and those that follow it. */
  function Last(p: char, x: string): char { if x == [] then p else x[|x| - 1] }

  lemma LastOfRest(p: char, x: string)
    requires x != []
    ensures Last(x[0], x[1..]) == Last(p, x)
  {
  }

  lemma CleanStep(pp: char, p: char, s: string)
    requires s != [] && p != '\n'
    ensures CleanInput(pp, p, s) == [s[0]] + CleanInput(p, s[0], s[1..])
  {
  }

  lemma {:induction false} CleanInside(pp: char, p: char, x: string, tail: string)
    requires '\n' !in x && Tail(tail) && p != '\n'
    ensures CleanInput(pp, p, x + tail) == x + CleanTail(Last(p, x), tail)
    decreases |x|
  {
    if x == [] {
      CleanOfTail(pp, p, tail);
      assert x + tail == tail;
      assert x + CleanTail(p, tail) == CleanTail(p, tail);
    } else {
      hide *;
      var rest := x[1..];
      LastOfRest(p, x);
      FirstAndRest(x, tail);
      FirstAndRest(x, CleanTail(Last(p, x), tail));
      CleanStep(pp, p, x + tail);
      CleanInside(p, x[0], rest, tail);
    }
  }

  lemma FirstAndRest(x: string, tail: string)
    requires x != []
    ensures x + tail != [] && (x + tail)[0] == x[0] && (x + tail)[1..] == x[1..] + tail
    ensures x + tail == [x[0]] + (x[1..] + tail)
    ensures forall c :: c !in x ==> c != x[0] && c !in x[1..]
  {
  }

  lemma CleanOfTail(pp: char, p: char, tail: string)
    requires Tail(tail) && p != '\n'
    ensures CleanInput(pp, p, tail) == CleanTail(p, tail)
  {
    hide IsDirective, CommentWord;
  }

  function CleanTail(last: char, tail: string): string {
    if tail == [] then [] else [tail[0]] + CleanInput(last, tail[0], tail[1..])
  }

  lemma CleanLine(pp: char, x: string, tail: string)
    requires '\n' !in x && Tail(tail)
    ensures CleanInput(pp, '\n', x + tail) == ProtectLine(pp == '\\', x) + CleanTail(Last('\n', x), tail)
  {
    assert x == [] ==> Last('\n', x) == '\n';
    hide *;
    if x == [] {
      CleanEmptyLine(pp, tail);
      assert x + tail == tail;
    } else {
      CleanFullLine(pp, x, tail);
    }
  }

  lemma CleanFullLine(pp: char, x: string, tail: string)
    requires x != [] && '\n' !in x && Tail(tail)
    ensures CleanInput(pp, '\n', x + tail) == ProtectLine(pp == '\\', x) + CleanTail(Last('\n', x), tail)
  {
    hide *;
    LastOfRest('\n', x);
    FirstAndRest(x, tail);
    var rest, more := x[1..], CleanTail(Last('\n', x), tail);
    CleanInside('\n', x[0], rest, tail);
    var head := if IsComment(pp == '\\', x) then CommentWord(rest) else [x[0]];
    CleanFirst(pp, x, tail);
    Associate(head, rest, more);
    ProtectedLine(pp == '\\', x);
  }

  lemma Associate(a: string, b: string, c: string)
    ensures (a + b) + c == a + (b + c)
  {
  }

  lemma ProtectedLine(continued: bool, x: string)
    requires x != []
    ensures ProtectLine(continued, x) == (if IsComment(continued, x) then CommentWord(x[1..]) else [x[0]]) + x[1..]
  {
    hide IsDirective;
    WordAndRest(x[1..]);
    assert x == [x[0]] + x[1..];
  }

  lemma CleanEmptyLine(pp: char, tail: string)
    requires Tail(tail)
    ensures CleanInput(pp, '\n', tail) == ProtectLine(pp == '\\', []) + CleanTail('\n', tail)
  {
    hide IsDirective, CommentWord, Spaced;
    assert [] + CleanTail('\n', tail) == CleanTail('\n', tail);
  }

  lemma CleanFirst(pp: char, x: string, tail: string)
    requires x != [] && '\n' !in x && Tail(tail)
    ensures CleanInput(pp, '\n', x + tail) ==
            (if IsComment(pp == '\\', x) then CommentWord(x[1..]) else [x[0]]) + CleanInput('\n', x[0], x[1..] + tail)
  {
    hide IsDirective, CommentWord;
    assert (x + tail)[0] == x[0] && (x + tail)[1..] == x[1..] + tail;
    DirectiveOfLine(x[1..], tail);
  }

  lemma DirectiveOfLine(x: string, tail: string)
    requires '\n' !in x && Tail(tail)
    ensures IsDirective(x + tail) == IsDirective(x)
    ensures CommentWord(x + tail) == CommentWord(x)
  {
    WordOfLine(x, tail);
  }

  lemma WordAndRest(rest: string)
    ensures CommentWord(rest) + rest == "XCOMM" + Spaced(rest)
  {
  }

  lemma {:induction false} LineEndOf(x: string, tail: string)
    requires '\n' !in x && NoSoftEnd(x) && Tail(tail)
    ensures LineEnd(x + tail) == |x|
  {
    if x == [] {
      assert x + tail == tail;
    } else {
      assert (x + tail)[1..] == x[1..] + tail;
      assert x[0..] == x;
      DropNoSoftEnd(x, 1);
      LineEndOf(x[1..], tail);
    }
  }

  lemma DropNoSoftEnd(s: string, n: nat)
    requires NoSoftEnd(s) && n <= |s|
    ensures NoSoftEnd(s[n..])
  {
    forall k | 0 <= k < |s[n..]| ensures !SoftEnd(s[n..][k..]) {
      assert s[n..][k..] == s[n + k..];
    }
  }

  lemma LinesOfLine(x: string, tail: string)
    requires '\n' !in x && NoSoftEnd(x) && Tail(tail)
    ensures Lines(x + tail) == if tail == [] then if x == [] then [] else [x] else [x] + Lines(tail[1..])
  {
    LineEndOf(x, tail);
    var s := x + tail;
    if s != [] {
      assert s[..|x|] == x;
      if tail == [] {
        assert s[NextLine(s)..] == [];
      } else {
        assert s[NextLine(s)..] == tail[1..];
      }
    }
  }

  lemma {:induction false} FirstLineIsPlain(s: string)
    requires NoSoftEnd(s)
    ensures '\n' !in s[..LineEnd(s)] && NoSoftEnd(s[..LineEnd(s)])
    ensures LineEnd(s) == |s| || s[LineEnd(s)] == '\n'
  {
    if s != [] && s[0] != '\n' {
      assert s[0..] == s;
      DropNoSoftEnd(s, 1);
      FirstLineIsPlain(s[1..]);
      var x := s[..LineEnd(s)];
      assert x == [s[0]] + s[1..][..LineEnd(s[1..])];
      forall k | 0 <= k < |x| ensures !SoftEnd(x[k..]) {
        assert !SoftEnd(s[k..]);
      }
    }
  }

  lemma ProtectedIsPlain(continued: bool, x: string)
    requires '\n' !in x && NoSoftEnd(x)
    ensures '\n' !in ProtectLine(continued, x) && NoSoftEnd(ProtectLine(continued, x))
  {
    hide IsDirective, NoSoftEnd;
    if IsComment(continued, x) {
      DropNoSoftEnd(x, 1);
      PlainAfter(CommentWord(x[1..]), x[1..]);
      WordAndRest(x[1..]);
    }
  }

  lemma {:induction false} PlainAfter(w: string, s: string)
    requires '\n' !in w && '@' !in w && '\n' !in s && NoSoftEnd(s)
    ensures '\n' !in w + s && NoSoftEnd(w + s)
  {
    forall k | 0 <= k < |w + s| ensures !SoftEnd((w + s)[k..]) {
      if k >= |w| { assert (w + s)[k..] == s[k - |w|..]; }
    }
  }

  lemma {:induction false} LinesOfCleanInput(pp: char, t: string)
    requires NoSoftEnd(t)
    ensures Lines(CleanInput(pp, '\n', t)) == Protect(pp == '\\', Lines(t))
    decreases |t|
  {
    if t != [] {
      hide Lines, CleanInput, ProtectLine, IsDirective, NoSoftEnd;
      var x, tail := t[..LineEnd(t)], t[LineEnd(t)..];
      assert t == x + tail;
      FirstLineIsPlain(t);
      CleanLine(pp, x, tail);
      LinesOfLine(x, tail);
      ProtectedIsPlain(pp == '\\', x);
      var last := Last('\n', x);
      LinesOfLine(ProtectLine(pp == '\\', x), CleanTail(last, tail));
      if tail == [] {
        ProtectKeepsEmpty(pp == '\\', x);
        assert Protect(pp == '\\', [x]) == [ProtectLine(pp == '\\', x)] + Protect(Continues(x), [x][1..]);
      } else {
        DropNoSoftEnd(t, LineEnd(t) + 1);
        assert tail[1..] == t[LineEnd(t) + 1..];
        LinesOfCleanInput(last, tail[1..]);
        assert CleanTail(last, tail)[1..] == CleanInput(last, '\n', tail[1..]);
        assert ([x] + Lines(tail[1..]))[1..] == Lines(tail[1..]);
      }
    } else {
      assert Lines(CleanInput(pp, '\n', t)) == [];
    }
  }

  lemma ProtectKeepsEmpty(continued: bool, x: string)
    ensures ProtectLine(continued, x) == [] <==> x == []
  {
  }

  // ---- What becomes of one line -----------------------------------------------------------------

  lemma HasTokenStep(first: bool, s: string)
    requires s != []
    ensures HasToken(first, s) <==> (first && CommentHere(s)) || HasToken(Blank(s[0]), s[1..])
  {
    assert s[0..] == s;
    if HasToken(first, s) {
      var k :| 0 <= k < |s| && CommentHere(s[k..]) && if k == 0 then first else Blank(s[k - 1]);
      if k > 0 { assert s[1..][k - 1..] == s[k..]; }
    }
    if HasToken(Blank(s[0]), s[1..]) {
      var k :| 0 <= k < |s[1..]| && CommentHere(s[1..][k..]) && if k == 0 then Blank(s[0]) else Blank(s[1..][k - 1]);
      assert s[1..][k..] == s[k + 1..];
    }
  }

  lemma CommentLetters(s: string)
    requires CommentHere(s)
    ensures |s| >= 5 && s[..5] == "XCOMM" && forall k :: 0 <= k < 5 ==> !Blank(s[k])
  {
    assert forall k :: 0 <= k < 5 ==> s[k] == "XCOMM"[k];
  }

  lemma TrimWord(s: string)
    requires CommentHere(s)
    ensures |s| >= 5 && |Trim(s)| == 5 + |Trim(s[5..])|
  {
    CommentLetters(s);
    hide *;
    var w := s[..5];
    assert s == w + s[5..];
    TrimNonBlank(w, s[5..]);
  }

  lemma {:induction false} TrimNonBlank(w: string, s: string)
    requires forall k :: 0 <= k < |w| ==> !Blank(w[k])
    ensures Trim(w + s) == w + Trim(s)
  {
    if w == [] {
      assert w + s == s && w + Trim(s) == Trim(s);
    } else {
      assert (w + s)[1..] == w[1..] + s;
      TrimNonBlank(w[1..], s);
      assert w == [w[0]] + w[1..];
    }
  }

  /** Undoing the word for '#' leaves a line alone, or makes it shorter, but never empty. */
  lemma {:induction false} UncommentShortens(first: bool, s: string)
    ensures !HasToken(first, s) ==> Uncomment(first, s) == s
    ensures HasToken(first, s) ==> |Trim(Uncomment(first, s))| < |Trim(s)|
    ensures Trim(Uncomment(first, s)) == [] <==> Trim(s) == []
    decreases |s|
  {
    if s != [] {
      hide HasToken, CommentHere;
      HasTokenStep(first, s);
      if first && CommentHere(s) {
        TrimWord(s);
        UncommentShortens(false, s[5..]);
        TrimNonBlank("#", Uncomment(false, s[5..]));
        assert |Trim(Uncomment(false, s[5..]))| <= |Trim(s[5..])|;
      } else {
        UncommentShortens(Blank(s[0]), s[1..]);
        var rest := Uncomment(Blank(s[0]), s[1..]);
        assert ([s[0]] + rest)[1..] == rest;
        assert s == [s[0]] + s[1..];
      }
    }
  }

  lemma LineCompares(continued: bool, line: string)
    ensures ComesBack(continued, line) ==> Tidy(ProtectLine(continued, line)) == Expected(continued, line)
    ensures !ComesBack(continued, line) ==>
              |Tidy(ProtectLine(continued, line))| < |Expected(continued, line)|
  {
    if IsComment(continued, line) {
      CommentCompares(line[1..]);
    } else if line != [] && line[0] == '#' {
      assert line == "#" + line[1..];
      TrimNonBlank("#", line[1..]);
    } else {
      UncommentShortens(true, line);
    }
  }

  lemma CommentCompares(rest: string)
    ensures !HasToken(true, rest) ==> Tidy("XCOMM" + Spaced(rest)) == Trim("#" + Spaced(rest))
    ensures HasToken(true, rest) ==> |Tidy("XCOMM" + Spaced(rest))| < |Trim("#" + Spaced(rest))|
  {
    var line, after := "XCOMM" + Spaced(rest), Spaced(rest);
    assert line[5..] == after && CommentHere(line);
    assert Tidy(line) == Trim("#" + Uncomment(false, after));
    assert HasToken(false, after) <==> HasToken(true, rest) by {
      HasTokenStep(false, after);
      if after == rest { HasTokenStep(true, rest); } else { assert after[1..] == rest; }
    }
    UncommentShortens(false, after);
    TrimNonBlank("#", after);
    TrimNonBlank("#", Uncomment(false, after));
  }

  /** The lines together: what is written is the restored text, or shorter. */
  lemma {:induction false} OutputCompares(continued: bool, lines: seq<string>, blankline: bool, expectedBlank: bool)
    requires expectedBlank ==> blankline
    ensures var output := CleanOutput(Protect(continued, lines), blankline);
            var restored := Restored(continued, lines, expectedBlank);
            (AllComeBack(continued, lines) && blankline == expectedBlank ==> output == restored) &&
            (!AllComeBack(continued, lines) ==> |output| < |restored|) &&
            |output| <= |restored|
    decreases |lines|
  {
    if lines != [] {
      hide Tidy, ProtectLine, Expected, ComesBack, Continues;
      LineCompares(continued, lines[0]);
      var next, rest := Continues(lines[0]), lines[1..];
      assert Protect(continued, lines)[1..] == Protect(next, rest);
      var empty := Tidy(ProtectLine(continued, lines[0])) == [];
      OutputCompares(next, rest, empty, Expected(continued, lines[0]) == []);
    }
  }
}
