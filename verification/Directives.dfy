/** What kind of directive a `#` line is: the part of deftype in makedepend's parse.c that only looks
    at the text. */
module Directives {
  import opened Options
  import opened SymbolTable
  import opened IfParser

  /** `text` is the line itself, which a stray #else, #elif or #endif falls through with; `room` is
      the length of an #include line, over which the name of the file is copied. */
  datatype Directive =
    | If(exp: CString)
    | Ifdef(name: CString)
    | Ifndef(name: CString)
    | Else(text: CString)
    | Endif(text: CString)
    | Elif(exp: CString, text: CString)
    | Define(def: CString)
    | Undef(name: CString)
    | Include(arg: CString, room: nat)
    | Ignored
    | Unknown

  predicate IsBlank(c: char) { c == ' ' || c == '\t' }

  predicate IsLower(c: char) { 'a' <= c <= 'z' }

  function SkipBlanks(s: CString): (r: CString)
    ensures |r| <= |s|
  {
    if s != "" && IsBlank(s[0]) then SkipBlanks(s[1..]) else s
  }

  function WordLength(s: CString): (n: nat)
    ensures n <= |s|
  {
    if s != "" && IsLower(s[0]) then 1 + WordLength(s[1..]) else 0
  }

  function Symbol(s: CString): CString {
    s[..NameLength(s)]
  }

  /** Skip the #, blanks, and the word; look the word up in the table of directives; `arg` starts
      at the next non-blank. */
  function Scan(line: CString): Directive {
    if line == "" then Unknown
    else
      var s := SkipBlanks(line[1..]);
      var n := WordLength(s);
      Classify(s[..n], SkipBlanks(s[n..]), line)
  }

  function Classify(word: CString, arg: CString, line: CString): Directive {
    if word == "if" then If(arg)
    else if word == "ifdef" then Ifdef(Symbol(arg))
    else if word == "ifndef" then Ifndef(Symbol(arg))
    else if word == "else" then Else(line)
    else if word == "endif" then Endif(line)
    else if word == "define" then Define(arg)
    else if word == "undef" then Undef(Symbol(arg))
    else if word == "include" then Include(arg, |line|)
    else if word == "elif" then Elif(arg, line)
    else if word == "line" || word == "pragma" || word == "error" then Ignored
    else if word == "ident" || word == "sccs" || word == "eject" then Ignored
    else Unknown
  }

  function ScanAll(lines: seq<CString>): (r: seq<Directive>)
    ensures |r| == |lines| && forall i :: 0 <= i < |lines| ==> r[i] == Scan(lines[i])
  {
    if lines == [] then [] else [Scan(lines[0])] + ScanAll(lines[1..])
  }

  /** The name and the value of a definition.  One character behind the name is dropped, whatever it
      is; a missing value is 1. */
  function DefineParts(def: CString): (CString, CString) {
    var n := NameLength(def);
    var val := SkipBlanks(if n < |def| then def[n + 1..] else "");
    (def[..n], if val == "" then "1" else val)
  }

  /** Where a quoted or bracketed file name starts and ends in `p`; None for an incomplete include. */
  function IncludeName(p: CString): Option<(CString, bool)> {
    if p == "" then None
    else if p[0] == '"' then Some((Upto(p[1..], '"'), true))
    else if p[0] == '<' then Some((Upto(p[1..], '>'), false))
    else IncludeName(p[1..])
  }

  function Upto(p: CString, close: char): CString {
    if p == "" || p[0] == close then "" else [p[0]] + Upto(p[1..], close)
  }

  // ---- Printing a directive -------------------------------------------------------------------

  predicate AllBlank(s: CString) { forall i :: 0 <= i < |s| ==> IsBlank(s[i]) }

  /** A directive as it may be written: `# word arg` with any blanks. */
  function Line(gap: CString, word: CString, space: CString, arg: CString): (r: CString)
  {
    "#" + (gap + (word + (space + arg)))
  }

  lemma {:induction false} SkipAllBlank(b: CString, s: CString)
    requires AllBlank(b) && (s == "" || !IsBlank(s[0]))
    ensures SkipBlanks(b + s) == s
  {
    if b == "" {
      assert b + s == s;
    } else {
      assert (b + s)[1..] == b[1..] + s;
      SkipAllBlank(b[1..], s);
    }
  }

  lemma {:induction false} WordLengthOf(word: CString, s: CString)
    requires (forall i :: 0 <= i < |word| ==> IsLower(word[i])) && (s == "" || !IsLower(s[0]))
    ensures WordLength(word + s) == |word|
  {
    if word == "" {
      assert word + s == s;
    } else {
      assert (word + s)[1..] == word[1..] + s;
      WordLengthOf(word[1..], s);
    }
  }

  /** However it is spaced, the line scans to the directive of its word and argument. */
  lemma ScanOfLine(gap: CString, word: CString, space: CString, arg: CString)
    requires AllBlank(gap) && AllBlank(space) && word != "" && forall i :: 0 <= i < |word| ==> IsLower(word[i])
    requires arg == "" || (!IsBlank(arg[0]) && (space != "" || !IsLower(arg[0])))
    ensures Scan(Line(gap, word, space, arg)) == Classify(word, arg, Line(gap, word, space, arg))
  {
    var line := Line(gap, word, space, arg);
    var t := space + arg;
    assert line[1..] == gap + (word + t);
    SkipAllBlank(gap, word + t);
    if space != "" { assert t[0] == space[0]; } else { assert t == arg; }
    WordLengthOf(word, t);
    assert (word + t)[..|word|] == word && (word + t)[|word|..] == t;
    SkipAllBlank(space, arg);
  }
}
