/** Which lines of an Imakefile imake takes for preprocessor lines, and which lines of the
    preprocessor's output it takes for line markers, in the letters of the lines themselves. */
module ImakeDirectives {
  import opened Imake

  ghost predicate Blanks(s: string) { forall k :: 0 <= k < |s| ==> s[k] == ' ' || s[k] == '\t' }

  /** The text behind a word: nothing, or more behind a blank. */
  predicate Behind(rest: string) { rest == "" || rest[0] == ' ' || rest[0] == '\t' }

  /** What follows a '#' is blanks, a word of the preprocessor, and nothing or a blank and more. */
  ghost predicate NamesDirective(x: string) {
    exists gap, word, rest :: ReadsAs(x, gap, word, rest) && Preprocesses(word)
  }

  ghost predicate ReadsAs(x: string, gap: string, word: string, rest: string) {
    x == gap + word + rest && Blanks(gap) && Behind(rest)
  }

  predicate Preprocesses(word: string) {
    || word == "define" || word == "undef" || word == "include" || word == "line"
    || word == "if" || word == "ifdef" || word == "ifndef" || word == "elif" || word == "else" || word == "endif"
    || word == "error" || word == "pragma"
  }

  // ---- Before the preprocessor ------------------------------------------------------------------

  /** A line that starts with '#' is handed to the preprocessor letter for letter if the line before
      it asks to be continued or it is a preprocessor line; any other has the comment word for its
      '#', and a blank behind the word.  The rest of the file follows either way. */
  lemma HashLines(pp: char, x: string, tail: string)
    requires '\n' !in x && Tail(tail)
    ensures CleanInput(pp, '\n', "#" + x + tail) ==
            (if pp == '\\' || NamesDirective(x) then "#" + x
             else if x != "" && (x[0] == ' ' || x[0] == '\t') then "XCOMM" + x
             else "XCOMM " + x)
            + CleanTail(Last('#', x), tail)
  {
    var line := "#" + x;
    HashLine(pp, x);
    assert '\n' !in line && Last('\n', line) == Last('#', x);
    hide *;
    CleanLine(pp, line, tail);
  }

  lemma HashLine(pp: char, x: string)
    requires '\n' !in x
    ensures ProtectLine(pp == '\\', "#" + x) ==
            if pp == '\\' || NamesDirective(x) then "#" + x
            else if x != "" && (x[0] == ' ' || x[0] == '\t') then "XCOMM" + x
            else "XCOMM " + x
  {
    assert ("#" + x)[1..] == x;
    DirectiveIsNamed(x);
    hide NamesDirective, IsDirective;
    assert "XCOMM" + (" " + x) == "XCOMM " + x;
  }

  /** A line that does not start with '#' is always handed on letter for letter. */
  lemma OtherLines(pp: char, line: string, tail: string)
    requires '\n' !in line && Tail(tail) && (line == "" || line[0] != '#')
    ensures CleanInput(pp, '\n', line + tail) == line + CleanTail(Last('\n', line), tail)
  {
    assert ProtectLine(pp == '\\', line) == line;
    hide *;
    CleanLine(pp, line, tail);
  }

  lemma DirectiveIsNamed(x: string)
    requires '\n' !in x
    ensures IsDirective(x) <==> NamesDirective(x)
  {
    var gap, rest := WordStands(x);
    var word := Word(SkipBlanks(x));
    TheTwelve(word);
    assert IsDirective(x) <==> Preprocesses(word);
    hide SkipBlanks, Word, IsDirective, Preprocesses;
    if NamesDirective(x) {
      var gap', word', rest' :| ReadsAs(x, gap', word', rest') && Preprocesses(word');
      SolidWord(word');
      GapIsSkipped(gap', word' + rest');
      assert x == gap' + (word' + rest');
      WordEnds(word', rest');
    }
  }

  lemma TheTwelve(word: string)
    ensures word in DIRECTIVES <==> Preprocesses(word)
  {
    if Preprocesses(word) {
      var d := DIRECTIVES;
      assert d[0] == "define" && d[1] == "if" && d[2] == "ifdef" && d[3] == "ifndef" && d[4] == "include";
      assert d[5] == "line" && d[6] == "else" && d[7] == "elif" && d[8] == "endif";
      assert d[9] == "error" && d[10] == "pragma" && d[11] == "undef";
    }
  }

  predicate Solid(word: string) { forall k :: 0 <= k < |word| ==> word[k] != ' ' && word[k] != '\t' && word[k] != '\n' }

  lemma SolidWord(word: string)
    requires Preprocesses(word)
    ensures word != "" && Solid(word)
  {
  }

  lemma {:induction false} GapIsSkipped(gap: string, s: string)
    requires Blanks(gap) && (s == "" || !Blank(s[0]))
    ensures SkipBlanks(gap + s) == s
  {
    if gap == "" {
      assert gap + s == s;
    } else {
      assert (gap + s)[1..] == gap[1..] + s;
      GapIsSkipped(gap[1..], s);
    }
  }

  lemma {:induction false} WordEnds(word: string, rest: string)
    requires Solid(word) && Behind(rest)
    ensures Word(word + rest) == word
  {
    if word == "" {
      assert word + rest == rest;
    } else {
      assert (word + rest)[1..] == word[1..] + rest;
      WordEnds(word[1..], rest);
      assert word == [word[0]] + word[1..];
    }
  }

  lemma {:induction false} WordStands(x: string) returns (gap: string, rest: string)
    requires '\n' !in x
    ensures ReadsAs(x, gap, Word(SkipBlanks(x)), rest)
  {
    if x != "" && Blank(x[0]) {
      var gap';
      gap', rest := WordStands(x[1..]);
      gap := [x[0]] + gap';
      assert x == [x[0]] + x[1..];
      assert [x[0]] + (gap' + Word(SkipBlanks(x)) + rest) == gap + Word(SkipBlanks(x)) + rest;
    } else {
      gap := "";
      rest := WordAtStart(x);
      assert "" + Word(x) + rest == Word(x) + rest;
    }
  }

  lemma {:induction false} WordAtStart(x: string) returns (rest: string)
    requires '\n' !in x
    ensures x == Word(x) + rest && Behind(rest)
  {
    if x == "" || Blank(x[0]) {
      rest := x;
    } else {
      rest := WordAtStart(x[1..]);
      assert x == [x[0]] + x[1..];
      assert [x[0]] + (Word(x[1..]) + rest) == ([x[0]] + Word(x[1..])) + rest;
    }
  }

  // ---- After the preprocessor -------------------------------------------------------------------

  predicate Digits(s: string) { forall k :: 0 <= k < |s| ==> '0' <= s[k] <= '9' }

  /** A number, and nothing or a space and a quote behind it. */
  ghost predicate Numbered(s: string) {
    exists number, rest :: NumberReads(s, number, rest)
  }

  ghost predicate NumberReads(s: string, number: string, rest: string) {
    s == number + rest && number != "" && Digits(number)
    && (rest == "" || rest[0] == '\n' || (|rest| >= 2 && rest[0] == ' ' && rest[1] == '"'))
  }

  /** "#", at most one space, perhaps "line ", a number, and nothing or a space and a quote. */
  ghost predicate LineMarker(line: string) {
    exists space, word, number, rest :: MarkerReads(line, space, word, number, rest)
  }

  ghost predicate MarkerReads(line: string, space: string, word: string, number: string, rest: string) {
    && line == "#" + (space + (word + (number + rest)))
    && (space == "" || space == " ") && (word == "" || word == "line ")
    && NumberReads(number + rest, number, rest)
  }

  /** Of the lines that start with '#', the line markers are emptied, and only they; any other loses
      the blanks at its end and nothing else. */
  lemma MarkersVanishExactly(line: string)
    requires line != "" && line[0] == '#'
    ensures Tidy(line) == "" <==> LineMarker(line)
    ensures !LineMarker(line) ==>
              && Tidy(line) <= line && Blanks(line[|Tidy(line)|..])
              && Tidy(line) != "" && Tidy(line)[|Tidy(line)| - 1] !in " \t"
  {
    MarkerIsRead(line);
    hide Marker, LineMarker;
    if !LineMarker(line) {
      Trimmed(line);
      assert line == "#" + line[1..];
      TrimNonBlank("#", line[1..]);
    }
  }

  lemma {:induction false} Trimmed(s: string)
    ensures |Trim(s)| <= |s| && Trim(s) == s[..|Trim(s)|] && Blanks(s[|Trim(s)|..])
    ensures Trim(s) == "" || !Blank(Trim(s)[|Trim(s)| - 1])
  {
    if s == "" {
    } else {
      Trimmed(s[1..]);
      TrimStep(s);
      hide Trim;
      var n := |Trim(s[1..])|;
      assert s[1..][n..] == s[n + 1..] && s[..n + 1] == [s[0]] + s[1..][..n];
      if Trim(s) == "" { assert s == [s[0]] + s[1..]; }
    }
  }

  lemma TrimStep(s: string)
    requires s != ""
    ensures Trim(s) == if Trim(s[1..]) == "" && Blank(s[0]) then "" else [s[0]] + Trim(s[1..])
  {
  }

  function Unspaced(line: string): string
    requires line != ""
  {
    if |line| > 1 && line[1] == ' ' then line[2..] else line[1..]
  }

  function Unworded(s: string): string { if "line " <= s then s[5..] else s }

  lemma MarkerIsNumbered(line: string)
    requires line != "" && line[0] == '#'
    ensures Marker(line) <==> Numbered(Unworded(Unspaced(line)))
  {
    var s := Unworded(Unspaced(line));
    var rest := SkipDigits(s);
    assert Marker(line) <==> s != "" && Digit(s[0]) && (rest == "" || rest[0] == '\n' || " \"" <= rest);
    hide Marker, Unworded, Unspaced;
    var digits := LeadingDigits(s);
    assert " \"" <= rest <==> |rest| >= 2 && rest[0] == ' ' && rest[1] == '"';
    if Marker(line) {
      assert NumberReads(s, digits, rest);
    }
    if Numbered(s) {
      var number, rest' :| NumberReads(s, number, rest');
      SkipNumber(number, rest');
      assert s[0] == number[0];
    }
  }

  lemma MarkerIsRead(line: string)
    requires line != "" && line[0] == '#'
    ensures Marker(line) <==> LineMarker(line)
  {
    MarkerIsNumbered(line);
    hide Marker;
    var unspaced := Unspaced(line);
    var s := Unworded(unspaced);
    if Numbered(s) {
      var number, rest :| NumberReads(s, number, rest);
      Stripped(line);
      StrippedWord(unspaced);
      assert MarkerReads(line, Space(line), WordOf(unspaced), number, rest);
    }
    if LineMarker(line) {
      var space, word, number, rest :| MarkerReads(line, space, word, number, rest);
      Unstripped(space, word, number + rest);
      assert NumberReads(number + rest, number, rest);
    }
  }

  function Space(line: string): string { if |line| > 1 && line[1] == ' ' then " " else "" }
  function WordOf(s: string): string { if "line " <= s then "line " else "" }

  lemma Stripped(line: string)
    requires line != "" && line[0] == '#'
    ensures line == "#" + (Space(line) + Unspaced(line))
  {
    assert line == "#" + line[1..];
    if |line| > 1 && line[1] == ' ' {
      assert line[1..] == " " + line[2..];
    } else {
      assert "" + line[1..] == line[1..];
    }
  }

  lemma StrippedWord(s: string)
    ensures s == WordOf(s) + Unworded(s)
  {
  }

  lemma Unstripped(space: string, word: string, s: string)
    requires (space == "" || space == " ") && (word == "" || word == "line ") && s != "" && Digit(s[0])
    ensures Unworded(Unspaced("#" + (space + (word + s)))) == s
  {
    UnstrippedWord(word, s);
    assert (word + s)[0] != ' ';
    hide Unworded;
    var line := "#" + (space + (word + s));
    if space == "" {
      assert line[1..] == word + s;
    } else {
      assert line[1] == ' ' && line[2..] == word + s;
    }
  }

  lemma UnstrippedWord(word: string, s: string)
    requires (word == "" || word == "line ") && s != "" && Digit(s[0])
    ensures Unworded(word + s) == s
  {
    if word == "" {
      assert word + s == s;
    } else {
      assert (word + s)[5..] == s && "line " <= word + s;
    }
  }

  lemma {:induction false} LeadingDigits(s: string) returns (digits: string)
    ensures s == digits + SkipDigits(s) && Digits(digits)
    ensures s != "" && Digit(s[0]) ==> digits != ""
  {
    if s != "" && Digit(s[0]) {
      var more := LeadingDigits(s[1..]);
      digits := [s[0]] + more;
      assert s == [s[0]] + s[1..];
      assert [s[0]] + (more + SkipDigits(s)) == digits + SkipDigits(s);
    } else {
      digits := "";
    }
  }

  lemma {:induction false} SkipNumber(number: string, rest: string)
    requires Digits(number) && (rest == "" || !Digit(rest[0]))
    ensures SkipDigits(number + rest) == rest
  {
    if number == "" {
      assert number + rest == rest;
    } else {
      assert (number + rest)[1..] == number[1..] + rest;
      SkipNumber(number[1..], rest);
    }
  }

  /** The comment word at a place of a line: at the start or behind a blank, with a blank or nothing
      behind it. */
  predicate WordAt(s: string, k: nat) {
    && k + 5 <= |s| && s[k..k + 5] == "XCOMM"
    && (k == 0 || s[k - 1] == ' ' || s[k - 1] == '\t') && (k + 5 == |s| || s[k + 5] == ' ' || s[k + 5] == '\t')
  }

  /** What is turned back into '#' is the comment word at any place of the line. */
  lemma TokenIsSpelled(s: string)
    ensures HasToken(true, s) <==> exists k: nat :: WordAt(s, k)
  {
    hide CommentHere, WordAt;
    if HasToken(true, s) {
      var k :| 0 <= k < |s| && CommentHere(s[k..]) && if k == 0 then true else Blank(s[k - 1]);
      TokenHere(s, k);
      assert WordAt(s, k);
    }
    if k: nat :| WordAt(s, k) {
      TokenInside(s, k);
      TokenHere(s, k);
      assert CommentHere(s[k..]);
    }
  }

  lemma TokenInside(s: string, k: nat)
    requires WordAt(s, k)
    ensures k < |s|
  {
  }

  lemma TokenHere(s: string, k: nat)
    requires k < |s|
    ensures WordAt(s, k) <==> CommentHere(s[k..]) && (k == 0 || Blank(s[k - 1]))
  {
    var rest := s[k..];
    if k + 5 <= |s| {
      assert rest[..5] == s[k..k + 5];
      assert "XCOMM" <= rest <==> rest[..5] == "XCOMM";
      assert k + 5 < |s| ==> rest[5] == s[k + 5];
    }
  }

  /** Two @ signs end a line as a newline does, and belong to no line. */
  lemma {:induction false} AtSignsEndALine(x: string, rest: string)
    requires '\n' !in x && forall k :: 0 <= k < |x| && x[k] == '@' ==> k + 1 < |x| && x[k + 1] != '@'
    ensures Lines(x + "@@" + rest) == [x] + Lines(rest)
  {
    AtSignsEnd(x, rest);
    var s := x + "@@" + rest;
    assert s[..|x|] == x && s[|x| + 2..] == rest && s[|x|] == '@';
  }

  lemma {:induction false} AtSignsEnd(x: string, rest: string)
    requires '\n' !in x && forall k :: 0 <= k < |x| && x[k] == '@' ==> k + 1 < |x| && x[k + 1] != '@'
    ensures LineEnd(x + "@@" + rest) == |x|
  {
    var s := x + "@@" + rest;
    if x == "" {
      assert s[0] == '@' && s[1] == '@';
    } else {
      assert s[1..] == x[1..] + "@@" + rest;
      assert s[0] == x[0] && s[1] == if |x| > 1 then x[1] else '@';
      AtSignsEnd(x[1..], rest);
    }
  }
}
