/** getline behind lines that are only a #: such a line is dropped on purpose, and with it, not on
    purpose, the character behind it.  When that does no harm. */
module GetLineBare {
  import opened Options
  import opened GetLine

  // ---- What should be returned ----------------------------------------------------------------

  /** A line that ends in a newline is returned if it starts with # and has more than that. */
  predicate Returned(line: string) { IsHash(line) && !Bare(line) }

  /** The lines that should be returned.  The last line of a file has no newline behind it, and is
      returned even when it is bare. */
  function Kept(lines: seq<string>): seq<string> {
    if lines == [] then []
    else if |lines| == 1 then if IsHash(lines[0]) then lines else []
    else (if Returned(lines[0]) then [lines[0]] else []) + Kept(lines[1..])
  }

  /** The same with the place of each, in characters left to read behind it: f_p tells it. */
  function KeptFrom(pre: string, u: string): seq<(string, nat)>
    decreases |u|
  {
    if u == "" then if IsHash(pre) then [(pre, 0)] else []
    else if u[0] == '\n' then (if Returned(pre) then [(pre, |u| - 1)] else []) + KeptFrom("", u[1..])
    else KeptFrom(pre + [u[0]], u[1..])
  }

  function Lines(placed: seq<(string, nat)>): seq<string> {
    if placed == [] then [] else [placed[0].0] + Lines(placed[1..])
  }

  lemma {:induction false} KeptFromIsKept(pre: string, u: string)
    ensures Lines(KeptFrom(pre, u)) == Kept(LinesFrom(pre, u)) && LinesFrom(pre, u) != []
    decreases |u|
  {
    if u == "" {
    } else if u[0] == '\n' {
      KeptFromIsKept("", u[1..]);
      assert ([pre] + LinesFrom("", u[1..]))[1..] == LinesFrom("", u[1..]);
      if Returned(pre) {
        assert ([(pre, |u| - 1)] + KeptFrom("", u[1..]))[1..] == KeptFrom("", u[1..]);
      } else {
        assert KeptFrom(pre, u) == KeptFrom("", u[1..]);
      }
    } else {
      KeptFromIsKept(pre + [u[0]], u[1..]);
    }
  }

  // ---- What is returned -----------------------------------------------------------------------

  /** The lines returned from a point where `pre` has been read of the current line. */
  function Coded(pre: string, t: string): seq<(string, nat)>
    decreases |t|, |pre|
  {
    var r := Run(pre, t, 0);
    if r.0.None? then [] else [(r.0.value, |r.1|)] + Coded("", r.1)
  }

  function CodedInComment(pre: string, t: string): seq<(string, nat)> {
    var r := RunComment(pre, t, 0);
    if r.0.None? then [] else [(r.0.value, |r.1|)] + Coded("", r.1)
  }

  lemma {:induction false} CodedIsAllLines(t: string)
    ensures Lines(Coded("", t)) == AllLines(t)
    decreases |t|
  {
    var r := Run("", t, 0);
    if r.0.Some? {
      CodedIsAllLines(r.1);
      assert ([(r.0.value, |r.1|)] + Coded("", r.1))[1..] == Coded("", r.1);
    }
  }

  lemma {:induction false} LineNumbersOnly(pre: string, t: string, m: nat, n: nat)
    ensures Run(pre, t, m).0 == Run(pre, t, n).0 && Run(pre, t, m).1 == Run(pre, t, n).1
    decreases |t|, 0
  {
    if t == "" {
    } else if StartsWith(t, '/', '*') {
      LineNumbersOnlyInComment(pre + "  ", t[2..], m, n);
    } else if StartsWith(t, '\\', '\n') {
      LineNumbersOnly(pre + "  ", t[2..], m + 1, n + 1);
    } else if t[0] == '\n' {
      if !IsHash(pre) {
        LineNumbersOnly("", t[1..], m + 1, n + 1);
      } else if Bare(pre) && |t| > 1 {
        LineNumbersOnly("", t[2..], m + 1, n + 1);
      }
    } else {
      LineNumbersOnly(pre + [t[0]], t[1..], m, n);
    }
  }

  lemma {:induction false} LineNumbersOnlyInComment(pre: string, t: string, m: nat, n: nat)
    ensures RunComment(pre, t, m).0 == RunComment(pre, t, n).0 && RunComment(pre, t, m).1 == RunComment(pre, t, n).1
    decreases |t|, 1
  {
    if t == "" {
      LineNumbersOnly(pre, "", m, n);
    } else if StartsWith(t, '*', '/') {
      LineNumbersOnly(pre + "  ", t[2..], m, n);
    } else {
      var d := if t[0] == '\n' then 1 else 0;
      LineNumbersOnlyInComment(pre + " ", t[1..], m + d, n + d);
    }
  }

  /** What the scan returns from the next line on. */
  function CodedLine(p: string, t: string): seq<(string, nat)> {
    if !Bare(p) then Coded("", t) else if t == "" then [] else Coded("", t[1..])
  }

  /** One step of the scan. */
  lemma CodedStep(pre: string, t: string)
    ensures t == "" ==> Coded(pre, t) == if IsHash(pre) then [(pre, 0)] else []
    ensures StartsWith(t, '/', '*') ==> Coded(pre, t) == CodedInComment(pre + "  ", t[2..])
    ensures StartsWith(t, '\\', '\n') ==> Coded(pre, t) == Coded(pre + "  ", t[2..])
    ensures t != "" && t[0] == '\n' ==>
              Coded(pre, t) == (if Returned(pre) then [(pre, |t| - 1)] else []) + CodedLine(pre, t[1..])
    ensures t != "" && t[0] != '\n' && !StartsWith(t, '/', '*') && !StartsWith(t, '\\', '\n') ==>
              Coded(pre, t) == Coded(pre + [t[0]], t[1..])
  {
    if t == "" {
      CodedNothing();
    } else if StartsWith(t, '\\', '\n') {
      LineNumbersOnly(pre + "  ", t[2..], 0, 1);
    } else if t[0] == '\n' {
      LineNumbersOnly("", t[1..], 0, 1);
      if |t| > 1 { LineNumbersOnly("", t[2..], 0, 1); }
      assert |t| > 1 ==> t[1..][1..] == t[2..];
      CodedNothing();
      var line: seq<(string, nat)> := CodedLine(pre, t[1..]);
      assert [] + line == line;
    }
  }

  lemma CodedNothing()
    ensures Coded("", "") == []
  {
  }

  lemma CodedCommentStep(pre: string, t: string)
    ensures t == "" ==> CodedInComment(pre, t) == Coded(pre, t)
    ensures StartsWith(t, '*', '/') ==> CodedInComment(pre, t) == Coded(pre + "  ", t[2..])
    ensures t != "" && !StartsWith(t, '*', '/') ==> CodedInComment(pre, t) == CodedInComment(pre + " ", t[1..])
  {
    if t != "" && !StartsWith(t, '*', '/') {
      LineNumbersOnlyInComment(pre + " ", t[1..], 0, if t[0] == '\n' then 1 else 0);
    }
  }

  // ---- Two readings of one text ---------------------------------------------------------------

  /** How far a reading has come: inside a comment or not, with `line` of the current line. */
  datatype Point = Point(inComment: bool, line: string, rest: string)

  /** One step.  `skips` tells the scan, which does not see the character behind a bare line, from a
      reading of the text as it stands. */
  function Step(skips: bool, x: Point): (y: Point)
    requires x.rest != ""
    ensures |y.rest| < |x.rest|
  {
    var t := x.rest;
    if x.inComment then
      if StartsWith(t, '*', '/') then Point(false, x.line + "  ", t[2..]) else Point(true, x.line + " ", t[1..])
    else if StartsWith(t, '/', '*') then Point(true, x.line + "  ", t[2..])
    else if StartsWith(t, '\\', '\n') then Point(false, x.line + "  ", t[2..])
    else if t[0] == '\n' then Point(false, "", if skips && Bare(x.line) && |t| > 1 then t[2..] else t[1..])
    else Point(false, x.line + [t[0]], t[1..])
  }

  /** The line to return that ends at this character, with its place. */
  function Ended(x: Point): seq<(string, nat)>
    requires x.rest != ""
  {
    if !x.inComment && x.rest[0] == '\n' && Returned(x.line) then [(x.line, |x.rest| - 1)] else []
  }

  function Read(skips: bool, x: Point): seq<(string, nat)>
    decreases |x.rest|
  {
    if x.rest == "" then if IsHash(x.line) then [(x.line, 0)] else []
    else Ended(x) + Read(skips, Step(skips, x))
  }

  lemma {:induction false} ScanReads(x: Point)
    ensures Read(true, x) == if x.inComment then CodedInComment(x.line, x.rest) else Coded(x.line, x.rest)
    decreases |x.rest|
  {
    hide Coded, CodedInComment, Returned, Bare;
    CodedStep(x.line, x.rest);
    CodedCommentStep(x.line, x.rest);
    if x.rest != "" {
      ScanReads(Step(true, x));
      CodedNothing();
      NothingInFront(Read(true, Step(true, x)), []);
    }
  }

  lemma {:induction false} TextReads(y: Point)
    ensures Read(false, y) == KeptFrom(y.line, if y.inComment then BlankComment(y.rest) else Blank(y.rest))
    decreases |y.rest|
  {
    hide Returned, KeptFrom;
    if y.rest == "" {
      KeptNothing(y.line);
    } else {
      TextReads(Step(false, y));
      NothingInFront(Read(false, Step(false, y)), []);
      if y.inComment { KeptInComment(y.line, y.rest); } else { KeptOutside(y.line, y.rest); }
    }
  }

  lemma KeptNothing(q: string)
    ensures KeptFrom(q, "") == if IsHash(q) then [(q, 0)] else []
  {
  }

  lemma KeptInComment(q: string, t: string)
    requires t != ""
    ensures KeptFrom(q, BlankComment(t)) ==
            if StartsWith(t, '*', '/') then KeptFrom(q + "  ", Blank(t[2..]))
            else KeptFrom(q + " ", BlankComment(t[1..]))
  {
    hide KeptFrom, Returned;
    if StartsWith(t, '*', '/') {
      KeptTwoBlanks(q, Blank(t[2..]));
    } else {
      KeptOne(q, ' ', BlankComment(t[1..]));
    }
  }

  lemma KeptOutside(q: string, t: string)
    requires t != ""
    ensures StartsWith(t, '/', '*') ==> KeptFrom(q, Blank(t)) == KeptFrom(q + "  ", BlankComment(t[2..]))
    ensures StartsWith(t, '\\', '\n') ==> KeptFrom(q, Blank(t)) == KeptFrom(q + "  ", Blank(t[2..]))
    ensures !StartsWith(t, '/', '*') && !StartsWith(t, '\\', '\n') && t[0] != '\n' ==>
              KeptFrom(q, Blank(t)) == KeptFrom(q + [t[0]], Blank(t[1..]))
    ensures t[0] == '\n' ==>
              KeptFrom(q, Blank(t)) == (if Returned(q) then [(q, |t| - 1)] else []) + KeptFrom("", Blank(t[1..]))
  {
    hide KeptFrom, Returned;
    if StartsWith(t, '/', '*') {
      KeptTwoBlanks(q, BlankComment(t[2..]));
    } else if StartsWith(t, '\\', '\n') {
      KeptTwoBlanks(q, Blank(t[2..]));
    } else {
      KeptStep(q, t);
    }
  }

  lemma BlankStep(t: string)
    requires t != "" && !StartsWith(t, '/', '*') && !StartsWith(t, '\\', '\n')
    ensures Blank(t) == [t[0]] + Blank(t[1..])
  {
  }

  lemma KeptStep(q: string, t: string)
    requires t != "" && !StartsWith(t, '/', '*') && !StartsWith(t, '\\', '\n')
    ensures Blank(t) == [t[0]] + Blank(t[1..])
    ensures t[0] != '\n' ==> KeptFrom(q, Blank(t)) == KeptFrom(q + [t[0]], Blank(t[1..]))
    ensures t[0] == '\n' ==>
              KeptFrom(q, Blank(t)) == (if Returned(q) then [(q, |t| - 1)] else []) + KeptFrom("", Blank(t[1..]))
  {
    assert |Blank(t[1..])| == |t| - 1;
    BlankStep(t);
    hide *;
    KeptOne(q, t[0], Blank(t[1..]));
  }

  lemma KeptOne(q: string, c: char, u: string)
    ensures c != '\n' ==> KeptFrom(q, [c] + u) == KeptFrom(q + [c], u)
    ensures c == '\n' ==> KeptFrom(q, [c] + u) == (if Returned(q) then [(q, |u|)] else []) + KeptFrom("", u)
  {
    hide Returned;
    assert ([c] + u)[1..] == u;
  }

  lemma KeptTwoBlanks(q: string, u: string)
    ensures KeptFrom(q, "  " + u) == KeptFrom(q + "  ", u)
    ensures q == "" ==> KeptFrom(q, "  " + u) == KeptFrom("  ", u)
  {
    var v := "  " + u;
    assert v[1..] == " " + u && v[1..][1..] == u;
    assert q + [' '] + [' '] == q + "  ";
    assert q == "" ==> q + "  " == "  ";
  }

  // ---- When they are the same -----------------------------------------------------------------

  /** `l` is one character behind `a`: at the second one of a pair that `a` has taken in one step, or at
      the one that the scan has not seen.  No line to return ends there. */
  predicate Behind(l: Point, a: Point) {
    && l.rest != "" && a.rest == l.rest[1..]
    && (l.rest[0] == '\n' ==> l.inComment || l.line == "")
    && (l.rest[0] == '\\' && a.rest != "" && a.rest[0] == '\n' ==> a.inComment || a.line == "")
  }

  predicate Paired(x: Point, y: Point) {
    x.rest == y.rest || Behind(x, y) || Behind(y, x)
  }

  /** The scan at `x` and the text at `y`, each step made by the one that is behind: where both come to
      the same character, a line to return ends for one of them if and only if the same line ends for
      the other; and so does the last one. */
  predicate Agrees(x: Point, y: Point)
    decreases |x.rest| + |y.rest|
  {
    if |x.rest| <= 1 && |y.rest| <= 1 then Read(true, x) == Read(false, y)
    else if |x.rest| > |y.rest| then Agrees(Step(true, x), y)
    else if |x.rest| < |y.rest| then Agrees(x, Step(false, y))
    else Ended(x) == Ended(y) && Agrees(Step(true, x), Step(false, y))
  }

  /** Two readings of one text are never more than a character apart. */
  lemma CatchesUp(skips: bool, l: Point, a: Point)
    requires Behind(l, a)
    ensures var l' := Step(skips, l);
            && Ended(l) == [] && (l'.rest == a.rest || Behind(a, l'))
  {
    assert !Returned("");
    assert l.rest[0] == '\n' && !l.inComment ==> !Bare(l.line);
  }

  lemma StepTogether(x: Point, y: Point)
    requires x.rest == y.rest != ""
    ensures Paired(Step(true, x), Step(false, y))
  {
  }

  lemma {:induction false} ReadInside(skips: bool, x: Point)
    requires x.rest != "" && Read(skips, x) != []
    ensures Read(skips, x)[0].1 < |x.rest|
    decreases |x.rest|
  {
    hide Returned, Bare;
    var x' := Step(skips, x);
    if Ended(x) == [] {
      NothingInFront(Read(skips, x'), []);
      if x'.rest != "" { ReadInside(skips, x'); }
    }
  }

  lemma BehindIsLess(skips: bool, x: Point)
    requires |x.rest| > 1
    ensures var r := Read(skips, Step(skips, x)); r != [] ==> r[0].1 < |x.rest| - 1
  {
    hide Step;
    var x' := Step(skips, x);
    if x'.rest != "" && Read(skips, x') != [] { ReadInside(skips, x'); }
  }

  /** A line that ends for one of them only makes the difference, since everything behind it is in other
      places. */
  lemma CompareEnded(a: seq<(string, nat)>, x: seq<(string, nat)>, b: seq<(string, nat)>, y: seq<(string, nat)>, n: nat)
    requires |a| <= 1 && |b| <= 1 && (a != [] ==> a[0].1 == n) && (b != [] ==> b[0].1 == n)
    requires (x != [] ==> x[0].1 < n) && (y != [] ==> y[0].1 < n)
    ensures a + x == b + y <==> a == b && x == y
  {
    if a + x == b + y {
      assert a != [] ==> (a + x)[0] == a[0];
      assert b != [] ==> (b + y)[0] == b[0];
      assert a == [] ==> a + x == x;
      assert b == [] ==> b + y == y;
      assert x == (a + x)[|a|..] && y == (b + y)[|b|..];
    }
  }

  lemma {:induction false} AgreesExactly(x: Point, y: Point)
    requires Paired(x, y)
    ensures Read(true, x) == Read(false, y) <==> Agrees(x, y)
    decreases |x.rest| + |y.rest|
  {
    hide Step, Ended, Behind;
    if |x.rest| <= 1 && |y.rest| <= 1 {
    } else if |x.rest| > |y.rest| {
      assert Behind(x, y) by { PairedIs(x, y); }
      CatchesUp(true, x, y);
      NothingInFront(Read(true, Step(true, x)), []);
      AgreesExactly(Step(true, x), y);
    } else if |x.rest| < |y.rest| {
      assert Behind(y, x) by { PairedIs(x, y); }
      CatchesUp(false, y, x);
      NothingInFront(Read(false, Step(false, y)), []);
      AgreesExactly(x, Step(false, y));
    } else {
      PairedIs(x, y);
      StepTogether(x, y);
      AgreesExactly(Step(true, x), Step(false, y));
      BehindIsLess(true, x);
      BehindIsLess(false, y);
      EndedHere(x);
      EndedHere(y);
      CompareEnded(Ended(x), Read(true, Step(true, x)), Ended(y), Read(false, Step(false, y)), |x.rest| - 1);
    }
  }

  lemma PairedIs(x: Point, y: Point)
    requires Paired(x, y)
    ensures |x.rest| > |y.rest| ==> Behind(x, y)
    ensures |x.rest| < |y.rest| ==> Behind(y, x)
    ensures |x.rest| == |y.rest| ==> x.rest == y.rest
  {
  }

  lemma EndedHere(x: Point)
    requires x.rest != ""
    ensures |Ended(x)| <= 1 && (Ended(x) != [] ==> Ended(x)[0].1 == |x.rest| - 1)
  {
  }

  // ---- The results ----------------------------------------------------------------------------

  /** In every file, successive calls return exactly the lines that should be returned, at their places,
      if and only if the two readings agree. */
  lemma ReturnsTheKeptLinesExactly(t: string)
    ensures var start := Point(false, "", t);
            Coded("", t) == KeptFrom("", Blank(t)) <==> Agrees(start, start)
  {
    var start := Point(false, "", t);
    hide *;
    ScanReads(start);
    TextReads(start);
    PairedWithItself(start);
    AgreesExactly(start, start);
  }

  lemma PairedWithItself(x: Point)
    ensures Paired(x, x)
  {
  }

  // ---- Any number of bare lines ---------------------------------------------------------------

  /** A line of the blanked text that may stand behind a bare one: without its first character it is
      no # line either, and it does not begin with something blanked. */
  predicate MayFollow(line: string) {
    line == "" || (line[0] != '#' && line[0] != ' ' && !IsHash(line[1..]))
  }

  ghost predicate Mild(lines: seq<string>) {
    forall i :: 0 <= i < |lines| - 1 && Bare(lines[i]) ==> MayFollow(lines[i + 1])
  }

  /** The scan is at the line, or has missed the first character of one that does no harm. */
  predicate Follows(p: string, q: string, line: string) {
    p == q || (q != "" && p == q[1..] && line != "" && !IsHash(line) && !IsHash(line[1..]))
  }

  lemma {:induction false} FirstLine(pre: string, u: string)
    ensures LinesFrom(pre, u) != [] && pre <= LinesFrom(pre, u)[0]
    decreases |u|
  {
    if u != "" && u[0] != '\n' { FirstLine(pre + [u[0]], u[1..]); }
  }

  /** The lines that are still to come, the current one first. */
  function LinesAt(y: Point): seq<string> {
    LinesFrom(y.line, if y.inComment then BlankComment(y.rest) else Blank(y.rest))
  }

  /** Scan and text at the same character of a text whose bare lines do no harm. */
  ghost predicate Alike(x: Point, y: Point) {
    && x.rest == y.rest && x.inComment == y.inComment
    && LinesAt(y) != [] && Follows(x.line, y.line, LinesAt(y)[0]) && Mild(LinesAt(y))
  }

  lemma {:induction false} MildReads(x: Point, y: Point)
    requires Alike(x, y)
    ensures Read(true, x) == Read(false, y)
    decreases |x.rest|
  {
    hide Mild, Returned, Bare;
    if x.rest == "" {
    } else if !x.inComment && x.rest[0] == '\n' {
      MildEnds(x, y);
      var x', y' := Step(true, x), Step(false, y);
      if x'.rest == y'.rest {
        MildReads(x', y');
      } else {
        MildReads(x', Step(false, y'));
        NothingInFront(Read(false, Step(false, y')), []);
      }
    } else {
      MildSteps(x, y);
      MildReads(Step(true, x), Step(false, y));
    }
  }

  /** Inside a line. */
  lemma MildSteps(x: Point, y: Point)
    requires Alike(x, y) && x.rest != "" && (x.inComment || x.rest[0] != '\n')
    ensures Alike(Step(true, x), Step(false, y)) && Ended(x) == Ended(y) == []
  {
    hide Mild, Bare;
    LinesAtStep(y);
    if x.line != y.line { assert forall u: string :: y.line[1..] + u == (y.line + u)[1..]; }
  }

  lemma LinesAtStep(y: Point)
    requires y.rest != "" && (y.inComment || y.rest[0] != '\n')
    ensures LinesAt(Step(false, y)) == LinesAt(y)
  {
    var t := y.rest;
    if y.inComment {
      if StartsWith(t, '*', '/') {
        LinesTwoBlanks(y.line, Blank(t[2..]));
      } else {
        LinesStep(y.line, BlankComment(t));
        assert BlankComment(t)[1..] == BlankComment(t[1..]);
      }
    } else if StartsWith(t, '/', '*') {
      LinesTwoBlanks(y.line, BlankComment(t[2..]));
    } else if StartsWith(t, '\\', '\n') {
      LinesTwoBlanks(y.line, Blank(t[2..]));
    } else {
      LinesStep(y.line, Blank(t));
      assert Blank(t)[1..] == Blank(t[1..]);
    }
  }

  /** At the end of a line: the next one, or the next one but its first character. */
  lemma MildEnds(x: Point, y: Point)
    requires Alike(x, y) && x.rest != "" && !x.inComment && x.rest[0] == '\n'
    ensures Ended(x) == Ended(y)
    ensures var x', y' := Step(true, x), Step(false, y);
            if x'.rest == y'.rest then Alike(x', y')
            else y'.rest != "" && Ended(y') == [] && Alike(x', Step(false, y'))
  {
    var t := x.rest;
    LinesStep(y.line, Blank(t));
    assert Blank(t)[1..] == Blank(t[1..]);
    FirstLine("", Blank(t[1..]));
    MildFirst(y.line, LinesFrom("", Blank(t[1..])));
    assert LinesAt(Step(false, y)) == LinesFrom("", Blank(t[1..]));
    if Bare(x.line) && |t| > 1 {
      assert x.line == y.line;
      MissesOne(Step(true, x), Step(false, y));
    }
  }

  lemma MissesOne(x: Point, y: Point)
    requires !x.inComment && !y.inComment && x.line == "" && y.line == "" && y.rest != "" && x.rest == y.rest[1..]
    requires LinesAt(y) != [] && MayFollow(LinesAt(y)[0]) && Mild(LinesAt(y))
    ensures Ended(y) == [] && Alike(x, Step(false, y))
  {
    hide Mild;
    var t := y.rest;
    if StartsWith(t, '/', '*') {
      LinesTwoBlanks("", BlankComment(t[2..]));
      FirstLine("" + "  ", BlankComment(t[2..]));
      assert false;
    } else if StartsWith(t, '\\', '\n') {
      LinesTwoBlanks("", Blank(t[2..]));
      FirstLine("" + "  ", Blank(t[2..]));
      assert false;
    } else {
      LinesStep("", Blank(t));
      assert Blank(t)[1..] == Blank(t[1..]);
      if t[0] == '\n' {
        FirstLine("", Blank(t[1..]));
        MildFirst("", LinesFrom("", Blank(t[1..])));
      } else {
        assert "" + [t[0]] == [t[0]];
        FirstLine([t[0]], Blank(t[1..]));
      }
    }
  }

  lemma MildFirst(line: string, more: seq<string>)
    requires Mild([line] + more) && more != []
    ensures Mild(more) && (Bare(line) ==> MayFollow(more[0]))
  {
    hide MayFollow, Bare;
    var all := [line] + more;
    assert all[0] == line && all[1] == more[0];
    forall i | 0 <= i < |more| - 1 && Bare(more[i]) ensures MayFollow(more[i + 1]) {
      assert all[i + 1] == more[i] && all[i + 2] == more[i + 1];
    }
  }

  /** However many bare lines there are, if each line behind one is empty, or is no # line with or
      without its first character and does not begin with a blank, the lines are the right ones. */
  lemma ReturnsTheKeptLines(t: string)
    requires Mild(LinesFrom("", Blank(t)))
    ensures AllLines(t) == Kept(LinesFrom("", Blank(t)))
  {
    var start := Point(false, "", t);
    FirstLine("", Blank(t));
    assert Alike(start, start) by { assert LinesAt(start) == LinesFrom("", Blank(t)); }
    hide *;
    MildReads(start, start);
    ScanReads(start);
    TextReads(start);
    KeptFromIsKept("", Blank(t));
    CodedIsAllLines(t);
  }

  // ---- One bare line, exactly -----------------------------------------------------------------

  /** What may stand behind a bare line: c is the character that is not seen, s what comes then. */
  predicate HarmlessBehind(c: char, s: string) {
    if c == '\n' then true
    else if c == '\\' && s != "" && s[0] == '\n' then !IsHash(Blank(s[1..]))
    else !IsHash(Blank(s)) && (c == '#' ==> HashAndBlanks(LinesFrom("", Blank(s))))
  }

  /** With a # in front, the line is bare again, and not the last. */
  predicate HashAndBlanks(lines: seq<string>) {
    |lines| > 1 && Bare("#" + lines[0])
  }

  /** The line that a line is printed as, if it is, when `more` comes behind it. */
  predicate IsKept(line: string, more: seq<string>) {
    if more == [] then IsHash(line) else Returned(line)
  }

  lemma KeptFirst(line: string, more: seq<string>)
    ensures Kept([line] + more) == (if IsKept(line, more) then [line] else []) + Kept(more)
  {
    assert ([line] + more)[1..] == more && [line] + [] == [line];
  }

  lemma KeptOther(x: string, y: string, more: seq<string>)
    ensures Kept([x] + more) == Kept([y] + more) <==> x == y || (!IsKept(x, more) && !IsKept(y, more))
  {
    KeptFirst(x, more);
    KeptFirst(y, more);
    hide Kept, IsKept;
    var k := Kept(more);
    assert |[x] + k| == |k| + 1 && ([x] + k)[0] == x && ([y] + k)[0] == y && [] + k == k;
  }

  lemma {:induction false} LinesWithPrefix(pre: string, rest: string, u: string)
    ensures LinesFrom(rest, u) != []
    ensures LinesFrom(pre + rest, u) == [pre + LinesFrom(rest, u)[0]] + LinesFrom(rest, u)[1..]
    decreases |u|
  {
    if u == "" {
    } else if u[0] == '\n' {
      assert ([rest] + LinesFrom("", u[1..]))[1..] == LinesFrom("", u[1..]);
    } else {
      assert pre + (rest + [u[0]]) == pre + rest + [u[0]];
      LinesWithPrefix(pre, rest + [u[0]], u[1..]);
    }
  }

  lemma HashOfFirst(u: string)
    ensures LinesFrom("", u) != [] && (IsHash(LinesFrom("", u)[0]) <==> IsHash(u))
  {
    FirstLine("", u);
    if u != "" && u[0] != '\n' {
      FirstLine("" + [u[0]], u[1..]);
    }
  }

  /** A blanked text with c in front: the first line gets c, or two blanks with a continuation. */
  lemma BehindLines(c: char, s: string)
    requires !StartsWith([c] + s, '/', '*')
    ensures var lines := LinesFrom("", Blank(s));
            lines != [] && LinesFrom("", Blank([c] + s)) ==
            if c == '\n' then [""] + lines
            else if c == '\\' && s != "" && s[0] == '\n' then LinesFrom("  ", Blank(s[1..]))
            else [[c] + lines[0]] + lines[1..]
  {
    var t := [c] + s;
    assert t[1..] == s;
    FirstLine("", Blank(s));
    if StartsWith(t, '\\', '\n') {
      assert t[2..] == s[1..];
      LinesTwoBlanks("", Blank(s[1..]));
      assert "" + "  " == "  ";
    } else {
      assert ([c] + Blank(s))[1..] == Blank(s);
      LinesStep("", Blank(t));
      LinesWithPrefix([c], "", Blank(s));
      assert [c] + "" == [c] && "" + [c] == [c];
    }
  }

  lemma NoBareIsMild(s: string)
    requires NoBare(LinesFrom("", Blank(s)))
    ensures AllLines(s) == Kept(LinesFrom("", Blank(s)))
  {
    ReturnsTheKeptLines(s);
  }

  /** A bare line is read over, and the character behind it with it. */
  lemma {:induction false} OverBare(pre: string, b: string, t: string)
    requires forall i :: 0 <= i < |b| ==> b[i] == '#' || b[i] == ' ' || b[i] == '\t'
    ensures Coded(pre, b + t) == Coded(pre + b, t) && KeptFrom(pre, Blank(b + t)) == KeptFrom(pre + b, Blank(t))
    decreases |b|
  {
    hide Coded, KeptFrom, Blank;
    if b == "" {
      assert b + t == t && pre + b == pre;
    } else {
      assert (b + t)[1..] == b[1..] + t && (b + t)[0] == b[0];
      CodedStep(pre, b + t);
      KeptStep(pre, b + t);
      OverBare(pre + [b[0]], b[1..], t);
      assert pre + [b[0]] + b[1..] == pre + b;
    }
  }

  lemma BehindBare(b: string, t: string)
    requires Bare(b) && t != ""
    ensures AllLines(b + ("\n" + t)) == AllLines(t[1..])
    ensures Kept(LinesFrom("", Blank(b + ("\n" + t)))) == Kept(LinesFrom("", Blank(t)))
  {
    KeptFromIsKept("", Blank(b + ("\n" + t)));
    KeptFromIsKept("", Blank(t));
    CodedIsAllLines(b + ("\n" + t));
    CodedIsAllLines(t[1..]);
    hide *;
    BareCoded(b, t);
    BareKept(b, t);
  }

  lemma BareCoded(b: string, t: string)
    requires Bare(b) && t != ""
    ensures Coded("", b + ("\n" + t)) == Coded("", t[1..])
  {
    var all := "\n" + t;
    assert all[0] == '\n' && all[1..] == t && "" + b == b && !Returned(b);
    assert CodedLine(b, t) == Coded("", t[1..]) by { hide Coded; }
    hide *;
    OverBare("", b, all);
    CodedStep(b, all);
    NothingInFront(Coded("", t[1..]), []);
  }

  lemma BareKept(b: string, t: string)
    requires Bare(b)
    ensures KeptFrom("", Blank(b + ("\n" + t))) == KeptFrom("", Blank(t))
  {
    var all := "\n" + t;
    assert all[0] == '\n' && all[1..] == t && "" + b == b && !Returned(b);
    assert !StartsWith(all, '/', '*') && !StartsWith(all, '\\', '\n');
    hide *;
    OverBare("", b, all);
    KeptStep(b, all);
    NothingInFront([], KeptFrom("", Blank(t)));
  }

  lemma NothingInFront(a: seq<(string, nat)>, b: seq<(string, nat)>)
    ensures [] + a == a && [] + b == b
  {
  }

  /** A file that begins with a bare line and has no other: unless a comment stands directly behind
      it, the lines returned are the right ones if and only if what stands behind it is harmless. */
  lemma OneBareLineExactly(b: string, c: char, s: string)
    requires Bare(b) && NoBare(LinesFrom("", Blank(s))) && !StartsWith([c] + s, '/', '*')
    ensures var t := b + ("\n" + ([c] + s));
            AllLines(t) == Kept(LinesFrom("", Blank(t))) <==> HarmlessBehind(c, s)
  {
    var lines := LinesFrom("", Blank(s));
    BehindBare(b, [c] + s);
    assert ([c] + s)[1..] == s;
    NoBareIsMild(s);
    BehindLines(c, s);
    HashOfFirst(Blank(s));
    var more := lines[1..];
    assert lines == [lines[0]] + more && !Bare(lines[0]);
    if c == '\n' {
      KeptFirst("", lines);
      assert [] + Kept(lines) == Kept(lines);
    } else if c == '\\' && s != "" && s[0] == '\n' {
      BehindContinuation(s);
    } else {
      assert [c] + lines[0] != lines[0];
      KeptOther([c] + lines[0], lines[0], more);
      assert c == '#' ==> [c] + lines[0] == "#" + lines[0];
    }
  }

  lemma BehindContinuation(s: string)
    requires s != "" && s[0] == '\n' && NoBare(LinesFrom("", Blank(s)))
    ensures Kept(LinesFrom("  ", Blank(s[1..]))) == Kept(LinesFrom("", Blank(s))) <==> !IsHash(Blank(s[1..]))
  {
    var lines := LinesFrom("", Blank(s[1..]));
    EmptyLineFirst(s);
    NoBareFirst("", lines);
    HashOfFirst(Blank(s[1..]));
    LinesWithPrefix("  ", "", Blank(s[1..]));
    var first, more := lines[0], lines[1..];
    assert !Bare(first) && lines == [first] + more && "  " + "" == "  ";
    hide *;
    BlanksInFront(first, more);
  }

  lemma BlanksInFront(first: string, more: seq<string>)
    requires !Bare(first)
    ensures Kept(["  " + first] + more) == Kept([""] + ([first] + more)) <==> !IsHash(first)
  {
    var lines := [first] + more;
    KeptFirst("", lines);
    hide Kept;
    assert [] + Kept(lines) == Kept(lines);
    assert |"  " + first| == 2 + |first| && ("  " + first)[0] == ' ';
    KeptOther("  " + first, first, more);
  }

  lemma EmptyLineFirst(s: string)
    requires s != "" && s[0] == '\n'
    ensures LinesFrom("", Blank(s)) == [""] + LinesFrom("", Blank(s[1..]))
  {
    assert ([s[0]] + Blank(s[1..]))[1..] == Blank(s[1..]);
    LinesStep("", Blank(s));
  }

  /** With a comment behind a bare line, the scan looks into the comment. */
  lemma BareLineOpensAComment()
    ensures AllLines("#\n/*\n#if\n*/\n") == ["#if"] && Kept(LinesFrom("", Blank("#\n/*\n#if\n*/\n"))) == []
  {
    var t := "/*\n#if\n*/\n";
    assert "#\n/*\n#if\n*/\n" == "#" + ("\n" + t);
    BehindBare("#", t);
    CommentAsText(t[1..]);
    CommentAsComment(t);
  }

  lemma CommentAsText(t: string)
    requires t == "*\n#if\n*/\n"
    ensures AllLines(t) == ["#if"]
  {
    assert t[1..] == "\n#if\n*/\n" && t[1..][1..] == "#if\n*/\n" && "" + ['*'] == "*";
    CodedIsAllLines(t);
    CodedIsAllLines("#if\n*/\n");
    CodedStep("", t);
    CodedStep("*", t[1..]);
    BehindIf();
  }

  lemma BehindIf()
    ensures AllLines("#if\n*/\n") == ["#if"]
  {
    var rest := "\n*/\n";
    assert "#if\n*/\n" == "#if" + rest && "" + "#if" == "#if" && rest[0] == '\n' && rest[1..] == "*/\n";
    assert IsHash("#if") && !Bare("#if") by { assert "#if"[1] == 'i'; }
    ReadsPlain("", "#if", rest, 0);
    assert Run("#if", rest, 0) == (Some("#if"), "*/\n", 1);
    BehindStar();
    hide Run;
    assert AllLines("#if" + rest) == ["#if"] + AllLines("*/\n");
  }

  lemma BehindStar()
    ensures AllLines("*/\n") == []
  {
    assert "*/\n" == "*" + "/\n" && "" + "*" == "*" && "/\n"[1..] == "\n" && "\n"[1..] == "" && "*" + ['/'] == "*/";
    ReadsPlain("", "*", "/\n", 0);
    assert Run("*", "/\n", 0) == Run("*/", "\n", 0) == Run("", "", 1);
  }

  function Blanks(n: nat): (b: string)
    ensures |b| == n && forall i :: 0 <= i < n ==> b[i] == ' '
  {
    if n == 0 then "" else " " + Blanks(n - 1)
  }

  lemma {:induction false} CommentBody(x: string, y: string)
    requires '*' !in x
    ensures BlankComment(x + ("*/" + y)) == Blanks(|x|) + ("  " + Blank(y))
  {
    hide Blank;
    var t, tail := x + ("*/" + y), "  " + Blank(y);
    if x == "" {
      assert t == "*/" + y && t[2..] == y;
      assert Blanks(0) + tail == tail;
    } else {
      var rest := x[1..] + ("*/" + y);
      assert t[1..] == rest && t[0] == x[0];
      CommentBody(x[1..], y);
      assert BlankComment(t) == " " + BlankComment(rest);
      hide BlankComment;
      Associates(" ", Blanks(|x| - 1), tail);
    }
  }

  lemma Associates(a: string, b: string, c: string)
    ensures (a + b) + c == a + (b + c)
  {
  }

  lemma CommentAsComment(t: string)
    requires t == "/*\n#if\n*/\n"
    ensures Kept(LinesFrom("", Blank(t))) == []
  {
    var x := "\n#if\n";
    assert t[2..] == x + ("*/" + "\n");
    CommentBody(x, "\n");
    assert "\n"[1..] == "" && Blank("\n") == "\n";
    var b := "  " + (Blanks(|x|) + "  ");
    assert Blank(t) == b + "\n";
    BlanksOnly("", b, "\n");
    assert "" + b == b && b[0] == ' ';
    hide Blank, Blanks;
    LinesStep(b, "\n");
    assert LinesFrom("", "") == [""];
    KeptFirst(b, [""]);
  }

  lemma {:induction false} BlanksOnly(pre: string, b: string, u: string)
    requires forall i :: 0 <= i < |b| ==> b[i] == ' '
    ensures LinesFrom(pre, b + u) == LinesFrom(pre + b, u)
    decreases |b|
  {
    if b == "" {
      assert b + u == u && pre + b == pre;
    } else {
      assert (b + u)[1..] == b[1..] + u && (b + u)[0] == ' ';
      LinesStep(pre, b + u);
      BlanksOnly(pre + [' '], b[1..], u);
      assert pre + [' '] + b[1..] == pre + b;
    }
  }

  // ---- A line that is read as it stands ---------------------------------------------------------

  /** No comment, continuation or newline begins in it. */
  predicate IsPlain(x: string) { '\n' !in x && '/' !in x && '\\' !in x }

  /** A line is returned if it starts with # and holds more than spaces and tabs behind it; one that
      holds no more is lost together with the next character of the file; any other is lost alone. */
  lemma OneLine(x: string, t: string)
    requires IsPlain(x)
    ensures AllLines(x + "\n" + t) ==
            if x == "" || x[0] != '#' then AllLines(t)
            else if exists k :: 0 < k < |x| && x[k] != ' ' && x[k] != '\t' then [x] + AllLines(t)
            else if t == "" then [] else AllLines(t[1..])
  {
    OneLineRun(x, t);
    assert x != "" && x[0] == '#' ==> (Bare(x) <==> !exists k :: 0 < k < |x| && x[k] != ' ' && x[k] != '\t');
    hide Bare;
    SameLines(t);
    SameLines(if t == "" then "" else t[1..]);
    NoLines();
  }

  lemma OneLineRun(x: string, t: string)
    requires IsPlain(x)
    ensures Run("", x + "\n" + t, 0) ==
            if !IsHash(x) then Run("", t, 1)
            else if !Bare(x) then (Some(x), t, 1)
            else if t == "" then (None, "", 1) else Run("", t[1..], 1)
  {
    var u := "\n" + t;
    assert x + "\n" + t == x + u;
    ReadsPlain("", x, u, 0);
    assert "" + x == x && u[1..] == t && (t != "" ==> u[2..] == t[1..]);
    hide Bare;
    RunStep(x, u, 0);
  }

  /** The calls on a text, when the first one starts at line 1. */
  lemma SameLines(t: string)
    ensures var r := Run("", t, 1); AllLines(t) == if r.0.None? then [] else [r.0.value] + AllLines(r.1)
  {
    LineNumbersOnly("", t, 0, 1);
  }

  lemma NoLines()
    ensures AllLines("") == []
  {
  }

  /** The last line of a file, with no newline behind it, is returned whatever follows its #. */
  lemma LastLine(x: string)
    requires IsPlain(x)
    ensures AllLines(x) == if x != "" && x[0] == '#' then [x] else []
  {
    ReadsPlain("", x, "", 0);
    assert x + "" == x && "" + x == x;
    NoLines();
    assert [x] + [] == [x];
  }
}
