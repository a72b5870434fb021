/** remove_dotdot of makedepend's include.c: removing `x/..` from a path. */
module DotDot {
  import opened Options

  const MAXFILES := 512

  /** Is a component a symbolic link?  issymbolic is always asked about a component of the empty
      path or of the root directory, so the answer depends on the component alone. */
  type Symbolic = string -> bool

  /** A component that a following `..` removes. */
  predicate Removable(symbolic: Symbolic, c: string) {
    c != "." && c != ".." && !symbolic(c)
  }

  // ---- The specification: a stack -------------------------------------------------------------

  function FoldFrom(symbolic: Symbolic, stack: seq<string>, cs: seq<string>): seq<string>
    decreases |cs|
  {
    if cs == [] then stack
    else if cs[0] == ".." && stack != [] && Removable(symbolic, stack[|stack| - 1])
    then FoldFrom(symbolic, stack[..|stack| - 1], cs[1..])
    else FoldFrom(symbolic, stack + [cs[0]], cs[1..])
  }

  /** Go through the components; `..` takes the last one off if it can be removed. */
  function Fold(symbolic: Symbolic, cs: seq<string>): seq<string> {
    FoldFrom(symbolic, [], cs)
  }

  predicate Pair(symbolic: Symbolic, cs: seq<string>, i: nat) {
    i + 1 < |cs| && cs[i] != "." && cs[i] != ".." && !symbolic(cs[i]) && cs[i + 1] == ".."
  }

  ghost predicate Irreducible(symbolic: Symbolic, cs: seq<string>) {
    forall i: nat :: !Pair(symbolic, cs, i)
  }

  lemma {:induction false} FoldSplits(symbolic: Symbolic, stack: seq<string>, a: seq<string>, b: seq<string>)
    ensures FoldFrom(symbolic, stack, a + b) == FoldFrom(symbolic, FoldFrom(symbolic, stack, a), b)
    decreases |a|
  {
    if a == [] {
      assert a + b == b;
    } else {
      assert (a + b)[0] == a[0] && (a + b)[1..] == a[1..] + b;
      if a[0] == ".." && stack != [] && Removable(symbolic, stack[|stack| - 1]) {
        FoldSplits(symbolic, stack[..|stack| - 1], a[1..], b);
      } else {
        FoldSplits(symbolic, stack + [a[0]], a[1..], b);
      }
    }
  }

  /** Removing one pair anywhere does not change the result. */
  lemma RemovePair(symbolic: Symbolic, a: seq<string>, x: string, b: seq<string>)
    requires x != "." && x != ".." && !symbolic(x)
    ensures Fold(symbolic, a + ([x, ".."] + b)) == Fold(symbolic, a + b)
  {
    var s := FoldFrom(symbolic, [], a);
    var t := [x, ".."] + b;
    FoldSplits(symbolic, [], a, t);
    FoldSplits(symbolic, [], a, b);
    assert t[1..][0] == ".." && t[1..][1..] == b;
    assert (s + [x])[..|s|] == s;
  }

  lemma {:induction false} FoldOfIrreducible(symbolic: Symbolic, stack: seq<string>, cs: seq<string>)
    requires Irreducible(symbolic, stack + cs)
    ensures FoldFrom(symbolic, stack, cs) == stack + cs
    decreases |cs|
  {
    if cs == [] {
      assert stack + cs == stack;
    } else {
      if stack != [] { assert !Pair(symbolic, stack + cs, |stack| - 1); }
      assert stack + [cs[0]] + cs[1..] == stack + cs;
      FoldOfIrreducible(symbolic, stack + [cs[0]], cs[1..]);
    }
  }

  lemma IrreducibleStays(symbolic: Symbolic, cs: seq<string>)
    requires Irreducible(symbolic, cs)
    ensures Fold(symbolic, cs) == cs
  {
    assert [] + cs == cs;
    FoldOfIrreducible(symbolic, [], cs);
  }

  lemma {:induction false} FoldIsIrreducible(symbolic: Symbolic, stack: seq<string>, cs: seq<string>)
    requires Irreducible(symbolic, stack)
    ensures Irreducible(symbolic, FoldFrom(symbolic, stack, cs))
    decreases |cs|
  {
    if cs != [] {
      if cs[0] == ".." && stack != [] && Removable(symbolic, stack[|stack| - 1]) {
        var s := stack[..|stack| - 1];
        forall i: nat ensures !Pair(symbolic, s, i) { assert !Pair(symbolic, stack, i); }
        FoldIsIrreducible(symbolic, s, cs[1..]);
      } else {
        var s := stack + [cs[0]];
        forall i: nat ensures !Pair(symbolic, s, i) { assert !Pair(symbolic, stack, i); }
        FoldIsIrreducible(symbolic, s, cs[1..]);
      }
    }
  }

  /** The result has no removable pair left, and removing again changes nothing. */
  lemma FoldIsNormal(symbolic: Symbolic, cs: seq<string>)
    ensures Irreducible(symbolic, Fold(symbolic, cs))
    ensures Fold(symbolic, Fold(symbolic, cs)) == Fold(symbolic, cs)
  {
    var r := Fold(symbolic, cs);
    FoldIsIrreducible(symbolic, [], cs);
    IrreducibleStays(symbolic, r);
  }

  // ---- What a path means ----------------------------------------------------------------------

  /** A directory is the list of names that leads to it from the root; a link is the place it leads
      to. */
  type Dir = seq<string>
  type Links = map<Dir, Dir>

  function Parent(d: Dir): Dir {
    if d == [] then [] else d[..|d| - 1]
  }

  function Enter(links: Links, d: Dir, c: string): Dir {
    if c == "." then d
    else if c == ".." then Parent(d)
    else if d + [c] in links then links[d + [c]] else d + [c]
  }

  function Walk(links: Links, d: Dir, cs: seq<string>): Dir
    decreases |cs|
  {
    if cs == [] then d else Walk(links, Enter(links, d, cs[0]), cs[1..])
  }

  lemma {:induction false} WalkSplits(links: Links, d: Dir, a: seq<string>, b: seq<string>)
    ensures Walk(links, d, a + b) == Walk(links, Walk(links, d, a), b)
    decreases |a|
  {
    if a == [] {
      assert a + b == b;
    } else {
      assert (a + b)[0] == a[0] && (a + b)[1..] == a[1..] + b;
      WalkSplits(links, Enter(links, d, a[0]), a[1..], b);
    }
  }

  /** A place where a link that is not taken for one leads out of the directory it stands in. */
  ghost predicate LeadsAway(symbolic: Symbolic, links: Links, d: Dir, c: string) {
    d + [c] in links && c != "." && c != ".." && !symbolic(c) && Parent(links[d + [c]]) != d
  }

  lemma {:induction false} FoldMeansTheSame(symbolic: Symbolic, links: Links, d: Dir, stack: seq<string>,
                                            cs: seq<string>)
    requires forall e: Dir, c: string :: !LeadsAway(symbolic, links, e, c)
    ensures Walk(links, d, FoldFrom(symbolic, stack, cs)) == Walk(links, Walk(links, d, stack), cs)
    decreases |cs|
  {
    if cs != [] {
      if cs[0] == ".." && stack != [] && Removable(symbolic, stack[|stack| - 1]) {
        var s, x := stack[..|stack| - 1], stack[|stack| - 1];
        assert stack == s + [x];
        WalkSplits(links, d, s, [x]);
        var e := Walk(links, d, s);
        assert !LeadsAway(symbolic, links, e, x);
        assert Walk(links, e, [x]) == Enter(links, e, x);
        assert Parent(e + [x]) == e;
        FoldMeansTheSame(symbolic, links, d, s, cs[1..]);
      } else {
        WalkSplits(links, d, stack, [cs[0]]);
        assert Walk(links, Walk(links, d, stack), [cs[0]]) == Enter(links, Walk(links, d, stack), cs[0]);
        FoldMeansTheSame(symbolic, links, d, stack + [cs[0]], cs[1..]);
      }
    }
  }

  /** From every directory, the reduced path leads where the path led, if no unnoticed link leads
      away; in particular where there are no links, or every link is taken for one. */
  lemma LeadsToTheSamePlace(symbolic: Symbolic, links: Links, d: Dir, cs: seq<string>)
    requires forall e: Dir, c: string :: !LeadsAway(symbolic, links, e, c)
    ensures Walk(links, d, Fold(symbolic, cs)) == Walk(links, d, cs)
  {
    FoldMeansTheSame(symbolic, links, d, [], cs);
  }

  /** What issymbolic knows: the links in one directory. */
  function LinksIn(links: Links, base: Dir): Symbolic {
    (c: string) => base + [c] in links
  }

  /** That is not always enough: `l` is a link inside `a`, and `a/l/../f` becomes `a/f`. */
  lemma NestedLinkIsLost()
    ensures var links: Links := map[["a", "l"] := ["b", "c"]];
            && Fold(LinksIn(links, []), ["a", "l", "..", "f"]) == ["a", "f"]
            && Walk(links, [], ["a", "f"]) == ["a", "f"]
            && Walk(links, [], ["a", "l", "..", "f"]) == ["b", "f"]
  {
    var links: Links := map[["a", "l"] := ["b", "c"]];
    var s, p := LinksIn(links, []), ["a", "l", "..", "f"];
    assert ["a"] + ([("l"), ".."] + ["f"]) == p;
    assert [] + ["l"] != ["a", "l"] && |[] + ["l"]| == 1;
    RemovePair(s, ["a"], "l", ["f"]);
    assert ["a"] + ["f"] == ["a", "f"];
    forall i: nat ensures !Pair(s, ["a", "f"], i) {}
    IrreducibleStays(s, ["a", "f"]);
    WalkTwo(links, "a", "f");
    WalkFour(links);
  }

  lemma WalkTwo(links: Links, a: string, f: string)
    requires a != "." && a != ".." && f != "." && f != ".." && [a] !in links && [a, f] !in links
    ensures Walk(links, [], [a, f]) == [a, f]
  {
    assert [] + [a] == [a] && [a] + [f] == [a, f];
    assert [a, f][1..] == [f] && [f][1..] == [];
    assert Walk(links, [a, f], []) == [a, f];
  }

  lemma WalkFour(links: Links)
    requires links == map[["a", "l"] := ["b", "c"]]
    ensures Walk(links, [], ["a", "l", "..", "f"]) == ["b", "f"]
  {
    var p := ["a", "l", "..", "f"];
    assert p[1..] == ["l", "..", "f"] && p[1..][1..] == ["..", "f"] && p[1..][1..][1..] == ["f"] &&
        p[1..][1..][1..][1..] == [];
    assert [] + ["a"] == ["a"] && ["a"] + ["l"] == ["a", "l"] && ["b", "c"][..1] == ["b"] &&
        ["b"] + ["f"] == ["b", "f"];
    assert Walk(links, ["b", "f"], []) == ["b", "f"];
    assert Walk(links, ["b"], ["f"]) == ["b", "f"];
    assert Walk(links, ["b", "c"], ["..", "f"]) == ["b", "f"];
    assert Walk(links, ["a"], ["l", "..", "f"]) == ["b", "f"];
  }

  /** Reducing keeps the meaning of every path in every directory if and only if no link that
      issymbolic does not notice leads away from the directory it stands in. */
  lemma KeepsEveryPlaceExactly(symbolic: Symbolic, links: Links)
    ensures (forall d: Dir, cs: seq<string> :: Walk(links, d, Fold(symbolic, cs)) == Walk(links, d, cs))
       <==> (forall d: Dir, c: string :: !LeadsAway(symbolic, links, d, c))
  {
    if forall d: Dir, c: string :: !LeadsAway(symbolic, links, d, c) {
      forall d: Dir, cs: seq<string> ensures Walk(links, d, Fold(symbolic, cs)) == Walk(links, d, cs) {
        LeadsToTheSamePlace(symbolic, links, d, cs);
      }
    } else {
      var d: Dir, c: string :| LeadsAway(symbolic, links, d, c);
      PairLeadsAway(symbolic, links, d, c);
    }
  }

  lemma PairLeadsAway(symbolic: Symbolic, links: Links, d: Dir, c: string)
    requires LeadsAway(symbolic, links, d, c)
    ensures Walk(links, d, Fold(symbolic, [c, ".."])) != Walk(links, d, [c, ".."])
  {
    var none: seq<string> := [];
    RemovePair(symbolic, none, c, none);
    assert none + ([c, ".."] + none) == [c, ".."] && none + none == none;
    assert Fold(symbolic, none) == none && Walk(links, d, none) == d;
    assert [c, ".."][1..] == [".."] && [".."][1..] == none;
    assert Walk(links, Enter(links, d, c), [".."]) == Walk(links, Parent(links[d + [c]]), none);
  }

  /** For the links that issymbolic does look at, those in one directory: every path keeps its
      meaning if and only if every link anywhere, except those whose name is a link in that
      directory too, leads to a place in the directory it stands in. */
  lemma KeepsEveryPlaceAsAsked(links: Links, base: Dir)
    ensures (forall d: Dir, cs: seq<string> :: Walk(links, d, Fold(LinksIn(links, base), cs)) == Walk(links, d, cs))
       <==> (forall d: Dir, c: string :: d + [c] in links && c != "." && c != ".." && base + [c] !in links ==>
               Parent(links[d + [c]]) == d)
  {
    KeepsEveryPlaceExactly(LinksIn(links, base), links);
    forall d: Dir, c: string
      ensures LeadsAway(LinksIn(links, base), links, d, c) <==>
              d + [c] in links && c != "." && c != ".." && base + [c] !in links && Parent(links[d + [c]]) != d
    {
    }
  }

  // ---- Paths as text --------------------------------------------------------------------------

  /** The length of the first component. */
  function Span(path: string): (n: nat)
    ensures n <= |path| && (forall i :: 0 <= i < n ==> path[i] != '/') && (n < |path| ==> path[n] == '/')
  {
    if path == "" || path[0] == '/' then 0 else 1 + Span(path[1..])
  }

  function SkipSlashes(path: string): (r: string)
    ensures |r| <= |path| && (r != "" ==> r[0] != '/')
  {
    if path != "" && path[0] == '/' then SkipSlashes(path[1..]) else path
  }

  /** The components: runs of slashes separate, and an empty one in front is dropped. */
  function Split(path: string): seq<string>
    decreases |path|
  {
    var n := Span(path);
    if n == |path| then [path]
    else (if n == 0 then [] else [path[..n]]) + Split(SkipSlashes(path[n + 1..]))
  }

  function Join(cs: seq<string>): string {
    if cs == [] then "" else if |cs| == 1 then cs[0] else cs[0] + "/" + Join(cs[1..])
  }

  predicate IsAbsolute(path: string) { path != "" && path[0] == '/' }

  /** remove_dotdot as a function. */
  function Normalize(symbolic: Symbolic, path: string): string {
    (if IsAbsolute(path) then "/" else "") + Join(Fold(symbolic, Split(path)))
  }

  predicate IsName(c: string) {
    c != "" && forall i :: 0 <= i < |c| ==> c[i] != '/'
  }

  ghost predicate AllNames(cs: seq<string>) {
    forall i :: 0 <= i < |cs| ==> IsName(cs[i])
  }

  lemma {:induction false} SpanOf(c: string, rest: string)
    requires (forall i :: 0 <= i < |c| ==> c[i] != '/') && (rest == "" || rest[0] == '/')
    ensures Span(c + rest) == |c|
  {
    if c == "" {
      assert c + rest == rest;
    } else {
      assert (c + rest)[1..] == c[1..] + rest;
      SpanOf(c[1..], rest);
    }
  }

  lemma SplitOne(c: string)
    requires IsName(c)
    ensures Split(c) == [c]
  {
    SpanOf(c, "");
    assert c + "" == c;
  }

  /** A name in front of more. */
  lemma SplitFirst(c: string, rest: string)
    requires IsName(c) && rest != "" && rest[0] != '/'
    ensures Split(c + ("/" + rest)) == [c] + Split(rest)
  {
    SpanOf(c, "/" + rest);
    AroundSlash(c, rest);
    assert SkipSlashes(rest) == rest;
    hide Span, SkipSlashes, IsName;
  }

  lemma AroundSlash(c: string, rest: string)
    ensures var path := c + ("/" + rest);
            |path| == |c| + 1 + |rest| && path[..|c|] == c && path[|c| + 1..] == rest
  {
  }

  lemma {:induction false} SplitJoin(cs: seq<string>)
    requires AllNames(cs) && cs != []
    ensures Split(Join(cs)) == cs && Join(cs) != "" && Join(cs)[0] != '/'
    decreases |cs|
  {
    hide Split;
    var more := cs[1..];
    assert cs == [cs[0]] + more;
    if more == [] {
      SplitOne(cs[0]);
    } else {
      SplitJoin(more);
      SplitFirst(cs[0], Join(more));
      assert Join(cs) == cs[0] + ("/" + Join(more));
    }
  }

  lemma {:induction false} SplitNames(path: string)
    requires path != "" && path[|path| - 1] != '/'
    ensures AllNames(Split(path)) && Split(path) != []
    decreases |path|
  {
    var n := Span(path);
    if n < |path| {
      var tail := path[n + 1..];
      SkipSlashesKeepsEnd(tail);
      SplitNames(SkipSlashes(tail));
    }
  }

  lemma {:induction false} SkipSlashesKeepsEnd(p: string)
    requires p != "" && p[|p| - 1] != '/'
    ensures var r := SkipSlashes(p); r != "" && r[|r| - 1] == p[|p| - 1]
  {
    if p[0] == '/' { SkipSlashesKeepsEnd(p[1..]); }
  }

  lemma {:induction false} FoldKeepsNames(symbolic: Symbolic, stack: seq<string>, cs: seq<string>)
    requires AllNames(stack) && AllNames(cs)
    ensures AllNames(FoldFrom(symbolic, stack, cs))
    decreases |cs|
  {
    if cs != [] {
      if cs[0] == ".." && stack != [] && Removable(symbolic, stack[|stack| - 1]) {
        FoldKeepsNames(symbolic, stack[..|stack| - 1], cs[1..]);
      } else {
        FoldKeepsNames(symbolic, stack + [cs[0]], cs[1..]);
      }
    }
  }

  /** On paths the text comes back to its components, and reducing the text again changes nothing,
      unless nothing but the root is left. */
  lemma NormalizeIsIdempotent(symbolic: Symbolic, path: string)
    requires path != "" && path[|path| - 1] != '/'
    ensures Fold(symbolic, Split(path)) != [] ==>
              Split(Normalize(symbolic, path)) == Fold(symbolic, Split(path))
              && Normalize(symbolic, Normalize(symbolic, path)) == Normalize(symbolic, path)
    ensures Fold(symbolic, Split(path)) == [] ==> Normalize(symbolic, path) == if IsAbsolute(path) then "/" else ""
  {
    var cs, again := Fold(symbolic, Split(path)), Normalize(symbolic, path);
    SplitNames(path);
    FoldKeepsNames(symbolic, [], Split(path));
    FoldIsNormal(symbolic, Split(path));
    assert again == (if IsAbsolute(path) then "/" else "") + Join(cs);
    if cs != [] {
      assert AllNames(cs);
      hide Fold, AllNames, Split, Join;
      SplitRooted(IsAbsolute(path), cs);
      assert Normalize(symbolic, again) == (if IsAbsolute(again) then "/" else "") + Join(Fold(symbolic, Split(again)));
    }
  }

  /** Slicing a joined path, with a slash in front or not. */
  lemma SplitRooted(absolute: bool, cs: seq<string>)
    requires AllNames(cs) && cs != []
    ensures var path := (if absolute then "/" else "") + Join(cs);
            Split(path) == cs && IsAbsolute(path) == absolute
  {
    SplitJoin(cs);
    var t := Join(cs);
    hide Join, AllNames;
    if absolute {
      assert ("/" + t)[1..] == t && SkipSlashes(t) == t;
      assert Span("/" + t) == 0;
      assert [] + Split(t) == Split(t);
    } else {
      assert "" + t == t;
    }
  }

  // ---- What the text means --------------------------------------------------------------------

  /** Where a path leads from a working directory. */
  function Place(links: Links, cwd: Dir, path: string): Dir {
    Walk(links, if IsAbsolute(path) then [] else cwd, Split(path))
  }

  /** The text returned leads where the text given led, from every directory, unless nothing is left
      of it: then the path led to where it started, and the text is that of the root or empty. */
  lemma TextLeadsToTheSamePlace(symbolic: Symbolic, links: Links, cwd: Dir, path: string)
    requires path != "" && path[|path| - 1] != '/'
    requires forall e: Dir, c: string :: !LeadsAway(symbolic, links, e, c)
    ensures var text := Normalize(symbolic, path);
            if Fold(symbolic, Split(path)) != [] then Place(links, cwd, text) == Place(links, cwd, path)
            else text == (if IsAbsolute(path) then "/" else "") &&
                 Place(links, cwd, path) == if IsAbsolute(path) then [] else cwd
  {
    var cs := Fold(symbolic, Split(path));
    NormalizeIsIdempotent(symbolic, path);
    LeadsToTheSamePlace(symbolic, links, if IsAbsolute(path) then [] else cwd, Split(path));
    if cs != [] {
      SplitNames(path);
      FoldKeepsNames(symbolic, [], Split(path));
      SplitJoin(cs);
      assert !IsAbsolute(Join(cs));
    }
  }

  /** The empty text is returned for every x/.. that can be reduced: no file has that name. */
  lemma NothingIsLeft(symbolic: Symbolic, x: string)
    requires IsName(x) && x != "." && x != ".." && !symbolic(x)
    ensures Normalize(symbolic, x + "/..") == ""
  {
    var none: seq<string> := [];
    SplitJoin([x, ".."]);
    assert [x, ".."][1..] == [".."];
    assert Join([x, ".."]) == x + "/" + ".." == x + "/..";
    RemovePair(symbolic, none, x, none);
    assert none + ([x, ".."] + none) == [x, ".."] && none + none == none;
  }

  // ---- The code -------------------------------------------------------------------------------

  /** The inner loop of the slicing: over a run of slashes. */
  method SkipRun(path: string, slash: nat) returns (end: nat)
    requires slash < |path| && path[slash] == '/'
    ensures slash < end <= |path| && path[end - 1] == '/' && (end < |path| ==> path[end] != '/')
    ensures path[end..] == SkipSlashes(path[slash + 1..])
  {
    end := slash + 1;
    while end < |path| && path[end] == '/'
      invariant slash < end <= |path| && path[end - 1] == '/'
      invariant SkipSlashes(path[end..]) == SkipSlashes(path[slash + 1..])
    {
      assert path[end..][1..] == path[end + 1..];
      end := end + 1;
    }
  }

  /** Slice the path into components.  After a run of slashes the scan skips a character unseen,
      which must not be the terminator. */
  method Slice(path: string) returns (cs: seq<string>)
    requires path == "" || path[|path| - 1] != '/'
    ensures cs == Split(path)
  {
    hide Split, SkipSlashes, Span;
    cs := [];
    var from, end := 0, 0;
    assert path[0..] == path && [] + Split(path) == Split(path);
    while end < |path|
      invariant from <= end <= |path|
      invariant forall i :: from <= i < end ==> path[i] != '/'
      invariant cs + Split(path[from..]) == Split(path)
    {
      if path[end] == '/' {
        var slash := end;
        end := SkipRun(path, slash);
        SplitAt(path[from..], slash - from);
        assert path[from..][slash - from + 1..] == path[slash + 1..];
        if slash > from {
          assert path[from..][..slash - from] == path[from..slash];
          assert cs + ([path[from..slash]] + Split(path[end..])) == cs + [path[from..slash]] + Split(path[end..]);
          cs := cs + [path[from..slash]];
        } else {
          assert [] + Split(path[end..]) == Split(path[end..]);
        }
        from := end;
      }
      end := end + 1;
    }
    SplitLast(path[from..]);
    cs := cs + [path[from..]];
  }

  lemma SplitAt(p: string, n: nat)
    requires n < |p| && p[n] == '/' && forall i :: 0 <= i < n ==> p[i] != '/'
    ensures Split(p) == (if n == 0 then [] else [p[..n]]) + Split(SkipSlashes(p[n + 1..]))
  {
    assert p == p[..n] + p[n..];
    SpanOf(p[..n], p[n..]);
  }

  lemma SplitLast(p: string)
    requires forall i :: 0 <= i < |p| ==> p[i] != '/'
    ensures Split(p) == [p]
  {
    assert p + "" == p;
    SpanOf(p, "");
  }

  /** The array of component pointers holds `cs` and a terminating NULL. */
  ghost predicate Holds(components: array<Option<string>>, cs: seq<string>)
    reads components
  {
    && |cs| < components.Length
    && (forall i :: 0 <= i < |cs| ==> components[i] == Some(cs[i]))
    && components[|cs|] == None
  }

  /** Move the pointers behind a pair down over it, with the NULL. */
  method CloseGap(components: array<Option<string>>, cp: nat, ghost cs: seq<string>)
    requires Holds(components, cs) && cp + 1 < |cs|
    modifies components
    ensures Holds(components, cs[..cp] + cs[cp + 2..])
  {
    var fp, tp := cp + 2, cp;
    while true
      invariant fp == tp + 2 && cp <= tp && fp <= |cs|
      invariant forall i :: 0 <= i < cp ==> components[i] == Some(cs[i])
      invariant forall i :: cp <= i < tp ==> components[i] == Some(cs[i + 2])
      invariant forall i :: tp <= i < |cs| ==> components[i] == Some(cs[i])
      invariant components[|cs|] == None
      decreases |cs| - fp
    {
      components[tp] := components[fp];
      if components[fp] == None { break; }
      tp, fp := tp + 1, fp + 1;
    }
  }

  /** The backtracking loop, on the array, is the stack. */
  method Reduce(components: array<Option<string>>, symbolic: Symbolic, ghost cs: seq<string>)
    requires Holds(components, cs)
    modifies components
    ensures Holds(components, Fold(symbolic, cs))
  {
    hide Fold;
    ghost var now := cs;
    var cp := 0;
    while components[cp] != None
      invariant Holds(components, now) && cp <= |now|
      invariant Fold(symbolic, now) == Fold(symbolic, cs)
      invariant forall i: nat :: i < cp ==> !Pair(symbolic, now, i)
      decreases |now|, |now| - cp
    {
      var c := components[cp].value;
      if c != "." && c != ".." && components[cp + 1] == Some("..") && !symbolic(c) {
        ghost var less := now[..cp] + now[cp + 2..];
        assert now == now[..cp] + ([c, ".."] + now[cp + 2..]);
        RemovePair(symbolic, now[..cp], c, now[cp + 2..]);
        CloseGap(components, cp, now);
        forall i: nat | i + 1 < cp ensures !Pair(symbolic, less, i) { assert !Pair(symbolic, now, i); }
        now := less;
        if cp != 0 {
          cp := cp - 1;
        }
      } else {
        cp := cp + 1;
      }
    }
    forall i: nat ensures !Pair(symbolic, now, i) {}
    IrreducibleStays(symbolic, now);
  }

  lemma JoinFrom(cs: seq<string>, cp: nat)
    requires cp < |cs|
    ensures Join(cs[cp..]) == cs[cp] + (if cp + 1 == |cs| then "" else "/") + Join(cs[cp + 1..])
  {
    assert cs[cp..][0] == cs[cp] && cs[cp..][1..] == cs[cp + 1..];
  }

  lemma ConcatenateStep(to: string, sep: string, c: string, next: string, rest: string)
    ensures to + sep + (c + next + rest) == to + sep + c + next + rest
  {
  }

  method Concatenate(components: array<Option<string>>, ghost cs: seq<string>) returns (to: string)
    requires Holds(components, cs)
    ensures to == Join(cs)
  {
    to := "";
    var copied := false;
    var cp := 0;
    while components[cp] != None
      invariant cp <= |cs| && copied == (cp > 0)
      invariant Join(cs) == to + (if cp == 0 then "" else if cp == |cs| then "" else "/") + Join(cs[cp..])
      decreases |cs| - cp
    {
      var sep := if copied then "/" else "";
      copied := true;
      JoinFrom(cs, cp);
      ConcatenateStep(to, sep, cs[cp], if cp + 1 == |cs| then "" else "/", Join(cs[cp + 1..]));
      to := to + sep + components[cp].value;
      cp := cp + 1;
    }
  }

  /** remove_dotdot. */
  method RemoveDotdot(path: string, symbolic: Symbolic) returns (newpath: string)
    requires path == "" || path[|path| - 1] != '/'
    requires |Split(path)| < MAXFILES
    ensures newpath == Normalize(symbolic, path)
  {
    var cs := Slice(path);
    var components := new Option<string>[MAXFILES](i => if 0 <= i < |cs| then Some(cs[i]) else None);
    Reduce(components, symbolic, cs);
    var joined := Concatenate(components, Fold(symbolic, cs));
    newpath := (if path != "" && path[0] == '/' then "/" else "") + joined;
  }
}
