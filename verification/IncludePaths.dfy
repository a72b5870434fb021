/** Paths of inclusions, and the lookup of a symbol along them.  Include graphs may be cyclic. */
module IncludePaths {
  import opened Options
  import opened SymbolTable

  /** What the record of one file says, apart from the flags that only searches use. */
  datatype Slot = Slot(
    incstring: CString,
    file: CString,
    list: seq<nat>,
    symbols: map<CString, CString>,
    searched: bool,
    includedSym: bool)

  /** The records of inclist, by slot number. */
  type Slots = seq<Slot>

  predicate Inside(g: Slots, fs: seq<nat>) {
    forall i :: 0 <= i < |fs| ==> fs[i] < |g|
  }

  predicate Closed(g: Slots) {
    forall f :: 0 <= f < |g| ==> Inside(g, g[f].list)
  }

  ghost function Below(n: nat): (s: set<nat>)
    ensures forall f: nat :: f in s <==> f < n
  {
    if n == 0 then {} else Below(n - 1) + {n - 1}
  }

  ghost function Nodes(g: Slots): set<nat> { Below(|g|) }

  ghost predicate Path(g: Slots, avoid: set<nat>, a: nat, b: nat, p: seq<nat>) {
    && |p| > 0 && p[0] == a && p[|p| - 1] == b
    && (forall i :: 0 <= i < |p| ==> p[i] < |g| && p[i] !in avoid)
    && (forall i, j :: 0 <= i && j == i + 1 && j < |p| ==> p[j] in g[p[i]].list)
  }

  /** `b` is reached from `a` by a path of inclusions on which no file of `avoid` lies. */
  ghost predicate Reaches(g: Slots, avoid: set<nat>, a: nat, b: nat) {
    exists p :: Path(g, avoid, a, b, p)
  }

  /** A path that leaves `a` for another file leaves it for good at some point. */
  lemma {:induction false} LeaveForGood(g: Slots, avoid: set<nat>, a: nat, b: nat, p: seq<nat>) returns (x: nat)
    requires Path(g, avoid, a, b, p) && a != b
    ensures a < |g| && x in g[a].list && Reaches(g, avoid + {a}, x, b)
    decreases |p|
  {
    if a in p[1..] {
      var k :| 0 <= k < |p| - 1 && p[1..][k] == a;
      var q := p[k + 1..];
      assert forall i :: 0 <= i < |q| ==> q[i] == p[k + 1 + i];
      x := LeaveForGood(g, avoid, a, b, q);
    } else {
      var q := p[1..];
      x := q[0];
      assert forall i :: 0 <= i < |q| ==> q[i] == p[1 + i];
      assert p[1] in g[p[0]].list;
      assert Path(g, avoid + {a}, x, b, q);
    }
  }

  lemma ExtendPath(g: Slots, avoid: set<nat>, a: nat, x: nat, b: nat)
    requires a < |g| && a !in avoid && x in g[a].list && Reaches(g, avoid + {a}, x, b)
    ensures Reaches(g, avoid, a, b)
  {
    var p :| Path(g, avoid + {a}, x, b, p);
    var q := [a] + p;
    assert forall i :: 0 <= i < |p| ==> q[i + 1] == p[i];
    assert Path(g, avoid, a, b, q);
  }

  lemma Here(g: Slots, avoid: set<nat>, a: nat)
    requires a < |g| && a !in avoid
    ensures Reaches(g, avoid, a, a)
  {
    assert Path(g, avoid, a, a, [a]);
  }

  // ---- What fdefined finds --------------------------------------------------------------------

  /** The file fdefined finds a definition in, when the files of `onStack` have i_defchecked set. */
  function Found(g: Slots, symbol: CString, onStack: set<nat>, f: nat): (r: Option<nat>)
    ensures r.Some? ==> r.value < |g|
    decreases Nodes(g) - onStack, 0, 0
  {
    if f >= |g| || f in onStack then None
    else if symbol in g[f].symbols then Some(f)
    else FoundIn(g, symbol, onStack + {f}, g[f].list)
  }

  /** ... and the loop over the files it includes. */
  function FoundIn(g: Slots, symbol: CString, onStack: set<nat>, fs: seq<nat>): (r: Option<nat>)
    ensures r.Some? ==> r.value < |g|
    decreases Nodes(g) - onStack, 1, |fs|
  {
    if fs == [] then None
    else
      var r := Found(g, symbol, onStack, fs[0]);
      if r.Some? then r else FoundIn(g, symbol, onStack, fs[1..])
  }

  ghost predicate Defines(g: Slots, symbol: CString, avoid: set<nat>, f: nat, b: nat) {
    b < |g| && symbol in g[b].symbols && Reaches(g, avoid, f, b)
  }

  /** The on-stack search is complete although it keeps no set of visited files: it finds a
      definition exactly when some file reachable without passing the stack has one, and names such
      a file. */
  lemma {:induction false} FoundIsReachable(g: Slots, symbol: CString, onStack: set<nat>, f: nat)
    ensures var r := Found(g, symbol, onStack, f);
            && (r.Some? ==> Defines(g, symbol, onStack, f, r.value))
            && (r.None? ==> forall b :: !Defines(g, symbol, onStack, f, b))
    decreases Nodes(g) - onStack, 0, 0
  {
    if f >= |g| || f in onStack {
    } else if symbol in g[f].symbols {
      Here(g, onStack, f);
    } else {
      var r := FoundIn(g, symbol, onStack + {f}, g[f].list);
      FoundInIsReachable(g, symbol, onStack + {f}, g[f].list);
      if r.Some? {
        var x :| x in g[f].list && Defines(g, symbol, onStack + {f}, x, r.value);
        ExtendPath(g, onStack, f, x, r.value);
      } else {
        forall b ensures !Defines(g, symbol, onStack, f, b) {
          if Defines(g, symbol, onStack, f, b) {
            var p :| Path(g, onStack, f, b, p);
            var x := LeaveForGood(g, onStack, f, b, p);
            assert Defines(g, symbol, onStack + {f}, x, b);
          }
        }
      }
    }
  }

  lemma {:induction false} FoundInIsReachable(g: Slots, symbol: CString, onStack: set<nat>, fs: seq<nat>)
    ensures var r := FoundIn(g, symbol, onStack, fs);
            && (r.Some? ==> exists x :: x in fs && Defines(g, symbol, onStack, x, r.value))
            && (r.None? ==> forall x, b :: x in fs ==> !Defines(g, symbol, onStack, x, b))
    decreases Nodes(g) - onStack, 1, |fs|
  {
    if fs != [] {
      FoundIsReachable(g, symbol, onStack, fs[0]);
      FoundInIsReachable(g, symbol, onStack, fs[1..]);
    }
  }

  /** Of several definitions it finds the file's own, or else that of the first of its inclusions, in
      the order of the lines, that leads to one. */
  lemma FoundFirst(g: Slots, symbol: CString, onStack: set<nat>, f: nat, i: nat)
    requires f < |g| && f !in onStack
    ensures symbol in g[f].symbols ==> Found(g, symbol, onStack, f) == Some(f)
    ensures && symbol !in g[f].symbols && i < |g[f].list|
            && (forall j, b :: 0 <= j < i ==> !Defines(g, symbol, onStack + {f}, g[f].list[j], b))
            && (exists b :: Defines(g, symbol, onStack + {f}, g[f].list[i], b)) ==>
              Found(g, symbol, onStack, f) == Found(g, symbol, onStack + {f}, g[f].list[i])
  {
    hide FoundIn;
    if && symbol !in g[f].symbols && i < |g[f].list|
       && (forall j, b :: 0 <= j < i ==> !Defines(g, symbol, onStack + {f}, g[f].list[j], b))
       && (exists b :: Defines(g, symbol, onStack + {f}, g[f].list[i], b)) {
      FirstOfList(g, symbol, onStack + {f}, g[f].list, i);
    }
  }

  lemma {:induction false} FirstOfList(g: Slots, symbol: CString, onStack: set<nat>, fs: seq<nat>, i: nat)
    requires i < |fs| && (forall j, b :: 0 <= j < i ==> !Defines(g, symbol, onStack, fs[j], b))
    requires exists b :: Defines(g, symbol, onStack, fs[i], b)
    ensures FoundIn(g, symbol, onStack, fs) == Found(g, symbol, onStack, fs[i])
    decreases i
  {
    FoundIsReachable(g, symbol, onStack, fs[0]);
    hide Found, Defines;
    if i > 0 {
      assert forall j :: 0 <= j < |fs| - 1 ==> fs[1..][j] == fs[j + 1];
      FirstOfList(g, symbol, onStack, fs[1..], i - 1);
    }
  }
}
