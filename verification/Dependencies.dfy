/** Printing the dependencies of one file: the marking depth-first search of makedepend's pr.c, and
    inc_clean, which prepares the next file. */
module Dependencies {
  import opened SymbolTable
  import opened IncludePaths
  import opened FileRecords

  // ---- The search, as a worklist --------------------------------------------------------------

  /** The files visited, in order, when the files of `work` are visited in turn and those of `marks`
      are not visited again. */
  function Visit(g: Slots, marks: set<nat>, work: seq<nat>): (r: seq<nat>)
    decreases Nodes(g) - marks, |work|
  {
    if work == [] then []
    else if work[0] in marks || work[0] >= |g| then Visit(g, marks, work[1..])
    else [work[0]] + Visit(g, marks + {work[0]}, g[work[0]].list + work[1..])
  }

  ghost function Elements(s: seq<nat>): set<nat> {
    set x | x in s
  }

  /** Finishing the first part of the work before starting the second makes no difference. */
  lemma {:induction false} VisitSplits(g: Slots, marks: set<nat>, a: seq<nat>, b: seq<nat>)
    ensures Visit(g, marks, a + b) == Visit(g, marks, a) + Visit(g, marks + Elements(Visit(g, marks, a)), b)
    decreases Nodes(g) - marks, |a|
  {
    if a == [] {
      assert a + b == b && marks + Elements([]) == marks;
    } else {
      var h, t := a[0], a[1..];
      assert (a + b)[0] == h && (a + b)[1..] == t + b;
      if h in marks || h >= |g| {
        VisitSplits(g, marks, t, b);
      } else {
        var marks' := marks + {h};
        assert g[h].list + (t + b) == (g[h].list + t) + b;
        VisitSplits(g, marks', g[h].list + t, b);
        var v := Visit(g, marks', g[h].list + t);
        assert marks' + Elements(v) == marks + Elements([h] + v);
      }
    }
  }

  lemma ReachesMore(g: Slots, avoid: set<nat>, less: set<nat>, a: nat, b: nat)
    requires less <= avoid && Reaches(g, avoid, a, b)
    ensures Reaches(g, less, a, b)
  {
    var p :| Path(g, avoid, a, b, p);
    assert Path(g, less, a, b, p);
  }

  /** A path either misses `h` or passes through it. */
  lemma MissesOrPasses(g: Slots, avoid: set<nat>, h: nat, a: nat, b: nat)
    requires Reaches(g, avoid, a, b)
    ensures Reaches(g, avoid + {h}, a, b) || Reaches(g, avoid, h, b)
  {
    var p :| Path(g, avoid, a, b, p);
    if h in p {
      var k :| 0 <= k < |p| && p[k] == h;
      var q := p[k..];
      assert forall i :: 0 <= i < |q| ==> q[i] == p[k + i];
      assert Path(g, avoid, h, b, q);
    } else {
      assert Path(g, avoid + {h}, a, b, p);
    }
  }

  /** The search visits exactly what can be reached from the work without passing a mark. */
  lemma {:induction false} VisitsReachable(g: Slots, marks: set<nat>, work: seq<nat>, x: nat)
    ensures x in Visit(g, marks, work) <==> exists s :: s in work && Reaches(g, marks, s, x)
    decreases Nodes(g) - marks, |work|
  {
    if work != [] {
      var h, t := work[0], work[1..];
      if h in marks || h >= |g| {
        VisitsReachable(g, marks, t, x);
        assert !Reaches(g, marks, h, x);
      } else {
        var marks', more := marks + {h}, g[h].list + t;
        VisitsReachable(g, marks', more, x);
        Here(g, marks, h);
        if x in Visit(g, marks', more) {
          var s :| s in more && Reaches(g, marks', s, x);
          if s in g[h].list { ExtendPath(g, marks, h, s, x); } else { ReachesMore(g, marks', marks, s, x); }
        }
        if s :| s in work && Reaches(g, marks, s, x) {
          MissesOrPasses(g, marks, h, s, x);
          if Reaches(g, marks, h, x) {
            if x != h {
              var p :| Path(g, marks, h, x, p);
              var c := LeaveForGood(g, marks, h, x, p);
              assert c in more;
            }
          } else {
            assert s in t && s in more;
          }
        }
      }
    }
  }

  ghost predicate NoRepeats(s: seq<nat>) {
    forall i, j :: 0 <= i < j < |s| ==> s[i] != s[j]
  }

  /** It visits no file twice. */
  lemma {:induction false} VisitsOnce(g: Slots, marks: set<nat>, work: seq<nat>)
    ensures NoRepeats(Visit(g, marks, work))
    ensures forall x :: x in Visit(g, marks, work) ==> x !in marks && x < |g|
    decreases Nodes(g) - marks, |work|
  {
    if work != [] {
      var h, t := work[0], work[1..];
      if h in marks || h >= |g| {
        VisitsOnce(g, marks, t);
      } else {
        var rest := Visit(g, marks + {h}, g[h].list + t);
        VisitsOnce(g, marks + {h}, g[h].list + t);
        assert forall i :: 0 < i < |[h] + rest| ==> ([h] + rest)[i] == rest[i - 1];
        assert h !in rest;
      }
    }
  }

  /** What is printed for `root`: every visited file but `root` itself. */
  function Others(root: nat, v: seq<nat>): seq<nat> {
    if v == [] then [] else (if v[0] == root then [] else [v[0]]) + Others(root, v[1..])
  }

  lemma {:induction false} OthersOf(root: nat, a: seq<nat>, b: seq<nat>)
    ensures Others(root, a + b) == Others(root, a) + Others(root, b)
  {
    if a == [] {
      assert a + b == b;
    } else {
      assert (a + b)[0] == a[0] && (a + b)[1..] == a[1..] + b;
      OthersOf(root, a[1..], b);
    }
  }

  lemma {:induction false} OthersOnce(root: nat, v: seq<nat>)
    requires NoRepeats(v)
    ensures NoRepeats(Others(root, v))
    ensures forall x :: x in Others(root, v) <==> x in v && x != root
  {
    if v != [] {
      var rest := v[1..];
      assert forall i :: 0 <= i < |rest| ==> rest[i] == v[i + 1];
      OthersOnce(root, rest);
      assert forall x :: x in v <==> x == v[0] || x in rest;
      assert v[0] !in rest;
      var o := Others(root, rest);
      if v[0] != root {
        assert Others(root, v) == [v[0]] + o;
        assert forall i :: 0 < i < |[v[0]] + o| ==> ([v[0]] + o)[i] == o[i - 1];
      } else {
        assert Others(root, v) == o;
      }
    }
  }

  /** The files printed for `root`. */
  function DependenciesOf(g: Slots, root: nat): seq<nat> {
    Others(root, Visit(g, {}, [root]))
  }

  /** Every file the root reaches by inclusions, other than the root, exactly once. */
  lemma PrintsEachReachableOnce(g: Slots, root: nat)
    ensures forall x :: x in DependenciesOf(g, root) <==> x != root && Reaches(g, {}, root, x)
    ensures NoRepeats(DependenciesOf(g, root))
  {
    var v := Visit(g, {}, [root]);
    VisitsOnce(g, {}, [root]);
    OthersOnce(root, v);
    forall x ensures x in v <==> Reaches(g, {}, root, x) {
      VisitsReachable(g, {}, [root], x);
      assert root in [root];
    }
  }

  // ---- The order ------------------------------------------------------------------------------

  ghost predicate Precedes(s: seq<nat>, x: nat, y: nat) {
    exists p, q :: 0 <= p < q < |s| && s[p] == x && s[q] == y
  }

  /** A file stands behind one that lists it. */
  ghost predicate Follows(g: Slots, s: seq<nat>, k: nat)
    requires k < |s|
  {
    exists i :: 0 <= i < k && s[i] < |g| && s[k] in g[s[i]].list
  }

  lemma {:induction false} ParentsFirst(g: Slots, marks: set<nat>, work: seq<nat>, k: nat)
    requires k < |Visit(g, marks, work)|
    ensures Visit(g, marks, work)[k] in work || Follows(g, Visit(g, marks, work), k)
    decreases Nodes(g) - marks, |work|
  {
    var h, t := work[0], work[1..];
    if h in marks || h >= |g| {
      ParentsFirst(g, marks, t, k);
    } else if k > 0 {
      var v := Visit(g, marks + {h}, g[h].list + t);
      var all := [h] + v;
      assert Visit(g, marks, work) == all && all[k] == v[k - 1] && all[0] == h;
      ParentsFirst(g, marks + {h}, g[h].list + t, k - 1);
      hide Visit;
      if Follows(g, v, k - 1) {
        var i :| 0 <= i < k - 1 && v[i] < |g| && v[k - 1] in g[v[i]].list;
        assert all[i + 1] == v[i];
      }
    }
  }

  /** A file that is not printed for the root's own sake stands behind a file that includes it ... */
  lemma PrintedBehindIncluder(g: Slots, root: nat, k: nat)
    requires root < |g| && k < |DependenciesOf(g, root)|
    ensures var d := DependenciesOf(g, root); d[k] in g[root].list || Follows(g, d, k)
  {
    PrintedIsVisited(g, root);
    ParentsFirst(g, {root}, g[root].list, k);
  }

  /** ... and all that is reached through the first of the root's inclusions stands in front of all
      that is reached only through the others: the search is depth first, in the order of the lines. */
  lemma PrintedDepthFirst(g: Slots, root: nat, i: nat, x: nat, y: nat)
    requires root < |g| && i <= |g[root].list|
    requires exists s :: s in g[root].list[..i] && Reaches(g, {root}, s, x)
    requires y in DependenciesOf(g, root) && !exists s :: s in g[root].list[..i] && Reaches(g, {root}, s, y)
    ensures Precedes(DependenciesOf(g, root), x, y)
  {
    var a, b := g[root].list[..i], g[root].list[i..];
    assert a + b == g[root].list;
    PrintedIsVisited(g, root);
    VisitSplits(g, {root}, a, b);
    VisitsReachable(g, {root}, a, x);
    VisitsReachable(g, {root}, a, y);
    hide Visit;
    var v := Visit(g, {root}, a);
    var w := Visit(g, {root} + Elements(v), b);
    InFront(v, w, x, y);
  }

  lemma InFront(v: seq<nat>, w: seq<nat>, x: nat, y: nat)
    requires x in v && y in v + w && y !in v
    ensures Precedes(v + w, x, y)
  {
    var p :| 0 <= p < |v| && v[p] == x;
    var q :| 0 <= q < |v + w| && (v + w)[q] == y;
    assert (v + w)[p] == x && q >= |v|;
  }

  lemma PrintedIsVisited(g: Slots, root: nat)
    requires root < |g|
    ensures DependenciesOf(g, root) == Visit(g, {root}, g[root].list)
  {
    VisitHead(g, {}, root, root);
    assert {} + {root} == {root};
    VisitsOnce(g, {root}, g[root].list);
    hide Visit;
    OthersWithout(root, Visit(g, {root}, g[root].list));
    assert [] + Others(root, Visit(g, {root}, g[root].list)) == Others(root, Visit(g, {root}, g[root].list));
  }

  lemma {:induction false} OthersWithout(root: nat, v: seq<nat>)
    requires root !in v
    ensures Others(root, v) == v
  {
    if v != [] {
      assert v[0] != root;
      OthersWithout(root, v[1..]);
      assert v == [v[0]] + v[1..];
    }
  }

  // ---- The recursion --------------------------------------------------------------------------

  /** `out` is the list of files printed so far.  The record of the root is recognised by its own
      copy of the file name, which no other record shares. */
  method RecursivePrInclude(w: World, head: nat, root: nat, out: seq<nat>, ghost g: Slots,
                            ghost command: map<CString, CString>, ghost marks: set<nat>)
    returns (out': seq<nat>, ghost marks': set<nat>)
    requires w.Valid() && w.Shows(g, command) && w.Marked(marks) && Closed(g) && head < |g|
    modifies w.records`marked
    ensures w.Valid() && w.Shows(g, command) && w.Marked(marks')
    ensures out' == out + Others(root, Visit(g, marks, [head]))
    ensures marks' == marks + Elements(Visit(g, marks, [head]))
    decreases Nodes(g) - marks, 0
  {
    hide IncList.Valid, World.Valid, World.Shows, Visit, Others, Elements, Closed;
    VisitHead(g, marks, head, root);
    out', marks' := out, marks;
    SameLength(w, g, command);
    if w.inclist[head].marked {
      return;
    }
    Mark(w, head, g, command, marks);
    if head != root {
      out' := out' + [head];
    }
    out', marks' := PrBelow(w, head, root, out', g, command, marks + {head});
  }

  lemma SameLength(w: World, g: Slots, command: map<CString, CString>)
    requires w.Valid() && w.Shows(g, command)
    ensures |g| == |w.inclist|
  {
  }

  /** Setting i_marked. */
  method Mark(w: World, head: nat, ghost g: Slots, ghost command: map<CString, CString>, ghost marks: set<nat>)
    requires w.Valid() && w.Shows(g, command) && w.Marked(marks) && head < |g|
    modifies w.records`marked
    ensures w.Valid() && w.Shows(g, command) && w.Marked(marks + {head})
  {
    hide IncList.Valid;
    w.inclist[head].marked := true;
  }

  lemma VisitHead(g: Slots, marks: set<nat>, head: nat, root: nat)
    requires head < |g|
    ensures var v := Visit(g, marks, [head]);
            if head in marks then v == [] && Others(root, v) == [] && Elements(v) == {}
            else var r := Visit(g, marks + {head}, g[head].list);
                 v == [head] + r && Elements(v) == {head} + Elements(r)
                 && Others(root, v) == (if head == root then [] else [head]) + Others(root, r)
  {
    if head !in marks {
      var r := Visit(g, marks + {head}, g[head].list);
      assert g[head].list + [head][1..] == g[head].list;
      assert ([head] + r)[1..] == r;
    }
  }

  /** The loop over the files that `head` includes. */
  method PrBelow(w: World, head: nat, root: nat, out: seq<nat>, ghost g: Slots, ghost command: map<CString, CString>,
                 ghost marks: set<nat>)
    returns (out': seq<nat>, ghost marks': set<nat>)
    requires w.Valid() && w.Shows(g, command) && w.Marked(marks) && Closed(g) && head < |g|
    modifies w.records`marked
    ensures w.Valid() && w.Shows(g, command) && w.Marked(marks')
    ensures out' == out + Others(root, Visit(g, marks, g[head].list))
    ensures marks' == marks + Elements(Visit(g, marks, g[head].list))
    decreases Nodes(g) - marks, 1
  {
    hide IncList.Valid, Visit;
    out', marks' := out, marks;
    var i := 0;
    while i < |w.inclist[head].list|
      invariant i <= |g[head].list|
      invariant w.Valid() && w.Shows(g, command) && w.Marked(marks')
      invariant marks <= marks'
      invariant out' + Others(root, Visit(g, marks', g[head].list[i..])) ==
                out + Others(root, Visit(g, marks, g[head].list))
      invariant marks' + Elements(Visit(g, marks', g[head].list[i..])) ==
                marks + Elements(Visit(g, marks, g[head].list))
    {
      VisitNext(g, marks', g[head].list[i..], root);
      assert g[head].list[i..][1..] == g[head].list[i + 1..];
      out', marks' := RecursivePrInclude(w, w.inclist[head].list[i], root, out', g, command, marks');
      i := i + 1;
    }
    VisitNothing(g, marks', g[head].list[i..]);
  }

  lemma VisitNothing(g: Slots, marks: set<nat>, work: seq<nat>)
    requires work == []
    ensures Visit(g, marks, work) == [] && forall root :: Others(root, []) == []
  {
  }

  /** Visit the first file of the work, then the others. */
  lemma VisitNext(g: Slots, marks: set<nat>, work: seq<nat>, root: nat)
    requires work != []
    ensures var v := Visit(g, marks, [work[0]]);
            var rest := Visit(g, marks + Elements(v), work[1..]);
            && Others(root, Visit(g, marks, work)) == Others(root, v) + Others(root, rest)
            && Elements(Visit(g, marks, work)) == Elements(v) + Elements(rest)
  {
    var v := Visit(g, marks, [work[0]]);
    assert work == [work[0]] + work[1..];
    VisitSplits(g, marks, [work[0]], work[1..]);
    OthersOf(root, v, Visit(g, marks + Elements(v), work[1..]));
  }

  /** inc_clean: unmark every slot in use. */
  method IncClean(w: World, ghost marks: set<nat>)
    requires w.Valid() && w.inclistp <= |w.inclist|
    requires w.Marked(marks) && forall i :: i in marks ==> i < w.inclistp
    modifies w.records`marked
    ensures w.Valid() && w.Marked({})
  {
    hide IncList.Valid;
    var i := 0;
    while i < w.inclistp
      invariant i <= w.inclistp
      invariant forall j :: 0 <= j < i ==> !w.inclist[j].marked
      invariant forall j :: i <= j < |w.inclist| ==> (w.inclist[j].marked <==> j in marks)
    {
      w.inclist[i].marked := false;
      i := i + 1;
    }
  }

  /** A file reached by inclusions stands on some list. */
  lemma ReachedIsListed(g: Slots, a: nat, b: nat)
    requires Reaches(g, {}, a, b) && a != b
    ensures exists i :: 0 <= i < |g| && b in g[i].list
  {
    var p :| Path(g, {}, a, b, p);
    assert p[|p| - 1] in g[p[|p| - 2]].list;
  }

  /** Slots on lists are in use. */
  ghost predicate ListsInUse(g: Slots, n: nat) {
    forall i, k :: 0 <= i < |g| && 0 <= k < |g[i].list| ==> g[i].list[k] < n
  }

  lemma VisitsInUse(g: Slots, root: nat, n: nat)
    requires ListsInUse(g, n) && root < n
    ensures forall x :: x in Visit(g, {}, [root]) ==> x < n
  {
    forall x | x in Visit(g, {}, [root]) ensures x < n {
      VisitsReachable(g, {}, [root], x);
      if x != root {
        ReachedIsListed(g, root, x);
        var i :| 0 <= i < |g| && x in g[i].list;
      }
    }
  }

  /** One turn of the main loop after the scan: print, and clear the marks for the next file. */
  method Report(w: World, root: nat, ghost g: Slots, ghost command: map<CString, CString>) returns (out: seq<nat>)
    requires w.Valid() && w.Shows(g, command) && w.Marked({}) && Closed(g)
    requires root < w.inclistp <= |w.inclist| && ListsInUse(g, w.inclistp)
    modifies w.records`marked
    ensures w.Valid() && w.Shows(g, command) && w.Marked({})
    ensures out == DependenciesOf(g, root)
  {
    hide IncList.Valid, World.Valid, World.Shows, World.Marked, Visit, Others, Closed, ListsInUse;
    SameLength(w, g, command);
    ghost var marks;
    out, marks := RecursivePrInclude(w, root, root, [], g, command, {});
    assert [] + Others(root, Visit(g, {}, [root])) == Others(root, Visit(g, {}, [root]));
    VisitsInUse(g, root, w.inclistp);
    IncClean(w, marks);
  }
}
