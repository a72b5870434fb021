/**
 * The search for names that clash when cut down to eight characters and a
 * three-character extension (xc/config/util/checktree.c): the comparator given
 * to the sort, and the scan of neighbours that follows the sort.
 *
 * A character is the value it has after promotion to int, so that what is
 * proved holds whether plain characters are signed or not.
 */
module CheckTree {

  type Name = s: seq<int> | forall k :: 0 <= k < |s| ==> s[k] != 0

  const CAPITAL_A := 65
  const CAPITAL_Z := 90
  const DASH := 45
  const UNDERSCORE := 95
  const DOT := 46

  function Fold(c: int): int {
    if CAPITAL_A <= c <= CAPITAL_Z then c + 32 else if c == DASH then UNDERSCORE else c
  }

  /** What *cp reads, and where cp points after a step: a name ends in a NUL. */
  function First(s: Name): int { if s == [] then 0 else s[0] }
  function Rest(s: Name): Name { if s == [] then [] else s[1..] }

  function Strncmp(cp1: Name, cp2: Name, n: int): int
    decreases |cp1|
  {
    if n <= 0 then 0
    else if cp1 == [] || cp2 == [] then First(cp1) - First(cp2)
    else if cp1[0] != cp2[0] && Fold(cp1[0]) != Fold(cp2[0]) then Fold(cp1[0]) - Fold(cp2[0])
    else Strncmp(cp1[1..], cp2[1..], n - 1)
  }

  /** The loop itself, walking both names with one counter. */
  method StrncmpLoop(cp1: Name, cp2: Name, count: int) returns (result: int)
    ensures result == Strncmp(cp1, cp2, count)
  {
    var p, q, n := cp1, cp2, count - 1;
    while n >= 0 && First(p) != 0 && First(q) != 0
      invariant Strncmp(cp1, cp2, count) == Strncmp(p, q, n + 1)
      decreases |p|
    {
      if First(p) != First(q) {
        var c1, c2 := First(p), First(q);
        if CAPITAL_A <= c1 <= CAPITAL_Z { c1 := c1 + 32; } else if c1 == DASH { c1 := UNDERSCORE; }
        if CAPITAL_A <= c2 <= CAPITAL_Z { c2 := c2 + 32; } else if c2 == DASH { c2 := UNDERSCORE; }
        if c1 != c2 { return c1 - c2; }
      }
      p, q, n := Rest(p), Rest(q), n - 1;
    }
    if n < 0 { return 0; }
    return First(p) - First(q);
  }

  /** What strrchr(name, '.') + 1 points at, if there is a dot. */
  datatype Extension = NoDot | Dot(after: Name)

  function LastDot(name: Name): Extension {
    if name == [] then NoDot
    else if name[|name| - 1] == DOT then Dot([])
    else
      match LastDot(name[..|name| - 1])
      case NoDot => NoDot
      case Dot(after) => Dot(after + [name[|name| - 1]])
  }

  function Fncomp(n1: Name, n2: Name): int {
    var i := Strncmp(n1, n2, 8);
    if i != 0 then i
    else
      match (LastDot(n1), LastDot(n2))
      case (NoDot, NoDot) => i
      case (NoDot, Dot(_)) => -1
      case (Dot(_), NoDot) => 1
      case (Dot(e1), Dot(e2)) => Strncmp(e1, e2, 3)
  }

  /** The scan after the sort: one report for every pair of equal neighbours. */
  function Clashes(names: seq<Name>): seq<(Name, Name)> {
    if |names| < 2 then []
    else
      var i := |names| - 2;
      Clashes(names[..i + 1]) + if Fncomp(names[i], names[i + 1]) == 0 then [(names[i], names[i + 1])] else []
  }

  method ScanNeighbours(names: array<Name>) returns (reports: seq<(Name, Name)>)
    ensures reports == Clashes(names[..])
  {
    reports := [];
    var max := names.Length - 1;
    var i := 0;
    assert names[..0] == [];
    while i < max
      invariant 0 <= i && (i <= max || names.Length == 0)
      invariant i < names.Length ==> reports == Clashes(names[..i + 1])
      invariant names.Length == 0 ==> reports == []
    {
      assert names[..i + 2][..i + 1] == names[..i + 1];
      if Fncomp(names[i], names[i + 1]) == 0 {
        reports := reports + [(names[i], names[i + 1])];
      }
      i := i + 1;
    }
    assert names.Length > 0 ==> names[..i + 1] == names[..];
  }

  // ---- The reference: names are compared by a twelve-place key, in lexicographic order ----------

  function Key(s: Name, n: nat): (key: seq<int>)
    ensures |key| == n
  {
    if n == 0 then [] else [Fold(First(s))] + Key(Rest(s), n - 1)
  }

  function FullKey(name: Name): (key: seq<int>)
    ensures |key| == 12
  {
    Key(name, 8) +
    match LastDot(name)
    case NoDot => [0] + Key([], 3)
    case Dot(after) => [1] + Key(after, 3)
  }

  ghost predicate Before(a: seq<int>, b: seq<int>)
    requires |a| == |b|
  {
    exists k :: 0 <= k < |a| && a[..k] == b[..k] && a[k] < b[k]
  }

  /** The sign of the first difference between two sequences of equal length. */
  function Difference(a: seq<int>, b: seq<int>): int
    requires |a| == |b|
  {
    if a == [] then 0 else if a[0] != b[0] then a[0] - b[0] else Difference(a[1..], b[1..])
  }

  lemma {:induction false} DifferenceIsBefore(a: seq<int>, b: seq<int>)
    requires |a| == |b|
    ensures Difference(a, b) == 0 <==> a == b
    ensures Difference(a, b) < 0 <==> Before(a, b)
  {
    if a == [] {
    } else if a[0] != b[0] {
      assert a[..0] == b[..0];
      assert forall k :: 0 < k <= |a| ==> a[..k][0] == a[0] && b[..k][0] == b[0];
    } else {
      DifferenceIsBefore(a[1..], b[1..]);
      assert a == [a[0]] + a[1..] && b == [b[0]] + b[1..];
      if Before(a[1..], b[1..]) {
        var k :| 0 <= k < |a| - 1 && a[1..][..k] == b[1..][..k] && a[1..][k] < b[1..][k];
        assert a[..k + 1] == [a[0]] + a[1..][..k] && b[..k + 1] == [b[0]] + b[1..][..k];
        assert a[k + 1] < b[k + 1];
      }
      if Before(a, b) {
        var k :| 0 <= k < |a| && a[..k] == b[..k] && a[k] < b[k];
        assert a[1..][..k - 1] == a[..k][1..] && b[1..][..k - 1] == b[..k][1..];
        assert a[1..][k - 1] < b[1..][k - 1];
      }
    }
  }

  lemma {:induction false} DifferenceOfParts(a: seq<int>, b: seq<int>, c: seq<int>, d: seq<int>)
    requires |a| == |b| && |c| == |d|
    ensures Difference(a + c, b + d) == if Difference(a, b) != 0 then Difference(a, b) else Difference(c, d)
  {
    if a == [] {
      assert a + c == c && b + d == d;
    } else {
      assert (a + c)[1..] == a[1..] + c && (b + d)[1..] == b[1..] + d;
      DifferenceOfParts(a[1..], b[1..], c, d);
    }
  }

  lemma {:induction false} DifferenceFlips(a: seq<int>, b: seq<int>)
    requires |a| == |b|
    ensures Difference(b, a) == -Difference(a, b)
  {
    if a != [] && a[0] == b[0] { DifferenceFlips(a[1..], b[1..]); }
  }

  lemma {:induction false} DifferenceChains(a: seq<int>, b: seq<int>, c: seq<int>)
    requires |a| == |b| == |c|
    requires Difference(a, b) <= 0 && Difference(b, c) <= 0
    ensures Difference(a, c) <= 0
    ensures Difference(a, c) == 0 ==> Difference(a, b) == 0
  {
    if a != [] && a[0] == b[0] == c[0] { DifferenceChains(a[1..], b[1..], c[1..]); }
  }

  predicate SameSign(x: int, y: int) { (x < 0 <==> y < 0) && (x == 0 <==> y == 0) }

  lemma {:induction false} StrncmpComparesKeys(cp1: Name, cp2: Name, n: nat)
    ensures SameSign(Strncmp(cp1, cp2, n), Difference(Key(cp1, n), Key(cp2, n)))
    decreases n
  {
    if n > 0 {
      assert Key(cp1, n)[1..] == Key(Rest(cp1), n - 1) && Key(cp2, n)[1..] == Key(Rest(cp2), n - 1);
      if cp1 == [] && cp2 == [] {
        DifferenceIsBefore(Key(cp1, n), Key(cp2, n));
      } else if cp1 != [] && cp2 != [] {
        StrncmpComparesKeys(cp1[1..], cp2[1..], n - 1);
      }
    }
  }

  lemma FncompComparesKeys(n1: Name, n2: Name)
    ensures SameSign(Fncomp(n1, n2), Difference(FullKey(n1), FullKey(n2)))
  {
    hide Strncmp, Key;
    var h1, h2 := Key(n1, 8), Key(n2, 8);
    var t1, t2 := FullKey(n1)[8..], FullKey(n2)[8..];
    assert FullKey(n1) == h1 + t1 && FullKey(n2) == h2 + t2;
    StrncmpComparesKeys(n1, n2, 8);
    DifferenceOfParts(h1, h2, t1, t2);
    var e1 := if LastDot(n1).NoDot? then [] else LastDot(n1).after;
    var e2 := if LastDot(n2).NoDot? then [] else LastDot(n2).after;
    assert t1[1..] == Key(e1, 3) && t2[1..] == Key(e2, 3);
    StrncmpComparesKeys(e1, e2, 3);
    if e1 == e2 { DifferenceIsBefore(Key(e1, 3), Key(e2, 3)); }
  }

  /** The comparator orders names exactly as their keys are ordered, so it is zero exactly for names
      that share a key ... */
  lemma FncompIsLexicographic(n1: Name, n2: Name)
    ensures Fncomp(n1, n2) < 0 <==> Before(FullKey(n1), FullKey(n2))
    ensures Fncomp(n1, n2) == 0 <==> FullKey(n1) == FullKey(n2)
    ensures Fncomp(n1, n2) > 0 <==> Before(FullKey(n2), FullKey(n1))
  {
    FncompComparesKeys(n1, n2);
    DifferenceIsBefore(FullKey(n1), FullKey(n2));
    DifferenceIsBefore(FullKey(n2), FullKey(n1));
    DifferenceFlips(FullKey(n1), FullKey(n2));
  }

  /** ... and it is what a sort asks of a comparator. */
  lemma FncompIsTotalPreorder(n1: Name, n2: Name, n3: Name)
    ensures Fncomp(n1, n1) == 0
    ensures SameSign(Fncomp(n1, n2), -Fncomp(n2, n1))
    ensures Fncomp(n1, n2) <= 0 && Fncomp(n2, n3) <= 0 ==> Fncomp(n1, n3) <= 0
  {
    FncompIsLexicographic(n1, n1);
    FncompIsLexicographic(n1, n2);
    FncompIsLexicographic(n2, n1);
    FncompComparesKeys(n1, n2);
    FncompComparesKeys(n2, n3);
    FncompComparesKeys(n1, n3);
    if Fncomp(n1, n2) <= 0 && Fncomp(n2, n3) <= 0 {
      DifferenceChains(FullKey(n1), FullKey(n2), FullKey(n3));
    }
  }

  // ---- Which names clash, by their letters ------------------------------------------------------

  /** Equal, a capital and its small letter, or a dash and an underscore. */
  predicate SameLetter(c: int, d: int) {
    || c == d || (65 <= c <= 90 && d == c + 32) || (65 <= d <= 90 && c == d + 32)
    || (c == 45 && d == 95) || (c == 95 && d == 45)
  }

  /** The same letter in a place, where a name that is over has no letter. */
  predicate AlikeAt(a: Name, b: Name, k: nat) {
    (k < |a| <==> k < |b|) && (k < |a| && k < |b| ==> SameLetter(a[k], b[k]))
  }

  /** ... in each of the first n places. */
  ghost predicate Alike(a: Name, b: Name, n: nat) {
    forall k: nat :: k < n ==> AlikeAt(a, b, k)
  }

  ghost predicate Extended(name: Name, base: Name, extension: Name) {
    name == base + [46] + extension && 46 !in extension
  }

  /** Two names clash if and only if their first eight letters are the same and neither has an
      extension, or both have one, behind the last dot, with the same first three letters. */
  lemma ClashExactly(n1: Name, n2: Name)
    ensures Fncomp(n1, n2) == 0 <==>
            && Alike(n1, n2, 8)
            && ((46 !in n1 && 46 !in n2)
                || exists b1, e1, b2, e2 :: Extended(n1, b1, e1) && Extended(n2, b2, e2) && Alike(e1, e2, 3))
  {
    LastDotSplits(n1);
    LastDotSplits(n2);
    ZeroIsAlike(n1, n2, 8);
    hide Strncmp, Alike, LastDot;
    assert LastDot(n1).NoDot? ==> 46 !in n1;
    assert LastDot(n2).NoDot? ==> 46 !in n2;
    forall b1, e1, b2, e2 | Extended(n1, b1, e1) && Extended(n2, b2, e2)
      ensures LastDot(n1) == Dot(e1) && LastDot(n2) == Dot(e2)
    {
      LastDotOf(n1, b1, e1);
      LastDotOf(n2, b2, e2);
    }
    if LastDot(n1).Dot? && LastDot(n2).Dot? {
      ZeroIsAlike(LastDot(n1).after, LastDot(n2).after, 3);
    }
  }

  /** What the search for the last dot finds. */
  ghost predicate Splits(name: Name, e: Extension) {
    if e.NoDot? then 46 !in name else exists base :: Extended(name, base, e.after)
  }

  lemma {:induction false} LastDotSplits(name: Name)
    ensures Splits(name, LastDot(name))
  {
    if name != [] {
      var front: Name, last := name[..|name| - 1], name[|name| - 1];
      if last == 46 {
        EndsInDot(name, front);
      } else {
        LastDotSplits(front);
        LongerSplits(name, front, last, LastDot(front));
      }
    }
  }

  lemma EndsInDot(name: Name, front: Name)
    requires name != [] && name[|name| - 1] == 46 && front == name[..|name| - 1]
    ensures Splits(name, Dot([]))
  {
    assert name == front + [46] + [];
    assert Extended(name, front, []);
  }

  lemma LongerSplits(name: Name, front: Name, last: int, e: Extension)
    requires name == front + [last] && last != 0 && last != 46 && Splits(front, e)
    ensures Splits(name, if e.NoDot? then NoDot else Dot(e.after + [last]))
  {
    if e.Dot? {
      var base :| Extended(front, base, e.after);
      assert name == base + [46] + (e.after + [last]);
      assert Extended(name, base, e.after + [last]);
    }
  }

  lemma {:induction false} LastDotOf(name: Name, base: Name, extension: Name)
    requires Extended(name, base, extension)
    ensures LastDot(name) == Dot(extension)
    decreases |extension|
  {
    if extension != [] {
      var front: Name, last := extension[..|extension| - 1], extension[|extension| - 1];
      assert extension == front + [last] && last in extension;
      assert name[..|name| - 1] == base + [46] + front && name[|name| - 1] == last;
      LastDotOf(name[..|name| - 1], base, front);
    }
  }

  lemma {:induction false} KeyAt(s: Name, n: nat, k: nat)
    requires k < n
    ensures Key(s, n)[k] == Fold(if k < |s| then s[k] else 0)
  {
    if k > 0 { KeyAt(Rest(s), n - 1, k - 1); }
  }

  lemma FoldsTogether(c: int, d: int)
    ensures Fold(c) == Fold(d) <==> SameLetter(c, d)
    ensures Fold(c) == 0 <==> c == 0
  {
  }

  lemma KeyAtIsAlike(a: Name, b: Name, n: nat, k: nat)
    requires k < n
    ensures Key(a, n)[k] == Key(b, n)[k] <==> AlikeAt(a, b, k)
  {
    hide Key;
    KeyAt(a, n, k);
    KeyAt(b, n, k);
    var c, d := if k < |a| then a[k] else 0, if k < |b| then b[k] else 0;
    assert (c != 0 <==> k < |a|) && (d != 0 <==> k < |b|);
    FoldsTogether(c, d);
    FoldsTogether(c, 0);
    FoldsTogether(d, 0);
    hide Fold;
  }

  lemma ZeroIsAlike(a: Name, b: Name, n: nat)
    ensures Strncmp(a, b, n) == 0 <==> Alike(a, b, n)
  {
    var x, y := Key(a, n), Key(b, n);
    StrncmpComparesKeys(a, b, n);
    DifferenceIsBefore(x, y);
    assert Strncmp(a, b, n) == 0 <==> x == y;
    hide Strncmp, Key, Before, Difference, SameLetter;
    forall k | 0 <= k < n ensures x[k] == y[k] <==> AlikeAt(a, b, k) { KeyAtIsAlike(a, b, n, k); }
    if x == y {
      forall k: nat | k < n ensures AlikeAt(a, b, k) { assert x[k] == y[k]; }
    }
    if Alike(a, b, n) {
      forall k: nat | k < n ensures x[k] == y[k] { assert AlikeAt(a, b, k); }
    }
  }

  // ---- What the reports say ---------------------------------------------------------------------

  ghost predicate Sorted(names: seq<Name>) {
    forall i, j :: 0 <= i < j < |names| ==> Fncomp(names[i], names[j]) <= 0
  }

  ghost function Keys(names: seq<Name>): set<seq<int>> { set name | name in names :: FullKey(name) }

  ghost predicate Reported(name: Name, reports: seq<(Name, Name)>) {
    exists k :: 0 <= k < |reports| && (reports[k].0 == name || reports[k].1 == name)
  }

  /** In a sorted list a name shares a key with an earlier one only if it does with its neighbour.
      */
  lemma NeighbourFirst(names: seq<Name>, j: nat, i: nat)
    requires Sorted(names) && j < i < |names| && FullKey(names[j]) == FullKey(names[i])
    ensures Fncomp(names[j], names[j + 1]) == 0 && Fncomp(names[i - 1], names[i]) == 0
  {
    hide Fncomp, FullKey;
    FncompIsLexicographic(names[j], names[i]);
    Between(names, j, j + 1, i);
    Between(names, j, i - 1, i);
    FncompIsLexicographic(names[i - 1], names[i]);
    FncompIsLexicographic(names[j], names[j + 1]);
  }

  lemma Between(names: seq<Name>, j: nat, m: nat, i: nat)
    requires Sorted(names) && j <= m <= i < |names| && FullKey(names[j]) == FullKey(names[i])
    ensures FullKey(names[m]) == FullKey(names[i])
  {
    hide Fncomp, FullKey;
    FncompIsLexicographic(names[j], names[m]);
    FncompIsLexicographic(names[m], names[i]);
    FncompComparesKeys(names[j], names[m]);
    FncompComparesKeys(names[m], names[i]);
    DifferenceIsBefore(FullKey(names[j]), FullKey(names[i]));
    assert Fncomp(names[m], names[m]) <= 0 by { FncompIsLexicographic(names[m], names[m]); }
    DifferenceChains(FullKey(names[j]), FullKey(names[m]), FullKey(names[i]));
  }

  lemma SortedPrefix(names: seq<Name>, i: nat)
    requires Sorted(names) && i <= |names|
    ensures Sorted(names[..i])
  {
  }

  /** The key of the last name is that of an earlier one exactly when it is the neighbour's. */
  lemma LastRepeats(names: seq<Name>, i: nat)
    requires Sorted(names) && 0 < i == |names| - 1
    ensures FullKey(names[i]) in Keys(names[..i]) <==> Fncomp(names[i - 1], names[i]) == 0
  {
    hide Fncomp, FullKey;
    var before, last := names[..i], names[i];
    FncompIsLexicographic(names[i - 1], last);
    assert before[i - 1] == names[i - 1] && names[i - 1] in before;
    if FullKey(last) in Keys(before) {
      var name :| name in before && FullKey(name) == FullKey(last);
      var j :| 0 <= j < i && before[j] == name;
      NeighbourFirst(names, j, i);
    }
  }

  lemma KeysGrow(names: seq<Name>, i: nat)
    requires i == |names| - 1
    ensures Keys(names) == Keys(names[..i]) + {FullKey(names[i])}
  {
    hide FullKey;
    assert names == names[..i] + [names[i]];
    assert forall name :: name in names <==> name in names[..i] || name == names[i];
  }

  lemma ClashesGrow(names: seq<Name>, i: nat)
    requires i == |names| - 1
    ensures |Clashes(names)| == |Clashes(names[..i])| + if i > 0 && Fncomp(names[i - 1], names[i]) == 0 then 1 else 0
  {
    hide Fncomp;
  }

  lemma {:induction false} OneReportPerRepeat(names: seq<Name>)
    requires Sorted(names)
    ensures |Clashes(names)| + |Keys(names)| == |names|
  {
    hide Fncomp, FullKey, Sorted, Clashes;
    if names == [] {
      assert Keys(names) == {} && |Clashes(names)| == 0 by { NoClashes(); }
    } else {
      var i := |names| - 1;
      SortedPrefix(names, i);
      OneReportPerRepeat(names[..i]);
      KeysGrow(names, i);
      ClashesGrow(names, i);
      if i > 0 {
        LastRepeats(names, i);
      } else {
        assert names[..i] == [] && Keys([]) == {};
      }
      hide Keys;
      OneMore(Keys(names[..i]), FullKey(names[i]));
    }
  }

  lemma NoClashes()
    ensures Clashes([]) == []
  {
  }

  lemma OneMore<T>(s: set<T>, x: T)
    ensures |s + {x}| == |s| + if x in s then 0 else 1
  {
    if x in s { assert s + {x} == s; }
  }

  lemma {:induction false} ReportsAreNeighbours(names: seq<Name>, i: nat)
    requires i + 1 < |names|
    ensures Fncomp(names[i], names[i + 1]) == 0 ==>
              Reported(names[i], Clashes(names)) && Reported(names[i + 1], Clashes(names))
    decreases |names|
  {
    hide Fncomp;
    var m := |names| - 1;
    var earlier := Clashes(names[..m]);
    if Fncomp(names[i], names[i + 1]) == 0 {
      if i + 1 == m {
        assert Clashes(names)[|earlier|] == (names[i], names[i + 1]);
      } else {
        ReportsAreNeighbours(names[..m], i);
        Grows(names[i], earlier, Clashes(names));
        Grows(names[i + 1], earlier, Clashes(names));
      }
    }
  }

  lemma Grows(name: Name, earlier: seq<(Name, Name)>, all: seq<(Name, Name)>)
    requires earlier <= all && Reported(name, earlier)
    ensures Reported(name, all)
  {
    var k :| 0 <= k < |earlier| && (earlier[k].0 == name || earlier[k].1 == name);
    assert all[k] == earlier[k];
  }

  /** Whatever order the sort leaves equal names in, the number of reports is the number of names
      less the number of different keys, and a name is reported exactly when it shares its key with
      another of the directory's entries. */
  lemma ClashReports(names: seq<Name>, sorted: seq<Name>)
    requires multiset(names) == multiset(sorted) && Sorted(sorted)
    ensures |Clashes(sorted)| == |names| - |Keys(names)|
    ensures forall i, j :: 0 <= i < j < |sorted| && FullKey(sorted[i]) == FullKey(sorted[j]) ==>
              Reported(sorted[i], Clashes(sorted)) && Reported(sorted[j], Clashes(sorted))
    ensures forall name :: Reported(name, Clashes(sorted)) ==>
              exists i, j :: 0 <= i < j < |sorted| && FullKey(sorted[i]) == FullKey(sorted[j]) &&
                             (sorted[i] == name || sorted[j] == name)
  {
    hide Fncomp, FullKey, Clashes;
    assert |names| == |multiset(names)| == |sorted|;
    assert forall name :: name in names <==> name in multiset(names);
    assert Keys(names) == Keys(sorted);
    OneReportPerRepeat(sorted);
    forall i, j | 0 <= i < j < |sorted| && FullKey(sorted[i]) == FullKey(sorted[j])
      ensures Reported(sorted[i], Clashes(sorted)) && Reported(sorted[j], Clashes(sorted))
    {
      NeighbourFirst(sorted, i, j);
      ReportsAreNeighbours(sorted, i);
      ReportsAreNeighbours(sorted, j - 1);
    }
    forall name | Reported(name, Clashes(sorted))
      ensures exists i, j :: 0 <= i < j < |sorted| && FullKey(sorted[i]) == FullKey(sorted[j]) &&
                             (sorted[i] == name || sorted[j] == name)
    {
      var k :| 0 <= k < |Clashes(sorted)| && (Clashes(sorted)[k].0 == name || Clashes(sorted)[k].1 == name);
      var i := ReportIsAClash(sorted, k);
      assert FullKey(sorted[i]) == FullKey(sorted[i + 1]);
    }
  }

  lemma {:induction false} ReportIsAClash(names: seq<Name>, k: nat) returns (i: nat)
    requires k < |Clashes(names)|
    ensures i + 1 < |names| && Clashes(names)[k] == (names[i], names[i + 1])
    ensures FullKey(names[i]) == FullKey(names[i + 1])
    decreases |names|
  {
    hide Fncomp, FullKey;
    var m := |names| - 1;
    if k < |Clashes(names[..m])| {
      i := ReportIsAClash(names[..m], k);
    } else {
      i := m - 1;
      FncompIsLexicographic(names[i], names[i + 1]);
    }
  }
}
