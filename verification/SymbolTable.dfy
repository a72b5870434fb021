/** The symbol table of one file: an array of definitions kept sorted by name and searched by
    bisection (define2, slookup and the removal loop of undefine in makedepend's parse.c). */
module SymbolTable {
  import opened Options

  /** A C string: no NUL inside. */
  type CString = s: string | forall i :: 0 <= i < |s| ==> s[i] != '\0'

  datatype Symtab = Symtab(sName: CString, sValue: CString)

  const SYMTABINC := 10

  // ---- Order of names -------------------------------------------------------------------------

  /** strcmp's order. */
  predicate Less(a: CString, b: CString) {
    b != "" && (a == "" || a[0] < b[0] || (a[0] == b[0] && Less(a[1..], b[1..])))
  }

  lemma {:induction false} LessTrans(a: CString, b: CString, c: CString)
    requires Less(a, b) && Less(b, c)
    ensures Less(a, c)
  {
    if a != "" && a[0] == b[0] && b[0] == c[0] { LessTrans(a[1..], b[1..], c[1..]); }
  }

  lemma {:induction false} LessTotal(a: CString, b: CString)
    ensures Less(a, b) || Less(b, a) || a == b
    ensures !(Less(a, b) && Less(b, a))
    ensures Less(a, b) ==> a != b
  {
    if a != "" && b != "" && a[0] == b[0] {
      LessTotal(a[1..], b[1..]);
      if a[1..] == b[1..] { assert a == [a[0]] + a[1..] && b == [b[0]] + b[1..]; }
    }
  }

  function CharAt(s: CString, i: nat): char
    requires i <= |s|
  {
    if i < |s| then s[i] else '\0'
  }

  /** The comparison written out in both searches: run along both names while they agree and have
      not ended. */
  method Compare(a: CString, b: CString) returns (r: int)
    ensures r < 0 <==> Less(a, b)
    ensures r > 0 <==> Less(b, a)
    ensures r == 0 <==> a == b
  {
    var i := 0;
    while CharAt(a, i) == CharAt(b, i) && CharAt(a, i) != '\0'
      invariant i <= |a| && i <= |b| && a[..i] == b[..i]
      invariant Less(a, b) <==> Less(a[i..], b[i..])
      invariant Less(b, a) <==> Less(b[i..], a[i..])
      decreases |a| - i
    {
      assert a[i..][1..] == a[i + 1..] && b[i..][1..] == b[i + 1..];
      assert a[..i + 1] == a[..i] + [a[i]] && b[..i + 1] == b[..i] + [b[i]];
      i := i + 1;
    }
    r := CharAt(a, i) as int - CharAt(b, i) as int;
    if i == |a| == |b| { assert a == a[..i] && b == b[..i]; }
  }

  // ---- Tables as sequences and as maps --------------------------------------------------------

  predicate Sorted(t: seq<Symtab>) {
    forall i, j :: 0 <= i < j < |t| ==> Less(t[i].sName, t[j].sName)
  }

  /** No name occurs twice in a sorted table. */
  lemma SortedUnique(t: seq<Symtab>, i: nat, j: nat)
    requires Sorted(t) && i < |t| && j < |t|
    ensures t[i].sName == t[j].sName ==> i == j
  {
    LessTotal(t[i].sName, t[j].sName);
  }

  function ToMap(t: seq<Symtab>): map<CString, CString> {
    if t == [] then map[] else ToMap(t[..|t| - 1])[t[|t| - 1].sName := t[|t| - 1].sValue]
  }

  lemma {:induction false} MapHas(t: seq<Symtab>, i: nat)
    requires Sorted(t) && i < |t|
    ensures t[i].sName in ToMap(t) && ToMap(t)[t[i].sName] == t[i].sValue
  {
    if i < |t| - 1 {
      MapHas(t[..|t| - 1], i);
      SortedUnique(t, i, |t| - 1);
    }
  }

  lemma {:induction false} MapIndex(t: seq<Symtab>, n: CString) returns (i: nat)
    requires n in ToMap(t)
    ensures i < |t| && t[i].sName == n
  {
    i := |t| - 1;
    if t[i].sName != n { i := MapIndex(t[..i], n); }
  }

  /** A sorted table denotes the map with its bindings. */
  lemma MapIs(t: seq<Symtab>, m: map<CString, CString>)
    requires Sorted(t)
    requires forall i :: 0 <= i < |t| ==> t[i].sName in m && m[t[i].sName] == t[i].sValue
    requires forall n :: n in m ==> exists i :: 0 <= i < |t| && t[i].sName == n
    ensures ToMap(t) == m
  {
    hide ToMap, Less, Sorted;
    forall n ensures n in ToMap(t) <==> n in m {
      if n in ToMap(t) { var i := MapIndex(t, n); }
      if n in m { var i :| 0 <= i < |t| && t[i].sName == n; MapHas(t, i); }
    }
    forall n | n in m ensures ToMap(t)[n] == m[n] {
      var i :| 0 <= i < |t| && t[i].sName == n;
      MapHas(t, i);
    }
  }

  /** `k` is where `name` is or belongs. */
  predicate Splits(t: seq<Symtab>, k: nat, name: CString) {
    && k <= |t|
    && (forall i :: 0 <= i < k ==> Less(t[i].sName, name))
    && (forall i :: k <= i < |t| ==> Less(name, t[i].sName))
  }

  lemma AllLess(t: seq<Symtab>, m: nat, name: CString)
    requires Sorted(t) && m < |t| && Less(t[m].sName, name)
    ensures forall i :: 0 <= i <= m ==> Less(t[i].sName, name)
  {
    forall i | 0 <= i < m ensures Less(t[i].sName, name) { LessTrans(t[i].sName, t[m].sName, name); }
  }

  lemma AllGreater(t: seq<Symtab>, m: nat, name: CString)
    requires Sorted(t) && m < |t| && Less(name, t[m].sName)
    ensures forall i :: m <= i < |t| ==> Less(name, t[i].sName)
  {
    forall i | m < i < |t| ensures Less(name, t[i].sName) { LessTrans(name, t[m].sName, t[i].sName); }
  }

  lemma AbsentFromMap(t: seq<Symtab>, k: nat, name: CString)
    requires Sorted(t) && Splits(t, k, name)
    ensures name !in ToMap(t)
  {
    if name in ToMap(t) {
      var i := MapIndex(t, name);
      LessTotal(t[i].sName, name);
    }
  }

  lemma UpdatedMap(t: seq<Symtab>, k: nat, val: CString)
    requires Sorted(t) && k < |t|
    ensures Sorted(t[k := Symtab(t[k].sName, val)])
    ensures ToMap(t[k := Symtab(t[k].sName, val)]) == ToMap(t)[t[k].sName := val]
  {
    hide ToMap, Less;
    var u := t[k := Symtab(t[k].sName, val)];
    var m := ToMap(t)[t[k].sName := val];
    forall i | 0 <= i < |u| ensures u[i].sName in m && m[u[i].sName] == u[i].sValue {
      MapHas(t, i);
      SortedUnique(t, i, k);
    }
    forall n | n in m ensures exists i :: 0 <= i < |u| && u[i].sName == n {
      var i := k;
      if n != t[k].sName { i := MapIndex(t, n); }
      assert u[i].sName == n;
    }
    MapIs(u, m);
  }

  lemma InsertedSorted(t: seq<Symtab>, k: nat, e: Symtab)
    requires Sorted(t) && Splits(t, k, e.sName)
    ensures Sorted(t[..k] + [e] + t[k..])
  {
  }

  lemma WithGap(t: seq<Symtab>, k: nat, e: Symtab, u: seq<Symtab>)
    requires k <= |t| && |u| == |t| + 1 && u[k] == e
    requires forall i :: 0 <= i < k ==> u[i] == t[i]
    requires forall i :: k < i < |u| ==> u[i] == t[i - 1]
    ensures u == t[..k] + [e] + t[k..]
  {
  }

  lemma InsertedMap(t: seq<Symtab>, k: nat, e: Symtab)
    requires Sorted(t) && Splits(t, k, e.sName)
    ensures Sorted(t[..k] + [e] + t[k..])
    ensures ToMap(t[..k] + [e] + t[k..]) == ToMap(t)[e.sName := e.sValue]
  {
    hide ToMap, Less;
    var u := t[..k] + [e] + t[k..];
    InsertedSorted(t, k, e);
    var m := ToMap(t)[e.sName := e.sValue];
    forall i | 0 <= i < |u| ensures u[i].sName in m && m[u[i].sName] == u[i].sValue {
      if i != k {
        MapHas(t, if i < k then i else i - 1);
        LessTotal(u[i].sName, e.sName);
      }
    }
    forall n | n in m ensures exists i :: 0 <= i < |u| && u[i].sName == n {
      var j := k;
      if n != e.sName {
        var i := MapIndex(t, n);
        j := if i < k then i else i + 1;
      }
      assert u[j].sName == n;
    }
    MapIs(u, m);
  }

  lemma RemovedSorted(t: seq<Symtab>, k: nat)
    requires Sorted(t) && k < |t|
    ensures var u := t[..k] + t[k + 1..];
            Sorted(u)
  {
    hide Less;
    var u := t[..k] + t[k + 1..];
    assert forall i :: 0 <= i < |u| ==> u[i] == t[if i < k then i else i + 1];
  }

  lemma RemovedMap(t: seq<Symtab>, k: nat)
    requires Sorted(t) && k < |t|
    ensures Sorted(t[..k] + t[k + 1..])
    ensures ToMap(t[..k] + t[k + 1..]) == ToMap(t) - {t[k].sName}
  {
    RemovedSorted(t, k);
    hide ToMap, Less, Sorted;
    var u, m := t[..k] + t[k + 1..], ToMap(t) - {t[k].sName};
    forall i | 0 <= i < |u| ensures u[i].sName in m && m[u[i].sName] == u[i].sValue {
      KeptEntry(t, k, if i < k then i else i + 1);
    }
    forall n | n in m ensures exists i :: 0 <= i < |u| && u[i].sName == n {
      var i := MapIndex(t, n);
      KeptEntry(t, k, i);
    }
    MapIs(u, m);
  }

  /** Every entry but the removed one keeps its binding, and its place up to one. */
  lemma KeptEntry(t: seq<Symtab>, k: nat, j: nat)
    requires Sorted(t) && k < |t| && j < |t| && j != k
    ensures t[j].sName in ToMap(t) - {t[k].sName} && (ToMap(t) - {t[k].sName})[t[j].sName] == t[j].sValue
    ensures (t[..k] + t[k + 1..])[if j < k then j else j - 1] == t[j]
  {
    hide ToMap, Less, Sorted;
    MapHas(t, j);
    SortedUnique(t, j, k);
  }

  function Min(a: nat, b: nat): nat { if a < b then a else b }

  // ---- The array ------------------------------------------------------------------------------

  /** struct inclist.  Records live in one static array, so a pointer to one is its slot number;
      `list` is i_list[0 .. i_listlen], and i_deflen is the length of `defs`. */
  class IncList {
    var incstring: CString
    var file: CString
    var list: seq<nat>
    var defs: array?<Symtab>
    var ndefs: nat
    var defchecked: bool
    var marked: bool
    var searched: bool
    var includedSym: bool
    /** The definitions, as a map. */
    ghost var symbols: map<CString, CString>

    /** A slot of the zero-initialised array inclist. */
    constructor ()
      ensures Valid() && Table() == [] && symbols == map[] && list == [] && incstring == "" && file == ""
      ensures defs == null
      ensures !defchecked && !marked && !searched && !includedSym
    {
      incstring, file, list, defs, ndefs := "", "", [], null, 0;
      defchecked, marked, searched, includedSym := false, false, false, false;
      symbols := map[];
    }

    ghost predicate Fits()
      reads `ndefs, `defs
    {
      ndefs <= if defs == null then 0 else defs.Length
    }

    ghost function Table(): seq<Symtab>
      requires Fits()
      reads `ndefs, `defs, defs
    {
      if defs == null then [] else defs[..ndefs]
    }

    /** Within capacity, strictly sorted, and holding the bindings of `symbols`. */
    ghost predicate Valid()
      reads `ndefs, `defs, `symbols, defs
    {
      Fits() && (defs != null ==> defs.Length > 0) && Sorted(Table()) && symbols == ToMap(Table())
    }

    /** Binary search: the index of the definition of `symbol`, if there is one. */
    method Slookup(symbol: CString) returns (r: Option<nat>)
      requires Valid()
      ensures r.Some? <==> symbol in symbols
      ensures Fits() && (r.Some? ==> r.value < ndefs && Table()[r.value] == Symtab(symbol, symbols[symbol]))
    {
      var first, last := 0, ndefs as int - 1;
      ghost var t := Table();
      while last >= first
        invariant 0 <= first <= last + 1 <= ndefs
        invariant forall i :: 0 <= i < first ==> Less(t[i].sName, symbol)
        invariant forall i :: last < i < ndefs ==> Less(symbol, t[i].sName)
      {
        var middle := (first + last) / 2;
        assert defs[middle] == t[middle];
        var d := Compare(symbol, defs[middle].sName);
        if d == 0 {
          MapHas(t, middle);
          return Some(middle);
        }
        if d > 0 {
          AllLess(t, middle, symbol);
          first := middle + 1;
        } else {
          AllGreater(t, middle, symbol);
          last := middle - 1;
        }
      }
      AbsentFromMap(t, first, symbol);
      r := None;
    }

    /** Make space if it is needed. */
    method Grow()
      requires Valid()
      modifies this`defs
      ensures Valid() && Table() == old(Table())
      ensures defs != null && ndefs < defs.Length
      ensures defs == old(defs) || fresh(defs)
    {
      if defs == null {
        defs := new Symtab[SYMTABINC];
        assert Table() == [];
      } else if ndefs == defs.Length {
        var more := new Symtab[defs.Length + SYMTABINC];
        forall i | 0 <= i < ndefs { more[i] := defs[i]; }
        ghost var t := Table();
        assert more[..ndefs] == t;
        defs := more;
        assert Table() == t;
      }
    }

    /** Shift entries up, from the end down to `dest`.  In an empty table that is below `dest`, and
        the shifting stops where it starts. */
    method ShiftUp(dest: nat) returns (sp: nat)
      requires defs != null && ndefs < defs.Length
      modifies defs
      ensures sp == Min(dest, ndefs)
      ensures forall i :: 0 <= i < sp ==> defs[i] == old(defs[i])
      ensures forall i :: sp < i <= ndefs ==> defs[i] == old(defs[i - 1])
    {
      sp := ndefs;
      while sp > dest
        invariant Min(dest, ndefs) <= sp <= ndefs
        invariant forall i :: 0 <= i < sp ==> defs[i] == old(defs[i])
        invariant forall i :: sp < i <= ndefs ==> defs[i] == old(defs[i - 1])
      {
        defs[sp] := defs[sp - 1];
        sp := sp - 1;
      }
    }

    /** Make a gap, and store `e` where the shifting stopped. */
    method Insert(dest: nat, e: Symtab)
      requires Valid() && defs != null && ndefs < defs.Length
      requires Splits(Table(), Min(dest, ndefs), e.sName)
      modifies this`ndefs, this`symbols, defs
      ensures Valid()
      ensures symbols == old(symbols)[e.sName := e.sValue]
    {
      ghost var t, slot := Table(), Min(dest, ndefs);
      ghost var u := t[..slot] + [e] + t[slot..];
      InsertedMap(t, slot, e);
      hide ToMap, Less, Sorted, Splits;
      var sp := ShiftUp(dest);
      ndefs := ndefs + 1;
      defs[sp] := e;
      WithGap(t, slot, e, defs[..ndefs]);
      symbols := ToMap(u);
    }

    /** Replace the value of the entry at `sp`. */
    method Overwrite(sp: nat, val: CString)
      requires Valid() && sp < ndefs
      modifies this`symbols, defs
      ensures Valid()
      ensures symbols == old(symbols)[old(Table()[sp].sName) := val]
    {
      ghost var t := Table();
      defs[sp] := defs[sp].(sValue := val);
      ghost var u := t[sp := Symtab(t[sp].sName, val)];
      UpdatedMap(t, sp, val);
      symbols := ToMap(u);
      assert Table() == u;
    }

    /** Bind `name` to `val`, in place if it is defined already.  `below + 1` is the insertion point
        only once the search has failed. */
    method Define2(name: CString, val: CString)
      requires Valid()
      modifies this`defs, this`ndefs, this`symbols, defs
      ensures Valid()
      ensures symbols == old(symbols)[name := val]
      ensures defs == old(defs) || fresh(defs)
    {
      Grow();
      ghost var t, d0 := Table(), defs;
      var below, first, last := 0, 0, ndefs as int - 1;
      while last >= first
        invariant defs == d0 && Valid() && Table() == t && ndefs == |t| && symbols == old(symbols)
        invariant 0 <= first <= last + 1 <= ndefs
        invariant forall i :: 0 <= i < first ==> Less(t[i].sName, name)
        invariant forall i :: last < i < ndefs ==> Less(name, t[i].sName)
        invariant -1 <= below && (ndefs == 0 ==> below == 0)
        invariant last < first && ndefs > 0 ==> below + 1 == first
      {
        var middle := (first + last) / 2;
        assert defs[middle] == t[middle];
        var d := Compare(name, defs[middle].sName);
        if d == 0 {
          Overwrite(middle, val);
          return;
        }
        if d > 0 {
          AllLess(t, middle, name);
          below := first;
          first := middle + 1;
        } else {
          AllGreater(t, middle, name);
          last := middle - 1;
          below := last;
        }
      }
      Insert(below + 1, Symtab(name, val));
    }

    /** The removal loop of undefine: close the gap at `ptr`. */
    method Remove(ptr: nat)
      requires Valid() && ptr < ndefs
      modifies this`ndefs, this`symbols, defs
      ensures Valid() && ndefs == old(ndefs) - 1
      ensures symbols == old(symbols) - {old(Table()[ptr].sName)}
    {
      hide ToMap, Less;
      ghost var t := Table();
      ndefs := ndefs - 1;
      var p := ptr;
      while p < ndefs
        invariant ndefs == old(ndefs) - 1 && ptr <= p <= ndefs
        invariant forall i :: 0 <= i < ptr ==> defs[i] == t[i]
        invariant forall i :: ptr <= i < p ==> defs[i] == t[i + 1]
        invariant forall i :: p <= i <= ndefs ==> defs[i] == t[i]
      {
        defs[p] := defs[p + 1];
        p := p + 1;
      }
      ghost var u := t[..ptr] + t[ptr + 1..];
      RemovedMap(t, ptr);
      symbols := ToMap(u);
      assert Table() == u;
    }
  }
}
