/**
 * String tables as makestrs lays them out (xc/config/util/makestrs.c): the
 * offsets that go into the header, the array initialisers that go into the
 * source file, and whether the one points into the other as it should, for the
 * Default, Intel and Intel BC layouts.
 */
module MakeStrs {

  type CString = s: string | forall k :: 0 <= k < |s| ==> s[k] != '\0'

  /** The strings of a file's tables, table by table. */
  type Tables = seq<seq<CString>>

  // ---- What the arrays should hold --------------------------------------------------------------

  /** Every string followed by its NUL. */
  function Copies(strings: seq<CString>): string {
    if strings == [] then [] else Copies(strings[..|strings| - 1]) + strings[|strings| - 1] + ['\0']
  }

  function Flatten(tables: Tables): seq<CString> {
    if tables == [] then [] else Flatten(tables[..|tables| - 1]) + tables[|tables| - 1]
  }

  ghost predicate IsCopyAt(data: string, offset: nat, s: CString) {
    offset + |s| < |data| && data[offset..offset + |s|] == s && data[offset + |s|] == '\0'
  }

  lemma {:induction false} CopyAt(strings: seq<CString>, i: nat)
    requires i < |strings|
    ensures IsCopyAt(Copies(strings), |Copies(strings[..i])|, strings[i])
    decreases |strings|
  {
    var n := |strings| - 1;
    var before := Copies(strings[..n]);
    if i < n {
      CopyAt(strings[..n], i);
      assert strings[..n][..i] == strings[..i];
      assert before <= Copies(strings);
      var at := |Copies(strings[..i])|;
      assert Copies(strings)[at..at + |strings[i]|] == before[at..at + |strings[i]|];
    }
  }

  lemma {:induction false} CopiesOfBoth(a: seq<CString>, b: seq<CString>)
    ensures Copies(a + b) == Copies(a) + Copies(b)
    decreases |b|
  {
    if b == [] {
      assert a + b == a && Copies(b) == [] && Copies(a) + [] == Copies(a);
    } else {
      var n := |b| - 1;
      assert (a + b)[..|a| + n] == a + b[..n] && (a + b)[|a| + n] == b[n];
      CopiesOfBoth(a, b[..n]);
      hide *;
      CopiesLast(a + b);
      CopiesLast(b);
      Regroup(Copies(a), Copies(b[..n]), b[n] + ['\0']);
    }
  }

  lemma CopiesLast(table: seq<CString>)
    requires table != []
    ensures var n := |table| - 1; Copies(table) == Copies(table[..n]) + (table[n] + ['\0'])
  {
  }

  lemma Regroup(a: string, b: string, c: string)
    ensures (a + b) + c == a + (b + c)
  {
  }

  /** Offsets: running over all the tables of a file, or over each one by itself. */
  function DefaultOffset(tables: Tables, t: nat, e: nat): nat
    requires t < |tables| && e <= |tables[t]|
  {
    |Copies(Flatten(tables[..t]))| + TableOffset(tables[t], e)
  }

  function TableOffset(table: seq<CString>, e: nat): nat
    requires e <= |table|
  {
    |Copies(table[..e])|
  }

  lemma OffsetStep(table: seq<CString>, e: nat)
    requires e < |table|
    ensures TableOffset(table, e + 1) == TableOffset(table, e) + |table[e]| + 1
  {
    assert table[..e + 1][..e] == table[..e];
  }

  lemma DefaultStep(tables: Tables, t: nat, e: nat)
    requires t < |tables| && e < |tables[t]|
    ensures DefaultOffset(tables, t, e + 1) == DefaultOffset(tables, t, e) + |tables[t][e]| + 1
  {
    OffsetStep(tables[t], e);
  }

  lemma OffsetNext(tables: Tables, t: nat)
    requires t + 1 < |tables|
    ensures DefaultOffset(tables, t + 1, 0) == DefaultOffset(tables, t, |tables[t]|)
  {
    assert tables[..t + 1][..t] == tables[..t];
    CopiesOfBoth(Flatten(tables[..t]), tables[t]);
    assert tables[t][..|tables[t]|] == tables[t];
    assert tables[t + 1][..0] == [];
  }

  // ---- What is written, as the tokens of a C initialiser ----------------------------------------

  datatype Token = Value(c: char) | Comma

  function Pairs(values: string): seq<Token> {
    if values == [] then [] else Pairs(values[..|values| - 1]) + [Value(values[|values| - 1]), Comma]
  }

  function SourceLine(s: CString, more: bool): seq<Token> {
    Pairs(s) + [Value('\0')] + if more then [Comma] else []
  }

  /** All the lines of a table: a comma after each but the last, which has one only when told to. */
  function SourceTable(table: seq<CString>, fudge: bool): seq<Token> {
    if table == [] then []
    else SourceTable(table[..|table| - 1], true) + SourceLine(table[|table| - 1], fudge)
  }

  function DefaultSource(tables: Tables): seq<Token> {
    SourceUpTo(tables, |tables|)
  }

  /** The first n tables of a Default array; only the very last table of the file is told that no
      other follows. */
  function SourceUpTo(tables: Tables, n: nat): seq<Token>
    requires n <= |tables|
  {
    if n == 0 then [] else SourceUpTo(tables, n - 1) + SourceTable(tables[n - 1], n < |tables|)
  }

  /** The second array of the Intel BC layout, whose loop passes no such word on. */
  function SecondSource(tables: Tables): seq<Token> {
    if tables == [] then [] else SecondSource(tables[..|tables| - 1]) + SourceTable(tables[|tables| - 1], false)
  }

  datatype Array = NotAnInitialiser | Array(data: string)

  /** The C reading of an initialiser: values with one comma between them, and perhaps one after the
      last. */
  function Read(tokens: seq<Token>): Array {
    if tokens == [] then Array([])
    else if tokens[0] == Comma then NotAnInitialiser
    else if |tokens| == 1 then Array([tokens[0].c])
    else if tokens[1] != Comma then NotAnInitialiser
    else
      match Read(tokens[2..])
      case NotAnInitialiser => NotAnInitialiser
      case Array(data) => Array([tokens[0].c] + data)
  }

  lemma {:induction false} ReadPairs(values: string, rest: seq<Token>)
    ensures Read(Pairs(values) + rest) ==
            if Read(rest).NotAnInitialiser? then NotAnInitialiser else Array(values + Read(rest).data)
    decreases |values|
  {
    if values == [] {
      assert Pairs(values) + rest == rest;
    } else {
      var n := |values| - 1;
      var last := [Value(values[n]), Comma] + rest;
      assert last[2..] == rest;
      ReadPairs(values[..n], last);
      assert Pairs(values) + rest == Pairs(values[..n]) + last;
      assert values == values[..n] + [values[n]];
      if Read(rest).Array? {
        assert values + Read(rest).data == values[..n] + ([values[n]] + Read(rest).data);
      }
    }
  }

  lemma {:induction false} PairsOfBoth(a: string, b: string)
    ensures Pairs(a + b) == Pairs(a) + Pairs(b)
    decreases |b|
  {
    if b == [] {
      assert a + b == a;
    } else {
      assert (a + b)[..|a + b| - 1] == a + b[..|b| - 1];
      PairsOfBoth(a, b[..|b| - 1]);
    }
  }

  lemma WithComma(a: seq<Token>, b: seq<Token>)
    ensures a + b + [] == a + (b + []) && a + b + [Comma] == a + (b + [Comma])
    ensures a + b != [] ==> (a + b + [Comma])[0] == (a + b)[0]
  {
  }

  lemma {:induction false} TableIsPairs(table: seq<CString>, fudge: bool)
    ensures fudge ==> SourceTable(table, fudge) == Pairs(Copies(table))
    ensures !fudge && table != [] ==> SourceTable(table, fudge) + [Comma] == Pairs(Copies(table))
    ensures table != [] ==> |SourceTable(table, fudge)| > 0 && SourceTable(table, fudge)[0].Value?
  {
    if table != [] {
      var n := |table| - 1;
      var before, s := Copies(table[..n]), table[n];
      var line := SourceLine(s, fudge);
      TableIsPairs(table[..n], true);
      LineIsPairs(s, fudge);
      PairsOfBoth(before, s + ['\0']);
      PairsStart(before + (s + ['\0']));
      LastTable(table, fudge);
      hide *;
      WithComma(Pairs(before), line);
    }
  }

  lemma LastTable(table: seq<CString>, fudge: bool)
    requires table != []
    ensures var n := |table| - 1;
            SourceTable(table, fudge) == SourceTable(table[..n], true) + SourceLine(table[n], fudge) &&
            Copies(table) == Copies(table[..n]) + (table[n] + ['\0'])
  {
    hide SourceLine;
  }

  lemma LineIsPairs(s: CString, more: bool)
    ensures |SourceLine(s, more)| > 0
    ensures SourceLine(s, more) + (if more then [] else [Comma]) == Pairs(s + ['\0'])
  {
    PairsOfBoth(s, ['\0']);
    assert ['\0'][..0] == [];
    assert Pairs(['\0']) == [Value('\0'), Comma];
  }

  lemma {:induction false} PairsStart(values: string)
    ensures values != [] ==> |Pairs(values)| >= 2 && Pairs(values)[0].Value?
  {
    if |values| > 1 { PairsStart(values[..|values| - 1]); }
  }

  /** A table on its own reads back as the copies of its strings, with or without a comma at its
      end. */
  lemma ReadTable(table: seq<CString>, fudge: bool, values: string)
    ensures Read(Pairs(values) + SourceTable(table, fudge)) == Array(values + Copies(table))
  {
    TableIsPairs(table, fudge);
    var data := Copies(table);
    if fudge || table == [] {
      ReadPairs(values, SourceTable(table, fudge));
      ReadPairs(data, []);
      assert Pairs(data) + [] == Pairs(data) && data + [] == data;
    } else {
      var n := |data| - 1;
      assert Copies(table)[n] == '\0';
      var tokens := SourceTable(table, fudge);
      assert tokens == (tokens + [Comma])[..|tokens|];
      assert Pairs(data) == Pairs(data[..n]) + [Value('\0'), Comma];
      assert tokens == Pairs(data[..n]) + [Value('\0')];
      ReadPairs(data[..n], [Value('\0')]);
      ReadPairs(values, SourceTable(table, fudge));
      assert data == data[..n] + ['\0'];
    }
  }

  lemma {:induction false} AllButLast(tables: Tables, n: nat)
    requires n < |tables|
    ensures SourceUpTo(tables, n) == Pairs(Copies(Flatten(tables[..n])))
  {
    if n == 0 {
      assert tables[..0] == [];
    } else {
      AllButLast(tables, n - 1);
      TableIsPairs(tables[n - 1], true);
      assert tables[..n][..n - 1] == tables[..n - 1];
      CopiesOfBoth(Flatten(tables[..n - 1]), tables[n - 1]);
      PairsOfBoth(Copies(Flatten(tables[..n - 1])), Copies(tables[n - 1]));
    }
  }

  lemma DefaultReads(tables: Tables)
    ensures Read(DefaultSource(tables)) == Array(Copies(Flatten(tables)))
  {
    if tables != [] {
      var n := |tables| - 1;
      AllButLast(tables, n);
      ReadTable(tables[n], false, Copies(Flatten(tables[..n])));
      CopiesOfBoth(Flatten(tables[..n]), tables[n]);
    }
  }

  /** The Default layout (and the Function layout, which shares its array and its offsets): every
      offset in the header is that of a copy of its string. */
  lemma DefaultLayout(tables: Tables, t: nat, e: nat)
    requires t < |tables| && e < |tables[t]|
    ensures Read(DefaultSource(tables)).Array?
    ensures IsCopyAt(Read(DefaultSource(tables)).data, DefaultOffset(tables, t, e), tables[t][e])
  {
    DefaultReads(tables);
    FlattenAt(tables, t);
    var all, i := Flatten(tables), |Flatten(tables[..t])| + e;
    CopyAt(all, i);
    assert all[i] == tables[t][e];
    assert all[..i] == Flatten(tables[..t]) + tables[t][..e];
    CopiesOfBoth(Flatten(tables[..t]), tables[t][..e]);
  }

  lemma {:induction false} FlattenAt(tables: Tables, t: nat)
    requires t < |tables|
    ensures Flatten(tables[..t]) + tables[t] <= Flatten(tables)
    decreases |tables|
  {
    var n := |tables| - 1;
    if t < n {
      FlattenAt(tables[..n], t);
      assert tables[..n][..t] == tables[..t];
    }
  }

  /** The Intel layout: one array a table, offsets within it. */
  lemma IntelLayout(table: seq<CString>, e: nat)
    requires e < |table|
    ensures Read(SourceTable(table, false)).Array?
    ensures IsCopyAt(Read(SourceTable(table, false)).data, TableOffset(table, e), table[e])
  {
    ReadTable(table, false, []);
    assert Pairs([]) + SourceTable(table, false) == SourceTable(table, false);
    assert [] + Copies(table) == Copies(table);
    CopyAt(table, e);
  }

  // ---- The Intel BC layout ----------------------------------------------------------------------

  /** An array named after the first table that holds all of them, and one named after the second
      that holds all but the first. */
  function BcArray(tables: Tables, t: nat): seq<Token>
    requires t < 2 && t < |tables|
  {
    if t == 0 then DefaultSource(tables) else SecondSource(tables[1..])
  }

  ghost predicate BcReferenceWorks(tables: Tables, t: nat, e: nat)
    requires t < |tables| && e < |tables[t]|
  {
    t < 2 && Read(BcArray(tables, t)).Array? &&
    IsCopyAt(Read(BcArray(tables, t)).data, TableOffset(tables[t], e), tables[t][e])
  }

  /** Every reference of the header finds its string exactly when no table after the second has an
      entry; in particular with one or two tables. */
  lemma BcLayoutWorksExactly(tables: Tables)
    ensures (forall t, e :: 0 <= t < |tables| && 0 <= e < |tables[t]| ==> BcReferenceWorks(tables, t, e))
       <==> (forall t :: 2 <= t < |tables| ==> tables[t] == [])
  {
    if t :| 2 <= t < |tables| && tables[t] != [] {
      assert !BcReferenceWorks(tables, t, 0);
    } else {
      forall t, e | 0 <= t < |tables| && 0 <= e < |tables[t]| ensures BcReferenceWorks(tables, t, e) {
        BcWorks(tables, t, e);
      }
    }
  }

  lemma BcWorks(tables: Tables, t: nat, e: nat)
    requires t < |tables| && e < |tables[t]|
    requires forall k :: 2 <= k < |tables| ==> tables[k] == []
    ensures BcReferenceWorks(tables, t, e)
  {
    if t == 0 {
      DefaultLayout(tables, 0, e);
      assert tables[..0] == [];
    } else {
      IntelLayout(tables[1], e);
      RestEmpty(tables[1..]);
    }
  }

  lemma {:induction false} RestEmpty(tables: Tables)
    requires tables != [] && forall k :: 1 <= k < |tables| ==> tables[k] == []
    ensures SecondSource(tables) == SourceTable(tables[0], false)
  {
    if |tables| > 1 {
      RestEmpty(tables[..|tables| - 1]);
    } else {
      assert tables[..0] == [];
    }
  }

  /** With entries in the second table and in a later one, the second array is not even an
      initialiser: there is no comma where the tables meet. */
  lemma BcSecondArrayReadsExactly(tables: Tables)
    ensures Read(SecondSource(tables)).Array? <==>
            forall i, j :: 0 <= i < j < |tables| ==> tables[i] == [] || tables[j] == []
  {
    if i, j :| 0 <= i < j < |tables| && tables[i] != [] && tables[j] != [] {
      BrokenBetween(tables, i, j);
    } else {
      OneTableOnly(tables);
    }
  }

  lemma {:induction false} OneTableOnly(tables: Tables)
    requires forall i, j :: 0 <= i < j < |tables| ==> tables[i] == [] || tables[j] == []
    ensures || SecondSource(tables) == []
            || exists i :: 0 <= i < |tables| && SecondSource(tables) == SourceTable(tables[i], false)
    ensures Read(SecondSource(tables)).Array?
    ensures (forall i :: 0 <= i < |tables| ==> tables[i] == []) ==> SecondSource(tables) == []
  {
    if tables != [] {
      var n := |tables| - 1;
      OneTableOnly(tables[..n]);
      if tables[n] == [] {
        assert SecondSource(tables) == SecondSource(tables[..n]);
        if SecondSource(tables) != [] {
          var i :| 0 <= i < n && SecondSource(tables[..n]) == SourceTable(tables[..n][i], false);
          assert tables[i] == tables[..n][i];
        }
      } else {
        assert SecondSource(tables) == SourceTable(tables[n], false);
        ReadTable(tables[n], false, []);
        assert Pairs([]) + SourceTable(tables[n], false) == SourceTable(tables[n], false);
      }
    }
  }

  /** Two values side by side are never an initialiser, whatever is around them. */
  ghost predicate Gap(tokens: seq<Token>, k: int) {
    0 <= k < |tokens| - 1 && tokens[k].Value? && tokens[k + 1].Value?
  }

  lemma {:induction false} GapBreaks(tokens: seq<Token>, k: nat)
    requires Gap(tokens, k)
    ensures Read(tokens).NotAnInitialiser?
    decreases |tokens|
  {
    if k >= 2 { GapBreaks(tokens[2..], k - 2); }
  }

  lemma {:induction false} BrokenBetween(tables: Tables, i: nat, j: nat)
    requires i < j < |tables| && tables[i] != [] && tables[j] != []
    ensures Read(SecondSource(tables)).NotAnInitialiser?
  {
    var k := FindGap(tables, i, j);
    GapBreaks(SecondSource(tables), k);
  }

  lemma {:induction false} FindGap(tables: Tables, i: nat, j: nat) returns (k: nat)
    requires i < j < |tables| && tables[i] != [] && tables[j] != []
    ensures Gap(SecondSource(tables), k)
    decreases |tables|
  {
    var n := |tables| - 1;
    var before, last := SecondSource(tables[..n]), SourceTable(tables[n], false);
    if j < n {
      k := FindGap(tables[..n], i, j);
      assert before <= SecondSource(tables);
    } else {
      LastIsValue(tables[..n], i);
      TableIsPairs(tables[n], false);
      k := |before| - 1;
      assert (before + last)[k] == before[k] && (before + last)[k + 1] == last[0];
    }
  }

  lemma {:induction false} LastIsValue(tables: Tables, i: nat)
    requires i < |tables| && tables[i] != []
    ensures |SecondSource(tables)| > 0 && SecondSource(tables)[|SecondSource(tables)| - 1].Value?
    decreases |tables|
  {
    var n := |tables| - 1;
    if tables[n] == [] {
      LastIsValue(tables[..n], i);
      assert SecondSource(tables) == SecondSource(tables[..n]);
    }
  }

  // ---- The program's own lists and loops --------------------------------------------------------

  class TableEnt {
    const right: CString
    var offset: int

    constructor (right: CString)
      ensures this.right == right
    {
      this.right := right;
    }
  }

  class Table {
    const entries: seq<TableEnt>
    var offset: int

    constructor (entries: seq<TableEnt>)
      ensures this.entries == entries && offset == 0
    {
      this.entries := entries;
      offset := 0;
    }
  }

  ghost function Strings(t: Table): (strings: seq<CString>)
    ensures |strings| == |t.entries|
  {
    seq(|t.entries|, i requires 0 <= i < |t.entries| => t.entries[i].right)
  }

  ghost function AllStrings(file: seq<Table>): (tables: Tables)
    ensures |tables| == |file|
  {
    seq(|file|, i requires 0 <= i < |file| => Strings(file[i]))
  }

  /** Every entry was allocated for one place in one table, and every table once. */
  ghost predicate OwnEntries(file: seq<Table>) {
    && (forall t, u :: 0 <= t < u < |file| ==> file[t] != file[u])
    && (forall t, e, u, f {:trigger file[t].entries[e], file[u].entries[f]} ::
          (0 <= t < |file| && 0 <= e < |file[t].entries| && 0 <= u < |file| && 0 <= f < |file[u].entries| &&
           file[t].entries[e] == file[u].entries[f]) ==> (t == u && e == f))
  }

  ghost function EntriesOf(file: seq<Table>): set<TableEnt> {
    set t, e | 0 <= t < |file| && 0 <= e < |file[t].entries| :: file[t].entries[e]
  }

  method DefaultIndexEntries(file: seq<Table>)
    requires OwnEntries(file)
    modifies EntriesOf(file)
    ensures forall t, e :: 0 <= t < |file| && 0 <= e < |file[t].entries| ==>
              file[t].entries[e].offset == DefaultOffset(AllStrings(file), t, e)
  {
    hide DefaultOffset, TableOffset;
    ghost var tables := AllStrings(file);
    var offset, i := 0, 0;
    if file != [] { ZeroOffset(tables); }
    while i < |file|
      invariant 0 <= i <= |file|
      invariant i < |file| ==> offset == DefaultOffset(tables, i, 0)
      invariant forall t, e :: 0 <= t < i && 0 <= e < |file[t].entries| ==>
                  file[t].entries[e].offset == DefaultOffset(tables, t, e)
    {
      var t, j := file[i], 0;
      while j < |t.entries|
        invariant 0 <= j <= |t.entries|
        invariant offset == DefaultOffset(tables, i, j)
        invariant forall e :: 0 <= e < j ==> t.entries[e].offset == DefaultOffset(tables, i, e)
        invariant forall t, e :: 0 <= t < i && 0 <= e < |file[t].entries| ==>
                    file[t].entries[e].offset == DefaultOffset(tables, t, e)
      {
        var te := t.entries[j];
        te.offset := offset;
        offset := offset + |te.right|;
        offset := offset + 1;
        DefaultStep(tables, i, j);
        j := j + 1;
      }
      if i + 1 < |file| { OffsetNext(tables, i); }
      i := i + 1;
    }
  }

  lemma ZeroOffset(tables: Tables)
    requires tables != []
    ensures DefaultOffset(tables, 0, 0) == 0
  {
    assert tables[..0] == [] && tables[0][..0] == [];
  }

  lemma StartOfTable(strings: seq<CString>)
    ensures TableOffset(strings, 0) == 0
  {
    assert strings[..0] == [];
  }

  lemma EntryStep(t: Table, j: nat)
    requires j < |t.entries|
    ensures TableOffset(Strings(t), j + 1) == TableOffset(Strings(t), j) + |t.entries[j].right| + 1
  {
    OffsetStep(Strings(t), j);
  }

  ghost predicate Indexed(t: Table)
    reads t, t.entries
  {
    && t.offset == TableOffset(Strings(t), |t.entries|)
    && forall e :: 0 <= e < |t.entries| ==> t.entries[e].offset == TableOffset(Strings(t), e)
  }

  lemma IndexedIs(t: Table)
    ensures Indexed(t) <==>
              && t.offset == TableOffset(Strings(t), |t.entries|)
              && forall e :: 0 <= e < |t.entries| ==> t.entries[e].offset == TableOffset(Strings(t), e)
  {
    hide TableOffset, Strings;
  }

  /** Each table keeps its own running offset, which starts out as 0. */
  method IntelABIIndexEntries(file: seq<Table>)
    requires OwnEntries(file) && forall t :: t in file ==> t.offset == 0
    modifies EntriesOf(file), file
    ensures forall t, e :: 0 <= t < |file| && 0 <= e < |file[t].entries| ==>
              file[t].entries[e].offset == TableOffset(Strings(file[t]), e)
    ensures forall t :: t in file ==> t.offset == TableOffset(Strings(t), |t.entries|)
  {
    hide TableOffset, Copies, Strings, Indexed;
    var i := 0;
    while i < |file|
      invariant 0 <= i <= |file|
      invariant forall t :: 0 <= t < i ==> Indexed(file[t])
      invariant forall t :: i <= t < |file| ==> file[t].offset == 0
    {
      var t, j := file[i], 0;
      StartOfTable(Strings(t));
      while j < |t.entries|
        invariant 0 <= j <= |t.entries|
        invariant t.offset == TableOffset(Strings(t), j)
        invariant forall e :: 0 <= e < j ==> t.entries[e].offset == TableOffset(Strings(t), e)
        invariant forall t :: 0 <= t < i ==> Indexed(file[t])
        invariant forall t :: i < t < |file| ==> file[t].offset == 0
      {
        var te := t.entries[j];
        te.offset := t.offset;
        t.offset := t.offset + |te.right|;
        t.offset := t.offset + 1;
        EntryStep(t, j);
        j := j + 1;
      }
      IndexedIs(t);
      i := i + 1;
    }
    forall t | 0 <= t < |file|
      ensures file[t].offset == TableOffset(Strings(file[t]), |file[t].entries|)
      ensures forall e :: 0 <= e < |file[t].entries| ==> file[t].entries[e].offset == TableOffset(Strings(file[t]), e)
    {
      IndexedIs(file[t]);
    }
  }

  method WriteSourceLine(s: CString, more: bool) returns (out: seq<Token>)
    ensures out == SourceLine(s, more)
  {
    out := [];
    var c := 0;
    while c < |s|
      invariant 0 <= c <= |s| && out == Pairs(s[..c])
    {
      out := out + [Value(s[c]), Comma];
      assert s[..c + 1][..c] == s[..c];
      c := c + 1;
    }
    assert s[..c] == s;
    out := out + [Value('\0')];
    if more { out := out + [Comma]; }
  }

  /** One table of the write loops, which all have this inner loop. */
  method WriteTable(t: Table, fudge: bool) returns (out: seq<Token>)
    ensures out == SourceTable(Strings(t), fudge)
  {
    out := [];
    var j := 0;
    ghost var strings := Strings(t);
    while j < |t.entries|
      invariant 0 <= j <= |t.entries|
      invariant out == SourceTable(strings[..j], j < |t.entries| || fudge)
    {
      var line := WriteSourceLine(t.entries[j].right, j + 1 < |t.entries| || fudge);
      out := out + line;
      assert strings[..j + 1][..j] == strings[..j];
      j := j + 1;
    }
    assert strings[..j] == strings;
  }

  method DefaultWriteSource(file: seq<Table>) returns (out: seq<Token>)
    ensures out == DefaultSource(AllStrings(file))
  {
    hide SourceTable;
    out := [];
    var i := 0;
    while i < |file|
      invariant 0 <= i <= |file|
      invariant out == SourceUpTo(AllStrings(file), i)
    {
      var table := WriteTable(file[i], i + 1 < |file|);
      out := out + table;
      i := i + 1;
    }
  }

  method IntelABIBCWriteSource(file: seq<Table>) returns (first: seq<Token>, second: seq<Token>)
    requires file != []
    ensures first == BcArray(AllStrings(file), 0)
    ensures |file| > 1 ==> second == BcArray(AllStrings(file), 1)
  {
    first := DefaultWriteSource(file);
    second := [];
    ghost var tables := AllStrings(file)[1..];
    var i := 1;
    assert tables[..0] == [];
    while i < |file|
      invariant 1 <= i <= |file|
      invariant second == SecondSource(tables[..i - 1])
    {
      var table := WriteTable(file[i], false);
      second := second + table;
      assert tables[..i][..i - 1] == tables[..i - 1];
      i := i + 1;
    }
    assert tables[..|file| - 1] == tables;
  }
}
