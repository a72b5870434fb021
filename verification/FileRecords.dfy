/** The records of all files: the static array inclist and the record maininclist, which holds the
    definitions of the command line. */
module FileRecords {
  import opened SymbolTable
  import opened IncludePaths

  const MAXFILES := 512

  class World {
    const inclist: seq<IncList>
    const maininclist: IncList
    /** The first free slot. */
    var inclistp: nat
    ghost const records: set<IncList>

    /** The zero-initialised static records. */
    constructor ()
      ensures Valid() && fresh(records) && |inclist| == MAXFILES && inclistp == 0
      ensures forall r :: r in records ==>
                r.symbols == map[] && r.list == [] && !r.defchecked && !r.marked && !r.searched
    {
      var slots: seq<IncList> := [];
      var command := new IncList();
      while |slots| < MAXFILES
        invariant |slots| <= MAXFILES
        invariant fresh(command) && command.Valid() && command.defs == null && command.symbols == map[]
        invariant !command.defchecked && !command.marked && !command.searched && command.list == []
        invariant forall i :: 0 <= i < |slots| ==> fresh(slots[i]) && slots[i] != command && slots[i].Valid()
        invariant forall i :: 0 <= i < |slots| ==>
                  slots[i].defs == null && slots[i].symbols == map[] && slots[i].list == []
        invariant forall i :: 0 <= i < |slots| ==> !slots[i].defchecked && !slots[i].marked && !slots[i].searched
        invariant forall i, j :: 0 <= i < j < |slots| ==> slots[i] != slots[j]
      {
        var slot := new IncList();
        slots := slots + [slot];
      }
      inclist, maininclist, inclistp := slots, command, 0;
      records := (set r | r in slots) + {command};
    }

    /** Every table is sorted and in an array of its own. */
    ghost predicate Valid()
      reads records`defs, records`ndefs, records`symbols
      reads (set r | r in records && r.defs != null :: r.defs)
    {
      && maininclist in records && (forall i :: 0 <= i < |inclist| ==> inclist[i] in records)
      && (forall i, j :: 0 <= i < j < |inclist| ==> inclist[i] != inclist[j])
      && (forall i :: 0 <= i < |inclist| ==> inclist[i] != maininclist)
      && (forall i :: 0 <= i < |inclist| ==> inclist[i].Valid())
      && maininclist.Valid()
      && (forall i, j :: 0 <= i < j < |inclist| && inclist[i].defs != null ==> inclist[i].defs != inclist[j].defs)
      && (forall i :: 0 <= i < |inclist| && inclist[i].defs != null ==> inclist[i].defs != maininclist.defs)
    }

    /** The records hold what `g` and `command` say. */
    ghost predicate Shows(g: Slots, command: map<CString, CString>)
      requires maininclist in records && (forall i :: 0 <= i < |inclist| ==> inclist[i] in records)
      reads records`incstring, records`file, records`list, records`symbols, records`searched, records`includedSym
    {
      && |g| == |inclist|
      && maininclist.symbols == command
      && (forall i :: 0 <= i < |g| ==> inclist[i].incstring == g[i].incstring && inclist[i].file == g[i].file)
      && (forall i :: 0 <= i < |g| ==> inclist[i].list == g[i].list)
      && (forall i :: 0 <= i < |g| ==> inclist[i].symbols == g[i].symbols)
      && (forall i :: 0 <= i < |g| ==>
            inclist[i].searched == g[i].searched && inclist[i].includedSym == g[i].includedSym)
    }

    /** i_defchecked is set exactly on `stack`. */
    ghost predicate Stacked(stack: set<nat>)
      requires maininclist in records && (forall i :: 0 <= i < |inclist| ==> inclist[i] in records)
      reads records`defchecked
    {
      forall i: nat :: i < |inclist| ==> (inclist[i].defchecked <==> i in stack)
    }

    /** i_marked is set exactly on `marks`. */
    ghost predicate Marked(marks: set<nat>)
      requires forall i :: 0 <= i < |inclist| ==> inclist[i] in records
      reads records`marked
    {
      forall i: nat :: i < |inclist| ==> (inclist[i].marked <==> i in marks)
    }
  }
}
