/**
 * Unpacking a ListFonts reply where it lies (xc/lib/FS/FSFtNames.c). The reply
 * holds each name as one length byte and that many characters; the loop makes C
 * strings of them by overwriting the length byte that follows each name, and one
 * byte past the reply for the last.
 */
module FontNames {

  type Byte = b: int | 0 <= b < 256
  type FontName = s: seq<Byte> | |s| < 256

  /** The names as the font server packs them. */
  function Packed(names: seq<FontName>): seq<Byte> {
    if names == [] then [] else Packed(names[..|names| - 1]) + Item(names[|names| - 1])
  }

  function Item(name: FontName): seq<Byte> { [|name|] + name }

  /** Where name i starts, its length byte first, and where the next one would. */
  function Start(names: seq<FontName>, i: nat): nat
    requires i <= |names|
  {
    |Packed(names[..i])|
  }

  lemma StartStep(names: seq<FontName>, i: nat)
    requires i < |names|
    ensures Start(names, i + 1) == Start(names, i) + 1 + |names[i]|
    ensures Packed(names[..i + 1]) == Packed(names[..i]) + Item(names[i])
  {
    assert names[..i + 1][..i] == names[..i];
  }

  lemma {:induction false} PackedPrefix(names: seq<FontName>, i: nat)
    requires i <= |names|
    ensures Packed(names[..i]) <= Packed(names)
    decreases |names| - i
  {
    if i == |names| {
      assert names[..i] == names;
    } else {
      PackedPrefix(names, i + 1);
      StartStep(names, i);
    }
  }

  /** Name i and its length byte, seen in any buffer that begins with the packed names. */
  lemma ItemAt(names: seq<FontName>, i: nat, data: seq<Byte>)
    requires i < |names| && Packed(names) <= data
    ensures Start(names, i + 1) == Start(names, i) + 1 + |names[i]| <= |Packed(names)|
    ensures data[Start(names, i)] == |names[i]|
    ensures data[Start(names, i) + 1..Start(names, i + 1)] == names[i]
  {
    hide Packed;
    StartStep(names, i);
    PackedPrefix(names, i + 1);
    var upto := Packed(names[..i + 1]);
    assert upto[Start(names, i)..] == Item(names[i]);
    assert data[..|upto|] == upto;
    assert data[Start(names, i)..Start(names, i + 1)] == Item(names[i]);
  }

  lemma StartsIncrease(names: seq<FontName>, i: nat, j: nat)
    requires i < j <= |names|
    ensures Start(names, i) + 1 + |names[i]| <= Start(names, j)
    decreases j
  {
    hide Packed;
    StartStep(names, j - 1);
    if i < j - 1 { StartsIncrease(names, i, j - 1); }
  }

  /** The characters up to the NUL that ends the string at p. */
  ghost predicate IsString(data: seq<Byte>, p: nat, name: seq<Byte>) {
    p + |name| < |data| && data[p..p + |name|] == name && data[p + |name|] == 0
  }

  /** Which bytes the loop has overwritten after its first n steps. */
  ghost predicate Cut(names: seq<FontName>, n: nat, p: int)
    requires n <= |names|
  {
    exists i :: 0 < i <= n && p == Start(names, i)
  }

  method Unpack(c0: array<Byte>, nFonts: nat, ghost names: seq<FontName>) returns (flist: seq<nat>)
    requires |names| == nFonts > 0
    requires c0.Length > 0 && Packed(names) <= c0[..c0.Length - 1]
    modifies c0
    ensures |flist| == |names|
    ensures forall i :: 0 <= i < nFonts ==> flist[i] == Start(names, i) + 1 && IsString(c0[..], flist[i], names[i])
    ensures flist[0] == 1
    ensures forall p :: 0 <= p < c0.Length ==> c0[p] == if Cut(names, nFonts, p) then 0 else old(c0[p])
  {
    hide Packed, Start, Cut, IsString;
    ghost var data := c0[..];
    flist := [];
    var c: nat := 0;
    var length: nat := c0[c];
    FirstStart(names);
    ItemAt(names, 0, data);
    var i := 0;
    while i < nFonts
      invariant 0 <= i <= nFonts && |flist| == i
      invariant c == Start(names, i)
      invariant i < nFonts ==> length == |names[i]|
      invariant forall k {:trigger flist[k]} :: 0 <= k < i ==> flist[k] == Start(names, k) + 1
      invariant forall p :: 0 <= p < c0.Length ==> c0[p] == if Cut(names, i, p) then 0 else data[p]
    {
      flist := flist + [c + 1];
      ItemAt(names, i, data);
      c := c + length + 1;
      if i + 1 < nFonts { ItemAt(names, i + 1, data); }
      NotYetCut(names, i);
      length := c0[c];
      c0[c] := 0;
      i := i + 1;
    }
    forall k | 0 <= k < nFonts ensures IsString(c0[..], flist[k], names[k]) {
      CutIsString(names, k, data, c0[..]);
    }
  }

  lemma FirstStart(names: seq<FontName>)
    ensures Start(names, 0) == 0
    ensures forall p :: !Cut(names, 0, p)
  {
    assert names[..0] == [];
  }

  lemma CutIsString(names: seq<FontName>, k: nat, before: seq<Byte>, after: seq<Byte>)
    requires k < |names| && Packed(names) <= before && |before| == |after| && |Packed(names)| < |before|
    requires forall p :: 0 <= p < |after| ==> after[p] == if Cut(names, |names|, p) then 0 else before[p]
    ensures IsString(after, Start(names, k) + 1, names[k])
  {
    hide Packed, Start;
    ItemAt(names, k, before);
    Uncut(names, k);
    var p := Start(names, k) + 1;
    assert Cut(names, |names|, Start(names, k + 1));
    assert after[p..p + |names[k]|] == before[p..p + |names[k]|];
  }

  lemma NotYetCut(names: seq<FontName>, i: nat)
    requires i < |names|
    ensures !Cut(names, i, Start(names, i + 1))
    ensures forall p :: Cut(names, i + 1, p) <==> Cut(names, i, p) || p == Start(names, i + 1)
  {
    hide Packed, Start;
    forall k | 0 < k <= i ensures Start(names, k) < Start(names, i + 1) {
      StartsIncrease(names, k, i + 1);
    }
  }

  /** No cut falls inside a name. */
  lemma Uncut(names: seq<FontName>, k: nat)
    requires k < |names|
    ensures forall p :: Start(names, k) < p <= Start(names, k) + |names[k]| ==> !Cut(names, |names|, p)
  {
    hide Packed, Start;
    forall i | 0 < i <= |names|
      ensures Start(names, i) <= Start(names, k) || Start(names, i) > Start(names, k) + |names[k]|
    {
      if i > k { StartsIncrease(names, k, i); } else if i < k { StartsIncrease(names, i, k); }
    }
  }
}
