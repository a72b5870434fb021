/**
 * The two-word 64-bit integers of the SYNC extension (xc/include/extensions/sync.h):
 * a signed high word and an unsigned low word, their comparisons, and the add and
 * subtract macros, which assign the low word, then the high word, then a flag.
 */
module SyncValue {

  const WORD := 0x1_0000_0000
  const TWO_64 := 0x1_0000_0000_0000_0000

  type Int32 = x: int | -0x8000_0000 <= x < 0x8000_0000
  type Word = x: int | 0 <= x < WORD

  datatype Value = Value(hi: Int32, lo: Word) {
    /** The integer that the two words stand for. */
    function AsInt(): (n: int)
      ensures FitsInt64(n)
    {
      hi * WORD + lo
    }
  }

  predicate FitsInt64(n: int) { -0x8000_0000_0000_0000 <= n < 0x8000_0000_0000_0000 }

  /** Conversions to int and to unsigned int, both modulo 2^32. */
  function Signed(n: int): Int32 { (n + 0x8000_0000) % WORD - 0x8000_0000 }
  function Unsigned(n: int): Word { n % WORD }

  lemma SignedNear(n: int)
    requires -0x1_8000_0000 <= n < 0x1_8000_0000
    ensures Signed(n) == if n < -0x8000_0000 then n + WORD else if n >= 0x8000_0000 then n - WORD else n
  {
  }

  lemma UnsignedNear(n: int)
    requires -WORD <= n < 2 * WORD
    ensures Unsigned(n) == if n < 0 then n + WORD else if n >= WORD then n - WORD else n
  {
  }

  /** The 64-bit integer that an integer is cut down to. */
  function Wrapped(n: int): int { (n + 0x8000_0000_0000_0000) % TWO_64 - 0x8000_0000_0000_0000 }

  lemma WrappedNear(n: int)
    requires -TWO_64 <= n < TWO_64
    ensures Wrapped(n) == if n < -0x8000_0000_0000_0000 then n + TWO_64
                          else if n >= 0x8000_0000_0000_0000 then n - TWO_64 else n
  {
  }

  predicate GreaterThan(a: Value, b: Value) { a.hi > b.hi || (a.hi == b.hi && a.lo > b.lo) }
  predicate LessThan(a: Value, b: Value) { a.hi < b.hi || (a.hi == b.hi && a.lo < b.lo) }
  predicate GreaterOrEqual(a: Value, b: Value) { a.hi > b.hi || (a.hi == b.hi && a.lo >= b.lo) }
  predicate LessOrEqual(a: Value, b: Value) { a.hi < b.hi || (a.hi == b.hi && a.lo <= b.lo) }
  predicate Equal(a: Value, b: Value) { a.lo == b.lo && a.hi == b.hi }
  predicate IsNegative(v: Value) { Unsigned(v.hi) >= 0x8000_0000 }

  lemma ComparisonsAgree(a: Value, b: Value)
    ensures GreaterThan(a, b) <==> a.AsInt() > b.AsInt()
    ensures LessThan(a, b) <==> a.AsInt() < b.AsInt()
    ensures GreaterOrEqual(a, b) <==> a.AsInt() >= b.AsInt()
    ensures LessOrEqual(a, b) <==> a.AsInt() <= b.AsInt()
    ensures Equal(a, b) <==> a.AsInt() == b.AsInt()
    ensures IsNegative(a) <==> a.AsInt() < 0
  {
  }

  /** The words the macros leave. The saved low word is an int, and turns back into an unsigned word
      when it is compared with one. */
  function Added(a: Value, b: Value): Value {
    var t := Signed(a.lo);
    var lo := Unsigned(a.lo + b.lo);
    var hi := Signed(a.hi + b.hi);
    Value(if Unsigned(t) > lo then Signed(hi + 1) else hi, lo)
  }

  function Subtracted(a: Value, b: Value): Value {
    var t := Signed(a.lo);
    var lo := Unsigned(a.lo - b.lo);
    var hi := Signed(a.hi - b.hi);
    Value(if Unsigned(t) > lo then Signed(hi - 1) else hi, lo)
  }

  /** Both macros end in the same test. */
  predicate Flag(a: Value, b: Value, result: Value) {
    IsNegative(a) == IsNegative(b) && IsNegative(a) != IsNegative(result)
  }

  lemma SavedWord(lo: Word)
    ensures Unsigned(Signed(lo)) == lo
  {
  }

  lemma AddIsExact(a: Value, b: Value)
    ensures Added(a, b).AsInt() == Wrapped(a.AsInt() + b.AsInt())
    ensures Flag(a, b, Added(a, b)) <==> !FitsInt64(a.AsInt() + b.AsInt())
  {
    hide Signed, Unsigned, Wrapped, IsNegative;
    SavedWord(a.lo);
    UnsignedNear(a.lo + b.lo);
    SignedNear(a.hi + b.hi);
    SignedNear(Signed(a.hi + b.hi) + 1);
    WrappedNear(a.AsInt() + b.AsInt());
    ComparisonsAgree(a, b);
    ComparisonsAgree(b, a);
    ComparisonsAgree(Added(a, b), a);
  }

  /** The borrow test is the wrong way round: a difference is right exactly when there are no
      low-order bits to take away, and otherwise it is one high-order unit out, below the truth when
      no borrow was due and above it when one was. */
  lemma SubtractIsRightExactly(a: Value, b: Value)
    ensures Subtracted(a, b).AsInt() == Wrapped(a.AsInt() - b.AsInt()) <==> b.lo == 0
    ensures 0 < b.lo <= a.lo ==> Subtracted(a, b).AsInt() == Wrapped(a.AsInt() - b.AsInt() - WORD)
    ensures a.lo < b.lo ==> Subtracted(a, b).AsInt() == Wrapped(a.AsInt() - b.AsInt() + WORD)
  {
    hide Signed, Unsigned, Wrapped;
    SavedWord(a.lo);
    UnsignedNear(a.lo - b.lo);
    SignedNear(a.hi - b.hi);
    SignedNear(Signed(a.hi - b.hi) - 1);
    WrappedNear(a.AsInt() - b.AsInt());
    if 0 < b.lo <= a.lo {
      WrappedNear(a.AsInt() - b.AsInt() - WORD);
    } else if a.lo < b.lo {
      WrappedNear(a.AsInt() - b.AsInt() + WORD);
    }
  }

  /** The flag is computed as the addition's is. When the operands have one sign, no difference
      overflows, and the flag is right exactly when the high words alone, less the wrong borrow,
      keep that sign; when they have two, the flag is never set, and is right exactly when the
      difference does not overflow. */
  predicate FlagIsRight(a: Value, b: Value) {
    if (a.hi < 0) == (b.hi < 0)
    then a.hi - b.hi - (if 0 < b.lo <= a.lo then 1 else 0) < 0 <==> a.hi < 0
    else FitsInt64(a.AsInt() - b.AsInt())
  }

  lemma SubtractFlagIsRightExactly(a: Value, b: Value)
    ensures (Flag(a, b, Subtracted(a, b)) <==> !FitsInt64(a.AsInt() - b.AsInt())) <==> FlagIsRight(a, b)
  {
    hide Signed, Unsigned, IsNegative;
    ComparisonsAgree(a, b);
    ComparisonsAgree(b, a);
    ComparisonsAgree(Subtracted(a, b), a);
    if (a.hi < 0) == (b.hi < 0) {
      SubtractedHigh(a, b);
      assert FitsInt64(a.AsInt() - b.AsInt());
    }
  }

  /** The high word of the difference, when the operands have one sign. */
  lemma SubtractedHigh(a: Value, b: Value)
    requires (a.hi < 0) == (b.hi < 0)
    ensures Subtracted(a, b).hi == a.hi - b.hi - if 0 < b.lo <= a.lo then 1 else 0
  {
    hide Signed, Unsigned;
    SavedWord(a.lo);
    UnsignedNear(a.lo - b.lo);
    SignedNear(a.hi - b.hi);
    SignedNear(Signed(a.hi - b.hi) - 1);
  }

  /** 2^32 from 1 sets the flag, and does not overflow; -2^32 from the largest multiple of 2^32 does
      not set it, and overflows. */
  lemma SubtractFlagFails()
    ensures var a, b := Value(0, 1), Value(1, 0);
            Flag(a, b, Subtracted(a, b)) && FitsInt64(a.AsInt() - b.AsInt())
    ensures var a, b := Value(0x7fff_ffff, 0), Value(-1, 0);
            !Flag(a, b, Subtracted(a, b)) && !FitsInt64(a.AsInt() - b.AsInt())
  {
  }

  /** A value in memory. The result of a macro may be one of its operands. */
  class Cell {
    var hi: Int32
    var lo: Word

    function Contents(): Value
      reads this
    {
      Value(hi, lo)
    }
  }

  method Add(presult: Cell, a: Cell, b: Cell) returns (overflow: bool)
    modifies presult
    ensures presult.Contents().AsInt() == Wrapped(old(a.Contents().AsInt() + b.Contents().AsInt()))
    ensures overflow <==> !FitsInt64(old(a.Contents().AsInt() + b.Contents().AsInt()))
  {
    hide Signed, Unsigned, Wrapped, IsNegative, FitsInt64;
    AddIsExact(a.Contents(), b.Contents());
    var t := Signed(a.lo);
    var signa, signb := IsNegative(a.Contents()), IsNegative(b.Contents());
    presult.lo := Unsigned(a.lo + b.lo);
    presult.hi := Signed(a.hi + b.hi);
    if Unsigned(t) > presult.lo {
      presult.hi := Signed(presult.hi + 1);
    }
    overflow := signa == signb && signa != IsNegative(presult.Contents());
  }

  method Subtract(presult: Cell, a: Cell, b: Cell) returns (overflow: bool)
    modifies presult
    ensures presult.Contents() == Subtracted(old(a.Contents()), old(b.Contents()))
    ensures overflow == Flag(old(a.Contents()), old(b.Contents()), presult.Contents())
  {
    hide Signed, Unsigned, IsNegative;
    var t := Signed(a.lo);
    var signa, signb := IsNegative(a.Contents()), IsNegative(b.Contents());
    presult.lo := Unsigned(a.lo - b.lo);
    presult.hi := Signed(a.hi - b.hi);
    if Unsigned(t) > presult.lo {
      presult.hi := Signed(presult.hi - 1);
    }
    overflow := signa == signb && signa != IsNegative(presult.Contents());
  }
}
