/** Single-bit views of the kernel's 32-bit membership words (the ready and
    delayed sets), and the leading-zero count the scheduler uses to find the
    highest set bit. Slot `p` (1..32) owns bit `p - 1`; bit indices are `bv5`
    so that every bit fact stays a pure bit-vector fact. */
module Bits {
  import opened Common

  /** The word with only bit `b` set, `1U << b` in the firmware. */
  function Mask(b: bv5): bv32
  {
    (1 as bv32) << b
  }

  /** `s` with bit `b` set: `s |= 1U << b`. */
  function Set(s: bv32, b: bv5): bv32
  {
    s | Mask(b)
  }

  /** `s` with bit `b` cleared: `s &= ~(1U << b)`. */
  function Clear(s: bv32, b: bv5): bv32
  {
    s & !Mask(b)
  }

  /** Whether bit `b` of `s` is set. */
  predicate Bit(s: bv32, b: bv5)
  {
    s & Mask(b) != 0
  }

  /** Setting bit `a` adds `a` and keeps every other bit. */
  lemma SetBitLemma(s: bv32, a: bv5, b: bv5)
    ensures Bit(Set(s, a), b) == (a == b || Bit(s, b))
  {
    if a == b {
      SetSame(s, a);
    } else {
      SetOther(s, a, b);
    }
  }

  /** The bit just set is set. */
  lemma SetSame(s: bv32, a: bv5)
    ensures Bit(Set(s, a), a)
  {
  }

  /** Setting bit `a` leaves bit `b != a` as it was. */
  lemma SetOther(s: bv32, a: bv5, b: bv5)
    requires a != b
    ensures Bit(Set(s, a), b) == Bit(s, b)
  {
    assert Set(s, a) & Mask(b) == s & Mask(b);
  }

  /** Clearing bit `a` removes `a` and keeps every other bit. */
  lemma ClearBitLemma(s: bv32, a: bv5, b: bv5)
    ensures Bit(Clear(s, a), b) == (a != b && Bit(s, b))
  {
    if a == b {
      ClearSame(s, a);
    } else {
      ClearOther(s, a, b);
    }
  }

  /** The bit just cleared is clear. */
  lemma ClearSame(s: bv32, a: bv5)
    ensures !Bit(Clear(s, a), a)
  {
  }

  /** Clearing bit `a` leaves bit `b != a` as it was. */
  lemma ClearOther(s: bv32, a: bv5, b: bv5)
    requires a != b
    ensures Bit(Clear(s, a), b) == Bit(s, b)
  {
    assert Clear(s, a) & Mask(b) == s & Mask(b);
  }

  /** The slot that owns bit `b`. */
  function SlotOf(b: bv5): nat
  {
    b as int + 1
  }

  /** The bit owned by slot `p`: `priority - 1U` in the firmware. */
  function BitOf(p: nat): (b: bv5)
    requires 1 <= p <= 32
    ensures SlotOf(b) == p
  {
    (p - 1) as bv5
  }

  /** Distinct bits belong to distinct slots. */
  lemma SlotInjective(a: bv5, b: bv5)
    ensures (SlotOf(a) == SlotOf(b)) == (a == b)
  {
  }

  /** Bit `b` is the bit of its own slot. */
  lemma BitOfSlotOf(b: bv5)
    ensures BitOf(SlotOf(b)) == b
  {
    SlotInjective(BitOf(SlotOf(b)), b);
  }

  /** The highest set bit of `x` among bits `b` down to 0, if any. */
  function HighestFrom(x: bv32, b: bv5): Option<bv5>
    decreases b as int
  {
    if Bit(x, b) then Some(b)
    else if b == 0 then None
    else HighestFrom(x, b - 1)
  }

  /** What the scan finds is a set bit. */
  lemma {:induction false} HighestFromIsSet(x: bv32, b: bv5)
    requires HighestFrom(x, b).Some?
    ensures Bit(x, HighestFrom(x, b).value)
    decreases b as int
  {
    if !Bit(x, b) {
      HighestFromIsSet(x, b - 1);
    }
  }

  /** No bit between what the scan finds (exclusive) and where it started
      (inclusive) is set; when it finds nothing, no bit up to `b` is set. */
  lemma {:induction false} HighestFromAbove(x: bv32, b: bv5, c: bv5)
    requires c <= b
    requires HighestFrom(x, b).None? || HighestFrom(x, b).value < c
    ensures !Bit(x, c)
    decreases b as int
  {
    if !Bit(x, b) && c != b {
      HighestFromAbove(x, b - 1, c);
    }
  }

  /** `__builtin_clz`: the number of clear bits above the highest set bit
      (32 for zero, where the builtin is undefined and never used). */
  function Clz(x: bv32): nat
  {
    match HighestFrom(x, 31)
    case None => 32
    case Some(h) => 31 - h as int
  }

  /** `LOG2(x) = 32 - clz(x)`: the slot owning the highest set bit. */
  function Log2(x: bv32): int
  {
    32 - Clz(x)
  }

  /** A word with no bit set is zero. */
  lemma NoBitIsZero(x: bv32)
    requires forall c: bv5 :: !Bit(x, c)
    ensures x == 0
  {
    assert !Bit(x, 0) && !Bit(x, 1) && !Bit(x, 2) && !Bit(x, 3);
    assert !Bit(x, 4) && !Bit(x, 5) && !Bit(x, 6) && !Bit(x, 7);
    assert !Bit(x, 8) && !Bit(x, 9) && !Bit(x, 10) && !Bit(x, 11);
    assert !Bit(x, 12) && !Bit(x, 13) && !Bit(x, 14) && !Bit(x, 15);
    assert !Bit(x, 16) && !Bit(x, 17) && !Bit(x, 18) && !Bit(x, 19);
    assert !Bit(x, 20) && !Bit(x, 21) && !Bit(x, 22) && !Bit(x, 23);
    assert !Bit(x, 24) && !Bit(x, 25) && !Bit(x, 26) && !Bit(x, 27);
    assert !Bit(x, 28) && !Bit(x, 29) && !Bit(x, 30) && !Bit(x, 31);
  }

  /** Slot `p` owns the highest set bit of `x`: that bit is set and no
      higher one is. */
  ghost predicate IsHighest(x: bv32, p: int)
  {
    && 1 <= p <= 32
    && Bit(x, BitOf(p))
    && (forall c: bv5 :: c as int >= p ==> !Bit(x, c))
  }

  /** For a non-zero word, `Log2` names the slot of the highest set bit: that
      bit is set and every bit above it is clear. */
  lemma Log2Highest(x: bv32)
    requires x != 0
    ensures IsHighest(x, Log2(x))
  {
    var h := HighestFrom(x, 31);
    if h.None? {
      forall c: bv5
        ensures !Bit(x, c)
      {
        HighestFromAbove(x, 31, c);
      }
      NoBitIsZero(x);
    } else {
      HighestFromIsSet(x, 31);
      BitOfSlotOf(h.value);
      forall c: bv5 | c as int >= Log2(x)
        ensures !Bit(x, c)
      {
        HighestFromAbove(x, 31, c);
      }
    }
  }

  /** A word with no set bit at or above index `n` has `Log2` at most `n`. */
  lemma Log2AtMost(x: bv32, n: nat)
    requires forall c: bv5 :: c as int >= n ==> !Bit(x, c)
    ensures Log2(x) <= n
  {
    if x != 0 {
      Log2Highest(x);
      if Log2(x) > n {
        assert false;
      }
    } else if HighestFrom(x, 31).Some? {
      HighestFromIsSet(x, 31);
    }
  }

  /** Clearing bit `b` of a word with no set bit above `b` leaves no set bit
      at or above `b`. */
  lemma ClearTop(x: bv32, b: bv5)
    requires forall c: bv5 :: c as int > b as int ==> !Bit(x, c)
    ensures forall c: bv5 :: c as int >= b as int ==> !Bit(Clear(x, b), c)
  {
    forall c: bv5 | c as int >= b as int
      ensures !Bit(Clear(x, b), c)
    {
      ClearBitLemma(x, b, c);
      SlotInjective(b, c);
    }
  }

  /** Clearing the highest set bit strictly lowers `Log2`; the tick loop
      terminates by this. */
  lemma Log2Decreases(x: bv32)
    requires x != 0
    ensures 1 <= Log2(x) <= 32
    ensures 0 <= Log2(Clear(x, BitOf(Log2(x)))) < Log2(x)
  {
    Log2Highest(x);
    var b := BitOf(Log2(x));
    ClearTop(x, b);
    Log2AtMost(Clear(x, b), b as int);
  }
}
