/** The initial stack of a new thread, as `rtos_thread_create` lays it out:
    an exception frame plus the callee-saved registers below the 8-byte
    aligned top, and a paint pattern over the rest of the region. A stack is
    a word array; word `i` sits at byte address `base + 4 * i`. */
module StackFrame {
  import opened Common

  /** The stack paint pattern. */
  const PAINT: bv32 := 0xBABE_CAFE

  /** xPSR with only the Thumb bit (bit 24) set. */
  const THUMB_XPSR: bv32 := 0x0100_0000

  /** The link register value of a fresh frame. */
  const FRESH_LR: bv32 := 0xE

  /** Words of a fresh frame: eight stacked by the hardware on exception
      entry, eight (R4-R11) by the context switch. */
  const FRAME_WORDS: nat := 16

  /** A thread's stack region. */
  datatype Stack = Stack(base: nat, words: seq<bv32>)

  /** A word-aligned, non-null region that lies in the 32-bit address space. */
  predicate ValidStack(s: Stack)
  {
    0 < s.base && s.base % 4 == 0 && s.base + 4 * |s.words| < U32_MODULUS
  }

  /** `(a / 8) * 8`: `a` rounded down to a multiple of 8. */
  function RoundDown8(a: nat): nat
  {
    (a / 8) * 8
  }

  /** Rounding down loses less than 8, and for a word address 0 or 4. */
  lemma RoundDown(a: nat)
    ensures RoundDown8(a) % 8 == 0 && a - 8 < RoundDown8(a) <= a
    ensures a % 4 == 0 ==> a - 4 <= RoundDown8(a)
    ensures a % 4 == 3 ==> RoundDown8(a) + 8 <= a + 5
  {
  }

  /** `((base + size) / 8) * 8`: the top of the region rounded down to 8. */
  function TopAddress(s: Stack): nat
  {
    RoundDown8(s.base + 4 * |s.words|)
  }

  /** `(((base - 1) / 8) + 1) * 8`: the bottom rounded up to 8. */
  function LimitAddress(s: Stack): nat
    requires 0 < s.base
  {
    RoundDown8(s.base - 1) + 8
  }

  /** The aligned top is a word boundary at most one word below the end of
      the region. */
  lemma TopBounds(s: Stack)
    requires ValidStack(s)
    ensures TopAddress(s) % 8 == 0
    ensures s.base + 4 * |s.words| - 4 <= TopAddress(s) <= s.base + 4 * |s.words|
    ensures (TopAddress(s) - s.base) % 4 == 0
  {
    var end := s.base + 4 * |s.words|;
    RoundDown(end);
    assert TopAddress(s) - s.base == 4 * (2 * (end / 8) - s.base / 4);
  }

  /** The aligned bottom is a word boundary at most one word above the base. */
  lemma LimitBounds(s: Stack)
    requires ValidStack(s)
    ensures LimitAddress(s) % 8 == 0
    ensures s.base <= LimitAddress(s) <= s.base + 4
    ensures (LimitAddress(s) - s.base) % 4 == 0
  {
    RoundDown(s.base - 1);
    assert LimitAddress(s) - s.base == 4 * (2 * ((s.base - 1) / 8) + 2 - s.base / 4);
  }

  /** Word index of the aligned top (-1 for an empty region whose base is
      not 8-aligned). */
  function TopIndex(s: Stack): int
    requires ValidStack(s)
  {
    TopBounds(s);
    (TopAddress(s) - s.base) / 4
  }

  /** Word index of the aligned bottom, the lowest word painted. */
  function LimitIndex(s: Stack): nat
    requires ValidStack(s)
  {
    LimitBounds(s);
    (LimitAddress(s) - s.base) / 4
  }

  /** The words `rtos_thread_create` pushes, in push order (top down): xPSR,
      PC, LR, R12, R3, R2, R1, R0, then R11 down to R4. */
  function Pushes(handler: bv32): (w: seq<bv32>)
    ensures |w| == FRAME_WORDS
  {
    [THUMB_XPSR, handler, FRESH_LR, 0xC, 3, 2, 1, 0, 0xB, 0xA, 9, 8, 7, 6, 5, 4]
  }

  /** The registers a thread starts with when first switched to. */
  datatype Context = Context(r: seq<bv32>, lr: bv32, pc: bv32, xpsr: bv32)

  /** A fresh thread starts at its handler in Thumb state, with every general
      register Rn holding n and LR holding 0xE. */
  function InitialContext(handler: bv32): Context
  {
    Context([0, 1, 2, 3, 4, 5, 6, 7, 8, 9, 10, 11, 12], FRESH_LR, handler, THUMB_XPSR)
  }

  /** What switching to a thread whose saved stack pointer is `sp` loads: the
      PendSV handler pops R4-R11, then exception return pops R0-R3, R12, LR,
      PC and xPSR, each from ascending addresses. */
  function Restore(words: seq<bv32>, sp: nat): Context
    requires sp + FRAME_WORDS <= |words|
  {
    Context(
      [words[sp + 8], words[sp + 9], words[sp + 10], words[sp + 11],
       words[sp], words[sp + 1], words[sp + 2], words[sp + 3],
       words[sp + 4], words[sp + 5], words[sp + 6], words[sp + 7],
       words[sp + 12]],
      words[sp + 13], words[sp + 14], words[sp + 15])
  }

  /** The stack half of `rtos_thread_create`: push the initial frame below
      the aligned top, then paint every word from just below the saved stack
      pointer down to the aligned bottom. Returns the new words and the saved
      stack pointer (a word index). */
  method Fabricate(s: Stack, handler: bv32) returns (words: seq<bv32>, sp: nat)
    requires ValidStack(s)
    requires TopIndex(s) >= FRAME_WORDS
    ensures |words| == |s.words|
    ensures sp == TopIndex(s) - FRAME_WORDS
    ensures Restore(words, sp) == InitialContext(handler)
    ensures forall i | LimitIndex(s) <= i < sp :: words[i] == PAINT
    ensures forall i | 0 <= i < |words| && (i < LimitIndex(s) || TopIndex(s) <= i) ::
      words[i] == s.words[i]
  {
    TopBounds(s);
    var framed;
    framed, sp := PushFrame(s.words, TopIndex(s), handler);
    words := Paint(framed, LimitIndex(s), sp);
    assert Restore(words, sp) == Restore(framed, sp);
  }

  /** The sixteen `*(--sp) = value` stores below `top`. */
  method PushFrame(w: seq<bv32>, top: nat, handler: bv32) returns (words: seq<bv32>, sp: nat)
    requires FRAME_WORDS <= top <= |w|
    ensures |words| == |w| && sp == top - FRAME_WORDS
    ensures Restore(words, sp) == InitialContext(handler)
    ensures forall i | 0 <= i < |words| && (i < sp || top <= i) :: words[i] == w[i]
  {
    var frame := Pushes(handler);
    words := w;
    sp := top;
    var n := 0;
    while n < FRAME_WORDS
      invariant 0 <= n <= FRAME_WORDS && sp == top - n
      invariant |words| == |w|
      invariant forall m | 0 <= m < n :: words[top - 1 - m] == frame[m]
      invariant forall i | 0 <= i < |words| && (i < sp || top <= i) :: words[i] == w[i]
    {
      sp := sp - 1;
      words := words[sp := frame[n]];
      n := n + 1;
    }
    FrameRestores(words, sp, handler);
  }

  /** The paint loop: store `PAINT` from word `sp - 1` down to word `limit`. */
  method Paint(w: seq<bv32>, limit: nat, sp: nat) returns (words: seq<bv32>)
    requires sp <= |w|
    ensures |words| == |w|
    ensures forall i | limit <= i < sp :: words[i] == PAINT
    ensures forall i | 0 <= i < |words| && (i < limit || sp <= i) :: words[i] == w[i]
  {
    words := w;
    var p: nat := sp;
    while p > limit
      invariant |words| == |w|
      invariant p <= sp && (limit <= p || p == sp)
      invariant forall i | p <= i < sp :: words[i] == PAINT
      invariant forall i | 0 <= i < |words| && (i < p || sp <= i) :: words[i] == w[i]
    {
      p := p - 1;
      words := words[p := PAINT];
    }
  }

  /** The pushed words, read back the way a context switch reads them, give
      the initial context. */
  lemma FrameRestores(words: seq<bv32>, sp: nat, handler: bv32)
    requires sp + FRAME_WORDS <= |words|
    requires forall m | 0 <= m < FRAME_WORDS :: words[sp + FRAME_WORDS - 1 - m] == Pushes(handler)[m]
    ensures Restore(words, sp) == InitialContext(handler)
  {
    var f := Pushes(handler);
    assert words[sp] == f[15] && words[sp + 1] == f[14] && words[sp + 2] == f[13];
    assert words[sp + 3] == f[12] && words[sp + 4] == f[11] && words[sp + 5] == f[10];
    assert words[sp + 6] == f[9] && words[sp + 7] == f[8] && words[sp + 8] == f[7];
    assert words[sp + 9] == f[6] && words[sp + 10] == f[5] && words[sp + 11] == f[4];
    assert words[sp + 12] == f[3] && words[sp + 13] == f[2] && words[sp + 14] == f[1];
    assert words[sp + 15] == f[0];
  }
}
