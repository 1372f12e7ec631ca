/** 32-bit machine words, as the kernel's C code computes with them.

    Words are kept as integers with explicit wrap-around.  The bitwise operators are
    defined bit by bit, and the lemmas below say what they do to words that are split at
    the 4 KB page boundary, which is how the page tables use them. */
module Words {

  const WORD_VALUES: nat := 0x1_0000_0000
  const PAGE_SIZE: nat := 4096
  const PAGE_MASK: u32 := 0xffff_f000
  const OFFSET_MASK: u32 := 0xfff
  const PAGES: nat := 0x10_0000

  type u32 = x: int | 0 <= x < 0x1_0000_0000

  /** The value an unsigned 32-bit computation leaves behind. */
  function Wrap(x: int): u32 {
    x % WORD_VALUES
  }

  /** The same bits read as a signed integer. */
  function Signed(x: u32): int {
    if x < 0x8000_0000 then x else x - WORD_VALUES
  }

  /** C's signed division by a positive divisor: truncation towards zero. */
  function TruncDiv(x: int, d: int): int
    requires d > 0
  {
    if x >= 0 then x / d else -(-x / d)
  }

  /** Division rounded up, by the quotient plus one for a remainder. */
  function CeilDiv(x: nat, d: nat): nat
    requires d > 0
  {
    x / d + (if x % d != 0 then 1 else 0)
  }

  /** Bitwise or. */
  function BitOr(a: nat, b: nat): nat
    decreases a + b
  {
    if a == 0 then b
    else if b == 0 then a
    else 2 * BitOr(a / 2, b / 2) + (if a % 2 == 1 || b % 2 == 1 then 1 else 0)
  }

  /** Bitwise and. */
  function BitAnd(a: nat, b: nat): nat
    decreases a + b
  {
    if a == 0 || b == 0 then 0
    else 2 * BitAnd(a / 2, b / 2) + (if a % 2 == 1 && b % 2 == 1 then 1 else 0)
  }

  /** Left shift: `m << k` without a width limit. */
  function Shl(m: nat, k: nat): nat {
    if k == 0 then m else 2 * Shl(m, k - 1)
  }

  /** The three bits of a page-table or directory entry that this model reads. */
  predicate Present(w: nat) { w % 2 == 1 }

  predicate Writable(w: nat) { w / 2 % 2 == 1 }

  predicate UserBit(w: nat) { w / 4 % 2 == 1 }

  // ----- one step of the bitwise operators

  lemma {:induction false} OrStep(a: nat, b: nat)
    ensures BitOr(a, b) == 2 * BitOr(a / 2, b / 2) + (if a % 2 == 1 || b % 2 == 1 then 1 else 0)
  {
  }

  lemma {:induction false} AndStep(a: nat, b: nat)
    ensures BitAnd(a, b) == 2 * BitAnd(a / 2, b / 2) + (if a % 2 == 1 && b % 2 == 1 then 1 else 0)
  {
  }

  /** Or-ing a value below 2^k changes only the low k bits. */
  lemma {:induction false} OrKeepsHigh(m: nat, r: nat, b: nat, k: nat)
    requires r < Shl(1, k) && b < Shl(1, k)
    ensures BitOr(r, b) < Shl(1, k)
    ensures BitOr(Shl(m, k) + r, b) == Shl(m, k) + BitOr(r, b)
  {
    if k > 0 {
      OrKeepsHigh(m, r / 2, b / 2, k - 1);
      OrStep(Shl(m, k) + r, b);
      OrStep(r, b);
    }
  }

  /** And-ing with the k low ones keeps exactly the low k bits. */
  lemma {:induction false} AndLowOnes(m: nat, r: nat, k: nat)
    requires r < Shl(1, k)
    ensures BitAnd(Shl(m, k) + r, Shl(1, k) - 1) == r
  {
    if k > 0 {
      AndLowOnes(m, r / 2, k - 1);
      AndStep(Shl(m, k) + r, Shl(1, k) - 1);
    }
  }

  /** And-ing with a mask whose low k bits are clear works on the high bits alone. */
  lemma {:induction false} AndHighMask(m: nat, r: nat, mask: nat, k: nat)
    requires r < Shl(1, k)
    ensures BitAnd(Shl(m, k) + r, Shl(mask, k)) == Shl(BitAnd(m, mask), k)
  {
    if k > 0 {
      AndHighMask(m, r / 2, mask, k - 1);
      AndStep(Shl(m, k) + r, Shl(mask, k));
    }
  }

  // ----- the page split of a word

  lemma {:induction false} ShlFour(m: nat, k: nat)
    ensures Shl(m, k + 4) == 16 * Shl(m, k)
  {
    assert Shl(m, k + 2) == 4 * Shl(m, k);
    assert Shl(m, k + 2 + 2) == 4 * Shl(m, k + 2);
  }

  lemma {:induction false} ShlPage(m: nat)
    ensures Shl(m, 12) == m * PAGE_SIZE
    ensures Shl(m, 20) == m * PAGES
  {
    ShlFour(m, 0);
    ShlFour(m, 4);
    ShlFour(m, 8);
    ShlFour(m, 12);
    ShlFour(m, 16);
  }

  /** `w | f` for flags below the page size: same page, flags merged into the offset. */
  lemma {:induction false} OrFlags(w: u32, f: nat)
    requires f < PAGE_SIZE
    ensures BitOr(w, f) < WORD_VALUES
    ensures BitOr(w, f) / PAGE_SIZE == w / PAGE_SIZE
    ensures BitOr(w, f) % PAGE_SIZE == BitOr(w % PAGE_SIZE, f)
    ensures w % PAGE_SIZE == 0 ==> BitOr(w, f) == w + f
  {
    ShlPage(1);
    ShlPage(w / PAGE_SIZE);
    OrKeepsHigh(w / PAGE_SIZE, w % PAGE_SIZE, f, 12);
  }

  /** `w & ~0xfff` is the page base and `w & 0xfff` the offset. */
  lemma {:induction false} MaskPage(w: u32)
    ensures BitAnd(w, PAGE_MASK) == w - w % PAGE_SIZE
    ensures BitAnd(w, OFFSET_MASK) == w % PAGE_SIZE
  {
    var m, r := w / PAGE_SIZE, w % PAGE_SIZE;
    ShlPage(1);
    ShlPage(0);
    ShlPage(m);
    ShlPage(PAGES - 1);
    ShlPage(BitAnd(m, PAGES - 1));
    AndHighMask(m, r, PAGES - 1, 12);
    AndLowOnes(0, m, 20);
    AndLowOnes(m, r, 12);
  }

  /** Or-ing never clears the three permission bits, and adds exactly those of `f`. */
  lemma {:induction false} OrPermissions(w: nat, f: nat)
    ensures Present(BitOr(w, f)) <==> Present(w) || Present(f)
    ensures Writable(BitOr(w, f)) <==> Writable(w) || Writable(f)
    ensures UserBit(BitOr(w, f)) <==> UserBit(w) || UserBit(f)
  {
    OrStep(w, f);
    OrStep(w / 2, f / 2);
    OrStep(w / 2 / 2, f / 2 / 2);
    assert w / 2 / 2 == w / 4 && f / 2 / 2 == f / 4;
    assert BitOr(w, f) / 2 == BitOr(w / 2, f / 2);
    assert BitOr(w, f) / 4 == BitOr(w / 4, f / 4);
  }

  /** Or-ing the same flags in again changes nothing. */
  lemma {:induction false} OrIdempotent(w: nat, f: nat)
    ensures BitOr(BitOr(w, f), f) == BitOr(w, f)
    decreases w + f
  {
    if w != 0 && f != 0 {
      OrIdempotent(w / 2, f / 2);
      OrStep(w, f);
      OrStep(BitOr(w, f), f);
    } else {
      OrSelf(f);
    }
  }

  lemma {:induction false} OrSelf(f: nat)
    ensures BitOr(f, f) == f
  {
    if f != 0 {
      OrSelf(f / 2);
    }
  }

  lemma {:induction false} OrWord(a: u32, b: u32)
    ensures BitOr(a, b) < WORD_VALUES
  {
    ShlPage(1);
    ShlFour(1, 20);
    ShlFour(1, 24);
    ShlFour(1, 28);
    OrKeepsHigh(0, a, b, 32);
  }

  // ----- the operators as the code uses them

  function Or32(a: u32, b: u32): u32 {
    OrWord(a, b);
    BitOr(a, b)
  }

  /** `w & ~0xfff` */
  function PageBase(w: u32): (base: u32)
    ensures base == w - w % PAGE_SIZE
  {
    MaskPage(w);
    BitAnd(w, PAGE_MASK)
  }

  /** `w & 0xfff` */
  function PageOffset(w: u32): (offset: u32)
    ensures offset == w % PAGE_SIZE
  {
    MaskPage(w);
    BitAnd(w, OFFSET_MASK)
  }

  /** `x & 0x3ff` */
  lemma {:induction false} AndLowTen(x: nat)
    ensures BitAnd(x, 0x3ff) == x % 1024
  {
    ShlFour(1, 0);
    ShlFour(1, 4);
    ShlFour(x / 1024, 0);
    ShlFour(x / 1024, 4);
    assert Shl(1, 10) == 1024 && Shl(x / 1024, 10) == x / 1024 * 1024;
    AndLowOnes(x / 1024, x % 1024, 10);
  }

  /** `x & 2` */
  lemma {:induction false} AndTwo(x: nat)
    ensures BitAnd(x, 2) != 0 <==> Writable(x)
  {
    AndStep(x, 2);
    AndStep(x / 2, 1);
  }
}
