/** Unsigned 32-bit words as bounded integers, and the bit operators of C on them.

    Dafny's bit-vectors do not convert to integers cheaply, so `&` and `|` are defined here bit by
    bit on naturals, and each mask the kernel uses is shown, once, to be a quotient or a remainder. */
module Bits {

  const WORD_LIMIT := 0x1_0000_0000

  type uint32 = x: int | 0 <= x < WORD_LIMIT

  /** C's `a & b`. */
  function And(a: nat, b: nat): nat
  {
    if a == 0 || b == 0 then 0
    else 2 * And(a / 2, b / 2) + if a % 2 == 1 && b % 2 == 1 then 1 else 0
  }

  /** C's `a | b`. */
  function Or(a: nat, b: nat): nat
  {
    if a == 0 then b
    else if b == 0 then a
    else 2 * Or(a / 2, b / 2) + if a % 2 == 1 || b % 2 == 1 then 1 else 0
  }

  /** `x << k` without a width. */
  function Shl(x: nat, k: nat): nat
  {
    if k == 0 then x else 2 * Shl(x, k - 1)
  }

  /** `x >> k`. */
  function Shr(x: nat, k: nat): nat
  {
    if k == 0 then x else Shr(x / 2, k - 1)
  }

  /** The `k` low bits of `x`. */
  function Low(x: nat, k: nat): nat
  {
    if k == 0 then 0 else 2 * Low(x / 2, k - 1) + x % 2
  }

  /** The word whose `k` low bits are set. */
  function Ones(k: nat): nat
  {
    if k == 0 then 0 else 2 * Ones(k - 1) + 1
  }

  /** Masking with low ones keeps the low bits. */
  lemma {:induction false} AndOnes(x: nat, k: nat)
    ensures And(x, Ones(k)) == Low(x, k)
  {
    if k > 0 {
      AndOnes(x / 2, k - 1);
    }
  }

  /** A mask that is shifted left masks the shifted word. */
  lemma {:induction false} AndShifted(x: nat, m: nat, k: nat)
    ensures And(x, Shl(m, k)) == Shl(And(Shr(x, k), m), k)
  {
    if k > 0 {
      AndShifted(x / 2, m, k - 1);
    }
  }

  /** Or of two words with no common bit is their sum. */
  lemma {:induction false} OrDisjoint(a: nat, b: nat, k: nat)
    ensures Or(Shl(a, k), Low(b, k)) == Shl(a, k) + Low(b, k)
  {
    if k > 0 {
      OrDisjoint(a, b / 2, k - 1);
    }
  }

  /** Masking a word that fits changes nothing. */
  lemma {:induction false} LowAll(x: nat, k: nat)
    requires x <= Ones(k)
    ensures Low(x, k) == x
  {
    if k > 0 {
      LowAll(x / 2, k - 1);
    }
  }

  // ----- Shifts by the widths in use -----

  lemma {:induction false} ShrAdd(x: nat, a: nat, b: nat)
    ensures Shr(x, a + b) == Shr(Shr(x, a), b)
  {
    if a > 0 {
      ShrAdd(x / 2, a - 1, b);
    }
  }

  lemma {:induction false} ShlAdd(x: nat, a: nat, b: nat)
    ensures Shl(x, a + b) == Shl(Shl(x, a), b)
  {
    if b > 0 {
      ShlAdd(x, a, b - 1);
    }
  }

  /** A word is its low bits and the rest. */
  lemma {:induction false} LowAndRest(x: nat, k: nat)
    ensures x == Low(x, k) + Shl(Shr(x, k), k)
  {
    if k > 0 {
      LowAndRest(x / 2, k - 1);
    }
  }

  lemma {:induction false} OnesShl(k: nat)
    ensures Ones(k) + 1 == Shl(1, k)
  {
    if k > 0 {
      OnesShl(k - 1);
    }
  }

  lemma ByTwo(x: nat)
    ensures Shl(x, 2) == 4 * x && Shr(x, 2) == x / 4
  {
    assert Shl(x, 2) == 2 * Shl(x, 1) && Shl(x, 1) == 2 * Shl(x, 0);
    assert Shr(x, 2) == Shr(x / 2, 1) && Shr(x / 2, 1) == Shr(x / 2 / 2, 0);
  }

  lemma ByFour(x: nat)
    ensures Shl(x, 4) == 16 * x && Shr(x, 4) == x / 16
  {
    ShlAdd(x, 2, 2);
    ShrAdd(x, 2, 2);
    ByTwo(x);
    ByTwo(4 * x);
    ByTwo(x / 4);
  }

  /** Three bits (the tag alignment of Multiboot2). */
  lemma ByEight(x: nat)
    ensures Shl(x, 3) == 8 * x && Shr(x, 3) == x / 8 && Low(x, 3) == x % 8 && Ones(3) == 7
  {
    ShlAdd(x, 2, 1);
    ShrAdd(x, 2, 1);
    ByTwo(x);
    LowAndRest(x, 3);
    ShlEight(x / 8);
  }

  lemma ShlEight(x: nat)
    ensures Shl(x, 3) == 8 * x
  {
    ShlAdd(x, 2, 1);
    ByTwo(x);
  }

  /** Four bits (a hexadecimal digit). */
  lemma ByNibble(x: nat)
    ensures And(x, 0xF) == x % 16 && Shr(x, 4) == x / 16
  {
    ByFour(x);
    ByFour(x / 16);
    LowAndRest(x, 4);
    AndOnes(x, 4);
    OnesShl(4);
    ByFour(1);
  }

  lemma ByByte(x: nat)
    ensures Shl(x, 8) == 256 * x && Shr(x, 8) == x / 256
  {
    ShlAdd(x, 4, 4);
    ShrAdd(x, 4, 4);
    ByFour(x);
    ByFour(16 * x);
    ByFour(x / 16);
  }

  lemma ShiftPage(x: nat)
    ensures Shl(x, 12) == 4096 * x && Shr(x, 12) == x / 4096
  {
    ShlAdd(x, 8, 4);
    ShrAdd(x, 8, 4);
    ByByte(x);
    ByFour(256 * x);
    ByFour(x / 256);
  }

  /** Twelve bits (the page size). */
  lemma ByPage(x: nat)
    ensures Shl(x, 12) == 4096 * x && Shr(x, 12) == x / 4096 && Low(x, 12) == x % 4096 && Ones(12) == 4095
  {
    ShiftPage(x);
    ShiftPage(x / 4096);
    ShiftPage(1);
    LowAndRest(x, 12);
    OnesShl(12);
  }

  lemma ShiftTable(x: nat)
    ensures Shl(x, 10) == 1024 * x && Shr(x, 10) == x / 1024
  {
    ShlAdd(x, 8, 2);
    ShrAdd(x, 8, 2);
    ByByte(x);
    ByTwo(256 * x);
    ByTwo(x / 256);
  }

  /** Ten bits (a table index), alone and above the page offset. */
  lemma ByTable(x: nat)
    ensures Low(x, 10) == x % 1024 && Shr(x, 22) == x / 4096 / 1024 && Ones(10) == 0x3FF
  {
    ShiftTable(x);
    ShiftTable(x / 1024);
    ShiftTable(1);
    LowAndRest(x, 10);
    OnesShl(10);
    ShrAdd(x, 12, 10);
    ShiftPage(x);
    ShiftTable(x / 4096);
  }

  lemma BigOnes()
    ensures Ones(20) == 0xF_FFFF && Ones(29) == 0x1FFF_FFFF && Ones(32) == WORD_LIMIT - 1
  {
    ShlAdd(1, 12, 8);
    ShlAdd(1, 20, 8);
    ShlAdd(1, 28, 4);
    ShiftPage(1);
    ByByte(4096);
    ByByte(0x10_0000);
    ByFour(0x1000_0000);
    OnesShl(20);
    OnesShl(28);
    OnesShl(32);
  }

  /** `x & 0xFFF` is the offset within a page. */
  lemma PageOffset(x: nat)
    ensures And(x, 0xFFF) == x % 4096
  {
    ByPage(x);
    AndOnes(x, 12);
  }

  /** `x & 0xFFFFF000` is the address rounded down to a page. */
  lemma PageBase(x: uint32)
    ensures And(x, 0xFFFF_F000) == 4096 * (x / 4096)
  {
    var page := x / 4096;
    assert And(page, 0xF_FFFF) == page by {
      BigOnes();
      AndOnes(page, 20);
      LowAll(page, 20);
    }
    ByPage(x);
    ByPage(0xF_FFFF);
    ByPage(page);
    AndShifted(x, 0xF_FFFF, 12);
  }

  /** `x & ~7` rounds down to a multiple of eight. */
  lemma RoundDownEight(x: uint32)
    ensures And(x, 0xFFFF_FFF8) == 8 * (x / 8)
  {
    ByEight(x);
    ByEight(0x1FFF_FFFF);
    BigOnes();
    AndShifted(x, 0x1FFF_FFFF, 3);
    AndOnes(x / 8, 29);
    LowAll(x / 8, 29);
    ByEight(x / 8);
  }

  /** A page base or-ed with twelve flag bits and the present bit. */
  lemma OrEntry(base: nat, flags: nat)
    ensures Or(Or(4096 * base, flags % 4096), 1) == 4096 * base + flags % 4096 / 2 * 2 + 1
  {
    OrFlags(base, flags);
    OrOne(4096 * base + flags % 4096);
    EvenBase(base, flags % 4096);
  }

  lemma EvenBase(base: nat, low: nat)
    ensures (4096 * base + low) / 2 * 2 == 4096 * base + low / 2 * 2
  {
    assert 4096 * base + low == 2 * (2048 * base + low / 2) + low % 2;
  }

  lemma OrFlags(base: nat, flags: nat)
    ensures Or(4096 * base, flags % 4096) == 4096 * base + flags % 4096
  {
    ByPage(base);
    ByPage(flags);
    OrDisjoint(base, flags, 12);
  }

  lemma OrOne(w: nat)
    ensures Or(w, 1) == w / 2 * 2 + 1
  {
  }

  /** `x & 1` and `x & 7` test the low bits. */
  lemma LowBits(x: nat)
    ensures And(x, 1) == x % 2 && And(x, 7) == x % 8
  {
    ByEight(x);
    AndOnes(x, 3);
    AndOnes(x, 1);
  }

  // ----- Single bits -----

  /** Whether bit `j` of `w` is set. */
  predicate BitAt(w: nat, j: nat)
  {
    Shr(w, j) % 2 == 1
  }

  /** `w & (1 << j)` is non-zero exactly when bit `j` is set. */
  lemma {:induction false} TestBit(w: nat, j: nat)
    ensures And(w, Shl(1, j)) != 0 <==> BitAt(w, j)
  {
    if j == 0 {
      assert And(w / 2, 0) == 0;
    } else {
      TestBit(w / 2, j - 1);
    }
  }

  lemma {:induction false} ZeroBits(j: nat)
    ensures !BitAt(0, j)
  {
    if j > 0 {
      ZeroBits(j - 1);
    }
  }

  lemma {:induction false} ShlOneBits(i: nat, j: nat)
    ensures BitAt(Shl(1, j), i) == (i == j) && Shl(1, j) > 0
  {
    if j > 0 {
      ShlOneBits(if i == 0 then 0 else i - 1, j - 1);
    } else if i > 0 {
      ZeroBits(i - 1);
    }
  }

  /** `w | (1 << j)` sets bit `j` alone. */
  lemma {:induction false} SetBit(w: nat, i: nat, j: nat)
    ensures BitAt(Or(w, Shl(1, j)), i) == (BitAt(w, i) || i == j)
  {
    ShlOneBits(i, j);
    if w == 0 {
      ZeroBits(i);
    } else if j == 0 {
      OrOne(w);
    } else if i > 0 {
      SetBit(w / 2, i - 1, j - 1);
    }
  }

  lemma {:induction false} ShlOneFits(j: nat, k: nat)
    requires j < k
    ensures Shl(1, j) <= Ones(k)
  {
    if j > 0 {
      ShlOneFits(j - 1, k - 1);
    }
  }

  lemma {:induction false} OrFits(a: nat, b: nat, k: nat)
    requires a <= Ones(k) && b <= Ones(k)
    ensures Or(a, b) <= Ones(k)
  {
    if a > 0 && b > 0 && k > 0 {
      OrFits(a / 2, b / 2, k - 1);
    }
  }

  lemma {:induction false} AndFits(a: nat, b: nat)
    ensures And(a, b) <= a
  {
    if a > 0 && b > 0 {
      AndFits(a / 2, b / 2);
    }
  }

  lemma OnesHalf(k: nat)
    requires k > 0
    ensures Ones(k) / 2 == Ones(k - 1) && Ones(k) % 2 == 1
  {
  }

  lemma {:induction false} OnesBits(j: nat, k: nat)
    requires j < k
    ensures BitAt(Ones(k), j)
  {
    OnesHalf(k);
    if j > 0 {
      OnesBits(j - 1, k - 1);
    }
  }

  /** The bits of a conjunction. */
  lemma {:induction false} AndBits(a: nat, b: nat, i: nat)
    ensures BitAt(And(a, b), i) == (BitAt(a, i) && BitAt(b, i))
  {
    if a == 0 || b == 0 {
      ZeroBits(i);
    } else {
      AndHalf(a, b);
      if i > 0 {
        AndBits(a / 2, b / 2, i - 1);
      }
    }
  }

  lemma AndHalf(a: nat, b: nat)
    requires a > 0 && b > 0
    ensures And(a, b) / 2 == And(a / 2, b / 2) && (And(a, b) % 2 == 1 <==> a % 2 == 1 && b % 2 == 1)
  {
  }

  /** All `k` low bits but bit `j`. */
  lemma {:induction false} MaskBits(i: nat, j: nat, k: nat)
    requires i < k && j < k
    ensures Shl(1, j) <= Ones(k) && BitAt(Ones(k) - Shl(1, j), i) == (i != j)
  {
    ShlOneFits(j, k);
    OnesHalf(k);
    if i > 0 && j == 0 {
      OnesBits(i - 1, k - 1);
    } else if i > 0 {
      MaskBits(i - 1, j - 1, k - 1);
      assert (Ones(k) - Shl(1, j)) / 2 == Ones(k - 1) - Shl(1, j - 1);
    }
  }

  /** `w & ~(1 << j)` clears bit `j` alone, in a word of `k` bits. */
  lemma ClearBit(w: nat, i: nat, j: nat, k: nat)
    requires i < k && j < k
    ensures Shl(1, j) <= Ones(k)
    ensures BitAt(And(w, Ones(k) - Shl(1, j)), i) == (BitAt(w, i) && i != j)
  {
    MaskBits(i, j, k);
    AndBits(w, Ones(k) - Shl(1, j), i);
  }

  /** The word-skip test: a word other than all ones has a clear bit. */
  lemma {:induction false} AllBits(w: nat, k: nat)
    requires w <= Ones(k)
    ensures w == Ones(k) <==> forall j: nat :: j < k ==> BitAt(w, j)
  {
    if k > 0 {
      AllBits(w / 2, k - 1);
      if w == Ones(k) {
        forall j: nat | j < k {
          OnesBits(j, k);
        }
      }
      if forall j: nat :: j < k ==> BitAt(w, j) {
        assert BitAt(w, 0);
        forall j: nat | j < k - 1
          ensures BitAt(w / 2, j)
        {
          assert BitAt(w, j + 1);
        }
      }
    }
  }

  lemma WordOnes()
    ensures Ones(32) == WORD_LIMIT - 1
  {
    BigOnes();
  }
}
