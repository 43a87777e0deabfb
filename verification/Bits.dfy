/** Bitwise operations on unsigned machine words, modelled on natural numbers. */
module Bits {

  type u8 = n: nat | n < 0x100
  type u32 = n: nat | n < 0x1_0000_0000

  /** 32-bit words whose operations are proved not to wrap around */
  newtype uint32 = x: int | 0 <= x < 0x1_0000_0000

  /** Exclusive or, bit by bit from the lowest one. */
  function Xor(a: nat, b: nat): nat
    decreases a + b
  {
    if a == 0 && b == 0 then 0
    else (if a % 2 == b % 2 then 0 else 1) + 2 * Xor(a / 2, b / 2)
  }

  /** `1 << k` */
  function Pow2(k: nat): (p: nat)
    ensures p > 0
  {
    if k == 0 then 1 else 2 * Pow2(k - 1)
  }

  /** `a >> m` */
  function Shr(a: nat, m: nat): nat
    decreases m, a
  {
    if m == 0 then a else Shr(a / 2, m - 1)
  }

  /** `a << m` without a width limit */
  function Shl(a: nat, m: nat): nat
    decreases m, a
  {
    if m == 0 then a else 2 * Shl(a, m - 1)
  }

  /** The low m bits, `a & ((1 << m) - 1)` */
  function Low(a: nat, m: nat): nat
    decreases m, a
  {
    if m == 0 then 0 else a % 2 + 2 * Low(a / 2, m - 1)
  }

  /** `(w >> k) & 1` */
  predicate TestBit(w: nat, k: nat)
  {
    if k == 0 then w % 2 == 1 else TestBit(w / 2, k - 1)
  }

  /** The number of set bits modulo two. */
  function Parity(w: nat): (p: nat)
    ensures p < 2
  {
    if w == 0 then 0 else if w % 2 == 1 then 1 - Parity(w / 2) else Parity(w / 2)
  }

  // ----- Xor is a group operation in which every element is its own inverse -----

  lemma {:induction false} XorZero(a: nat)
    ensures Xor(a, 0) == a && Xor(0, a) == a
  {
    if a != 0 { XorZero(a / 2); }
  }

  lemma {:induction false} XorSelf(a: nat)
    ensures Xor(a, a) == 0
  {
    if a != 0 { XorSelf(a / 2); }
  }

  lemma {:induction false} XorComm(a: nat, b: nat)
    ensures Xor(a, b) == Xor(b, a)
    decreases a + b
  {
    if a + b != 0 { XorComm(a / 2, b / 2); }
  }

  /** The lowest bit of a number and the rest */
  lemma Digit(d: nat, r: nat)
    requires d < 2
    ensures (d + 2 * r) % 2 == d && (d + 2 * r) / 2 == r
  {
  }

  lemma XorStep(a: nat, b: nat)
    ensures Xor(a, b) % 2 == if a % 2 == b % 2 then 0 else 1
    ensures Xor(a, b) / 2 == Xor(a / 2, b / 2)
  {
    Digit(if a % 2 == b % 2 then 0 else 1, Xor(a / 2, b / 2));
  }

  /** Xor with an even number */
  lemma XorEven(x: nat, b: nat)
    ensures Xor(2 * x, b) == b % 2 + 2 * Xor(x, b / 2)
  {
    hide Xor;
    Digit(0, x);
    Digit(b % 2, Xor(x, b / 2));
    XorStep(2 * x, b);
    HalvesEqual(Xor(2 * x, b), b % 2 + 2 * Xor(x, b / 2));
  }

  lemma {:induction false} XorAssoc(a: nat, b: nat, c: nat)
    ensures Xor(Xor(a, b), c) == Xor(a, Xor(b, c))
    decreases a + b + c
  {
    if a + b + c != 0 {
      XorAssoc(a / 2, b / 2, c / 2);
      XorStep(a, b);
      XorStep(b, c);
      XorStep(Xor(a, b), c);
      XorStep(a, Xor(b, c));
      HalvesEqual(Xor(Xor(a, b), c), Xor(a, Xor(b, c)));
    }
  }

  lemma HalvesEqual(x: nat, y: nat)
    requires x % 2 == y % 2 && x / 2 == y / 2
    ensures x == y
  {
  }

  lemma XorCancel(a: nat, b: nat)
    ensures Xor(Xor(a, b), b) == a
  {
    XorAssoc(a, b, b);
    XorSelf(b);
    XorZero(a);
  }

  lemma XorIsZero(a: nat, b: nat)
    ensures Xor(a, b) == 0 <==> a == b
  {
    XorCancel(a, b);
    XorZero(b);
    XorSelf(a);
  }

  // ----- Single bits -----

  lemma {:induction false} TestBitXor(a: nat, b: nat, k: nat)
    ensures TestBit(Xor(a, b), k) == (TestBit(a, k) != TestBit(b, k))
    decreases k
  {
    XorStep(a, b);
    if k > 0 { TestBitXor(a / 2, b / 2, k - 1); }
  }

  lemma {:induction false} TestBitPow2(j: nat, k: nat)
    ensures TestBit(Pow2(j), k) == (j == k)
  {
    if j == 0 {
      if k > 0 { TestBitZero(k - 1); }
    } else if k > 0 {
      TestBitPow2(j - 1, k - 1);
    }
  }

  lemma {:induction false} TestBitZero(k: nat)
    ensures !TestBit(0, k)
  {
    if k > 0 { TestBitZero(k - 1); }
  }

  // ----- Fields: a word cut at bit m -----

  lemma LowStep(a: nat, m: nat)
    requires m > 0
    ensures Low(a, m) % 2 == a % 2 && Low(a, m) / 2 == Low(a / 2, m - 1)
  {
    Digit(a % 2, Low(a / 2, m - 1));
  }

  lemma {:induction false} XorLow(a: nat, b: nat, m: nat)
    ensures Low(Xor(a, b), m) == Xor(Low(a, m), Low(b, m))
    decreases m
  {
    if m > 0 {
      XorLow(a / 2, b / 2, m - 1);
      XorStep(a, b);
      LowStep(a, m);
      LowStep(b, m);
      XorStep(Low(a, m), Low(b, m));
    }
  }

  lemma {:induction false} XorShr(a: nat, b: nat, m: nat)
    ensures Shr(Xor(a, b), m) == Xor(Shr(a, m), Shr(b, m))
    decreases m
  {
    XorStep(a, b);
    if m > 0 { XorShr(a / 2, b / 2, m - 1); }
  }

  lemma {:induction false} XorShl(a: nat, b: nat, m: nat)
    ensures Shl(Xor(a, b), m) == Xor(Shl(a, m), Shl(b, m))
  {
    hide Xor;
    if m > 0 {
      XorShl(a, b, m - 1);
      Digit(0, Shl(b, m - 1));
      XorEven(Shl(a, m - 1), Shl(b, m));
    }
  }

  lemma {:induction false} LowPow2(j: nat, m: nat)
    ensures Low(Pow2(j), m) == if j < m then Pow2(j) else 0
    decreases m
  {
    if m > 0 {
      if j > 0 { LowPow2(j - 1, m - 1); } else { LowZero(m - 1); }
    }
  }

  lemma {:induction false} LowZero(m: nat)
    ensures Low(0, m) == 0 && Shr(0, m) == 0 && Shl(0, m) == 0
  {
    if m > 0 { LowZero(m - 1); }
  }

  lemma {:induction false} ShrPow2(j: nat, m: nat)
    ensures Shr(Pow2(j), m) == if j < m then 0 else Pow2(j - m)
    decreases m
  {
    if m > 0 {
      if j > 0 {
        assert Pow2(j) / 2 == Pow2(j - 1);
        ShrPow2(j - 1, m - 1);
        assert Shr(Pow2(j), m) == Shr(Pow2(j - 1), m - 1);
      } else {
        LowZero(m - 1);
        assert Pow2(0) / 2 == 0;
      }
    }
  }

  lemma {:induction false} ShlPow2(j: nat, m: nat)
    ensures Shl(Pow2(j), m) == Pow2(j + m)
  {
    if m > 0 { ShlPow2(j, m - 1); }
  }

  lemma {:induction false} Pow2Mono(j: nat, k: nat)
    requires j < k
    ensures Pow2(j) < Pow2(k)
  {
    if j < k - 1 { Pow2Mono(j, k - 1); }
  }

  /** A value fits in k bits exactly when nothing is left above them. */
  lemma {:induction false} Fits(a: nat, k: nat)
    ensures a < Pow2(k) <==> Low(a, k) == a
    ensures a < Pow2(k) <==> Shr(a, k) == 0
    ensures Low(a, k) < Pow2(k)
    decreases k
  {
    if k > 0 { Fits(a / 2, k - 1); }
  }

  lemma {:induction false} XorBound(a: nat, b: nat, k: nat)
    requires a < Pow2(k) && b < Pow2(k)
    ensures Xor(a, b) < Pow2(k)
    decreases k
  {
    if k > 0 { XorBound(a / 2, b / 2, k - 1); }
  }

  /** Fields that do not overlap combine by addition. */
  lemma {:induction false} XorDisjoint(h: nat, l: nat, m: nat)
    requires l < Pow2(m)
    ensures Xor(Shl(h, m), l) == Shl(h, m) + l
    decreases m
  {
    hide Xor;
    if m == 0 {
      XorZero(h);
    } else {
      XorDisjoint(h, l / 2, m - 1);
      XorEven(Shl(h, m - 1), l);
    }
  }

  /** Cutting a word at bit m loses nothing. */
  lemma {:induction false} Rejoin(a: nat, m: nat)
    ensures Shl(Shr(a, m), m) + Low(a, m) == a
    decreases m
  {
    if m > 0 {
      Rejoin(a / 2, m - 1);
    }
  }

  lemma {:induction false} LowSplit(w: nat, m: nat, k: nat)
    ensures Low(w, m + k) == Shl(Low(Shr(w, m), k), m) + Low(w, m)
    decreases m
  {
    if m > 0 { LowSplit(w / 2, m - 1, k); }
  }

  lemma {:induction false} ShlTwice(a: nat, m: nat)
    ensures Shl(Shl(a, 1), m) == Shl(a, m + 1)
  {
    if m > 0 { ShlTwice(a, m - 1); }
  }

  lemma {:induction false} ShlBound(a: nat, k: nat, m: nat)
    requires a < Pow2(k)
    ensures Shl(a, m) < Pow2(k + m) && Shl(a, m) <= (Pow2(k) - 1) * Pow2(m)
  {
    if m > 0 {
      ShlBound(a, k, m - 1);
      DoubleProduct(Pow2(k) - 1, Pow2(m - 1));
    }
  }

  lemma DoubleProduct(x: nat, y: nat)
    ensures x * (2 * y) == 2 * (x * y)
  {
  }

  lemma {:induction false} ShrTwice(a: nat, m: nat, k: nat)
    ensures Shr(Shr(a, m), k) == Shr(a, m + k)
    decreases m
  {
    if m > 0 { ShrTwice(a / 2, m - 1, k); }
  }

  lemma OneBit(a: nat)
    ensures Shr(a, 1) == a / 2 && Low(a, 1) == a % 2 && Shl(a, 1) == 2 * a
  {
  }

  lemma TwoBits(a: nat)
    ensures Shr(a, 2) == a / 4 && Low(a, 2) == a % 4 && Shl(a, 2) == 4 * a
  {
    hide Shr, Low, Shl;
    ShrTwice(a, 1, 1);
    LowSplit(a, 1, 1);
    ShlShl(a, 1, 1);
    OneBit(a);
    OneBit(a / 2);
    OneBit(a / 2 % 2);
    OneBit(2 * a);
    TwiceTwo(a);
  }

  lemma TwiceTwo(a: nat)
    ensures a / 2 / 2 == a / 4 && 2 * (a / 2 % 2) + a % 2 == a % 4
  {
  }

  lemma Nibble(a: nat)
    ensures Shr(a, 4) == a / 16 && Low(a, 4) == a % 16 && Shr(a, 5) == a / 32
  {
    hide Shr, Low, Shl;
    ShrTwice(a, 2, 2);
    LowSplit(a, 2, 2);
    ShrTwice(a, 4, 1);
    TwoBits(a);
    TwoBits(a / 4);
    TwoBits(a / 4 % 4);
    OneBit(a / 16);
    TwiceFour(a);
  }

  lemma TwiceFour(a: nat)
    ensures a / 4 / 4 == a / 16 && 4 * (a / 4 % 4) + a % 4 == a % 16 && a / 16 / 2 == a / 32
  {
  }

  lemma Byte(w: nat)
    ensures Low(w, 8) == w % 0x100 && Shr(w, 8) == w / 0x100 && Shl(w, 8) == 0x100 * w
  {
    hide Low, Shr, Shl;
    ShrTwice(w, 4, 4);
    LowSplit(w, 4, 4);
    Nibble(w);
    Nibble(w / 16);
    Shift4(w);
    Shift4(16 * w);
    ShlShl(w, 4, 4);
    Shift4(w / 16 % 16);
    SixteenTwice(w);
  }

  lemma SixteenTwice(w: nat)
    ensures w / 16 / 16 == w / 0x100 && 16 * (w / 16 % 16) + w % 16 == w % 0x100
  {
  }

  lemma Shift4(a: nat)
    ensures Shl(a, 4) == 16 * a
  {
    assert Shl(a, 1) == 2 * a;
    assert Shl(a, 2) == 4 * a;
    assert Shl(a, 3) == 8 * a;
  }

  lemma {:induction false} ShlShl(a: nat, m: nat, k: nat)
    ensures Shl(Shl(a, m), k) == Shl(a, m + k)
  {
    if k > 0 { ShlShl(a, m, k - 1); }
  }

  /** The powers of two that the modelled code writes as literals. */
  lemma Pow2Table()
    ensures Pow2(1) == 2 && Pow2(2) == 4 && Pow2(4) == 0x10 && Pow2(5) == 0x20 && Pow2(7) == 0x80
    ensures Pow2(8) == 0x100 && Pow2(14) == 0x4000 && Pow2(15) == 0x8000 && Pow2(16) == 0x1_0000
    ensures Pow2(20) == 0x10_0000 && Pow2(22) == 0x40_0000 && Pow2(24) == 0x100_0000
    ensures Pow2(26) == 0x400_0000 && Pow2(32) == 0x1_0000_0000
  {
    assert Pow2(4) == 0x10;
    assert Pow2(8) == 0x100;
    assert Pow2(12) == 0x1000;
    assert Pow2(16) == 0x1_0000;
    assert Pow2(20) == 0x10_0000;
    assert Pow2(24) == 0x100_0000;
    assert Pow2(28) == 0x1000_0000;
  }

  // ----- Parity -----

  lemma {:induction false} ParityXor(a: nat, b: nat)
    ensures Parity(Xor(a, b)) == (Parity(a) + Parity(b)) % 2
    decreases a + b
  {
    XorStep(a, b);
    if a + b != 0 { ParityXor(a / 2, b / 2); }
  }

  lemma {:induction false} ParityPow2(j: nat)
    ensures Parity(Pow2(j)) == 1
  {
    if j > 0 {
      ParityPow2(j - 1);
      Digit(0, Pow2(j - 1));
    }
  }

  lemma {:induction false} ParitySplit(a: nat, m: nat)
    ensures Parity(a) == (Parity(Low(a, m)) + Parity(Shr(a, m))) % 2
    decreases m
  {
    if m > 0 {
      ParitySplit(a / 2, m - 1);
      LowStep(a, m);
      assert Parity(a) == if a % 2 == 1 then 1 - Parity(a / 2) else Parity(a / 2);
    }
  }

  /** Xoring the two halves of a word on top of each other keeps its parity. */
  lemma ParityFold(a: nat, m: nat)
    ensures Parity(Xor(Low(a, m), Shr(a, m))) == Parity(a)
  {
    ParitySplit(a, m);
    ParityXor(Low(a, m), Shr(a, m));
  }
}
