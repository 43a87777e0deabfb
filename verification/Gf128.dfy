/** Doubling in GF(2^128) as the AES modes use it (bdk/sec/se.c, lines 38-68).

    A block is sixteen bytes. The polynomial behind it has its highest coefficient in the first byte
    for `_se_ls_1bit` and in the last byte for `_se_ls_1bit_le`. */
module Gf128 {
  import opened Bits

  const BLOCK_SIZE := 16

  type Block = b: seq<u8> | |b| == BLOCK_SIZE witness [0, 0, 0, 0, 0, 0, 0, 0, 0, 0, 0, 0, 0, 0, 0, 0]

  // ----- Multiplication by x, coefficient by coefficient -----

  /** Whether x^k occurs in x^7 + x^2 + x + 1, which x^128 is congruent to. */
  predicate Reduction(k: nat) { k == 0 || k == 1 || k == 2 || k == 7 }

  /** The coefficient of x^k in the big-endian block. */
  predicate CoefBE(b: Block, k: nat)
    requires k < 128
  {
    TestBit(b[15 - k / 8], k % 8)
  }

  /** The coefficient of x^k in the little-endian block. */
  predicate CoefLE(b: Block, k: nat)
    requires k < 128
  {
    TestBit(b[k / 8], k % 8)
  }

  // ----- The byte-wise description of both routines -----

  /** `b << 1` in eight bits with a carry from the next byte below */
  function ShiftIn(b: u8, below: u8): (r: u8)
  {
    (if b < 0x80 then 2 * b else 2 * b - 0x100) + if below < 0x80 then 0 else 1
  }

  function Xor87(b: u8): (r: u8)
  {
    Pow2Table();
    XorBound(b, 0x87, 8);
    Xor(b, 0x87)
  }

  /** The byte of the next lower coefficients. */
  function BelowBE(b: Block, i: nat): u8
    requires i < 16
  {
    if i < 15 then b[i + 1] else 0
  }

  function BelowLE(b: Block, i: nat): u8
    requires i < 16
  {
    if i > 0 then b[i - 1] else 0
  }

  /** r is the double of b, highest byte first. */
  predicate IsDoubleBE(b: Block, r: Block)
  {
    (forall i :: 0 <= i < 15 ==> r[i] == ShiftIn(b[i], BelowBE(b, i))) &&
    r[15] == if b[0] >= 0x80 then Xor87(ShiftIn(b[15], 0)) else ShiftIn(b[15], 0)
  }

  /** r is the double of b, lowest byte first. */
  predicate IsDoubleLE(b: Block, r: Block)
  {
    (forall i :: 0 < i < 16 ==> r[i] == ShiftIn(b[i], BelowLE(b, i))) &&
    r[0] == if b[15] >= 0x80 then Xor87(ShiftIn(b[0], 0)) else ShiftIn(b[0], 0)
  }

  /** The double of a block, highest byte first. */
  function DoubleBE(b: Block): (r: Block)
    ensures IsDoubleBE(b, r)
  {
    var s := ShiftIn(b[15], 0);
    [ShiftIn(b[0], b[1]), ShiftIn(b[1], b[2]), ShiftIn(b[2], b[3]), ShiftIn(b[3], b[4]),
     ShiftIn(b[4], b[5]), ShiftIn(b[5], b[6]), ShiftIn(b[6], b[7]), ShiftIn(b[7], b[8]),
     ShiftIn(b[8], b[9]), ShiftIn(b[9], b[10]), ShiftIn(b[10], b[11]), ShiftIn(b[11], b[12]),
     ShiftIn(b[12], b[13]), ShiftIn(b[13], b[14]), ShiftIn(b[14], b[15]), if b[0] >= 0x80 then Xor87(s) else s]
  }

  function Reverse(b: Block): (r: Block)
    ensures forall i :: 0 <= i < 16 ==> r[i] == b[15 - i]
  {
    [b[15], b[14], b[13], b[12], b[11], b[10], b[9], b[8], b[7], b[6], b[5], b[4], b[3], b[2], b[1], b[0]]
  }

  /** The double of a block, lowest byte first. */
  function DoubleLE(b: Block): (r: Block)
    ensures IsDoubleLE(b, r)
  {
    var s := ShiftIn(b[0], 0);
    [if b[15] >= 0x80 then Xor87(s) else s, ShiftIn(b[1], b[0]), ShiftIn(b[2], b[1]), ShiftIn(b[3], b[2]),
     ShiftIn(b[4], b[3]), ShiftIn(b[5], b[4]), ShiftIn(b[6], b[5]), ShiftIn(b[7], b[6]),
     ShiftIn(b[8], b[7]), ShiftIn(b[9], b[8]), ShiftIn(b[10], b[9]), ShiftIn(b[11], b[10]),
     ShiftIn(b[12], b[11]), ShiftIn(b[13], b[12]), ShiftIn(b[14], b[13]), ShiftIn(b[15], b[14])]
  }

  lemma DoubleUnique(b: Block, r: Block)
    ensures IsDoubleBE(b, r) ==> r == DoubleBE(b)
    ensures IsDoubleLE(b, r) ==> r == DoubleLE(b)
  {
    hide DoubleBE, DoubleLE, ShiftIn, Xor87;
    var x, y := DoubleBE(b), DoubleLE(b);
    if IsDoubleBE(b, r) {
      forall i | 0 <= i < 16 ensures r[i] == x[i] {}
    }
    if IsDoubleLE(b, r) {
      forall i | 0 <= i < 16 ensures r[i] == y[i] {}
    }
  }

  lemma ShiftInBits(b: u8, below: u8, j: nat)
    requires j < 8
    ensures TestBit(ShiftIn(b, below), j) == if j == 0 then TestBit(below, 7) else TestBit(b, j - 1)
  {
    hide TestBit, ShiftIn;
    ShiftInParts(b, below);
    var l, c := b % 0x80, below / 0x80;
    HighBit(below);
    DoubledBits(l, c, j);
    if j > 0 { LowBits(b, j - 1); }
  }

  /** The bits of a doubled number with a new lowest bit */
  lemma DoubledBits(l: nat, c: nat, j: nat)
    requires c < 2
    ensures TestBit(2 * l + c, j) == if j == 0 then c == 1 else TestBit(l, j - 1)
  {
    assert (2 * l + c) / 2 == l && (2 * l + c) % 2 == c;
  }

  lemma HighBit(b: u8)
    ensures TestBit(b, 7) == (b >= 0x80)
  {
    hide TestBit;
    ShrBit(b, 3, 4);
    ShrBit(b / 8, 4, 0);
    LowestBit(b / 8 / 16);
    assert b / 8 / 16 == b / 0x80;
  }

  lemma LowestBit(w: nat)
    ensures TestBit(w, 0) == (w % 2 == 1)
  {
  }

  /** Bits three and four places up are bits of an eighth and a sixteenth. */
  lemma ShrBit(w: nat, m: nat, j: nat)
    requires m == 3 || m == 4
    ensures TestBit(w, m + j) == TestBit(w / (if m == 3 then 8 else 16), j)
  {
    hide TestBit;
    Half(w, m + j);
    Half(w / 2, m + j - 1);
    Half(w / 4, m + j - 2);
    if m == 4 { Half(w / 8, j + 1); }
  }

  lemma LowBits(b: u8, j: nat)
    requires j < 7
    ensures TestBit(b % 0x80, j) == TestBit(b, j)
  {
    hide TestBit, Pow2;
    Pow2Table();
    if b >= 0x80 { TopBitApart(b - 0x80, j, 7); }
  }

  /** Adding 2^m does not move the bits below m. */
  lemma {:induction false} TopBitApart(a: nat, j: nat, m: nat)
    requires j < m
    ensures TestBit(a + Pow2(m), j) == TestBit(a, j)
    decreases m
  {
    if j > 0 {
      assert (a + Pow2(m)) / 2 == a / 2 + Pow2(m - 1);
      TopBitApart(a / 2, j - 1, m - 1);
    }
  }

  lemma Half(w: nat, j: nat)
    requires j > 0
    ensures TestBit(w, j) == TestBit(w / 2, j - 1)
  {
  }

  lemma Bits87(j: nat)
    requires j < 8
    ensures TestBit(0x87, j) == Reduction(j)
  {
    if j > 0 { Half(0x87, j); }
    if j > 1 { Half(0x43, j - 1); }
    if j > 2 { Half(0x21, j - 2); }
    if j > 3 { Half(0x10, j - 3); }
    if j > 4 { Half(8, j - 4); }
    if j > 5 { Half(4, j - 5); }
    if j > 6 { Half(2, j - 6); }
  }

  lemma Xor87Bits(b: u8, j: nat)
    requires j < 8
    ensures TestBit(Xor87(b), j) == (TestBit(b, j) != Reduction(j))
  {
    TestBitXor(b, 0x87, j);
    Bits87(j);
  }

  /** r is x times b modulo x^128 + x^7 + x^2 + x + 1, coefficient by coefficient, highest byte first. */
  ghost predicate TimesXBE(b: Block, r: Block)
  {
    forall k :: 0 <= k < 128 ==>
      CoefBE(r, k) == ((k > 0 && CoefBE(b, k - 1)) != (CoefBE(b, 127) && Reduction(k)))
  }

  /** The same, lowest byte first. */
  ghost predicate TimesXLE(b: Block, r: Block)
  {
    forall k :: 0 <= k < 128 ==>
      CoefLE(r, k) == ((k > 0 && CoefLE(b, k - 1)) != (CoefLE(b, 127) && Reduction(k)))
  }

  /** The big-endian routine multiplies by x modulo x^128 + x^7 + x^2 + x + 1. */
  lemma DoubleBEIsTimesX(b: Block)
    ensures TimesXBE(b, DoubleBE(b))
  {
    hide TestBit, ShiftIn, Xor87, DoubleBE;
    var r := DoubleBE(b);
    HighBit(b[0]);
    HighBit(0);
    forall k | 0 <= k < 128
      ensures CoefBE(r, k) == ((k > 0 && CoefBE(b, k - 1)) != (CoefBE(b, 127) && Reduction(k)))
    {
      var i, j := 15 - k / 8, k % 8;
      if i < 15 {
        ShiftInBits(b[i], b[i + 1], j);
      } else {
        ShiftInBits(b[15], 0, j);
        Xor87Bits(ShiftIn(b[15], 0), j);
      }
    }
  }

  /** The little-endian routine multiplies by x modulo x^128 + x^7 + x^2 + x + 1. */
  lemma DoubleLEIsTimesX(b: Block)
    ensures TimesXLE(b, DoubleLE(b))
  {
    hide TestBit, ShiftIn, Xor87, DoubleLE;
    var r := DoubleLE(b);
    HighBit(b[15]);
    HighBit(0);
    forall k | 0 <= k < 128
      ensures CoefLE(r, k) == ((k > 0 && CoefLE(b, k - 1)) != (CoefLE(b, 127) && Reduction(k)))
    {
      var i, j := k / 8, k % 8;
      if i > 0 {
        ShiftInBits(b[i], b[i - 1], j);
      } else {
        ShiftInBits(b[0], 0, j);
        Xor87Bits(ShiftIn(b[0], 0), j);
      }
    }
  }

  /** The two routines agree under byte reversal. */
  lemma DoublesAgreeReversed(b: Block)
    ensures DoubleLE(Reverse(b)) == Reverse(DoubleBE(b))
  {
    hide ShiftIn, Xor87, DoubleBE, DoubleLE, Reverse;
    var c, r := Reverse(b), DoubleBE(b);
    forall i | 0 <= i < 16 ensures DoubleLE(c)[i] == Reverse(r)[i] {
      assert c[i] == b[15 - i];
      if i > 0 { assert c[i - 1] == b[15 - (i - 1)]; }
    }
  }

  // ----- The routines -----

  /** `_se_ls_1bit` */
  method LeftShiftBE(block: array<u8>)
    requires block.Length == BLOCK_SIZE
    modifies block
    ensures block[..] == DoubleBE(old(block[..]))
  {
    hide Xor87, DoubleBE, ShiftIn;
    ghost var b: Block := block[..];
    var carry: nat := 0;
    for i := BLOCK_SIZE downto 0
      invariant forall k :: 0 <= k < i ==> block[k] == b[k]
      invariant forall k :: i <= k < 16 ==> block[k] == ShiftIn(b[k], BelowBE(b, k))
      invariant carry == (if i == 16 then 0 else b[i]) / 0x80
    {
      var x: nat := block[i];
      ShiftInParts(x, BelowBE(b, i));
      block[i] := 2 * x % 0x100 + carry;
      carry := x / 0x80;
    }
    assert BelowBE(b, 15) == 0;
    if carry != 0 { block[BLOCK_SIZE - 1] := Xor87(block[BLOCK_SIZE - 1]); }
    DoubleUnique(b, block[..]);
  }

  // ----- The little-endian routine works on four 32-bit words -----

  /** A little-endian 32-bit word of the buffer */
  function Word(s: seq<u8>, at: nat): (w: u32)
    requires at + 4 <= |s|
  {
    var b0: nat, b1: nat, b2: nat, b3: nat := s[at], s[at + 1], s[at + 2], s[at + 3];
    b0 + 0x100 * b1 + 0x1_0000 * b2 + 0x100_0000 * b3
  }

  method StoreWord(buf: array<u8>, at: nat, w: u32)
    requires at + 4 <= buf.Length
    modifies buf
    ensures forall i :: 0 <= i < buf.Length && !(at <= i < at + 4) ==> buf[i] == old(buf[i])
    ensures buf[at] == w % 0x100 && buf[at + 1] == w / 0x100 % 0x100
    ensures buf[at + 2] == w / 0x1_0000 % 0x100 && buf[at + 3] == w / 0x100_0000
  {
    buf[at] := w % 0x100;
    buf[at + 1] := w / 0x100 % 0x100;
    buf[at + 2] := w / 0x1_0000 % 0x100;
    buf[at + 3] := w / 0x100_0000;
  }

  /** Shifting a word left is shifting its bytes, with the carry going in at the bottom. */
  lemma WordShift(b0: nat, b1: nat, b2: nat, b3: nat, below: nat, w: nat)
    requires b0 < 0x100 && b1 < 0x100 && b2 < 0x100 && b3 < 0x100 && below < 0x100
    requires w == 2 * (b0 + 0x100 * b1 + 0x1_0000 * b2 + 0x100_0000 * b3) % 0x1_0000_0000 + below / 0x80
    ensures w < 0x1_0000_0000
    ensures w % 0x100 == ShiftIn(b0, below) && w / 0x100 % 0x100 == ShiftIn(b1, b0)
    ensures w / 0x1_0000 % 0x100 == ShiftIn(b2, b1) && w / 0x100_0000 == ShiftIn(b3, b2)
    ensures (b0 + 0x100 * b1 + 0x1_0000 * b2 + 0x100_0000 * b3) / 0x8000_0000 == b3 / 0x80
  {
    var (h0, l0) := (b0 / 0x80, b0 % 0x80);
    var (h1, l1) := (b1 / 0x80, b1 % 0x80);
    var (h2, l2) := (b2 / 0x80, b2 % 0x80);
    var (h3, l3) := (b3 / 0x80, b3 % 0x80);
    ShiftInParts(b0, below);
    ShiftInParts(b1, b0);
    ShiftInParts(b2, b1);
    ShiftInParts(b3, b2);
    var v := 2 * l0 + 0x100 * (2 * l1 + h0) + 0x1_0000 * (2 * l2 + h1) + 0x100_0000 * (2 * l3 + h2);
    DropTop(b0 + 0x100 * b1 + 0x1_0000 * b2 + 0x100_0000 * b3, v, h3);
    BytesOf(2 * l0 + below / 0x80, 2 * l1 + h0, 2 * l2 + h1, 2 * l3 + h2, w);
  }

  lemma ShiftInParts(b: nat, below: nat)
    requires b < 0x100 && below < 0x100
    ensures ShiftIn(b, below) == 2 * (b % 0x80) + below / 0x80 && b == 0x80 * (b / 0x80) + b % 0x80
    ensures 2 * b % 0x100 == 2 * (b % 0x80)
  {
    var h, l := b / 0x80, b % 0x80;
    assert b == 0x80 * h + l && 2 * b == 0x100 * h + 2 * l;
  }

  lemma DropTop(w: nat, v: nat, h: nat)
    requires 2 * w == v + 0x1_0000_0000 * h && v < 0x1_0000_0000
    ensures 2 * w % 0x1_0000_0000 == v && w / 0x8000_0000 == h
  {
  }

  lemma BytesOf(c0: nat, c1: nat, c2: nat, c3: nat, w: nat)
    requires c0 < 0x100 && c1 < 0x100 && c2 < 0x100 && c3 < 0x100
    requires w == c0 + 0x100 * c1 + 0x1_0000 * c2 + 0x100_0000 * c3
    ensures w % 0x100 == c0 && w / 0x100 % 0x100 == c1 && w / 0x1_0000 % 0x100 == c2 && w / 0x100_0000 == c3
  {
    assert w / 0x100 == c1 + 0x100 * c2 + 0x1_0000 * c3;
    assert w / 0x1_0000 == c2 + 0x100 * c3;
  }

  lemma XorLowByte(w: u32)
    ensures Xor(w, 0x87) < 0x1_0000_0000
    ensures Xor(w, 0x87) == Xor87(w % 0x100) + w / 0x100 * 0x100
  {
    Pow2Table();
    XorBound(w, 0x87, 32);
    XorWithLow(w, 0x87, 8);
    Byte(w);
    Byte(0x87);
    Byte(w / 0x100);
    XorZero(w / 0x100);
  }

  lemma {:induction false} XorWithLow(a: nat, b: nat, m: nat)
    ensures Xor(a, b) == Shl(Xor(Shr(a, m), Shr(b, m)), m) + Xor(Low(a, m), Low(b, m))
  {
    XorLow(a, b, m);
    XorShr(a, b, m);
    Rejoin(Xor(a, b), m);
  }

  /** One turn of the loop of `_se_ls_1bit_le` */
  method ShiftWord(block: array<u8>, at: nat, carry: nat, ghost below: u8) returns (carry': nat)
    requires at + 4 <= block.Length && carry == below / 0x80
    modifies block
    ensures block[at] == ShiftIn(old(block[at]), below) && block[at + 1] == ShiftIn(old(block[at + 1]), old(block[at]))
    ensures block[at + 2] == ShiftIn(old(block[at + 2]), old(block[at + 1]))
    ensures block[at + 3] == ShiftIn(old(block[at + 3]), old(block[at + 2]))
    ensures forall i :: 0 <= i < block.Length && !(at <= i < at + 4) ==> block[i] == old(block[i])
    ensures carry' == old(block[at + 3]) / 0x80
  {
    hide ShiftIn;
    var w: nat := Word(block[..], at);
    WordShift(block[at], block[at + 1], block[at + 2], block[at + 3], below, 2 * w % 0x1_0000_0000 + carry);
    StoreWord(block, at, 2 * w % 0x1_0000_0000 + carry);
    carry' := w / 0x8000_0000;
  }

  /** The reduction of `_se_ls_1bit_le`, line 67 */
  method ReduceWord(block: array<u8>)
    requires block.Length == BLOCK_SIZE
    modifies block
    ensures block[0] == Xor87(old(block[0])) && forall i :: 0 < i < 16 ==> block[i] == old(block[i])
  {
    hide Xor, Xor87;
    var w := Word(block[..], 0);
    XorLowByte(w);
    ghost var b0: nat, b1: nat, b2: nat, b3: nat := block[0], block[1], block[2], block[3];
    BytesOf(b0, b1, b2, b3, w);
    BytesOf(Xor87(block[0]), b1, b2, b3, Xor(w, 0x87));
    StoreWord(block, 0, Xor(w, 0x87));
  }

  /** `_se_ls_1bit_le` */
  method LeftShiftLE(block: array<u8>)
    requires block.Length == BLOCK_SIZE
    modifies block
    ensures block[..] == DoubleLE(old(block[..]))
  {
    hide ShiftIn, Xor87, DoubleLE;
    ghost var b: Block := block[..];
    var carry := 0;
    for n := 0 to 4
      invariant forall i :: 4 * n <= i < 16 ==> block[i] == b[i]
      invariant forall i :: 0 <= i < 4 * n ==> block[i] == ShiftIn(b[i], BelowLE(b, i))
      invariant carry == (if n == 0 then 0 else b[4 * n - 1]) / 0x80
    {
      carry := ShiftWord(block, 4 * n, carry, if n == 0 then 0 else b[4 * n - 1]);
    }
    assert BelowLE(b, 0) == 0;
    if carry != 0 { ReduceWord(block); }
    DoubleUnique(b, block[..]);
  }
}
