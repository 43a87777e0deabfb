/** The error correcting code over groups of bootrom patch fuses (bdk/soc/fuse.c).

    A group is word 0 followed by payload words. Bits 0-14 of word 0 hold the check value of all the
    protected bits, bit 15 makes the parity of the whole group even, bits 16-19 and every later word
    are data. Bits 20-31 of word 0 hold the size of the next group under a small code of their own. */
module FuseEcc {
  import opened Bits

  datatype Outcome = Outcome(status: nat, words: seq<u32>)
  datatype WordOutcome = WordOutcome(status: nat, word: u32)

  /** `a ^ b` on 32-bit words */
  function Xor32(a: u32, b: u32): u32
  {
    Pow2Table();
    XorBound(a, b, 32);
    Xor(a, b)
  }

  /** `w ^ (1 << j)` */
  function FlipBit(w: u32, j: nat): u32
    requires j < 32
  {
    Pow2Table();
    Pow2Mono(j, 32);
    Xor32(w, Pow2(j))
  }

  /** The group with its p-th bit inverted. */
  function Flip(ws: seq<u32>, p: nat): (r: seq<u32>)
    requires p < 32 * |ws|
    ensures |r| == |ws|
  {
    ws[p / 32 := FlipBit(ws[p / 32], p % 32)]
  }

  // ----- Parity of a group -----

  function GroupParity(ws: seq<u32>): (p: nat)
    ensures p < 2
  {
    if |ws| == 0 then 0 else (GroupParity(ws[..|ws| - 1]) + Parity(ws[|ws| - 1])) % 2
  }

  /** The folding of one 32-bit accumulator, `_parity32_even` after its loop. */
  function FoldParity(acc: u32): (r: nat)
    ensures r == Parity(acc)
  {
    var t := Xor(Low(acc, 16), Shr(acc, 16));
    var x := Xor(Shr(t, 8), Low(t, 8));
    var u := Xor(Low(x, 4), Shr(x, 4));
    var y := Xor(Shr(u, 2), Low(u, 2));
    FoldParityCorrect(acc);
    Xor(Low(y, 1), Shr(y, 1))
  }

  lemma FoldBound(a: nat, m: nat)
    requires a < Pow2(2 * m)
    ensures Low(a, m) < Pow2(m) && Shr(a, m) < Pow2(m)
    ensures Xor(Low(a, m), Shr(a, m)) < Pow2(m)
    ensures Xor(Low(a, m), Shr(a, m)) == Xor(Shr(a, m), Low(a, m))
  {
    Fits(a, m);
    ShrBound(a, m, m);
    XorBound(Low(a, m), Shr(a, m), m);
    XorComm(Low(a, m), Shr(a, m));
  }

  lemma {:induction false} ShrBound(a: nat, m: nat, k: nat)
    requires a < Pow2(m + k)
    ensures Shr(a, m) < Pow2(k)
    decreases m
  {
    if m > 0 { ShrBound(a / 2, m - 1, k); }
  }

  lemma FoldParityCorrect(acc: u32)
    ensures var t := Xor(Low(acc, 16), Shr(acc, 16));
            var x := Xor(Shr(t, 8), Low(t, 8));
            var u := Xor(Low(x, 4), Shr(x, 4));
            var y := Xor(Shr(u, 2), Low(u, 2));
            Xor(Low(y, 1), Shr(y, 1)) == Parity(acc)
  {
    hide Xor, Low, Shr, Parity;
    Pow2Table();
    var t := Xor(Low(acc, 16), Shr(acc, 16));
    FoldBound(acc, 16);
    ParityFold(acc, 16);
    var x := Xor(Shr(t, 8), Low(t, 8));
    FoldBound(t, 8);
    ParityFold(t, 8);
    var u := Xor(Low(x, 4), Shr(x, 4));
    FoldBound(x, 4);
    ParityFold(x, 4);
    var y := Xor(Shr(u, 2), Low(u, 2));
    FoldBound(u, 2);
    ParityFold(u, 2);
    FoldBound(y, 1);
    ParityFold(y, 1);
    ParityOfBit(Xor(Low(y, 1), Shr(y, 1)));
  }

  lemma ParityOfBit(b: nat)
    requires b < 2
    ensures Parity(b) == b
  {
  }

  lemma GroupParityAppend(ws: seq<u32>, acc: u32, w: u32)
    requires Parity(acc) == GroupParity(ws)
    ensures Parity(Xor32(acc, w)) == GroupParity(ws + [w])
  {
    ParityXor(acc, w);
    assert (ws + [w])[..|ws|] == ws;
  }

  /** `_parity32_even` */
  method Parity32Even(words: array<u32>, count: nat) returns (parity: nat)
    requires 1 <= count <= words.Length
    ensures parity == GroupParity(words[..count])
  {
    var acc := words[0];
    GroupParityAppend([], 0, acc);
    XorZero(acc);
    assert words[..1] == [] + [acc];
    for i := 1 to count
      invariant Parity(acc) == GroupParity(words[..i])
    {
      GroupParityAppend(words[..i], acc, words[i]);
      assert words[..i + 1] == words[..i] + [words[i]];
      acc := Xor32(acc, words[i]);
    }
    parity := FoldParity(acc);
  }

  lemma {:induction false} GroupParityFlip(ws: seq<u32>, p: nat)
    requires p < 32 * |ws|
    ensures GroupParity(Flip(ws, p)) == 1 - GroupParity(ws)
    decreases |ws|
  {
    hide Xor, Parity, Pow2;
    var n := |ws| - 1;
    var fs := Flip(ws, p);
    if p / 32 == n {
      assert fs[..n] == ws[..n];
      ParityXor(ws[n], Pow2(p % 32));
      ParityPow2(p % 32);
    } else {
      GroupParityFlip(ws[..n], p);
      assert fs[..n] == Flip(ws[..n], p);
      assert fs[n] == ws[n];
    }
  }

  // ----- The check value -----

  /** Xor of `base + j` over the set bits j < k of w. */
  function BitSum(w: nat, base: nat, k: nat): nat
    decreases k, w
  {
    if k == 0 then 0
    else if TestBit(w, k - 1) then Xor(BitSum(w, base, k - 1), base + k - 1)
    else BitSum(w, base, k - 1)
  }

  /** Xor of `0x4000 + 32 * i + j` over the set bits j of the first n words i. */
  function PositionSum(ws: seq<u32>, n: nat): nat
    requires n <= |ws|
  {
    if n == 0 then 0 else Xor(PositionSum(ws, n - 1), BitSum(ws[n - 1], 0x4000 + 32 * (n - 1), 32))
  }

  /** Bits 16-19 in place, `w & 0xf0000`. */
  function Data4(w: nat): nat { Shl(Low(Shr(w, 16), 4), 16) }

  /** Bit 15 in place, `w & 0x8000`. */
  function ParityField(w: nat): nat { Shl(Low(Shr(w, 15), 1), 15) }

  lemma FieldBounds(w: nat)
    ensures Data4(w) < 0x10_0000 && ParityField(w) <= 0x8000 && Low(w, 15) < 0x8000 && Low(w, 20) < 0x10_0000
    ensures Xor(Xor(Data4(w), ParityField(w)), Low(w, 15)) == Low(w, 20)
  {
    hide Xor, Low, Shr, Shl;
    Pow2Table();
    Fits(Shr(w, 16), 4);
    Fits(Shr(w, 15), 1);
    Fits(w, 15);
    Fits(w, 20);
    ShlBound(Low(Shr(w, 16), 4), 4, 16);
    ShlBound(Low(Shr(w, 15), 1), 1, 15);
    LowSplit(w, 15, 5);
    LowSplit(Shr(w, 15), 1, 4);
    ShrShr(w, 15);
    var d, b := Low(Shr(w, 16), 4), Low(Shr(w, 15), 1);
    assert Low(Shr(w, 15), 5) == Shl(d, 1) + b;
    ShlTwice(d, 15);
    XorDisjoint(d, b, 1);
    XorShl(Shl(d, 1), b, 15);
    XorDisjoint(Low(Shr(w, 15), 5), Low(w, 15), 15);
  }

  lemma {:induction false} ShrShr(w: nat, m: nat)
    ensures Shr(Shr(w, m), 1) == Shr(w, m + 1)
    decreases m
  {
    if m > 0 { ShrShr(w / 2, m - 1); }
  }

  /** Word 0 as the hash loop of `_patch_hash_multi` sees it. */
  function Masked(ws: seq<u32>): (r: seq<u32>)
    requires |ws| > 0
    ensures |r| == |ws|
  {
    FieldBounds(ws[0]);
    ws[0 := Data4(ws[0])]
  }

  /** Word 0 with its upper twelve bits dropped, as `_patch_hash_multi` leaves it. */
  function Protected(ws: seq<u32>): (r: seq<u32>)
    requires |ws| > 0
    ensures |r| == |ws|
  {
    FieldBounds(ws[0]);
    ws[0 := Low(ws[0], 20)]
  }

  function Syndrome(ws: seq<u32>): nat
    requires |ws| > 0
  {
    Xor(PositionSum(Masked(ws), |ws|), Low(ws[0], 15))
  }

  ghost predicate ValidGroup(ws: seq<u32>)
  {
    |ws| > 0 && Syndrome(ws) == 0 && GroupParity(ws) == 0
  }

  /** The contribution of bit p to the check value. */
  function Column(p: nat): nat
  {
    if p < 15 then Pow2(p) else if p == 15 then 0 else if 20 <= p < 32 then 0 else 0x4000 + p
  }

  predicate IsProtected(p: nat) { p < 20 || 32 <= p }

  // ----- The check value is linear -----

  lemma {:induction false} BitSumFlip(w: nat, base: nat, j: nat, k: nat)
    ensures BitSum(Xor(w, Pow2(j)), base, k) ==
            if j < k then Xor(BitSum(w, base, k), base + j) else BitSum(w, base, k)
    decreases k
  {
    hide Xor, Pow2, TestBit;
    if k > 0 {
      BitSumFlip(w, base, j, k - 1);
      TestBitXor(w, Pow2(j), k - 1);
      TestBitPow2(j, k - 1);
      var b := BitSum(w, base, k - 1);
      if j == k - 1 {
        XorCancel(b, base + j);
      } else {
        XorSwap(b, base + j, base + k - 1);
      }
    }
  }

  lemma XorSwap(a: nat, b: nat, c: nat)
    ensures Xor(Xor(a, b), c) == Xor(Xor(a, c), b)
  {
    XorAssoc(a, b, c);
    XorComm(b, c);
    XorAssoc(a, c, b);
  }

  lemma {:induction false} PositionSumFlip(ws: seq<u32>, p: nat, n: nat)
    requires p < 32 * |ws| && n <= |ws|
    ensures PositionSum(Flip(ws, p), n) ==
            if p / 32 < n then Xor(PositionSum(ws, n), 0x4000 + p) else PositionSum(ws, n)
    decreases n
  {
    hide Xor, BitSum, Pow2;
    if n > 0 {
      PositionSumFlip(ws, p, n - 1);
      var base := 0x4000 + 32 * (n - 1);
      var s, b := PositionSum(ws, n - 1), BitSum(ws[n - 1], base, 32);
      if p / 32 == n - 1 {
        BitSumFlip(ws[n - 1], base, p % 32, 32);
        assert base + p % 32 == 0x4000 + p;
        XorAssoc(s, b, 0x4000 + p);
      } else {
        XorSwap(s, 0x4000 + p, b);
      }
    }
  }

  /** How a flipped bit of word 0 moves its fields. */
  lemma Word0Flip(w: nat, j: nat)
    requires j < 32
    ensures Low(Xor(w, Pow2(j)), 15) == if j < 15 then Xor(Low(w, 15), Pow2(j)) else Low(w, 15)
    ensures Low(Xor(w, Pow2(j)), 20) == if j < 20 then Xor(Low(w, 20), Pow2(j)) else Low(w, 20)
    ensures Data4(Xor(w, Pow2(j))) == if 16 <= j < 20 then Xor(Data4(w), Pow2(j)) else Data4(w)
  {
    hide Xor, Low, Shr, Shl, Pow2;
    XorLow(w, Pow2(j), 15);
    LowPow2(j, 15);
    XorLow(w, Pow2(j), 20);
    LowPow2(j, 20);
    XorZero(Low(w, 15));
    XorZero(Low(w, 20));
    XorZero(Data4(w));
    Data4Flip(w, j);
  }

  lemma Data4Flip(w: nat, j: nat)
    ensures Data4(Xor(w, Pow2(j))) == Xor(Data4(w), if 16 <= j < 20 then Pow2(j) else 0)
  {
    hide Xor, Low, Shr, Shl, Pow2;
    var v := Pow2(j);
    XorShr(w, v, 16);
    XorLow(Shr(w, 16), Shr(v, 16), 4);
    XorShl(Low(Shr(w, 16), 4), Low(Shr(v, 16), 4), 16);
    ShrPow2(j, 16);
    if j >= 16 {
      LowPow2(j - 16, 4);
      if j < 20 { ShlPow2(j - 16, 16); }
    } else {
      LowZero(4);
    }
    LowZero(16);
  }

  lemma SyndromeFlip(ws: seq<u32>, p: nat)
    requires p < 32 * |ws|
    ensures Syndrome(Flip(ws, p)) == Xor(Syndrome(ws), Column(p))
    ensures Column(p) == if p < 15 then Pow2(p) else if p == 15 || 20 <= p < 32 then 0 else 0x4000 + p
  {
    hide Xor, Low, Shr, Shl, Pow2, BitSum, PositionSum;
    var fs, ms := Flip(ws, p), Masked(ws);
    var s, low := PositionSum(ms, |ws|), Low(ws[0], 15);
    if p < 32 {
      Word0Flip(ws[0], p);
      if p < 15 {
        assert Masked(fs) == ms;
        XorAssoc(s, low, Pow2(p));
      } else if 16 <= p < 20 {
        assert Masked(fs) == Flip(ms, p);
        PositionSumFlip(ms, p, |ws|);
        XorSwap(s, 0x4000 + p, low);
      } else {
        assert Masked(fs) == ms;
        XorZero(Syndrome(ws));
      }
    } else {
      assert Masked(fs) == Flip(ms, p);
      PositionSumFlip(ms, p, |ws|);
      XorSwap(s, 0x4000 + p, low);
    }
  }

  // ----- Correction -----

  /** Set bits among the low k. */
  function CountBits(w: nat, k: nat): nat
    decreases k, w
  {
    if k == 0 then 0 else CountBits(w, k - 1) + if TestBit(w, k - 1) then 1 else 0
  }

  lemma {:induction false} CountBitsPow2(j: nat, k: nat)
    ensures CountBits(Pow2(j), k) == if j < k then 1 else 0
    decreases k
  {
    if k > 0 {
      CountBitsPow2(j, k - 1);
      TestBitPow2(j, k - 1);
    }
  }

  /** The group after its word 0 absorbed `^= v`; values of more than 32 bits cannot arise. */
  function XorWord0(ws: seq<u32>, v: u32): (r: seq<u32>)
    requires |ws| > 0
    ensures |r| == |ws|
  {
    ws[0 := Xor32(ws[0], v)]
  }

  /** The verdict on a group with check value s and parity bit par. */
  function Repair(ps: seq<u32>, s: u32, par: nat): (r: Outcome)
    requires |ps| > 0
    ensures |r.words| == |ps|
  {
    if s == 0 then
      if par == 0 then Outcome(0, ps) else Outcome(1, XorWord0(ps, 0x8000))
    else if par == 0 then
      Outcome(3, ps)
    else if 0x4010 <= s < 0x4000 + 32 * |ps| then
      Outcome(1, Flip(ps, s - 0x4000))
    else if CountBits(s, 15) != 1 then
      Outcome(2, ps)
    else
      Outcome(1, XorWord0(ps, s))
  }

  /** What `_patch_hash_multi` returns and leaves in its buffer. */
  function Correct(ws: seq<u32>): (r: Outcome)
    requires 0 < |ws| <= 0x400_0000
    ensures |r.words| == |ws|
  {
    SyndromeBound(ws);
    Repair(Protected(ws), Syndrome(ws), GroupParity(ws))
  }

  lemma {:induction false} BitSumBound(w: nat, base: nat, k: nat)
    requires base + k <= Pow2(32)
    ensures BitSum(w, base, k) < Pow2(32)
    decreases k
  {
    hide Xor, Pow2, TestBit;
    if k > 0 {
      BitSumBound(w, base, k - 1);
      if TestBit(w, k - 1) { XorBound(BitSum(w, base, k - 1), base + k - 1, 32); }
    }
  }

  lemma {:induction false} PositionSumBound(ws: seq<u32>, n: nat)
    requires n <= |ws| && 0x4000 + 32 * n <= Pow2(32)
    ensures PositionSum(ws, n) < Pow2(32)
  {
    hide Xor, BitSum;
    if n > 0 {
      PositionSumBound(ws, n - 1);
      BitSumBound(ws[n - 1], 0x4000 + 32 * (n - 1), 32);
      XorBound(PositionSum(ws, n - 1), BitSum(ws[n - 1], 0x4000 + 32 * (n - 1), 32), 32);
    }
  }

  lemma SyndromeBound(ws: seq<u32>)
    requires 0 < |ws| <= 0x400_0000
    ensures Syndrome(ws) < 0x1_0000_0000
  {
    Pow2Table();
    FieldBounds(ws[0]);
    PositionSumBound(Masked(ws), |ws|);
    XorBound(PositionSum(Masked(ws), |ws|), Low(ws[0], 15), 32);
  }

  lemma {:induction false} BitSumZero(base: nat, k: nat)
    ensures BitSum(0, base, k) == 0
    decreases k
  {
    if k > 0 {
      BitSumZero(base, k - 1);
      TestBitZero(k - 1);
    }
  }

  lemma PositionSumStep(ws: seq<u32>, i: nat, hash: nat)
    requires i < |ws| && hash == Xor(PositionSum(ws, i), BitSum(ws[i], 0x4000 + 32 * i, 32))
    ensures hash == PositionSum(ws, i + 1)
  {
  }

  lemma BitSumStep(w: nat, base: nat, k: nat)
    ensures BitSum(w, base, k + 1) == if TestBit(w, k) then Xor(BitSum(w, base, k), base + k) else BitSum(w, base, k)
    ensures BitSum(w, base, 0) == 0
  {
  }

  /** The inner loop: the positions of the set bits of one word are xored in. */
  method HashWord(w: u32, base: nat, before: nat) returns (hash: nat)
    ensures hash == Xor(before, BitSum(w, base, 32))
  {
    hide Xor, BitSum, TestBit;
    hash := before;
    XorZero(before);
    BitSumStep(w, base, 0);
    if w == 0 {
      BitSumZero(base, 32);
      return;
    }
    for bitpos := 0 to 32
      invariant hash == Xor(before, BitSum(w, base, bitpos))
    {
      BitSumStep(w, base, bitpos);
      if TestBit(w, bitpos) {
        XorAssoc(before, BitSum(w, base, bitpos), base + bitpos);
        hash := Xor(hash, base + bitpos);
      }
    }
  }

  /** The hash loop of `_patch_hash_multi` */
  method HashWords(words: array<u32>, count: nat) returns (hash: nat)
    requires count <= words.Length
    ensures hash == PositionSum(words[..count], count)
  {
    hide Xor, BitSum;
    hash := 0;
    ghost var ws := words[..count];
    for i := 0 to count
      invariant hash == PositionSum(ws, i)
    {
      hash := HashWord(words[i], 0x4000 + i * 32, hash);
      PositionSumStep(ws, i, hash);
    }
  }

  method CountLow15(hash: nat) returns (numSet: nat)
    ensures numSet == CountBits(hash, 15)
  {
    numSet := 0;
    for bitpos := 0 to 15
      invariant numSet == CountBits(hash, bitpos)
    {
      if TestBit(hash, bitpos) { numSet := numSet + 1; }
    }
  }

  /** The correction of lines 321-337 */
  method RepairBit(words: array<u32>, count: nat, hash: u32) returns (status: nat)
    requires 1 <= count <= words.Length && count <= 0x400_0000 && hash != 0
    modifies words
    ensures Outcome(status, words[..count]) == Repair(old(words[..count]), hash, 1)
    ensures words[count..] == old(words[count..])
  {
    hide Xor, TestBit, Low, CountBits;
    ghost var ps := words[..count];
    var bitcount := (hash + 0x1_0000_0000 - 0x4000) % 0x1_0000_0000;
    if bitcount < 16 || bitcount >= count * 32 {
      var numSet := CountLow15(hash);
      if numSet != 1 { return 2; }
      words[0] := Xor32(words[0], hash);
      assert words[..count] == XorWord0(ps, hash);
      return 1;
    }
    words[bitcount / 32] := FlipBit(words[bitcount / 32], hash % 32);
    assert words[..count] == Flip(ps, bitcount);
    return 1;
  }

  /** The tail of `_patch_hash_multi`, lines 310-337 */
  method RepairInPlace(words: array<u32>, count: nat, hash: u32, parityBit: nat) returns (status: nat)
    requires 1 <= count <= words.Length && count <= 0x400_0000 && parityBit < 2
    modifies words
    ensures Outcome(status, words[..count]) == Repair(old(words[..count]), hash, parityBit)
    ensures words[count..] == old(words[count..])
  {
    if hash == 0 {
      if parityBit == 0 { return 0; }
      ghost var ps := words[..count];
      words[0] := Xor32(words[0], 0x8000);
      assert words[..count] == XorWord0(ps, 0x8000);
      return 1;
    }
    if parityBit == 0 { return 3; }
    status := RepairBit(words, count, hash);
  }

  /** `_patch_hash_multi` */
  method PatchHashMulti(words: array<u32>, count: nat) returns (status: nat)
    requires 1 <= count <= words.Length && count <= 0x400_0000
    modifies words
    ensures Outcome(status, words[..count]) == Correct(old(words[..count]))
    ensures words[count..] == old(words[count..])
  {
    hide Xor, Low, Shr, Shl, Parity, BitSum, PositionSum;
    ghost var ws, rest := words[..count], words[count..];
    var parityBit := Parity32Even(words, count);
    FieldBounds(words[0]);
    var bits0to14, bit15, bits16to19 := Low(words[0], 15), ParityField(words[0]), Data4(words[0]);

    words[0] := bits16to19;
    assert words[..count] == Masked(ws);
    var hash := HashWords(words, count);
    hash := Xor(hash, bits0to14);
    SyndromeBound(ws);
    words[0] := Xor(Xor(bits16to19, bit15), bits0to14);
    assert words[..count] == Protected(ws) && words[count..] == rest;
    status := RepairInPlace(words, count, hash, parityBit);
  }

  // ----- Single errors are corrected, double errors are detected -----

  lemma ColumnsDistinct(p: nat, q: nat)
    requires IsProtected(p) && IsProtected(q) && p != q
    ensures Column(p) != Column(q)
  {
    ColumnSmall(p);
    ColumnSmall(q);
    if p < q < 15 { Pow2Mono(p, q); }
    if q < p < 15 { Pow2Mono(q, p); }
  }

  lemma ColumnSmall(p: nat)
    ensures p < 15 ==> 0 < Column(p) <= 0x4000
  {
    Pow2Table();
    if p < 14 { Pow2Mono(p, 14); }
  }

  lemma CleanGroup(ws: seq<u32>)
    requires ValidGroup(ws) && |ws| <= 0x400_0000
    ensures Correct(ws) == Outcome(0, Protected(ws))
  {
  }

  /** Any single flipped protected bit is found and put back. */
  lemma SingleErrorCorrected(ws: seq<u32>, p: nat)
    requires ValidGroup(ws) && |ws| <= 0x400_0000
    requires p < 32 * |ws| && IsProtected(p)
    ensures Correct(Flip(ws, p)) == Outcome(1, Protected(ws))
  {
    hide Xor, Low, Shr, Shl, Pow2, BitSum, PositionSum, CountBits, Syndrome, GroupParity, Protected, FlipBit;
    SyndromeFlip(ws, p);
    GroupParityFlip(ws, p);
    XorZero(Column(p));
    ColumnSmall(p);
    ProtectedFlip(ws, p);
    Pow2Table();
    if p < 15 { CountBitsPow2(p, 15); }
  }

  /** Undoing the flip on what `_patch_hash_multi` keeps of the group. */
  lemma ProtectedFlip(ws: seq<u32>, p: nat)
    requires 0 < |ws| && p < 32 * |ws| && IsProtected(p)
    ensures Flip(Protected(Flip(ws, p)), p) == Protected(ws)
    ensures p < 15 ==> Pow2(p) < 0x1_0000_0000 && XorWord0(Protected(Flip(ws, p)), Pow2(p)) == Protected(ws)
    ensures p == 15 ==> XorWord0(Protected(Flip(ws, p)), 0x8000) == Protected(ws)
  {
    hide Xor, Low, Shr, Shl, Pow2;
    if p < 20 {
      Word0Restored(ws[0], p);
      Pow2Table();
      Pow2Mono(p, 32);
    } else {
      var i, j := p / 32, p % 32;
      XorCancel(ws[i], Pow2(j));
      assert Flip(Protected(Flip(ws, p)), p)[i] == ws[i];
    }
  }

  lemma Word0Restored(w: u32, p: nat)
    requires p < 20
    ensures Xor(Low(FlipBit(w, p), 20), Pow2(p)) == Low(w, 20)
  {
    hide Xor, Low, Shr, Shl, Pow2;
    Word0Flip(w, p);
    XorCancel(Low(w, 20), Pow2(p));
  }

  /** A flip in the next-size field only costs the parity bit. */
  lemma NextFieldError(ws: seq<u32>, p: nat)
    requires ValidGroup(ws) && |ws| <= 0x400_0000 && 20 <= p < 32
    ensures Correct(Flip(ws, p)) == Outcome(1, XorWord0(Protected(ws), 0x8000))
  {
    hide Xor, Low, Shr, Shl, Pow2, BitSum, PositionSum;
    SyndromeFlip(ws, p);
    GroupParityFlip(ws, p);
    XorZero(0);
    Word0Flip(ws[0], p);
  }

  /** Any two flipped protected bits are reported as uncorrectable. */
  lemma DoubleErrorDetected(ws: seq<u32>, p: nat, q: nat)
    requires ValidGroup(ws) && |ws| <= 0x400_0000
    requires p < 32 * |ws| && q < 32 * |ws| && p != q && IsProtected(p) && IsProtected(q)
    ensures Correct(Flip(Flip(ws, p), q)).status == 3
  {
    hide Xor, Low, Shr, Shl, Pow2, BitSum, PositionSum, Syndrome, GroupParity, Protected;
    SyndromeFlip(ws, p);
    SyndromeFlip(Flip(ws, p), q);
    GroupParityFlip(ws, p);
    GroupParityFlip(Flip(ws, p), q);
    XorZero(Column(p));
    ColumnsDistinct(p, q);
    XorIsZero(Column(p), Column(q));
  }

  // ----- What each status says about a group -----

  lemma FlipTwice(ws: seq<u32>, p: nat)
    requires p < 32 * |ws|
    ensures Flip(Flip(ws, p), p) == ws
  {
    hide Xor, Pow2;
    XorCancel(ws[p / 32], Pow2(p % 32));
  }

  lemma {:induction false} NoBitsIsZero(v: nat, k: nat)
    requires v < Pow2(k) && forall j :: 0 <= j < k ==> !TestBit(v, j)
    ensures v == 0
    decreases k
  {
    if k > 0 {
      assert !TestBit(v, 0);
      forall j | 0 <= j < k - 1 ensures !TestBit(v / 2, j) { assert !TestBit(v, j + 1); }
      NoBitsIsZero(v / 2, k - 1);
    }
  }

  lemma {:induction false} CountNone(w: nat, k: nat)
    requires CountBits(w, k) == 0
    ensures forall j :: 0 <= j < k ==> !TestBit(w, j)
    decreases k
  {
    if k > 0 { CountNone(w, k - 1); }
  }

  lemma {:induction false} CountOne(w: nat, k: nat) returns (p: nat)
    requires CountBits(w, k) == 1
    ensures p < k && forall j :: 0 <= j < k ==> (TestBit(w, j) <==> j == p)
    decreases k
  {
    if TestBit(w, k - 1) {
      p := k - 1;
      CountNone(w, k - 1);
    } else {
      p := CountOne(w, k - 1);
    }
  }

  lemma OneBitIsPower(w: nat, k: nat) returns (p: nat)
    requires w < Pow2(k) && CountBits(w, k) == 1
    ensures p < k && w == Pow2(p)
  {
    hide Xor, TestBit, Pow2, CountBits;
    p := CountOne(w, k);
    Pow2Mono(p, k);
    XorBound(w, Pow2(p), k);
    forall j | 0 <= j < k ensures !TestBit(Xor(w, Pow2(p)), j) {
      TestBitXor(w, Pow2(p), j);
      TestBitPow2(p, j);
    }
    NoBitsIsZero(Xor(w, Pow2(p)), k);
    XorIsZero(w, Pow2(p));
  }

  /** One flipped protected bit explains the group. */
  ghost predicate SingleError(ws: seq<u32>)
  {
    exists p :: 0 <= p < 32 * |ws| && IsProtected(p) && ValidGroup(Flip(ws, p))
  }

  /** A check value that the code takes for a single error though it is that of none: a position inside the
      next-size field, or one low bit besides bits from 15 on that name no position of the group. */
  predicate Misread(s: nat, count: nat)
  {
    0x4014 <= s < 0x4020 || (s >= 0x8000 && s >= 0x4000 + 32 * count && CountBits(s, 15) == 1)
  }

  lemma FlipValid(ws: seq<u32>, p: nat)
    requires p < 32 * |ws|
    ensures ValidGroup(Flip(ws, p)) <==> Syndrome(ws) == Column(p) && GroupParity(ws) == 1
  {
    hide Syndrome, GroupParity, Column, Flip;
    SyndromeFlip(ws, p);
    GroupParityFlip(ws, p);
    XorIsZero(Syndrome(ws), Column(p));
  }

  /** The four statuses: no error, an even number of errors, a single error or a check value misread for one,
      and an odd number of errors that is neither. */
  lemma StatusMeaning(ws: seq<u32>)
    requires 0 < |ws| <= 0x400_0000
    ensures Correct(ws).status == 0 <==> ValidGroup(ws)
    ensures Correct(ws).status == 3 <==> Syndrome(ws) != 0 && GroupParity(ws) == 0
    ensures Correct(ws).status == 1 <==> GroupParity(ws) == 1 && (SingleError(ws) || Misread(Syndrome(ws), |ws|))
    ensures Correct(ws).status <= 3
  {
    hide SingleError, Syndrome, GroupParity, Protected, Xor, Pow2, CountBits, FlipBit;
    if GroupParity(ws) == 1 {
      if SingleError(ws) { SingleErrorStatus(ws); }
      if Correct(ws).status == 1 && !Misread(Syndrome(ws), |ws|) { SingleErrorFound(ws); }
    } else {
      NoSingleError(ws);
    }
  }

  lemma NoSingleError(ws: seq<u32>)
    requires |ws| > 0 && GroupParity(ws) != 1
    ensures !SingleError(ws)
  {
    hide Syndrome, GroupParity, Column, Flip, ValidGroup;
    forall p | 0 <= p < 32 * |ws| ensures !ValidGroup(Flip(ws, p)) { FlipValid(ws, p); }
  }

  lemma SingleErrorStatus(ws: seq<u32>)
    requires 0 < |ws| <= 0x400_0000 && SingleError(ws)
    ensures Correct(ws).status == 1
  {
    hide Correct, ValidGroup, Flip;
    var p :| 0 <= p < 32 * |ws| && IsProtected(p) && ValidGroup(Flip(ws, p));
    SingleErrorCorrected(Flip(ws, p), p);
    FlipTwice(ws, p);
  }

  lemma SingleErrorFound(ws: seq<u32>)
    requires 0 < |ws| <= 0x400_0000 && GroupParity(ws) == 1
    requires Correct(ws).status == 1 && !Misread(Syndrome(ws), |ws|)
    ensures SingleError(ws)
  {
    hide Syndrome, GroupParity, Protected, Xor, Pow2, CountBits, FlipBit, ValidGroup, Flip;
    var s := Syndrome(ws);
    Pow2Table();
    var p: nat;
    if s == 0 {
      p := 15;
    } else if 0x4010 <= s < 0x4000 + 32 * |ws| {
      p := s - 0x4000;
    } else {
      p := OneBitIsPower(s, 15);
    }
    FlipValid(ws, p);
    assert IsProtected(p) && ValidGroup(Flip(ws, p));
  }

  // ----- The code of the next-size field, bits 20-31 of word 0 -----

  const HASH_VALS: seq<nat> := [1, 2, 4, 8, 0, 3, 5, 6, 7, 9, 10, 11]

  /** Xor of the hash values of the set bits among the first k of the field. */
  function FieldSum(w: nat, k: nat): nat
    requires k <= 12
    decreases k, w
  {
    if k == 0 then 0
    else if TestBit(w, 19 + k) then Xor(FieldSum(w, k - 1), HASH_VALS[k - 1])
    else FieldSum(w, k - 1)
  }

  function FieldParity(w: nat): nat { Parity(Shr(w, 20)) }

  ghost predicate ValidField(w: u32)
  {
    FieldSum(w, 12) == 0 && FieldParity(w) == 0
  }

  /** The first index from i on that holds h, or 12. */
  function IndexOf(h: nat, i: nat): (k: nat)
    requires i <= 12
    ensures i <= k <= 12
    ensures k < 12 ==> HASH_VALS[k] == h
    ensures forall j :: i <= j < k ==> HASH_VALS[j] != h
    decreases 12 - i, h
  {
    if i == 12 || HASH_VALS[i] == h then i else IndexOf(h, i + 1)
  }

  /** What `_patch_hash_one` returns and leaves in its word. */
  function CorrectField(w: u32): (r: WordOutcome)
  {
    var h := FieldSum(w, 12);
    if h == 0 then
      if FieldParity(w) == 0 then WordOutcome(0, w) else WordOutcome(1, FlipBit(w, 24))
    else if FieldParity(w) == 0 then
      WordOutcome(3, w)
    else
      var k := IndexOf(h, 0);
      if k < 12 then WordOutcome(1, FlipBit(w, 20 + k)) else WordOutcome(2, w)
  }

  /** The parity of the field where it stands, `_parity32_even` of `*word & 0xfff00000`. */
  lemma FieldParityInPlace(w: u32)
    ensures Shl(Shr(w, 20), 20) < 0x1_0000_0000 && Parity(Shl(Shr(w, 20), 20)) == FieldParity(w)
  {
    Rejoin(w, 20);
    ParityShl(Shr(w, 20), 20);
  }

  lemma {:induction false} ParityShl(a: nat, m: nat)
    ensures Parity(Shl(a, m)) == Parity(a)
  {
    if m > 0 { ParityShl(a, m - 1); }
  }

  /** `_patch_hash_one` */
  method PatchHashOne(word: u32) returns (r: WordOutcome)
    ensures r == CorrectField(word)
  {
    FieldParityInPlace(word);
    var parityBit := FoldParity(Shl(Shr(word, 20), 20));
    var hash := 0;
    for i := 0 to 12
      invariant hash == FieldSum(word, i)
    {
      if TestBit(word, 20 + i) { hash := Xor(hash, HASH_VALS[i]); }
    }
    if hash == 0 {
      return if parityBit == 0 then WordOutcome(0, word) else WordOutcome(1, FlipBit(word, 24));
    }
    if parityBit == 0 { return WordOutcome(3, word); }
    for i := 0 to 12
      invariant IndexOf(hash, 0) == IndexOf(hash, i)
    {
      if HASH_VALS[i] == hash { return WordOutcome(1, FlipBit(word, 20 + i)); }
    }
    return WordOutcome(2, word);
  }

  lemma {:induction false} FieldSumFlip(w: nat, j: nat, k: nat)
    requires j < 32 && k <= 12
    ensures FieldSum(Xor(w, Pow2(j)), k) ==
            if 20 <= j < 20 + k then Xor(FieldSum(w, k), HASH_VALS[j - 20]) else FieldSum(w, k)
    decreases k
  {
    hide Xor, Pow2, TestBit;
    if k > 0 {
      FieldSumFlip(w, j, k - 1);
      TestBitXor(w, Pow2(j), 19 + k);
      TestBitPow2(j, 19 + k);
      if j == 19 + k {
        XorCancel(FieldSum(w, k - 1), HASH_VALS[k - 1]);
      } else if 20 <= j {
        XorSwap(FieldSum(w, k - 1), HASH_VALS[j - 20], HASH_VALS[k - 1]);
      }
    }
  }

  lemma FieldParityFlip(w: nat, j: nat)
    ensures FieldParity(Xor(w, Pow2(j))) == if j < 20 then FieldParity(w) else 1 - FieldParity(w)
  {
    hide Xor, Pow2, Shr;
    XorShr(w, Pow2(j), 20);
    ShrPow2(j, 20);
    ParityXor(Shr(w, 20), Shr(Pow2(j), 20));
    if j >= 20 { ParityPow2(j - 20); }
  }

  lemma HashValsDistinct(i: nat, j: nat)
    requires i < 12 && j < 12 && i != j
    ensures HASH_VALS[i] != HASH_VALS[j]
  {
  }

  /** Any single flipped bit of the next-size field is found and put back. */
  lemma FieldErrorCorrected(w: u32, j: nat)
    requires ValidField(w) && 20 <= j < 32
    ensures CorrectField(FlipBit(w, j)) == WordOutcome(1, w)
  {
    hide Xor, Shr, Parity, FieldSum, Pow2;
    FieldSumFlip(w, j, 12);
    FieldParityFlip(w, j);
    var h := HASH_VALS[j - 20];
    XorZero(h);
    XorCancel(w, Pow2(j));
    var k := IndexOf(h, 0);
    if k != j - 20 && k < 12 { HashValsDistinct(k, j - 20); }
    if j != 24 { HashValsDistinct(4, j - 20); }
  }

  /** Bits below the field do not disturb it. */
  lemma FieldUntouched(w: u32, j: nat)
    requires ValidField(w) && j < 20
    ensures CorrectField(FlipBit(w, j)) == WordOutcome(0, FlipBit(w, j))
  {
    hide Xor, Shr, Parity, FieldSum, Pow2;
    FieldSumFlip(w, j, 12);
    FieldParityFlip(w, j);
  }

  /** Any two flipped bits of the next-size field are reported as uncorrectable. */
  lemma FieldDoubleErrorDetected(w: u32, i: nat, j: nat)
    requires ValidField(w) && 20 <= i < 32 && 20 <= j < 32 && i != j
    ensures CorrectField(FlipBit(FlipBit(w, i), j)).status == 3
  {
    hide Xor, Shr, Parity, FieldSum, Pow2;
    FieldSumFlip(w, i, 12);
    FieldParityFlip(w, i);
    var v := FlipBit(w, i);
    FieldSumFlip(v, j, 12);
    FieldParityFlip(v, j);
    XorZero(HASH_VALS[i - 20]);
    HashValsDistinct(i - 20, j - 20);
    XorIsZero(HASH_VALS[i - 20], HASH_VALS[j - 20]);
  }

  /** One flipped bit explains the field. */
  ghost predicate SingleFieldError(w: u32) { exists j :: 20 <= j < 32 && ValidField(FlipBit(w, j)) }

  lemma FieldFlipValid(w: u32, j: nat)
    requires 20 <= j < 32
    ensures ValidField(FlipBit(w, j)) <==> FieldSum(w, 12) == HASH_VALS[j - 20] && FieldParity(w) == 1
  {
    hide Xor, Pow2, FieldSum, FieldParity;
    FieldSumFlip(w, j, 12);
    FieldParityFlip(w, j);
    XorIsZero(FieldSum(w, 12), HASH_VALS[j - 20]);
    ParityOfField(w);
  }

  lemma ParityOfField(w: u32)
    ensures FieldParity(w) < 2
  {
  }

  /** The four statuses of the field. */
  lemma FieldStatusMeaning(w: u32)
    ensures CorrectField(w).status == 0 <==> ValidField(w)
    ensures CorrectField(w).status == 3 <==> FieldSum(w, 12) != 0 && FieldParity(w) == 0
    ensures CorrectField(w).status == 1 <==> SingleFieldError(w)
    ensures CorrectField(w).status <= 3 && (CorrectField(w).status != 1 ==> CorrectField(w).word == w)
    ensures CorrectField(w).status == 1 ==> ValidField(CorrectField(w).word)
  {
    hide FieldSum, FieldParity, FlipBit, ValidField;
    ParityOfField(w);
    forall j | 20 <= j < 32
      ensures ValidField(FlipBit(w, j)) <==> FieldSum(w, 12) == HASH_VALS[j - 20] && FieldParity(w) == 1
    {
      FieldFlipValid(w, j);
    }
    ValidFieldIs(w);
    var k := IndexOf(FieldSum(w, 12), 0);
    if FieldParity(w) == 1 && k < 12 { assert ValidField(FlipBit(w, 20 + k)); }
    if FieldParity(w) == 1 && FieldSum(w, 12) == 0 { assert ValidField(FlipBit(w, 24)); }
  }

  lemma ValidFieldIs(w: u32)
    ensures ValidField(w) <==> FieldSum(w, 12) == 0 && FieldParity(w) == 0
  {
  }
}
