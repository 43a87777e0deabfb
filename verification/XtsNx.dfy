/** The two-pass XTS with a carried or skipped tweak, `se_aes_crypt_xts_sec_nx` (bdk/sec/se.c,
    lines 417-467). It doubles the tweak with the lowest byte first. */
module XtsNx {
  import opened Bits
  import opened Gf128
  import opened Xts

  /** dst is src with block i xored with the i-th tweak. */
  ghost predicate IsMasked(t: Block, src: seq<u8>, dst: seq<u8>)
  {
    |src| == |dst| && |src| % BLOCK_SIZE == 0 &&
    forall i :: 0 <= i < |src| / BLOCK_SIZE ==> BlockAt(dst, i) == XorBytes(BlockAt(src, i), Tweak(true, t, i))
  }

  /** Masking, one engine operation and masking again is XTS block by block. */
  lemma TwoPassesAreXts(c: Cipher, encrypt: bool, ks: nat, t: Block, s: seq<u8>, m1: seq<u8>, m2: seq<u8>, d: seq<u8>)
    requires IsMasked(t, s, m1) && IsEcb(c, encrypt, ks, m1, m2) && IsMasked(t, m2, d)
    ensures IsXts(c, encrypt, ks, true, t, s, d)
  {
    hide XorBytes, Tweak, BlockAt;
    forall i | 0 <= i < |s| / BLOCK_SIZE ensures XtsAt(c, encrypt, ks, true, t, s, d, i) {
      assert BlockAt(m1, i) == XorBytes(BlockAt(s, i), Tweak(true, t, i));
      assert BlockAt(m2, i) == c.Crypt(encrypt, ks, BlockAt(m1, i));
    }
  }

  lemma MaskExtend(t: Block, src: seq<u8>, dst: seq<u8>, b: Block, r: Block)
    requires IsMasked(t, src, dst) && r == XorBytes(b, Tweak(true, t, |src| / BLOCK_SIZE))
    ensures IsMasked(t, src + b, dst + r)
  {
    hide XorBytes, Tweak;
    assert BlockAt(b, 0) == b && BlockAt(r, 0) == r;
    forall i | 0 <= i < |src + b| / BLOCK_SIZE
      ensures BlockAt(dst + r, i) == XorBytes(BlockAt(src + b, i), Tweak(true, t, i))
    {
      BlockOfParts(src, b, i);
      BlockOfParts(dst, r, i);
    }
  }

  lemma MaskEmpty(t: Block)
    ensures IsMasked(t, [], []) && Tweak(true, t, 0) == t
  {
  }

  lemma MaskTurn(t: Block, s: seq<u8>, s1: seq<u8>, d1: seq<u8>, d2: seq<u8>, at: nat, i: nat)
    requires at + BLOCK_SIZE * (i + 1) <= |s| == |s1| && at + BLOCK_SIZE * (i + 1) <= |d1| == |d2|
    requires SameOutside(s, s1, at, BLOCK_SIZE * i) && SameOutside(d1, d2, at + BLOCK_SIZE * i, BLOCK_SIZE)
    requires IsMasked(t, Slice(s, at, BLOCK_SIZE * i), Slice(d1, at, BLOCK_SIZE * i))
    requires var p := at + BLOCK_SIZE * i;
             Slice(d2, p, BLOCK_SIZE) == XorBytes(Slice(s1, p, BLOCK_SIZE), Tweak(true, t, i))
    ensures IsMasked(t, Slice(s, at, BLOCK_SIZE * (i + 1)), Slice(d2, at, BLOCK_SIZE * (i + 1)))
  {
    hide IsMasked, XorBytes, Tweak, SameOutside, Slice;
    var n := BLOCK_SIZE * i;
    OutsideSlices(s, s1, at, n, at + n, BLOCK_SIZE);
    OutsideSlices(d1, d2, at + n, BLOCK_SIZE, at, n);
    SliceJoin(s, at, n, BLOCK_SIZE);
    SliceJoin(d2, at, n, BLOCK_SIZE);
    MaskExtend(t, Slice(s, at, n), Slice(d2, at, n), Slice(s, at + n, BLOCK_SIZE), Slice(d2, at + n, BLOCK_SIZE));
  }

  // ----- Xor by 32-bit words -----

  lemma XorByteStep(w: nat, v: nat)
    ensures Xor(w, v) % 0x100 == Xor(w % 0x100, v % 0x100) && Xor(w, v) / 0x100 == Xor(w / 0x100, v / 0x100)
  {
    hide Xor, Low, Shr, Shl;
    XorLow(w, v, 8);
    XorShr(w, v, 8);
    Byte(w);
    Byte(v);
    Byte(Xor(w, v));
  }

  lemma XorByteThrice(w: nat, v: nat)
    ensures Xor(w, v) % 0x100 == Xor(w % 0x100, v % 0x100)
    ensures Xor(w, v) / 0x100 % 0x100 == Xor(w / 0x100 % 0x100, v / 0x100 % 0x100)
    ensures Xor(w, v) / 0x100 / 0x100 % 0x100 == Xor(w / 0x100 / 0x100 % 0x100, v / 0x100 / 0x100 % 0x100)
    ensures Xor(w, v) / 0x100 / 0x100 / 0x100 == Xor(w / 0x100 / 0x100 / 0x100, v / 0x100 / 0x100 / 0x100)
  {
    hide Xor;
    XorByteStep(w, v);
    XorByteStep(w / 0x100, v / 0x100);
    XorByteStep(w / 0x100 / 0x100, v / 0x100 / 0x100);
  }

  lemma ByteSteps(w: nat)
    ensures w / 0x100 / 0x100 == w / 0x1_0000 && w / 0x1_0000 / 0x100 == w / 0x100_0000
  {
  }

  /** Xoring words is xoring their bytes. */
  lemma XorWordBytes(w: u32, v: u32)
    ensures Xor(w, v) < 0x1_0000_0000
    ensures Xor(w, v) % 0x100 == Xor(w % 0x100, v % 0x100)
    ensures Xor(w, v) / 0x100 % 0x100 == Xor(w / 0x100 % 0x100, v / 0x100 % 0x100)
    ensures Xor(w, v) / 0x1_0000 % 0x100 == Xor(w / 0x1_0000 % 0x100, v / 0x1_0000 % 0x100)
    ensures Xor(w, v) / 0x100_0000 == Xor(w / 0x100_0000, v / 0x100_0000)
  {
    hide Xor;
    Pow2Table();
    XorBound(w, v, 32);
    XorByteThrice(w, v);
    ByteSteps(w);
    ByteSteps(v);
    ByteSteps(Xor(w, v));
  }

  /** `pdst[j] = psrc[j] ^ ptweak[j]` on one word */
  method XorWord(dst: array<u8>, src: array<u8>, p: nat, tweak: array<u8>, q: nat)
    requires p + 4 <= dst.Length && p + 4 <= src.Length && q + 4 <= tweak.Length && tweak != dst
    modifies dst
    ensures dst[p] == Xor8(old(src[p]), tweak[q]) && dst[p + 1] == Xor8(old(src[p + 1]), tweak[q + 1])
    ensures dst[p + 2] == Xor8(old(src[p + 2]), tweak[q + 2]) && dst[p + 3] == Xor8(old(src[p + 3]), tweak[q + 3])
    ensures forall i :: 0 <= i < dst.Length && !(p <= i < p + 4) ==> dst[i] == old(dst[i])
  {
    hide Xor;
    var w, v := Word(src[..], p), Word(tweak[..], q);
    ghost var a0: nat, a1: nat, a2: nat, a3: nat := src[p], src[p + 1], src[p + 2], src[p + 3];
    ghost var b0: nat, b1: nat, b2: nat, b3: nat := tweak[q], tweak[q + 1], tweak[q + 2], tweak[q + 3];
    BytesOf(a0, a1, a2, a3, w);
    BytesOf(b0, b1, b2, b3, v);
    XorWordBytes(w, v);
    StoreWord(dst, p, Xor(w, v));
  }

  /** The inner loops of lines 444-445 and 459-460 on the block at byte p */
  method XorWordsInto(dst: array<u8>, src: array<u8>, p: nat, tweak: array<u8>)
    requires p + BLOCK_SIZE <= dst.Length && p + BLOCK_SIZE <= src.Length && tweak.Length == BLOCK_SIZE && tweak != dst
    modifies dst
    ensures Slice(dst[..], p, BLOCK_SIZE) == XorBytes(Slice(old(src[..]), p, BLOCK_SIZE), tweak[..])
    ensures SameOutside(old(dst[..]), dst[..], p, BLOCK_SIZE)
  {
    hide Xor8;
    ghost var b := Slice(src[..], p, BLOCK_SIZE);
    for j := 0 to 4
      invariant forall k :: 0 <= k < 4 * j ==> dst[p + k] == Xor8(b[k], tweak[k])
      invariant forall k :: 4 * j <= k < BLOCK_SIZE ==> src[p + k] == b[k]
      invariant forall k :: 0 <= k < dst.Length && !(p <= k < p + BLOCK_SIZE) ==> dst[k] == old(dst[k])
    {
      var q := p + 4 * j;
      assert src[q] == b[4 * j] && src[q + 1] == b[4 * j + 1];
      assert src[q + 2] == b[4 * j + 2] && src[q + 3] == b[4 * j + 3];
      XorWord(dst, src, q, tweak, 4 * j);
      forall k | 0 <= k < 4 * j + 4 ensures dst[p + k] == Xor8(b[k], tweak[k]) {
        if k >= 4 * j {
          assert k == 4 * j || k == 4 * j + 1 || k == 4 * j + 2 || k == 4 * j + 3;
        }
      }
    }
    forall k | 0 <= k < BLOCK_SIZE ensures Slice(dst[..], p, BLOCK_SIZE)[k] == Xor8(b[k], tweak[..][k]) {
      assert Slice(dst[..], p, BLOCK_SIZE)[k] == dst[p + k];
    }
  }

  // ----- The passes -----

  /** The loops of lines 442-450 and 457-464: each block is xored with a tweak that doubles. */
  method XorTweaks(dst: array<u8>, src: array<u8>, size: nat, tweak: array<u8>)
    requires size <= dst.Length && size <= src.Length && size % BLOCK_SIZE == 0
    requires tweak.Length == BLOCK_SIZE && tweak != dst && tweak != src
    modifies dst, tweak
    ensures IsMasked(old(tweak[..]), Slice(old(src[..]), 0, size), Slice(dst[..], 0, size))
    ensures SameOutside(old(dst[..]), dst[..], 0, size)
    ensures tweak[..] == Tweak(true, old(tweak[..]), size / BLOCK_SIZE)
  {
    hide MaskedSoFar, IsMasked, Tweak, SameOutside, DoubleLE, XorBytes, Slice;
    ghost var d, s, t := dst[..], src[..], tweak[..];
    MaskStart(t, d, s);
    for i := 0 to size / BLOCK_SIZE
      invariant MaskedSoFar(t, d, s, dst[..], src[..], i, tweak[..])
    {
      ghost var d1, s1, t1 := dst[..], src[..], tweak[..];
      XorWordsInto(dst, src, BLOCK_SIZE * i, tweak);
      ghost var d2, s2 := dst[..], src[..];
      LeftShiftLE(tweak);
      MaskedTurn(t, d, s, d1, s1, d2, s2, size, i, t1, tweak[..]);
    }
    MaskedEnd(t, d, s, dst[..], src[..], size / BLOCK_SIZE, tweak[..]);
  }

  /** What i turns of a pass have made of the buffers d and s: the destination is d1 and the source s1. */
  ghost predicate MaskedSoFar(t: Block, d: seq<u8>, s: seq<u8>, d1: seq<u8>, s1: seq<u8>, i: nat, tweak: seq<u8>)
  {
    BLOCK_SIZE * i <= |d| && BLOCK_SIZE * i <= |s| &&
    SameOutside(d, d1, 0, BLOCK_SIZE * i) && SameOutside(s, s1, 0, BLOCK_SIZE * i) &&
    IsMasked(t, Slice(s, 0, BLOCK_SIZE * i), Slice(d1, 0, BLOCK_SIZE * i)) && tweak == Tweak(true, t, i)
  }

  lemma MaskStart(t: Block, d: seq<u8>, s: seq<u8>)
    ensures MaskedSoFar(t, d, s, d, s, 0, t)
  {
    hide IsMasked, Tweak;
    MaskEmpty(t);
  }

  lemma MaskedTurn(t: Block, d: seq<u8>, s: seq<u8>, d1: seq<u8>, s1: seq<u8>, d2: seq<u8>, s2: seq<u8>,
                   size: nat, i: nat, t1: seq<u8>, t2: seq<u8>)
    requires MaskedSoFar(t, d, s, d1, s1, i, t1) && |t1| == BLOCK_SIZE && BLOCK_SIZE * (i + 1) <= size
    requires size <= |d| == |d1| && size <= |s| == |s1| && (s2 == s1 || (s1 == d1 && s2 == d2))
    requires SameOutside(d1, d2, BLOCK_SIZE * i, BLOCK_SIZE) && t2 == DoubleLE(t1)
    requires Slice(d2, BLOCK_SIZE * i, BLOCK_SIZE) == XorBytes(Slice(s1, BLOCK_SIZE * i, BLOCK_SIZE), t1)
    ensures MaskedSoFar(t, d, s, d2, s2, i + 1, t2)
  {
    hide IsMasked, Tweak, SameOutside, XorBytes, DoubleLE, Slice;
    BlockDone(d, d1, d2, s, s1, s2, 0, i);
    SameLength(d1, d2, BLOCK_SIZE * i, BLOCK_SIZE);
    MaskTurn(t, s, s1, d1, d2, 0, i);
    TweakStep(true, t, i);
  }

  lemma MaskedEnd(t: Block, d: seq<u8>, s: seq<u8>, d1: seq<u8>, s1: seq<u8>, n: nat, tweak: seq<u8>)
    ensures var size := BLOCK_SIZE * n;
            MaskedSoFar(t, d, s, d1, s1, n, tweak) ==>
              size <= |d| == |d1| && size <= |s| && SameOutside(d, d1, 0, size) &&
              IsMasked(t, Slice(s, 0, size), Slice(d1, 0, size)) && tweak == Tweak(true, t, n)
  {
    hide IsMasked, Tweak;
  }

  /** The tweak a call starts from: fresh or carried, and moved on by 32 doublings per skipped sector;
      the number of doublings is computed in 32 bits. */
  function StartTweak(c: Cipher, tweakKs: nat, sec: nat, carried: Block, regen: bool, tweakExp: nat): Block
  {
    Tweak(true, if regen then c.enc(tweakKs, SectorBlock(sec)) else carried, 32 * tweakExp % 0x1_0000_0000)
  }

  /** Lines 423-431 */
  method RegenTweak(e: Engine, tweakKs: nat, sec: nat, tweak: array<u8>) returns (res: nat)
    requires tweak.Length == BLOCK_SIZE
    modifies e, tweak
    ensures e.ops == old(e.ops) + 1 && res == if old(e.ops) in e.faults then 1 else 0
    ensures res == 0 ==> tweak[..] == e.cipher.enc(tweakKs, SectorBlock(sec))
  {
    hide SectorBlock, IsEcb, Slice;
    WriteSector(tweak, sec);
    SliceAll(tweak[..]);
    res := e.CryptEcb(true, tweakKs, tweak, 0, BLOCK_SIZE);
    if res != 0 { return; }
    SliceAll(tweak[..]);
    SingleEcb(e.cipher, true, tweakKs, SectorBlock(sec), tweak[..]);
  }

  /** Lines 435-436 */
  method MoveTweak(tweak: array<u8>, tweakExp: nat)
    requires tweak.Length == BLOCK_SIZE
    modifies tweak
    ensures tweak[..] == Tweak(true, old(tweak[..]), 32 * tweakExp % 0x1_0000_0000)
  {
    hide DoubleLE, Tweak;
    ghost var t := tweak[..];
    MaskEmpty(t);
    for i := 0 to 32 * tweakExp % 0x1_0000_0000
      invariant tweak[..] == Tweak(true, t, i)
    {
      LeftShiftLE(tweak);
      TweakStep(true, t, i);
    }
  }

  /** Lines 423-439: the start tweak, left in `tweak`, and a copy of it */
  method PrepareTweak(e: Engine, tweakKs: nat, sec: nat, tweak: array<u8>, regen: bool, tweakExp: nat)
    returns (res: nat, orig: array<u8>)
    requires tweak.Length == BLOCK_SIZE
    modifies e, tweak
    ensures e.ops == old(e.ops) + if regen then 1 else 0
    ensures res == if regen && old(e.ops) in e.faults then 1 else 0
    ensures res == 0 ==> tweak[..] == StartTweak(e.cipher, tweakKs, sec, old(tweak[..]), regen, tweakExp)
    ensures fresh(orig) && orig.Length == BLOCK_SIZE && (res == 0 ==> orig[..] == tweak[..])
  {
    hide SectorBlock, Tweak;
    orig := new u8[BLOCK_SIZE];
    res := 0;
    if regen {
      res := RegenTweak(e, tweakKs, sec, tweak);
      if res != 0 { return; }
    }
    MoveTweak(tweak, tweakExp);
    forall i | 0 <= i < BLOCK_SIZE { orig[i] := tweak[i]; }
    assert orig[..] == tweak[..];
  }

  /** Lines 442-464: both passes around the one engine operation */
  method TwoPasses(e: Engine, ks: nat, encrypt: bool, tweak: array<u8>, orig: array<u8>, dst: array<u8>,
                   src: array<u8>, size: nat)
    returns (res: nat)
    requires size <= dst.Length && size <= src.Length && size % BLOCK_SIZE == 0
    requires tweak.Length == BLOCK_SIZE && tweak != dst && tweak != src
    requires orig.Length == BLOCK_SIZE && orig != dst && orig != src && orig != tweak && orig[..] == tweak[..]
    modifies e, dst, tweak, orig
    ensures res == 0 ==> IsXts(e.cipher, encrypt, ks, true, old(tweak[..]),
                               Slice(old(src[..]), 0, size), Slice(dst[..], 0, size))
    ensures tweak[..] == Tweak(true, old(tweak[..]), size / BLOCK_SIZE)
    ensures SameOutside(old(dst[..]), dst[..], 0, size)
    ensures e.ops == old(e.ops) + if 0 < size <= SE_LL_MAX_SIZE then 1 else 0
    ensures res == if size == 0 || (size <= SE_LL_MAX_SIZE && old(e.ops) !in e.faults) then 0 else 1
  {
    hide IsXts, IsMasked, IsEcb, SameOutside, Slice, Tweak;
    ghost var t, d0, s0 := tweak[..], dst[..], src[..];
    XorTweaks(dst, src, size, tweak);
    ghost var d1 := dst[..];
    SameLength(d0, d1, 0, size);
    res := e.CryptEcb(encrypt, ks, dst, 0, size);
    ghost var d2 := dst[..];
    OutsideWiden(d0, d1, d2, 0, size, 0, size);
    if res != 0 { return; }
    XorTweaks(dst, dst, size, orig);
    OutsideWiden(d0, d2, dst[..], 0, size, 0, size);
    TwoPassesAreXts(e.cipher, encrypt, ks, t, Slice(s0, 0, size), Slice(d1, 0, size), Slice(d2, 0, size),
                    Slice(dst[..], 0, size));
  }

  /** `se_aes_crypt_xts_sec_nx`: block-by-block XTS from the start tweak, which it carries on. */
  method CryptXtsSecNx(e: Engine, tweakKs: nat, cryptKs: nat, encrypt: bool, sec: nat, tweak: array<u8>, regen: bool,
                       tweakExp: nat, dst: array<u8>, src: array<u8>, size: nat)
    returns (res: nat)
    requires size <= dst.Length && size <= src.Length && size % BLOCK_SIZE == 0
    requires tweak.Length == BLOCK_SIZE && tweak != dst && tweak != src
    modifies e, dst, tweak
    ensures res == 0 ==>
              var t := StartTweak(e.cipher, tweakKs, sec, old(tweak[..]), regen, tweakExp);
              IsXts(e.cipher, encrypt, cryptKs, true, t, Slice(old(src[..]), 0, size), Slice(dst[..], 0, size)) &&
              tweak[..] == Tweak(true, t, size / BLOCK_SIZE)
    ensures SameOutside(old(dst[..]), dst[..], 0, size)
    ensures old(e.ops) <= e.ops
    ensures res == 0 <==> size <= SE_LL_MAX_SIZE && NoFault(e.faults, old(e.ops), e.ops)
  {
    hide IsXts, SameOutside, Slice, StartTweak, Tweak, NoFault;
    ghost var o0 := e.ops;
    SameBuffer(dst[..], 0, size);
    NothingYet(e.faults, o0);
    var orig: array<u8>;
    res, orig := PrepareTweak(e, tweakKs, sec, tweak, regen, tweakExp);
    ghost var o1 := e.ops;
    NoFaultSteps(e.faults, o0, o0, o1);
    if res != 0 { return; }
    res := TwoPasses(e, cryptKs, encrypt, tweak, orig, dst, src, size);
    NoFaultSteps(e.faults, o0, o1, e.ops);
  }

  // ----- Carried and skipped tweaks -----

  lemma SkipIsTweak(c: Cipher, tweakKs: nat, sec: nat, carried: Block, regen: bool, k: nat)
    ensures StartTweak(c, tweakKs, sec, carried, regen, k)
         == Tweak(true, StartTweak(c, tweakKs, sec, carried, regen, 0), 32 * k % 0x1_0000_0000)
  {
    hide Tweak, SectorBlock;
    MaskEmpty(if regen then c.enc(tweakKs, SectorBlock(sec)) else carried);
  }

  /** A call that skips k sectors does what a call on the whole run does behind its first k sectors of 512
      bytes. The doublings are counted in 32 bits, so from k = 2^27 on it is fewer sectors. */
  lemma SkippedSectors(c: Cipher, encrypt: bool, ks: nat, tweakKs: nat, sec: nat, carried: Block, regen: bool, k: nat,
                       src1: seq<u8>, src2: seq<u8>, dst1: seq<u8>, dst2: seq<u8>)
    requires |src1| == |dst1| == BLOCK_SIZE * (32 * k % 0x1_0000_0000)
    ensures k < 0x800_0000 ==> |src1| == 512 * k
    ensures var t := StartTweak(c, tweakKs, sec, carried, regen, 0);
            IsXts(c, encrypt, ks, true, t, src1 + src2, dst1 + dst2) <==>
            IsXts(c, encrypt, ks, true, t, src1, dst1) &&
            IsXts(c, encrypt, ks, true, StartTweak(c, tweakKs, sec, carried, regen, k), src2, dst2)
  {
    hide IsXts, StartTweak, Tweak;
    SkipIsTweak(c, tweakKs, sec, carried, regen, k);
    XtsSplit(c, encrypt, ks, true, StartTweak(c, tweakKs, sec, carried, regen, 0), src1, src2, dst1, dst2);
  }

  /** Without skipped sectors a call starts from the encrypted sector number or from the tweak it is given. */
  lemma FirstTweak(c: Cipher, tweakKs: nat, sec: nat, carried: Block, regen: bool)
    ensures StartTweak(c, tweakKs, sec, carried, regen, 0)
         == if regen then c.enc(tweakKs, SectorBlock(sec)) else carried
  {
    hide SectorBlock;
  }

  /** A second call without a fresh tweak goes on where the first one stopped. */
  lemma CarriedTweak(c: Cipher, encrypt: bool, ks: nat, tweakKs: nat, sec: nat, t: Block,
                     src1: seq<u8>, src2: seq<u8>, dst1: seq<u8>, dst2: seq<u8>)
    requires |src1| == |dst1| && |src1| % BLOCK_SIZE == 0
    ensures var next := StartTweak(c, tweakKs, sec, Tweak(true, t, |src1| / BLOCK_SIZE), false, 0);
            IsXts(c, encrypt, ks, true, t, src1 + src2, dst1 + dst2) <==>
            IsXts(c, encrypt, ks, true, t, src1, dst1) && IsXts(c, encrypt, ks, true, next, src2, dst2)
  {
    hide IsXts, Tweak;
    MaskEmpty(Tweak(true, t, |src1| / BLOCK_SIZE));
    XtsSplit(c, encrypt, ks, true, t, src1, src2, dst1, dst2);
  }

  lemma SameLength(a: seq<u8>, b: seq<u8>, at: nat, size: nat)
    requires at + size <= |a| && SameOutside(a, b, at, size)
    ensures |a| == |b|
  {
  }
}
