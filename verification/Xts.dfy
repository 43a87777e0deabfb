/** XTS on the security engine (bdk/sec/se.c, lines 322-338 and 381-479).

    The procedure is that of sections 5.3 and 5.4 of IEEE Std 1619-2007 over an abstract block cipher.
    Unlike the standard, the code writes the sector number with its highest byte first, and one of its
    two variants doubles the tweak with the highest byte first. */
module Xts {
  import opened Bits
  import opened Gf128

  /** The largest operation, `ALIGN_DOWN(0xFFFFFF, 128)` (bdk/sec/se_t210.h, lines 54-56) */
  const SE_LL_MAX_SIZE := 0xff_ff80

  /** A block cipher and its inverse, by key slot. */
  datatype Cipher = Cipher(enc: (nat, Block) -> Block, dec: (nat, Block) -> Block)
  {
    function Crypt(encrypt: bool, ks: nat, b: Block): Block
    {
      if encrypt then enc(ks, b) else dec(ks, b)
    }

    ghost predicate Inverse(ks: nat)
    {
      forall b: Block :: dec(ks, enc(ks, b)) == b
    }
  }

  // ----- Blocks and tweaks -----

  function Xor8(a: u8, b: u8): u8
  {
    Pow2Table();
    XorBound(a, b, 8);
    Xor(a, b)
  }

  function XorBytes(a: seq<u8>, b: seq<u8>): (r: seq<u8>)
    requires |a| == |b|
    ensures |r| == |a| && forall i :: 0 <= i < |r| ==> r[i] == Xor8(a[i], b[i])
  {
    if a == [] then [] else XorBytes(a[..|a| - 1], b[..|a| - 1]) + [Xor8(a[|a| - 1], b[|a| - 1])]
  }

  lemma XorBytesCancel(a: seq<u8>, b: seq<u8>)
    requires |a| == |b|
    ensures XorBytes(XorBytes(a, b), b) == a
  {
    forall i | 0 <= i < |a| ensures XorBytes(XorBytes(a, b), b)[i] == a[i] { XorCancel(a[i], b[i]); }
  }

  /** The i-th block of a buffer */
  function BlockAt(s: seq<u8>, i: nat): Block
    requires BLOCK_SIZE * i + BLOCK_SIZE <= |s|
  {
    s[BLOCK_SIZE * i..BLOCK_SIZE * i + BLOCK_SIZE]
  }

  function Double(le: bool, t: Block): Block { if le then DoubleLE(t) else DoubleBE(t) }

  /** The tweak of the i-th block, t multiplied by x^i */
  function Tweak(le: bool, t: Block, i: nat): Block
    decreases i, t
  {
    if i == 0 then t else Double(le, Tweak(le, t, i - 1))
  }

  lemma {:induction false} TweakSum(le: bool, t: Block, i: nat, j: nat)
    ensures Tweak(le, Tweak(le, t, i), j) == Tweak(le, t, i + j)
    decreases j
  {
    hide Double;
    if j > 0 { TweakSum(le, t, i, j - 1); }
  }

  /** One block of XTS with tweak t */
  function XtsBlock(c: Cipher, encrypt: bool, ks: nat, t: Block, b: Block): Block
  {
    XorBytes(c.Crypt(encrypt, ks, XorBytes(b, t)), t)
  }

  /** Block i of dst is block i of src under XTS. */
  predicate XtsAt(c: Cipher, encrypt: bool, ks: nat, le: bool, t: Block, src: seq<u8>, dst: seq<u8>, i: nat)
    requires BLOCK_SIZE * i + BLOCK_SIZE <= |src| == |dst|
  {
    BlockAt(dst, i) == XtsBlock(c, encrypt, ks, Tweak(le, t, i), BlockAt(src, i))
  }

  /** dst is src, block by block under XTS from tweak t on. */
  ghost predicate IsXts(c: Cipher, encrypt: bool, ks: nat, le: bool, t: Block, src: seq<u8>, dst: seq<u8>)
  {
    |src| == |dst| && |src| % BLOCK_SIZE == 0 &&
    forall i :: 0 <= i < |src| / BLOCK_SIZE ==> XtsAt(c, encrypt, ks, le, t, src, dst, i)
  }

  // ----- Laws -----

  lemma XtsBlockInverse(c: Cipher, ks: nat, t: Block, b: Block)
    requires c.Inverse(ks)
    ensures XtsBlock(c, false, ks, t, XtsBlock(c, true, ks, t, b)) == b
  {
    var e := c.enc(ks, XorBytes(b, t));
    XorBytesCancel(e, t);
    XorBytesCancel(b, t);
  }

  /** Decryption undoes encryption. */
  lemma XtsRoundTrip(c: Cipher, ks: nat, le: bool, t: Block, plain: seq<u8>, coded: seq<u8>, back: seq<u8>)
    requires c.Inverse(ks) && IsXts(c, true, ks, le, t, plain, coded) && IsXts(c, false, ks, le, t, coded, back)
    ensures back == plain
  {
    hide XtsBlock, Tweak, Cipher.Inverse;
    forall i | 0 <= i < |plain| / BLOCK_SIZE ensures BlockAt(back, i) == BlockAt(plain, i) {
      assert XtsAt(c, true, ks, le, t, plain, coded, i) && XtsAt(c, false, ks, le, t, coded, back, i);
      XtsBlockInverse(c, ks, Tweak(le, t, i), BlockAt(plain, i));
    }
    SameBlocks(back, plain);
  }

  lemma SameBlocks(a: seq<u8>, b: seq<u8>)
    requires |a| == |b| && |a| % BLOCK_SIZE == 0
    requires forall i :: 0 <= i < |a| / BLOCK_SIZE ==> BlockAt(a, i) == BlockAt(b, i)
    ensures a == b
  {
    forall k | 0 <= k < |a| ensures a[k] == b[k] {
      var i, j := k / BLOCK_SIZE, k % BLOCK_SIZE;
      assert k == BLOCK_SIZE * i + j;
      assert BlockAt(a, i)[j] == BlockAt(b, i)[j];
    }
  }

  lemma BlockOfParts(a: seq<u8>, b: seq<u8>, i: nat)
    requires |a| % BLOCK_SIZE == 0 && BLOCK_SIZE * i + BLOCK_SIZE <= |a| + |b|
    ensures if i < |a| / BLOCK_SIZE then BlockAt(a + b, i) == BlockAt(a, i)
            else BlockAt(a + b, i) == BlockAt(b, i - |a| / BLOCK_SIZE)
  {
  }

  lemma XtsAtParts(c: Cipher, encrypt: bool, ks: nat, le: bool, t: Block,
                   src1: seq<u8>, src2: seq<u8>, dst1: seq<u8>, dst2: seq<u8>, i: nat)
    requires |src1| == |dst1| && |src1| % BLOCK_SIZE == 0 && |src2| == |dst2|
    requires BLOCK_SIZE * i + BLOCK_SIZE <= |src1| + |src2|
    ensures var n := |src1| / BLOCK_SIZE;
            XtsAt(c, encrypt, ks, le, t, src1 + src2, dst1 + dst2, i) <==>
            if i < n then XtsAt(c, encrypt, ks, le, t, src1, dst1, i)
            else XtsAt(c, encrypt, ks, le, Tweak(le, t, n), src2, dst2, i - n)
  {
    hide XtsBlock, Tweak;
    var n := |src1| / BLOCK_SIZE;
    BlockOfParts(src1, src2, i);
    BlockOfParts(dst1, dst2, i);
    if i >= n { TweakSum(le, t, n, i - n); }
  }

  /** One call on the whole buffer is two calls on its parts, the second with the tweak carried over. */
  lemma XtsSplit(c: Cipher, encrypt: bool, ks: nat, le: bool, t: Block, src1: seq<u8>, src2: seq<u8>,
                 dst1: seq<u8>, dst2: seq<u8>)
    requires |src1| == |dst1| && |src1| % BLOCK_SIZE == 0
    ensures IsXts(c, encrypt, ks, le, t, src1 + src2, dst1 + dst2) <==>
            IsXts(c, encrypt, ks, le, t, src1, dst1) &&
            IsXts(c, encrypt, ks, le, Tweak(le, t, |src1| / BLOCK_SIZE), src2, dst2)
  {
    hide XtsAt, Tweak;
    var n1, n2, t2 := |src1| / BLOCK_SIZE, |src2| / BLOCK_SIZE, Tweak(le, t, |src1| / BLOCK_SIZE);
    if |src2| == |dst2| && |src2| % BLOCK_SIZE == 0 {
      forall i | 0 <= i < n1 ensures XtsAt(c, encrypt, ks, le, t, src1 + src2, dst1 + dst2, i)
                                == XtsAt(c, encrypt, ks, le, t, src1, dst1, i)
      {
        XtsAtParts(c, encrypt, ks, le, t, src1, src2, dst1, dst2, i);
      }
      forall i | 0 <= i < n2 ensures XtsAt(c, encrypt, ks, le, t, src1 + src2, dst1 + dst2, n1 + i)
                                == XtsAt(c, encrypt, ks, le, t2, src2, dst2, i)
      {
        XtsAtParts(c, encrypt, ks, le, t, src1, src2, dst1, dst2, n1 + i);
      }
      if IsXts(c, encrypt, ks, le, t, src1, dst1) && IsXts(c, encrypt, ks, le, t2, src2, dst2) {
        forall i | 0 <= i < n1 + n2 ensures XtsAt(c, encrypt, ks, le, t, src1 + src2, dst1 + dst2, i) {
          if i >= n1 { assert XtsAt(c, encrypt, ks, le, t2, src2, dst2, i - n1); }
        }
      }
    }
  }

  lemma XtsExtend(c: Cipher, encrypt: bool, ks: nat, le: bool, t: Block, src: seq<u8>, dst: seq<u8>, b: Block, r: Block)
    requires IsXts(c, encrypt, ks, le, t, src, dst)
    requires r == XtsBlock(c, encrypt, ks, Tweak(le, t, |src| / BLOCK_SIZE), b)
    ensures IsXts(c, encrypt, ks, le, t, src + b, dst + r)
  {
    hide XtsBlock;
    var t' := Tweak(le, t, |src| / BLOCK_SIZE);
    assert BlockAt(b, 0) == b && BlockAt(r, 0) == r;
    assert XtsAt(c, encrypt, ks, le, t', b, r, 0);
    XtsSplit(c, encrypt, ks, le, t, src, b, dst, r);
  }

  /** The standard's form: under its tweak, a coded block is the cipher of the plain block under the tweak. */
  lemma XtsStandard(c: Cipher, encrypt: bool, ks: nat, le: bool, t: Block, src: seq<u8>, dst: seq<u8>, i: nat)
    requires IsXts(c, encrypt, ks, le, t, src, dst) && i < |src| / BLOCK_SIZE
    ensures var u := Tweak(le, t, i);
            XorBytes(BlockAt(dst, i), u) == c.Crypt(encrypt, ks, XorBytes(BlockAt(src, i), u))
  {
    hide Tweak, XorBytes, BlockAt;
    assert XtsAt(c, encrypt, ks, le, t, src, dst, i);
    var u := Tweak(le, t, i);
    XorBytesCancel(c.Crypt(encrypt, ks, XorBytes(BlockAt(src, i), u)), u);
  }

  /** The first block has the sector's tweak, and each next one x times the tweak before. */
  lemma TweaksByX(le: bool, t: Block, i: nat)
    ensures Tweak(le, t, 0) == t
    ensures var u, v := Tweak(le, t, i), Tweak(le, t, i + 1); if le then TimesXLE(u, v) else TimesXBE(u, v)
  {
    hide TimesXLE, TimesXBE, DoubleLE, DoubleBE;
    TweakStep(le, t, i);
    if le { DoubleLEIsTimesX(Tweak(le, t, i)); } else { DoubleBEIsTimesX(Tweak(le, t, i)); }
  }

  // ----- Sector tweaks -----

  /** The n-byte number v, highest byte first */
  function BigEndian(v: nat, n: nat): (s: seq<u8>)
    ensures |s| == n
  {
    if n == 0 then [] else BigEndian(v / 0x100, n - 1) + [v % 0x100]
  }

  /** The value of bytes, highest first */
  function ValueOf(s: seq<u8>): nat
  {
    if s == [] then 0 else 0x100 * ValueOf(s[..|s| - 1]) + s[|s| - 1]
  }

  function Pow256(n: nat): nat { if n == 0 then 1 else 0x100 * Pow256(n - 1) }

  lemma {:induction false} BigEndianValue(v: nat, n: nat)
    requires v < Pow256(n)
    ensures ValueOf(BigEndian(v, n)) == v
  {
    if n > 0 {
      BigEndianValue(v / 0x100, n - 1);
      assert BigEndian(v, n)[..n - 1] == BigEndian(v / 0x100, n - 1);
    }
  }

  function SectorBlock(sec: nat): Block { BigEndian(sec, BLOCK_SIZE) }

  lemma {:induction false} BigEndianSuffix(v: nat, w: nat, n: nat, k: nat)
    requires k <= n && w == Dropped(v, k)
    ensures BigEndian(v, n) == BigEndian(w, n - k) + BigEndian(v, n)[n - k..]
    ensures k < n ==> BigEndian(v, n)[n - k - 1] == w % 0x100
    decreases k
  {
    if k > 0 {
      BigEndianSuffix(v / 0x100, w, n - 1, k - 1);
      var a, b := BigEndian(v, n), BigEndian(v / 0x100, n - 1);
      assert a == b + [v % 0x100];
      assert a[n - k..] == b[n - k..] + [v % 0x100];
    }
  }

  /** `v >> 8 * k` */
  function Dropped(v: nat, k: nat): nat
    decreases k, v
  {
    if k == 0 then v else Dropped(v / 0x100, k - 1)
  }

  lemma {:induction false} DroppedStep(v: nat, k: nat)
    ensures Dropped(v, k + 1) == Dropped(v, k) / 0x100
    decreases k
  {
    if k > 0 { DroppedStep(v / 0x100, k - 1); }
  }

  /** The block of a 64-bit sector number is that number, highest byte first: byte 15 - j has weight 256^j. */
  lemma SectorBlockValue(sec: nat)
    requires sec < 0x1_0000_0000_0000_0000
    ensures ValueOf(SectorBlock(sec)) == sec
    ensures forall b: Block :: ValueOf(b) == sec ==> b == SectorBlock(sec)
  {
    hide ValueOf, BigEndian;
    assert Pow256(8) == 0x1_0000_0000_0000_0000;
    Pow256Grows(8, 16);
    BigEndianValue(sec, BLOCK_SIZE);
    forall b: Block | ValueOf(b) == sec ensures b == SectorBlock(sec) { ValueDetermines(b, SectorBlock(sec)); }
  }

  lemma {:induction false} Pow256Grows(m: nat, n: nat)
    requires m <= n
    ensures Pow256(m) <= Pow256(n)
    decreases n
  {
    if m < n { Pow256Grows(m, n - 1); }
  }

  /** Bytes are determined by their value and number. */
  lemma {:induction false} ValueDetermines(a: seq<u8>, b: seq<u8>)
    requires |a| == |b| && ValueOf(a) == ValueOf(b)
    ensures a == b
    decreases a
  {
    if a != [] {
      var n := |a| - 1;
      ValueDetermines(a[..n], b[..n]);
      assert a == a[..n] + [a[n]] && b == b[..n] + [b[n]];
    }
  }

  /** Lines 389-393 and 425-429 */
  method WriteSector(tweak: array<u8>, sector: nat)
    requires tweak.Length == BLOCK_SIZE
    modifies tweak
    ensures tweak[..] == SectorBlock(sector)
    ensures sector < 0x1_0000_0000_0000_0000 ==> ValueOf(tweak[..]) == sector
  {
    var sec := sector;
    for i := BLOCK_SIZE downto 0
      invariant sec == Dropped(sector, BLOCK_SIZE - i)
      invariant tweak[i..] == SectorBlock(sector)[i..]
    {
      BigEndianSuffix(sector, sec, BLOCK_SIZE, BLOCK_SIZE - i - 1);
      DroppedStep(sector, BLOCK_SIZE - i - 1);
      tweak[i] := sec % 0x100;
      sec := sec / 0x100;
      assert tweak[i..] == [tweak[i]] + tweak[i + 1..];
      assert SectorBlock(sector)[i..] == [SectorBlock(sector)[i]] + SectorBlock(sector)[i + 1..];
    }
    if sector < 0x1_0000_0000_0000_0000 { SectorBlockValue(sector); }
  }

  // ----- Stretches of a buffer -----

  function Slice(s: seq<u8>, at: nat, size: nat): (r: seq<u8>)
    requires at + size <= |s|
    ensures |r| == size
  {
    s[at..at + size]
  }

  /** The buffers differ at most in the stretch. */
  ghost predicate SameOutside(a: seq<u8>, b: seq<u8>, at: nat, size: nat)
    requires at + size <= |a|
  {
    |a| == |b| && a[..at] == b[..at] && a[at + size..] == b[at + size..]
  }

  lemma OutsideSlices(a: seq<u8>, b: seq<u8>, at: nat, size: nat, p: nat, n: nat)
    requires at + size <= |a| && SameOutside(a, b, at, size) && p + n <= |a|
    requires p + n <= at || at + size <= p
    ensures Slice(a, p, n) == Slice(b, p, n)
  {
    if p + n <= at {
      SliceOfPrefix(a, at, p, n);
      SliceOfPrefix(b, at, p, n);
    } else {
      SliceOfSuffix(a, at + size, p, n);
      SliceOfSuffix(b, at + size, p, n);
    }
  }

  lemma SliceOfPrefix(s: seq<u8>, at: nat, p: nat, n: nat)
    requires p + n <= at <= |s|
    ensures s[p..p + n] == s[..at][p..p + n]
  {
  }

  lemma SliceOfSuffix(s: seq<u8>, at: nat, p: nat, n: nat)
    requires at <= p && p + n <= |s|
    ensures s[p..p + n] == s[at..][p - at..p - at + n]
  {
  }

  /** A change inside a part of the stretch is a change inside the stretch, and changes add up. */
  lemma OutsideWiden(a: seq<u8>, b: seq<u8>, c: seq<u8>, at: nat, size: nat, p: nat, n: nat)
    requires at <= p && p + n <= at + size <= |a|
    requires SameOutside(a, b, at, size) && SameOutside(b, c, p, n)
    ensures SameOutside(a, c, at, size)
  {
    assert b[..at] == b[..p][..at] && c[..at] == c[..p][..at];
    var k := at + size - p - n;
    assert b[at + size..] == b[p + n..][k..] && c[at + size..] == c[p + n..][k..];
  }

  lemma SliceJoin(s: seq<u8>, at: nat, n: nat, m: nat)
    requires at + n + m <= |s|
    ensures Slice(s, at, n + m) == Slice(s, at, n) + Slice(s, at + n, m)
  {
  }

  lemma SliceAll(s: seq<u8>)
    ensures Slice(s, 0, |s|) == s
  {
  }

  // ----- Xor loops -----

  /** `for j: pdst[j] = psrc[j] ^ tweak[j]` on the block at byte p */
  method XorBlockInto(dst: array<u8>, src: array<u8>, p: nat, tweak: array<u8>)
    requires p + BLOCK_SIZE <= dst.Length && p + BLOCK_SIZE <= src.Length && tweak.Length == BLOCK_SIZE
    requires tweak != dst
    modifies dst
    ensures Slice(dst[..], p, BLOCK_SIZE) == XorBytes(Slice(old(src[..]), p, BLOCK_SIZE), tweak[..])
    ensures SameOutside(old(dst[..]), dst[..], p, BLOCK_SIZE)
  {
    hide Xor8;
    ghost var b := Slice(src[..], p, BLOCK_SIZE);
    for j := 0 to BLOCK_SIZE
      invariant forall k :: 0 <= k < j ==> dst[p + k] == Xor8(b[k], tweak[k])
      invariant forall k :: j <= k < BLOCK_SIZE ==> src[p + k] == b[k]
      invariant forall k :: 0 <= k < dst.Length && !(p <= k < p + BLOCK_SIZE) ==> dst[k] == old(dst[k])
    {
      dst[p + j] := Xor8(src[p + j], tweak[j]);
    }
    forall k | 0 <= k < BLOCK_SIZE ensures Slice(dst[..], p, BLOCK_SIZE)[k] == Xor8(b[k], tweak[..][k]) {
      assert Slice(dst[..], p, BLOCK_SIZE)[k] == dst[p + k];
    }
  }

  // ----- The engine -----

  /** None of the operations from number a up to b fails. */
  ghost predicate NoFault(faults: set<nat>, a: nat, b: nat)
  {
    forall k :: a <= k < b ==> k !in faults
  }

  lemma NothingYet(faults: set<nat>, a: nat)
    ensures NoFault(faults, a, a)
  {
  }

  /** How the predicate moves on over a last operation, or over a stretch of them. */
  lemma NoFaultSteps(faults: set<nat>, a: nat, b: nat, c: nat)
    requires a <= b <= c && NoFault(faults, a, b)
    ensures NoFault(faults, a, c) <==> NoFault(faults, b, c)
    ensures c == b + 1 ==> (NoFault(faults, b, c) <==> b !in faults)
    ensures c == b ==> NoFault(faults, b, c)
  {
    assert c == b + 1 ==> b <= b < c;
  }

  /** The security engine: a cipher, and the numbers of the operations that fail. */
  class Engine {
    const cipher: Cipher
    const faults: set<nat>
    var ops: nat

    constructor (c: Cipher, f: set<nat>)
      ensures cipher == c && faults == f && ops == 0
    {
      cipher, faults, ops := c, f, 0;
    }

    /** `_se_execute` with its size limit */
    method Start(size: nat) returns (res: nat)
      modifies this
      ensures ops == old(ops) + if size <= SE_LL_MAX_SIZE then 1 else 0
      ensures res == if size <= SE_LL_MAX_SIZE && old(ops) !in faults then 0 else 1
    {
      if size > SE_LL_MAX_SIZE { return 1; }
      res := if ops in faults then 1 else 0;
      ops := ops + 1;
    }

    /** `se_aes_crypt_ecb` in place on whole blocks; an empty buffer starts no operation. */
    method CryptEcb(encrypt: bool, ks: nat, buf: array<u8>, at: nat, size: nat) returns (res: nat)
      requires at + size <= buf.Length && size % BLOCK_SIZE == 0
      modifies this, buf
      ensures ops == old(ops) + if 0 < size <= SE_LL_MAX_SIZE then 1 else 0
      ensures res == if size == 0 || (size <= SE_LL_MAX_SIZE && old(ops) !in faults) then 0 else 1
      ensures res == 0 ==> IsEcb(cipher, encrypt, ks, Slice(old(buf[..]), at, size), Slice(buf[..], at, size))
      ensures SameOutside(old(buf[..]), buf[..], at, size)
    {
      if size == 0 { return 0; }
      res := Start(size);
      if res == 0 { EcbBlocks(encrypt, ks, buf, at, size); }
    }

    /** What an operation that does not fail does to the buffer. */
    method EcbBlocks(encrypt: bool, ks: nat, buf: array<u8>, at: nat, size: nat)
      requires at + size <= buf.Length && size % BLOCK_SIZE == 0
      modifies buf
      ensures IsEcb(cipher, encrypt, ks, Slice(old(buf[..]), at, size), Slice(buf[..], at, size))
      ensures SameOutside(old(buf[..]), buf[..], at, size)
    {
      hide IsEcb, SameOutside;
      ghost var s := buf[..];
      EcbEmpty(cipher, encrypt, ks);
      SameBuffer(s, at, size);
      for i := 0 to size / BLOCK_SIZE
        invariant IsEcb(cipher, encrypt, ks, Slice(s, at, BLOCK_SIZE * i), Slice(buf[..], at, BLOCK_SIZE * i))
        invariant SameOutside(s, buf[..], at, BLOCK_SIZE * i)
      {
        ghost var b := buf[..];
        var p := at + BLOCK_SIZE * i;
        var r := cipher.Crypt(encrypt, ks, buf[p..p + BLOCK_SIZE]);
        PutBlock(buf, p, r);
        EcbTurn(cipher, encrypt, ks, s, b, buf[..], at, i);
      }
      SameOutsideAt(s, buf[..], at, size, BLOCK_SIZE * (size / BLOCK_SIZE));
    }

    method PutBlock(buf: array<u8>, p: nat, r: Block)
      requires p + BLOCK_SIZE <= buf.Length
      modifies buf
      ensures Slice(buf[..], p, BLOCK_SIZE) == r && SameOutside(old(buf[..]), buf[..], p, BLOCK_SIZE)
    {
      forall j | 0 <= j < BLOCK_SIZE { buf[p + j] := r[j]; }
    }

    /** The block of a turn, before the tweak moves on */
    method CryptXtsBlock(ks: nat, encrypt: bool, dst: array<u8>, src: array<u8>, p: nat, tweak: array<u8>)
      returns (res: nat)
      requires p + BLOCK_SIZE <= dst.Length && p + BLOCK_SIZE <= src.Length
      requires tweak.Length == BLOCK_SIZE && tweak != dst
      modifies this, dst
      ensures ops == old(ops) + 1 && res == if old(ops) in faults then 1 else 0
      ensures res == 0 ==>
                Slice(dst[..], p, BLOCK_SIZE)
                  == XtsBlock(cipher, encrypt, ks, tweak[..], Slice(old(src[..]), p, BLOCK_SIZE))
      ensures SameOutside(old(dst[..]), dst[..], p, BLOCK_SIZE)
    {
      hide XorBytes, SameOutside, IsEcb;
      ghost var d0 := dst[..];
      XorBlockInto(dst, src, p, tweak);
      ghost var d1 := dst[..];
      res := CryptEcb(encrypt, ks, dst, p, BLOCK_SIZE);
      ghost var d2 := dst[..];
      OutsideWiden(d0, d1, d2, p, BLOCK_SIZE, p, BLOCK_SIZE);
      if res != 0 { return; }
      SingleEcb(cipher, encrypt, ks, Slice(d1, p, BLOCK_SIZE), Slice(d2, p, BLOCK_SIZE));
      XorBlockInto(dst, dst, p, tweak);
      OutsideWiden(d0, d2, dst[..], p, BLOCK_SIZE, p, BLOCK_SIZE);
    }

    /** One turn of the loop of `se_aes_crypt_xts_sec` */
    method XtsTurnAt(ks: nat, encrypt: bool, dst: array<u8>, src: array<u8>, p: nat, tweak: array<u8>)
      returns (res: nat)
      requires p + BLOCK_SIZE <= dst.Length && p + BLOCK_SIZE <= src.Length && tweak.Length == BLOCK_SIZE
      requires tweak != dst && tweak != src
      modifies this, dst, tweak
      ensures ops == old(ops) + 1 && res == if old(ops) in faults then 1 else 0
      ensures res == 0 ==>
                Slice(dst[..], p, BLOCK_SIZE)
                  == XtsBlock(cipher, encrypt, ks, old(tweak[..]), Slice(old(src[..]), p, BLOCK_SIZE)) &&
                tweak[..] == DoubleBE(old(tweak[..]))
      ensures SameOutside(old(dst[..]), dst[..], p, BLOCK_SIZE)
      ensures src[..] == if src == dst then dst[..] else old(src[..])
    {
      hide XtsBlock, SameOutside, DoubleBE, Slice;
      res := CryptXtsBlock(ks, encrypt, dst, src, p, tweak);
      if res == 0 { LeftShiftBE(tweak); }
    }

    /** The loop of `se_aes_crypt_xts_sec` */
    method XtsBlocks(ks: nat, encrypt: bool, dst: array<u8>, src: array<u8>, at: nat, size: nat, tweak: array<u8>)
      returns (res: nat)
      requires at + size <= dst.Length && at + size <= src.Length && size % BLOCK_SIZE == 0
      requires tweak.Length == BLOCK_SIZE && tweak != dst && tweak != src
      modifies this, dst, tweak
      ensures res == 0 ==> IsXts(cipher, encrypt, ks, false, old(tweak[..]),
                                 Slice(old(src[..]), at, size), Slice(dst[..], at, size))
      ensures SameOutside(old(dst[..]), dst[..], at, size)
      ensures old(ops) <= ops && (res == 0 <==> NoFault(faults, old(ops), ops))
    {
      hide XtsSoFar, IsXts, XtsBlock, SameOutside, DoubleBE, NoFault, Slice;
      ghost var d, s, t, ops0 := dst[..], src[..], tweak[..], ops;
      NothingYet(faults, ops);
      SoFarStart(cipher, encrypt, ks, t, d, s, at);
      for i := 0 to size / BLOCK_SIZE
        invariant XtsSoFar(cipher, encrypt, ks, t, d, s, dst[..], src[..], at, i, tweak[..])
        invariant ops0 <= ops && NoFault(faults, ops0, ops)
      {
        ghost var d1, s1, t1, ops1 := dst[..], src[..], tweak[..], ops;
        var ok := XtsTurnAt(ks, encrypt, dst, src, at + BLOCK_SIZE * i, tweak);
        NoFaultSteps(faults, ops0, ops1, ops);
        SoFarTurn(cipher, encrypt, ks, t, d, s, d1, s1, dst[..], src[..], at, size, i, t1, ok == 0, tweak[..]);
        if ok != 0 { return ok; }
      }
      SoFarEnd(cipher, encrypt, ks, t, d, s, dst[..], src[..], at, size / BLOCK_SIZE, tweak[..]);
      return 0;
    }

    /** `se_aes_crypt_xts_sec`. The buffers may be the same or apart. */
    method CryptXtsSec(tweakKs: nat, cryptKs: nat, encrypt: bool, sec: nat, dst: array<u8>, src: array<u8>,
                       at: nat, size: nat)
      returns (res: nat)
      requires at + size <= dst.Length && at + size <= src.Length && size % BLOCK_SIZE == 0
      modifies this, dst
      ensures res == 0 ==> IsXts(cipher, encrypt, cryptKs, false, cipher.enc(tweakKs, SectorBlock(sec)),
                                 Slice(old(src[..]), at, size), Slice(dst[..], at, size))
      ensures SameOutside(old(dst[..]), dst[..], at, size)
      ensures old(ops) <= ops && (res == 0 <==> NoFault(faults, old(ops), ops))
    {
      hide IsXts, IsEcb, SectorBlock, Slice;
      var tweak := new u8[BLOCK_SIZE];
      WriteSector(tweak, sec);
      SliceAll(tweak[..]);
      res := CryptEcb(true, tweakKs, tweak, 0, BLOCK_SIZE);
      if res != 0 { return; }
      SliceAll(tweak[..]);
      SingleEcb(cipher, true, tweakKs, SectorBlock(sec), tweak[..]);
      res := XtsBlocks(cryptKs, encrypt, dst, src, at, size, tweak);
    }

    /** `se_aes_crypt_xts` */
    method CryptXts(tweakKs: nat, cryptKs: nat, encrypt: bool, sec: nat, dst: array<u8>, src: array<u8>,
                    size: nat, count: nat)
      returns (res: nat)
      requires size * count <= dst.Length && size * count <= src.Length && size % BLOCK_SIZE == 0
      modifies this, dst
      ensures res == 0 ==> IsXtsSectors(cipher, encrypt, tweakKs, cryptKs, sec, size, count,
                                        Slice(old(src[..]), 0, size * count), Slice(dst[..], 0, size * count))
      ensures SameOutside(old(dst[..]), dst[..], 0, size * count)
      ensures old(ops) <= ops && (res == 0 <==> NoFault(faults, old(ops), ops))
    {
      hide IsXts, IsXtsSectors, SameOutside, SectorBlock, NoFault;
      ghost var d, s, ops0 := dst[..], src[..], ops;
      NothingYet(faults, ops);
      NoSectors(cipher, encrypt, tweakKs, cryptKs, sec, size);
      SameBuffer(d, 0, size * count);
      SameBuffer(s, 0, size * count);
      var at := 0;
      for i := 0 to count
        invariant at == size * i && at <= size * count
        invariant IsXtsSectors(cipher, encrypt, tweakKs, cryptKs, sec, size, i, Slice(s, 0, at), Slice(dst[..], 0, at))
        invariant SameOutside(d, dst[..], 0, at) && SameOutside(s, src[..], 0, at)
        invariant ops0 <= ops && NoFault(faults, ops0, ops)
      {
        SectorFits(size, i, count);
        ghost var d1, s1, ops1 := dst[..], src[..], ops;
        var ok := CryptXtsSec(tweakKs, cryptKs, encrypt, (sec + i) % 0x1_0000_0000_0000_0000, dst, src, at, size);
        NoFaultSteps(faults, ops0, ops1, ops);
        OutsideExtends(d, d1, dst[..], at, size);
        if ok != 0 {
          SameOutsideAt(d, dst[..], 0, size * count, at + size);
          return ok;
        }
        if src == dst { OutsideExtends(s, s1, src[..], at, size); } else { OutsideLonger(s, s1, at, size); }
        SectorDone(cipher, encrypt, tweakKs, cryptKs, sec, size, i, at, s, s1, d1, dst[..]);
        at := at + size;
      }
      return 0;
    }
  }

  /** What i turns of the loop have made of the buffers d and s: the destination is d1 and the source s1. */
  ghost predicate XtsSoFar(c: Cipher, encrypt: bool, ks: nat, t: Block, d: seq<u8>, s: seq<u8>, d1: seq<u8>,
                           s1: seq<u8>, at: nat, i: nat, tweak: seq<u8>)
  {
    at + BLOCK_SIZE * i <= |d| && at + BLOCK_SIZE * i <= |s| &&
    SameOutside(d, d1, at, BLOCK_SIZE * i) && SameOutside(s, s1, at, BLOCK_SIZE * i) &&
    IsXts(c, encrypt, ks, false, t, Slice(s, at, BLOCK_SIZE * i), Slice(d1, at, BLOCK_SIZE * i)) &&
    tweak == Tweak(false, t, i)
  }

  lemma SoFarStart(c: Cipher, encrypt: bool, ks: nat, t: Block, d: seq<u8>, s: seq<u8>, at: nat)
    requires at <= |d| && at <= |s|
    ensures XtsSoFar(c, encrypt, ks, t, d, s, d, s, at, 0, t)
  {
    hide IsXts, Tweak;
    XtsEmpty(c, encrypt, ks, t);
  }

  lemma SoFarTurn(c: Cipher, encrypt: bool, ks: nat, t: Block, d: seq<u8>, s: seq<u8>, d1: seq<u8>, s1: seq<u8>,
                  d2: seq<u8>, s2: seq<u8>, at: nat, size: nat, i: nat, t1: seq<u8>, ok: bool, t2: seq<u8>)
    requires XtsSoFar(c, encrypt, ks, t, d, s, d1, s1, at, i, t1) && |t1| == BLOCK_SIZE && BLOCK_SIZE * (i + 1) <= size
    requires at + size <= |d| == |d1| && at + size <= |s| == |s1|
    requires SameOutside(d1, d2, at + BLOCK_SIZE * i, BLOCK_SIZE) && (s2 == s1 || (s1 == d1 && s2 == d2))
    requires ok ==> t2 == DoubleBE(t1)
    requires var p := at + BLOCK_SIZE * i;
             ok ==> Slice(d2, p, BLOCK_SIZE) == XtsBlock(c, encrypt, ks, t1, Slice(s1, p, BLOCK_SIZE))
    ensures SameOutside(d, d2, at, size) && (ok ==> XtsSoFar(c, encrypt, ks, t, d, s, d2, s2, at, i + 1, t2))
  {
    hide IsXts, Tweak, SameOutside, XtsBlock, DoubleBE, Slice;
    BlockDone(d, d1, d2, s, s1, s2, at, i);
    SameOutsideAt(d, d2, at, size, BLOCK_SIZE * (i + 1));
    TweakStep(false, t, i);
    if ok { XtsTurn(c, encrypt, ks, t, s, s1, d1, d2, at, i); }
  }

  lemma SoFarEnd(c: Cipher, encrypt: bool, ks: nat, t: Block, d: seq<u8>, s: seq<u8>, d1: seq<u8>, s1: seq<u8>,
                 at: nat, n: nat, tweak: seq<u8>)
    ensures var size := BLOCK_SIZE * n;
            XtsSoFar(c, encrypt, ks, t, d, s, d1, s1, at, n, tweak) ==>
              at + size <= |d| == |d1| && at + size <= |s| && SameOutside(d, d1, at, size) &&
              IsXts(c, encrypt, ks, false, t, Slice(s, at, size), Slice(d1, at, size))
  {
    hide IsXts, Tweak;
  }

  lemma SameBuffer(s: seq<u8>, at: nat, size: nat)
    requires at + size <= |s|
    ensures SameOutside(s, s, at, 0) && SameOutside(s, s, at, size)
  {
  }

  /** A larger stretch holds the changes too. */
  lemma SameOutsideAt(a: seq<u8>, b: seq<u8>, at: nat, size: nat, done: nat)
    requires done <= size && at + size <= |a| && SameOutside(a, b, at, done)
    ensures SameOutside(a, b, at, size)
  {
    var k := size - done;
    assert a[at + size..] == a[at + done..][k..] && b[at + size..] == b[at + done..][k..];
  }

  lemma OutsideExtends(a: seq<u8>, b: seq<u8>, c: seq<u8>, at: nat, size: nat)
    requires at + size <= |a| && SameOutside(a, b, 0, at) && SameOutside(b, c, at, size)
    ensures SameOutside(a, c, 0, at + size)
  {
    SameOutsideAt(a, b, 0, at + size, at);
    OutsideWiden(a, b, c, 0, at + size, at, size);
  }

  lemma OutsideLonger(a: seq<u8>, b: seq<u8>, at: nat, size: nat)
    requires at + size <= |a| && SameOutside(a, b, 0, at)
    ensures SameOutside(a, b, 0, at + size)
  {
    SameOutsideAt(a, b, 0, at + size, at);
  }

  /** After block i of a stretch the changes lie in its first i + 1 blocks. */
  lemma OutsideGrows(a: seq<u8>, b: seq<u8>, c: seq<u8>, at: nat, i: nat)
    requires at + BLOCK_SIZE * (i + 1) <= |a|
    requires SameOutside(a, b, at, BLOCK_SIZE * i) && SameOutside(b, c, at + BLOCK_SIZE * i, BLOCK_SIZE)
    ensures SameOutside(a, c, at, BLOCK_SIZE * (i + 1))
  {
    SameOutsideAt(a, b, at, BLOCK_SIZE * (i + 1), BLOCK_SIZE * i);
    OutsideWiden(a, b, c, at, BLOCK_SIZE * (i + 1), at + BLOCK_SIZE * i, BLOCK_SIZE);
  }

  /** After block i, whether or not the source is the destination */
  lemma BlockDone(d: seq<u8>, d1: seq<u8>, d2: seq<u8>, s: seq<u8>, s1: seq<u8>, s2: seq<u8>, at: nat, i: nat)
    requires at + BLOCK_SIZE * (i + 1) <= |d| && at + BLOCK_SIZE * (i + 1) <= |s|
    requires SameOutside(d, d1, at, BLOCK_SIZE * i) && SameOutside(d1, d2, at + BLOCK_SIZE * i, BLOCK_SIZE)
    requires SameOutside(s, s1, at, BLOCK_SIZE * i) && (s2 == s1 || (s1 == d1 && s2 == d2))
    ensures SameOutside(d, d2, at, BLOCK_SIZE * (i + 1)) && SameOutside(s, s2, at, BLOCK_SIZE * (i + 1))
  {
    hide SameOutside;
    OutsideGrows(d, d1, d2, at, i);
    if s2 == s1 { OutsideKept(s, s1, at, i); } else { OutsideGrows(s, s1, s2, at, i); }
  }

  lemma OutsideKept(a: seq<u8>, b: seq<u8>, at: nat, i: nat)
    requires at + BLOCK_SIZE * (i + 1) <= |a| && SameOutside(a, b, at, BLOCK_SIZE * i)
    ensures SameOutside(a, b, at, BLOCK_SIZE * (i + 1))
  {
    SameOutsideAt(a, b, at, BLOCK_SIZE * (i + 1), BLOCK_SIZE * i);
  }

  /** Block i done on top of the blocks before. The source was s at first and is s1 before the turn; the
      destination is d1 before the turn and d2 after it. */
  lemma XtsTurn(c: Cipher, encrypt: bool, ks: nat, t: Block, s: seq<u8>, s1: seq<u8>, d1: seq<u8>, d2: seq<u8>,
                at: nat, i: nat)
    requires at + BLOCK_SIZE * (i + 1) <= |s| == |s1| && at + BLOCK_SIZE * (i + 1) <= |d1| == |d2|
    requires SameOutside(s, s1, at, BLOCK_SIZE * i) && SameOutside(d1, d2, at + BLOCK_SIZE * i, BLOCK_SIZE)
    requires IsXts(c, encrypt, ks, false, t, Slice(s, at, BLOCK_SIZE * i), Slice(d1, at, BLOCK_SIZE * i))
    requires Slice(d2, at + BLOCK_SIZE * i, BLOCK_SIZE)
          == XtsBlock(c, encrypt, ks, Tweak(false, t, i), Slice(s1, at + BLOCK_SIZE * i, BLOCK_SIZE))
    ensures IsXts(c, encrypt, ks, false, t, Slice(s, at, BLOCK_SIZE * (i + 1)), Slice(d2, at, BLOCK_SIZE * (i + 1)))
  {
    hide IsXts, XtsBlock, Tweak, SameOutside, Slice;
    var n := BLOCK_SIZE * i;
    OutsideSlices(s, s1, at, n, at + n, BLOCK_SIZE);
    OutsideSlices(d1, d2, at + n, BLOCK_SIZE, at, n);
    SliceJoin(s, at, n, BLOCK_SIZE);
    SliceJoin(d2, at, n, BLOCK_SIZE);
    XtsExtend(c, encrypt, ks, false, t, Slice(s, at, n), Slice(d2, at, n),
              Slice(s, at + n, BLOCK_SIZE), Slice(d2, at + n, BLOCK_SIZE));
  }

  lemma EcbTurn(c: Cipher, encrypt: bool, ks: nat, s: seq<u8>, d1: seq<u8>, d2: seq<u8>, at: nat, i: nat)
    requires at + BLOCK_SIZE * (i + 1) <= |s| == |d1| == |d2|
    requires SameOutside(s, d1, at, BLOCK_SIZE * i) && SameOutside(d1, d2, at + BLOCK_SIZE * i, BLOCK_SIZE)
    requires IsEcb(c, encrypt, ks, Slice(s, at, BLOCK_SIZE * i), Slice(d1, at, BLOCK_SIZE * i))
    requires var p := at + BLOCK_SIZE * i;
             Slice(d2, p, BLOCK_SIZE) == c.Crypt(encrypt, ks, Slice(d1, p, BLOCK_SIZE))
    ensures IsEcb(c, encrypt, ks, Slice(s, at, BLOCK_SIZE * (i + 1)), Slice(d2, at, BLOCK_SIZE * (i + 1)))
    ensures SameOutside(s, d2, at, BLOCK_SIZE * (i + 1))
  {
    hide IsEcb, Cipher.Crypt, SameOutside, Slice;
    var n := BLOCK_SIZE * i;
    OutsideSlices(s, d1, at, n, at + n, BLOCK_SIZE);
    OutsideSlices(d1, d2, at + n, BLOCK_SIZE, at, n);
    SliceJoin(s, at, n, BLOCK_SIZE);
    SliceJoin(d2, at, n, BLOCK_SIZE);
    OutsideGrows(s, d1, d2, at, i);
    EcbExtend(c, encrypt, ks, Slice(s, at, n), Slice(d2, at, n),
              Slice(s, at + n, BLOCK_SIZE), Slice(d2, at + n, BLOCK_SIZE));
  }

  lemma EcbEmpty(c: Cipher, encrypt: bool, ks: nat)
    ensures IsEcb(c, encrypt, ks, [], [])
  {
  }

  lemma NoSectors(c: Cipher, encrypt: bool, tweakKs: nat, cryptKs: nat, sec: nat, size: nat)
    ensures IsXtsSectors(c, encrypt, tweakKs, cryptKs, sec, size, 0, [], [])
  {
  }

  /** Sector by sector, sector number by sector number. */
  ghost predicate IsXtsSectors(c: Cipher, encrypt: bool, tweakKs: nat, cryptKs: nat, sec: nat, size: nat, count: nat,
                               src: seq<u8>, dst: seq<u8>)
    decreases count
  {
    |src| == |dst| &&
    if count == 0 then src == []
    else
      var n := |src| - size;
      n >= 0 && IsXtsSectors(c, encrypt, tweakKs, cryptKs, sec, size, count - 1, src[..n], dst[..n]) &&
      IsXts(c, encrypt, cryptKs, false, c.enc(tweakKs, SectorBlock((sec + count - 1) % 0x1_0000_0000_0000_0000)),
            src[n..], dst[n..])
  }

  lemma LastSector(c: Cipher, encrypt: bool, tweakKs: nat, cryptKs: nat, sec: nat, size: nat, count: nat,
                   src: seq<u8>, dst: seq<u8>)
    requires IsXtsSectors(c, encrypt, tweakKs, cryptKs, sec, size, count, src, dst)
    ensures |src| == |dst| && if count == 0 then src == [] else
              var n := |src| - size;
              var t := c.enc(tweakKs, SectorBlock((sec + count - 1) % 0x1_0000_0000_0000_0000));
              n >= 0 && IsXtsSectors(c, encrypt, tweakKs, cryptKs, sec, size, count - 1, src[..n], dst[..n]) &&
              IsXts(c, encrypt, cryptKs, false, t, src[n..], dst[n..])
  {
    hide IsXts, SectorBlock;
  }

  lemma RunGrows(size: nat, count: nat, n: nat)
    requires count > 0 && n == size * (count - 1)
    ensures n + size == size * count
  {
    Distribute(size, count - 1, 1);
  }

  lemma {:induction false} RunLength(c: Cipher, encrypt: bool, tweakKs: nat, cryptKs: nat, sec: nat, size: nat,
                                     count: nat, src: seq<u8>, dst: seq<u8>)
    requires IsXtsSectors(c, encrypt, tweakKs, cryptKs, sec, size, count, src, dst)
    ensures |src| == |dst| == size * count
    decreases count
  {
    hide IsXts, SectorBlock, IsXtsSectors;
    LastSector(c, encrypt, tweakKs, cryptKs, sec, size, count, src, dst);
    if count > 0 {
      var n := |src| - size;
      RunLength(c, encrypt, tweakKs, cryptKs, sec, size, count - 1, src[..n], dst[..n]);
      RunGrows(size, count, n);
    }
  }

  /** Sector j of a run is XTS from the tweak of sector number sec + j. */
  lemma {:induction false} SectorOfRun(c: Cipher, encrypt: bool, tweakKs: nat, cryptKs: nat, sec: nat, size: nat,
                                       count: nat, src: seq<u8>, dst: seq<u8>, j: nat)
    requires IsXtsSectors(c, encrypt, tweakKs, cryptKs, sec, size, count, src, dst) && j < count
    ensures |src| == |dst| == size * count && size * j + size <= size * count
    ensures IsXts(c, encrypt, cryptKs, false, c.enc(tweakKs, SectorBlock((sec + j) % 0x1_0000_0000_0000_0000)),
                  Slice(src, size * j, size), Slice(dst, size * j, size))
    decreases count
  {
    hide IsXts, SectorBlock, IsXtsSectors, Slice;
    SectorFits(size, j, count);
    RunLength(c, encrypt, tweakKs, cryptKs, sec, size, count, src, dst);
    LastSector(c, encrypt, tweakKs, cryptKs, sec, size, count, src, dst);
    var n := |src| - size;
    RunGrows(size, count, size * (count - 1));
    if j == count - 1 {
      SliceTail(src, n, size);
      SliceTail(dst, n, size);
    } else {
      SectorFits(size, j, count - 1);
      SectorOfRun(c, encrypt, tweakKs, cryptKs, sec, size, count - 1, src[..n], dst[..n], j);
      SliceWithin(src, n, size * j, size);
      SliceWithin(dst, n, size * j, size);
    }
  }

  lemma SliceTail(s: seq<u8>, n: nat, size: nat)
    requires n + size == |s|
    ensures Slice(s, n, size) == s[n..]
  {
  }

  lemma SliceWithin(s: seq<u8>, n: nat, at: nat, size: nat)
    requires at + size <= n <= |s|
    ensures Slice(s[..n], at, size) == Slice(s, at, size)
  {
  }

  /** Decryption undoes encryption for any sector number, sector size and sector count. */
  lemma {:induction false} XtsSectorsRoundTrip(c: Cipher, tweakKs: nat, cryptKs: nat, sec: nat, size: nat, count: nat,
                                               plain: seq<u8>, coded: seq<u8>, back: seq<u8>)
    requires c.Inverse(cryptKs)
    requires IsXtsSectors(c, true, tweakKs, cryptKs, sec, size, count, plain, coded)
    requires IsXtsSectors(c, false, tweakKs, cryptKs, sec, size, count, coded, back)
    ensures back == plain
    decreases count
  {
    hide IsXts, Cipher.Inverse;
    if count > 0 {
      var n := |plain| - size;
      var t := c.enc(tweakKs, SectorBlock((sec + count - 1) % 0x1_0000_0000_0000_0000));
      XtsSectorsRoundTrip(c, tweakKs, cryptKs, sec, size, count - 1, plain[..n], coded[..n], back[..n]);
      XtsRoundTrip(c, cryptKs, false, t, plain[n..], coded[n..], back[n..]);
      assert back == back[..n] + back[n..] && plain == plain[..n] + plain[n..];
    }
  }

  lemma SectorFits(size: nat, i: nat, count: nat)
    requires i < count
    ensures size * i + size == size * (i + 1) <= size * count
  {
    Distribute(size, i, 1);
    Distribute(size, i + 1, count - i - 1);
  }

  lemma Distribute(a: nat, b: nat, c: nat)
    ensures a * (b + c) == a * b + a * c && a * c >= 0
  {
  }

  lemma SectorDone(c: Cipher, encrypt: bool, tweakKs: nat, cryptKs: nat, sec: nat, size: nat, i: nat, at: nat,
                   s: seq<u8>, s1: seq<u8>, d1: seq<u8>, d2: seq<u8>)
    requires at + size <= |s| == |s1| && at + size <= |d1| == |d2|
    requires SameOutside(s, s1, 0, at) && SameOutside(d1, d2, at, size)
    requires IsXtsSectors(c, encrypt, tweakKs, cryptKs, sec, size, i, Slice(s, 0, at), Slice(d1, 0, at))
    requires IsXts(c, encrypt, cryptKs, false, c.enc(tweakKs, SectorBlock((sec + i) % 0x1_0000_0000_0000_0000)),
                   Slice(s1, at, size), Slice(d2, at, size))
    ensures IsXtsSectors(c, encrypt, tweakKs, cryptKs, sec, size, i + 1,
                         Slice(s, 0, at + size), Slice(d2, 0, at + size))
  {
    hide IsXts, SameOutside, Slice, SectorBlock;
    OutsideSlices(s, s1, 0, at, at, size);
    OutsideSlices(d1, d2, at, size, 0, at);
    SliceJoin(s, 0, at, size);
    SliceJoin(d2, 0, at, size);
    var a, b := Slice(s, 0, at + size), Slice(d2, 0, at + size);
    assert a[..at] == Slice(s, 0, at) && a[at..] == Slice(s, at, size);
    assert b[..at] == Slice(d2, 0, at) && b[at..] == Slice(d2, at, size);
  }

  lemma TweakStep(le: bool, t: Block, i: nat)
    ensures Tweak(le, t, i + 1) == Double(le, Tweak(le, t, i))
  {
  }

  lemma XtsEmpty(c: Cipher, encrypt: bool, ks: nat, t: Block)
    ensures IsXts(c, encrypt, ks, false, t, [], []) && Tweak(false, t, 0) == t
  {
  }

  lemma SingleEcb(c: Cipher, encrypt: bool, ks: nat, b: Block, r: seq<u8>)
    requires IsEcb(c, encrypt, ks, b, r)
    ensures r == c.Crypt(encrypt, ks, b)
  {
    assert BlockAt(b, 0) == b && BlockAt(r, 0) == r;
  }

  ghost predicate IsEcb(c: Cipher, encrypt: bool, ks: nat, src: seq<u8>, dst: seq<u8>)
  {
    |src| == |dst| && |src| % BLOCK_SIZE == 0 &&
    forall i :: 0 <= i < |src| / BLOCK_SIZE ==> BlockAt(dst, i) == c.Crypt(encrypt, ks, BlockAt(src, i))
  }

  lemma EcbExtend(c: Cipher, encrypt: bool, ks: nat, src: seq<u8>, dst: seq<u8>, b: Block, r: Block)
    requires IsEcb(c, encrypt, ks, src, dst) && r == c.Crypt(encrypt, ks, b)
    ensures IsEcb(c, encrypt, ks, src + b, dst + r)
  {
    assert BlockAt(b, 0) == b && BlockAt(r, 0) == r;
    forall i | 0 <= i < |src + b| / BLOCK_SIZE
      ensures BlockAt(dst + r, i) == c.Crypt(encrypt, ks, BlockAt(src + b, i))
    {
      BlockOfParts(src, b, i);
      BlockOfParts(dst, r, i);
    }
  }
}
