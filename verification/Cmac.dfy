/** CMAC, `se_aes_hash_cmac` (bdk/sec/se.c, lines 674-731), against sections 2.3 and 2.4 of RFC 4493.

    The engine keeps an original and an updated initialization vector; an operation chains from one of
    them and leaves the end of the chain in the updated one. */
module Cmac {
  import opened Bits
  import opened Gf128
  import opened Xts

  const ZERO: Block := [0, 0, 0, 0, 0, 0, 0, 0, 0, 0, 0, 0, 0, 0, 0, 0]

  // ----- RFC 4493 -----

  /** Section 2.3 */
  function K1(c: Cipher, ks: nat): Block { DoubleBE(c.enc(ks, ZERO)) }

  function K2(c: Cipher, ks: nat): Block { DoubleBE(K1(c, ks)) }

  /** `padding(x)` of section 2.4: a one bit, and zero bits up to the block size */
  function Padding(x: seq<u8>): (r: Block)
    requires |x| < BLOCK_SIZE
    ensures forall i :: 0 <= i < BLOCK_SIZE ==> r[i] == if i < |x| then x[i] else if i == |x| then 0x80 else 0
  {
    x + [0x80] + ZERO[|x| + 1..]
  }

  /** X after n turns of step 6 of section 2.4 from the value x */
  function Chain(c: Cipher, ks: nat, x: Block, m: seq<u8>, n: nat): Block
    requires BLOCK_SIZE * n <= |m|
    decreases n, x
  {
    if n == 0 then x else c.enc(ks, XorBytes(Chain(c, ks, x, m, n - 1), BlockAt(m, n - 1)))
  }

  /** M_last of step 4 */
  function LastBlock(c: Cipher, ks: nat, m: seq<u8>): Block
  {
    var n := if m == [] then 1 else (|m| + 15) / 16;
    if m != [] && |m| % 16 == 0 then XorBytes(BlockAt(m, n - 1), K1(c, ks))
    else XorBytes(Padding(m[BLOCK_SIZE * (n - 1)..]), K2(c, ks))
  }

  /** AES-CMAC of section 2.4 */
  function RfcCmac(c: Cipher, ks: nat, m: seq<u8>): Block
  {
    var n := if m == [] then 1 else (|m| + 15) / 16;
    c.enc(ks, XorBytes(LastBlock(c, ks, m), Chain(c, ks, ZERO, m, n - 1)))
  }

  /** K1 and K2 are x and x^2 times the zero block under the key. */
  lemma SubkeysByX(c: Cipher, ks: nat)
    ensures TimesXBE(c.enc(ks, ZERO), K1(c, ks)) && TimesXBE(K1(c, ks), K2(c, ks))
  {
    hide TimesXBE, DoubleBE;
    DoubleBEIsTimesX(c.enc(ks, ZERO));
    DoubleBEIsTimesX(K1(c, ks));
  }

  /** Step 4 of section 2.4: a whole last block with K1, a partial or missing one padded with K2 */
  lemma LastBlockIs(c: Cipher, ks: nat, whole: seq<u8>, b: seq<u8>)
    requires |whole| % 16 == 0 && |b| <= 16 && (whole != [] ==> b != [])
    ensures LastBlock(c, ks, whole + b) ==
              if |b| == 16 then XorBytes(b, K1(c, ks)) else XorBytes(Padding(b), K2(c, ks))
  {
    hide XorBytes, K1, K2, Padding, LastBlock;
    if b == [] {
      LastBlockNone(c, ks);
      assert whole + b == [];
    } else {
      BlocksBefore(|whole|, |b|);
      LastBlockAt(c, ks, whole + b, |whole|);
      TailIs(whole, b);
    }
  }

  lemma LastBlockNone(c: Cipher, ks: nat)
    ensures LastBlock(c, ks, []) == XorBytes(Padding([]), K2(c, ks))
  {
    hide XorBytes, K2, Padding;
  }

  lemma LastBlockAt(c: Cipher, ks: nat, m: seq<u8>, w: nat)
    requires m != [] && BLOCK_SIZE * ((|m| + 15) / 16 - 1) == w && w < |m| <= w + 16
    ensures if |m| == w + 16 then LastBlock(c, ks, m) == XorBytes(m[w..w + 16], K1(c, ks))
            else LastBlock(c, ks, m) == XorBytes(Padding(m[w..]), K2(c, ks))
  {
    hide XorBytes, K1, K2, Padding;
    assert |m| % 16 == 0 <==> |m| == w + 16;
  }

  lemma TailIs(whole: seq<u8>, b: seq<u8>)
    ensures (whole + b)[|whole|..] == b && (whole + b)[|whole|..|whole| + |b|] == b
  {
  }

  lemma BlocksBefore(w: nat, b: nat)
    requires w % 16 == 0 && 0 < b <= 16
    ensures BLOCK_SIZE * ((w + b + 15) / 16 - 1) == w && ((w + b) % 16 == 0 <==> b == 16)
  {
  }

  // ----- Facts about the chain -----

  lemma XorBytesComm(a: seq<u8>, b: seq<u8>)
    requires |a| == |b|
    ensures XorBytes(a, b) == XorBytes(b, a)
  {
    forall i | 0 <= i < |a| ensures XorBytes(a, b)[i] == XorBytes(b, a)[i] { XorComm(a[i], b[i]); }
  }

  lemma XorBytesZero(a: Block)
    ensures XorBytes(ZERO, a) == a && XorBytes(a, ZERO) == a
  {
    XorBytesComm(a, ZERO);
    forall i | 0 <= i < |a| ensures XorBytes(a, ZERO)[i] == a[i] { XorZero(a[i]); }
  }

  /** The chain over a message looks at its first n blocks only. */
  lemma {:induction false} ChainPrefix(c: Cipher, ks: nat, x: Block, m: seq<u8>, p: seq<u8>, n: nat)
    requires BLOCK_SIZE * n <= |m| && |m| <= |p| && p[..|m|] == m
    ensures Chain(c, ks, x, m, n) == Chain(c, ks, x, p, n)
    decreases n
  {
    hide XorBytes;
    if n > 0 {
      ChainPrefix(c, ks, x, m, p, n - 1);
      assert BlockAt(m, n - 1) == BlockAt(p, n - 1);
    }
  }

  lemma ChainNone(c: Cipher, ks: nat, x: Block, m: seq<u8>)
    ensures Chain(c, ks, x, m, 0) == x
  {
  }

  lemma ChainStep(c: Cipher, ks: nat, x: Block, m: seq<u8>, n: nat)
    requires BLOCK_SIZE * (n + 1) <= |m|
    ensures Chain(c, ks, x, m, n + 1) == c.enc(ks, XorBytes(Chain(c, ks, x, m, n), BlockAt(m, n)))
  {
  }

  lemma ChainOne(c: Cipher, ks: nat, x: Block, b: Block)
    ensures Chain(c, ks, x, b, 1) == c.enc(ks, XorBytes(x, b))
  {
    ChainStep(c, ks, x, b, 0);
    ChainNone(c, ks, x, b);
    assert BlockAt(b, 0) == b;
  }

  /** Chaining on from where a chain stopped. */
  lemma ChainContinues(c: Cipher, ks: nat, m: seq<u8>, n: nat, last: Block)
    requires BLOCK_SIZE * n <= |m|
    ensures Chain(c, ks, Chain(c, ks, ZERO, m, n), last, 1) == c.enc(ks, XorBytes(last, Chain(c, ks, ZERO, m, n)))
  {
    hide Chain, XorBytes;
    ChainOne(c, ks, Chain(c, ks, ZERO, m, n), last);
    XorBytesComm(Chain(c, ks, ZERO, m, n), last);
  }

  // ----- The engine -----

  /** What the security engine holds for one key slot */
  class HashEngine {
    const cipher: Cipher
    const ks: nat
    const faults: set<nat>
    var ops: nat
    var original: Block
    var updated: Block
    /** SE_CRYPTO_IV_SEL */
    var fromUpdated: bool
    /** SE_CRYPTO_LAST_BLOCK_REG */
    var lastBlock: nat
    /** SE_HASH_RESULT_REG, and the memory output of one block */
    var result: Block

    constructor (c: Cipher, slot: nat, f: set<nat>, left: Block, fromLeft: bool)
      ensures cipher == c && ks == slot && faults == f && ops == 0
      ensures original == updated == left && fromUpdated == fromLeft
    {
      cipher, ks, faults, ops := c, slot, f, 0;
      original, updated, fromUpdated, lastBlock, result := left, left, fromLeft, 0, left;
    }

    /** `se_aes_iv_clear`: the slot's packets cover both vectors. */
    method ClearIv()
      modifies this`original, this`updated
      ensures original == updated == ZERO
    {
      original, updated := ZERO, ZERO;
    }

    /** The vector the next operation chains from */
    function Start(): Block
      reads this
    {
      if fromUpdated then updated else original
    }

    /** What an operation over n blocks computes. */
    method RunChain(src: array<u8>, n: nat) returns (x: Block)
      requires BLOCK_SIZE * n <= src.Length
      ensures x == Chain(cipher, ks, Start(), src[..], n)
    {
      hide Chain, XorBytes;
      x := if fromUpdated then updated else original;
      ChainNone(cipher, ks, x, src[..]);
      for i := 0 to n
        invariant x == Chain(cipher, ks, Start(), src[..], i)
      {
        ChainStep(cipher, ks, Start(), src[..], i);
        x := cipher.enc(ks, XorBytes(x, BlockAt(src[..], i)));
      }
    }

    /** One operation over the blocks that the last block register announces, all inside the source. */
    method Execute(src: array<u8>, size: nat) returns (res: nat)
      requires size <= src.Length && (size <= SE_LL_MAX_SIZE ==> BLOCK_SIZE * (lastBlock + 1) <= size)
      modifies this`ops, this`updated, this`result
      ensures ops == old(ops) + if size <= SE_LL_MAX_SIZE then 1 else 0
      ensures res == if size <= SE_LL_MAX_SIZE && old(ops) !in faults then 0 else 1
      ensures res == 0 ==> updated == result == Chain(cipher, ks, old(Start()), src[..], lastBlock + 1)
    {
      hide Chain;
      if size > SE_LL_MAX_SIZE { return 1; }
      res := if ops in faults then 1 else 0;
      if res == 0 {
        result := RunChain(src, lastBlock + 1);
        updated := result;
      }
      ops := ops + 1;
    }

    /** Lines 682-684: the zero block under the key, by one block of CBC from a cleared vector */
    method EncryptZero() returns (res: nat, subkey: array<u8>)
      modifies this
      ensures fresh(subkey) && subkey.Length == BLOCK_SIZE
      ensures ops == old(ops) + 1 && res == if old(ops) in faults then 1 else 0
      ensures original == ZERO && !fromUpdated
      ensures res == 0 ==> subkey[..] == cipher.enc(ks, ZERO)
    {
      hide Chain, XorBytes;
      subkey := new u8[BLOCK_SIZE](i => 0);
      assert subkey[..] == ZERO;
      ClearIv();
      fromUpdated, lastBlock := false, 0;
      res := Execute(subkey, BLOCK_SIZE);
      if res != 0 { return; }
      ChainOne(cipher, ks, ZERO, ZERO);
      XorBytesZero(ZERO);
      forall i | 0 <= i < BLOCK_SIZE { subkey[i] := result[i]; }
      assert subkey[..] == result;
    }

    /** Lines 682-690: the subkey for a message of that many bytes */
    method Subkey(size: nat) returns (res: nat, subkey: array<u8>)
      modifies this
      ensures fresh(subkey) && subkey.Length == BLOCK_SIZE
      ensures ops == old(ops) + 1 && res == if old(ops) in faults then 1 else 0
      ensures original == ZERO && !fromUpdated
      ensures res == 0 ==> subkey[..] == KeyFor(cipher, ks, size)
    {
      hide DoubleBE;
      res, subkey := EncryptZero();
      if res != 0 { return; }
      LeftShiftBE(subkey);
      if size % 16 != 0 { LeftShiftBE(subkey); }
    }

    /** Lines 695-706: all blocks but the last; the next operation goes on from the end of their chain. */
    method InitialBlocks(src: array<u8>, size: u32) returns (res: nat)
      requires size <= src.Length && original == ZERO && !fromUpdated
      modifies this
      ensures ops == old(ops) + if 16 < size <= SE_LL_MAX_SIZE then 1 else 0
      ensures res == if size <= 16 || Wraps(size) || (size <= SE_LL_MAX_SIZE && old(ops) !in faults) then 0 else 1
      ensures res == 0 && 0 < size && !Wraps(size) ==>
                Start() == Chain(cipher, ks, ZERO, src[..size], (size + 15) / 16 - 1)
      ensures size == 0 || Wraps(size) ==> Start() == ZERO
    {
      hide Chain;
      ChainNone(cipher, ks, ZERO, src[..size]);
      var numBlocks := (size + 0xf) % 0x1_0000_0000 / 16;
      BlocksFit(size, numBlocks);
      res := 0;
      if numBlocks > 1 {
        lastBlock := numBlocks - 2;
        res := Execute(src, size);
        if res != 0 { return; }
        ChainPrefix(cipher, ks, ZERO, src[..size], src[..], numBlocks - 1);
        fromUpdated := true;
      }
    }

    /** Lines 708-723: the last block with the subkey xored in */
    method FinalBlock(src: array<u8>, size: nat, subkey: array<u8>) returns (res: nat)
      requires size <= src.Length && subkey.Length == BLOCK_SIZE
      modifies this
      ensures ops == old(ops) + 1 && res == if old(ops) in faults then 1 else 0
      ensures res == 0 ==>
                result == Chain(cipher, ks, old(Start()), XorBytes(Filled(src[..size]), subkey[..]), 1)
    {
      hide Chain, XorBytes, SameOutside;
      var last := FillLast(src, size);
      SliceAll(last[..]);
      XorBlockInto(last, last, 0, subkey);
      SliceAll(last[..]);
      lastBlock := 0;
      res := Execute(last, BLOCK_SIZE);
    }

    /** `se_aes_hash_cmac`. For every non-empty message whose block count does not wrap around the hash is that
        of RFC 4493. Where it wraps, all blocks but the partial last one are skipped. For the empty message the
        last block stays zero and K1 is used. */
    method HashCmac(hash: array<u8>, src: array<u8>, size: u32) returns (res: nat)
      requires size <= src.Length && hash.Length == BLOCK_SIZE
      modifies this, hash
      ensures res == 0 && 0 < size ==>
                hash[..] == RfcCmac(cipher, ks, if Wraps(size) then Partial(old(src[..size])) else old(src[..size]))
      ensures res == 0 && size == 0 ==> hash[..] == cipher.enc(ks, K1(cipher, ks))
      ensures res != 0 ==> hash[..] == old(hash[..])
      ensures old(ops) <= ops
      ensures res == 0 <==> (size <= SE_LL_MAX_SIZE || Wraps(size)) && NoFault(faults, old(ops), ops)
    {
      hide Chain, XorBytes, K1, K2, RfcCmac, NoFault, Filled;
      ghost var m, o0 := src[..size], ops;
      NothingYet(faults, o0);
      var subkey: array<u8>;
      res, subkey := Subkey(size);
      NoFaultSteps(faults, o0, o0, ops);
      if res != 0 { return; }
      ghost var o1 := ops;
      res := InitialBlocks(src, size);
      NoFaultSteps(faults, o0, o1, ops);
      if res != 0 { return; }
      ghost var x, o2 := Start(), ops;
      res := FinalBlock(src, size, subkey);
      NoFaultSteps(faults, o0, o2, ops);
      if res != 0 { return; }
      forall i | 0 <= i < BLOCK_SIZE { hash[i] := result[i]; }
      assert hash[..] == result;
      if m == [] {
        FilledNone(K1(cipher, ks));
        ChainOne(cipher, ks, ZERO, K1(cipher, ks));
        XorBytesZero(K1(cipher, ks));
      }
      else if Wraps(size) { CmacOfPartial(cipher, ks, m); }
      else { CmacOfParts(cipher, ks, m); }
    }
  }

  /** The block count of so many bytes is zero in 32 bits. */
  predicate Wraps(size: nat) { size > 0xffff_fff0 }

  /** What follows the last whole block */
  function Partial(m: seq<u8>): seq<u8> { m[|m| - |m| % 16..] }

  /** The subkey for a message of size bytes */
  function KeyFor(c: Cipher, ks: nat, size: nat): Block { if size % 16 != 0 then K2(c, ks) else K1(c, ks) }

  /** The last block of a message before the subkey is xored in */
  function Filled(m: seq<u8>): Block
  {
    if |m| % 16 != 0 then Padding(Partial(m)) else if m != [] then m[|m| - BLOCK_SIZE..] else ZERO
  }

  lemma BlockCount(len: nat)
    requires len > 0
    ensures BLOCK_SIZE * ((len + 15) / 16 - 1) == if len % 16 == 0 then len - 16 else len - len % 16
  {
  }

  lemma LastIsFilled(c: Cipher, ks: nat, m: seq<u8>)
    requires m != []
    ensures LastBlock(c, ks, m) == XorBytes(Filled(m), KeyFor(c, ks, |m|))
  {
    hide XorBytes, K1, K2, Padding;
    BlockCount(|m|);
    if |m| % 16 == 0 { assert m[|m| - 16..|m|] == m[|m| - 16..]; }
  }

  lemma CmacOfParts(c: Cipher, ks: nat, m: seq<u8>)
    requires m != []
    ensures var x := Chain(c, ks, ZERO, m, (|m| + 15) / 16 - 1);
            Chain(c, ks, x, XorBytes(Filled(m), KeyFor(c, ks, |m|)), 1) == RfcCmac(c, ks, m)
  {
    hide Chain, XorBytes, LastBlock, Filled, KeyFor;
    var n := (|m| + 15) / 16;
    LastIsFilled(c, ks, m);
    ChainContinues(c, ks, m, n - 1, XorBytes(Filled(m), KeyFor(c, ks, |m|)));
  }

  lemma CmacOfPartial(c: Cipher, ks: nat, m: seq<u8>)
    requires |m| % 16 != 0
    ensures Chain(c, ks, ZERO, XorBytes(Filled(m), KeyFor(c, ks, |m|)), 1) == RfcCmac(c, ks, Partial(m))
  {
    hide Chain, XorBytes, RfcCmac, Filled, Partial, K1, K2;
    var p := Partial(m);
    PartialOf(m);
    assert p != [] && (|p| + 15) / 16 - 1 == 0;
    assert KeyFor(c, ks, |p|) == KeyFor(c, ks, |m|);
    ChainNone(c, ks, ZERO, p);
    CmacOfParts(c, ks, p);
  }

  lemma FilledNone(k: Block)
    ensures XorBytes(Filled([]), k) == k
  {
    hide XorBytes;
    XorBytesZero(k);
  }

  lemma BlocksFit(size: u32, numBlocks: nat)
    requires numBlocks == (size + 0xf) % 0x1_0000_0000 / 16
    ensures numBlocks > 1 ==> BLOCK_SIZE * (numBlocks - 1) <= size
    ensures !Wraps(size) ==> numBlocks == (size + 15) / 16 && (numBlocks > 1 <==> size > 16)
    ensures Wraps(size) ==> numBlocks == 0 && size % 16 != 0
  {
  }

  /** Lines 708-715: the last block, padded when it is partial */
  method FillLast(src: array<u8>, size: nat) returns (last: array<u8>)
    requires size <= src.Length
    ensures fresh(last) && last.Length == BLOCK_SIZE && last[..] == Filled(src[..size])
  {
    hide Filled, Padding;
    FilledIs(src[..size]);
    last := new u8[BLOCK_SIZE](i => 0);
    assert last[..] == ZERO;
    if size % 16 != 0 {
      FillPartial(last, src, size - size % 16, size % 16);
      TailOf(src[..], size);
    } else if size >= BLOCK_SIZE {
      CopyInto(last, src, size - BLOCK_SIZE, BLOCK_SIZE);
      TailBlock(src[..], size);
      assert last[BLOCK_SIZE..] == [];
    }
  }

  /** Lines 711-712 */
  method FillPartial(last: array<u8>, src: array<u8>, at: nat, r: nat)
    requires at + r <= src.Length && r < BLOCK_SIZE == last.Length && last != src && last[..] == ZERO
    modifies last
    ensures last[..] == Padding(src[at..at + r])
  {
    hide Padding;
    ghost var x := src[at..at + r];
    assert last[r..] == ZERO[r..];
    CopyInto(last, src, at, r);
    last[r] := 0x80;
    assert last[..] == (x + ZERO[r..])[r := 0x80];
    IsPadding(x);
  }

  /** `memcpy` to the start of a buffer */
  method CopyInto(dst: array<u8>, src: array<u8>, at: nat, n: nat)
    requires n <= dst.Length && at + n <= src.Length && dst != src
    modifies dst
    ensures dst[..] == src[at..at + n] + old(dst[n..])
  {
    forall i | 0 <= i < n { dst[i] := src[at + i]; }
    assert dst[..n] == src[at..at + n] && dst[n..] == old(dst[n..]);
    assert dst[..] == dst[..n] + dst[n..];
  }

  lemma FilledIs(m: seq<u8>)
    ensures |m| % 16 != 0 ==> Filled(m) == Padding(Partial(m)) && Partial(m) == m[|m| - |m| % 16..]
    ensures |m| % 16 == 0 && m != [] ==> |m| >= BLOCK_SIZE && Filled(m) == m[|m| - BLOCK_SIZE..]
    ensures m == [] ==> Filled(m) == ZERO
  {
    hide Padding;
  }

  lemma TailBlock(s: seq<u8>, size: nat)
    requires BLOCK_SIZE <= size <= |s|
    ensures s[..size][size - BLOCK_SIZE..] == s[size - BLOCK_SIZE..size]
  {
  }

  lemma TailOf(s: seq<u8>, size: nat)
    requires size <= |s|
    ensures s[..size][size - size % 16..] == s[size - size % 16..size]
  {
  }

  lemma IsPadding(x: seq<u8>)
    requires |x| < BLOCK_SIZE
    ensures (x + ZERO[|x|..])[|x| := 0x80] == Padding(x)
  {
  }

  // ----- The empty message -----

  /** The hash of the empty message is that of RFC 4493 just when K1 and the padded empty block under K2
      are the same block. */
  lemma EmptyMessage(c: Cipher, ks: nat)
    requires c.Inverse(ks)
    ensures c.enc(ks, K1(c, ks)) == RfcCmac(c, ks, []) <==> K1(c, ks) == XorBytes(Padding([]), K2(c, ks))
  {
    hide XorBytes, K1, K2;
    var last := XorBytes(Padding([]), K2(c, ks));
    ChainNone(c, ks, ZERO, []);
    XorBytesZero(last);
    assert c.dec(ks, c.enc(ks, last)) == last && c.dec(ks, c.enc(ks, K1(c, ks))) == K1(c, ks);
  }

  lemma ShiftZero()
    ensures ShiftIn(0, 0) == 0
  {
  }

  lemma DoubleZero()
    ensures DoubleBE(ZERO) == ZERO
  {
    hide Xor87, DoubleBE, ShiftIn;
    ShiftZero();
    assert ZERO[0] == ZERO[15] == 0;
    forall i | 0 <= i < 15 ensures ZERO[i] == ShiftIn(ZERO[i], BelowBE(ZERO, i)) {
      assert BelowBE(ZERO, i) == ZERO[i + 1] == 0 == ZERO[i];
    }
    DoubleUnique(ZERO, ZERO);
  }

  /** They are not for a cipher that fixes the zero block. */
  lemma EmptyMessageDiffers(c: Cipher, ks: nat)
    requires c.Inverse(ks) && c.enc(ks, ZERO) == ZERO
    ensures c.enc(ks, K1(c, ks)) != RfcCmac(c, ks, [])
  {
    hide XorBytes, DoubleBE, RfcCmac, Padding;
    EmptyMessage(c, ks);
    DoubleZero();
    XorBytesZero(Padding([]));
    assert Padding([])[0] == 0x80;
  }

  // ----- Messages whose block count wraps around -----

  lemma XorBytesOnlyZero(a: Block, x: Block)
    ensures XorBytes(a, x) == a <==> x == ZERO
  {
    XorBytesComm(a, x);
    if XorBytes(a, x) == a {
      forall i | 0 <= i < BLOCK_SIZE ensures x[i] == 0 {
        XorCancel(x[i], a[i]);
        XorSelf(a[i]);
      }
    }
    XorBytesZero(a);
  }

  /** The hash of the partial last block alone is that of the whole message just when the chain over the
      whole blocks comes back to zero. */
  lemma SkippedBlocks(c: Cipher, ks: nat, m: seq<u8>)
    requires c.Inverse(ks) && |m| % 16 != 0
    ensures RfcCmac(c, ks, Partial(m)) == RfcCmac(c, ks, m) <==> Chain(c, ks, ZERO, m, |m| / 16) == ZERO
  {
    hide Chain, XorBytes, K2, RfcCmac, Filled, Partial, Cipher.Inverse;
    var p, last, x := Partial(m), XorBytes(Filled(m), K2(c, ks)), Chain(c, ks, ZERO, m, |m| / 16);
    PartialOf(m);
    CmacUnfolds(c, ks, m);
    CmacUnfolds(c, ks, p);
    assert Chain(c, ks, ZERO, p, |p| / 16) == ZERO by { ChainNone(c, ks, ZERO, p); }
    assert XorBytes(last, ZERO) == last by { XorBytesZero(last); }
    assert RfcCmac(c, ks, p) == c.enc(ks, last);
    XorBytesOnlyZero(last, x);
    EncInjective(c, ks, last, XorBytes(last, x));
  }

  lemma PartialOf(m: seq<u8>)
    requires |m| % 16 != 0
    ensures |Partial(m)| == |m| % 16 == |Partial(m)| % 16 && |Partial(m)| / 16 == 0 && Filled(Partial(m)) == Filled(m)
  {
    hide Padding;
    PartialTwice(m);
    FilledIs(m);
    FilledIs(Partial(m));
  }

  lemma PartialTwice(m: seq<u8>)
    ensures |Partial(m)| == |m| % 16 == |Partial(m)| % 16 && Partial(Partial(m)) == Partial(m)
  {
  }

  lemma EncInjective(c: Cipher, ks: nat, a: Block, b: Block)
    requires c.Inverse(ks)
    ensures c.enc(ks, a) == c.enc(ks, b) <==> a == b
  {
    assert c.dec(ks, c.enc(ks, a)) == a && c.dec(ks, c.enc(ks, b)) == b;
  }

  lemma CmacUnfolds(c: Cipher, ks: nat, m: seq<u8>)
    requires |m| % 16 != 0
    ensures RfcCmac(c, ks, m) == c.enc(ks, XorBytes(XorBytes(Filled(m), K2(c, ks)), Chain(c, ks, ZERO, m, |m| / 16)))
  {
    hide Chain, XorBytes, LastBlock, Filled, K2;
    LastIsFilled(c, ks, m);
  }

  /** For a cipher that changes nothing, a message of one other block and zeros has another hash. */
  lemma SkippedBlocksDiffer(c: Cipher, ks: nat, first: Block, zeros: seq<u8>)
    requires c.Inverse(ks) && (forall b: Block :: c.enc(ks, b) == b) && first != ZERO
    requires |zeros| % 16 != 0 && forall i :: 0 <= i < |zeros| ==> zeros[i] == 0
    ensures RfcCmac(c, ks, Partial(first + zeros)) != RfcCmac(c, ks, first + zeros)
  {
    hide RfcCmac, Partial, Chain, XorBytes;
    var m := first + zeros;
    ChainOfOne(c, ks, first, zeros, |m| / 16);
    SkippedBlocks(c, ks, m);
  }

  lemma {:induction false} ChainOfOne(c: Cipher, ks: nat, first: Block, zeros: seq<u8>, n: nat)
    requires (forall b: Block :: c.enc(ks, b) == b) && forall i :: 0 <= i < |zeros| ==> zeros[i] == 0
    requires 1 <= n && BLOCK_SIZE * n <= BLOCK_SIZE + |zeros|
    ensures Chain(c, ks, ZERO, first + zeros, n) == first
    decreases n
  {
    hide XorBytes, Chain;
    var m := first + zeros;
    ChainStep(c, ks, ZERO, m, n - 1);
    if n == 1 {
      ChainNone(c, ks, ZERO, m);
      assert BlockAt(m, 0) == first;
      XorBytesZero(first);
    } else {
      ChainOfOne(c, ks, first, zeros, n - 1);
      assert BlockAt(m, n - 1) == ZERO;
      XorBytesZero(first);
    }
  }
}
