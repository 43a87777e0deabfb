/** What the heap allocator (bdk/mem/heap.c) does to the list of nodes that tile its memory.

    A node is a 32-byte header and the payload behind it; `addr` is the address of the header. */
module HeapSpec {

  const HEADER := 32

  datatype Block = Block(addr: nat, size: nat, used: bool)
  {
    function Payload(): nat { addr + HEADER }
    function End(): nat { addr + HEADER + size }
  }

  /** `ALIGN(size, sizeof(hnode_t))` in 32 bits: sizes above 0xffffffe0 wrap around to zero. */
  function Align(size: nat): (n: nat)
    ensures n % HEADER == 0
    ensures size <= 0xffff_ffe0 ==> size <= n < size + HEADER
    ensures 0xffff_ffe0 < size < 0x1_0000_0000 ==> n == 0
  {
    AlignFacts(size);
    (size + HEADER - 1) % 0x1_0000_0000 / HEADER * HEADER
  }

  lemma AlignFacts(size: nat)
    ensures size <= 0xffff_ffe0 ==> (size + HEADER - 1) % 0x1_0000_0000 == size + HEADER - 1
    ensures 0xffff_ffe0 < size < 0x1_0000_0000 ==>
              (size + HEADER - 1) % 0x1_0000_0000 == size + HEADER - 1 - 0x1_0000_0000
  {
  }

  /** The address behind the last node. */
  function ExtentEnd(bs: seq<Block>, start: nat): nat
  {
    if bs == [] then start else bs[|bs| - 1].End()
  }

  /** The nodes lie one right behind the other, and all sizes are multiples of the header size. */
  ghost predicate Tiled(bs: seq<Block>, start: nat)
  {
    (bs != [] ==> bs[0].addr == start) &&
    (forall i :: 0 < i < |bs| ==> bs[i].addr == bs[i - 1].End()) &&
    (forall i :: 0 <= i < |bs| ==> bs[i].size % HEADER == 0)
  }

  ghost predicate Coalesced(bs: seq<Block>)
  {
    forall i :: 0 < i < |bs| ==> bs[i - 1].used || bs[i].used
  }

  ghost predicate WellFormed(bs: seq<Block>, start: nat)
  {
    Tiled(bs, start) && Coalesced(bs)
  }

  /** The first free node from i on that is large enough, or |bs|. */
  function FirstFit(bs: seq<Block>, n: nat, i: nat): (k: nat)
    requires i <= |bs|
    ensures i <= k <= |bs|
    ensures k < |bs| ==> !bs[k].used && n <= bs[k].size
    decreases |bs| - i
  {
    if i == |bs| || (!bs[i].used && n <= bs[i].size) then i else FirstFit(bs, n, i + 1)
  }

  lemma {:induction false} FirstFitIsFirst(bs: seq<Block>, n: nat, i: nat, j: nat)
    requires i <= |bs| && i <= j < FirstFit(bs, n, i)
    ensures bs[j].used || bs[j].size < n
    decreases |bs| - i
  {
    if i < j { FirstFitIsFirst(bs, n, i + 1, j); }
  }

  /** A free node cut to serve n bytes; a remainder of at least four headers becomes a free node. */
  function Pieces(b: Block, n: nat): (mid: seq<Block>)
    requires n <= b.size
  {
    if b.size - n >= 4 * HEADER then
      [Block(b.addr, n, true), Block(b.addr + HEADER + n, b.size - n - HEADER, false)]
    else
      [Block(b.addr, b.size, true)]
  }

  /** Serves n bytes from free node k. */
  function Carve(bs: seq<Block>, k: nat, n: nat): seq<Block>
    requires k < |bs| && n <= bs[k].size
  {
    bs[..k] + Pieces(bs[k], n) + bs[k + 1..]
  }

  function Append(bs: seq<Block>, start: nat, n: nat): seq<Block>
  {
    bs + [Block(ExtentEnd(bs, start), n, true)]
  }

  /** The list after `_heap_alloc` of an aligned size; the served node stands at the first fit. */
  function Allocated(bs: seq<Block>, start: nat, n: nat): (r: seq<Block>)
    ensures FirstFit(bs, n, 0) < |r|
  {
    var k := FirstFit(bs, n, 0);
    if k < |bs| then Carve(bs, k, n) else Append(bs, start, n)
  }

  /** The node that serves the allocation. */
  function Served(bs: seq<Block>, start: nat, n: nat): Block
  {
    Allocated(bs, start, n)[FirstFit(bs, n, 0)]
  }

  /** Joins node i with its successor into one free node. */
  function Join(bs: seq<Block>, i: nat): seq<Block>
    requires i + 1 < |bs|
  {
    bs[..i] + [Block(bs[i].addr, bs[i].size + (bs[i + 1].size + HEADER), false)] + bs[i + 2..]
  }

  /** Where node k ends up after the merge with its predecessor. */
  function JoinedIndex(bs: seq<Block>, k: nat): (j: nat)
    requires k < |bs|
    ensures j <= k
  {
    if k > 0 && !bs[k - 1].used then k - 1 else k
  }

  function JoinPrev(bs: seq<Block>, k: nat): (r: seq<Block>)
    requires k < |bs|
    ensures JoinedIndex(bs, k) < |r|
  {
    if k > 0 && !bs[k - 1].used then Join(bs, k - 1) else bs
  }

  function JoinNext(bs: seq<Block>, k: nat): seq<Block>
    requires k < |bs|
  {
    if k + 1 < |bs| && !bs[k + 1].used then Join(bs, k) else bs
  }

  /** The list after `_heap_free` of node k. */
  function FreedAt(bs: seq<Block>, k: nat): seq<Block>
    requires k < |bs|
  {
    var cs := bs[k := bs[k].(used := false)];
    JoinNext(JoinPrev(cs, k), JoinedIndex(cs, k))
  }

  ghost predicate LiveAt(bs: seq<Block>, p: nat, k: nat)
  {
    k < |bs| && bs[k].used && bs[k].Payload() == p
  }

  ghost predicate Live(bs: seq<Block>, p: nat)
  {
    exists k :: LiveAt(bs, p, k)
  }

  /** The list after `_heap_free` of address p: unchanged when p is not a live payload. */
  ghost function Freed(bs: seq<Block>, p: nat): seq<Block>
  {
    if Live(bs, p) then (var k :| LiveAt(bs, p, k); FreedAt(bs, k)) else bs
  }

  // ----- The list stays well formed -----

  lemma {:induction false} Ordered(bs: seq<Block>, start: nat, i: nat, j: nat)
    requires Tiled(bs, start) && i < j < |bs|
    ensures bs[i].End() <= bs[j].addr
  {
    if i < j - 1 { Ordered(bs, start, i, j - 1); }
  }

  lemma {:induction false} AboveStart(bs: seq<Block>, start: nat, i: nat)
    requires Tiled(bs, start) && i < |bs|
    ensures start <= bs[i].addr && bs[i].End() <= ExtentEnd(bs, start)
    ensures start % HEADER == 0 ==> bs[i].addr % HEADER == 0
  {
    if i > 0 { AboveStart(bs, start, i - 1); }
    if i < |bs| - 1 { Ordered(bs, start, i, |bs| - 1); }
  }

  lemma LiveUnique(bs: seq<Block>, start: nat, p: nat, i: nat, j: nat)
    requires Tiled(bs, start) && LiveAt(bs, p, i) && LiveAt(bs, p, j)
    ensures i == j
  {
    if i < j { Ordered(bs, start, i, j); }
    if j < i { Ordered(bs, start, j, i); }
  }

  lemma FreedOfLive(bs: seq<Block>, start: nat, p: nat, k: nat)
    requires Tiled(bs, start) && LiveAt(bs, p, k)
    ensures Freed(bs, p) == FreedAt(bs, k)
  {
    var j :| LiveAt(bs, p, j) && Freed(bs, p) == FreedAt(bs, j);
    LiveUnique(bs, start, p, j, k);
  }

  /** Replacing the nodes i to j by others that tile the same stretch. */
  lemma SpliceTiled(bs: seq<Block>, start: nat, i: nat, j: nat, mid: seq<Block>)
    requires Tiled(bs, start) && i < j <= |bs| && mid != []
    requires Tiled(mid, bs[i].addr) && ExtentEnd(mid, 0) == bs[j - 1].End()
    ensures Tiled(bs[..i] + mid + bs[j..], start)
    ensures ExtentEnd(bs[..i] + mid + bs[j..], start) == ExtentEnd(bs, start)
  {
    var cs := bs[..i] + mid + bs[j..];
    forall k | 0 < k < |cs| ensures cs[k].addr == cs[k - 1].End() {
      if k < i {
      } else if k < i + |mid| {
        assert cs[k] == mid[k - i];
      } else {
        assert cs[k] == bs[k - i - |mid| + j];
      }
    }
  }

  lemma SpliceCoalesced(bs: seq<Block>, i: nat, j: nat, mid: seq<Block>)
    requires i < j <= |bs| && mid != [] && Coalesced(bs) && Coalesced(mid)
    requires i > 0 ==> bs[i - 1].used || mid[0].used
    requires j < |bs| ==> mid[|mid| - 1].used || bs[j].used
    ensures Coalesced(bs[..i] + mid + bs[j..])
  {
  }

  /** The pieces of a node take its place; the first one is used. */
  lemma PiecesTile(b: Block, n: nat)
    requires n % HEADER == 0 && b.size % HEADER == 0 && n <= b.size
    ensures var mid := Pieces(b, n);
            mid != [] && mid[0].used && Tiled(mid, b.addr) && ExtentEnd(mid, 0) == b.End() && Coalesced(mid)
  {
  }

  lemma CarveKeepsWellFormed(bs: seq<Block>, start: nat, k: nat, n: nat)
    requires WellFormed(bs, start) && n % HEADER == 0 && k < |bs| && !bs[k].used && n <= bs[k].size
    ensures WellFormed(Carve(bs, k, n), start) && ExtentEnd(Carve(bs, k, n), start) == ExtentEnd(bs, start)
  {
    var mid := Pieces(bs[k], n);
    assert k + 1 < |bs| ==> bs[k + 1].used;
    PiecesTile(bs[k], n);
    hide Pieces, Tiled;
    SpliceTiled(bs, start, k, k + 1, mid);
    SpliceCoalesced(bs, k, k + 1, mid);
  }

  lemma AllocKeepsWellFormed(bs: seq<Block>, start: nat, n: nat)
    requires WellFormed(bs, start) && n % HEADER == 0
    ensures WellFormed(Allocated(bs, start, n), start)
    ensures ExtentEnd(Allocated(bs, start, n), start) ==
            ExtentEnd(bs, start) + if FirstFit(bs, n, 0) < |bs| then 0 else HEADER + n
  {
    var k := FirstFit(bs, n, 0);
    if k < |bs| { CarveKeepsWellFormed(bs, start, k, n); }
  }

  lemma JoinTiled(bs: seq<Block>, start: nat, i: nat)
    requires Tiled(bs, start) && i + 1 < |bs|
    ensures Tiled(Join(bs, i), start) && ExtentEnd(Join(bs, i), start) == ExtentEnd(bs, start)
  {
    SpliceTiled(bs, start, i, i + 2, [Block(bs[i].addr, bs[i].size + (bs[i + 1].size + HEADER), false)]);
  }

  lemma FreedTiled(bs: seq<Block>, start: nat, k: nat)
    requires Tiled(bs, start) && k < |bs|
    ensures Tiled(FreedAt(bs, k), start) && ExtentEnd(FreedAt(bs, k), start) == ExtentEnd(bs, start)
  {
    hide Tiled, JoinPrev, JoinNext, Join, JoinedIndex, ExtentEnd;
    var cs := bs[k := bs[k].(used := false)];
    MarkedTiles(bs, start, k);
    JoinPrevTiled(cs, start, k);
    JoinNextTiled(JoinPrev(cs, k), start, JoinedIndex(cs, k));
  }

  lemma MarkedTiles(bs: seq<Block>, start: nat, k: nat)
    requires Tiled(bs, start) && k < |bs|
    ensures var cs := bs[k := bs[k].(used := false)]; Tiled(cs, start) && ExtentEnd(cs, start) == ExtentEnd(bs, start)
  {
  }

  lemma JoinPrevTiled(cs: seq<Block>, start: nat, k: nat)
    requires Tiled(cs, start) && k < |cs|
    ensures Tiled(JoinPrev(cs, k), start) && ExtentEnd(JoinPrev(cs, k), start) == ExtentEnd(cs, start)
  {
    hide Tiled, Join;
    if k > 0 && !cs[k - 1].used { JoinTiled(cs, start, k - 1); }
  }

  lemma JoinNextTiled(ds: seq<Block>, start: nat, j: nat)
    requires Tiled(ds, start) && j < |ds|
    ensures Tiled(JoinNext(ds, j), start) && ExtentEnd(JoinNext(ds, j), start) == ExtentEnd(ds, start)
  {
    hide Tiled, Join;
    if j + 1 < |ds| && !ds[j + 1].used { JoinTiled(ds, start, j); }
  }

  /** The pieces around a freed node: what stays below, the free node, and what stays above. */
  lemma FreedShape(bs: seq<Block>, k: nat)
    requires k < |bs|
    ensures var lo := if k > 0 && !bs[k - 1].used then k - 1 else k;
            var hi := if k + 1 < |bs| && !bs[k + 1].used then k + 2 else k + 1;
            exists b: Block :: !b.used && b.addr == bs[lo].addr && FreedAt(bs, k) == bs[..lo] + [b] + bs[hi..]
  {
    hide JoinPrev, JoinNext, JoinedIndex;
    var cs := bs[k := bs[k].(used := false)];
    var lo := if k > 0 && !bs[k - 1].used then k - 1 else k;
    var hi := if k + 1 < |bs| && !bs[k + 1].used then k + 2 else k + 1;
    var ds := JoinPrev(cs, k);
    JoinPrevShape(cs, k);
    JoinNextShape(ds, lo);
    Around(bs, cs, ds, lo, k);
  }

  lemma JoinPrevShape(cs: seq<Block>, k: nat)
    requires k < |cs| && !cs[k].used
    ensures var lo, ds := JoinedIndex(cs, k), JoinPrev(cs, k);
            lo == (if k > 0 && !cs[k - 1].used then k - 1 else k) && |ds| == |cs| - (k - lo) &&
            !ds[lo].used && ds[lo].addr == cs[lo].addr && ds[..lo] == cs[..lo] && ds[lo + 1..] == cs[k + 1..]
  {
  }

  lemma JoinNextShape(ds: seq<Block>, j: nat)
    requires j < |ds| && !ds[j].used
    ensures exists b: Block :: !b.used && b.addr == ds[j].addr &&
              JoinNext(ds, j) == ds[..j] + [b] + (if j + 1 < |ds| && !ds[j + 1].used then ds[j + 2..] else ds[j + 1..])
  {
    if j + 1 < |ds| && !ds[j + 1].used {
      assert JoinNext(ds, j) == ds[..j] + [JoinNext(ds, j)[j]] + ds[j + 2..];
    } else {
      assert ds == ds[..j] + [ds[j]] + ds[j + 1..];
    }
  }

  /** What the merge with the predecessor leaves around the free node is what was around it. */
  lemma Around(bs: seq<Block>, cs: seq<Block>, ds: seq<Block>, lo: nat, k: nat)
    requires lo <= k < |bs| && cs == bs[k := bs[k].(used := false)] && |ds| == |bs| - (k - lo)
    requires ds[..lo] == cs[..lo] && ds[lo + 1..] == cs[k + 1..]
    ensures ds[..lo] == bs[..lo] && cs[lo].addr == bs[lo].addr && ds[lo + 1..] == bs[k + 1..]
    ensures k + 1 < |bs| ==> ds[lo + 1] == bs[k + 1] && ds[lo + 2..] == bs[k + 2..]
  {
    if k + 1 < |bs| {
      assert ds[lo + 1] == ds[lo + 1..][0] && ds[lo + 2..] == ds[lo + 1..][1..];
      assert bs[k + 1] == bs[k + 1..][0] && bs[k + 2..] == bs[k + 1..][1..];
    }
  }

  lemma FreeKeepsWellFormed(bs: seq<Block>, start: nat, k: nat)
    requires WellFormed(bs, start) && k < |bs| && bs[k].used
    ensures WellFormed(FreedAt(bs, k), start) && ExtentEnd(FreedAt(bs, k), start) == ExtentEnd(bs, start)
  {
    FreedTiled(bs, start, k);
    FreedShape(bs, k);
    var lo := if k > 0 && !bs[k - 1].used then k - 1 else k;
    var hi := if k + 1 < |bs| && !bs[k + 1].used then k + 2 else k + 1;
    var b: Block :| !b.used && b.addr == bs[lo].addr && FreedAt(bs, k) == bs[..lo] + [b] + bs[hi..];
    SpliceCoalesced(bs, lo, hi, [b]);
  }

  // ----- Live nodes -----

  function LiveBlocks(bs: seq<Block>): set<Block>
  {
    set b | b in bs && b.used
  }

  lemma LiveConcat(a: seq<Block>, b: seq<Block>)
    ensures LiveBlocks(a + b) == LiveBlocks(a) + LiveBlocks(b)
  {
  }

  lemma LivePieces(bs: seq<Block>, i: nat, j: nat)
    requires i <= j <= |bs|
    ensures LiveBlocks(bs) == LiveBlocks(bs[..i]) + LiveBlocks(bs[i..j]) + LiveBlocks(bs[j..])
  {
    assert bs == bs[..i] + bs[i..j] + bs[j..];
    LiveConcat(bs[..i] + bs[i..j], bs[j..]);
    LiveConcat(bs[..i], bs[i..j]);
  }

  lemma LiveDisjoint(bs: seq<Block>, start: nat, b: Block, c: Block)
    requires Tiled(bs, start) && b in bs && c in bs && b != c
    ensures b.End() <= c.addr || c.End() <= b.addr
  {
    var i :| 0 <= i < |bs| && bs[i] == b;
    var j :| 0 <= j < |bs| && bs[j] == c;
    if i < j { Ordered(bs, start, i, j); } else { Ordered(bs, start, j, i); }
  }

  lemma NotElsewhere(bs: seq<Block>, start: nat, k: nat)
    requires Tiled(bs, start) && k < |bs|
    ensures bs[k] !in bs[..k] && bs[k] !in bs[k + 1..]
  {
    forall i | 0 <= i < |bs| && i != k ensures bs[i] != bs[k] {
      if i < k { Ordered(bs, start, i, k); } else { Ordered(bs, start, k, i); }
    }
  }

  lemma CarveLive(bs: seq<Block>, k: nat, n: nat)
    requires k < |bs| && !bs[k].used && n <= bs[k].size
    ensures LiveBlocks(Carve(bs, k, n)) == LiveBlocks(bs) + {Pieces(bs[k], n)[0]}
  {
    var mid := Pieces(bs[k], n);
    LivePieces(bs, k, k + 1);
    LiveConcat(bs[..k] + mid, bs[k + 1..]);
    LiveConcat(bs[..k], mid);
    assert bs[k..k + 1] == [bs[k]];
    assert LiveBlocks(mid) == {mid[0]} && LiveBlocks([bs[k]]) == {};
  }

  /** An allocation adds one live node, which is large enough, less than four headers too large and new, and leaves all
      other live nodes where they are, as large as they are. */
  lemma AllocLive(bs: seq<Block>, start: nat, n: nat)
    requires WellFormed(bs, start) && n % HEADER == 0
    ensures var b := Served(bs, start, n);
            b.used && n <= b.size < n + 4 * HEADER && b !in LiveBlocks(bs) &&
            LiveBlocks(Allocated(bs, start, n)) == LiveBlocks(bs) + {b}
  {
    var k := FirstFit(bs, n, 0);
    ServedIsNew(bs, start, n);
    ServedIs(bs, start, n);
    hide WellFormed, FirstFit, LiveBlocks;
    if k < |bs| {
      CarveLive(bs, k, n);
    } else {
      LiveConcat(bs, [Served(bs, start, n)]);
      LiveSingle(Served(bs, start, n));
    }
  }

  /** The size and place of the served node: a free node that fits is cut to the request when at least four
      headers remain, and handed out whole otherwise; without one a node of just that size is appended. */
  lemma ServedIs(bs: seq<Block>, start: nat, n: nat)
    ensures var b, k := Served(bs, start, n), FirstFit(bs, n, 0);
            b.used && n <= b.size < n + 4 * HEADER &&
            b.addr == (if k < |bs| then bs[k].addr else ExtentEnd(bs, start)) &&
            b.size == if k < |bs| && bs[k].size < n + 4 * HEADER then bs[k].size else n
    ensures var k := FirstFit(bs, n, 0);
            |Allocated(bs, start, n)| == if k < |bs| && bs[k].size < n + 4 * HEADER then |bs| else |bs| + 1
  {
    hide FirstFit;
  }

  lemma LiveSingle(b: Block)
    requires b.used
    ensures LiveBlocks([b]) == {b}
  {
    assert [b][0] == b;
  }

  lemma ServedIsNew(bs: seq<Block>, start: nat, n: nat)
    requires WellFormed(bs, start) && n % HEADER == 0
    ensures Served(bs, start, n) !in LiveBlocks(bs)
  {
    var k, b := FirstFit(bs, n, 0), Served(bs, start, n);
    forall i | 0 <= i < |bs| && bs[i].used ensures bs[i].addr != b.addr {
      if k < |bs| {
        if i < k { Ordered(bs, start, i, k); } else { Ordered(bs, start, k, i); }
      } else {
        AboveStart(bs, start, i);
      }
    }
  }

  lemma OnlyLive(bs: seq<Block>, lo: nat, k: nat, hi: nat)
    requires lo <= k < hi <= |bs| && bs[k].used
    requires forall i :: lo <= i < hi && i != k ==> !bs[i].used
    ensures LiveBlocks(bs[lo..hi]) == {bs[k]}
  {
    var mid := bs[lo..hi];
    assert mid[k - lo] == bs[k];
    forall b | b in mid && b.used ensures b == bs[k] {
      var i :| 0 <= i < |mid| && mid[i] == b;
      assert mid[i] == bs[lo + i];
    }
  }

  /** A free removes one live node and leaves all others where they are, as large as they are. */
  lemma FreeLive(bs: seq<Block>, start: nat, k: nat)
    requires Tiled(bs, start) && k < |bs| && bs[k].used
    ensures LiveBlocks(FreedAt(bs, k)) == LiveBlocks(bs) - {bs[k]}
  {
    hide FreedAt, Tiled;
    FreedShape(bs, k);
    var lo := if k > 0 && !bs[k - 1].used then k - 1 else k;
    var hi := if k + 1 < |bs| && !bs[k + 1].used then k + 2 else k + 1;
    var b: Block :| !b.used && b.addr == bs[lo].addr && FreedAt(bs, k) == bs[..lo] + [b] + bs[hi..];
    NotElsewhere(bs, start, k);
    LivePieces(bs, lo, hi);
    LiveConcat(bs[..lo] + [b], bs[hi..]);
    LiveConcat(bs[..lo], [b]);
    OnlyLive(bs, lo, k, hi);
    assert bs[k] !in bs[..lo] && bs[k] !in bs[hi..];
  }

  lemma FreedLive(bs: seq<Block>, start: nat, p: nat)
    requires WellFormed(bs, start)
    ensures WellFormed(Freed(bs, p), start) && ExtentEnd(Freed(bs, p), start) == ExtentEnd(bs, start)
    ensures LiveBlocks(Freed(bs, p)) == set b | b in LiveBlocks(bs) && b.Payload() != p
  {
    hide FreedAt, Tiled, Coalesced;
    if Live(bs, p) {
      var k: nat :| LiveAt(bs, p, k);
      FreedOfLive(bs, start, p, k);
      FreeKeepsWellFormed(bs, start, k);
      FreeLive(bs, start, k);
      forall b | b in LiveBlocks(bs) && b.Payload() == p ensures b == bs[k] {
        if b != bs[k] { LiveDisjoint(bs, start, b, bs[k]); }
      }
    } else {
      forall b | b in LiveBlocks(bs) ensures b.Payload() != p {
        var i :| 0 <= i < |bs| && bs[i] == b;
        assert LiveAt(bs, b.Payload(), i);
      }
    }
  }

  // ----- Freeing everything -----

  ghost function FreeAll(bs: seq<Block>, ps: seq<nat>): seq<Block>
    decreases |ps|
  {
    if ps == [] then bs else FreeAll(Freed(bs, ps[0]), ps[1..])
  }

  lemma {:induction false} FreeAllLive(bs: seq<Block>, start: nat, ps: seq<nat>)
    requires WellFormed(bs, start)
    ensures WellFormed(FreeAll(bs, ps), start) && ExtentEnd(FreeAll(bs, ps), start) == ExtentEnd(bs, start)
    ensures LiveBlocks(FreeAll(bs, ps)) == set b | b in LiveBlocks(bs) && b.Payload() !in ps
    decreases |ps|
  {
    hide Freed, WellFormed;
    if ps != [] {
      FreedLive(bs, start, ps[0]);
      FreeAllLive(Freed(bs, ps[0]), start, ps[1..]);
      assert forall p :: p in ps <==> p == ps[0] || p in ps[1..];
    }
  }

  lemma UsedAmongTwo(r: seq<Block>)
    requires Coalesced(r) && |r| > 1
    ensures exists i :: 0 <= i < |r| && r[i].used
  {
    assert r[1 - 1].used || r[1].used;
  }

  /** Freeing the live payloads in any order, even with repetitions and foreign addresses among them,
      leaves one free node that spans the whole extent. */
  lemma FreeAllLeavesOneNode(bs: seq<Block>, start: nat, ps: seq<nat>)
    requires WellFormed(bs, start) && bs != []
    requires forall b :: b in LiveBlocks(bs) ==> b.Payload() in ps
    ensures var r := FreeAll(bs, ps);
            |r| == 1 && !r[0].used && r[0].addr == start && r[0].End() == ExtentEnd(bs, start)
  {
    hide FreeAll;
    FreeAllLive(bs, start, ps);
    AboveStart(bs, start, 0);
    var r := FreeAll(bs, ps);
    assert LiveBlocks(r) == {};
    assert forall i :: 0 <= i < |r| && r[i].used ==> r[i] in LiveBlocks(r);
    if |r| > 1 { UsedAmongTwo(r); }
  }

  // ----- A free undoes an allocation -----

  lemma CarveThenFree(bs: seq<Block>, start: nat, k: nat, n: nat)
    requires WellFormed(bs, start) && k < |bs| && !bs[k].used && n <= bs[k].size
    ensures FreedAt(Carve(bs, k, n), k) == bs
  {
    var r := Carve(bs, k, n);
    var cs := r[k := r[k].(used := false)];
    assert k > 0 ==> bs[k - 1].used && cs[k - 1] == bs[k - 1];
    assert JoinPrev(cs, k) == cs;
    if bs[k].size - n >= 4 * HEADER {
      assert cs[k + 1] == Block(bs[k].addr + HEADER + n, bs[k].size - n - HEADER, false);
      assert Join(cs, k) == bs;
    } else {
      assert cs == bs;
      assert k + 1 < |bs| ==> bs[k + 1].used;
    }
  }

  /** Freeing what was just allocated restores the exact previous list if and only if the allocation
      was served from a free node. */
  lemma AllocThenFree(bs: seq<Block>, start: nat, n: nat)
    requires WellFormed(bs, start) && n % HEADER == 0
    ensures Freed(Allocated(bs, start, n), Served(bs, start, n).Payload()) == bs <==> FirstFit(bs, n, 0) < |bs|
  {
    var k, r := FirstFit(bs, n, 0), Allocated(bs, start, n);
    AllocKeepsWellFormed(bs, start, n);
    AllocLive(bs, start, n);
    assert LiveAt(r, Served(bs, start, n).Payload(), k);
    FreedOfLive(r, start, Served(bs, start, n).Payload(), k);
    if k < |bs| {
      CarveThenFree(bs, start, k, n);
    } else {
      FreeKeepsWellFormed(r, start, k);
      assert ExtentEnd(FreedAt(r, k), start) != ExtentEnd(bs, start);
    }
  }

  // ----- Any sequence of calls -----

  datatype Call = Malloc(size: nat) | Free(addr: nat)

  ghost function Run(bs: seq<Block>, start: nat, calls: seq<Call>): seq<Block>
  {
    if calls == [] then bs
    else
      var before := Run(bs, start, calls[..|calls| - 1]);
      match calls[|calls| - 1]
      case Malloc(size) => Allocated(before, start, Align(size))
      case Free(addr) => Freed(before, addr)
  }

  lemma {:induction false} RunKeepsWellFormed(start: nat, calls: seq<Call>)
    ensures WellFormed(Run([], start, calls), start)
    decreases |calls|
  {
    if calls != [] {
      var before := Run([], start, calls[..|calls| - 1]);
      RunKeepsWellFormed(start, calls[..|calls| - 1]);
      match calls[|calls| - 1]
      case Malloc(size) => AllocKeepsWellFormed(before, start, Align(size));
      case Free(addr) => FreedLive(before, start, addr);
    }
  }

  /** After any calls the live payloads are pairwise disjoint, aligned and inside the extent. */
  lemma RunIsSafe(start: nat, calls: seq<Call>, b: Block, c: Block)
    requires start % HEADER == 0
    requires var bs := Run([], start, calls); b in LiveBlocks(bs) && c in LiveBlocks(bs)
    ensures b != c ==> b.End() <= c.addr || c.End() <= b.addr
    ensures b.Payload() % HEADER == 0 && b.size % HEADER == 0
    ensures start <= b.addr && b.End() <= ExtentEnd(Run([], start, calls), start)
  {
    hide Run;
    var bs := Run([], start, calls);
    RunKeepsWellFormed(start, calls);
    if b != c { LiveDisjoint(bs, start, b, c); }
    var i :| 0 <= i < |bs| && bs[i] == b;
    AboveStart(bs, start, i);
  }
}
