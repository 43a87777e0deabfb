/** The heap allocator (bdk/mem/heap.c) with its node headers in the memory it manages. */
module Heap {
  import opened HeapSpec

  const HEAP_USED_MAGIC := 0x50414548

  /** 32-bit words by address; what a word holds before anyone writes it is not our concern. */
  type Memory = map<nat, nat>

  function Load(m: Memory, a: nat): nat { if a in m then m[a] else 0 }

  // The fields of the header at address a.
  const USED := 0
  const SIZE := 4
  const PREV := 8
  const NEXT := 12

  function PrevOf(bs: seq<Block>, i: nat): nat
    requires i < |bs|
  {
    if i == 0 then 0 else bs[i - 1].addr
  }

  function NextOf(bs: seq<Block>, i: nat): nat
    requires i < |bs|
  {
    if i + 1 < |bs| then bs[i + 1].addr else 0
  }

  /** The header at b.addr describes b and links it to its neighbours. */
  ghost predicate Header(m: Memory, b: Block, prev: nat, next: nat)
  {
    Load(m, b.addr + USED) == (if b.used then HEAP_USED_MAGIC else 0) &&
    Load(m, b.addr + SIZE) == b.size && Load(m, b.addr + PREV) == prev && Load(m, b.addr + NEXT) == next
  }

  /** Memory holds the doubly linked list of the nodes. */
  ghost predicate Linked(m: Memory, bs: seq<Block>)
  {
    forall i :: 0 <= i < |bs| ==> Header(m, bs[i], PrevOf(bs, i), NextOf(bs, i))
  }

  predicate InPayload(b: Block, a: nat) { b.Payload() <= a < b.End() }

  /** The two memories agree on the payload of every live node. */
  ghost predicate SamePayloads(bs: seq<Block>, m: Memory, m': Memory)
  {
    forall b, a :: b in bs && b.used && InPayload(b, a) ==> Load(m, a) == Load(m', a)
  }

  // ----- The header writes of an allocation -----

  /** Lines 75-84: the header of the remainder at a, and the links to it */
  function RemainderMemory(m: Memory, node: nat, a: nat, size: nat, next: nat): Memory
  {
    var m1 := m[a + USED := 0][a + SIZE := size][a + NEXT := next];
    var m2 := if next != 0 then m1[next + PREV := a] else m1;
    m2[a + PREV := node][node + NEXT := a]
  }

  /** Lines 66-90 on node b, which `next` follows. */
  function CarvedMemory(m: Memory, b: Block, next: nat, n: nat): Memory
    requires n <= b.size
  {
    if b.size - n >= 4 * HEADER then
      var a := b.addr + HEADER + n;
      RemainderMemory(m, b.addr, a, b.size - n - HEADER, next)[b.addr + SIZE := n][b.addr + USED := HEAP_USED_MAGIC]
    else
      m[b.addr + SIZE := b.size][b.addr + USED := HEAP_USED_MAGIC]
  }

  /** The memories agree on the header of b. */
  ghost predicate SameHeader(m: Memory, m': Memory, b: Block)
  {
    Load(m', b.addr + USED) == Load(m, b.addr + USED) && Load(m', b.addr + SIZE) == Load(m, b.addr + SIZE) &&
    Load(m', b.addr + PREV) == Load(m, b.addr + PREV) && Load(m', b.addr + NEXT) == Load(m, b.addr + NEXT)
  }

  /** Outside node b and the back link of the node behind it, nothing is written. */
  lemma CarvedFrame(m: Memory, b: Block, next: nat, n: nat, a: nat)
    requires n <= b.size && !(b.addr <= a < b.End()) && (next != 0 ==> a != next + PREV)
    ensures Load(CarvedMemory(m, b, next, n), a) == Load(m, a)
  {
  }

  lemma CarvedOwn(m: Memory, b: Block, prev: nat, next: nat, n: nat)
    requires n <= b.size && !b.used && Header(m, b, prev, next) && (next == 0 || next == b.End()) && b.addr > 0
    ensures var m', mid := CarvedMemory(m, b, next, n), Pieces(b, n);
            Header(m', mid[0], prev, if |mid| == 2 then mid[1].addr else next)
  {
  }

  lemma CarvedRemainder(m: Memory, b: Block, next: nat, n: nat)
    requires n <= b.size && (next == 0 || next == b.End()) && b.addr > 0 && |Pieces(b, n)| == 2
    ensures Header(CarvedMemory(m, b, next, n), Pieces(b, n)[1], b.addr, next)
  {
  }

  lemma CarvedNext(m: Memory, b: Block, next: nat, n: nat)
    requires n <= b.size && next == b.End() && next != 0
    ensures var m' := CarvedMemory(m, b, next, n);
            Load(m', next + PREV) == (if |Pieces(b, n)| == 2 then Pieces(b, n)[1].addr else Load(m, next + PREV)) &&
            Load(m', next + USED) == Load(m, next + USED) && Load(m', next + SIZE) == Load(m, next + SIZE) &&
            Load(m', next + NEXT) == Load(m, next + NEXT)
  {
  }

  lemma CarvedHeaders(m: Memory, b: Block, prev: nat, next: nat, n: nat)
    requires n <= b.size && !b.used && Header(m, b, prev, next) && (next == 0 || next == b.End()) && b.addr > 0
    ensures var m', mid := CarvedMemory(m, b, next, n), Pieces(b, n);
            Header(m', mid[0], prev, if |mid| == 2 then mid[1].addr else next) &&
            (|mid| == 2 ==> Header(m', mid[1], b.addr, next))
    ensures next != 0 ==> var m' := CarvedMemory(m, b, next, n);
            Load(m', next + PREV) == (if |Pieces(b, n)| == 2 then Pieces(b, n)[1].addr else Load(m, next + PREV)) &&
            Load(m', next + USED) == Load(m, next + USED) && Load(m', next + SIZE) == Load(m, next + SIZE) &&
            Load(m', next + NEXT) == Load(m, next + NEXT)
  {
    hide CarvedMemory, Header, Load;
    CarvedOwn(m, b, prev, next, n);
    if |Pieces(b, n)| == 2 { CarvedRemainder(m, b, next, n); }
    if next != 0 { CarvedNext(m, b, next, n); }
  }

  lemma PiecesShape(b: Block, n: nat)
    requires n <= b.size
    ensures var mid := Pieces(b, n); 1 <= |mid| <= 2 && mid[0].addr == b.addr
  {
  }

  /** The nodes that are not next to k on the upper side keep their headers. */
  lemma CarvedElsewhere(m: Memory, bs: seq<Block>, start: nat, k: nat, n: nat, i: nat)
    requires Tiled(bs, start) && k < |bs| && n <= bs[k].size && i < |bs| && i != k && i != k + 1
    ensures SameHeader(m, CarvedMemory(m, bs[k], NextOf(bs, k), n), bs[i])
  {
    hide CarvedMemory, Load, Tiled;
    var b, next := bs[k], NextOf(bs, k);
    if i < k {
      Ordered(bs, start, i, k);
      if k + 1 < |bs| { Ordered(bs, start, i, k + 1); }
    } else {
      Ordered(bs, start, k + 1, i);
      Ordered(bs, start, k, i);
    }
    CarvedFrame(m, b, next, n, bs[i].addr + USED);
    CarvedFrame(m, b, next, n, bs[i].addr + SIZE);
    CarvedFrame(m, b, next, n, bs[i].addr + PREV);
    CarvedFrame(m, b, next, n, bs[i].addr + NEXT);
  }

  lemma HeaderFrom(m: Memory, m': Memory, b: Block, prev: nat, next: nat)
    requires SameHeader(m, m', b) && Header(m, b, prev, next)
    ensures Header(m', b, prev, next)
  {
  }

  /** The node behind k gets the last piece as its predecessor. */
  lemma CarvedSuccessor(m: Memory, b: Block, c: Block, prev: nat, next: nat, n: nat)
    requires n <= b.size && !b.used && b.addr > 0 && c.addr == b.End()
    requires Header(m, b, prev, c.addr) && Header(m, c, b.addr, next)
    ensures var mid := Pieces(b, n); |mid| > 0 && Header(CarvedMemory(m, b, c.addr, n), c, mid[|mid| - 1].addr, next)
  {
    hide CarvedMemory, Load;
    CarvedHeaders(m, b, prev, c.addr, n);
  }

  /** Neighbours in a list where nodes i to i + d were replaced by mid. */
  lemma SpliceNeighbours(bs: seq<Block>, i: nat, d: nat, mid: seq<Block>, j: nat)
    requires 0 < d && i + d <= |bs| && mid != [] && mid[0].addr == bs[i].addr
    requires j < i || i + d <= j < |bs|
    ensures var cs := bs[..i] + mid + bs[i + d..];
            var j' := if j < i then j else j - d + |mid|;
            j' < |cs| && cs[j'] == bs[j] && NextOf(cs, j') == NextOf(bs, j) &&
            PrevOf(cs, j') == if j == i + d then mid[|mid| - 1].addr else PrevOf(bs, j)
  {
  }

  lemma SpliceEnds(bs: seq<Block>, i: nat, d: nat, mid: seq<Block>)
    requires 0 < d && i + d <= |bs| && mid != []
    ensures var cs := bs[..i] + mid + bs[i + d..];
            |cs| == |bs| - d + |mid| && cs[i] == mid[0] && PrevOf(cs, i) == PrevOf(bs, i) &&
            cs[i + |mid| - 1] == mid[|mid| - 1] && NextOf(cs, i + |mid| - 1) == NextOf(bs, i + d - 1)
    ensures |mid| == 2 ==> var cs := bs[..i] + mid + bs[i + d..];
            NextOf(cs, i) == mid[1].addr && PrevOf(cs, i + 1) == mid[0].addr
  {
  }

  lemma CarveLinked(m: Memory, bs: seq<Block>, start: nat, k: nat, n: nat)
    requires Linked(m, bs) && Tiled(bs, start) && start > 0 && k < |bs| && !bs[k].used && n <= bs[k].size
    ensures Linked(CarvedMemory(m, bs[k], NextOf(bs, k), n), Carve(bs, k, n))
  {
    hide Header, CarvedMemory, Pieces, Load, SameHeader, Tiled, PrevOf, NextOf;
    var m', mid, cs := CarvedMemory(m, bs[k], NextOf(bs, k), n), Pieces(bs[k], n), Carve(bs, k, n);
    PiecesShape(bs[k], n);
    AboveStart(bs, start, k);
    NextIsEnd(bs, start, k);
    assert Header(m, bs[k], PrevOf(bs, k), NextOf(bs, k));
    CarvedHeaders(m, bs[k], PrevOf(bs, k), NextOf(bs, k), n);
    SpliceEnds(bs, k, 1, mid);
    forall j | 0 <= j < |cs| ensures Header(m', cs[j], PrevOf(cs, j), NextOf(cs, j)) {
      if j < k || j >= k + |mid| {
        var i := if j < k then j else j - |mid| + 1;
        SpliceNeighbours(bs, k, 1, mid, i);
        CarvedOther(m, bs, start, k, n, i);
      }
    }
  }

  lemma NextIsEnd(bs: seq<Block>, start: nat, k: nat)
    requires Tiled(bs, start) && k < |bs|
    ensures NextOf(bs, k) == if k + 1 < |bs| then bs[k].End() else 0
    ensures k + 1 < |bs| ==> PrevOf(bs, k + 1) == bs[k].addr && bs[k + 1].addr == bs[k].End()
  {
  }

  lemma CarvedOther(m: Memory, bs: seq<Block>, start: nat, k: nat, n: nat, i: nat)
    requires Linked(m, bs) && Tiled(bs, start) && start > 0 && k < |bs| && !bs[k].used && n <= bs[k].size
    requires i < |bs| && i != k
    ensures var m', mid := CarvedMemory(m, bs[k], NextOf(bs, k), n), Pieces(bs[k], n);
            |mid| > 0 && Header(m', bs[i], if i == k + 1 then mid[|mid| - 1].addr else PrevOf(bs, i), NextOf(bs, i))
  {
    hide Header, CarvedMemory, Pieces, Load, SameHeader, Tiled, PrevOf, NextOf;
    var m' := CarvedMemory(m, bs[k], NextOf(bs, k), n);
    PiecesShape(bs[k], n);
    AboveStart(bs, start, k);
    NextIsEnd(bs, start, k);
    assert Header(m, bs[k], PrevOf(bs, k), NextOf(bs, k)) && Header(m, bs[i], PrevOf(bs, i), NextOf(bs, i));
    if i == k + 1 {
      CarvedSuccessor(m, bs[k], bs[i], PrevOf(bs, k), NextOf(bs, i), n);
    } else {
      CarvedElsewhere(m, bs, start, k, n, i);
      HeaderFrom(m, m', bs[i], PrevOf(bs, i), NextOf(bs, i));
    }
  }

  lemma CarvePayloads(m: Memory, bs: seq<Block>, start: nat, k: nat, n: nat)
    requires Tiled(bs, start) && k < |bs| && !bs[k].used && n <= bs[k].size && start > 0
    ensures SamePayloads(bs, m, CarvedMemory(m, bs[k], NextOf(bs, k), n))
  {
    forall b, a | b in bs && b.used && InPayload(b, a)
      ensures Load(m, a) == Load(CarvedMemory(m, bs[k], NextOf(bs, k), n), a)
    {
      hide CarvedMemory, Load, Tiled;
      LiveDisjoint(bs, start, b, bs[k]);
      if k + 1 < |bs| && b != bs[k + 1] { LiveDisjoint(bs, start, b, bs[k + 1]); }
      CarvedFrame(m, bs[k], NextOf(bs, k), n, a);
    }
  }

  // ----- The header writes of an append -----

  /** Lines 104-110 */
  function AppendedMemory(m: Memory, last: Block, n: nat): Memory
  {
    var a := last.End();
    m[a + USED := HEAP_USED_MAGIC][a + SIZE := n][a + PREV := last.addr][a + NEXT := 0][last.addr + NEXT := a]
  }

  lemma AppendedHeaders(m: Memory, last: Block, prev: nat, n: nat)
    requires Header(m, last, prev, 0)
    ensures var m' := AppendedMemory(m, last, n);
            Header(m', last, prev, last.End()) && Header(m', Block(last.End(), n, true), last.addr, 0)
  {
  }

  lemma AppendedFrame(m: Memory, last: Block, n: nat, a: nat)
    requires a < last.End() && a != last.addr + NEXT
    ensures Load(AppendedMemory(m, last, n), a) == Load(m, a)
  {
  }

  lemma AppendedOther(m: Memory, bs: seq<Block>, start: nat, n: nat, j: nat)
    requires Linked(m, bs) && Tiled(bs, start) && j + 1 < |bs|
    ensures Header(AppendedMemory(m, bs[|bs| - 1], n), bs[j], PrevOf(bs, j), NextOf(bs, j))
  {
    hide AppendedMemory, Load, Tiled;
    var last := bs[|bs| - 1];
    assert Header(m, bs[j], PrevOf(bs, j), NextOf(bs, j));
    Ordered(bs, start, j, |bs| - 1);
    AppendedFrame(m, last, n, bs[j].addr + USED);
    AppendedFrame(m, last, n, bs[j].addr + SIZE);
    AppendedFrame(m, last, n, bs[j].addr + PREV);
    AppendedFrame(m, last, n, bs[j].addr + NEXT);
  }

  lemma AppendLinked(m: Memory, bs: seq<Block>, start: nat, n: nat)
    requires Linked(m, bs) && Tiled(bs, start) && bs != []
    ensures Linked(AppendedMemory(m, bs[|bs| - 1], n), Append(bs, start, n))
  {
    hide AppendedMemory, Header, Load, Tiled;
    var k, cs := |bs| - 1, Append(bs, start, n);
    var m' := AppendedMemory(m, bs[k], n);
    assert Header(m, bs[k], PrevOf(bs, k), 0);
    AppendedHeaders(m, bs[k], PrevOf(bs, k), n);
    forall j | 0 <= j < |cs| ensures Header(m', cs[j], PrevOf(cs, j), NextOf(cs, j)) {
      if j < k { AppendedOther(m, bs, start, n, j); }
    }
  }

  lemma AppendPayloads(m: Memory, bs: seq<Block>, start: nat, n: nat)
    requires Tiled(bs, start) && bs != []
    ensures SamePayloads(bs, m, AppendedMemory(m, bs[|bs| - 1], n))
  {
    hide AppendedMemory, Load, Tiled;
    var last := bs[|bs| - 1];
    forall b, a | b in bs && b.used && InPayload(b, a) ensures Load(m, a) == Load(AppendedMemory(m, last, n), a) {
      var i :| 0 <= i < |bs| && bs[i] == b;
      if i < |bs| - 1 { Ordered(bs, start, i, |bs| - 1); }
      AppendedFrame(m, last, n, a);
    }
  }

  // ----- The header writes of a free -----

  lemma MarkedOther(m: Memory, bs: seq<Block>, start: nat, k: nat, j: nat)
    requires Linked(m, bs) && Tiled(bs, start) && k < |bs| && j < |bs|
    ensures var b := if j == k then bs[j].(used := false) else bs[j];
            Header(m[bs[k].addr + USED := 0], b, PrevOf(bs, j), NextOf(bs, j))
  {
    hide Tiled, Header, Load;
    assert Header(m, bs[j], PrevOf(bs, j), NextOf(bs, j));
    if j < k { Ordered(bs, start, j, k); }
    if k < j { Ordered(bs, start, k, j); }
    MarkedHeader(m, bs[k].addr, bs[j], PrevOf(bs, j), NextOf(bs, j));
  }

  lemma MarkedHeader(m: Memory, a: nat, b: Block, prev: nat, next: nat)
    requires Header(m, b, prev, next)
    ensures a == b.addr ==> Header(m[a + USED := 0], b.(used := false), prev, next)
    ensures a + HEADER <= b.addr || b.addr + HEADER <= a ==> Header(m[a + USED := 0], b, prev, next)
  {
  }

  lemma MarkedFree(m: Memory, bs: seq<Block>, start: nat, k: nat)
    requires Linked(m, bs) && Tiled(bs, start) && k < |bs|
    ensures Linked(m[bs[k].addr + USED := 0], bs[k := bs[k].(used := false)])
  {
    hide Header, Tiled, Load;
    var m', cs := m[bs[k].addr + USED := 0], bs[k := bs[k].(used := false)];
    forall j | 0 <= j < |cs| ensures Header(m', cs[j], PrevOf(cs, j), NextOf(cs, j)) {
      MarkedOther(m, bs, start, k, j);
    }
  }

  lemma MarkedPayloads(m: Memory, bs: seq<Block>, start: nat, k: nat)
    requires Tiled(bs, start) && k < |bs|
    ensures SamePayloads(bs, m, m[bs[k].addr + USED := 0])
  {
    hide Tiled;
    forall b, a | b in bs && b.used && InPayload(b, a) ensures Load(m, a) == Load(m[bs[k].addr + USED := 0], a) {
      if b != bs[k] { LiveDisjoint(bs, start, b, bs[k]); }
    }
  }

  /** Lines 134-138 and 148-152: b takes in the node c behind it, which `next` follows. */
  function JoinedMemory(m: Memory, b: Block, c: Block, next: nat): Memory
  {
    var m1 := m[b.addr + SIZE := b.size + (c.size + HEADER)][b.addr + NEXT := next];
    if next != 0 then m1[next + PREV := b.addr] else m1
  }

  lemma JoinedHeaders(m: Memory, b: Block, c: Block, prev: nat, next: nat)
    requires !b.used && Header(m, b, prev, c.addr) && c.addr == b.End() && (next == 0 || next == c.End())
    ensures Header(JoinedMemory(m, b, c, next), Block(b.addr, b.size + (c.size + HEADER), false), prev, next)
  {
  }

  lemma JoinedFrame(m: Memory, b: Block, c: Block, next: nat, a: nat)
    requires a != b.addr + SIZE && a != b.addr + NEXT && (next != 0 ==> a != next + PREV)
    ensures Load(JoinedMemory(m, b, c, next), a) == Load(m, a)
  {
  }

  /** The node behind the pair gets a new predecessor. */
  lemma JoinedSuccessor(m: Memory, b: Block, c: Block, d: Block, next: nat)
    requires c.addr == b.End() && d.addr == c.End() && Header(m, d, c.addr, next)
    ensures Header(JoinedMemory(m, b, c, d.addr), d, b.addr, next)
  {
  }

  lemma JoinedElsewhere(m: Memory, bs: seq<Block>, start: nat, i: nat, j: nat)
    requires Tiled(bs, start) && i + 1 < |bs| && j < |bs| && (j < i || i + 2 < j)
    ensures SameHeader(m, JoinedMemory(m, bs[i], bs[i + 1], NextOf(bs, i + 1)), bs[j])
  {
    hide JoinedMemory, Load, Tiled;
    var b, c, next := bs[i], bs[i + 1], NextOf(bs, i + 1);
    if j < i {
      Ordered(bs, start, j, i);
      if i + 2 < |bs| { Ordered(bs, start, j, i + 2); }
    } else {
      Ordered(bs, start, i, j);
      Ordered(bs, start, i + 2, j);
    }
    JoinedFrame(m, b, c, next, bs[j].addr + USED);
    JoinedFrame(m, b, c, next, bs[j].addr + SIZE);
    JoinedFrame(m, b, c, next, bs[j].addr + PREV);
    JoinedFrame(m, b, c, next, bs[j].addr + NEXT);
  }

  /** The other nodes keep their headers, but the node behind the pair gets a new predecessor. */
  lemma JoinedOther(m: Memory, bs: seq<Block>, start: nat, i: nat, j: nat)
    requires Linked(m, bs) && Tiled(bs, start) && i + 1 < |bs| && !bs[i].used
    requires j < |bs| && j != i && j != i + 1
    ensures Header(JoinedMemory(m, bs[i], bs[i + 1], NextOf(bs, i + 1)), bs[j],
                   if j == i + 2 then bs[i].addr else PrevOf(bs, j), NextOf(bs, j))
  {
    hide JoinedMemory, Load, Tiled, Header, SameHeader, PrevOf, NextOf;
    NextIsEnd(bs, start, i);
    NextIsEnd(bs, start, i + 1);
    assert Header(m, bs[j], PrevOf(bs, j), NextOf(bs, j));
    if j == i + 2 {
      JoinedSuccessor(m, bs[i], bs[i + 1], bs[j], NextOf(bs, j));
    } else {
      JoinedElsewhere(m, bs, start, i, j);
      HeaderFrom(m, JoinedMemory(m, bs[i], bs[i + 1], NextOf(bs, i + 1)), bs[j], PrevOf(bs, j), NextOf(bs, j));
    }
  }

  lemma JoinLinked(m: Memory, bs: seq<Block>, start: nat, i: nat)
    requires Linked(m, bs) && Tiled(bs, start) && i + 1 < |bs| && !bs[i].used
    ensures Linked(JoinedMemory(m, bs[i], bs[i + 1], NextOf(bs, i + 1)), Join(bs, i))
  {
    hide Header, JoinedMemory, Load, Tiled, PrevOf, NextOf;
    var m', cs := JoinedMemory(m, bs[i], bs[i + 1], NextOf(bs, i + 1)), Join(bs, i);
    var mid := [Block(bs[i].addr, bs[i].size + (bs[i + 1].size + HEADER), false)];
    NextIsEnd(bs, start, i);
    NextIsEnd(bs, start, i + 1);
    assert Header(m, bs[i], PrevOf(bs, i), NextOf(bs, i));
    JoinedHeaders(m, bs[i], bs[i + 1], PrevOf(bs, i), NextOf(bs, i + 1));
    SpliceEnds(bs, i, 2, mid);
    forall j | 0 <= j < |cs| ensures Header(m', cs[j], PrevOf(cs, j), NextOf(cs, j)) {
      if j != i {
        var j' := if j < i then j else j + 1;
        SpliceNeighbours(bs, i, 2, mid, j');
        JoinedOther(m, bs, start, i, j');
      }
    }
  }

  lemma JoinPayloads(m: Memory, bs: seq<Block>, start: nat, i: nat)
    requires Linked(m, bs) && Tiled(bs, start) && i + 1 < |bs| && !bs[i].used && !bs[i + 1].used
    ensures SamePayloads(bs, m, JoinedMemory(m, bs[i], bs[i + 1], NextOf(bs, i + 1)))
  {
    hide Linked, Header, JoinedMemory, Load, Tiled;
    var next := NextOf(bs, i + 1);
    forall b, a | b in bs && b.used && InPayload(b, a)
      ensures Load(m, a) == Load(JoinedMemory(m, bs[i], bs[i + 1], next), a)
    {
      LiveDisjoint(bs, start, b, bs[i]);
      if i + 2 < |bs| && b != bs[i + 2] { LiveDisjoint(bs, start, b, bs[i + 2]); }
      JoinedFrame(m, bs[i], bs[i + 1], next, a);
    }
  }

  /** What a walk over the list learns at node i. */
  lemma AtNode(m: Memory, bs: seq<Block>, start: nat, i: nat)
    requires Linked(m, bs) && Tiled(bs, start) && start > 0 && i < |bs|
    ensures Load(m, bs[i].addr + USED) == 0 <==> !bs[i].used
    ensures Load(m, bs[i].addr + SIZE) == bs[i].size
    ensures Load(m, bs[i].addr + PREV) == PrevOf(bs, i) && (PrevOf(bs, i) == 0 <==> i == 0)
    ensures Load(m, bs[i].addr + NEXT) == NextOf(bs, i) && (NextOf(bs, i) == 0 <==> i == |bs| - 1)
  {
    assert Header(m, bs[i], PrevOf(bs, i), NextOf(bs, i));
    if i > 0 { AboveStart(bs, start, i - 1); }
    if i + 1 < |bs| { AboveStart(bs, start, i + 1); }
  }

  lemma FirstNode(bs: seq<Block>, start: nat)
    requires Tiled(bs, start) && bs != []
    ensures bs[0].addr == start
  {
  }

  class Allocator {
    const start: nat
    var first: nat
    var mem: Memory
    ghost var blocks: seq<Block>

    ghost predicate Valid()
      reads this
    {
      start >= HEADER && start % 4 == 0 && WellFormed(blocks, start) && Linked(mem, blocks) &&
      first == if blocks == [] then 0 else start
    }

    /** `_heap_create` */
    constructor (base: nat, memory: Memory)
      requires base >= HEADER && base % 4 == 0
      ensures Valid() && start == base && blocks == [] && mem == memory
    {
      start := base;
      first := 0;
      mem := memory;
      blocks := [];
    }

    method Store(a: nat, v: nat)
      modifies `mem
      ensures mem == old(mem)[a := v]
    {
      mem := mem[a := v];
    }

    /** The search loop, lines 61-100 without the split: the first free node that is large enough, or
        the last node. */
    method Search(size: nat) returns (node: nat, found: bool)
      requires Valid() && blocks != []
      ensures found <==> FirstFit(blocks, size, 0) < |blocks|
      ensures node == blocks[if found then FirstFit(blocks, size, 0) else |blocks| - 1].addr
    {
      hide Linked, Header, Tiled, Coalesced, Load, FirstFit;
      ghost var bs, m := blocks, mem;
      FirstNode(bs, start);
      node := first;
      ghost var k := 0;
      while true
        invariant k < |bs| && node == bs[k].addr
        invariant FirstFit(bs, size, 0) == FirstFit(bs, size, k)
        decreases |bs| - k
      {
        AtNode(m, bs, start, k);
        FitStep(bs, size, k);
        if Load(mem, node + USED) == 0 && size <= Load(mem, node + SIZE) { return node, true; }
        if Load(mem, node + NEXT) == 0 { return node, false; }
        node, k := Load(mem, node + NEXT), k + 1;
      }
    }

    /** The header of the remainder, lines 75-84 */
    method WriteRemainder(node: nat, newNode: nat, size: nat, next: nat)
      modifies `mem
      ensures mem == RemainderMemory(old(mem), node, newNode, size, next)
    {
      Store(newNode + USED, 0);
      Store(newNode + SIZE, size);
      Store(newNode + NEXT, next);
      if next != 0 { Store(next + PREV, newNode); }
      Store(newNode + PREV, node);
      Store(node + NEXT, newNode);
    }

    /** The split of lines 66-90 at node k. */
    method Split(node: nat, size: nat, ghost k: nat)
      requires Linked(mem, blocks) && Tiled(blocks, start) && start > 0
      requires k < |blocks| && node == blocks[k].addr && size <= blocks[k].size
      modifies `mem
      ensures mem == CarvedMemory(old(mem), blocks[k], NextOf(blocks, k), size)
    {
      hide Linked, Header, Tiled, Load, RemainderMemory;
      AtNode(mem, blocks, start, k);
      var newSize := Load(mem, node + SIZE) - size;
      var finalSize := size;
      if newSize >= 4 * HEADER {
        WriteRemainder(node, node + HEADER + size, newSize - HEADER, Load(mem, node + NEXT));
      } else {
        finalSize := size + newSize;
      }
      Store(node + SIZE, finalSize);
      Store(node + USED, HEAP_USED_MAGIC);
    }

    /** Lines 104-111 behind the last node. */
    method AppendNode(node: nat, size: nat) returns (newNode: nat)
      requires Linked(mem, blocks) && Tiled(blocks, start) && start > 0
      requires blocks != [] && node == blocks[|blocks| - 1].addr
      modifies `mem
      ensures mem == AppendedMemory(old(mem), blocks[|blocks| - 1], size) && newNode == blocks[|blocks| - 1].End()
    {
      hide Linked, Header, Tiled, Load;
      AtNode(mem, blocks, start, |blocks| - 1);
      newNode := node + HEADER + Load(mem, node + SIZE);
      Store(newNode + USED, HEAP_USED_MAGIC);
      Store(newNode + SIZE, size);
      Store(newNode + PREV, node);
      Store(newNode + NEXT, 0);
      Store(node + NEXT, newNode);
    }

    /** The first allocation, lines 44-53 */
    method FirstAlloc(size: nat)
      requires Valid() && blocks == [] && size % HEADER == 0
      modifies this
      ensures Valid() && blocks == [Block(start, size, true)]
    {
      var node := start;
      Store(node + USED, HEAP_USED_MAGIC);
      Store(node + SIZE, size);
      Store(node + PREV, 0);
      Store(node + NEXT, 0);
      first := node;
      blocks := [Block(start, size, true)];
    }

    /** `_heap_alloc`, the body of `malloc` */
    method Malloc(size: nat) returns (p: nat)
      requires Valid() && size < 0x1_0000_0000
      modifies this
      ensures Valid()
      ensures blocks == Allocated(old(blocks), start, Align(size))
      ensures p == Served(old(blocks), start, Align(size)).Payload()
      ensures SamePayloads(old(blocks), old(mem), mem)
    {
      hide WellFormed, Linked, CarvedMemory, AppendedMemory, SamePayloads;
      ghost var bs, m := blocks, mem;
      var n := Align(size);
      if first == 0 {
        FirstAlloc(n);
        NoPayloads(m, mem);
        return start + HEADER;
      }
      WellFormedParts(bs, start);
      AllocKeepsWellFormed(bs, start, n);
      var node, found := Search(n);
      ghost var k := FirstFit(bs, n, 0);
      if found {
        CarveLinked(m, bs, start, k, n);
        CarvePayloads(m, bs, start, k, n);
        Split(node, n, k);
        p := node + HEADER;
      } else {
        AppendLinked(m, bs, start, n);
        AppendPayloads(m, bs, start, n);
        var newNode := AppendNode(node, n);
        p := newNode + HEADER;
      }
      blocks := Allocated(bs, start, n);
      FirstNodeStays(bs, start, n);
    }

    /** Makes the node the payload address p belongs to free. */
    method MarkFree(p: nat, ghost k: nat)
      requires Linked(mem, blocks) && Tiled(blocks, start) && LiveAt(blocks, p, k)
      modifies this`mem, this`blocks
      ensures Linked(mem, blocks) && blocks == old(blocks)[k := old(blocks)[k].(used := false)]
      ensures Tiled(blocks, start) && SamePayloads(old(blocks), old(mem), mem)
    {
      hide Linked, Header, Tiled, Load, SamePayloads;
      MarkedTiles(blocks, start, k);
      MarkedFree(mem, blocks, start, k);
      MarkedPayloads(mem, blocks, start, k);
      Store(p - HEADER + USED, 0);
      blocks := blocks[k := blocks[k].(used := false)];
    }

    /** Lines 134-138 and 148-152: node takes in the node behind it. */
    method Absorb(node: nat, ghost i: nat)
      requires Linked(mem, blocks) && Tiled(blocks, start) && start > 0 && i + 1 < |blocks| && node == blocks[i].addr
      requires !blocks[i].used && !blocks[i + 1].used
      modifies this`mem, this`blocks
      ensures Linked(mem, blocks) && Tiled(blocks, start) && blocks == Join(old(blocks), i)
      ensures SamePayloads(old(blocks), old(mem), mem)
    {
      hide Linked, Header, Tiled, Load, SamePayloads;
      AtNode(mem, blocks, start, i);
      AtNode(mem, blocks, start, i + 1);
      JoinLinked(mem, blocks, start, i);
      JoinPayloads(mem, blocks, start, i);
      JoinTiled(blocks, start, i);
      var next := Load(mem, node + NEXT);
      var behind := Load(mem, next + NEXT);
      Store(node + SIZE, Load(mem, node + SIZE) + (Load(mem, next + SIZE) + HEADER));
      Store(node + NEXT, behind);
      if behind != 0 { Store(behind + PREV, node); }
      blocks := Join(blocks, i);
    }

    /** The merges of lines 130-153 around the free node k. */
    method Merge(node: nat, ghost k: nat)
      requires Linked(mem, blocks) && Tiled(blocks, start) && start > 0
      requires k < |blocks| && node == blocks[k].addr && !blocks[k].used
      modifies this`mem, this`blocks
      ensures Linked(mem, blocks) && Tiled(blocks, start)
      ensures blocks == JoinNext(JoinPrev(old(blocks), k), JoinedIndex(old(blocks), k))
      ensures SamePayloads(old(blocks), old(mem), mem)
    {
      hide Linked, Header, Tiled, Load, SamePayloads;
      ghost var bs, m := blocks, mem;
      SameMemory(bs, m);
      AtNode(mem, blocks, start, k);
      var at, prev := node, Load(mem, node + PREV);
      if k > 0 { AtNode(mem, blocks, start, k - 1); }
      if prev != 0 && Load(mem, prev + USED) == 0 {
        Absorb(prev, k - 1);
        at := prev;
      }
      ghost var cs, m1, j := blocks, mem, JoinedIndex(bs, k);
      JoinPrevLive(bs, k);
      AtNode(mem, blocks, start, j);
      var next := Load(mem, at + NEXT);
      if j + 1 < |blocks| { AtNode(mem, blocks, start, j + 1); }
      if next != 0 && Load(mem, next + USED) == 0 {
        Absorb(at, j);
        PayloadsChain(bs, cs, m, m1, mem);
      }
    }

    /** `_heap_free`. Its guard trusts the word in front of p: the caller has to pass an address that
        is a live payload, below the heap, or not preceded by the magic word. */
    method Free(p: nat)
      requires Valid()
      requires p >= start && Load(mem, p - HEADER) == HEAP_USED_MAGIC ==> Live(blocks, p)
      modifies this
      ensures Valid()
      ensures blocks == Freed(old(blocks), p)
      ensures forall b, a :: b in old(blocks) && b.used && b.Payload() != p && InPayload(b, a) ==>
                Load(mem, a) == Load(old(mem), a)
    {
      hide Linked, Header, Tiled, Coalesced, Load;
      if Live(blocks, p) { LiveSeen(mem, blocks, start, p); }
      if p < start || Load(mem, p - HEADER + USED) != HEAP_USED_MAGIC { return; }
      FreeLiveNode(p);
    }

    /** `_heap_free` of a live payload. */
    method FreeLiveNode(p: nat)
      requires Valid() && Live(blocks, p)
      modifies this
      ensures Valid()
      ensures blocks == Freed(old(blocks), p)
      ensures forall b, a :: b in old(blocks) && b.used && b.Payload() != p && InPayload(b, a) ==>
                Load(mem, a) == Load(old(mem), a)
    {
      hide Linked, Header, Tiled, Coalesced, Load, SamePayloads;
      ghost var bs, m := blocks, mem;
      ghost var k: nat :| LiveAt(bs, p, k);
      FreedOfLive(bs, start, p, k);
      FreeKeepsWellFormed(bs, start, k);
      MarkFree(p, k);
      ghost var cs, m1 := blocks, mem;
      Merge(p - HEADER, k);
      OthersKept(bs, start, k, cs, m, m1, mem);
      FreedFirst(bs, start, k);
    }

    /** `zalloc`: clears the aligned size, not a larger payload the first fit may have given. */
    method Zalloc(size: nat) returns (p: nat)
      requires Valid() && size < 0x1_0000_0000
      modifies this
      ensures Valid()
      ensures blocks == Allocated(old(blocks), start, Align(size))
      ensures p == Served(old(blocks), start, Align(size)).Payload()
      ensures SamePayloads(old(blocks), old(mem), mem)
      ensures forall i :: 0 <= i < Align(size) / 4 ==> Load(mem, p + 4 * i) == 0
    {
      hide WellFormed, Linked, SamePayloads;
      ghost var bs, m := blocks, mem;
      var n := Align(size);
      p := Malloc(size);
      ServedInList(bs, start, n);
      ghost var m1 := mem;
      ZeroFill(p, n, Served(bs, start, n));
      OtherPayloads(bs, start, n, m, m1, mem);
    }

    /** `memset(buf, 0, n)` on the payload of a live node. */
    method ZeroFill(p: nat, n: nat, ghost b: Block)
      requires Valid() && b in blocks && b.used && p == b.Payload() && n <= b.size && n % HEADER == 0
      modifies `mem
      ensures Valid() && OnlyPayload(b, old(mem), mem)
      ensures forall i :: 0 <= i < n / 4 ==> Load(mem, p + 4 * i) == 0
    {
      hide WellFormed, Linked;
      for i := 0 to n / 4
        invariant Linked(mem, blocks) && OnlyPayload(b, old(mem), mem)
        invariant forall j :: 0 <= j < i ==> Load(mem, p + 4 * j) == 0
      {
        PayloadWrite(mem, blocks, start, b, p + 4 * i, 0);
        Store(p + 4 * i, 0);
      }
    }

    /** A client writes an aligned word of its live payload. */
    method ClientWrite(a: nat, v: nat, ghost b: Block)
      requires Valid() && b in blocks && b.used && InPayload(b, a) && a % 4 == 0
      modifies `mem
      ensures Valid() && mem == old(mem)[a := v]
    {
      hide Linked, WellFormed, Load;
      PayloadWrite(mem, blocks, start, b, a, v);
      Store(a, v);
    }

    /** The counting of `heap_monitor`, which needs a non-empty heap. */
    method Monitor() returns (total: nat, used: nat, nodesTotal: nat, nodesUsed: nat)
      requires Valid() && blocks != []
      ensures start + total == ExtentEnd(blocks, start)
      ensures used == UsedBytes(blocks) && nodesTotal == |blocks| && nodesUsed == UsedNodes(blocks)
    {
      hide Linked, Header, Tiled, Coalesced, Load;
      ghost var bs, m := blocks, mem;
      FirstNode(bs, start);
      var node, count := first, 0;
      ghost var k := 0;
      total, used, nodesUsed := 0, 0, 0;
      while true
        invariant k < |bs| && node == bs[k].addr && count == k
        invariant start + total + used == bs[k].addr
        invariant used == UsedBytes(bs[..k]) && nodesUsed == UsedNodes(bs[..k])
        decreases |bs| - k
      {
        AtNode(m, bs, start, k);
        NextIsEnd(bs, start, k);
        CountStep(bs, k);
        if Load(mem, node + USED) != 0 {
          nodesUsed := nodesUsed + 1;
          used := used + Load(mem, node + SIZE) + HEADER;
        } else {
          total := total + Load(mem, node + SIZE) + HEADER;
        }
        count := count + 1;
        if Load(mem, node + NEXT) == 0 { break; }
        node, k := Load(mem, node + NEXT), k + 1;
      }
      assert bs[..|bs|] == bs;
      total := total + used;
      nodesTotal := count;
    }
  }

  /** Bytes of the used nodes with their headers. */
  function UsedBytes(bs: seq<Block>): nat
  {
    if bs == [] then 0
    else UsedBytes(bs[..|bs| - 1]) + if bs[|bs| - 1].used then bs[|bs| - 1].size + HEADER else 0
  }

  function UsedNodes(bs: seq<Block>): nat
  {
    if bs == [] then 0 else UsedNodes(bs[..|bs| - 1]) + if bs[|bs| - 1].used then 1 else 0
  }

  function FreeBytes(bs: seq<Block>): nat
  {
    if bs == [] then 0
    else FreeBytes(bs[..|bs| - 1]) + if bs[|bs| - 1].used then 0 else bs[|bs| - 1].size + HEADER
  }

  /** The used and the free bytes make up the heap, and there are as many used nodes as live ones. */
  lemma {:induction false} BytesAddUp(bs: seq<Block>, start: nat)
    requires Tiled(bs, start)
    ensures start + UsedBytes(bs) + FreeBytes(bs) == ExtentEnd(bs, start)
    ensures UsedNodes(bs) == |LiveBlocks(bs)|
    decreases bs
  {
    hide Tiled, LiveBlocks, ExtentEnd;
    if bs == [] {
      NothingLive(start);
    } else {
      var n := |bs| - 1;
      TiledButLast(bs, start);
      BytesAddUp(bs[..n], start);
      LiveButLast(bs, start);
    }
  }

  lemma NothingLive(start: nat)
    ensures LiveBlocks([]) == {} && ExtentEnd([], start) == start
  {
  }

  lemma TiledButLast(bs: seq<Block>, start: nat)
    requires Tiled(bs, start) && bs != []
    ensures var cs, b := bs[..|bs| - 1], bs[|bs| - 1];
            Tiled(cs, start) && b.addr == ExtentEnd(cs, start) && ExtentEnd(bs, start) == b.End()
  {
  }

  lemma LiveButLast(bs: seq<Block>, start: nat)
    requires Tiled(bs, start) && bs != []
    ensures var cs, b := bs[..|bs| - 1], bs[|bs| - 1];
            |LiveBlocks(bs)| == |LiveBlocks(cs)| + if b.used then 1 else 0
  {
    hide Tiled;
    var cs, b := bs[..|bs| - 1], bs[|bs| - 1];
    assert bs == cs + [b];
    LiveConcat(cs, [b]);
    NotElsewhere(bs, start, |bs| - 1);
    assert b !in LiveBlocks(cs);
    assert LiveBlocks([b]) == if b.used then {b} else {};
  }

  lemma CountStep(bs: seq<Block>, k: nat)
    requires k < |bs|
    ensures UsedBytes(bs[..k + 1]) == UsedBytes(bs[..k]) + if bs[k].used then bs[k].size + HEADER else 0
    ensures UsedNodes(bs[..k + 1]) == UsedNodes(bs[..k]) + if bs[k].used then 1 else 0
  {
    assert bs[..k + 1][..k] == bs[..k];
  }

  /** The memories differ at most inside the payload of b. */
  ghost predicate OnlyPayload(b: Block, m: Memory, m': Memory)
  {
    forall a :: !InPayload(b, a) ==> Load(m', a) == Load(m, a)
  }

  lemma ServedInList(bs: seq<Block>, start: nat, n: nat)
    ensures var b := Served(bs, start, n); b in Allocated(bs, start, n) && b.used && n <= b.size
  {
  }

  lemma HeaderUntouched(m: Memory, c: Block, prev: nat, next: nat, a: nat, v: nat)
    requires Header(m, c, prev, next) && (a < c.addr || c.addr + HEADER <= a)
    ensures Header(m[a := v], c, prev, next)
  {
  }

  /** A write into a live payload does not touch the list. */
  lemma PayloadWrite(m: Memory, bs: seq<Block>, start: nat, b: Block, a: nat, v: nat)
    requires Linked(m, bs) && WellFormed(bs, start) && b in bs && b.used && InPayload(b, a)
    ensures Linked(m[a := v], bs)
  {
    hide Header, Tiled, Coalesced;
    forall i | 0 <= i < |bs| ensures Header(m[a := v], bs[i], PrevOf(bs, i), NextOf(bs, i)) {
      if b != bs[i] { LiveDisjoint(bs, start, b, bs[i]); }
      HeaderUntouched(m, bs[i], PrevOf(bs, i), NextOf(bs, i), a, v);
    }
  }

  /** Filling the payload just served leaves the payloads that were live before alone. */
  lemma OtherPayloads(bs: seq<Block>, start: nat, n: nat, m: Memory, m1: Memory, m2: Memory)
    requires WellFormed(bs, start) && n % HEADER == 0
    requires SamePayloads(bs, m, m1) && OnlyPayload(Served(bs, start, n), m1, m2)
    ensures SamePayloads(bs, m, m2)
  {
    hide WellFormed, Load, Allocated, Served, LiveBlocks;
    var served, cs := Served(bs, start, n), Allocated(bs, start, n);
    AllocLive(bs, start, n);
    AllocKeepsWellFormed(bs, start, n);
    forall b, a | b in bs && b.used && InPayload(b, a) ensures Load(m, a) == Load(m2, a) {
      StillLive(bs, cs, served, b);
      WellFormedParts(cs, start);
      LiveDisjoint(cs, start, b, served);
    }
  }

  lemma StillLive(bs: seq<Block>, cs: seq<Block>, served: Block, b: Block)
    requires LiveBlocks(cs) == LiveBlocks(bs) + {served} && served !in LiveBlocks(bs)
    requires b in bs && b.used
    ensures b in cs && served in cs && b != served
  {
    assert b in LiveBlocks(cs) && served in LiveBlocks(cs);
  }

  lemma SameMemory(bs: seq<Block>, m: Memory)
    ensures SamePayloads(bs, m, m)
  {
  }

  /** A merge with the predecessor keeps the free node and all live ones. */
  lemma JoinPrevLive(bs: seq<Block>, k: nat)
    requires k < |bs| && !bs[k].used
    ensures var cs, j := JoinPrev(bs, k), JoinedIndex(bs, k); j < |cs| && !cs[j].used
    ensures forall b :: b in bs && b.used ==> b in JoinPrev(bs, k)
  {
    var cs := JoinPrev(bs, k);
    forall b | b in bs && b.used ensures b in cs {
      var i :| 0 <= i < |bs| && bs[i] == b;
      if i < k { assert cs[i] == b; } else { assert cs[i - (|bs| - |cs|)] == b; }
    }
  }

  lemma PayloadsChain(bs: seq<Block>, cs: seq<Block>, m: Memory, m1: Memory, m2: Memory)
    requires SamePayloads(bs, m, m1) && SamePayloads(cs, m1, m2)
    requires forall b :: b in bs && b.used ==> b in cs
    ensures SamePayloads(bs, m, m2)
  {
  }

  lemma OthersKept(bs: seq<Block>, start: nat, k: nat, cs: seq<Block>, m: Memory, m1: Memory, m2: Memory)
    requires Tiled(bs, start) && k < |bs| && cs == bs[k := bs[k].(used := false)]
    requires SamePayloads(bs, m, m1) && SamePayloads(cs, m1, m2)
    ensures forall b, a :: b in bs && b.used && b.Payload() != bs[k].Payload() && InPayload(b, a) ==>
              Load(m2, a) == Load(m, a)
  {
    hide Load, Tiled;
    forall b | b in bs && b != bs[k] ensures b in cs {
      var i :| 0 <= i < |bs| && bs[i] == b;
      assert cs[i] == b;
    }
  }

  lemma FreedFirst(bs: seq<Block>, start: nat, k: nat)
    requires Tiled(bs, start) && k < |bs| && Tiled(FreedAt(bs, k), start)
    ensures FreedAt(bs, k) != []
  {
  }

  lemma UsedWord(m: Memory, bs: seq<Block>, k: nat)
    requires Linked(m, bs) && k < |bs| && bs[k].used
    ensures Load(m, bs[k].addr) == HEAP_USED_MAGIC
  {
    assert Header(m, bs[k], PrevOf(bs, k), NextOf(bs, k));
  }

  /** The guard of `_heap_free` lets every live payload pass. */
  lemma LiveSeen(m: Memory, bs: seq<Block>, start: nat, p: nat)
    requires Linked(m, bs) && Tiled(bs, start) && start >= HEADER && Live(bs, p)
    ensures p >= start && Load(m, p - HEADER + USED) == HEAP_USED_MAGIC
  {
    hide Linked, Tiled, Load;
    var k: nat :| LiveAt(bs, p, k);
    AboveStart(bs, start, k);
    UsedWord(m, bs, k);
  }

  lemma NoPayloads(m: Memory, m': Memory)
    ensures SamePayloads([], m, m')
  {
  }

  lemma WellFormedParts(bs: seq<Block>, start: nat)
    requires WellFormed(bs, start)
    ensures Tiled(bs, start) && Coalesced(bs)
  {
  }

  lemma FirstNodeStays(bs: seq<Block>, start: nat, n: nat)
    requires WellFormed(Allocated(bs, start, n), start)
    ensures Allocated(bs, start, n) != [] && Allocated(bs, start, n)[0].addr == start
  {
  }

  lemma FitStep(bs: seq<Block>, n: nat, k: nat)
    requires k < |bs|
    ensures FirstFit(bs, n, k) == if !bs[k].used && n <= bs[k].size then k else FirstFit(bs, n, k + 1)
    ensures FirstFit(bs, n, |bs|) == |bs|
  {
  }
}
