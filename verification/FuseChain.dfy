/** The chain of bootrom patch groups and its three readers (bdk/soc/fuse.c).

    Fuse words are read downwards from the last one of the array. A group's word 0 gives the size of
    the next group in its bits 25-31; size zero ends the chain. */
module FuseChain {
  import opened Bits
  import opened FuseEcc

  const FUSE_ARRAY_WORDS_NUM := 192
  const BUFFER_WORDS := 80
  const RCM_PATCH_ADDRESS := 0x769A

  /** The fuse words in the order they are read: fuse address 191 - k holds `fuses[k]`. */
  type Fuses = f: seq<u32> | |f| == FUSE_ARRAY_WORDS_NUM witness seq(FUSE_ARRAY_WORDS_NUM, i => 0)

  datatype Patch = Patch(addr: nat, data: nat)

  /** How a reader ended and what it produced. */
  datatype Report<T> = Report(status: nat, out: seq<T>)

  /** `fuse_read` */
  function FuseRead(fuses: Fuses, addr: nat): u32
    requires addr < FUSE_ARRAY_WORDS_NUM
  {
    fuses[FUSE_ARRAY_WORDS_NUM - 1 - addr]
  }

  /** The group of `count` words that starts after `total` words. */
  function GroupAt(fuses: Fuses, count: nat, total: nat): (g: seq<u32>)
    requires total + count <= FUSE_ARRAY_WORDS_NUM
    ensures |g| == count
  {
    fuses[total..total + count]
  }

  /** Bits 16-19 */
  function PatchCount(word0: nat): (n: nat)
    ensures n < 16
  {
    word0 / 0x1_0000 % 16
  }

  /** Bits 25-31 */
  function NextSize(word0: u32): (n: nat)
    ensures n < 128
  {
    word0 / 0x200_0000
  }

  function Decode(word: u32): Patch { Patch(word / 0x1_0000 * 2, word % 0x1_0000) }

  /** A patch is a word: the upper half is half its even address, the lower half its data. */
  predicate IsPatch(p: Patch, word: u32)
  {
    p.addr % 2 == 0 && p.data < 0x1_0000 && p.addr / 2 * 0x1_0000 + p.data == word
  }

  /** Each patch encodes its word, and no other patch does. */
  lemma DecodeIsPatch(word: u32, p: Patch)
    ensures IsPatch(p, word) <==> p == Decode(word)
  {
    if IsPatch(p, word) {
      Halves(p.addr / 2, p.data, word);
    }
  }

  lemma Halves(h: nat, l: nat, word: nat)
    requires l < 0x1_0000 && h * 0x1_0000 + l == word
    ensures word / 0x1_0000 == h && word % 0x1_0000 == l
  {
  }

  function DecodeAll(words: seq<u32>): (ps: seq<Patch>)
    ensures |ps| == |words|
    ensures forall i :: 0 <= i < |ps| ==> ps[i] == Decode(words[i])
  {
    if words == [] then [] else DecodeAll(words[..|words| - 1]) + [Decode(words[|words| - 1])]
  }

  /** A group read into the buffer and corrected there; `word0` is the raw first word. */
  datatype Loaded = Loaded(ok: bool, word0: u32, buf: seq<u32>)

  function Load(fuses: Fuses, buf: seq<u32>, count: nat, total: nat): (r: Loaded)
    requires |buf| == BUFFER_WORDS && 0 < count && total + count < BUFFER_WORDS
    ensures |r.buf| == BUFFER_WORDS
  {
    var group := GroupAt(fuses, count, total);
    Loaded(Correct(group).status < 2, group[0], Correct(group).words + buf[count..])
  }

  /** The two readers of the chain: patched words go to one, instructions to the other. */
  datatype Reader = Ipatch | Thunk

  /** What a reader takes from a corrected group. */
  function Take(reader: Reader, buf: seq<u32>, count: nat): (ws: seq<u32>)
    requires |buf| == BUFFER_WORDS && 0 < count < BUFFER_WORDS
  {
    var n := PatchCount(buf[0]);
    match reader
    case Ipatch => buf[1..1 + n]
    case Thunk => if n < count then buf[1 + n..count] else []
  }

  /** One turn of a reader's loop: what it took, the status so far, and the next group's size, which
      is zero when the walk ends here. */
  datatype Step = Step(status: nat, out: seq<u32>, next: nat)

  /** Where the walk goes after a group, lines 388-394 and 470-479. */
  function Onwards(word0: u32, out: seq<u32>): Step
  {
    if NextSize(word0) == 0 then Step(0, out, 0)
    else if CorrectField(word0).status >= 2 then Step(3, out, 0)
    else Step(0, out, NextSize(CorrectField(word0).word))
  }

  /** The code's status values are 0, 1 and 3. This one stands for the wild copy of line 464, whose
      length wraps around when the patches of a group do not fit in it. */
  const OVERRUN := 4

  function ReaderStep(reader: Reader, g: Loaded, count: nat): Step
    requires |g.buf| == BUFFER_WORDS && 0 < count < BUFFER_WORDS
  {
    if !g.ok then Step(1, [], 0)
    else if reader == Thunk && PatchCount(g.buf[0]) >= count then Step(OVERRUN, [], 0)
    else Onwards(g.word0, Take(reader, g.buf, count))
  }

  /** A reader's report from one group on. `sofar` is the report of the groups before and `buf` the
      word buffer they left. */
  function Walk(reader: Reader, fuses: Fuses, buf: seq<u32>, count: nat, total: nat, sofar: Report<u32>): Report<u32>
    requires |buf| == BUFFER_WORDS && total < BUFFER_WORDS
    decreases BUFFER_WORDS - total
  {
    if count == 0 || total + count >= BUFFER_WORDS then sofar
    else
      var g := Load(fuses, buf, count, total);
      var step := ReaderStep(reader, g, count);
      var report := Report(step.status, sofar.out + step.out);
      Walk(reader, fuses, g.buf[0 := g.word0], step.next, total + count, report)
  }

  lemma WalkEnds(reader: Reader, fuses: Fuses, buf: seq<u32>, count: nat, total: nat, sofar: Report<u32>)
    requires |buf| == BUFFER_WORDS && total < BUFFER_WORDS && (count == 0 || total + count >= BUFFER_WORDS)
    ensures Walk(reader, fuses, buf, count, total, sofar) == sofar
  {
  }

  lemma WalkStep(reader: Reader, fuses: Fuses, buf: seq<u32>, count: nat, total: nat, sofar: Report<u32>,
                 step: Step, buf': seq<u32>)
    requires |buf| == BUFFER_WORDS && 0 < count && total + count < BUFFER_WORDS
    requires var g := Load(fuses, buf, count, total);
             step == ReaderStep(reader, g, count) && buf' == g.buf[0 := g.word0]
    ensures Walk(reader, fuses, buf, count, total, sofar)
         == Walk(reader, fuses, buf', step.next, total + count, Report(step.status, sofar.out + step.out))
  {
    hide Load, ReaderStep;
  }

  /** Copies the next group into the buffer, lines 358-368 without the T210B01 address jump. */
  method LoadGroup(fuses: Fuses, words: array<u32>, addr: nat, count: nat)
    requires words.Length == BUFFER_WORDS && 0 < count < BUFFER_WORDS
    requires count <= addr + 1 <= FUSE_ARRAY_WORDS_NUM
    modifies words
    ensures words[..count] == GroupAt(fuses, count, FUSE_ARRAY_WORDS_NUM - 1 - addr)
    ensures words[count..] == old(words[count..])
  {
    for i := 0 to count
      invariant words[..i] == GroupAt(fuses, i, FUSE_ARRAY_WORDS_NUM - 1 - addr)
      invariant words[count..] == old(words[count..])
    {
      words[i] := FuseRead(fuses, addr - i);
    }
  }

  /** Reads and corrects a group, lines 358-372 and 428-445 */
  method LoadCorrected(fuses: Fuses, words: array<u32>, count: nat, total: nat) returns (ok: bool, word0: u32)
    requires words.Length == BUFFER_WORDS && 0 < count && total + count < BUFFER_WORDS
    modifies words
    ensures Loaded(ok, word0, words[..]) == Load(fuses, old(words[..]), count, total)
  {
    LoadGroup(fuses, words, FUSE_ARRAY_WORDS_NUM - 1 - total, count);
    assert words[..count][0] == GroupAt(fuses, count, total)[0];
    word0 := words[0];
    var status := PatchHashMulti(words, count);
    ok := status < 2;
    assert words[..] == words[..count] + words[count..];
  }

  /** The emitting loop, lines 374-385 */
  method EmitPatches(words: array<u32>, count: nat) returns (out: seq<Patch>)
    requires count < words.Length
    ensures out == DecodeAll(words[..][1..1 + count])
  {
    out := [];
    for i := 0 to count
      invariant out == DecodeAll(words[1..1 + i])
    {
      var word := words[i + 1];
      assert words[1..2 + i][..i] == words[1..1 + i];
      out := out + [Patch(word / 0x1_0000 * 2, word % 0x1_0000)];
    }
    assert words[..][1..1 + count] == words[1..1 + count];
  }

  method Advance(word0: u32, ghost out: seq<u32>) returns (status: nat, next: nat)
    ensures Step(status, out, next) == Onwards(word0, out)
  {
    if NextSize(word0) == 0 { return 0, 0; }
    var field := PatchHashOne(word0);
    if field.status >= 2 { return 3, 0; }
    return 0, NextSize(field.word);
  }

  /** One turn of the loop of `fuse_read_ipatch` */
  method IpatchGroup(fuses: Fuses, words: array<u32>, count: nat, total: nat)
    returns (status: nat, out: seq<Patch>, next: nat, ghost taken: seq<u32>)
    requires words.Length == BUFFER_WORDS && 0 < count && total + count < BUFFER_WORDS
    modifies words
    ensures var g := Load(fuses, old(words[..]), count, total);
            Step(status, taken, next) == ReaderStep(Ipatch, g, count) && words[..] == g.buf[0 := g.word0]
    ensures out == DecodeAll(taken)
  {
    var ok, word0 := LoadCorrected(fuses, words, count, total);
    out, taken := [], [];
    if ok {
      out := EmitPatches(words, PatchCount(words[0]));
      taken := Take(Ipatch, words[..], count);
    }
    words[0] := word0;
    if !ok { return 1, [], 0, []; }
    status, next := Advance(word0, taken);
  }

  /** `fuse_read_ipatch`; `firstSize` is the FUSE_FIRST_BOOTROM_PATCH_SIZE register and `words` its
      stack buffer, whose initial contents are arbitrary. A return inside the loop shows as a next
      size of zero. */
  method ReadIpatch(fuses: Fuses, firstSize: u32, words: array<u32>) returns (status: nat, out: seq<Patch>)
    requires words.Length == BUFFER_WORDS
    modifies words
    ensures var r := Walk(Ipatch, fuses, old(words[..]), firstSize % 0x80, 0, Report(0, []));
            status == r.status && out == DecodeAll(r.out) &&
            |out| == |r.out| && forall i :: 0 <= i < |out| ==> IsPatch(out[i], r.out[i])
  {
    hide Walk, Load, ReaderStep, Assembled, DecodeAll, Decode, IsPatch;
    var count: nat, total := firstSize % 0x80, 0;
    status, out := 0, [];
    ghost var taken: seq<u32> := [];
    assert DecodeAll(taken) == [];
    while count != 0
      invariant total < BUFFER_WORDS && out == DecodeAll(taken)
      invariant Walk(Ipatch, fuses, old(words[..]), firstSize % 0x80, 0, Report(0, []))
             == Walk(Ipatch, fuses, words[..], count, total, Report(status, taken))
      decreases BUFFER_WORDS - total
    {
      if total + count >= BUFFER_WORDS { break; }
      ghost var now: seq<u32>;
      ghost var buf, sofar := words[..], Report(status, taken);
      var more, next;
      status, more, next, now := IpatchGroup(fuses, words, count, total);
      WalkStep(Ipatch, fuses, buf, count, total, sofar, Step(status, now, next), words[..]);
      DecodeConcat(taken, now);
      out, taken := out + more, taken + now;
      total, count := total + count, next;
    }
    WalkEnds(Ipatch, fuses, words[..], count, total, Report(status, taken));
    ghost var r := Walk(Ipatch, fuses, old(words[..]), firstSize % 0x80, 0, Report(0, []));
    forall i | 0 <= i < |out| ensures IsPatch(out[i], r.out[i]) { DecodeIsPatch(r.out[i], out[i]); }
  }

  lemma DecodeConcat(a: seq<u32>, b: seq<u32>)
    ensures DecodeAll(a + b) == DecodeAll(a) + DecodeAll(b)
  {
  }

  /** One group of the loop of `fuse_read_evp_thunk` */
  method ThunkGroup(fuses: Fuses, words: array<u32>, count: nat, total: nat)
    returns (status: nat, out: seq<u32>, next: nat)
    requires words.Length == BUFFER_WORDS && 0 < count && total + count < BUFFER_WORDS
    modifies words
    ensures var g := Load(fuses, old(words[..]), count, total);
            Step(status, out, next) == ReaderStep(Thunk, g, count) && words[..] == g.buf[0 := g.word0]
  {
    var ok, word0 := LoadCorrected(fuses, words, count, total);
    var ipatchCount := PatchCount(words[0]);
    out := if ok && ipatchCount < count then words[..][1 + ipatchCount..count] else [];
    words[0] := word0;
    if !ok { return 1, [], 0; }
    if ipatchCount >= count { return OVERRUN, [], 0; }
    status, next := Advance(word0, out);
  }

  /** The thunk area of the caller: its words, the byte length reported, and whether the template
      has been written. */
  datatype ThunkArea = ThunkArea(words: seq<u32>, length: nat, written: bool)

  /** The area after the instructions `taken`: nothing, or the template and then the instructions. */
  function Assembled(template: seq<u32>, capacity: nat, taken: seq<u32>): ThunkArea
  {
    if taken == [] then ThunkArea([], capacity, false)
    else ThunkArea(template + taken, 4 * (|template| + |taken|), true)
  }

  /** Without instructions the area is untouched; otherwise it starts with the template, goes on with exactly
      the instructions, and its byte length is reported. */
  predicate AreaHolds(a: ThunkArea, template: seq<u32>, capacity: nat, taken: seq<u32>)
  {
    (a.written <==> taken != []) && (!a.written ==> a.words == [] && a.length == capacity) &&
    (a.written ==> a.length == 4 * |a.words| && |a.words| == |template| + |taken|) &&
    (a.written ==> a.words[..|template|] == template && a.words[|template|..] == taken)
  }

  lemma AssembledIs(template: seq<u32>, capacity: nat, taken: seq<u32>)
    ensures AreaHolds(Assembled(template, capacity, taken), template, capacity, taken)
  {
  }

  lemma NothingAssembled(template: seq<u32>, capacity: nat)
    ensures Assembled(template, capacity, []) == ThunkArea([], capacity, false)
  {
  }

  /** Lines 449-467: the template goes in front of the first instructions. */
  method AppendThunks(template: seq<u32>, area: ThunkArea, now: seq<u32>, ghost capacity: nat, ghost taken: seq<u32>)
    returns (r: ThunkArea)
    requires area == Assembled(template, capacity, taken)
    ensures r == Assembled(template, capacity, taken + now)
  {
    r := area;
    if |now| > 0 {
      if !r.written {
        r := ThunkArea(template, 4 * |template|, true);
        assert taken + now == now;
      } else {
        assert template + taken + now == template + (taken + now);
      }
      r := ThunkArea(r.words + now, r.length + 4 * |now|, true);
    } else {
      assert taken + now == taken;
    }
  }

  /** One turn of the loop of `fuse_read_evp_thunk` */
  method ThunkTurn(fuses: Fuses, words: array<u32>, count: nat, total: nat, template: seq<u32>, area: ThunkArea,
                   ghost capacity: nat, ghost taken: seq<u32>)
    returns (status: nat, area': ThunkArea, next: nat, ghost now: seq<u32>)
    requires words.Length == BUFFER_WORDS && 0 < count && total + count < BUFFER_WORDS
    requires area == Assembled(template, capacity, taken)
    modifies words
    ensures var g := Load(fuses, old(words[..]), count, total);
            Step(status, now, next) == ReaderStep(Thunk, g, count) && words[..] == g.buf[0 := g.word0]
    ensures area' == Assembled(template, capacity, taken + now)
  {
    var out;
    status, out, next := ThunkGroup(fuses, words, count, total);
    area' := AppendThunks(template, area, out, capacity, taken);
    now := out;
  }

  /** `fuse_read_evp_thunk`; `template` is the thunk code put in front of the first instructions,
      `capacity` the byte length the caller passes in. */
  method ReadEvpThunk(fuses: Fuses, firstSize: u32, words: array<u32>, template: seq<u32>, capacity: nat)
    returns (status: nat, area: ThunkArea)
    requires words.Length == BUFFER_WORDS
    modifies words
    ensures var r := Walk(Thunk, fuses, old(words[..]), firstSize % 0x80, 0, Report(0, []));
            status == r.status && area == Assembled(template, capacity, r.out)
    ensures var r := Walk(Thunk, fuses, old(words[..]), firstSize % 0x80, 0, Report(0, []));
            AreaHolds(area, template, capacity, r.out)
  {
    hide Walk, Load, ReaderStep, Assembled, DecodeAll;
    var count: nat, total := firstSize % 0x80, 0;
    status, area := 0, ThunkArea([], capacity, false);
    ghost var taken: seq<u32> := [];
    NothingAssembled(template, capacity);
    while count != 0
      invariant total < BUFFER_WORDS && area == Assembled(template, capacity, taken)
      invariant Walk(Thunk, fuses, old(words[..]), firstSize % 0x80, 0, Report(0, []))
             == Walk(Thunk, fuses, words[..], count, total, Report(status, taken))
      decreases BUFFER_WORDS - total
    {
      if total + count >= BUFFER_WORDS { break; }
      ghost var now: seq<u32>;
      ghost var buf, sofar := words[..], Report(status, taken);
      var next;
      status, area, next, now := ThunkTurn(fuses, words, count, total, template, area, capacity, taken);
      WalkStep(Thunk, fuses, buf, count, total, sofar, Step(status, now, next), words[..]);
      taken := taken + now;
      total, count := total + count, next;
    }
    WalkEnds(Thunk, fuses, words[..], count, total, Report(status, taken));
    AssembledIs(template, capacity, taken);
  }

  /** The walk of `fuse_check_patched_rcm` reads inside the fuse array, which the chain may fill. */
  ghost predicate InArray(fuses: Fuses, count: nat, total: nat)
    decreases FUSE_ARRAY_WORDS_NUM - total
  {
    count == 0 ||
    (total + count <= FUSE_ARRAY_WORDS_NUM && total + 1 + PatchCount(fuses[total]) <= FUSE_ARRAY_WORDS_NUM &&
     InArray(fuses, NextSize(fuses[total]), total + count))
  }

  /** Some group from this one on patches the RCM address, read from the raw fuses. */
  ghost predicate RcmPatched(fuses: Fuses, count: nat, total: nat)
    requires InArray(fuses, count, total)
    decreases FUSE_ARRAY_WORDS_NUM - total
  {
    count != 0 &&
    ((exists i :: total < i <= total + PatchCount(fuses[total]) && Decode(fuses[i]).addr == RCM_PATCH_ADDRESS) ||
     RcmPatched(fuses, NextSize(fuses[total]), total + count))
  }

  /** The loop over one group's patches, lines 502-508 */
  method GroupPatchesRcm(fuses: Fuses, addr: nat, n: nat) returns (found: bool)
    requires n <= addr < FUSE_ARRAY_WORDS_NUM
    ensures var total := FUSE_ARRAY_WORDS_NUM - 1 - addr;
            found <==> exists i :: total < i <= total + n && Decode(fuses[i]).addr == RCM_PATCH_ADDRESS
  {
    ghost var total := FUSE_ARRAY_WORDS_NUM - 1 - addr;
    for i := 0 to n
      invariant forall k :: total < k <= total + i ==> Decode(fuses[k]).addr != RCM_PATCH_ADDRESS
    {
      var word := FuseRead(fuses, addr - (i + 1));
      assert word == fuses[total + i + 1];
      if word / 0x1_0000 * 2 == RCM_PATCH_ADDRESS { return true; }
    }
    return false;
  }

  /** The walk of `fuse_check_patched_rcm`, lines 493-514. The address wraps around below zero when the chain
      ends with the array. */
  method CheckPatchedRcm(fuses: Fuses, firstSize: u32) returns (patched: bool)
    requires InArray(fuses, firstSize % 0x80, 0)
    ensures patched == RcmPatched(fuses, firstSize % 0x80, 0)
  {
    hide PatchCount, NextSize, Decode;
    var count: nat, addr: nat := firstSize % 0x80, FUSE_ARRAY_WORDS_NUM - 1;
    ghost var total := 0;
    while count != 0
      invariant total <= FUSE_ARRAY_WORDS_NUM && InArray(fuses, count, total)
      invariant count != 0 ==> addr == FUSE_ARRAY_WORDS_NUM - 1 - total
      invariant RcmPatched(fuses, firstSize % 0x80, 0) == RcmPatched(fuses, count, total)
      decreases FUSE_ARRAY_WORDS_NUM - total
    {
      var word0 := FuseRead(fuses, addr);
      var found := GroupPatchesRcm(fuses, addr, PatchCount(word0));
      if found { return true; }
      total := total + count;
      addr, count := (addr + 0x1_0000_0000 - count) % 0x1_0000_0000, NextSize(word0);
    }
    return false;
  }

  // ----- Well-formed chains -----

  /** A chain that ends before it fills the buffer and keeps the patches of a group inside it. */
  ghost predicate Shape(fuses: Fuses, count: nat, total: nat)
    decreases BUFFER_WORDS - total
  {
    count == 0 ||
    (total + count < BUFFER_WORDS && PatchCount(fuses[total]) < count &&
     Shape(fuses, NextSize(fuses[total]), total + count))
  }

  /** Every group and next-size field of the chain is a code word. */
  ghost predicate ErrorFree(fuses: Fuses, count: nat, total: nat)
    requires Shape(fuses, count, total)
    decreases BUFFER_WORDS - total
  {
    count == 0 ||
    (ValidGroup(GroupAt(fuses, count, total)) && ValidField(fuses[total]) &&
     ErrorFree(fuses, NextSize(fuses[total]), total + count))
  }

  /** What the groups of a chain hold for a reader, in reading order. */
  ghost function Taken(reader: Reader, fuses: Fuses, count: nat, total: nat): seq<u32>
    requires Shape(fuses, count, total)
    decreases BUFFER_WORDS - total
  {
    if count == 0 then []
    else
      Own(reader, GroupAt(fuses, count, total)) + Taken(reader, fuses, NextSize(fuses[total]), total + count)
  }

  /** What one group holds for a reader. */
  function Own(reader: Reader, g: seq<u32>): seq<u32>
    requires |g| > 0 && PatchCount(g[0]) < |g|
  {
    var n := PatchCount(g[0]);
    match reader case Ipatch => g[1..1 + n] case Thunk => g[1 + n..]
  }

  /** The group differs from the original in at most one bit. */
  ghost predicate AtMostOneFlip(original: seq<u32>, g: seq<u32>)
  {
    g == original || exists p: nat :: p < 32 * |original| && g == Flip(original, p)
  }

  /** `damaged` holds the chain of `fuses` with at most one flipped bit in each group. */
  ghost predicate Damaged(fuses: Fuses, damaged: Fuses, count: nat, total: nat)
    requires Shape(fuses, count, total)
    decreases BUFFER_WORDS - total
  {
    count == 0 ||
    (AtMostOneFlip(GroupAt(fuses, count, total), GroupAt(damaged, count, total)) &&
     Damaged(fuses, damaged, NextSize(fuses[total]), total + count))
  }

  /** The patches up to and including the first group whose damaged next-size field reads zero,
      which is where the test of line 388 stops the walk before any correction. */
  ghost function Reached(reader: Reader, fuses: Fuses, damaged: Fuses, count: nat, total: nat): seq<u32>
    requires Shape(fuses, count, total)
    decreases BUFFER_WORDS - total
  {
    if count == 0 then []
    else
      Own(reader, GroupAt(fuses, count, total)) +
      if NextSize(damaged[total]) == 0 then []
      else Reached(reader, fuses, damaged, NextSize(fuses[total]), total + count)
  }

  /** The patches behind that group. */
  ghost function Hidden(reader: Reader, fuses: Fuses, damaged: Fuses, count: nat, total: nat): seq<u32>
    requires Shape(fuses, count, total)
    decreases BUFFER_WORDS - total
  {
    if count == 0 then []
    else
      if NextSize(damaged[total]) == 0 then Taken(reader, fuses, NextSize(fuses[total]), total + count)
      else Hidden(reader, fuses, damaged, NextSize(fuses[total]), total + count)
  }

  /** No flip turned a next-size field to zero. */
  ghost predicate NoSizeLost(fuses: Fuses, damaged: Fuses, count: nat, total: nat)
    requires Shape(fuses, count, total)
    decreases BUFFER_WORDS - total
  {
    count == 0 ||
    ((NextSize(damaged[total]) == 0 ==> NextSize(fuses[total]) == 0) &&
     NoSizeLost(fuses, damaged, NextSize(fuses[total]), total + count))
  }

  /** What the reader makes of one damaged group: the original patches, and the original next size
      unless the raw field reads zero. */
  lemma DamagedGroup(g: seq<u32>, d: seq<u32>)
    requires 0 < |g| < BUFFER_WORDS && ValidGroup(g) && ValidField(g[0]) && PatchCount(g[0]) < |g|
    requires AtMostOneFlip(g, d)
    ensures |d| == |g|
    ensures Correct(d).status < 2 && Correct(d).words[1..] == g[1..]
    ensures PatchCount(Correct(d).words[0]) == PatchCount(g[0])
    ensures CorrectField(d[0]).status < 2 && NextSize(CorrectField(d[0]).word) == NextSize(g[0])
  {
    hide Xor, Low, Shr, Pow2, Correct, FieldSum, FieldParity, NextSize, PatchCount;
    PatchCountLow20(g[0]);
    if d == g {
      CleanGroup(g);
    } else {
      var p: nat :| p < 32 * |g| && d == Flip(g, p);
      if IsProtected(p) {
        SingleErrorCorrected(g, p);
        if p < 20 {
          FieldUntouched(g[0], p);
          NextSizeFlip(g[0], p);
        }
      } else {
        NextFieldError(g, p);
        FieldErrorCorrected(g[0], p);
        PatchCountParityBit(Low(g[0], 20));
      }
    }
  }

  lemma FieldsAsShifts(w: nat)
    ensures w / 0x1_0000 == Shr(w, 16) && w / 0x200_0000 == Shr(w, 25)
    ensures PatchCount(w) == Low(Shr(w, 16), 4)
  {
    ShrTwice(w, 4, 4);
    ShrTwice(w, 8, 8);
    ShrTwice(w, 16, 4);
    ShrTwice(w, 20, 5);
    Nibble(w);
    Nibble(Shr(w, 4));
    Nibble(Shr(w, 8));
    ShrTwice(Shr(w, 8), 4, 4);
    Nibble(Shr(Shr(w, 8), 4));
    Nibble(Shr(w, 16));
    Nibble(Shr(w, 20));
  }

  lemma PatchCountLow20(w: nat)
    ensures PatchCount(Low(w, 20)) == PatchCount(w)
  {
    LowOfShr(w, 16, 4);
    FieldsAsShifts(w);
    FieldsAsShifts(Low(w, 20));
  }

  lemma {:induction false} LowOfShr(w: nat, m: nat, k: nat)
    ensures Low(Shr(Low(w, m + k), m), k) == Low(Shr(w, m), k)
    decreases m
  {
    if m > 0 {
      LowStep(w, m + k);
      LowOfShr(w / 2, m - 1, k);
    } else {
      LowLow(w, k);
    }
  }

  lemma {:induction false} LowLow(w: nat, k: nat)
    ensures Low(Low(w, k), k) == Low(w, k)
    decreases k
  {
    if k > 0 {
      LowStep(w, k);
      LowLow(w / 2, k - 1);
    }
  }

  /** Bit 15 is below the patch count. */
  lemma PatchCountParityBit(w: u32)
    ensures PatchCount(Xor(w, 0x8000)) == PatchCount(w)
  {
    Pow2Table();
    XorShr(w, Pow2(15), 16);
    ShrPow2(15, 16);
    XorZero(Shr(w, 16));
    FieldsAsShifts(w);
    FieldsAsShifts(Xor(w, 0x8000));
  }

  lemma NextSizeFlip(w: u32, j: nat)
    requires j < 25
    ensures NextSize(FlipBit(w, j)) == NextSize(w)
  {
    XorShr(w, Pow2(j), 25);
    ShrPow2(j, 25);
    XorZero(Shr(w, 25));
    FieldsAsShifts(w);
    FieldsAsShifts(FlipBit(w, j));
  }

  /** The exact output on a damaged chain: everything up to the first group whose raw next size
      reads zero, whatever the buffer held. */
  lemma {:induction false} DamagedChainOutput(reader: Reader, fuses: Fuses, damaged: Fuses, buf: seq<u32>,
                                              count: nat, total: nat, out: seq<u32>)
    requires total < BUFFER_WORDS && |buf| == BUFFER_WORDS
    requires Shape(fuses, count, total) && ErrorFree(fuses, count, total) && Damaged(fuses, damaged, count, total)
    ensures Walk(reader, damaged, buf, count, total, Report(0, out)) ==
            Report(0, out + Reached(reader, fuses, damaged, count, total))
    decreases BUFFER_WORDS - total
  {
    hide NextSize, PatchCount, Correct, CorrectField;
    if count > 0 {
      var g, d := GroupAt(fuses, count, total), GroupAt(damaged, count, total);
      DamagedStep(reader, g, d, buf);
      var buf', own := Load(damaged, buf, count, total).buf[0 := d[0]], Own(reader, g);
      var next, after := NextSize(fuses[total]), total + count;
      assert Walk(reader, damaged, buf, count, total, Report(0, out)) ==
             Walk(reader, damaged, buf', if NextSize(d[0]) == 0 then 0 else next, after, Report(0, out + own));
      if NextSize(damaged[total]) != 0 {
        DamagedChainOutput(reader, fuses, damaged, buf', next, after, out + own);
        Assoc(out, own, Reached(reader, fuses, damaged, next, after));
      }
    }
  }

  lemma DamagedStep(reader: Reader, g: seq<u32>, d: seq<u32>, buf: seq<u32>)
    requires 0 < |g| < BUFFER_WORDS == |buf| && ValidGroup(g) && ValidField(g[0]) && PatchCount(g[0]) < |g|
    requires AtMostOneFlip(g, d)
    ensures |d| == |g|
    ensures ReaderStep(reader, Loaded(Correct(d).status < 2, d[0], Correct(d).words + buf[|d|..]), |d|) ==
            Step(0, Own(reader, g), if NextSize(d[0]) == 0 then 0 else NextSize(g[0]))
  {
    DamagedGroup(g, d);
    SameTail(Correct(d).words, g, buf[|d|..], reader);
  }

  lemma SameTail(ws: seq<u32>, g: seq<u32>, rest: seq<u32>, reader: Reader)
    requires 0 < |g| == |ws| && |ws + rest| == BUFFER_WORDS && |g| < BUFFER_WORDS
    requires ws[1..] == g[1..] && PatchCount(ws[0]) == PatchCount(g[0]) < |g|
    ensures Take(reader, ws + rest, |ws|) == Own(reader, g)
  {
    var n := PatchCount(g[0]);
    assert (ws + rest)[1..|ws|] == ws[1..];
    assert (ws + rest)[1..1 + n] == (ws + rest)[1..|ws|][..n];
    assert (ws + rest)[1 + n..|ws|] == (ws + rest)[1..|ws|][n..];
    assert g[1..1 + n] == g[1..][..n] && g[1 + n..] == g[1..][n..];
  }

  /** A reader stops with status 1 at a group in which two protected bits are flipped, and keeps what it read
      before. */
  lemma StopsAtDoubleError(reader: Reader, fuses: Fuses, buf: seq<u32>, count: nat, total: nat, sofar: Report<u32>,
                           g: seq<u32>, p: nat, q: nat)
    requires |buf| == BUFFER_WORDS && 0 < count && total + count < BUFFER_WORDS && |g| == count && ValidGroup(g)
    requires p < 32 * count && q < 32 * count && p != q && IsProtected(p) && IsProtected(q)
    requires GroupAt(fuses, count, total) == Flip(Flip(g, p), q)
    ensures Walk(reader, fuses, buf, count, total, sofar) == Report(1, sofar.out)
  {
    hide ValidGroup, Flip, Correct, Walk, Onwards, Take;
    DoubleErrorDetected(g, p, q);
    var l := Load(fuses, buf, count, total);
    var buf' := l.buf[0 := l.word0];
    WalkStep(reader, fuses, buf, count, total, sofar, Step(1, [], 0), buf');
    assert sofar.out + [] == sofar.out;
    WalkEnds(reader, fuses, buf', 0, total + count, Report(1, sofar.out));
  }

  /** Two flips in the next-size field do not disturb the group, but the reader stops with status 3 behind it,
      unless the raw field reads zero. */
  lemma StopsAtDamagedSize(reader: Reader, fuses: Fuses, buf: seq<u32>, count: nat, total: nat, sofar: Report<u32>,
                           g: seq<u32>, i: nat, j: nat)
    requires |buf| == BUFFER_WORDS && 0 < count && total + count < BUFFER_WORDS && |g| == count
    requires ValidGroup(g) && ValidField(g[0]) && PatchCount(g[0]) < count
    requires 20 <= i < 32 && 20 <= j < 32 && i != j && GroupAt(fuses, count, total) == Flip(Flip(g, i), j)
    ensures Walk(reader, fuses, buf, count, total, sofar)
         == Report(if NextSize(fuses[total]) == 0 then 0 else 3, sofar.out + Own(reader, g))
  {
    hide ValidGroup, ValidField, Flip, Correct, CorrectField, Walk, Take, PatchCount, NextSize, Own, Protected;
    var d := Flip(Flip(g, i), j);
    assert d[0] == fuses[total];
    SizeFlips(g, i, j);
    FieldDoubleErrorDetected(g[0], i, j);
    PatchCountLow20(g[0]);
    var l := Load(fuses, buf, count, total);
    SameTail(Protected(g), g, buf[count..], reader);
    var status := if NextSize(fuses[total]) == 0 then 0 else 3;
    var buf' := l.buf[0 := l.word0];
    WalkStep(reader, fuses, buf, count, total, sofar, Step(status, Own(reader, g), 0), buf');
    WalkEnds(reader, fuses, buf', 0, total + count, Report(status, sofar.out + Own(reader, g)));
  }

  lemma SizeFlips(g: seq<u32>, i: nat, j: nat)
    requires 0 < |g| < BUFFER_WORDS && ValidGroup(g) && 20 <= i < 32 && 20 <= j < 32
    ensures var d := Flip(Flip(g, i), j);
            d[0] == FlipBit(FlipBit(g[0], i), j) && Correct(d) == Outcome(0, Protected(g)) &&
            Protected(g)[1..] == g[1..] && Protected(g)[0] == Low(g[0], 20)
  {
    hide Xor, Low, Shr, Shl, Pow2, BitSum, PositionSum, Syndrome, GroupParity;
    var e := Flip(g, i);
    SyndromeFlip(g, i);
    SyndromeFlip(e, j);
    GroupParityFlip(g, i);
    GroupParityFlip(e, j);
    XorZero(0);
    Word0Flip(g[0], i);
    Word0Flip(e[0], j);
  }

  lemma {:induction false} ReachedAndHidden(reader: Reader, fuses: Fuses, damaged: Fuses, count: nat, total: nat)
    requires Shape(fuses, count, total)
    ensures Taken(reader, fuses, count, total)
         == Reached(reader, fuses, damaged, count, total) + Hidden(reader, fuses, damaged, count, total)
    decreases BUFFER_WORDS - total
  {
    if count > 0 {
      var g := GroupAt(fuses, count, total);
      var next, after := NextSize(fuses[total]), total + count;
      var own := Own(reader, g);
      if NextSize(damaged[total]) != 0 {
        ReachedAndHidden(reader, fuses, damaged, next, after);
        Assoc(own, Reached(reader, fuses, damaged, next, after), Hidden(reader, fuses, damaged, next, after));
      }
    }
  }

  lemma Assoc<T>(a: seq<T>, b: seq<T>, c: seq<T>)
    ensures a + (b + c) == (a + b) + c
  {
  }

  lemma {:induction false} NothingHidden(reader: Reader, fuses: Fuses, damaged: Fuses, count: nat, total: nat)
    requires Shape(fuses, count, total) && NoSizeLost(fuses, damaged, count, total)
    ensures Hidden(reader, fuses, damaged, count, total) == []
    decreases BUFFER_WORDS - total
  {
    if count > 0 {
      NothingHidden(reader, fuses, damaged, NextSize(fuses[total]), total + count);
    }
  }

  /** Both readers take all they own from an error-free chain. */
  lemma CleanChainReport(reader: Reader, fuses: Fuses, buf: seq<u32>, count: nat)
    requires |buf| == BUFFER_WORDS && Shape(fuses, count, 0) && ErrorFree(fuses, count, 0)
    ensures Walk(reader, fuses, buf, count, 0, Report(0, [])) == Report(0, Taken(reader, fuses, count, 0))
  {
    hide Walk, Taken, Reached, Hidden, Shape, ErrorFree, Damaged;
    CleanIsDamaged(fuses, count, 0);
    DamagedChainOutput(reader, fuses, fuses, buf, count, 0, []);
    ReachedAndHidden(reader, fuses, fuses, count, 0);
    NothingHidden(reader, fuses, fuses, count, 0);
  }

  /** With at most one flipped bit per group, a reader's report is that of the error-free chain
      exactly when nothing of its own hides behind a next-size field that a flip made zero. */
  lemma DamagedChainReport(reader: Reader, fuses: Fuses, damaged: Fuses, buf: seq<u32>, count: nat)
    requires |buf| == BUFFER_WORDS && Shape(fuses, count, 0) && ErrorFree(fuses, count, 0)
    requires Damaged(fuses, damaged, count, 0)
    ensures Walk(reader, damaged, buf, count, 0, Report(0, [])) == Walk(reader, fuses, buf, count, 0, Report(0, []))
            <==> Hidden(reader, fuses, damaged, count, 0) == []
  {
    hide Walk, Taken, Reached, Hidden, Shape, ErrorFree, Damaged;
    DamagedChainOutput(reader, fuses, damaged, buf, count, 0, []);
    ReachedAndHidden(reader, fuses, damaged, count, 0);
    CleanChainReport(reader, fuses, buf, count);
  }

  /** A damaged chain in which no next-size field was made zero reads like the error-free one. */
  lemma SingleErrorsHarmless(reader: Reader, fuses: Fuses, damaged: Fuses, buf: seq<u32>, count: nat)
    requires |buf| == BUFFER_WORDS && Shape(fuses, count, 0) && ErrorFree(fuses, count, 0)
    requires Damaged(fuses, damaged, count, 0)
    requires NoSizeLost(fuses, damaged, count, 0)
    ensures Walk(reader, damaged, buf, count, 0, Report(0, [])) == Walk(reader, fuses, buf, count, 0, Report(0, []))
  {
    hide Walk, Taken, Reached, Hidden, Shape, ErrorFree, Damaged;
    NothingHidden(reader, fuses, damaged, count, 0);
    DamagedChainReport(reader, fuses, damaged, buf, count);
  }

  lemma {:induction false} CleanIsDamaged(fuses: Fuses, count: nat, total: nat)
    requires Shape(fuses, count, total)
    ensures Damaged(fuses, fuses, count, total) && NoSizeLost(fuses, fuses, count, total)
    decreases BUFFER_WORDS - total
  {
    if count > 0 {
      CleanIsDamaged(fuses, NextSize(fuses[total]), total + count);
    }
  }

  // ----- A single flip that loses words -----

  /** A word 0 that has nothing but its next-size field. */
  ghost predicate OnlyField(w: u32, sum: nat, parity: nat, next: nat)
  {
    Low(w, 20) == 0 && FieldSum(w, 12) == sum && FieldParity(w) == parity && NextSize(w) == next
  }

  lemma OnlyFieldFlip(w: u32, f: u32, j: nat, sum: nat, sum': nat, parity: nat, next: nat, next': nat)
    requires 20 <= j < 32 && f == FlipBit(w, j) && OnlyField(w, sum, parity, next)
    requires sum' == Xor(sum, HASH_VALS[j - 20]) && next' == Xor(next, if j < 25 then 0 else Pow2(j - 25))
    ensures OnlyField(f, sum', 1 - parity, next')
  {
    Word0Flip(w, j);
    FieldParityFlip(w, j);
    FieldSumFlip(w, j, 12);
    XorShr(w, Pow2(j), 25);
    ShrPow2(j, 25);
    FieldsAsShifts(w);
    FieldsAsShifts(FlipBit(w, j));
  }

  lemma OnlyFieldValid(w: u32, next: nat)
    requires OnlyField(w, 0, 0, next)
    ensures ValidField(w) && ValidGroup([w]) && PatchCount(w) == 0
  {
    var z: u32 := 0;
    FieldsAsShifts(w);
    LowLowZero(w, 15, 5);
    ShrLow(w, 16, 4);
    ParitySplit(w, 20);
    ZeroGroup([z], 1);
    LowZero(16);
    assert Masked([w]) == [z] && [w][..0] == [];
    SmallXors();
  }

  lemma {:induction false} LowLowZero(w: nat, m: nat, k: nat)
    requires Low(w, m + k) == 0
    ensures Low(w, m) == 0
    decreases m
  {
    if m > 0 { LowLowZero(w / 2, m - 1, k); }
  }

  lemma {:induction false} ShrLow(w: nat, m: nat, k: nat)
    requires Low(w, m + k) == 0
    ensures Low(Shr(w, m), k) == 0
    decreases m
  {
    if m > 0 { ShrLow(w / 2, m - 1, k); }
  }

  lemma ZeroWord(z: u32)
    requires z == 0
    ensures OnlyField(z, 0, 0, 0)
  {
    FieldZero(z, 12);
    LowZero(20);
  }

  lemma ExampleFirstFlips(z: u32, a: u32, b: u32, j: nat)
    requires z == 0 && j == 20 && a == FlipBit(z, j) && b == FlipBit(a, j + 2)
    ensures OnlyField(b, 5, 0, 0)
  {
    hide FieldSum, FieldParity, NextSize, Xor, Low, FlipBit;
    SmallXors();
    ZeroWord(z);
    OnlyFieldFlip(z, a, j, 0, 1, 0, 0, 0);
    OnlyFieldFlip(a, b, j + 2, 1, 5, 1, 0, 0);
  }

  lemma ExampleParityFlip(b: u32, d: u32, j: nat)
    requires OnlyField(b, 5, 0, 0) && j == 24 && d == FlipBit(b, j)
    ensures OnlyField(d, 5, 1, 0)
  {
    hide FieldSum, FieldParity, NextSize, Xor, Low, FlipBit;
    SmallXors();
    OnlyFieldFlip(b, d, j, 5, 5, 0, 0, 0);
  }

  lemma ExampleLastFlip(d: u32, w: u32, j: nat)
    requires OnlyField(d, 5, 1, 0) && j == 26 && w == FlipBit(d, j)
    ensures OnlyField(w, 0, 0, 2)
  {
    hide FieldSum, FieldParity, NextSize, Xor, Low, FlipBit;
    SmallXors();
    OnlyFieldFlip(d, w, j, 5, 0, 1, 0, 2);
  }

  lemma SmallXors()
    ensures Xor(0, 0) == 0 && Xor(0, 1) == 1 && Xor(1, 4) == 5 && Xor(5, 0) == 5 && Xor(5, 5) == 0
    ensures Xor(0, Pow2(1)) == 2
  {
    XorZero(1);
    XorZero(5);
    XorZero(Pow2(1));
    XorSelf(5);
    assert Xor(0, 1) == 1 && Xor(0, 2) == 2;
  }

  lemma {:induction false} FieldZero(z: u32, k: nat)
    requires k <= 12 && z == 0
    ensures FieldSum(z, k) == 0
  {
    if k > 0 {
      FieldZero(z, k - 1);
      TestBitZero(19 + k);
    }
  }

  lemma {:induction false} ZeroGroup(ws: seq<u32>, n: nat)
    requires n <= |ws| && forall i :: 0 <= i < |ws| ==> ws[i] == 0
    ensures PositionSum(ws, n) == 0 && GroupParity(ws[..n]) == 0
  {
    if n > 0 {
      ZeroGroup(ws, n - 1);
      BitSumZero(0x4000 + 32 * (n - 1), 32);
      assert ws[..n][..n - 1] == ws[..n - 1];
      SmallXors();
    }
  }

  lemma ZeroPairValid(z: u32)
    requires z == 0
    ensures ValidGroup([z, z]) && ValidField(z) && NextSize(z) == 0 && PatchCount(z) == 0
  {
    ZeroGroup([z, z], 2);
    assert [z, z][..2] == [z, z];
    LowZero(15);
    LowZero(4);
    LowZero(16);
    assert Masked([z, z]) == [z, z];
    SmallXors();
    FieldZero(z, 12);
    LowZero(20);
  }

  /** Two groups, of one and of two words; the second holds one instruction. */
  function ExampleChain(z: u32, word0: u32): Fuses
  {
    [word0] + seq(FUSE_ARRAY_WORDS_NUM - 1, i => z)
  }

  lemma ExampleShape(z: u32, d: u32, w: u32, fuses: Fuses, damaged: Fuses)
    requires OnlyField(d, 5, 1, 0) && OnlyField(w, 0, 0, 2) && AtMostOneFlip([w], [d]) && z == 0
    requires fuses == ExampleChain(z, w) && damaged == ExampleChain(z, d)
    ensures Shape(fuses, 1, 0) && ErrorFree(fuses, 1, 0) && Damaged(fuses, damaged, 1, 0)
    ensures Taken(Thunk, fuses, 1, 0) == [z] && Reached(Thunk, fuses, damaged, 1, 0) == []
  {
    OnlyFieldValid(w, 2);
    ZeroPairValid(z);
    assert fuses[1..3] == [z, z] == damaged[1..3];
    ExampleTail(z, fuses, damaged);
    assert GroupAt(fuses, 1, 0) == [w] && GroupAt(damaged, 1, 0) == [d];
    assert Own(Thunk, [w]) == [];
  }

  lemma ExampleFlip(d: u32, w: u32, j: nat)
    requires j < 32 && w == FlipBit(d, j)
    ensures AtMostOneFlip([w], [d])
  {
    XorCancel(d, Pow2(j));
    assert Flip([w], j) == [d];
  }

  lemma ExampleTail(z: u32, fuses: Fuses, damaged: Fuses)
    requires fuses[1..3] == [z, z] == damaged[1..3] && ValidGroup([z, z]) && ValidField(z)
    requires NextSize(z) == 0 && PatchCount(z) == 0
    ensures Shape(fuses, 2, 1) && ErrorFree(fuses, 2, 1) && Damaged(fuses, damaged, 2, 1)
    ensures Taken(Thunk, fuses, 2, 1) == [z]
  {
    assert fuses[1] == fuses[1..3][0];
    assert Shape(fuses, 0, 3);
    assert ErrorFree(fuses, 0, 3) && Damaged(fuses, damaged, 0, 3) && Taken(Thunk, fuses, 0, 3) == [];
  }

  /** There is a chain in which one flipped bit of a next-size field makes a reader return success
      without the words of the second group. */
  lemma SingleErrorLosesWords(buf: seq<u32>)
    requires |buf| == BUFFER_WORDS
    ensures exists fuses, damaged ::
              Shape(fuses, 1, 0) && ErrorFree(fuses, 1, 0) && Damaged(fuses, damaged, 1, 0) &&
              Walk(Thunk, fuses, buf, 1, 0, Report(0, [])) == Report(0, [0]) &&
              Walk(Thunk, damaged, buf, 1, 0, Report(0, [])) == Report(0, [])
  {
    var z: u32, j: nat :| z == 0 && j == 20;
    var a := FlipBit(z, j);
    var b := FlipBit(a, j + 2);
    var d := FlipBit(b, j + 4);
    var w := FlipBit(d, j + 6);
    ExampleFirstFlips(z, a, b, j);
    ExampleParityFlip(b, d, j + 4);
    ExampleLastFlip(d, w, j + 6);
    ExampleFlip(d, w, j + 6);
    var fuses, damaged := ExampleChain(z, w), ExampleChain(z, d);
    ExampleShape(z, d, w, fuses, damaged);
    DamagedChainOutput(Thunk, fuses, damaged, buf, 1, 0, []);
    CleanChainReport(Thunk, fuses, buf, 1);
  }

  // ----- Each payload word has exactly one reader -----

  function Range(lo: nat, hi: nat): (r: seq<nat>)
    requires lo <= hi
    ensures |r| == hi - lo && forall i :: 0 <= i < |r| ==> r[i] == lo + i
    decreases hi - lo
  {
    if lo == hi then [] else [lo] + Range(lo + 1, hi)
  }

  /** The fuse positions of a reader's words in a group of `count` words with n patches. */
  function OwnPositions(reader: Reader, n: nat, count: nat, total: nat): seq<nat>
    requires n < count
  {
    match reader
    case Ipatch => Range(total + 1, total + 1 + n)
    case Thunk => Range(total + 1 + n, total + count)
  }

  /** The fuse positions a reader consumes. */
  ghost function Positions(reader: Reader, fuses: Fuses, count: nat, total: nat): (ps: seq<nat>)
    requires Shape(fuses, count, total)
    decreases BUFFER_WORDS - total
  {
    if count == 0 then []
    else
      var word0 := fuses[total];
      OwnPositions(reader, PatchCount(word0), count, total) +
      Positions(reader, fuses, NextSize(word0), total + count)
  }

  /** The positions of all words of the chain but the first of each group. */
  ghost function PayloadPositions(fuses: Fuses, count: nat, total: nat): seq<nat>
    requires Shape(fuses, count, total)
    decreases BUFFER_WORDS - total
  {
    if count == 0 then []
    else Range(total + 1, total + count) + PayloadPositions(fuses, NextSize(fuses[total]), total + count)
  }

  /** The words ws stand at the positions ps. */
  ghost predicate At(ws: seq<u32>, fuses: Fuses, ps: seq<nat>)
  {
    |ws| == |ps| && forall i :: 0 <= i < |ps| ==> ps[i] < |fuses| && ws[i] == fuses[ps[i]]
  }

  lemma AtConcat(a: seq<u32>, b: seq<u32>, fuses: Fuses, p: seq<nat>, q: seq<nat>)
    requires At(a, fuses, p) && At(b, fuses, q)
    ensures At(a + b, fuses, p + q)
  {
  }

  /** What one group holds for a reader stands at that reader's positions of the group. */
  lemma OwnAt(reader: Reader, fuses: Fuses, count: nat, total: nat)
    requires 0 < count && total + count < BUFFER_WORDS && PatchCount(fuses[total]) < count
    ensures PatchCount(GroupAt(fuses, count, total)[0]) < count
    ensures At(Own(reader, GroupAt(fuses, count, total)), fuses,
               OwnPositions(reader, PatchCount(fuses[total]), count, total))
  {
    hide PatchCount, At, Range;
    var n, end := PatchCount(fuses[total]), total + count;
    assert GroupAt(fuses, count, total)[0] == fuses[total];
    SliceOfSlice(fuses, total, end, 1, 1 + n);
    SliceOfSlice(fuses, total, end, 1 + n, count);
    match reader
    case Ipatch => SliceAt(fuses, total + 1, total + 1 + n);
    case Thunk =>
      SliceAt(fuses, total + 1 + n, end);
      assert GroupAt(fuses, count, total)[1 + n..] == GroupAt(fuses, count, total)[1 + n..count];
  }

  lemma SliceAt(fuses: Fuses, lo: nat, hi: nat)
    requires lo <= hi <= |fuses|
    ensures At(fuses[lo..hi], fuses, Range(lo, hi))
  {
    hide Range;
  }

  lemma AtNothing(fuses: Fuses)
    ensures At([], fuses, [])
  {
  }

  lemma {:induction false} TakenAtPositions(reader: Reader, fuses: Fuses, count: nat, total: nat)
    requires Shape(fuses, count, total)
    ensures At(Taken(reader, fuses, count, total), fuses, Positions(reader, fuses, count, total))
    decreases BUFFER_WORDS - total
  {
    hide At, GroupAt, Own, OwnPositions, PatchCount, NextSize;
    if count > 0 {
      var next, after := NextSize(fuses[total]), total + count;
      TakenAtPositions(reader, fuses, next, after);
      OwnAt(reader, fuses, count, total);
      var g, n := GroupAt(fuses, count, total), PatchCount(fuses[total]);
      AtConcat(Own(reader, g), Taken(reader, fuses, next, after), fuses,
               OwnPositions(reader, n, count, total), Positions(reader, fuses, next, after));
    } else {
      AtNothing(fuses);
    }
  }

  /** How often x occurs. */
  function Occurrences(x: nat, s: seq<nat>): nat
  {
    if s == [] then 0 else (if s[0] == x then 1 else 0) + Occurrences(x, s[1..])
  }

  lemma NoOccurrences(x: nat)
    ensures Occurrences(x, []) == 0
  {
  }

  lemma {:induction false} OccurrencesConcat(x: nat, a: seq<nat>, b: seq<nat>)
    ensures Occurrences(x, a + b) == Occurrences(x, a) + Occurrences(x, b)
  {
    if a == [] {
      assert a + b == b;
    } else {
      assert (a + b)[1..] == a[1..] + b;
      OccurrencesConcat(x, a[1..], b);
    }
  }

  lemma RangeSplit(lo: nat, mid: nat, hi: nat)
    requires lo <= mid <= hi
    ensures Range(lo, hi) == Range(lo, mid) + Range(mid, hi)
  {
  }

  /** The positions of one group fall to the two readers. */
  lemma GroupSplit(x: nat, n: nat, count: nat, total: nat)
    requires n < count
    ensures Occurrences(x, OwnPositions(Ipatch, n, count, total)) + Occurrences(x, OwnPositions(Thunk, n, count, total))
         == Occurrences(x, Range(total + 1, total + count))
  {
    hide Occurrences, Range;
    RangeSplit(total + 1, total + 1 + n, total + count);
    OccurrencesConcat(x, Range(total + 1, total + 1 + n), Range(total + 1 + n, total + count));
  }

  lemma {:induction false} PositionsSplit(x: nat, fuses: Fuses, count: nat, total: nat)
    requires Shape(fuses, count, total)
    ensures var i, t := Positions(Ipatch, fuses, count, total), Positions(Thunk, fuses, count, total);
            Occurrences(x, i) + Occurrences(x, t) == Occurrences(x, PayloadPositions(fuses, count, total))
    decreases BUFFER_WORDS - total
  {
    hide Occurrences, Range, OwnPositions, PatchCount, NextSize;
    if count > 0 {
      var n, next, after := PatchCount(fuses[total]), NextSize(fuses[total]), total + count;
      PositionsSplit(x, fuses, next, after);
      GroupSplit(x, n, count, total);
      OccurrencesConcat(x, OwnPositions(Ipatch, n, count, total), Positions(Ipatch, fuses, next, after));
      OccurrencesConcat(x, OwnPositions(Thunk, n, count, total), Positions(Thunk, fuses, next, after));
      OccurrencesConcat(x, Range(total + 1, after), PayloadPositions(fuses, next, after));
    } else {
      NoOccurrences(x);
    }
  }

  ghost predicate IncreasingFrom(ps: seq<nat>, lo: nat)
  {
    (forall i :: 0 <= i < |ps| ==> lo <= ps[i]) && (forall i, j :: 0 <= i < j < |ps| ==> ps[i] < ps[j])
  }

  lemma IncreasingConcat(lo: nat, hi: nat, rest: seq<nat>)
    requires lo <= hi && IncreasingFrom(rest, hi)
    ensures IncreasingFrom(Range(lo, hi) + rest, lo)
  {
  }

  lemma {:induction false} PayloadIncreasing(fuses: Fuses, count: nat, total: nat)
    requires Shape(fuses, count, total)
    ensures IncreasingFrom(PayloadPositions(fuses, count, total), total)
    decreases BUFFER_WORDS - total
  {
    if count > 0 {
      PayloadIncreasing(fuses, NextSize(fuses[total]), total + count);
      IncreasingConcat(total + 1, total + count, PayloadPositions(fuses, NextSize(fuses[total]), total + count));
    }
  }

  /** The readers together consume position x as often as it holds payload. */
  ghost predicate OneReader(x: nat, fuses: Fuses, count: nat)
    requires Shape(fuses, count, 0)
  {
    Occurrences(x, Positions(Ipatch, fuses, count, 0)) + Occurrences(x, Positions(Thunk, fuses, count, 0))
    == Occurrences(x, PayloadPositions(fuses, count, 0))
  }

  /** On an error-free chain each payload word goes to exactly one of the two readers, and once. */
  lemma EachWordOneReader(fuses: Fuses, buf: seq<u32>, count: nat)
    requires |buf| == BUFFER_WORDS && Shape(fuses, count, 0) && ErrorFree(fuses, count, 0)
    ensures At(Walk(Ipatch, fuses, buf, count, 0, Report(0, [])).out, fuses, Positions(Ipatch, fuses, count, 0))
    ensures At(Walk(Thunk, fuses, buf, count, 0, Report(0, [])).out, fuses, Positions(Thunk, fuses, count, 0))
    ensures forall x: nat :: OneReader(x, fuses, count)
    ensures IncreasingFrom(PayloadPositions(fuses, count, 0), 0)
  {
    CleanChainReport(Ipatch, fuses, buf, count);
    CleanChainReport(Thunk, fuses, buf, count);
    TakenAtPositions(Ipatch, fuses, count, 0);
    TakenAtPositions(Thunk, fuses, count, 0);
    forall x: nat ensures OneReader(x, fuses, count) { PositionsSplit(x, fuses, count, 0); }
    PayloadIncreasing(fuses, count, 0);
  }

  // ----- The recovery-mode check agrees with the ipatch reader -----

  lemma {:induction false} ChainInArray(fuses: Fuses, count: nat, total: nat)
    requires Shape(fuses, count, total)
    ensures InArray(fuses, count, total)
    decreases BUFFER_WORDS - total
  {
    if count > 0 { ChainInArray(fuses, NextSize(fuses[total]), total + count); }
  }

  lemma SliceOfSlice(s: seq<u32>, a: nat, b: nat, c: nat, d: nat)
    requires c <= d <= b - a && b <= |s|
    ensures s[a..b][c..d] == s[a + c..a + d]
  {
    var t := s[a..b];
    forall k | 0 <= k < d - c ensures t[c..d][k] == s[a + c..a + d][k] {
      assert t[c..d][k] == t[c + k] == s[a + c + k];
    }
  }

  ghost predicate HoldsRcmPatch(ws: seq<u32>)
  {
    exists k :: 0 <= k < |ws| && Decode(ws[k]).addr == RCM_PATCH_ADDRESS
  }

  lemma HoldsConcat(a: seq<u32>, b: seq<u32>)
    ensures HoldsRcmPatch(a + b) <==> HoldsRcmPatch(a) || HoldsRcmPatch(b)
  {
    var c := a + b;
    forall k | 0 <= k < |a| ensures c[k] == a[k] {}
    forall k | 0 <= k < |b| ensures c[|a| + k] == b[k] {}
  }

  lemma GroupHolds(fuses: Fuses, count: nat, total: nat)
    requires 0 < count && total + count < BUFFER_WORDS && PatchCount(fuses[total]) < count
    ensures HoldsRcmPatch(Own(Ipatch, GroupAt(fuses, count, total))) <==>
            exists i :: total < i <= total + PatchCount(fuses[total]) && Decode(fuses[i]).addr == RCM_PATCH_ADDRESS
  {
    var own := Own(Ipatch, GroupAt(fuses, count, total));
    SliceOfSlice(fuses, total, total + count, 1, 1 + PatchCount(fuses[total]));
    forall i | total < i <= total + PatchCount(fuses[total]) ensures own[i - total - 1] == fuses[i] {}
    forall k | 0 <= k < |own| ensures own[k] == fuses[total + 1 + k] {}
  }

  lemma {:induction false} RcmPatchedIffTaken(fuses: Fuses, count: nat, total: nat)
    requires Shape(fuses, count, total) && InArray(fuses, count, total)
    ensures RcmPatched(fuses, count, total) <==> HoldsRcmPatch(Taken(Ipatch, fuses, count, total))
    decreases BUFFER_WORDS - total
  {
    if count > 0 {
      var next, after := NextSize(fuses[total]), total + count;
      RcmPatchedIffTaken(fuses, next, after);
      GroupHolds(fuses, count, total);
      HoldsConcat(Own(Ipatch, GroupAt(fuses, count, total)), Taken(Ipatch, fuses, next, after));
    }
  }

  /** On an error-free chain the in-place walk reports a patched recovery mode exactly when the
      ipatch reader hands out a patch of that address. */
  lemma RcmCheckAgrees(fuses: Fuses, buf: seq<u32>, count: nat)
    requires |buf| == BUFFER_WORDS && Shape(fuses, count, 0) && ErrorFree(fuses, count, 0)
    ensures InArray(fuses, count, 0)
    ensures RcmPatched(fuses, count, 0) <==>
            exists p :: p in DecodeAll(Walk(Ipatch, fuses, buf, count, 0, Report(0, [])).out) &&
                        p.addr == RCM_PATCH_ADDRESS
  {
    ChainInArray(fuses, count, 0);
    RcmPatchedIffTaken(fuses, count, 0);
    CleanChainReport(Ipatch, fuses, buf, count);
    var taken := Taken(Ipatch, fuses, count, 0);
    forall k | 0 <= k < |taken| ensures DecodeAll(taken)[k] == Decode(taken[k]) {}
  }
}
