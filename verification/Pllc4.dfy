/** The clock of the four SDMMC controllers and the PLL they share (bdk/soc/clock.c, lines 581-626,
    667-847 and 922-958).

    A controller may run from PLLC4. A mask holds one use bit a controller and a flag that the PLL is on. */
module Pllc4 {

  const CONTROLLERS := 4
  const ENABLED: bv32 := 0x8000_0000
  const IN_USE: bv32 := 0x7fff_ffff
  const KNOWN: bv32 := 0x8000_000f

  /** `BIT(id)` */
  function Bit(id: nat): bv32
    requires id < CONTROLLERS
  {
    match id case 0 => 1 case 1 => 2 case 2 => 4 case _ => 8
  }

  predicate OneBit(b: bv32) { b == 1 || b == 2 || b == 4 || b == 8 }

  predicate Has(m: bv32, b: bv32) { m & b != 0 }

  /** `pllc4_enabled |= b` and, when that is done, the flag */
  function Put(m: bv32, b: bv32): bv32 { Or(Or(m, b), ENABLED) }

  function Or(m: bv32, b: bv32): bv32 { m | b }

  function Drop(m: bv32, b: bv32): bv32 { m & !b }

  predicate UseBit(m: bv32, id: nat)
    requires id < CONTROLLERS
  {
    Has(m, Bit(id))
  }

  predicate FlagSet(m: bv32) { m & ENABLED != 0 }

  /** The mask after the PLL was enabled for a controller */
  function WithUse(m: bv32, id: nat): bv32
    requires id < CONTROLLERS
  {
    Put(m, Bit(id))
  }

  function WithoutUse(m: bv32, id: nat): bv32
    requires id < CONTROLLERS
  {
    Drop(m, Bit(id))
  }

  /** Nothing but the four use bits and the flag is ever set. */
  predicate OnlyKnown(m: bv32) { m & !KNOWN == 0 }

  // ----- The clock tree -----

  /** The base register of the PLL: its enable and power-down bits and its dividers */
  datatype PllBase = PllBase(enable: bool, iddq: bool, divn: nat, divm: nat)
  {
    /** OUT0 in kHz, from the 38.4 MHz crystal; the post divider is 1. */
    function Out0(): nat
    {
      if enable && !iddq && divm > 0 then 38400 * divn / divm else 0
    }
  }

  const RUNNING := PllBase(true, false, 104, 4)

  const PLLP_OUT0 := 0
  const PLLC4_OUT2_LJ := 1
  const PLLC4_OUT2 := 3
  const PLLC4_OUT0 := 7

  /** A clock source register: source in the high bits and divisor in the low ones */
  datatype Source = Source(source: nat, divisor: nat)
  {
    predicate Derived() { source != PLLP_OUT0 }

    /** The frequency in kHz of the clock the register of a controller selects, before the divider; only the
        second and fourth controller have a low-jitter path. */
    function Parent(id: nat, base: PllBase): nat
    {
      if source == PLLP_OUT0 then 408000
      else if source == PLLC4_OUT0 then base.Out0()
      else if source == PLLC4_OUT2 || (source == PLLC4_OUT2_LJ && (id == 1 || id == 3)) then base.Out0() / 5
      else 0
    }

    /** The divider counts half steps above one; the low-jitter path has none. The clock is announced in
        kHz, rounded up. */
    predicate Gives(id: nat, base: PllBase, pclock: nat)
    {
      var halves := if source == PLLC4_OUT2_LJ then 2 else divisor + 2;
      (pclock - 1) * halves < 2 * Parent(id, base) <= pclock * halves
    }
  }

  datatype Rate = Unlisted | Rate(pclock: nat, reg: Source)

  /** The switch of lines 739-800. The 400 MHz rate exists in some builds only. */
  function RateOf(ddr200: bool, id: nat, clock: nat): Rate
  {
    match clock
    case 25000 => Rate(24728, Source(PLLP_OUT0, 31))
    case 26000 => Rate(25500, Source(PLLP_OUT0, 30))
    case 50000 => Rate(48000, Source(PLLP_OUT0, 15))
    case 52000 => Rate(51000, Source(PLLP_OUT0, 14))
    case 82000 => Rate(81600, Source(PLLP_OUT0, 8))
    case 100000 => Rate(99840, Source(PLLC4_OUT2, 2))
    case 164000 => Rate(163200, Source(PLLP_OUT0, 3))
    case 200000 => Rate(199680, Source(if id == 0 || id == 2 then PLLC4_OUT2 else PLLC4_OUT2_LJ, 0))
    case 400000 => if ddr200 then Rate(399360, Source(PLLC4_OUT0, 3)) else Unlisted
    case _ => Unlisted
  }

  /** What gets written for a rate; an unlisted one ends at the undivided peripheral clock. */
  function Register(r: Rate): Source { if r.Rate? then r.reg else Source(PLLP_OUT0, 0) }

  /** The announced clock is the requested one or up to a twentieth slower. */
  predicate Near(pclock: nat, clock: nat) { pclock <= clock <= pclock + clock / 20 }

  /** Every listed rate announces the frequency that its register value gives on a running PLL, and that is the
      requested one or slightly slower. */
  lemma ListedRateGivesItsClock(ddr200: bool, id: nat, clock: nat)
    requires id < CONTROLLERS && RateOf(ddr200, id, clock).Rate?
    ensures var r := RateOf(ddr200, id, clock); r.reg.Gives(id, RUNNING, r.pclock) && Near(r.pclock, clock)
  {
  }

  /** Which rates are listed, which of them need the PLL, and which take its low-jitter path. */
  lemma ListedRates(ddr200: bool, id: nat, clock: nat)
    requires id < CONTROLLERS
    ensures RateOf(ddr200, id, clock).Rate? <==>
              clock in [25000, 26000, 50000, 52000, 82000, 100000, 164000, 200000] || (ddr200 && clock == 400000)
    ensures Register(RateOf(ddr200, id, clock)).Derived() <==>
              clock == 100000 || clock == 200000 || (ddr200 && clock == 400000)
    ensures Register(RateOf(ddr200, id, clock)).source == PLLC4_OUT2_LJ <==> clock == 200000 && (id == 1 || id == 3)
  {
  }

  // ----- The state and its transitions -----

  datatype Cached = Cached(clock: nat, pclock: nat)

  /** The registers */
  datatype Hw = Hw(base: PllBase, source: seq<Source>, enabled: seq<bool>, inReset: seq<bool>, legacyTm: bool)
  {
    predicate Shaped() { |source| == |enabled| == |inReset| == CONTROLLERS }

    /** No controller is clocked from a PLL that is not running. */
    predicate Safe()
    {
      Shaped() && forall id :: 0 <= id < CONTROLLERS && enabled[id] && source[id].Derived() ==> base == RUNNING
    }
  }

  datatype State = State(mask: bv32, table: seq<Cached>, hw: Hw)
  {
    predicate Shaped() { |table| == CONTROLLERS && hw.Shaped() }

    predicate Uses(id: nat)
      requires id < CONTROLLERS
    {
      UseBit(mask, id)
    }

    predicate InUse() { exists id :: 0 <= id < CONTROLLERS && Uses(id) }

    /** What every call keeps. */
    predicate Inv(ddr200: bool)
    {
      Shaped() && hw.Safe() &&
      (FlagSet(mask) ==> hw.base == RUNNING) && (InUse() <==> FlagSet(mask)) && OnlyKnown(mask) &&
      forall id :: 0 <= id < CONTROLLERS ==> ControllerOk(ddr200, id)
    }

    /** A controller on PLLC4 holds its use bit, and its table entry tells the truth about its register. */
    predicate ControllerOk(ddr200: bool, id: nat)
      requires Shaped() && id < CONTROLLERS
    {
      (hw.enabled[id] && hw.source[id].Derived() ==> Uses(id)) &&
      var r := RateOf(ddr200, id, table[id].clock);
      r.Rate? ==> table[id].pclock == r.pclock && hw.source[id] == r.reg && hw.legacyTm
    }

    /** `clock_sdmmc_is_active` */
    predicate Active(id: nat)
      requires Shaped() && id < CONTROLLERS
    {
      !hw.inReset[id] && hw.enabled[id]
    }
  }

  /** Nothing has been called yet and no controller is clocked from the PLL, which may be on or off. */
  predicate Initial(s: State)
  {
    s.Shaped() && s.mask == 0 &&
    forall id :: 0 <= id < CONTROLLERS ==>
      s.table[id] == Cached(0, 0) && !(s.hw.enabled[id] && s.hw.source[id].Derived())
  }

  datatype Op =
    | Enable(id: nat, clock: nat)
    | Config(id: nat, clock: nat, given: nat)
    | Disable(id: nat)
  {
    predicate Legal(ddr200: bool)
    {
      id < CONTROLLERS && (Enable? ==> RateOf(ddr200, id, clock).Rate?)
    }
  }

  /** A controller after it got a rate. */
  function Programmed(s: State, ddr200: bool, id: nat, clock: nat, given: nat): State
    requires s.Shaped() && id < CONTROLLERS
  {
    var r := RateOf(ddr200, id, clock);
    var hw := s.hw.(source := s.hw.source[id := Register(r)], legacyTm := true);
    var t := s.table[id := Cached(clock, if r.Rate? then r.pclock else given)];
    if Register(r).Derived() then
      State(WithUse(s.mask, id), t, if FlagSet(s.mask) then hw else hw.(base := RUNNING))
    else
      State(s.mask, t, hw)
  }

  /** A controller with its clock on or off, in or out of reset */
  function Switched(s: State, id: nat, on: bool, reset: bool): State
    requires s.Shaped() && id < CONTROLLERS
  {
    s.(hw := s.hw.(enabled := s.hw.enabled[id := on], inReset := s.hw.inReset[id := reset]))
  }

  function Released(s: State, id: nat): State
    requires id < CONTROLLERS
  {
    var m := WithoutUse(s.mask, id);
    if m & IN_USE != 0 || !FlagSet(m) then s.(mask := m)
    else s.(mask := 0, hw := s.hw.(base := s.hw.base.(enable := false, iddq := true)))
  }

  /** The state after a call. */
  function Step(s: State, ddr200: bool, op: Op): State
    requires s.Shaped() && op.Legal(ddr200)
  {
    match op
    case Enable(id, clock) =>
      Switched(Programmed(s, ddr200, id, clock, 0), id, true, false)
    case Config(id, clock, given) =>
      if s.table[id].clock == clock then s else Programmed(s, ddr200, id, clock, given)
    case Disable(id) =>
      Released(Switched(s, id, false, true), id)
  }

  ghost predicate Legal(ddr200: bool, ops: seq<Op>) { forall k :: 0 <= k < |ops| ==> ops[k].Legal(ddr200) }

  function Run(s: State, ddr200: bool, ops: seq<Op>): (r: State)
    requires s.Shaped() && Legal(ddr200, ops)
    ensures r.Shaped()
    decreases ops
  {
    if ops == [] then s else Step(Run(s, ddr200, ops[..|ops| - 1]), ddr200, ops[|ops| - 1])
  }

  // ----- The mask -----

  lemma SetBitFacts(m: bv32, a: bv32, b: bv32)
    requires OneBit(a) && OneBit(b)
    ensures Has(Put(m, a), b) <==> a == b || Has(m, b)
  {
  }

  lemma ClearBitFacts(m: bv32, a: bv32, b: bv32)
    requires OneBit(a) && OneBit(b)
    ensures Has(Drop(m, a), b) <==> a != b && Has(m, b)
  {
  }

  lemma FlagFacts(m: bv32, a: bv32)
    requires OneBit(a)
    ensures FlagSet(Put(m, a)) && FlagSet(Drop(m, a)) == FlagSet(m)
  {
  }

  lemma KnownFacts(m: bv32, a: bv32)
    requires OneBit(a) && OnlyKnown(m)
    ensures OnlyKnown(Put(m, a)) && OnlyKnown(Drop(m, a))
  {
  }

  lemma SetAgain(m: bv32, a: bv32)
    requires OneBit(a) && Has(m, a) && FlagSet(m)
    ensures Put(m, a) == m
  {
  }

  lemma BitsApart(i: nat, j: nat)
    requires i < CONTROLLERS && j < CONTROLLERS
    ensures OneBit(Bit(i)) && (Bit(i) == Bit(j) <==> i == j)
  {
  }

  lemma UseFacts(m: bv32, i: nat, j: nat)
    requires i < CONTROLLERS && j < CONTROLLERS
    ensures UseBit(WithUse(m, i), j) <==> i == j || UseBit(m, j)
    ensures UseBit(WithoutUse(m, i), j) <==> i != j && UseBit(m, j)
  {
    hide Bit, OneBit, Has, Put, Drop, FlagSet, OnlyKnown;
    BitsApart(i, j);
    BitsApart(j, i);
    SetBitFacts(m, Bit(i), Bit(j));
    ClearBitFacts(m, Bit(i), Bit(j));
  }

  lemma MaskFacts(m: bv32, i: nat, j: nat)
    requires i < CONTROLLERS && j < CONTROLLERS
    ensures UseBit(WithUse(m, i), j) <==> i == j || UseBit(m, j)
    ensures UseBit(WithoutUse(m, i), j) <==> i != j && UseBit(m, j)
    ensures FlagSet(WithUse(m, i)) && FlagSet(WithoutUse(m, i)) == FlagSet(m)
    ensures OnlyKnown(m) ==> OnlyKnown(WithUse(m, i)) && OnlyKnown(WithoutUse(m, i))
    ensures UseBit(m, i) && FlagSet(m) ==> WithUse(m, i) == m
  {
    hide Bit, OneBit, Has, Put, Drop, FlagSet, OnlyKnown;
    UseFacts(m, i, j);
    BitsApart(i, j);
    FlagFacts(m, Bit(i));
    if OnlyKnown(m) { KnownFacts(m, Bit(i)); }
    if UseBit(m, i) && FlagSet(m) { SetAgain(m, Bit(i)); }
  }

  lemma ZeroMask(j: nat)
    requires j < CONTROLLERS
    ensures !UseBit(0, j) && !FlagSet(0) && OnlyKnown(0)
  {
    var b := Bit(j);
    assert 0 & b == 0 && 0 & ENABLED == 0 && 0 & !KNOWN == 0;
  }

  /** The in-use test of line 616 sees exactly the use bits. */
  lemma InUseTest(m: bv32)
    requires OnlyKnown(m)
    ensures m & IN_USE != 0 <==> UseBit(m, 0) || UseBit(m, 1) || UseBit(m, 2) || UseBit(m, 3)
  {
  }

  lemma InUseIs(s: State)
    requires OnlyKnown(s.mask)
    ensures s.InUse() <==> s.mask & IN_USE != 0
  {
    hide UseBit, OnlyKnown;
    InUseTest(s.mask);
    assert s.InUse() <==> s.Uses(0) || s.Uses(1) || s.Uses(2) || s.Uses(3) by {
      if s.InUse() {
        var id :| 0 <= id < CONTROLLERS && s.Uses(id);
        assert id == 0 || id == 1 || id == 2 || id == 3;
      }
    }
  }

  // ----- What every call keeps -----

  lemma InitialInv(s: State, ddr200: bool)
    requires Initial(s)
    ensures s.Inv(ddr200)
  {
    hide UseBit, FlagSet, OnlyKnown;
    forall id | 0 <= id < CONTROLLERS ensures !s.Uses(id) && s.ControllerOk(ddr200, id) { ZeroMask(id); }
    ZeroMask(0);
  }

  lemma ProgrammedInv(s: State, ddr200: bool, id: nat, clock: nat, given: nat)
    requires s.Inv(ddr200) && id < CONTROLLERS
    ensures Programmed(s, ddr200, id, clock, given).Inv(ddr200)
    ensures var t := Programmed(s, ddr200, id, clock, given);
            t.hw.source[id].Derived() ==> t.Uses(id)
  {
    var t := Programmed(s, ddr200, id, clock, given);
    var derived := Register(RateOf(ddr200, id, clock)).Derived();
    hide RateOf, UseBit, WithUse, WithoutUse, FlagSet, OnlyKnown;
    forall j | 0 <= j < CONTROLLERS
      ensures t.Uses(j) <==> (derived && j == id) || s.Uses(j)
      ensures t.ControllerOk(ddr200, j)
    {
      MaskFacts(s.mask, id, j);
      assert s.ControllerOk(ddr200, j);
    }
    MaskFacts(s.mask, id, id);
    if derived { assert t.Uses(id); } else { assert t.InUse() == s.InUse(); }
  }

  lemma ReleasedInv(s: State, ddr200: bool, id: nat)
    requires s.Inv(ddr200) && id < CONTROLLERS && !s.hw.enabled[id]
    ensures Released(s, id).Inv(ddr200)
    ensures forall j :: 0 <= j < CONTROLLERS ==> Released(s, id).Uses(j) == (j != id && s.Uses(j))
  {
    var t, m := Released(s, id), WithoutUse(s.mask, id);
    hide RateOf, UseBit, WithUse, WithoutUse, FlagSet, OnlyKnown;
    MaskFacts(s.mask, id, id);
    InUseIs(s.(mask := m));
    forall j | 0 <= j < CONTROLLERS
      ensures t.Uses(j) == (j != id && s.Uses(j)) && (t.mask == 0 ==> !t.Uses(j))
      ensures t.ControllerOk(ddr200, j)
    {
      MaskFacts(s.mask, id, j);
      assert s.ControllerOk(ddr200, j);
      assert m & IN_USE == 0 ==> !s.(mask := m).Uses(j);
      ZeroMask(j);
    }
    ZeroMask(id);
    if t.InUse() {
      var j :| 0 <= j < CONTROLLERS && t.Uses(j);
      assert s.Uses(j);
      ZeroMask(j);
    }
    forall j | 0 <= j < CONTROLLERS && t.hw.enabled[j] && t.hw.source[j].Derived() ensures t.hw.base == RUNNING {
      assert t.ControllerOk(ddr200, j) && s.ControllerOk(ddr200, j);
    }
  }

  /** Every call keeps the invariant. */
  lemma StepInv(s: State, ddr200: bool, op: Op)
    requires s.Inv(ddr200) && op.Legal(ddr200)
    ensures Step(s, ddr200, op).Inv(ddr200)
  {
    hide RateOf, UseBit, WithUse, WithoutUse, FlagSet, OnlyKnown, Programmed, Released;
    match op
    case Enable(id, clock) =>
      ProgrammedInv(s, ddr200, id, clock, 0);
      SwitchInv(Programmed(s, ddr200, id, clock, 0), ddr200, id, true, false);
    case Config(id, clock, given) =>
      ProgrammedInv(s, ddr200, id, clock, given);
    case Disable(id) =>
      SwitchInv(s, ddr200, id, false, true);
      ReleasedInv(Switched(s, id, false, true), ddr200, id);
  }

  /** Switching a controller on or off, and into or out of reset */
  lemma SwitchInv(s: State, ddr200: bool, id: nat, on: bool, reset: bool)
    requires s.Inv(ddr200) && id < CONTROLLERS
    requires on && s.hw.source[id].Derived() ==> s.Uses(id)
    ensures Switched(s, id, on, reset).Inv(ddr200)
  {
    hide RateOf, UseBit, WithUse, WithoutUse, FlagSet, OnlyKnown;
    var t := Switched(s, id, on, reset);
    forall j | 0 <= j < CONTROLLERS ensures t.ControllerOk(ddr200, j) && t.Uses(j) == s.Uses(j) {
      assert s.ControllerOk(ddr200, j);
    }
    assert t.InUse() == s.InUse();
  }

  /** Over every run of calls: an enabled controller with a PLLC4 source holds its use bit and the PLL is
      running; the PLL is running while some use bit is set. */
  lemma {:induction false} RunInv(s: State, ddr200: bool, ops: seq<Op>)
    requires Initial(s) && Legal(ddr200, ops)
    ensures Run(s, ddr200, ops).Inv(ddr200)
    decreases ops
  {
    if ops == [] {
      InitialInv(s, ddr200);
    } else {
      RunInv(s, ddr200, ops[..|ops| - 1]);
      StepInv(Run(s, ddr200, ops[..|ops| - 1]), ddr200, ops[|ops| - 1]);
    }
  }

  /** An active controller is clocked at the frequency that its table entry announces. */
  lemma ActiveClock(s: State, ddr200: bool, id: nat)
    requires s.Inv(ddr200) && id < CONTROLLERS && s.Active(id) && RateOf(ddr200, id, s.table[id].clock).Rate?
    ensures s.hw.source[id].Gives(id, s.hw.base, s.table[id].pclock) && Near(s.table[id].pclock, s.table[id].clock)
  {
    assert s.ControllerOk(ddr200, id);
    ListedRateGivesItsClock(ddr200, id, s.table[id].clock);
  }

  /** What a call does to its controller: enabling leaves it active at the requested rate, a new rate keeps it
      on or off as it was, and disabling takes it off the clock and into reset. */
  lemma StepController(s: State, ddr200: bool, op: Op)
    requires s.Inv(ddr200) && op.Legal(ddr200)
    ensures var t, id := Step(s, ddr200, op), op.id;
            (op.Enable? ==>
               t.Active(id) && t.table[id].clock == op.clock && Near(t.table[id].pclock, op.clock) &&
               t.hw.source[id].Gives(id, t.hw.base, t.table[id].pclock) && t.hw.legacyTm) &&
            (op.Config? ==>
               t.hw.enabled[id] == s.hw.enabled[id] && t.hw.inReset[id] == s.hw.inReset[id] &&
               t.table[id].clock == op.clock &&
               if RateOf(ddr200, id, op.clock).Rate? then
                 Near(t.table[id].pclock, op.clock) && t.hw.source[id].Gives(id, RUNNING, t.table[id].pclock)
               else if s.table[id].clock == op.clock then t == s
               else t.table[id].pclock == op.given && !t.hw.source[id].Derived()) &&
            (op.Disable? ==>
               !t.hw.enabled[id] && t.hw.inReset[id] && t.table == s.table && t.hw.source == s.hw.source)
  {
    hide RateOf, UseBit, WithUse, WithoutUse, FlagSet, OnlyKnown, Source.Gives, Near;
    StepInv(s, ddr200, op);
    assert s.ControllerOk(ddr200, op.id) && Step(s, ddr200, op).ControllerOk(ddr200, op.id);
    if !op.Disable? && RateOf(ddr200, op.id, op.clock).Rate? {
      ListedRateGivesItsClock(ddr200, op.id, op.clock);
    }
    if op.Enable? { ActiveClock(Step(s, ddr200, op), ddr200, op.id); }
  }

  /** A call leaves every other controller as it was. */
  lemma StepFrame(s: State, ddr200: bool, op: Op, j: nat)
    requires s.Inv(ddr200) && op.Legal(ddr200) && j < CONTROLLERS && j != op.id
    ensures var t := Step(s, ddr200, op);
            t.table[j] == s.table[j] && t.hw.source[j] == s.hw.source[j] && t.hw.enabled[j] == s.hw.enabled[j] &&
            t.hw.inReset[j] == s.hw.inReset[j]
  {
    hide RateOf, UseBit, WithUse, WithoutUse, FlagSet, OnlyKnown;
  }

  // ----- The calls that hold the PLL -----

  /** The rate the controller was last given, 0 before the first */
  function LastClock(ops: seq<Op>, id: nat): nat
    decreases ops
  {
    if ops == [] then 0
    else
      var op, before := ops[|ops| - 1], ops[..|ops| - 1];
      if !op.Disable? && op.id == id then op.clock else LastClock(before, id)
  }

  /** Since it was last disabled, the controller was given a PLLC4 rate that it did not have already. */
  predicate Holds(ddr200: bool, ops: seq<Op>, id: nat)
    decreases ops
  {
    ops != [] &&
    var op, before := ops[|ops| - 1], ops[..|ops| - 1];
    if op.id != id then Holds(ddr200, before, id)
    else if op.Disable? then false
    else Holds(ddr200, before, id) ||
         (Register(RateOf(ddr200, id, op.clock)).Derived() && (op.Enable? || LastClock(before, id) != op.clock))
  }

  lemma InvParts(s: State, ddr200: bool)
    requires s.Inv(ddr200)
    ensures s.Shaped() && OnlyKnown(s.mask) && (FlagSet(s.mask) ==> s.hw.base == RUNNING) && s.hw.Safe()
  {
  }

  lemma StepUses(s: State, ddr200: bool, op: Op, id: nat)
    requires s.Inv(ddr200) && op.Legal(ddr200) && id < CONTROLLERS
    ensures Step(s, ddr200, op).Uses(id) <==>
            if op.id != id then s.Uses(id)
            else if op.Disable? then false
            else s.Uses(id) ||
                 (Register(RateOf(ddr200, id, op.clock)).Derived() && (op.Enable? || s.table[id].clock != op.clock))
    ensures Step(s, ddr200, op).table[id].clock == if !op.Disable? && op.id == id then op.clock else s.table[id].clock
  {
    hide RateOf, UseBit, WithUse, WithoutUse, FlagSet, OnlyKnown, State.Inv;
    assert s.Shaped() && OnlyKnown(s.mask) by { InvParts(s, ddr200); }
    MaskFacts(s.mask, op.id, id);
    if op.Disable? {
      ReleasedUses(Switched(s, op.id, false, true), ddr200, op.id, id);
    }
  }

  lemma ReleasedUses(s: State, ddr200: bool, id: nat, j: nat)
    requires OnlyKnown(s.mask) && id < CONTROLLERS && j < CONTROLLERS
    ensures Released(s, id).Uses(j) == (j != id && s.Uses(j)) && Released(s, id).table == s.table
  {
    hide RateOf, UseBit, WithUse, WithoutUse, FlagSet, OnlyKnown;
    var m := WithoutUse(s.mask, id);
    MaskFacts(s.mask, id, id);
    MaskFacts(s.mask, id, j);
    InUseIs(s.(mask := m));
    assert m & IN_USE == 0 ==> !s.(mask := m).Uses(j);
    ZeroMask(j);
  }

  /** After every run, a use bit is set just when the calls made its controller hold the PLL. */
  lemma {:induction false} UseBitsAreHolders(s: State, ddr200: bool, ops: seq<Op>, id: nat)
    requires Initial(s) && Legal(ddr200, ops) && id < CONTROLLERS
    ensures Run(s, ddr200, ops).Uses(id) <==> Holds(ddr200, ops, id)
    ensures Run(s, ddr200, ops).table[id].clock == LastClock(ops, id)
    decreases ops
  {
    hide RateOf, UseBit, WithUse, WithoutUse, FlagSet, OnlyKnown, Step, State.Inv;
    if ops == [] {
      ZeroMask(id);
    } else {
      var before := ops[..|ops| - 1];
      RunInv(s, ddr200, before);
      UseBitsAreHolders(s, ddr200, before, id);
      StepUses(Run(s, ddr200, before), ddr200, ops[|ops| - 1], id);
    }
  }

  /** Some controller holds the PLL. */
  predicate Held(ddr200: bool, ops: seq<Op>)
  {
    Holds(ddr200, ops, 0) || Holds(ddr200, ops, 1) || Holds(ddr200, ops, 2) || Holds(ddr200, ops, 3)
  }

  /** Some controller has held it after one of the calls. */
  predicate EverHeld(ddr200: bool, ops: seq<Op>)
    decreases ops
  {
    ops != [] && (Held(ddr200, ops) || EverHeld(ddr200, ops[..|ops| - 1]))
  }

  lemma FlagIsHeld(s: State, ddr200: bool, ops: seq<Op>)
    requires Initial(s) && Legal(ddr200, ops)
    ensures FlagSet(Run(s, ddr200, ops).mask) <==> Held(ddr200, ops)
  {
    hide RateOf, UseBit, WithUse, WithoutUse, FlagSet, Step;
    RunInv(s, ddr200, ops);
    InUseIs(Run(s, ddr200, ops));
    InUseTest(Run(s, ddr200, ops).mask);
    UseBitsAreHolders(s, ddr200, ops, 0);
    UseBitsAreHolders(s, ddr200, ops, 1);
    UseBitsAreHolders(s, ddr200, ops, 2);
    UseBitsAreHolders(s, ddr200, ops, 3);
  }

  /** A call that leaves the flag clear powers the PLL down, if the flag was set, and does not touch it
      otherwise. */
  lemma StepBase(s: State, ddr200: bool, op: Op)
    requires s.Inv(ddr200) && op.Legal(ddr200) && !FlagSet(Step(s, ddr200, op).mask)
    ensures var b := Step(s, ddr200, op).hw.base;
            if FlagSet(s.mask) then !b.enable && b.iddq else b == s.hw.base
  {
    hide RateOf, UseBit, WithUse, WithoutUse, FlagSet, OnlyKnown;
    MaskFacts(s.mask, op.id, op.id);
    ZeroMask(op.id);
  }

  /** After every run, the PLL runs while some controller holds it, is powered down when none does any more,
      and is as it was found when none ever did. */
  lemma {:induction false} PoweredWhileHeld(s: State, ddr200: bool, ops: seq<Op>)
    requires Initial(s) && Legal(ddr200, ops)
    ensures var b := Run(s, ddr200, ops).hw.base;
            if Held(ddr200, ops) then b == RUNNING else if EverHeld(ddr200, ops) then !b.enable && b.iddq
            else b == s.hw.base
    decreases ops
  {
    hide RateOf, UseBit, WithUse, WithoutUse, FlagSet, OnlyKnown, Step, Held;
    RunInv(s, ddr200, ops);
    FlagIsHeld(s, ddr200, ops);
    if ops != [] && !Held(ddr200, ops) {
      var before := ops[..|ops| - 1];
      PoweredWhileHeld(s, ddr200, before);
      RunInv(s, ddr200, before);
      FlagIsHeld(s, ddr200, before);
      HeldIsEver(ddr200, before);
      StepBase(Run(s, ddr200, before), ddr200, ops[|ops| - 1]);
    }
  }

  /** The call asks for a rate that needs the PLL. */
  predicate AsksForPll(ddr200: bool, op: Op)
  {
    !op.Disable? && (op.clock == 100000 || op.clock == 200000 || (ddr200 && op.clock == 400000))
  }

  /** Calls that never ask for such a rate leave the PLL as it was found. */
  lemma {:induction false} NeverAsked(s: State, ddr200: bool, ops: seq<Op>)
    requires Initial(s) && Legal(ddr200, ops) && forall k :: 0 <= k < |ops| ==> !AsksForPll(ddr200, ops[k])
    ensures Run(s, ddr200, ops).hw.base == s.hw.base
  {
    hide RateOf, Run, Held, EverHeld;
    NeverHeld(ddr200, ops);
    PoweredWhileHeld(s, ddr200, ops);
  }

  lemma {:induction false} NeverHeld(ddr200: bool, ops: seq<Op>)
    requires Legal(ddr200, ops) && forall k :: 0 <= k < |ops| ==> !AsksForPll(ddr200, ops[k])
    ensures !EverHeld(ddr200, ops) && !Held(ddr200, ops)
    ensures forall id :: 0 <= id < CONTROLLERS ==> !Holds(ddr200, ops, id)
    decreases ops
  {
    hide RateOf, Register;
    if ops != [] {
      var op := ops[|ops| - 1];
      NeverHeld(ddr200, ops[..|ops| - 1]);
      ListedRates(ddr200, op.id, if op.Disable? then 0 else op.clock);
    }
  }

  lemma HeldIsEver(ddr200: bool, ops: seq<Op>)
    ensures Held(ddr200, ops) ==> EverHeld(ddr200, ops)
  {
  }

  /** The answer from the table is the one that programming the rate again would give, and leaves the
      registers as that would, just when the rate needs no PLL or the controller holds it. */
  lemma CachedIsReprogrammed(s: State, ddr200: bool, id: nat, clock: nat, given: nat)
    requires s.Inv(ddr200) && id < CONTROLLERS && s.table[id].clock == clock && RateOf(ddr200, id, clock).Rate?
    ensures Programmed(s, ddr200, id, clock, given).table == s.table
    ensures Programmed(s, ddr200, id, clock, given) == s <==> (s.hw.source[id].Derived() ==> s.Uses(id))
  {
    hide RateOf, UseBit, WithUse, WithoutUse, FlagSet, OnlyKnown;
    assert s.ControllerOk(ddr200, id);
    var t := Programmed(s, ddr200, id, clock, given);
    MaskFacts(s.mask, id, id);
    var r := RateOf(ddr200, id, clock);
    assert s.table[id] == Cached(clock, r.pclock) && s.hw.source[id] == Register(r);
    assert s.table[id := s.table[id]] == s.table && s.hw.source[id := s.hw.source[id]] == s.hw.source;
    if s.hw.source[id].Derived() && s.Uses(id) {
      assert s.InUse() && FlagSet(s.mask);
      assert t.mask == s.mask;
      assert t.hw == s.hw;
      assert t.table == s.table;
      assert t == s;
    }
    if !s.hw.source[id].Derived() {
      assert t.mask == s.mask;
      assert t.hw == s.hw;
      assert t.table == s.table;
      assert t == s;
    }
    if s.hw.source[id].Derived() && !s.Uses(id) {
      assert t.Uses(id);
      assert t.mask != s.mask;
      assert t != s;
    }
  }

  // ----- The driver -----

  ghost predicate AllSafe(writes: seq<Hw>) { forall k :: 0 <= k < |writes| ==> writes[k].Safe() }

  lemma SafeWrite(writes: seq<Hw>, h: Hw)
    requires AllSafe(writes) && h.Safe()
    ensures AllSafe(writes + [h])
  {
  }

  /** The driver's variables and registers. The ghost history holds the registers after every single write,
      so its safety is that of every moment of a run. */
  class ClockDriver {
    const ddr200: bool
    var mask: bv32
    var table: seq<Cached>
    var hw: Hw
    ghost var writes: seq<Hw>

    function Now(): State
      reads this
    {
      State(mask, table, hw)
    }

    ghost predicate Valid()
      reads this
    {
      Now().Inv(ddr200) && AllSafe(writes)
    }

    constructor (ddr: bool, h: Hw)
      requires Initial(State(0, seq(CONTROLLERS, _ => Cached(0, 0)), h))
      ensures ddr200 == ddr && Valid() && Initial(Now()) && writes == [h]
    {
      ddr200, mask, table, hw, writes := ddr, 0, seq(CONTROLLERS, _ => Cached(0, 0)), h, [h];
      new;
      InitialInv(Now(), ddr200);
    }

    /** One register write */
    method Write(h: Hw)
      requires h.Safe() && AllSafe(writes)
      modifies this`hw, this`writes
      ensures hw == h && AllSafe(writes) && writes == old(writes) + [h]
    {
      hw := h;
      SafeWrite(writes, h);
      writes := writes + [h];
    }

    /** The register writes of lines 594-606. Nothing may be clocked from the PLL while they happen. */
    method StartPll()
      requires hw.Shaped() && AllSafe(writes)
      requires forall id :: 0 <= id < CONTROLLERS && hw.enabled[id] ==> !hw.source[id].Derived()
      modifies this`hw, this`writes
      ensures hw == old(hw).(base := RUNNING) && AllSafe(writes) && old(writes) <= writes
    {
      hide AllSafe;
      Write(hw.(base := hw.base.(enable := false)));
      Write(hw.(base := hw.base.(iddq := false)));
      Write(hw.(base := PllBase(false, false, 104, 4)));
      Write(hw.(base := hw.base.(enable := true)));
    }

    /** `_clock_enable_pllc4` */
    method EnablePllc4(id: nat)
      requires Valid() && id < CONTROLLERS
      modifies this`mask, this`hw, this`writes
      ensures mask == WithUse(old(mask), id) && hw == old(hw).(base := RUNNING)
      ensures AllSafe(writes) && old(writes) <= writes
    {
      hide AllSafe, RateOf, OnlyKnown, Bit, Has, Or, FlagSet, UseBit, WithUse, State.Inv;
      FlagAfter(mask, id);
      InvParts(Now(), ddr200);
      if !FlagSet(mask) { IdleWithoutFlag(Now(), ddr200); }
      mask := Or(mask, Bit(id));
      if FlagSet(mask) { return; }
      StartPll();
      mask := Or(mask, ENABLED);
    }

    /** `_clock_disable_pllc4` for a controller that is off */
    method DisablePllc4(id: nat)
      requires Valid() && id < CONTROLLERS && !hw.enabled[id]
      modifies this`mask, this`hw, this`writes
      ensures Now() == Released(old(Now()), id) && Valid() && old(writes) <= writes
    {
      hide AllSafe, RateOf, FlagSet, UseBit, OnlyKnown, Bit, State.Inv;
      ReleasedInv(Now(), ddr200, id);
      InvParts(Now(), ddr200);
      InvParts(Released(Now(), id), ddr200);
      ghost var end := Released(Now(), id);
      mask := WithoutUse(mask, id);
      if mask & IN_USE != 0 || !FlagSet(mask) { return; }
      Write(hw.(base := hw.base.(enable := false)));
      Write(hw.(base := hw.base.(iddq := true)));
      mask := 0;
    }

    /** `_clock_sdmmc_config_clock_host` on a controller that is off */
    method ConfigClockHost(id: nat, clock: nat, given: nat) returns (pclock: nat)
      requires Valid() && id < CONTROLLERS && !hw.enabled[id]
      modifies this
      ensures Now() == Programmed(old(Now()), ddr200, id, clock, given) && Valid() && old(writes) <= writes
      ensures pclock == table[id].pclock && (hw.source[id].Derived() ==> Now().Uses(id))
    {
      hide AllSafe, RateOf;
      var r := RateOf(ddr200, id, clock);
      ghost var end := Programmed(Now(), ddr200, id, clock, given);
      ProgrammedInv(Now(), ddr200, id, clock, given);
      pclock := if r.Rate? then r.pclock else given;
      var source := Register(r);
      if source.source != PLLP_OUT0 { EnablePllc4(id); }
      table := table[id := Cached(clock, pclock)];
      Write(hw.(legacyTm := true));
      Write(hw.(source := hw.source[id := source]));
    }

    /** `clock_sdmmc_config_clock_source` */
    method ConfigClockSource(id: nat, clock: nat, given: nat) returns (pclock: nat)
      requires Valid() && id < CONTROLLERS
      modifies this
      ensures Valid() && old(writes) <= writes
      ensures Now() == Step(old(Now()), ddr200, Config(id, clock, given)) && pclock == table[id].pclock
      ensures RateOf(ddr200, id, clock).Rate? ==>
                Near(pclock, clock) && hw.source[id].Gives(id, RUNNING, pclock)
    {
      hide AllSafe, RateOf, Programmed, Switched, State.Inv, UseBit, Near, Source.Gives;
      InvParts(Now(), ddr200);
      StepController(Now(), ddr200, Config(id, clock, given));
      if table[id].clock == clock { return table[id].pclock; }
      AroundProgrammed(Now(), ddr200, id, clock, given);
      var enabled := hw.enabled[id];
      if enabled { SwitchClock(id, false, hw.inReset[id]); }
      pclock := ConfigClockHost(id, clock, given);
      if enabled { SwitchClock(id, true, hw.inReset[id]); }
    }

    /** The writes that set or clear the clock enable bit and the reset bit of a controller */
    method SwitchClock(id: nat, on: bool, reset: bool)
      requires Valid() && id < CONTROLLERS && (on && hw.source[id].Derived() ==> Now().Uses(id))
      modifies this`hw, this`writes
      ensures Now() == Switched(old(Now()), id, on, reset) && Valid() && old(writes) <= writes
    {
      hide AllSafe, RateOf;
      SwitchInv(Now(), ddr200, id, on, reset);
      SwitchInv(Now(), ddr200, id, on, hw.inReset[id]);
      Write(hw.(enabled := hw.enabled[id := on]));
      Write(hw.(inReset := hw.inReset[id := reset]));
    }

    /** `clock_sdmmc_enable` */
    method EnableClock(id: nat, clock: nat)
      requires Valid() && Enable(id, clock).Legal(ddr200)
      modifies this
      ensures Valid() && old(writes) <= writes && Now() == Step(old(Now()), ddr200, Enable(id, clock))
      ensures Now().Active(id) && Near(table[id].pclock, clock) && hw.source[id].Gives(id, hw.base, table[id].pclock)
    {
      hide AllSafe, RateOf, Register, UseBit, FlagSet, OnlyKnown, WithUse, Near, Source.Gives;
      StepController(Now(), ddr200, Enable(id, clock));
      SwitchClock(id, false, true);
      var pclock := ConfigClockHost(id, clock, 0);
      SwitchClock(id, true, true);
      SwitchClock(id, true, false);
    }

    /** `clock_sdmmc_disable` */
    method DisableClock(id: nat)
      requires Valid() && id < CONTROLLERS
      modifies this
      ensures Valid() && old(writes) <= writes && Now() == Step(old(Now()), ddr200, Disable(id))
    {
      hide AllSafe, RateOf, Register, UseBit, FlagSet, OnlyKnown, WithUse, Released;
      assert Now().ControllerOk(ddr200, id);
      SwitchTwice(Now(), id, hw.enabled[id]);
      SwitchClock(id, hw.enabled[id], true);
      SwitchClock(id, false, true);
      DisablePllc4(id);
    }
  }

  /** Programming an enabled controller with its clock switched off around it */
  lemma AroundProgrammed(s: State, ddr200: bool, id: nat, clock: nat, given: nat)
    requires s.Shaped() && id < CONTROLLERS
    ensures var off := Switched(s, id, false, s.hw.inReset[id]);
            var p := Programmed(off, ddr200, id, clock, given);
            !off.hw.enabled[id] && p.Shaped() && off.hw.inReset[id] == p.hw.inReset[id] == s.hw.inReset[id] &&
            (s.hw.enabled[id] ==> Switched(p, id, true, s.hw.inReset[id]) == Programmed(s, ddr200, id, clock, given))
  {
    hide RateOf, Register, WithUse, FlagSet;
    var r := Programmed(s, ddr200, id, clock, given);
    if s.hw.enabled[id] {
      assert s.hw.enabled[id := false][id := true] == s.hw.enabled;
      assert s.hw.inReset[id := s.hw.inReset[id]] == s.hw.inReset;
    }
  }

  lemma SwitchTwice(s: State, id: nat, on: bool)
    requires s.Shaped() && id < CONTROLLERS
    ensures Switched(Switched(s, id, on, true), id, false, true) == Switched(s, id, false, true)
  {
  }

  lemma FlagKept(m: bv32, b: bv32)
    requires OneBit(b)
    ensures FlagSet(Or(m, b)) == FlagSet(m)
  {
  }

  lemma FlagAgain(m: bv32, b: bv32)
    requires OneBit(b) && FlagSet(m)
    ensures Put(m, b) == Or(m, b)
  {
    hide Or, FlagSet;
    FlagKept(m, b);
    TopSet(Or(m, b));
  }

  lemma TopSet(m: bv32)
    requires FlagSet(m)
    ensures Or(m, ENABLED) == m
  {
    assert m & 0x8000_0000 != 0;
  }

  lemma FlagAfter(m: bv32, id: nat)
    requires id < CONTROLLERS
    ensures FlagSet(Or(m, Bit(id))) == FlagSet(m) && (FlagSet(m) ==> WithUse(m, id) == Or(m, Bit(id)))
    ensures WithUse(m, id) == Or(Or(m, Bit(id)), ENABLED)
  {
    hide Bit, OneBit, Or, FlagSet;
    BitsApart(id, id);
    FlagKept(m, Bit(id));
    if FlagSet(m) { FlagAgain(m, Bit(id)); }
  }

  /** Without the flag no enabled controller is clocked from the PLL. */
  lemma IdleWithoutFlag(s: State, ddr200: bool)
    requires s.Inv(ddr200) && !FlagSet(s.mask)
    ensures forall id :: 0 <= id < CONTROLLERS && s.hw.enabled[id] ==> !s.hw.source[id].Derived()
  {
    hide RateOf, UseBit, OnlyKnown;
    forall id | 0 <= id < CONTROLLERS && s.hw.enabled[id] ensures !s.hw.source[id].Derived() {
      assert s.ControllerOk(ddr200, id);
    }
  }
}
