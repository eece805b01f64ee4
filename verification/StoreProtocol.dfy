/** The key/value store of the repository: a host driver, three single-bank endpoints and a gadget
    that polls them.  One gadget pass is atomic with respect to the transfers. */
module StoreProtocol {
  import opened Usb

  type uint64 = x: int | 0 <= x < 0x1_0000_0000_0000_0000

  const CMD_STORE: byte := 0x00
  const CMD_READ: byte := 0x03
  const CMD_DELETE: byte := 0x06
  const CMD_NULL: byte := 0xFF

  const MAX_BLOBS: nat := 256

  datatype Option<+T> = None | Some(value: T)

  /** A packet from the gadget: one 16-bit value, or nothing. */
  datatype InPacket = NoData | Value(v: uint16)

  datatype UsbCommand = UsbCommand(kind: byte, index: uint64)

  /** The gadget's `state_t` and blob array, and the three endpoint banks. */
  datatype Gadget = Gadget(command: byte, index: uint64, blobs: seq<uint16>,
                           inBank: Option<InPacket>, outBank: Option<uint16>, cmdBank: Option<UsbCommand>)

  // ---- teensy_blobs.c ---------------------------------------------------------------

  /** The guard of all three blob operations. */
  predicate Accepted(index: uint64) { !(index > MAX_BLOBS) }

  /** It admits one index that is not in the array. */
  lemma GuardOffByOne(index: uint64)
    ensures Accepted(index) && !(index < MAX_BLOBS) <==> index == 256
  {}

  /** An accepted store; the write behind the array for index 256 is left out. */
  function Stored(blobs: seq<uint16>, index: uint64, data: uint16): (r: seq<uint16>)
    ensures |r| == |blobs|
  {
    if Accepted(index) && index < |blobs| then blobs[index := data] else blobs
  }

  /** What a read leaves in the caller's variable; `junk` is what it held, or what lies at index 256. */
  function Fetched(blobs: seq<uint16>, index: uint64, junk: uint16): uint16 {
    if Accepted(index) && index < |blobs| then blobs[index] else junk
  }

  // ---- StoreTask --------------------------------------------------------------------

  function ServeIn(g: Gadget, junk: uint16): Gadget {
    if g.inBank.Some? then g
    else g.(inBank := Some(if g.command == CMD_READ then Value(Fetched(g.blobs, g.index, junk)) else NoData))
  }

  function ServeOut(g: Gadget): Gadget {
    match g.outBank
    case None => g
    case Some(d) =>
      (if g.command == CMD_STORE then g.(blobs := Stored(g.blobs, g.index, d)) else g).(outBank := None)
  }

  function ServeCommand(g: Gadget): Gadget {
    match g.cmdBank
    case None => g
    case Some(c) =>
      var blobs := if c.kind == CMD_DELETE then Stored(g.blobs, c.index, 0) else g.blobs;
      Gadget(c.kind, c.index, blobs, None, None, None)
  }

  function PollingPass(g: Gadget, junk: uint16): Gadget { ServeCommand(ServeOut(ServeIn(g, junk))) }

  // ---- The host ------------------------------------------------------------------------

  datatype Operation = Read(index: uint64) | Write(index: uint64, data: uint16) | Erase(index: uint64)

  /** Where the driver is inside read() or write(); `seen` says that a pass has run since the command. */
  datatype Phase = Idle | Reading(index: uint64, seen: bool) | Writing(index: uint64, data: uint16, seen: bool)

  datatype Event = DidRead(index: uint64, got: uint16) | DidWrite(index: uint64, data: uint16) | DidErase(index: uint64)

  /** The whole system, with the operations completed so far. */
  datatype System = System(gadget: Gadget, phase: Phase, history: seq<Event>)

  datatype Step =
    | Pass(junk: uint16)       // one run of StoreTask
    | Begin(op: Operation)     // the command transfer
    | TakeData                 // the IN transfer of a read
    | GiveData                 // the OUT transfer of a write
    | TimeOut                  // usb_bulk_msg gives up

  function CommandOf(op: Operation): UsbCommand {
    match op
    case Read(i) => UsbCommand(CMD_READ, i)
    case Write(i, _) => UsbCommand(CMD_STORE, i)
    case Erase(i) => UsbCommand(CMD_DELETE, i)
  }

  /** When a step can happen: the semaphore serialises the operations, a transfer needs its bank, and
      at least one pass separates a command from its data.  Index 256 is left out. */
  predicate Enabled(s: System, step: Step) {
    match step
    case Pass(_) => true
    case Begin(op) => s.phase.Idle? && s.gadget.cmdBank.None? && op.index != 256
    case TakeData => s.phase.Reading? && s.phase.seen && s.gadget.inBank.Some?
    case GiveData => s.phase.Writing? && s.phase.seen && s.gadget.outBank.None?
    case TimeOut => !s.phase.Idle?
  }

  function Seen(phase: Phase): Phase {
    match phase
    case Idle => Idle
    case Reading(i, _) => Reading(i, true)
    case Writing(i, d, _) => Writing(i, d, true)
  }

  function Begun(s: System, op: Operation): System {
    var s1 := s.(gadget := s.gadget.(cmdBank := Some(CommandOf(op))));
    match op
    case Read(i) => s1.(phase := Reading(i, false))
    case Write(i, d) => s1.(phase := Writing(i, d, false))
    case Erase(i) => s1.(history := s.history + [DidErase(i)])
  }

  function Next(s: System, step: Step): System {
    match step
    case Pass(junk) => s.(gadget := PollingPass(s.gadget, junk), phase := Seen(s.phase))
    case Begin(op) => Begun(s, op)
    case TakeData =>
      if s.phase.Reading? && s.gadget.inBank.Some? then
        s.(gadget := s.gadget.(inBank := None), phase := Idle,
           history := if s.gadget.inBank.value.Value?
                      then s.history + [DidRead(s.phase.index, s.gadget.inBank.value.v)] else s.history)
      else s
    case GiveData =>
      if s.phase.Writing? then
        s.(gadget := s.gadget.(outBank := Some(s.phase.data)), phase := Idle,
           history := s.history + [DidWrite(s.phase.index, s.phase.data)])
      else s
    case TimeOut => s.(phase := Idle)
  }

  ghost predicate Legal(s: System, steps: seq<Step>)
    decreases |steps|
  {
    steps == [] || (Enabled(s, steps[0]) && Legal(Next(s, steps[0]), steps[1..]))
  }

  function Run(s: System, steps: seq<Step>): System
    decreases |steps|
  {
    if steps == [] then s else Run(Next(s, steps[0]), steps[1..])
  }

  function Cleared(): (r: seq<uint16>)
    ensures |r| == MAX_BLOBS && forall i :: 0 <= i < MAX_BLOBS ==> r[i] == 0
  {
    seq(MAX_BLOBS, _ => 0)
  }

  function Initial(): System {
    System(Gadget(CMD_NULL, 0, Cleared(), None, None, None), Idle, [])
  }

  // ---- The register array it is meant to be -----------------------------------------------

  function Apply(regs: seq<uint16>, e: Event): (r: seq<uint16>)
    ensures |r| == |regs|
  {
    match e
    case DidRead(_, _) => regs
    case DidWrite(i, d) => if i < |regs| then regs[i := d] else regs
    case DidErase(i) => if i < |regs| then regs[i := 0] else regs
  }

  /** The registers after a history, all zero at first. */
  function Registers(history: seq<Event>): (r: seq<uint16>)
    ensures |r| == MAX_BLOBS
    decreases |history|
  {
    if history == [] then Cleared()
    else Apply(Registers(history[..|history| - 1]), history[|history| - 1])
  }

  /** Every read of an index in range has returned the register's value at that moment. */
  ghost predicate ReadsCorrect(history: seq<Event>) {
    forall k :: 0 <= k < |history| && history[k].DidRead? && history[k].index < MAX_BLOBS ==>
      history[k].got == Registers(history[..k])[history[k].index]
  }

  // ---- Refinement --------------------------------------------------------------------------

  /** The registers as the host sees them: the blobs, with what the banks still hold applied. */
  function Effective(g: Gadget): (r: seq<uint16>)
    ensures |r| == |g.blobs|
  {
    var r1 := match g.outBank
              case None => g.blobs
              case Some(d) => Stored(g.blobs, g.index, d);
    match g.cmdBank
    case None => r1
    case Some(c) => if c.kind == CMD_DELETE then Stored(r1, c.index, 0) else r1
  }

  ghost predicate Inv(s: System) {
    var g := s.gadget;
    && |g.blobs| == MAX_BLOBS
    && Effective(g) == Registers(s.history)
    && ReadsCorrect(s.history)
    // data waits only for a store command, and for the one it belongs to
    && (g.outBank.Some? ==> g.command == CMD_STORE && g.index != 256)
    // what a read command finds in the IN bank was put there for it
    && (g.command == CMD_READ && g.inBank.Some? ==>
          g.inBank.value.Value? && (g.index < MAX_BLOBS ==> g.inBank.value.v == g.blobs[g.index]))
    && match s.phase
       case Idle => true
       case Reading(i, seen) =>
         i != 256 && if seen then g.command == CMD_READ && g.index == i && g.cmdBank.None? && g.outBank.None?
                     else g.cmdBank == Some(UsbCommand(CMD_READ, i))
       case Writing(i, d, seen) =>
         i != 256 && if seen then g.command == CMD_STORE && g.index == i && g.cmdBank.None? && g.outBank.None?
                     else g.cmdBank == Some(UsbCommand(CMD_STORE, i))
  }

  lemma RegistersSnoc(history: seq<Event>, e: Event)
    ensures Registers(history + [e]) == Apply(Registers(history), e)
  {
    assert (history + [e])[..|history|] == history;
  }

  lemma ReadsSnoc(history: seq<Event>, e: Event)
    requires ReadsCorrect(history)
    requires e.DidRead? && e.index < MAX_BLOBS ==> e.got == Registers(history)[e.index]
    ensures ReadsCorrect(history + [e])
  {
    var h := history + [e];
    forall k | 0 <= k < |h| && h[k].DidRead? && h[k].index < MAX_BLOBS
      ensures h[k].got == Registers(h[..k])[h[k].index]
    {
      assert h[..k] == history[..k];
      assert history[..|history|] == history;
    }
  }

  /** A polling pass never changes what the host sees, however it interleaves. */
  lemma PassKeepsEffective(g: Gadget, junk: uint16)
    requires g.outBank.Some? ==> g.command == CMD_STORE
    ensures Effective(PollingPass(g, junk)) == Effective(g)
  {}

  lemma InitialInv()
    ensures Inv(Initial())
  {}

  lemma PassInv(s: System, junk: uint16)
    requires Inv(s)
    ensures Inv(Next(s, Pass(junk)))
  {
    hide Effective, Registers, ReadsCorrect;
    PassKeepsEffective(s.gadget, junk);
  }

  lemma BeginInv(s: System, op: Operation)
    requires Inv(s) && Enabled(s, Begin(op))
    ensures Inv(Next(s, Begin(op)))
  {
    hide Registers, ReadsCorrect;
    if op.Erase? {
      RegistersSnoc(s.history, DidErase(op.index));
      ReadsSnoc(s.history, DidErase(op.index));
    }
  }

  lemma TakeDataInv(s: System)
    requires Inv(s) && Enabled(s, TakeData)
    ensures Inv(Next(s, TakeData))
  {
    hide Registers, ReadsCorrect;
    var e := DidRead(s.phase.index, s.gadget.inBank.value.v);
    RegistersSnoc(s.history, e);
    ReadsSnoc(s.history, e);
  }

  lemma GiveDataInv(s: System)
    requires Inv(s) && Enabled(s, GiveData)
    ensures Inv(Next(s, GiveData))
  {
    hide Registers, ReadsCorrect;
    var e := DidWrite(s.phase.index, s.phase.data);
    RegistersSnoc(s.history, e);
    ReadsSnoc(s.history, e);
  }

  lemma StepInv(s: System, step: Step)
    requires Inv(s) && Enabled(s, step)
    ensures Inv(Next(s, step))
  {
    match step
    case Pass(junk) => PassInv(s, junk);
    case Begin(op) => BeginInv(s, op);
    case TakeData => TakeDataInv(s);
    case GiveData => GiveDataInv(s);
    case TimeOut =>
  }

  /** In every run of the protocol the store is a 256-entry register array: each read returns the
      value of the last completed write, or 0 after an erase or when nothing was written. */
  lemma {:induction false} StoreRefinesRegisters(s: System, steps: seq<Step>)
    requires Inv(s) && Legal(s, steps)
    ensures Inv(Run(s, steps))
    decreases |steps|
  {
    if steps != [] {
      StepInv(s, steps[0]);
      StoreRefinesRegisters(Next(s, steps[0]), steps[1..]);
    }
  }

  /** The same, from power-on and in the host's own terms. */
  lemma ReadReturnsLastWrite(steps: seq<Step>, k: nat)
    requires Legal(Initial(), steps)
    requires var h := Run(Initial(), steps).history; k < |h| && h[k].DidRead? && h[k].index < MAX_BLOBS
    ensures var h := Run(Initial(), steps).history; h[k].got == LastValue(h[..k], h[k].index)
  {
    InitialInv();
    StoreRefinesRegisters(Initial(), steps);
    var h := Run(Initial(), steps).history;
    LastValueIsRegister(h[..k], h[k].index);
  }

  /** The data of the last write to `i` in a history, 0 when it was erased later or never written. */
  function LastValue(history: seq<Event>, i: uint64): uint16
    decreases |history|
  {
    if history == [] then 0
    else
      var e := history[|history| - 1];
      if e.DidWrite? && e.index == i then e.data
      else if e.DidErase? && e.index == i then 0
      else LastValue(history[..|history| - 1], i)
  }

  lemma {:induction false} LastValueIsRegister(history: seq<Event>, i: uint64)
    requires i < MAX_BLOBS
    ensures LastValue(history, i) == Registers(history)[i]
    decreases |history|
  {
    if history != [] { LastValueIsRegister(history[..|history| - 1], i); }
  }

  /** Two passes after its command a read finds its data, whatever the banks held before. */
  lemma ReadBecomesReady(s: System, i: uint64, junk1: uint16, junk2: uint16)
    requires Inv(s) && s.phase == Reading(i, false)
    ensures var s' := Next(Next(s, Pass(junk1)), Pass(junk2));
      && Enabled(s', TakeData) && s'.gadget.inBank.value.Value?
      && (i < MAX_BLOBS ==> s'.gadget.inBank.value.v == Registers(s.history)[i])
  {
    StepInv(s, Pass(junk1));
    StepInv(Next(s, Pass(junk1)), Pass(junk2));
  }

  /** One pass later nothing waits: the blob array itself is the register array, and the command and data banks
      are free again. */
  lemma PassSettles(s: System, junk: uint16)
    requires Inv(s)
    ensures var g := Next(s, Pass(junk)).gadget;
      g.blobs == Registers(s.history) && g.outBank.None? && g.cmdBank.None?
  {
    hide Registers, ReadsCorrect;
    PassInv(s, junk);
  }

  /** Why a pass has to come between a command and its data.  When both arrive before the same pass,
      every value reaches its index if and only if the previous command happened to be a store to
      that same index. */
  lemma UnseparatedWriteIff(g: Gadget, i: uint64, junk: uint16)
    requires |g.blobs| == MAX_BLOBS && i < MAX_BLOBS
    requires g.cmdBank == Some(UsbCommand(CMD_STORE, i))
    ensures (forall d: uint16 :: PollingPass(g.(outBank := Some(d)), junk).blobs == g.blobs[i := d])
            <==> g.command == CMD_STORE && g.index == i
  {
    var other: uint16 := if g.blobs[i] == 0 then 1 else 0;
    var after := PollingPass(g.(outBank := Some(other)), junk).blobs;
    if !(g.command == CMD_STORE && g.index == i) {
      assert after[i] == g.blobs[i];
      assert after != g.blobs[i := other];
    }
  }

  /** The same for a read.  The pass before a READ command has filled the IN bank for the command before
      it; a transfer that is served from there returns the value of its own index, whatever the blobs are,
      if and only if that command happened to be a read of that same index. */
  lemma UnseparatedReadIff(g: Gadget, i: uint64, junk: uint16)
    requires |g.blobs| == MAX_BLOBS && i < MAX_BLOBS && g.inBank.None? && g.cmdBank.None?
    ensures (forall blobs: seq<uint16> :: |blobs| == MAX_BLOBS ==>
              var g' := PollingPass(g.(blobs := blobs), junk); g'.inBank == Some(Value(g'.blobs[i])))
            <==> g.command == CMD_READ && g.index == i
  {
    if !(g.command == CMD_READ && g.index == i) {
      var other: uint16 := if junk == 0 then 1 else 0;
      var blobs: seq<uint16> := seq(MAX_BLOBS, k => if k == i then other else junk);
      var g' := PollingPass(g.(blobs := blobs), junk);
      assert g.command == CMD_READ ==> g'.inBank == Some(Value(junk)) && g'.blobs[i] == other;
      assert g'.inBank != Some(Value(g'.blobs[i]));
    }
  }

  lemma OneMoreStep(s: System, step: Step, steps: seq<Step>)
    requires Enabled(s, step) && Legal(Next(s, step), steps)
    ensures Legal(s, [step] + steps) && Run(s, [step] + steps) == Run(Next(s, step), steps)
  {
    assert ([step] + steps)[1..] == steps;
  }

  /** Such a transfer can return the value of another register: 7 is written to register 1 and read, a pass
      refills the bank, and the read of register 2 finds the 7 if no pass comes between. */
  lemma StaleRead() returns (steps: seq<Step>)
    ensures Legal(Initial(), steps)
    ensures var s := Run(Initial(), steps);
      && s.phase == Reading(2, false) && s.gadget.inBank == Some(Value(7)) && Registers(s.history)[2] == 0
      && !ReadsCorrect(Next(s, TakeData).history)
  {
    var s0 := Initial();
    var s1 := Next(s0, Begin(Write(1, 7)));
    var s2 := Next(s1, Pass(0));
    var s3 := Next(s2, GiveData);
    var s4 := Next(s3, Pass(0));
    var s5 := Next(s4, Begin(Read(1)));
    var s6 := Next(s5, Pass(0));
    var s7 := Next(s6, Pass(0));
    var s8 := Next(s7, TakeData);
    var s9 := Next(s8, Pass(0));
    var s := Next(s9, Begin(Read(2)));
    assert s4 == System(Gadget(CMD_STORE, 1, Cleared()[1 := 7], Some(NoData), None, None), Idle, [DidWrite(1, 7)]);
    assert s8
        == System(Gadget(CMD_READ, 1, Cleared()[1 := 7], None, None, None), Idle, [DidWrite(1, 7), DidRead(1, 7)]);
    steps := [Begin(Read(2))];
    OneMoreStep(s9, Begin(Read(2)), []);
    OneMoreStep(s8, Pass(0), steps);
    steps := [Pass(0)] + steps;
    OneMoreStep(s7, TakeData, steps);
    steps := [TakeData] + steps;
    OneMoreStep(s6, Pass(0), steps);
    steps := [Pass(0)] + steps;
    OneMoreStep(s5, Pass(0), steps);
    steps := [Pass(0)] + steps;
    OneMoreStep(s4, Begin(Read(1)), steps);
    steps := [Begin(Read(1))] + steps;
    OneMoreStep(s3, Pass(0), steps);
    steps := [Pass(0)] + steps;
    OneMoreStep(s2, GiveData, steps);
    steps := [GiveData] + steps;
    OneMoreStep(s1, Pass(0), steps);
    steps := [Pass(0)] + steps;
    OneMoreStep(s0, Begin(Write(1, 7)), steps);
    steps := [Begin(Write(1, 7))] + steps;
    StaleHistory(s);
  }

  lemma StaleHistory(s: System)
    requires s.history == [DidWrite(1, 7), DidRead(1, 7)] && s.phase == Reading(2, false)
             && s.gadget.inBank == Some(Value(7))
    ensures Registers(s.history)[2] == 0 && !ReadsCorrect(Next(s, TakeData).history)
  {
    assert [DidWrite(1, 7), DidRead(1, 7)] == [DidWrite(1, 7)] + [DidRead(1, 7)];
    assert [DidWrite(1, 7)] == [] + [DidWrite(1, 7)];
    RegistersSnoc([DidWrite(1, 7)], DidRead(1, 7));
    RegistersSnoc([], DidWrite(1, 7));
    var h := Next(s, TakeData).history;
    assert h == s.history + [DidRead(2, 7)] && h[..2] == s.history;
  }
}
