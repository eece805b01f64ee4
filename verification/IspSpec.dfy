/** The V2 protocol handlers of the in-system programmer, as functions on the current address, the
    target and the readings still to come from the timer. */
module IspSpec {
  import opened Usb
  import opened AvrFlash
  import opened SpiTarget

  const STATUS_CMD_OK: byte := 0x00
  const STATUS_CMD_TOUT: byte := 0x80
  const STATUS_RDY_BSY_TOUT: byte := 0x81
  const STATUS_CMD_FAILED: byte := 0xC0

  const CMD_LOAD_ADDRESS: byte := 0x06
  const CMD_ENTER_PROGMODE_ISP: byte := 0x10
  const CMD_CHIP_ERASE_ISP: byte := 0x12
  const CMD_PROGRAM_FLASH_ISP: byte := 0x13
  const CMD_READ_FLASH_ISP: byte := 0x14
  const CMD_PROGRAM_EEPROM_ISP: byte := 0x15
  const CMD_READ_EEPROM_ISP: byte := 0x16
  const CMD_SPI_MULTI: byte := 0x1D

  const AVRISP_DATA_EPSIZE: nat := 64
  const TARGET_BUSY_TIMEOUT_MS: byte := 240

  /** `ticks` are the values that successive readings of TCNT0 give. */
  datatype Isp = Isp(address: uint32, target: Target, ticks: seq<byte>)

  ghost predicate IspOk(size: nat, s: Isp) { TargetOk(size, s.target) }

  /** One bit of a byte. */
  predicate Bit(v: byte, weight: nat)
    requires weight in {1, 2, 4, 8, 16, 32, 64, 128}
  {
    v / weight % 2 == 1
  }

  function SetBit(v: byte, weight: nat): byte
    requires weight in {1, 2, 4, 8, 16, 32, 64, 128}
  {
    if Bit(v, weight) then v else v + weight
  }

  function ClearBit(v: byte, weight: nat): byte
    requires weight in {1, 2, 4, 8, 16, 32, 64, 128}
  {
    if Bit(v, weight) then v - weight else v
  }

  /** READ_WRITE_HIGH_BYTE_MASK set or cleared. */
  function HighByte(command: byte, high: bool): byte { if high then SetBit(command, 8) else ClearBit(command, 8) }

  function AddressHigh(a: uint32): byte { a / 256 % 256 }

  function AddressLow(a: uint32): byte { a % 256 }

  function Increment(a: uint32): uint32 { (a + 1) % 0x1_0000_0000 }

  /** A reading of TCNT0; a clock that is no longer listed has run past the timeout. */
  function Tick(ticks: seq<byte>): byte { if ticks == [] then 255 else ticks[0] }

  function TickDone(ticks: seq<byte>): seq<byte> { if ticks == [] then [] else ticks[1..] }

  // ---- V2ProtocolTarget.c -------------------------------------------------------------

  function LoadExtendedAddress(size: nat, s: Isp): (r: Isp)
    requires IspOk(size, s)
    ensures IspOk(size, r)
  {
    s.(target := Frame(size, s.target, LOAD_EXTENDED, 0x00, s.address / 65536 % 256, 0x00).1)
  }

  /** What a polling loop waits for: a clear busy flag, or a value. */
  datatype Awaited = Idle | Value(value: byte)

  predicate Accepts(a: Awaited, answer: byte) { if a.Idle? then answer % 2 == 0 else answer == a.value }

  /** Repeat a frame until its answer is accepted or the timer runs out. */
  function PollUntil(size: nat, s: Isp, frame: seq<byte>, awaited: Awaited): (r: Isp)
    requires IspOk(size, s) && |frame| == 4
    ensures IspOk(size, r)
    decreases |s.ticks|
  {
    var (answer, t) := Frame(size, s.target, frame[0], frame[1], frame[2], frame[3]);
    var s1 := s.(target := t);
    if Accepts(awaited, answer) then s1
    else
      var s2 := s1.(ticks := TickDone(s.ticks));
      if Tick(s.ticks) < TARGET_BUSY_TIMEOUT_MS && s.ticks != [] then PollUntil(size, s2, frame, awaited) else s2
  }

  /** The status after a polling loop: one more reading of the timer. */
  function PollStatus(s: Isp, timedOut: byte): (Isp, byte) {
    (s.(ticks := TickDone(s.ticks)), if Tick(s.ticks) >= TARGET_BUSY_TIMEOUT_MS then timedOut else STATUS_CMD_OK)
  }

  function WaitWhileTargetBusy(size: nat, s: Isp): (r: (Isp, byte))
    requires IspOk(size, s)
    ensures IspOk(size, r.0)
  {
    PollStatus(PollUntil(size, s, [0xF0, 0x00, 0x00, 0x00], Idle), STATUS_RDY_BSY_TOUT)
  }

  /** The completion modes, the bits of ProgrammingMode without paging and commit. */
  function CompletionMode(mode: byte): byte { ClearBit(ClearBit(mode, 1), 128) }

  function WaitForProgComplete(size: nat, s: Isp, mode: byte, pollAddress: uint16, pollValue: byte,
                               readCommand: byte): (r: (Isp, byte))
    requires IspOk(size, s)
    ensures IspOk(size, r.0)
  {
    var m := CompletionMode(mode);
    if m == 4 || m == 32 then
      PollStatus(PollUntil(size, s, [readCommand, High(pollAddress), Low(pollAddress), 0x00], Value(pollValue)),
                 STATUS_CMD_TOUT)
    else if m == 8 || m == 64 then WaitWhileTargetBusy(size, s)
    else (s, STATUS_CMD_OK)
  }

  // ---- Programming -------------------------------------------------------------------------

  /** The three programming commands and the poll address, all changed by the loop. */
  datatype Polling = Polling(load: byte, pollAddress: uint16, read: byte)

  /** The loop of the paged mode, from byte `i` on. */
  function LoadPage(size: nat, s: Isp, p: Polling, flash: bool, pollValue: byte, data: seq<byte>,
                    i: nat): (r: (Isp, Polling))
    requires IspOk(size, s) && i <= |data|
    ensures IspOk(size, r.0)
    decreases |data| - i
  {
    if i == |data| then (s, p)
    else
      var odd := i % 2 == 1;
      var load := HighByte(p.load, odd && flash);
      var t := Frame(size, s.target, load, AddressHigh(s.address), AddressLow(s.address), data[i]).1;
      var p1 := if p.pollAddress == 0 && data[i] != pollValue
                then Polling(load, s.address % 65536, if odd && flash then SetBit(p.read, 8) else p.read)
                else p.(load := load);
      LoadPage(size, s.(target := t, address := if odd || !flash then Increment(s.address) else s.address),
               p1, flash, pollValue, data, i + 1)
  }

  /** The loop of the word mode; it compares with the read command, so the high bit is never set. */
  function WriteWordwise(size: nat, s: Isp, p: Polling, flash: bool, mode: byte, pollValue: byte, data: seq<byte>,
                         i: nat): (r: (Isp, byte))
    requires IspOk(size, s) && i <= |data|
    ensures IspOk(size, r.0)
    decreases |data| - i
  {
    if i == |data| then (s, STATUS_CMD_OK)
    else
      var odd := i % 2 == 1;
      var load := HighByte(p.load, false);
      var t := Frame(size, s.target, load, AddressHigh(s.address), AddressLow(s.address), data[i]).1;
      var p1 := if data[i] != pollValue
                then Polling(load, s.address % 65536, if odd && flash then SetBit(p.read, 8) else p.read)
                else p.(load := load);
      var s1 := s.(target := t, address := if odd || !flash then Increment(s.address) else s.address);
      var (s2, status) := WaitForProgComplete(size, s1, mode, p1.pollAddress, pollValue, p1.read);
      if status != STATUS_CMD_OK then (s2, status)
      else WriteWordwise(size, s2, p1, flash, mode, pollValue, data, i + 1)
  }

  /** The parameters of a programming command; `bytesToWrite` may disagree with the data. */
  datatype ProgramParams = ProgramParams(bytesToWrite: nat, mode: byte, commands: seq<byte>, pollValue1: byte,
                                         pollValue2: byte,
                                         data: seq<byte>)

  ghost predicate ParamsOk(p: ProgramParams) {
    |p.commands| == 3 && (p.bytesToWrite <= 256 ==> |p.data| == p.bytesToWrite)
  }

  function ProgramMemory(size: nat, s: Isp, v2Command: byte, p: ProgramParams): (r: (Isp, byte))
    requires IspOk(size, s) && ParamsOk(p)
    ensures IspOk(size, r.0)
  {
    var flash := v2Command == CMD_PROGRAM_FLASH_ISP;
    var pollValue := if flash then p.pollValue1 else p.pollValue2;
    var start := Polling(p.commands[0], 0, p.commands[2]);
    if p.bytesToWrite > 256 then (s, STATUS_CMD_FAILED)
    else if Bit(p.mode, 1) then
      var (s1, poll) := LoadPage(size, s, start, flash, pollValue, p.data, 0);
      if Bit(p.mode, 128) then
        var t := Frame(size, s1.target, p.commands[1], AddressHigh(s.address), AddressLow(s.address), 0x00).1;
        var mode := if poll.pollAddress == 0 then SetBit(ClearBit(p.mode, 32), 16) else p.mode;
        WaitForProgComplete(size, s1.(target := t), mode, poll.pollAddress, pollValue, poll.read)
      else (s1, STATUS_CMD_OK)
    else WriteWordwise(size, s, start, flash, p.mode, pollValue, p.data, 0)
  }

  // ---- Reading --------------------------------------------------------------------------------

  function ReadBytes(size: nat, s: Isp, flash: bool, command: byte, count: nat, i: nat): (r: (Isp, seq<byte>))
    requires IspOk(size, s) && i <= count
    ensures IspOk(size, r.0)
    decreases count - i
  {
    if i == count then (s, [])
    else
      var odd := i % 2 == 1;
      var (v, t) := Frame(size, s.target, HighByte(command, odd && flash), AddressHigh(s.address),
                          AddressLow(s.address), 0x00);
      var s1 := s.(target := t, address := if odd || !flash then Increment(s.address) else s.address);
      var (s2, rest) := ReadBytes(size, s1, flash, HighByte(command, odd && flash), count, i + 1);
      (s2, [v] + rest)
  }

  // ---- Plain byte strings -------------------------------------------------------------------

  /** Send `bytes` one by one: the answers, and the target after them. */
  function Exchange(size: nat, t: Target, bytes: seq<byte>): (r: (seq<byte>, Target))
    requires TargetOk(size, t)
    ensures TargetOk(size, r.1) && |r.0| == |bytes|
    decreases |bytes|
  {
    if bytes == [] then ([], t)
    else
      var n := |bytes| - 1;
      var (answers, t1) := Exchange(size, t, bytes[..n]);
      var (v, t2) := Transfer(size, t1, bytes[n]);
      (answers + [v], t2)
  }

  /** The answer at a position counted from 1; positions outside the four answers read as 0. */
  function AnswerAt(answers: seq<byte>, position: byte): byte {
    if 1 <= position <= |answers| then answers[position - 1] else 0
  }

  /** Synchronisation: send the four bytes until the polled answer is right. */
  function Synchronise(size: nat, t: Target, loops: byte, pollValue: byte, pollIndex: byte,
                       bytes: seq<byte>): (r: (byte, Target))
    requires TargetOk(size, t) && |bytes| == 4
    ensures TargetOk(size, r.1)
    decreases loops
  {
    if loops == 0 then (STATUS_CMD_FAILED, t)
    else
      var (answers, t1) := Exchange(size, t, bytes);
      if pollIndex == 0 || AnswerAt(answers, pollIndex) == pollValue then (STATUS_CMD_OK, t1)
      else Synchronise(size, t1, loops - 1, pollValue, pollIndex, bytes)
  }

  /** What SPI_MULTI sends: the host's bytes, cut or padded with zeros to `n`. */
  function Padded(tx: seq<byte>, n: nat): (p: seq<byte>)
    ensures |p| == n
  {
    seq(n, i requires 0 <= i < n => if i < |tx| then tx[i] else 0)
  }

  // ---- The commands -----------------------------------------------------------------------------

  /** The commands that reach the target, with their parameters as read from the endpoint. */
  datatype Command =
    | LoadAddress(bytes: seq<byte>)
    | EnterProgMode(synchLoops: byte, pollValue: byte, pollIndex: byte, bytes: seq<byte>)
    | Program(v2Command: byte, params: ProgramParams)
    | Read(v2Command: byte, count: uint16, command: byte)
    | ChipErase(pollMethod: byte, bytes: seq<byte>)
    | ReadConfig(v2Command: byte, position: byte, bytes: seq<byte>)
    | WriteConfig(v2Command: byte, bytes: seq<byte>)
    | SpiMulti(rxBytes: byte, rxStart: byte, tx: seq<byte>)

  ghost predicate CommandOk(c: Command) {
    match c
    case Program(v, p) => ParamsOk(p) && (v == CMD_PROGRAM_FLASH_ISP || v == CMD_PROGRAM_EEPROM_ISP)
    case Read(v, _, _) => v == CMD_READ_FLASH_ISP || v == CMD_READ_EEPROM_ISP
    case SpiMulti(_, _, tx) => |tx| <= 255
    case _ => |c.bytes| == 4
  }

  function BigEndian(b: seq<byte>): uint32
    requires |b| == 4
  {
    var low: int := Word(b[3], b[2]);
    low + 65536 * Word(b[1], b[0])
  }

  /** The state after a command, and the bytes of its reply. */
  function Exec(size: nat, s: Isp, c: Command): (r: (Isp, seq<byte>))
    requires IspOk(size, s) && CommandOk(c)
    ensures IspOk(size, r.0)
  {
    match c
    case LoadAddress(b) =>
      var s1 := s.(address := BigEndian(b));
      (if s1.address >= 0x8000_0000 then LoadExtendedAddress(size, s1) else s1, [CMD_LOAD_ADDRESS, STATUS_CMD_OK])
    case EnterProgMode(loops, v, i, b) =>
      var (status, t) := Synchronise(size, s.target, loops, v, i, b);
      (s.(address := 0, target := t), [CMD_ENTER_PROGMODE_ISP, status])
    case Program(v, p) =>
      var (s1, status) := ProgramMemory(size, s, v, p);
      (s1, [v, status])
    case Read(v, n, command) =>
      var (s1, data) := ReadBytes(size, s, v == CMD_READ_FLASH_ISP, command, n, 0);
      (s1, [v, STATUS_CMD_OK] + data + [STATUS_CMD_OK])
    case ChipErase(pollMethod, b) =>
      var s1 := s.(target := Exchange(size, s.target, b).1);
      var (s2, status) := if pollMethod == 0 then (s1, STATUS_CMD_OK) else WaitWhileTargetBusy(size, s1);
      (s2, [CMD_CHIP_ERASE_ISP, status])
    case ReadConfig(v, position, b) =>
      var (answers, t) := Exchange(size, s.target, b);
      (s.(target := t), [v, STATUS_CMD_OK, AnswerAt(answers, position), STATUS_CMD_OK])
    case WriteConfig(v, b) => (s.(target := Exchange(size, s.target, b).1), [v, STATUS_CMD_OK, STATUS_CMD_OK])
    case SpiMulti(rxBytes, rxStart, tx) =>
      var (answers, t) := Exchange(size, s.target, Padded(tx, rxStart + rxBytes));
      (s.(target := t), [CMD_SPI_MULTI, STATUS_CMD_OK] + answers[rxStart..] + [STATUS_CMD_OK])
  }

  function ExecAll(size: nat, s: Isp, cs: seq<Command>): (r: Isp)
    requires IspOk(size, s) && forall c :: c in cs ==> CommandOk(c)
    ensures IspOk(size, r)
    decreases |cs|
  {
    if cs == [] then s else ExecAll(size, Exec(size, s, cs[0]).0, cs[1..])
  }

  // ---- Replies ------------------------------------------------------------------------------------

  /** A bank takes no more than it has room for; what is written to a full bank is lost. */
  function Kept(bank: seq<byte>): seq<byte> {
    if |bank| <= AVRISP_DATA_EPSIZE then bank else bank[..AVRISP_DATA_EPSIZE]
  }
}
