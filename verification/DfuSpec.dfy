/** What each DFU request does to the bootloader, as functions on its whole state.
    The class in BootloaderDfu.dfy is proved to compute exactly these. */
module DfuSpec {
  import opened Usb
  import opened AvrFlash

  // DFU_State_t
  const dfuIDLE: byte := 2
  const dfuDNLOAD_IDLE: byte := 5
  const dfuUPLOAD_IDLE: byte := 9
  const dfuERROR: byte := 10

  // DFU_Status_t
  const OK: byte := 0
  const errWRITE: byte := 3
  const errCHECK_ERASED: byte := 5

  // Commands carried by a download request
  const COMMAND_PROG_START: byte := 0x01
  const COMMAND_DISP_DATA: byte := 0x03
  const COMMAND_WRITE: byte := 0x04
  const COMMAND_READ: byte := 0x05
  const COMMAND_CHANGE_BASE_ADDR: byte := 0x06

  const DFU_FILLER_BYTES_SIZE: nat := 26
  const DFU_FILE_SUFFIX_SIZE: nat := 16

  const BOOTLOADER_INFO: seq<byte> := [0x20, 0xDC, 0xFB]

  /** The build constants: SPM_PAGESIZE, BOOT_START_ADDR, the control endpoint size and
      the signature bytes of the chip. */
  datatype Board = Board(pageSize: nat, bootStart: nat, endpointSize: nat, signature: seq<byte>)

  ghost predicate BoardOk(b: Board) {
    && 0 < b.pageSize <= 256 && b.pageSize % 2 == 0 && Aligned(b.pageSize, 65536)
    && Aligned(b.pageSize, b.bootStart)
    && 32 <= b.endpointSize && b.endpointSize % 2 == 0
    && |b.signature| == 3
  }

  datatype Dfu = Dfu(
    secure: bool, running: bool, waitForExit: bool,
    state: byte, status: byte,
    command: byte, data: seq<byte>, dataSize: uint16,
    response: byte, appStart: uint16,
    page64: byte, start: uint16, end: uint16,
    flash: Flash, eeprom: seq<byte>,
    rx: OutPipe, tx: InPipe)

  ghost predicate Wf(b: Board, s: Dfu) {
    BoardOk(b) && |s.data| == 5 && FlashOk(b.pageSize, s.flash) && b.bootStart <= |s.flash.cells|
  }

  datatype Request =
    | Dnload(wLength: uint16, packets: seq<seq<byte>>)
    | Upload(wLength: uint16)
    | GetStatus(wLength: uint16)
    | ClrStatus(wLength: uint16)
    | GetState(wLength: uint16)
    | Abort(wLength: uint16)
    | OtherRequest(wLength: uint16)

  /** The 32-bit address built from the 64KB page and a 16-bit offset. */
  function Address(page64: byte, offset: uint16): nat { page64 * 65536 + offset }

  /** ((EndAddr - StartAddr) + 1) in 16-bit arithmetic. */
  function ByteCount(start: uint16, end: uint16): uint16 { (end - start + 1) % 65536 }

  // ---- Reading the data stage -------------------------------------------------

  /** DiscardFillerBytes: one count is used up whenever a fresh packet has to be fetched. */
  function Discard(p: OutPipe, n: nat): OutPipe
    decreases n
  {
    if n == 0 then p
    else if p.bank != [] then Discard(Drop(p), n - 1)
    else if p.pending == [] then p
    else Discard(NextPacket(p), n - 1)
  }

  /** The packet the next read takes its bytes from, or nothing when the host has gone. */
  function Refill(p: OutPipe): OutPipe {
    if p.bank == [] && p.pending != [] then NextPacket(p) else p
  }

  predicate Starved(p: OutPipe) { p.bank == [] && p.pending == [] }

  /** Up to `room` parameter bytes, as far as the first packet reaches. */
  function LoadParams(p: OutPipe, data: seq<byte>, i: nat, size: uint16): (r: (OutPipe, seq<byte>, uint16))
    requires i <= |data|
    ensures |r.1| == |data|
    decreases |data| - i
  {
    if i == |data| || p.bank == [] then (p, data, size)
    else LoadParams(Drop(p), data[i := Peek(p)], i + 1, (size - 1) % 65536)
  }

  // ---- Command handlers -------------------------------------------------------

  function LoadStartEnd(s: Dfu): Dfu
    requires |s.data| == 5
  {
    s.(start := Word(s.data[2], s.data[1]), end := Word(s.data[4], s.data[3]))
  }

  function MemProg(b: Board, s: Dfu): (r: Dfu)
    requires Wf(b, s)
    ensures Wf(b, r)
  {
    if s.data[0] == 0x00 || s.data[0] == 0x01 then
      var s1 := LoadStartEnd(s);
      var s2 := if s.data[0] == 0x00
                then s1.(flash := Erase(b.pageSize, s1.flash, Address(s1.page64, s1.start)))
                else s1;
      s2.(state := dfuDNLOAD_IDLE)
    else s
  }

  /** The first address in [addr, limit) whose byte is not blank, or `limit`. */
  function FirstNonBlank(cells: seq<byte>, addr: nat, limit: nat): (a: nat)
    requires limit <= |cells|
    decreases limit - addr
  {
    if addr >= limit then limit
    else if cells[addr] != BLANK then addr
    else FirstNonBlank(cells, addr + 1, limit)
  }

  function MemRead(b: Board, s: Dfu): (r: Dfu)
    requires Wf(b, s)
    ensures Wf(b, r)
  {
    if s.data[0] == 0x00 || s.data[0] == 0x02 then
      LoadStartEnd(s).(state := dfuUPLOAD_IDLE)
    else if s.data[0] == 0x01 then
      var a := FirstNonBlank(s.flash.cells, 0, b.bootStart);
      if a < b.bootStart then
        s.(page64 := (a / 65536) % 256, start := a % 65536, state := dfuERROR, status := errCHECK_ERASED)
      else s
    else s
  }

  /** Erase and write back every page of [addr, limit). */
  function EraseFrom(size: nat, f: Flash, addr: nat, limit: nat): (r: Flash)
    requires FlashOk(size, f)
    ensures FlashOk(size, r) && |r.cells| == |f.cells|
    decreases limit - addr
  {
    if addr >= limit then f
    else EraseFrom(size, Write(size, Erase(size, f, addr), addr), addr + size, limit)
  }

  function WriteCommand(b: Board, s: Dfu): (r: Dfu)
    requires Wf(b, s)
    ensures Wf(b, r)
  {
    if s.data[0] == 0x03 then
      var s1 := s.(waitForExit := true);
      if s1.dataSize == 0 && s1.data[1] != 0x00
      then s1.(appStart := Word(s1.data[4], s1.data[3]), running := false)
      else s1
    else if s.data[0] == 0x00 && s.data[1] == 0xFF then
      s.(flash := Enable(b.pageSize, EraseFrom(b.pageSize, s.flash, 0, b.bootStart)), secure := false)
    else s
  }

  /** An index outside the table reads whatever lies next to it; modelled as 0. */
  function ReadCommand(b: Board, s: Dfu): (r: Dfu)
    requires Wf(b, s)
    ensures Wf(b, r)
  {
    var i := s.data[1];
    if s.data[0] == 0x00 then s.(response := if i < 3 then BOOTLOADER_INFO[i] else 0)
    else if s.data[0] == 0x01 then s.(response := if 0x30 <= i < 0x33 then b.signature[i - 0x30] else 0)
    else s
  }

  /** The only commands a locked bootloader lets through. */
  predicate AllowedWhenSecure(s: Dfu)
    requires |s.data| == 5
  {
    (s.command == COMMAND_WRITE && s.data[0] == 0x00 && s.data[1] == 0xFF) || s.command == COMMAND_READ
  }

  function Process(b: Board, s: Dfu): (r: Dfu)
    requires Wf(b, s)
    ensures Wf(b, r) && r.rx == s.rx && r.tx == s.tx && r.dataSize == s.dataSize
  {
    if s.secure && !AllowedWhenSecure(s) then s.(state := dfuERROR, status := errWRITE)
    else if s.command == COMMAND_PROG_START then MemProg(b, s)
    else if s.command == COMMAND_DISP_DATA then MemRead(b, s)
    else if s.command == COMMAND_WRITE then WriteCommand(b, s)
    else if s.command == COMMAND_READ then ReadCommand(b, s)
    else if s.command == COMMAND_CHANGE_BASE_ADDR && s.data[0] == 0x03 && s.data[1] == 0x00
    then s.(page64 := s.data[2])
    else s
  }

  // ---- Programming loops --------------------------------------------------------

  datatype FlashRun = FlashRun(flash: Flash, rx: OutPipe, finished: bool)

  /** The word loop of a flash download, `inPage` counting the words loaded since the last commit. */
  function WriteWords(size: nat, f: Flash, rx: OutPipe, addr: nat, pageStart: nat, inPage: byte,
                      remaining: nat): (r: FlashRun)
    requires FlashOk(size, f)
    ensures FlashOk(size, r.flash) && |r.flash.cells| == |f.cells|
    decreases remaining
  {
    if remaining == 0 then FlashRun(f, rx, true)
    else if Starved(rx) then FlashRun(f, rx, false)
    else
      var rx1 := Refill(rx);
      var rx2 := Drop(rx1);
      var f1 := Fill(size, f, addr, Peek(rx1), Peek(rx2));
      var count := (inPage + 1) % 256;
      if count == size / 2 || remaining == 1 then
        var f2 := Write(size, f1, pageStart);
        if remaining == 1 then FlashRun(f2, Drop(rx2), true)
        else WriteWords(size, Erase(size, f2, addr + 2), Drop(rx2), addr + 2, addr + 2, 0, remaining - 1)
      else WriteWords(size, f1, Drop(rx2), addr + 2, pageStart, count, remaining - 1)
  }

  datatype EepromRun = EepromRun(eeprom: seq<byte>, rx: OutPipe, addr: uint16, finished: bool)

  function WriteEeprom(eeprom: seq<byte>, rx: OutPipe, addr: uint16, remaining: nat): (r: EepromRun)
    ensures |r.eeprom| == |eeprom|
    decreases remaining
  {
    if remaining == 0 then EepromRun(eeprom, rx, addr, true)
    else if Starved(rx) then EepromRun(eeprom, rx, addr, false)
    else
      var rx1 := Refill(rx);
      WriteEeprom(PokeCell(eeprom, addr, Peek(rx1)), Drop(rx1), (addr + 1) % 65536, remaining - 1)
  }

  /** Program the flash range, then skip the file suffix; the flag is false when the host went away. */
  function ProgramFlash(b: Board, s: Dfu, rx: OutPipe): (r: (Dfu, bool))
    requires Wf(b, s)
    ensures Wf(b, r.0)
  {
    var a := Address(s.page64, s.start);
    var run := WriteWords(b.pageSize, s.flash, rx, a, a, 0, ByteCount(s.start, s.end) / 2);
    var s1 := s.(flash := run.flash, rx := run.rx);
    if run.finished
    then (s1.(start := s.end, flash := Enable(b.pageSize, run.flash), rx := Discard(run.rx, DFU_FILE_SUFFIX_SIZE)),
          true)
    else (s1, false)
  }

  function ProgramEeprom(b: Board, s: Dfu, rx: OutPipe): (r: (Dfu, bool))
    requires Wf(b, s)
    ensures Wf(b, r.0)
  {
    var run := WriteEeprom(s.eeprom, rx, s.start, ByteCount(s.start, s.end));
    var s1 := s.(eeprom := run.eeprom, start := run.addr, rx := run.rx);
    if run.finished then (s1.(rx := Discard(run.rx, DFU_FILE_SUFFIX_SIZE)), true) else (s1, false)
  }

  /** The firmware part of a download request. */
  function Firmware(b: Board, s: Dfu): (r: (Dfu, bool))
    requires Wf(b, s)
    ensures Wf(b, r.0)
  {
    var rx := Discard(Discard(s.rx, DFU_FILLER_BYTES_SIZE), s.start % b.pageSize);
    if s.data[0] == 0x00 then ProgramFlash(b, s, rx) else ProgramEeprom(b, s, rx)
  }

  // ---- Read-out loops -------------------------------------------------------------

  function SendWords(size: nat, t: InPipe, cells: seq<byte>, addr: nat, remaining: nat): InPipe
    decreases remaining
  {
    if remaining == 0 then t
    else
      var t1 := if |t.bank| == size then Send(t) else t;
      SendWords(size, t1.(bank := t1.bank + [ReadCell(cells, addr), ReadCell(cells, addr + 1)]), cells, addr + 2,
                remaining - 1)
  }

  function SendEeprom(size: nat, t: InPipe, eeprom: seq<byte>, addr: uint16, remaining: nat): InPipe
    decreases remaining
  {
    if remaining == 0 then t
    else
      var t1 := if |t.bank| == size then Send(t) else t;
      SendEeprom(size, t1.(bank := t1.bank + [ReadCell(eeprom, addr)]), eeprom, (addr + 1) % 65536, remaining - 1)
  }

  // ---- Requests -------------------------------------------------------------------

  /** The exit handshake: the previous command is processed once more. */
  function FinishExit(b: Board, s: Dfu): (r: Dfu)
    requires Wf(b, s)
    ensures Wf(b, r)
  {
    if s.waitForExit then Process(b, s).(waitForExit := false) else s
  }

  /** The command and its parameters, taken from the first packet of the data stage. */
  function LoadCommand(s: Dfu): (r: Dfu)
    requires |s.data| == 5 && s.rx.pending != []
    ensures |r.data| == 5 && r == s.(command := r.command, data := r.data, dataSize := r.dataSize, rx := r.rx)
  {
    var rx := NextPacket(s.rx);
    var (rx1, data, size) := LoadParams(Drop(rx), s.data, 0, (s.dataSize - 1) % 65536);
    s.(command := Peek(rx), data := data, dataSize := size, rx := rx1)
  }

  /** The end of a download request, once its command has been processed. */
  function EndDnload(b: Board, s: Dfu): (r: Dfu)
    requires Wf(b, s)
    ensures Wf(b, r)
  {
    if s.state != dfuDNLOAD_IDLE then s.(rx := OutPipe([], []))
    else if s.dataSize == 0 then s.(state := dfuIDLE, rx := OutPipe([], []))
    else
      var (s1, finished) := Firmware(b, s);
      if finished then s1.(rx := OutPipe([], [])) else s1
  }

  function StepDnload(b: Board, s: Dfu, packets: seq<seq<byte>>): (r: Dfu)
    requires Wf(b, s)
    ensures Wf(b, r)
  {
    var s1 := FinishExit(b, s.(rx := OutPipe([], packets)));
    if s1.dataSize != 0 && packets == [] then s1
    else EndDnload(b, if s1.dataSize != 0 then Process(b, LoadCommand(s1)) else s1)
  }

  function StepUpload(b: Board, s: Dfu): (r: Dfu)
    requires Wf(b, s)
    ensures Wf(b, r)
  {
    var e := b.endpointSize;
    if s.state == dfuERROR && s.data[0] == 0x01 then
      s.(tx := Send(s.tx.(bank := s.tx.bank + [Low(s.start), High(s.start)])))
    else if s.state != dfuUPLOAD_IDLE then
      s.(tx := Send(s.tx.(bank := s.tx.bank + [s.response])))
    else
      var bytes := ByteCount(s.start, s.end);
      if s.data[0] == 0x00 then
        s.(tx := Send(SendWords(e, s.tx, s.flash.cells, Address(s.page64, s.start), bytes / 2)),
           start := s.end, state := dfuIDLE)
      else if s.data[0] == 0x02 then
        s.(tx := Send(SendEeprom(e, s.tx, s.eeprom, s.start, bytes)),
           start := (s.start + bytes) % 65536, state := dfuIDLE)
      else s.(tx := Send(s.tx), state := dfuIDLE)
  }

  function Step(b: Board, s: Dfu, req: Request): (r: Dfu)
    requires Wf(b, s)
    ensures Wf(b, r)
  {
    var s0 := s.(dataSize := req.wLength);
    match req
    case Dnload(_, packets) => StepDnload(b, s0, packets)
    case Upload(_) => StepUpload(b, s0)
    case GetStatus(_) => s0.(tx := Send(s0.tx.(bank := s0.tx.bank + [s0.status, 0, 0, 0, s0.state, 0])))
    case ClrStatus(_) => s0.(status := OK)
    case GetState(_) => s0.(tx := Send(s0.tx.(bank := s0.tx.bank + [s0.state])))
    case Abort(_) => s0.(state := dfuIDLE)
    case OtherRequest(_) => s0
  }

  function Run(b: Board, s: Dfu, reqs: seq<Request>): (r: Dfu)
    requires Wf(b, s)
    ensures Wf(b, r)
    decreases |reqs|
  {
    if reqs == [] then s else Run(b, Step(b, s, reqs[0]), reqs[1..])
  }

  lemma RunNone(b: Board, s: Dfu)
    requires Wf(b, s)
    ensures Run(b, s, []) == s
  {}

  lemma {:induction false} RunAppend(b: Board, s: Dfu, reqs: seq<Request>, req: Request)
    requires Wf(b, s)
    ensures Run(b, s, reqs + [req]) == Step(b, Run(b, s, reqs), req)
    decreases |reqs|
  {
    hide Step, Wf;
    if reqs == [] {
      assert [req][1..] == [];
      assert Run(b, s, [req]) == Run(b, Step(b, s, req), []);
      assert [] + [req] == [req];
    } else {
      assert (reqs + [req])[1..] == reqs[1..] + [req];
      RunAppend(b, Step(b, s, reqs[0]), reqs[1..], req);
    }
  }

  /** The state at power-on, SECURE_MODE, memories and last report being arbitrary. */
  ghost predicate PowerOn(b: Board, s: Dfu) {
    && Wf(b, s)
    && s.running && !s.waitForExit && s.state == dfuIDLE && s.status == OK
    && BufferEmpty(b.pageSize, s.flash)
    && s.rx == OutPipe([], []) && s.tx == InPipe([], [])
  }
}
