/** What the other requests are for: starting the application, status reports, identification, and the
    64KB page of the next download. */
module DfuExit {
  import opened Usb
  import opened AvrFlash
  import opened FlashImage
  import opened DfuSpec
  import opened DfuPackets
  import opened DfuTransfer
  import opened DfuSafety

  // ---- Starting the application -------------------------------------------------------

  /** The first byte of the data stage, and the second one, which a packet of one byte leaves as it was. */
  function CommandIn(packets: seq<seq<byte>>): byte
    requires packets != []
  {
    if packets[0] == [] then 0 else packets[0][0]
  }

  function FirstParameter(packets: seq<seq<byte>>, before: byte): byte
    requires packets != []
  {
    if |packets[0]| >= 2 then packets[0][1] else before
  }

  lemma LoadedShort(s: Dfu, packets: seq<seq<byte>>)
    requires |s.data| == 5 && s.rx == OutPipe([], packets) && packets != []
    ensures var r := LoadCommand(s);
      r.command == CommandIn(packets) && r.data[0] == FirstParameter(packets, s.data[0])
  {
    hide LoadParams;
    var p := Drop(NextPacket(s.rx));
    if |packets[0]| >= 2 {
      LoadCommandShort(s, packets, 0);
    } else {
      assert p.bank == [];
      assert LoadParams(p, s.data, 0, (s.dataSize - 1) % 65536).1 == s.data by { NoParams(p, s.data, s.dataSize); }
    }
  }

  lemma NoParams(p: OutPipe, data: seq<byte>, size: uint16)
    requires p.bank == []
    ensures LoadParams(p, data, 0, (size - 1) % 65536).1 == data
  {}

  /** Whether the lock is still closed when a download request reads its command: the command of the request
      before it, processed again on the way out, may be a chip erase. */
  predicate StaysLocked(s: Dfu)
    requires |s.data| == 5
  {
    s.secure && !(s.waitForExit && s.command == COMMAND_WRITE && s.data[0] == 0x00 && s.data[1] == 0xFF)
  }

  /** After a download request the device waits for its exit if and only if the request has carried a
      start-application command past the lock; no other request changes that. */
  lemma WaitsIff(b: Board, s: Dfu, req: Request)
    requires Wf(b, s)
    ensures Step(b, s, req).waitForExit <==>
      if !req.Dnload? then s.waitForExit
      else req.wLength != 0 && req.packets != [] && CommandIn(req.packets) == COMMAND_WRITE
           && FirstParameter(req.packets, s.data[0]) == 0x03 && !StaysLocked(s)
  {
    hide Process, LoadCommand, Firmware, SendWords, SendEeprom, BoardOk, FlashOk, Took, JumpOf;
    match req
    case Dnload(wLength, packets) =>
      var s0 := s.(dataSize := wLength, rx := OutPipe([], packets));
      var s1 := FinishExit(b, s0);
      ExitFinished(b, s0);
      if wLength != 0 && packets != [] {
        LoadedShort(s1, packets);
        LoadedKeeps(s1);
        ProcessWaits(b, LoadCommand(s1));
        EndKeepsExit(b, Process(b, LoadCommand(s1)));
      } else {
        EndKeepsExit(b, s1);
      }
    case _ =>
  }

  lemma ProcessWaits(b: Board, s: Dfu)
    requires Wf(b, s)
    ensures Process(b, s).waitForExit
            <==> s.waitForExit || (!s.secure && s.command == COMMAND_WRITE && s.data[0] == 0x03)
    ensures Process(b, s).secure
            <==> s.secure && !(s.command == COMMAND_WRITE && s.data[0] == 0x00 && s.data[1] == 0xFF)
    ensures Process(b, s).command == s.command && Process(b, s).data == s.data
  {
    hide EraseFrom, Erase, FirstNonBlank, FlashOk, BoardOk;
  }

  lemma ExitFinished(b: Board, s: Dfu)
    requires Wf(b, s)
    ensures var r := FinishExit(b, s);
      && !r.waitForExit && r.command == s.command && r.data == s.data && r.rx == s.rx && r.dataSize == s.dataSize
      && r.secure == StaysLocked(s)
  {
    hide Process, FlashOk, BoardOk;
    ProcessWaits(b, s);
  }

  /** A start-application command: by jump to the address hi:lo, or by the watchdog when `how` is 0. */
  function StartCommand(how: byte, other: byte, hi: byte, lo: byte): seq<byte> {
    [COMMAND_WRITE, 0x03, how, other, hi, lo]
  }

  lemma StartLoaded(b: Board, s: Dfu, w: uint16, packets: seq<seq<byte>>, how: byte, other: byte, hi: byte, lo: byte)
    requires Wf(b, s) && !s.secure && 0 < w && Carries(packets, StartCommand(how, other, hi, lo))
    ensures var r := Step(b, s, Dnload(w, packets));
      && r.waitForExit && r.command == COMMAND_WRITE && r.data == [0x03, how, other, hi, lo] && !r.secure
      && (r.running ==> s.running)
  {
    hide Process, LoadCommand, Firmware, BoardOk, FlashOk, Took, JumpOf;
    var s0 := s.(dataSize := w, rx := OutPipe([], packets));
    var s1 := FinishExit(b, s0);
    ExitFinished(b, s0);
    LoadCommandCarried(s1, packets, StartCommand(how, other, hi, lo));
    var s2 := LoadCommand(s1);
    ProcessWaits(b, s2);
    EndKeepsCommand(b, Process(b, s2));
    StepTakes(b, s, Dnload(w, packets));
    RunningOnce(b, s, Dnload(w, packets));
  }

  lemma RunningOnce(b: Board, s: Dfu, req: Request)
    requires Wf(b, s) && Took(s, Step(b, s, req), JumpsOf(b, s, req))
    ensures Step(b, s, req).running ==> s.running
  {
    hide Step, JumpsOf;
  }

  lemma EndKeepsCommand(b: Board, s: Dfu)
    requires Wf(b, s)
    ensures var r := EndDnload(b, s);
      r.command == s.command && r.data == s.data && r.secure == s.secure && r.waitForExit == s.waitForExit
  {
    hide Firmware, FlashOk, BoardOk;
    FirmwareKeepsCommand(b, s);
  }

  lemma FirmwareKeepsCommand(b: Board, s: Dfu)
    requires Wf(b, s)
    ensures var r := Firmware(b, s).0;
      r.command == s.command && r.data == s.data && r.secure == s.secure && r.waitForExit == s.waitForExit
  {
    hide WriteWords, WriteEeprom, Discard, Address, ByteCount, FlashOk, BoardOk;
  }

  /** The empty download request that ends the transfer. */
  lemma EmptyRequestStarts(b: Board, s: Dfu, how: byte, other: byte, hi: byte, lo: byte)
    requires Wf(b, s) && !s.secure && s.waitForExit && s.command == COMMAND_WRITE
    requires s.data == [0x03, how, other, hi, lo]
    ensures var r := Step(b, s, Dnload(0, []));
      && !r.waitForExit && r.running == (s.running && how == 0)
      && (how != 0 ==> r.appStart == Word(lo, hi))
  {
    hide BoardOk, FlashOk;
  }

  /** The way out: on an unlocked device, in whatever state and with whatever packets behind the command, a
      start-application command and then an empty download request end the main loop, and the application
      starts at the address the command carried; a start by watchdog leaves the loop running until the reset. */
  lemma StartCompletes(b: Board, s: Dfu, w: uint16, packets: seq<seq<byte>>, how: byte, other: byte, hi: byte, lo: byte)
    requires Wf(b, s) && !s.secure && 0 < w && Carries(packets, StartCommand(how, other, hi, lo))
    ensures Alive(Step(b, s, Dnload(w, packets)))
    ensures var r := Run(b, s, [Dnload(w, packets), Dnload(0, [])]);
      && (how != 0 ==> !Alive(r) && r.appStart == 256 * hi + lo)
      && (how == 0 ==> !r.waitForExit)
  {
    hide Step, BoardOk, FlashOk;
    StartLoaded(b, s, w, packets, how, other, hi, lo);
    EmptyRequestStarts(b, Step(b, s, Dnload(w, packets)), how, other, hi, lo);
    RunTwo(b, s, Dnload(w, packets), Dnload(0, []));
  }

  /** A start by watchdog keeps the main loop running. */
  lemma WatchdogKeepsRunning(b: Board, s: Dfu, w: uint16, packets: seq<seq<byte>>, other: byte, hi: byte, lo: byte)
    requires Wf(b, s) && !s.secure && s.running && !s.waitForExit && 0 < w
    requires Carries(packets, StartCommand(0, other, hi, lo))
    ensures var r := Run(b, s, [Dnload(w, packets), Dnload(0, [])]); r.running && r.appStart == s.appStart
  {
    hide Step, BoardOk, FlashOk;
    StartLoaded(b, s, w, packets, 0, other, hi, lo);
    NoJump(b, s, w, packets, other, hi, lo);
    EmptyRequestStarts(b, Step(b, s, Dnload(w, packets)), 0, other, hi, lo);
    NoJumpAgain(b, Step(b, s, Dnload(w, packets)), other, hi, lo);
    RunTwo(b, s, Dnload(w, packets), Dnload(0, []));
  }

  lemma NoJump(b: Board, s: Dfu, w: uint16, packets: seq<seq<byte>>, other: byte, hi: byte, lo: byte)
    requires Wf(b, s) && !s.secure && !s.waitForExit && 0 < w && Carries(packets, StartCommand(0, other, hi, lo))
    ensures var r := Step(b, s, Dnload(w, packets)); r.running == s.running && r.appStart == s.appStart
  {
    hide Step, LoadCommand, BoardOk, FlashOk;
    StepTakes(b, s, Dnload(w, packets));
    var s0 := s.(dataSize := w, rx := OutPipe([], packets));
    LoadCommandCarried(s0, packets, StartCommand(0, other, hi, lo));
    assert FinishExit(b, s0).(rx := s0.rx) == s0;
    assert JumpsOf(b, s, Dnload(w, packets)) == [];
  }

  lemma NoJumpAgain(b: Board, s: Dfu, other: byte, hi: byte, lo: byte)
    requires Wf(b, s) && s.data == [0x03, 0, other, hi, lo]
    ensures Step(b, s, Dnload(0, [])).appStart == s.appStart
  {
    hide Step, BoardOk, FlashOk;
    StepTakes(b, s, Dnload(0, []));
    assert JumpsOf(b, s, Dnload(0, [])) == [];
  }

  /** With no exit pending the empty download request ends a download, and does nothing else. */
  lemma EmptyRequestEnds(b: Board, s: Dfu, packets: seq<seq<byte>>)
    requires Wf(b, s) && !s.waitForExit
    ensures Step(b, s, Dnload(0, packets))
         == s.(state := if s.state == dfuDNLOAD_IDLE then dfuIDLE else s.state, dataSize := 0, rx := OutPipe([], []))
  {
    hide BoardOk, FlashOk, Firmware;
  }

  // ---- Status and state ------------------------------------------------------------------

  /** `r` has sent the packet `p` and is otherwise as `s` was. */
  ghost predicate Sent(s: Dfu, r: Dfu, p: seq<byte>) {
    r == s.(dataSize := r.dataSize, tx := InPipe([], s.tx.sent + [p]))
  }

  /** DFU_GETSTATUS answers six bytes, the status first and the state in the fifth, as section 6.1.2 of USB DFU
      1.1 lays them out; DFU_GETSTATE answers the state alone. */
  lemma StatusSent(b: Board, s: Dfu, w: uint16)
    requires Wf(b, s) && s.tx.bank == []
    ensures Sent(s, Step(b, s, GetStatus(w)), [s.status, 0, 0, 0, s.state, 0])
    ensures Sent(s, Step(b, s, GetState(w)), [s.state])
  {
    assert [] + [s.status, 0, 0, 0, s.state, 0] == [s.status, 0, 0, 0, s.state, 0];
    assert [] + [s.state] == [s.state];
  }

  /** What the host sees of a refusal: a locked device that is sent a forbidden command reports errWRITE (3) and
      dfuERROR (10), after DFU_CLRSTATUS status OK (0) but still dfuERROR, and dfuIDLE (2) after DFU_ABORT. */
  lemma RefusalReported(b: Board, s: Dfu, w: uint16, packets: seq<seq<byte>>)
    requires Locked(b, s) && s.tx.bank == [] && 0 < w && packets != []
    requires CommandIn(packets) != COMMAND_READ && CommandIn(packets) != COMMAND_WRITE
    ensures var r1 := Step(b, Step(b, s, Dnload(w, packets)), GetStatus(6));
      var r2 := Step(b, Step(b, r1, ClrStatus(0)), GetStatus(6));
      var r3 := Step(b, Step(b, r2, Abort(0)), GetState(1));
      && r3.tx.sent == s.tx.sent + [[3, 0, 0, 0, 10, 0], [0, 0, 0, 0, 10, 0], [2]]
      && r3.flash == s.flash && r3.eeprom == s.eeprom && r3.secure
  {
    var s1 := Step(b, s, Dnload(w, packets));
    Refused(b, s, w, packets);
    hide Step, BoardOk, FlashOk, BufferEmpty;
    StatusSent(b, s1, 6);
    var r1 := Step(b, s1, GetStatus(6));
    var s2 := Step(b, r1, ClrStatus(0));
    Cleared(b, r1);
    StatusSent(b, s2, 6);
    var r2 := Step(b, s2, GetStatus(6));
    var s3 := Step(b, r2, Abort(0));
    Cleared(b, r2);
    StatusSent(b, s3, 1);
    var a: seq<seq<byte>> := [[3, 0, 0, 0, 10, 0], [0, 0, 0, 0, 10, 0], [2]];
    assert s.tx.sent + [a[0]] + [a[1]] + [a[2]] == s.tx.sent + a;
  }

  lemma Refused(b: Board, s: Dfu, w: uint16, packets: seq<seq<byte>>)
    requires Locked(b, s) && 0 < w && packets != []
    requires CommandIn(packets) != COMMAND_READ && CommandIn(packets) != COMMAND_WRITE
    ensures var r := Step(b, s, Dnload(w, packets));
      && r.status == 3 && r.state == 10 && r.tx == s.tx && r.flash == s.flash && r.eeprom == s.eeprom && r.secure
  {
    hide LoadCommand, BoardOk, FlashOk, BufferEmpty, Firmware;
    LoadedShort(s.(dataSize := w, rx := OutPipe([], packets)), packets);
  }

  /** DFU_CLRSTATUS and DFU_ABORT touch one of the two each. */
  lemma Cleared(b: Board, s: Dfu)
    requires Wf(b, s)
    ensures Step(b, s, ClrStatus(0)) == s.(status := OK, dataSize := 0)
    ensures Step(b, s, Abort(0)) == s.(state := dfuIDLE, dataSize := 0)
  {}

  /** An upload ends a selection, whatever was selected, and changes no other state and no memory. */
  lemma UploadEnds(b: Board, s: Dfu, w: uint16)
    requires Wf(b, s)
    ensures var r := Step(b, s, Upload(w));
      && r.state == (if s.state == dfuUPLOAD_IDLE then dfuIDLE else s.state)
      && r == s.(state := r.state, start := r.start, dataSize := w, tx := r.tx) && r.tx.bank == []
  {
    hide SendWords, SendEeprom, BoardOk, FlashOk;
  }

  // ---- Identification -------------------------------------------------------------------------

  /** The byte asked for by a read command: the version and the two identification bytes of the bootloader, or
      a signature byte of the chip. */
  function Identification(b: Board, kind: byte, i: nat): byte
    requires |b.signature| == 3 && kind <= 1 && i < 3
  {
    if kind == 0 then [0x20, 0xDC, 0xFB][i] else b.signature[i]
  }

  function ReadRequest(kind: byte, i: nat, more: seq<byte>): seq<byte>
    requires i < 3
  {
    [COMMAND_READ, kind, if kind == 0 then i else 0x30 + i] + more
  }

  lemma ReadProcessed(b: Board, s: Dfu, w: uint16, packets: seq<seq<byte>>, kind: byte, i: nat, more: seq<byte>)
    requires Wf(b, s) && !s.waitForExit && kind <= 1 && i < 3 && |more| == 3
    requires Carries(packets, ReadRequest(kind, i, more)) && 0 < w && (w == 6 || s.state != dfuDNLOAD_IDLE)
    ensures var r := Step(b, s, Dnload(w, packets));
      && r.response == Identification(b, kind, i) && r.data[0] == kind && r.tx == s.tx
      && r.state == (if s.state == dfuDNLOAD_IDLE then dfuIDLE else s.state)
  {
    hide LoadCommand, BoardOk, FlashOk, Firmware;
    LoadCommandCarried(s.(dataSize := w, rx := OutPipe([], packets)), packets, ReadRequest(kind, i, more));
    SignatureSize(b, s);
  }

  lemma SignatureSize(b: Board, s: Dfu)
    requires Wf(b, s)
    ensures |b.signature| == 3
  {}

  lemma {:induction false} SendWordsEven(size: nat, t: InPipe, cells: seq<byte>, addr: nat, n: nat)
    requires Even(size) && Even(|t.bank|)
    ensures Even(|SendWords(size, t, cells, addr, n).bank|)
    decreases n
  {
    if n > 0 {
      var t1 := if |t.bank| == size then Send(t) else t;
      SendWordsEven(size, t1.(bank := t1.bank + [ReadCell(cells, addr), ReadCell(cells, addr + 1)]), cells, addr + 2,
                    n - 1);
    }
  }

  /** The upload answers with the response byte. */
  predicate AnswersByte(s: Dfu)
    requires |s.data| == 5
  {
    s.state != dfuUPLOAD_IDLE && !(s.state == dfuERROR && s.data[0] == 1)
  }

  lemma UploadAnswers(b: Board, s: Dfu, w: uint16, v: byte)
    requires Wf(b, s) && s.tx.bank == [] && s.data[0] <= 1
    ensures Step(b, s, Upload(w)).tx.sent == s.tx.sent + [[v]] <==> AnswersByte(s) && s.response == v
  {
    hide SendWords, FlashOk, Aligned;
    var bank := UploadBank(b, s, w);
    if !AnswersByte(s) { assert |bank| != 1; }
    assert bank == [v] <==> AnswersByte(s) && s.response == v;
    assert Step(b, s, Upload(w)).tx.sent[|Step(b, s, Upload(w)).tx.sent| - 1] == bank;
  }

  lemma EndpointEven(b: Board, s: Dfu)
    requires Wf(b, s)
    ensures Even(b.endpointSize) && Even(0) && Even(2)
  {}

  /** The last packet of an upload. */
  lemma UploadBank(b: Board, s: Dfu, w: uint16) returns (bank: seq<byte>)
    requires Wf(b, s) && s.tx.bank == [] && s.data[0] <= 1
    ensures var sent := Step(b, s, Upload(w)).tx.sent; sent != [] && sent[|sent| - 1] == bank
    ensures AnswersByte(s) ==> bank == [s.response] && Step(b, s, Upload(w)).tx.sent == s.tx.sent + [bank]
    ensures !AnswersByte(s) ==> Even(|bank|)
  {
    hide SendWords, SendEeprom, BoardOk, FlashOk, Address, ByteCount, Even;
    EndpointEven(b, s);
    var words := SendWords(b.endpointSize, s.tx, s.flash.cells, Address(s.page64, s.start),
                           ByteCount(s.start, s.end) / 2);
    SendWordsEven(b.endpointSize, s.tx, s.flash.cells, Address(s.page64, s.start), ByteCount(s.start, s.end) / 2);
    bank := if AnswersByte(s) then [s.response]
            else if s.state == dfuERROR then [Low(s.start), High(s.start)]
            else if s.data[0] == 0 then words.bank else [];
    assert [] + [s.response] == [s.response];
    assert [] + [Low(s.start), High(s.start)] == [Low(s.start), High(s.start)];
  }

  /** A read command and then an upload return the byte asked for, locked or not, if and only if the device is
      not answering for a selected range nor, when a signature byte is asked for, for an error. */
  lemma IdentificationIff(b: Board, s: Dfu, w: uint16, packets: seq<seq<byte>>, kind: byte, i: nat, more: seq<byte>,
                          w': uint16)
    requires Wf(b, s) && !s.waitForExit && s.tx.bank == [] && kind <= 1 && i < 3 && |more| == 3
    requires Carries(packets, ReadRequest(kind, i, more)) && 0 < w && (w == 6 || s.state != dfuDNLOAD_IDLE)
    ensures |b.signature| == 3
    ensures Step(b, Step(b, s, Dnload(w, packets)), Upload(w')).tx.sent == s.tx.sent + [[Identification(b, kind, i)]]
            <==> s.state != dfuUPLOAD_IDLE && !(s.state == dfuERROR && kind == 1)
  {
    hide Step, BoardOk, FlashOk;
    SignatureSize(b, s);
    ReadProcessed(b, s, w, packets, kind, i, more);
    UploadAnswers(b, Step(b, s, Dnload(w, packets)), w', Identification(b, kind, i));
  }

  // ---- Everything else ---------------------------------------------------------------------------

  /** The commands of the protocol, by their first three bytes. */
  predicate Recognised(command: byte, first: byte, second: byte) {
    || (command == 0x01 && first <= 1)                                   // program flash, EEPROM
    || (command == 0x03 && first <= 2)                                   // display flash, blank check, EEPROM
    || (command == 0x04 && (first == 3 || (first == 0 && second == 0xFF))) // start the application, chip erase
    || (command == 0x05 && first <= 1)                                   // identification, signature
    || (command == 0x06 && first == 3 && second == 0)                    // change the base address
  }

  /** Any other command, sent to an unlocked device that is not downloading, has no effect. */
  lemma UnrecognisedIgnored(b: Board, s: Dfu, w: uint16, packets: seq<seq<byte>>, header: seq<byte>)
    requires Wf(b, s) && !s.secure && !s.waitForExit && 0 < w && s.state != dfuDNLOAD_IDLE
    requires Carries(packets, header) && !Recognised(header[0], header[1], header[2])
    ensures var r := Step(b, s, Dnload(w, packets));
      r == s.(command := header[0], data := header[1..], dataSize := r.dataSize, rx := OutPipe([], []))
  {
    hide LoadCommand, BoardOk, FlashOk, Firmware;
    LoadCommandCarried(s.(dataSize := w, rx := OutPipe([], packets)), packets, header);
  }

  // ---- The 64KB page ------------------------------------------------------------------------------

  /** A change of the base address names the 64KB page that the next flash download goes to. */
  lemma BaseThenDownload(b: Board, s: Dfu, w1: uint16, change: seq<seq<byte>>, page: byte, more: seq<byte>,
                         w2: uint16, packets: seq<seq<byte>>, start: uint16, end: uint16, payload: seq<byte>)
    requires Wf(b, s) && !s.secure && !s.waitForExit && BufferEmpty(b.pageSize, s.flash)
    requires 0 < w1 && (w1 == 6 || s.state != dfuDNLOAD_IDLE) && |more| == 2
    requires Carries(change, [COMMAND_CHANGE_BASE_ADDR, 0x03, 0x00, page] + more)
    requires ProgramTransfer(b, w2, packets, 0, start, end, payload)
    requires Placeable(b, Lengths(packets), start, |payload|)
    requires payload != [] && |payload| == ByteCount(start, end) / 2 * 2
    requires 65536 * page + start + |payload| <= |s.flash.cells|
    ensures var r := Run(b, s, [Dnload(w1, change), Dnload(w2, packets)]); var o := InPage(b.pageSize, start);
      ImageAt(b.pageSize, s.flash.cells, r.flash.cells, 65536 * page + start - o, o, payload)
  {
    hide Step, Wf, ProgramTransfer, Placeable, ImageAt, InPage, BufferEmpty, Carries;
    PageNamed(b, s, w1, change, page, more);
    DownloadFlash(b, Step(b, s, Dnload(w1, change)), w2, packets, start, end, payload);
    RunTwo(b, s, Dnload(w1, change), Dnload(w2, packets));
  }

  lemma PageNamed(b: Board, s: Dfu, w: uint16, packets: seq<seq<byte>>, page: byte, more: seq<byte>)
    requires Wf(b, s) && !s.secure && !s.waitForExit && 0 < w && (w == 6 || s.state != dfuDNLOAD_IDLE) && |more| == 2
    requires Carries(packets, [COMMAND_CHANGE_BASE_ADDR, 0x03, 0x00, page] + more)
    ensures var r := Step(b, s, Dnload(w, packets));
      && r.page64 == page && r.flash == s.flash && r.eeprom == s.eeprom && !r.secure && !r.waitForExit
  {
    hide LoadCommand, BoardOk, FlashOk, Firmware;
    LoadCommandCarried(s.(dataSize := w, rx := OutPipe([], packets)), packets,
                       [COMMAND_CHANGE_BASE_ADDR, 0x03, 0x00, page] + more);
  }
}
