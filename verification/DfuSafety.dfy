/** What holds over every sequence of requests sent to the DFU bootloader. */
module DfuSafety {
  import opened Usb
  import opened AvrFlash
  import opened DfuSpec
  import opened DfuPackets
  import opened DfuTransfer
  import opened DfuPlacement

  // ---- Chip erase -----------------------------------------------------------------

  function AfterErase(size: nat, f: Flash, addr: nat, limit: nat, i: nat): byte
    requires |f.buffer| == size && i < |f.cells|
  {
    if addr <= i < addr + size then f.buffer[i - addr] else if addr <= i < limit then BLANK else f.cells[i]
  }

  /** What the erase loop leaves: the buffer's old contents in the first page, blanks after it. */
  lemma {:induction false} EraseFromCells(size: nat, f: Flash, addr: nat, limit: nat)
    requires FlashOk(size, f) && Aligned(size, addr) && Aligned(size, limit) && addr < limit <= |f.cells|
    ensures var r := EraseFrom(size, f, addr, limit);
      && BufferEmpty(size, r) && r.misuse == f.misuse
      && forall i :: 0 <= i < |r.cells| ==> r.cells[i] == AfterErase(size, f, addr, limit, i)
    decreases limit - addr
  {
    hide Aligned, PageOf, Erase, Write;
    NextPageFits(size, addr, limit);
    PageFacts(size, addr, 0);
    ErasedAndWritten(size, f, addr);
    var f1 := Write(size, Erase(size, f, addr), addr);
    if addr + size < limit {
      EraseFromCells(size, f1, addr + size, limit);
      NextPageFits(size, addr + size, limit);
      forall i | 0 <= i < |f.cells|
        ensures AfterErase(size, f1, addr + size, limit, i) == AfterErase(size, f, addr, limit, i)
      {}
    }
  }

  lemma ErasedAndWritten(size: nat, f: Flash, p: nat)
    requires FlashOk(size, f) && Aligned(size, p) && p + size <= |f.cells|
    ensures var r := Write(size, Erase(size, f, p), p);
      r.cells == Splice(f.cells, p, f.buffer) && BufferEmpty(size, r) && r.misuse == f.misuse
  {
    hide Aligned, PageOf;
    PageFacts(size, p, 0);
    BlankAnd(f.buffer);
    var f1 := Erase(size, f, p);
    assert f1.cells[p..p + size] == Blank(size);
  }

  ghost predicate AppBlank(b: Board, cells: seq<byte>) {
    b.bootStart <= |cells| && forall i :: 0 <= i < b.bootStart ==> cells[i] == BLANK
  }

  /** A chip erase blanks the application section if and only if the page buffer is blank when it
      starts: a download cut short by a detach leaves its last words to be written to page 0. */
  lemma EraseBlanksIff(b: Board, f: Flash)
    requires BoardOk(b) && FlashOk(b.pageSize, f) && 0 < b.bootStart <= |f.cells|
    ensures var r := EraseFrom(b.pageSize, f, 0, b.bootStart);
      && (AppBlank(b, r.cells) <==> f.buffer == Blank(b.pageSize))
      && |r.cells| == |f.cells| && r.cells[b.bootStart..] == f.cells[b.bootStart..]
  {
    hide EraseFrom;
    var size := b.pageSize;
    assert Aligned(size, 0);
    NextPageFits(size, 0, b.bootStart);
    EraseFromCells(size, f, 0, b.bootStart);
    var r := EraseFrom(size, f, 0, b.bootStart);
    if AppBlank(b, r.cells) {
      forall i | 0 <= i < size ensures f.buffer[i] == BLANK {
        assert r.cells[i] == AfterErase(size, f, 0, b.bootStart, i);
      }
    }
  }

  // ---- Secure mode --------------------------------------------------------------------

  ghost predicate Locked(b: Board, s: Dfu) {
    && Wf(b, s) && s.secure && !s.waitForExit
    && (s.state == dfuIDLE || s.state == dfuERROR)
    && BufferEmpty(b.pageSize, s.flash)
  }

  /** Processing a command while locked: nothing happens to the memories unless it is a chip erase. */
  lemma LockedProcess(b: Board, s: Dfu)
    requires Locked(b, s)
    ensures var r := Process(b, s);
      && r.eeprom == s.eeprom && r.state != dfuDNLOAD_IDLE
      && (r.secure ==> Locked(b, r) && r.flash == s.flash)
      && (!r.secure ==> AppBlank(b, r.flash.cells) && r.flash.cells[b.bootStart..] == s.flash.cells[b.bootStart..])
  {
    hide EraseFrom, Aligned;
    if s.command == COMMAND_WRITE && s.data[0] == 0x00 && s.data[1] == 0xFF {
      if b.bootStart == 0 {
        assert EraseFrom(b.pageSize, s.flash, 0, 0) == s.flash by { NothingToErase(b.pageSize, s.flash); }
      } else {
        EraseBlanksIff(b, s.flash);
      }
    }
  }

  lemma NothingToErase(size: nat, f: Flash)
    requires FlashOk(size, f)
    ensures EraseFrom(size, f, 0, 0) == f
  {}

  /** While the lock holds, a request leaves the lock and both memories alone, or is the one that
      erases the whole application section. */
  lemma LockedStep(b: Board, s: Dfu, req: Request)
    requires Locked(b, s)
    ensures var r := Step(b, s, req);
      && r.eeprom == s.eeprom
      && (r.secure ==> Locked(b, r) && r.flash == s.flash)
      && (!r.secure ==> req.Dnload? && AppBlank(b, r.flash.cells)
                        && r.flash.cells[b.bootStart..] == s.flash.cells[b.bootStart..])
  {
    hide Process, LoadCommand, Firmware, FlashOk, Aligned, AppBlank;
    match req
    case Dnload(wLength, packets) =>
      if wLength != 0 && packets != [] {
        LockedProcess(b, LoadCommand(s.(dataSize := wLength, rx := OutPipe([], packets))));
      }
    case _ =>
  }

  lemma {:induction false} SecureNeverReturns(b: Board, s: Dfu, reqs: seq<Request>)
    requires Wf(b, s) && !s.secure
    ensures !Run(b, s, reqs).secure
    decreases |reqs|
  {
    hide Step, Wf;
    if reqs != [] {
      UnlockedStep(b, s, reqs[0]);
      SecureNeverReturns(b, Step(b, s, reqs[0]), reqs[1..]);
    }
  }

  lemma ProcessKeepsUnlocked(b: Board, s: Dfu)
    requires Wf(b, s) && !s.secure
    ensures !Process(b, s).secure
  {
    hide EraseFrom, Erase, FirstNonBlank, FlashOk, BoardOk;
  }

  lemma UnlockedStep(b: Board, s: Dfu, req: Request)
    requires Wf(b, s) && !s.secure
    ensures !Step(b, s, req).secure
  {
    hide Process, LoadParams, Discard, WriteWords, WriteEeprom, FlashOk, BoardOk;
    if req.Dnload? {
      var s1 := s.(dataSize := req.wLength, rx := OutPipe([], req.packets));
      ProcessKeepsUnlocked(b, s1);
      var s2 := FinishExit(b, s1);
      if req.packets != [] {
        ProcessKeepsUnlocked(b, LoadCommand(s2));
      }
    }
  }

  /** Safety over whole runs: as long as the bootloader is secure, both memories are what they were
      and it has stayed in the idle or the error state. */
  lemma {:induction false} SecureRun(b: Board, s: Dfu, reqs: seq<Request>)
    requires Locked(b, s) && Run(b, s, reqs).secure
    ensures var r := Run(b, s, reqs);
      Locked(b, r) && r.flash == s.flash && r.eeprom == s.eeprom
    decreases |reqs|
  {
    hide Step, Locked, Wf;
    LockedWf(b, s);
    if reqs != [] {
      LockedStep(b, s, reqs[0]);
      if !Step(b, s, reqs[0]).secure {
        SecureNeverReturns(b, Step(b, s, reqs[0]), reqs[1..]);
      }
      SecureRun(b, Step(b, s, reqs[0]), reqs[1..]);
    }
  }

  /** The lock opens only in a request that leaves the whole application section blank. */
  lemma UnlockErases(b: Board, s: Dfu, reqs: seq<Request>, req: Request)
    requires Locked(b, s) && Run(b, s, reqs).secure && !Run(b, s, reqs + [req]).secure
    ensures req.Dnload?
    ensures AppBlank(b, Run(b, s, reqs + [req]).flash.cells)
    ensures Run(b, s, reqs + [req]).eeprom == s.eeprom
  {
    hide Step, Run;
    RunAppend(b, s, reqs, req);
    SecureRun(b, s, reqs);
    LockedStep(b, Run(b, s, reqs), req);
  }

  /** Two bootloaders that differ in the contents of their memories only. */
  ghost predicate SameButMemory(s: Dfu, t: Dfu) { t == s.(flash := t.flash, eeprom := t.eeprom) }

  lemma BlindProcess(b: Board, s: Dfu, t: Dfu)
    requires Locked(b, s) && Locked(b, t) && SameButMemory(s, t)
    ensures SameButMemory(Process(b, s), Process(b, t))
  {
    hide EraseFrom, FlashOk, BoardOk, BufferEmpty;
  }

  lemma BlindStep(b: Board, s: Dfu, t: Dfu, req: Request)
    requires Locked(b, s) && Locked(b, t) && SameButMemory(s, t)
    ensures SameButMemory(Step(b, s, req), Step(b, t, req))
  {
    hide Process, LoadParams, Firmware, FlashOk, BoardOk, BufferEmpty;
    match req
    case Dnload(wLength, packets) =>
      if wLength != 0 && packets != [] {
        var s1 := LoadCommand(s.(dataSize := wLength, rx := OutPipe([], packets)));
        var t1 := LoadCommand(t.(dataSize := wLength, rx := OutPipe([], packets)));
        BlindProcess(b, s1, t1);
        LockedProcess(b, s1);
        LockedProcess(b, t1);
      }
    case _ =>
  }

  /** Nothing a locked bootloader answers depends on the contents of its memories: two of them fed
      the same requests send the same packets for as long as one of them stays locked, and up to
      and including the request that unlocks it. */
  lemma {:induction false} SecureBlind(b: Board, s: Dfu, t: Dfu, reqs: seq<Request>, req: Request)
    requires Locked(b, s) && Locked(b, t) && SameButMemory(s, t) && Run(b, s, reqs).secure
    ensures SameButMemory(Run(b, s, reqs + [req]), Run(b, t, reqs + [req]))
    ensures Run(b, s, reqs + [req]).tx == Run(b, t, reqs + [req]).tx
    decreases |reqs|
  {
    hide Step, Locked, Wf;
    LockedWf(b, s);
    LockedWf(b, t);
    if reqs == [] {
      BlindStep(b, s, t, req);
      RunAppend(b, s, [], req);
      RunAppend(b, t, [], req);
    } else {
      var s1, t1 := Step(b, s, reqs[0]), Step(b, t, reqs[0]);
      BlindStep(b, s, t, reqs[0]);
      LockedStep(b, s, reqs[0]);
      LockedStep(b, t, reqs[0]);
      if !s1.secure {
        SecureNeverReturns(b, s1, reqs[1..]);
      }
      SecureBlind(b, s1, t1, reqs[1..], req);
      assert (reqs + [req])[1..] == reqs[1..] + [req];
    }
  }

  lemma LockedWf(b: Board, s: Dfu)
    requires Locked(b, s)
    ensures Wf(b, s) && s.secure
  {}

  // ---- Blank check -------------------------------------------------------------------------

  lemma {:induction false} FirstNonBlankLeast(cells: seq<byte>, addr: nat, limit: nat)
    requires addr <= limit <= |cells|
    ensures var a := FirstNonBlank(cells, addr, limit);
      && addr <= a <= limit && (a < limit ==> cells[a] != BLANK)
      && forall i :: addr <= i < a ==> cells[i] == BLANK
    decreases limit - addr
  {
    if addr < limit && cells[addr] == BLANK {
      FirstNonBlankLeast(cells, addr + 1, limit);
    }
  }

  /** A blank check of a section that is not blank reports the least offending address: split into
      64KB page and offset, and its low 16 bits in the next upload. */
  lemma BlankCheckReports(b: Board, s: Dfu, w: uint16, packets: seq<seq<byte>>, w': uint16, a: nat)
    requires Wf(b, s) && !s.secure && !s.waitForExit && 0 < w && s.tx.bank == []
    requires packets != [] && |packets[0]| >= 2 && packets[0][0] == COMMAND_DISP_DATA && packets[0][1] == 0x01
    requires b.bootStart <= 0x1000000
    requires a < b.bootStart && s.flash.cells[a] != BLANK && forall i :: 0 <= i < a ==> s.flash.cells[i] == BLANK
    ensures var s1 := Step(b, s, Dnload(w, packets)); var s2 := Step(b, s1, Upload(w'));
      && s1.state == dfuERROR && s1.status == errCHECK_ERASED
      && Address(s1.page64, s1.start) == a
      && s2.tx.sent == s.tx.sent + [[Low(a % 65536), High(a % 65536)]]
      && s2.flash == s1.flash == s.flash
  {
    hide FirstNonBlank, LoadCommand, FlashOk, BoardOk, Firmware;
    LoadCommandShort(s.(dataSize := w, rx := OutPipe([], packets)), packets, 0);
    FirstNonBlankLeast(s.flash.cells, 0, b.bootStart);
    assert FirstNonBlank(s.flash.cells, 0, b.bootStart) == a;
    assert s.tx.bank + [Low(a % 65536), High(a % 65536)] == [Low(a % 65536), High(a % 65536)];
  }

  lemma BlankCheckSilent(b: Board, s: Dfu, w: uint16, packets: seq<seq<byte>>)
    requires Wf(b, s) && !s.secure && !s.waitForExit && 0 < w && s.state != dfuDNLOAD_IDLE
    requires packets != [] && |packets[0]| >= 2 && packets[0][0] == COMMAND_DISP_DATA && packets[0][1] == 0x01
    requires AppBlank(b, s.flash.cells)
    ensures var s1 := Step(b, s, Dnload(w, packets));
      s1.state == s.state && s1.status == s.status && s1.flash == s.flash && s1.eeprom == s.eeprom
  {
    hide FirstNonBlank, LoadCommand, FlashOk, BoardOk, Firmware;
    LoadCommandShort(s.(dataSize := w, rx := OutPipe([], packets)), packets, 0);
    FirstNonBlankLeast(s.flash.cells, 0, b.bootStart);
    assert FirstNonBlank(s.flash.cells, 0, b.bootStart) == b.bootStart;
  }

  /** The chip erase command, whatever its other parameters, blanks the section and opens the lock. */
  lemma ChipErases(b: Board, s: Dfu, w: uint16, packets: seq<seq<byte>>)
    requires Wf(b, s) && !s.waitForExit && 0 < w && s.state != dfuDNLOAD_IDLE && BufferEmpty(b.pageSize, s.flash)
    requires packets != [] && |packets[0]| >= 3
    requires packets[0][0] == COMMAND_WRITE && packets[0][1] == 0x00 && packets[0][2] == 0xFF
    ensures var r := Step(b, s, Dnload(w, packets));
      && AppBlank(b, r.flash.cells) && r.flash.cells[b.bootStart..] == s.flash.cells[b.bootStart..]
      && r.state == s.state && r.status == s.status && !r.secure && !r.waitForExit
  {
    hide LoadCommand, BoardOk, FlashOk, Firmware, EraseFrom, AppBlank, BufferEmpty;
    var s1 := s.(dataSize := w, rx := OutPipe([], packets));
    LoadCommandShort(s1, packets, 0);
    LoadCommandShort(s1, packets, 1);
    SectionErased(b, s.flash);
  }

  lemma SectionErased(b: Board, f: Flash)
    requires BoardOk(b) && FlashOk(b.pageSize, f) && b.bootStart <= |f.cells| && BufferEmpty(b.pageSize, f)
    ensures var r := EraseFrom(b.pageSize, f, 0, b.bootStart);
      AppBlank(b, r.cells) && |r.cells| == |f.cells| && r.cells[b.bootStart..] == f.cells[b.bootStart..]
      && BufferEmpty(b.pageSize, r)
  {
    hide Aligned;
    if b.bootStart == 0 {
      NothingToErase(b.pageSize, f);
    } else {
      EraseBlanksIff(b, f);
      AlignedZero(b.pageSize);
      EraseFromCells(b.pageSize, f, 0, b.bootStart);
    }
  }

  lemma AlignedZero(size: nat)
    requires 0 < size
    ensures Aligned(size, 0)
  {}

  /** Chip erase followed by a blank check, locked or not: no complaint. */
  lemma ErasedChecksBlank(b: Board, s: Dfu, w1: uint16, erase: seq<seq<byte>>, w2: uint16, check: seq<seq<byte>>)
    requires Wf(b, s) && !s.waitForExit && 0 < w1 && 0 < w2 && s.state != dfuDNLOAD_IDLE
             && BufferEmpty(b.pageSize, s.flash)
    requires erase != [] && |erase[0]| >= 3
    requires erase[0][0] == COMMAND_WRITE && erase[0][1] == 0x00 && erase[0][2] == 0xFF
    requires check != [] && |check[0]| >= 2 && check[0][0] == COMMAND_DISP_DATA && check[0][1] == 0x01
    ensures var s1 := Step(b, s, Dnload(w1, erase)); var s2 := Step(b, s1, Dnload(w2, check));
      && AppBlank(b, s1.flash.cells) && s1.flash.cells[b.bootStart..] == s.flash.cells[b.bootStart..]
      && s2.state == s.state && s2.status == s.status
  {
    hide Step, AppBlank, BoardOk, FlashOk, BufferEmpty;
    ChipErases(b, s, w1, erase);
    BlankCheckSilent(b, Step(b, s, Dnload(w1, erase)), w2, check);
  }

  // ---- States and the exit handshake ----------------------------------------------------------

  ghost predicate KnownState(state: byte) {
    state == dfuIDLE || state == dfuDNLOAD_IDLE || state == dfuUPLOAD_IDLE || state == dfuERROR
  }

  /** The main loop's condition. */
  predicate Alive(s: Dfu) { s.running || s.waitForExit }

  /** The address taken by processing the current command, when it is a start by jump. */
  function JumpOf(s: Dfu): seq<uint16>
    requires |s.data| == 5
  {
    if !s.secure && s.command == COMMAND_WRITE && s.data[0] == 0x03 && s.data[1] != 0x00 && s.dataSize == 0
    then [Word(s.data[4], s.data[3])] else []
  }

  /** The addresses of the start-by-jump commands processed without a data stage by one request. */
  function JumpsOf(b: Board, s: Dfu, req: Request): seq<uint16>
    requires Wf(b, s)
  {
    if !req.Dnload? then []
    else
      var s1 := s.(dataSize := req.wLength, rx := OutPipe([], req.packets));
      (if s.waitForExit then JumpOf(s1) else [])
      + (if req.wLength != 0 && req.packets != [] then JumpOf(LoadCommand(FinishExit(b, s1).(rx := s1.rx))) else [])
  }

  function Jumps(b: Board, s: Dfu, reqs: seq<Request>): seq<uint16>
    requires Wf(b, s)
    decreases |reqs|
  {
    if reqs == [] then [] else JumpsOf(b, s, reqs[0]) + Jumps(b, Step(b, s, reqs[0]), reqs[1..])
  }

  /** The request carries a start-application command in its data stage. */
  ghost predicate StartsApp(b: Board, s: Dfu, req: Request)
    requires Wf(b, s)
  {
    req.Dnload? && req.wLength != 0 && req.packets != []
    && var s1 := FinishExit(b, s.(dataSize := req.wLength, rx := OutPipe([], req.packets)));
       var c := LoadCommand(s1.(rx := OutPipe([], req.packets)));
       c.command == COMMAND_WRITE && c.data[0] == 0x03
  }

  /** `r` has taken the jumps `js` since `s`. */
  ghost predicate Took(s: Dfu, r: Dfu, js: seq<uint16>) {
    && r.appStart == (if js == [] then s.appStart else js[|js| - 1])
    && r.running == (s.running && js == [])
  }

  lemma TookBoth(s: Dfu, r: Dfu, q: Dfu, js: seq<uint16>, ks: seq<uint16>)
    requires Took(s, r, js) && Took(r, q, ks)
    ensures Took(s, q, js + ks)
  {}

  lemma ProcessTakes(b: Board, s: Dfu)
    requires Wf(b, s)
    ensures var r := Process(b, s);
      && Took(s, r, JumpOf(s))
      && (KnownState(s.state) ==> KnownState(r.state))
      && (JumpOf(s) != [] ==> r.waitForExit)
      && (r.waitForExit ==> s.waitForExit || (s.command == COMMAND_WRITE && s.data[0] == 0x03))
      && (s.waitForExit ==> r.waitForExit)
  {
    hide EraseFrom, Erase, FirstNonBlank, FlashOk, BoardOk;
  }

  lemma FirmwareKeepsExit(b: Board, s: Dfu)
    requires Wf(b, s)
    ensures var r := Firmware(b, s).0;
      && r.running == s.running && r.waitForExit == s.waitForExit && r.appStart == s.appStart
      && r.state == s.state && r.tx == s.tx
  {
    hide WriteWords, WriteEeprom, Discard, FlashOk, BoardOk;
  }

  /** Everything one request does to the exit flags, the jump address, the state and the IN bank. */
  lemma StepTakes(b: Board, s: Dfu, req: Request)
    requires Wf(b, s)
    ensures var r := Step(b, s, req);
      && Took(s, r, JumpsOf(b, s, req))
      && (KnownState(s.state) ==> KnownState(r.state))
      && (s.tx.bank == [] ==> r.tx.bank == [])
      && (r.waitForExit ==> s.waitForExit || StartsApp(b, s, req))
      && (s.running && !r.running ==> r.waitForExit || s.waitForExit)
      && (s.waitForExit && !r.waitForExit ==> req.Dnload?)
  {
    hide Process, LoadCommand, Firmware, SendWords, SendEeprom, JumpOf, FlashOk, BoardOk, KnownState;
    match req
    case Dnload(wLength, packets) =>
      hide Took;
      var s1 := s.(dataSize := wLength, rx := OutPipe([], packets));
      DnloadTakes(b, s, s1, packets);
    case _ =>
      StateNames();
  }

  lemma StateNames()
    ensures KnownState(dfuIDLE)
  {}

  lemma DnloadTakes(b: Board, s: Dfu, s1: Dfu, packets: seq<seq<byte>>)
    requires Wf(b, s) && s1 == s.(dataSize := s1.dataSize, rx := OutPipe([], packets))
    ensures var r := StepDnload(b, s1, packets); var req := Dnload(s1.dataSize, packets);
      && Took(s, r, JumpsOf(b, s, req))
      && (KnownState(s.state) ==> KnownState(r.state))
      && r.tx == s.tx
      && (r.waitForExit ==> s.waitForExit || StartsApp(b, s, req))
      && (s.running && !r.running ==> r.waitForExit || s.waitForExit)
  {
    hide Process, LoadCommand, EndDnload, JumpOf, FlashOk, BoardOk, KnownState;
    ProcessTakes(b, s1);
    var s2 := FinishExit(b, s1);
    assert s2.rx == s1.rx && s2.dataSize == s1.dataSize;
    assert s2.(rx := s1.rx) == s2;
    if s2.dataSize != 0 && packets != [] {
      LoadedKeeps(s2);
      ProcessTakes(b, LoadCommand(s2));
      EndKeepsExit(b, Process(b, LoadCommand(s2)));
    } else if s2.dataSize == 0 {
      EndKeepsExit(b, s2);
    }
  }

  lemma EndKeepsExit(b: Board, s: Dfu)
    requires Wf(b, s)
    ensures var r := EndDnload(b, s);
      && r.running == s.running && r.waitForExit == s.waitForExit && r.appStart == s.appStart && r.tx == s.tx
      && (KnownState(s.state) ==> KnownState(r.state))
  {
    hide Firmware, FlashOk, BoardOk;
    FirmwareKeepsExit(b, s);
  }

  lemma LoadedKeeps(s: Dfu)
    requires |s.data| == 5 && s.rx.pending != []
    ensures var r := LoadCommand(s);
      && r.running == s.running && r.waitForExit == s.waitForExit && r.appStart == s.appStart
      && r.state == s.state && r.tx == s.tx && r.secure == s.secure && r.flash == s.flash
  {}

  /** The flags over a whole run: what the start address is, whether the loop may still run, and
      which states can occur. */
  lemma {:induction false} RunTakes(b: Board, s: Dfu, reqs: seq<Request>)
    requires Wf(b, s) && KnownState(s.state)
    ensures var r := Run(b, s, reqs);
      && Took(s, r, Jumps(b, s, reqs)) && KnownState(r.state)
      && (s.tx.bank == [] ==> r.tx.bank == [])
    decreases |reqs|
  {
    hide Step, Took, KnownState, Wf, JumpsOf;
    if reqs == [] {
      TookNothing(s);
    } else {
      var s1 := Step(b, s, reqs[0]);
      StepTakes(b, s, reqs[0]);
      RunTakes(b, s1, reqs[1..]);
      TookBoth(s, s1, Run(b, s1, reqs[1..]), JumpsOf(b, s, reqs[0]), Jumps(b, s1, reqs[1..]));
    }
  }

  lemma TookNothing(s: Dfu)
    ensures Took(s, s, [])
  {}

  /** If the device waits for its exit, an earlier request carried a start-application command. */
  lemma {:induction false} WaitStarted(b: Board, s: Dfu, reqs: seq<Request>) returns (i: nat)
    requires Wf(b, s) && !s.waitForExit && Run(b, s, reqs).waitForExit
    ensures i < |reqs| && StartsApp(b, Run(b, s, reqs[..i]), reqs[i])
    decreases |reqs|
  {
    hide Step, Wf, StartsApp;
    var n := |reqs| - 1;
    assert reqs == reqs[..n] + [reqs[n]];
    RunAppend(b, s, reqs[..n], reqs[n]);
    StepTakes(b, Run(b, s, reqs[..n]), reqs[n]);
    if Run(b, s, reqs[..n]).waitForExit {
      i := WaitStarted(b, s, reqs[..n]);
      assert reqs[..n][..i] == reqs[..i];
    } else {
      i := n;
    }
  }

  /** The exit handshake: the main loop ends only on a download request, and only after an earlier
      one carried a start-application command; the application then starts at the address of the
      last start-by-jump command that was processed without data. */
  lemma ExitHandshake(b: Board, s: Dfu, reqs: seq<Request>, req: Request) returns (i: nat)
    requires PowerOn(b, s)
    requires Alive(Run(b, s, reqs)) && !Alive(Run(b, s, reqs + [req]))
    ensures req.Dnload?
    ensures i < |reqs| && StartsApp(b, Run(b, s, reqs[..i]), reqs[i])
    ensures var js := Jumps(b, s, reqs + [req]);
      js != [] && Run(b, s, reqs + [req]).appStart == js[|js| - 1]
  {
    hide Step, Wf, StartsApp, Jumps;
    StateNames();
    PowerOnFacts(b, s);
    RunAppend(b, s, reqs, req);
    StepTakes(b, Run(b, s, reqs), req);
    i := WaitStarted(b, s, reqs);
    RunTakes(b, s, reqs + [req]);
  }

  lemma PowerOnFacts(b: Board, s: Dfu)
    requires PowerOn(b, s)
    ensures Wf(b, s) && KnownState(s.state) && s.running && !s.waitForExit
    ensures s.secure ==> Locked(b, s)
  {}

  // ---- The page buffer between requests ---------------------------------------------------------

  /** A programming run that is not cut short leaves the buffer empty for the next one. */
  lemma {:induction false} WriteWordsEmptiesBuffer(size: nat, f: Flash, rx: OutPipe, addr: nat, pageStart: nat,
                                                   inPage: byte, n: nat)
    requires FlashOk(size, f) && (n == 0 ==> BufferEmpty(size, f))
    ensures var run := WriteWords(size, f, rx, addr, pageStart, inPage, n);
      run.finished ==> BufferEmpty(size, run.flash)
    decreases n
  {
    hide Erase, Fill, FlashOk, Peek, Drop, Refill, PageOf;
    if n > 0 && !Starved(rx) {
      var rx1 := Refill(rx);
      var rx2 := Drop(rx1);
      var f1 := Fill(size, f, addr, Peek(rx1), Peek(rx2));
      var count := (inPage + 1) % 256;
      if n > 1 {
        if count == size / 2 {
          WriteWordsEmptiesBuffer(size, Erase(size, Write(size, f1, pageStart), addr + 2), Drop(rx2), addr + 2,
                                  addr + 2, 0, n - 1);
        } else {
          WriteWordsEmptiesBuffer(size, f1, Drop(rx2), addr + 2, pageStart, count, n - 1);
        }
      }
    }
  }

  /** The state in which a download request reaches its firmware part. */
  function AtFirmware(b: Board, s: Dfu, wLength: uint16, packets: seq<seq<byte>>): (r: Dfu)
    requires Wf(b, s)
    ensures Wf(b, r)
  {
    var s1 := FinishExit(b, s.(dataSize := wLength, rx := OutPipe([], packets)));
    if s1.dataSize != 0 && packets != [] then Process(b, LoadCommand(s1)) else s1
  }

  /** The request is a flash download whose data stage ends before its last word: the host has gone. */
  ghost predicate CutShort(b: Board, s: Dfu, req: Request)
    requires Wf(b, s)
  {
    req.Dnload? && var r := AtFirmware(b, s, req.wLength, req.packets);
      && (r.dataSize != 0 && req.packets != []) && r.state == dfuDNLOAD_IDLE && r.data[0] == 0x00
      && !Firmware(b, r).1
  }

  ghost predicate Unbroken(b: Board, s: Dfu, reqs: seq<Request>)
    requires Wf(b, s)
    decreases |reqs|
  {
    reqs == [] || (!CutShort(b, s, reqs[0]) && Unbroken(b, Step(b, s, reqs[0]), reqs[1..]))
  }

  lemma ProcessKeepsEmpty(b: Board, s: Dfu)
    requires Wf(b, s) && BufferEmpty(b.pageSize, s.flash)
    ensures BufferEmpty(b.pageSize, Process(b, s).flash)
  {
    hide EraseFrom, AppBlank, Splice, Blank, PageOf;
    SectionErased(b, s.flash);
  }

  lemma FirmwareEmpties(b: Board, s: Dfu)
    requires Wf(b, s) && BufferEmpty(b.pageSize, s.flash)
    ensures s.data[0] != 0x00 || Firmware(b, s).1 ==> BufferEmpty(b.pageSize, Firmware(b, s).0.flash)
  {
    hide WriteWords, WriteEeprom, Discard, FlashOk, BufferEmpty;
    var rx := Discard(Discard(s.rx, DFU_FILLER_BYTES_SIZE), s.start % b.pageSize);
    var a := Address(s.page64, s.start);
    WriteWordsEmptiesBuffer(b.pageSize, s.flash, rx, a, a, 0, ByteCount(s.start, s.end) / 2);
  }

  lemma LoadKeepsFlash(s: Dfu)
    requires |s.data| == 5 && s.rx.pending != []
    ensures LoadCommand(s).flash == s.flash
  {}

  lemma StepKeepsEmpty(b: Board, s: Dfu, req: Request)
    requires Wf(b, s) && BufferEmpty(b.pageSize, s.flash) && !CutShort(b, s, req)
    ensures BufferEmpty(b.pageSize, Step(b, s, req).flash)
  {
    hide Process, LoadCommand, Firmware, FlashOk, BufferEmpty, BoardOk;
    match req
    case Dnload(wLength, packets) =>
      var s0 := s.(dataSize := wLength, rx := OutPipe([], packets));
      ProcessKeepsEmpty(b, s0);
      var s1 := FinishExit(b, s0);
      if s1.dataSize != 0 && packets != [] {
        LoadKeepsFlash(s1);
        ProcessKeepsEmpty(b, LoadCommand(s1));
      }
      FirmwareEmpties(b, AtFirmware(b, s, wLength, packets));
    case _ =>
  }

  /** Over every run none of whose downloads is cut short, the page buffer is empty between requests, which is
      what a download and a chip erase ask for. */
  lemma {:induction false} BufferStaysEmpty(b: Board, s: Dfu, reqs: seq<Request>)
    requires Wf(b, s) && BufferEmpty(b.pageSize, s.flash) && Unbroken(b, s, reqs)
    ensures BufferEmpty(b.pageSize, Run(b, s, reqs).flash)
    decreases |reqs|
  {
    hide Step, CutShort, BufferEmpty, Wf;
    if reqs != [] {
      StepKeepsEmpty(b, s, reqs[0]);
      BufferStaysEmpty(b, Step(b, s, reqs[0]), reqs[1..]);
    }
  }

  lemma FirmwareFinishes(b: Board, s: Dfu, rx: OutPipe)
    requires Wf(b, s) && s.data[0] == 0x00
    requires rx == Discard(Discard(s.rx, DFU_FILLER_BYTES_SIZE), InPage(b.pageSize, s.start))
    requires Cut(rx) && ByteCount(s.start, s.end) <= |Stream(rx)|
    ensures Firmware(b, s).1
  {
    hide WriteWords, ReadWords, Discard, FlashOk, Stream, Cut, BoardOk, ByteCount;
    var a := Address(s.page64, s.start);
    WriteWordsOn(b.pageSize, s.flash, rx, a, a, 0, ByteCount(s.start, s.end) / 2);
  }

  /** A flash download request is not cut short, whatever went before it, if its packets hold the header, the
      fillers and the whole range. */
  lemma EnoughData(b: Board, s: Dfu, wLength: uint16, packets: seq<seq<byte>>, start: uint16, end: uint16)
    requires Wf(b, s) && 6 < wLength
    requires Carries(packets, RangeHeader(COMMAND_PROG_START, 0, start, end))
    requires forall i :: 1 <= i < |packets| ==> packets[i] != []
    requires PayloadOffset(b, start) + ByteCount(start, end) <= |Flatten(packets)|
    ensures !CutShort(b, s, Dnload(wLength, packets))
  {
    hide Process, Firmware, LoadCommand, FlashOk, BoardOk, RangeHeader, Fed, ByteCount, Armed, InPage;
    var s1 := FinishExit(b, s.(dataSize := wLength, rx := OutPipe([], packets)));
    assert s1 == s1.(dataSize := wLength, rx := OutPipe([], packets));
    if s1.secure {
      LockedRefuses(b, s1, packets, start, end);
    } else {
      ArmedState(b, s1, wLength, packets, 0, start, end);
      ArmedFinishes(b, s1, wLength, packets, start, end);
    }
  }

  lemma LockedRefuses(b: Board, s: Dfu, packets: seq<seq<byte>>, start: uint16, end: uint16)
    requires Wf(b, s) && s.secure && s.rx == OutPipe([], packets)
    requires Carries(packets, RangeHeader(COMMAND_PROG_START, 0, start, end))
    ensures Process(b, LoadCommand(s)).state == dfuERROR
  {
    hide LoadCommand, FlashOk, BoardOk;
    LoadCommandCarried(s, packets, RangeHeader(COMMAND_PROG_START, 0, start, end));
  }

  lemma ArmedFinishes(b: Board, s: Dfu, wLength: uint16, packets: seq<seq<byte>>, start: uint16, end: uint16)
    requires Wf(b, s) && 6 < wLength && packets != [] && |packets[0]| >= 6
    requires forall i :: 1 <= i < |packets| ==> packets[i] != []
    requires PayloadOffset(b, start) + ByteCount(start, end) <= |Flatten(packets)|
    ensures Firmware(b, Armed(b, s, wLength, packets, 0, start, end)).1
  {
    hide Firmware, FlashOk, BoardOk, Discard, Stream, Cut, ByteCount, InPage, Sizes, Erase;
    FedStream(b, packets, start);
    FirmwareFinishes(b, Armed(b, s, wLength, packets, 0, start, end), Fed(b, packets, start));
  }

  // ---- An erase that is not complete ----------------------------------------------------------------

  /** A download of two words from address 0 whose host is gone after the first one. */
  function HalfDownload(filler: seq<byte>): Request {
    Dnload(64, [RangeHeader(COMMAND_PROG_START, 0, 0, 3) + filler + [0, 0]])
  }

  lemma WordLeft(b: Board, s: Dfu, filler: seq<byte>)
    requires Wf(b, s) && !s.secure && !s.waitForExit && 4 <= b.pageSize && |filler| == DFU_FILLER_BYTES_SIZE
    ensures CutShort(b, s, HalfDownload(filler))
    ensures var r := Step(b, s, HalfDownload(filler));
      r.flash.buffer[0] == 0 && r.state == dfuDNLOAD_IDLE && !r.secure && !r.waitForExit
      && r.status == s.status
  {
    hide FlashOk, BoardOk, LoadCommand, Process, Firmware, RangeHeader, Armed;
    var packets := HalfDownload(filler).packets;
    assert packets[0][..6] == RangeHeader(COMMAND_PROG_START, 0, 0, 3);
    ArmedState(b, s, 64, packets, 0, 0, 3);
    ArmedRuns(b, s, 64, packets, 0, 0, 3);
    ArmedByRequest(b, s, 64, packets, 0, 0, 3);
    HalfWritten(b, s, packets, filler);
  }

  lemma HalfWritten(b: Board, s: Dfu, packets: seq<seq<byte>>, filler: seq<byte>)
    requires Wf(b, s) && !s.secure && !s.waitForExit && 4 <= b.pageSize && |filler| == DFU_FILLER_BYTES_SIZE
    requires packets == [RangeHeader(COMMAND_PROG_START, 0, 0, 3) + filler + [0, 0]]
    ensures var s0 := Armed(b, s, 64, packets, 0, 0, 3); var (r, finished) := Firmware(b, s0);
      && s0.data[0] == 0x00 && !finished
      && r.flash.buffer[0] == 0 && r.state == dfuDNLOAD_IDLE && !r.secure && !r.waitForExit
      && r.status == s.status
  {
    hide FlashOk, BoardOk, Discard, Erase, Firmware;
    var rx := OutPipe(packets[0][6..], packets[1..]);
    DiscardBank(rx, DFU_FILLER_BYTES_SIZE);
    assert packets[0][6..][DFU_FILLER_BYTES_SIZE..] == [0, 0];
    FirmwareHalf(b, Armed(b, s, 64, packets, 0, 0, 3));
  }

  lemma FirmwareHalf(b: Board, s: Dfu)
    requires Wf(b, s) && s.data[0] == 0x00 && s.start == 0 && s.end == 3 && 4 <= b.pageSize
    requires Discard(s.rx, DFU_FILLER_BYTES_SIZE) == OutPipe([0, 0], [])
    ensures var (r, finished) := Firmware(b, s);
      !finished && r.flash.buffer[0] == 0 && r == s.(flash := r.flash, rx := r.rx)
  {
    hide FlashOk, BoardOk, Discard, WriteWords, Address;
    DiscardBank(OutPipe([0, 0], []), 0);
    FirstAddress(b, s);
    StartOfPage(b.pageSize);
    OneWordOfTwo(b.pageSize, s.flash, Address(s.page64, 0));
  }

  lemma FirstAddress(b: Board, s: Dfu)
    requires Wf(b, s)
    ensures 0 < b.pageSize && InPage(b.pageSize, Address(s.page64, 0)) == InPage(b.pageSize, 0)
  {
    hide Aligned, Address, InPage;
    AddressOffset(b.pageSize, s.page64, 0);
  }

  lemma StartOfPage(size: nat)
    requires 0 < size
    ensures InPage(size, 0) == 0 == 0 % size
  {}

  lemma OneWordOfTwo(size: nat, f: Flash, a: nat)
    requires FlashOk(size, f) && 4 <= size && InPage(size, a) == 0
    ensures var run := WriteWords(size, f, OutPipe([0, 0], []), a, a, 0, 2);
      !run.finished && run.flash.buffer[0] == 0
  {
    hide Aligned;
    var rx2 := Drop(Drop(OutPipe([0, 0], [])));
    assert Starved(rx2);
    var f1 := Fill(size, f, a, 0, 0);
    assert WriteWords(size, f1, rx2, a + 2, a, 1, 1) == FlashRun(f1, rx2, false);
  }

  function EraseRequest(): Request { Dnload(6, [[COMMAND_WRITE, 0x00, 0xFF, 0, 0, 0]]) }

  lemma EraseRequested(b: Board, s: Dfu)
    requires Wf(b, s) && !s.secure && !s.waitForExit && s.state == dfuDNLOAD_IDLE
    ensures var r := Step(b, s, EraseRequest());
      && r.flash.cells == EraseFrom(b.pageSize, s.flash, 0, b.bootStart).cells
      && r.state == dfuIDLE && r.status == s.status
  {
    hide FlashOk, BoardOk, EraseFrom, LoadCommand;
    var packets := EraseRequest().packets;
    assert packets[0][..6] == packets[0];
    LoadCommandCarried(s.(dataSize := 6, rx := OutPipe([], packets)), packets, packets[0]);
  }

  /** From power-on: the host goes away after one word of a download and comes back with a chip erase.  The
      word that was loaded ends up in the application section, and nothing reports it. */
  lemma EraseAfterHalfDownload(b: Board, s: Dfu, filler: seq<byte>)
    requires PowerOn(b, s) && !s.secure && 4 <= b.pageSize && 0 < b.bootStart && |filler| == DFU_FILLER_BYTES_SIZE
    ensures var r := Run(b, s, [HalfDownload(filler), EraseRequest()]);
      !AppBlank(b, r.flash.cells) && r.flash.cells[0] == 0 && r.state == dfuIDLE && r.status == OK
  {
    hide Step, FlashOk, AppBlank, HalfDownload, EraseRequest, EraseFrom, BufferEmpty;
    var s1 := Step(b, s, HalfDownload(filler));
    WordLeft(b, s, filler);
    EraseRequested(b, s1);
    RunTwo(b, s, HalfDownload(filler), EraseRequest());
    WordInSection(b, s1.flash);
  }

  lemma RunTwo(b: Board, s: Dfu, r1: Request, r2: Request)
    requires Wf(b, s)
    ensures Run(b, s, [r1, r2]) == Step(b, Step(b, s, r1), r2)
  {
    hide Step;
    assert [r1, r2][1..] == [r2] && [r2][1..] == [];
    RunNone(b, Step(b, Step(b, s, r1), r2));
    assert Run(b, Step(b, s, r1), [r2]) == Run(b, Step(b, Step(b, s, r1), r2), []);
  }

  lemma WordInSection(b: Board, f: Flash)
    requires BoardOk(b) && FlashOk(b.pageSize, f) && 0 < b.bootStart <= |f.cells| && f.buffer[0] == 0
    ensures var r := EraseFrom(b.pageSize, f, 0, b.bootStart); !AppBlank(b, r.cells) && r.cells[0] == 0
  {
    hide EraseFrom, Aligned;
    AlignedZero(b.pageSize);
    EraseFromCells(b.pageSize, f, 0, b.bootStart);
    assert EraseFrom(b.pageSize, f, 0, b.bootStart).cells[0] == AfterErase(b.pageSize, f, 0, b.bootStart, 0);
  }
}
