/** The CDC bootloader's commands beside flash blocks: EEPROM blocks and bytes, flash words, and the way out. */
module CdcCommands {
  import opened Usb
  import opened AvrFlash
  import opened FlashImage
  import opened CdcSpec
  import opened CdcTransfer

  // ---- EEPROM blocks ----------------------------------------------------------------

  function EepromHeader(command: byte, n: uint16): seq<byte> { [command, High(n), Low(n), EEPROM_MEMORY] }

  lemma SpliceStep(cells: seq<byte>, at: nat, v: byte, rest: seq<byte>)
    requires at + 1 + |rest| <= |cells|
    ensures Splice(cells[at := v], at + 1, rest) == Splice(cells, at, [v] + rest)
  {
    assert |[v] + rest| == 1 + |rest|;
  }

  lemma CellAddress(w: nat)
    requires w < 65536
    ensures EepromIndex(2 * w) == w && Advance(2 * w) == 2 * (w + 1)
  {}

  /** Byte `i` of a block goes to cell `w + i`, where the current address is twice `w`. */
  lemma {:induction false} WriteEepromHolds(eeprom: seq<byte>, rx: OutPipe, w: nat, data: seq<byte>,
                                            rest: seq<seq<byte>>)
    requires Holds(rx, data, rest) && w + |data| <= |eeprom| <= 65536
    ensures var (cells, rx', addr) := WriteEepromBlock(eeprom, rx, 2 * w, |data|);
      cells == Splice(eeprom, w, data) && addr == 2 * w + 2 * |data| && Holds(rx', [], rest)
    decreases |data|
  {
    hide Holds, Fetch, Splice, EepromIndex, Advance;
    if data == [] {
      assert Splice(eeprom, w, []) == eeprom;
    } else {
      FetchHolds(rx, data, rest);
      CellAddress(w);
      WriteEepromHolds(PokeCell(eeprom, w, data[0]), Fetch(rx).1, w + 1, data[1..], rest);
      SpliceStep(eeprom, w, data[0], data[1..]);
      assert [data[0]] + data[1..] == data;
    }
  }

  lemma {:induction false} ReadEepromReads(eeprom: seq<byte>, w: nat, n: nat)
    requires w + n <= |eeprom| <= 65536
    ensures ReadEepromBlock(eeprom, 2 * w, n) == (eeprom[w..w + n], 2 * w + 2 * n)
    decreases n
  {
    hide EepromIndex, Advance;
    if n > 0 {
      CellAddress(w);
      ReadEepromReads(eeprom, w + 1, n - 1);
      assert [eeprom[w]] + eeprom[w + 1..w + n] == eeprom[w..w + n];
    } else {
      assert eeprom[w..w] == [];
    }
  }

  /** A 'B' command on EEPROM stores its data from the selected cell on and changes no other cell. */
  lemma WriteEeprom(b: CdcBoard, s: Cdc, w: nat, data: seq<byte>, packets: seq<seq<byte>>, rest: seq<seq<byte>>)
    requires CdcWf(b, s) && s.tx.bank == [] && s.rx == OutPipe([], packets + rest) && s.addr == 2 * w
    requires |data| < 65536 && w + |data| <= |s.eeprom| <= 65536
    requires Transfer(packets, EepromHeader(WRITE_BLOCK, |data|) + data)
    ensures var s' := Task(b, s);
      && s' == s.(eeprom := Splice(s.eeprom, w, data), addr := 2 * w + 2 * |data|, rx := s'.rx, tx := s'.tx)
      && Served(b, s, s', rest, [CR])
  {
    hide Task, Holds, Fetch, FlashOk, Served, Transfer, WriteEepromBlock, CdcBoardOk, Splice;
    var bytes := EepromHeader(WRITE_BLOCK, |data|) + data;
    var s0 := TaskServes(b, s, bytes, packets, rest);
    assert bytes[1..] == [High(|data|), Low(|data|), EEPROM_MEMORY] + data;
    HeaderFetched(s0.rx, |data|, EEPROM_MEMORY, data, rest);
    WriteEepromHolds(s.eeprom, Fetch(Fetch(Fetch(s0.rx).1).1).1, w, data, rest);
    assert Dispatch(b, s0, WRITE_BLOCK) == MemoryBlock(b, s0, WRITE_BLOCK);
  }

  /** A 'g' command on EEPROM answers the cells from the selected one on. */
  lemma ReadEeprom(b: CdcBoard, s: Cdc, w: nat, n: uint16, packets: seq<seq<byte>>, rest: seq<seq<byte>>)
    requires CdcWf(b, s) && s.tx.bank == [] && s.rx == OutPipe([], packets + rest) && s.addr == 2 * w
    requires w + n <= |s.eeprom| <= 65536 && Transfer(packets, EepromHeader(READ_BLOCK, n))
    ensures var s' := Task(b, s);
      && s' == s.(addr := 2 * w + 2 * n, flash := Enable(b.pageSize, s.flash), rx := s'.rx, tx := s'.tx)
      && Served(b, s, s', rest, s.eeprom[w..w + n])
  {
    hide Task, Holds, Fetch, FlashOk, Served, Transfer, ReadEepromBlock, CdcBoardOk;
    var bytes := EepromHeader(READ_BLOCK, n);
    var s0 := TaskServes(b, s, bytes, packets, rest);
    assert bytes[1..] == [High(n), Low(n), EEPROM_MEMORY] + [];
    HeaderFetched(s0.rx, n, EEPROM_MEMORY, [], rest);
    ReadEepromReads(s.eeprom, w, n);
    assert Dispatch(b, s0, READ_BLOCK) == MemoryBlock(b, s0, READ_BLOCK);
  }

  /** Select a cell, write a block to the EEPROM, select the cell again, read the block back, the four commands
      cut into packets in any way: the data is in the cells from the selected one on, every other cell and the
      flash are as they were, and the last answer is the data. */
  lemma EepromRoundTrip(b: CdcBoard, s: Cdc, hi: byte, lo: byte, data: seq<byte>, set1: seq<seq<byte>>,
                        write: seq<seq<byte>>, set2: seq<seq<byte>>, readOut: seq<seq<byte>>)
    requires CdcWf(b, s) && s.tx.bank == [] && s.rx == OutPipe([], set1 + (write + (set2 + (readOut + []))))
    requires hi < 0x40 && Transfer(set1, [SET_ADDRESS, hi, lo]) && Transfer(set2, [SET_ADDRESS, hi, lo])
    requires |data| < 65536 && Transfer(write, EepromHeader(WRITE_BLOCK, |data|) + data)
    requires Transfer(readOut, EepromHeader(READ_BLOCK, |data|))
    requires 256 * hi + lo + |data| <= |s.eeprom| <= 65536
    ensures var s1 := Tasks(b, s, 2); var s2 := Tasks(b, s1, 2); var w := 256 * hi + lo;
      && s1.eeprom == Splice(s.eeprom, w, data) == s2.eeprom && s2.flash.cells == s.flash.cells
      && s1.addr == s2.addr == 2 * (w + |data|) && s2.rx == OutPipe([], [])
      && |Task(b, s1).tx.sent| <= |s2.tx.sent| && Received(Task(b, s1).tx, s2.tx) == data
  {
    hide Task, Transfer, Served, FlashOk, CdcBoardOk, Splice;
    var w := 256 * hi + lo;
    AddressExactIff(hi, lo);
    SetAddress(b, s, hi, lo, set1, write + (set2 + (readOut + [])));
    var t := Task(b, s);
    ServedSent(b, s, t, write + (set2 + (readOut + [])), [CR]);
    WriteEeprom(b, t, w, data, write, set2 + (readOut + []));
    var s1 := Task(b, t);
    ServedSent(b, t, s1, set2 + (readOut + []), [CR]);
    TwoTasks(b, s);
    SetAddress(b, s1, hi, lo, set2, readOut + []);
    var u := Task(b, s1);
    ServedSent(b, s1, u, readOut + [], [CR]);
    ReadEeprom(b, u, w, |data|, readOut, []);
    ServedSent(b, u, Task(b, u), [], s1.eeprom[w..w + |data|]);
    TwoTasks(b, s1);
    assert s1.eeprom[w..w + |data|] == data;
  }

  lemma TwoTasks(b: CdcBoard, s: Cdc)
    requires CdcWf(b, s)
    ensures Tasks(b, s, 2) == Task(b, Task(b, s))
  {
    hide Task;
    assert Tasks(b, Task(b, s), 1) == Tasks(b, Task(b, Task(b, s)), 0);
  }

  /** A block command for any other memory is refused and changes nothing. */
  lemma OtherMemory(b: CdcBoard, s: Cdc, command: byte, n: uint16, memory: byte, packets: seq<seq<byte>>,
                    rest: seq<seq<byte>>)
    requires CdcWf(b, s) && s.tx.bank == [] && s.rx == OutPipe([], packets + rest)
    requires (command == WRITE_BLOCK || command == READ_BLOCK) && memory != FLASH_MEMORY && memory != EEPROM_MEMORY
    requires Transfer(packets, [command, High(n), Low(n), memory])
    ensures var s' := Task(b, s); s' == s.(rx := s'.rx, tx := s'.tx) && Served(b, s, s', rest, [QUESTION])
  {
    hide Task, Holds, Fetch, FlashOk, Served, Transfer, CdcBoardOk;
    var bytes := [command, High(n), Low(n), memory];
    var s0 := TaskServes(b, s, bytes, packets, rest);
    assert bytes[1..] == [High(n), Low(n), memory] + [];
    HeaderFetched(s0.rx, n, memory, [], rest);
    assert Dispatch(b, s0, command) == MemoryBlock(b, s0, command);
  }

  // ---- Single bytes and words -----------------------------------------------------------------

  /** A command of one byte. */
  lemma CommandServed(b: CdcBoard, s: Cdc, command: byte, packets: seq<seq<byte>>,
                      rest: seq<seq<byte>>) returns (s0: Cdc)
    requires CdcWf(b, s) && s.tx.bank == [] && s.rx == OutPipe([], packets + rest) && Transfer(packets, [command])
    ensures s0 == s.(rx := s0.rx) && CdcWf(b, s0) && Holds(s0.rx, [], rest)
    ensures var (s1, answer) := Dispatch(b, s0, command);
      s1.rx == s0.rx ==>
        Task(b, s) == s1.(rx := OutPipe([], rest), tx := Task(b, s).tx) && Served(b, s, Task(b, s), rest, answer)
  {
    hide Task, Holds, Dispatch, FlashOk, Served, Transfer, CdcBoardOk;
    s0 := TaskServes(b, s, [command], packets, rest);
    assert [command][1..] == [];
  }

  /** A command with one byte behind it. */
  lemma CommandFetched(b: CdcBoard, s: Cdc, command: byte, v: byte, packets: seq<seq<byte>>,
                       rest: seq<seq<byte>>) returns (s0: Cdc)
    requires CdcWf(b, s) && s.tx.bank == [] && s.rx == OutPipe([], packets + rest) && Transfer(packets, [command, v])
    ensures s0 == s.(rx := s0.rx) && CdcWf(b, s0) && Fetch(s0.rx).0 == v
    ensures var (s1, answer) := Dispatch(b, s0, command);
      s1.rx == Fetch(s0.rx).1 ==>
        Task(b, s) == s1.(rx := OutPipe([], rest), tx := Task(b, s).tx) && Served(b, s, Task(b, s), rest, answer)
  {
    hide Task, Holds, Fetch, Dispatch, FlashOk, Served, Transfer, CdcBoardOk;
    s0 := TaskServes(b, s, [command, v], packets, rest);
    assert [command, v][1..] == [v];
    FetchHolds(s0.rx, [v], rest);
    assert [v][1..] == [];
  }

  /** 'D' stores its byte in the selected EEPROM cell and selects the next one; 'd' answers the cell and selects
      the next one. */
  lemma EepromByte(b: CdcBoard, s: Cdc, w: nat, v: byte, packets: seq<seq<byte>>, rest: seq<seq<byte>>)
    requires CdcWf(b, s) && s.tx.bank == [] && s.rx == OutPipe([], packets + rest)
    requires s.addr == 2 * w && w < |s.eeprom| <= 65536
    ensures Transfer(packets, ['D' as int, v]) ==> var s' := Task(b, s);
      && s' == s.(eeprom := s.eeprom[w := v], addr := 2 * (w + 1), rx := s'.rx, tx := s'.tx)
      && Served(b, s, s', rest, [CR])
    ensures Transfer(packets, ['d' as int]) ==> var s' := Task(b, s);
      && s' == s.(addr := 2 * (w + 1), rx := s'.rx, tx := s'.tx) && Served(b, s, s', rest, [s.eeprom[w]])
  {
    hide Task, Holds, Fetch, FlashOk, Served, Transfer, CdcBoardOk, MemoryBlock, EraseSweep, EepromIndex, Advance;
    CellAddress(w);
    if Transfer(packets, ['D' as int, v]) { var s0 := CommandFetched(b, s, 'D' as int, v, packets, rest); }
    if Transfer(packets, ['d' as int]) { var s0 := CommandServed(b, s, 'd' as int, packets, rest); }
  }

  /** 'R' answers the flash word at the current address, high byte first. */
  lemma FlashWord(b: CdcBoard, s: Cdc, packets: seq<seq<byte>>, rest: seq<seq<byte>>)
    requires CdcWf(b, s) && s.tx.bank == [] && s.rx == OutPipe([], packets + rest)
    requires s.addr + 1 < |s.flash.cells| && Transfer(packets, ['R' as int])
    ensures var s' := Task(b, s);
      && s' == s.(rx := s'.rx, tx := s'.tx)
      && Served(b, s, s', rest, [s.flash.cells[s.addr + 1], s.flash.cells[s.addr]])
  {
    hide Task, Holds, Fetch, FlashOk, Served, Transfer, CdcBoardOk, MemoryBlock, EraseSweep;
    var s0 := CommandServed(b, s, 'R' as int, packets, rest);
  }

  /** 'C' and 'c' load the two halves of a word, but each fills a whole word with its byte as the low one: the
      slot ends up with the byte of 'c' and a 0, its second load being one the hardware does not support, and
      the word is the one that was meant if and only if its high byte is 0. */
  lemma WordLoadedIff(b: CdcBoard, s: Cdc, hi: byte, lo: byte, load: seq<seq<byte>>, loadLow: seq<seq<byte>>,
                      rest: seq<seq<byte>>)
    requires CdcWf(b, s) && s.tx.bank == [] && s.rx == OutPipe([], load + (loadLow + rest)) && Even(s.addr)
    requires s.addr + 2 < 0x1_0000_0000 && 0 < b.pageSize && InPage(b.pageSize, s.addr) !in s.flash.filled
    requires Transfer(load, ['C' as int, hi]) && Transfer(loadLow, ['c' as int, lo])
    ensures InPage(b.pageSize, s.addr) + 1 < b.pageSize && |s.flash.buffer| == b.pageSize
    ensures |Tasks(b, s, 2).flash.buffer| == b.pageSize
    ensures var s' := Tasks(b, s, 2); var slot := InPage(b.pageSize, s.addr);
      && s'.addr == s.addr + 2 && s'.flash.cells == s.flash.cells && s'.eeprom == s.eeprom
      && s'.flash.buffer == s.flash.buffer[slot := lo][slot + 1 := 0]
      && s'.flash.misuse == s.flash.misuse + 1
      && (s'.flash.buffer[slot..slot + 2] == [lo, hi] <==> hi == 0)
  {
    hide Task, Holds, Fetch, Served, Transfer, Fill, Aligned, SlotOf;
    HighLoaded(b, s, hi, load, loadLow + rest);
    var s1 := Task(b, s);
    ServedSent(b, s, s1, loadLow + rest, [CR]);
    LowLoaded(b, s1, lo, loadLow, rest);
    TwoTasks(b, s);
    FilledTwice(b.pageSize, s.flash, s.addr, hi, lo);
  }

  lemma HighLoaded(b: CdcBoard, s: Cdc, v: byte, packets: seq<seq<byte>>, rest: seq<seq<byte>>)
    requires CdcWf(b, s) && s.tx.bank == [] && s.rx == OutPipe([], packets + rest)
    requires Transfer(packets, ['C' as int, v])
    ensures var s' := Task(b, s);
      s' == s.(flash := Fill(b.pageSize, s.flash, s.addr, v, 0), rx := s'.rx, tx := s'.tx)
      && Served(b, s, s', rest, [CR])
  {
    hide Task, Holds, Fetch, FlashOk, Served, Transfer, CdcBoardOk, MemoryBlock, EraseSweep, Fill;
    var s0 := CommandFetched(b, s, 'C' as int, v, packets, rest);
  }

  lemma LowLoaded(b: CdcBoard, s: Cdc, v: byte, packets: seq<seq<byte>>, rest: seq<seq<byte>>)
    requires CdcWf(b, s) && s.tx.bank == [] && s.rx == OutPipe([], packets + rest)
    requires Transfer(packets, ['c' as int, v]) && Even(s.addr) && s.addr + 2 < 0x1_0000_0000
    ensures var s' := Task(b, s);
      s' == s.(flash := Fill(b.pageSize, s.flash, s.addr + 1, v, 0), addr := s.addr + 2, rx := s'.rx, tx := s'.tx)
      && Served(b, s, s', rest, [CR])
  {
    hide Task, Holds, Fetch, FlashOk, Served, Transfer, CdcBoardOk, MemoryBlock, EraseSweep, Fill;
    var s0 := CommandFetched(b, s, 'c' as int, v, packets, rest);
  }

  lemma FilledTwice(size: nat, f: Flash, addr: nat, hi: byte, lo: byte)
    requires FlashOk(size, f) && Even(addr) && InPage(size, addr) !in f.filled
    ensures InPage(size, addr) + 1 < size
    ensures var f' := Fill(size, Fill(size, f, addr, hi, 0), addr + 1, lo, 0); var slot := InPage(size, addr);
      && f'.cells == f.cells && f'.buffer == f.buffer[slot := lo][slot + 1 := 0] && f'.misuse == f.misuse + 1
      && (f'.buffer[slot..slot + 2] == [lo, hi] <==> hi == 0)
  {
    hide Aligned;
    var slot := InPage(size, addr);
    SlotOfBoth(size, addr);
    var f' := Fill(size, Fill(size, f, addr, hi, 0), addr + 1, lo, 0);
    var word := f'.buffer[slot..slot + 2];
    assert word == [lo, 0] && [lo, 0][1] == 0 && [lo, hi][1] == hi;
    assert f'.buffer == f.buffer[slot := lo][slot + 1 := 0];
  }

  lemma SlotOfBoth(size: nat, addr: nat)
    requires 0 < size && size % 2 == 0 && Even(addr)
    ensures SlotOf(size, addr) == SlotOf(size, addr + 1) == InPage(size, addr) && InPage(size, addr) + 1 < size
  {
    EvenInPage(size, addr);
    OddSlot(size, addr + 1);
  }

  /** 'm' programs the page of the current address, which can only clear bits, with what has been loaded, leaves
      all other cells and the address alone and empties the buffer. */
  lemma PageCommitted(b: CdcBoard, s: Cdc, packets: seq<seq<byte>>, rest: seq<seq<byte>>, k: nat)
    requires CdcWf(b, s) && s.tx.bank == [] && s.rx == OutPipe([], packets + rest)
    requires Transfer(packets, ['m' as int]) && 0 < b.pageSize && k < |s.flash.cells|
    ensures |s.flash.buffer| == b.pageSize && |Task(b, s).flash.cells| == |s.flash.cells|
    ensures var s', p := Task(b, s), PageOf(b.pageSize, s.addr);
      && s' == s.(flash := s'.flash, rx := s'.rx, tx := s'.tx) && Served(b, s, s', rest, [CR])
      && BufferEmpty(b.pageSize, s'.flash)
      && s'.flash.cells[k] == if p <= k < p + b.pageSize then And(s.flash.cells[k], s.flash.buffer[k - p])
                              else s.flash.cells[k]
  {
    hide Task, Holds, Fetch, Served, Transfer, MemoryBlock, EraseSweep, PageOf, Splice, And, Aligned;
    var s0 := CommandServed(b, s, 'm' as int, packets, rest);
    WholePage(b.pageSize, s.addr, k, |s.flash.cells|);
  }

  /** The page of a cell inside the array is inside the array. */
  lemma WholePage(size: nat, addr: nat, k: nat, n: nat)
    requires 0 < size && Aligned(size, n) && k < n
    ensures var p := PageOf(size, addr); p <= k < p + size ==> p + size <= n
  {
    hide Aligned, PageOf;
    PageStart(size, addr);
    if PageOf(size, addr) <= k { NextPageFits(size, PageOf(size, addr), n); }
  }

  lemma PageStart(size: nat, addr: nat)
    requires 0 < size
    ensures Aligned(size, PageOf(size, addr))
  {
    DivMod(addr / size, size, 0);
  }

  // ---- Commands without an effect -----------------------------------------------------------------

  /** The device type and the lock bits are taken, confirmed and ignored. */
  lemma ArgumentIgnored(b: CdcBoard, s: Cdc, command: byte, v: byte, packets: seq<seq<byte>>, rest: seq<seq<byte>>)
    requires CdcWf(b, s) && s.tx.bank == [] && s.rx == OutPipe([], packets + rest)
    requires (command == 'T' as int || command == 'l' as int) && Transfer(packets, [command, v])
    ensures var s' := Task(b, s); s' == s.(rx := s'.rx, tx := s'.tx) && Served(b, s, s', rest, [CR])
  {
    hide Task, Holds, Fetch, FlashOk, Served, Transfer, CdcBoardOk, MemoryBlock, EraseSweep;
    var s0 := CommandFetched(b, s, command, v, packets, rest);
  }

  /** What the host learns of the chip and the bootloader, in bytes: the signature last byte first, the size of a
      block most significant byte first behind a 'Y', the device code 0x44 0x00, "Y" for automatic addresses, "S"
      for a serial programmer, the name LUFACDC, version 10, the lock and fuse bytes, and a carriage return for the
      commands that enter and leave programming mode. */
  function Identity(b: CdcBoard, command: byte): seq<byte>
    requires |b.signature| == 3 && b.pageSize < 65536
  {
    if command == 's' as int then [b.signature[2], b.signature[1], b.signature[0]]
    else if command == 'b' as int then [89, High(b.pageSize), Low(b.pageSize)]
    else if command == 't' as int then [0x44, 0x00]
    else if command == 'a' as int then [89]
    else if command == 'p' as int then [83]
    else if command == 'S' as int then [76, 85, 70, 65, 67, 68, 67]
    else if command == 'V' as int then [49, 48]
    else if command == 'r' as int then [b.lockBits]
    else if command == 'F' as int then [b.lowFuse]
    else if command == 'N' as int then [b.highFuse]
    else if command == 'Q' as int then [b.extendedFuse]
    else [13]
  }

  lemma Identified(b: CdcBoard, s: Cdc, command: byte, packets: seq<seq<byte>>, rest: seq<seq<byte>>)
    requires CdcWf(b, s) && s.tx.bank == [] && s.rx == OutPipe([], packets + rest) && Transfer(packets, [command])
    requires command in COMMANDS[..13] && b.pageSize < 65536
    ensures |b.signature| == 3
    ensures var s' := Task(b, s); s' == s.(rx := s'.rx, tx := s'.tx) && Served(b, s, s', rest, Identity(b, command))
  {
    hide Task, Holds, Fetch, FlashOk, Served, Transfer, MemoryBlock, EraseSweep;
    var s0 := CommandServed(b, s, command, packets, rest);
  }

  /** The commands that have an effect or an answer of their own. */
  const COMMANDS: seq<byte> := ['s' as int, 'b' as int, 't' as int, 'a' as int, 'p' as int, 'S' as int, 'V' as int,
    'r' as int, 'F' as int, 'N' as int, 'Q' as int, 'L' as int, 'P' as int, 'T' as int, 'E' as int, 'A' as int,
    'e' as int, 'l' as int, 'C' as int, 'c' as int, 'm' as int, 'B' as int, 'g' as int, 'R' as int, 'D' as int,
    'd' as int, 27]

  /** Any other command is answered with a question mark and has no effect. */
  lemma UnknownRefused(b: CdcBoard, s: Cdc, command: byte, packets: seq<seq<byte>>, rest: seq<seq<byte>>)
    requires CdcWf(b, s) && s.tx.bank == [] && s.rx == OutPipe([], packets + rest) && Transfer(packets, [command])
    requires command !in COMMANDS
    ensures var s' := Task(b, s); s' == s.(rx := s'.rx, tx := s'.tx) && Served(b, s, s', rest, [QUESTION])
  {
    hide Task, Holds, Fetch, FlashOk, Served, Transfer, CdcBoardOk, MemoryBlock, EraseSweep;
    var s0 := CommandServed(b, s, command, packets, rest);
    assert forall i :: 0 <= i < |COMMANDS| ==> COMMANDS[i] in COMMANDS;
    assert command != COMMANDS[0] && command != COMMANDS[1];
  }

  // ---- The way out ------------------------------------------------------------------------------

  /** One task ends the main loop if and only if its command is 'E'. */
  lemma ExitIff(b: CdcBoard, s: Cdc)
    requires CdcWf(b, s) && s.running && s.rx.pending != []
    ensures !Task(b, s).running <==> Fetch(NextPacket(s.rx)).0 == 'E' as int
  {
    hide Fetch, FlashOk, CdcBoardOk, PutAll, EraseSweep, MemoryBlock, Fill, Write;
    var (command, rx) := Fetch(NextPacket(s.rx));
    BlockKeepsRunning(b, s.(rx := rx), command);
  }

  lemma BlockKeepsRunning(b: CdcBoard, s: Cdc, command: byte)
    requires CdcWf(b, s)
    ensures MemoryBlock(b, s, command).0.running == s.running
  {
    hide Fetch, FlashOk, CdcBoardOk, LoadBlock, ReadFlashBlock, ReadEepromBlock, WriteEepromBlock, Erase, Write;
  }
}
