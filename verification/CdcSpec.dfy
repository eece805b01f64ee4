/** The CDC (AVR910 protocol) bootloader as functions on its whole state. */
module CdcSpec {
  import opened Usb
  import opened AvrFlash

  /** Build constants, and the fuse and lock values the chip reports. */
  datatype CdcBoard = CdcBoard(pageSize: nat, bootStart: nat, endpointSize: nat, signature: seq<byte>,
                               lockBits: byte, lowFuse: byte, highFuse: byte, extendedFuse: byte)

  ghost predicate CdcBoardOk(b: CdcBoard) {
    && 0 < b.pageSize && b.pageSize % 2 == 0 && Aligned(b.pageSize, b.bootStart)
    && 0 < b.endpointSize && |b.signature| == 3
  }

  datatype Cdc = Cdc(addr: uint32, running: bool, flash: Flash, eeprom: seq<byte>, rx: OutPipe, tx: InPipe)

  ghost predicate CdcWf(b: CdcBoard, s: Cdc) {
    CdcBoardOk(b) && FlashOk(b.pageSize, s.flash) && b.bootStart <= |s.flash.cells|
  }

  const CR: byte := 13
  const QUESTION: byte := '?' as int
  const FLASH_MEMORY: byte := 'F' as int
  const EEPROM_MEMORY: byte := 'E' as int
  const READ_BLOCK: byte := 'g' as int
  const WRITE_BLOCK: byte := 'B' as int
  const SET_ADDRESS: byte := 'A' as int
  const CHIP_ERASE: byte := 'e' as int
  const ESCAPE: byte := 27
  const SOFTWARE_IDENTIFIER: seq<byte> :=
    ['L' as int, 'U' as int, 'F' as int, 'A' as int, 'C' as int, 'D' as int, 'C' as int]

  // ---- Bytes in and out ---------------------------------------------------------

  /** FetchNextCommandByte: skip exhausted packets; a host that has gone reads as 0. */
  function Fetch(p: OutPipe): (byte, OutPipe)
    decreases |p.pending|
  {
    if p.bank != [] then (p.bank[0], Drop(p))
    else if p.pending == [] then (0, p)
    else Fetch(NextPacket(p))
  }

  /** WriteNextResponseByte, for a list of bytes. */
  function PutAll(size: nat, t: InPipe, bytes: seq<byte>): InPipe
    decreases |bytes|
  {
    if bytes == [] then t
    else
      var t1 := Room(size, t);
      PutAll(size, t1.(bank := t1.bank + [bytes[0]]), bytes[1..])
  }

  lemma PutNothing(size: nat, t: InPipe)
    ensures PutAll(size, t, []) == t
  {}

  lemma {:induction false} PutAllAppend(size: nat, t: InPipe, bytes: seq<byte>, more: seq<byte>)
    ensures PutAll(size, t, bytes + more) == PutAll(size, PutAll(size, t, bytes), more)
    decreases |bytes|
  {
    if bytes == [] {
      assert bytes + more == more;
    } else {
      var t1 := Room(size, t);
      assert (bytes + more)[1..] == bytes[1..] + more;
      PutAllAppend(size, t1.(bank := t1.bank + [bytes[0]]), bytes[1..], more);
    }
  }

  // ---- Addresses ------------------------------------------------------------------

  /** `hi << 9` is computed in a 16-bit int and then sign-extended. */
  function AddressFrom(hi: byte, lo: byte): uint32 {
    var shifted := (hi * 512) % 65536;
    (if shifted < 0x8000 then shifted else shifted + 0xFFFF_0000) + 2 * lo
  }

  function Advance(addr: uint32): uint32 { (addr + 2) % 0x1_0000_0000 }

  /** CurrAddress | HighByte */
  function WithHigh(addr: uint32, high: bool): uint32 { if high && addr % 2 == 0 then addr + 1 else addr }

  /** (uint16_t)(CurrAddress >> 1) */
  function EepromIndex(addr: uint32): uint16 { (addr / 2) % 65536 }

  // ---- Blocks -----------------------------------------------------------------------

  function ReadFlashBlock(cells: seq<byte>, addr: uint32, high: bool, n: nat): (seq<byte>, uint32)
    decreases n
  {
    if n == 0 then ([], addr)
    else
      var v := ReadCell(cells, WithHigh(addr, high));
      var (rest, addr') := ReadFlashBlock(cells, if high then Advance(addr) else addr, !high, n - 1);
      ([v] + rest, addr')
  }

  function ReadEepromBlock(eeprom: seq<byte>, addr: uint32, n: nat): (seq<byte>, uint32)
    decreases n
  {
    if n == 0 then ([], addr)
    else
      var (rest, addr') := ReadEepromBlock(eeprom, Advance(addr), n - 1);
      ([ReadCell(eeprom, EepromIndex(addr))] + rest, addr')
  }

  datatype BlockRun = BlockRun(flash: Flash, rx: OutPipe, addr: uint32)

  /** Two bytes make a word; the word is loaded when its high byte arrives. */
  function LoadBlock(size: nat, f: Flash, rx: OutPipe, addr: uint32, high: bool, low: byte, n: nat): (r: BlockRun)
    requires FlashOk(size, f)
    ensures FlashOk(size, r.flash) && |r.flash.cells| == |f.cells|
    decreases n
  {
    if n == 0 then BlockRun(f, rx, addr)
    else
      var (v, rx') := Fetch(rx);
      if high then LoadBlock(size, Fill(size, f, addr, low, v), rx', Advance(addr), false, low, n - 1)
      else LoadBlock(size, f, rx', addr, true, v, n - 1)
  }

  function WriteEepromBlock(eeprom: seq<byte>, rx: OutPipe, addr: uint32, n: nat): (seq<byte>, OutPipe, uint32)
    decreases n
  {
    if n == 0 then (eeprom, rx, addr)
    else
      var (v, rx') := Fetch(rx);
      WriteEepromBlock(PokeCell(eeprom, EepromIndex(addr), v), rx', Advance(addr), n - 1)
  }

  /** ReadWriteMemoryBlock: the new state and the bytes answered. */
  function MemoryBlock(b: CdcBoard, s: Cdc, command: byte): (r: (Cdc, seq<byte>))
    requires CdcWf(b, s)
    ensures CdcWf(b, r.0) && r.0.tx == s.tx
  {
    var (hi, rx1) := Fetch(s.rx);
    var (lo, rx2) := Fetch(rx1);
    var (memory, rx3) := Fetch(rx2);
    var n := Word(lo, hi);
    var s1 := s.(rx := rx3);
    if memory != EEPROM_MEMORY && memory != FLASH_MEMORY then (s1, [QUESTION])
    else if command == READ_BLOCK then
      var s2 := s1.(flash := Enable(b.pageSize, s.flash));
      if memory == FLASH_MEMORY then
        var (bytes, addr) := ReadFlashBlock(s.flash.cells, s.addr, false, n);
        (s2.(addr := addr), bytes)
      else
        var (bytes, addr) := ReadEepromBlock(s.eeprom, s.addr, n);
        (s2.(addr := addr), bytes)
    else if memory == FLASH_MEMORY then
      var run := LoadBlock(b.pageSize, Erase(b.pageSize, s.flash, s.addr), rx3, s.addr, false, 0, n);
      (s1.(flash := Write(b.pageSize, run.flash, s.addr), rx := run.rx, addr := run.addr), [CR])
    else
      var (eeprom, rx4, addr) := WriteEepromBlock(s.eeprom, rx3, s.addr, n);
      (s1.(eeprom := eeprom, rx := rx4, addr := addr), [CR])
  }

  /** The chip erase loop: its own increment comes on top of SPM_PAGESIZE. */
  function EraseSweep(size: nat, f: Flash, addr: nat, limit: nat): (r: Flash)
    requires FlashOk(size, f)
    ensures FlashOk(size, r) && |r.cells| == |f.cells|
    decreases limit - addr
  {
    if addr >= limit then f
    else EraseSweep(size, Write(size, Erase(size, f, addr), addr), addr + size + 1, limit)
  }

  // ---- Commands -----------------------------------------------------------------------

  /** Everything but the command byte, which has been read. */
  function Dispatch(b: CdcBoard, s: Cdc, command: byte): (r: (Cdc, seq<byte>))
    requires CdcWf(b, s)
    ensures CdcWf(b, r.0) && r.0.tx == s.tx
  {
    if command == 'L' as int || command == 'P' as int then (s, [CR])
    else if command == 'T' as int then (s.(rx := Fetch(s.rx).1), [CR])
    else if command == 'E' as int then (s.(running := false), [CR])
    else if command == 't' as int then (s, [0x44, 0x00])
    else if command == 'a' as int then (s, ['Y' as int])
    else if command == SET_ADDRESS then
      var (hi, rx1) := Fetch(s.rx);
      var (lo, rx2) := Fetch(rx1);
      (s.(addr := AddressFrom(hi, lo), rx := rx2), [CR])
    else if command == 'p' as int then (s, ['S' as int])
    else if command == 'S' as int then (s, SOFTWARE_IDENTIFIER)
    else if command == 'V' as int then (s, ['1' as int, '0' as int])
    else if command == 's' as int then (s, [b.signature[2], b.signature[1], b.signature[0]])
    else if command == 'b' as int then (s, ['Y' as int, (b.pageSize / 256) % 256, b.pageSize % 256])
    else if command == CHIP_ERASE then (s.(flash := EraseSweep(b.pageSize, s.flash, 0, b.bootStart)), [CR])
    else if command == 'l' as int then (s.(rx := Fetch(s.rx).1), [CR])
    else if command == 'r' as int then (s, [b.lockBits])
    else if command == 'F' as int then (s, [b.lowFuse])
    else if command == 'N' as int then (s, [b.highFuse])
    else if command == 'Q' as int then (s, [b.extendedFuse])
    else if command == 'C' as int then
      var (v, rx1) := Fetch(s.rx);
      (s.(flash := Fill(b.pageSize, s.flash, s.addr, v, 0), rx := rx1), [CR])
    else if command == 'c' as int then
      var (v, rx1) := Fetch(s.rx);
      (s.(flash := Fill(b.pageSize, s.flash, WithHigh(s.addr, true), v, 0), rx := rx1, addr := Advance(s.addr)), [CR])
    else if command == 'm' as int then (s.(flash := Write(b.pageSize, s.flash, s.addr)), [CR])
    else if command == WRITE_BLOCK || command == READ_BLOCK then MemoryBlock(b, s, command)
    else if command == 'R' as int then (s, [ReadCell(s.flash.cells, s.addr + 1), ReadCell(s.flash.cells, s.addr)])
    else if command == 'D' as int then
      var (v, rx1) := Fetch(s.rx);
      (s.(eeprom := PokeCell(s.eeprom, EepromIndex(s.addr), v), rx := rx1, addr := Advance(s.addr)), [CR])
    else if command == 'd' as int then (s.(addr := Advance(s.addr)), [ReadCell(s.eeprom, EepromIndex(s.addr))])
    else if command == ESCAPE then (s, [])
    else (s, [QUESTION])
  }

  /** CDC_Task: run one command if a packet has arrived, answer it, drop the rest of its packet. */
  function Task(b: CdcBoard, s: Cdc): (r: Cdc)
    requires CdcWf(b, s)
    ensures CdcWf(b, r)
  {
    if s.rx.pending == [] then s
    else
      var (command, rx) := Fetch(NextPacket(s.rx));
      var (s1, answer) := Dispatch(b, s.(rx := rx), command);
      s1.(rx := s1.rx.(bank := []), tx := SendEnd(b.endpointSize, PutAll(b.endpointSize, s.tx, answer)))
  }

  function Tasks(b: CdcBoard, s: Cdc, n: nat): (r: Cdc)
    requires CdcWf(b, s)
    ensures CdcWf(b, r)
    decreases n
  {
    if n == 0 then s else Tasks(b, Task(b, s), n - 1)
  }
}
