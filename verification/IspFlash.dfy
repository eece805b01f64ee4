/** A page written through the programmer, and the same bytes read back. */
module IspFlash {
  import opened Usb
  import opened AvrFlash
  import opened SpiTarget
  import opened IspSpec

  /** A chip on a frame boundary, whose pages divide each bank of 65536 words. */
  ghost predicate ChipOk(size: nat, t: Target) {
    && TargetOk(size, t) && t.frame == []
    && Even(size) && size < 131072 && Aligned(size, 131072) && Aligned(size, |t.cells|)
  }

  /** `u` differs from `t` only in what has passed over the wire. */
  ghost predicate Same(t: Target, u: Target) { u == t.(wire := u.wire, others := u.others) }

  // ---- The instructions ---------------------------------------------------------------------

  lemma LoadFrame(size: nat, t: Target, high: bool, hi: byte, lo: byte, v: byte)
    requires TargetOk(size, t) && t.frame == []
    ensures Same(t.(buffer := t.buffer[(2 * Word(lo, hi) + if high then 1 else 0) % size := v]),
                 Frame(size, t, if high then LOAD_HIGH else LOAD_LOW, hi, lo, v).1)
  {
    hide Frame, ReadCell, Splice, AndPage, PageOf, Blank;
    FrameExecutes(size, t, if high then LOAD_HIGH else LOAD_LOW, hi, lo, v);
  }

  /** The cells after a page write; a page outside the chip is not written. */
  function Committed(size: nat, cells: seq<byte>, p: nat, buffer: seq<byte>): (r: seq<byte>)
    requires |buffer| == size
    ensures |r| == |cells|
    ensures forall i :: 0 <= i < |cells| && !(p <= i < p + size) ==> r[i] == cells[i]
  {
    if p + size <= |cells| then Splice(cells, p, AndPage(cells[p..p + size], buffer)) else cells
  }

  /** The effect of the commit instruction alone. */
  lemma CommitExecutes(size: nat, t: Target, hi: byte, lo: byte)
    requires TargetOk(size, t)
    ensures var p := PageOf(size, 131072 * t.extended + 2 * Word(lo, hi));
      Execute(size, t, [WRITE_PAGE, hi, lo, 0x00])
        == t.(cells := Committed(size, t.cells, p, t.buffer), buffer := Blank(size))
  {
    hide ReadCell, Splice, AndPage, PageOf, Blank;
    CommitAddress(t, hi, lo);
  }

  lemma CommitAddress(t: Target, hi: byte, lo: byte)
    ensures FrameByte(t, [WRITE_PAGE, hi, lo, 0x00], false) == 131072 * t.extended + 2 * Word(lo, hi)
  {
    hide Word;
  }

  lemma CommitFrame(size: nat, t: Target, hi: byte, lo: byte)
    requires TargetOk(size, t) && t.frame == []
    ensures var p := PageOf(size, 131072 * t.extended + 2 * Word(lo, hi));
      Same(t.(cells := Committed(size, t.cells, p, t.buffer), buffer := Blank(size)),
           Frame(size, t, WRITE_PAGE, hi, lo, 0x00).1)
  {
    hide Frame, Execute, FrameByte, ReadCell, Committed, PageOf, Blank, Word;
    FrameExecutes(size, t, WRITE_PAGE, hi, lo, 0x00);
    CommitExecutes(size, t, hi, lo);
  }

  lemma ExtendFrame(size: nat, t: Target, v: byte)
    requires TargetOk(size, t) && t.frame == []
    ensures Same(t.(extended := v), Frame(size, t, LOAD_EXTENDED, 0x00, v, 0x00).1)
  {
    hide Frame, ReadCell, Splice, AndPage, PageOf, Blank;
    FrameExecutes(size, t, LOAD_EXTENDED, 0x00, v, 0x00);
  }

  predicate Quiet(a: byte) {
    a != LOAD_LOW && a != LOAD_HIGH && a != WRITE_PAGE && a != LOAD_EXTENDED && a != WRITE_EEPROM
  }

  lemma QuietFrame(size: nat, t: Target, a: byte, b: byte, c: byte, d: byte)
    requires TargetOk(size, t) && t.frame == [] && Quiet(a)
    ensures Same(t, Frame(size, t, a, b, c, d).1)
  {
    hide Frame, ReadCell, Splice, AndPage, PageOf, Blank;
    FrameExecutes(size, t, a, b, c, d);
  }

  lemma ReadFrame(size: nat, t: Target, high: bool, hi: byte, lo: byte)
    requires TargetOk(size, t) && t.frame == []
    ensures var (answer, u) := Frame(size, t, if high then READ_HIGH else READ_LOW, hi, lo, 0x00);
      && Same(t, u)
      && answer == ReadCell(t.cells, 131072 * t.extended + 2 * Word(lo, hi) + if high then 1 else 0)
  {
    hide Frame, ReadCell, Splice, AndPage, PageOf, Blank;
    var a := if high then READ_HIGH else READ_LOW;
    FrameExecutes(size, t, a, hi, lo, 0x00);
    assert FrameByte(t, [a, hi, lo, 0x00], high) == 131072 * t.extended + 2 * Word(lo, hi) + if high then 1 else 0;
  }

  // ---- Addresses --------------------------------------------------------------------------------

  /** The address counter at byte `i` of a transfer that started at `a`. */
  function Counter(a: uint32, i: nat): uint32 { (a + i / 2) % 0x1_0000_0000 }

  /** Low address bits of the byte that `a` selects, within its bank of 65536 words. */
  function InBank(a: uint32): nat { 2 * (a % 65536) }

  lemma CounterNext(a: uint32, i: nat)
    ensures Counter(a, i + 1) == if i % 2 == 1 then Increment(Counter(a, i)) else Counter(a, i)
  {}

  lemma SentWord(a: uint32)
    ensures Word(AddressLow(a), AddressHigh(a)) == a % 65536
  {
    var q, l := a / 256, a % 256;
    var k, h := q / 256, q % 256;
    assert a == k * 65536 + (256 * h + l);
    DivMod(k, 65536, 256 * h + l);
  }

  lemma CounterWord(a: uint32, i: nat)
    ensures Counter(a, i) % 65536 == (a % 65536 + i / 2) % 65536
  {
    var b := a + i / 2;
    assert b == 0x1_0000_0000 * (b / 0x1_0000_0000) + Counter(a, i);
  }

  /** Byte `i` of a transfer: parity chooses the half of word `a + i / 2`, inside the bank. */
  lemma ByteAddress(a: uint32, i: nat)
    ensures 2 * (Counter(a, i) % 65536) + i % 2 == (InBank(a) + i) % 131072
  {
    var w := a % 65536 + i / 2;
    CounterWord(a, i);
    var k, m, o := w / 65536, w % 65536, i % 2;
    assert InBank(a) + i == 131072 * k + (2 * m + o);
  }

  lemma ModShift(size: nat, x: nat, m: nat)
    requires 0 < size && Aligned(size, m)
    ensures (x + m) % size == x % size
  {
    DivMod(x / size + m / size, size, x % size);
    assert x + m == (x / size + m / size) * size + x % size;
  }

  lemma AlignedTimes(size: nat, k: nat, m: nat)
    requires 0 < size && Aligned(size, m)
    ensures Aligned(size, k * m)
  {
    DivMod(k * (m / size), size, 0);
    assert k * m == k * (m / size) * size;
  }

  /** The buffer slot that byte `i` goes to. */
  lemma ByteSlot(size: nat, a: uint32, i: nat)
    requires 0 < size && Aligned(size, 131072)
    ensures (2 * (Counter(a, i) % 65536) + i % 2) % size == (InBank(a) + i) % size
  {
    hide Aligned;
    ByteAddress(a, i);
    var k := (InBank(a) + i) / 131072;
    AlignedTimes(size, k, 131072);
    ModShift(size, (InBank(a) + i) % 131072, k * 131072);
  }

  // ---- Loading the buffer ---------------------------------------------------------------------------

  /** `data` from byte `i` on, poured into the buffer from slot `x` on, round and round. */
  function Poured(size: nat, buffer: seq<byte>, x: nat, data: seq<byte>, i: nat): (b: seq<byte>)
    requires 0 < size == |buffer| && i <= |data|
    ensures |b| == size
    decreases |data| - i
  {
    if i == |data| then buffer else Poured(size, buffer[(x + i) % size := data[i]], x, data, i + 1)
  }

  lemma ByteLoads(size: nat, t: Target, a: uint32, i: nat, v: byte)
    requires TargetOk(size, t) && t.frame == [] && Aligned(size, 131072)
    ensures var load := if i % 2 == 1 then LOAD_HIGH else LOAD_LOW;
      Same(t.(buffer := t.buffer[(InBank(a) + i) % size := v]),
           Frame(size, t, load, AddressHigh(Counter(a, i)), AddressLow(Counter(a, i)), v).1)
  {
    hide Aligned, Frame, Counter, InBank, AddressHigh, AddressLow;
    LoadFrame(size, t, i % 2 == 1, AddressHigh(Counter(a, i)), AddressLow(Counter(a, i)), v);
    SentWord(Counter(a, i));
    ByteSlot(size, a, i);
  }

  lemma {:induction false} LoadPagePours(size: nat, s: Isp, p: Polling, pollValue: byte, a: uint32, data: seq<byte>,
                                         i: nat)
    requires TargetOk(size, s.target) && s.target.frame == [] && Aligned(size, 131072)
    requires i <= |data| && s.address == Counter(a, i) && p.load in {LOAD_LOW, LOAD_HIGH}
             && p.read in {READ_LOW, READ_HIGH}
    ensures var (s1, p1) := LoadPage(size, s, p, true, pollValue, data, i);
      && Same(s.target.(buffer := Poured(size, s.target.buffer, InBank(a), data, i)), s1.target)
      && p1.read in {READ_LOW, READ_HIGH}
    decreases |data| - i
  {
    hide Aligned, Frame, Counter, InBank, AddressHigh, AddressLow, Increment;
    if i < |data| {
      var odd := i % 2 == 1;
      var load := HighByte(p.load, odd);
      assert load == if odd then LOAD_HIGH else LOAD_LOW;
      var t := Frame(size, s.target, load, AddressHigh(s.address), AddressLow(s.address), data[i]).1;
      ByteLoads(size, s.target, a, i, data[i]);
      var p1 := if p.pollAddress == 0 && data[i] != pollValue
                then Polling(load, s.address % 65536, if odd then SetBit(p.read, 8) else p.read)
                else p.(load := load);
      var s1 := s.(target := t, address := if odd then Increment(s.address) else s.address);
      CounterNext(a, i);
      LoadPagePours(size, s1, p1, pollValue, a, data, i + 1);
    }
  }

  /** Data that fits behind offset `r` of the page lies there in order. */
  lemma {:induction false} PouredFits(size: nat, buffer: seq<byte>, x: nat, data: seq<byte>, i: nat)
    requires 0 < size == |buffer| && i <= |data| && x % size + |data| <= size
    ensures Poured(size, buffer, x, data, i) == Splice(buffer, x % size + i, data[i..])
    decreases |data| - i
  {
    var r := x % size;
    if i < |data| {
      var b := buffer[r + i := data[i]];
      assert (x + i) % size == r + i by {
        DivMod(x / size, size, r + i);
        assert x + i == (x / size) * size + (r + i);
      }
      PouredFits(size, b, x, data, i + 1);
      assert Splice(b, r + (i + 1), data[i + 1..]) == Splice(buffer, r + i, data[i..]);
    }
  }

  // ---- Waiting -----------------------------------------------------------------------------------

  lemma {:induction false} PollQuiet(size: nat, s: Isp, frame: seq<byte>, awaited: Awaited)
    requires TargetOk(size, s.target) && s.target.frame == [] && |frame| == 4 && Quiet(frame[0])
    ensures Same(s.target, PollUntil(size, s, frame, awaited).target)
    decreases |s.ticks|
  {
    hide Frame, Accepts, Quiet;
    var (answer, t) := Frame(size, s.target, frame[0], frame[1], frame[2], frame[3]);
    QuietFrame(size, s.target, frame[0], frame[1], frame[2], frame[3]);
    if !Accepts(awaited, answer) && Tick(s.ticks) < TARGET_BUSY_TIMEOUT_MS && s.ticks != [] {
      PollQuiet(size, s.(target := t, ticks := TickDone(s.ticks)), frame, awaited);
    }
  }

  /** Waiting for completion only reads, in every completion mode. */
  lemma WaitQuiet(size: nat, s: Isp, mode: byte, pollAddress: uint16, pollValue: byte, readCommand: byte)
    requires TargetOk(size, s.target) && s.target.frame == [] && Quiet(readCommand)
    ensures Same(s.target, WaitForProgComplete(size, s, mode, pollAddress, pollValue, readCommand).0.target)
  {
    hide PollUntil, CompletionMode;
    PollQuiet(size, s, [readCommand, High(pollAddress), Low(pollAddress), 0x00], Value(pollValue));
    PollQuiet(size, s, [0xF0, 0x00, 0x00, 0x00], Idle);
  }

  // ---- Writing a page ---------------------------------------------------------------------------------

  /** A paged write that is committed, with the chip's own instructions. */
  ghost predicate PagedWrite(p: ProgramParams) {
    && ParamsOk(p) && p.bytesToWrite <= 256
    && Bit(p.mode, 1) && Bit(p.mode, 128)
    && p.commands[0] in {LOAD_LOW, LOAD_HIGH} && p.commands[1] == WRITE_PAGE && p.commands[2] in {READ_LOW, READ_HIGH}
  }

  /** The byte address of the word at `a`, in the bank that the target has been given. */
  function Selected(t: Target, a: uint32): nat { 131072 * t.extended + InBank(a) }

  lemma PageProgrammed(size: nat, s: Isp, p: ProgramParams)
    requires ChipOk(size, s.target) && PagedWrite(p)
    ensures var t := s.target;
      var page := PageOf(size, Selected(t, s.address));
      var poured := Poured(size, t.buffer, InBank(s.address), p.data, 0);
      Same(t.(cells := Committed(size, t.cells, page, poured), buffer := Blank(size)),
           ProgramMemory(size, s, CMD_PROGRAM_FLASH_ISP, p).0.target)
  {
    hide Aligned, Frame, InBank, AddressHigh, AddressLow, SetBit, ClearBit, Bit, LoadPage, WaitForProgComplete,
         Poured, PageOf, Committed, Blank, WriteWordwise;
    var start := Polling(p.commands[0], 0, p.commands[2]);
    var pollValue := p.pollValue1;
    var (s1, poll) := LoadPage(size, s, start, true, pollValue, p.data, 0);
    LoadPagePours(size, s, start, pollValue, s.address, p.data, 0);
    SentWord(s.address);
    CommitAt(size, s1.target, s.address);
    var t := Frame(size, s1.target, p.commands[1], AddressHigh(s.address), AddressLow(s.address), 0x00).1;
    var mode := if poll.pollAddress == 0 then SetBit(ClearBit(p.mode, 32), 16) else p.mode;
    WaitQuiet(size, s1.(target := t), mode, poll.pollAddress, pollValue, poll.read);
  }

  lemma CommitAt(size: nat, t: Target, a: uint32)
    requires TargetOk(size, t) && t.frame == []
    ensures var p := PageOf(size, Selected(t, a));
      Same(t.(cells := Committed(size, t.cells, p, t.buffer), buffer := Blank(size)),
           Frame(size, t, WRITE_PAGE, AddressHigh(a), AddressLow(a), 0x00).1)
  {
    hide Frame, Committed, Blank, PageOf, AddressHigh, AddressLow;
    SentWord(a);
    CommitFrame(size, t, AddressHigh(a), AddressLow(a));
  }

  // ---- Reading back -------------------------------------------------------------------------------------

  /** Byte `i` of a read that starts at the word `a`; a read stays in its bank. */
  function ByteBack(t: Target, a: uint32, i: nat): byte {
    ReadCell(t.cells, 131072 * t.extended + (InBank(a) + i) % 131072)
  }

  function ReadBack(t: Target, a: uint32, count: nat): (data: seq<byte>)
    ensures |data| == count
  {
    seq(count, i requires 0 <= i < count => ByteBack(t, a, i))
  }

  lemma ByteReads(size: nat, t: Target, a: uint32, i: nat)
    requires TargetOk(size, t) && t.frame == []
    ensures var load := if i % 2 == 1 then READ_HIGH else READ_LOW;
      var (v, u) := Frame(size, t, load, AddressHigh(Counter(a, i)), AddressLow(Counter(a, i)), 0x00);
      Same(t, u) && v == ByteBack(t, a, i)
  {
    hide Frame, Counter, InBank, AddressHigh, AddressLow, ReadCell;
    ReadFrame(size, t, i % 2 == 1, AddressHigh(Counter(a, i)), AddressLow(Counter(a, i)));
    SentWord(Counter(a, i));
    ByteAddress(a, i);
  }

  lemma SameReads(t: Target, u: Target, a: uint32, count: nat)
    requires Same(t, u)
    ensures ReadBack(t, a, count) == ReadBack(u, a, count)
  {}

  lemma {:induction false} ReadBytesReads(size: nat, s: Isp, command: byte, a: uint32, count: nat, i: nat)
    requires TargetOk(size, s.target) && s.target.frame == []
    requires i <= count && s.address == Counter(a, i) && command in {READ_LOW, READ_HIGH}
    ensures var (s1, data) := ReadBytes(size, s, true, command, count, i);
      Same(s.target, s1.target) && data == ReadBack(s.target, a, count)[i..]
    decreases count - i
  {
    hide Frame, Counter, ByteBack, AddressHigh, AddressLow, Increment;
    var back := ReadBack(s.target, a, count);
    if i < count {
      var odd := i % 2 == 1;
      var load := HighByte(command, odd);
      assert load == if odd then READ_HIGH else READ_LOW;
      var (v, t) := Frame(size, s.target, load, AddressHigh(s.address), AddressLow(s.address), 0x00);
      ByteReads(size, s.target, a, i);
      var s1 := s.(target := t, address := if odd then Increment(s.address) else s.address);
      CounterNext(a, i);
      ReadBytesReads(size, s1, load, a, count, i + 1);
      SameReads(s.target, t, a, count);
      assert back[i..] == [back[i]] + back[i + 1..];
    }
  }

  // ---- The round trip -----------------------------------------------------------------------------------

  /** The extended address byte after a LOAD_ADDRESS: only an address with its top bit set sends it. */
  function BankOf(t: Target, a: uint32): byte { if a >= 0x8000_0000 then a / 65536 % 256 else t.extended }

  function Base(t: Target, a: uint32): nat { Selected(t.(extended := BankOf(t, a)), a) }

  lemma AddressLoaded(size: nat, s: Isp, b: seq<byte>)
    requires ChipOk(size, s.target) && |b| == 4
    ensures var s1 := Exec(size, s, LoadAddress(b)).0;
      && s1.address == BigEndian(b)
      && Same(s.target.(extended := BankOf(s.target, BigEndian(b))), s1.target)
  {
    hide Frame, BigEndian, Aligned, Even;
    ExtendFrame(size, s.target, BigEndian(b) / 65536 % 256);
  }

  function LoadThen(size: nat, s: Isp, b: seq<byte>, c: Command): (r: (Isp, seq<byte>))
    requires IspOk(size, s) && |b| == 4 && CommandOk(c)
    ensures IspOk(size, r.0)
  {
    Exec(size, Exec(size, s, LoadAddress(b)).0, c)
  }

  /** Offset inside the page, and where the page lies in its bank. */
  lemma BasePage(size: nat, t: Target, a: uint32)
    requires ChipOk(size, t)
    ensures var r := InBank(a) % size;
      && Base(t, a) % size == r && PageOf(size, Base(t, a)) == Base(t, a) - r
      && r <= InBank(a) && InBank(a) - r + size <= 131072
      && Even(r)
  {
    hide Aligned;
    var r := InBank(a) % size;
    AlignedTimes(size, BankOf(t, a), 131072);
    ModShift(size, InBank(a), BankOf(t, a) * 131072);
    PageStart(size, InBank(a));
    NextPageFits(size, InBank(a) - r, 131072);
    EvenRest(size, a);
  }

  lemma PageStart(size: nat, x: nat)
    requires 0 < size
    ensures x % size <= x && Aligned(size, x - x % size)
  {
    DivMod(x / size, size, 0);
  }

  lemma EvenRest(size: nat, a: uint32)
    requires 0 < size && Even(size)
    ensures Even(InBank(a) % size)
  {
    var q, h := InBank(a) / size, size / 2;
    assert InBank(a) % size == InBank(a) - q * size;
    assert q * size == 2 * (q * h);
  }

  /** The chip after a committed paged write of `data` at the address `a`, which LOAD_ADDRESS has set. */
  function Written(size: nat, t: Target, a: uint32, data: seq<byte>): (u: Target)
    requires TargetOk(size, t)
    ensures |u.cells| == |t.cells| && u.extended == BankOf(t, a)
  {
    var poured := Poured(size, t.buffer, InBank(a), data, 0);
    t.(extended := BankOf(t, a), cells := Committed(size, t.cells, PageOf(size, Base(t, a)), poured),
       buffer := Blank(size))
  }

  lemma AddressThenPage(size: nat, s: Isp, b: seq<byte>, p: ProgramParams)
    requires ChipOk(size, s.target) && |b| == 4 && PagedWrite(p)
    ensures Same(Written(size, s.target, BigEndian(b), p.data),
                 LoadThen(size, s, b, Program(CMD_PROGRAM_FLASH_ISP, p)).0.target)
  {
    hide Aligned, BigEndian, ProgramMemory, Committed, Blank, Poured, PageOf, BankOf, InBank, Bit, Even,
        LoadExtendedAddress;
    AddressLoaded(size, s, b);
    PageProgrammed(size, Exec(size, s, LoadAddress(b)).0, p);
  }

  lemma CommittedAt(size: nat, cells: seq<byte>, p: nat, buffer: seq<byte>, k: nat)
    requires |buffer| == size && p <= k < p + size <= |cells|
    ensures Committed(size, cells, p, buffer)[k] == And(cells[k], buffer[k - p])
  {
    hide And;
  }

  /** Data that stays in the page of the loaded address is programmed there, byte `i` into the half of word
      `a + i / 2` that its parity says, over whatever the cells held; the cells around it take the rest of
      the target's page buffer. */
  lemma PageLands(size: nat, t: Target, a: uint32, data: seq<byte>, k: nat)
    requires ChipOk(size, t) && InBank(a) % size + |data| <= size
    requires var page := PageOf(size, Base(t, a)); page <= k < page + size <= |t.cells|
    ensures var i := k - Base(t, a);
      Written(size, t, a, data).cells[k]
        == And(t.cells[k], if 0 <= i < |data| then data[i] else t.buffer[k - PageOf(size, Base(t, a))])
  {
    hide Aligned, And, InBank, BankOf, Poured, PageOf, Even, Committed;
    BasePage(size, t, a);
    PouredFits(size, t.buffer, InBank(a), data, 0);
    assert data[0..] == data;
    CommittedAt(size, t.cells, PageOf(size, Base(t, a)), Poured(size, t.buffer, InBank(a), data, 0), k);
  }

  /** In an erased page, with nothing left in the buffer, that is the data alone. */
  lemma ErasedPageLands(size: nat, t: Target, a: uint32, data: seq<byte>)
    requires ChipOk(size, t) && InBank(a) % size + |data| <= size && t.buffer == Blank(size)
    requires var page := PageOf(size, Base(t, a));
      page + size <= |t.cells| && t.cells[page..page + size] == Blank(size)
    ensures Base(t, a) + |data| <= |t.cells| && Written(size, t, a, data).cells == Splice(t.cells, Base(t, a), data)
  {
    hide Aligned, And, InBank, BankOf, Poured, PageOf, Even, Committed, Splice;
    var page := PageOf(size, Base(t, a));
    BasePage(size, t, a);
    forall k | 0 <= k < |t.cells| ensures Written(size, t, a, data).cells[k] == Splice(t.cells, Base(t, a), data)[k] {
      if page <= k < page + size {
        PageLands(size, t, a, data, k);
        assert t.cells[k] == t.cells[page..page + size][k - page];
        AndBlank(if 0 <= k - Base(t, a) < |data| then data[k - Base(t, a)] else BLANK);
      }
    }
  }

  /** A read that starts with its own LOAD_ADDRESS. */
  lemma LoadedRead(size: nat, s: Isp, b: seq<byte>, command: byte, n: uint16)
    requires ChipOk(size, s.target) && |b| == 4 && command in {READ_LOW, READ_HIGH}
    ensures LoadThen(size, s, b, Read(CMD_READ_FLASH_ISP, n, command)).1
         == [CMD_READ_FLASH_ISP, STATUS_CMD_OK]
          + ReadBack(s.target.(extended := BankOf(s.target, BigEndian(b))), BigEndian(b), n) + [STATUS_CMD_OK]
  {
    hide Aligned, BigEndian, ReadBytes, BankOf, ReadBack, Even, LoadExtendedAddress;
    var a := BigEndian(b);
    AddressLoaded(size, s, b);
    var s1 := Exec(size, s, LoadAddress(b)).0;
    ReadBytesReads(size, s1, command, a, n, 0);
    SameReads(s.target.(extended := BankOf(s.target, a)), s1.target, a, n);
    assert ReadBack(s1.target, a, n)[0..] == ReadBack(s1.target, a, n);
  }

  /** Load the address, write `p`, load the address again, read as much. */
  function WriteThenRead(size: nat, s: Isp, b: seq<byte>, p: ProgramParams, readCommand: byte): seq<byte>
    requires ChipOk(size, s.target) && |b| == 4 && PagedWrite(p)
  {
    LoadThen(size, LoadThen(size, s, b, Program(CMD_PROGRAM_FLASH_ISP, p)).0, b,
             Read(CMD_READ_FLASH_ISP, |p.data|, readCommand)).1
  }

  function FlashReply(data: seq<byte>): seq<byte> { [CMD_READ_FLASH_ISP, STATUS_CMD_OK] + data + [STATUS_CMD_OK] }

  lemma BankKept(t: Target, u: Target, a: uint32)
    requires u.extended == BankOf(t, a)
    ensures BankOf(u, a) == BankOf(t, a)
  {}

  lemma WrittenRead(size: nat, s: Isp, b: seq<byte>, p: ProgramParams, readCommand: byte)
    requires ChipOk(size, s.target) && |b| == 4 && PagedWrite(p) && readCommand in {READ_LOW, READ_HIGH}
    ensures WriteThenRead(size, s, b, p, readCommand)
         == FlashReply(ReadBack(Written(size, s.target, BigEndian(b), p.data), BigEndian(b), |p.data|))
  {
    hide Aligned, BigEndian, Exec, InBank, Blank, PageOf, Even, Bit, LoadThen, ReadBack, BankOf, Written;
    var a := BigEndian(b);
    var s2 := LoadThen(size, s, b, Program(CMD_PROGRAM_FLASH_ISP, p)).0;
    var u := Written(size, s.target, a, p.data);
    AddressThenPage(size, s, b, p);
    StillChip(size, s.target, a, p.data, s2.target);
    LoadedRead(size, s2, b, readCommand, |p.data|);
    BankKept(s.target, s2.target, a);
    SameReads(u, s2.target.(extended := BankOf(s2.target, a)), a, |p.data|);
  }

  lemma StillChip(size: nat, t: Target, a: uint32, data: seq<byte>, u: Target)
    requires ChipOk(size, t) && Same(Written(size, t, a, data), u)
    ensures ChipOk(size, u) && u.extended == BankOf(t, a)
  {
    hide Aligned, Even, Poured, Committed, PageOf, BankOf;
  }

  /** One byte of data that fits in the page, read back. */
  lemma FittingByte(size: nat, t: Target, a: uint32, data: seq<byte>, i: nat)
    requires ChipOk(size, t) && i < |data| && InBank(a) % size + |data| <= size
    ensures var back := ByteBack(Written(size, t, a, data), a, i);
      back == if Base(t, a) + i < |t.cells| then And(t.cells[Base(t, a) + i], data[i]) else BLANK
  {
    hide Aligned, And, InBank, PageOf, Even, Written, BankOf;
    var k, page := Base(t, a) + i, PageOf(size, Base(t, a));
    BasePage(size, t, a);
    assert (InBank(a) + i) % 131072 == InBank(a) + i;
    if k < |t.cells| {
      PageStart(size, Base(t, a));
      PageAligned(size, Base(t, a));
      NextPageFits(size, page, |t.cells|);
      PageLands(size, t, a, data, k);
    }
  }

  lemma PageAligned(size: nat, x: nat)
    requires 0 < size
    ensures Aligned(size, PageOf(size, x))
  {
    PageStart(size, x);
  }

  /** The first byte past the page is read from outside the page, where nothing was written. */
  lemma OverrunByte(size: nat, t: Target, a: uint32, data: seq<byte>)
    requires ChipOk(size, t)
    ensures var i := size - InBank(a) % size;
      ByteBack(Written(size, t, a, data), a, i) == ByteBack(t.(extended := BankOf(t, a)), a, i)
  {
    hide Aligned, PageOf, InBank, Even, BankOf, Poured;
    LandsOutside(size, t, a);
  }

  lemma LandsOutside(size: nat, t: Target, a: uint32)
    requires ChipOk(size, t)
    ensures var page, i := PageOf(size, Base(t, a)), size - InBank(a) % size;
      !(page <= 131072 * BankOf(t, a) + (InBank(a) + i) % 131072 < page + size)
  {
    hide Aligned, PageOf, BankOf, InBank, Even;
    BasePage(size, t, a);
    var q := InBank(a) - InBank(a) % size;
    if q + size == 131072 && q == 0 {
      assert false;
    }
  }

  /** The cells that `n` bytes at the address `a` belong in exist and are blank. */
  ghost predicate BlankAt(t: Target, a: uint32, n: nat) {
    Base(t, a) + n <= |t.cells| && t.cells[Base(t, a)..Base(t, a) + n] == Blank(n)
  }

  lemma BackIff(size: nat, t: Target, a: uint32, n: nat)
    requires ChipOk(size, t)
    ensures (forall data: seq<byte> :: |data| == n ==> ReadBack(Written(size, t, a, data), a, n) == data)
       <==> n == 0 || (InBank(a) % size + n <= size && BlankAt(t, a, n))
  {
    hide Aligned, InBank, PageOf, Even, Written, BankOf, ByteBack, And, Base, Blank;
    if n == 0 {
    } else if InBank(a) % size + n > size {
      NotBackOverrun(size, t, a, n);
    } else if !BlankAt(t, a, n) {
      NotBackDirty(size, t, a, n);
    } else {
      forall data: seq<byte> | |data| == n ensures ReadBack(Written(size, t, a, data), a, n) == data {
        forall i | 0 <= i < n ensures ReadBack(Written(size, t, a, data), a, n)[i] == data[i] {
          FittingByte(size, t, a, data, i);
          assert t.cells[Base(t, a) + i] == t.cells[Base(t, a)..Base(t, a) + n][i];
          AndBlank(data[i]);
        }
      }
    }
  }

  /** Data that the overrun loses. */
  lemma NotBackOverrun(size: nat, t: Target, a: uint32, n: nat)
    requires ChipOk(size, t) && InBank(a) % size + n > size
    ensures exists data: seq<byte> :: |data| == n && ReadBack(Written(size, t, a, data), a, n) != data
  {
    hide Aligned, InBank, PageOf, Even, Written, BankOf, ByteBack;
    var i := size - InBank(a) % size;
    var v := ByteBack(t.(extended := BankOf(t, a)), a, i);
    var data: seq<byte> := seq(n, _ => if v == 0 then 1 else 0);
    OverrunByte(size, t, a, data);
    assert ReadBack(Written(size, t, a, data), a, n)[i] != data[i];
  }

  /** Data that a cell which is not blank, or not there, spoils. */
  lemma NotBackDirty(size: nat, t: Target, a: uint32, n: nat)
    requires ChipOk(size, t) && n > 0 && InBank(a) % size + n <= size && !BlankAt(t, a, n)
    ensures exists data: seq<byte> :: |data| == n && ReadBack(Written(size, t, a, data), a, n) != data
  {
    hide Aligned, InBank, PageOf, Even, Written, BankOf, ByteBack, And, Base;
    if Base(t, a) + n > |t.cells| {
      var data: seq<byte> := seq(n, _ => 0);
      FittingByte(size, t, a, data, n - 1);
      assert ReadBack(Written(size, t, a, data), a, n)[n - 1] != data[n - 1];
    } else {
      var cells := t.cells[Base(t, a)..Base(t, a) + n];
      var i :| 0 <= i < n && cells[i] != BLANK;
      FittingByte(size, t, a, Blank(n), i);
      AndBlank(cells[i]);
      assert ReadBack(Written(size, t, a, Blank(n)), a, n)[i] != Blank(n)[i];
    }
  }

  /** A committed paged write of `n` bytes reads back, whatever the bytes are, exactly when they end within
      the page of the loaded address and the cells they belong in are blank.  What the rest of the page
      and the page buffer held does not matter. */
  lemma PagedRoundTripIff(size: nat, s: Isp, b: seq<byte>, p: ProgramParams, readCommand: byte, n: nat)
    requires ChipOk(size, s.target) && |b| == 4
    requires n <= 256 && PagedWrite(p.(bytesToWrite := n, data := Blank(n)))
    requires readCommand in {READ_LOW, READ_HIGH}
    ensures (forall data: seq<byte> :: |data| == n ==>
              WriteThenRead(size, s, b, p.(bytesToWrite := n, data := data), readCommand) == FlashReply(data))
       <==> n == 0 || (InBank(BigEndian(b)) % size + n <= size && BlankAt(s.target, BigEndian(b), n))
  {
    hide Aligned, BigEndian, InBank, Even, Bit, WriteThenRead, ReadBack, BankOf, Blank, Written, BlankAt;
    var t, a := s.target, BigEndian(b);
    forall data: seq<byte> | |data| == n
      ensures WriteThenRead(size, s, b, p.(bytesToWrite := n, data := data), readCommand) == FlashReply(data)
         <==> ReadBack(Written(size, t, a, data), a, n) == data
    {
      WrittenRead(size, s, b, p.(bytesToWrite := n, data := data), readCommand);
      SameReply(ReadBack(Written(size, t, a, data), a, n), data);
    }
    BackIff(size, t, a, n);
  }

  lemma SameReply(x: seq<byte>, y: seq<byte>)
    requires |x| == |y|
    ensures FlashReply(x) == FlashReply(y) <==> x == y
  {
    assert FlashReply(x)[2..2 + |x|] == x && FlashReply(y)[2..2 + |y|] == y;
  }

  // ---- The word mode ------------------------------------------------------------------------------------

  lemma EvenSlot(size: nat, w: nat)
    requires 0 < size && Even(size)
    ensures Even(2 * w % size)
  {
    var q, h := 2 * w / size, size / 2;
    assert 2 * w % size == 2 * w - q * size;
    assert q * size == 2 * (q * h);
  }

  lemma LowByteLoads(size: nat, t: Target, a: uint32, v: byte)
    requires TargetOk(size, t) && t.frame == [] && Even(size)
    ensures var u := Frame(size, t, LOAD_LOW, AddressHigh(a), AddressLow(a), v).1;
      && u.frame == [] && u.cells == t.cells
      && (forall k :: 0 <= k < size && !Even(k) ==> u.buffer[k] == t.buffer[k])
  {
    hide Frame, Even, AddressHigh, AddressLow;
    LoadFrame(size, t, false, AddressHigh(a), AddressLow(a), v);
    EvenSlot(size, Word(AddressLow(a), AddressHigh(a)));
  }

  /** Flash written in word mode never reaches a high byte: the loop tests for the read command, so the
      load instruction always addresses the low half. */
  lemma {:induction false} WordModeSkipsHighBytes(size: nat, s: Isp, p: Polling, mode: byte, pollValue: byte,
                                                  data: seq<byte>, i: nat)
    requires TargetOk(size, s.target) && s.target.frame == [] && Even(size) && i <= |data|
    requires p.load in {LOAD_LOW, LOAD_HIGH} && p.read in {READ_LOW, READ_HIGH}
    ensures var t := WriteWordwise(size, s, p, true, mode, pollValue, data, i).0.target;
      && t.frame == [] && t.cells == s.target.cells
      && (forall k :: 0 <= k < size && !Even(k) ==> t.buffer[k] == s.target.buffer[k])
    decreases |data| - i
  {
    hide Frame, AddressHigh, AddressLow, Increment, WaitForProgComplete, Even;
    if i < |data| {
      var odd := i % 2 == 1;
      var load := HighByte(p.load, false);
      assert load == LOAD_LOW;
      var t := Frame(size, s.target, load, AddressHigh(s.address), AddressLow(s.address), data[i]).1;
      LowByteLoads(size, s.target, s.address, data[i]);
      var p1 := if data[i] != pollValue
                then Polling(load, s.address % 65536, if odd then SetBit(p.read, 8) else p.read)
                else p.(load := load);
      var s1 := s.(target := t, address := if odd then Increment(s.address) else s.address);
      var (s2, status) := WaitForProgComplete(size, s1, mode, p1.pollAddress, pollValue, p1.read);
      WaitQuiet(size, s1, mode, p1.pollAddress, pollValue, p1.read);
      if status == STATUS_CMD_OK {
        WordModeSkipsHighBytes(size, s2, p1, mode, pollValue, data, i + 1);
      }
    }
  }

  /** A slot that the data reaches holds `w` in the end if all bytes are `w`. */
  lemma {:induction false} PouredSame(size: nat, buffer: seq<byte>, x: nat, data: seq<byte>, i: nat, w: byte, j: nat)
    requires 0 < size == |buffer| && i <= |data| && forall k :: 0 <= k < |data| ==> data[k] == w
    requires i <= j < |data| || buffer[(x + j) % size] == w
    ensures Poured(size, buffer, x, data, i)[(x + j) % size] == w
    decreases |data| - i
  {
    if i < |data| { PouredSame(size, buffer[(x + i) % size := data[i]], x, data, i + 1, w, j); }
  }

  lemma OddSlot(size: nat, a: uint32)
    requires 0 < size && Even(size)
    ensures !Even((InBank(a) + 1) % size)
  {
    var x := InBank(a) + 1;
    var q, h := x / size, size / 2;
    assert x % size == x - q * size;
    assert q * size == 2 * (q * h);
  }

  /** Word mode fills the page buffer as the paged mode does, whatever the bytes are, only for a single byte. */
  lemma WordModeLandsIff(size: nat, s: Isp, p: Polling, mode: byte, pollValue: byte, n: nat)
    requires ChipOk(size, s.target) && p.load in {LOAD_LOW, LOAD_HIGH} && p.read in {READ_LOW, READ_HIGH}
    ensures (forall data: seq<byte> :: |data| == n ==>
              WriteWordwise(size, s, p, true, mode, pollValue, data, 0).0.target.buffer
                == Poured(size, s.target.buffer, InBank(s.address), data, 0))
       <==> n <= 1
  {
    hide Frame, Aligned, Even, InBank, WriteWordwise, Poured;
    var x, buffer := InBank(s.address), s.target.buffer;
    if n <= 1 {
      forall data: seq<byte> | |data| == n
        ensures WriteWordwise(size, s, p, true, mode, pollValue, data, 0).0.target.buffer
             == Poured(size, buffer, x, data, 0)
      {
        OneByteLands(size, s, p, mode, pollValue, data);
      }
    } else {
      var slot := (x + 1) % size;
      var w: byte := if buffer[slot] == 0 then 1 else 0;
      var data: seq<byte> := seq(n, _ => w);
      OddSlot(size, s.address);
      WordModeSkipsHighBytes(size, s, p, mode, pollValue, data, 0);
      PouredSame(size, buffer, x, data, 0, w, 1);
    }
  }

  lemma OneByteLands(size: nat, s: Isp, p: Polling, mode: byte, pollValue: byte, data: seq<byte>)
    requires ChipOk(size, s.target) && p.load in {LOAD_LOW, LOAD_HIGH} && p.read in {READ_LOW, READ_HIGH}
    requires |data| <= 1
    ensures WriteWordwise(size, s, p, true, mode, pollValue, data, 0).0.target.buffer
         == Poured(size, s.target.buffer, InBank(s.address), data, 0)
  {
    hide Frame, Aligned, Even, InBank, AddressHigh, AddressLow, WaitForProgComplete;
    if data != [] {
      var load := HighByte(p.load, false);
      assert load == LOAD_LOW;
      var t := Frame(size, s.target, load, AddressHigh(s.address), AddressLow(s.address), data[0]).1;
      FirstCounter(s.address);
      ByteLoads(size, s.target, s.address, 0, data[0]);
      var p1 := if data[0] != pollValue then Polling(load, s.address % 65536, p.read) else p.(load := load);
      WaitQuiet(size, s.(target := t), mode, p1.pollAddress, pollValue, p1.read);
      assert WriteWordwise(size, s, p, true, mode, pollValue, data, 0).0
          == WaitForProgComplete(size, s.(target := t), mode, p1.pollAddress, pollValue, p1.read).0;
    }
  }

  lemma FirstCounter(a: uint32)
    ensures Counter(a, 0) == a
  {}
}
