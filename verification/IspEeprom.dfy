/** Bytes written to the target's EEPROM through the programmer, and read back. */
module IspEeprom {
  import opened Usb
  import opened AvrFlash
  import opened SpiTarget
  import opened IspSpec
  import opened IspFlash
  import opened IspReplies

  // ---- The instructions -----------------------------------------------------------------------

  /** `u` is `t` with other EEPROM contents, but for what has passed over the wire. */
  ghost predicate SameButEeprom(t: Target, u: Target) { Same(t.(eeprom := u.eeprom), u) }

  lemma StoreFrame(size: nat, t: Target, a: uint32, v: byte)
    requires TargetOk(size, t) && t.frame == [] && a < 65536
    ensures Same(t.(eeprom := PokeCell(t.eeprom, a, v)),
                 Frame(size, t, WRITE_EEPROM, AddressHigh(a), AddressLow(a), v).1)
  {
    hide Frame, PokeCell, ReadCell, Splice, AndPage, PageOf, Blank, AddressHigh, AddressLow;
    FrameExecutes(size, t, WRITE_EEPROM, AddressHigh(a), AddressLow(a), v);
    SentWord(a);
  }

  lemma FetchFrame(size: nat, t: Target, a: uint32)
    requires TargetOk(size, t) && t.frame == [] && a < 65536
    ensures var (v, u) := Frame(size, t, READ_EEPROM, AddressHigh(a), AddressLow(a), 0x00);
      Same(t, u) && v == ReadCell(t.eeprom, a)
  {
    hide Frame, PokeCell, ReadCell, Splice, AndPage, PageOf, Blank, AddressHigh, AddressLow;
    FrameExecutes(size, t, READ_EEPROM, AddressHigh(a), AddressLow(a), 0x00);
    SentWord(a);
  }

  // ---- Writing ------------------------------------------------------------------------------------

  lemma SpliceFirst(cells: seq<byte>, at: nat, v: byte, rest: seq<byte>)
    requires at + 1 + |rest| <= |cells|
    ensures Splice(PokeCell(cells, at, v), at + 1, rest) == Splice(cells, at, [v] + rest)
  {
    assert |[v] + rest| == 1 + |rest|;
  }

  /** One turn of the byte mode. */
  function ByteTurn(size: nat, s: Isp, p: Polling, mode: byte, pollValue: byte, v: byte): (r: ((Isp, byte), Polling))
    requires IspOk(size, s)
    ensures IspOk(size, r.0.0)
  {
    var load := HighByte(p.load, false);
    var t := Frame(size, s.target, load, AddressHigh(s.address), AddressLow(s.address), v).1;
    var p1 := if v != pollValue then Polling(load, s.address % 65536, p.read) else p.(load := load);
    (WaitForProgComplete(size, s.(target := t, address := Increment(s.address)), mode, p1.pollAddress, pollValue,
                         p1.read), p1)
  }

  lemma ByteTurnFirst(size: nat, s: Isp, p: Polling, mode: byte, pollValue: byte, data: seq<byte>, i: nat)
    requires IspOk(size, s) && i < |data|
    ensures var ((s1, status), p1) := ByteTurn(size, s, p, mode, pollValue, data[i]);
      WriteWordwise(size, s, p, false, mode, pollValue, data, i)
        == if status != STATUS_CMD_OK then (s1, status)
           else WriteWordwise(size, s1, p1, false, mode, pollValue, data, i + 1)
  {
    hide Frame, WaitForProgComplete, HighByte, AddressHigh, AddressLow, Increment;
  }

  lemma ByteTurnStores(size: nat, s: Isp, p: Polling, mode: byte, pollValue: byte, v: byte)
    requires TargetOk(size, s.target) && s.target.frame == [] && s.address < 65536
    requires p.load == WRITE_EEPROM && Quiet(p.read)
    ensures var ((s1, status), p1) := ByteTurn(size, s, p, mode, pollValue, v);
      && Same(s.target.(eeprom := PokeCell(s.target.eeprom, s.address, v)), s1.target) && s1.target.frame == []
      && s1.address == s.address + 1 && p1.load == WRITE_EEPROM && p1.read == p.read
  {
    hide Frame, WaitForProgComplete, AddressHigh, AddressLow, PokeCell, Quiet;
    StoreFrame(size, s.target, s.address, v);
    var load := HighByte(p.load, false);
    assert load == WRITE_EEPROM;
    var t := Frame(size, s.target, load, AddressHigh(s.address), AddressLow(s.address), v).1;
    var p1 := if v != pollValue then Polling(load, s.address % 65536, p.read) else p.(load := load);
    var s1 := s.(target := t, address := Increment(s.address));
    WaitQuiet(size, s1, mode, p1.pollAddress, pollValue, p1.read);
    WaitKeepsAddress(size, s1, mode, p1.pollAddress, pollValue, p1.read);
  }

  /** The byte mode stores byte `i` in cell `address + i`, up to and including the byte whose completion is not
      reported, and all of them if the status is OK. */
  lemma {:induction false} ByteModeStores(size: nat, s: Isp, p: Polling, mode: byte, pollValue: byte, data: seq<byte>,
                                          i: nat) returns (k: nat)
    requires TargetOk(size, s.target) && s.target.frame == [] && i <= |data|
    requires p.load == WRITE_EEPROM && Quiet(p.read) && s.address + |data| - i <= |s.target.eeprom| <= 65536
    ensures i <= k <= |data|
    ensures var (r, status) := WriteWordwise(size, s, p, false, mode, pollValue, data, i);
      && SameButEeprom(s.target, r.target)
      && r.target.eeprom == Splice(s.target.eeprom, s.address, data[i..k]) && r.address == s.address + (k - i)
      && (status == STATUS_CMD_OK ==> k == |data|) && (status != STATUS_CMD_OK ==> i < k)
    decreases |data| - i
  {
    hide ByteTurn, WriteWordwise, Splice, PokeCell, Quiet;
    k := i;
    if i == |data| {
      NoBytes(size, s, p, mode, pollValue, data);
      SpliceNothing(s.target.eeprom, s.address);
    } else {
      ByteTurnFirst(size, s, p, mode, pollValue, data, i);
      ByteTurnStores(size, s, p, mode, pollValue, data[i]);
      var ((s1, status), p1) := ByteTurn(size, s, p, mode, pollValue, data[i]);
      k := i + 1;
      SpliceNothing(s1.target.eeprom, s.address + 1);
      if status == STATUS_CMD_OK { k := ByteModeStores(size, s1, p1, mode, pollValue, data, i + 1); }
      assert data[i + 1..i + 1] == [];
      SpliceFirst(s.target.eeprom, s.address, data[i], data[i + 1..k]);
      assert [data[i]] + data[i + 1..k] == data[i..k];
    }
  }

  lemma NoBytes(size: nat, s: Isp, p: Polling, mode: byte, pollValue: byte, data: seq<byte>)
    requires IspOk(size, s)
    ensures WriteWordwise(size, s, p, false, mode, pollValue, data, |data|) == (s, STATUS_CMD_OK)
  {}

  lemma SpliceNothing(cells: seq<byte>, at: nat)
    requires at <= |cells|
    ensures Splice(cells, at, []) == cells
  {}

  lemma {:induction false} PollKeepsAddress(size: nat, s: Isp, frame: seq<byte>, awaited: Awaited)
    requires IspOk(size, s) && |frame| == 4
    ensures PollUntil(size, s, frame, awaited).address == s.address
    decreases |s.ticks|
  {
    hide Frame, Accepts;
    var (answer, t) := Frame(size, s.target, frame[0], frame[1], frame[2], frame[3]);
    if !Accepts(awaited, answer) && Tick(s.ticks) < TARGET_BUSY_TIMEOUT_MS && s.ticks != [] {
      PollKeepsAddress(size, s.(target := t, ticks := TickDone(s.ticks)), frame, awaited);
    }
  }

  lemma WaitKeepsAddress(size: nat, s: Isp, mode: byte, pollAddress: uint16, pollValue: byte, readCommand: byte)
    requires IspOk(size, s)
    ensures WaitForProgComplete(size, s, mode, pollAddress, pollValue, readCommand).0.address == s.address
  {
    hide PollUntil, CompletionMode;
    PollKeepsAddress(size, s, [readCommand, High(pollAddress), Low(pollAddress), 0x00], Value(pollValue));
    PollKeepsAddress(size, s, [0xF0, 0x00, 0x00, 0x00], Idle);
  }

  // ---- Completion by value ---------------------------------------------------------------------------

  /** A memory that is only polled answers the same byte every time. */
  lemma {:induction false} SteadyAnswer(size: nat, t: Target, a: uint32, k: nat)
    requires TargetOk(size, t) && t.frame == [] && a < 65536
    ensures PollAnswer(size, t, [READ_EEPROM, AddressHigh(a), AddressLow(a), 0x00], k) == ReadCell(t.eeprom, a)
    decreases k
  {
    hide Frame, ReadCell, AddressHigh, AddressLow;
    FetchFrame(size, t, a);
    if k > 0 {
      var u := Frame(size, t, READ_EEPROM, AddressHigh(a), AddressLow(a), 0x00).1;
      SteadyAnswer(size, u, a, k - 1);
    }
  }

  /** The value check waits until the cell just written reads as the poll value, the value of a memory that is
      still busy.  On a target that is done at once, a byte that is not the poll value therefore never passes: it
      is stored, and the command ends with a timeout behind it. */
  lemma ValueModeTimesOut(size: nat, s: Isp, p: Polling, mode: byte, pollValue: byte, data: seq<byte>, i: nat)
    requires TargetOk(size, s.target) && s.target.frame == [] && i < |data| && data[i] != pollValue
    requires p.load == WRITE_EEPROM && p.read == READ_EEPROM && s.address < |s.target.eeprom| <= 65536
    requires mode % 128 - mode % 2 in {0x04, 0x20} && Ascending(s.ticks)
    ensures var (r, status) := WriteWordwise(size, s, p, false, mode, pollValue, data, i);
      status == STATUS_CMD_TOUT && r.target.eeprom == s.target.eeprom[s.address := data[i]]
  {
    hide Frame, WaitForProgComplete, WriteWordwise, AddressHigh, AddressLow, PollUntil, Polled, PollAnswer, ByteTurn;
    var a, v := s.address, data[i];
    ByteTurnFirst(size, s, p, mode, pollValue, data, i);
    ByteTurnStores(size, s, p, mode, pollValue, v);
    var s1 := TurnPolls(size, s, p, mode, pollValue, v);
    var frame := [READ_EEPROM, AddressHigh(a), AddressLow(a), 0x00];
    var k := StatusMeans(size, s1, frame, Value(pollValue), 0x80);
    SteadyAnswer(size, s1.target, a, k);
  }

  /** What a turn waits for. */
  lemma TurnPolls(size: nat, s: Isp, p: Polling, mode: byte, pollValue: byte, v: byte) returns (s1: Isp)
    requires TargetOk(size, s.target) && s.target.frame == [] && s.address < |s.target.eeprom| <= 65536
    requires p.load == WRITE_EEPROM && p.read == READ_EEPROM && v != pollValue
    requires mode % 128 - mode % 2 in {0x04, 0x20}
    ensures IspOk(size, s1) && s1.ticks == s.ticks && s1.target.frame == []
    ensures s1.target.eeprom == s.target.eeprom[s.address := v]
    ensures ByteTurn(size, s, p, mode, pollValue, v).0
         == PollStatus(PollUntil(size, s1, [READ_EEPROM, AddressHigh(s.address), AddressLow(s.address), 0x00],
                                 Value(pollValue)), 0x80)
  {
    hide Frame, WaitForProgComplete, PollUntil, PollStatus, HighByte, AddressHigh, AddressLow, PokeCell;
    var a := s.address;
    StoreFrame(size, s.target, a, v);
    TurnFacts(s.target.eeprom, a, v);
    var t := Frame(size, s.target, WRITE_EEPROM, AddressHigh(a), AddressLow(a), v).1;
    s1 := s.(target := t, address := Increment(a));
    CompletionByMode(size, s1, mode, a, pollValue, READ_EEPROM);
  }

  lemma TurnFacts(eeprom: seq<byte>, a: uint32, v: byte)
    requires a < |eeprom| <= 65536
    ensures HighByte(WRITE_EEPROM, false) == WRITE_EEPROM && PokeCell(eeprom, a, v) == eeprom[a := v]
    ensures a % 65536 == a && AddressHigh(a) == a / 256 && AddressLow(a) == a % 256
  {}

  // ---- Reading ------------------------------------------------------------------------------------

  lemma {:induction false} ByteReadsBack(size: nat, s: Isp, count: nat, i: nat)
    requires TargetOk(size, s.target) && s.target.frame == [] && i <= count
    requires s.address + count - i <= |s.target.eeprom| <= 65536
    ensures var (r, data) := ReadBytes(size, s, false, READ_EEPROM, count, i);
      && Same(s.target, r.target) && r.address == s.address + (count - i)
      && data == s.target.eeprom[s.address..s.address + (count - i)]
    decreases count - i
  {
    hide Frame, AddressHigh, AddressLow;
    var cells := s.target.eeprom;
    if i < count {
      var load := HighByte(READ_EEPROM, false);
      assert load == READ_EEPROM;
      var (v, t) := Frame(size, s.target, load, AddressHigh(s.address), AddressLow(s.address), 0x00);
      FetchFrame(size, s.target, s.address);
      ByteReadsBack(size, s.(target := t, address := Increment(s.address)), count, i + 1);
      assert [cells[s.address]] + cells[s.address + 1..s.address + (count - i)]
          == cells[s.address..s.address + (count - i)];
    } else {
      assert cells[s.address..s.address] == [];
    }
  }

  // ---- The round trip ---------------------------------------------------------------------------------

  /** A write in byte mode with the chip's own instructions. */
  ghost predicate ByteWrite(p: ProgramParams) {
    ParamsOk(p) && p.bytesToWrite <= 256 && !Bit(p.mode, 1) && p.commands[0] == WRITE_EEPROM && Quiet(p.commands[2])
  }

  lemma SmallAddressLoaded(size: nat, s: Isp, b: seq<byte>)
    requires IspOk(size, s) && |b| == 4 && BigEndian(b) < 65536
    ensures Exec(size, s, LoadAddress(b)).0 == s.(address := BigEndian(b))
  {
    hide BigEndian, Frame;
  }

  lemma EepromProgrammed(size: nat, s: Isp, p: ProgramParams) returns (k: nat)
    requires IspOk(size, s) && s.target.frame == [] && ByteWrite(p)
    requires s.address + |p.data| <= |s.target.eeprom| <= 65536
    ensures k <= |p.data|
    ensures var (r, reply) := Exec(size, s, Program(CMD_PROGRAM_EEPROM_ISP, p));
      && SameButEeprom(s.target, r.target)
      && r.target.eeprom == Splice(s.target.eeprom, s.address, p.data[..k])
      && |reply| == 2 && reply[0] == CMD_PROGRAM_EEPROM_ISP && (reply[1] == STATUS_CMD_OK ==> k == |p.data|)
  {
    hide WriteWordwise, LoadPage, Frame, Bit, Splice, Quiet, WaitForProgComplete;
    var start := Polling(p.commands[0], 0, p.commands[2]);
    k := ByteModeStores(size, s, start, p.mode, p.pollValue2, p.data, 0);
    assert p.data[0..k] == p.data[..k];
  }

  /** Load the address, write, load the address again, read as much: the cells from the loaded address on hold a
      prefix of the data, all of it if the programmer reports no error, and nothing else in the chip has changed;
      the bytes read are those of the cells. */
  lemma EepromRoundTrip(size: nat, s: Isp, b: seq<byte>, p: ProgramParams) returns (k: nat)
    requires IspOk(size, s) && s.target.frame == [] && ByteWrite(p) && |b| == 4
    requires BigEndian(b) + |p.data| <= |s.target.eeprom| <= 65536 && BigEndian(b) < 65536
    ensures k <= |p.data|
    ensures var (s1, reply) := LoadThen(size, s, b, Program(CMD_PROGRAM_EEPROM_ISP, p));
      var (s2, answer) := LoadThen(size, s1, b, Read(CMD_READ_EEPROM_ISP, |p.data|, READ_EEPROM));
      var a := BigEndian(b);
      && s1.target.eeprom == Splice(s.target.eeprom, a, p.data[..k])
      && SameButEeprom(s.target, s1.target) && Same(s1.target, s2.target)
      && (reply == [CMD_PROGRAM_EEPROM_ISP, STATUS_CMD_OK] ==>
            k == |p.data| && answer == [CMD_READ_EEPROM_ISP, STATUS_CMD_OK] + p.data + [STATUS_CMD_OK])
  {
    hide BigEndian, Exec, Splice, ByteWrite;
    ByteWriteFacts(p);
    var a := BigEndian(b);
    SmallAddressLoaded(size, s, b);
    k := EepromProgrammed(size, s.(address := a), p);
    var s1 := LoadThen(size, s, b, Program(CMD_PROGRAM_EEPROM_ISP, p)).0;
    SmallAddressLoaded(size, s1, b);
    EepromAnswered(size, s1.(address := a), |p.data|);
    assert p.data[..|p.data|] == p.data;
    if k == |p.data| { assert s1.target.eeprom[a..a + |p.data|] == p.data; }
  }

  lemma ByteWriteFacts(p: ProgramParams)
    requires ByteWrite(p)
    ensures ParamsOk(p) && |p.data| <= 256
  {}

  lemma EepromAnswered(size: nat, s: Isp, n: uint16)
    requires IspOk(size, s) && s.target.frame == [] && s.address + n <= |s.target.eeprom| <= 65536
    ensures var (r, reply) := Exec(size, s, Read(CMD_READ_EEPROM_ISP, n, READ_EEPROM));
      && Same(s.target, r.target)
      && reply == [CMD_READ_EEPROM_ISP, STATUS_CMD_OK] + s.target.eeprom[s.address..s.address + n] + [STATUS_CMD_OK]
  {
    hide ReadBytes;
    ByteReadsBack(size, s, n, 0);
  }
}
