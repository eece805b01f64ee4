/** What the programmer sends for each command, byte by byte, and what its status means. */
module IspReplies {
  import opened Usb
  import opened AvrFlash
  import opened SpiTarget
  import opened IspSpec
  import opened IspTransfer

  // ---- Polling ------------------------------------------------------------------------------

  /** The target after a frame has been sent `k` times, and its answer to the next one. */
  function Polled(size: nat, t: Target, frame: seq<byte>, k: nat): (u: Target)
    requires TargetOk(size, t) && |frame| == 4
    ensures TargetOk(size, u)
    decreases k
  {
    if k == 0 then t else Polled(size, Frame(size, t, frame[0], frame[1], frame[2], frame[3]).1, frame, k - 1)
  }

  function PollAnswer(size: nat, t: Target, frame: seq<byte>, k: nat): byte
    requires TargetOk(size, t) && |frame| == 4
  {
    Frame(size, Polled(size, t, frame, k), frame[0], frame[1], frame[2], frame[3]).0
  }

  /** Polling goes on up to and including the first answer that is accepted, or the first reading of the timer,
      taken after every refused answer, that is over the limit. */
  lemma {:induction false} PollFirst(size: nat, s: Isp, frame: seq<byte>, awaited: Awaited) returns (k: nat)
    requires IspOk(size, s) && |frame| == 4
    ensures k <= |s.ticks|
    ensures var r := PollUntil(size, s, frame, awaited);
      && r.target == Polled(size, s.target, frame, k + 1) && r.address == s.address
      && (forall j: nat :: j < k ==> !Accepts(awaited, PollAnswer(size, s.target, frame, j)) && s.ticks[j] < 240)
      && if Accepts(awaited, PollAnswer(size, s.target, frame, k)) then r.ticks == s.ticks[k..]
         else (k == |s.ticks| && r.ticks == []) || (k < |s.ticks| && s.ticks[k] >= 240 && r.ticks == s.ticks[k + 1..])
    decreases |s.ticks|
  {
    hide Frame, Accepts;
    k := 0;
    var (answer, t) := Frame(size, s.target, frame[0], frame[1], frame[2], frame[3]);
    assert Polled(size, s.target, frame, 1) == Polled(size, t, frame, 0);
    if !Accepts(awaited, answer) && Tick(s.ticks) < TARGET_BUSY_TIMEOUT_MS && s.ticks != [] {
      var s1 := s.(target := t, ticks := TickDone(s.ticks));
      k := PollFirst(size, s1, frame, awaited);
      k := k + 1;
      assert PollAnswer(size, s.target, frame, k) == PollAnswer(size, t, frame, k - 1);
      forall j: nat | j < k
        ensures !Accepts(awaited, PollAnswer(size, s.target, frame, j)) && s.ticks[j] < 240
      {
        if j > 0 { assert PollAnswer(size, s.target, frame, j) == PollAnswer(size, t, frame, j - 1); }
      }
    }
  }

  /** The timer does not run backwards. */
  ghost predicate Ascending(ticks: seq<byte>) { forall i, j :: 0 <= i < j < |ticks| ==> ticks[i] <= ticks[j] }

  /** A status of OK means what it says: with a timer that does not run backwards the target's last answer was
      accepted; otherwise the status is the one for a timeout. */
  lemma StatusMeans(size: nat, s: Isp, frame: seq<byte>, awaited: Awaited, timedOut: byte) returns (k: nat)
    requires IspOk(size, s) && |frame| == 4 && Ascending(s.ticks) && timedOut != STATUS_CMD_OK
    ensures k <= |s.ticks|
    ensures var (r, status) := PollStatus(PollUntil(size, s, frame, awaited), timedOut);
      && r.target == Polled(size, s.target, frame, k + 1) && (status == STATUS_CMD_OK || status == timedOut)
      && (forall j: nat :: j < k ==> !Accepts(awaited, PollAnswer(size, s.target, frame, j)))
      && (status == STATUS_CMD_OK ==> Accepts(awaited, PollAnswer(size, s.target, frame, k)))
      && (Accepts(awaited, PollAnswer(size, s.target, frame, k)) ==>
            (status == STATUS_CMD_OK <==> k < |s.ticks| && s.ticks[k] < 240))
  {
    hide Accepts, PollUntil, PollAnswer, Polled;
    k := PollFirst(size, s, frame, awaited);
    var r := PollUntil(size, s, frame, awaited);
    if r.ticks != [] && !Accepts(awaited, PollAnswer(size, s.target, frame, k)) {
      assert r.ticks[0] == s.ticks[k + 1] >= s.ticks[k];
    }
  }

  /** For the busy flag, bit 0 of the answer: OK means that the target was not busy any more, and it is polled no
      longer than that. */
  lemma ReadyMeans(size: nat, s: Isp) returns (k: nat)
    requires IspOk(size, s) && Ascending(s.ticks)
    ensures var (r, status) := WaitWhileTargetBusy(size, s); var frame := [0xF0, 0, 0, 0];
      && r.target == Polled(size, s.target, frame, k + 1) && (status == STATUS_CMD_OK || status == 0x81)
      && (forall j: nat :: j < k ==> PollAnswer(size, s.target, frame, j) % 2 == 1)
      && (status == STATUS_CMD_OK ==> PollAnswer(size, s.target, frame, k) % 2 == 0)
  {
    hide PollUntil, PollAnswer, Polled, PollStatus;
    k := StatusMeans(size, s, [0xF0, 0, 0, 0], Idle, 0x81);
  }

  /** The completion checks by mode: 0x04 and 0x20 poll the target's memory for a value, 0x08 and 0x40 its busy
      flag, with the status of their kind; every other mode sends nothing and reports OK. */
  lemma CompletionByMode(size: nat, s: Isp, mode: byte, pollAddress: uint16, pollValue: byte, readCommand: byte)
    requires IspOk(size, s)
    ensures var r := WaitForProgComplete(size, s, mode, pollAddress, pollValue, readCommand);
      var m, frame := mode % 128 - mode % 2, [readCommand, pollAddress / 256, pollAddress % 256, 0];
      && (m == 0x04 || m == 0x20 ==> r == PollStatus(PollUntil(size, s, frame, Value(pollValue)), 0x80))
      && (m == 0x08 || m == 0x40 ==> r == PollStatus(PollUntil(size, s, [0xF0, 0, 0, 0], Idle), 0x81))
      && (m !in {0x04, 0x08, 0x20, 0x40} ==> r == (s, STATUS_CMD_OK))
  {
    hide PollUntil;
    ModeBits(mode);
  }

  lemma ModeBits(mode: byte)
    ensures CompletionMode(mode) == mode % 128 - mode % 2
  {}

  // ---- The frames of a paged write ---------------------------------------------------------------

  lemma HighByteAgain(command: byte, x: bool, y: bool)
    ensures HighByte(HighByte(command, x), y) == HighByte(command, y)
  {}

  /** The frame for byte `j` of a paged write that starts at the address `a`: in flash the parity of `j` chooses
      the half of word `a + j / 2`, in EEPROM the byte goes to cell `a + j`. */
  function PageFrame(load: byte, flash: bool, a: nat, data: seq<byte>, j: nat): (f: seq<byte>)
    requires j < |data|
    ensures |f| == 4
  {
    var at := if flash then a + j / 2 else a + j;
    [if flash && j % 2 == 1 then SetBit(load, 8) else ClearBit(load, 8), at / 256 % 256, at % 256, data[j]]
  }

  function PageFrames(load: byte, flash: bool, a: nat, data: seq<byte>, j: nat): seq<byte>
    requires j <= |data|
    decreases |data| - j
  {
    if j == |data| then [] else PageFrame(load, flash, a, data, j) + PageFrames(load, flash, a, data, j + 1)
  }

  lemma FrameAt(load: byte, first: byte, flash: bool, a: nat, at: uint32, data: seq<byte>, j: nat)
    requires j < |data| && at == (if flash then a + j / 2 else a + j) % 0x1_0000_0000
    requires HighByte(load, flash && j % 2 == 1) == HighByte(first, flash && j % 2 == 1)
    ensures [HighByte(load, j % 2 == 1 && flash), AddressHigh(at), AddressLow(at), data[j]]
         == PageFrame(first, flash, a, data, j)
  {
    var x := if flash then a + j / 2 else a + j;
    LowBits(x);
  }

  lemma LowBits(x: nat)
    ensures x % 0x1_0000_0000 % 256 == x % 256
    ensures x % 0x1_0000_0000 / 256 % 256 == x / 256 % 256
  {
    var q, r := x / 0x1_0000_0000, x % 0x1_0000_0000;
    var h, l := r / 256, r % 256;
    assert x == q * 0x1_0000_0000 + r && r == 256 * h + l;
    DivMod(q * 0x100_0000 + h, 256, l);
    assert x == (q * 0x100_0000 + h) * 256 + l;
    var m, n := h / 256, h % 256;
    DivMod(q * 0x1_0000 + m, 256, n);
    assert q * 0x100_0000 + h == (q * 0x1_0000 + m) * 256 + n;
  }

  lemma NextAt(flash: bool, a: nat, at: uint32, j: nat)
    requires at == (if flash then a + j / 2 else a + j) % 0x1_0000_0000
    ensures (if j % 2 == 1 || !flash then Increment(at) else at)
            == (if flash then a + (j + 1) / 2 else a + (j + 1)) % 0x1_0000_0000
  {}

  /** The paged loop, for flash and for EEPROM, sends exactly these frames and leaves the address behind the
      last byte. */
  lemma {:induction false} LoadPageFrames(size: nat, s: Isp, p: Polling, first: byte, flash: bool, pollValue: byte,
                                          a: nat, data: seq<byte>, j: nat)
    requires IspOk(size, s) && j <= |data|
    requires s.address == (if flash then a + j / 2 else a + j) % 0x1_0000_0000
    requires forall high: bool :: HighByte(p.load, high) == HighByte(first, high)
    ensures var r := LoadPage(size, s, p, flash, pollValue, data, j).0;
      && r.target.wire == s.target.wire + PageFrames(first, flash, a, data, j)
      && r.address == (if flash then a + |data| / 2 else a + |data|) % 0x1_0000_0000
    decreases |data| - j
  {
    hide Frame, HighByte, AddressHigh, AddressLow, Increment, SetBit, PageFrame;
    if j < |data| {
      var odd := j % 2 == 1;
      var load := HighByte(p.load, odd && flash);
      var t := Frame(size, s.target, load, AddressHigh(s.address), AddressLow(s.address), data[j]).1;
      var p1 := if p.pollAddress == 0 && data[j] != pollValue
                then Polling(load, s.address % 65536, if odd && flash then SetBit(p.read, 8) else p.read)
                else p.(load := load);
      var s1 := s.(target := t, address := if odd || !flash then Increment(s.address) else s.address);
      FrameAt(p.load, first, flash, a, s.address, data, j);
      NextAt(flash, a, s.address, j);
      forall high: bool ensures HighByte(load, high) == HighByte(first, high) {
        HighByteAgain(p.load, odd && flash, high);
      }
      LoadPageFrames(size, s1, p1, first, flash, pollValue, a, data, j + 1);
      assert s.target.wire + PageFrame(first, flash, a, data, j) + PageFrames(first, flash, a, data, j + 1)
          == s.target.wire + (PageFrame(first, flash, a, data, j) + PageFrames(first, flash, a, data, j + 1));
    } else {
      assert s.target.wire + [] == s.target.wire;
    }
  }

  /** What a paged programming command sends before it waits: the frames of its bytes, and the commit at the
      address that was loaded, if the mode asks for it. */
  lemma PagedFrames(size: nat, s: Isp, v2Command: byte, p: ProgramParams)
    requires IspOk(size, s) && ParamsOk(p) && p.bytesToWrite <= 256 && Bit(p.mode, 1)
    requires v2Command == CMD_PROGRAM_FLASH_ISP || v2Command == CMD_PROGRAM_EEPROM_ISP
    ensures var (r, reply) := Exec(size, s, Program(v2Command, p));
      var frames := PageFrames(p.commands[0], v2Command == CMD_PROGRAM_FLASH_ISP, s.address, p.data, 0);
      var commit := [p.commands[1], s.address / 256 % 256, s.address % 256, 0];
      if Bit(p.mode, 128) then s.target.wire + frames + commit <= r.target.wire
      else r.target.wire == s.target.wire + frames && reply == [v2Command, STATUS_CMD_OK]
  {
    hide LoadPage, WriteWordwise, WaitForProgComplete, Frame, PageFrames, Bit, SetBit, ClearBit, HighByte;
    var flash := v2Command == CMD_PROGRAM_FLASH_ISP;
    var pollValue := if flash then p.pollValue1 else p.pollValue2;
    var start := Polling(p.commands[0], 0, p.commands[2]);
    LoadPageFrames(size, s, start, p.commands[0], flash, pollValue, s.address, p.data, 0);
    if Bit(p.mode, 128) {
      var (s1, poll) := LoadPage(size, s, start, flash, pollValue, p.data, 0);
      var t := Frame(size, s1.target, p.commands[1], AddressHigh(s.address), AddressLow(s.address), 0x00).1;
      var mode := if poll.pollAddress == 0 then SetBit(ClearBit(p.mode, 32), 16) else p.mode;
      WaitSent(size, s1.(target := t), mode, poll.pollAddress, pollValue, poll.read);
    }
  }

  // ---- Where completion is polled -------------------------------------------------------------------

  /** Bytes that equal the poll value leave nothing to poll. */
  lemma {:induction false} NothingToPoll(size: nat, s: Isp, p: Polling, flash: bool, pollValue: byte, data: seq<byte>,
                                         j: nat)
    requires IspOk(size, s) && j <= |data| && forall k :: j <= k < |data| ==> data[k] == pollValue
    ensures var poll := LoadPage(size, s, p, flash, pollValue, data, j).1;
      poll.pollAddress == p.pollAddress && poll.read == p.read
    decreases |data| - j
  {
    hide Frame, HighByte, AddressHigh, AddressLow, Increment;
    if j < |data| {
      var odd := j % 2 == 1;
      var load := HighByte(p.load, odd && flash);
      var t := Frame(size, s.target, load, AddressHigh(s.address), AddressLow(s.address), data[j]).1;
      NothingToPoll(size, s.(target := t, address := if odd || !flash then Increment(s.address) else s.address),
                    p.(load := load), flash, pollValue, data, j + 1);
    }
  }

  /** Such a page is committed and not polled at all, whatever completion check the mode asks for. */
  lemma BlankNotPolled(size: nat, s: Isp, v2Command: byte, p: ProgramParams)
    requires IspOk(size, s) && ParamsOk(p) && p.bytesToWrite <= 256 && Bit(p.mode, 1) && Bit(p.mode, 128)
    requires v2Command == CMD_PROGRAM_FLASH_ISP || v2Command == CMD_PROGRAM_EEPROM_ISP
    requires var v := if v2Command == CMD_PROGRAM_FLASH_ISP then p.pollValue1 else p.pollValue2;
      forall k :: 0 <= k < |p.data| ==> p.data[k] == v
    ensures var (r, reply) := Exec(size, s, Program(v2Command, p));
      && r.target.wire
           == s.target.wire + PageFrames(p.commands[0], v2Command == CMD_PROGRAM_FLASH_ISP, s.address, p.data, 0)
              + [p.commands[1], s.address / 256 % 256, s.address % 256, 0]
      && reply == [v2Command, STATUS_CMD_OK]
  {
    hide LoadPage, WriteWordwise, WaitForProgComplete, Frame, PageFrames, Bit, SetBit, ClearBit, HighByte;
    var flash := v2Command == CMD_PROGRAM_FLASH_ISP;
    var pollValue := if flash then p.pollValue1 else p.pollValue2;
    var start := Polling(p.commands[0], 0, p.commands[2]);
    LoadPageFrames(size, s, start, p.commands[0], flash, pollValue, s.address, p.data, 0);
    NothingToPoll(size, s, start, flash, pollValue, p.data, 0);
    var (s1, poll) := LoadPage(size, s, start, flash, pollValue, p.data, 0);
    var t := Frame(size, s1.target, p.commands[1], AddressHigh(s.address), AddressLow(s.address), 0x00).1;
    TimedDelay(size, s1.(target := t), p.mode, poll.pollAddress, pollValue, poll.read);
  }

  lemma TimedDelay(size: nat, s: Isp, mode: byte, pollAddress: uint16, pollValue: byte, readCommand: byte)
    requires IspOk(size, s)
    ensures WaitForProgComplete(size, s, SetBit(ClearBit(mode, 32), 16), pollAddress, pollValue, readCommand)
         == (s, STATUS_CMD_OK)
  {
    hide WaitForProgComplete, SetBit, ClearBit, PollUntil, PollStatus;
    var m := SetBit(ClearBit(mode, 32), 16);
    SixteenSet(ClearBit(mode, 32));
    NotPolling(m);
    CompletionByMode(size, s, m, pollAddress, pollValue, readCommand);
  }

  lemma SixteenSet(mode: byte)
    ensures SetBit(mode, 16) / 16 % 2 == 1
  {}

  lemma NotPolling(mode: byte)
    requires mode / 16 % 2 == 1
    ensures mode % 128 - mode % 2 !in {0x04, 0x08, 0x20, 0x40}
  {
    var h, l := mode / 16, mode % 16;
    var q := h / 2;
    assert mode == 32 * q + 16 + l;
  }

  lemma NextPlace(flash: bool, a: nat, at: uint32, j: nat, n: nat)
    requires 0 < a && a + n < 65536 && j < n && at == if flash then a + j / 2 else a + j
    ensures (if j % 2 == 1 || !flash then Increment(at) else at) == (if flash then a + (j + 1) / 2 else a + (j + 1))
    ensures at % 65536 == at != 0
  {}

  /** Otherwise the first byte that differs from the poll value is polled: at its address, and in flash with the
      read command of its half of the word. */
  lemma {:induction false} PollPlace(size: nat, s: Isp, p: Polling, flash: bool, pollValue: byte, a: nat,
                                     data: seq<byte>, j: nat, k: nat)
    requires IspOk(size, s) && j <= k < |data| && 0 < a && a + |data| < 65536
    requires s.address == if flash then a + j / 2 else a + j
    requires p.pollAddress == 0 && data[k] != pollValue && forall i :: j <= i < k ==> data[i] == pollValue
    ensures var poll := LoadPage(size, s, p, flash, pollValue, data, j).1;
      && poll.pollAddress == (if flash then a + k / 2 else a + k)
      && poll.read == if flash && k % 2 == 1 then SetBit(p.read, 8) else p.read
    decreases |data| - j
  {
    hide Frame, HighByte, AddressHigh, AddressLow, SetBit, Increment;
    NextPlace(flash, a, s.address, j, |data|);
    var odd := j % 2 == 1;
    var load := HighByte(p.load, odd && flash);
    var t := Frame(size, s.target, load, AddressHigh(s.address), AddressLow(s.address), data[j]).1;
    var s1 := s.(target := t, address := if odd || !flash then Increment(s.address) else s.address);
    if j < k {
      PollPlace(size, s1, p.(load := load), flash, pollValue, a, data, j + 1, k);
    } else {
      PollSettled(size, s1, Polling(load, s.address % 65536, if odd && flash then SetBit(p.read, 8) else p.read), flash,
                  pollValue, data, j + 1);
    }
  }

  lemma {:induction false} PollSettled(size: nat, s: Isp, p: Polling, flash: bool, pollValue: byte, data: seq<byte>,
                                       j: nat)
    requires IspOk(size, s) && j <= |data| && p.pollAddress != 0
    ensures var poll := LoadPage(size, s, p, flash, pollValue, data, j).1;
      poll.pollAddress == p.pollAddress && poll.read == p.read
    decreases |data| - j
  {
    hide Frame, HighByte, AddressHigh, AddressLow, Increment;
    if j < |data| {
      var odd := j % 2 == 1;
      var load := HighByte(p.load, odd && flash);
      var t := Frame(size, s.target, load, AddressHigh(s.address), AddressLow(s.address), data[j]).1;
      PollSettled(size, s.(target := t, address := if odd || !flash then Increment(s.address) else s.address),
                  p.(load := load), flash, pollValue, data, j + 1);
    }
  }

  // ---- The other commands ------------------------------------------------------------------------------

  /** Four bytes as a number, the most significant one first. */
  function Number(b: seq<byte>): int
    requires |b| == 4
  {
    var b0: int, b1: int, b2: int, b3: int := b[0], b[1], b[2], b[3];
    ((b0 * 256 + b1) * 256 + b2) * 256 + b3
  }

  /** An address is loaded most significant byte first; when its top bit is set, bits 16 to 23 go to the target. */
  lemma AddressSent(size: nat, s: Isp, b: seq<byte>)
    requires IspOk(size, s) && |b| == 4
    ensures var (r, reply) := Exec(size, s, LoadAddress(b));
      && r.address == Number(b)
      && r.target.wire == s.target.wire + (if b[0] >= 0x80 then [LOAD_EXTENDED, 0x00, b[1], 0x00] else [])
      && reply == [CMD_LOAD_ADDRESS, STATUS_CMD_OK]
  {
    hide Frame;
    NumberBytes(b);
    assert s.target.wire + [] == s.target.wire;
  }

  lemma NumberBytes(b: seq<byte>)
    requires |b| == 4
    ensures BigEndian(b) == Number(b) && BigEndian(b) / 65536 % 256 == b[1]
    ensures BigEndian(b) >= 0x8000_0000 <==> b[0] >= 0x80
  {
    var high: int, low: int := Word(b[1], b[0]), Word(b[3], b[2]);
    DivMod(high, 65536, low);
    DivMod(b[0], 256, b[1]);
  }

  /** A programming command for more than 256 bytes is refused before anything is sent. */
  lemma TooLongRefused(size: nat, s: Isp, v2Command: byte, p: ProgramParams)
    requires IspOk(size, s) && ParamsOk(p) && p.bytesToWrite > 256
    requires v2Command == CMD_PROGRAM_FLASH_ISP || v2Command == CMD_PROGRAM_EEPROM_ISP
    ensures Exec(size, s, Program(v2Command, p)) == (s, [v2Command, STATUS_CMD_FAILED])
  {
    hide LoadPage, WriteWordwise, WaitForProgComplete, Frame;
  }

  /** A chip erase sends its four bytes; with a poll method of 0 it is then done, with any other it polls the
      busy flag and reports how that ended. */
  lemma ChipEraseSent(size: nat, s: Isp, pollMethod: byte, b: seq<byte>)
    requires IspOk(size, s) && |b| == 4
    ensures var (r, reply) := Exec(size, s, ChipErase(pollMethod, b));
      var s1 := s.(target := Exchange(size, s.target, b).1);
      var (polled, status) := PollStatus(PollUntil(size, s1, [0xF0, 0, 0, 0], Idle), 0x81);
      && s1.target.wire == s.target.wire + b
      && (if pollMethod == 0 then r == s1 && reply == [CMD_CHIP_ERASE_ISP, STATUS_CMD_OK]
          else r == polled && reply == [CMD_CHIP_ERASE_ISP, status])
  {
    hide Exchange, PollUntil;
    ExchangeSends(size, s.target, b);
  }

  /** A fuse or lock bit write sends its four bytes and always reports success. */
  lemma ConfigWritten(size: nat, s: Isp, v2Command: byte, b: seq<byte>)
    requires IspOk(size, s) && |b| == 4
    ensures var (r, reply) := Exec(size, s, WriteConfig(v2Command, b));
      r.target.wire == s.target.wire + b && reply == [v2Command, STATUS_CMD_OK, STATUS_CMD_OK]
  {
    hide Exchange;
    ExchangeSends(size, s.target, b);
  }

  /** The four bytes, `k` times over. */
  function Repeated(b: seq<byte>, k: nat): seq<byte> { if k == 0 then [] else b + Repeated(b, k - 1) }

  lemma {:induction false} AfterSends(size: nat, t: Target, b: seq<byte>, k: nat)
    requires TargetOk(size, t)
    ensures After(size, t, b, k).wire == t.wire + Repeated(b, k)
    decreases k
  {
    hide Exchange, TargetOk;
    if k > 0 {
      ExchangeSends(size, t, b);
      AfterSends(size, Exchange(size, t, b).1, b, k - 1);
      assert t.wire + b + Repeated(b, k - 1) == t.wire + (b + Repeated(b, k - 1));
    } else {
      assert t.wire + [] == t.wire;
    }
  }

  /** ENTER_PROGMODE resets the address, repeats its four bytes up to the first attempt in sync, and reports
      failure if and only if there was none among the allowed ones. */
  lemma EnterSent(size: nat, s: Isp, loops: byte, pollValue: byte, pollIndex: byte, b: seq<byte>) returns (k: nat)
    requires IspOk(size, s) && |b| == 4
    ensures k <= loops && forall j: nat :: j < k ==> !InSync(size, s.target, pollValue, pollIndex, b, j)
    ensures k < loops ==> InSync(size, s.target, pollValue, pollIndex, b, k)
    ensures var (r, reply) := Exec(size, s, EnterProgMode(loops, pollValue, pollIndex, b));
      && r.address == 0 && r.target.wire == s.target.wire + Repeated(b, if k < loops then k + 1 else loops)
      && reply == [CMD_ENTER_PROGMODE_ISP, if k < loops then STATUS_CMD_OK else STATUS_CMD_FAILED]
  {
    hide Exchange, After, Repeated, InSync, Synchronise;
    k := SynchroniseFirst(size, s.target, loops, pollValue, pollIndex, b);
    AfterSends(size, s.target, b, if k < loops then k + 1 else loops);
  }
}
