/** What the SPI traffic of the programmer amounts to: whole frames, and pages that read back. */
module IspTransfer {
  import opened Usb
  import opened AvrFlash
  import opened SpiTarget
  import opened IspSpec

  // ---- Frame alignment -----------------------------------------------------------------------

  ghost predicate Fourfold(n: int) { n % 4 == 0 }

  /** From `t` to `u` the target received more bytes, `n` of them up to whole frames, and the frame
      it is in has moved on as far. */
  ghost predicate Sent(t: Target, u: Target, n: int) {
    && |t.wire| <= |u.wire| && u.wire[..|t.wire|] == t.wire
    && Fourfold(|u.wire| - |t.wire| - n) && Fourfold(|u.frame| - |t.frame| - n)
  }

  lemma FourfoldZero()
    ensures Fourfold(0)
  {}

  lemma FourfoldFour(n: int)
    ensures n == 4 ==> Fourfold(n)
  {}

  lemma FourfoldSum(a: int, b: int)
    requires Fourfold(a) && Fourfold(b)
    ensures Fourfold(a + b)
  {}

  lemma SentNothing(t: Target)
    ensures Sent(t, t, 0)
  {}

  lemma SentThen(t: Target, u: Target, v: Target, n: int, m: int)
    requires Sent(t, u, n) && Sent(u, v, m)
    ensures Sent(t, v, n + m)
  {
    hide Fourfold;
    assert v.wire[..|u.wire|][..|t.wire|] == v.wire[..|t.wire|];
    FourfoldSum(|u.wire| - |t.wire| - n, |v.wire| - |u.wire| - m);
    FourfoldSum(|u.frame| - |t.frame| - n, |v.frame| - |u.frame| - m);
  }

  lemma FrameAdvances(size: nat, t: Target, v: byte)
    requires TargetOk(size, t)
    ensures var u := Transfer(size, t, v).1; |u.frame| == if |t.frame| == 3 then 0 else |t.frame| + 1
  {
    hide Execute, ReadCell, FrameByte;
  }

  lemma FrameSent(size: nat, t: Target, a: byte, b: byte, c: byte, d: byte)
    requires TargetOk(size, t)
    ensures Sent(t, Frame(size, t, a, b, c, d).1, 0)
  {
    hide Transfer;
    var t1 := Transfer(size, t, a).1;
    var t2 := Transfer(size, t1, b).1;
    var t3 := Transfer(size, t2, c).1;
    FrameAdvances(size, t, a);
    FrameAdvances(size, t1, b);
    FrameAdvances(size, t2, c);
    FrameAdvances(size, t3, d);
    assert |Transfer(size, t3, d).1.wire| - |t.wire| - 0 == 4;
  }

  lemma {:induction false} PollSent(size: nat, s: Isp, frame: seq<byte>, awaited: Awaited)
    requires IspOk(size, s) && |frame| == 4
    ensures Sent(s.target, PollUntil(size, s, frame, awaited).target, 0)
    decreases |s.ticks|
  {
    hide Frame, Sent;
    var (answer, t) := Frame(size, s.target, frame[0], frame[1], frame[2], frame[3]);
    FrameSent(size, s.target, frame[0], frame[1], frame[2], frame[3]);
    if !Accepts(awaited, answer) && Tick(s.ticks) < TARGET_BUSY_TIMEOUT_MS && s.ticks != [] {
      var s2 := s.(target := t, ticks := TickDone(s.ticks));
      PollSent(size, s2, frame, awaited);
      SentThen(s.target, t, PollUntil(size, s2, frame, awaited).target, 0, 0);
    }
  }

  lemma WaitSent(size: nat, s: Isp, mode: byte, pollAddress: uint16, pollValue: byte, readCommand: byte)
    requires IspOk(size, s)
    ensures Sent(s.target, WaitForProgComplete(size, s, mode, pollAddress, pollValue, readCommand).0.target, 0)
    ensures Sent(s.target, WaitWhileTargetBusy(size, s).0.target, 0)
  {
    hide Sent, PollUntil, CompletionMode;
    PollSent(size, s, [readCommand, High(pollAddress), Low(pollAddress), 0x00], Value(pollValue));
    PollSent(size, s, [0xF0, 0x00, 0x00, 0x00], Idle);
    SentNothing(s.target);
  }

  lemma {:induction false} LoadPageSent(size: nat, s: Isp, p: Polling, flash: bool, pollValue: byte, data: seq<byte>,
                                        i: nat)
    requires IspOk(size, s) && i <= |data|
    ensures Sent(s.target, LoadPage(size, s, p, flash, pollValue, data, i).0.target, 0)
    decreases |data| - i
  {
    hide Sent, Frame, HighByte, SetBit;
    if i == |data| {
      SentNothing(s.target);
    } else {
      var odd := i % 2 == 1;
      var load := HighByte(p.load, odd && flash);
      var t := Frame(size, s.target, load, AddressHigh(s.address), AddressLow(s.address), data[i]).1;
      var p1 := if p.pollAddress == 0 && data[i] != pollValue
                then Polling(load, s.address % 65536, if odd && flash then SetBit(p.read, 8) else p.read)
                else p.(load := load);
      var s1 := s.(target := t, address := if odd || !flash then Increment(s.address) else s.address);
      FrameSent(size, s.target, load, AddressHigh(s.address), AddressLow(s.address), data[i]);
      LoadPageSent(size, s1, p1, flash, pollValue, data, i + 1);
      SentThen(s.target, t, LoadPage(size, s1, p1, flash, pollValue, data, i + 1).0.target, 0, 0);
    }
  }

  lemma {:induction false} WriteWordwiseSent(size: nat, s: Isp, p: Polling, flash: bool, mode: byte, pollValue: byte,
                                             data: seq<byte>, i: nat)
    requires IspOk(size, s) && i <= |data|
    ensures Sent(s.target, WriteWordwise(size, s, p, flash, mode, pollValue, data, i).0.target, 0)
    decreases |data| - i
  {
    hide Sent, Frame, HighByte, SetBit, WaitForProgComplete;
    if i == |data| {
      SentNothing(s.target);
    } else {
      var odd := i % 2 == 1;
      var load := HighByte(p.load, false);
      var t := Frame(size, s.target, load, AddressHigh(s.address), AddressLow(s.address), data[i]).1;
      var p1 := if data[i] != pollValue
                then Polling(load, s.address % 65536, if odd && flash then SetBit(p.read, 8) else p.read)
                else p.(load := load);
      var s1 := s.(target := t, address := if odd || !flash then Increment(s.address) else s.address);
      FrameSent(size, s.target, load, AddressHigh(s.address), AddressLow(s.address), data[i]);
      var (s2, status) := WaitForProgComplete(size, s1, mode, p1.pollAddress, pollValue, p1.read);
      WaitSent(size, s1, mode, p1.pollAddress, pollValue, p1.read);
      SentThen(s.target, t, s2.target, 0, 0);
      if status == STATUS_CMD_OK {
        WriteWordwiseSent(size, s2, p1, flash, mode, pollValue, data, i + 1);
        SentThen(s.target, s2.target, WriteWordwise(size, s2, p1, flash, mode, pollValue, data, i + 1).0.target, 0, 0);
      }
    }
  }

  lemma ProgramSent(size: nat, s: Isp, v2Command: byte, p: ProgramParams)
    requires IspOk(size, s) && ParamsOk(p)
    ensures Sent(s.target, ProgramMemory(size, s, v2Command, p).0.target, 0)
  {
    hide Sent, Frame, SetBit, ClearBit, Bit, LoadPage, WriteWordwise, WaitForProgComplete;
    var flash := v2Command == CMD_PROGRAM_FLASH_ISP;
    var pollValue := if flash then p.pollValue1 else p.pollValue2;
    var start := Polling(p.commands[0], 0, p.commands[2]);
    SentNothing(s.target);
    if p.bytesToWrite <= 256 {
      if Bit(p.mode, 1) {
        var (s1, poll) := LoadPage(size, s, start, flash, pollValue, p.data, 0);
        LoadPageSent(size, s, start, flash, pollValue, p.data, 0);
        if Bit(p.mode, 128) {
          var t := Frame(size, s1.target, p.commands[1], AddressHigh(s.address), AddressLow(s.address), 0x00).1;
          FrameSent(size, s1.target, p.commands[1], AddressHigh(s.address), AddressLow(s.address), 0x00);
          var mode := if poll.pollAddress == 0 then SetBit(ClearBit(p.mode, 32), 16) else p.mode;
          WaitSent(size, s1.(target := t), mode, poll.pollAddress, pollValue, poll.read);
          SentThen(s.target, s1.target, t, 0, 0);
          SentThen(s.target, t,
                   WaitForProgComplete(size, s1.(target := t), mode, poll.pollAddress, pollValue, poll.read).0.target,
                       0, 0);
        }
      } else {
        WriteWordwiseSent(size, s, start, flash, p.mode, pollValue, p.data, 0);
      }
    }
  }

  lemma {:induction false} ReadSent(size: nat, s: Isp, flash: bool, command: byte, count: nat, i: nat)
    requires IspOk(size, s) && i <= count
    ensures Sent(s.target, ReadBytes(size, s, flash, command, count, i).0.target, 0)
    decreases count - i
  {
    hide Sent, Frame, HighByte;
    if i == count {
      SentNothing(s.target);
    } else {
      var odd := i % 2 == 1;
      var load := HighByte(command, odd && flash);
      var t := Frame(size, s.target, load, AddressHigh(s.address), AddressLow(s.address), 0x00).1;
      var s1 := s.(target := t, address := if odd || !flash then Increment(s.address) else s.address);
      FrameSent(size, s.target, load, AddressHigh(s.address), AddressLow(s.address), 0x00);
      ReadSent(size, s1, flash, load, count, i + 1);
      SentThen(s.target, t, ReadBytes(size, s1, flash, load, count, i + 1).0.target, 0, 0);
    }
  }

  /** A string of bytes arrives as it is. */
  lemma {:induction false} ExchangeSends(size: nat, t: Target, bytes: seq<byte>)
    requires TargetOk(size, t)
    ensures Exchange(size, t, bytes).1.wire == t.wire + bytes
    ensures Fourfold(|Exchange(size, t, bytes).1.frame| - |t.frame| - |bytes|)
    decreases |bytes|
  {
    hide Transfer;
    if bytes == [] {
      assert t.wire + bytes == t.wire;
    } else {
      var n := |bytes| - 1;
      ExchangeSends(size, t, bytes[..n]);
      FrameAdvances(size, Exchange(size, t, bytes[..n]).1, bytes[n]);
      assert bytes == bytes[..n] + [bytes[n]];
      assert t.wire + bytes[..n] + [bytes[n]] == t.wire + bytes;
    }
  }

  lemma ExchangeSent(size: nat, t: Target, bytes: seq<byte>)
    requires TargetOk(size, t)
    ensures Sent(t, Exchange(size, t, bytes).1, |bytes|)
  {
    hide Exchange, Fourfold, TargetOk;
    ExchangeSends(size, t, bytes);
    var u := Exchange(size, t, bytes).1;
    Prefix(t.wire, bytes);
    assert |u.wire| - |t.wire| - |bytes| == 0;
    FourfoldZero();
  }

  lemma Prefix(s: seq<byte>, more: seq<byte>)
    ensures (s + more)[..|s|] == s && |s + more| == |s| + |more|
  {}

  lemma {:induction false} SynchroniseSent(size: nat, t: Target, loops: byte, pollValue: byte, pollIndex: byte,
                                           bytes: seq<byte>)
    requires TargetOk(size, t) && |bytes| == 4
    ensures Sent(t, Synchronise(size, t, loops, pollValue, pollIndex, bytes).1, 0)
    decreases loops
  {
    hide Sent, Exchange, AnswerAt;
    SentNothing(t);
    if loops > 0 {
      var (answers, t1) := Exchange(size, t, bytes);
      FourSent(size, t, bytes);
      if !(pollIndex == 0 || AnswerAt(answers, pollIndex) == pollValue) {
        SynchroniseSent(size, t1, loops - 1, pollValue, pollIndex, bytes);
        SentThen(t, t1, Synchronise(size, t1, loops - 1, pollValue, pollIndex, bytes).1, 0, 0);
      }
    }
  }

  lemma FourSent(size: nat, t: Target, bytes: seq<byte>)
    requires TargetOk(size, t) && |bytes| == 4
    ensures Sent(t, Exchange(size, t, bytes).1, 0)
  {
    hide Exchange, Fourfold;
    ExchangeSends(size, t, bytes);
    FourfoldFour(|bytes|);
    FourfoldSum(|Exchange(size, t, bytes).1.frame| - |t.frame| - |bytes|, |bytes|);
  }

  /** How far a command takes the target off the frame boundary: only SPI_MULTI can. */
  function Excess(c: Command): nat { if c.SpiMulti? then c.rxStart + c.rxBytes else 0 }

  function TotalExcess(cs: seq<Command>): nat { if cs == [] then 0 else Excess(cs[0]) + TotalExcess(cs[1..]) }

  lemma CommandSent(size: nat, s: Isp, c: Command)
    requires IspOk(size, s) && CommandOk(c)
    ensures Sent(s.target, Exec(size, s, c).0.target, Excess(c))
  {
    hide Sent, Frame, Exchange, Synchronise, ReadBytes, ProgramMemory, WaitWhileTargetBusy, Padded, BigEndian, AnswerAt;
    match c
    case LoadAddress(b) =>
      SentNothing(s.target);
      FrameSent(size, s.target, LOAD_EXTENDED, 0x00, BigEndian(b) / 65536 % 256, 0x00);
    case EnterProgMode(loops, v, i, b) => SynchroniseSent(size, s.target, loops, v, i, b);
    case Program(v, p) => ProgramSent(size, s, v, p);
    case Read(v, n, command) => ReadSent(size, s, v == CMD_READ_FLASH_ISP, command, n, 0);
    case ChipErase(pollMethod, b) =>
      FourSent(size, s.target, b);
      var s1 := s.(target := Exchange(size, s.target, b).1);
      WaitSent(size, s1, 0, 0, 0, 0);
      SentThen(s.target, s1.target, WaitWhileTargetBusy(size, s1).0.target, 0, 0);
    case ReadConfig(v, position, b) => FourSent(size, s.target, b);
    case WriteConfig(v, b) => FourSent(size, s.target, b);
    case SpiMulti(rxBytes, rxStart, tx) => ExchangeSent(size, s.target, Padded(tx, rxStart + rxBytes));
  }

  lemma {:induction false} RunSent(size: nat, s: Isp, cs: seq<Command>)
    requires IspOk(size, s) && forall c :: c in cs ==> CommandOk(c)
    ensures Sent(s.target, ExecAll(size, s, cs).target, TotalExcess(cs))
    decreases |cs|
  {
    hide Sent, Exec, Excess, CommandOk, IspOk;
    if cs == [] {
      SentNothing(s.target);
    } else {
      var s1 := Exec(size, s, cs[0]).0;
      CommandSent(size, s, cs[0]);
      RunSent(size, s1, cs[1..]);
      SentThen(s.target, s1.target, ExecAll(size, s1, cs[1..]).target, Excess(cs[0]), TotalExcess(cs[1..]));
    }
  }

  /** Every command but SPI_MULTI sends whole frames, whatever it retries, polls or breaks off: a run
      from a frame boundary ends on one exactly when its SPI_MULTIs add up to whole frames. */
  lemma FramesAlignedIff(size: nat, s: Isp, cs: seq<Command>)
    requires IspOk(size, s) && s.target.frame == [] && forall c :: c in cs ==> CommandOk(c)
    ensures var t := ExecAll(size, s, cs).target;
      && (t.frame == [] <==> Fourfold(TotalExcess(cs)))
      && (Fourfold(|t.wire| - |s.target.wire|) <==> Fourfold(TotalExcess(cs)))
  {
    hide ExecAll, TotalExcess, Fourfold;
    RunSent(size, s, cs);
    var t, n := ExecAll(size, s, cs).target, TotalExcess(cs);
    Shifted(|t.wire| - |s.target.wire|, n);
    Shifted(|t.frame|, n);
    OnBoundary(|t.frame|);
  }

  lemma Shifted(x: int, n: int)
    requires Fourfold(x - n)
    ensures Fourfold(x) <==> Fourfold(n)
  {}

  lemma OnBoundary(f: nat)
    requires f < 4
    ensures Fourfold(f) <==> f == 0
  {}

  lemma {:induction false} WithoutMulti(cs: seq<Command>)
    requires forall c :: c in cs ==> !c.SpiMulti?
    ensures TotalExcess(cs) == 0
  {
    if cs != [] { WithoutMulti(cs[1..]); }
  }

  /** Without SPI_MULTI every run consists of whole frames. */
  lemma FramesAligned(size: nat, s: Isp, cs: seq<Command>)
    requires IspOk(size, s) && s.target.frame == []
    requires forall c :: c in cs ==> CommandOk(c) && !c.SpiMulti?
    ensures var t := ExecAll(size, s, cs).target; t.frame == [] && Fourfold(|t.wire| - |s.target.wire|)
  {
    WithoutMulti(cs);
    FramesAlignedIff(size, s, cs);
  }

  // ---- SPI_MULTI ----------------------------------------------------------------------------------

  /** What the target says to byte `i` after the bytes before it. */
  function AnswerTo(size: nat, t: Target, bytes: seq<byte>, i: nat): byte
    requires TargetOk(size, t) && i < |bytes|
  {
    Transfer(size, Exchange(size, t, bytes[..i]).1, bytes[i]).0
  }

  lemma {:induction false} ExchangeAnswers(size: nat, t: Target, bytes: seq<byte>, i: nat)
    requires TargetOk(size, t) && i < |bytes|
    ensures Exchange(size, t, bytes).0[i] == AnswerTo(size, t, bytes, i)
    decreases |bytes|
  {
    hide Transfer;
    var n := |bytes| - 1;
    if i < n {
      ExchangeAnswers(size, t, bytes[..n], i);
      assert bytes[..n][..i] == bytes[..i];
    }
  }

  /** SPI_MULTI sends exactly RxStartAddr + RxBytes bytes, the host's or zeros, and replies with the
      answers from RxStartAddr on; the reply fits into its one packet exactly when RxBytes is at most 61. */
  lemma MultiExact(size: nat, s: Isp, rxBytes: byte, rxStart: byte, tx: seq<byte>)
    requires IspOk(size, s) && |tx| <= 255
    ensures var (s1, reply) := Exec(size, s, SpiMulti(rxBytes, rxStart, tx));
      var before, sent := |s.target.wire|, Padded(tx, rxStart + rxBytes);
      && |s1.target.wire| == before + rxStart + rxBytes
      && s1.target.wire[..before] == s.target.wire
      && (forall i :: 0 <= i < rxStart + rxBytes ==> s1.target.wire[before + i] == if i < |tx| then tx[i] else 0)
      && |reply| == rxBytes + 3
      && (forall i :: rxStart <= i < rxStart + rxBytes ==>
            reply[2 + i - rxStart] == AnswerTo(size, s.target, sent, i))
      && (Kept(reply) == reply <==> rxBytes <= 61)
  {
    hide Exchange, Transfer, AnswerTo;
    var bytes := Padded(tx, rxStart + rxBytes);
    ExchangeSends(size, s.target, bytes);
    var answers := Exchange(size, s.target, bytes).0;
    var (s1, reply) := Exec(size, s, SpiMulti(rxBytes, rxStart, tx));
    forall i | rxStart <= i < rxStart + rxBytes
      ensures reply[2 + i - rxStart] == AnswerTo(size, s.target, bytes, i)
    {
      ExchangeAnswers(size, s.target, bytes, i);
    }
    assert Kept(reply) == reply <==> |reply| <= AVRISP_DATA_EPSIZE;
  }

  // ---- Synchronisation --------------------------------------------------------------------------------

  /** The target after the enter-programming bytes have been sent `k` times. */
  function After(size: nat, t: Target, bytes: seq<byte>, k: nat): (u: Target)
    requires TargetOk(size, t)
    ensures TargetOk(size, u)
    decreases k
  {
    if k == 0 then t else After(size, Exchange(size, t, bytes).1, bytes, k - 1)
  }

  /** Attempt `k`, counted from 0, is accepted: nothing is polled, or the target's answer to byte `pollIndex`,
      counted from 1, is the one expected.  An index behind the four answers reads as 0. */
  predicate InSync(size: nat, t: Target, pollValue: byte, pollIndex: byte, bytes: seq<byte>, k: nat)
    requires TargetOk(size, t) && |bytes| == 4
  {
    || pollIndex == 0
    || (if pollIndex <= 4 then AnswerTo(size, After(size, t, bytes, k), bytes, pollIndex - 1) else 0) == pollValue
  }

  /** The answer at a position counted from 1. */
  lemma AnswerPicked(size: nat, t: Target, bytes: seq<byte>, position: byte)
    requires TargetOk(size, t) && |bytes| == 4
    ensures AnswerAt(Exchange(size, t, bytes).0, position)
            == if 1 <= position <= 4 then AnswerTo(size, t, bytes, position - 1) else 0
  {
    hide Exchange, AnswerTo;
    if 1 <= position <= 4 { ExchangeAnswers(size, t, bytes, position - 1); }
  }

  /** A configuration read sends its four bytes and replies with the target's answer to the byte at the
      position asked for. */
  lemma ConfigExact(size: nat, s: Isp, v2Command: byte, position: byte, bytes: seq<byte>)
    requires IspOk(size, s) && |bytes| == 4 && 1 <= position <= 4
    ensures var (s1, reply) := Exec(size, s, ReadConfig(v2Command, position, bytes));
      && reply == [v2Command, STATUS_CMD_OK, AnswerTo(size, s.target, bytes, position - 1), STATUS_CMD_OK]
      && s1.target.wire == s.target.wire + bytes && s1.address == s.address
  {
    hide Exchange, AnswerTo, AnswerAt;
    AnswerPicked(size, s.target, bytes, position);
    ExchangeSends(size, s.target, bytes);
  }

  /** ENTER_PROGMODE repeats its bytes up to and including the first attempt in sync, and fails if and
      only if none of the allowed attempts is. */
  lemma {:induction false} SynchroniseFirst(size: nat, t: Target, loops: byte, pollValue: byte, pollIndex: byte,
                                            bytes: seq<byte>) returns (k: nat)
    requires TargetOk(size, t) && |bytes| == 4
    ensures var (status, u) := Synchronise(size, t, loops, pollValue, pollIndex, bytes);
      && k <= loops
      && (forall j: nat :: j < k ==> !InSync(size, t, pollValue, pollIndex, bytes, j))
      && (k < loops ==> status == STATUS_CMD_OK && u == After(size, t, bytes, k + 1))
      && (k < loops ==> InSync(size, t, pollValue, pollIndex, bytes, k))
      && (k == loops ==> status == STATUS_CMD_FAILED && u == After(size, t, bytes, loops))
    decreases loops
  {
    hide Exchange, AnswerAt, AnswerTo, TargetOk;
    k := 0;
    if loops > 0 {
      AnswerPicked(size, t, bytes, pollIndex);
      var t1 := Exchange(size, t, bytes).1;
      assert After(size, t, bytes, 1) == After(size, t1, bytes, 0) == t1;
      if !InSync(size, t, pollValue, pollIndex, bytes, 0) {
        k := SynchroniseFirst(size, t1, loops - 1, pollValue, pollIndex, bytes);
        forall j: nat | j < k + 1 ensures !InSync(size, t, pollValue, pollIndex, bytes, j) {
          if j > 0 { SyncLater(size, t, pollValue, pollIndex, bytes, j); }
        }
        SyncLater(size, t, pollValue, pollIndex, bytes, k + 1);
        k := k + 1;
      }
    }
  }

  lemma SyncLater(size: nat, t: Target, pollValue: byte, pollIndex: byte, bytes: seq<byte>, j: nat)
    requires TargetOk(size, t) && |bytes| == 4 && j > 0
    ensures InSync(size, t, pollValue, pollIndex, bytes, j)
            == InSync(size, Exchange(size, t, bytes).1, pollValue, pollIndex, bytes, j - 1)
  {
    hide Exchange, AnswerTo, TargetOk;
  }
}
