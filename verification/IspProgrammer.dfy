/** The V2 protocol handlers themselves: CurrentAddress, the SPI link and the loops over both. */
module IspProgrammer {
  import opened Usb
  import opened AvrFlash
  import opened SpiTarget
  import opened IspSpec

  /** A bank sent as soon as it is full still counts as written. */
  lemma WroteEagerly(size: nat, t0: InPipe, t1: InPipe, bytes: seq<byte>)
    requires Wrote(size, t0, t1, bytes) && |t1.bank| == size
    ensures Wrote(size, t0, Send(t1), bytes)
  {
    var n := |t0.sent|;
    assert Send(t1).sent[n..] == t1.sent[n..] + [t1.bank];
    assert Send(t1).sent[..n] == t1.sent[..n];
    FlattenConcat(t1.sent[n..], [t1.bank]);
    FlattenOne(t1.bank);
    assert Flatten(Send(t1).sent[n..]) + [] == Flatten(Send(t1).sent[n..]);
  }

  class Programmer {
    /** The target's page size; the programmer itself does not know it. */
    const pageSize: nat

    var CurrentAddress: uint32
    var target: Target
    var TCNT0: seq<byte>
    var tx: InPipe

    ghost function State(): Isp
      reads this
    {
      Isp(CurrentAddress, target, TCNT0)
    }

    ghost predicate Valid()
      reads this
    {
      IspOk(pageSize, State()) && tx.bank == []
    }

    constructor (pageSize: nat, target: Target, timer: seq<byte>)
      requires TargetOk(pageSize, target)
      ensures Valid() && this.pageSize == pageSize
      ensures State() == Isp(0, target, timer) && tx == InPipe([], [])
    {
      this.pageSize := pageSize;
      this.target := target;
      CurrentAddress, TCNT0, tx := 0, timer, InPipe([], []);
    }

    // ---- The SPI link, the timer and the endpoint -------------------------------------------

    method SPI_TransferByte(v: byte) returns (answer: byte)
      requires TargetOk(pageSize, target)
      modifies this`target
      ensures (answer, target) == Transfer(pageSize, old(target), v)
    {
      var r := Transfer(pageSize, target, v);
      answer, target := r.0, r.1;
    }

    method SPI_SendByte(v: byte)
      requires TargetOk(pageSize, target)
      modifies this`target
      ensures target == Transfer(pageSize, old(target), v).1
    {
      var unused := SPI_TransferByte(v);
    }

    method SPI_ReceiveByte() returns (answer: byte)
      requires TargetOk(pageSize, target)
      modifies this`target
      ensures (answer, target) == Transfer(pageSize, old(target), 0x00)
    {
      answer := SPI_TransferByte(0x00);
    }

    method ReadTimer() returns (v: byte)
      modifies this`TCNT0
      ensures v == Tick(old(TCNT0)) && TCNT0 == TickDone(old(TCNT0))
    {
      v, TCNT0 := Tick(TCNT0), TickDone(TCNT0);
    }

    method Endpoint_Write_Byte(v: byte)
      modifies this`tx
      ensures tx == old(tx).(bank := if |old(tx.bank)| < AVRISP_DATA_EPSIZE then old(tx.bank) + [v] else old(tx.bank))
    {
      if |tx.bank| < AVRISP_DATA_EPSIZE { tx := tx.(bank := tx.bank + [v]); }
    }

    /** The reply has gone out as one packet. */
    twostate predicate Replied(reply: seq<byte>)
      reads this
    {
      tx == InPipe([], old(tx.sent) + [Kept(reply)])
    }

    // ---- V2ProtocolTarget.c ------------------------------------------------------------------

    method LoadExtended()
      requires IspOk(pageSize, State())
      modifies this`target
      ensures State() == LoadExtendedAddress(pageSize, old(State()))
    {
      hide Transfer;
      SPI_SendByte(0x4D);
      SPI_SendByte(0x00);
      SPI_SendByte(CurrentAddress / 65536 % 256);
      SPI_SendByte(0x00);
    }

    method WaitWhileBusy() returns (status: byte)
      requires IspOk(pageSize, State())
      modifies this`target, this`TCNT0
      ensures (State(), status) == WaitWhileTargetBusy(pageSize, old(State()))
    {
      hide Transfer;
      ghost var frame: seq<byte> := [0xF0, 0x00, 0x00, 0x00];
      var again := true;
      while again
        invariant IspOk(pageSize, State())
        invariant PollUntil(pageSize, old(State()), frame, Idle)
               == if again then PollUntil(pageSize, State(), frame, Idle) else State()
        decreases |TCNT0| + if again then 1 else 0
      {
        SPI_SendByte(0xF0);
        SPI_SendByte(0x00);
        SPI_SendByte(0x00);
        var answer := SPI_ReceiveByte();
        again := answer % 2 == 1;
        if again {
          var now := ReadTimer();
          again := now < TARGET_BUSY_TIMEOUT_MS;
        }
      }
      var now := ReadTimer();
      status := if now >= TARGET_BUSY_TIMEOUT_MS then STATUS_RDY_BSY_TOUT else STATUS_CMD_OK;
    }

    method WaitForComplete(mode: byte, pollAddress: uint16, pollValue: byte, readCommand: byte) returns (status: byte)
      requires IspOk(pageSize, State())
      modifies this`target, this`TCNT0
      ensures (State(), status)
              == WaitForProgComplete(pageSize, old(State()), mode, pollAddress, pollValue, readCommand)
    {
      hide Transfer, WaitWhileTargetBusy, ClearBit;
      status := STATUS_CMD_OK;
      var m := CompletionMode(mode);
      if m == 4 || m == 32 {
        ghost var frame := [readCommand, High(pollAddress), Low(pollAddress), 0x00];
        var again := true;
        while again
          invariant IspOk(pageSize, State())
          invariant PollUntil(pageSize, old(State()), frame, Value(pollValue))
                 == if again then PollUntil(pageSize, State(), frame, Value(pollValue)) else State()
          decreases |TCNT0| + if again then 1 else 0
        {
          SPI_SendByte(readCommand);
          SPI_SendByte(High(pollAddress));
          SPI_SendByte(Low(pollAddress));
          var answer := SPI_TransferByte(0x00);
          again := answer != pollValue;
          if again {
            var now := ReadTimer();
            again := now < TARGET_BUSY_TIMEOUT_MS;
          }
        }
        var now := ReadTimer();
        if now >= TARGET_BUSY_TIMEOUT_MS { status := STATUS_CMD_TOUT; }
      } else if m == 8 || m == 64 {
        status := WaitWhileBusy();
      }
    }

    // ---- V2Protocol.c -------------------------------------------------------------------------

    method Reply2(command: byte, status: byte)
      requires tx.bank == []
      modifies this`tx
      ensures Replied([command, status])
    {
      Endpoint_Write_Byte(command);
      Endpoint_Write_Byte(status);
      assert tx.bank == [command, status];
      tx := Send(tx);
    }

    method SetAddress(bytes: seq<byte>)
      requires Valid() && |bytes| == 4
      modifies this
      ensures Valid()
      ensures var (s, reply) := Exec(pageSize, old(State()), LoadAddress(bytes));
        State() == s && Replied(reply)
    {
      CurrentAddress := BigEndian(bytes);
      if CurrentAddress >= 0x8000_0000 { LoadExtended(); }
      Reply2(CMD_LOAD_ADDRESS, STATUS_CMD_OK);
    }

    /** The four-byte loops: every byte is exchanged in turn. */
    method ExchangeBytes(bytes: seq<byte>) returns (answers: seq<byte>)
      requires IspOk(pageSize, State())
      modifies this`target
      ensures (answers, target) == Exchange(pageSize, old(target), bytes)
    {
      hide Transfer;
      answers := [];
      var n := 0;
      while n < |bytes|
        invariant n <= |bytes| && IspOk(pageSize, State())
        invariant (answers, target) == Exchange(pageSize, old(target), bytes[..n])
      {
        assert bytes[..n + 1][..n] == bytes[..n];
        var v := SPI_TransferByte(bytes[n]);
        answers := answers + [v];
        n := n + 1;
      }
      assert bytes[..|bytes|] == bytes;
    }

    method EnterISPMode(synchLoops: byte, pollValue: byte, pollIndex: byte, bytes: seq<byte>)
      requires Valid() && |bytes| == 4
      modifies this
      ensures Valid()
      ensures var (s, reply) := Exec(pageSize, old(State()), EnterProgMode(synchLoops, pollValue, pollIndex, bytes));
        State() == s && Replied(reply)
    {
      hide Exchange, AnswerAt;
      var status := STATUS_CMD_FAILED;
      CurrentAddress := 0;
      var loops := synchLoops;
      while loops != 0 && status == STATUS_CMD_FAILED
        invariant Valid() && tx == old(tx) && TCNT0 == old(TCNT0) && CurrentAddress == 0
        invariant status == STATUS_CMD_FAILED || status == STATUS_CMD_OK
        invariant Synchronise(pageSize, old(target), synchLoops, pollValue, pollIndex, bytes)
               == if status == STATUS_CMD_OK then (STATUS_CMD_OK, target)
                  else Synchronise(pageSize, target, loops, pollValue, pollIndex, bytes)
      {
        var answers := ExchangeBytes(bytes);
        if pollIndex == 0 || AnswerAt(answers, pollIndex) == pollValue { status := STATUS_CMD_OK; }
        loops := loops - 1;
      }
      Reply2(CMD_ENTER_PROGMODE_ISP, status);
    }

    method LoadPageBytes(params: ProgramParams, flash: bool, pollValue: byte) returns (poll: Polling)
      requires IspOk(pageSize, State()) && ParamsOk(params)
      modifies this`CurrentAddress, this`target
      ensures (State(), poll)
              == LoadPage(pageSize, old(State()), Polling(params.commands[0], 0, params.commands[2]), flash,
                          pollValue, params.data, 0)
    {
      hide Frame, HighByte, SetBit, AddressHigh, AddressLow, Increment;
      ghost var start := Polling(params.commands[0], 0, params.commands[2]);
      poll := Polling(params.commands[0], 0, params.commands[2]);
      var n := 0;
      while n < |params.data|
        invariant n <= |params.data| && IspOk(pageSize, State())
        invariant LoadPage(pageSize, old(State()), start, flash, pollValue, params.data, 0)
               == LoadPage(pageSize, State(), poll, flash, pollValue, params.data, n)
      {
        var isOddByte := n % 2 == 1;
        var byteToWrite := params.data[n];
        poll := poll.(load := HighByte(poll.load, isOddByte && flash));
        SendInstruction(poll.load, byteToWrite);
        if poll.pollAddress == 0 && byteToWrite != pollValue {
          if isOddByte && flash { poll := poll.(read := SetBit(poll.read, 8)); }
          poll := poll.(pollAddress := CurrentAddress % 65536);
        }
        if isOddByte || !flash { CurrentAddress := Increment(CurrentAddress); }
        n := n + 1;
      }
    }

    method WriteWords(params: ProgramParams, flash: bool, pollValue: byte) returns (status: byte)
      requires IspOk(pageSize, State()) && ParamsOk(params)
      modifies this`CurrentAddress, this`target, this`TCNT0
      ensures (State(), status)
              == WriteWordwise(pageSize, old(State()), Polling(params.commands[0], 0, params.commands[2]), flash,
                               params.mode, pollValue, params.data, 0)
    {
      hide Frame, HighByte, SetBit, AddressHigh, AddressLow, Increment, WaitForProgComplete;
      ghost var start := Polling(params.commands[0], 0, params.commands[2]);
      var poll := Polling(params.commands[0], 0, params.commands[2]);
      status := STATUS_CMD_OK;
      var n := 0;
      while n < |params.data| && status == STATUS_CMD_OK
        invariant n <= |params.data| && IspOk(pageSize, State())
        invariant WriteWordwise(pageSize, old(State()), start, flash, params.mode, pollValue, params.data, 0)
               == if status == STATUS_CMD_OK
                   then WriteWordwise(pageSize, State(), poll, flash, params.mode, pollValue, params.data, n)
                  else (State(), status)
        decreases |params.data| - n
      {
        var isOddByte := n % 2 == 1;
        var byteToWrite := params.data[n];
        poll := poll.(load := HighByte(poll.load, false));
        SendInstruction(poll.load, byteToWrite);
        if byteToWrite != pollValue {
          if isOddByte && flash { poll := poll.(read := SetBit(poll.read, 8)); }
          poll := poll.(pollAddress := CurrentAddress % 65536);
        }
        if isOddByte || !flash { CurrentAddress := Increment(CurrentAddress); }
        status := WaitForComplete(params.mode, poll.pollAddress, pollValue, poll.read);
        n := n + 1;
      }
    }

    method ProgramMemoryCommand(v2Command: byte, params: ProgramParams)
      requires Valid() && ParamsOk(params) && v2Command in {CMD_PROGRAM_FLASH_ISP, CMD_PROGRAM_EEPROM_ISP}
      modifies this
      ensures Valid()
      ensures var (s, reply) := Exec(pageSize, old(State()), Program(v2Command, params)); State() == s && Replied(reply)
    {
      hide Transfer, Bit, SetBit, ClearBit, AddressHigh, AddressLow, WaitForProgComplete, LoadPage, WriteWordwise;
      if params.bytesToWrite > 256 {
        Reply2(v2Command, STATUS_CMD_FAILED);
        return;
      }
      var status := STATUS_CMD_OK;
      var flash := v2Command == CMD_PROGRAM_FLASH_ISP;
      var pollValue := if flash then params.pollValue1 else params.pollValue2;
      if Bit(params.mode, 1) {
        var startAddress := CurrentAddress;
        var poll := LoadPageBytes(params, flash, pollValue);
        if Bit(params.mode, 128) {
          SPI_SendByte(params.commands[1]);
          SPI_SendByte(AddressHigh(startAddress));
          SPI_SendByte(AddressLow(startAddress));
          SPI_SendByte(0x00);
          var mode := params.mode;
          if poll.pollAddress == 0 { mode := SetBit(ClearBit(mode, 32), 16); }
          status := WaitForComplete(mode, poll.pollAddress, pollValue, poll.read);
        }
      } else {
        status := WriteWords(params, flash, pollValue);
      }
      Reply2(v2Command, status);
    }

    /** The reply leaves in full packets but for the last, which is short or empty. */
    method ReadMemoryCommand(v2Command: byte, count: uint16, command: byte)
      requires Valid() && v2Command in {CMD_READ_FLASH_ISP, CMD_READ_EEPROM_ISP}
      modifies this
      ensures Valid()
      ensures var (s, reply) := Exec(pageSize, old(State()), Read(v2Command, count, command));
        State() == s && Answered(AVRISP_DATA_EPSIZE, old(tx), tx, reply)
    {
      hide ReadBytes, Wrote, Answered;
      StartReply(v2Command);
      ghost var data := ReadTargetBytes(v2Command == CMD_READ_FLASH_ISP, count, command, old(tx),
                                        [v2Command, STATUS_CMD_OK]);
      EndReply(old(tx), [v2Command, STATUS_CMD_OK] + data);
    }

    method ReadTargetBytes(flash: bool, count: uint16, command: byte, ghost t0: InPipe, ghost written: seq<byte>)
        returns (ghost data: seq<byte>)
      requires IspOk(pageSize, State()) && |tx.bank| < AVRISP_DATA_EPSIZE && Wrote(AVRISP_DATA_EPSIZE, t0, tx, written)
      modifies this`CurrentAddress, this`target, this`tx
      ensures (State(), data) == ReadBytes(pageSize, old(State()), flash, command, count, 0)
      ensures |tx.bank| < AVRISP_DATA_EPSIZE && Wrote(AVRISP_DATA_EPSIZE, t0, tx, written + data)
    {
      hide Frame, HighByte, AddressHigh, AddressLow, Increment, Wrote, ReadBytes;
      data := [];
      assert written + data == written;
      var readCommand := command;
      var n: nat := 0;
      while n < count
        invariant n <= count && IspOk(pageSize, State()) && |tx.bank| < AVRISP_DATA_EPSIZE
        invariant Wrote(AVRISP_DATA_EPSIZE, t0, tx, written + data)
        invariant var (s, all) := ReadBytes(pageSize, old(State()), flash, command, count, 0);
          var (s', rest) := ReadBytes(pageSize, State(), flash, readCommand, count, n);
          s == s' && all == data + rest
      {
        ReadTurn(pageSize, State(), flash, readCommand, count, n);
        var isOddByte := n % 2 == 1;
        readCommand := HighByte(readCommand, isOddByte && flash);
        var answer := ReadInstruction(readCommand);
        WriteDataByte(t0, written + data, answer);
        assert written + data + [answer] == written + (data + [answer]);
        data := data + [answer];
        if (isOddByte && flash) || !flash { CurrentAddress := Increment(CurrentAddress); }
        n := n + 1;
      }
      ReadEnd(pageSize, State(), flash, readCommand, count);
      assert data + [] == data;
    }

    /** The three bytes of a read instruction, and the answer to a fourth. */
    method ReadInstruction(readCommand: byte) returns (answer: byte)
      requires IspOk(pageSize, State())
      modifies this`target
      ensures (answer, target)
              == Frame(pageSize, old(target), readCommand, AddressHigh(CurrentAddress), AddressLow(CurrentAddress),
                       0x00)
    {
      hide Transfer;
      SPI_SendByte(readCommand);
      SPI_SendByte(AddressHigh(CurrentAddress));
      SPI_SendByte(AddressLow(CurrentAddress));
      answer := SPI_ReceiveByte();
    }

    /** The four bytes of a load instruction. */
    method SendInstruction(command: byte, v: byte)
      requires IspOk(pageSize, State())
      modifies this`target
      ensures target
              == Frame(pageSize, old(target), command, AddressHigh(CurrentAddress), AddressLow(CurrentAddress), v).1
    {
      hide Transfer;
      SPI_SendByte(command);
      SPI_SendByte(AddressHigh(CurrentAddress));
      SPI_SendByte(AddressLow(CurrentAddress));
      SPI_SendByte(v);
    }

    method StartReply(v2Command: byte)
      requires tx.bank == []
      modifies this`tx
      ensures |tx.bank| == 2 && Wrote(AVRISP_DATA_EPSIZE, old(tx), tx, [v2Command, STATUS_CMD_OK])
    {
      WroteNothing(AVRISP_DATA_EPSIZE, tx);
      WroteMore(AVRISP_DATA_EPSIZE, tx, tx, [], [v2Command, STATUS_CMD_OK]);
      Endpoint_Write_Byte(v2Command);
      Endpoint_Write_Byte(STATUS_CMD_OK);
      assert tx.bank == [] + [v2Command, STATUS_CMD_OK];
      assert [] + [v2Command, STATUS_CMD_OK] == [v2Command, STATUS_CMD_OK];
    }

    /** The final status byte, and an empty packet when it filled the bank. */
    method EndReply(ghost t0: InPipe, ghost bytes: seq<byte>)
      requires |tx.bank| < AVRISP_DATA_EPSIZE && Wrote(AVRISP_DATA_EPSIZE, t0, tx, bytes) && t0.bank == []
      modifies this`tx
      ensures tx.bank == [] && Answered(AVRISP_DATA_EPSIZE, t0, tx, bytes + [STATUS_CMD_OK])
    {
      hide Wrote, Answered;
      WroteMore(AVRISP_DATA_EPSIZE, t0, tx, bytes, [STATUS_CMD_OK]);
      Endpoint_Write_Byte(STATUS_CMD_OK);
      WroteThenEnded(AVRISP_DATA_EPSIZE, t0, tx, bytes + [STATUS_CMD_OK]);
      var isEndpointFull := |tx.bank| >= AVRISP_DATA_EPSIZE;
      tx := Send(tx);
      if isEndpointFull { tx := Send(tx); }
    }

    /** Write one byte and send the bank if that filled it. */
    method WriteDataByte(ghost t0: InPipe, ghost bytes: seq<byte>, v: byte)
      requires |tx.bank| < AVRISP_DATA_EPSIZE && Wrote(AVRISP_DATA_EPSIZE, t0, tx, bytes)
      modifies this`tx
      ensures |tx.bank| < AVRISP_DATA_EPSIZE && Wrote(AVRISP_DATA_EPSIZE, t0, tx, bytes + [v])
    {
      hide Wrote;
      WroteMore(AVRISP_DATA_EPSIZE, t0, tx, bytes, [v]);
      Endpoint_Write_Byte(v);
      if |tx.bank| >= AVRISP_DATA_EPSIZE {
        WroteEagerly(AVRISP_DATA_EPSIZE, t0, tx, bytes + [v]);
        tx := Send(tx);
      }
    }

    method ChipEraseCommand(pollMethod: byte, bytes: seq<byte>)
      requires Valid() && |bytes| == 4
      modifies this
      ensures Valid()
      ensures var (s, reply) := Exec(pageSize, old(State()), ChipErase(pollMethod, bytes));
        State() == s && Replied(reply)
    {
      hide Exchange, WaitWhileTargetBusy;
      var status := STATUS_CMD_OK;
      var unused := ExchangeBytes(bytes);
      if pollMethod != 0 { status := WaitWhileBusy(); }
      Reply2(CMD_CHIP_ERASE_ISP, status);
    }

    method ReadFuseLockSigOSCCAL(v2Command: byte, position: byte, bytes: seq<byte>)
      requires Valid() && |bytes| == 4
      modifies this
      ensures Valid()
      ensures var (s, reply) := Exec(pageSize, old(State()), ReadConfig(v2Command, position, bytes));
        State() == s && Replied(reply)
    {
      hide Exchange;
      var answers := ExchangeBytes(bytes);
      Endpoint_Write_Byte(v2Command);
      Endpoint_Write_Byte(STATUS_CMD_OK);
      Endpoint_Write_Byte(AnswerAt(answers, position));
      Endpoint_Write_Byte(STATUS_CMD_OK);
      assert tx.bank == [v2Command, STATUS_CMD_OK, AnswerAt(answers, position), STATUS_CMD_OK];
      tx := Send(tx);
    }

    method WriteFuseLock(v2Command: byte, bytes: seq<byte>)
      requires Valid() && |bytes| == 4
      modifies this
      ensures Valid()
      ensures var (s, reply) := Exec(pageSize, old(State()), WriteConfig(v2Command, bytes));
        State() == s && Replied(reply)
    {
      hide Exchange;
      var unused := ExchangeBytes(bytes);
      Endpoint_Write_Byte(v2Command);
      Endpoint_Write_Byte(STATUS_CMD_OK);
      Endpoint_Write_Byte(STATUS_CMD_OK);
      assert tx.bank == [v2Command, STATUS_CMD_OK, STATUS_CMD_OK];
      tx := Send(tx);
    }

    method SPIMulti(rxBytes: byte, rxStart: byte, txData: seq<byte>)
      requires Valid() && |txData| <= 255
      modifies this
      ensures Valid()
      ensures var (s, reply) := Exec(pageSize, old(State()), SpiMulti(rxBytes, rxStart, txData));
        State() == s && Replied(reply)
    {
      hide Transfer, Exchange, Kept;
      ghost var bytes := Padded(txData, rxStart + rxBytes);
      WriteHeader();
      ghost var answers: seq<byte> := [];
      var currTxPos: nat := 0;
      ExchangeNone(pageSize, target, bytes);
      while currTxPos < rxStart
        invariant currTxPos <= rxStart && IspOk(pageSize, State())
        invariant State() == old(State()).(target := target)
        invariant tx == old(tx).(bank := Kept([CMD_SPI_MULTI, STATUS_CMD_OK] + []))
        invariant (answers, target) == Exchange(pageSize, old(target), bytes[..currTxPos])
      {
        ExchangeNext(pageSize, old(target), bytes, currTxPos);
        answers := answers + [Transfer(pageSize, target, bytes[currTxPos]).0];
        SPI_SendByte(if currTxPos < |txData| then txData[currTxPos] else 0);
        currTxPos := currTxPos + 1;
      }
      ghost var replies := MultiReceive(rxBytes, txData, currTxPos, old(target), answers);
      assert bytes[..rxStart + rxBytes] == bytes;
      assert (answers + replies)[rxStart..] == replies;
      KeptMore([CMD_SPI_MULTI, STATUS_CMD_OK] + replies, STATUS_CMD_OK);
      Endpoint_Write_Byte(STATUS_CMD_OK);
      tx := Send(tx);
    }

    method WriteHeader()
      requires tx.bank == []
      modifies this`tx
      ensures tx == old(tx).(bank := Kept([CMD_SPI_MULTI, STATUS_CMD_OK] + []))
    {
      Endpoint_Write_Byte(CMD_SPI_MULTI);
      Endpoint_Write_Byte(STATUS_CMD_OK);
      assert tx.bank == [CMD_SPI_MULTI, STATUS_CMD_OK] + [];
    }

    /** The second loop: bytes still to transmit, then zeros, every answer going into the bank. */
    method MultiReceive(rxBytes: byte, txData: seq<byte>, rxStart: nat, ghost t0: Target, ghost answers: seq<byte>)
        returns (ghost replies: seq<byte>)
      requires IspOk(pageSize, State()) && rxStart < 256
      requires TargetOk(pageSize, t0)
      requires (answers, target) == Exchange(pageSize, t0, Padded(txData, rxStart + rxBytes)[..rxStart])
      requires tx.bank == Kept([CMD_SPI_MULTI, STATUS_CMD_OK] + [])
      modifies this`target, this`tx
      ensures IspOk(pageSize, State()) && |replies| == rxBytes
      ensures (answers + replies, target)
              == Exchange(pageSize, t0, Padded(txData, rxStart + rxBytes)[..rxStart + rxBytes])
      ensures tx == old(tx).(bank := Kept([CMD_SPI_MULTI, STATUS_CMD_OK] + replies))
    {
      hide Transfer, Exchange, Kept;
      ghost var bytes := Padded(txData, rxStart + rxBytes);
      replies := [];
      assert answers + replies == answers;
      var currTxPos, currRxPos: nat := rxStart, 0;
      while currRxPos < rxBytes
        invariant currRxPos == |replies| <= rxBytes && IspOk(pageSize, State())
        invariant currTxPos == if rxStart + currRxPos <= |txData| || currRxPos == 0 then rxStart + currRxPos
                               else if rxStart <= |txData| then |txData| else rxStart
        invariant (answers + replies, target) == Exchange(pageSize, t0, bytes[..rxStart + currRxPos])
        invariant tx == old(tx).(bank := Kept([CMD_SPI_MULTI, STATUS_CMD_OK] + replies))
      {
        ExchangeNext(pageSize, t0, bytes, rxStart + currRxPos);
        var answer;
        if currTxPos < |txData| {
          answer := SPI_TransferByte(txData[currTxPos]);
          currTxPos := currTxPos + 1;
        } else {
          answer := SPI_ReceiveByte();
        }
        Endpoint_Write_Byte(answer);
        KeptMore([CMD_SPI_MULTI, STATUS_CMD_OK] + replies, answer);
        assert [CMD_SPI_MULTI, STATUS_CMD_OK] + replies + [answer]
            == [CMD_SPI_MULTI, STATUS_CMD_OK] + (replies + [answer]);
        assert answers + replies + [answer] == answers + (replies + [answer]);
        replies := replies + [answer];
        currRxPos := currRxPos + 1;
      }
    }
  }

  /** One turn of the read loop. */
  lemma ReadTurn(size: nat, s: Isp, flash: bool, command: byte, count: nat, i: nat)
    requires IspOk(size, s) && i < count
    ensures var odd := i % 2 == 1;
      var load := HighByte(command, odd && flash);
      var (v, t) := Frame(size, s.target, load, AddressHigh(s.address), AddressLow(s.address), 0x00);
      var s1 := s.(target := t, address := if odd || !flash then Increment(s.address) else s.address);
      var (s2, rest) := ReadBytes(size, s1, flash, load, count, i + 1);
      ReadBytes(size, s, flash, command, count, i) == (s2, [v] + rest)
  {
    hide Frame, HighByte, AddressHigh, AddressLow, Increment;
  }

  lemma ReadEnd(size: nat, s: Isp, flash: bool, command: byte, count: nat)
    requires IspOk(size, s)
    ensures ReadBytes(size, s, flash, command, count, count) == (s, [])
  {}

  lemma ExchangeNone(size: nat, t: Target, bytes: seq<byte>)
    requires TargetOk(size, t)
    ensures Exchange(size, t, bytes[..0]) == ([], t)
  {}

  lemma ExchangeNext(size: nat, t: Target, bytes: seq<byte>, n: nat)
    requires TargetOk(size, t) && n < |bytes|
    ensures var (answers, t1) := Exchange(size, t, bytes[..n]);
      var (v, t2) := Transfer(size, t1, bytes[n]);
      Exchange(size, t, bytes[..n + 1]) == (answers + [v], t2)
  {
    hide Transfer;
    assert bytes[..n + 1][..n] == bytes[..n];
  }

  /** Writing one more byte to a bank that keeps what it has room for. */
  lemma KeptMore(bank: seq<byte>, v: byte)
    ensures Kept(bank + [v]) == if |Kept(bank)| < AVRISP_DATA_EPSIZE then Kept(bank) + [v] else Kept(bank)
  {}
}
