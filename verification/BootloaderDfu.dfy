/** The DFU bootloader itself: its globals as fields, its handlers as methods that update them.
    Each handler is proved to take the state where DfuSpec says. */
module BootloaderDfu {
  import opened Usb
  import opened AvrFlash
  import opened DfuSpec

  class Bootloader {
    const board: Board

    var IsSecure: bool
    var RunBootloader: bool
    var WaitForExit: bool
    var DFU_State: byte
    var DFU_Status: byte
    var Command: byte
    var Data: seq<byte>
    var DataSize: uint16
    var ResponseByte: byte
    var AppStartPtr: uint16
    var Flash64KBPage: byte
    var StartAddr: uint16
    var EndAddr: uint16

    // The hardware the handlers work on
    var flash: Flash
    var eeprom: seq<byte>
    var rx: OutPipe
    var tx: InPipe

    ghost function State(): Dfu
      reads this
    {
      Dfu(IsSecure, RunBootloader, WaitForExit, DFU_State, DFU_Status, Command, Data, DataSize, ResponseByte,
          AppStartPtr, Flash64KBPage, StartAddr, EndAddr, flash, eeprom, rx, tx)
    }

    ghost predicate Valid()
      reads this
    {
      Wf(board, State())
    }

    constructor (board: Board, secureMode: bool, cells: seq<byte>, eeprom: seq<byte>)
      requires BoardOk(board) && Aligned(board.pageSize, |cells|) && board.bootStart <= |cells|
      ensures Valid() && this.board == board && PowerOn(board, State())
      ensures IsSecure == secureMode && flash.cells == cells && this.eeprom == eeprom
    {
      this.board := board;
      IsSecure, RunBootloader, WaitForExit := secureMode, true, false;
      DFU_State, DFU_Status := dfuIDLE, OK;
      Command, Data, DataSize := 0, [0, 0, 0, 0, 0], 0;
      ResponseByte, AppStartPtr, Flash64KBPage, StartAddr, EndAddr := 0, 0, 0, 0, 0;
      flash := Flash(cells, Blank(board.pageSize), {}, {}, 0);
      this.eeprom := eeprom;
      rx, tx := OutPipe([], []), InPipe([], []);
    }

    /** main(): handle requests for as long as the loop condition holds. */
    method Serve(reqs: seq<Request>) returns (handled: nat)
      requires Valid()
      modifies this
      ensures Valid() && handled <= |reqs|
      ensures State() == Run(board, old(State()), reqs[..handled])
      ensures handled < |reqs| ==> !RunBootloader && !WaitForExit
    {
      hide Step, Wf, Run;
      ghost var s0 := State();
      handled := 0;
      RunNone(board, s0);
      assert reqs[..0] == [];
      while (RunBootloader || WaitForExit) && handled < |reqs|
        invariant handled <= |reqs| && Valid()
        invariant State() == Run(board, s0, reqs[..handled])
      {
        UnhandledControlRequest(reqs[handled]);
        handled := handled + 1;
        RunAppend(board, s0, reqs[..handled - 1], reqs[handled - 1]);
        assert reqs[..handled] == reqs[..handled - 1] + [reqs[handled - 1]];
      }
    }

    /** EVENT_USB_Device_UnhandledControlRequest */
    method UnhandledControlRequest(req: Request)
      requires Valid()
      modifies this
      ensures Valid() && State() == Step(board, old(State()), req)
    {
      hide StepDnload, StepUpload, FlashOk, BoardOk;
      DataSize := req.wLength;
      match req
      case Dnload(_, packets) => Dnload(packets);
      case Upload(_) => Upload();
      case GetStatus(_) =>
        tx := tx.(bank := tx.bank + [DFU_Status, 0, 0, 0, DFU_State, 0]);
        tx := Send(tx);
      case ClrStatus(_) => DFU_Status := OK;
      case GetState(_) =>
        tx := tx.(bank := tx.bank + [DFU_State]);
        tx := Send(tx);
      case Abort(_) => DFU_State := dfuIDLE;
      case OtherRequest(_) =>
    }

    method Dnload(packets: seq<seq<byte>>)
      requires Valid()
      modifies this
      ensures Valid() && State() == StepDnload(board, old(State()), packets)
    {
      hide Process, LoadCommand, EndDnload, FlashOk, BoardOk;
      rx := OutPipe([], packets);
      if WaitForExit {
        ProcessBootloaderCommand();
        WaitForExit := false;
      }
      if DataSize != 0 {
        if packets == [] { return; }
        LoadSentCommand();
        ProcessBootloaderCommand();
      }
      EndOfDnload();
    }

    /** Receive the firmware if a programming command has been accepted, and close the request. */
    method EndOfDnload()
      requires Valid()
      modifies this
      ensures Valid() && State() == EndDnload(board, old(State()))
    {
      hide Firmware, FlashOk, BoardOk;
      if DFU_State == dfuDNLOAD_IDLE {
        if DataSize == 0 {
          DFU_State := dfuIDLE;
        } else {
          var finished := ReceiveFirmware();
          if !finished { return; }
        }
      }
      rx := OutPipe([], []);
    }

    /** Read the command byte and up to five parameters out of the first packet. */
    method LoadSentCommand()
      requires Valid() && rx.pending != []
      modifies this
      ensures Valid() && State() == LoadCommand(old(State()))
    {
      hide FlashOk, BoardOk, LoadParams, Peek, Drop;
      rx := NextPacket(rx);
      Command := Peek(rx);
      rx := Drop(rx);
      DataSize := (DataSize - 1) % 65536;
      LoadParameters();
    }

    method LoadParameters()
      requires |Data| == 5
      modifies this`rx, this`Data, this`DataSize
      ensures (rx, Data, DataSize) == LoadParams(old(rx), old(Data), 0, old(DataSize))
    {
      var i := 0;
      while i < |Data| && rx.bank != []
        invariant i <= |Data| == 5
        invariant LoadParams(rx, Data, i, DataSize) == LoadParams(old(rx), old(Data), 0, old(DataSize))
      {
        Data := Data[i := Peek(rx)];
        rx := Drop(rx);
        DataSize := (DataSize - 1) % 65536;
        i := i + 1;
      }
    }

    /** The programming part of a download request; false when the host went away. */
    method ReceiveFirmware() returns (finished: bool)
      requires Valid()
      modifies this
      ensures Valid() && (State(), finished) == Firmware(board, old(State()))
    {
      hide Discard, WriteWords, WriteEeprom, FlashOk, BoardOk, ByteCount, Address;
      PageSizePositive();
      DiscardFillerBytes(DFU_FILLER_BYTES_SIZE);
      DiscardFillerBytes(StartAddr % board.pageSize);
      var bytesRemaining := ByteCount(StartAddr, EndAddr);
      if Data[0] == 0x00 {
        finished := WriteFlash(bytesRemaining / 2);
        if !finished { return; }
        StartAddr := EndAddr;
        flash := Enable(board.pageSize, flash);
      } else {
        finished := WriteEepromBytes(bytesRemaining);
        if !finished { return; }
      }
      DiscardFillerBytes(DFU_FILE_SUFFIX_SIZE);
    }

    lemma PageSizePositive()
      requires Valid()
      ensures 0 < board.pageSize
    {}

    method DiscardFillerBytes(numberOfBytes: nat)
      modifies this`rx
      ensures rx == Discard(old(rx), numberOfBytes)
    {
      var n: nat := numberOfBytes;
      while n != 0
        invariant n <= numberOfBytes
        invariant Discard(rx, n) == Discard(old(rx), numberOfBytes)
      {
        if rx.bank == [] {
          if rx.pending == [] { return; }
          rx := NextPacket(rx);
        } else {
          rx := Drop(rx);
        }
        n := n - 1;
      }
    }

    /** The word loop of a flash download. */
    method WriteFlash(words: nat) returns (finished: bool)
      requires Valid()
      modifies this`flash, this`rx
      ensures Valid()
      ensures var a := Address(Flash64KBPage, StartAddr);
        FlashRun(flash, rx, finished) == WriteWords(board.pageSize, old(flash), old(rx), a, a, 0, words)
    {
      hide Erase, Fill, Write, Address, BoardOk;
      var wordsRemaining: nat := words;
      var currFlashAddress := Address(Flash64KBPage, StartAddr);
      var currFlashPageStartAddress := currFlashAddress;
      var wordsInFlashPage: byte := 0;
      var size := board.pageSize;
      ghost var goal := WriteWords(size, flash, rx, currFlashAddress, currFlashAddress, 0, words);
      while wordsRemaining != 0
        invariant FlashOk(size, flash) && |flash.cells| == |old(flash).cells|
        invariant WriteWords(size, flash, rx, currFlashAddress, currFlashPageStartAddress, wordsInFlashPage,
                             wordsRemaining) == goal
      {
        if rx.bank == [] {
          if rx.pending == [] { return false; }
          rx := NextPacket(rx);
        }
        var lo := Peek(rx);
        rx := Drop(rx);
        flash := Fill(size, flash, currFlashAddress, lo, Peek(rx));
        rx := Drop(rx);
        wordsInFlashPage := (wordsInFlashPage + 1) % 256;
        currFlashAddress := currFlashAddress + 2;
        wordsRemaining := wordsRemaining - 1;
        if wordsInFlashPage == size / 2 || wordsRemaining == 0 {
          flash := Write(size, flash, currFlashPageStartAddress);
          if wordsRemaining != 0 {
            currFlashPageStartAddress := currFlashAddress;
            wordsInFlashPage := 0;
            flash := Erase(size, flash, currFlashAddress);
          }
        }
      }
      finished := true;
    }

    /** The byte loop of an EEPROM download. */
    method WriteEepromBytes(bytes: nat) returns (finished: bool)
      modifies this`eeprom, this`rx, this`StartAddr
      ensures EepromRun(eeprom, rx, StartAddr, finished) == WriteEeprom(old(eeprom), old(rx), old(StartAddr), bytes)
    {
      var bytesRemaining: nat := bytes;
      while bytesRemaining != 0
        invariant WriteEeprom(eeprom, rx, StartAddr, bytesRemaining)
                  == WriteEeprom(old(eeprom), old(rx), old(StartAddr), bytes)
      {
        if rx.bank == [] {
          if rx.pending == [] { return false; }
          rx := NextPacket(rx);
        }
        eeprom := PokeCell(eeprom, StartAddr, Peek(rx));
        rx := Drop(rx);
        StartAddr := (StartAddr + 1) % 65536;
        bytesRemaining := bytesRemaining - 1;
      }
      finished := true;
    }

    method Upload()
      requires Valid()
      modifies this
      ensures Valid() && State() == StepUpload(board, old(State()))
    {
      hide SendWords, SendEeprom, FlashOk, BoardOk;
      if DFU_State != dfuUPLOAD_IDLE {
        if DFU_State == dfuERROR && Data[0] == 0x01 {
          tx := tx.(bank := tx.bank + [Low(StartAddr), High(StartAddr)]);
        } else {
          tx := tx.(bank := tx.bank + [ResponseByte]);
        }
      } else {
        var bytesRemaining := ByteCount(StartAddr, EndAddr);
        if Data[0] == 0x00 {
          ReadFlash(bytesRemaining / 2);
          StartAddr := EndAddr;
        } else if Data[0] == 0x02 {
          ReadEepromBytes(bytesRemaining);
        }
        DFU_State := dfuIDLE;
      }
      tx := Send(tx);
    }

    method ReadFlash(words: nat)
      modifies this`tx
      ensures tx == SendWords(board.endpointSize, old(tx), flash.cells, Address(Flash64KBPage, StartAddr), words)
    {
      var wordsRemaining: nat := words;
      var currFlashAddress := Address(Flash64KBPage, StartAddr);
      while wordsRemaining != 0
        invariant SendWords(board.endpointSize, tx, flash.cells, currFlashAddress, wordsRemaining)
               == SendWords(board.endpointSize, old(tx), flash.cells, Address(Flash64KBPage, StartAddr), words)
      {
        if |tx.bank| == board.endpointSize { tx := Send(tx); }
        tx := tx.(bank := tx.bank
                  + [ReadCell(flash.cells, currFlashAddress), ReadCell(flash.cells, currFlashAddress + 1)]);
        currFlashAddress := currFlashAddress + 2;
        wordsRemaining := wordsRemaining - 1;
      }
    }

    method ReadEepromBytes(bytes: nat)
      modifies this`tx, this`StartAddr
      ensures tx == SendEeprom(board.endpointSize, old(tx), eeprom, old(StartAddr), bytes)
      ensures StartAddr == (old(StartAddr) + bytes) % 65536
    {
      var bytesRemaining: nat := bytes;
      while bytesRemaining != 0
        invariant bytesRemaining <= bytes
        invariant SendEeprom(board.endpointSize, tx, eeprom, StartAddr, bytesRemaining)
               == SendEeprom(board.endpointSize, old(tx), eeprom, old(StartAddr), bytes)
        invariant StartAddr == (old(StartAddr) + (bytes - bytesRemaining)) % 65536
      {
        if |tx.bank| == board.endpointSize { tx := Send(tx); }
        tx := tx.(bank := tx.bank + [ReadCell(eeprom, StartAddr)]);
        StartAddr := (StartAddr + 1) % 65536;
        bytesRemaining := bytesRemaining - 1;
      }
    }

    method ProcessBootloaderCommand()
      requires Valid()
      modifies this
      ensures Valid() && State() == Process(board, old(State()))
    {
      hide MemProg, MemRead, WriteCommand, ReadCommand, FlashOk, BoardOk;
      if IsSecure {
        if !((Command == COMMAND_WRITE && Data[0] == 0x00 && Data[1] == 0xFF) || Command == COMMAND_READ) {
          DFU_State := dfuERROR;
          DFU_Status := errWRITE;
          return;
        }
      }
      if Command == COMMAND_PROG_START {
        ProcessMemProgCommand();
      } else if Command == COMMAND_DISP_DATA {
        ProcessMemReadCommand();
      } else if Command == COMMAND_WRITE {
        ProcessWriteCommand();
      } else if Command == COMMAND_READ {
        ProcessReadCommand();
      } else if Command == COMMAND_CHANGE_BASE_ADDR {
        if Data[0] == 0x03 && Data[1] == 0x00 {
          Flash64KBPage := Data[2];
        }
      }
    }

    method LoadStartEndAddresses()
      requires Valid()
      modifies this`StartAddr, this`EndAddr
      ensures State() == LoadStartEnd(old(State()))
    {
      StartAddr := Word(Data[2], Data[1]);
      EndAddr := Word(Data[4], Data[3]);
    }

    method ProcessMemProgCommand()
      requires Valid()
      modifies this
      ensures Valid() && State() == MemProg(board, old(State()))
    {
      hide BoardOk, Erase;
      if Data[0] == 0x00 || Data[0] == 0x01 {
        LoadStartEndAddresses();
        if Data[0] == 0x00 {
          flash := Erase(board.pageSize, flash, Address(Flash64KBPage, StartAddr));
        }
        DFU_State := dfuDNLOAD_IDLE;
      }
    }

    method ProcessMemReadCommand()
      requires Valid()
      modifies this
      ensures Valid() && State() == MemRead(board, old(State()))
    {
      hide BoardOk, FlashOk;
      if Data[0] == 0x00 || Data[0] == 0x02 {
        LoadStartEndAddresses();
        DFU_State := dfuUPLOAD_IDLE;
      } else if Data[0] == 0x01 {
        var currFlashAddress := 0;
        while currFlashAddress < board.bootStart
          invariant currFlashAddress <= board.bootStart
          invariant FirstNonBlank(flash.cells, currFlashAddress, board.bootStart)
                    == FirstNonBlank(flash.cells, 0, board.bootStart)
        {
          if flash.cells[currFlashAddress] != BLANK {
            Flash64KBPage := (currFlashAddress / 65536) % 256;
            StartAddr := currFlashAddress % 65536;
            DFU_State := dfuERROR;
            DFU_Status := errCHECK_ERASED;
            return;
          }
          currFlashAddress := currFlashAddress + 1;
        }
      }
    }

    method ProcessWriteCommand()
      requires Valid()
      modifies this
      ensures Valid() && State() == WriteCommand(board, old(State()))
    {
      hide EraseFrom, FlashOk, BoardOk;
      if Data[0] == 0x03 {
        WaitForExit := true;
        if DataSize == 0 {
          if Data[1] != 0x00 {
            AppStartPtr := Word(Data[4], Data[3]);
            RunBootloader := false;
          }
        }
      } else if Data[0] == 0x00 && Data[1] == 0xFF {
        EraseApplication();
        flash := Enable(board.pageSize, flash);
        IsSecure := false;
      }
    }

    /** The loop of the chip erase. */
    method EraseApplication()
      requires Valid()
      modifies this`flash
      ensures flash == EraseFrom(board.pageSize, old(flash), 0, board.bootStart)
    {
      hide Erase, Write, FlashOk;
      var currFlashAddress := 0;
      while currFlashAddress < board.bootStart
        invariant FlashOk(board.pageSize, flash)
        invariant EraseFrom(board.pageSize, flash, currFlashAddress, board.bootStart)
                  == EraseFrom(board.pageSize, old(flash), 0, board.bootStart)
      {
        flash := Erase(board.pageSize, flash, currFlashAddress);
        flash := Write(board.pageSize, flash, currFlashAddress);
        currFlashAddress := currFlashAddress + board.pageSize;
      }
    }

    method ProcessReadCommand()
      requires Valid()
      modifies this`ResponseByte
      ensures Valid() && State() == ReadCommand(board, old(State()))
    {
      hide FlashOk, Aligned;
      var dataIndexToRead := Data[1];
      if Data[0] == 0x00 {
        ResponseByte := if dataIndexToRead < 3 then BOOTLOADER_INFO[dataIndexToRead] else 0;
      } else if Data[0] == 0x01 {
        ResponseByte := if 0x30 <= dataIndexToRead < 0x33 then board.signature[dataIndexToRead - 0x30] else 0;
      }
    }
  }
}
