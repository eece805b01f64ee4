/** The CDC bootloader itself: CurrAddress and the loops that advance it. */
module BootloaderCdc {
  import opened Usb
  import opened AvrFlash
  import opened CdcSpec

  class Bootloader {
    const board: CdcBoard

    var CurrAddress: uint32
    var RunBootloader: bool
    var flash: Flash
    var eeprom: seq<byte>
    var rx: OutPipe
    var tx: InPipe

    ghost function State(): Cdc
      reads this
    {
      Cdc(CurrAddress, RunBootloader, flash, eeprom, rx, tx)
    }

    ghost predicate Valid()
      reads this
    {
      CdcWf(board, State())
    }

    constructor (board: CdcBoard, flash: Flash, eeprom: seq<byte>)
      requires CdcBoardOk(board) && FlashOk(board.pageSize, flash) && board.bootStart <= |flash.cells|
      ensures Valid() && this.board == board
      ensures State() == Cdc(0, true, flash, eeprom, OutPipe([], []), InPipe([], []))
    {
      this.board := board;
      CurrAddress, RunBootloader := 0, true;
      this.flash, this.eeprom := flash, eeprom;
      rx, tx := OutPipe([], []), InPipe([], []);
    }

    method FetchNextCommandByte() returns (v: byte)
      modifies this`rx
      ensures (v, rx) == Fetch(old(rx))
    {
      while rx.bank == []
        invariant Fetch(rx) == Fetch(old(rx))
        decreases |rx.pending|
      {
        if rx.pending == [] { return 0; }
        rx := NextPacket(rx);
      }
      v := rx.bank[0];
      rx := Drop(rx);
    }

    method WriteNextResponseByte(response: byte)
      modifies this`tx
      ensures tx == PutAll(board.endpointSize, old(tx), [response])
    {
      if |tx.bank| >= board.endpointSize { tx := Send(tx); }
      tx := tx.(bank := tx.bank + [response]);
      assert [response][1..] == [];
    }

    /** The new state is `to`'s, the answer has been written to the IN endpoint. */
    twostate predicate Did(to: (Cdc, seq<byte>))
      reads this
    {
      State() == to.0.(tx := PutAll(board.endpointSize, old(tx), to.1))
    }

    method ReadWriteMemoryBlock(command: byte)
      requires Valid()
      modifies this
      ensures Valid() && Did(MemoryBlock(board, old(State()), command))
    {
      hide Fetch, FlashOk, CdcBoardOk, LoadBlock, ReadFlashBlock, ReadEepromBlock, WriteEepromBlock, Erase, Write,
          PutAll;
      var hi := FetchNextCommandByte();
      var lo := FetchNextCommandByte();
      var blockSize := Word(lo, hi);
      var memoryType := FetchNextCommandByte();
      if memoryType != EEPROM_MEMORY && memoryType != FLASH_MEMORY {
        WriteNextResponseByte(QUESTION);
        return;
      }
      if command == READ_BLOCK {
        flash := Enable(board.pageSize, flash);
        if memoryType == FLASH_MEMORY {
          ReadFlashBytes(blockSize);
        } else {
          ReadEepromBytes(blockSize);
        }
      } else {
        if memoryType == FLASH_MEMORY {
          var pageStartAddress := CurrAddress;
          flash := Erase(board.pageSize, flash, pageStartAddress);
          LoadFlashBytes(blockSize);
          flash := Write(board.pageSize, flash, pageStartAddress);
        } else {
          WriteEepromBytes(blockSize);
        }
        WriteNextResponseByte(CR);
      }
    }

    method ReadFlashBytes(blockSize: nat)
      modifies this`CurrAddress, this`tx
      ensures var (bytes, addr) := ReadFlashBlock(flash.cells, old(CurrAddress), false, blockSize);
        CurrAddress == addr && tx == PutAll(board.endpointSize, old(tx), bytes)
    {
      hide PutAll, WithHigh, Advance;
      var remaining: nat, highByte := blockSize, false;
      ghost var done: seq<byte> := [];
      PutNothing(board.endpointSize, tx);
      while remaining != 0
        invariant var (bytes, addr) := ReadFlashBlock(flash.cells, old(CurrAddress), false, blockSize);
          var (todo, addr') := ReadFlashBlock(flash.cells, CurrAddress, highByte, remaining);
          bytes == done + todo && addr == addr'
        invariant tx == PutAll(board.endpointSize, old(tx), done)
      {
        ghost var v := ReadCell(flash.cells, WithHigh(CurrAddress, highByte));
        WriteNextResponseByte(ReadCell(flash.cells, WithHigh(CurrAddress, highByte)));
        PutAllAppend(board.endpointSize, old(tx), done, [v]);
        done := done + [v];
        if highByte { CurrAddress := Advance(CurrAddress); }
        highByte := !highByte;
        remaining := remaining - 1;
      }
      assert done + [] == done;
    }

    method ReadEepromBytes(blockSize: nat)
      modifies this`CurrAddress, this`tx
      ensures var (bytes, addr) := ReadEepromBlock(eeprom, old(CurrAddress), blockSize);
        CurrAddress == addr && tx == PutAll(board.endpointSize, old(tx), bytes)
    {
      hide PutAll, Advance;
      var remaining: nat := blockSize;
      ghost var done: seq<byte> := [];
      PutNothing(board.endpointSize, tx);
      while remaining != 0
        invariant var (bytes, addr) := ReadEepromBlock(eeprom, old(CurrAddress), blockSize);
          var (todo, addr') := ReadEepromBlock(eeprom, CurrAddress, remaining);
          bytes == done + todo && addr == addr'
        invariant tx == PutAll(board.endpointSize, old(tx), done)
      {
        ghost var v := ReadCell(eeprom, EepromIndex(CurrAddress));
        WriteNextResponseByte(ReadCell(eeprom, EepromIndex(CurrAddress)));
        PutAllAppend(board.endpointSize, old(tx), done, [v]);
        done := done + [v];
        CurrAddress := Advance(CurrAddress);
        remaining := remaining - 1;
      }
      assert done + [] == done;
    }

    method LoadFlashBytes(blockSize: nat)
      requires FlashOk(board.pageSize, flash)
      modifies this`CurrAddress, this`flash, this`rx
      ensures BlockRun(flash, rx, CurrAddress)
           == LoadBlock(board.pageSize, old(flash), old(rx), old(CurrAddress), false, 0, blockSize)
    {
      hide Fetch, Fill, FlashOk;
      var remaining: nat, highByte, lowByte: byte := blockSize, false, 0;
      while remaining != 0
        invariant FlashOk(board.pageSize, flash)
        invariant LoadBlock(board.pageSize, flash, rx, CurrAddress, highByte, lowByte, remaining)
               == LoadBlock(board.pageSize, old(flash), old(rx), old(CurrAddress), false, 0, blockSize)
      {
        if highByte {
          var v := FetchNextCommandByte();
          flash := Fill(board.pageSize, flash, CurrAddress, lowByte, v);
          CurrAddress := Advance(CurrAddress);
          highByte := false;
        } else {
          lowByte := FetchNextCommandByte();
          highByte := true;
        }
        remaining := remaining - 1;
      }
    }

    method WriteEepromBytes(blockSize: nat)
      modifies this`CurrAddress, this`eeprom, this`rx
      ensures (eeprom, rx, CurrAddress) == WriteEepromBlock(old(eeprom), old(rx), old(CurrAddress), blockSize)
    {
      hide Fetch;
      var remaining: nat := blockSize;
      while remaining != 0
        invariant WriteEepromBlock(eeprom, rx, CurrAddress, remaining)
               == WriteEepromBlock(old(eeprom), old(rx), old(CurrAddress), blockSize)
      {
        var v := FetchNextCommandByte();
        eeprom := PokeCell(eeprom, EepromIndex(CurrAddress), v);
        CurrAddress := Advance(CurrAddress);
        remaining := remaining - 1;
      }
    }

    /** The 'e' command. */
    method EraseApplication()
      requires Valid()
      modifies this`flash
      ensures Valid() && flash == EraseSweep(board.pageSize, old(flash), 0, board.bootStart)
    {
      hide Erase, Write;
      var currFlashAddress := 0;
      while currFlashAddress < board.bootStart
        invariant FlashOk(board.pageSize, flash) && |flash.cells| == |old(flash).cells|
        invariant EraseSweep(board.pageSize, flash, currFlashAddress, board.bootStart)
               == EraseSweep(board.pageSize, old(flash), 0, board.bootStart)
      {
        flash := Erase(board.pageSize, flash, currFlashAddress);
        flash := Write(board.pageSize, flash, currFlashAddress);
        currFlashAddress := currFlashAddress + board.pageSize;
        currFlashAddress := currFlashAddress + 1;
      }
    }

    method WriteAll(bytes: seq<byte>)
      modifies this`tx
      ensures tx == PutAll(board.endpointSize, old(tx), bytes)
    {
      for i := 0 to |bytes|
        invariant tx == PutAll(board.endpointSize, old(tx), bytes[..i])
      {
        WriteNextResponseByte(bytes[i]);
        PutAllAppend(board.endpointSize, old(tx), bytes[..i], [bytes[i]]);
        assert bytes[..i + 1] == bytes[..i] + [bytes[i]];
      }
      assert bytes[..|bytes|] == bytes;
    }

    /** The commands with a fixed-length answer that touch a memory or the address. */
    method SmallMemoryCommand(command: byte)
      requires Valid()
      requires command in {'C' as int, 'c' as int, 'm' as int, 'R' as int, 'D' as int, 'd' as int}
      modifies this
      ensures Valid() && Did(Dispatch(board, old(State()), command))
    {
      hide Fetch, FlashOk, CdcBoardOk, Fill, Write, EraseSweep, MemoryBlock, PutAll;
      if command == 'C' as int {
        var v := FetchNextCommandByte();
        flash := Fill(board.pageSize, flash, CurrAddress, v, 0);
        WriteNextResponseByte(CR);
      } else if command == 'c' as int {
        var v := FetchNextCommandByte();
        flash := Fill(board.pageSize, flash, WithHigh(CurrAddress, true), v, 0);
        CurrAddress := Advance(CurrAddress);
        WriteNextResponseByte(CR);
      } else if command == 'm' as int {
        flash := Write(board.pageSize, flash, CurrAddress);
        WriteNextResponseByte(CR);
      } else if command == 'R' as int {
        WriteAll([ReadCell(flash.cells, CurrAddress + 1), ReadCell(flash.cells, CurrAddress)]);
      } else if command == 'D' as int {
        var v := FetchNextCommandByte();
        eeprom := PokeCell(eeprom, EepromIndex(CurrAddress), v);
        CurrAddress := Advance(CurrAddress);
        WriteNextResponseByte(CR);
      } else {
        WriteNextResponseByte(ReadCell(eeprom, EepromIndex(CurrAddress)));
        CurrAddress := Advance(CurrAddress);
      }
    }

    /** The command chain of CDC_Task. */
    method RunCommand(command: byte)
      requires Valid()
      modifies this
      ensures Valid() && Did(Dispatch(board, old(State()), command))
    {
      hide Fetch, FlashOk, Fill, Write, EraseSweep, MemoryBlock, PutAll, Aligned;
      if command == 'L' as int || command == 'P' as int || command == 'T' as int || command == 'E' as int {
        if command == 'E' as int { RunBootloader := false; }
        if command == 'T' as int { var _ := FetchNextCommandByte(); }
        WriteNextResponseByte(CR);
      } else if command == 't' as int {
        WriteAll([0x44, 0x00]);
      } else if command == 'a' as int {
        WriteNextResponseByte('Y' as int);
      } else if command == SET_ADDRESS {
        var hi := FetchNextCommandByte();
        var lo := FetchNextCommandByte();
        CurrAddress := AddressFrom(hi, lo);
        WriteNextResponseByte(CR);
      } else if command == 'p' as int {
        WriteNextResponseByte('S' as int);
      } else if command == 'S' as int {
        WriteAll(SOFTWARE_IDENTIFIER);
      } else if command == 'V' as int {
        WriteAll(['1' as int, '0' as int]);
      } else if command == 's' as int {
        WriteAll([board.signature[2], board.signature[1], board.signature[0]]);
      } else if command == 'b' as int {
        WriteAll(['Y' as int, (board.pageSize / 256) % 256, board.pageSize % 256]);
      } else if command == CHIP_ERASE {
        EraseApplication();
        WriteNextResponseByte(CR);
      } else if command == 'l' as int {
        var _ := FetchNextCommandByte();
        WriteNextResponseByte(CR);
      } else if command == 'r' as int {
        WriteNextResponseByte(board.lockBits);
      } else if command == 'F' as int {
        WriteNextResponseByte(board.lowFuse);
      } else if command == 'N' as int {
        WriteNextResponseByte(board.highFuse);
      } else if command == 'Q' as int {
        WriteNextResponseByte(board.extendedFuse);
      } else if command in {'C' as int, 'c' as int, 'm' as int, 'R' as int, 'D' as int, 'd' as int} {
        SmallMemoryCommand(command);
      } else if command == WRITE_BLOCK || command == READ_BLOCK {
        ReadWriteMemoryBlock(command);
      } else if command == ESCAPE {
        WriteAll([]);
      } else {
        WriteNextResponseByte(QUESTION);
      }
    }

    method CDC_Task()
      requires Valid()
      modifies this
      ensures Valid() && State() == Task(board, old(State()))
    {
      hide Fetch, FlashOk, CdcBoardOk, Dispatch, PutAll;
      if rx.pending != [] {
        rx := NextPacket(rx);
        var command := FetchNextCommandByte();
        RunCommand(command);
        var isEndpointFull := |tx.bank| >= board.endpointSize;
        tx := Send(tx);
        if isEndpointFull { tx := Send(tx); }
        rx := rx.(bank := []);
      }
    }
  }
}
