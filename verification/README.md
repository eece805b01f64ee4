# A verified model of the TeensyUSB store and its LUFA firmware

The repository is a small USB key/value store (a Linux host driver and a Teensy gadget) together with
the LUFA firmware it is built on. This project models the parts that keep state by hand — flash
bootloaders, an in-system programmer, ring buffers, an interrupt-driven debug channel, the store's own
protocol — and proves what they are for.

Each core C file appears twice. A `class` has the source's globals as fields and its functions as
methods, with the source's loops; every method is proved to compute a function of the old state (the
`...Spec` modules and the step functions of the protocol modules). The other modules then prove what that
function means, over every input, every way of cutting data into packets, every interleaving, or every
run of requests.

- **USB** (`Usb.dfy`). An endpoint is a bank plus a queue of packets. `Wrote`, `Delivered` and
  `Answered` say which bytes a sender has delivered and that all packets but the last are full; `Answered`
  also says that the last one is short or empty, the end of a transfer in sections 5.8.3 and 8.5.3.2 of USB 2.0.
- **Self-programming** (`AvrFlash.dfy`, `FlashImage.dfy`). A flash array with a page buffer and the
  operations erase, fill, write and re-enable, where write is a bitwise AND and re-enabling the read-while-write
  section empties the buffer. The page size is symbolic. The field `misuse` counts double loads of a buffer slot
  and writes to a page that has not been erased.
- **DFU bootloader** (`DfuSpec.dfy`, `BootloaderDfu.dfy`, `DfuPackets.dfy`, `DfuTransfer.dfy`,
  `DfuPlacement.dfy`, `DfuSafety.dfy`, `DfuExit.dfy`). Requests as one state machine; how a data stage cut into
  packets is read; downloads, uploads, round trips; which requests put their payload where it belongs; the lock,
  the blank check, the page buffer and the exit handshake over whole runs; the way out, status reports and
  identification.
- **CDC bootloader** (`CdcSpec.dfy`, `BootloaderCdc.dfy`, `CdcTransfer.dfy`, `CdcCommands.dfy`,
  `CdcErase.dfy`). The command loop, block writes and reads of flash and EEPROM, single bytes and words, the
  termination of every answer, and the erase loop whose step is one byte too long.
- **AVRISP programmer** (`SpiTarget.dfy`, `IspSpec.dfy`, `IspProgrammer.dfy`, `IspTransfer.dfy`,
  `IspFlash.dfy`, `IspEeprom.dfy`, `IspReplies.dfy`). The target is a chip that executes four-byte SPI frames; what
  is sent to it, what arrives in its flash and EEPROM, and what the status means.
- **Magnetic stripe reader** (`BitBuffer.dfy`, `Magstripe.dfy`), **USB to serial bridge**
  (`RingBuffer.dfy`, `UsbToSerial.dfy`, `BridgeProgress.dfy`), **store protocol** (`StoreProtocol.dfy`,
  `StoreDevices.dfy`),
  **debug channel** (`DebugChannel.dfy`) and **delay timer** (`Delay.dfy`).

## Main results

- A DFU flash download puts every payload where the request asks for it if and only if its first packet holds
  all of the filler in front of the payload, no packet splits a word of it, the payload is whole words and
  fewer than 64KB, and it starts at a page or stays in its page from an even address
  (`DfuPlacement.DownloadLandsIff`, on an unlocked bootloader with an empty page buffer, for every way of
  cutting the request into non-empty packets the first of which carries the header). A host that sends full
  packets of E bytes may therefore start at offset r > 0 of a page only if 32 + r <= E
  (`DfuPlacement.FullPacketsLandIff`; `AlignmentFillerStored` is the smallest failure, with E = 32). Such a
  download followed by an upload returns the payload (`DfuTransfer.FlashRoundTrip`); for EEPROM the filler in the
  first packet is enough (`DfuTransfer.EepromRoundTrip`).
- A locked DFU bootloader changes no memory and says nothing about it until the request that erases the
  application section (`DfuSafety.SecureRun`, `SecureBlind`, `UnlockErases`). The erase is complete if and only
  if the page buffer is empty (`DfuSafety.EraseBlanksIff`): the first page written takes what a cut-off
  download has left there (`DfuSafety.EraseAfterHalfDownload` reaches this from power-on). Over every run without
  such a download the buffer is empty (`DfuSafety.BufferStaysEmpty`), and a request that carries its whole range
  is none (`DfuSafety.EnoughData`).
- On an unlocked DFU bootloader a start-application command and an empty download request end the main loop with
  the start address the command carried (`DfuExit.StartCompletes`); whether the device waits for its exit is decided
  by the packets of the last download request and the lock (`DfuExit.WaitsIff`), and nothing else ends the loop
  (`DfuSafety.ExitHandshake`).
- A CDC image written in page blocks reads back in any even pieces (`CdcTransfer.CdcRoundTrip`), and an EEPROM
  block is stored cell by cell and reads back (`CdcCommands.EepromRoundTrip`). The CDC
  chip erase blanks the section if and only if BOOT_START_ADDR is at most S * S and the page buffer is empty when
  it starts (`CdcErase.EraseCompleteIff`).
- Bytes written through the programmer in a committed paged write read back, whatever they are, if and only if
  they end in the page they start in and the cells they go to were blank (`IspFlash.PagedRoundTripIff`); a run
  of commands ends on a frame boundary if and only if its SPI_MULTIs add up to whole frames
  (`IspTransfer.FramesAlignedIff`). Bytes written to the target's EEPROM read back if the programmer reports success
  (`IspEeprom.EepromRoundTrip`), a paged write of either memory sends exactly its frames
  (`IspReplies.LoadPageFrames`), and a status of OK means that the target's last answer was accepted
  (`IspReplies.StatusMeans`).
- The store is a register array in every run (`StoreProtocol.ReadReturnsLastWrite`), the debug channel delivers
  each byte once and in order within two frames and sends a packet exactly when one is due
  (`DebugChannel.ChannelDelivers`, `TwoFramesSend`, `PacketsLeave`), and the delay timer is late by one tick per
  counter wrap (`Delay.FiringsExact`, `FiringsTake`).
- The bridge puts on the serial line exactly what the host sent if and only if no copy finds the class driver
  closed, when it stores a 0 of its own (`UsbToSerial.HostToSerialLossless`). Towards the host it loses a byte if
  and only if 128 newer ones overtake it or it is handed over while the driver throws bytes away
  (`UsbToSerial.LostIff`), which a driver does until the host has set a line encoding (`LostBeforeLineEncoding`).
  And it makes progress: byte k from the host is on the line by the time the main loop has made more than 260 (k + 2)
  further steps, however it is interrupted (`BridgeProgress.OnTheLineWithin`), and a byte for the host has been received or
  lost after one turn of the loop for each byte in front of it and one for itself (`BridgeProgress.LeavesWithin`).
- In every run within its capacity the bit buffer is a queue (`BitBuffer.RefinesQueue`). Filled with more bits than
  it has room for, it returns all of them if and only if every bit beyond the capacity is 0
  (`BitBuffer.OverflowIff`), so a swipe is typed as its rising edges if and only if every track fits in that sense
  and counts fewer than 65536 bits (`Magstripe.SwipeTypesCard`).

## Where the code and its documentation differ

The model follows the code.

- DFU_CLRSTATUS leaves the state alone, where section 6.1.3 of USB DFU 1.1 returns to idle
  (gadget/LUFA/Bootloaders/DFU/BootloaderDFU.c:428-435).
- DiscardFillerBytes spends one count on every packet it fetches, so it drops fewer bytes than asked for
  (`DfuPackets.DiscardExactIff`); what is left of the filler is then programmed in front of the payload
  (`DfuPlacement.AlignmentFillerStored`).
- The byte count of a DFU range is 16 bits wide, so a whole 64KB page counts as 0 bytes
  (`DfuTransfer.TransferredIff`).
- 'C' and 'c' of the CDC bootloader leave the page buffer loaded, and 'e' then writes it to page 0
  (`CdcErase.LoadedWordSurvives`). An odd 'B' block loses its last byte (`CdcTransfer.BlockLandsIff`).
  'C' and 'c' fill the same word twice, each with its byte as the low one (`CdcCommands.WordLoadedIff`).
- The completion check by value waits until the memory reads as the poll value, the value of a busy memory
  (`IspEeprom.ValueModeTimesOut`).
- CDC_Device_SendByte of a configured device reports success while it discards its byte, and the bridge ignores the
  result anyway (`UsbToSerial.LostBeforeLineEncoding`).
- Neither end of the bit buffer checks whether it is full or empty (`BitBuffer.OverflowIff`).
- The CDC 'A' command shifts in a 16-bit int and keeps the address only below 0x4000
  (`CdcTransfer.AddressExactIff`).
- The guard of the blob array admits index 256 (`StoreProtocol.GuardOffByOne`).
- Flash programming in word mode tests for the read command and never addresses a high byte
  (`IspFlash.WordModeSkipsHighBytes`), so only a single byte arrives (`IspFlash.WordModeLandsIff`).
- A full SPI_MULTI reply loses its tail (`IspTransfer.MultiExact`).

## Model

| member | source | states |
|---|---|---|
| Usb.WroteMore | gadget/LUFA/Bootloaders/CDC/BootloaderCDC.c:341-360 | a writer that sends its bank when full extends what it has written by exactly the new bytes, all packets sent on the way being full |
| Usb.WroteThenSent | gadget/LUFA/Bootloaders/DFU/BootloaderDFU.c:380-405 | after the last bank is sent, the packets concatenate to exactly the bytes written and all but the last are full |
| Usb.WroteThenEnded | gadget/LUFA/Bootloaders/CDC/BootloaderCDC.c:552-571 | sending the bank, and an empty packet after a full one, ends the transfer with a short packet and loses nothing |
| AvrFlash.BlankAnd | gadget/LUFA/Bootloaders/DFU/BootloaderDFU.c:244-263 | writing an erased page (an AND with all ones) stores the buffer as it is |
| FlashImage.FillLoads | gadget/LUFA/Bootloaders/DFU/BootloaderDFU.c:234-240 | filling the next word of a chunk of at most a page uses a fresh buffer slot and extends the loaded chunk, wrapping at the page end |
| FlashImage.CommitLoaded | gadget/LUFA/Bootloaders/DFU/BootloaderDFU.c:244-250 | the commit puts the loaded chunk into its erased page without misuse, empties the buffer, touches no other page |
| FlashImage.PageTurn | gadget/LUFA/Bootloaders/DFU/BootloaderDFU.c:244-263 | committing a full page and erasing the next one preserves what the rest of the data will look like in flash |
| FlashImage.FillWordsLaid | gadget/LUFA/Bootloaders/DFU/BootloaderDFU.c:214-270 | from the middle of any page, the word loop leaves its data in page-sized chunks laid over consecutive pages, never misuses the hardware and ends with an empty buffer |
| FlashImage.ProgrammedLaid | gadget/LUFA/Bootloaders/DFU/BootloaderDFU.c:214-270 | the same for a whole download from any even address: every page is erased before it is written, no slot is filled twice |
| FlashImage.LaidAligned | gadget/LUFA/Bootloaders/DFU/BootloaderDFU.c:214-270 | chunks laid from a page boundary are the image: data in place, rest of the last page 0xFF, all other cells unchanged |
| FlashImage.LaidBelow | gadget/LUFA/Bootloaders/DFU/BootloaderDFU.c:214-270 | cells below the first page keep their contents, whatever the alignment |
| FlashImage.LaidInPage | gadget/LUFA/Bootloaders/DFU/BootloaderDFU.c:234-250 | an image inside one page lies where it was sent even when it does not start at the page boundary, the rest of the page blank and every other page unchanged |
| FlashImage.OddLands | gadget/LUFA/Bootloaders/DFU/BootloaderDFU.c:234-250 | from an odd address the second byte of the data lands where the first belongs |
| FlashImage.CrossingMisplaced | gadget/LUFA/Bootloaders/DFU/BootloaderDFU.c:240-263 | for every unaligned image size that crosses a page there is data that does not read back |
| FlashImage.WordLoopLandsIff | gadget/LUFA/Bootloaders/DFU/BootloaderDFU.c:214-270 | every n bytes that the word loop is fed read back from its address if and only if the address is page aligned, or even and the data stays inside one page |
| DfuPackets.DiscardExact | gadget/LUFA/Bootloaders/DFU/BootloaderDFU.c:462-482 | with r bytes in the bank and full packets behind, a discard of n drops exactly n bytes if n <= r, else n - ceil((n - r) / (E + 1)) |
| DfuPackets.DiscardDrops | gadget/LUFA/Bootloaders/DFU/BootloaderDFU.c:462-482 | whatever the packets' lengths, a prefix of at most n bytes is dropped, and n bytes if and only if the bank holds them |
| DfuPackets.DiscardExactIff | gadget/LUFA/Bootloaders/DFU/BootloaderDFU.c:462-482 | with full packets the discard drops what it was asked to if and only if the bank already holds it |
| DfuTransfer.LoadCommandCarried | gadget/LUFA/Bootloaders/DFU/BootloaderDFU.c:173-190 | the first packet's six bytes become command and parameters, the remaining size is six less, the rest of the packet is left to be read |
| DfuTransfer.LoadCommandShort | gadget/LUFA/Bootloaders/DFU/BootloaderDFU.c:173-190 | of a shorter first packet the parameters that it holds are read |
| DfuPackets.WordsUsed | gadget/LUFA/Bootloaders/DFU/BootloaderDFU.c:214-231 | the word loop takes at most 2n bytes however the data stage is cut, and all of them if and only if no packet splits a word; what it reads then are the bytes of the stream |
| DfuPackets.WriteWordsOn | gadget/LUFA/Bootloaders/DFU/BootloaderDFU.c:214-270 | for every cut into packets the loop finishes and programs exactly the words it has read |
| DfuPackets.WriteWordsReads | gadget/LUFA/Bootloaders/DFU/BootloaderDFU.c:214-270 | a data stage that splits no word: the loop programs the stream's first 2n bytes and leaves the rest of the stream |
| DfuPackets.SameWords | gadget/LUFA/Bootloaders/DFU/BootloaderDFU.c:214-231 | what the loop reads depends only on the bytes it takes and on how the data stage is cut |
| DfuPackets.WriteEepromReads | gadget/LUFA/Bootloaders/DFU/BootloaderDFU.c:277-296 | however the data stage is cut, the byte loop stores the stream's first n bytes at consecutive addresses and changes no other cell |
| DfuTransfer.DownloadFlash | gadget/LUFA/Bootloaders/DFU/BootloaderDFU.c:196-274 | a placeable flash download leaves the payload in place, the rest of the touched pages 0xFF, all other cells unchanged, no misuse, the buffer empty, in any 64KB page |
| DfuTransfer.DownloadEeprom | gadget/LUFA/Bootloaders/DFU/BootloaderDFU.c:277-296 | an EEPROM download whose filler is in the first packet stores exactly the payload at the range, changes nothing else and leaves the flash alone |
| DfuTransfer.TransferredIff | gadget/LUFA/Bootloaders/DFU/BootloaderDFU.c:203-208 | the loop moves the whole range if and only if the range is an even number of bytes and not the whole 64KB page |
| DfuTransfer.Selected | gadget/LUFA/Bootloaders/DFU/BootloaderDFU.c:584-594 | a display command selects exactly the range it carries for the next upload and changes neither memory |
| DfuTransfer.UploadFlash | gadget/LUFA/Bootloaders/DFU/BootloaderDFU.c:332-368 | an upload delivers exactly the flash contents of the selected range, in full packets but for the last |
| DfuTransfer.UploadEeprom | gadget/LUFA/Bootloaders/DFU/BootloaderDFU.c:370-402 | the same for EEPROM |
| DfuTransfer.FlashRoundTrip | gadget/LUFA/Bootloaders/DFU/BootloaderDFU.c:156-409 | download, select the same range, upload: for every placeable request the IN packets carry exactly the payload |
| DfuTransfer.EepromRoundTrip | gadget/LUFA/Bootloaders/DFU/BootloaderDFU.c:156-409 | the same round trip through EEPROM |
| DfuPlacement.FedStream | gadget/LUFA/Bootloaders/DFU/BootloaderDFU.c:205-209 | behind header and fillers the loop is fed a suffix of the data stage that starts with the payload if and only if the first packet holds all of the filler |
| DfuPlacement.ProgramsRead | gadget/LUFA/Bootloaders/DFU/BootloaderDFU.c:156-274 | for every request, however it is cut and whatever the discards leave, the flash is what programming the words read makes of it |
| DfuPlacement.LastByteUnread | gadget/LUFA/Bootloaders/DFU/BootloaderDFU.c:196-274 | when filler is left, a packet splits a word or the payload is not whole words, its last byte is never read |
| DfuPlacement.DownloadLandsIff | gadget/LUFA/Bootloaders/DFU/BootloaderDFU.c:149-307 | every payload of n bytes reads back from where the request asks it to go if and only if the request is placeable |
| DfuPlacement.FullPacketsLandIff | gadget/LUFA/Bootloaders/DFU/BootloaderDFU.c:149-307 | with full packets of E bytes: if and only if the payload is whole words, fewer than 64KB, and starts at a page, or at an even offset r with 32 + r <= E and stays in its page |
| DfuPlacement.AlignmentFillerStored | gadget/LUFA/Bootloaders/DFU/BootloaderDFU.c:205-209 | pages of 128 bytes, packets of 32, the bytes 1, 2 sent to address 2: a filler byte and 1 are stored |
| DfuSafety.EraseFromCells | gadget/LUFA/Bootloaders/DFU/BootloaderDFU.c:659-672 | the chip erase leaves the page buffer's old contents in the first page, 0xFF in the others and everything from BOOT_START_ADDR on unchanged |
| DfuSafety.EraseBlanksIff | gadget/LUFA/Bootloaders/DFU/BootloaderDFU.c:659-672 | the chip erase blanks the application section if and only if the page buffer was empty |
| DfuSafety.LockedStep | gadget/LUFA/Bootloaders/DFU/BootloaderDFU.c:488-508 | a request to a locked bootloader changes neither memory nor lock, or is the download request that blanks the application section and leaves the EEPROM |
| DfuSafety.SecureRun | gadget/LUFA/Bootloaders/DFU/BootloaderDFU.c:149-508 | over every run during which the lock holds, flash and EEPROM are what they were and the state is idle or error |
| DfuSafety.UnlockErases | gadget/LUFA/Bootloaders/DFU/BootloaderDFU.c:659-679 | the request that opens the lock leaves all of [0, BOOT_START_ADDR) at 0xFF and the EEPROM as it was |
| DfuSafety.SecureBlind | gadget/LUFA/Bootloaders/DFU/BootloaderDFU.c:309-409 | two locked bootloaders that differ only in their memories send the same packets for every run of requests, up to and including the one that unlocks them |
| DfuSafety.SecureNeverReturns | gadget/LUFA/Bootloaders/DFU/BootloaderDFU.c:659-679 | once open, the lock never closes again |
| DfuSafety.FirstNonBlankLeast | gadget/LUFA/Bootloaders/DFU/BootloaderDFU.c:595-621 | the blank check's scan stops at the least non-blank address, or at the limit if there is none |
| DfuSafety.BlankCheckReports | gadget/LUFA/Bootloaders/DFU/BootloaderDFU.c:595-621 | a blank check that finds a non-blank cell records the least one as 64KB page and offset, and the next upload returns its low 16 bits; the command needs only its two bytes |
| DfuSafety.BlankCheckSilent | gadget/LUFA/Bootloaders/DFU/BootloaderDFU.c:595-621 | a blank check of a blank section changes neither state, status nor memory |
| DfuSafety.ChipErases | gadget/LUFA/Bootloaders/DFU/BootloaderDFU.c:627-680 | the chip erase command, locked or not and whatever its other parameters, blanks the section, opens the lock and leaves state and status alone |
| DfuSafety.ErasedChecksBlank | gadget/LUFA/Bootloaders/DFU/BootloaderDFU.c:595-672 | a chip erase followed by a blank check, locked or not, leaves state and status alone |
| DfuSafety.StepTakes | gadget/LUFA/Bootloaders/DFU/BootloaderDFU.c:149-455 | what one request can do to the exit flags, the jump address and the state: four states only, and a jump only together with the wait flag |
| DfuSafety.RunTakes | gadget/LUFA/Bootloaders/DFU/BootloaderDFU.c:149-455 | over every run the state is idle, download-idle, upload-idle or error, and AppStartPtr is the address of the last start-by-jump command processed without data, if any |
| DfuSafety.WaitStarted | gadget/LUFA/Bootloaders/DFU/BootloaderDFU.c:627-658 | a device that waits for its exit has been sent a start-application command before |
| DfuSafety.ExitHandshake | gadget/LUFA/Bootloaders/DFU/BootloaderDFU.c:106-193 | the main loop's condition becomes false only on a download request that follows an earlier one carrying a start-application command, and AppStartPtr then is the address of the last start-by-jump command |
| DfuSafety.WriteWordsEmptiesBuffer | gadget/LUFA/Bootloaders/DFU/BootloaderDFU.c:214-270 | a programming loop that is not cut short leaves the page buffer empty |
| DfuSafety.StepKeepsEmpty | gadget/LUFA/Bootloaders/DFU/BootloaderDFU.c:149-455 | every request but a flash download whose data stage ends early leaves an empty page buffer empty |
| DfuSafety.BufferStaysEmpty | gadget/LUFA/Bootloaders/DFU/BootloaderDFU.c:149-455 | over every run without such a download the page buffer is empty |
| DfuSafety.EnoughData | gadget/LUFA/Bootloaders/DFU/BootloaderDFU.c:156-274 | a flash download request whose packets hold the header, the fillers and the whole range is not cut short, whatever the state and the lock |
| DfuSafety.EraseAfterHalfDownload | gadget/LUFA/Bootloaders/DFU/BootloaderDFU.c:216-231 | from power-on, a download whose host is gone after one of its two words and then a chip erase leave page 0 not blank, with state idle and status OK |
| DfuExit.WaitsIff | gadget/LUFA/Bootloaders/DFU/BootloaderDFU.c:149-193 | after a download request the device waits for its exit if and only if the first packet carries a start-application command and the lock is open; no other request changes that |
| DfuExit.StartCompletes | gadget/LUFA/Bootloaders/DFU/BootloaderDFU.c:106-196 | a start-application command, whatever went before it and whatever follows it in its packets, and an empty download request end the main loop with AppStartPtr the address carried |
| DfuExit.WatchdogKeepsRunning | gadget/LUFA/Bootloaders/DFU/BootloaderDFU.c:627-658 | a start by watchdog leaves the loop running and AppStartPtr alone |
| DfuExit.EmptyRequestEnds | gadget/LUFA/Bootloaders/DFU/BootloaderDFU.c:190-202 | with no exit pending an empty download request ends a download and does nothing else |
| DfuExit.StatusSent | gadget/LUFA/Bootloaders/DFU/BootloaderDFU.c:408-445 | the six bytes of DFU_GETSTATUS, status first and state fifth, and the one of DFU_GETSTATE |
| DfuExit.RefusalReported | gadget/LUFA/Bootloaders/DFU/BootloaderDFU.c:408-508 | what a host reads after a locked device has refused a command, after clearing the status and after aborting |
| DfuExit.UploadEnds | gadget/LUFA/Bootloaders/DFU/BootloaderDFU.c:309-407 | every upload ends a selection and changes no memory and no other state |
| DfuExit.IdentificationIff | gadget/LUFA/Bootloaders/DFU/BootloaderDFU.c:685-703 | a read command and an upload return the identification or signature byte asked for, locked or not, if and only if the upload is not due for a range or, for a signature byte, for an error |
| DfuExit.UnrecognisedIgnored | gadget/LUFA/Bootloaders/DFU/BootloaderDFU.c:510-531 | a command outside the protocol, by its first three bytes, has no effect |
| DfuExit.BaseThenDownload | gadget/LUFA/Bootloaders/DFU/BootloaderDFU.c:525-529 | after a change of the base address a placeable download lies in the 64KB page that was named |
| BootloaderDfu.Bootloader.constructor | gadget/LUFA/Bootloaders/DFU/BootloaderDFU.c:43-93 | the globals at power-on, with SECURE_MODE and the memories arbitrary |
| BootloaderDfu.Bootloader.Serve | gadget/LUFA/Bootloaders/DFU/BootloaderDFU.c:106-107 | the main loop handles requests in order for exactly as long as RunBootloader or WaitForExit holds |
| BootloaderDfu.Bootloader.UnhandledControlRequest | gadget/LUFA/Bootloaders/DFU/BootloaderDFU.c:149-455 | the handler's new state is the step function's, for every request |
| BootloaderDfu.Bootloader.Dnload | gadget/LUFA/Bootloaders/DFU/BootloaderDFU.c:156-307 | the download branch: exit handshake, command, firmware, in that order, with every early return |
| BootloaderDfu.Bootloader.WriteFlash | gadget/LUFA/Bootloaders/DFU/BootloaderDFU.c:214-270 | the word loop with its page counter and page start computes the specified flash and leaves the specified packets |
| BootloaderDfu.Bootloader.WriteEepromBytes | gadget/LUFA/Bootloaders/DFU/BootloaderDFU.c:277-296 | the byte loop, with StartAddr advancing modulo 65536 |
| BootloaderDfu.Bootloader.Upload | gadget/LUFA/Bootloaders/DFU/BootloaderDFU.c:309-409 | the upload branch in each of its states: blank-check report, response byte, flash words, EEPROM bytes |
| BootloaderDfu.Bootloader.DiscardFillerBytes | gadget/LUFA/Bootloaders/DFU/BootloaderDFU.c:462-482 | the discarding loop, including the count spent on each fetched packet |
| BootloaderDfu.Bootloader.ProcessBootloaderCommand | gadget/LUFA/Bootloaders/DFU/BootloaderDFU.c:488-531 | the secure filter and the dispatch of the five commands |
| BootloaderDfu.Bootloader.ProcessMemProgCommand | gadget/LUFA/Bootloaders/DFU/BootloaderDFU.c:553-578 | range, first page erased for flash only, state |
| BootloaderDfu.Bootloader.ProcessMemReadCommand | gadget/LUFA/Bootloaders/DFU/BootloaderDFU.c:584-622 | display selection and the blank-check loop with its early exit |
| BootloaderDfu.Bootloader.ProcessWriteCommand | gadget/LUFA/Bootloaders/DFU/BootloaderDFU.c:627-680 | start-application and the chip erase |
| BootloaderDfu.Bootloader.EraseApplication | gadget/LUFA/Bootloaders/DFU/BootloaderDFU.c:659-672 | the loop of the chip erase |
| CdcTransfer.FetchHolds | gadget/LUFA/Bootloaders/CDC/BootloaderCDC.c:315-334 | fetching skips exhausted and empty packets and yields the transfer's next byte, however it was cut |
| CdcTransfer.TaskAnswers | gadget/LUFA/Bootloaders/CDC/BootloaderCDC.c:552-585 | whatever the command, its answer leaves as one transfer of full packets ended by a short or empty one |
| CdcTransfer.AddressExactIff | gadget/LUFA/Bootloaders/CDC/BootloaderCDC.c:398-406 | 'A' sets twice the word address if and only if the high byte is below 0x40 |
| CdcTransfer.SetAddress | gadget/LUFA/Bootloaders/CDC/BootloaderCDC.c:398-406 | an 'A' command changes nothing but the address, to the shifted one, and answers one carriage return |
| CdcTransfer.BlockLandsIff | gadget/LUFA/Bootloaders/CDC/BootloaderCDC.c:246-290 | every block of n bytes, odd or even and however long, reads back if and only if n is even and it ends in the page of its first byte |
| CdcTransfer.WriteBlock | gadget/LUFA/Bootloaders/CDC/BootloaderCDC.c:246-308 | a 'B' command over any packets programs the whole words of its block and advances CurrAddress by exactly their length |
| CdcTransfer.ReadBlock | gadget/LUFA/Bootloaders/CDC/BootloaderCDC.c:215-244 | a 'g' command answers exactly the flash bytes from CurrAddress on, advances it by the whole words among them and empties the page buffer |
| CdcTransfer.WriteImage | gadget/LUFA/Bootloaders/CDC/BootloaderCDC.c:246-308 | full-page blocks, the last one possibly shorter, lay an image over its pages without misuse |
| CdcTransfer.ReadImage | gadget/LUFA/Bootloaders/CDC/BootloaderCDC.c:215-244 | blocks of any even lengths return the flash contents without gap or overlap |
| CdcTransfer.CdcRoundTrip | gadget/LUFA/Bootloaders/CDC/BootloaderCDC.c:199-308 | set address, write an image in page blocks, set address, read in any even split: the responses concatenate to the image, which is in place with all other cells unchanged |
| CdcCommands.WriteEeprom | gadget/LUFA/Bootloaders/CDC/BootloaderCDC.c:274-308 | a 'B' command on EEPROM, cut in any way, stores its data from cell w on, changes no other cell and advances CurrAddress by two for each byte |
| CdcCommands.ReadEeprom | gadget/LUFA/Bootloaders/CDC/BootloaderCDC.c:236-243 | a 'g' command on EEPROM answers the cells from w on |
| CdcCommands.EepromRoundTrip | gadget/LUFA/Bootloaders/CDC/BootloaderCDC.c:199-308 | set address w, write a block, set address w, read it back: the cells are the data spliced in at w, the flash is as it was and the answer is the data |
| CdcCommands.OtherMemory | gadget/LUFA/Bootloaders/CDC/BootloaderCDC.c:211-218 | a block command for another memory is answered with a question mark and changes nothing |
| CdcCommands.EepromByte | gadget/LUFA/Bootloaders/CDC/BootloaderCDC.c:523-541 | 'D' stores its byte in cell w, 'd' answers cell w, and both select the next cell |
| CdcCommands.FlashWord | gadget/LUFA/Bootloaders/CDC/BootloaderCDC.c:512-522 | 'R' answers the word at the current address, high byte first |
| CdcCommands.WordLoadedIff | gadget/LUFA/Bootloaders/CDC/BootloaderCDC.c:477-495 | 'C' and 'c' leave the byte of 'c' and a 0 in the slot and load it twice, so that the word is the one meant if and only if its high byte is 0 |
| CdcCommands.PageCommitted | gadget/LUFA/Bootloaders/CDC/BootloaderCDC.c:496-506 | 'm' ANDs the buffer into the page of the current address, changes no other cell and empties the buffer |
| CdcCommands.Identified | gadget/LUFA/Bootloaders/CDC/BootloaderCDC.c:376-476 | the answers of the commands that only report, byte by byte |
| CdcCommands.ArgumentIgnored | gadget/LUFA/Bootloaders/CDC/BootloaderCDC.c:380-381 | 'T' and 'l' take their argument, however it is cut, and have no effect |
| CdcCommands.UnknownRefused | gadget/LUFA/Bootloaders/CDC/BootloaderCDC.c:546-550 | a command that is none of the 27 is answered with a question mark and has no effect |
| CdcCommands.ExitIff | gadget/LUFA/Bootloaders/CDC/BootloaderCDC.c:376-384 | a command ends the main loop if and only if it is 'E' |
| CdcErase.ErasedInStep | gadget/LUFA/Bootloaders/CDC/BootloaderCDC.c:437-448 | step k of the erase loop erases page k + k / S |
| CdcErase.ErasedIff | gadget/LUFA/Bootloaders/CDC/BootloaderCDC.c:437-448 | an application page is erased if and only if it is not congruent to S modulo S + 1 |
| CdcErase.ErasedOnce | gadget/LUFA/Bootloaders/CDC/BootloaderCDC.c:437-448 | pages are erased in increasing order, each at most once, none outside the application section |
| CdcErase.EraseSweepLeaves | gadget/LUFA/Bootloaders/CDC/BootloaderCDC.c:437-452 | the contents of every cell after the 'e' command, page 0 taking what the page buffer held |
| CdcErase.EraseCompleteIff | gadget/LUFA/Bootloaders/CDC/BootloaderCDC.c:437-452 | 'e' blanks the application section, whatever was in it, if and only if BOOT_START_ADDR <= S * S and the page buffer is empty (or there is no section) |
| CdcErase.LoadedWordSurvives | gadget/LUFA/Bootloaders/CDC/BootloaderCDC.c:477-495 | 'e' directly after a 'C' or 'c' never blanks the section |
| BootloaderCdc.Bootloader.FetchNextCommandByte | gadget/LUFA/Bootloaders/CDC/BootloaderCDC.c:315-334 | the fetch loop over packets |
| BootloaderCdc.Bootloader.WriteNextResponseByte | gadget/LUFA/Bootloaders/CDC/BootloaderCDC.c:341-360 | a full bank is sent before the byte is written |
| BootloaderCdc.Bootloader.ReadWriteMemoryBlock | gadget/LUFA/Bootloaders/CDC/BootloaderCDC.c:199-308 | the whole block command, flash and EEPROM, both directions, and the '?' answer |
| BootloaderCdc.Bootloader.LoadFlashBytes | gadget/LUFA/Bootloaders/CDC/BootloaderCDC.c:256-272 | the byte-pairing loop with its high-byte flag |
| BootloaderCdc.Bootloader.ReadFlashBytes | gadget/LUFA/Bootloaders/CDC/BootloaderCDC.c:220-233 | the read loop with its high-byte flag |
| BootloaderCdc.Bootloader.EraseApplication | gadget/LUFA/Bootloaders/CDC/BootloaderCDC.c:437-448 | the erase loop with both of its increments |
| BootloaderCdc.Bootloader.CDC_Task | gadget/LUFA/Bootloaders/CDC/BootloaderCDC.c:365-586 | one command per task run, its answer, its ending, and the dropped rest of the packet |
| SpiTarget.FrameExecutes | gadget/LUFA/Projects/AVRISP/Lib/V2Protocol.c:350-353 | on a frame boundary four SPI bytes are one instruction, and a read is answered in its fourth byte |
| IspTransfer.FramesAlignedIff | gadget/LUFA/Projects/AVRISP/Lib/V2Protocol.c:43-92 | a run of commands from a frame boundary ends on one, and sends whole frames, if and only if its SPI_MULTIs add up to a multiple of four bytes |
| IspTransfer.FramesAligned | gadget/LUFA/Projects/AVRISP/Lib/V2Protocol.c:294-570 | every run without SPI_MULTI sends whole frames, including retries, polling and early breaks |
| IspTransfer.CommandSent | gadget/LUFA/Projects/AVRISP/Lib/V2Protocol.c:235-514 | how far each command moves the target within its frame |
| IspTransfer.PollSent | gadget/LUFA/Projects/AVRISP/Lib/V2ProtocolTarget.c:122-171 | polling sends whole frames however long it lasts |
| IspTransfer.ExchangeAnswers | gadget/LUFA/Projects/AVRISP/Lib/V2Protocol.c:536-537 | the answer recorded at a position is the one the target gave to the byte at that position |
| IspTransfer.MultiExact | gadget/LUFA/Projects/AVRISP/Lib/V2Protocol.c:573-619 | SPI_MULTI sends exactly RxStartAddr + RxBytes bytes, the i-th being TxData[i] or 0, and replies with the answers from RxStartAddr on; the reply survives whole if and only if RxBytes <= 61 |
| IspTransfer.ConfigExact | gadget/LUFA/Projects/AVRISP/Lib/V2Protocol.c:521-544 | a configuration read sends its four bytes and replies with what the target answered to the byte at position RetByte |
| IspTransfer.SynchroniseFirst | gadget/LUFA/Projects/AVRISP/Lib/V2Protocol.c:235-258 | the enter-programming bytes are repeated up to and including the first attempt in which the target's answer to byte PollIndex is the one expected, and the command fails if and only if none of the allowed attempts is accepted |
| IspFlash.ByteAddress | gadget/LUFA/Projects/AVRISP/Lib/V2Protocol.c:350-369 | byte i of a transfer addresses word a + i / 2 of its 64K-word bank, low or high by parity |
| IspFlash.LoadPagePours | gadget/LUFA/Projects/AVRISP/Lib/V2Protocol.c:332-371 | the paged loop puts byte i into slot (2a + i) mod S of the target's page buffer and changes nothing else in it |
| IspFlash.PageProgrammed | gadget/LUFA/Projects/AVRISP/Lib/V2Protocol.c:294-423 | whatever page and page buffer hold, a committed paged write ANDs the filled buffer into the page of the current address, if the chip has one there, empties it and changes nothing else |
| IspFlash.WaitQuiet | gadget/LUFA/Projects/AVRISP/Lib/V2ProtocolTarget.c:112-147 | waiting for completion changes neither memory nor buffer of the target, in every completion mode |
| IspFlash.PageLands | gadget/LUFA/Projects/AVRISP/Lib/V2Protocol.c:332-382 | data that ends in its page: byte i is ANDed into the half of word A + i / 2 that its parity says, and the other cells of the page with what the page buffer held |
| IspFlash.ErasedPageLands | gadget/LUFA/Projects/AVRISP/Lib/V2Protocol.c:332-382 | in an erased page, with an empty buffer, the data is stored as it is and the rest of the chip is unchanged |
| IspFlash.ReadBytesReads | gadget/LUFA/Projects/AVRISP/Lib/V2Protocol.c:446-472 | the read loop returns consecutive bytes of the bank from the current address on and changes nothing in the target |
| IspFlash.WrittenRead | gadget/LUFA/Projects/AVRISP/Lib/V2Protocol.c:178-484 | the reply of that sequence is what the bank read of the chip after the write returns, for any data |
| IspFlash.PagedRoundTripIff | gadget/LUFA/Projects/AVRISP/Lib/V2Protocol.c:178-484 | load-address, committed write, load-address, read: the reply carries every n bytes written if and only if they end in the page of the loaded address and the cells they go to exist and were blank; page and page buffer may hold anything |
| IspFlash.WordModeSkipsHighBytes | gadget/LUFA/Projects/AVRISP/Lib/V2Protocol.c:384-418 | flash programming in word mode never reaches a high byte, whatever the data |
| IspFlash.WordModeLandsIff | gadget/LUFA/Projects/AVRISP/Lib/V2Protocol.c:384-418 | word mode fills the page buffer as paged mode does, for every n bytes, if and only if n is at most 1 |
| IspEeprom.ByteModeStores | gadget/LUFA/Projects/AVRISP/Lib/V2Protocol.c:384-418 | the byte mode stores byte i in EEPROM cell address + i, up to and including the first byte whose completion is not reported, and all bytes if the status is OK |
| IspEeprom.ByteReadsBack | gadget/LUFA/Projects/AVRISP/Lib/V2Protocol.c:446-472 | an EEPROM read returns consecutive cells and changes nothing in the target |
| IspEeprom.EepromRoundTrip | gadget/LUFA/Projects/AVRISP/Lib/V2Protocol.c:178-484 | load-address, write in byte mode, load-address, read: the cells hold a prefix of the data, all of it if the reply says OK, nothing else in the chip has changed, and the bytes read are the data |
| IspEeprom.ValueModeTimesOut | gadget/LUFA/Projects/AVRISP/Lib/V2ProtocolTarget.c:124-139 | on a target that is done at once the value check accepts no byte but the poll value: the byte is stored and the command ends with a timeout behind it |
| IspReplies.PollFirst | gadget/LUFA/Projects/AVRISP/Lib/V2ProtocolTarget.c:125-136 | a frame is polled up to and including the first accepted answer or the first reading of the timer over the limit |
| IspReplies.StatusMeans | gadget/LUFA/Projects/AVRISP/Lib/V2ProtocolTarget.c:125-147 | with a timer that does not run backwards a status of OK means that the last answer was accepted, and no earlier one was |
| IspReplies.ReadyMeans | gadget/LUFA/Projects/AVRISP/Lib/V2ProtocolTarget.c:154-171 | for the busy flag: OK means that bit 0 of the last answer was 0, and it was 1 in all before |
| IspReplies.CompletionByMode | gadget/LUFA/Projects/AVRISP/Lib/V2ProtocolTarget.c:118-147 | which programming modes poll what, with which status, and that all others send nothing |
| IspReplies.LoadPageFrames | gadget/LUFA/Projects/AVRISP/Lib/V2Protocol.c:332-371 | the paged loop sends for byte j the load command with its half bit, the address of word a + j / 2 in flash or cell a + j in EEPROM, and the byte, and leaves the address behind the last byte |
| IspReplies.PagedFrames | gadget/LUFA/Projects/AVRISP/Lib/V2Protocol.c:294-382 | a paged command sends these frames and then, if the mode asks for it, the commit at the address that was loaded |
| IspReplies.BlankNotPolled | gadget/LUFA/Projects/AVRISP/Lib/V2Protocol.c:372-381 | a page of poll values is committed without any polling, whatever the mode |
| IspReplies.PollPlace | gadget/LUFA/Projects/AVRISP/Lib/V2Protocol.c:355-366 | in a transfer that does not start at address 0 the first byte that differs is polled, at its address and in its half of the word |
| IspReplies.AddressSent | gadget/LUFA/Projects/AVRISP/Lib/V2Protocol.c:178-191 | the address is the four bytes most significant first, and bits 16 to 23 go to the target if and only if the top bit is set |
| IspReplies.TooLongRefused | gadget/LUFA/Projects/AVRISP/Lib/V2Protocol.c:306-319 | more than 256 bytes are refused before anything is sent |
| IspReplies.ChipEraseSent | gadget/LUFA/Projects/AVRISP/Lib/V2Protocol.c:487-514 | the four bytes are sent, and the busy flag is polled if and only if the poll method is not 0 |
| IspReplies.ConfigWritten | gadget/LUFA/Projects/AVRISP/Lib/V2Protocol.c:551-570 | the four bytes are sent and success is reported |
| IspReplies.EnterSent | gadget/LUFA/Projects/AVRISP/Lib/V2Protocol.c:209-263 | the address is reset, the bytes are sent once for each attempt, and the reply says whether one was accepted |
| IspProgrammer.WroteEagerly | gadget/LUFA/Projects/AVRISP/Lib/V2Protocol.c:462-467 | sending the bank as soon as it is full keeps the reply's bytes and its full packets |
| IspProgrammer.Programmer.LoadExtended | gadget/LUFA/Projects/AVRISP/Lib/V2ProtocolTarget.c:177-183 | one frame carrying bits 16 to 23 of the address |
| IspProgrammer.Programmer.WaitWhileBusy | gadget/LUFA/Projects/AVRISP/Lib/V2ProtocolTarget.c:154-171 | the polling loop with its timer, and the status |
| IspProgrammer.Programmer.WaitForComplete | gadget/LUFA/Projects/AVRISP/Lib/V2ProtocolTarget.c:112-147 | the three completion modes |
| IspProgrammer.Programmer.SetAddress | gadget/LUFA/Projects/AVRISP/Lib/V2Protocol.c:178-191 | big-endian address, extended byte only when bit 31 is set |
| IspProgrammer.Programmer.EnterISPMode | gadget/LUFA/Projects/AVRISP/Lib/V2Protocol.c:209-263 | the synchronisation loop with its retry count and polled answer |
| IspProgrammer.Programmer.LoadPageBytes | gadget/LUFA/Projects/AVRISP/Lib/V2Protocol.c:332-371 | the paged loop with commands, poll address and CurrentAddress updated in place |
| IspProgrammer.Programmer.WriteWords | gadget/LUFA/Projects/AVRISP/Lib/V2Protocol.c:384-418 | the word loop with its early break |
| IspProgrammer.Programmer.ProgramMemoryCommand | gadget/LUFA/Projects/AVRISP/Lib/V2Protocol.c:294-423 | both modes, the commit, the switch to timed delay, the length check and the reply |
| IspProgrammer.Programmer.ReadMemoryCommand | gadget/LUFA/Projects/AVRISP/Lib/V2Protocol.c:430-484 | the reply leaves as one transfer of full packets ended by a short or empty one, and carries status, data, status |
| IspProgrammer.Programmer.ChipEraseCommand | gadget/LUFA/Projects/AVRISP/Lib/V2Protocol.c:487-514 | the four bytes, the completion method, the status |
| IspProgrammer.Programmer.ReadFuseLockSigOSCCAL | gadget/LUFA/Projects/AVRISP/Lib/V2Protocol.c:521-544 | the four bytes and the selected answer |
| IspProgrammer.Programmer.WriteFuseLock | gadget/LUFA/Projects/AVRISP/Lib/V2Protocol.c:551-570 | the four bytes and the reply |
| IspProgrammer.Programmer.SPIMulti | gadget/LUFA/Projects/AVRISP/Lib/V2Protocol.c:573-619 | both loops with their two positions send the padded bytes and put every answer into the bank, which keeps what it has room for |
| BitBuffer.HoldsStored | gadget/LUFA/Projects/Magstripe/Lib/CircularBitBuffer.c:53-79 | storing only sets bits, and still appends the new bit to the live window because all bits outside it are 0 |
| BitBuffer.HoldsFetched | gadget/LUFA/Projects/Magstripe/Lib/CircularBitBuffer.c:82-113 | fetching returns the oldest bit and clears it, which keeps the bits outside the window 0 |
| BitBuffer.FullStore | gadget/LUFA/Projects/Magstripe/Lib/CircularBitBuffer.c:53-79 | a store into a full buffer lands on the oldest bit, which becomes the OR of both |
| BitBuffer.ZeroHoldsNothing | gadget/LUFA/Projects/Magstripe/Lib/CircularBitBuffer.c:40-50 | Init leaves an empty window only because the memory is zero to begin with |
| BitBuffer.RefinesQueue | gadget/LUFA/Projects/Magstripe/Lib/CircularBitBuffer.c:53-113 | every run of stores and fetches within the capacity returns what a queue returns and ends holding what the queue holds |
| BitBuffer.OverflowIff | gadget/LUFA/Projects/Magstripe/Lib/CircularBitBuffer.c:53-113 | any number of bits stored behind those held: fetching them all returns them if and only if every bit from the capacity on is 0 |
| BitBuffer.Buffer.StoreNextBit | gadget/LUFA/Projects/Magstripe/Lib/CircularBitBuffer.c:53-79 | the store on packed bytes, mask, pointer and 16-bit count, full or not |
| BitBuffer.Buffer.GetNextBit | gadget/LUFA/Projects/Magstripe/Lib/CircularBitBuffer.c:82-113 | the fetch on packed bytes, mask, pointer and 16-bit count, empty or not |
| Magstripe.SampledIsEdges | gadget/LUFA/Projects/Magstripe/Magstripe.c:119-139 | the sampling loop stores exactly the data levels at the rising clock edges, in order |
| Magstripe.ReportTypes | gadget/LUFA/Projects/Magstripe/Magstripe.c:171-200 | a report that is no release types the next key of what the buffers will deliver, a release types none |
| Magstripe.TypesExactly | gadget/LUFA/Projects/Magstripe/Magstripe.c:171-200 | of all key sequences, the reports to come (every other one a release, KEY_NONE behind the last key) type what the buffers deliver and no other |
| Magstripe.UsagesTyped | gadget/LUFA/Projects/Magstripe/Magstripe.c:185-197 | a track is typed as usage 30 for each 1, 39 for each 0 and 40 behind them |
| Magstripe.SwipeTypesCard | gadget/LUFA/Projects/Magstripe/Magstripe.c:108-200 | after a swipe the reports type, track by track, the bits still unsent, the data levels at the rising edges and ENTER, if and only if on every track they are fewer than 65536 and 0 from MAX_BITS on |
| Magstripe.Firmware.ReadMagstripeData | gadget/LUFA/Projects/Magstripe/Magstripe.c:108-140 | the sampling loop stores into the three buffers as specified, whatever they hold, and points at the first track |
| Magstripe.Firmware.CreateHIDReport | gadget/LUFA/Projects/Magstripe/Magstripe.c:171-200 | the callback's key, its static flag, the buffer it empties and the track pointer |
| RingBuffer.RingBuff.StoreElement | gadget/LUFA/Projects/USBtoSerial/Lib/RingBuff.c:43-74 | appends, giving up the oldest element when full |
| RingBuffer.RingBuff.GetElement | gadget/LUFA/Projects/USBtoSerial/Lib/RingBuff.c:76-99 | returns and removes the oldest element |
| UsbToSerial.StepInv | gadget/LUFA/Projects/USBtoSerial/USBtoSerial.c:81-157 | every step of main loop, interrupt and host keeps the bridge's invariant, so a buffer found non-empty still is when it is read |
| UsbToSerial.HostToSerialLossless | gadget/LUFA/Projects/USBtoSerial/USBtoSerial.c:81-102 | in every interleaving the line and the buffer hold what was copied, in order; with the endpoint they hold exactly what the host sent if and only if no copy found the driver closed |
| UsbToSerial.LostIff | gadget/LUFA/Projects/USBtoSerial/USBtoSerial.c:151-157 | a byte towards the host is lost if and only if at some step 128 newer ones overrun it or it is handed to a driver that throws it away |
| UsbToSerial.LostBeforeLineEncoding | gadget/LUFA/LUFA/Drivers/USB/Class/Device/CDC.c:138-141 | a run that loses its only byte: received on a configured device whose baud rate is still 0, stored, handed over and gone |
| UsbToSerial.SerialToHostOrdered | gadget/LUFA/Projects/USBtoSerial/USBtoSerial.c:81-157 | what is written to the IN endpoint is an in-order subsequence of what was stored, what waits is the newest part, and no empty buffer is read |
| BridgeProgress.TurnExact | gadget/LUFA/Projects/USBtoSerial/USBtoSerial.c:81-102 | one turn of the main loop, under any interleaving, copies what it counted as far as there is room and transmits exactly one byte if any then waits |
| BridgeProgress.LineProgress | gadget/LUFA/Projects/USBtoSerial/USBtoSerial.c:81-102 | over any run the number of bytes on the serial line grows by one with every turn while there is a byte on its way, and never by more |
| BridgeProgress.TurnsEnd | gadget/LUFA/Projects/USBtoSerial/USBtoSerial.c:81-102 | a turn takes at most 260 steps of the main loop |
| BridgeProgress.OnTheLine | gadget/LUFA/Projects/USBtoSerial/USBtoSerial.c:81-102 | byte k from the host is on the serial line, in its place, once the loop has come round for it and the bytes before it |
| BridgeProgress.OnTheLineWithin | gadget/LUFA/Projects/USBtoSerial/USBtoSerial.c:81-102 | the same as a bound in steps of the main loop, from any state it may be in |
| BridgeProgress.LeavesWithin | gadget/LUFA/Projects/USBtoSerial/USBtoSerial.c:92-94 | a byte from the serial line has been received by the host or is lost after one turn for each byte in front of it and one for itself |
| BridgeProgress.HostProgress | gadget/LUFA/Projects/USBtoSerial/USBtoSerial.c:92-94 | with a driver that sends, every turn sends the host one byte if one waits, and never more |
| BridgeProgress.HostTurnExact | gadget/LUFA/Projects/USBtoSerial/USBtoSerial.c:92-94 | one turn that finds a byte waiting sends exactly one |
| UsbToSerial.Firmware.ReceiveInterrupt | gadget/LUFA/Projects/USBtoSerial/USBtoSerial.c:151-157 | the interrupt stores only on a configured device |
| UsbToSerial.Firmware.MainLoopStep | gadget/LUFA/Projects/USBtoSerial/USBtoSerial.c:81-102 | each step of the main loop, test and operation apart, with every outcome of the class driver calls |
| UsbToSerial.Firmware.ReceiveByte | gadget/LUFA/LUFA/Drivers/USB/Class/Device/CDC.c:199-212 | an open driver yields the next byte of the endpoint, a closed one 0 and takes nothing |
| UsbToSerial.Firmware.SendByte | gadget/LUFA/LUFA/Drivers/USB/Class/Device/CDC.c:138-158 | the byte is written if and only if the driver is open and a full bank is followed by one that becomes ready |
| StoreProtocol.GuardOffByOne | gadget/teensy_blobs.c:16-40 | the guard admits exactly one index that is not in the array |
| StoreProtocol.PassKeepsEffective | gadget/main.c:103-149 | a polling pass does not change the register contents as the host sees them, whatever waits in the banks |
| StoreProtocol.PassSettles | gadget/main.c:103-149 | after one pass the blob array itself is the register array and the banks are free |
| StoreProtocol.StepInv | gadget/main.c:103-149 | every step of host, driver and gadget keeps the refinement |
| StoreProtocol.StoreRefinesRegisters | gadget/main.c:103-149 | in every run the store behaves as a 256-entry register array |
| StoreProtocol.ReadReturnsLastWrite | file_ops.c:23-180 | from power-on, every read returns the data of the last write to its index, or 0 when it was erased later or never written |
| StoreProtocol.ReadBecomesReady | gadget/main.c:110-119 | two passes after its command a read finds its value, whatever the banks held before |
| StoreProtocol.UnseparatedWriteIff | gadget/main.c:121-148 | if command and data meet in one pass, every value arrives if and only if the previous command was a store to the same index |
| StoreProtocol.UnseparatedReadIff | gadget/main.c:110-148 | if a READ's transfer is served from the bank that the pass before it filled, it returns its own register for all contents if and only if the previous command was a read of the same index |
| StoreProtocol.StaleRead | file_ops.c:52-69 | a reachable state in which a READ of register 2 finds register 1's value when no pass comes between command and transfer |
| StoreDevices.BlobStore.Store | gadget/teensy_blobs.c:16-22 | the guarded array store and its status |
| StoreDevices.BlobStore.Read | gadget/teensy_blobs.c:24-31 | the guarded array read and its status |
| StoreDevices.BlobStore.Delete | gadget/teensy_blobs.c:33-40 | the guarded delete and its status |
| StoreDevices.GadgetDevice.StoreTask | gadget/main.c:103-149 | one polling pass over the three endpoints in the source's order |
| StoreDevices.Driver.Read | file_ops.c:23-83 | a read that meets no fault returns the register's value, and no read changes a register, on every error path |
| StoreDevices.Driver.Write | file_ops.c:85-138 | a write sets its register exactly when no step fails |
| StoreDevices.Driver.Ioctl | file_ops.c:140-180 | an erase clears its register exactly when it was sent, and the result of each path, decided by type and number first and then by the whole command word |
| DebugChannel.StepInv | gadget/usb_debug_only.c:253-365 | every step keeps the channel's invariant |
| DebugChannel.ChannelDelivers | gadget/usb_debug_only.c:253-365 | in every interleaving all packets are 32 bytes, accepted bytes appear once and in order with zeros only behind them, and the bank is partly filled exactly when the flush timer runs |
| DebugChannel.TwoFramesSend | gadget/usb_debug_only.c:351-365 | two frames after the last putchar everything accepted has been sent |
| DebugChannel.FlushSends | gadget/usb_debug_only.c:307-322 | a flush sends everything accepted: exactly one packet, the bank and zeros, if the bank holds anything, and otherwise nothing changes |
| DebugChannel.PacketsLeave | gadget/usb_debug_only.c:285-365 | a packet leaves, with the bank and zeros, exactly with the 32nd byte, a flush, or the second frame after the last byte |
| DebugChannel.Device.Putchar | gadget/usb_debug_only.c:253-303 | a putchar accepts its byte once or not at all, waits through any events, gives up with the fourth frame, and fails at once after an earlier timeout |
| DebugChannel.Device.FlushOutput | gadget/usb_debug_only.c:307-322 | a flush pads and sends a bank that is partly filled, and does nothing else |
| DebugChannel.Device.StartOfFrame | gadget/usb_debug_only.c:351-365 | the countdown and the flush at its end |
| DebugChannel.SendDescriptor | gadget/usb_debug_only.c:444-459 | the packets carry the requested part of the descriptor, all full but the last, which is short or empty |
| Delay.Scheduler.HasDelayElapsed | gadget/LUFA/LUFA/Scheduler/Scheduler.c:36-66 | the test and its update of the delay counter |
| Delay.GapWraps | gadget/LUFA/LUFA/Scheduler/Scheduler.c:50-63 | a gap is the delay plus one tick exactly when the counter wraps within it |
| Delay.FiringsExact | gadget/LUFA/LUFA/Scheduler/Scheduler.c:36-66 | polled once per tick, a delay of 1 to 0xFFFE fires at exactly the ends of its gaps: never early, none missed |
| Delay.FiringsTake | gadget/LUFA/LUFA/Scheduler/Scheduler.c:36-66 | k firings take k delays plus one tick for every counter wrap meanwhile |
| Delay.FiresIff | gadget/LUFA/LUFA/Scheduler/Scheduler.h:132 | started at any time, a delay fires sooner or later if and only if it is at most TASK_MAX_DELAY |

## Left out

- USB controller registers, enumeration and the LUFA endpoint functions are not part of this model; an endpoint is a bank and a packet queue, a FIFO reset empties the bank.
- A detach or disconnect shows up only as "no packet left"; the waits themselves, timeouts of the control endpoint and stall handshakes are not modelled.
- Self-programming: that a section being written cannot be read until it is re-enabled is not part of this model, a page operation is complete at once.
- Reads of an empty FIFO give 0, memory reads beyond the array give 0xFF, table indices out of range give 0, where the hardware or C leaves the value open.
- DfuExit.IdentificationIff: indices outside the two tables are left out, the source then reads whatever lies next to them.
- DfuPlacement.DownloadLandsIff: says when every payload is in place; where a misplaced payload ends up is given as the words that the loop reads (DfuPlacement.ProgramsRead), not cell by cell.
- DfuTransfer.DownloadFlash: asks for a placeable request and an empty page buffer; DfuPlacement.DownloadLandsIff shows that other requests lose payloads, DfuSafety.BufferStaysEmpty that only a download cut off by a detach leaves the buffer filled. What the hardware does with a slot filled twice is not modelled.
- CdcCommands.EepromRoundTrip: EEPROMs of more than 64KB, whose cells a 16-bit index does not reach.
- Lock bits, fuses, the watchdog, interrupt vectors, clocks and the jump into the application.
- StoreProtocol.StoreRefinesRegisters: index 256 is excluded, because the source then accesses memory behind the array; a pass is atomic and at least one pass separates a command from its data, StoreProtocol.UnseparatedWriteIff and UnseparatedReadIff say exactly when a transfer without that pass is right, and StoreProtocol.StaleRead that a wrong one can be reached.
- StoreDevices.BlobStore.Store: excludes index 256 for the same reason, as do Read and Delete of the class.
- Linux probe, open, release, disconnect and reference counting; the semaphore is modelled by one operation at a time.
- BitBuffer: buffers of 65536 bits and more, for which the 16-bit count is too narrow even for a full one.
- RingBuffer.RingBuff.GetElement: requires an element; UsbToSerial.SerialToHostOrdered shows that the bridge never asks an empty buffer.
- BridgeProgress.OnTheLine: asks that no copy finds the driver closed and that CDC_Device_BytesReceived counts something when something is there; Serial_TxByte is taken to return.
- UsbToSerial: bytes count as sent when they are written to the IN endpoint. A bus reset, which also empties both endpoints, and the line-encoding callback are left out.
- DebugChannel: one configured session; bus resets and the HID_GET_REPORT loop are left out.
- AVRISP: the commands that never reach the target (sign on, parameters, reset protection, leave) and the reset line; the parameter structs are taken as read from the endpoint.
- IspFlash.PagedRoundTripIff: the target commits a page at once, so completion polling is claimed only to change nothing; page sizes divide 131072, as those of AVR chips do.
- IspEeprom.EepromRoundTrip: a paged write to EEPROM is described by the frames it sends (IspReplies.PagedFrames), not by what a chip does with them.
- Where the bytes of a flash write in word mode go beyond IspFlash.WordModeLandsIff.
- Scheduler task lists (setting task modes), the TeensyHID bootloader, class driver demos, descriptors, buttons, LEDs and displays: constant tables, one-line mappings or special cases of what is here.
- Common.h fixed-width helpers, the Java MIDI host, the missile launcher and the temperature table.
