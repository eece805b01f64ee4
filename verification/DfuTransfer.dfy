/** Moving an image in and out of the memories through the DFU bootloader. */
module DfuTransfer {
  import opened Usb
  import opened AvrFlash
  import opened FlashImage
  import opened DfuSpec
  import opened DfuPackets

  // ---- Parsing the command -------------------------------------------------------------

  /** A 16-bit counter less `k`. */
  function Less(size: uint16, k: nat): uint16 { (size - k) % 65536 }

  lemma LessOnce(size: uint16, k: nat)
    ensures Less(Less(size, 1), k) == Less(size, k + 1)
  {
    if size == 0 { assert -1 - k == -65536 + (65535 - k); }
  }

  lemma {:induction false} ParamsCounted(p: OutPipe, data: seq<byte>, i: nat, size: uint16)
    requires i <= |data| && |data| - i <= |p.bank|
    ensures LoadParams(p, data, i, size).2 == Less(size, |data| - i)
    decreases |data| - i
  {
    if i < |data| {
      LessOnce(size, |data| - i - 1);
      ParamsCounted(Drop(p), data[i := Peek(p)], i + 1, Less(size, 1));
    }
  }

  lemma {:induction false} ParamsTaken(p: OutPipe, data: seq<byte>, i: nat, size: uint16)
    requires i <= |data| && |data| - i <= |p.bank|
    ensures var k := |data| - i; var r := LoadParams(p, data, i, size);
      r.0 == p.(bank := p.bank[k..]) && r.1 == data[..i] + p.bank[..k]
    decreases |data| - i
  {
    if i < |data| {
      var p1, data1, k := Drop(p), data[i := Peek(p)], |data| - i;
      ParamsTaken(p1, data1, i + 1, (size - 1) % 65536);
      assert data1[..i + 1] == data[..i] + [p.bank[0]];
      assert p.bank[..k] == [p.bank[0]] + p1.bank[..k - 1];
      assert data1[..i + 1] + p1.bank[..k - 1] == data[..i] + p.bank[..k];
      assert p1.bank[k - 1..] == p.bank[k..];
    } else {
      assert data[..i] + p.bank[..0] == data && p.bank[0..] == p.bank;
    }
  }

  /** A command and its five parameter bytes at the front of the first packet. */
  ghost predicate Carries(packets: seq<seq<byte>>, header: seq<byte>) {
    packets != [] && |header| == 6 && |packets[0]| >= 6 && packets[0][..6] == header
  }

  lemma LoadCommandCarried(s: Dfu, packets: seq<seq<byte>>, header: seq<byte>)
    requires |s.data| == 5 && s.rx == OutPipe([], packets) && Carries(packets, header)
    ensures LoadCommand(s) == s.(command := header[0], data := header[1..],
                                 dataSize := (s.dataSize - 6) % 65536,
                                 rx := OutPipe(packets[0][6..], packets[1..]))
  {
    hide LoadParams;
    var p := Drop(NextPacket(s.rx));
    ParamsTaken(p, s.data, 0, (s.dataSize - 1) % 65536);
    ParamsCounted(p, s.data, 0, (s.dataSize - 1) % 65536);
    assert packets[0][1..][..5] == packets[0][..6][1..];
    assert s.data[..0] + p.bank[..5] == header[1..];
  }

  lemma {:induction false} ParamsRead(p: OutPipe, data: seq<byte>, i: nat, size: uint16, j: nat)
    requires i <= |data| && j < |data| && (i <= j ==> j - i < |p.bank|)
    ensures LoadParams(p, data, i, size).1[j] == if i <= j then p.bank[j - i] else data[j]
    decreases |data| - i
  {
    if i < |data| && p.bank != [] { ParamsRead(Drop(p), data[i := Peek(p)], i + 1, (size - 1) % 65536, j); }
  }

  /** As many parameters as the first packet holds are read; the others keep their old values. */
  lemma LoadCommandShort(s: Dfu, packets: seq<seq<byte>>, j: nat)
    requires |s.data| == 5 && s.rx == OutPipe([], packets) && packets != [] && j < 5 && j + 2 <= |packets[0]|
    ensures var r := LoadCommand(s); r.command == packets[0][0] && r.data[j] == packets[0][j + 1]
  {
    hide LoadParams;
    ParamsRead(Drop(NextPacket(s.rx)), s.data, 0, (s.dataSize - 1) % 65536, j);
  }

  function RangeHeader(command: byte, kind: byte, start: uint16, end: uint16): (h: seq<byte>)
    ensures |h| == 6
  {
    [command, kind, High(start), Low(start), High(end), Low(end)]
  }

  /** Where the payload starts in a programming request: behind the header, the filler up to byte 32 and
      the filler that aligns it within its page. */
  function PayloadOffset(b: Board, start: uint16): nat
    requires 0 < b.pageSize
  {
    32 + InPage(b.pageSize, start)
  }

  /** A whole programming request: header, fillers, then the payload (and whatever suffix follows it),
      cut into packets the first of which holds the header. */
  ghost predicate ProgramTransfer(b: Board, wLength: uint16, packets: seq<seq<byte>>, kind: byte, start: uint16,
                                  end: uint16, payload: seq<byte>)
    requires 0 < b.pageSize
  {
    && 6 < wLength
    && Carries(packets, RangeHeader(COMMAND_PROG_START, kind, start, end))
    && (forall i :: 1 <= i < |packets| ==> packets[i] != [])
    && PayloadOffset(b, start) + |payload| <= |Flatten(packets)|
    && Flatten(packets)[PayloadOffset(b, start)..PayloadOffset(b, start) + |payload|] == payload
  }

  /** The lengths of what follows the fillers, when the first packet holds them. */
  function Behind(b: Board, sizes: seq<nat>, start: uint16): seq<nat>
    requires 0 < b.pageSize && sizes != [] && PayloadOffset(b, start) <= sizes[0]
  {
    [sizes[0] - PayloadOffset(b, start)] + sizes[1..]
  }

  /** The first packet holds all of the filler, and the payload is whole words, fewer than 64KB of them,
      that no packet splits: what the loop then reads is the payload. */
  predicate Exact(b: Board, sizes: seq<nat>, start: uint16, n: nat)
    requires 0 < b.pageSize && sizes != []
  {
    PayloadOffset(b, start) <= sizes[0] && KeepsWords(Behind(b, sizes, start), n) && Even(n) && n < 65536
  }

  /** In addition the payload starts at a page, or is word aligned and stays in its page. */
  predicate Placeable(b: Board, sizes: seq<nat>, start: uint16, n: nat)
    requires 0 < b.pageSize && sizes != []
  {
    && Exact(b, sizes, start, n)
    && (InPage(b.pageSize, start) == 0 || (Even(start) && InPage(b.pageSize, start) + n <= b.pageSize))
  }

  /** The state in which the firmware part of the request starts. */
  function Armed(b: Board, s: Dfu, wLength: uint16, packets: seq<seq<byte>>, kind: byte, start: uint16,
                 end: uint16): (r: Dfu)
    requires Wf(b, s) && packets != [] && |packets[0]| >= 6 && 6 < wLength
    ensures Wf(b, r)
  {
    s.(command := COMMAND_PROG_START, data := RangeHeader(0, kind, start, end)[1..], dataSize := wLength - 6,
       start := start, end := end, state := dfuDNLOAD_IDLE, rx := OutPipe(packets[0][6..], packets[1..]),
       flash := if kind == 0 then Erase(b.pageSize, s.flash, Address(s.page64, start)) else s.flash)
  }

  lemma ArmedByRequest(b: Board, s: Dfu, wLength: uint16, packets: seq<seq<byte>>, kind: byte, start: uint16,
                       end: uint16)
    requires Wf(b, s) && !s.secure && !s.waitForExit && kind <= 1 && 6 < wLength
    requires Carries(packets, RangeHeader(COMMAND_PROG_START, kind, start, end))
    ensures var (s3, finished) := Firmware(b, Armed(b, s, wLength, packets, kind, start, end));
      Step(b, s, Dnload(wLength, packets)) == if finished then s3.(rx := OutPipe([], [])) else s3
  {
    hide BoardOk, FlashOk, Firmware, LoadParams, Process, LoadCommand, Armed;
    var s1 := s.(dataSize := wLength, rx := OutPipe([], packets));
    ArmedState(b, s, wLength, packets, kind, start, end);
    ArmedRuns(b, s, wLength, packets, kind, start, end);
    assert Step(b, s, Dnload(wLength, packets)) == EndDnload(b, Process(b, LoadCommand(s1)));
  }

  lemma ArmedState(b: Board, s: Dfu, wLength: uint16, packets: seq<seq<byte>>, kind: byte, start: uint16, end: uint16)
    requires Wf(b, s) && !s.secure && kind <= 1 && 6 < wLength
    requires Carries(packets, RangeHeader(COMMAND_PROG_START, kind, start, end))
    ensures var s1 := s.(dataSize := wLength, rx := OutPipe([], packets));
      Process(b, LoadCommand(s1)) == Armed(b, s, wLength, packets, kind, start, end)
  {
    hide BoardOk, FlashOk, LoadCommand, Erase;
    LoadCommandCarried(s.(dataSize := wLength, rx := OutPipe([], packets)), packets,
                       RangeHeader(COMMAND_PROG_START, kind, start, end));
  }

  lemma ArmedRuns(b: Board, s: Dfu, wLength: uint16, packets: seq<seq<byte>>, kind: byte, start: uint16, end: uint16)
    requires Wf(b, s) && packets != [] && |packets[0]| >= 6 && 6 < wLength
    ensures var r := Armed(b, s, wLength, packets, kind, start, end); r.state == dfuDNLOAD_IDLE && r.dataSize != 0
  {
    hide BoardOk, FlashOk, Erase;
  }

  /** After the fillers, the stream starts with the payload. */
  lemma FillerDropped(b: Board, packets: seq<seq<byte>>, start: uint16, payload: seq<byte>)
    requires 0 < b.pageSize && packets != [] && (forall i :: 1 <= i < |packets| ==> packets[i] != [])
    requires var off := PayloadOffset(b, start);
      off <= |packets[0]| && off + |payload| <= |Flatten(packets)| && Flatten(packets)[off..off + |payload|] == payload
    ensures var off := PayloadOffset(b, start);
      var p := Discard(Discard(OutPipe(packets[0][6..], packets[1..]), DFU_FILLER_BYTES_SIZE),
                       InPage(b.pageSize, start));
      && p == OutPipe(packets[0][off..], packets[1..])
      && |payload| <= |Stream(p)| && Stream(p)[..|payload|] == payload
      && Cut(p) && Sizes(p) == Behind(b, Lengths(packets), start)
  {
    hide Discard;
    var off := PayloadOffset(b, start);
    DiscardBank(OutPipe(packets[0][6..], packets[1..]), DFU_FILLER_BYTES_SIZE);
    DiscardBank(OutPipe(packets[0][32..], packets[1..]), InPage(b.pageSize, start));
    assert packets[0][32..][InPage(b.pageSize, start)..] == packets[0][off..];
    assert Flatten(packets)[off..] == packets[0][off..] + Flatten(packets[1..]);
    assert Lengths(packets)[1..] == Lengths(packets[1..]);
  }

  /** The 64KB page does not matter for the place within a page. */
  lemma AddressOffset(size: nat, page64: byte, start: uint16)
    requires 0 < size && Aligned(size, 65536)
    ensures InPage(size, Address(page64, start)) == InPage(size, start)
  {
    var k, q := 65536 / size, start / size;
    assert page64 * 65536 == page64 * k * size;
    assert page64 * 65536 + start == (page64 * k + q) * size + start % size;
    DivMod(page64 * k + q, size, start % size);
  }

  // ---- Main results ---------------------------------------------------------------------

  /** A flash download whose request is placeable: the words of the range are in place, the rest of the
      touched pages is blank, every other byte is as before, the hardware was never misused and the buffer
      is empty again. */
  lemma DownloadFlash(b: Board, s: Dfu, wLength: uint16, packets: seq<seq<byte>>, start: uint16, end: uint16,
                      payload: seq<byte>)
    requires Wf(b, s) && !s.secure && !s.waitForExit && BufferEmpty(b.pageSize, s.flash)
    requires ProgramTransfer(b, wLength, packets, 0, start, end, payload)
    requires Placeable(b, Lengths(packets), start, |payload|)
    requires payload != [] && |payload| == ByteCount(start, end) / 2 * 2
    requires Address(s.page64, start) + |payload| <= |s.flash.cells|
    ensures var s' := Step(b, s, Dnload(wLength, packets)); var r := InPage(b.pageSize, start);
      && ImageAt(b.pageSize, s.flash.cells, s'.flash.cells, Address(s.page64, start) - r, r, payload)
      && s'.flash.misuse == s.flash.misuse && BufferEmpty(b.pageSize, s'.flash)
      && s'.state == dfuDNLOAD_IDLE && s'.start == s'.end == end
      && s'.eeprom == s.eeprom && s'.page64 == s.page64 && s'.tx == s.tx
      && !s'.secure && !s'.waitForExit
  {
    hide Step, Firmware, ProgramFlash, Discard, Process, LoadCommand, Aligned, KeepsWords, Behind, ImageAt, InPage,
        BufferEmpty;
    ArmedByRequest(b, s, wLength, packets, 0, start, end);
    FillerSkipped(b, s, wLength, packets, 0, start, end, payload);
    FlashProgrammed(b, Armed(b, s, wLength, packets, 0, start, end), s.flash,
                    OutPipe(packets[0][PayloadOffset(b, start)..], packets[1..]), payload);
  }

  /** When the first packet holds the fillers, programming starts with the payload. */
  lemma FillerSkipped(b: Board, s: Dfu, wLength: uint16, packets: seq<seq<byte>>, kind: byte, start: uint16,
                      end: uint16, payload: seq<byte>)
    requires Wf(b, s) && ProgramTransfer(b, wLength, packets, kind, start, end, payload)
    requires PayloadOffset(b, start) <= |packets[0]|
    ensures var s0 := Armed(b, s, wLength, packets, kind, start, end);
      var rx := OutPipe(packets[0][PayloadOffset(b, start)..], packets[1..]);
      && Firmware(b, s0) == (if kind == 0 then ProgramFlash(b, s0, rx) else ProgramEeprom(b, s0, rx))
      && |payload| <= |Stream(rx)| && Stream(rx)[..|payload|] == payload
      && Cut(rx) && Sizes(rx) == Behind(b, Lengths(packets), start)
  {
    hide Discard, ProgramFlash, ProgramEeprom, Stream, Cut, FlashOk, Sizes, Behind;
    FillerDropped(b, packets, start, payload);
  }

  lemma FlashProgrammed(b: Board, s: Dfu, before: Flash, rx: OutPipe, payload: seq<byte>)
    requires Wf(b, s) && FlashOk(b.pageSize, before) && BufferEmpty(b.pageSize, before)
    requires Cut(rx) && KeepsWords(Sizes(rx), |payload|)
    requires s.flash == Erase(b.pageSize, before, Address(s.page64, s.start))
    requires InPage(b.pageSize, s.start) == 0
             || (Even(s.start) && InPage(b.pageSize, s.start) + |payload| <= b.pageSize)
    requires payload != [] && |payload| == ByteCount(s.start, s.end) / 2 * 2
    requires |payload| <= |Stream(rx)| && Stream(rx)[..|payload|] == payload
    requires Address(s.page64, s.start) + |payload| <= |before.cells|
    ensures var (s1, finished) := ProgramFlash(b, s, rx); var r := InPage(b.pageSize, s.start);
      && finished
      && s1 == s.(flash := s1.flash, rx := s1.rx, start := s.end)
      && ImageAt(b.pageSize, before.cells, s1.flash.cells, Address(s.page64, s.start) - r, r, payload)
      && s1.flash.misuse == before.misuse && BufferEmpty(b.pageSize, s1.flash)
  {
    hide Discard, Address, Stream, ImageAt, BufferEmpty, FlashOk, KeepsWords, Erase, Aligned, Sizes, Cut, InPage,
        WriteWords, Even;
    var a := Address(s.page64, s.start);
    AddressOffset(b.pageSize, s.page64, s.start);
    if InPage(b.pageSize, s.start) == 0 { EvenStart(b.pageSize, s.start); }
    EvenAddress(s.page64, s.start);
    LoopProgrammed(b.pageSize, before, rx, a, payload, ByteCount(s.start, s.end) / 2);
  }

  lemma LoopProgrammed(size: nat, f: Flash, rx: OutPipe, a: nat, payload: seq<byte>, n: nat)
    requires size <= 256 && FlashOk(size, f) && BufferEmpty(size, f)
    requires Cut(rx) && KeepsWords(Sizes(rx), |payload|) && |payload| <= |Stream(rx)|
             && Stream(rx)[..|payload|] == payload
    requires Even(a) && (InPage(size, a) == 0 || InPage(size, a) + |payload| <= size)
    requires payload != [] && |payload| == 2 * n && a + |payload| <= |f.cells|
    ensures var run := WriteWords(size, Erase(size, f, a), rx, a, a, 0, n); var r := InPage(size, a);
      && run.finished && ImageAt(size, f.cells, run.flash.cells, a - r, r, payload)
      && BufferEmpty(size, run.flash) && run.flash.misuse == f.misuse
  {
    hide Stream, ImageAt, BufferEmpty, FlashOk, KeepsWords, FillWords, Erase, Sizes, Cut, InPage, WriteWords, Even;
    WriteWordsReads(size, Erase(size, f, a), rx, a, a, 0, n);
    FlashStored(size, f, a, payload);
  }

  lemma EvenStart(size: nat, start: uint16)
    requires 0 < size && Even(size) && InPage(size, start) == 0
    ensures Even(start)
  {
    EvenMultiple(start / size, size);
    assert start == start / size * size + start % size;
  }

  lemma EvenAddress(page64: byte, start: uint16)
    requires Even(start)
    ensures Even(Address(page64, start))
  {}

  lemma FlashStored(size: nat, f: Flash, a: nat, payload: seq<byte>)
    requires size <= 256 && FlashOk(size, f) && BufferEmpty(size, f)
    requires Even(a) && (InPage(size, a) == 0 || InPage(size, a) + |payload| <= size)
    requires payload != [] && |payload| % 2 == 0 && a + |payload| <= |f.cells|
    ensures var f' := FillWords(size, Erase(size, f, a), payload, a, a, 0); var r := InPage(size, a);
      && r <= a && ImageAt(size, f.cells, f'.cells, a - r, r, payload) && BufferEmpty(size, f') && f'.misuse == f.misuse
  {
    hide Aligned, Laid, Splice, ImageAt, FillWords, Erase, BufferEmpty;
    PageSplit(size, a, |f.cells|);
    ProgrammedLaid(size, f, a, payload);
    LaidImage(size, f.cells, PageOf(size, a), InPage(size, a), payload);
  }

  /** How much of the range a download or an upload moves: all of it, if and only if the range is
      an even number of bytes other than the whole 64KB page. */
  lemma TransferredIff(start: uint16, end: uint16)
    requires start <= end
    ensures ByteCount(start, end) / 2 * 2 == end - start + 1
            <==> (end - start + 1) % 2 == 0 && !(start == 0 && end == 0xFFFF)
  {}

  /** An EEPROM download stores the payload byte for byte and touches nothing else. */
  lemma DownloadEeprom(b: Board, s: Dfu, wLength: uint16, packets: seq<seq<byte>>, start: uint16, end: uint16,
                       payload: seq<byte>)
    requires Wf(b, s) && !s.secure && !s.waitForExit
    requires ProgramTransfer(b, wLength, packets, 1, start, end, payload)
    requires PayloadOffset(b, start) <= |packets[0]|
    requires start <= end < 0xFFFF && |payload| == end - start + 1 && end < |s.eeprom|
    ensures var s' := Step(b, s, Dnload(wLength, packets));
      && s'.eeprom == Splice(s.eeprom, start, payload) && s'.flash == s.flash
      && s'.state == dfuDNLOAD_IDLE && s'.start == end + 1 && s'.end == end
      && s'.page64 == s.page64 && s'.tx == s.tx && !s'.secure && !s'.waitForExit
  {
    hide Step, Firmware, ProgramEeprom, Cut, Stream, Discard, Process, LoadCommand;
    ArmedByRequest(b, s, wLength, packets, 1, start, end);
    FillerSkipped(b, s, wLength, packets, 1, start, end, payload);
    EepromProgrammed(b, Armed(b, s, wLength, packets, 1, start, end),
                     OutPipe(packets[0][PayloadOffset(b, start)..], packets[1..]), payload);
  }

  lemma EepromProgrammed(b: Board, s: Dfu, rx: OutPipe, payload: seq<byte>)
    requires Wf(b, s) && Cut(rx)
    requires |payload| <= |Stream(rx)| && Stream(rx)[..|payload|] == payload
    requires s.start <= s.end < 0xFFFF && |payload| == s.end - s.start + 1 && s.end < |s.eeprom|
    ensures var (s1, finished) := ProgramEeprom(b, s, rx);
      finished && s1 == s.(eeprom := Splice(s.eeprom, s.start, payload), rx := s1.rx, start := s.end + 1)
  {
    hide Stream, Cut, Discard, Splice, BoardOk, FlashOk;
    WriteEepromReads(s.eeprom, rx, s.start, |payload|);
  }

  // ---- Uploads ------------------------------------------------------------------------------

  lemma {:induction false} SendWordsWrites(e: nat, t0: InPipe, t: InPipe, bytes: seq<byte>, cells: seq<byte>,
                                           addr: nat, n: nat)
    requires 0 < e && e % 2 == 0 && Wrote(e, t0, t, bytes) && |t.bank| % 2 == 0 && addr + 2 * n <= |cells|
    ensures Wrote(e, t0, SendWords(e, t, cells, addr, n), bytes + cells[addr..addr + 2 * n])
    decreases n
  {
    if n == 0 {
      assert bytes + cells[addr..addr] == bytes;
    } else {
      var two := [cells[addr], cells[addr + 1]];
      WroteMore(e, t0, t, bytes, two);
      var t1 := Room(e, t);
      SendWordsWrites(e, t0, t1.(bank := t1.bank + two), bytes + two, cells, addr + 2, n - 1);
      assert bytes + two + cells[addr + 2..addr + 2 * n] == bytes + cells[addr..addr + 2 * n];
    }
  }

  lemma {:induction false} SendEepromWrites(e: nat, t0: InPipe, t: InPipe, bytes: seq<byte>, eeprom: seq<byte>,
                                            addr: uint16, n: nat)
    requires 0 < e && Wrote(e, t0, t, bytes) && addr + n <= |eeprom| && addr + n < 65536
    ensures Wrote(e, t0, SendEeprom(e, t, eeprom, addr, n), bytes + eeprom[addr..addr + n])
    decreases n
  {
    if n == 0 {
      assert bytes + eeprom[addr..addr] == bytes;
    } else {
      var one := [eeprom[addr]];
      WroteMore(e, t0, t, bytes, one);
      var t1 := Room(e, t);
      SendEepromWrites(e, t0, t1.(bank := t1.bank + one), bytes + one, eeprom, addr + 1, n - 1);
      assert bytes + one + eeprom[addr + 1..addr + n] == bytes + eeprom[addr..addr + n];
    }
  }

  /** Selecting a range for display and then uploading it. */
  ghost predicate DisplayTransfer(wLength: uint16, packets: seq<seq<byte>>, kind: byte, start: uint16, end: uint16) {
    0 < wLength && Carries(packets, RangeHeader(COMMAND_DISP_DATA, kind, start, end))
  }

  lemma Selected(b: Board, s: Dfu, wLength: uint16, packets: seq<seq<byte>>, kind: byte, start: uint16, end: uint16)
    requires Wf(b, s) && !s.secure && !s.waitForExit && (kind == 0 || kind == 2)
    requires DisplayTransfer(wLength, packets, kind, start, end)
    ensures var s' := Step(b, s, Dnload(wLength, packets));
      && s'.state == dfuUPLOAD_IDLE && s'.start == start && s'.end == end && s'.data[0] == kind
      && s'.flash == s.flash && s'.eeprom == s.eeprom && s'.tx == s.tx && s'.page64 == s.page64
  {
    hide FlashOk, BoardOk;
    LoadCommandCarried(s.(dataSize := wLength, rx := OutPipe([], packets)), packets,
                       RangeHeader(COMMAND_DISP_DATA, kind, start, end));
  }

  lemma UploadFlash(b: Board, s: Dfu, wLength: uint16, n: nat)
    requires Wf(b, s) && s.state == dfuUPLOAD_IDLE && s.data[0] == 0x00 && s.tx.bank == []
    requires n == ByteCount(s.start, s.end) / 2 * 2 && Address(s.page64, s.start) + n <= |s.flash.cells|
    ensures var s' := Step(b, s, Upload(wLength)); var a := Address(s.page64, s.start);
      && Delivered(b.endpointSize, s.tx, s'.tx, s.flash.cells[a..a + n])
      && s'.state == dfuIDLE && s'.start == s.end && s'.flash == s.flash && s'.eeprom == s.eeprom
  {
    hide Delivered, BoardOk, FlashOk, SendWords, Address, ByteCount;
    WordsDelivered(b, s, Address(s.page64, s.start), ByteCount(s.start, s.end) / 2);
  }

  lemma WordsDelivered(b: Board, s: Dfu, a: nat, words: nat)
    requires Wf(b, s) && s.tx.bank == [] && a + 2 * words <= |s.flash.cells|
    ensures Delivered(b.endpointSize, s.tx, Send(SendWords(b.endpointSize, s.tx, s.flash.cells, a, words)),
                      s.flash.cells[a..a + 2 * words])
  {
    hide Wrote, Delivered, FlashOk, Aligned, SendWords;
    var e, bytes := b.endpointSize, s.flash.cells[a..a + 2 * words];
    WroteNothing(e, s.tx);
    SendWordsWrites(e, s.tx, s.tx, [], s.flash.cells, a, words);
    assert [] + bytes == bytes;
    WroteThenSent(e, s.tx, SendWords(e, s.tx, s.flash.cells, a, words), bytes);
  }

  lemma UploadEeprom(b: Board, s: Dfu, wLength: uint16, n: nat)
    requires Wf(b, s) && s.state == dfuUPLOAD_IDLE && s.data[0] == 0x02 && s.tx.bank == []
    requires n == ByteCount(s.start, s.end) && s.start + n <= |s.eeprom| && s.start + n < 65536
    ensures var s' := Step(b, s, Upload(wLength));
      && Delivered(b.endpointSize, s.tx, s'.tx, s.eeprom[s.start..s.start + n])
      && s'.state == dfuIDLE && s'.start == s.start + n && s'.flash == s.flash && s'.eeprom == s.eeprom
  {
    hide Wrote, Delivered, FlashOk, Aligned, SendEeprom;
    var e := b.endpointSize;
    WroteNothing(e, s.tx);
    SendEepromWrites(e, s.tx, s.tx, [], s.eeprom, s.start, n);
    var bytes := s.eeprom[s.start..s.start + n];
    assert [] + bytes == bytes;
    WroteThenSent(e, s.tx, SendEeprom(e, s.tx, s.eeprom, s.start, n), bytes);
  }

  lemma RunThree(b: Board, s: Dfu, r1: Request, r2: Request, r3: Request)
    requires Wf(b, s)
    ensures Run(b, s, [r1, r2, r3]) == Step(b, Step(b, Step(b, s, r1), r2), r3)
  {
    assert [r1, r2, r3][1..] == [r2, r3] && [r2, r3][1..] == [r3] && [r3][1..] == [];
    hide Step;
    var s1 := Step(b, s, r1);
    var s2 := Step(b, s1, r2);
    assert Run(b, s2, [r3]) == Run(b, Step(b, s2, r3), []);
    assert Run(b, s1, [r2, r3]) == Run(b, s2, [r3]);
  }

  /** Download, select the same range, upload: the IN packets carry exactly the payload. */
  lemma FlashRoundTrip(b: Board, s: Dfu, w1: uint16, packets: seq<seq<byte>>, w2: uint16, display: seq<seq<byte>>,
                       w3: uint16, start: uint16, end: uint16, payload: seq<byte>)
    requires Wf(b, s) && !s.secure && !s.waitForExit && BufferEmpty(b.pageSize, s.flash) && s.tx.bank == []
    requires ProgramTransfer(b, w1, packets, 0, start, end, payload) && DisplayTransfer(w2, display, 0, start, end)
    requires Placeable(b, Lengths(packets), start, |payload|)
    requires payload != [] && |payload| == ByteCount(start, end) / 2 * 2
    requires Address(s.page64, start) + |payload| <= |s.flash.cells|
    ensures var s' := Run(b, s, [Dnload(w1, packets), Dnload(w2, display), Upload(w3)]);
      && Delivered(b.endpointSize, s.tx, s'.tx, payload)
      && s'.state == dfuIDLE
  {
    hide Step, Run, Wf, ProgramTransfer, DisplayTransfer, Delivered, Placeable, ImageAt, InPage;
    PageSizePositive(b, s);
    RunThree(b, s, Dnload(w1, packets), Dnload(w2, display), Upload(w3));
    DownloadFlash(b, s, w1, packets, start, end, payload);
    var s1 := Step(b, s, Dnload(w1, packets));
    var r := InPage(b.pageSize, start);
    ImageReadsBack(b.pageSize, s.flash.cells, s1.flash.cells, Address(s.page64, start) - r, r, payload);
    Selected(b, s1, w2, display, 0, start, end);
    var s2 := Step(b, s1, Dnload(w2, display));
    UploadFlash(b, s2, w3, |payload|);
  }

  lemma PageSizePositive(b: Board, s: Dfu)
    requires Wf(b, s)
    ensures 0 < b.pageSize
  {}

  lemma EepromRoundTrip(b: Board, s: Dfu, w1: uint16, packets: seq<seq<byte>>, w2: uint16, display: seq<seq<byte>>,
                        w3: uint16, start: uint16, end: uint16, payload: seq<byte>)
    requires Wf(b, s) && !s.secure && !s.waitForExit && s.tx.bank == []
    requires ProgramTransfer(b, w1, packets, 1, start, end, payload) && DisplayTransfer(w2, display, 2, start, end)
    requires PayloadOffset(b, start) <= |packets[0]|
    requires start <= end < 0xFFFF && |payload| == end - start + 1 && end < |s.eeprom|
    ensures var s' := Run(b, s, [Dnload(w1, packets), Dnload(w2, display), Upload(w3)]);
      && Delivered(b.endpointSize, s.tx, s'.tx, payload)
      && s'.state == dfuIDLE
  {
    hide Step, Run, Wf, ProgramTransfer, DisplayTransfer, Delivered;
    RunThree(b, s, Dnload(w1, packets), Dnload(w2, display), Upload(w3));
    DownloadEeprom(b, s, w1, packets, start, end, payload);
    var s1 := Step(b, s, Dnload(w1, packets));
    Selected(b, s1, w2, display, 2, start, end);
    var s2 := Step(b, s1, Dnload(w2, display));
    UploadEeprom(b, s2, w3, |payload|);
    assert s1.eeprom[start..start + |payload|] == payload;
  }
}
