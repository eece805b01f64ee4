/** Moving an image in and out of flash through the CDC bootloader, and its chip erase. */
module CdcTransfer {
  import opened Usb
  import opened AvrFlash
  import opened FlashImage
  import opened CdcSpec

  // ---- One command, however it is cut into packets -----------------------------------

  /** `bytes` are next, and behind them only the packets `rest` are queued. */
  ghost predicate Holds(p: OutPipe, bytes: seq<byte>, rest: seq<seq<byte>>) {
    exists ps: seq<seq<byte>> :: p.pending == ps + rest && p.bank + Flatten(ps) == bytes && EndsFull(ps)
  }

  /** The last packet of a transfer is not empty. */
  ghost predicate EndsFull(ps: seq<seq<byte>>) { ps != [] ==> ps[|ps| - 1] != [] }

  lemma {:induction false} FlattenEndsFull(ps: seq<seq<byte>>)
    requires EndsFull(ps) && ps != []
    ensures Flatten(ps) != []
  {
    if |ps| > 1 {
      assert ps[1..][|ps| - 2] == ps[|ps| - 1];
      FlattenEndsFull(ps[1..]);
    }
  }

  lemma HoldsNothing(p: OutPipe, rest: seq<seq<byte>>)
    requires Holds(p, [], rest)
    ensures p == OutPipe([], rest)
  {
    var ps: seq<seq<byte>> :| p.pending == ps + rest && p.bank + Flatten(ps) == [] && EndsFull(ps);
    if ps != [] { FlattenEndsFull(ps); }
  }

  lemma {:induction false} FetchHolds(p: OutPipe, bytes: seq<byte>, rest: seq<seq<byte>>)
    requires Holds(p, bytes, rest) && bytes != []
    ensures Fetch(p).0 == bytes[0] && Holds(Fetch(p).1, bytes[1..], rest)
    decreases |p.pending|
  {
    var ps: seq<seq<byte>> :| p.pending == ps + rest && p.bank + Flatten(ps) == bytes && EndsFull(ps);
    if p.bank != [] {
      assert Drop(p).bank + Flatten(ps) == bytes[1..];
    } else {
      var q := NextPacket(p);
      assert q.pending == ps[1..] + rest;
      assert q.bank + Flatten(ps[1..]) == bytes;
      assert EndsFull(ps[1..]) by { if ps[1..] != [] { assert ps[1..][|ps| - 2] == ps[|ps| - 1]; } }
      FetchHolds(q, bytes, rest);
    }
  }

  /** The packets of one command: their bytes, ended by a packet that is not empty. */
  ghost predicate Transfer(packets: seq<seq<byte>>, bytes: seq<byte>) {
    packets != [] && EndsFull(packets) && Flatten(packets) == bytes
  }

  lemma TransferHolds(packets: seq<seq<byte>>, bytes: seq<byte>, rest: seq<seq<byte>>)
    requires Transfer(packets, bytes)
    ensures packets + rest != [] && Holds(NextPacket(OutPipe([], packets + rest)), bytes, rest)
  {
    var q := NextPacket(OutPipe([], packets + rest));
    assert q.pending == packets[1..] + rest;
    assert q.bank + Flatten(packets[1..]) == bytes;
    assert EndsFull(packets[1..]) by {
      if packets[1..] != [] { assert packets[1..][|packets| - 2] == packets[|packets| - 1]; }
    }
  }

  // ---- Answers --------------------------------------------------------------------------

  lemma {:induction false} PutAllWrites(size: nat, t0: InPipe, t: InPipe, done: seq<byte>, bytes: seq<byte>)
    requires 0 < size && Wrote(size, t0, t, done)
    ensures Wrote(size, t0, PutAll(size, t, bytes), done + bytes)
    decreases |bytes|
  {
    hide Wrote;
    if bytes == [] {
      assert done + bytes == done;
    } else {
      RoomForOne(size, t0, t, done);
      WroteMore(size, t0, t, done, [bytes[0]]);
      var t1 := Room(size, t);
      PutAllWrites(size, t0, t1.(bank := t1.bank + [bytes[0]]), done + [bytes[0]], bytes[1..]);
      assert done + [bytes[0]] + bytes[1..] == done + bytes;
    }
  }

  lemma RoomForOne(size: nat, t0: InPipe, t: InPipe, done: seq<byte>)
    requires 0 < size && Wrote(size, t0, t, done)
    ensures |Room(size, t).bank| + 1 <= size
  {}

  lemma AnswerSent(size: nat, t: InPipe, bytes: seq<byte>)
    requires 0 < size && t.bank == []
    ensures Answered(size, t, SendEnd(size, PutAll(size, t, bytes)), bytes)
  {
    hide Wrote, Answered, SendEnd;
    WroteNothing(size, t);
    PutAllWrites(size, t, t, [], bytes);
    assert [] + bytes == bytes;
    WroteThenEnded(size, t, PutAll(size, t, bytes), bytes);
  }

  /** Whatever the command, its answer leaves as one terminated transfer. */
  lemma TaskAnswers(b: CdcBoard, s: Cdc) returns (answer: seq<byte>)
    requires CdcWf(b, s) && s.rx.pending != [] && s.tx.bank == []
    ensures Answered(b.endpointSize, s.tx, Task(b, s).tx, answer)
    ensures var (command, rx) := Fetch(NextPacket(s.rx)); answer == Dispatch(b, s.(rx := rx), command).1
  {
    hide Dispatch, Answered, FlashOk;
    var (command, rx) := Fetch(NextPacket(s.rx));
    answer := Dispatch(b, s.(rx := rx), command).1;
    AnswerSent(b.endpointSize, s.tx, answer);
  }

  /** What the host reads after `t0`. */
  function Received(t0: InPipe, t1: InPipe): seq<byte>
    requires |t0.sent| <= |t1.sent|
  {
    Flatten(t1.sent[|t0.sent|..])
  }

  lemma ReceivedBoth(t0: InPipe, t1: InPipe, t2: InPipe)
    requires |t0.sent| <= |t1.sent| <= |t2.sent|
    requires t1.sent[..|t0.sent|] == t0.sent && t2.sent[..|t1.sent|] == t1.sent
    ensures t2.sent[..|t0.sent|] == t0.sent
    ensures Received(t0, t2) == Received(t0, t1) + Received(t1, t2)
  {
    assert t2.sent[|t0.sent|..] == t1.sent[|t0.sent|..] + t2.sent[|t1.sent|..];
    FlattenConcat(t1.sent[|t0.sent|..], t2.sent[|t1.sent|..]);
    assert t2.sent[..|t0.sent|] == t2.sent[..|t1.sent|][..|t0.sent|];
  }

  /** From one task to the next: the state moves to `s'`, the queue to `rest`, the host gets `answer`. */
  ghost predicate Served(b: CdcBoard, s: Cdc, s': Cdc, rest: seq<seq<byte>>, answer: seq<byte>) {
    s'.rx == OutPipe([], rest) && Answered(b.endpointSize, s.tx, s'.tx, answer)
  }

  lemma TaskServes(b: CdcBoard, s: Cdc, bytes: seq<byte>, packets: seq<seq<byte>>,
                   rest: seq<seq<byte>>) returns (s0: Cdc)
    requires CdcWf(b, s) && s.tx.bank == [] && s.rx == OutPipe([], packets + rest)
    requires bytes != [] && Transfer(packets, bytes)
    ensures s0 == s.(rx := s0.rx) && CdcWf(b, s0) && Holds(s0.rx, bytes[1..], rest)
    ensures var (s1, answer) := Dispatch(b, s0, bytes[0]);
      Holds(s1.rx, [], rest) ==>
        && Task(b, s) == s1.(rx := OutPipe([], rest), tx := Task(b, s).tx)
        && Served(b, s, Task(b, s), rest, answer)
  {
    hide Dispatch, Answered, FlashOk, Holds, Transfer;
    TransferHolds(packets, bytes, rest);
    FetchHolds(NextPacket(s.rx), bytes, rest);
    s0 := s.(rx := Fetch(NextPacket(s.rx)).1);
    var answer := TaskAnswers(b, s);
    var s1 := Dispatch(b, s0, bytes[0]).0;
    if Holds(s1.rx, [], rest) { HoldsNothing(s1.rx, rest); }
  }

  // ---- 'A' ----------------------------------------------------------------------------------

  /** The address that the host means with a word address. */
  function ByteAddress(hi: byte, lo: byte): nat { 2 * (256 * hi + lo) }

  /** The 16-bit shift keeps the address if and only if the high byte is below 0x40. */
  lemma AddressExactIff(hi: byte, lo: byte)
    ensures AddressFrom(hi, lo) == ByteAddress(hi, lo) <==> hi < 0x40
  {}

  lemma SetAddress(b: CdcBoard, s: Cdc, hi: byte, lo: byte, packets: seq<seq<byte>>, rest: seq<seq<byte>>)
    requires CdcWf(b, s) && s.tx.bank == [] && s.rx == OutPipe([], packets + rest)
    requires Transfer(packets, [SET_ADDRESS, hi, lo])
    ensures var s' := Task(b, s);
      s' == s.(addr := AddressFrom(hi, lo), rx := s'.rx, tx := s'.tx) && Served(b, s, s', rest, [CR])
  {
    hide Task, Holds, Fetch, FlashOk, Served;
    var s0 := TaskServes(b, s, [SET_ADDRESS, hi, lo], packets, rest);
    FetchHolds(s0.rx, [hi, lo], rest);
    FetchHolds(Fetch(s0.rx).1, [lo], rest);
    var s1 := Dispatch(b, s0, SET_ADDRESS).0;
    assert [lo][1..] == [];
    assert Holds(s1.rx, [], rest);
  }

  // ---- 'B' on flash ------------------------------------------------------------------------

  /** Load consecutive words without committing them. */
  function LoadWords(size: nat, f: Flash, data: seq<byte>, addr: nat): (f': Flash)
    requires FlashOk(size, f)
    ensures FlashOk(size, f')
    decreases |data|
  {
    if |data| < 2 then f else LoadWords(size, Fill(size, f, addr, data[0], data[1]), data[2..], addr + 2)
  }

  lemma {:induction false} LoadBlockHolds(size: nat, f: Flash, rx: OutPipe, addr: uint32, low: byte, data: seq<byte>,
                                          rest: seq<seq<byte>>)
    requires FlashOk(size, f) && addr + |data| < 0x1_0000_0000 && Holds(rx, data, rest)
    ensures var run := LoadBlock(size, f, rx, addr, false, low, |data|);
      && run.flash == LoadWords(size, f, data, addr) && run.addr == addr + |data| / 2 * 2
      && Holds(run.rx, [], rest)
    decreases |data|
  {
    hide Holds, Fetch, Fill, FlashOk;
    if |data| == 1 {
      FetchHolds(rx, data, rest);
      LoadBlockOne(size, f, rx, addr, low);
      assert data[1..] == [];
    } else if data != [] {
      FetchHolds(rx, data, rest);
      var rx1 := Fetch(rx).1;
      FetchHolds(rx1, data[1..], rest);
      var rx2 := Fetch(rx1).1;
      assert data[1..][1..] == data[2..];
      LoadBlockTwo(size, f, rx, addr, low, |data|);
      LoadBlockHolds(size, Fill(size, f, addr, data[0], data[1]), rx2, addr + 2, data[0], data[2..], rest);
    }
  }

  /** A byte without a second one is fetched and forgotten. */
  lemma LoadBlockOne(size: nat, f: Flash, rx: OutPipe, addr: uint32, low: byte)
    requires FlashOk(size, f)
    ensures LoadBlock(size, f, rx, addr, false, low, 1) == BlockRun(f, Fetch(rx).1, addr)
  {
    var (v, rx1) := Fetch(rx);
    assert LoadBlock(size, f, rx1, addr, true, v, 0) == BlockRun(f, rx1, addr);
  }

  lemma LoadBlockTwo(size: nat, f: Flash, rx: OutPipe, addr: uint32, low: byte, n: nat)
    requires FlashOk(size, f) && 2 <= n && addr + 2 < 0x1_0000_0000
    ensures var (v, rx1) := Fetch(rx); var (w, rx2) := Fetch(rx1);
      LoadBlock(size, f, rx, addr, false, low, n)
          == LoadBlock(size, Fill(size, f, addr, v, w), rx2, addr + 2, false, v, n - 2)
  {
    hide Fetch, Fill, FlashOk;
    var (v, rx1) := Fetch(rx);
    assert LoadBlock(size, f, rx, addr, false, low, n) == LoadBlock(size, f, rx1, addr, true, v, n - 1);
  }

  lemma {:induction false} LoadWordsLoads(size: nat, f: Flash, p: nat, r: nat, done: seq<byte>, data: seq<byte>)
    requires Loaded(size, f, p, r, done) && |done| + |data| <= size && |data| % 2 == 0
    ensures var f' := LoadWords(size, f, data, p + r + |done|);
      Loaded(size, f', p, r, done + data) && f'.cells == f.cells && f'.misuse == f.misuse
    decreases |data|
  {
    hide Loaded, Fill, FlashOk;
    LoadedOk(size, f, p, r, done);
    if data == [] {
      assert done + data == done;
    } else {
      FillLoads(size, f, p, r, done, data[0], data[1]);
      var done1 := done + [data[0], data[1]];
      LoadWordsLoads(size, Fill(size, f, p + r + |done|, data[0], data[1]), p, r, done1, data[2..]);
      assert done1 + data[2..] == done + data;
    }
  }

  lemma LoadedOk(size: nat, f: Flash, p: nat, r: nat, done: seq<byte>)
    requires Loaded(size, f, p, r, done)
    ensures FlashOk(size, f)
  {}

  /** The flash after a block: its page erased, loaded and committed. */
  function BlockWritten(size: nat, f: Flash, addr: nat, data: seq<byte>): (f': Flash)
    requires FlashOk(size, f)
    ensures FlashOk(size, f') && |f'.cells| == |f.cells|
  {
    LoadWordsSize(size, Erase(size, f, addr), data, addr);
    Write(size, LoadWords(size, Erase(size, f, addr), data, addr), addr)
  }

  lemma {:induction false} LoadWordsSize(size: nat, f: Flash, data: seq<byte>, addr: nat)
    requires FlashOk(size, f)
    ensures LoadWords(size, f, data, addr).cells == f.cells
    decreases |data|
  {
    if |data| >= 2 { LoadWordsSize(size, Fill(size, f, addr, data[0], data[1]), data[2..], addr + 2); }
  }

  lemma BlockWrittenAt(size: nat, f: Flash, p: nat, r: nat, data: seq<byte>)
    requires FlashOk(size, f) && BufferEmpty(size, f)
    requires Aligned(size, p) && p + size <= |f.cells| && r < size && r % 2 == 0
    requires |data| <= size && |data| % 2 == 0
    ensures var f' := BlockWritten(size, f, p + r, data);
      f'.cells == Splice(f.cells, p, Rotated(size, r, data)) && BufferEmpty(size, f') && f'.misuse == f.misuse
  {
    hide Loaded, Erase, Fill, Write, PageOf, Rotated, Aligned;
    EraseLoads(size, f, p, r);
    var f1 := Erase(size, f, p + r);
    LoadWordsLoads(size, f1, p, r, [], data);
    assert [] + data == data;
    CommitLoaded(size, LoadWords(size, f1, data, p + r), p, r, data);
    assert Splice(Splice(f.cells, p, Blank(size)), p, Rotated(size, r, data))
        == Splice(f.cells, p, Rotated(size, r, data));
  }

  /** A block, however long, touches no page but that of its first byte. */
  lemma OtherPagesKept(size: nat, f: Flash, addr: nat, data: seq<byte>, i: nat)
    requires FlashOk(size, f) && i < |f.cells| && !(PageOf(size, addr) <= i < PageOf(size, addr) + size)
    ensures BlockWritten(size, f, addr, data).cells[i] == f.cells[i]
  {
    hide PageOf, Aligned;
    LoadWordsSize(size, Erase(size, f, addr), data, addr);
  }

  lemma BlockLands(size: nat, f: Flash, addr: nat, data: seq<byte>)
    requires FlashOk(size, f) && BufferEmpty(size, f)
    requires Even(addr) && data != [] && Even(|data|) && addr + |data| <= |f.cells|
             && InPage(size, addr) + |data| <= size
    ensures ReadsBack(BlockWritten(size, f, addr, data).cells, addr, data)
  {
    hide PageOf, Rotated, Laid, BlockWritten, Aligned, BufferEmpty, ReadsBack, Splice, ImageAt;
    var p, r := PageOf(size, addr), InPage(size, addr);
    PageSplit(size, addr, |f.cells|);
    BlockWrittenAt(size, f, p, r, data);
    LaidOne(size, f.cells, p, r, data);
    LaidInPage(size, f.cells, p, r, data);
    ImageReadsBack(size, f.cells, Laid(size, f.cells, p, r, data), p, r, data);
  }

  lemma BlockOverruns(size: nat, f: Flash, addr: nat, n: nat) returns (data: seq<byte>)
    requires FlashOk(size, f) && addr + n <= |f.cells| && InPage(size, addr) + n > size
    ensures |data| == n && !ReadsBack(BlockWritten(size, f, addr, data).cells, addr, data)
  {
    hide BlockWritten, ReadsBack, Aligned;
    var i := PageOf(size, addr) + size;
    var v: byte := if f.cells[i] == 0 then 1 else 0;
    data := seq(n, _ => v);
    OtherPagesKept(size, f, addr, data, i);
    WordMisplaced(BlockWritten(size, f, addr, data).cells, addr, data, i - addr);
  }

  lemma {:induction false} OddByteUnloaded(size: nat, f: Flash, data: seq<byte>, addr: nat)
    requires FlashOk(size, f) && !Even(|data|)
    ensures LoadWords(size, f, data, addr) == LoadWords(size, f, data[..|data| - 1], addr)
    decreases |data|
  {
    if |data| >= 2 {
      OddByteUnloaded(size, Fill(size, f, addr, data[0], data[1]), data[2..], addr + 2);
      assert data[2..][..|data| - 3] == data[..|data| - 1][2..];
    }
  }

  /** The last byte of an odd block is never stored. */
  lemma OddByteLost(size: nat, f: Flash, addr: nat, n: nat) returns (data: seq<byte>)
    requires FlashOk(size, f) && 0 < n && !Even(n) && addr + n <= |f.cells|
    ensures |data| == n && !ReadsBack(BlockWritten(size, f, addr, data).cells, addr, data)
  {
    hide ReadsBack, Erase, Write, Even, FlashOk;
    var zeros: seq<byte> := seq(n - 1, _ => 0);
    var cells := BlockWritten(size, f, addr, zeros).cells;
    var v: byte := if cells[addr + n - 1] == 0 then 1 else 0;
    data := zeros + [v];
    OddByteUnloaded(size, Erase(size, f, addr), data, addr);
    assert data[..n - 1] == zeros;
    WordMisplaced(cells, addr, data, n - 1);
  }

  /** A block of any length can be trusted if and only if it is whole words and stays inside the page of its
      first byte. */
  lemma BlockLandsIff(size: nat, f: Flash, addr: nat, n: nat)
    requires FlashOk(size, f) && BufferEmpty(size, f)
    requires Even(addr) && 0 < n && addr + n <= |f.cells|
    ensures (forall data: seq<byte> :: |data| == n ==> ReadsBack(BlockWritten(size, f, addr, data).cells, addr, data))
            <==> Even(n) && InPage(size, addr) + n <= size
  {
    hide InPage, BlockWritten, Aligned, BufferEmpty, ReadsBack, Even;
    if !Even(n) {
      var data := OddByteLost(size, f, addr, n);
    } else if InPage(size, addr) + n <= size {
      forall data: seq<byte> | |data| == n ensures ReadsBack(BlockWritten(size, f, addr, data).cells, addr, data) {
        BlockLands(size, f, addr, data);
      }
    } else {
      var data := BlockOverruns(size, f, addr, n);
    }
  }

  function BlockHeader(command: byte, n: uint16): seq<byte> { [command, High(n), Low(n), FLASH_MEMORY] }

  lemma HeaderFetched(p: OutPipe, n: uint16, memory: byte, data: seq<byte>, rest: seq<seq<byte>>)
    requires Holds(p, [High(n), Low(n), memory] + data, rest)
    ensures var (hi, p1) := Fetch(p); var (lo, p2) := Fetch(p1); var (m, p3) := Fetch(p2);
      Word(lo, hi) == n && m == memory && Holds(p3, data, rest)
  {
    hide Holds, Fetch;
    var bytes := [High(n), Low(n), memory] + data;
    FetchHolds(p, bytes, rest);
    var p1 := Fetch(p).1;
    FetchHolds(p1, bytes[1..], rest);
    FetchHolds(Fetch(p1).1, bytes[1..][1..], rest);
    assert bytes[1..][1..][1..] == data;
  }

  lemma WriteBlock(b: CdcBoard, s: Cdc, data: seq<byte>, packets: seq<seq<byte>>, rest: seq<seq<byte>>)
    requires CdcWf(b, s) && s.tx.bank == [] && s.rx == OutPipe([], packets + rest)
    requires |data| < 65536 && s.addr + |data| < 0x1_0000_0000
    requires Transfer(packets, BlockHeader(WRITE_BLOCK, |data|) + data)
    ensures var s' := Task(b, s);
      && s' == s.(flash := BlockWritten(b.pageSize, s.flash, s.addr, data), addr := s.addr + |data| / 2 * 2,
                  rx := s'.rx, tx := s'.tx)
      && Served(b, s, s', rest, [CR])
  {
    hide Task, Holds, Fetch, FlashOk, Served, Erase, Write, Fill, Transfer, LoadBlock, LoadWords, CdcBoardOk;
    var bytes := BlockHeader(WRITE_BLOCK, |data|) + data;
    var s0 := TaskServes(b, s, bytes, packets, rest);
    assert bytes[1..] == [High(|data|), Low(|data|), FLASH_MEMORY] + data;
    HeaderFetched(s0.rx, |data|, FLASH_MEMORY, data, rest);
    var rx3 := Fetch(Fetch(Fetch(s0.rx).1).1).1;
    LoadBlockHolds(b.pageSize, Erase(b.pageSize, s.flash, s.addr), rx3, s.addr, 0, data, rest);
    assert Dispatch(b, s0, WRITE_BLOCK) == MemoryBlock(b, s0, WRITE_BLOCK);
  }

  // ---- 'g' on flash ------------------------------------------------------------------------

  lemma {:induction false} ReadFlashBlockReads(cells: seq<byte>, addr: uint32, n: nat)
    requires addr % 2 == 0 && addr + n <= |cells| && addr + n < 0x1_0000_0000
    ensures ReadFlashBlock(cells, addr, false, n) == (cells[addr..addr + n], addr + n / 2 * 2)
    decreases n
  {
    if n == 1 {
      assert ReadFlashBlock(cells, addr, true, 0) == ([], addr);
      assert cells[addr..addr + 1] == [cells[addr]] + [];
    } else if n > 0 {
      ReadFlashBlockReads(cells, addr + 2, n - 2);
      var (rest, addr') := ReadFlashBlock(cells, addr, true, n - 1);
      assert (rest, addr') == ([cells[addr + 1]] + cells[addr + 2..addr + n], addr + n / 2 * 2);
      assert [cells[addr]] + ([cells[addr + 1]] + cells[addr + 2..addr + n]) == cells[addr..addr + n];
    } else {
      assert cells[addr..addr + n] == [];
    }
  }

  lemma ReadBlock(b: CdcBoard, s: Cdc, n: uint16, packets: seq<seq<byte>>, rest: seq<seq<byte>>)
    requires CdcWf(b, s) && s.tx.bank == [] && s.rx == OutPipe([], packets + rest)
    requires s.addr % 2 == 0 && s.addr + n <= |s.flash.cells| && s.addr + n < 0x1_0000_0000
    requires Transfer(packets, BlockHeader(READ_BLOCK, n))
    ensures var s' := Task(b, s);
      && s' == s.(addr := s.addr + n / 2 * 2, flash := Enable(b.pageSize, s.flash), rx := s'.rx, tx := s'.tx)
      && Served(b, s, s', rest, s.flash.cells[s.addr..s.addr + n])
  {
    hide Task, Holds, Fetch, FlashOk, Served, Transfer, ReadFlashBlock, CdcBoardOk;
    var bytes := BlockHeader(READ_BLOCK, n);
    var s0 := TaskServes(b, s, bytes, packets, rest);
    assert bytes[1..] == [High(n), Low(n), FLASH_MEMORY] + [];
    HeaderFetched(s0.rx, n, FLASH_MEMORY, [], rest);
    ReadFlashBlockReads(s.flash.cells, s.addr, n);
    assert Dispatch(b, s0, READ_BLOCK) == MemoryBlock(b, s0, READ_BLOCK);
  }

  // ---- Whole images -------------------------------------------------------------------------

  /** `transfers` write `image` in full-page blocks, the last one possibly shorter. */
  ghost predicate WritesImage(size: nat, transfers: seq<seq<seq<byte>>>, image: seq<byte>)
    requires 0 < size
    decreases |transfers|
  {
    var n := Min(size, |image|);
    if image == [] then transfers == []
    else
      && transfers != [] && n < 65536
      && Transfer(transfers[0], BlockHeader(WRITE_BLOCK, n) + image[..n])
      && WritesImage(size, transfers[1..], image[n..])
  }

  /** `transfers` read blocks of the even lengths `sizes`. */
  ghost predicate ReadsSizes(transfers: seq<seq<seq<byte>>>, sizes: seq<uint16>)
    decreases |transfers|
  {
    && |transfers| == |sizes|
    && (transfers != [] ==>
        && sizes[0] % 2 == 0
        && Transfer(transfers[0], BlockHeader(READ_BLOCK, sizes[0]))
        && ReadsSizes(transfers[1..], sizes[1..]))
  }

  function Sum(sizes: seq<uint16>): nat { if sizes == [] then 0 else sizes[0] + Sum(sizes[1..]) }

  /** The packets of several transfers, one after the other. */
  function Queue(transfers: seq<seq<seq<byte>>>): seq<seq<byte>> {
    if transfers == [] then [] else transfers[0] + Queue(transfers[1..])
  }

  /** The part of an image that goes into its first page, and the rest. */
  function FirstPage(size: nat, image: seq<byte>): seq<byte> { image[..Min(size, |image|)] }

  function LaterPages(size: nat, image: seq<byte>): seq<byte> { image[Min(size, |image|)..] }

  lemma LaidSplit(size: nat, cells: seq<byte>, p: nat, image: seq<byte>)
    requires 0 < size && image != [] && p + size <= |cells| && |FirstPage(size, image)| <= size
    ensures Laid(size, cells, p, 0, image)
         == Laid(size, Splice(cells, p, Rotated(size, 0, FirstPage(size, image))), p + size, 0, LaterPages(size, image))
  {}

  /** `k` bytes were written at the address: it has advanced by `k`, only flash has changed, the
      hardware was not misused, and more packets may have been sent. */
  ghost predicate Moved(b: CdcBoard, s: Cdc, s': Cdc, k: nat, rest: seq<seq<byte>>) {
    && CdcWf(b, s')
    && s'.addr == s.addr + k && s' == s.(flash := s'.flash, addr := s'.addr, rx := OutPipe([], rest), tx := s'.tx)
    && s'.flash.misuse == s.flash.misuse && BufferEmpty(b.pageSize, s'.flash) && |s'.flash.cells| == |s.flash.cells|
    && s'.tx.bank == [] && |s.tx.sent| <= |s'.tx.sent| && s'.tx.sent[..|s.tx.sent|] == s.tx.sent
  }

  lemma MovedBoth(b: CdcBoard, s: Cdc, s1: Cdc, s2: Cdc, k1: nat, k2: nat, rest1: seq<seq<byte>>, rest2: seq<seq<byte>>)
    requires Moved(b, s, s1, k1, rest1) && Moved(b, s1, s2, k2, rest2)
    ensures Moved(b, s, s2, k1 + k2, rest2)
  {
    assert s2.tx.sent[..|s.tx.sent|] == s2.tx.sent[..|s1.tx.sent|][..|s.tx.sent|];
  }

  /** One page-aligned block of at most a page. */
  lemma WritePage(b: CdcBoard, s: Cdc, data: seq<byte>, packets: seq<seq<byte>>, rest: seq<seq<byte>>)
    requires CdcWf(b, s) && s.tx.bank == [] && s.rx == OutPipe([], packets + rest)
    requires |data| <= b.pageSize && |data| < 65536 && Even(|data|)
    requires Transfer(packets, BlockHeader(WRITE_BLOCK, |data|) + data)
    requires BufferEmpty(b.pageSize, s.flash) && Aligned(b.pageSize, s.addr)
    requires s.addr < |s.flash.cells| < 0x1_0000_0000 && s.addr + |data| <= |s.flash.cells|
    requires s.addr + |data| < 0x1_0000_0000
    ensures var s' := Task(b, s);
      && s.addr + b.pageSize <= |s.flash.cells|
      && Moved(b, s, s', |data|, rest)
      && s'.flash.cells == Splice(s.flash.cells, s.addr, Rotated(b.pageSize, 0, data))
  {
    hide Task, Aligned, BlockWritten, BufferEmpty, Transfer, Rotated, Splice, Served;
    NextPageFits(b.pageSize, s.addr, |s.flash.cells|);
    WriteBlock(b, s, data, packets, rest);
    BlockWrittenAt(b.pageSize, s.flash, s.addr, 0, data);
    ServedSent(b, s, Task(b, s), rest, [CR]);
  }

  /** The block that carries the first page of an image. */
  lemma FirstPageWritten(b: CdcBoard, s: Cdc, image: seq<byte>, packets: seq<seq<byte>>, rest: seq<seq<byte>>)
    requires CdcWf(b, s) && s.tx.bank == [] && s.rx == OutPipe([], packets + rest) && 0 < b.pageSize
    requires Even(|image|) && image != []
    requires var first := FirstPage(b.pageSize, image);
      |first| < 65536 && Transfer(packets, BlockHeader(WRITE_BLOCK, |first|) + first)
    requires BufferEmpty(b.pageSize, s.flash) && Aligned(b.pageSize, s.addr)
    requires s.addr + |image| <= |s.flash.cells| < 0x1_0000_0000
    ensures var s1, left := Task(b, s), LaterPages(b.pageSize, image);
      && |left| < |image| && Moved(b, s, s1, |image| - |left|, rest)
      && Laid(b.pageSize, s.flash.cells, s.addr, 0, image)
         == Laid(b.pageSize, s1.flash.cells, s.addr + b.pageSize, 0, left)
  {
    hide Task, Aligned, Laid, BufferEmpty, Transfer, Rotated, Splice, Moved, CdcWf, Even, FirstPage, LaterPages,
         BlockHeader;
    PageSizeOk(b, s);
    ImageSplit(b.pageSize, image);
    WritePage(b, s, FirstPage(b.pageSize, image), packets, rest);
    LaidSplit(b.pageSize, s.flash.cells, s.addr, image);
  }

  /** The first block of an image: what it leaves to be written, and where. */
  lemma FirstBlock(b: CdcBoard, s: Cdc, transfers: seq<seq<seq<byte>>>, image: seq<byte>, rest: seq<seq<byte>>)
    requires CdcWf(b, s) && s.tx.bank == [] && s.rx == OutPipe([], Queue(transfers) + rest) && 0 < b.pageSize
    requires WritesImage(b.pageSize, transfers, image) && Even(|image|) && image != []
    requires BufferEmpty(b.pageSize, s.flash) && Aligned(b.pageSize, s.addr)
    requires s.addr + |image| <= |s.flash.cells| < 0x1_0000_0000
    ensures transfers != []
    ensures var s1, left := Task(b, s), LaterPages(b.pageSize, image);
      && Moved(b, s, s1, |image| - |left|, Queue(transfers[1..]) + rest)
      && WritesImage(b.pageSize, transfers[1..], left) && Even(|left|) && |left| < |image|
      && (left == [] || |image| - |left| == b.pageSize)
      && Laid(b.pageSize, s.flash.cells, s.addr, 0, image)
         == Laid(b.pageSize, s1.flash.cells, s.addr + b.pageSize, 0, left)
  {
    hide Task, Aligned, Laid, BufferEmpty, Transfer, WritesImage, Queue, Moved, CdcWf, Even, FirstPage, LaterPages,
         BlockHeader;
    PageSizeOk(b, s);
    ImageSplit(b.pageSize, image);
    WritesImageSplit(b.pageSize, transfers, image);
    QueueSplit(transfers, rest);
    FirstPageWritten(b, s, image, transfers[0], Queue(transfers[1..]) + rest);
  }

  /** A block shorter than a page ends the image. */
  lemma NoMoreBlocks(size: nat, transfers: seq<seq<seq<byte>>>, cells: seq<byte>, p: nat, rest: seq<seq<byte>>)
    requires 0 < size && WritesImage(size, transfers, [])
    ensures transfers == [] && Queue(transfers) + rest == rest && Laid(size, cells, p, 0, []) == cells
  {
    WritesImageSplit(size, transfers, []);
    QueueSplit(transfers, rest);
    LaidNone(size, cells, p);
  }

  /** Writing an image in page blocks lays it over the pages and advances the address by its length. */
  lemma {:induction false} WriteImage(b: CdcBoard, s: Cdc, transfers: seq<seq<seq<byte>>>, image: seq<byte>,
                                      rest: seq<seq<byte>>)
    requires CdcWf(b, s) && s.tx.bank == [] && s.rx == OutPipe([], Queue(transfers) + rest)
    requires WritesImage(b.pageSize, transfers, image) && Even(|image|)
    requires BufferEmpty(b.pageSize, s.flash) && Aligned(b.pageSize, s.addr)
    requires s.addr + |image| <= |s.flash.cells| < 0x1_0000_0000
    ensures var s' := Tasks(b, s, |transfers|);
      && Moved(b, s, s', |image|, rest)
      && s'.flash.cells == Laid(b.pageSize, s.flash.cells, s.addr, 0, image)
    decreases |transfers|
  {
    hide Task, Tasks, Aligned, Laid, BufferEmpty, WritesImage, Queue, Moved, CdcWf, Even, LaterPages;
    var size := b.pageSize;
    PageSizeOk(b, s);
    if image == [] {
      NoMoreBlocks(size, transfers, s.flash.cells, s.addr, rest);
      NothingMoved(b, s, rest);
    } else {
      FirstBlock(b, s, transfers, image, rest);
      var s1, left, rest1 := Task(b, s), LaterPages(size, image), Queue(transfers[1..]) + rest;
      TasksOnce(b, s, |transfers|);
      MovedOn(b, s, s1, |image| - |left|, rest1);
      if left == [] {
        NoMoreBlocks(size, transfers[1..], s1.flash.cells, s.addr + size, rest);
      } else {
        AlignedNext(size, s.addr);
        WriteImage(b, s1, transfers[1..], left, rest);
        MovedBoth(b, s, s1, Tasks(b, s, |transfers|), size, |left|, rest1, rest);
      }
    }
  }

  lemma PageSizeOk(b: CdcBoard, s: Cdc)
    requires CdcWf(b, s)
    ensures 0 < b.pageSize && Even(b.pageSize)
  {}

  lemma NothingMoved(b: CdcBoard, s: Cdc, rest: seq<seq<byte>>)
    requires CdcWf(b, s) && s.tx.bank == [] && s.rx == OutPipe([], rest) && BufferEmpty(b.pageSize, s.flash)
    ensures Tasks(b, s, 0) == s && Moved(b, s, s, 0, rest)
            && s.flash.cells == Laid(b.pageSize, s.flash.cells, s.addr, 0, [])
  {}

  lemma MovedOn(b: CdcBoard, s: Cdc, s1: Cdc, k: nat, rest: seq<seq<byte>>)
    requires Moved(b, s, s1, k, rest)
    ensures s1.addr == s.addr + k && s1.rx == OutPipe([], rest) && s1.tx.bank == [] && BufferEmpty(b.pageSize, s1.flash)
    ensures CdcWf(b, s1) && |s1.flash.cells| == |s.flash.cells|
  {}

  lemma ImageSplit(size: nat, image: seq<byte>)
    requires 0 < size && Even(size) && Even(|image|) && image != []
    ensures var first, left := FirstPage(size, image), LaterPages(size, image);
      && 0 < |first| <= size && |first| + |left| == |image| && (left == [] || |first| == size)
      && Even(|first|) && Even(|left|)
  {}

  lemma WritesImageSplit(size: nat, transfers: seq<seq<seq<byte>>>, image: seq<byte>)
    requires 0 < size && WritesImage(size, transfers, image)
    ensures image == [] ==> transfers == []
    ensures image != [] ==>
      var first := FirstPage(size, image);
      && transfers != [] && |first| < 65536
      && Transfer(transfers[0], BlockHeader(WRITE_BLOCK, |first|) + first)
      && WritesImage(size, transfers[1..], LaterPages(size, image))
  {
    hide Transfer;
  }

  lemma QueueSplit(transfers: seq<seq<seq<byte>>>, rest: seq<seq<byte>>)
    ensures Queue(transfers) + rest
         == if transfers == [] then rest else transfers[0] + (Queue(transfers[1..]) + rest)
  {}

  lemma TasksOnce(b: CdcBoard, s: Cdc, n: nat)
    requires CdcWf(b, s) && 0 < n
    ensures Tasks(b, s, n) == Tasks(b, Task(b, s), n - 1)
    ensures Tasks(b, Task(b, s), 0) == Task(b, s)
  {
    hide Task;
  }

  lemma LaidNone(size: nat, cells: seq<byte>, p: nat)
    requires 0 < size
    ensures Laid(size, cells, p, 0, []) == cells
  {}

  lemma ServedSent(b: CdcBoard, s: Cdc, s': Cdc, rest: seq<seq<byte>>, answer: seq<byte>)
    requires Served(b, s, s', rest, answer)
    ensures s'.rx == OutPipe([], rest) && s'.tx.bank == []
    ensures |s.tx.sent| <= |s'.tx.sent| && s'.tx.sent[..|s.tx.sent|] == s.tx.sent && Received(s.tx, s'.tx) == answer
  {}

  /** Reading blocks of any even lengths returns the flash contents without gap or overlap. */
  lemma {:induction false} ReadImage(b: CdcBoard, s: Cdc, transfers: seq<seq<seq<byte>>>, sizes: seq<uint16>,
                                     rest: seq<seq<byte>>)
    requires CdcWf(b, s) && s.tx.bank == [] && s.rx == OutPipe([], Queue(transfers) + rest)
    requires ReadsSizes(transfers, sizes)
    requires s.addr % 2 == 0 && s.addr + Sum(sizes) <= |s.flash.cells| < 0x1_0000_0000
    ensures var s' := Tasks(b, s, |transfers|);
      && s' == s.(addr := s.addr + Sum(sizes), flash := s'.flash, rx := OutPipe([], rest), tx := s'.tx)
      && s'.flash.cells == s.flash.cells && (BufferEmpty(b.pageSize, s.flash) ==> s'.flash == s.flash)
      && s'.tx.bank == [] && |s.tx.sent| <= |s'.tx.sent| && s'.tx.sent[..|s.tx.sent|] == s.tx.sent
      && Received(s.tx, s'.tx) == s.flash.cells[s.addr..s.addr + Sum(sizes)]
    decreases |transfers|
  {
    hide Task, Transfer, FlashOk, CdcBoardOk;
    if transfers == [] {
      assert Queue(transfers) + rest == rest;
      assert s.tx.sent[|s.tx.sent|..] == [];
    } else {
      var n := sizes[0];
      var rest1 := Queue(transfers[1..]) + rest;
      assert Queue(transfers) + rest == transfers[0] + rest1;
      ReadBlock(b, s, n, transfers[0], rest1);
      var s1 := Task(b, s);
      ServedSent(b, s, s1, rest1, s.flash.cells[s.addr..s.addr + n]);
      ReadImage(b, s1, transfers[1..], sizes[1..], rest);
      var s2 := Tasks(b, s1, |transfers| - 1);
      ReceivedBoth(s.tx, s1.tx, s2.tx);
      assert s.flash.cells[s.addr..s.addr + n] + s.flash.cells[s.addr + n..s.addr + Sum(sizes)]
          == s.flash.cells[s.addr..s.addr + Sum(sizes)];
      assert Tasks(b, s, |transfers|) == s2;
    }
  }

  /** Set the address, write an image, set the address again, read it back in any even pieces. */
  lemma CdcRoundTrip(b: CdcBoard, s: Cdc, hi: byte, lo: byte, image: seq<byte>, sizes: seq<uint16>,
                     set1: seq<seq<byte>>, writes: seq<seq<seq<byte>>>, set2: seq<seq<byte>>,
                         readOuts: seq<seq<seq<byte>>>)
    requires CdcWf(b, s) && s.tx.bank == [] && BufferEmpty(b.pageSize, s.flash)
    requires s.rx == OutPipe([], set1 + (Queue(writes) + (set2 + (Queue(readOuts) + []))))
    requires hi < 0x40 && Transfer(set1, [SET_ADDRESS, hi, lo]) && Transfer(set2, [SET_ADDRESS, hi, lo])
    requires WritesImage(b.pageSize, writes, image) && ReadsSizes(readOuts, sizes) && Sum(sizes) == |image|
    requires |image| % 2 == 0 && Aligned(b.pageSize, ByteAddress(hi, lo))
    requires ByteAddress(hi, lo) + |image| <= |s.flash.cells| < 0x1_0000_0000
    ensures var s1 := Tasks(b, Task(b, s), |writes|); var s2 := Task(b, s1); var s3 := Tasks(b, s2, |readOuts|);
      var a := ByteAddress(hi, lo);
      && ImageAt(b.pageSize, s.flash.cells, s1.flash.cells, a, 0, image) && s1.flash.misuse == s.flash.misuse
      && s1.addr == a + |image| == s3.addr
      && s3.flash == s1.flash && s3.eeprom == s.eeprom && s3.rx == OutPipe([], [])
      && |s2.tx.sent| <= |s3.tx.sent| && Received(s2.tx, s3.tx) == image
  {
    hide Task, Tasks, Transfer, Aligned, ImageAt, BufferEmpty, WritesImage, ReadsSizes, Laid, Served, Queue, Sum;
    var a := ByteAddress(hi, lo);
    AddressExactIff(hi, lo);
    var rest3 := Queue(readOuts) + [];
    var rest2 := set2 + rest3;
    SetAddress(b, s, hi, lo, set1, Queue(writes) + rest2);
    var s0 := Task(b, s);
    ServedSent(b, s, s0, Queue(writes) + rest2, [CR]);
    WriteImage(b, s0, writes, image, rest2);
    LaidAligned(b.pageSize, s.flash.cells, a, image);
    var s1 := Tasks(b, s0, |writes|);
    SetAddress(b, s1, hi, lo, set2, rest3);
    var s2 := Task(b, s1);
    ServedSent(b, s1, s2, rest3, [CR]);
    ReadImage(b, s2, readOuts, sizes, []);
    ImageReadsBack(b.pageSize, s.flash.cells, s1.flash.cells, a, 0, image);
  }
}
