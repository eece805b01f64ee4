/** Which flash download requests put their payload where it belongs, whatever the payload is. */
module DfuPlacement {
  import opened Usb
  import opened AvrFlash
  import opened FlashImage
  import opened DfuSpec
  import opened DfuPackets
  import opened DfuTransfer

  // ---- Cutting a data stage into packets -------------------------------------------

  function Total(sizes: seq<nat>): nat { if sizes == [] then 0 else sizes[0] + Total(sizes[1..]) }

  /** The data stage `s` in packets of the given lengths. */
  function Split(sizes: seq<nat>, s: seq<byte>): (packets: seq<seq<byte>>)
    requires Total(sizes) == |s|
    ensures Lengths(packets) == sizes && Flatten(packets) == s
    decreases |sizes|
  {
    if sizes == [] then []
    else
      var rest := Split(sizes[1..], s[sizes[0]..]);
      var packets := [s[..sizes[0]]] + rest;
      assert packets[1..] == rest;
      assert Lengths(packets) == [sizes[0]] + Lengths(rest);
      assert sizes == [sizes[0]] + sizes[1..];
      packets
  }

  /** The lengths that a host chooses which sends full packets of `e` bytes for as long as it can. */
  function FullSizes(e: nat, total: nat): (sizes: seq<nat>)
    requires 0 < e && 0 < total
    ensures Total(sizes) == total && sizes != [] && sizes[0] == Min(e, total)
    ensures forall i :: 0 <= i < |sizes| ==> 0 < sizes[i] <= e
    decreases total
  {
    if total <= e then [total] else [e] + FullSizes(e, total - e)
  }

  // ---- What the word loop is fed -----------------------------------------------------

  /** The data stage once the header has been read and both fillers have been discarded. */
  function Fed(b: Board, packets: seq<seq<byte>>, start: uint16): OutPipe
    requires 0 < b.pageSize && packets != [] && 6 <= |packets[0]|
  {
    Discard(Discard(OutPipe(packets[0][6..], packets[1..]), DFU_FILLER_BYTES_SIZE), InPage(b.pageSize, start))
  }

  /** At most the fillers are gone, and all of them if and only if the first packet holds them. */
  lemma FedStream(b: Board, packets: seq<seq<byte>>, start: uint16)
    requires 0 < b.pageSize && packets != [] && 6 <= |packets[0]| && forall i :: 1 <= i < |packets| ==> packets[i] != []
    ensures var p := Fed(b, packets, start);
      var k := |Flatten(packets)| - |Stream(p)|;
      && 6 <= k <= PayloadOffset(b, start) && Stream(p) == Flatten(packets)[k..] && Cut(p)
      && (k == PayloadOffset(b, start) <==> PayloadOffset(b, start) <= |packets[0]|)
      && (PayloadOffset(b, start) <= |packets[0]| ==> Sizes(p) == Behind(b, Lengths(packets), start))
  {
    hide Discard, InPage, Cut, Sizes, Behind;
    var p0 := OutPipe(packets[0][6..], packets[1..]);
    var r := InPage(b.pageSize, start);
    FirstDiscard(packets);
    var p1 := Discard(p0, DFU_FILLER_BYTES_SIZE);
    DiscardDrops(p1, r);
    if PayloadOffset(b, start) <= |packets[0]| { FedExact(b, packets, start); }
  }

  lemma FirstDiscard(packets: seq<seq<byte>>)
    requires packets != [] && 6 <= |packets[0]| && forall i :: 1 <= i < |packets| ==> packets[i] != []
    ensures var p := Discard(OutPipe(packets[0][6..], packets[1..]), DFU_FILLER_BYTES_SIZE);
      var k := |Flatten(packets)| - |Stream(p)|;
      && 6 <= k <= 32 && Stream(p) == Flatten(packets)[k..] && Cut(p)
      && (k == 32 <==> 32 <= |packets[0]|)
      && (32 <= |packets[0]| ==> |p.bank| == |packets[0]| - 32)
  {
    hide Discard;
    var p0 := OutPipe(packets[0][6..], packets[1..]);
    assert Stream(p0) == Flatten(packets)[6..];
    DiscardDrops(p0, DFU_FILLER_BYTES_SIZE);
    if 32 <= |packets[0]| { DiscardBank(p0, DFU_FILLER_BYTES_SIZE); }
  }

  lemma FedExact(b: Board, packets: seq<seq<byte>>, start: uint16)
    requires 0 < b.pageSize && packets != [] && PayloadOffset(b, start) <= |packets[0]|
    ensures Sizes(Fed(b, packets, start)) == Behind(b, Lengths(packets), start)
  {
    hide Discard, InPage;
    DiscardBank(OutPipe(packets[0][6..], packets[1..]), DFU_FILLER_BYTES_SIZE);
    DiscardBank(OutPipe(packets[0][32..], packets[1..]), InPage(b.pageSize, start));
    assert Lengths(packets)[1..] == Lengths(packets[1..]);
  }

  lemma FedShape(b: Board, ps: seq<seq<byte>>, qs: seq<seq<byte>>, start: uint16)
    requires 0 < b.pageSize && ps != [] && 6 <= |ps[0]| && Lengths(ps) == Lengths(qs)
    ensures qs != [] && |qs[0]| == |ps[0]|
    ensures Sizes(Fed(b, ps, start)) == Sizes(Fed(b, qs, start))
  {
    hide Discard, InPage;
    assert |qs| == |Lengths(ps)| && Lengths(ps)[0] == Lengths(qs)[0];
    assert Lengths(ps[1..]) == Lengths(ps)[1..] == Lengths(qs)[1..] == Lengths(qs[1..]);
    var p0, q0 := OutPipe(ps[0][6..], ps[1..]), OutPipe(qs[0][6..], qs[1..]);
    DiscardShape(p0, q0, DFU_FILLER_BYTES_SIZE);
    DiscardShape(Discard(p0, DFU_FILLER_BYTES_SIZE), Discard(q0, DFU_FILLER_BYTES_SIZE), InPage(b.pageSize, start));
  }

  // ---- The request ---------------------------------------------------------------------

  /** A request for `n` bytes from `start`: `head` is the header with both fillers, `tail` whatever follows
      the payload, `sizes` the packet lengths.  The payload is free. */
  datatype Layout = Layout(wLength: uint16, sizes: seq<nat>, head: seq<byte>, start: uint16, n: nat, tail: seq<byte>)

  ghost predicate LayoutOk(b: Board, l: Layout)
    requires 0 < b.pageSize
  {
    && 6 < l.wLength && 0 < l.n && l.start + l.n <= 65536
    && |l.head| == PayloadOffset(b, l.start)
    && l.head[..6] == RangeHeader(COMMAND_PROG_START, 0, l.start, l.start + l.n - 1)
    && l.sizes != [] && 6 <= l.sizes[0] && (forall i :: 0 <= i < |l.sizes| ==> 0 < l.sizes[i])
    && Total(l.sizes) == |l.head| + l.n + |l.tail|
  }

  function Packets(l: Layout, payload: seq<byte>): (packets: seq<seq<byte>>)
    requires Total(l.sizes) == |l.head| + l.n + |l.tail| && |payload| == l.n
    ensures Lengths(packets) == l.sizes && Flatten(packets) == l.head + payload + l.tail
  {
    Split(l.sizes, l.head + payload + l.tail)
  }

  lemma PacketsCarry(b: Board, l: Layout, payload: seq<byte>)
    requires 0 < b.pageSize && LayoutOk(b, l) && |payload| == l.n
    ensures var packets := Packets(l, payload);
      && Carries(packets, l.head[..6]) && |packets[0]| == l.sizes[0]
      && forall i :: 0 <= i < |packets| ==> packets[i] != []
  {
    hide InPage, Packets;
    var packets := Packets(l, payload);
    assert |packets| == |l.sizes|;
    forall i | 0 <= i < |packets| ensures |packets[i]| == l.sizes[i] { assert Lengths(packets)[i] == |packets[i]|; }
    assert packets[0][..6] == Flatten(packets)[..6] == l.head[..6];
  }

  /** The flash contents after the request. */
  function Downloaded(b: Board, s: Dfu, l: Layout, payload: seq<byte>): (cells: seq<byte>)
    requires Wf(b, s) && LayoutOk(b, l) && |payload| == l.n
  {
    Step(b, s, Dnload(l.wLength, Packets(l, payload))).flash.cells
  }

  /** The words that the loop reads. */
  function Read(b: Board, l: Layout, payload: seq<byte>): (data: seq<byte>)
    requires 0 < b.pageSize && LayoutOk(b, l) && |payload| == l.n
  {
    PacketsCarry(b, l, payload);
    ReadWords(Fed(b, Packets(l, payload), l.start), ByteCount(l.start, l.start + l.n - 1) / 2).0
  }

  lemma WordsAvailable(b: Board, l: Layout, payload: seq<byte>)
    requires 0 < b.pageSize && LayoutOk(b, l) && |payload| == l.n
    ensures var packets := Packets(l, payload);
      && packets != [] && 6 <= |packets[0]|
      && 2 * (ByteCount(l.start, l.start + l.n - 1) / 2) <= l.n <= |Stream(Fed(b, packets, l.start))|
      && Cut(Fed(b, packets, l.start))
  {
    hide Packets, Fed, Cut, InPage;
    PacketsCarry(b, l, payload);
    FedStream(b, Packets(l, payload), l.start);
  }

  /** Whatever the loop reads is what it programs. */
  lemma ProgramsRead(b: Board, s: Dfu, l: Layout, payload: seq<byte>)
    requires Wf(b, s) && !s.secure && !s.waitForExit && LayoutOk(b, l) && |payload| == l.n
    ensures Downloaded(b, s, l, payload)
         == Programmed(b.pageSize, s.flash, Address(s.page64, l.start), Read(b, l, payload)).cells
  {
    hide Step, Packets, Firmware, ReadWords, WriteWords, FillWords, Stream, Cut, Discard, Erase, BoardOk, FlashOk;
    var packets, end := Packets(l, payload), l.start + l.n - 1;
    PacketsCarry(b, l, payload);
    ArmedByRequest(b, s, l.wLength, packets, 0, l.start, end);
    WordsAvailable(b, l, payload);
    FirmwarePrograms(b, Armed(b, s, l.wLength, packets, 0, l.start, end), Fed(b, packets, l.start));
  }

  lemma FirmwarePrograms(b: Board, s: Dfu, rx: OutPipe)
    requires Wf(b, s) && s.data[0] == 0x00
    requires rx == Discard(Discard(s.rx, DFU_FILLER_BYTES_SIZE), InPage(b.pageSize, s.start)) && Cut(rx)
    requires 2 * (ByteCount(s.start, s.end) / 2) <= |Stream(rx)|
    ensures var a := Address(s.page64, s.start);
      Firmware(b, s).0.flash.cells
        == FillWords(b.pageSize, s.flash, ReadWords(rx, ByteCount(s.start, s.end) / 2).0, a, a, 0).cells
  {
    hide ReadWords, WriteWords, FillWords, Stream, Cut, Discard, FlashOk, Address, BoardOk, ByteCount;
    var a := Address(s.page64, s.start);
    WriteWordsOn(b.pageSize, s.flash, rx, a, a, 0, ByteCount(s.start, s.end) / 2);
  }

  // ---- When the loop reads the payload -----------------------------------------------

  lemma ReadsPayload(b: Board, l: Layout, payload: seq<byte>)
    requires 0 < b.pageSize && LayoutOk(b, l) && |payload| == l.n && Exact(b, l.sizes, l.start, l.n)
    ensures Read(b, l, payload) == payload
  {
    hide Packets, Fed, Cut, InPage, KeepsWords, Sizes, ReadWords, Behind, Stream;
    var packets := Packets(l, payload);
    PacketsCarry(b, l, payload);
    FedStream(b, packets, l.start);
    var rx := Fed(b, packets, l.start);
    WordsUsed(rx, ByteCount(l.start, l.start + l.n - 1) / 2);
    assert Stream(rx)[..l.n] == payload;
  }

  /** Up to the last byte of the payload the data stages are the same. */
  lemma StagesAgree(l: Layout, p: seq<byte>, q: seq<byte>, k: nat)
    requires |p| == |q| == l.n && 0 < l.n && p[..l.n - 1] == q[..l.n - 1] && k <= |l.head|
    ensures var m := |l.head| + l.n - 1 - k; (l.head + p + l.tail)[k..][..m] == (l.head + q + l.tail)[k..][..m]
  {
    var e := |l.head| + l.n - 1;
    assert (l.head + p + l.tail)[..e] == l.head + p[..l.n - 1] == l.head + q[..l.n - 1] == (l.head + q + l.tail)[..e];
    assert (l.head + p + l.tail)[k..][..e - k] == (l.head + p + l.tail)[..e][k..];
    assert (l.head + q + l.tail)[k..][..e - k] == (l.head + q + l.tail)[..e][k..];
  }

  lemma WordCount(start: uint16, n: nat)
    requires 0 < n && start + n <= 65536
    ensures var words := ByteCount(start, start + n - 1) / 2;
      2 * words <= n && (2 * words == n <==> Even(n) && n < 65536)
  {}

  lemma LayoutFacts(b: Board, l: Layout)
    requires 0 < b.pageSize && LayoutOk(b, l)
    ensures |l.head| == PayloadOffset(b, l.start) && 0 < l.n && l.start + l.n <= 65536
    ensures l.sizes != [] && 6 <= l.sizes[0]
  {}

  /** What the loop takes, from a stage of which `k` bytes are gone, ends in front of the payload's last byte. */
  lemma UsedBefore(b: Board, l: Layout, packets: seq<seq<byte>>)
    requires 0 < b.pageSize && LayoutOk(b, l) && !Exact(b, l.sizes, l.start, l.n)
    requires Lengths(packets) == l.sizes && |Flatten(packets)| == |l.head| + l.n + |l.tail|
    requires packets != [] && |packets[0]| == l.sizes[0] && forall i :: 0 <= i < |packets| ==> packets[i] != []
    ensures var rx := Fed(b, packets, l.start);
      |Stream(rx)| - |Stream(ReadWords(rx, ByteCount(l.start, l.start + l.n - 1) / 2).1)|
        <= |l.head| + l.n - 1 - (|Flatten(packets)| - |Stream(rx)|)
  {
    hide Fed, Cut, InPage, KeepsWords, Sizes, ReadWords, Behind, Stream, LayoutOk, ByteCount, Even, Flatten, Lengths;
    LayoutFacts(b, l);
    WordCount(l.start, l.n);
    FedStream(b, packets, l.start);
    WordsUsed(Fed(b, packets, l.start), ByteCount(l.start, l.start + l.n - 1) / 2);
  }

  /** Otherwise the last byte of the payload is never read. */
  lemma LastByteUnread(b: Board, l: Layout, p: seq<byte>, q: seq<byte>)
    requires 0 < b.pageSize && LayoutOk(b, l) && |p| == |q| == l.n && p[..l.n - 1] == q[..l.n - 1]
    requires !Exact(b, l.sizes, l.start, l.n)
    ensures Read(b, l, p) == Read(b, l, q)
  {
    hide Packets, Fed, Cut, InPage, Sizes, ReadWords, Stream, Exact, RangeHeader;
    var ps, qs, words := Packets(l, p), Packets(l, q), ByteCount(l.start, l.start + l.n - 1) / 2;
    PacketsCarry(b, l, p);
    PacketsCarry(b, l, q);
    FedShape(b, ps, qs, l.start);
    FedStream(b, ps, l.start);
    FedStream(b, qs, l.start);
    var rx, ry := Fed(b, ps, l.start), Fed(b, qs, l.start);
    SameShape(rx, ry);
    UsedBefore(b, l, ps);
    var k := |Flatten(ps)| - |Stream(rx)|;
    StagesAgree(l, p, q, k);
    SameWords(rx, ry, words, |l.head| + l.n - 1 - k);
  }

  // ---- The exact condition -----------------------------------------------------------------

  /** A byte that is never read cannot be where it belongs for every value it may have. */
  lemma UnreadMisplaced(b: Board, s: Dfu, l: Layout) returns (payload: seq<byte>)
    requires Wf(b, s) && !s.secure && !s.waitForExit && LayoutOk(b, l) && !Exact(b, l.sizes, l.start, l.n)
    requires Address(s.page64, l.start) + l.n <= |s.flash.cells|
    ensures |payload| == l.n && !ReadsBack(Downloaded(b, s, l, payload), Address(s.page64, l.start), payload)
  {
    hide Downloaded, Read, Exact, Programmed, ReadsBack, BoardOk, FlashOk;
    var a, zeros := Address(s.page64, l.start), seq(l.n, _ => 0);
    ProgramsRead(b, s, l, zeros);
    var cells := Downloaded(b, s, l, zeros);
    var v: byte := if a + l.n <= |cells| && cells[a + l.n - 1] == 0 then 1 else 0;
    payload := zeros[l.n - 1 := v];
    ProgramsRead(b, s, l, payload);
    LastByteUnread(b, l, zeros, payload);
    LastByteDiffers(cells, a, payload);
  }

  lemma LastByteDiffers(cells: seq<byte>, a: nat, payload: seq<byte>)
    requires payload != []
    requires a + |payload| <= |cells| ==> cells[a + |payload| - 1] != payload[|payload| - 1]
    ensures !ReadsBack(cells, a, payload)
  {
    if a + |payload| <= |cells| { WordMisplaced(cells, a, payload, |payload| - 1); }
  }

  /** Exactly when a flash download can be trusted: every payload of `n` bytes reads back from where the
      request asks it to go if and only if the request is placeable. */
  lemma DownloadLandsIff(b: Board, s: Dfu, l: Layout)
    requires Wf(b, s) && !s.secure && !s.waitForExit && BufferEmpty(b.pageSize, s.flash) && LayoutOk(b, l)
    requires Address(s.page64, l.start) + l.n <= |s.flash.cells|
    ensures (forall payload: seq<byte> :: |payload| == l.n ==>
              ReadsBack(Downloaded(b, s, l, payload), Address(s.page64, l.start), payload))
        <==> Placeable(b, l.sizes, l.start, l.n)
  {
    hide Downloaded, Read, KeepsWords, Behind, Programmed, ReadsBack, FlashOk, BufferEmpty, InPage, LayoutOk;
    LayoutPositive(b, l);
    if Exact(b, l.sizes, l.start, l.n) {
      var a := Address(s.page64, l.start);
      WordLoopPlaces(b, s, l.start, l.n);
      forall payload: seq<byte> | |payload| == l.n
        ensures Downloaded(b, s, l, payload) == Programmed(b.pageSize, s.flash, a, payload).cells
      {
        ProgramsRead(b, s, l, payload);
        ReadsPayload(b, l, payload);
      }
    } else {
      var payload := UnreadMisplaced(b, s, l);
    }
  }

  lemma LayoutPositive(b: Board, l: Layout)
    requires 0 < b.pageSize && LayoutOk(b, l)
    ensures l.sizes != [] && 0 < l.n
  {}

  lemma WordLoopPlaces(b: Board, s: Dfu, start: uint16, n: nat)
    requires Wf(b, s) && BufferEmpty(b.pageSize, s.flash) && 0 < n && Even(n)
    requires Address(s.page64, start) + n <= |s.flash.cells|
    ensures var a := Address(s.page64, start);
      (forall data: seq<byte> :: |data| == n ==> ReadsBack(Programmed(b.pageSize, s.flash, a, data).cells, a, data))
      <==> InPage(b.pageSize, start) == 0 || (Even(start) && InPage(b.pageSize, start) + n <= b.pageSize)
  {
    hide Programmed, ReadsBack, FlashOk, BufferEmpty, Aligned, InPage, Even;
    var a := Address(s.page64, start);
    AddressOffset(b.pageSize, s.page64, start);
    WordLoopLandsIff(b.pageSize, s.flash, a, n);
    EvenInBank(s.page64, start);
  }

  lemma EvenInBank(page64: byte, start: uint16)
    ensures Even(Address(page64, start)) <==> Even(start)
  {}

  // ---- A host that sends full packets ---------------------------------------------------------

  lemma {:induction false} FullKeepsWords(e: nat, first: nat, total: nat, n: nat)
    requires 0 < e && Even(e) && Even(first) && 0 < total && n <= first + total
    ensures KeepsWords([first] + FullSizes(e, total), n)
    decreases total
  {
    var sizes := [first] + FullSizes(e, total);
    assert sizes[1..] == FullSizes(e, total);
    if first < n && e < total {
      FullKeepsWords(e, e, total - e, n - first);
      assert FullSizes(e, total) == [e] + FullSizes(e, total - e);
    }
  }

  lemma BehindFull(b: Board, start: uint16, total: nat, n: nat)
    requires BoardOk(b) && Even(start) && PayloadOffset(b, start) <= b.endpointSize
    requires PayloadOffset(b, start) + n <= total
    ensures PayloadOffset(b, start) <= Min(b.endpointSize, total)
    ensures KeepsWords(Behind(b, FullSizes(b.endpointSize, total), start), n)
  {
    hide InPage;
    var e, off := b.endpointSize, PayloadOffset(b, start);
    if e < total {
      EvenOffset(b, start);
      FullKeepsWords(e, e - off, total - e, n);
      assert FullSizes(e, total)[1..] == FullSizes(e, total - e);
    }
  }

  lemma EvenOffset(b: Board, start: uint16)
    requires BoardOk(b) && Even(start)
    ensures Even(PayloadOffset(b, start))
  {
    hide InPage;
    EvenInPage(b.pageSize, start);
  }

  /** With full packets the payload is in place if and only if it is whole words and starts at a page, or
      its filler reaches no further than the first packet and the payload stays in its page. */
  lemma FullPacketsLandIff(b: Board, s: Dfu, l: Layout)
    requires Wf(b, s) && !s.secure && !s.waitForExit && BufferEmpty(b.pageSize, s.flash) && LayoutOk(b, l)
    requires l.sizes == FullSizes(b.endpointSize, |l.head| + l.n + |l.tail|)
    requires Address(s.page64, l.start) + l.n <= |s.flash.cells|
    ensures (forall payload: seq<byte> :: |payload| == l.n ==>
              ReadsBack(Downloaded(b, s, l, payload), Address(s.page64, l.start), payload))
        <==> var r := InPage(b.pageSize, l.start);
             Even(l.n) && l.n < 65536
             && (r == 0 || (Even(l.start) && 32 + r <= b.endpointSize && r + l.n <= b.pageSize))
  {
    hide Downloaded, KeepsWords, Behind, ReadsBack, FlashOk, BufferEmpty, InPage, FullSizes;
    DownloadLandsIff(b, s, l);
    var r := InPage(b.pageSize, l.start);
    if r == 0 { EvenStart(b.pageSize, l.start); }
    if Even(l.start) && 32 + r <= b.endpointSize {
      BehindFull(b, l.start, |l.head| + l.n + |l.tail|, l.n);
    }
  }

  /** A request that the full filler does not fit: pages of 128 bytes, packets of 32, two bytes from address
      2.  One byte of the alignment filler is left and pushes the payload along. */
  lemma AlignmentFillerStored(b: Board, s: Dfu, l: Layout)
    requires Wf(b, s) && !s.secure && !s.waitForExit && BufferEmpty(b.pageSize, s.flash)
    requires b.pageSize == 128 && b.endpointSize == 32 && LayoutOk(b, l) && l.start == 2 && l.n == 2
    requires l.sizes == [32, 20] && |l.tail| == DFU_FILE_SUFFIX_SIZE
    requires Address(s.page64, 2) + 2 <= |s.flash.cells|
    ensures var cells := Downloaded(b, s, l, [1, 2]); var a := Address(s.page64, 2);
      ReadsBack(cells, a, [l.head[33], 1]) && !ReadsBack(cells, a, [1, 2])
  {
    hide Downloaded, Programmed, FlashOk, BufferEmpty, BoardOk;
    ProgramsRead(b, s, l, [1, 2]);
    FillerRead(b, l);
    AddressOffset(128, s.page64, 2) by { assert Aligned(128, 65536); }
    EvenLands(128, s.flash, Address(s.page64, 2), [l.head[33], 1]);
  }

  lemma FillerRead(b: Board, l: Layout)
    requires b.pageSize == 128 && LayoutOk(b, l) && l.start == 2 && l.n == 2 && l.sizes == [32, 20]
    ensures Read(b, l, [1, 2]) == [l.head[33], 1]
  {
    hide Packets;
    var packets := Packets(l, [1, 2]);
    PacketsCarry(b, l, [1, 2]);
    var p0 := OutPipe(packets[0][6..], packets[1..]);
    DiscardBank(p0, 26);
    var p1 := OutPipe(packets[0][32..], packets[1..]);
    assert Lengths(packets)[1] == 20 && |packets| == 2;
    assert Discard(p0, 26) == p1 && p1.bank == [];
    assert packets[1] == Flatten(packets)[32..] by {
      FlattenOne(packets[1]);
      assert packets == [packets[0]] + [packets[1]];
    }
    assert Discard(p1, 2) == Discard(OutPipe(packets[1], []), 1) == OutPipe(packets[1][1..], []);
    assert packets[1][1] == l.head[33] && packets[1][2] == 1;
  }
}
