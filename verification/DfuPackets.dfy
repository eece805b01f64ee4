/** How the programming loops of the DFU bootloader read a data stage that arrives in packets. */
module DfuPackets {
  import opened Usb
  import opened AvrFlash
  import opened FlashImage
  import opened DfuSpec

  // ---- Packets and their lengths -------------------------------------------------

  /** No packet is empty, so every wait for a packet yields at least one byte. */
  ghost predicate Cut(p: OutPipe) {
    forall i :: 0 <= i < |p.pending| ==> p.pending[i] != []
  }

  function Lengths(packets: seq<seq<byte>>): (l: seq<nat>)
    ensures |l| == |packets|
  {
    seq(|packets|, i requires 0 <= i < |packets| => |packets[i]|)
  }

  /** The lengths of what is still to be read, the current bank first. */
  function Sizes(p: OutPipe): seq<nat> { [|p.bank|] + Lengths(p.pending) }

  /** A packet that ends within the next `n` bytes ends on a whole word. */
  predicate KeepsWords(sizes: seq<nat>, n: nat)
    decreases |sizes|
  {
    sizes == [] || n <= sizes[0] || (Even(sizes[0]) && KeepsWords(sizes[1..], n - sizes[0]))
  }

  lemma SizesNext(p: OutPipe)
    requires p.bank == [] && p.pending != []
    ensures Sizes(NextPacket(p)) == Sizes(p)[1..]
  {}

  lemma SizesDrop(p: OutPipe)
    requires p.bank != []
    ensures Sizes(Drop(p)) == [|p.bank| - 1] + Sizes(p)[1..]
  {}

  lemma {:induction false} SameLength(ps: seq<seq<byte>>, qs: seq<seq<byte>>)
    requires Lengths(ps) == Lengths(qs)
    ensures |Flatten(ps)| == |Flatten(qs)|
    decreases |ps|
  {
    assert |ps| == |Lengths(qs)|;
    if ps != [] {
      assert Lengths(ps[1..]) == Lengths(ps)[1..] == Lengths(qs)[1..] == Lengths(qs[1..]);
      SameLength(ps[1..], qs[1..]);
      assert Lengths(ps)[0] == Lengths(qs)[0];
    }
  }

  /** Pipes of the same shape hold equally many bytes, and stay alike when a packet is fetched. */
  lemma SameShape(p: OutPipe, q: OutPipe)
    requires Sizes(p) == Sizes(q)
    ensures |p.bank| == |q.bank| && |p.pending| == |q.pending| && Lengths(p.pending) == Lengths(q.pending)
    ensures |Stream(p)| == |Stream(q)| && (Cut(p) <==> Cut(q))
  {
    assert Sizes(p)[0] == Sizes(q)[0] && Lengths(p.pending) == Sizes(p)[1..] && Lengths(q.pending) == Sizes(q)[1..];
    SameLength(p.pending, q.pending);
    forall i | 0 <= i < |p.pending| ensures |p.pending[i]| == |q.pending[i]| {
      assert Lengths(p.pending)[i] == Lengths(q.pending)[i];
    }
  }

  lemma ReadOne(p: OutPipe)
    requires Cut(p) && Stream(p) != []
    ensures !Starved(p)
    ensures var p1 := Refill(p); Stream(p) == [Peek(p1)] + Stream(Drop(p1)) && Cut(Drop(p1)) && p1.bank != []
  {
    if p.bank == [] { StreamNext(p); }
    StreamDrop(Refill(p));
  }

  // ---- The word loop ---------------------------------------------------------------

  /** The bytes that `n` turns of the word loop read.  It looks for a new packet between words only:
      the second byte of a word whose packet ends behind the first one reads as 0. */
  function ReadWords(rx: OutPipe, n: nat): (r: (seq<byte>, OutPipe))
    decreases n
  {
    if n == 0 || Starved(rx) then ([], rx)
    else
      var rx1 := Refill(rx);
      var rx2 := Drop(rx1);
      var (rest, rx') := ReadWords(Drop(rx2), n - 1);
      ([Peek(rx1), Peek(rx2)] + rest, rx')
  }

  /** The pipe after one turn. */
  function Turned(p: OutPipe): OutPipe { Drop(Drop(Refill(p))) }

  /** One turn takes two bytes, or one when it is the last of its packet. */
  lemma ReadPair(p: OutPipe)
    requires Cut(p) && 2 <= |Stream(p)|
    ensures !Starved(p) && Cut(Turned(p))
    ensures var p1 := Refill(p); var s := Stream(p);
      if |p1.bank| == 1 then Stream(Turned(p)) == s[1..] && Peek(p1) == s[0] && Peek(Drop(p1)) == 0
      else Stream(Turned(p)) == s[2..] && Peek(p1) == s[0] && Peek(Drop(p1)) == s[1]
    ensures forall n: nat :: 2 <= n ==>
      (KeepsWords(Sizes(p), n) <==> |Refill(p).bank| != 1 && KeepsWords(Sizes(Turned(p)), n - 2))
  {
    ReadOne(p);
    var p1 := Refill(p);
    if p.bank == [] { SizesNext(p); }
    if |p1.bank| != 1 { StreamDrop(Drop(p1)); }
    forall n: nat | 2 <= n
      ensures KeepsWords(Sizes(p), n) <==> |p1.bank| != 1 && KeepsWords(Sizes(Turned(p)), n - 2)
    {
      KeepsRefilled(p, n);
      KeepsTurned(p1, n);
    }
  }

  lemma KeepsRefilled(p: OutPipe, n: nat)
    requires 0 < n && !Starved(p)
    ensures KeepsWords(Sizes(p), n) == KeepsWords(Sizes(Refill(p)), n)
  {
    if p.bank == [] { SizesNext(p); }
  }

  lemma KeepsTurned(p: OutPipe, n: nat)
    requires p.bank != [] && 2 <= n
    ensures KeepsWords(Sizes(p), n) <==> |p.bank| != 1 && KeepsWords(Sizes(Drop(Drop(p))), n - 2)
  {
    assert Sizes(p)[1..] == Sizes(Drop(Drop(p)))[1..];
  }

  /** However the data stage is cut, the loop programs the words it reads. */
  lemma {:induction false} WriteWordsOn(size: nat, f: Flash, rx: OutPipe, addr: nat, pageStart: nat, inPage: byte,
                                        n: nat)
    requires FlashOk(size, f) && Cut(rx) && 2 * n <= |Stream(rx)|
    ensures var run := WriteWords(size, f, rx, addr, pageStart, inPage, n);
      var (data, rx') := ReadWords(rx, n);
      run.finished && run.rx == rx' && |data| == 2 * n && run.flash == FillWords(size, f, data, addr, pageStart, inPage)
    decreases n
  {
    hide Erase, Fill, Write, FlashOk, Aligned, Stream, Cut, Peek, Drop, Refill, KeepsWords, Sizes, Starved;
    if n > 0 {
      ReadPair(rx);
      var rx1 := Refill(rx);
      var rx3 := Drop(Drop(rx1));
      var data := ReadWords(rx, n).0;
      var f1 := Fill(size, f, addr, Peek(rx1), Peek(Drop(rx1)));
      var count := (inPage + 1) % 256;
      assert data == [Peek(rx1), Peek(Drop(rx1))] + ReadWords(rx3, n - 1).0;
      if count == size / 2 && n > 1 {
        WriteWordsOn(size, Erase(size, Write(size, f1, pageStart), addr + 2), rx3, addr + 2, addr + 2, 0, n - 1);
      } else if n > 1 {
        WriteWordsOn(size, f1, rx3, addr + 2, pageStart, count, n - 1);
      }
      assert data[2..] == ReadWords(rx3, n - 1).0;
    }
  }

  /** The loop takes at most `2 * n` bytes, and all of them if and only if no packet splits a word;
      what it reads then are the bytes of the stream. */
  lemma {:induction false} WordsUsed(rx: OutPipe, n: nat)
    requires Cut(rx) && 2 * n <= |Stream(rx)|
    ensures var (data, rx') := ReadWords(rx, n);
      var used := |Stream(rx)| - |Stream(rx')|;
      && 0 <= used <= 2 * n && Cut(rx') && Stream(rx') == Stream(rx)[used..]
      && (used == 2 * n <==> KeepsWords(Sizes(rx), 2 * n))
      && (used == 2 * n ==> data == Stream(rx)[..2 * n])
    decreases n
  {
    hide Stream, Cut, Peek, Drop, Refill, Starved, Sizes;
    if n > 0 {
      ReadPair(rx);
      hide KeepsWords;
      var s, rx3 := Stream(rx), Drop(Drop(Refill(rx)));
      assert rx3 == Turned(rx);
      WordsUsed(rx3, n - 1);
      assert KeepsWords(Sizes(rx), 2 * n) <==> |Refill(rx).bank| != 1 && KeepsWords(Sizes(rx3), 2 * n - 2);
    } else {
      assert Stream(rx) == Stream(rx)[0..];
    }
  }

  /** A data stage that splits no word: the loop programs the next `2 * n` bytes and leaves the rest. */
  lemma WriteWordsReads(size: nat, f: Flash, rx: OutPipe, addr: nat, pageStart: nat, inPage: byte, n: nat)
    requires FlashOk(size, f) && Cut(rx) && 2 * n <= |Stream(rx)| && KeepsWords(Sizes(rx), 2 * n)
    ensures var run := WriteWords(size, f, rx, addr, pageStart, inPage, n);
      && run.finished
      && run.flash == FillWords(size, f, Stream(rx)[..2 * n], addr, pageStart, inPage)
      && Stream(run.rx) == Stream(rx)[2 * n..]
  {
    hide WriteWords, FillWords, ReadWords, Stream, KeepsWords, Sizes, FlashOk;
    WriteWordsOn(size, f, rx, addr, pageStart, inPage, n);
    WordsUsed(rx, n);
  }

  /** What the loop reads depends only on the bytes it takes, and on how the data stage is cut. */
  lemma {:induction false} SameWords(p: OutPipe, q: OutPipe, n: nat, m: nat)
    requires Cut(p) && 2 * n <= |Stream(p)| && Sizes(p) == Sizes(q) && |Stream(q)| == |Stream(p)|
    requires m <= |Stream(p)| && Stream(p)[..m] == Stream(q)[..m]
    requires |Stream(p)| - |Stream(ReadWords(p, n).1)| <= m
    ensures ReadWords(p, n).0 == ReadWords(q, n).0
    decreases n
  {
    hide Stream, Cut, KeepsWords;
    if n > 0 {
      SameShape(p, q);
      ReadPair(p);
      ReadPair(q);
      TurnedShape(p, q);
      hide Peek, Drop, Refill, Starved, Sizes;
      var p3, q3 := Drop(Drop(Refill(p))), Drop(Drop(Refill(q)));
      assert p3 == Turned(p) && q3 == Turned(q);
      SameShape(p3, q3);
      WordsUsed(p3, n - 1);
      var k := |Stream(p)| - |Stream(p3)|;
      assert 1 <= k <= m && forall i :: 0 <= i < m ==> Stream(p)[i] == Stream(p)[..m][i] == Stream(q)[i];
      assert Stream(p3)[..m - k] == Stream(p)[..m][k..];
      assert Stream(q3)[..m - k] == Stream(q)[..m][k..];
      SameWords(p3, q3, n - 1, m - k);
    }
  }

  lemma TurnedShape(p: OutPipe, q: OutPipe)
    requires Sizes(p) == Sizes(q)
    ensures Sizes(Turned(p)) == Sizes(Turned(q)) && |Refill(p).bank| == |Refill(q).bank|
  {
    SameShape(p, q);
    if p.bank == [] && p.pending != [] {
      SizesNext(p);
      SizesNext(q);
      SameShape(Refill(p), Refill(q));
    }
    assert Sizes(Turned(p))[1..] == Lengths(Refill(p).pending);
    assert Sizes(Turned(q))[1..] == Lengths(Refill(q).pending);
  }

  // ---- The byte loop ---------------------------------------------------------------

  lemma SpliceStep(cells: seq<byte>, addr: nat, v: byte, rest: seq<byte>)
    requires addr + 1 + |rest| <= |cells|
    ensures Splice(cells[addr := v], addr + 1, rest) == Splice(cells, addr, [v] + rest)
  {
    assert |[v] + rest| == 1 + |rest|;
  }

  lemma {:induction false} WriteEepromReads(eeprom: seq<byte>, rx: OutPipe, addr: uint16, n: nat)
    requires Cut(rx) && n <= |Stream(rx)| && addr + n <= |eeprom| && addr + n < 65536
    ensures var run := WriteEeprom(eeprom, rx, addr, n);
      && run.finished && run.addr == addr + n
      && run.eeprom == Splice(eeprom, addr, Stream(rx)[..n])
    decreases n
  {
    hide Splice, Stream, Cut, Peek, Drop, Refill;
    if n > 0 {
      ReadOne(rx);
      var rx1 := Refill(rx);
      var eeprom1 := PokeCell(eeprom, addr, Peek(rx1));
      WriteEepromReads(eeprom1, Drop(rx1), addr + 1, n - 1);
      SplitBehind(Stream(rx), [Peek(rx1)], Stream(Drop(rx1)), n - 1);
      SpliceStep(eeprom, addr, Peek(rx1), Stream(Drop(rx1))[..n - 1]);
    } else {
      assert Splice(eeprom, addr, []) == eeprom;
    }
  }

  // ---- Discarding ------------------------------------------------------------------

  lemma {:induction false} DiscardBank(p: OutPipe, n: nat)
    requires n <= |p.bank|
    ensures Discard(p, n) == p.(bank := p.bank[n..])
    decreases n
  {
    if n > 0 { DiscardBank(Drop(p), n - 1); }
  }

  lemma {:induction false} DiscardEmptiesBank(p: OutPipe, n: nat)
    requires |p.bank| <= n
    ensures Discard(p, n) == Discard(p.(bank := []), n - |p.bank|)
    decreases n
  {
    if p.bank != [] { DiscardEmptiesBank(Drop(p), n - 1); }
  }

  /** Bytes dropped by a discard of `n` when `r` are left in the bank and later packets are full:
      one count goes to every packet fetched. */
  function Dropped(endpointSize: nat, r: nat, n: nat): int {
    if n <= r then n else n - (n - r + endpointSize) / (endpointSize + 1)
  }

  /** Crossing into a fresh packet costs one count. */
  lemma DroppedAcross(e: nat, r: nat, n: nat)
    requires 0 < e && r < n
    ensures Dropped(e, r, n) == r + Dropped(e, e, n - r - 1)
  {
    var m := n - r;
    if m - 1 <= e {
      DivMod(1, e + 1, m - 1);
      assert m + e == 1 * (e + 1) + (m - 1);
    } else {
      var q, k := (m - 1) / (e + 1), (m - 1) % (e + 1);
      DivMod(q + 1, e + 1, k);
      assert m + e == (q + 1) * (e + 1) + k;
      assert (m - 1 - e) + e == m - 1;
    }
  }

  lemma DroppedBounds(e: nat, r: nat, n: nat)
    requires 0 < e
    ensures 0 <= Dropped(e, r, n) <= n
  {
    if r < n {
      var m := n - r;
      var q := (m + e) / (e + 1);
      assert q * (e + 1) <= m + e;
      assert q >= m + 1 ==> q * (e + 1) >= (m + 1) * (e + 1);
      assert (m + 1) * (e + 1) == m * e + m + e + 1;
      assert m * e >= 0;
    }
  }

  /** DiscardFillerBytes removes exactly the first `Dropped` bytes of the stream. */
  lemma {:induction false} DiscardExact(e: nat, p: OutPipe, n: nat)
    requires 0 < e && |p.bank| <= e
    requires forall i :: 0 <= i < |p.pending| ==> |p.pending[i]| == e
    requires n <= |Stream(p)|
    ensures 0 <= Dropped(e, |p.bank|, n) <= |Stream(p)|
    ensures Stream(Discard(p, n)) == Stream(p)[Dropped(e, |p.bank|, n)..]
    decreases n
  {
    hide Dropped;
    var r := |p.bank|;
    DroppedBounds(e, r, n);
    if n <= r {
      DiscardWithin(e, p, n);
    } else {
      hide Discard;
      DiscardToNext(p, n);
      var q := NextPacket(p.(bank := []));
      DiscardExact(e, q, n - r - 1);
      DroppedAcross(e, r, n);
      DroppedBounds(e, e, n - r - 1);
      DropTwice(Stream(p), r, Stream(q), Dropped(e, e, n - r - 1));
    }
  }

  lemma DiscardWithin(e: nat, p: OutPipe, n: nat)
    requires n <= |p.bank|
    ensures Dropped(e, |p.bank|, n) == n && Stream(Discard(p, n)) == Stream(p)[n..]
  {
    DiscardBank(p, n);
  }

  /** A discard longer than the bank fetches the next packet with one of its counts. */
  lemma DiscardToNext(p: OutPipe, n: nat)
    requires |p.bank| < n <= |Stream(p)|
    ensures p.pending != []
    ensures var q := NextPacket(p.(bank := []));
      Discard(p, n) == Discard(q, n - |p.bank| - 1) && Stream(p)[|p.bank|..] == Stream(q)
  {
    DiscardEmptiesBank(p, n);
    StreamNext(p.(bank := []));
  }

  lemma DropTwice(s: seq<byte>, r: nat, t: seq<byte>, k: nat)
    requires r <= |s| && s[r..] == t && k <= |t|
    ensures s[r + k..] == t[k..]
  {}

  /** The discard is exact if and only if the bank already holds all the bytes to be dropped. */
  lemma DiscardExactIff(e: nat, r: nat, n: nat)
    requires 0 < e
    ensures Dropped(e, r, n) == n <==> n <= r
  {
    if r < n {
      DivMod((n - r + e) / (e + 1), e + 1, (n - r + e) % (e + 1));
      assert (n - r + e) / (e + 1) >= 1;
    }
  }

  /** The same for packets of any lengths: a prefix of the stream is dropped, of the length asked for
      if and only if the bank holds it. */
  lemma {:induction false} DiscardDrops(p: OutPipe, n: nat)
    ensures var k := |Stream(p)| - |Stream(Discard(p, n))|;
      && 0 <= k <= n && Stream(Discard(p, n)) == Stream(p)[k..]
      && (k == n <==> n <= |p.bank|)
      && (Cut(p) ==> Cut(Discard(p, n)))
    decreases n
  {
    if n > 0 {
      if p.bank != [] {
        StreamDrop(p);
        DiscardDrops(Drop(p), n - 1);
      } else if p.pending != [] {
        StreamNext(p);
        DiscardDrops(NextPacket(p), n - 1);
      }
    }
  }

  lemma {:induction false} DiscardShape(p: OutPipe, q: OutPipe, n: nat)
    requires Sizes(p) == Sizes(q)
    ensures Sizes(Discard(p, n)) == Sizes(Discard(q, n))
    decreases n
  {
    SameShape(p, q);
    if n > 0 {
      if p.bank != [] {
        SizesDrop(p);
        SizesDrop(q);
        DiscardShape(Drop(p), Drop(q), n - 1);
      } else if p.pending != [] {
        SizesNext(p);
        SizesNext(q);
        DiscardShape(NextPacket(p), NextPacket(q), n - 1);
      }
    }
  }
}
