/** What a page-wise programming loop leaves in flash.  Both bootloaders fill the buffer at the
    slot of each word's address and commit after a page's worth of words; `r` below is the
    offset of the first word inside its page. */
module FlashImage {
  import opened Usb
  import opened AvrFlash

  /** Which byte of a chunk ends up at offset `o` of a page, when the chunk starts at offset `r`. */
  function Source(size: nat, r: nat, o: int): int { if o >= r then o - r else o + size - r }

  /** A chunk of at most one page, loaded from offset `r` and wrapping at the page's end. */
  function Rotated(size: nat, r: nat, chunk: seq<byte>): (page: seq<byte>)
    requires r < size && |chunk| <= size
    ensures |page| == size
    ensures forall o :: 0 <= o < size ==>
      page[o] == if Source(size, r, o) < |chunk| then chunk[Source(size, r, o)] else BLANK
  {
    seq(size, o requires 0 <= o < size => if Source(size, r, o) < |chunk| then chunk[Source(size, r, o)] else BLANK)
  }

  /** The buffer slots that a chunk of `n` bytes has loaded. */
  function Slots(size: nat, r: nat, n: nat): set<int> {
    set o | 0 <= o < size && o % 2 == 0 && Source(size, r, o) < n :: o
  }

  /** The buffer holds exactly `chunk`, and the page it is meant for is erased. */
  ghost predicate Loaded(size: nat, f: Flash, p: nat, r: nat, chunk: seq<byte>) {
    && FlashOk(size, f)
    && r < size && r % 2 == 0 && |chunk| <= size && |chunk| % 2 == 0
    && Aligned(size, p) && p + size <= |f.cells|
    && f.buffer == Rotated(size, r, chunk)
    && f.filled == Slots(size, r, |chunk|)
    && p in f.erased
    && f.cells[p..p + size] == Blank(size)
  }

  /** The address of the next word, and the slot it goes to. */
  lemma NextSlot(size: nat, p: nat, r: nat, n: nat)
    requires 0 < size && size % 2 == 0 && Aligned(size, p)
    requires r < size && r % 2 == 0 && n + 2 <= size && n % 2 == 0
    ensures SlotOf(size, p + r + n) == if r + n < size then r + n else r + n - size
  {
    hide Aligned, PageOf;
    var k := if r + n < size then r + n else r + n - size;
    assert k % 2 == 0;
    if r + n < size {
      SlotInPage(size, p, k);
    } else {
      PageFacts(size, p, 0);
      SlotInPage(size, p + size, k);
    }
  }

  lemma SlotInPage(size: nat, p: nat, k: nat)
    requires 0 < size && size % 2 == 0 && Aligned(size, p) && k < size && k % 2 == 0
    ensures SlotOf(size, p + k) == k
  {
    hide Aligned, PageOf;
    PageFacts(size, p, k);
  }

  lemma RotatedExtends(size: nat, r: nat, chunk: seq<byte>, lo: byte, hi: byte, s: nat)
    requires size % 2 == 0 && r % 2 == 0 && r < size && |chunk| % 2 == 0 && |chunk| + 2 <= size
    requires s == if r + |chunk| < size then r + |chunk| else r + |chunk| - size
    ensures Rotated(size, r, chunk)[s := lo][s + 1 := hi] == Rotated(size, r, chunk + [lo, hi])
  {
    assert Source(size, r, s) == |chunk| && Source(size, r, s + 1) == |chunk| + 1;
  }

  lemma SlotsExtend(size: nat, r: nat, n: nat, s: nat)
    requires size % 2 == 0 && r % 2 == 0 && r < size && n % 2 == 0 && n + 2 <= size
    requires s == if r + n < size then r + n else r + n - size
    ensures s !in Slots(size, r, n) && Slots(size, r, n) + {s} == Slots(size, r, n + 2)
  {
    forall o | 0 <= o < size && o % 2 == 0 && o != s
      ensures Source(size, r, o) < n <==> Source(size, r, o) < n + 2
    {
      assert Source(size, r, o) % 2 == 0 && Source(size, r, o) != n;
    }
    assert Source(size, r, s) == n;
  }

  lemma FillLoads(size: nat, f: Flash, p: nat, r: nat, chunk: seq<byte>, lo: byte, hi: byte)
    requires Loaded(size, f, p, r, chunk) && |chunk| + 2 <= size
    ensures var f' := Fill(size, f, p + r + |chunk|, lo, hi);
      && Loaded(size, f', p, r, chunk + [lo, hi])
      && f'.cells == f.cells && f'.misuse == f.misuse && f'.erased == f.erased
  {
    hide Aligned;
    var n := |chunk|;
    NextSlot(size, p, r, n);
    var s := SlotOf(size, p + r + n);
    RotatedExtends(size, r, chunk, lo, hi, s);
    SlotsExtend(size, r, n, s);
  }

  lemma CommitLoaded(size: nat, f: Flash, p: nat, r: nat, chunk: seq<byte>)
    requires Loaded(size, f, p, r, chunk)
    ensures var f' := Write(size, f, p + r);
      && f' == f.(cells := Splice(f.cells, p, Rotated(size, r, chunk)), buffer := Blank(size), filled := {},
                  erased := f.erased - {p})
  {
    PageFacts(size, p, r);
    BlankAnd(f.buffer);
  }

  lemma EraseLoads(size: nat, f: Flash, p: nat, r: nat)
    requires FlashOk(size, f) && BufferEmpty(size, f)
    requires r < size && r % 2 == 0 && Aligned(size, p) && p + size <= |f.cells|
    ensures var f' := Erase(size, f, p + r);
      && Loaded(size, f', p, r, [])
      && f' == f.(cells := Splice(f.cells, p, Blank(size)), erased := f.erased + {p})
  {
    PageFacts(size, p, r);
    var f' := Erase(size, f, p + r);
    assert f'.buffer == Rotated(size, r, []);
    assert Slots(size, r, 0) == {};
  }

  // ---- The word loop, on data rather than on packets ----------------------------

  /** Fill word after word, committing the page every `size / 2` words and at the end. */
  function FillWords(size: nat, f: Flash, data: seq<byte>, addr: nat, pageStart: nat, inPage: byte): (f': Flash)
    requires FlashOk(size, f)
    ensures FlashOk(size, f') && |f'.cells| == |f.cells|
    decreases |data|
  {
    if |data| < 2 then f
    else
      var f1 := Fill(size, f, addr, data[0], data[1]);
      var count := (inPage + 1) % 256;
      if count == size / 2 || |data| < 4 then
        var f2 := Write(size, f1, pageStart);
        if |data| < 4 then f2
        else FillWords(size, Erase(size, f2, addr + 2), data[2..], addr + 2, addr + 2, 0)
      else FillWords(size, f1, data[2..], addr + 2, pageStart, count)
  }

  /** Whole chunks of `data` laid over consecutive pages from `p`, each rotated by `r`. */
  function Laid(size: nat, cells: seq<byte>, p: nat, r: nat, data: seq<byte>): (c: seq<byte>)
    requires 0 < size && r < size
    ensures |c| == |cells|
    decreases |data|
  {
    var n := Min(size, |data|);
    if n == 0 || p + size > |cells| then cells
    else Laid(size, Splice(cells, p, Rotated(size, r, data[..n])), p + size, r, data[n..])
  }

  /** Blanking a page first makes no difference to what is laid over it. */
  lemma LaidOverBlank(size: nat, cells: seq<byte>, p: nat, r: nat, data: seq<byte>)
    requires 0 < size && r < size && data != [] && p + size <= |cells|
    ensures Laid(size, Splice(cells, p, Blank(size)), p, r, data) == Laid(size, cells, p, r, data)
  {
    var page := Rotated(size, r, data[..Min(size, |data|)]);
    assert Splice(Splice(cells, p, Blank(size)), p, page) == Splice(cells, p, page);
  }

  lemma LaidOne(size: nat, cells: seq<byte>, p: nat, r: nat, chunk: seq<byte>)
    requires 0 < size && r < size && chunk != [] && |chunk| <= size && p + size <= |cells|
    ensures Laid(size, cells, p, r, chunk) == Splice(cells, p, Rotated(size, r, chunk))
  {
    assert chunk[..|chunk|] == chunk && chunk[|chunk|..] == [];
  }

  lemma LaidFirst(size: nat, cells: seq<byte>, p: nat, r: nat, page: seq<byte>, rest: seq<byte>)
    requires 0 < size && r < size && |page| == size && p + size <= |cells|
    ensures Laid(size, cells, p, r, page + rest)
         == Laid(size, Splice(cells, p, Rotated(size, r, page)), p + size, r, rest)
  {
    assert (page + rest)[..size] == page && (page + rest)[size..] == rest;
  }

  /** Committing a full page, and erasing the next one for the rest of the data. */
  lemma PageTurn(size: nat, f: Flash, p: nat, r: nat, page: seq<byte>, rest: seq<byte>)
    requires Loaded(size, f, p, r, page) && |page| == size
    requires rest != [] && p + size + |rest| <= |f.cells|
    ensures var f' := Erase(size, Write(size, f, p + r), p + size + r);
      && Loaded(size, f', p + size, r, []) && f'.misuse == f.misuse && |f'.cells| == |f.cells|
      && Laid(size, f'.cells, p + size, r, rest) == Laid(size, f.cells, p, r, page + rest)
  {
    hide Laid, Splice, Slots, Rotated, Aligned;
    FollowingPage(size, p, |f.cells|);
    CommitLoaded(size, f, p, r, page);
    var f1 := Write(size, f, p + r);
    EraseLoads(size, f1, p + size, r);
    LaidOverBlank(size, f1.cells, p + size, r, rest);
    LaidFirst(size, f.cells, p, r, page, rest);
  }

  /** One turn of the loop, with `w` of the `half` words of the page already loaded. */
  lemma FillWordsTurn(size: nat, half: nat, f: Flash, data: seq<byte>, addr: nat, pageStart: nat, w: nat)
    requires FlashOk(size, f) && size == 2 * half && w < half <= 128 && (|data| == 2 || |data| >= 4)
    ensures FillWords(size, f, data, addr, pageStart, w)
         == var f1 := Fill(size, f, addr, data[0], data[1]);
            if |data| == 2 then Write(size, f1, pageStart)
            else if w + 1 == half
                then FillWords(size, Erase(size, Write(size, f1, pageStart), addr + 2), data[2..], addr + 2, addr + 2,
                               0)
            else FillWords(size, f1, data[2..], addr + 2, pageStart, w + 1)
  {
    hide Erase, Write, Fill, FlashOk;
  }

  /** The loop, from the middle of a page that already holds `done`. */
  lemma {:induction false} FillWordsLaid(size: nat, half: nat, f: Flash, p: nat, r: nat, done: seq<byte>, w: nat,
                                         data: seq<byte>, k: nat)
    requires size == 2 * half && half <= 128 && w < half && |done| == 2 * w && |data| == 2 * k && 0 < k
    requires Loaded(size, f, p, r, done) && p + |done| + |data| <= |f.cells|
    ensures var f' := FillWords(size, f, data, p + r + |done|, p + r, w);
      && f'.cells == Laid(size, f.cells, p, r, done + data)
      && BufferEmpty(size, f') && f'.misuse == f.misuse
    decreases k
  {
    hide Laid, Splice, Slots, Rotated, Erase, Write, PageOf, SlotOf, Aligned, FillWords;
    var addr := p + r + |done|;
    FillWordsTurn(size, half, f, data, addr, p + r, w);
    var f1 := Fill(size, f, addr, data[0], data[1]);
    var done1, rest := done + data[..2], data[2..];
    assert data[..2] == [data[0], data[1]];
    assert done1 + rest == done + data;
    FillLoads(size, f, p, r, done, data[0], data[1]);
    if k == 1 {
      CommitLoaded(size, f1, p, r, done1);
      LaidOne(size, f.cells, p, r, done1);
      assert done + data == done1;
    } else if w + 1 == half {
      PageTurn(size, f1, p, r, done1, rest);
      var f3 := Erase(size, Write(size, f1, p + r), p + size + r);
      FillWordsLaid(size, half, f3, p + size, r, [], 0, rest, k - 1);
      assert [] + rest == rest;
    } else {
      FillWordsLaid(size, half, f1, p, r, done1, w + 1, rest, k - 1);
    }
  }

  /** Erase the first page, then run the loop: a download that finds the buffer empty. */
  function Programmed(size: nat, f: Flash, addr: nat, data: seq<byte>): (f': Flash)
    requires FlashOk(size, f)
  {
    FillWords(size, Erase(size, f, addr), data, addr, addr, 0)
  }

  lemma ProgrammedAt(size: nat, f: Flash, p: nat, r: nat, data: seq<byte>)
    requires size <= 256 && FlashOk(size, f) && BufferEmpty(size, f)
    requires Aligned(size, p) && p + size <= |f.cells| && r < size && r % 2 == 0
    requires data != [] && |data| % 2 == 0 && p + |data| <= |f.cells|
    ensures var f' := Programmed(size, f, p + r, data);
      && f'.cells == Laid(size, f.cells, p, r, data)
      && BufferEmpty(size, f') && f'.misuse == f.misuse
  {
    hide PageOf, Rotated, Slots, Laid, Splice, FillWords, Aligned;
    EraseLoads(size, f, p, r);
    FillWordsLaid(size, size / 2, Erase(size, f, p + r), p, r, [], 0, data, |data| / 2);
    assert [] + data == data;
    LaidOverBlank(size, f.cells, p, r, data);
  }

  /** A download never loads a slot twice, never writes a page it has not erased, and leaves
      its data in page-sized chunks. */
  lemma ProgrammedLaid(size: nat, f: Flash, addr: nat, data: seq<byte>)
    requires size <= 256 && FlashOk(size, f) && BufferEmpty(size, f)
    requires addr % 2 == 0 && data != [] && |data| % 2 == 0 && addr + |data| <= |f.cells|
    ensures var f' := Programmed(size, f, addr, data);
      && f'.cells == Laid(size, f.cells, PageOf(size, addr), addr % size, data)
      && BufferEmpty(size, f') && f'.misuse == f.misuse
  {
    hide Programmed, Laid, PageOf, Aligned, BufferEmpty;
    PageSplit(size, addr, |f.cells|);
    ProgrammedAt(size, f, PageOf(size, addr), addr % size, data);
  }

  /** An even address splits into a page and an even offset; its page is inside the array. */
  lemma PageSplit(size: nat, addr: nat, n: nat)
    requires 0 < size && size % 2 == 0 && addr % 2 == 0 && addr < n && Aligned(size, n)
    ensures var p, r := PageOf(size, addr), addr % size;
      && Aligned(size, p) && p + size <= n && r % 2 == 0 && r < size && p + r == addr
  {
    var p, q := PageOf(size, addr), addr / size;
    assert p == q * size;
    hide PageOf;
    assert Aligned(size, p) by { DivMod(q, size, 0); }
    assert p % 2 == 0 by { EvenMultiple(q, size); }
    assert p + size <= n by { NextPageFits(size, p, n); }
  }

  lemma EvenMultiple(q: nat, size: nat)
    requires size % 2 == 0
    ensures (q * size) % 2 == 0
  {
    var h := size / 2;
    assert q * size == 2 * (q * h);
  }

  // ---- Reading the layout ---------------------------------------------------------

  /** Bytes of flash taken up by the pages that hold `n` bytes. */
  function Span(size: nat, n: nat): (m: nat)
    requires 0 < size
    ensures n <= m < n + size && Aligned(size, m)
  {
    if n == 0 then 0
    else if n <= size then size
    else
      PageFacts(size, Span(size, n - size), 0);
      size + Span(size, n - size)
  }

  /** `data` is at offset `r` of the page at `p`, the rest of the touched pages is blank, nothing else
      has changed. */
  ghost predicate ImageAt(size: nat, before: seq<byte>, after: seq<byte>, p: nat, r: nat, data: seq<byte>)
    requires 0 < size
  {
    && |after| == |before|
    && forall i :: 0 <= i < |after| ==>
        after[i] == if p + r <= i < p + r + |data| then data[i - p - r]
                    else if p <= i < p + Span(size, r + |data|) then BLANK
                    else before[i]
  }

  lemma {:induction false} LaidAligned(size: nat, cells: seq<byte>, p: nat, data: seq<byte>)
    requires 0 < size && Aligned(size, p) && Aligned(size, |cells|) && p + |data| <= |cells|
    ensures ImageAt(size, cells, Laid(size, cells, p, 0, data), p, 0, data)
    decreases |data|
  {
    hide Aligned, Splice, ImageAt, Rotated;
    if data != [] {
      var n := Min(size, |data|);
      NextPageFits(size, p, |cells|);
      PageFacts(size, p, 0);
      LaidAligned(size, Splice(cells, p, Rotated(size, 0, data[..n])), p + size, data[n..]);
      ImageGrows(size, cells, Laid(size, cells, p, 0, data), p, data);
    } else {
      assert ImageAt(size, cells, cells, p, 0, data) by { NoImage(size, cells, p); }
    }
  }

  lemma NoImage(size: nat, cells: seq<byte>, p: nat)
    requires 0 < size
    ensures ImageAt(size, cells, cells, p, 0, [])
  {}

  /** A page in front of an image makes a longer image. */
  lemma ImageGrows(size: nat, before: seq<byte>, after: seq<byte>, p: nat, data: seq<byte>)
    requires 0 < size && data != [] && p + size <= |before|
    requires var n := Min(size, |data|);
      ImageAt(size, Splice(before, p, Rotated(size, 0, data[..n])), after, p + size, 0, data[n..])
    ensures ImageAt(size, before, after, p, 0, data)
  {
    hide Splice, Rotated;
    var n := Min(size, |data|);
    var page := Rotated(size, 0, data[..n]);
    assert forall o :: 0 <= o < size ==> page[o] == if o < n then data[o] else BLANK;
    assert Span(size, |data|) == size + Span(size, |data| - n);
  }

  /** An image that stays in its page lies where it was sent, wherever in the page it starts. */
  lemma LaidInPage(size: nat, cells: seq<byte>, p: nat, r: nat, data: seq<byte>)
    requires 0 < size && r < size && r + |data| <= size && p + size <= |cells| && data != []
    ensures ImageAt(size, cells, Laid(size, cells, p, r, data), p, r, data)
  {
    LaidOne(size, cells, p, r, data);
  }

  /** Pages below the starting page keep their contents. */
  lemma {:induction false} LaidBelow(size: nat, cells: seq<byte>, p: nat, r: nat, data: seq<byte>, i: nat)
    requires 0 < size && r < size && i < p && i < |cells|
    ensures Laid(size, cells, p, r, data)[i] == cells[i]
    decreases |data|
  {
    var n := Min(size, |data|);
    if n != 0 && p + size <= |cells| {
      LaidBelow(size, Splice(cells, p, Rotated(size, r, data[..n])), p + size, r, data[n..], i);
    }
  }

  /** Later pages do not touch what the first one holds. */
  lemma FirstPageLaid(size: nat, cells: seq<byte>, p: nat, r: nat, data: seq<byte>, o: nat)
    requires 0 < size && r < size && o < size && data != [] && p + size <= |cells|
    ensures Laid(size, cells, p, r, data)[p + o] == Rotated(size, r, data[..Min(size, |data|)])[o]
  {
    hide Rotated;
    var n := Min(size, |data|);
    LaidBelow(size, Splice(cells, p, Rotated(size, r, data[..n])), p + size, r, data[n..], p + o);
  }

  /** Every byte of `data` can be read back at its own address. */
  ghost predicate ReadsBack(after: seq<byte>, addr: nat, data: seq<byte>) {
    addr + |data| <= |after| && after[addr..addr + |data|] == data
  }

  /** An image that fits one page but starts too late in it: the page after it is not touched. */
  lemma ShortCrossing(size: nat, cells: seq<byte>, p: nat, r: nat, n: nat) returns (data: seq<byte>)
    requires 0 < r < size && size < r + n && n <= size && p + r + n <= |cells|
    ensures |data| == n && !ReadsBack(Laid(size, cells, p, r, data), p + r, data)
  {
    var i := p + size;
    var other: byte := if cells[i] == 0 then 1 else 0;
    data := seq(n, _ => other);
    LaidOne(size, cells, p, r, data);
    hide Laid;
    WordMisplaced(Laid(size, cells, p, r, data), p + r, data, size - r);
  }

  /** The first byte of the second page comes from the end of its own chunk. */
  lemma SecondPageStart(size: nat, cells: seq<byte>, p: nat, r: nat, data: seq<byte>)
    requires 0 < r < size && size < |data| && p + size + size <= |cells|
    ensures Laid(size, cells, p, r, data)[p + size]
         == if 2 * size - r < |data| then data[2 * size - r] else BLANK
  {
    hide Laid, Splice;
    var first, rest := data[..size], data[size..];
    assert first + rest == data;
    LaidFirst(size, cells, p, r, first, rest);
    FirstPageLaid(size, Splice(cells, p, Rotated(size, r, first)), p + size, r, rest, 0);
    assert Source(size, r, 0) == size - r;
  }

  /** The word that should open the second page is nowhere near it: for an unaligned image that
      crosses a page there is always data that does not read back. */
  lemma CrossingMisplaced(size: nat, cells: seq<byte>, p: nat, r: nat, n: nat) returns (data: seq<byte>)
    requires 0 < size && 0 < r < size && r + n > size
    requires Aligned(size, p) && Aligned(size, |cells|) && p + r + n <= |cells|
    ensures |data| == n && !ReadsBack(Laid(size, cells, p, r, data), p + r, data)
  {
    hide Aligned;
    if n <= size {
      data := ShortCrossing(size, cells, p, r, n);
    } else {
      var m := size - r;
      data := seq(n, k => if k == m then 0 else BLANK);
      FollowingPage(size, p, |cells|);
      SecondPageStart(size, cells, p, r, data);
      hide Laid;
      WordMisplaced(Laid(size, cells, p, r, data), p + r, data, m);
    }
  }

  lemma WordMisplaced(after: seq<byte>, addr: nat, data: seq<byte>, m: nat)
    requires m < |data| && addr + m < |after| && after[addr + m] != data[m]
    ensures !ReadsBack(after, addr, data)
  {
    assert addr + |data| <= |after| ==> after[addr..addr + |data|][m] == after[addr + m];
  }

  lemma ImageReadsBack(size: nat, before: seq<byte>, after: seq<byte>, p: nat, r: nat, data: seq<byte>)
    requires 0 < size && ImageAt(size, before, after, p, r, data) && p + r + |data| <= |before|
    ensures ReadsBack(after, p + r, data)
  {}

  /** An image laid from a page boundary, or inside one page, is where it was sent. */
  lemma LaidImage(size: nat, cells: seq<byte>, p: nat, r: nat, data: seq<byte>)
    requires 0 < size && Aligned(size, p) && Aligned(size, |cells|) && p + size <= |cells|
    requires r < size && data != [] && p + r + |data| <= |cells| && (r == 0 || r + |data| <= size)
    ensures ImageAt(size, cells, Laid(size, cells, p, r, data), p, r, data)
  {
    hide Aligned, Laid, ImageAt;
    if r == 0 {
      LaidAligned(size, cells, p, data);
    } else {
      LaidInPage(size, cells, p, r, data);
    }
  }

  // ---- Odd addresses ----------------------------------------------------------------

  lemma OddOffset(size: nat, addr: nat)
    requires 0 < size && size % 2 == 0 && addr % 2 == 1
    ensures addr % size % 2 == 1
  {
    EvenMultiple(addr / size, size);
    assert addr == addr / size * size + addr % size;
  }

  /** The buffer is filled in words: an odd address means the word it lies in. */
  lemma OddSlot(size: nat, addr: nat)
    requires 0 < size && size % 2 == 0 && addr % 2 == 1
    ensures SlotOf(size, addr) == SlotOf(size, addr - 1) && PageOf(size, addr) == PageOf(size, addr - 1)
  {
    var q, r := addr / size, addr % size;
    OddOffset(size, addr);
    assert (addr - 1) % size == r - 1 by {
      assert addr == q * size + r;
      DivMod(q, size, r - 1);
    }
  }

  lemma OddOperations(size: nat, f: Flash, addr: nat, lo: byte, hi: byte)
    requires FlashOk(size, f) && addr % 2 == 1
    ensures Fill(size, f, addr, lo, hi) == Fill(size, f, addr - 1, lo, hi)
    ensures Write(size, f, addr) == Write(size, f, addr - 1) && Erase(size, f, addr) == Erase(size, f, addr - 1)
  {
    hide SlotOf, PageOf, Splice, AndPage, Blank, Aligned;
    OddSlot(size, addr);
  }

  lemma {:induction false} FillWordsOdd(size: nat, f: Flash, data: seq<byte>, addr: nat, pageStart: nat, inPage: byte)
    requires FlashOk(size, f) && addr % 2 == 1 && pageStart % 2 == 1
    ensures FillWords(size, f, data, addr, pageStart, inPage)
            == FillWords(size, f, data, addr - 1, pageStart - 1, inPage)
    decreases |data|
  {
    hide Fill, Write, Erase, FlashOk;
    if |data| >= 2 {
      var f1 := Fill(size, f, addr, data[0], data[1]);
      var f2 := Write(size, f1, pageStart);
      OddOperations(size, f, addr, data[0], data[1]);
      OddOperations(size, f1, pageStart, 0, 0);
      OddOperations(size, f2, addr + 2, 0, 0);
      if |data| >= 4 {
        FillWordsOdd(size, Erase(size, f2, addr + 2), data[2..], addr + 2, addr + 2, 0);
        FillWordsOdd(size, f1, data[2..], addr + 2, pageStart, (inPage + 1) % 256);
      }
    }
  }

  lemma ProgrammedOdd(size: nat, f: Flash, addr: nat, data: seq<byte>)
    requires FlashOk(size, f) && addr % 2 == 1
    ensures Programmed(size, f, addr, data) == Programmed(size, f, addr - 1, data)
  {
    hide FillWords, PageOf, SlotOf;
    OddSlot(size, addr);
    FillWordsOdd(size, Erase(size, f, addr), data, addr, addr, 0);
  }

  /** The first word goes to the start of the image. */
  lemma FirstWordLaid(size: nat, cells: seq<byte>, p: nat, r: nat, data: seq<byte>)
    requires 0 < size && r + 1 < size && 2 <= |data| && p + size <= |cells|
    ensures var c := Laid(size, cells, p, r, data); c[p + r] == data[0] && c[p + r + 1] == data[1]
  {
    hide Laid;
    FirstPageLaid(size, cells, p, r, data, r);
    FirstPageLaid(size, cells, p, r, data, r + 1);
  }

  /** From an odd address the second byte lands where the first one belongs. */
  lemma OddLands(size: nat, f: Flash, addr: nat, data: seq<byte>)
    requires size <= 256 && FlashOk(size, f) && BufferEmpty(size, f)
    requires addr % 2 == 1 && data != [] && |data| % 2 == 0 && addr + |data| <= |f.cells|
    ensures var c := Programmed(size, f, addr, data).cells; |c| == |f.cells| && c[addr] == data[1]
  {
    hide PageOf, Laid, Programmed, BufferEmpty, Aligned;
    var even := addr - 1;
    ProgrammedOdd(size, f, addr, data);
    PageSplit(size, even, |f.cells|);
    ProgrammedLaid(size, f, even, data);
    FirstWordLaid(size, f.cells, PageOf(size, even), even % size, data);
  }

  lemma OddMisplaced(size: nat, f: Flash, addr: nat, n: nat) returns (data: seq<byte>)
    requires size <= 256 && FlashOk(size, f) && BufferEmpty(size, f)
    requires addr % 2 == 1 && 0 < n && n % 2 == 0 && addr + n <= |f.cells|
    ensures |data| == n && !ReadsBack(Programmed(size, f, addr, data).cells, addr, data)
  {
    hide Programmed, FlashOk, BufferEmpty, ReadsBack;
    data := seq(n, i => if i == 0 then 1 else 0);
    OddLands(size, f, addr, data);
    WordMisplaced(Programmed(size, f, addr, data).cells, addr, data, 0);
  }

  lemma EvenLands(size: nat, f: Flash, addr: nat, data: seq<byte>)
    requires size <= 256 && FlashOk(size, f) && BufferEmpty(size, f)
    requires addr % 2 == 0 && data != [] && |data| % 2 == 0 && addr + |data| <= |f.cells|
    requires InPage(size, addr) == 0 || InPage(size, addr) + |data| <= size
    ensures ReadsBack(Programmed(size, f, addr, data).cells, addr, data)
  {
    hide PageOf, Rotated, Laid, Programmed, BufferEmpty, ReadsBack, ImageAt, Aligned;
    var p, r := PageOf(size, addr), addr % size;
    PageSplit(size, addr, |f.cells|);
    ProgrammedLaid(size, f, addr, data);
    LaidImage(size, f.cells, p, r, data);
    ImageReadsBack(size, f.cells, Laid(size, f.cells, p, r, data), p, r, data);
  }

  lemma EvenMisplaced(size: nat, f: Flash, addr: nat, n: nat) returns (data: seq<byte>)
    requires size <= 256 && FlashOk(size, f) && BufferEmpty(size, f)
    requires addr % 2 == 0 && 0 < n && n % 2 == 0 && addr + n <= |f.cells|
    requires InPage(size, addr) != 0 && InPage(size, addr) + n > size
    ensures |data| == n && !ReadsBack(Programmed(size, f, addr, data).cells, addr, data)
  {
    hide PageOf, Rotated, Laid, Programmed, BufferEmpty, ReadsBack, Aligned;
    PageSplit(size, addr, |f.cells|);
    data := CrossingMisplaced(size, f.cells, PageOf(size, addr), addr % size, n);
    ProgrammedLaid(size, f, addr, data);
  }

  /** Exactly when the word loop can be trusted with its data: every image of `n` bytes that it is given
      reads back from `addr` if and only if `addr` is page aligned, or even and the image stays inside
      one page. */
  lemma WordLoopLandsIff(size: nat, f: Flash, addr: nat, n: nat)
    requires size <= 256 && FlashOk(size, f) && BufferEmpty(size, f)
    requires 0 < n && Even(n) && addr + n <= |f.cells|
    ensures (forall data: seq<byte> :: |data| == n ==> ReadsBack(Programmed(size, f, addr, data).cells, addr, data))
            <==> InPage(size, addr) == 0 || (Even(addr) && InPage(size, addr) + n <= size)
  {
    hide Programmed, BufferEmpty, ReadsBack, Aligned, InPage;
    if !Even(addr) {
      OddInPage(size, addr);
      var data := OddMisplaced(size, f, addr, n);
    } else if InPage(size, addr) == 0 || InPage(size, addr) + n <= size {
      forall data: seq<byte> | |data| == n ensures ReadsBack(Programmed(size, f, addr, data).cells, addr, data) {
        EvenLands(size, f, addr, data);
      }
    } else {
      var data := EvenMisplaced(size, f, addr, n);
    }
  }

  lemma OddInPage(size: nat, addr: nat)
    requires 0 < size && Even(size) && !Even(addr)
    ensures InPage(size, addr) != 0
  {
    OddOffset(size, addr);
  }

  lemma EvenInPage(size: nat, addr: nat)
    requires 0 < size && Even(size) && Even(addr)
    ensures Even(InPage(size, addr))
  {
    hide Even, InPage;
    EvenProduct(addr / size, size);
    EvenDifference(addr, addr / size * size);
    Remainder(size, addr);
  }

  lemma Remainder(size: nat, addr: nat)
    requires 0 < size
    ensures InPage(size, addr) == addr - addr / size * size
  {}

  lemma EvenProduct(q: nat, size: nat)
    requires Even(size)
    ensures Even(q * size)
  {
    EvenMultiple(q, size);
  }

  lemma EvenDifference(a: int, b: int)
    requires Even(a) && Even(b)
    ensures Even(a - b)
  {}
}
