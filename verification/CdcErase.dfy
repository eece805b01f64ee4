/** The chip erase of the CDC bootloader.  The loop adds SPM_PAGESIZE to its counter and the `for`
    statement adds one more, so it visits page k + k/S in step k instead of page k. */
module CdcErase {
  import opened Usb
  import opened AvrFlash
  import opened CdcSpec

  /** The pages that the loop erases, in order. */
  function ErasedPages(size: nat, addr: nat, limit: nat): seq<nat>
    requires 0 < size
    decreases limit - addr
  {
    if addr >= limit then [] else [addr / size] + ErasedPages(size, addr + size + 1, limit)
  }

  /** The address of step `k`, as page and offset. */
  lemma StepAddress(size: nat, k: nat)
    requires 0 < size
    ensures k * (size + 1) / size == k + k / size && k * (size + 1) % size == k % size
  {
    var q, t := k / size, k % size;
    assert k * (size + 1) == (k + q) * size + t;
    DivMod(k + q, size, t);
  }

  /** Step `k` erases page k + k/S. */
  lemma {:induction false} ErasedInStep(size: nat, k0: nat, limit: nat, k: nat)
    requires 0 < size && k < |ErasedPages(size, k0 * (size + 1), limit)|
    ensures var m := k0 + k;
      ErasedPages(size, k0 * (size + 1), limit)[k] == m + m / size && m * (size + 1) < limit
    decreases limit - k0 * (size + 1)
  {
    StepAddress(size, k0);
    assert (k0 + 1) * (size + 1) == k0 * (size + 1) + size + 1;
    if k > 0 { ErasedInStep(size, k0 + 1, limit, k - 1); }
  }

  /** The loop goes on until its counter leaves the application section. */
  lemma {:induction false} StepHappens(size: nat, k0: nat, limit: nat, k: nat)
    requires 0 < size && (k0 + k) * (size + 1) < limit
    ensures k < |ErasedPages(size, k0 * (size + 1), limit)|
    decreases k
  {
    assert (k0 + 1) * (size + 1) == k0 * (size + 1) + size + 1;
    assert (k0 + k) * (size + 1) == k0 * (size + 1) + k * (size + 1);
    assert k * (size + 1) >= 0;
    if k > 0 { StepHappens(size, k0 + 1, limit, k - 1); }
  }

  /** The page at which step `k` would arrive determines `k`. */
  function StepOf(size: nat, page: nat): nat
    requires 0 < size
  {
    page / (size + 1) * size + page % (size + 1)
  }

  lemma StepOfPage(size: nat, page: nat)
    requires 0 < size && page % (size + 1) != size
    ensures var k := StepOf(size, page);
      k + k / size == page && k * (size + 1) == page * size + page % (size + 1)
  {
    var q, t := page / (size + 1), page % (size + 1);
    DivMod(q, size, t);
    var k := q * size + t;
    assert page == q * (size + 1) + t;
    assert k * (size + 1) == (q * (size + 1) + t) * size + t;
  }

  /** No step arrives at a page congruent to S modulo S + 1. */
  lemma SkippedPage(size: nat, k: nat)
    requires 0 < size
    ensures (k + k / size) % (size + 1) != size
  {
    var q, t := k / size, k % size;
    assert k + q == q * (size + 1) + t;
    DivMod(q, size + 1, t);
  }

  lemma StepsIncrease(size: nat, k: nat, m: nat)
    requires 0 < size && k < m
    ensures k + k / size < m + m / size
  {
    var q, r := k / size, m / size;
    assert k == q * size + k % size && m == r * size + m % size;
    assert r <= q - 1 ==> r * size <= (q - 1) * size;
    assert (q - 1) * size == q * size - size;
  }

  /** The loop erases exactly the application pages not congruent to S modulo S + 1 ... */
  lemma ErasedIff(size: nat, pages: nat, page: nat)
    requires 0 < size && page < pages
    ensures page in ErasedPages(size, 0, pages * size) <==> page % (size + 1) != size
  {
    var es, limit := ErasedPages(size, 0, pages * size), pages * size;
    assert 0 * (size + 1) == 0;
    if page in es {
      var k :| 0 <= k < |es| && es[k] == page;
      ErasedInStep(size, 0, limit, k);
      SkippedPage(size, k);
    }
    if page % (size + 1) != size {
      var k := StepOf(size, page);
      StepOfPage(size, page);
      PageRoom(size, page, pages);
      StepHappens(size, 0, limit, k);
      ErasedInStep(size, 0, limit, k);
      assert es[k] == page;
    }
  }

  lemma PageRoom(size: nat, page: nat, pages: nat)
    requires page < pages
    ensures page * size + size <= pages * size
  {
    assert (page + 1) * size == page * size + size;
    assert (page + 1) * size <= pages * size;
  }

  /** ... each of them once, in increasing order, and none outside the application section. */
  lemma ErasedOnce(size: nat, pages: nat, k: nat, m: nat)
    requires 0 < size && k < m < |ErasedPages(size, 0, pages * size)|
    ensures ErasedPages(size, 0, pages * size)[k] < ErasedPages(size, 0, pages * size)[m] < pages
  {
    hide ErasedPages;
    StepFromZero(size, pages * size, k);
    StepFromZero(size, pages * size, m);
    StepsIncrease(size, k, m);
    StepInside(size, pages, m);
  }

  lemma StepFromZero(size: nat, limit: nat, k: nat)
    requires 0 < size && k < |ErasedPages(size, 0, limit)|
    ensures ErasedPages(size, 0, limit)[k] == k + k / size && k * (size + 1) < limit
  {
    assert 0 * (size + 1) == 0;
    ErasedInStep(size, 0, limit, k);
  }

  lemma StepInside(size: nat, pages: nat, m: nat)
    requires 0 < size && m * (size + 1) < pages * size
    ensures m + m / size < pages
  {
    StepAddress(size, m);
    IndexPage(size, pages, m * (size + 1));
  }

  // ---- The flash afterwards -----------------------------------------------------------

  lemma PageOfIndex(size: nat, addr: nat, i: nat)
    requires 0 < size
    ensures PageOf(size, addr) <= i < PageOf(size, addr) + size <==> i / size == addr / size
  {
    PageNumber(size, addr);
    hide PageOf;
    IndexPage(size, addr / size, i);
    IndexPage(size, addr / size + 1, i);
  }

  lemma PageNumber(size: nat, addr: nat)
    requires 0 < size
    ensures PageOf(size, addr) == addr / size * size
    ensures PageOf(size, addr) + size == (addr / size + 1) * size
  {
    assert addr == addr / size * size + addr % size;
  }

  lemma WholePage(size: nat, addr: nat, limit: nat)
    requires 0 < size && Aligned(size, limit) && addr < limit
    ensures PageOf(size, addr) + size <= limit
  {
    var q, n := addr / size, limit / size;
    assert addr == q * size + addr % size && limit == n * size;
    assert q >= n ==> q * size >= n * size;
    PageRoom(size, q, n);
  }

  lemma SweepOnePage(size: nat, f: Flash, addr: nat)
    requires FlashOk(size, f) && BufferEmpty(size, f) && PageOf(size, addr) + size <= |f.cells|
    ensures var r := Write(size, Erase(size, f, addr), addr);
      && r.cells == Splice(f.cells, PageOf(size, addr), Blank(size)) && BufferEmpty(size, r) && r.misuse == f.misuse
  {
    hide PageOf, Aligned;
    var p := PageOf(size, addr);
    BlankAnd(f.buffer);
    assert Erase(size, f, addr).cells[p..p + size] == Blank(size);
  }

  lemma {:induction false} SweepCells(size: nat, f: Flash, addr: nat, limit: nat, i: nat)
    requires FlashOk(size, f) && BufferEmpty(size, f) && Aligned(size, limit) && limit <= |f.cells| && i < |f.cells|
    ensures var r := EraseSweep(size, f, addr, limit);
      && BufferEmpty(size, r) && r.misuse == f.misuse
      && r.cells[i] == if i / size in ErasedPages(size, addr, limit) then BLANK else f.cells[i]
    decreases limit - addr
  {
    hide PageOf, Erase, Write, Aligned, BufferEmpty;
    if addr < limit {
      WholePage(size, addr, limit);
      SweepOnePage(size, f, addr);
      PageOfIndex(size, addr, i);
      SweepCells(size, Write(size, Erase(size, f, addr), addr), addr + size + 1, limit, i);
    }
  }

  /** The first step writes what the page buffer holds to page 0, and empties the buffer. */
  lemma FirstPageTakesBuffer(size: nat, f: Flash)
    requires FlashOk(size, f) && size <= |f.cells|
    ensures var r := Write(size, Erase(size, f, 0), 0);
      FlashOk(size, r) && r.cells == Splice(f.cells, 0, f.buffer) && BufferEmpty(size, r) && r.misuse == f.misuse
  {
    hide Aligned;
    BlankAnd(f.buffer);
    assert Erase(size, f, 0).cells[0..size] == Blank(size);
  }

  /** Cell `i` lies in a page that the loop arrives at. */
  predicate Swept(size: nat, pages: nat, i: nat)
    requires 0 < size
  {
    i < pages * size && i / size % (size + 1) != size
  }

  /** What cell `i` holds after the 'e' command. */
  function AfterSweep(size: nat, pages: nat, f: Flash, i: nat): byte
    requires 0 < size == |f.buffer| && i < |f.cells|
  {
    if 0 < pages && i < size then f.buffer[i]
    else if Swept(size, pages, i) then BLANK
    else f.cells[i]
  }

  /** Page 0 is erased in the first step and not again. */
  lemma LaterPages(size: nat, pages: nat, page: nat)
    requires 0 < size && 0 < pages
    ensures page in ErasedPages(size, size + 1, pages * size)
            <==> 0 < page && page in ErasedPages(size, 0, pages * size)
  {
    var limit := pages * size;
    var es, rest := ErasedPages(size, 0, limit), ErasedPages(size, size + 1, limit);
    PageRoom(size, 0, pages);
    DivMod(0, size, 0);
    assert es == [0] + rest;
    if page in rest {
      var k :| 0 <= k < |rest| && rest[k] == page;
      ErasedOnce(size, pages, 0, k + 1);
      assert es[k + 1] == page;
    }
  }

  /** Every byte behind page 0 after the other steps. */
  lemma SweptBehind(size: nat, pages: nat, f: Flash, i: nat)
    requires FlashOk(size, f) && BufferEmpty(size, f) && 0 < pages && pages * size <= |f.cells| && i < |f.cells|
    ensures var r := EraseSweep(size, f, size + 1, pages * size);
      && r.misuse == f.misuse
      && r.cells[i] == if size <= i && Swept(size, pages, i) then BLANK else f.cells[i]
  {
    hide EraseSweep, BufferEmpty, Aligned, ErasedPages, Swept;
    WholePages(size, pages);
    SweepCells(size, f, size + 1, pages * size, i);
    LaterPages(size, pages, i / size);
    SweptPage(size, pages, i);
  }

  /** After the 'e' command page 0 holds what the page buffer held, every other page of the application
      section is blank but those congruent to S modulo S + 1, which keep their contents; nothing else
      changes. */
  lemma EraseSweepLeaves(size: nat, pages: nat, f: Flash, i: nat)
    requires FlashOk(size, f) && pages * size <= |f.cells| && i < |f.cells|
    ensures var r := EraseSweep(size, f, 0, pages * size);
      r.misuse == f.misuse && r.cells[i] == AfterSweep(size, pages, f, i)
  {
    hide Erase, Write, BufferEmpty, Aligned, Swept, EraseSweep, Splice;
    if 0 < pages {
      PageRoom(size, 0, pages);
      FirstPageTakesBuffer(size, f);
      SweepUnfolds(size, f, pages * size);
      SweptBehind(size, pages, Write(size, Erase(size, f, 0), 0), i);
    } else {
      SweepNothing(size, f);
      NothingSwept(size, i);
    }
  }

  lemma SweepUnfolds(size: nat, f: Flash, limit: nat)
    requires FlashOk(size, f) && 0 < limit
    ensures EraseSweep(size, f, 0, limit) == EraseSweep(size, Write(size, Erase(size, f, 0), 0), size + 1, limit)
  {
    hide Erase, Write, FlashOk;
  }

  lemma SweepNothing(size: nat, f: Flash)
    requires FlashOk(size, f)
    ensures EraseSweep(size, f, 0, 0) == f
  {}

  lemma NothingSwept(size: nat, i: nat)
    requires 0 < size
    ensures !Swept(size, 0, i)
  {}

  lemma SweptPage(size: nat, pages: nat, i: nat)
    requires 0 < size
    ensures i / size in ErasedPages(size, 0, pages * size) <==> Swept(size, pages, i)
    ensures 0 < i / size <==> size <= i
  {
    hide ErasedPages;
    IndexPage(size, pages, i);
    IndexPage(size, 1, i);
    if i / size < pages {
      ErasedIff(size, pages, i / size);
    } else {
      OutsideNotErased(size, pages, i / size);
    }
  }

  lemma WholePages(size: nat, pages: nat)
    requires 0 < size
    ensures Aligned(size, pages * size)
  {
    DivMod(pages, size, 0);
  }

  lemma IndexPage(size: nat, pages: nat, i: nat)
    requires 0 < size
    ensures i < pages * size <==> i / size < pages
  {
    var q := i / size;
    assert i == q * size + i % size;
    assert q >= pages ==> q * size >= pages * size;
    if q < pages { PageRoom(size, q, pages); }
  }

  lemma OutsideNotErased(size: nat, pages: nat, page: nat)
    requires 0 < size && pages <= page
    ensures page !in ErasedPages(size, 0, pages * size)
  {
    var es, limit := ErasedPages(size, 0, pages * size), pages * size;
    assert 0 * (size + 1) == 0;
    if page in es {
      var k :| 0 <= k < |es| && es[k] == page;
      ErasedInStep(size, 0, limit, k);
      StepAddress(size, k);
      IndexPage(size, pages, k * (size + 1));
    }
  }

  lemma FewPagesBlank(size: nat, pages: nat, f: Flash)
    requires FlashOk(size, f) && pages * size <= |f.cells| && pages <= size
    requires pages == 0 || f.buffer == Blank(size)
    ensures SectionBlank(EraseSweep(size, f, 0, pages * size).cells, pages * size)
  {
    hide EraseSweep, AfterSweep, Aligned;
    var limit := pages * size;
    forall i | 0 <= i < limit ensures EraseSweep(size, f, 0, limit).cells[i] == BLANK {
      EraseSweepLeaves(size, pages, f, i);
      FewPagesByte(size, pages, f, i);
    }
  }

  lemma FewPagesByte(size: nat, pages: nat, f: Flash, i: nat)
    requires FlashOk(size, f) && i < pages * size <= |f.cells| && pages <= size && f.buffer == Blank(size)
    ensures AfterSweep(size, pages, f, i) == BLANK
  {
    hide Aligned;
    SmallPage(size, pages, i);
  }

  lemma SmallPage(size: nat, pages: nat, i: nat)
    requires 0 < size && pages <= size && i < pages * size
    ensures i / size % (size + 1) != size
  {
    IndexPage(size, pages, i);
    SmallMod(i / size, size + 1);
  }

  lemma SmallMod(a: nat, n: nat)
    requires a < n
    ensures a % n == a
  {}

  lemma ManyPagesNotBlank(size: nat, pages: nat, f: Flash)
    requires FlashOk(size, f) && pages * size <= |f.cells| && size < pages
    requires size * size < |f.cells| && f.cells[size * size] != BLANK
    ensures !SectionBlank(EraseSweep(size, f, 0, pages * size).cells, pages * size)
  {
    hide EraseSweep, Aligned;
    var i := size * size;
    DivMod(size, size, 0);
    IndexPage(size, pages, i);
    SmallMod(size, size + 1);
    assert size <= i;
    EraseSweepLeaves(size, pages, f, i);
  }

  lemma LoadedBufferNotBlank(size: nat, pages: nat, f: Flash)
    requires FlashOk(size, f) && 0 < pages && pages * size <= |f.cells| && f.buffer != Blank(size)
    ensures !SectionBlank(EraseSweep(size, f, 0, pages * size).cells, pages * size)
  {
    hide EraseSweep, Aligned;
    var k :| 0 <= k < size && f.buffer[k] != BLANK;
    PageRoom(size, 0, pages);
    EraseSweepLeaves(size, pages, f, k);
  }

  /** The 'C' and 'c' commands load a word whose high byte is 0, so an 'e' directly after one never blanks
      the section.  An 'm', a block write or a block read in between empties the buffer. */
  lemma LoadedWordSurvives(size: nat, pages: nat, f: Flash, addr: nat, v: byte)
    requires FlashOk(size, f) && 0 < pages && pages * size <= |f.cells|
    ensures !SectionBlank(EraseSweep(size, Fill(size, f, addr, v, 0), 0, pages * size).cells, pages * size)
  {
    hide EraseSweep, SectionBlank, Aligned, SlotOf;
    var g := Fill(size, f, addr, v, 0);
    assert g.buffer[SlotOf(size, addr) + 1] == 0;
    LoadedBufferNotBlank(size, pages, g);
  }

  lemma PageCountIff(size: nat, pages: nat)
    requires 0 < size
    ensures pages <= size <==> pages * size <= size * size
    ensures size < pages ==> size * size + size <= pages * size
  {
    if pages <= size {
      assert pages * size <= size * size;
    } else {
      PageRoom(size, size, pages);
    }
  }

  /** The erase command blanks the application section, whatever was in it, if and only if
      BOOT_START_ADDR is at most S * S and the page buffer is empty when it starts. */
  lemma EraseCompleteIff(size: nat, pages: nat, f: Flash)
    requires FlashOk(size, f) && pages * size <= |f.cells|
    ensures (forall g: Flash :: g == f.(cells := g.cells) && |g.cells| == |f.cells|
                ==> SectionBlank(EraseSweep(size, g, 0, pages * size).cells, pages * size))
            <==> pages * size <= size * size && (pages == 0 || f.buffer == Blank(size))
  {
    hide EraseSweep, SectionBlank, Aligned;
    PageCountIff(size, pages);
    if size < pages {
      var cells: seq<byte> := seq(|f.cells|, _ => 0);
      ManyPagesNotBlank(size, pages, f.(cells := cells));
    } else if pages == 0 || f.buffer == Blank(size) {
      forall g: Flash | g == f.(cells := g.cells) && |g.cells| == |f.cells|
        ensures SectionBlank(EraseSweep(size, g, 0, pages * size).cells, pages * size)
      {
        FewPagesBlank(size, pages, g);
      }
    } else {
      LoadedBufferNotBlank(size, pages, f);
      assert f == f.(cells := f.cells);
    }
  }

  ghost predicate SectionBlank(cells: seq<byte>, limit: nat) {
    limit <= |cells| && forall i :: 0 <= i < limit ==> cells[i] == BLANK
  }
}
