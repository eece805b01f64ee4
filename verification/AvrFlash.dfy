/** The self-programming interface of an AVR: a flash array erased and written
    one page at a time through a page-sized temporary buffer. */
module AvrFlash {
  import opened Usb

  const BLANK: byte := 0xFF

  /** `filled` holds the buffer slots loaded since the buffer was last emptied, `erased` the
      pages erased since they were last written.  `misuse` counts the operations the hardware
      does not support: a second load of a slot and a write over a page that is not erased. */
  datatype Flash = Flash(cells: seq<byte>, buffer: seq<byte>, filled: set<int>, erased: set<int>, misuse: nat)

  /** `a` is a whole number of pages. */
  ghost predicate Aligned(size: nat, a: int)
    requires 0 < size
  {
    a % size == 0
  }

  ghost predicate FlashOk(size: nat, f: Flash) {
    0 < size && size % 2 == 0 && |f.buffer| == size && Aligned(size, |f.cells|)
  }

  function PageOf(size: nat, addr: nat): (p: nat)
    requires 0 < size
    ensures p <= addr < p + size
  {
    addr - addr % size
  }

  /** The offset of an address in its page. */
  function InPage(size: nat, addr: nat): (r: nat)
    requires 0 < size
    ensures r < size && r <= addr
  {
    addr % size
  }

  function Blank(n: nat): (s: seq<byte>)
    ensures |s| == n && forall i :: 0 <= i < n ==> s[i] == BLANK
  {
    seq(n, _ => BLANK)
  }

  function Splice(cells: seq<byte>, at: nat, page: seq<byte>): (r: seq<byte>)
    requires at + |page| <= |cells|
    ensures |r| == |cells|
    ensures forall i :: 0 <= i < |r| ==> r[i] == if at <= i < at + |page| then page[i - at] else cells[i]
  {
    cells[..at] + page + cells[at + |page|..]
  }

  /** A memory read; beyond the array it reads as blank. */
  function ReadCell(cells: seq<byte>, addr: nat): byte { if addr < |cells| then cells[addr] else BLANK }

  /** A byte written to the EEPROM; beyond the array nothing changes. */
  function PokeCell(cells: seq<byte>, addr: nat, v: byte): (r: seq<byte>)
    ensures |r| == |cells|
  {
    if addr < |cells| then cells[addr := v] else cells
  }

  // ---- Bitwise AND of two bytes, bit by bit --------------------------------

  function AndBits(bits: nat, a: nat, b: nat): nat {
    if bits == 0 then 0 else (a % 2) * (b % 2) + 2 * AndBits(bits - 1, a / 2, b / 2)
  }

  function Ones(bits: nat): nat { if bits == 0 then 0 else 1 + 2 * Ones(bits - 1) }

  lemma AndBitsBound(bits: nat, a: nat, b: nat)
    ensures AndBits(bits, a, b) <= Ones(bits)
  {
    if bits > 0 {
      AndBitsBound(bits - 1, a / 2, b / 2);
      assert (a % 2) * (b % 2) <= 1;
    }
  }

  function And(a: byte, b: byte): byte {
    AndBitsBound(8, a, b);
    assert Ones(8) == 255;
    AndBits(8, a, b)
  }

  lemma {:induction false} OnesIdentity(bits: nat, b: nat)
    requires b <= Ones(bits)
    ensures AndBits(bits, Ones(bits), b) == b && AndBits(bits, b, Ones(bits)) == b
  {
    if bits > 0 {
      assert Ones(bits) / 2 == Ones(bits - 1) && Ones(bits) % 2 == 1;
      OnesIdentity(bits - 1, b / 2);
    }
  }

  lemma AndBlank(b: byte)
    ensures And(BLANK, b) == b && And(b, BLANK) == b
  {
    assert Ones(8) == 255;
    OnesIdentity(8, b);
  }

  // ---- The four operations --------------------------------------------------

  /** boot_page_erase */
  function Erase(size: nat, f: Flash, addr: nat): (r: Flash)
    requires FlashOk(size, f)
    ensures FlashOk(size, r) && |r.cells| == |f.cells|
  {
    var p := PageOf(size, addr);
    if p + size <= |f.cells| then f.(cells := Splice(f.cells, p, Blank(size)), erased := f.erased + {p}) else f
  }

  function SlotOf(size: nat, addr: nat): (s: nat)
    requires 0 < size && size % 2 == 0
    ensures s + 1 < size
  {
    addr % size - (addr % size) % 2
  }

  /** boot_page_fill */
  function Fill(size: nat, f: Flash, addr: nat, lo: byte, hi: byte): (r: Flash)
    requires FlashOk(size, f)
    ensures FlashOk(size, r) && r.cells == f.cells
  {
    var s := SlotOf(size, addr);
    f.(buffer := f.buffer[s := lo][s + 1 := hi],
       filled := f.filled + {s},
       misuse := f.misuse + if s in f.filled then 1 else 0)
  }

  function AndPage(page: seq<byte>, buffer: seq<byte>): (r: seq<byte>)
    requires |page| == |buffer|
    ensures |r| == |page| && forall i :: 0 <= i < |r| ==> r[i] == And(page[i], buffer[i])
  {
    seq(|page|, i requires 0 <= i < |page| => And(page[i], buffer[i]))
  }

  /** boot_page_write: programming can only clear bits, and empties the buffer. */
  function Write(size: nat, f: Flash, addr: nat): (r: Flash)
    requires FlashOk(size, f)
    ensures FlashOk(size, r) && |r.cells| == |f.cells|
  {
    var p := PageOf(size, addr);
    var emptied := f.(buffer := Blank(size), filled := {});
    if p + size <= |f.cells| then
      emptied.(cells := Splice(f.cells, p, AndPage(f.cells[p..p + size], f.buffer)),
               erased := f.erased - {p},
               misuse := f.misuse + if p in f.erased then 0 else 1)
    else emptied
  }

  ghost predicate BufferEmpty(size: nat, f: Flash) { f.buffer == Blank(size) && f.filled == {} }

  /** boot_rww_enable: opening the flash for reading again empties the buffer. */
  function Enable(size: nat, f: Flash): (r: Flash)
    requires FlashOk(size, f)
    ensures FlashOk(size, r) && BufferEmpty(size, r)
    ensures r.cells == f.cells && r.misuse == f.misuse && r.erased == f.erased
  {
    f.(buffer := Blank(size), filled := {})
  }

  // ---- Arithmetic of pages ----------------------------------------------------

  lemma DivMod(q: int, size: nat, k: nat)
    requires k < size
    ensures (q * size + k) / size == q && (q * size + k) % size == k
  {
    var x := q * size + k;
    var d := x / size - q;
    assert x == (x / size) * size + x % size;
    assert d * size == k - x % size;
    assert d >= 1 ==> d * size >= size;
    assert d <= -1 ==> d * size <= -1 * size;
  }

  lemma PageFacts(size: nat, p: nat, k: nat)
    requires 0 < size && Aligned(size, p) && k < size
    ensures (p + k) % size == k && PageOf(size, p + k) == p && Aligned(size, p + size)
  {
    var q := p / size;
    DivMod(q, size, k);
    DivMod(q + 1, size, 0);
    assert p == q * size;
  }

  lemma AlignedNext(size: nat, p: nat)
    requires 0 < size && Aligned(size, p)
    ensures Aligned(size, p + size)
  {
    PageFacts(size, p, 0);
  }

  lemma NextPageFits(size: nat, p: nat, n: nat)
    requires 0 < size && Aligned(size, p) && Aligned(size, n) && p < n
    ensures p + size <= n
  {
    var a, b := p / size, n / size;
    assert p == a * size && n == b * size;
    assert b <= a ==> b * size <= a * size;
    assert (a + 1) * size <= b * size;
  }

  /** The page after `p` is a whole page of the array as soon as one byte of it is. */
  lemma FollowingPage(size: nat, p: nat, n: nat)
    requires 0 < size && Aligned(size, p) && Aligned(size, n) && p + size < n
    ensures Aligned(size, p + size) && p + size + size <= n
  {
    PageFacts(size, p, 0);
    NextPageFits(size, p + size, n);
  }

  /** Writing an erased page stores the buffer as it is. */
  lemma BlankAnd(buffer: seq<byte>)
    ensures AndPage(Blank(|buffer|), buffer) == buffer
  {
    forall i | 0 <= i < |buffer| ensures And(BLANK, buffer[i]) == buffer[i] { AndBlank(buffer[i]); }
  }
}
