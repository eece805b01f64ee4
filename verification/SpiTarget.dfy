/** The chip at the other end of the in-system programmer: a device that takes SPI bytes in frames of
    four and answers while the next byte comes in. */
module SpiTarget {
  import opened Usb
  import opened AvrFlash

  const LOAD_LOW: byte := 0x40
  const LOAD_HIGH: byte := 0x48
  const WRITE_PAGE: byte := 0x4C
  const LOAD_EXTENDED: byte := 0x4D
  const READ_LOW: byte := 0x20
  const READ_HIGH: byte := 0x28
  const WRITE_EEPROM: byte := 0xC0
  const READ_EEPROM: byte := 0xA0

  /** Program memory (low byte of a word first), its page buffer, the EEPROM, the extended address byte, the
      bytes of the frame being received, and everything received so far.  `others` are the answers
      to all instructions but a memory read: busy flags, fuses, echoes. */
  datatype Target = Target(cells: seq<byte>, buffer: seq<byte>, eeprom: seq<byte>, extended: byte, frame: seq<byte>,
                           others: seq<byte>, wire: seq<byte>)

  function FrameWord(f: seq<byte>): uint16
    requires |f| >= 3
  {
    Word(f[2], f[1])
  }

  /** The byte address that a frame selects. */
  function FrameByte(t: Target, f: seq<byte>, high: bool): nat
    requires |f| >= 3
  {
    2 * (65536 * t.extended + FrameWord(f)) + if high then 1 else 0
  }

  /** What a complete frame does. */
  function Execute(size: nat, t: Target, f: seq<byte>): (r: Target)
    requires 0 < size == |t.buffer| && |f| == 4
    ensures |r.buffer| == size && |r.cells| == |t.cells| && r.wire == t.wire && r.frame == t.frame
  {
    if f[0] == LOAD_LOW || f[0] == LOAD_HIGH then
      t.(buffer := t.buffer[(2 * FrameWord(f) + if f[0] == LOAD_HIGH then 1 else 0) % size := f[3]])
    else if f[0] == WRITE_PAGE then
      var p := PageOf(size, FrameByte(t, f, false));
      if p + size <= |t.cells|
      then t.(cells := Splice(t.cells, p, AndPage(t.cells[p..p + size], t.buffer)), buffer := Blank(size))
      else t.(buffer := Blank(size))
    else if f[0] == LOAD_EXTENDED then t.(extended := f[2])
    else if f[0] == WRITE_EEPROM then t.(eeprom := PokeCell(t.eeprom, FrameWord(f), f[3]))
    else t
  }

  predicate Reads(instruction: byte) {
    instruction == READ_LOW || instruction == READ_HIGH || instruction == READ_EEPROM
  }

  /** What a complete read frame answers. */
  function ReadOut(t: Target, f: seq<byte>): byte
    requires |f| >= 3
  {
    if f[0] == READ_EEPROM then ReadCell(t.eeprom, FrameWord(f))
    else ReadCell(t.cells, FrameByte(t, f, f[0] == READ_HIGH))
  }

  function NextOther(t: Target): byte { if t.others == [] then 0 else t.others[0] }

  /** One byte each way: the answer, and the target after it. */
  function Transfer(size: nat, t: Target, v: byte): (r: (byte, Target))
    requires 0 < size == |t.buffer| && |t.frame| < 4
    ensures |r.1.buffer| == size && |r.1.cells| == |t.cells| && |r.1.frame| < 4
    ensures r.1.wire == t.wire + [v]
  {
    var f := t.frame + [v];
    var read := |t.frame| == 3 && Reads(f[0]);
    var answer := if read then ReadOut(t, f) else NextOther(t);
    var t1 := t.(wire := t.wire + [v], others := if read || t.others == [] then t.others else t.others[1..]);
    (answer, if |f| == 4 then Execute(size, t1, f).(frame := []) else t1.(frame := f))
  }

  ghost predicate TargetOk(size: nat, t: Target) { 0 < size == |t.buffer| && |t.frame| < 4 }

  /** Four bytes; the answer to the last one. */
  function Frame(size: nat, t: Target, a: byte, b: byte, c: byte, d: byte): (r: (byte, Target))
    requires TargetOk(size, t)
    ensures TargetOk(size, r.1) && |r.1.cells| == |t.cells| && r.1.wire == t.wire + [a, b, c, d]
  {
    var t1 := Transfer(size, t, a).1;
    var t2 := Transfer(size, t1, b).1;
    var t3 := Transfer(size, t2, c).1;
    Transfer(size, t3, d)
  }

  /** The first three bytes of a frame only collect. */
  lemma FrameCollects(size: nat, t: Target, v: byte)
    requires TargetOk(size, t) && |t.frame| < 3
    ensures var t1 := Transfer(size, t, v).1;
      t1 == t.(frame := t.frame + [v], wire := t1.wire, others := t1.others)
  {
    hide Execute, ReadCell, FrameByte;
  }

  lemma FrameEnds(size: nat, t: Target, f: seq<byte>)
    requires TargetOk(size, t) && |f| == 4 && t.frame == f[..3]
    ensures var (answer, r) := Transfer(size, t, f[3]);
      && r == Execute(size, t, f).(frame := [], wire := r.wire, others := r.others)
      && (Reads(f[0]) ==> answer == ReadOut(t, f))
  {
    hide ReadCell, PokeCell, AndPage, Splice, Blank, PageOf;
    assert t.frame + [f[3]] == f;
  }

  /** On a frame boundary the four bytes are one instruction. */
  lemma FrameExecutes(size: nat, t: Target, a: byte, b: byte, c: byte, d: byte)
    requires TargetOk(size, t) && t.frame == []
    ensures var (answer, r) := Frame(size, t, a, b, c, d);
      && r == Execute(size, t, [a, b, c, d]).(frame := [], wire := r.wire, others := r.others)
      && (Reads(a) ==> answer == ReadOut(t, [a, b, c, d]))
  {
    hide ReadCell, PokeCell, AndPage, Splice, Blank, PageOf, FrameWord, Transfer;
    FrameCollects(size, t, a);
    var t1 := Transfer(size, t, a).1;
    FrameCollects(size, t1, b);
    var t2 := Transfer(size, t1, b).1;
    FrameCollects(size, t2, c);
    var t3 := Transfer(size, t2, c).1;
    assert t3.frame == [a, b, c, d][..3];
    FrameEnds(size, t3, [a, b, c, d]);
  }
}
