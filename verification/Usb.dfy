/** USB endpoints as the firmware sees them: a current bank plus the packets
    queued behind it.  A wait for a packet that the host never sends ends only
    when the cable is pulled, so "no packet left" is how a detach shows up. */
module Usb {

  type byte = x: int | 0 <= x < 256
  type uint16 = x: int | 0 <= x < 65536

  type uint32 = x: int | 0 <= x < 0x1_0000_0000

  function Low(w: uint16): byte { w % 256 }

  function High(w: uint16): byte { w / 256 }

  function Word(lo: byte, hi: byte): uint16 { lo + 256 * hi }

  predicate Even(n: int) { n % 2 == 0 }

  function Min(a: int, b: int): int { if a <= b then a else b }

  /** All bytes of a list of packets, in order. */
  function Flatten(packets: seq<seq<byte>>): seq<byte> {
    if packets == [] then [] else packets[0] + Flatten(packets[1..])
  }

  lemma {:induction false} FlattenConcat(ps: seq<seq<byte>>, qs: seq<seq<byte>>)
    ensures Flatten(ps + qs) == Flatten(ps) + Flatten(qs)
  {
    if ps == [] {
      assert ps + qs == qs;
    } else {
      assert (ps + qs)[1..] == ps[1..] + qs;
      FlattenConcat(ps[1..], qs);
    }
  }

  /** Splitting a sequence behind a known head. */
  lemma SplitBehind(s: seq<byte>, head: seq<byte>, tail: seq<byte>, m: nat)
    requires s == head + tail && m <= |tail|
    ensures s[..|head| + m] == head + tail[..m] && s[|head| + m..] == tail[m..]
  {}

  lemma FlattenOne(p: seq<byte>)
    ensures Flatten([p]) == p
  {
    assert [p][1..] == [];
  }

  // ---- OUT endpoint (host to device) ---------------------------------------

  datatype OutPipe = OutPipe(bank: seq<byte>, pending: seq<seq<byte>>)

  /** The bytes the firmware has not read yet. */
  function Stream(p: OutPipe): seq<byte> { p.bank + Flatten(p.pending) }

  /** Endpoint_ClearOUT, then the next packet becomes the bank. */
  function NextPacket(p: OutPipe): (q: OutPipe)
    requires p.pending != []
  {
    OutPipe(p.pending[0], p.pending[1..])
  }

  /** The byte at the front of the bank; an empty bank reads as 0. */
  function Peek(p: OutPipe): byte { if p.bank == [] then 0 else p.bank[0] }

  function Drop(p: OutPipe): OutPipe { if p.bank == [] then p else p.(bank := p.bank[1..]) }

  lemma StreamDrop(p: OutPipe)
    requires p.bank != []
    ensures Stream(p) == [Peek(p)] + Stream(Drop(p))
  {
    assert p.bank == [p.bank[0]] + p.bank[1..];
  }

  lemma StreamNext(p: OutPipe)
    requires p.bank == [] && p.pending != []
    ensures Stream(NextPacket(p)) == Stream(p)
  {}

  // ---- IN endpoint (device to host) ----------------------------------------

  datatype InPipe = InPipe(bank: seq<byte>, sent: seq<seq<byte>>)

  /** Endpoint_ClearIN: the bank leaves as one packet. */
  function Send(t: InPipe): InPipe { InPipe([], t.sent + [t.bank]) }

  /** Send the bank first when it already holds a full packet. */
  function Room(size: nat, t: InPipe): InPipe { if |t.bank| >= size then Send(t) else t }

  /** `t1` is what is left of `t0` after writing `bytes`, every packet sent on the way being full. */
  ghost predicate Wrote(size: nat, t0: InPipe, t1: InPipe, bytes: seq<byte>) {
    && |t0.sent| <= |t1.sent|
    && t1.sent[..|t0.sent|] == t0.sent
    && Flatten(t1.sent[|t0.sent|..]) + t1.bank == t0.bank + bytes
    && (forall i :: |t0.sent| <= i < |t1.sent| ==> |t1.sent[i]| == size)
    && |t1.bank| <= size
  }

  /** `packets` carry `bytes`, every packet but the last being full. */
  ghost predicate Chunked(size: nat, packets: seq<seq<byte>>, bytes: seq<byte>) {
    && packets != []
    && Flatten(packets) == bytes
    && (forall i :: 0 <= i < |packets| - 1 ==> |packets[i]| == size)
    && |packets[|packets| - 1]| <= size
  }

  lemma WroteNothing(size: nat, t: InPipe)
    requires |t.bank| <= size
    ensures Wrote(size, t, t, [])
  {
    assert t.sent[|t.sent|..] == [];
  }

  /** Writing more bytes after making room extends what was written. */
  lemma WroteMore(size: nat, t0: InPipe, t1: InPipe, bytes: seq<byte>, more: seq<byte>)
    requires Wrote(size, t0, t1, bytes)
    requires |Room(size, t1).bank| + |more| <= size
    ensures var t2 := Room(size, t1); Wrote(size, t0, t2.(bank := t2.bank + more), bytes + more)
  {
    var n := |t0.sent|;
    var t2 := Room(size, t1);
    if |t1.bank| >= size {
      assert t2.sent[n..] == t1.sent[n..] + [t1.bank];
      FlattenConcat(t1.sent[n..], [t1.bank]);
      FlattenOne(t1.bank);
    }
    assert Flatten(t2.sent[n..]) + t2.bank == t0.bank + bytes;
    assert Flatten(t2.sent[n..]) + (t2.bank + more) == (Flatten(t2.sent[n..]) + t2.bank) + more;
  }

  /** Between `t0` and `t1` the host was sent `bytes`, in full packets but for the last one. */
  ghost predicate Delivered(size: nat, t0: InPipe, t1: InPipe, bytes: seq<byte>) {
    && t1.bank == []
    && |t0.sent| <= |t1.sent|
    && t1.sent[..|t0.sent|] == t0.sent
    && Chunked(size, t1.sent[|t0.sent|..], bytes)
  }

  /** The packets that leave once the last bank has been sent. */
  lemma WroteThenSent(size: nat, t0: InPipe, t1: InPipe, bytes: seq<byte>)
    requires Wrote(size, t0, t1, bytes) && t0.bank == []
    ensures Delivered(size, t0, Send(t1), bytes)
  {
    var n := |t0.sent|;
    assert Send(t1).sent[n..] == t1.sent[n..] + [t1.bank];
    FlattenConcat(t1.sent[n..], [t1.bank]);
    FlattenOne(t1.bank);
    assert Send(t1).sent[..n] == t1.sent[..n];
  }

  // ---- Ending a transfer with a short packet ---------------------------------

  /** `packets` carry `bytes` and end the transfer: all but the last are full, and the last one is
      short or empty, as sections 5.8.3 and 8.5.3.2 of USB 2.0 require. */
  ghost predicate Terminated(size: nat, packets: seq<seq<byte>>, bytes: seq<byte>) {
    && packets != []
    && Flatten(packets) == bytes
    && (forall i :: 0 <= i < |packets| - 1 ==> |packets[i]| == size)
    && |packets[|packets| - 1]| < size
  }

  /** Between `t0` and `t1` the host was sent `bytes` as one terminated transfer. */
  ghost predicate Answered(size: nat, t0: InPipe, t1: InPipe, bytes: seq<byte>) {
    && t1.bank == []
    && |t0.sent| <= |t1.sent|
    && t1.sent[..|t0.sent|] == t0.sent
    && Terminated(size, t1.sent[|t0.sent|..], bytes)
  }

  /** Send the bank, and an empty packet after it when it was full. */
  function SendEnd(size: nat, t: InPipe): InPipe {
    if |t.bank| >= size then Send(Send(t)) else Send(t)
  }

  lemma WroteThenEnded(size: nat, t0: InPipe, t1: InPipe, bytes: seq<byte>)
    requires 0 < size && Wrote(size, t0, t1, bytes) && t0.bank == []
    ensures Answered(size, t0, SendEnd(size, t1), bytes)
  {
    var n := |t0.sent|;
    var t2 := Send(t1);
    WroteThenSent(size, t0, t1, bytes);
    if |t1.bank| >= size {
      assert Send(t2).sent[n..] == t2.sent[n..] + [[]];
      FlattenConcat(t2.sent[n..], [[]]);
      FlattenOne([]);
      assert Send(t2).sent[..n] == t2.sent[..n];
    }
    assert t2.sent[n..][|t2.sent| - n - 1] == t1.bank;
  }
}
