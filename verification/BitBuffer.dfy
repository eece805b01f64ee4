/** The circular bit buffer of the magnetic stripe reader: bits packed into bytes, a byte pointer and
    a one-bit mask for either end. */
module BitBuffer {
  import opened Usb

  type bits = bv8

  /** The mask of bit `k` of a byte. */
  function Mask(k: nat): bits
    requires k < 8
  {
    match k
    case 0 => 0x01
    case 1 => 0x02
    case 2 => 0x04
    case 3 => 0x08
    case 4 => 0x10
    case 5 => 0x20
    case 6 => 0x40
    case 7 => 0x80
  }

  predicate IsSet(b: bits, k: nat)
    requires k < 8
  {
    b & Mask(k) != 0
  }

  /** Bit `i` of a packed array. */
  predicate BitAt(data: seq<bits>, i: nat)
    requires i < 8 * |data|
  {
    IsSet(data[i / 8], i % 8)
  }

  lemma XorMasked(a: bits, b: bits, m: bits)
    ensures (a ^ b) & m != 0 <==> a & m != b & m
  {}

  lemma CutMasked(a: bits, b: bits, m: bits)
    ensures b & m == 0 ==> (a & !b) & m == a & m
    ensures (a & !m) & m == 0
  {}

  lemma MasksApart(j: nat, k: nat)
    requires j < 8 && k < 8
    ensures Mask(j) & Mask(k) != 0 <==> j == k
  {}

  lemma MaskSet(b: bits, j: nat, k: nat)
    requires j < 8 && k < 8
    ensures IsSet(b | Mask(j), k) <==> j == k || IsSet(b, k)
  {
    MasksApart(j, k);
    var m, n := Mask(j), Mask(k);
    assert (b | m) & n == (b & n) | (m & n);
  }

  lemma MaskCleared(b: bits, j: nat, k: nat)
    requires j < 8 && k < 8
    ensures IsSet(b & !Mask(j), k) <==> j != k && IsSet(b, k)
  {
    hide Mask;
    CutMasked(b, Mask(j), Mask(k));
    MasksApart(j, k);
  }

  /** Bit `i` set, as a store does for a bit that is 1, and cleared, as a fetch does. */
  function WithBit(data: seq<bits>, i: nat, bit: bool): (r: seq<bits>)
    requires i < 8 * |data|
    ensures |r| == |data|
  {
    if bit then data[i / 8 := data[i / 8] | Mask(i % 8)] else data
  }

  function WithoutBit(data: seq<bits>, i: nat): (r: seq<bits>)
    requires i < 8 * |data|
    ensures |r| == |data|
  {
    data[i / 8 := data[i / 8] & !Mask(i % 8)]
  }

  /** Both change no other bit of the array. */
  lemma SetOne(data: seq<bits>, i: nat, bit: bool, j: nat)
    requires i < 8 * |data| && j < 8 * |data|
    ensures BitAt(WithBit(data, i, bit), j) <==> (bit && i == j) || BitAt(data, j)
  {
    if i / 8 == j / 8 { MaskSet(data[i / 8], i % 8, j % 8); }
  }

  lemma ClearOne(data: seq<bits>, i: nat, j: nat)
    requires i < 8 * |data| && j < 8 * |data|
    ensures BitAt(WithoutBit(data, i), j) <==> i != j && BitAt(data, j)
  {
    if i / 8 == j / 8 { MaskCleared(data[i / 8], i % 8, j % 8); }
  }

  // ---- The window of live bits -------------------------------------------------------

  /** The position `k` bits behind `start` in a ring of `size`. */
  function Around(size: nat, start: nat, k: nat): nat { if start + k < size then start + k else start + k - size }

  /** `start` lies in the ring, the `|live|` bits from there are `live`, all the others are 0. */
  ghost predicate Holds(data: seq<bits>, start: nat, live: seq<bool>) {
    var size := 8 * |data|;
    && start < size && |live| <= size
    && forall k :: 0 <= k < size ==> (BitAt(data, Around(size, start, k)) <==> k < |live| && live[k])
  }

  /** Storing only ever sets a bit; it is right because the bit behind the window is 0. */
  lemma HoldsStored(data: seq<bits>, start: nat, live: seq<bool>, bit: bool)
    requires Holds(data, start, live) && |live| < 8 * |data|
    ensures Holds(WithBit(data, Around(8 * |data|, start, |live|), bit), start, live + [bit])
  {
    hide BitAt, WithBit;
    var size := 8 * |data|;
    var i := Around(size, start, |live|);
    forall k | 0 <= k < size
      ensures BitAt(WithBit(data, i, bit), Around(size, start, k)) <==> k < |live| + 1 && (live + [bit])[k]
    {
      SetOne(data, i, bit, Around(size, start, k));
    }
  }

  lemma HoldsFetched(data: seq<bits>, start: nat, live: seq<bool>)
    requires Holds(data, start, live) && live != []
    ensures BitAt(data, start) == live[0]
    ensures Holds(WithoutBit(data, start), Around(8 * |data|, start, 1), live[1..])
  {
    hide BitAt, WithoutBit;
    var size := 8 * |data|;
    assert Around(size, start, 0) == start;
    forall k | 0 <= k < size
      ensures BitAt(WithoutBit(data, start), Around(size, Around(size, start, 1), k))
         <==> k < |live| - 1 && live[1..][k]
    {
      var k' := if k + 1 == size then 0 else k + 1;
      assert Around(size, Around(size, start, 1), k) == Around(size, start, k');
      ClearOne(data, start, Around(size, start, k'));
    }
  }

  /** A fetch from an empty window finds a 0 and leaves it empty. */
  lemma NothingFetched(data: seq<bits>, start: nat)
    requires Holds(data, start, [])
    ensures !BitAt(data, start) && Holds(WithoutBit(data, start), Around(8 * |data|, start, 1), [])
  {
    hide BitAt, WithoutBit;
    var size := 8 * |data|;
    assert Around(size, start, 0) == start;
    forall k | 0 <= k < size ensures !BitAt(WithoutBit(data, start), Around(size, Around(size, start, 1), k)) {
      var k' := if k + 1 == size then 0 else k + 1;
      assert Around(size, Around(size, start, 1), k) == Around(size, start, k');
      ClearOne(data, start, Around(size, start, k'));
    }
  }

  /** A store into a full ring lands on the oldest bit, which takes both. */
  lemma FullStore(data: seq<bits>, start: nat, live: seq<bool>, bit: bool)
    requires Holds(data, start, live) && |live| == 8 * |data|
    ensures Holds(WithBit(data, Around(8 * |data|, start, |live|), bit), start, [live[0] || bit] + live[1..])
  {
    hide BitAt, WithBit;
    var size := 8 * |data|;
    var both := [live[0] || bit] + live[1..];
    forall k | 0 <= k < size
      ensures BitAt(WithBit(data, start, bit), Around(size, start, k)) <==> k < |both| && both[k]
    {
      SetOne(data, start, bit, Around(size, start, k));
    }
  }

  /** Whatever the ring holds is some full window. */
  function Window(data: seq<bits>, start: nat): (live: seq<bool>)
    requires start < 8 * |data|
    ensures |live| == 8 * |data|
  {
    seq(8 * |data|, k requires 0 <= k < 8 * |data| => BitAt(data, Around(8 * |data|, start, k)))
  }

  lemma HoldsWindow(data: seq<bits>, start: nat)
    requires start < 8 * |data|
    ensures Holds(data, start, Window(data, start))
  {
    hide BitAt;
  }

  lemma ZeroHoldsNothing(data: seq<bits>)
    requires data != [] && forall i :: 0 <= i < |data| ==> data[i] == 0
    ensures Holds(data, 0, [])
  {
    forall k | 0 <= k < 8 * |data| ensures !BitAt(data, Around(8 * |data|, 0, k)) {}
  }

  // ---- The buffer as a value ---------------------------------------------------------------

  /** The packed bits, the positions of the two pointers, and the 16-bit element count. */
  datatype Ring = Ring(data: seq<bits>, inAt: nat, outAt: nat, elements: uint16)

  function Capacity(r: Ring): nat { 8 * |r.data| }

  ghost predicate RingOk(r: Ring) { Capacity(r) < 65536 && r.inAt < Capacity(r) && r.outAt < Capacity(r) }

  function NextBit(size: nat, p: nat): nat { if p + 1 == size then 0 else p + 1 }

  function Put(r: Ring, bit: bool): (r': Ring)
    requires RingOk(r)
    ensures RingOk(r') && Capacity(r') == Capacity(r) && r'.outAt == r.outAt
  {
    Ring(WithBit(r.data, r.inAt, bit), NextBit(Capacity(r), r.inAt), r.outAt, (r.elements + 1) % 65536)
  }

  function Take(r: Ring): (p: (bool, Ring))
    requires RingOk(r)
    ensures RingOk(p.1) && Capacity(p.1) == Capacity(r)
  {
    (BitAt(r.data, r.outAt),
     Ring(WithoutBit(r.data, r.outAt), r.inAt, NextBit(Capacity(r), r.outAt), (r.elements - 1) % 65536))
  }

  /** The ring holds the bits `live`, oldest first. */
  ghost predicate Held(r: Ring, live: seq<bool>) {
    && RingOk(r) && |live| <= Capacity(r)
    && r.inAt == Around(Capacity(r), r.outAt, |live|) && Holds(r.data, r.outAt, live)
  }

  ghost predicate Fifo(r: Ring, live: seq<bool>) { Held(r, live) && r.elements == |live| }

  lemma PutHeld(r: Ring, live: seq<bool>, bit: bool)
    requires Held(r, live) && |live| < Capacity(r)
    ensures Held(Put(r, bit), live + [bit])
  {
    hide Holds, WithBit;
    HoldsStored(r.data, r.outAt, live, bit);
  }

  lemma TakeHeld(r: Ring, live: seq<bool>)
    requires Held(r, live) && live != []
    ensures Take(r).0 == live[0] && Held(Take(r).1, live[1..])
  {
    hide Holds, WithoutBit, BitAt;
    HoldsFetched(r.data, r.outAt, live);
  }

  // ---- Every run within the capacity is a run of a queue --------------------------------------

  datatype Op = Store(bit: bool) | Fetch

  /** The buffer after a run, and what its fetches return. */
  function RunRing(r: Ring, ops: seq<Op>): (p: (Ring, seq<bool>))
    requires RingOk(r)
    ensures RingOk(p.0)
    decreases |ops|
  {
    if ops == [] then (r, [])
    else if ops[0].Store? then RunRing(Put(r, ops[0].bit), ops[1..])
    else
      var (bit, r1) := Take(r);
      var (r2, bits) := RunRing(r1, ops[1..]);
      (r2, [bit] + bits)
  }

  /** The same for a queue. */
  function RunQueue(live: seq<bool>, ops: seq<Op>): (seq<bool>, seq<bool>)
    decreases |ops|
  {
    if ops == [] then (live, [])
    else if ops[0].Store? then RunQueue(live + [ops[0].bit], ops[1..])
    else if live == [] then (live, [])
    else
      var (live', bits) := RunQueue(live[1..], ops[1..]);
      (live', [live[0]] + bits)
  }

  /** No store finds the queue full, no fetch finds it empty. */
  predicate WithinCapacity(size: nat, live: seq<bool>, ops: seq<Op>)
    decreases |ops|
  {
    if ops == [] then true
    else if ops[0].Store? then |live| < size && WithinCapacity(size, live + [ops[0].bit], ops[1..])
    else live != [] && WithinCapacity(size, live[1..], ops[1..])
  }

  /** In every such run the fetches return what those of a queue return. */
  lemma {:induction false} RefinesQueue(r: Ring, live: seq<bool>, ops: seq<Op>)
    requires Fifo(r, live) && WithinCapacity(Capacity(r), live, ops)
    ensures var (r', bits) := RunRing(r, ops); var (live', expected) := RunQueue(live, ops);
      bits == expected && Fifo(r', live')
    decreases |ops|
  {
    hide Held, Put, Take;
    if ops != [] {
      CountsOnce(r, live);
      if ops[0].Store? {
        PutHeld(r, live, ops[0].bit);
        RefinesQueue(Put(r, ops[0].bit), live + [ops[0].bit], ops[1..]);
      } else {
        TakeHeld(r, live);
        RefinesQueue(Take(r).1, live[1..], ops[1..]);
      }
    }
  }

  lemma CountsOnce(r: Ring, live: seq<bool>)
    requires Fifo(r, live)
    ensures RingOk(r) && |live| <= Capacity(r)
    ensures |live| < Capacity(r) ==> forall bit :: Put(r, bit).elements == |live| + 1
    ensures live != [] ==> Take(r).1.elements == |live| - 1
  {}

  // ---- More stores than the buffer has bits -------------------------------------------------------

  function PutAll(r: Ring, bs: seq<bool>): (r': Ring)
    requires RingOk(r)
    ensures RingOk(r') && Capacity(r') == Capacity(r) && r'.outAt == r.outAt
    decreases |bs|
  {
    if bs == [] then r else PutAll(Put(r, bs[0]), bs[1..])
  }

  /** What the next `n` fetches return. */
  function TakeAll(r: Ring, n: nat): (bs: seq<bool>)
    requires RingOk(r)
    ensures |bs| == n
    decreases n
  {
    if n == 0 then []
    else
      var (bit, r') := Take(r);
      [bit] + TakeAll(r', n - 1)
  }

  lemma {:induction false} PutAllSplit(r: Ring, a: seq<bool>, b: seq<bool>)
    requires RingOk(r)
    ensures PutAll(r, a + b) == PutAll(PutAll(r, a), b)
    decreases |a|
  {
    if a == [] {
      assert a + b == b;
    } else {
      assert (a + b)[1..] == a[1..] + b;
      PutAllSplit(Put(r, a[0]), a[1..], b);
    }
  }

  lemma {:induction false} PutAllCounts(r: Ring, bs: seq<bool>)
    requires RingOk(r)
    ensures PutAll(r, bs).elements == (r.elements + |bs|) % 65536
    decreases |bs|
  {
    if bs != [] { PutAllCounts(Put(r, bs[0]), bs[1..]); }
  }

  lemma {:induction false} PutAllHeld(r: Ring, live: seq<bool>, bs: seq<bool>)
    requires Held(r, live) && |live| + |bs| <= Capacity(r)
    ensures Held(PutAll(r, bs), live + bs)
    decreases |bs|
  {
    hide Held, Put;
    if bs == [] {
      assert live + bs == live;
    } else {
      HeldOk(r, live);
      PutHeld(r, live, bs[0]);
      PutAllHeld(Put(r, bs[0]), live + [bs[0]], bs[1..]);
      assert live + [bs[0]] + bs[1..] == live + bs;
    }
  }

  lemma HeldOk(r: Ring, live: seq<bool>)
    requires Held(r, live)
    ensures RingOk(r) && |live| <= Capacity(r) && Holds(r.data, r.outAt, live)
  {}

  /** Storing zeros changes no bit, wherever the pointer is. */
  lemma {:induction false} PutZeros(r: Ring, bs: seq<bool>)
    requires RingOk(r) && forall k :: 0 <= k < |bs| ==> !bs[k]
    ensures PutAll(r, bs).data == r.data
    decreases |bs|
  {
    if bs != [] { PutZeros(Put(r, bs[0]), bs[1..]); }
  }

  /** Fetches return the window, and then zeros for ever. */
  lemma {:induction false} TakeAllHeld(r: Ring, live: seq<bool>, n: nat)
    requires RingOk(r) && Holds(r.data, r.outAt, live)
    ensures forall k :: 0 <= k < n ==> (TakeAll(r, n)[k] <==> k < |live| && live[k])
    decreases n
  {
    hide Holds, WithoutBit, BitAt;
    if n > 0 {
      var r1 := Take(r).1;
      if live == [] {
        NothingFetched(r.data, r.outAt);
        TakeAllHeld(r1, [], n - 1);
      } else {
        HoldsFetched(r.data, r.outAt, live);
        TakeAllHeld(r1, live[1..], n - 1);
      }
      assert TakeAll(r, n)[1..] == TakeAll(r1, n - 1);
      forall k | 0 <= k < n ensures TakeAll(r, n)[k] <==> k < |live| && live[k] {
        if k > 0 { assert TakeAll(r, n)[k] == TakeAll(r1, n - 1)[k - 1]; }
      }
    }
  }

  /** Whatever was stored, the fetch `k` of a drain returns 0 from the capacity on. */
  lemma DrainEnds(r: Ring, n: nat, k: nat)
    requires RingOk(r) && Capacity(r) <= k < n
    ensures !TakeAll(r, n)[k]
  {
    HoldsWindow(r.data, r.outAt);
    hide Holds;
    TakeAllHeld(r, Window(r.data, r.outAt), n);
  }

  /** A buffer is filled with any number of bits and drained again: every fetch is right if and only if all
      bits stored beyond its capacity are 0. */
  lemma OverflowIff(r: Ring, live: seq<bool>, bs: seq<bool>)
    requires Held(r, live)
    ensures var all := live + bs;
      TakeAll(PutAll(r, bs), |all|) == all <==> forall k :: Capacity(r) <= k < |all| ==> !all[k]
  {
    hide Held, Holds, TakeAll, PutAll;
    HeldOk(r, live);
    var all, size := live + bs, Capacity(r);
    var r' := PutAll(r, bs);
    if forall k :: size <= k < |all| ==> !all[k] {
      StoredZeros(r, live, bs);
      TakeAllHeld(r', all[..Min(size, |all|)], |all|);
    } else {
      var k :| size <= k < |all| && all[k];
      DrainEnds(r', |all|, k);
    }
  }

  lemma StoredZeros(r: Ring, live: seq<bool>, bs: seq<bool>)
    requires Held(r, live) && forall k :: Capacity(r) <= k < |live + bs| ==> !(live + bs)[k]
    ensures Holds(PutAll(r, bs).data, r.outAt, (live + bs)[..Min(Capacity(r), |live + bs|)])
  {
    hide Held, Holds, PutAll;
    HeldOk(r, live);
    var n := Min(Capacity(r), |live + bs|) - |live|;
    var first, rest := bs[..n], bs[n..];
    assert bs == first + rest && live + first == (live + bs)[..|live| + n];
    PutAllSplit(r, first, rest);
    PutAllHeld(r, live, first);
    HeldOk(PutAll(r, first), live + first);
    forall k | 0 <= k < |rest| ensures !rest[k] { assert rest[k] == (live + bs)[|live| + n + k]; }
    PutZeros(PutAll(r, first), rest);
  }

  // ---- The bit pointers ------------------------------------------------------------------

  lemma MaskEnds(k: nat)
    requires k < 8
    ensures Mask(k) == 0x80 <==> k == 7
    ensures k < 7 ==> Mask(k) << 1 == Mask(k + 1)
    ensures Mask(0) == 0x01
  {}

  /** A position as byte and bit. */
  lemma Split(byteIndex: nat, bit: nat)
    requires bit < 8
    ensures (8 * byteIndex + bit) / 8 == byteIndex && (8 * byteIndex + bit) % 8 == bit
  {}

  // ---- The buffer ------------------------------------------------------------------------

  class Buffer {
    const Data: array<bits>
    var Elements: uint16
    var InByte: nat
    var InMask: bits
    var OutByte: nat
    var OutMask: bits

    /** The bits selected by the two masks. */
    ghost var inBit: nat
    ghost var outBit: nat

    ghost predicate Valid()
      reads this
    {
      && 0 < 8 * Data.Length < 65536 && InByte < Data.Length && OutByte < Data.Length
      && inBit < 8 && InMask == Mask(inBit)
      && outBit < 8 && OutMask == Mask(outBit)
    }

    ghost function View(): (r: Ring)
      requires Valid()
      reads this, Data
      ensures RingOk(r) && Capacity(r) == 8 * Data.Length && r.elements == Elements
    {
      Ring(Data[..], 8 * InByte + inBit, 8 * OutByte + outBit, Elements)
    }

    /** A buffer in zeroed memory, after BitBuffer_Init. */
    constructor (bytes: nat)
      requires 0 < 8 * bytes < 65536
      ensures Valid() && fresh(Data) && Data.Length == bytes && Fifo(View(), [])
    {
      Data := new bits[bytes](_ => 0);
      Elements, InByte, InMask, OutByte, OutMask := 0, 0, 0x01, 0, 0x01;
      inBit, outBit := 0, 0;
      new;
      hide Holds;
      ZeroHoldsNothing(Data[..]);
    }

    /** The In pointer moves to the next bit, from the last one back to the first. */
    method AdvanceIn()
      requires InByte < Data.Length && inBit < 8 && InMask == Mask(inBit)
      modifies this`InByte, this`InMask, this`inBit
      ensures InByte < Data.Length && inBit < 8 && InMask == Mask(inBit)
      ensures 8 * InByte + inBit == NextBit(8 * Data.Length, 8 * old(InByte) + old(inBit))
    {
      hide Mask;
      MaskEnds(inBit);
      MaskEnds(0);
      if InMask == 0x80 {
        if InByte != Data.Length - 1 { InByte := InByte + 1; } else { InByte := 0; }
        InMask := 0x01;
        inBit := 0;
      } else {
        InMask := InMask << 1;
        inBit := inBit + 1;
      }
    }

    method AdvanceOut()
      requires OutByte < Data.Length && outBit < 8 && OutMask == Mask(outBit)
      modifies this`OutByte, this`OutMask, this`outBit
      ensures OutByte < Data.Length && outBit < 8 && OutMask == Mask(outBit)
      ensures 8 * OutByte + outBit == NextBit(8 * Data.Length, 8 * old(OutByte) + old(outBit))
    {
      hide Mask;
      MaskEnds(outBit);
      MaskEnds(0);
      if OutMask == 0x80 {
        if OutByte != Data.Length - 1 { OutByte := OutByte + 1; } else { OutByte := 0; }
        OutMask := 0x01;
        outBit := 0;
      } else {
        OutMask := OutMask << 1;
        outBit := outBit + 1;
      }
    }

    method RaiseBit()
      requires InByte < Data.Length && inBit < 8 && InMask == Mask(inBit)
      modifies Data
      ensures Data[..] == WithBit(old(Data[..]), 8 * InByte + inBit, true)
    {
      hide Mask;
      Split(InByte, inBit);
      Data[InByte] := Data[InByte] | InMask;
    }

    /** Read the bit at the Out pointer and clear it. */
    method TakeBit() returns (bit: bool)
      requires OutByte < Data.Length && outBit < 8 && OutMask == Mask(outBit)
      modifies Data
      ensures bit == BitAt(old(Data[..]), 8 * OutByte + outBit)
      ensures Data[..] == WithoutBit(old(Data[..]), 8 * OutByte + outBit)
    {
      hide Mask;
      Split(OutByte, outBit);
      bit := Data[OutByte] & OutMask != 0;
      Data[OutByte] := Data[OutByte] & !OutMask;
    }

    /** BitBuffer_StoreNextBit; nothing keeps the caller from storing into a full buffer. */
    method StoreNextBit(bit: bool)
      requires Valid()
      modifies this, Data
      ensures Valid() && View() == Put(old(View()), bit)
    {
      hide Mask;
      if bit { RaiseBit(); }
      Elements := (Elements + 1) % 65536;
      AdvanceIn();
    }

    /** BitBuffer_GetNextBit; nothing keeps the caller from reading an empty buffer. */
    method GetNextBit() returns (bit: bool)
      requires Valid()
      modifies this, Data
      ensures Valid() && (bit, View()) == Take(old(View()))
    {
      hide Mask, WithoutBit, BitAt;
      bit := TakeBit();
      Elements := (Elements - 1) % 65536;
      AdvanceOut();
    }
  }
}
