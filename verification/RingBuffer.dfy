/** The drop-oldest ring buffer of the USB to serial bridge. */
module RingBuffer {
  import opened Usb

  const BUFF_LENGTH: nat := 128

  /** The slot `k` places behind `p`. */
  function Slot(p: nat, k: nat): nat { if p + k < BUFF_LENGTH then p + k else p + k - BUFF_LENGTH }

  /** Storing into a full buffer gives up the oldest element. */
  function Stored(contents: seq<byte>, v: byte): (r: seq<byte>)
    ensures |contents| <= BUFF_LENGTH ==> |r| <= BUFF_LENGTH
  {
    if |contents| == BUFF_LENGTH then contents[1..] + [v] else contents + [v]
  }

  class RingBuff {
    const data: array<byte>
    var InPtr: nat
    var OutPtr: nat
    var Elements: nat

    ghost predicate Valid()
      reads this
    {
      && data.Length == BUFF_LENGTH && InPtr < BUFF_LENGTH && OutPtr < BUFF_LENGTH && Elements <= BUFF_LENGTH
      && InPtr == Slot(OutPtr, Elements)
    }

    /** The stored elements, oldest first. */
    ghost function Contents(): (s: seq<byte>)
      requires Valid()
      reads this, data
      ensures |s| == Elements
    {
      seq(Elements, k requires 0 <= k < Elements && Valid() reads this, data => data[Slot(OutPtr, k)])
    }

    constructor Initialize()
      ensures Valid() && fresh(data) && Contents() == []
    {
      data := new byte[BUFF_LENGTH](_ => 0);
      InPtr, OutPtr, Elements := 0, 0, 0;
    }

    method StoreElement(v: byte)
      requires Valid()
      modifies this, data
      ensures Valid() && Contents() == Stored(old(Contents()), v)
    {
      if Elements == BUFF_LENGTH {
        OutPtr := OutPtr + 1;
        if OutPtr == BUFF_LENGTH { OutPtr := 0; }
      } else {
        Elements := Elements + 1;
      }
      data[InPtr] := v;
      InPtr := InPtr + 1;
      if InPtr == BUFF_LENGTH { InPtr := 0; }
    }

    /** The caller does not read an empty buffer. */
    method GetElement() returns (v: byte)
      requires Valid() && Elements != 0
      modifies this
      ensures Valid() && v == old(Contents())[0] && Contents() == old(Contents())[1..]
    {
      v := data[OutPtr];
      OutPtr := OutPtr + 1;
      Elements := Elements - 1;
      if OutPtr == BUFF_LENGTH { OutPtr := 0; }
    }
  }
}
