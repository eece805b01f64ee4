/** The USB to serial bridge: a main loop that can be interrupted between any two of its steps by the
    receive interrupt, which stores into a buffer the loop drains. */
module UsbToSerial {
  import opened Usb
  import opened RingBuffer

  /** Where the main loop is; a test and the operation it guards are separate steps. */
  datatype Place = CountBytes | CopyByte | TestUsart | SendToHost | TestUsb | SendToSerial

  /** `arrived` are the bytes waiting in the OUT endpoint and `remaining` the loop counter.  The last
      five fields record what has happened: the bytes put into the buffer for the serial line and on the
      line, the bytes the interrupt stored, the bytes sent to the host, and the position of each of those
      among the stored ones. */
  datatype Bridge = Bridge(
    place: Place, remaining: nat,
    toSerial: seq<byte>, toHost: seq<byte>,
    arrived: seq<byte>,
    taken: seq<byte>, onSerial: seq<byte>, stored: seq<byte>, onHost: seq<byte>, sent: seq<nat>)

  /** What the CDC class driver finds when it is called: the device state, the baud rate of the line
      encoding, which every SET_CONFIGURATION zeroes, and, for a full IN bank, whether the next one
      becomes ready. */
  datatype Driver = Driver(configured: bool, baudRate: nat, bankFull: bool, becomesReady: bool)

  /** All functions of the driver return at once, reporting success, unless it is open. */
  predicate Open(d: Driver) { d.configured && d.baudRate != 0 }

  /** CDC_Device_SendByte writes its byte; otherwise the byte is gone. */
  predicate Sends(d: Driver) { Open(d) && (d.bankFull ==> d.becomesReady) }

  datatype Step =
    | Arrive(packet: seq<byte>)                      // the host fills the OUT endpoint
    | Interrupt(v: byte, configured: bool)           // USART1_RX_vect
    | Count(n: nat)                                  // CDC_Device_BytesReceived
    | Main(driver: Driver)                           // the next step of the loop

  predicate Enabled(s: Bridge, step: Step) {
    match step
    case Arrive(_) => true
    case Interrupt(_, _) => true
    case Count(n) => s.place == CountBytes && n <= |s.arrived| && n < 256
    case Main(_) => s.place != CountBytes
  }

  /** The position of the oldest byte that waits for the host. */
  function Oldest(s: Bridge): int { |s.stored| - |s.toHost| }

  function MainStep(s: Bridge, d: Driver): Bridge {
    match s.place
    case CountBytes => s
    case CopyByte =>
      if s.remaining == 0 || |s.toSerial| == BUFF_LENGTH then s.(place := TestUsart)
      else if !Open(d) then
        // CDC_Device_ReceiveByte returns 0 and takes nothing
        s.(toSerial := Stored(s.toSerial, 0), taken := s.taken + [0], remaining := s.remaining - 1)
      else if s.arrived == [] then s.(place := TestUsart)
      else s.(toSerial := Stored(s.toSerial, s.arrived[0]), taken := s.taken + [s.arrived[0]],
              arrived := s.arrived[1..], remaining := s.remaining - 1)
    case TestUsart => s.(place := if s.toHost != [] then SendToHost else TestUsb)
    case SendToHost =>
      if s.toHost == [] || Oldest(s) < 0 then s.(place := TestUsb)
      else if !Sends(d) then s.(place := TestUsb, toHost := s.toHost[1..])
      else s.(place := TestUsb, toHost := s.toHost[1..], onHost := s.onHost + [s.toHost[0]],
              sent := s.sent + [Oldest(s)])
    case TestUsb => s.(place := if s.toSerial != [] then SendToSerial else CountBytes)
    case SendToSerial =>
      if s.toSerial == [] then s.(place := CountBytes)
      else s.(place := CountBytes, toSerial := s.toSerial[1..], onSerial := s.onSerial + [s.toSerial[0]])
  }

  function Next(s: Bridge, step: Step): Bridge {
    match step
    case Arrive(packet) => s.(arrived := s.arrived + packet)
    case Interrupt(v, configured) =>
      if configured then s.(toHost := Stored(s.toHost, v), stored := s.stored + [v]) else s
    case Count(n) => s.(place := CopyByte, remaining := n)
    case Main(d) => MainStep(s, d)
  }

  ghost predicate Legal(s: Bridge, steps: seq<Step>)
    decreases |steps|
  {
    steps == [] || (Enabled(s, steps[0]) && Legal(Next(s, steps[0]), steps[1..]))
  }

  function Run(s: Bridge, steps: seq<Step>): Bridge
    decreases |steps|
  {
    if steps == [] then s else Run(Next(s, steps[0]), steps[1..])
  }

  const INITIAL: Bridge := Bridge(CountBytes, 0, [], [], [], [], [], [], [], [])

  // ---- What holds in every run -------------------------------------------------------

  ghost predicate Inv(s: Bridge) {
    // towards the serial line: nothing lost, nothing reordered
    && s.onSerial + s.toSerial == s.taken
    && |s.toSerial| <= BUFF_LENGTH
    && (s.place == CopyByte ==> s.remaining <= |s.arrived|)
    // a buffer found non-empty is still so when it is read
    && (s.place == SendToSerial ==> s.toSerial != [])
    && (s.place == SendToHost ==> s.toHost != [])
    // towards the host: the buffer holds the newest bytes
    && |s.toHost| <= BUFF_LENGTH && 0 <= Oldest(s)
    && s.toHost == s.stored[Oldest(s)..]
    // positions go out in increasing order
    && (forall j, k :: 0 <= j < k < |s.sent| ==> s.sent[j] < s.sent[k])
    && |s.onHost| == |s.sent|
    && (forall k :: 0 <= k < |s.sent| ==> s.sent[k] < Oldest(s) && s.onHost[k] == s.stored[s.sent[k]])
  }

  /** Byte `i` from the serial line has left the buffer without being sent. */
  ghost predicate Lost(s: Bridge, i: int) { i < Oldest(s) && i !in s.sent }

  lemma InterruptInv(s: Bridge, v: byte, configured: bool)
    requires Inv(s)
    ensures Inv(Next(s, Interrupt(v, configured)))
  {
    var s' := Next(s, Interrupt(v, configured));
    if configured { assert s'.toHost == s'.stored[Oldest(s')..]; }
  }

  lemma SendToHostInv(s: Bridge, d: Driver)
    requires Inv(s) && s.place == SendToHost
    ensures Inv(Next(s, Main(d)))
  {
    var s' := Next(s, Main(d));
    assert s'.toHost == s'.stored[Oldest(s')..];
  }

  lemma OtherMainInv(s: Bridge, d: Driver)
    requires Inv(s) && s.place != SendToHost && s.place != CountBytes
    ensures Inv(Next(s, Main(d)))
  {
    var s' := Next(s, Main(d));
    assert Oldest(s') == Oldest(s) && s'.sent == s.sent && s'.stored == s.stored && s'.onHost == s.onHost;
  }

  lemma StepInv(s: Bridge, step: Step)
    requires Inv(s) && Enabled(s, step)
    ensures Inv(Next(s, step))
  {
    match step
    case Arrive(packet) =>
    case Interrupt(v, configured) => InterruptInv(s, v, configured);
    case Count(n) =>
    case Main(d) => if s.place == SendToHost { SendToHostInv(s, d); } else { OtherMainInv(s, d); }
  }

  lemma {:induction false} RunInv(s: Bridge, steps: seq<Step>)
    requires Inv(s) && Legal(s, steps)
    ensures Inv(Run(s, steps))
    decreases |steps|
  {
    hide Inv, Next, Enabled;
    if steps != [] {
      StepInv(s, steps[0]);
      RunInv(Next(s, steps[0]), steps[1..]);
    }
  }

  /** Everything the host has put into the OUT endpoint. */
  function FromHost(steps: seq<Step>): seq<byte> {
    if steps == [] then []
    else (if steps[0].Arrive? then steps[0].packet else []) + FromHost(steps[1..])
  }

  /** A copy while the driver is closed: a byte 0 that the host has never sent goes to the serial line. */
  predicate Invents(s: Bridge, step: Step) {
    step.Main? && s.place == CopyByte && s.remaining != 0 && |s.toSerial| < BUFF_LENGTH && !Open(step.driver)
  }

  /** How often that happens in a run. */
  function Inventions(s: Bridge, steps: seq<Step>): nat
    decreases |steps|
  {
    if steps == [] then 0
    else (if Invents(s, steps[0]) then 1 else 0) + Inventions(Next(s, steps[0]), steps[1..])
  }

  function Packet(step: Step): seq<byte> { if step.Arrive? then step.packet else [] }

  lemma ArrivalKept(s: Bridge, step: Step)
    requires Inv(s)
    ensures var s' := Next(s, step);
      if Invents(s, step) then s'.arrived == s.arrived && s'.taken == s.taken + [0] && Packet(step) == []
      else s'.taken + s'.arrived == s.taken + s.arrived + Packet(step)
  {
    var s' := Next(s, step);
    if s'.taken != s.taken && !Invents(s, step) {
      assert s.arrived == [s.arrived[0]] + s.arrived[1..];
    }
    assert s.taken + (s.arrived + Packet(step)) == s.taken + s.arrived + Packet(step);
  }

  lemma {:induction false} BytesCounted(s: Bridge, steps: seq<Step>)
    requires Inv(s) && Legal(s, steps)
    ensures var r := Run(s, steps);
      && |r.taken| + |r.arrived| == |s.taken| + |s.arrived| + |FromHost(steps)| + Inventions(s, steps)
      && (Inventions(s, steps) == 0 ==> r.taken + r.arrived == s.taken + s.arrived + FromHost(steps))
    decreases |steps|
  {
    hide Inv, Next, Enabled, Invents, Packet;
    if steps == [] {
      assert s.taken + s.arrived + [] == s.taken + s.arrived;
    } else {
      var s1 := Next(s, steps[0]);
      StepInv(s, steps[0]);
      BytesCounted(s1, steps[1..]);
      ArrivalKept(s, steps[0]);
      FromHostSplit(steps);
      var p := Packet(steps[0]);
      assert |s1.taken + s1.arrived| == |s1.taken| + |s1.arrived|;
      assert |s.taken + s.arrived + p| == |s.taken| + |s.arrived| + |p|;
      assert s.taken + s.arrived + p + FromHost(steps[1..]) == s.taken + s.arrived + (p + FromHost(steps[1..]));
    }
  }

  lemma FromHostSplit(steps: seq<Step>)
    requires steps != []
    ensures FromHost(steps) == Packet(steps[0]) + FromHost(steps[1..])
  {}

  /** From the host to the serial line, under every interleaving: the line and the buffer hold what was
      copied, in order; and with the endpoint they hold exactly what the host sent if and only if no copy
      found the driver closed. */
  lemma HostToSerialLossless(steps: seq<Step>)
    requires Legal(INITIAL, steps)
    ensures var r := Run(INITIAL, steps);
      && r.onSerial + r.toSerial == r.taken && |r.toSerial| <= BUFF_LENGTH
      && (r.onSerial + r.toSerial + r.arrived == FromHost(steps) <==> Inventions(INITIAL, steps) == 0)
  {
    assert Inv(INITIAL);
    RunInv(INITIAL, steps);
    BytesCounted(INITIAL, steps);
    assert [] + FromHost(steps) == FromHost(steps);
    var r := Run(INITIAL, steps);
    assert |r.taken + r.arrived| == |r.taken| + |r.arrived|;
  }

  /** The interrupt stores into a full buffer whose oldest byte is `i`: byte `i + 128` arrives while `i`
      still waits. */
  ghost predicate Overruns(s: Bridge, step: Step, i: nat) {
    step.Interrupt? && step.configured && |s.toHost| == BUFF_LENGTH && Oldest(s) == i
  }

  /** The main loop hands byte `i` over and the driver throws it away. */
  ghost predicate Discards(s: Bridge, step: Step, i: nat) {
    step.Main? && s.place == SendToHost && Oldest(s) == i && !Sends(step.driver)
  }

  ghost predicate Loses(s: Bridge, step: Step, i: nat) { Overruns(s, step, i) || Discards(s, step, i) }

  lemma LossStep(s: Bridge, step: Step, i: nat)
    requires Inv(s) && Enabled(s, step)
    ensures Lost(Next(s, step), i) <==> Lost(s, i) || Loses(s, step, i)
  {
    var s' := Next(s, step);
    if step.Main? && s.place == SendToHost && Sends(step.driver) {
      assert s'.sent[|s.sent|] == Oldest(s);
      assert forall j :: 0 <= j < |s.sent| ==> s'.sent[j] == s.sent[j];
      assert i in s'.sent <==> i in s.sent || i == Oldest(s);
    }
  }

  /** A byte from the serial line is lost if and only if, at some point of the run, it is overrun by the
      128th newer one or handed to a driver that throws it away. */
  lemma {:induction false} LostIff(s: Bridge, steps: seq<Step>, i: nat)
    requires Inv(s) && Legal(s, steps) && !Lost(s, i)
    ensures Lost(Run(s, steps), i)
            <==> exists k :: 0 <= k < |steps| && Loses(Run(s, steps[..k]), steps[k], i)
    decreases |steps|
  {
    hide Inv, Next, Enabled, Lost, Loses;
    if steps != [] {
      var s1 := Next(s, steps[0]);
      StepInv(s, steps[0]);
      LossStep(s, steps[0], i);
      assert steps[..0] == [];
      assert Run(s, steps[..0]) == s;
      forall k | 1 <= k < |steps| ensures Run(s, steps[..k]) == Run(s1, steps[1..][..k - 1]) {
        assert steps[..k][1..] == steps[1..][..k - 1] && steps[..k][0] == steps[0];
      }
      if Lost(s1, i) {
        StaysLost(s1, steps[1..], i);
        assert Loses(Run(s, steps[..0]), steps[0], i);
      } else {
        LostIff(s1, steps[1..], i);
        if Lost(Run(s, steps), i) {
          var k :| 0 <= k < |steps[1..]| && Loses(Run(s1, steps[1..][..k]), steps[1..][k], i);
          assert Run(s, steps[..k + 1]) == Run(s1, steps[1..][..k]);
          assert Loses(Run(s, steps[..k + 1]), steps[k + 1], i);
        }
        if exists k :: 0 <= k < |steps| && Loses(Run(s, steps[..k]), steps[k], i) {
          var k :| 0 <= k < |steps| && Loses(Run(s, steps[..k]), steps[k], i);
          assert k > 0;
          assert Loses(Run(s1, steps[1..][..k - 1]), steps[1..][k - 1], i);
        }
      }
    }
  }

  /** One byte is enough to lose it: received on a configured device whose host has not set a line
      encoding yet, it is stored, handed to the driver and gone. */
  lemma LostBeforeLineEncoding(v: byte) returns (steps: seq<Step>)
    ensures Legal(INITIAL, steps)
    ensures forall step :: step in steps && step.Main? ==> step.driver == Driver(true, 0, false, true)
    ensures var r := Run(INITIAL, steps); r.stored == [v] && Lost(r, 0) && r.toHost == [] && r.onHost == []
  {
    var d := Driver(true, 0, false, true);
    var s1 := Next(INITIAL, Interrupt(v, true));
    var s2 := Next(s1, Count(0));
    var s3 := Next(s2, Main(d));
    var s4 := Next(s3, Main(d));
    assert s4.place == SendToHost && s4.toHost == [v];
    steps := [Main(d)];
    OneMoreStep(s4, Main(d), []);
    OneMoreStep(s3, Main(d), steps);
    steps := [Main(d)] + steps;
    OneMoreStep(s2, Main(d), steps);
    steps := [Main(d)] + steps;
    OneMoreStep(s1, Count(0), steps);
    steps := [Count(0)] + steps;
    OneMoreStep(INITIAL, Interrupt(v, true), steps);
    steps := [Interrupt(v, true)] + steps;
  }

  lemma OneMoreStep(s: Bridge, step: Step, steps: seq<Step>)
    requires Enabled(s, step) && Legal(Next(s, step), steps)
    ensures Legal(s, [step] + steps) && Run(s, [step] + steps) == Run(Next(s, step), steps)
  {
    assert ([step] + steps)[1..] == steps;
  }

  lemma {:induction false} StaysLost(s: Bridge, steps: seq<Step>, i: nat)
    requires Inv(s) && Legal(s, steps) && Lost(s, i)
    ensures Lost(Run(s, steps), i)
    decreases |steps|
  {
    hide Inv, Next, Enabled, Lost, Loses;
    if steps != [] {
      StepInv(s, steps[0]);
      LossStep(s, steps[0], i);
      StaysLost(Next(s, steps[0]), steps[1..], i);
    }
  }

  /** From the serial line to the host: what is sent is a subsequence of what was stored, in order,
      what waits is the newest part of it, and neither buffer is ever read when it is empty.  What the
      driver throws away does not count as sent. */
  lemma SerialToHostOrdered(steps: seq<Step>)
    requires Legal(INITIAL, steps)
    ensures var r := Run(INITIAL, steps); var oldest := |r.stored| - |r.toHost|;
      && 0 <= oldest && r.toHost == r.stored[oldest..]
      && |r.onHost| == |r.sent|
      && (forall k :: 0 <= k < |r.sent| ==> r.sent[k] < oldest && r.onHost[k] == r.stored[r.sent[k]])
      && (forall j, k :: 0 <= j < k < |r.sent| ==> r.sent[j] < r.sent[k])
      && (r.place == SendToHost ==> r.toHost != []) && (r.place == SendToSerial ==> r.toSerial != [])
  {
    assert Inv(INITIAL);
    RunInv(INITIAL, steps);
  }

  // ---- The firmware ------------------------------------------------------------------------

  class Firmware {
    const USBtoUSART: RingBuff
    const USARTtoUSB: RingBuff
    var place: Place
    var dataBytesRem: nat
    var endpoint: seq<byte>
    ghost var taken: seq<byte>
    ghost var onSerial: seq<byte>
    ghost var stored: seq<byte>
    ghost var onHost: seq<byte>
    ghost var sent: seq<nat>

    ghost predicate Valid()
      reads this, USBtoUSART, USARTtoUSB, USBtoUSART.data, USARTtoUSB.data
    {
      && USBtoUSART.Valid() && USARTtoUSB.Valid()
      && USBtoUSART != USARTtoUSB && USBtoUSART.data != USARTtoUSB.data
      && Inv(View())
    }

    ghost function View(): Bridge
      requires USBtoUSART.Valid() && USARTtoUSB.Valid()
      reads this, USBtoUSART, USARTtoUSB, USBtoUSART.data, USARTtoUSB.data
    {
      Bridge(place, dataBytesRem, USBtoUSART.Contents(), USARTtoUSB.Contents(), endpoint, taken, onSerial, stored,
             onHost, sent)
    }

    constructor ()
      ensures Valid() && View() == INITIAL
      ensures fresh(USBtoUSART) && fresh(USARTtoUSB) && fresh(USBtoUSART.data) && fresh(USARTtoUSB.data)
    {
      USBtoUSART := new RingBuff.Initialize();
      USARTtoUSB := new RingBuff.Initialize();
      place, dataBytesRem, endpoint := CountBytes, 0, [];
      taken, onSerial, stored, onHost, sent := [], [], [], [], [];
    }

    /** ISR(USART1_RX_vect) */
    method ReceiveInterrupt(receivedByte: byte, configured: bool)
      requires Valid()
      modifies this, USARTtoUSB, USARTtoUSB.data
      ensures Valid() && View() == Next(old(View()), Interrupt(receivedByte, configured))
    {
      hide Inv;
      StepInv(View(), Interrupt(receivedByte, configured));
      if configured {
        USARTtoUSB.StoreElement(receivedByte);
        stored := stored + [receivedByte];
      }
    }

    /** CDC_Device_BytesReceived, `n` being what the endpoint's bank holds. */
    method CountReceived(n: nat)
      requires Valid() && Enabled(View(), Count(n))
      modifies this
      ensures Valid() && View() == Next(old(View()), Count(n))
    {
      hide Inv;
      StepInv(View(), Count(n));
      dataBytesRem := n;
      place := CopyByte;
    }

    /** CDC_Device_ReceiveByte; a closed driver returns 0. */
    method ReceiveByte(d: Driver) returns (v: byte)
      requires Open(d) ==> endpoint != []
      modifies this`endpoint
      ensures if Open(d) then v == old(endpoint)[0] && endpoint == old(endpoint)[1..]
              else v == 0 && endpoint == old(endpoint)
    {
      if !Open(d) { return 0; }
      v := endpoint[0];
      endpoint := endpoint[1..];
    }

    /** CDC_Device_SendByte: whether the byte is written to the endpoint.  It is not looked at. */
    static method SendByte(d: Driver) returns (written: bool)
      ensures written == Sends(d)
    {
      if !Open(d) { return false; }
      if d.bankFull {
        if !d.becomesReady { return false; }
      }
      written := true;
    }

    /** The next step of the main loop. */
    method MainLoopStep(d: Driver)
      requires Valid() && place != CountBytes
      modifies this, USBtoUSART, USARTtoUSB, USBtoUSART.data
      ensures Valid() && View() == Next(old(View()), Main(d))
    {
      hide Inv, Stored, RingBuff.Contents, RingBuff.Valid, Open, Sends;
      match place
      case CopyByte => CopyStep(d);
      case TestUsart =>
        StepInv(View(), Main(d));
        place := if USARTtoUSB.Elements != 0 then SendToHost else TestUsb;
      case SendToHost => HostStep(d);
      case TestUsb =>
        StepInv(View(), Main(d));
        place := if USBtoUSART.Elements != 0 then SendToSerial else CountBytes;
      case SendToSerial => SerialStep(d);
    }

    /** One turn of the loop that copies from the endpoint, or its end. */
    method CopyStep(d: Driver)
      requires Valid() && place == CopyByte
      modifies this, USBtoUSART, USBtoUSART.data
      ensures Valid() && View() == Next(old(View()), Main(d))
    {
      hide Inv, Stored, RingBuff.Contents, RingBuff.Valid, Open, Sends;
      StepInv(View(), Main(d));
      CheckedPlaces(View());
      if dataBytesRem == 0 || BUFF_LENGTH - USBtoUSART.Elements == 0 {
        place := TestUsart;
      } else {
        var v := ReceiveByte(d);
        USBtoUSART.StoreElement(v);
        taken := taken + [v];
        dataBytesRem := dataBytesRem - 1;
      }
    }

    method HostStep(d: Driver)
      requires Valid() && place == SendToHost
      modifies this, USARTtoUSB
      ensures Valid() && View() == Next(old(View()), Main(d))
    {
      hide Inv, Stored, RingBuff.Contents, RingBuff.Valid, Open, Sends, Next, MainStep;
      StepInv(View(), Main(d));
      CheckedPlaces(View());
      HostNext(View(), d);
      ghost var position := |stored| - USARTtoUSB.Elements;
      var v := USARTtoUSB.GetElement();
      var written := SendByte(d);
      if written {
        onHost := onHost + [v];
        sent := sent + [position];
      }
      place := TestUsb;
    }

    method SerialStep(d: Driver)
      requires Valid() && place == SendToSerial
      modifies this, USBtoUSART
      ensures Valid() && View() == Next(old(View()), Main(d))
    {
      hide Inv, Stored, RingBuff.Contents, RingBuff.Valid, Open, Sends;
      StepInv(View(), Main(d));
      CheckedPlaces(View());
      var v := USBtoUSART.GetElement();
      onSerial := onSerial + [v];
      place := CountBytes;
    }
  }

  lemma HostNext(s: Bridge, d: Driver)
    requires Inv(s) && s.place == SendToHost
    ensures s.toHost != [] && Next(s, Main(d))
         == s.(place := TestUsb, toHost := s.toHost[1..],
               onHost := if Sends(d) then s.onHost + [s.toHost[0]] else s.onHost,
               sent := if Sends(d) then s.sent + [Oldest(s)] else s.sent)
  {}

  /** What the main loop relies on without checking. */
  lemma CheckedPlaces(s: Bridge)
    requires Inv(s)
    ensures s.place == CopyByte && s.remaining != 0 ==> s.arrived != []
    ensures s.place == SendToHost ==> s.toHost != [] && 0 <= Oldest(s)
    ensures s.place == SendToSerial ==> s.toSerial != []
  {}
}
