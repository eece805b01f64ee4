/** The debug channel: a double-banked interrupt endpoint that is filled byte by byte and flushed by
    the start-of-frame interrupt, within one configured session. */
module DebugChannel {
  import opened Usb

  const DEBUG_TX_SIZE: nat := 32
  const ENDPOINT0_SIZE: nat := 32
  const BANKS: nat := 2

  /** `bank` is the bank being filled and `packets` all packets sent, the first `polled` of which the
      host has fetched.  The last three fields record the bytes accepted, the bytes that each packet
      was sent with before padding, and the frames since the last accepted byte. */
  datatype Channel = Channel(
    timer: nat, bank: seq<byte>, packets: seq<seq<byte>>, polled: nat,
    frameNumber: byte, previousTimeout: bool,
    accepted: seq<byte>, segments: seq<seq<byte>>, idleFrames: nat)

  /** RWAL: a bank is free and not full. */
  predicate Writable(s: Channel) { |s.packets| - s.polled < BANKS && |s.bank| < DEBUG_TX_SIZE }

  function Zeros(n: nat): (z: seq<byte>)
    ensures |z| == n && forall i :: 0 <= i < n ==> z[i] == 0
  {
    seq(n, _ => 0)
  }

  function Padded(segment: seq<byte>): seq<byte> {
    if |segment| < DEBUG_TX_SIZE then segment + Zeros(DEBUG_TX_SIZE - |segment|) else segment
  }

  /** Release the bank with the padding it has got. */
  function Release(s: Channel, segment: seq<byte>): Channel {
    s.(packets := s.packets + [s.bank], bank := [], timer := 0, segments := s.segments + [segment])
  }

  /** Fill the bank with zeros while it can be written, then release it. */
  function PadOut(s: Channel): Channel {
    if Writable(s) then Release(s.(bank := Padded(s.bank)), s.bank) else Release(s, s.bank)
  }

  /** One atomic attempt of usb_debug_putchar. */
  function TryPut(s: Channel, c: byte): Channel {
    if !Writable(s) then s
    else
      var s1 := s.(bank := s.bank + [c], accepted := s.accepted + [c], previousTimeout := false, idleFrames := 0);
      if Writable(s1) then s1.(timer := 2) else Release(s1, s1.bank)
  }

  function Flush(s: Channel): Channel { if s.timer != 0 then PadOut(s) else s }

  /** The start-of-frame interrupt. */
  function Frame(s: Channel): Channel {
    var s1 := s.(frameNumber := (s.frameNumber + 1) % 256, idleFrames := s.idleFrames + 1);
    if s.timer == 0 then s1
    else
      var t := s.timer - 1;
      if t == 0 then PadOut(s1.(timer := 0)) else s1.(timer := t)
  }

  datatype Step = Put(c: byte) | GiveUp | FlushOutput | StartOfFrame | Poll

  predicate Enabled(s: Channel, step: Step) {
    match step
    case GiveUp => true    // the bank may have become writable since it was looked at
    case Poll => s.polled < |s.packets|
    case _ => true
  }

  function Next(s: Channel, step: Step): Channel {
    match step
    case Put(c) => TryPut(s, c)
    case GiveUp => s.(previousTimeout := true)
    case FlushOutput => Flush(s)
    case StartOfFrame => Frame(s)
    case Poll => s.(polled := s.polled + 1)
  }

  ghost predicate Legal(s: Channel, steps: seq<Step>)
    decreases |steps|
  {
    steps == [] || (Enabled(s, steps[0]) && Legal(Next(s, steps[0]), steps[1..]))
  }

  function Run(s: Channel, steps: seq<Step>): Channel
    decreases |steps|
  {
    if steps == [] then s else Run(Next(s, steps[0]), steps[1..])
  }

  const INITIAL: Channel := Channel(0, [], [], 0, 0, false, [], [], 0)

  /** Every packet is 32 bytes: a piece of the accepted bytes, padded with zeros. */
  ghost predicate PacketsPadded(s: Channel) {
    && |s.packets| == |s.segments|
    && forall k :: 0 <= k < |s.packets| ==>
        1 <= |s.segments[k]| <= DEBUG_TX_SIZE && s.packets[k] == Padded(s.segments[k])
            && |s.packets[k]| == DEBUG_TX_SIZE
  }

  ghost predicate Inv(s: Channel) {
    && s.polled <= |s.packets| <= s.polled + BANKS
    && |s.bank| < DEBUG_TX_SIZE
    && (s.timer != 0 <==> s.bank != [])
    && (s.bank != [] ==> |s.packets| < s.polled + BANKS && s.timer + s.idleFrames == 2)
    && PacketsPadded(s)
    && Flatten(s.segments) + s.bank == s.accepted
  }

  lemma ReleaseInv(s: Channel, segment: seq<byte>)
    requires s.polled <= |s.packets| < s.polled + BANKS && PacketsPadded(s)
    requires 1 <= |segment| <= DEBUG_TX_SIZE && s.bank == Padded(segment)
    requires Flatten(s.segments) + segment == s.accepted
    ensures Inv(Release(s, segment))
  {
    FlattenConcat(s.segments, [segment]);
    FlattenOne(segment);
    assert Flatten(s.segments + [segment]) + [] == s.accepted;
  }

  lemma PadOutInv(s: Channel)
    requires s.polled <= |s.packets| < s.polled + BANKS && PacketsPadded(s)
    requires 1 <= |s.bank| < DEBUG_TX_SIZE && Flatten(s.segments) + s.bank == s.accepted
    ensures Inv(PadOut(s))
  {
    hide Inv, Padded;
    ReleaseInv(s.(bank := Padded(s.bank)), s.bank);
  }

  lemma PutInv(s: Channel, c: byte)
    requires Inv(s)
    ensures Inv(TryPut(s, c))
  {
    if Writable(s) {
      var s1 := s.(bank := s.bank + [c], accepted := s.accepted + [c], previousTimeout := false, idleFrames := 0);
      assert Flatten(s.segments) + (s.bank + [c]) == s.accepted + [c];
      if !Writable(s1) {
        ReleaseInv(s1, s1.bank);
      }
    }
  }

  lemma StepInv(s: Channel, step: Step)
    requires Inv(s) && Enabled(s, step)
    ensures Inv(Next(s, step))
  {
    match step
    case Put(c) => PutInv(s, c);
    case FlushOutput => if s.timer != 0 { PadOutInv(s); }
    case StartOfFrame =>
      if s.timer == 1 {
        PadOutInv(s.(frameNumber := (s.frameNumber + 1) % 256, idleFrames := s.idleFrames + 1, timer := 0));
      }
    case _ =>
  }

  lemma {:induction false} RunInv(s: Channel, steps: seq<Step>)
    requires Inv(s) && Legal(s, steps)
    ensures Inv(Run(s, steps))
    decreases |steps|
  {
    hide Inv, Next, Enabled;
    if steps != [] {
      StepInv(s, steps[0]);
      RunInv(Next(s, steps[0]), steps[1..]);
    }
  }

  /** The bytes for which some putchar returned 0 during the run. */
  function Taken(s: Channel, steps: seq<Step>): seq<byte>
    decreases |steps|
  {
    if steps == [] then []
    else (if steps[0].Put? && Writable(s) then [steps[0].c] else []) + Taken(Next(s, steps[0]), steps[1..])
  }

  lemma {:induction false} AcceptedIsTaken(s: Channel, steps: seq<Step>)
    ensures Run(s, steps).accepted == s.accepted + Taken(s, steps)
    decreases |steps|
  {
    if steps == [] {
      assert s.accepted + [] == s.accepted;
    } else {
      AcceptedIsTaken(Next(s, steps[0]), steps[1..]);
      var p := if steps[0].Put? && Writable(s) then [steps[0].c] else [];
      assert Next(s, steps[0]).accepted == s.accepted + p;
      assert s.accepted + p + Taken(Next(s, steps[0]), steps[1..])
          == s.accepted + (p + Taken(Next(s, steps[0]), steps[1..]));
    }
  }

  /** Under every interleaving: each packet has 32 bytes and is a piece of the accepted bytes followed
      by zeros; the pieces and the current bank are the accepted bytes, once and in order; the bank is
      partly filled exactly when the timer runs, and it has been waiting for less than two frames. */
  lemma ChannelDelivers(steps: seq<Step>)
    requires Legal(INITIAL, steps)
    ensures var r := Run(INITIAL, steps);
      && PacketsPadded(r)
      && Flatten(r.segments) + r.bank == Taken(INITIAL, steps)
      && (r.timer != 0 <==> 0 < |r.bank| < DEBUG_TX_SIZE)
      && (r.bank != [] ==> r.idleFrames < 2)
  {
    assert Inv(INITIAL);
    RunInv(INITIAL, steps);
    AcceptedIsTaken(INITIAL, steps);
    assert [] + Taken(INITIAL, steps) == Taken(INITIAL, steps);
  }

  /** The second frame after the last byte finds the bank sent. */
  lemma TwoFramesSend(s: Channel)
    requires Inv(s)
    ensures Frame(Frame(s)).bank == [] && Flatten(Frame(Frame(s)).segments) == s.accepted
  {
    StepInv(s, StartOfFrame);
    StepInv(Frame(s), StartOfFrame);
    var f := Frame(Frame(s));
    assert Flatten(f.segments) + [] == Flatten(f.segments);
  }

  /** A packet of 32 bytes: what was in the bank, and zeros. */
  ghost predicate Carries(packet: seq<byte>, bytes: seq<byte>) {
    && |packet| == 32 && |bytes| <= 32 && packet[..|bytes|] == bytes
    && forall i :: |bytes| <= i < 32 ==> packet[i] == 0
  }

  /** A flush sends everything accepted at once: exactly one packet if the bank holds anything, none if it is
      empty, and then nothing changes. */
  lemma FlushSends(s: Channel)
    requires Inv(s)
    ensures var r := Next(s, FlushOutput);
      && r.bank == [] && r.timer == 0 && r.accepted == s.accepted && Flatten(r.segments) == s.accepted
      && (s.bank == [] ==> r == s)
      && (s.bank != [] ==> |r.packets| == |s.packets| + 1 && r.packets[..|s.packets|] == s.packets
                           && Carries(r.packets[|s.packets|], s.bank))
  {
    StepInv(s, FlushOutput);
    var r := Next(s, FlushOutput);
    assert Flatten(r.segments) + [] == Flatten(r.segments);
  }

  /** Whether a step completes the bank's packet: the 32nd byte does, a flush, and the second frame after the
      last byte. */
  ghost predicate Completes(s: Channel, step: Step) {
    match step
    case Put(_) => |s.packets| - s.polled < 2 && |s.bank| == 31
    case FlushOutput => s.bank != []
    case StartOfFrame => s.bank != [] && s.idleFrames == 1
    case _ => false
  }

  /** What a putchar that finds room has loaded. */
  function LoadedBy(s: Channel, step: Step): seq<byte> {
    if step.Put? && |s.packets| - s.polled < 2 then s.bank + [step.c] else s.bank
  }

  /** When packets leave, and with what: a step sends the bank, as one packet, if and only if it completes it, and
      otherwise the bank waits. */
  lemma PacketsLeave(s: Channel, step: Step)
    requires Inv(s) && Enabled(s, step)
    ensures var r := Next(s, step);
      if Completes(s, step) then
        && r.bank == [] && |r.packets| == |s.packets| + 1 && r.packets[..|s.packets|] == s.packets
        && Carries(r.packets[|s.packets|], LoadedBy(s, step))
      else r.packets == s.packets && r.bank == LoadedBy(s, step)
  {}

  // ---- The functions ------------------------------------------------------------------------

  datatype Outcome = Success | Error | Waiting

  class Device {
    var timer: nat
    var bank: seq<byte>
    var packets: seq<seq<byte>>
    var polled: nat
    var frameNumber: byte
    var previousTimeout: bool
    ghost var accepted: seq<byte>
    ghost var segments: seq<seq<byte>>
    ghost var idleFrames: nat

    ghost function View(): Channel
      reads this
    {
      Channel(timer, bank, packets, polled, frameNumber, previousTimeout, accepted, segments, idleFrames)
    }

    constructor ()
      ensures View() == INITIAL
    {
      timer, bank, packets, polled, frameNumber, previousTimeout := 0, [], [], 0, 0, false;
      accepted, segments, idleFrames := [], [], 0;
    }

    method ReadWriteAllowed() returns (b: bool)
      ensures b == Writable(View())
    {
      b := |packets| - polled < BANKS && |bank| < DEBUG_TX_SIZE;
    }

    /** The padding loop that flush and the interrupt share; the bank then leaves. */
    method PadAndSend()
      modifies this
      ensures View() == PadOut(old(View()))
    {
      ghost var segment := bank;
      var allowed := ReadWriteAllowed();
      while allowed
        invariant allowed == Writable(View())
        invariant View() == old(View()).(bank := bank)
        invariant |segment| <= |bank| && bank == segment + Zeros(|bank| - |segment|)
        invariant Writable(old(View())) ==> |bank| <= DEBUG_TX_SIZE
        invariant !Writable(old(View())) ==> bank == segment
        decreases DEBUG_TX_SIZE - |bank|
      {
        bank := bank + [0];
        allowed := ReadWriteAllowed();
      }
      packets := packets + [bank];
      bank := [];
      timer := 0;
      segments := segments + [segment];
    }

    /** usb_debug_flush_output */
    method FlushOutput()
      modifies this
      ensures View() == Flush(old(View()))
    {
      if timer != 0 { PadAndSend(); }
    }

    /** The start-of-frame part of ISR(USB_GEN_vect). */
    method StartOfFrame()
      modifies this
      ensures View() == Frame(old(View()))
    {
      frameNumber := (frameNumber + 1) % 256;
      idleFrames := idleFrames + 1;
      if timer != 0 {
        timer := timer - 1;
        if timer == 0 { PadAndSend(); }
      }
    }

    method HostPoll()
      requires polled < |packets|
      modifies this
      ensures View() == Next(old(View()), Poll)
    {
      polled := polled + 1;
    }

    /** What may happen while interrupts are enabled: frames, polls, flushes. */
    method Elsewhere(events: seq<Step>)
      requires Legal(View(), events) && forall e :: e in events ==> !e.Put? && !e.GiveUp?
      modifies this
      ensures View() == Run(old(View()), events)
    {
      var i := 0;
      while i < |events|
        invariant i <= |events| && Legal(View(), events[i..]) && Run(View(), events[i..]) == Run(old(View()), events)
      {
        var e := events[i];
        assert e in events;
        assert events[i..][1..] == events[i + 1..];
        match e {
          case FlushOutput => FlushOutput();
          case StartOfFrame => StartOfFrame();
          case Poll => HostPoll();
        }
        i := i + 1;
      }
    }

    /** usb_debug_putchar on a configured device; `gaps` are the events between two attempts.  When
        the gaps run out the call is still waiting.  The frame number is looked at after every gap: a
        call that waits gives up with the fourth frame, if no gap contains more than one. */
    method Putchar(c: byte, gaps: seq<seq<Step>>) returns (outcome: Outcome)
      requires Waits(View(), gaps)
      modifies this
      ensures outcome == Success ==> View().accepted == old(accepted) + [c]
      ensures outcome != Success ==> View().accepted == old(accepted) && (outcome == Error ==> previousTimeout)
      ensures old(Inv(View())) ==> Inv(View())
      ensures old(previousTimeout) && !old(Writable(View())) ==> outcome == Error && View() == old(View())
      ensures old(Writable(View())) ==> outcome == Success && View() == TryPut(old(View()), c)
      ensures outcome == Error && !old(previousTimeout) ==> frameNumber == Later(old(frameNumber), 4)
      ensures EveryFrame(gaps) && outcome == Waiting ==> TotalFrames(gaps) < 4
      ensures EveryFrame(gaps) && outcome == Success
        ==> exists n :: 0 <= n < 4 && frameNumber == Later(old(frameNumber), n)
    {
      hide Inv, Legal, Waits, TryPut, TotalFrames, Frames, Later;
      var allowed := ReadWriteAllowed();
      if previousTimeout {
        if !allowed { return Error; }
        previousTimeout := false;
      }
      var timeout := Later(frameNumber, 4);
      var i := 0;
      assert gaps[0..] == gaps && gaps[..0] == [];
      NoFrames(frameNumber);
      PutIgnoresTimeout(old(View()), View(), c);
      while !allowed
        invariant i <= |gaps| && allowed == Writable(View()) && (allowed || Waits(View(), gaps[i..]))
        invariant accepted == old(accepted)
        invariant old(Inv(View())) ==> Inv(View())
        invariant old(Writable(View())) ==> allowed && TryPut(View(), c) == TryPut(old(View()), c)
        invariant !(old(previousTimeout) && !old(Writable(View())))
        invariant frameNumber == Later(old(frameNumber), TotalFrames(gaps[..i]))
        invariant EveryFrame(gaps) ==> TotalFrames(gaps[..i]) < 4
        decreases |gaps| - i
      {
        if i == |gaps| {
          assert gaps[..i] == gaps;
          return Waiting;
        }
        GapKeeps(View(), gaps[i..]);
        assert gaps[i..][0] == gaps[i] && gaps[i..][1..] == gaps[i + 1..];
        FramesCounted(View(), gaps[i]);
        LaterTwice(old(frameNumber), TotalFrames(gaps[..i]), Frames(gaps[i]));
        OneMoreGap(gaps, i);
        Elsewhere(gaps[i]);
        i := i + 1;
        if frameNumber == timeout {
          GiveUpKeeps(View());
          previousTimeout := true;
          return Error;
        }
        allowed := ReadWriteAllowed();
      }
      PutAllowed(View(), c);
      WriteByte(c);
      return Success;
    }

    /** Load a byte, and send the bank if that completes the packet. */
    method WriteByte(c: byte)
      requires Writable(View())
      modifies this
      ensures View() == TryPut(old(View()), c)
    {
      bank := bank + [c];
      accepted := accepted + [c];
      idleFrames := 0;
      previousTimeout := false;
      var allowed := ReadWriteAllowed();
      if !allowed {
        segments := segments + [bank];
        packets := packets + [bank];
        bank := [];
        timer := 0;
      } else {
        timer := 2;
      }
    }
  }

  /** The frames among some events, and among those of all gaps. */
  function Frames(events: seq<Step>): nat {
    if events == [] then 0 else (if events[0].StartOfFrame? then 1 else 0) + Frames(events[1..])
  }

  function TotalFrames(gaps: seq<seq<Step>>): nat {
    if gaps == [] then 0 else TotalFrames(gaps[..|gaps| - 1]) + Frames(gaps[|gaps| - 1])
  }

  ghost predicate EveryFrame(gaps: seq<seq<Step>>) { forall i :: 0 <= i < |gaps| ==> Frames(gaps[i]) <= 1 }

  /** The low byte of the frame number, `n` frames later. */
  function Later(frame: byte, n: nat): byte { (frame + n) % 256 }

  lemma LaterTwice(frame: byte, n: nat, m: nat)
    ensures Later(Later(frame, n), m) == Later(frame, n + m)
  {
    var q := (frame + n) / 256;
    assert frame + n == 256 * q + Later(frame, n);
  }

  lemma NoFrames(frame: byte)
    ensures TotalFrames([]) == 0 && Later(frame, 0) == frame
  {}

  lemma OneMoreGap(gaps: seq<seq<Step>>, i: nat)
    requires i < |gaps|
    ensures TotalFrames(gaps[..i + 1]) == TotalFrames(gaps[..i]) + Frames(gaps[i])
  {
    assert gaps[..i + 1][..i] == gaps[..i];
  }

  lemma {:induction false} FramesCounted(s: Channel, events: seq<Step>)
    ensures Run(s, events).frameNumber == Later(s.frameNumber, Frames(events))
    decreases |events|
  {
    hide Next, Later;
    if events != [] {
      FrameCounted(s, events[0]);
      FramesCounted(Next(s, events[0]), events[1..]);
      LaterTwice(s.frameNumber, 1, Frames(events[1..]));
    } else {
      NoFrames(s.frameNumber);
    }
  }

  lemma FrameCounted(s: Channel, step: Step)
    ensures Next(s, step).frameNumber == if step.StartOfFrame? then Later(s.frameNumber, 1) else s.frameNumber
  {}

  lemma GiveUpKeeps(s: Channel)
    ensures Inv(s) ==> Inv(s.(previousTimeout := true))
  {}

  lemma PutIgnoresTimeout(s: Channel, t: Channel, c: byte)
    requires t == s.(previousTimeout := t.previousTimeout)
    ensures Writable(s) ==> TryPut(t, c) == TryPut(s, c)
    ensures Inv(s) ==> Inv(t)
  {}

  /** The events between the attempts of a waiting putchar are legal ones. */
  ghost predicate Waits(s: Channel, gaps: seq<seq<Step>>)
    decreases |gaps|
  {
    gaps == []
    || (Legal(s, gaps[0]) && (forall e :: e in gaps[0] ==> !e.Put? && !e.GiveUp?)
        && Waits(Run(s, gaps[0]), gaps[1..]))
  }

  lemma GapKeeps(s: Channel, gaps: seq<seq<Step>>)
    requires gaps != [] && Waits(s, gaps)
    ensures Legal(s, gaps[0]) && forall e :: e in gaps[0] ==> !e.Put? && !e.GiveUp?
    ensures Waits(Run(s, gaps[0]), gaps[1..]) && Run(s, gaps[0]).accepted == s.accepted
    ensures Inv(s) ==> Inv(Run(s, gaps[0]))
  {
    AcceptedIsTaken(s, gaps[0]);
    NothingTaken(s, gaps[0]);
    assert s.accepted + [] == s.accepted;
    if Inv(s) { RunInv(s, gaps[0]); }
  }

  lemma {:induction false} NothingTaken(s: Channel, steps: seq<Step>)
    requires forall e :: e in steps ==> !e.Put?
    ensures Taken(s, steps) == []
    decreases |steps|
  {
    if steps != [] {
      assert steps[0] in steps;
      NothingTaken(Next(s, steps[0]), steps[1..]);
    }
  }

  lemma PutAllowed(s: Channel, c: byte)
    ensures Inv(s) ==> Inv(TryPut(s, c))
    ensures Writable(s) ==> TryPut(s, c).accepted == s.accepted + [c] && TryPut(s, c).frameNumber == s.frameNumber
  {
    if Inv(s) { PutInv(s, c); }
  }

  // ---- The descriptor sender on the control endpoint --------------------------------------------

  /** The packet loop of GET_DESCRIPTOR: the packets carry the requested part of the descriptor and end
      with a short or empty one. */
  method SendDescriptor(descriptor: seq<byte>, wLength: uint16) returns (packets: seq<seq<byte>>)
    requires |descriptor| < 256
    ensures Terminated(ENDPOINT0_SIZE, packets, descriptor[..Min(wLength, |descriptor|)])
  {
    var len: nat := if wLength < 256 then wLength else 255;
    if len > |descriptor| { len := |descriptor|; }
    ghost var total := len;
    var at := 0;
    packets := [];
    var n := ENDPOINT0_SIZE;
    while len != 0 || n == ENDPOINT0_SIZE
      invariant at + len == total == Min(wLength, |descriptor|)
      invariant Flatten(packets) == descriptor[..at]
      invariant n <= ENDPOINT0_SIZE && (packets == [] ==> n == ENDPOINT0_SIZE)
      invariant packets != [] ==> |packets[|packets| - 1]| == n && (n < ENDPOINT0_SIZE ==> len == 0)
      invariant forall i :: 0 <= i < |packets| - 1 ==> |packets[i]| == ENDPOINT0_SIZE
      decreases len, n
    {
      n := if len < ENDPOINT0_SIZE then len else ENDPOINT0_SIZE;
      var packet := descriptor[at..at + n];
      FlattenConcat(packets, [packet]);
      FlattenOne(packet);
      assert descriptor[..at] + packet == descriptor[..at + n];
      packets := packets + [packet];
      at := at + n;
      len := len - n;
    }
  }
}
