/** The main loop of the USB to serial bridge makes progress in both directions, however it is interrupted. */
module BridgeProgress {
  import opened Usb
  import opened RingBuffer
  import opened UsbToSerial

  // ---- Turns of the main loop ------------------------------------------------------------------

  /** How often the main loop has come round, what it counted each time, and the steps it made between. */
  function Counted(steps: seq<Step>): seq<nat> {
    if steps == [] then [] else (if steps[0].Count? then [steps[0].n] else []) + Counted(steps[1..])
  }

  function LoopSteps(steps: seq<Step>): nat {
    if steps == [] then 0 else (if steps[0].Main? then 1 else 0) + LoopSteps(steps[1..])
  }

  /** When bytes wait in the endpoint, CDC_Device_BytesReceived counts at least one of them. */
  ghost predicate Attentive(s: Bridge, steps: seq<Step>)
    decreases |steps|
  {
    steps == []
    || ((steps[0].Count? && s.arrived != [] ==> steps[0].n > 0) && Attentive(Next(s, steps[0]), steps[1..]))
  }

  /** The bytes on the line when the loop next comes round. */
  function OnLineSoon(s: Bridge): nat {
    |s.onSerial| + match s.place
                   case CountBytes => 0
                   case CopyByte => if s.toSerial != [] || s.remaining != 0 then 1 else 0
                   case SendToSerial => 1
                   case _ => if s.toSerial != [] then 1 else 0
  }

  /** The bytes copied when the loop next comes round. */
  function TakenSoon(s: Bridge): int {
    |s.taken| + if s.place == CopyByte then Min(s.remaining, BUFF_LENGTH - |s.toSerial|) else 0
  }

  lemma SoonKept(s: Bridge, step: Step)
    requires Inv(s) && Enabled(s, step)
    ensures var s' := Next(s, step);
      if step.Count? then
        && OnLineSoon(s) == |s.onSerial| && TakenSoon(s) == |s.taken|
        && OnLineSoon(s') == |s.onSerial| + (if s.toSerial != [] || step.n > 0 then 1 else 0)
        && TakenSoon(s') == |s.taken| + Min(step.n, BUFF_LENGTH - |s.toSerial|)
      else OnLineSoon(s') == OnLineSoon(s) && TakenSoon(s') == TakenSoon(s)
  {}

  lemma {:induction false} SoonKeptOn(s: Bridge, steps: seq<Step>)
    requires Inv(s) && Legal(s, steps) && Counted(steps) == []
    ensures OnLineSoon(Run(s, steps)) == OnLineSoon(s) && TakenSoon(Run(s, steps)) == TakenSoon(s)
    decreases |steps|
  {
    hide Inv, Next, Enabled, OnLineSoon, TakenSoon;
    if steps != [] {
      StepInv(s, steps[0]);
      SoonKept(s, steps[0]);
      SoonKeptOn(Next(s, steps[0]), steps[1..]);
    }
  }

  /** One turn of the main loop, under any interleaving: it copies what it counted as far as there is room, and
      if anything then waits for the serial line, the oldest byte of it is transmitted, and no other. */
  lemma {:induction false} TurnExact(s: Bridge, steps: seq<Step>, n: nat)
    requires Inv(s) && Legal(s, steps) && s.place == CountBytes && Run(s, steps).place == CountBytes
    requires Counted(steps) == [n]
    ensures var r := Run(s, steps);
      && |r.taken| == |s.taken| + Min(n, BUFF_LENGTH - |s.toSerial|)
      && |r.onSerial| == |s.onSerial| + (if s.toSerial != [] || n > 0 then 1 else 0)
      && r.onSerial + r.toSerial == r.taken
    decreases |steps|
  {
    hide Inv, Next, Enabled, OnLineSoon, TakenSoon;
    RunInv(s, steps);
    InvLine(Run(s, steps));
    var s1 := Next(s, steps[0]);
    StepInv(s, steps[0]);
    SoonKept(s, steps[0]);
    AtCount(Run(s, steps));
    if steps[0].Count? {
      assert Counted(steps)[0] == steps[0].n && Counted(steps)[1..] == Counted(steps[1..]);
      SoonKeptOn(s1, steps[1..]);
    } else {
      AtCountKept(s, steps[0]);
      TurnExact(s1, steps[1..], n);
    }
  }

  lemma InvLine(s: Bridge)
    requires Inv(s)
    ensures s.onSerial + s.toSerial == s.taken
  {}

  lemma AtCount(s: Bridge)
    requires s.place == CountBytes
    ensures OnLineSoon(s) == |s.onSerial| && TakenSoon(s) == |s.taken|
  {}

  lemma AtCountKept(s: Bridge, step: Step)
    requires s.place == CountBytes && Enabled(s, step) && !step.Count?
    ensures var s' := Next(s, step);
      && s'.place == CountBytes && s'.onSerial == s.onSerial && s'.toSerial == s.toSerial && s'.taken == s.taken
  {}

  /** All bytes on their way to the serial line, and on it. */
  function OnTheWay(s: Bridge): nat { |s.onSerial| + |s.toSerial| + |s.arrived| }

  lemma WayGrows(s: Bridge, step: Step)
    requires Inv(s) && Enabled(s, step)
    ensures var s' := Next(s, step);
      OnTheWay(s') >= OnTheWay(s) && |s'.onSerial| >= |s.onSerial| && OnLineSoon(s) <= OnTheWay(s)
  {}

  /** Every turn puts one byte on the line for as long as there is one on its way. */
  lemma {:induction false} LineProgress(s: Bridge, steps: seq<Step>)
    requires Inv(s) && Legal(s, steps) && Attentive(s, steps)
    ensures var r, turns := Run(s, steps), |Counted(steps)|;
      && Min(OnLineSoon(s) + turns, OnTheWay(s)) <= OnLineSoon(r) <= OnLineSoon(s) + turns
      && |r.onSerial| >= Min(OnLineSoon(s) + turns - 1, OnTheWay(s)) && |r.onSerial| >= |s.onSerial|
    decreases |steps|
  {
    hide Inv, Next, Enabled, OnLineSoon, OnTheWay;
    OnlyOnce(s);
    if steps != [] {
      StepInv(s, steps[0]);
      SoonKept(s, steps[0]);
      WayGrows(s, steps[0]);
      WayAhead(s);
      LineProgress(Next(s, steps[0]), steps[1..]);
    } else {
      WayAhead(s);
    }
  }

  lemma WayAhead(s: Bridge)
    requires Inv(s)
    ensures OnLineSoon(s) <= OnTheWay(s)
    ensures s.toSerial == [] && s.arrived == [] ==> OnTheWay(s) == |s.onSerial|
  {}

  lemma OnlyOnce(s: Bridge)
    ensures |s.onSerial| <= OnLineSoon(s) <= |s.onSerial| + 1
  {}

  /** The steps that are left of a turn at most. */
  function StepsLeft(s: Bridge): nat {
    match s.place
    case CountBytes => 0
    case SendToSerial => 1
    case TestUsb => 2
    case SendToHost => 3
    case TestUsart => 4
    case CopyByte => 5 + s.remaining
  }

  /** The longest turn: 255 bytes counted and copied, and the steps behind the copying loop. */
  const LONGEST_TURN: nat := 260

  lemma StepShortens(s: Bridge, step: Step)
    requires Inv(s) && Enabled(s, step)
    ensures StepsLeft(Next(s, step)) + (if step.Main? then 1 else 0)
            <= StepsLeft(s) + if step.Count? then LONGEST_TURN else 0
  {}

  /** The loop keeps coming round: its steps are at most those of the turns it has begun. */
  lemma {:induction false} TurnsEnd(s: Bridge, steps: seq<Step>)
    requires Inv(s) && Legal(s, steps)
    ensures LoopSteps(steps) + StepsLeft(Run(s, steps)) <= StepsLeft(s) + LONGEST_TURN * |Counted(steps)|
    decreases |steps|
  {
    hide Inv, Next, Enabled, StepsLeft;
    if steps != [] {
      StepInv(s, steps[0]);
      StepShortens(s, steps[0]);
      TurnsEnd(Next(s, steps[0]), steps[1..]);
    }
  }

  lemma {:induction false} RunSplit(s: Bridge, a: seq<Step>, b: seq<Step>)
    requires Legal(s, a + b)
    ensures Legal(s, a) && Legal(Run(s, a), b) && Run(s, a + b) == Run(Run(s, a), b)
    ensures FromHost(a + b) == FromHost(a) + FromHost(b)
    decreases |a|
  {
    hide Next, Enabled;
    if a == [] {
      assert a + b == b;
    } else {
      assert (a + b)[1..] == a[1..] + b && (a + b)[0] == a[0];
      RunSplit(Next(s, a[0]), a[1..], b);
      FromHostSplit(a + b);
      FromHostSplit(a);
      assert Packet(a[0]) + (FromHost(a[1..]) + FromHost(b)) == Packet(a[0]) + FromHost(a[1..]) + FromHost(b);
    }
  }

  lemma {:induction false} InventionsSplit(s: Bridge, a: seq<Step>, b: seq<Step>)
    ensures Inventions(s, a + b) == Inventions(s, a) + Inventions(Run(s, a), b)
    decreases |a|
  {
    hide Next, Invents;
    if a == [] {
      assert a + b == b;
    } else {
      assert (a + b)[1..] == a[1..] + b && (a + b)[0] == a[0];
      InventionsSplit(Next(s, a[0]), a[1..], b);
    }
  }

  /** When byte `k` from the host is on the serial line: it has arrived in `steps`, no copy finds the driver
      closed, and then the main loop comes round often enough to transmit it and the bytes before it. */
  lemma OnTheLine(steps: seq<Step>, more: seq<Step>, k: nat)
    requires Legal(INITIAL, steps + more) && Inventions(INITIAL, steps + more) == 0
    requires Attentive(Run(INITIAL, steps), more) && k < |FromHost(steps)|
    requires |Run(INITIAL, steps).onSerial| + |Counted(more)|
             > if Run(INITIAL, steps + more).place == CountBytes then k else k + 1
    ensures var r := Run(INITIAL, steps + more); k < |r.onSerial| && r.onSerial[k] == FromHost(steps)[k]
  {
    hide Inv, Legal, Run, Inventions, FromHost, Attentive, OnLineSoon, OnTheWay, Counted;
    var s, r := Run(INITIAL, steps), Run(INITIAL, steps + more);
    RunSplit(INITIAL, steps, more);
    InventionsSplit(INITIAL, steps, more);
    AllOnTheWay(steps);
    LineProgress(s, more);
    OnlyOnce(s);
    if r.place == CountBytes { AtCount(r); }
    SentInOrder(steps, more, k);
  }

  lemma AllOnTheWay(steps: seq<Step>)
    requires Legal(INITIAL, steps) && Inventions(INITIAL, steps) == 0
    ensures OnTheWay(Run(INITIAL, steps)) == |FromHost(steps)| && Inv(Run(INITIAL, steps))
  {
    hide Inv, Legal, Run, Inventions, FromHost;
    HostToSerialLossless(steps);
    InitialInv();
    RunInv(INITIAL, steps);
    var s := Run(INITIAL, steps);
    assert OnTheWay(s) == |s.onSerial + s.toSerial + s.arrived|;
  }

  lemma SentInOrder(steps: seq<Step>, more: seq<Step>, k: nat)
    requires Legal(INITIAL, steps + more) && Inventions(INITIAL, steps + more) == 0
    requires k < |FromHost(steps)| && k < |Run(INITIAL, steps + more).onSerial|
    ensures Run(INITIAL, steps + more).onSerial[k] == FromHost(steps)[k]
  {
    hide Legal, Run, Inventions, FromHost;
    var r := Run(INITIAL, steps + more);
    RunSplit(INITIAL, steps, more);
    HostToSerialLossless(steps + more);
    assert r.onSerial[k] == (r.onSerial + r.toSerial + r.arrived)[k];
  }

  lemma InitialInv()
    ensures Inv(INITIAL) && StepsLeft(INITIAL) == 0
  {}

  /** A bound in steps of the main loop, from wherever it is and whatever interrupts it. */
  lemma OnTheLineWithin(steps: seq<Step>, more: seq<Step>, k: nat)
    requires Legal(INITIAL, steps + more) && Inventions(INITIAL, steps + more) == 0
    requires Attentive(Run(INITIAL, steps), more) && k < |FromHost(steps)|
    requires LoopSteps(more) > LONGEST_TURN * (k + 2)
    ensures var r := Run(INITIAL, steps + more); k < |r.onSerial| && r.onSerial[k] == FromHost(steps)[k]
  {
    hide Inv, Legal, Run, Inventions, FromHost, Attentive, Counted, LoopSteps, StepsLeft;
    var s := Run(INITIAL, steps);
    RunSplit(INITIAL, steps, more);
    InitialInv();
    RunInv(INITIAL, steps);
    TurnsEnd(s, more);
    FewSteps(INITIAL, steps);
    assert |Counted(more)| > k + 1;
    OnTheLine(steps, more, k);
  }

  /** `remaining` is never more than what was counted. */
  lemma {:induction false} FewSteps(s: Bridge, steps: seq<Step>)
    requires Legal(s, steps) && StepsLeft(s) <= LONGEST_TURN
    ensures StepsLeft(Run(s, steps)) <= LONGEST_TURN
    decreases |steps|
  {
    hide Next, Enabled, StepsLeft;
    if steps != [] {
      FewStepsNext(s, steps[0]);
      FewSteps(Next(s, steps[0]), steps[1..]);
    }
  }

  lemma FewStepsNext(s: Bridge, step: Step)
    requires Enabled(s, step) && StepsLeft(s) <= LONGEST_TURN
    ensures StepsLeft(Next(s, step)) <= LONGEST_TURN
  {}

  // ---- Towards the host -----------------------------------------------------------------------

  /** In this turn the main loop has still to look at the buffer for the host, or to empty it. */
  function HostTurn(s: Bridge): nat {
    if s.place == CopyByte || s.place == TestUsart || s.place == SendToHost then 1 else 0
  }

  /** What it will then take out, if nothing arrives meanwhile. */
  function HostDue(s: Bridge): nat { if s.toHost != [] then HostTurn(s) else 0 }

  /** The oldest byte that waits when the loop next comes round is at least this one. */
  function LeftSoon(s: Bridge): int { Oldest(s) + HostDue(s) }

  lemma LeftGrows(s: Bridge, step: Step)
    requires Inv(s) && Enabled(s, step)
    ensures LeftSoon(Next(s, step)) >= Min(LeftSoon(s) + (if step.Count? then 1 else 0), |s.stored|)
    ensures LeftSoon(s) <= |s.stored| <= |Next(s, step).stored|
  {}

  lemma {:induction false} LeftProgress(s: Bridge, steps: seq<Step>)
    requires Inv(s) && Legal(s, steps)
    ensures LeftSoon(Run(s, steps)) >= Min(LeftSoon(s) + |Counted(steps)|, |s.stored|)
    decreases |steps|
  {
    hide Inv, Next, Enabled, LeftSoon;
    if steps != [] {
      StepInv(s, steps[0]);
      LeftGrows(s, steps[0]);
      LeftProgress(Next(s, steps[0]), steps[1..]);
    }
  }

  /** The host has byte `i`. */
  ghost predicate Received(s: Bridge, i: nat, v: byte) {
    exists k :: 0 <= k < |s.sent| && k < |s.onHost| && s.sent[k] == i && s.onHost[k] == v
  }

  /** A byte that was stored leaves the buffer within one turn for every byte in front of it and one for
      itself; then the host has received it, or it is lost. */
  lemma LeavesWithin(s: Bridge, steps: seq<Step>, i: nat)
    requires Inv(s) && Legal(s, steps) && Run(s, steps).place == CountBytes
    requires i < |s.stored| && Oldest(s) + |Counted(steps)| > i
    ensures Lost(Run(s, steps), i) || Received(Run(s, steps), i, s.stored[i])
  {
    hide Legal, Run, Counted;
    var r := Run(s, steps);
    RunInv(s, steps);
    LeftProgress(s, steps);
    StoredKept(s, steps);
    if !Lost(r, i) {
      var k :| 0 <= k < |r.sent| && r.sent[k] == i;
      assert r.stored[i] == r.stored[..|s.stored|][i];
      assert r.onHost[k] == s.stored[i];
    }
  }

  lemma {:induction false} StoredKept(s: Bridge, steps: seq<Step>)
    ensures var r := Run(s, steps); |s.stored| <= |r.stored| && r.stored[..|s.stored|] == s.stored
    decreases |steps|
  {
    hide Next;
    if steps == [] {
      assert s.stored[..|s.stored|] == s.stored;
    } else {
      StoredStep(s, steps[0]);
      var s1 := Next(s, steps[0]);
      StoredKept(s1, steps[1..]);
      var r := Run(s, steps);
      assert r.stored[..|s.stored|] == r.stored[..|s1.stored|][..|s.stored|];
    }
  }

  lemma StoredStep(s: Bridge, step: Step)
    ensures var s' := Next(s, step); |s.stored| <= |s'.stored| && s'.stored[..|s.stored|] == s.stored
  {}

  /** The driver sends whatever it is handed. */
  ghost predicate Willing(steps: seq<Step>) { forall step :: step in steps && step.Main? ==> Sends(step.driver) }

  lemma HostGrows(s: Bridge, step: Step)
    requires Inv(s) && Enabled(s, step) && (step.Main? ==> Sends(step.driver))
    ensures var s' := Next(s, step); var more := if step.Count? then 1 else 0;
      && |s'.onHost| + HostDue(s') >= Min(|s.onHost| + HostDue(s) + more, |s.onHost| + |s.toHost|)
      && |s'.onHost| + HostTurn(s') <= |s.onHost| + HostTurn(s) + more
      && |s'.onHost| + |s'.toHost| >= |s.onHost| + |s.toHost|
  {}

  lemma HostDueBounds(s: Bridge)
    ensures HostDue(s) <= HostTurn(s) && HostDue(s) <= |s.toHost|
    ensures s.place == CountBytes ==> HostTurn(s) == 0
  {}

  /** With a willing driver every turn sends the host one byte if one waits, and never more than one. */
  lemma {:induction false} HostProgress(s: Bridge, steps: seq<Step>)
    requires Inv(s) && Legal(s, steps) && Willing(steps)
    ensures var r, turns := Run(s, steps), |Counted(steps)|;
      && |r.onHost| + HostDue(r) >= Min(|s.onHost| + HostDue(s) + turns, |s.onHost| + |s.toHost|)
      && |r.onHost| + HostTurn(r) <= |s.onHost| + HostTurn(s) + turns
    decreases |steps|
  {
    hide Inv, Next, Enabled, HostDue, HostTurn;
    if steps != [] {
      assert steps[0] in steps;
      assert forall step :: step in steps[1..] ==> step in steps;
      StepInv(s, steps[0]);
      HostGrows(s, steps[0]);
      HostProgress(Next(s, steps[0]), steps[1..]);
    }
    HostDueBounds(s);
  }

  /** In particular one turn sends exactly one byte, the oldest that has not been overrun, when one waits. */
  lemma HostTurnExact(s: Bridge, steps: seq<Step>, n: nat)
    requires Inv(s) && Legal(s, steps) && Willing(steps) && Counted(steps) == [n]
    requires s.place == CountBytes && Run(s, steps).place == CountBytes && s.toHost != []
    ensures var r := Run(s, steps); |r.onHost| == |s.onHost| + 1
  {
    hide Inv, Legal, Run, Counted, Willing, HostDue, HostTurn;
    HostProgress(s, steps);
    HostDueBounds(s);
    HostDueBounds(Run(s, steps));
  }
}
