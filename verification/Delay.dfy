/** The scheduler's delay test on a 16-bit tick counter, against unbounded time. */
module Delay {
  import opened Usb

  const MAX_DELAYCTR_COUNT: uint16 := 0xFFFF
  const TASK_MAX_DELAY: uint16 := 0xFFFE

  class Scheduler {
    var TickCounter: uint16
    var DelayCounter: uint16

    method HasDelayElapsed(delay: uint16) returns (elapsed: bool)
      modifies this`DelayCounter
      ensures (elapsed, DelayCounter) == Poll(delay, TickCounter, old(DelayCounter))
    {
      var current := TickCounter;
      var start := DelayCounter;
      if current >= start {
        if current - start >= delay {
          DelayCounter := current;
          return true;
        }
      } else {
        if (MAX_DELAYCTR_COUNT - start) + current >= delay {
          DelayCounter := current;
          return true;
        }
      }
      return false;
    }

    method ResetDelay()
      modifies this`DelayCounter
      ensures DelayCounter == TickCounter
    {
      DelayCounter := TickCounter;
    }

    /** The tick interrupt. */
    method Tick()
      modifies this`TickCounter
      ensures TickCounter == (old(TickCounter) + 1) % 65536
    {
      TickCounter := if TickCounter == MAX_DELAYCTR_COUNT then 0 else TickCounter + 1;
    }
  }

  /** Ticks since `start` as the test counts them: one too few once the counter has wrapped. */
  function Elapsed(current: uint16, start: uint16): uint16 {
    if current >= start then current - start else MAX_DELAYCTR_COUNT - start + current
  }

  /** One test: whether it fires, and the delay counter after it. */
  function Poll(delay: uint16, current: uint16, start: uint16): (bool, uint16) {
    if Elapsed(current, start) >= delay then (true, current) else (false, start)
  }

  /** The counter at an absolute time, in ticks. */
  function CounterAt(time: nat): uint16 { time % 65536 }

  function Wraps(time: nat): nat { time / 65536 }

  /** The times at which a test polled at `now + 1`, ..., `now + n` fires. */
  function Firings(delay: uint16, now: nat, start: uint16, n: nat): (times: seq<nat>)
    decreases n
  {
    if n == 0 then []
    else
      var (fired, start') := Poll(delay, CounterAt(now + 1), start);
      (if fired then [now + 1] else []) + Firings(delay, now + 1, start', n - 1)
  }

  /** The distance from a firing at `time` to the next one. */
  function Gap(delay: uint16, time: nat): nat {
    if CounterAt(time) + delay <= MAX_DELAYCTR_COUNT then delay else delay + 1
  }

  /** The time of the k-th firing after `time`. */
  function Firing(delay: uint16, time: nat, k: nat): nat
    decreases k
  {
    if k == 0 then time else Firing(delay, time + Gap(delay, time), k - 1)
  }

  /** A gap is one tick longer than the delay exactly when the counter wraps within it. */
  lemma GapWraps(delay: uint16, time: nat)
    requires 1 <= delay <= TASK_MAX_DELAY
    ensures Gap(delay, time) == delay + Wraps(time + Gap(delay, time)) - Wraps(time)
    ensures Wraps(time + Gap(delay, time)) - Wraps(time) <= 1
  {
    var q, r := Wraps(time), CounterAt(time);
    assert time == 65536 * q + r;
  }

  /** Polled every tick, the test fires at the end of the gap and not before. */
  lemma PollAt(delay: uint16, time: nat, d: nat)
    requires 1 <= delay <= TASK_MAX_DELAY && 1 <= d <= Gap(delay, time)
    ensures Poll(delay, CounterAt(time + d), CounterAt(time)).0 <==> d == Gap(delay, time)
  {
    var q, r := Wraps(time), CounterAt(time);
    assert time == 65536 * q + r;
    if r + d <= 65535 {
      assert CounterAt(time + d) == r + d;
    } else {
      assert time + d == 65536 * (q + 1) + (r + d - 65536);
      assert CounterAt(time + d) == r + d - 65536;
    }
  }

  lemma {:induction false} FiringsFrom(delay: uint16, time: nat, now: nat, n: nat)
    requires 1 <= delay <= TASK_MAX_DELAY && time <= now < time + Gap(delay, time)
    ensures var times := Firings(delay, now, CounterAt(time), n);
      && (forall j :: 0 <= j < |times| ==> times[j] == Firing(delay, time, j + 1))
      && (|times| == 0 ==> now + n < Firing(delay, time, 1))
      && (|times| > 0 ==> times[|times| - 1] <= now + n < Firing(delay, times[|times| - 1], 1))
    decreases n
  {
    hide Gap, CounterAt;
    assert Firing(delay, time, 1) == time + Gap(delay, time) by {
      assert Firing(delay, time + Gap(delay, time), 0) == time + Gap(delay, time);
    }
    if n > 0 {
      PollAt(delay, time, now + 1 - time);
      if now + 1 == time + Gap(delay, time) {
        GapPositive(delay, now + 1);
        FiringsFrom(delay, now + 1, now + 1, n - 1);
      } else {
        FiringsFrom(delay, time, now + 1, n - 1);
      }
    }
  }

  lemma GapPositive(delay: uint16, time: nat)
    requires 1 <= delay
    ensures delay <= Gap(delay, time) <= delay + 1
  {}

  /** A delay of at most TASK_MAX_DELAY, tested once per tick since `time`, fires at exactly the times
      `Firing(1)`, `Firing(2)`, ...: never early, and none is missed. */
  lemma FiringsExact(delay: uint16, time: nat, n: nat)
    requires 1 <= delay <= TASK_MAX_DELAY
    ensures var times := Firings(delay, time, CounterAt(time), n);
      && (forall j :: 0 <= j < |times| ==> times[j] == Firing(delay, time, j + 1))
      && (var last := if times == [] then time else times[|times| - 1]; last <= time + n < last + Gap(delay, last))
  {
    hide Gap, CounterAt;
    GapPositive(delay, time);
    FiringsFrom(delay, time, time, n);
    var times := Firings(delay, time, CounterAt(time), n);
    var last := if times == [] then time else times[|times| - 1];
    assert Firing(delay, last, 1) == last + Gap(delay, last) by {
      assert Firing(delay, last + Gap(delay, last), 0) == last + Gap(delay, last);
    }
  }

  /** `k` firings take `k` delays and one tick more for every wrap of the counter meanwhile. */
  lemma {:induction false} FiringsTake(delay: uint16, time: nat, k: nat)
    requires 1 <= delay <= TASK_MAX_DELAY
    ensures Firing(delay, time, k) - time == k * delay + Wraps(Firing(delay, time, k)) - Wraps(time)
    ensures Wraps(Firing(delay, time, k)) >= Wraps(time)
    decreases k
  {
    hide Gap, Wraps;
    if k > 0 {
      var next := time + Gap(delay, time);
      GapWraps(delay, time);
      GapPositive(delay, time);
      FiringsTake(delay, next, k - 1);
      WrapsMonotone(time, next);
      assert k * delay == (k - 1) * delay + delay;
    }
  }

  lemma WrapsMonotone(a: nat, b: nat)
    requires a <= b
    ensures Wraps(a) <= Wraps(b)
  {}

  /** The longest representable delay never fires when its counter starts at 1. */
  lemma {:induction false} TooLong(now: nat, n: nat)
    ensures Firings(0xFFFF, now, 1, n) == []
    decreases n
  {
    if n > 0 { TooLong(now + 1, n - 1); }
  }

  lemma FiresAtOnce(time: nat)
    ensures Firings(0, time, CounterAt(time), 1) == [time + 1]
  {
    assert Firings(0, time + 1, CounterAt(time + 1), 0) == [];
  }

  ghost predicate EverFires(delay: uint16, time: nat) {
    exists n: nat :: Firings(delay, time, CounterAt(time), n) != []
  }

  lemma ShortFires(delay: uint16, time: nat)
    requires delay <= TASK_MAX_DELAY
    ensures EverFires(delay, time)
  {
    hide Firings, CounterAt, Gap;
    if delay == 0 {
      FiresAtOnce(time);
    } else {
      FiringsExact(delay, time, delay + 1);
      GapPositive(delay, time);
      assert Firings(delay, time, CounterAt(time), delay + 1) != [];
    }
  }

  /** Started at any time, a delay fires sooner or later exactly when it is at most TASK_MAX_DELAY. */
  lemma FiresIff(delay: uint16)
    ensures (forall time: nat :: EverFires(delay, time)) <==> delay <= TASK_MAX_DELAY
  {
    hide Firings;
    if delay <= TASK_MAX_DELAY {
      forall time: nat ensures EverFires(delay, time) { ShortFires(delay, time); }
    } else {
      forall n: nat ensures Firings(delay, 1, CounterAt(1), n) == [] { TooLong(1, n); }
      assert !EverFires(delay, 1);
    }
  }
}
