/** The magnetic stripe reader: samples of the reader's pins become bits in three track buffers, and
    the buffers become key presses. */
module Magstripe {
  import opened BitBuffer

  const KEY_NONE: nat := 0
  const KEY_1: nat := 30
  const KEY_0: nat := 39
  const KEY_ENTER: nat := 40
  const TOTAL_TRACKS: nat := 3

  /** The pins of a board: the clock and data line of each track, and the card switch. */
  datatype Pins = Pins(clock: seq<nat>, data: seq<nat>, card: nat)

  ghost predicate PinsOk(p: Pins) {
    && |p.clock| == TOTAL_TRACKS && |p.data| == TOTAL_TRACKS && p.card < 8
    && forall t :: 0 <= t < TOTAL_TRACKS ==> p.clock[t] < 8 && p.data[t] < 8
  }

  // ---- From samples to bits -----------------------------------------------------------

  predicate Changed(s: bits, prev: bits, k: nat)
    requires k < 8
  {
    IsSet(s ^ prev, k)
  }

  /** The bits that the sampling loop stores for one track, `prev` being the sample before. */
  function Sampled(samples: seq<bits>, prev: bits, clock: nat, data: nat): seq<bool>
    requires clock < 8 && data < 8
  {
    if samples == [] then []
    else
      var s := samples[0];
      (if IsSet(s, clock) && Changed(s, prev, clock) then [IsSet(s, data)] else [])
      + Sampled(samples[1..], s, clock, data)
  }

  /** The clock line rises in sample `k`; before the first sample it counts as low. */
  predicate Rises(samples: seq<bits>, clock: nat, k: nat)
    requires clock < 8 && k < |samples|
  {
    IsSet(samples[k], clock) && (k == 0 || !IsSet(samples[k - 1], clock))
  }

  /** The data levels at the rising clock edges among the first `n` samples. */
  function EdgeLevels(samples: seq<bits>, clock: nat, data: nat, n: nat): seq<bool>
    requires clock < 8 && data < 8 && n <= |samples|
  {
    if n == 0 then []
    else EdgeLevels(samples, clock, data, n - 1)
         + if Rises(samples, clock, n - 1) then [IsSet(samples[n - 1], data)] else []
  }

  /** For a clock mask of one bit, "high and changed" is a rising edge. */
  lemma RisingEdge(s: bits, prev: bits, k: nat)
    requires k < 8
    ensures IsSet(s, k) && Changed(s, prev, k) <==> IsSet(s, k) && !IsSet(prev, k)
  {
    hide Mask;
    XorMasked(s, prev, Mask(k));
    OneBit(s, k);
    OneBit(prev, k);
  }

  lemma OneBit(s: bits, k: nat)
    requires k < 8
    ensures s & Mask(k) == 0 || s & Mask(k) == Mask(k)
  {}

  lemma {:induction false} SampledSnoc(samples: seq<bits>, prev: bits, s: bits, clock: nat, data: nat)
    requires clock < 8 && data < 8
    ensures Sampled(samples + [s], prev, clock, data)
         == Sampled(samples, prev, clock, data)
             + Sampled([s], if samples == [] then prev else samples[|samples| - 1], clock, data)
  {
    hide IsSet, Changed;
    if samples == [] {
      assert [] + [s] == [s];
    } else {
      assert (samples + [s])[1..] == samples[1..] + [s];
      SampledSnoc(samples[1..], samples[0], s, clock, data);
    }
  }

  /** The loop stores the data levels at the rising edges, in order. */
  lemma {:induction false} SampledIsEdges(samples: seq<bits>, clock: nat, data: nat, n: nat)
    requires clock < 8 && data < 8 && n <= |samples|
    ensures Sampled(samples[..n], 0, clock, data) == EdgeLevels(samples, clock, data, n)
  {
    hide IsSet, Changed;
    if n > 0 {
      SampledIsEdges(samples, clock, data, n - 1);
      var s, prev := samples[n - 1], if n == 1 then 0 as bits else samples[n - 2];
      assert samples[..n] == samples[..n - 1] + [s];
      SampledSnoc(samples[..n - 1], 0, s, clock, data);
      assert [s][1..] == [];
      RisingEdge(s, prev, clock);
      ZeroLow(clock);
    }
  }

  lemma ZeroLow(k: nat)
    requires k < 8
    ensures !IsSet(0, k)
  {}

  /** How many samples pass before the card is gone. */
  function WhileCard(samples: seq<bits>, card: nat): (n: nat)
    requires card < 8
    ensures n <= |samples| && (n < |samples| ==> !IsSet(samples[n], card))
    ensures forall k :: 0 <= k < n ==> IsSet(samples[k], card)
  {
    if samples == [] || !IsSet(samples[0], card) then 0 else 1 + WhileCard(samples[1..], card)
  }

  // ---- From bits to key reports ------------------------------------------------------------

  /** The track buffers, the index of the one being sent (3 when there is none), and the release flag. */
  datatype Reader = Reader(tracks: seq<Ring>, current: nat, release: bool)

  ghost predicate ReaderOk(r: Reader) {
    && |r.tracks| == TOTAL_TRACKS && r.current <= TOTAL_TRACKS
    && forall t :: 0 <= t < TOTAL_TRACKS ==> RingOk(r.tracks[t])
  }

  function Key(bit: bool): nat { if bit then KEY_1 else KEY_0 }

  /** One run of the report callback: the key it reports and the state after it. */
  function Report(r: Reader): (p: (nat, Reader))
    requires ReaderOk(r)
    ensures ReaderOk(p.1)
  {
    var r1 := r.(release := !r.release);
    if r1.release || r.current == TOTAL_TRACKS then (KEY_NONE, r1)
    else if r.tracks[r.current].elements == 0 then (KEY_ENTER, r1.(current := r.current + 1))
    else
      var (bit, track) := Take(r.tracks[r.current]);
      (Key(bit), r1.(tracks := r.tracks[r.current := track]))
  }

  /** The next `n` reports. */
  function Reports(r: Reader, n: nat): (keys: seq<nat>)
    requires ReaderOk(r)
    ensures |keys| == n
    decreases n
  {
    if n == 0 then []
    else
      var (key, r') := Report(r);
      [key] + Reports(r', n - 1)
  }

  function Keys(track: seq<bool>): (keys: seq<nat>)
    ensures forall k :: 0 <= k < |keys| ==> keys[k] == KEY_0 || keys[k] == KEY_1
  {
    if track == [] then [] else [Key(track[0])] + Keys(track[1..])
  }

  /** Tracks as they are typed: the bits of each, and an ENTER behind them. */
  function Lines(tracks: seq<seq<bool>>): (keys: seq<nat>)
    ensures KEY_NONE !in keys
  {
    if tracks == [] then [] else Keys(tracks[0]) + [KEY_ENTER] + Lines(tracks[1..])
  }

  function KeyAt(keys: seq<nat>, k: nat): nat { if k < |keys| then keys[k] else KEY_NONE }

  /** How `n` reports type `keys`: every other report is a release, and the ones between are the keys, in
      order, and then nothing. */
  function Interleaved(release: bool, keys: seq<nat>, n: nat): (reports: seq<nat>)
    ensures |reports| == n
  {
    seq(n, k requires 0 <= k < n => if (k % 2 == 0) == release then KeyAt(keys, k / 2) else KEY_NONE)
  }

  /** The reports to come type `keys` and nothing else. */
  ghost predicate Types(r: Reader, keys: seq<nat>)
    requires ReaderOk(r)
  {
    forall n: nat :: Reports(r, n) == Interleaved(r.release, keys, n)
  }

  /** What the buffers still to be sent will deliver, the current one first. */
  function Unsent(r: Reader): (u: seq<seq<bool>>)
    requires ReaderOk(r)
    ensures |u| == TOTAL_TRACKS - r.current
  {
    seq(TOTAL_TRACKS - r.current, k requires 0 <= k < TOTAL_TRACKS - r.current =>
      TakeAll(r.tracks[r.current + k], r.tracks[r.current + k].elements))
  }

  /** A report that is no release types the next key, and nothing else does. */
  lemma ReportTypes(r: Reader)
    requires ReaderOk(r)
    ensures var (key, r') := Report(r); var keys := Lines(Unsent(r));
      && r'.release == !r.release
      && (!r.release ==> key == KEY_NONE && Lines(Unsent(r')) == keys)
      && (r.release && keys == [] ==> key == KEY_NONE && Lines(Unsent(r')) == [])
      && (r.release && keys != [] ==> key == keys[0] && Lines(Unsent(r')) == keys[1..])
  {
    hide Take;
    var r', u := Report(r).1, Unsent(r);
    if !r.release {
      assert Unsent(r') == u;
    } else if r.current < TOTAL_TRACKS {
      var track := r.tracks[r.current];
      assert u[0] == TakeAll(track, track.elements);
      if track.elements == 0 {
        assert Unsent(r') == u[1..];
      } else {
        TakeCounts(track);
        assert u[0] == [Take(track).0] + u[0][1..];
        assert Unsent(r') == [u[0][1..]] + u[1..];
        assert Lines(u) == [Key(u[0][0])] + (Keys(u[0][1..]) + [KEY_ENTER] + Lines(u[1..]));
      }
    }
  }

  lemma TakeCounts(track: Ring)
    requires RingOk(track) && track.elements > 0
    ensures Take(track).1.elements == track.elements - 1
    ensures TakeAll(track, track.elements)
         == [Take(track).0] + TakeAll(Take(track).1, Take(track).1.elements)
  {}

  lemma {:induction false} ReportsFrom(r: Reader, n: nat)
    requires ReaderOk(r)
    ensures Reports(r, n) == Interleaved(r.release, Lines(Unsent(r)), n)
    decreases n
  {
    hide Unsent, Lines, Report;
    if n > 0 {
      ReportTypes(r);
      var (key, r') := Report(r);
      ReportsFrom(r', n - 1);
      OneReport(r.release, Lines(Unsent(r)), n);
    }
  }

  lemma OneReport(release: bool, keys: seq<nat>, n: nat)
    requires n > 0
    ensures Interleaved(release, keys, n)
         == [if release then KeyAt(keys, 0) else KEY_NONE]
            + Interleaved(!release, if release && keys != [] then keys[1..] else keys, n - 1)
  {
    var rest := if release && keys != [] then keys[1..] else keys;
    forall k | 1 <= k < n ensures Interleaved(release, keys, n)[k] == Interleaved(!release, rest, n - 1)[k - 1] {
      assert (k % 2 == 0) == ((k - 1) % 2 != 0);
      if release && k % 2 == 0 { assert (k - 1) / 2 == k / 2 - 1; }
      if !release && k % 2 == 1 { assert (k - 1) / 2 == k / 2; }
    }
  }

  /** The callback types what the buffers deliver, and no other keys. */
  lemma TypesExactly(r: Reader, keys: seq<nat>)
    requires ReaderOk(r) && KEY_NONE !in keys
    ensures Types(r, keys) <==> keys == Lines(Unsent(r))
  {
    hide Unsent, Lines, Reports, Interleaved;
    var typed := Lines(Unsent(r));
    forall n: nat ensures Reports(r, n) == Interleaved(r.release, typed, n) { ReportsFrom(r, n); }
    if Types(r, keys) {
      forall j: nat ensures KeyAt(keys, j) == KeyAt(typed, j) { KeyReported(r, keys, typed, j); }
      SameKeys(keys, typed);
    }
  }

  lemma KeyReported(r: Reader, a: seq<nat>, b: seq<nat>, j: nat)
    requires ReaderOk(r) && Types(r, a) && Types(r, b)
    ensures KeyAt(a, j) == KeyAt(b, j)
  {
    hide Reports;
    var k := if r.release then 2 * j else 2 * j + 1;
    assert k / 2 == j && (k % 2 == 0) == r.release;
    assert Reports(r, k + 1)[k] == KeyAt(a, j);
    assert Reports(r, k + 1)[k] == KeyAt(b, j);
  }

  lemma SameKeys(a: seq<nat>, b: seq<nat>)
    requires KEY_NONE !in a && KEY_NONE !in b && forall j: nat :: KeyAt(a, j) == KeyAt(b, j)
    ensures a == b
  {
    assert forall j :: 0 <= j < |a| ==> a[j] in a;
    assert forall j :: 0 <= j < |b| ==> b[j] in b;
    assert KeyAt(a, |b|) == KeyAt(b, |b|) && KeyAt(a, |a|) == KeyAt(b, |a|);
    forall j | 0 <= j < |a| ensures a[j] == b[j] { assert KeyAt(a, j) == KeyAt(b, j); }
  }

  // ---- From card to keys ---------------------------------------------------------------------

  /** No other tracks are typed the same way. */
  lemma {:induction false} LinesOnce(a: seq<seq<bool>>, b: seq<seq<bool>>)
    requires |a| == |b| && Lines(a) == Lines(b)
    ensures a == b
    decreases |a|
  {
    if a != [] {
      LineEnds(a[0], b[0], Lines(a[1..]), Lines(b[1..]));
      LinesOnce(a[1..], b[1..]);
    }
  }

  lemma {:induction false} LineEnds(a: seq<bool>, b: seq<bool>, x: seq<nat>, y: seq<nat>)
    requires Keys(a) + [KEY_ENTER] + x == Keys(b) + [KEY_ENTER] + y
    ensures a == b && x == y
    decreases |a|
  {
    var s, t := Keys(a) + [KEY_ENTER] + x, Keys(b) + [KEY_ENTER] + y;
    assert s[0] == t[0];
    if a == [] {
      assert b == [] && s[1..] == x && t[1..] == y;
    } else {
      assert b != [];
      assert s[1..] == Keys(a[1..]) + [KEY_ENTER] + x && t[1..] == Keys(b[1..]) + [KEY_ENTER] + y;
      LineEnds(a[1..], b[1..], x, y);
    }
  }

  /** The data levels that a swipe has at the rising clock edges of track `t`. */
  function Levels(pins: Pins, samples: seq<bits>, t: nat): seq<bool>
    requires PinsOk(pins) && t < TOTAL_TRACKS
  {
    EdgeLevels(samples, pins.clock[t], pins.data[t], WhileCard(samples, pins.card))
  }

  /** The state after a swipe. */
  function Swiped(r: Reader, pins: Pins, samples: seq<bits>): (r': Reader)
    requires ReaderOk(r) && PinsOk(pins)
    ensures ReaderOk(r')
  {
    var n := WhileCard(samples, pins.card);
    r.(tracks := seq(TOTAL_TRACKS, t requires 0 <= t < TOTAL_TRACKS =>
                       PutAll(r.tracks[t], Sampled(samples[..n], 0, pins.clock[t], pins.data[t]))),
       current := 0)
  }

  /** A track that a buffer of `size` bits delivers: the 16-bit count does not wrap, and all levels that
      find the buffer full are 0. */
  predicate Fits(size: nat, track: seq<bool>) {
    |track| < 65536 && forall k :: size <= k < |track| ==> !track[k]
  }

  lemma TrackIff(r: Ring, live: seq<bool>, bs: seq<bool>)
    requires Fifo(r, live)
    ensures var r' := PutAll(r, bs); TakeAll(r', r'.elements) == live + bs <==> Fits(Capacity(r), live + bs)
  {
    hide Held, PutAll, TakeAll;
    HeldOk(r, live);
    PutAllCounts(r, bs);
    if |live + bs| < 65536 { OverflowIff(r, live, bs); }
  }

  /** What is typed for a track is, level by level, usage 30 (the key 1) for a level of 1 and usage 39 (the key 0)
      for a level of 0, and usage 40 (ENTER) behind them, as the keyboard page of the HID usage tables has them. */
  lemma {:induction false} UsagesTyped(track: seq<bool>, rest: seq<seq<bool>>, k: nat)
    requires k <= |track|
    ensures var keys := Lines([track] + rest);
      && |track| < |keys| && keys[|track| + 1..] == Lines(rest)
      && keys[k] == if k == |track| then 40 else if track[k] then 30 else 39
    decreases |track|
  {
    assert ([track] + rest)[1..] == rest;
    KeysCoded(track, k);
    assert Keys(track) + [KEY_ENTER] + Lines(rest) == Lines([track] + rest);
  }

  lemma {:induction false} KeysCoded(track: seq<bool>, k: nat)
    ensures |Keys(track)| == |track|
    ensures k < |track| ==> Keys(track)[k] == if track[k] then 30 else 39
    decreases |track|
  {
    if track != [] { KeysCoded(track[1..], if k == 0 then 0 else k - 1); }
  }

  /** Card to keyboard: with `live` still unsent, the callback types after a swipe, track by track, what was
      unsent and the data levels at the rising clock edges, if and only if every track fits its buffer. */
  lemma SwipeTypesCard(r: Reader, live: seq<seq<bool>>, pins: Pins, samples: seq<bits>)
    requires ReaderOk(r) && PinsOk(pins) && |live| == TOTAL_TRACKS
    requires forall t :: 0 <= t < TOTAL_TRACKS ==> Fifo(r.tracks[t], live[t])
    ensures var card := seq(TOTAL_TRACKS, t requires 0 <= t < TOTAL_TRACKS => live[t] + Levels(pins, samples, t));
      Types(Swiped(r, pins, samples), Lines(card))
      <==> forall t :: 0 <= t < TOTAL_TRACKS ==> Fits(Capacity(r.tracks[t]), card[t])
  {
    hide Types, Lines, Fits, Fifo, Levels, PinsOk, RingOk, PutAll, TakeAll;
    var card := seq(TOTAL_TRACKS, t requires 0 <= t < TOTAL_TRACKS => live[t] + Levels(pins, samples, t));
    var r' := Swiped(r, pins, samples);
    TypesExactly(r', Lines(card));
    forall t | 0 <= t < TOTAL_TRACKS ensures Unsent(r')[t] == card[t] <==> Fits(Capacity(r.tracks[t]), card[t]) {
      SwipedTrack(r, pins, samples, t);
      TrackIff(r.tracks[t], live[t], Levels(pins, samples, t));
    }
    if Lines(card) == Lines(Unsent(r')) { LinesOnce(card, Unsent(r')); }
    if forall t :: 0 <= t < TOTAL_TRACKS ==> Fits(Capacity(r.tracks[t]), card[t]) {
      assert forall t :: 0 <= t < TOTAL_TRACKS ==> Unsent(r')[t] == card[t];
      assert Unsent(r') == card;
    }
  }

  lemma SwipedTrack(r: Reader, pins: Pins, samples: seq<bits>, t: nat)
    requires ReaderOk(r) && PinsOk(pins) && t < TOTAL_TRACKS
    ensures Swiped(r, pins, samples).tracks[t] == PutAll(r.tracks[t], Levels(pins, samples, t))
    ensures var r' := Swiped(r, pins, samples).tracks[t];
      Unsent(Swiped(r, pins, samples))[t] == TakeAll(r', r'.elements)
  {
    SampledIsEdges(samples, pins.clock[t], pins.data[t], WhileCard(samples, pins.card));
  }

  // ---- The firmware --------------------------------------------------------------------------

  class Firmware {
    const pins: Pins
    const trackA: Buffer
    const trackB: Buffer
    const trackC: Buffer
    var CurrentTrackBuffer: nat
    var IsKeyReleaseReport: bool

    ghost predicate Valid()
      reads this, trackA, trackB, trackC
    {
      && PinsOk(pins) && CurrentTrackBuffer <= TOTAL_TRACKS
      && trackA.Valid() && trackB.Valid() && trackC.Valid()
      && trackA != trackB && trackA != trackC && trackB != trackC
      && trackA.Data != trackB.Data && trackA.Data != trackC.Data && trackB.Data != trackC.Data
    }

    ghost function View(): (r: Reader)
      requires Valid()
      reads this, trackA, trackB, trackC, trackA.Data, trackB.Data, trackC.Data
      ensures ReaderOk(r)
    {
      Reader([trackA.View(), trackB.View(), trackC.View()], CurrentTrackBuffer, IsKeyReleaseReport)
    }

    /** The firmware after main has initialised the buffers. */
    constructor (pins: Pins, bytes: nat)
      requires PinsOk(pins) && 0 < 8 * bytes < 65536
      ensures Valid() && this.pins == pins && View().current == TOTAL_TRACKS && !View().release
      ensures forall t :: 0 <= t < TOTAL_TRACKS ==>
        Fifo(View().tracks[t], []) && Capacity(View().tracks[t]) == 8 * bytes
      ensures fresh(trackA) && fresh(trackA.Data) && fresh(trackB) && fresh(trackB.Data) && fresh(trackC)
              && fresh(trackC.Data)
    {
      hide Fifo, PinsOk, RingOk, Mask;
      this.pins := pins;
      trackA := new Buffer(bytes);
      trackB := new Buffer(bytes);
      trackC := new Buffer(bytes);
      CurrentTrackBuffer, IsKeyReleaseReport := TOTAL_TRACKS, false;
      new;
    }

    /** Sample one track: store the data level if its clock has just gone high. */
    method SampleTrack(track: Buffer, clock: nat, data: nat, now: bits, prev: bits)
      requires clock < 8 && data < 8 && track.Valid()
      modifies track, track.Data
      ensures track.Valid() && track.View() == PutAll(old(track.View()), Sampled([now], prev, clock, data))
    {
      hide IsSet, Changed, Put;
      assert [now][1..] == [];
      var dataPinLevel := IsSet(now, data);
      var clockPinLevel := IsSet(now, clock);
      var clockLevelChanged := Changed(now, prev, clock);
      if clockPinLevel && clockLevelChanged {
        track.StoreNextBit(dataPinLevel);
      }
    }

    /** ReadMagstripeData, for the samples from now until the card is gone. */
    method ReadMagstripeData(samples: seq<bits>)
      requires Valid() && WhileCard(samples, pins.card) < |samples|
      modifies this`CurrentTrackBuffer, trackA, trackB, trackC, trackA.Data, trackB.Data, trackC.Data
      ensures Valid() && View() == Swiped(old(View()), pins, samples)
    {
      hide IsSet, Sampled, PinsOk, Buffer.Valid, Buffer.View, RingOk, PutAll;
      PinsInRange(pins);
      ghost var w := WhileCard(samples, pins.card);
      ghost var a, b, c := trackA.View(), trackB.View(), trackC.View();
      NoSamples(pins, a, b, c);
      var prev: bits := 0;
      var i := 0;
      while IsSet(samples[i], pins.card)
        invariant i <= w && Valid()
        invariant prev == if i == 0 then 0 else samples[i - 1]
        invariant trackA.View() == PutAll(a, Sampled(samples[..i], 0, pins.clock[0], pins.data[0]))
        invariant trackB.View() == PutAll(b, Sampled(samples[..i], 0, pins.clock[1], pins.data[1]))
        invariant trackC.View() == PutAll(c, Sampled(samples[..i], 0, pins.clock[2], pins.data[2]))
        decreases w - i
      {
        OneMore(a, samples, i, pins.clock[0], pins.data[0]);
        OneMore(b, samples, i, pins.clock[1], pins.data[1]);
        OneMore(c, samples, i, pins.clock[2], pins.data[2]);
        SampleTrack(trackA, pins.clock[0], pins.data[0], samples[i], prev);
        SampleTrack(trackB, pins.clock[1], pins.data[1], samples[i], prev);
        SampleTrack(trackC, pins.clock[2], pins.data[2], samples[i], prev);
        prev := samples[i];
        i := i + 1;
      }
      CurrentTrackBuffer := 0;
    }

    /** The next key of one track, ENTER when the track is exhausted. */
    method SendFrom(track: Buffer) returns (key: nat, exhausted: bool)
      requires track.Valid()
      modifies track, track.Data
      ensures track.Valid() && exhausted == (old(track.View()).elements == 0)
      ensures exhausted ==> key == KEY_ENTER && track.View() == old(track.View())
      ensures !exhausted ==> (key, track.View()) == (Key(Take(old(track.View())).0), Take(old(track.View())).1)
    {
      hide Take;
      exhausted := track.Elements == 0;
      if exhausted {
        key := KEY_ENTER;
      } else {
        var bit := track.GetNextBit();
        key := if bit then KEY_1 else KEY_0;
      }
    }

    /** The report callback. */
    method CreateHIDReport() returns (key: nat)
      requires Valid()
      modifies this, trackA, trackB, trackC, trackA.Data, trackB.Data, trackC.Data
      ensures Valid() && (key, View()) == Report(old(View()))
    {
      hide Buffer.Valid, Buffer.View, Take, RingOk;
      IsKeyReleaseReport := !IsKeyReleaseReport;
      if IsKeyReleaseReport || CurrentTrackBuffer == TOTAL_TRACKS {
        return KEY_NONE;
      }
      var exhausted;
      if CurrentTrackBuffer == 0 {
        key, exhausted := SendFrom(trackA);
      } else if CurrentTrackBuffer == 1 {
        key, exhausted := SendFrom(trackB);
      } else {
        key, exhausted := SendFrom(trackC);
      }
      ghost var c := CurrentTrackBuffer;
      assert View().tracks == old(View().tracks)[c := View().tracks[c]];
      if exhausted { CurrentTrackBuffer := CurrentTrackBuffer + 1; }
    }
  }

  lemma PinsInRange(p: Pins)
    requires PinsOk(p)
    ensures |p.clock| == 3 && |p.data| == 3 && p.card < 8
    ensures p.clock[0] < 8 && p.clock[1] < 8 && p.clock[2] < 8 && p.data[0] < 8 && p.data[1] < 8 && p.data[2] < 8
  {}

  lemma NoSamples(p: Pins, a: Ring, b: Ring, c: Ring)
    requires PinsOk(p) && RingOk(a) && RingOk(b) && RingOk(c)
    ensures forall t :: 0 <= t < 3 ==> Sampled([], 0, p.clock[t], p.data[t]) == []
    ensures PutAll(a, []) == a && PutAll(b, []) == b && PutAll(c, []) == c
  {}

  /** Taking one more sample. */
  lemma OneMore(track: Ring, samples: seq<bits>, i: nat, clock: nat, data: nat)
    requires RingOk(track) && clock < 8 && data < 8 && i < |samples|
    ensures var prev := if i == 0 then 0 else samples[i - 1];
      PutAll(track, Sampled(samples[..i + 1], 0, clock, data))
          == PutAll(PutAll(track, Sampled(samples[..i], 0, clock, data)), Sampled([samples[i]], prev, clock, data))
  {
    hide IsSet, Changed;
    var prev := if i == 0 then 0 else samples[i - 1];
    assert samples[..i + 1] == samples[..i] + [samples[i]];
    SampledSnoc(samples[..i], 0, samples[i], clock, data);
    PutAllSplit(track, Sampled(samples[..i], 0, clock, data), Sampled([samples[i]], prev, clock, data));
  }
}
