/**
 Record lifetimes over whole runs of the state tracker: a sweep every KeyTTL minus one minute keeps the
 records of held keys alive, and records of keys no longer held expire.
 */
module Freshness {
  import opened Prelude
  import opened Tracker
  import opened TrackerRuns
  import Image

  /** Some record of the key has not reached the end of its lifetime at time t. */
  ghost predicate Alive(records: seq<Record>, key: string, t: real)
  {
    exists r :: r in records && r.key == key && r.at <= t <= r.at + KEY_TTL
  }

  function Ticks(inputs: seq<Input>): nat
  {
    if inputs == [] then 0 else Ticks(inputs[..|inputs| - 1]) + if inputs[|inputs| - 1].Tick? then 1 else 0
  }

  /** When tick number j fires: the immediate one at the start, then one every period. */
  function TickTime(start: real, j: nat): real
  {
    start + TICK_PERIOD * (j as real)
  }

  /** Among the keys, one is the key and is provided within the delay. */
  ghost predicate Provides(keys: seq<string>, at: nat -> real, key: string, fired: real, delay: real)
  {
    exists p :: 0 <= p < |keys| && keys[p] == key && fired <= at(p) <= fired + delay
  }

  /** Whichever listed image of this digest has its identifiers advertised, the key is provided in time. */
  ghost predicate ProvidedByDigest(images: seq<Image.Image>, calls: seq<Calls>, d: string, latest: bool, key: string,
                                   fired: real, delay: real)
    requires |images| == |calls|
  {
    forall j :: 0 <= j < |images| && images[j].digest == d && calls[j].identifiers.Some? ==>
      Provides(UpdateKeys(images[j], false, latest, calls[j]), calls[j].at, key, fired, delay)
  }

  /**
   Some image that was updated has the key: as its tag key, provided within the delay, or as a key that is
   provided within the delay with the identifiers of its digest. Nothing is asked of other images, of other
   keys, or of what the digest's identifiers are at other times.
   */
  ghost predicate HoldsKey(images: seq<Image.Image>, calls: seq<Calls>, done: seq<bool>, latest: bool, key: string,
                           fired: real, delay: real)
    requires |images| == |calls| == |done|
  {
    exists i :: 0 <= i < |images| && done[i] &&
      (Provides(TagKeys(images[i], latest), calls[i].at, key, fired, delay) ||
       ProvidedByDigest(images, calls, images[i].digest, latest, key, fired, delay))
  }

  /** The sweep of this tick holds the key. */
  ghost predicate Holds(v: View, input: Input, latest: bool, key: string, delay: real)
    requires ValidInput(input)
  {
    input.Tick? && input.listing.Some? &&
    var s := SweepOf(v, input.listing.value, input.calls, latest, true);
    && |s.done| == |input.listing.value|
    && HoldsKey(input.listing.value, input.calls, s.done, latest, key, input.fired, delay)
  }

  /** If input i is a tick, it is on schedule and its sweep holds the key. */
  ghost predicate KeptAt(inputs: seq<Input>, i: nat, latest: bool, key: string, start: real, delay: real)
    requires ValidInputs(inputs) && i < |inputs|
  {
    inputs[i].Tick? ==>
      && inputs[i].fired == TickTime(start, Ticks(inputs[..i]))
      && Holds(RunOf(inputs[..i], latest), inputs[i], latest, key, delay)
  }

  ghost predicate KeptBy(inputs: seq<Input>, latest: bool, key: string, start: real, delay: real)
    requires ValidInputs(inputs)
  {
    forall i :: 0 <= i < |inputs| ==> KeptAt(inputs, i, latest, key, start, delay)
  }

  lemma ProvidedIsRecorded(keys: seq<string>, at: nat -> real, key: string, fired: real, delay: real,
                           records: seq<Record>)
    returns (t: real)
    requires Provides(keys, at, key, fired, delay) && Recorded(keys, at, records)
    ensures fired <= t <= fired + delay && Record(key, t) in records
  {
    var p :| 0 <= p < |keys| && keys[p] == key && fired <= at(p) <= fired + delay;
    t := at(p);
  }

  lemma RecordedBySweep(v: View, images: seq<Image.Image>, calls: seq<Calls>, latest: bool, s: Sweep, key: string,
                        fired: real, delay: real)
    returns (at: real)
    requires |images| == |calls| && SweepInv(v, images, calls, latest, s)
    requires HoldsKey(images, calls, s.done, latest, key, fired, delay)
    ensures fired <= at <= fired + delay && Record(key, at) in New(v, s.view)
  {
    var i :| 0 <= i < |images| && s.done[i] &&
             (Provides(TagKeys(images[i], latest), calls[i].at, key, fired, delay) ||
              ProvidedByDigest(images, calls, images[i].digest, latest, key, fired, delay));
    if Provides(TagKeys(images[i], latest), calls[i].at, key, fired, delay) {
      at := ProvidedIsRecorded(TagKeys(images[i], latest), calls[i].at, key, fired, delay, New(v, s.view));
    } else {
      var j: nat :| AdvertisedBy(images[i].digest, j, images, calls, latest, New(v, s.view));
      at := ProvidedIsRecorded(UpdateKeys(images[j], false, latest, calls[j]), calls[j].at, key, fired, delay,
          New(v, s.view));
    }
  }

  lemma HeldKeyIsRecorded(v: View, input: Input, latest: bool, key: string, delay: real) returns (at: real)
    requires ValidInput(input) && Holds(v, input, latest, key, delay)
    ensures input.fired <= at <= input.fired + delay
    ensures Record(key, at) in React(v, input, latest).records
  {
    var images, calls := input.listing.value, input.calls;
    SweepAdvertises(v, images, calls, latest, true);
    at := RecordedBySweep(v, images, calls, latest, SweepOf(v, images, calls, latest, true), key, input.fired, delay);
  }

  lemma RecordsGrow(v: View, input: Input, latest: bool)
    requires ValidInput(input)
    ensures v.records <= React(v, input, latest).records
  {
    match input
    case Tick(_, Some(images), calls) => SweepAdvertises(v, images, calls, latest, true);
    case Observed(event, call) => var _ := UpdateRecords(v, event, false, latest, call);
    case _ =>
  }

  /** Alive at every moment from a to b. */
  ghost predicate AliveFrom(records: seq<Record>, key: string, a: real, b: real)
  {
    forall t: real :: a <= t <= b ==> Alive(records, key, t)
  }

  lemma AliveStays(records: seq<Record>, more: seq<Record>, key: string, a: real, b: real)
    requires records <= more && AliveFrom(records, key, a, b)
    ensures AliveFrom(more, key, a, b)
  {
    forall t: real | a <= t <= b
      ensures Alive(more, key, t)
    {
      assert Alive(records, key, t);
      var r :| r in records && r.key == key && r.at <= t <= r.at + KEY_TTL;
      var i :| 0 <= i < |records| && records[i] == r;
      assert more[i] == r;
    }
  }

  /** A record made before the covered time ends covers up to a lifetime after the tick it belongs to. */
  lemma AliveLonger(records: seq<Record>, key: string, a: real, b: real, at: real, fired: real)
    requires a == at || (AliveFrom(records, key, a, b) && at <= b)
    requires Record(key, at) in records && fired <= at
    ensures AliveFrom(records, key, a, fired + KEY_TTL)
  {
    forall t: real | a <= t <= fired + KEY_TTL
      ensures Alive(records, key, t)
    {
      if t >= at {
        assert Record(key, at).at <= t <= Record(key, at).at + KEY_TTL;
      }
    }
  }

  /** What one more input makes of a key alive so far. */
  lemma StillAlive(before: seq<Record>, after: seq<Record>, key: string, first: real, b: real)
    requires before <= after && AliveFrom(before, key, first, b) && Record(key, first) in before
    ensures AliveFrom(after, key, first, b) && Record(key, first) in after
  {
    AliveStays(before, after, key, first, b);
    var i :| 0 <= i < |before| && before[i] == Record(key, first);
    assert after[i] == Record(key, first);
  }

  /**
   Freshness: a key held by every sweep within a minute of its tick is advertised that soon after the first
   tick and from that moment never lapses, up to a full lifetime after the last tick, whatever events come in
   between.
   */
  lemma {:induction false} HeldKeysNeverLapse(inputs: seq<Input>, latest: bool, key: string, start: real, delay: real)
    returns (first: real)
    requires ValidInputs(inputs) && KeptBy(inputs, latest, key, start, delay)
    requires Ticks(inputs) > 0 && delay <= MINUTE
    ensures start <= first <= start + delay
    ensures Record(key, first) in RunOf(inputs, latest).records
    ensures AliveFrom(RunOf(inputs, latest).records, key, first, TickTime(start, Ticks(inputs) - 1) + KEY_TTL)
  {
    var n := |inputs| - 1;
    var initial, input := inputs[..n], inputs[n];
    assert KeptAt(inputs, n, latest, key, start, delay);
    if Ticks(initial) == 0 {
      first := HeldKeyIsRecorded(RunOf(initial, latest), input, latest, key, delay);
      AliveLonger(RunOf(inputs, latest).records, key, first, first, first, input.fired);
    } else {
      PrefixKept(inputs, latest, key, start, delay);
      first := HeldKeysNeverLapse(initial, latest, key, start, delay);
      OneMoreInput(RunOf(initial, latest), input, latest, key, start, delay, first, Ticks(initial));
    }
  }

  lemma OneMoreInput(v: View, input: Input, latest: bool, key: string, start: real, delay: real, first: real,
                     ticks: nat)
    requires ValidInput(input) && delay <= MINUTE && ticks > 0
    requires input.Tick? ==> input.fired == TickTime(start, ticks) && Holds(v, input, latest, key, delay)
    requires Record(key, first) in v.records && AliveFrom(v.records, key, first, TickTime(start, ticks - 1) + KEY_TTL)
    ensures var records := React(v, input, latest).records;
            var ticks' := if input.Tick? then ticks + 1 else ticks;
            Record(key, first) in records && AliveFrom(records, key, first, TickTime(start, ticks' - 1) + KEY_TTL)
  {
    var records, covered := React(v, input, latest).records, TickTime(start, ticks - 1) + KEY_TTL;
    RecordsGrow(v, input, latest);
    StillAlive(v.records, records, key, first, covered);
    if input.Tick? {
      var at := HeldKeyIsRecorded(v, input, latest, key, delay);
      NextTickInTime(start, ticks);
      AliveLonger(records, key, first, covered, at, input.fired);
    }
  }

  lemma NextTickInTime(start: real, j: nat)
    requires j > 0
    ensures TickTime(start, j) + MINUTE == TickTime(start, j - 1) + KEY_TTL
  {
    assert j as real == (j - 1) as real + 1.0;
  }

  lemma PrefixKept(inputs: seq<Input>, latest: bool, key: string, start: real, delay: real)
    requires ValidInputs(inputs) && KeptBy(inputs, latest, key, start, delay) && inputs != []
    ensures KeptBy(inputs[..|inputs| - 1], latest, key, start, delay)
  {
    var initial := inputs[..|inputs| - 1];
    forall i | 0 <= i < |initial|
      ensures KeptAt(initial, i, latest, key, start, delay)
    {
      assert KeptAt(inputs, i, latest, key, start, delay);
      assert initial[..i] == inputs[..i];
    }
  }

  /** Advertised within the delay of the start and, from each of its advertisements on, alive until the end. */
  ghost predicate Fresh(records: seq<Record>, key: string, start: real, delay: real, end: real)
  {
    && (exists r :: r in records && r.key == key && start <= r.at <= start + delay)
    && forall r, t: real :: r in records && r.key == key && start <= r.at <= t <= end ==> Alive(records, key, t)
  }

  lemma HeldKeysAreFresh(inputs: seq<Input>, latest: bool, key: string, start: real, delay: real)
    requires ValidInputs(inputs) && KeptBy(inputs, latest, key, start, delay)
    requires Ticks(inputs) > 0 && delay <= MINUTE
    ensures Fresh(RunOf(inputs, latest).records, key, start, delay, TickTime(start, Ticks(inputs) - 1) + KEY_TTL)
  {
    var records := RunOf(inputs, latest).records;
    var first := HeldKeysNeverLapse(inputs, latest, key, start, delay);
    assert Record(key, first).key == key;
    forall r, t: real | r in records && r.key == key &&
        start <= r.at <= t <= TickTime(start, Ticks(inputs) - 1) + KEY_TTL
      ensures Alive(records, key, t)
    {
      if t < first {
        assert r.at <= t <= r.at + KEY_TTL;
      }
    }
  }

  const LATE_KEY := "sha256:0"

  function LateTick(fired: real, at: real): Input
  {
    Tick(fired, Some([Image.Image("r/a@" + LATE_KEY, "r", "a", "", LATE_KEY)]), [Calls(Some([LATE_KEY]), 1, _ => at)])
  }

  /** A run of two sweeps, the first on time and the second late by d. */
  function LateRun(d: real): seq<Input>
  {
    [LateTick(0.0, 0.0), LateTick(TICK_PERIOD, TICK_PERIOD + d)]
  }

  lemma LateSweepRecords(v: View, fired: real, at: real)
    ensures React(v, LateTick(fired, at), true).records == v.records + [Record(LATE_KEY, at)]
    ensures SweepOf(v, LateTick(fired, at).listing.value, LateTick(fired, at).calls, true, true).done == [true]
  {
    var images, calls := LateTick(fired, at).listing.value, LateTick(fired, at).calls;
    assert images[..0] == [] && calls[..0] == [];
    var s := Sweep(Reset(v), {}, []);
    assert SweepOf(v, images, calls, true, true) == SweepStep(s, images[0], calls[0], true, true);
    var keys := UpdateKeys(images[0], false, true, calls[0]);
    assert keys == [LATE_KEY];
    assert Records(keys, calls[0].at) == [Record(LATE_KEY, at)];
  }

  lemma LateSweepHolds(v: View, fired: real, at: real, delay: real)
    requires fired <= at <= fired + delay
    ensures Holds(v, LateTick(fired, at), true, LATE_KEY, delay)
  {
    var images, calls := LateTick(fired, at).listing.value, LateTick(fired, at).calls;
    LateSweepRecords(v, fired, at);
    var keys := UpdateKeys(images[0], false, true, calls[0]);
    assert keys[0] == LATE_KEY && calls[0].at(0) == at;
    assert Provides(keys, calls[0].at, LATE_KEY, fired, delay);
    assert ProvidedByDigest(images, calls, images[0].digest, true, LATE_KEY, fired, delay);
    assert HoldsKey(images, calls, [true], true, LATE_KEY, fired, delay);
  }

  lemma TwoInputs(a: Input, b: Input, latest: bool)
    requires ValidInput(a) && ValidInput(b) && a.Tick? && b.Tick?
    ensures var run := [a, b];
            && Ticks(run[..0]) == 0 && Ticks(run[..1]) == 1 && Ticks(run) == 2
            && RunOf(run, latest) == React(React(START, a, latest), b, latest)
  {
    var run := [a, b];
    assert run[..1] == [a] && [a][..0] == [] && run[..0] == [];
    assert RunOf([a], latest) == React(START, a, latest);
    assert Ticks([a]) == 1;
  }

  lemma LateRunRecords(d: real)
    requires d >= 0.0
    ensures Ticks(LateRun(d)[..0]) == 0 && Ticks(LateRun(d)[..1]) == 1 && Ticks(LateRun(d)) == 2
    ensures RunOf(LateRun(d), true).records == [Record(LATE_KEY, 0.0), Record(LATE_KEY, TICK_PERIOD + d)]
  {
    var a, b := LateTick(0.0, 0.0), LateTick(TICK_PERIOD, TICK_PERIOD + d);
    TwoInputs(a, b, true);
    LateSweepRecords(START, 0.0, 0.0);
    LateSweepRecords(React(START, a, true), TICK_PERIOD, TICK_PERIOD + d);
  }

  lemma LateRunIsKept(d: real)
    requires 0.0 <= d
    ensures KeptBy(LateRun(d), true, LATE_KEY, 0.0, d)
  {
    var run := LateRun(d);
    LateRunRecords(d);
    LateSweepHolds(RunOf(run[..0], true), 0.0, 0.0, d);
    LateSweepHolds(RunOf(run[..1], true), TICK_PERIOD, TICK_PERIOD + d, d);
    assert TickTime(0.0, 0) == 0.0 && TickTime(0.0, 1) == TICK_PERIOD;
  }

  /** A key with a record at the start and the next one after its lifetime is dead in between. */
  lemma LateRecordLapses(records: seq<Record>, d: real)
    requires d > MINUTE && records == [Record(LATE_KEY, 0.0), Record(LATE_KEY, TICK_PERIOD + d)]
    ensures !Fresh(records, LATE_KEY, 0.0, d, TickTime(0.0, 1) + KEY_TTL)
  {
    var t := KEY_TTL + (if d < 2.0 * MINUTE then d - MINUTE else MINUTE) / 2.0;
    assert TickTime(0.0, 1) == TICK_PERIOD;
    var r, end := Record(LATE_KEY, 0.0), TickTime(0.0, 1) + KEY_TTL;
    assert r == records[0] && r in records && 0.0 <= r.at <= t <= end;
    assert !Alive(records, LATE_KEY, t);
  }

  /**
   The minute is exact: every run whose sweeps hold the key within the delay keeps it fresh, if and only if
   the delay is at most one minute.
   */
  lemma DelayBoundIsExact(delay: real)
    requires 0.0 <= delay
    ensures (forall inputs, latest, key, start ::
               ValidInputs(inputs) && Ticks(inputs) > 0 && KeptBy(inputs, latest, key, start, delay) ==>
                 Fresh(RunOf(inputs, latest).records, key, start, delay, TickTime(start, Ticks(inputs) - 1) + KEY_TTL))
            <==> delay <= 60.0
    ensures KEY_TTL == 600.0 && TICK_PERIOD == 540.0
  {
    if delay <= MINUTE {
      forall inputs, latest, key, start |
        ValidInputs(inputs) && Ticks(inputs) > 0 && KeptBy(inputs, latest, key, start, delay)
        ensures Fresh(RunOf(inputs, latest).records, key, start, delay, TickTime(start, Ticks(inputs) - 1) + KEY_TTL)
      {
        HeldKeysAreFresh(inputs, latest, key, start, delay);
      }
    } else {
      LateRunIsKept(delay);
      LateRunRecords(delay);
      LateRecordLapses(RunOf(LateRun(delay), true).records, delay);
    }
  }

  /* ---------- Keys that are gone ---------- */

  /** The input can advertise the key. */
  ghost predicate Offers(input: Input, latest: bool, key: string)
    requires ValidInput(input)
  {
    match input
    case Tick(_, Some(images), calls) =>
      exists i :: 0 <= i < |images| && OffersOne(images[i], calls[i], latest, key)
    case Observed(event, call) => OffersOne(event.image, call, latest, key)
    case _ => false
  }

  predicate OffersOne(image: Image.Image, c: Calls, latest: bool, key: string)
  {
    key in TagKeys(image, latest) || (c.identifiers.Some? && key in c.identifiers.value)
  }

  ghost predicate AllBefore(records: seq<Record>, key: string, last: real)
  {
    forall r :: r in records && r.key == key ==> r.at <= last
  }

  lemma UpdateWithoutKey(v: View, event: Event, skip: bool, latest: bool, c: Calls, key: string, last: real)
    requires AllBefore(v.records, key, last) && !OffersOne(event.image, c, latest, key)
    ensures AllBefore(UpdateOf(v, event, skip, latest, c).0.records, key, last)
  {
    if !event.kind.Delete? && (skip || c.identifiers.Some?) {
      var keys := UpdateKeys(event.image, skip, latest, c);
      assert key !in keys;
      assert forall r :: r in Records(Provided(keys, c), c.at) ==> r.key in keys;
    }
  }

  lemma {:induction false} SweepWithoutKey(v: View, images: seq<Image.Image>, calls: seq<Calls>, latest: bool,
                                           key: string, last: real)
    requires |images| == |calls| && AllBefore(v.records, key, last)
    requires forall i :: 0 <= i < |images| ==> !OffersOne(images[i], calls[i], latest, key)
    ensures AllBefore(SweepOf(v, images, calls, latest, true).view.records, key, last)
  {
    if images != [] {
      var n := |images| - 1;
      SweepWithoutKey(v, images[..n], calls[..n], latest, key, last);
      var s := SweepOf(v, images[..n], calls[..n], latest, true);
      UpdateWithoutKey(s.view, Event(images[n], Update), Skip(s, images[n], true), latest, calls[n], key, last);
      var _ := SweepStepEffect(s, images[n], calls[n], latest, true);
    }
  }

  lemma ReactWithoutKey(v: View, input: Input, latest: bool, key: string, last: real)
    requires ValidInput(input) && !Offers(input, latest, key) && AllBefore(v.records, key, last)
    ensures AllBefore(React(v, input, latest).records, key, last)
  {
    match input
    case Tick(_, Some(images), calls) => SweepWithoutKey(v, images, calls, latest, key, last);
    case Observed(event, call) => UpdateWithoutKey(v, event, false, latest, call, key, last);
    case _ =>
  }

  /**
   Expiry: once no input from position m on offers the key, and all its records date from last or before,
   it is not alive at any time later than a lifetime after last, however long the run goes on.
   */
  lemma {:induction false} GoneKeysExpire(inputs: seq<Input>, m: nat, latest: bool, key: string, last: real, t: real)
    requires ValidInputs(inputs) && m <= |inputs|
    requires forall i :: m <= i < |inputs| ==> !Offers(inputs[i], latest, key)
    requires AllBefore(RunOf(inputs[..m], latest).records, key, last)
    requires t > last + KEY_TTL
    ensures AllBefore(RunOf(inputs, latest).records, key, last) && !Alive(RunOf(inputs, latest).records, key, t)
  {
    if m == |inputs| {
      assert inputs[..m] == inputs;
    } else {
      var n := |inputs| - 1;
      assert inputs[..n][..m] == inputs[..m];
      GoneKeysExpire(inputs[..n], m, latest, key, last, t);
      ReactWithoutKey(RunOf(inputs[..n], latest), inputs[n], latest, key, last);
    }
  }
}
