/**
 State tracking (pkg/state/state.go): the event loop, the full sweep with digest deduplication, single
 events, the gauges, and the records that Advertise leaves with the router.
 */
module Tracker {
  import opened Prelude
  import Image

  const MINUTE: real := 60.0
  const KEY_TTL: real := 10.0 * MINUTE
  const TICK_PERIOD: real := KEY_TTL - MINUTE

  datatype Kind = Create | Update | Delete

  datatype Event = Event(image: Image.Image, kind: Kind)

  /** What one update meets: AllIdentifiers, how many keys Advertise gets through, and when it provides each. */
  datatype Calls = Calls(identifiers: Option<seq<string>>, provided: nat, at: nat -> real)

  datatype Record = Record(key: string, at: real)

  type Gauge = map<string, int>

  /** The four gauges by registry, and every record ever provided, in order. */
  datatype View = View(keys: Gauge, images: Gauge, tags: Gauge, digests: Gauge, records: seq<Record>)

  const START := View(map[], map[], map[], map[], [])

  datatype UpdateError = NoIdentifiers | NotAdvertised

  function Get(g: Gauge, registry: string): int
  {
    if registry in g then g[registry] else 0
  }

  function Add(g: Gauge, registry: string, n: int): Gauge
  {
    g[registry := Get(g, registry) + n]
  }

  /** The records of keys provided one after another, each at its own time. */
  function Records(keys: seq<string>, at: nat -> real): seq<Record>
  {
    seq(|keys|, i requires 0 <= i < |keys| => Record(keys[i], at(i)))
  }

  function TagKeys(image: Image.Image, latest: bool): seq<string>
  {
    if !latest && Image.IsLatestTag(image) then [] else
    match Image.TagName(image)
    case None => []
    case Some(key) => [key]
  }

  /** One more image of this kind in the three image gauges. */
  function CountImage(v: View, image: Image.Image): View
  {
    var r := image.registry;
    if image.tag == "" then v.(images := Add(v.images, r, 1), digests := Add(v.digests, r, 1))
    else v.(images := Add(v.images, r, 1), tags := Add(v.tags, r, 1))
  }

  function Provided(keys: seq<string>, c: Calls): seq<string>
  {
    if c.provided < |keys| then keys[..c.provided] else keys
  }

  /** What an update advertises: the tag key, and the identifiers unless they are skipped. */
  function UpdateKeys(image: Image.Image, skip: bool, latest: bool, c: Calls): seq<string>
  {
    TagKeys(image, latest) + if skip || c.identifiers.None? then [] else c.identifiers.value
  }

  function UpdateOf(v: View, event: Event, skip: bool, latest: bool, c: Calls): (View, Result<nat, UpdateError>)
  {
    var image := event.image;
    if event.kind.Delete? then (v.(images := Add(v.images, image.registry, -1)), Ok(0))
    else if !skip && c.identifiers.None? then (v, Err(NoIdentifiers)) else
    var keys := UpdateKeys(image, skip, latest, c);
    var v' := v.(records := v.records + Records(Provided(keys, c), c.at));
    if c.provided < |keys| then (v', Err(NotAdvertised))
    else (if event.kind.Create? then CountImage(v', image) else v', Ok(|keys|))
  }

  /** A sweep in progress: targets holds the digests done, done says which images were updated. */
  datatype Sweep = Sweep(view: View, targets: set<string>, done: seq<bool>)

  function Reset(v: View): View
  {
    View(map[], map[], map[], map[], v.records)
  }

  /** The sweep over a listing; dedupe == false is the same sweep without the digest shortcut. */
  function SweepOf(v: View, images: seq<Image.Image>, calls: seq<Calls>, latest: bool, dedupe: bool): Sweep
    requires |images| == |calls|
  {
    if images == [] then Sweep(Reset(v), {}, []) else
    var n := |images| - 1;
    var s := SweepOf(v, images[..n], calls[..n], latest, dedupe);
    SweepStep(s, images[n], calls[n], latest, dedupe)
  }

  function SweepStep(s: Sweep, image: Image.Image, c: Calls, latest: bool, dedupe: bool): Sweep
  {
    var (v', r) := UpdateOf(s.view, Event(image, Update), dedupe && image.digest in s.targets, latest, c);
    match r
    case Err(_) => Sweep(v', s.targets, s.done + [false])
    case Ok(n) =>
      Sweep(CountImage(v'.(keys := Add(v'.keys, image.registry, n)), image), s.targets + {image.digest},
          s.done + [true])
  }

  /* ---------- The code ---------- */

  /** What the select of Track can take. */
  datatype Input =
    | Tick(fired: real, listing: Option<seq<Image.Image>>, calls: seq<Calls>)
    | Observed(event: Event, call: Calls)
    | Reported
    | Cancelled
    | EventsClosed
    | ErrorsClosed

  predicate ValidInput(input: Input)
  {
    input.Tick? && input.listing.Some? ==> |input.calls| == |input.listing.value|
  }

  predicate Stops(input: Input)
  {
    input.Cancelled? || input.EventsClosed? || input.ErrorsClosed?
  }

  function React(v: View, input: Input, latest: bool): View
    requires ValidInput(input)
  {
    match input
    case Tick(_, Some(images), calls) => SweepOf(v, images, calls, latest, true).view
    case Observed(event, call) => UpdateOf(v, event, false, latest, call).0
    case _ => v
  }

  ghost predicate ValidInputs(inputs: seq<Input>)
  {
    forall i :: 0 <= i < |inputs| ==> ValidInput(inputs[i])
  }

  function RunOf(inputs: seq<Input>, latest: bool): View
    requires ValidInputs(inputs)
  {
    if inputs == [] then START else React(RunOf(inputs[..|inputs| - 1], latest), inputs[|inputs| - 1], latest)
  }

  datatype Exit = NotSubscribed | Running | Clean | EventChannelClosed | ErrorChannelClosed

  class StateTracker {
    const latest: bool
    var view: View

    constructor (latest: bool)
      ensures this.latest == latest && view == START
    {
      this.latest := latest;
      view := START;
    }

    /** Provides the keys one by one until one fails. */
    method Advertise(keys: seq<string>, c: Calls) returns (ok: bool)
      modifies this
      ensures view == old(view).(records := old(view).records + Records(Provided(keys, c), c.at))
      ensures ok == (|keys| <= c.provided)
    {
      for i := 0 to |keys|
        invariant i <= c.provided
        invariant view == old(view).(records := old(view).records + Records(keys[..i], c.at))
      {
        if i == c.provided {
          return false;
        }
        assert Records(keys[..i + 1], c.at) == Records(keys[..i], c.at) + [Record(keys[i], c.at(i))];
        view := view.(records := view.records + [Record(keys[i], c.at(i))]);
      }
      assert keys[..|keys|] == keys;
      ok := true;
    }

    method UpdateImage(event: Event, skip: bool, c: Calls) returns (r: Result<nat, UpdateError>)
      modifies this
      ensures (view, r) == UpdateOf(old(view), event, skip, latest, c)
    {
      var image := event.image;
      var keys := [];
      if !(!latest && Image.IsLatestTag(image)) {
        var tag := Image.TagName(image);
        if tag.Some? {
          keys := keys + [tag.value];
        }
      }
      if event.kind.Delete? {
        view := view.(images := Add(view.images, image.registry, -1));
        return Ok(0);
      }
      assert keys == TagKeys(image, latest);
      assert keys + [] == keys;
      if !skip {
        if c.identifiers.None? {
          return Err(NoIdentifiers);
        }
        keys := keys + c.identifiers.value;
      }
      var ok := Advertise(keys, c);
      if !ok {
        return Err(NotAdvertised);
      }
      if event.kind.Create? {
        view := CountImage(view, image);
      }
      r := Ok(|keys|);
    }

    /** The body of the sweep's loop. */
    method SweepImage(image: Image.Image, targets: set<string>, c: Calls, ghost done: seq<bool>)
        returns (targets': set<string>, ok: bool)
      modifies this
      ensures Sweep(view, targets', done + [ok]) == SweepStep(Sweep(old(view), targets, done), image, c, latest, true)
    {
      var r := UpdateImage(Event(image, Update), image.digest in targets, c);
      if r.Err? {
        return targets, false;
      }
      view := view.(keys := Add(view.keys, image.registry, r.value));
      view := CountImage(view, image);
      return targets + {image.digest}, true;
    }

    method All(listing: Option<seq<Image.Image>>, calls: seq<Calls>) returns (failures: nat)
      requires listing.Some? ==> |calls| == |listing.value|
      modifies this
      ensures view == if listing.None? then old(view) else SweepOf(old(view), listing.value, calls, latest, true).view
      ensures failures == 0 <==> listing.Some? && false !in SweepOf(old(view), listing.value, calls, latest, true).done
    {
      if listing.None? {
        return 1;
      }
      var images := listing.value;
      view := Reset(view);
      failures := 0;
      var targets: set<string> := {};
      ghost var done := [];
      for i := 0 to |images|
        invariant Sweep(view, targets, done) == SweepOf(old(view), images[..i], calls[..i], latest, true)
        invariant failures == 0 <==> false !in done
      {
        assert images[..i + 1][..i] == images[..i] && calls[..i + 1][..i] == calls[..i];
        var ok;
        targets, ok := SweepImage(images[i], targets, calls[i], done);
        if !ok {
          failures := failures + 1;
        }
        done := done + [ok];
      }
      assert images[..|images|] == images && calls[..|calls|] == calls;
    }

    /** The loop, over what the select takes in turn, until it returns or the inputs given are used up. */
    method Track(subscribed: bool, inputs: seq<Input>) returns (exit: Exit, taken: nat)
      requires ValidInputs(inputs) && view == START
      modifies this
      ensures taken <= |inputs| && view == RunOf(inputs[..taken], latest)
      ensures exit == NotSubscribed <==> !subscribed
      ensures !subscribed ==> taken == 0
      ensures subscribed ==> (exit == Running <==> taken == |inputs| && (taken > 0 ==> !Stops(inputs[taken - 1])))
      ensures forall i :: 0 <= i < taken - 1 ==> !Stops(inputs[i])
      ensures exit == Clean <==> subscribed && taken > 0 && inputs[taken - 1].Cancelled?
      ensures exit == EventChannelClosed <==> subscribed && taken > 0 && inputs[taken - 1].EventsClosed?
      ensures exit == ErrorChannelClosed <==> subscribed && taken > 0 && inputs[taken - 1].ErrorsClosed?
    {
      exit, taken := Running, 0;
      if !subscribed {
        exit := NotSubscribed;
        return;
      }
      while taken < |inputs|
        invariant taken <= |inputs| && view == RunOf(inputs[..taken], latest)
        invariant forall i :: 0 <= i < taken ==> !Stops(inputs[i])
      {
        var input := inputs[taken];
        assert inputs[..taken + 1][..taken] == inputs[..taken];
        taken := taken + 1;
        match input
        case Cancelled => return Clean, taken;
        case Tick(_, listing, calls) => var _ := All(listing, calls);
        case Observed(event, call) => var _ := UpdateImage(event, false, call);
        case EventsClosed => return EventChannelClosed, taken;
        case ErrorsClosed => return ErrorChannelClosed, taken;
        case Reported =>
      }
    }
  }
}
