/** What sweeps and whole runs of the state tracker guarantee. */
module TrackerRuns {
  import opened Prelude
  import opened Tracker
  import Image
  import Distribution
  import Strings

  /* ---------- A sweep advertises what it counts ---------- */

  function New(v: View, after: View): seq<Record>
    requires |v.records| <= |after.records|
  {
    after.records[|v.records|..]
  }

  /** All keys are on record, each with the time it was provided at. */
  ghost predicate Recorded(keys: seq<string>, at: nat -> real, records: seq<Record>)
  {
    forall i :: 0 <= i < |keys| ==> Record(keys[i], at(i)) in records
  }

  /** Image j has digest d, its identifiers were listed, and all its keys are on record. */
  ghost predicate AdvertisedBy(d: string, j: nat, images: seq<Image.Image>, calls: seq<Calls>, latest: bool,
                               records: seq<Record>)
    requires |images| == |calls|
  {
    j < |images| && images[j].digest == d && calls[j].identifiers.Some? &&
    Recorded(UpdateKeys(images[j], false, latest, calls[j]), calls[j].at, records)
  }

  lemma RecordsRecorded(keys: seq<string>, at: nat -> real)
    ensures Recorded(keys, at, Records(keys, at))
  {
    forall i | 0 <= i < |keys|
      ensures Record(keys[i], at(i)) in Records(keys, at)
    {
      assert Records(keys, at)[i] == Record(keys[i], at(i));
    }
  }

  /** The records one update adds, and that success means all its keys are among them. */
  lemma UpdateRecords(v: View, event: Event, skip: bool, latest: bool, c: Calls) returns (added: seq<Record>)
    ensures var (v', r) := UpdateOf(v, event, skip, latest, c);
            && v'.records == v.records + added
            && (r.Ok? && !event.kind.Delete? ==>
                  (skip || c.identifiers.Some?) && Recorded(UpdateKeys(event.image, skip, latest, c), c.at, added))
  {
    if event.kind.Delete? || (!skip && c.identifiers.None?) {
      added := [];
      assert v.records + [] == v.records;
    } else {
      var keys := UpdateKeys(event.image, skip, latest, c);
      added := Records(Provided(keys, c), c.at);
      RecordsRecorded(keys, c.at);
    }
  }

  ghost predicate SweepInv(v: View, images: seq<Image.Image>, calls: seq<Calls>, latest: bool, s: Sweep)
    requires |images| == |calls|
  {
    && |s.done| == |images|
    && v.records <= s.view.records
    && (forall d :: d in s.targets ==> exists j: nat :: AdvertisedBy(d, j, images, calls, latest, New(v, s.view)))
    && (forall i :: 0 <= i < |images| && s.done[i] ==>
          images[i].digest in s.targets && Recorded(TagKeys(images[i], latest), calls[i].at, New(v, s.view)))
  }

  /**
   Deduplication is safe under every pattern of failures: every digest in targets has had all the
   identifiers of an image with that digest advertised in this sweep, and every image counted as updated
   has its digest in targets and its tag key, if it is to have one, advertised in this sweep.
   */
  lemma {:induction false} SweepAdvertises(v: View, images: seq<Image.Image>, calls: seq<Calls>, latest: bool,
                                           dedupe: bool)
    requires |images| == |calls|
    ensures SweepInv(v, images, calls, latest, SweepOf(v, images, calls, latest, dedupe))
  {
    if images != [] {
      var n := |images| - 1;
      SweepAdvertises(v, images[..n], calls[..n], latest, dedupe);
      SweepStepKeeps(v, images, calls, latest, dedupe);
    }
  }

  predicate Skip(s: Sweep, image: Image.Image, dedupe: bool)
  {
    dedupe && image.digest in s.targets
  }

  /** One step of a sweep: what happens to targets, done, the records and the image gauges. */
  lemma SweepStepEffect(s: Sweep, image: Image.Image, c: Calls, latest: bool, dedupe: bool) returns (added: seq<Record>)
    ensures var s' := SweepStep(s, image, c, latest, dedupe);
            var ok := UpdateOf(s.view, Event(image, Update), Skip(s, image, dedupe), latest, c).1.Ok?;
            var counted := if ok then CountImage(s.view, image) else s.view;
            && s'.done == s.done + [ok]
            && s'.targets == (if ok then s.targets + {image.digest} else s.targets)
            && s'.view.records == s.view.records + added
            && s'.view.records == UpdateOf(s.view, Event(image, Update), Skip(s, image, dedupe), latest, c).0.records
            && s'.view.images == counted.images && s'.view.tags == counted.tags && s'.view.digests == counted.digests
            && (ok ==> (Skip(s, image, dedupe) || c.identifiers.Some?) &&
                       Recorded(UpdateKeys(image, Skip(s, image, dedupe), latest, c), c.at, added))
  {
    added := UpdateRecords(s.view, Event(image, Update), Skip(s, image, dedupe), latest, c);
  }

  lemma SweepStepKeeps(v: View, images: seq<Image.Image>, calls: seq<Calls>, latest: bool, dedupe: bool)
    requires |images| == |calls| && images != []
    requires var n := |images| - 1;
             SweepInv(v, images[..n], calls[..n], latest, SweepOf(v, images[..n], calls[..n], latest, dedupe))
    ensures SweepInv(v, images, calls, latest, SweepOf(v, images, calls, latest, dedupe))
  {
    var n := |images| - 1;
    var s := SweepOf(v, images[..n], calls[..n], latest, dedupe);
    var added := SweepStepEffect(s, images[n], calls[n], latest, dedupe);
    ExtendInv(v, images, calls, latest, s, SweepStep(s, images[n], calls[n], latest, dedupe),
        Skip(s, images[n], dedupe), added);
  }

  lemma TagKeysFirst(image: Image.Image, skip: bool, latest: bool, c: Calls, records: seq<Record>)
    requires Recorded(UpdateKeys(image, skip, latest, c), c.at, records)
    ensures Recorded(TagKeys(image, latest), c.at, records)
  {
    assert forall i :: 0 <= i < |TagKeys(image, latest)| ==>
           UpdateKeys(image, skip, latest, c)[i] == TagKeys(image, latest)[i];
  }

  lemma ExtendInv(v: View, images: seq<Image.Image>, calls: seq<Calls>, latest: bool, s: Sweep, s': Sweep,
                  skip: bool, added: seq<Record>)
    requires |images| == |calls| && images != []
    requires SweepInv(v, images[..|images| - 1], calls[..|images| - 1], latest, s)
    requires var n := |images| - 1;
             && |s'.done| == |s.done| + 1 && s'.done[..n] == s.done
             && s'.view.records == s.view.records + added
             && s'.targets == (if s'.done[n] then s.targets + {images[n].digest} else s.targets)
             && (skip ==> images[n].digest in s.targets)
             && (s'.done[n] ==> (skip || calls[n].identifiers.Some?) &&
                                Recorded(UpdateKeys(images[n], skip, latest, calls[n]), calls[n].at, added))
    ensures SweepInv(v, images, calls, latest, s')
  {
    var n := |images| - 1;
    var records := New(v, s'.view);
    assert records == New(v, s.view) + added;
    forall d | d in s.targets
      ensures exists j: nat :: AdvertisedBy(d, j, images, calls, latest, records)
    {
      var j: nat :| AdvertisedBy(d, j, images[..n], calls[..n], latest, New(v, s.view));
      assert AdvertisedBy(d, j, images, calls, latest, records);
    }
    if s'.done[n] {
      TagKeysFirst(images[n], skip, latest, calls[n], added);
      if images[n].digest !in s.targets {
        assert AdvertisedBy(images[n].digest, n, images, calls, latest, records);
      }
    }
    assert forall i :: 0 <= i < n ==> s'.done[i] == s.done[i];
  }

  /* ---------- The shortcut changes nothing ---------- */

  /** Identifiers are a function of the digest. */
  ghost predicate ByDigest(images: seq<Image.Image>, calls: seq<Calls>, ids: string -> Option<seq<string>>)
    requires |images| == |calls|
  {
    forall i :: 0 <= i < |images| ==> calls[i].identifiers == ids(images[i].digest)
  }

  function MaxKeys(c: Calls): nat
  {
    1 + if c.identifiers.Some? then |c.identifiers.value| else 0
  }

  /** The router takes every key it is offered. */
  ghost predicate AlwaysProvides(calls: seq<Calls>)
  {
    forall i :: 0 <= i < |calls| ==> calls[i].provided >= MaxKeys(calls[i])
  }

  function KeysOf(records: seq<Record>): set<string>
  {
    set r | r in records :: r.key
  }

  lemma KeysOfConcat(a: seq<Record>, b: seq<Record>)
    ensures KeysOf(a + b) == KeysOf(a) + KeysOf(b)
  {
    assert forall r :: r in a + b <==> r in a || r in b;
  }

  lemma KeysOfRecords(keys: seq<string>, at: nat -> real)
    ensures KeysOf(Records(keys, at)) == set k | k in keys
  {
    var records := Records(keys, at);
    forall k | k in keys
      ensures k in KeysOf(records)
    {
      var i :| 0 <= i < |keys| && keys[i] == k;
      assert records[i] in records && records[i].key == k;
    }
  }

  /** The keys an update of this image offers when it goes through, by digest. */
  function ImageKeys(image: Image.Image, latest: bool, ids: string -> Option<seq<string>>, skip: bool): set<string>
  {
    (set k | k in TagKeys(image, latest)) +
    (if skip || ids(image.digest).None? then {} else set k | k in ids(image.digest).value)
  }

  lemma SuccessfulUpdate(v: View, image: Image.Image, skip: bool, latest: bool, c: Calls,
                         ids: string -> Option<seq<string>>)
    returns (added: seq<Record>)
    requires c.identifiers == ids(image.digest) && c.provided >= MaxKeys(c)
    ensures var (v', r) := UpdateOf(v, Event(image, Update), skip, latest, c);
            && (r.Ok? <==> skip || ids(image.digest).Some?)
            && v'.records == v.records + added
            && KeysOf(added) == if r.Ok? then ImageKeys(image, latest, ids, skip) else {}
  {
    if skip || ids(image.digest).Some? {
      var more := if skip then [] else c.identifiers.value;
      var keys := UpdateKeys(image, skip, latest, c);
      added := Records(keys, c.at);
      KeysOfRecords(keys, c.at);
      assert (set k | k in keys) == (set k | k in TagKeys(image, latest)) + (set k | k in more);
    } else {
      added := [];
      assert v.records + [] == v.records;
    }
  }

  /** The keys advertised since v. */
  ghost function NewKeys(v: View, s: Sweep): set<string>
    requires |v.records| <= |s.view.records|
  {
    KeysOf(New(v, s.view))
  }

  /**
   Two sweeps from v of the same images, with and without the shortcut, are at the same point: the same
   images updated, the same image gauges, and the same keys advertised in this sweep, with those of every
   digest in targets among them.
   */
  ghost predicate InStep(v: View, a: Sweep, b: Sweep, ids: string -> Option<seq<string>>)
  {
    && a.targets == b.targets && a.done == b.done
    && v.records <= a.view.records && v.records <= b.view.records
    && NewKeys(v, a) == NewKeys(v, b)
    && a.view.images == b.view.images && a.view.tags == b.view.tags && a.view.digests == b.view.digests
    && forall d :: d in a.targets ==> ids(d).Some? && forall k :: k in ids(d).value ==> k in NewKeys(v, a)
  }

  lemma StepInStep(v: View, a: Sweep, b: Sweep, image: Image.Image, c: Calls, latest: bool,
                   ids: string -> Option<seq<string>>)
    requires InStep(v, a, b, ids)
    requires c.identifiers == ids(image.digest) && c.provided >= MaxKeys(c)
    ensures InStep(v, SweepStep(a, image, c, latest, true), SweepStep(b, image, c, latest, false), ids)
  {
    var added := StepKeys(v, a, image, c, latest, true, ids);
    var added' := StepKeys(v, b, image, c, latest, false, ids);
    SameKeys(NewKeys(v, a), image, latest, ids, Skip(a, image, true));
    CountAlike(a.view, b.view, image);
  }

  /** Skipping identifiers that are among the keys already adds the same keys. */
  lemma SameKeys(before: set<string>, image: Image.Image, latest: bool, ids: string -> Option<seq<string>>, skip: bool)
    requires skip && ids(image.digest).Some? ==> forall k :: k in ids(image.digest).value ==> k in before
    ensures before + ImageKeys(image, latest, ids, skip) == before + ImageKeys(image, latest, ids, false)
    ensures !skip && ids(image.digest).Some? ==> forall k :: k in ids(image.digest).value ==>
            k in ImageKeys(image, latest, ids, skip)
  {
  }

  /** One step of either sweep, by what it adds to the keys. */
  lemma StepKeys(v: View, s: Sweep, image: Image.Image, c: Calls, latest: bool, dedupe: bool,
                 ids: string -> Option<seq<string>>)
    returns (added: set<string>)
    requires v.records <= s.view.records
    requires c.identifiers == ids(image.digest) && c.provided >= MaxKeys(c)
    ensures var s' := SweepStep(s, image, c, latest, dedupe);
            var ok := Skip(s, image, dedupe) || ids(image.digest).Some?;
            var counted := if ok then CountImage(s.view, image) else s.view;
            && s'.done == s.done + [ok]
            && s'.targets == (if ok then s.targets + {image.digest} else s.targets)
            && s'.view.images == counted.images && s'.view.tags == counted.tags && s'.view.digests == counted.digests
            && v.records <= s'.view.records && NewKeys(v, s') == NewKeys(v, s) + added
            && added == if ok then ImageKeys(image, latest, ids, Skip(s, image, dedupe)) else {}
  {
    var records := SuccessfulUpdate(s.view, image, Skip(s, image, dedupe), latest, c, ids);
    var _ := SweepStepEffect(s, image, c, latest, dedupe);
    var s' := SweepStep(s, image, c, latest, dedupe);
    assert New(v, s'.view) == New(v, s.view) + records;
    KeysOfConcat(New(v, s.view), records);
    added := KeysOf(records);
  }

  lemma CountAlike(v: View, w: View, image: Image.Image)
    requires v.images == w.images && v.tags == w.tags && v.digests == w.digests
    ensures var v', w' := CountImage(v, image), CountImage(w, image);
            v'.images == w'.images && v'.tags == w'.tags && v'.digests == w'.digests
  {
  }

  lemma CountKeepsRecords(v: View, image: Image.Image)
    ensures CountImage(v, image).records == v.records
  {
  }

  /**
   With a router that takes every key and identifiers determined by digest, the sweep and the sweep
   without skipDigests update the same images, set the image gauges alike and, each of them, advertise
   the same keys.
   */
  lemma {:induction false} DedupeChangesNothing(v: View, images: seq<Image.Image>, calls: seq<Calls>, latest: bool,
                                                ids: string -> Option<seq<string>>)
    requires |images| == |calls| && ByDigest(images, calls, ids) && AlwaysProvides(calls)
    ensures InStep(v, SweepOf(v, images, calls, latest, true), SweepOf(v, images, calls, latest, false), ids)
  {
    if images != [] {
      var n := |images| - 1;
      DedupeChangesNothing(v, images[..n], calls[..n], latest, ids);
      StepInStep(v, SweepOf(v, images[..n], calls[..n], latest, true),
                 SweepOf(v, images[..n], calls[..n], latest, false),
                 images[n], calls[n], latest, ids);
    }
  }

  /* ---------- Which images a sweep updates ---------- */

  /** An image of the same digest was updated earlier in the sweep. */
  ghost predicate Repeated(images: seq<Image.Image>, done: seq<bool>, i: nat)
    requires i < |images| && i <= |done|
  {
    exists j :: 0 <= j < i && done[j] && images[j].digest == images[i].digest
  }

  /** Image i is updated if and only if its identifiers are listed or not needed again, and all its keys go through. */
  ghost predicate DoneExactly(images: seq<Image.Image>, calls: seq<Calls>, done: seq<bool>, latest: bool, i: nat)
    requires |images| == |calls| == |done| && i < |images|
  {
    var skip := Repeated(images, done, i);
    var keys := UpdateKeys(images[i], skip, latest, calls[i]);
    done[i] <==> (skip || calls[i].identifiers.Some?) && |keys| <= calls[i].provided
  }

  /** An image of the digest is among the updated ones. */
  ghost predicate UpdatedDigest(images: seq<Image.Image>, done: seq<bool>, d: string)
    requires |images| == |done|
  {
    exists j :: 0 <= j < |images| && done[j] && images[j].digest == d
  }

  lemma UpdatedDigestSnoc(images: seq<Image.Image>, done: seq<bool>, ok: bool, d: string)
    requires |images| == |done| + 1
    ensures var n := |done|;
            UpdatedDigest(images, done + [ok], d) <==>
            UpdatedDigest(images[..n], done, d) || (ok && images[n].digest == d)
  {
    var n, all := |done|, done + [ok];
    assert all[n] == ok;
    assert forall j :: 0 <= j < n ==> images[..n][j] == images[j] && all[j] == done[j];
  }

  lemma {:induction false} SweepTargets(v: View, images: seq<Image.Image>, calls: seq<Calls>, latest: bool, d: string)
    requires |images| == |calls|
    ensures var s := SweepOf(v, images, calls, latest, true);
            |s.done| == |images| && (d in s.targets <==> UpdatedDigest(images, s.done, d))
  {
    if images != [] {
      var n := |images| - 1;
      SweepTargets(v, images[..n], calls[..n], latest, d);
      var before := SweepOf(v, images[..n], calls[..n], latest, true);
      var _ := SweepStepEffect(before, images[n], calls[n], latest, true);
      UpdatedDigestSnoc(images, before.done, SweepOf(v, images, calls, latest, true).done[n], d);
    }
  }

  lemma UpdateOkIff(v: View, image: Image.Image, skip: bool, latest: bool, c: Calls)
    ensures UpdateOf(v, Event(image, Update), skip, latest, c).1.Ok? <==>
            (skip || c.identifiers.Some?) && |UpdateKeys(image, skip, latest, c)| <= c.provided
  {
  }

  /** Why an update fails: its identifiers are not listed, or they are and not all its keys go through. */
  lemma UpdateFailures(v: View, event: Event, skip: bool, latest: bool, c: Calls)
    ensures var r := UpdateOf(v, event, skip, latest, c).1;
            && (r == Err(NoIdentifiers) <==> event.kind != Delete && !skip && c.identifiers.None?)
            && (r == Err(NotAdvertised) <==>
                event.kind != Delete && (skip || c.identifiers.Some?) &&
                c.provided < |UpdateKeys(event.image, skip, latest, c)|)
  {
  }

  /** The sweep, exactly: which images it updates, by the listing and the calls alone. */
  lemma {:induction false} SweepIsExact(v: View, images: seq<Image.Image>, calls: seq<Calls>, latest: bool)
    requires |images| == |calls|
    ensures var done := SweepOf(v, images, calls, latest, true).done;
            |done| == |images| && forall i :: 0 <= i < |images| ==> DoneExactly(images, calls, done, latest, i)
  {
    if images != [] {
      var n := |images| - 1;
      var before, after := SweepOf(v, images[..n], calls[..n], latest, true), SweepOf(v, images, calls, latest, true);
      SweepIsExact(v, images[..n], calls[..n], latest);
      SweepTargets(v, images[..n], calls[..n], latest, images[n].digest);
      var _ := SweepStepEffect(before, images[n], calls[n], latest, true);
      LastSkip(images, before, after.done);
      UpdateOkIff(before.view, images[n], Skip(before, images[n], true), latest, calls[n]);
      forall i | 0 <= i < n
        ensures DoneExactly(images, calls, after.done, latest, i)
      {
        EarlierIsExact(images, calls, after.done, latest, i);
      }
    }
  }

  lemma LastSkip(images: seq<Image.Image>, before: Sweep, done: seq<bool>)
    requires images != [] && |done| == |images| && before.done == done[..|images| - 1]
    requires var n := |images| - 1;
             images[n].digest in before.targets <==> UpdatedDigest(images[..n], before.done, images[n].digest)
    ensures Skip(before, images[|images| - 1], true) == Repeated(images, done, |images| - 1)
  {
    var n := |images| - 1;
    assert forall j :: 0 <= j < n ==> images[..n][j] == images[j] && before.done[j] == done[j];
  }

  lemma EarlierIsExact(images: seq<Image.Image>, calls: seq<Calls>, done: seq<bool>, latest: bool, i: nat)
    requires |images| == |calls| == |done| && i < |images| - 1
    requires var n := |images| - 1; DoneExactly(images[..n], calls[..n], done[..n], latest, i)
    ensures DoneExactly(images, calls, done, latest, i)
  {
    var n := |images| - 1;
    assert forall j :: 0 <= j < n ==> images[..n][j] == images[j] && done[..n][j] == done[j];
    assert Repeated(images[..n], done[..n], i) == Repeated(images, done, i);
  }

  /* ---------- What an event advertises ---------- */

  lemma TagKeysAre(image: Image.Image, latest: bool)
    ensures TagKeys(image, latest) ==
            if image.tag != "" && (latest || image.tag != "latest")
            then [image.registry + "/" + image.repository + ":" + image.tag] else []
  {
  }

  /** The next n records are these keys', in order, each at its time. */
  ghost predicate Appended(before: seq<Record>, after: seq<Record>, keys: seq<string>, at: nat -> real, n: nat)
    requires n <= |keys|
  {
    && |after| == |before| + n && before <= after
    && forall i :: 0 <= i < n ==> after[|before| + i] == Record(keys[i], at(i))
  }

  /**
   A create or update event whose identifiers are listed advertises the tag key, if there is to be one, and
   every identifier, in that order and each at its time, up to the first that fails; one whose identifiers
   are not listed changes nothing; and a delete event advertises nothing.
   */
  ghost predicate Advertises(before: View, after: View, event: Event, call: Calls, latest: bool)
  {
    var image := event.image;
    var tag := if image.tag != "" && (latest || image.tag != "latest")
               then [image.registry + "/" + image.repository + ":" + image.tag] else [];
    if event.kind == Delete then after.records == before.records
    else if call.identifiers.None? then after == before
    else
      var keys := tag + call.identifiers.value;
      Appended(before.records, after.records, keys, call.at, if call.provided < |keys| then call.provided else |keys|)
  }

  lemma RecordsAppended(before: seq<Record>, keys: seq<string>, at: nat -> real, n: nat)
    requires n <= |keys|
    ensures Appended(before, before + Records(keys[..n], at), keys, at, n)
  {
    var added := Records(keys[..n], at);
    assert forall i :: 0 <= i < n ==> (before + added)[|before| + i] == added[i] == Record(keys[i], at(i));
  }

  lemma UpdateAdvertises(v: View, event: Event, call: Calls, latest: bool)
    ensures Advertises(v, UpdateOf(v, event, false, latest, call).0, event, call, latest)
  {
    TagKeysAre(event.image, latest);
    if !event.kind.Delete? && call.identifiers.Some? {
      var keys := UpdateKeys(event.image, false, latest, call);
      assert keys[..|keys|] == keys;
      RecordsAppended(v.records, keys, call.at, if call.provided < |keys| then call.provided else |keys|);
    }
  }

  lemma EventAdvertises(inputs: seq<Input>, event: Event, call: Calls, latest: bool)
    requires ValidInputs(inputs)
    ensures ValidInputs(inputs + [Observed(event, call)])
    ensures Advertises(RunOf(inputs, latest), RunOf(inputs + [Observed(event, call)], latest), event, call, latest)
  {
    var all := inputs + [Observed(event, call)];
    assert all[..|inputs|] == inputs;
    UpdateAdvertises(RunOf(inputs, latest), event, call, latest);
  }

  /* ---------- Gauges ---------- */

  function Balance(v: View, registry: string): int
  {
    Get(v.images, registry) - Get(v.tags, registry) - Get(v.digests, registry)
  }

  /** Updated images of a registry, with a tag or without. */
  function Updated(images: seq<Image.Image>, done: seq<bool>, registry: string, tagged: bool): nat
    requires |images| == |done|
  {
    if images == [] then 0 else
    var n := |images| - 1;
    Updated(images[..n], done[..n], registry, tagged) +
    if done[n] && images[n].registry == registry && (images[n].tag != "") == tagged then 1 else 0
  }

  /** Keys advertised for the updated images of a registry, each digest's identifiers once. */
  ghost function KeyTotal(images: seq<Image.Image>, calls: seq<Calls>, done: seq<bool>, latest: bool,
                          registry: string): nat
    requires |images| == |calls| == |done|
  {
    if images == [] then 0 else
    var n := |images| - 1;
    KeyTotal(images[..n], calls[..n], done[..n], latest, registry) +
    if done[n] && images[n].registry == registry
    then |UpdateKeys(images[n], Repeated(images, done, n), latest, calls[n])| else 0
  }

  /** The three image gauges have these values at the registry, deletes being what images lacks. */
  ghost predicate Shows(v: View, registry: string, tags: nat, digests: nat, deletes: nat)
  {
    && Get(v.tags, registry) == tags && Get(v.digests, registry) == digests
    && Get(v.images, registry) == tags + digests - deletes
  }

  lemma CountShows(v: View, image: Image.Image, registry: string, tags: nat, digests: nat, deletes: nat)
    requires Shows(v, registry, tags, digests, deletes)
    ensures var one := if image.registry == registry then 1 else 0;
            Shows(CountImage(v, image), registry, if image.tag != "" then tags + one else tags,
                  if image.tag != "" then digests else digests + one, deletes)
  {
  }

  lemma {:induction false} SweepImageGauges(v: View, images: seq<Image.Image>, calls: seq<Calls>, latest: bool,
                                            registry: string)
    requires |images| == |calls|
    ensures var s := SweepOf(v, images, calls, latest, true);
            && |s.done| == |images|
            && Shows(s.view, registry, Updated(images, s.done, registry, true),
                Updated(images, s.done, registry, false), 0)
  {
    if images != [] {
      var n := |images| - 1;
      SweepImageGauges(v, images[..n], calls[..n], latest, registry);
      var s := SweepOf(v, images[..n], calls[..n], latest, true);
      var ok := SweepStepGauges(s, images[n], calls[n], latest, registry, Updated(images[..n], s.done, registry, true),
                                Updated(images[..n], s.done, registry, false));
      assert SweepOf(v, images, calls, latest, true).done[..n] == s.done;
    }
  }

  lemma {:induction false} SweepKeyGauge(v: View, images: seq<Image.Image>, calls: seq<Calls>, latest: bool,
                                         registry: string)
    requires |images| == |calls|
    ensures var s := SweepOf(v, images, calls, latest, true);
            |s.done| == |images| && Get(s.view.keys, registry) == KeyTotal(images, calls, s.done, latest, registry)
  {
    if images != [] {
      var n := |images| - 1;
      SweepKeyGauge(v, images[..n], calls[..n], latest, registry);
      SweepImageGauges(v, images[..n], calls[..n], latest, registry);
      SweepTargets(v, images[..n], calls[..n], latest, images[n].digest);
      var s, s' := SweepOf(v, images[..n], calls[..n], latest, true), SweepOf(v, images, calls, latest, true);
      var ok := SweepStepGauges(s, images[n], calls[n], latest, registry, Updated(images[..n], s.done, registry, true),
                                Updated(images[..n], s.done, registry, false));
      assert s'.done[..n] == s.done;
      LastSkip(images, s, s'.done);
    }
  }

  /**
   After a sweep, for each registry: tags is the number of updated images that have one, digests the number
   that have none, images both together, and keys the number of keys advertised for them.
   */
  lemma SweepGauges(v: View, images: seq<Image.Image>, calls: seq<Calls>, latest: bool, registry: string)
    requires |images| == |calls|
    ensures var s := SweepOf(v, images, calls, latest, true);
            && |s.done| == |images|
            && Shows(s.view, registry, Updated(images, s.done, registry, true),
                Updated(images, s.done, registry, false), 0)
            && Get(s.view.keys, registry) == KeyTotal(images, calls, s.done, latest, registry)
  {
    SweepImageGauges(v, images, calls, latest, registry);
    SweepKeyGauge(v, images, calls, latest, registry);
  }

  lemma SweepStepGauges(s: Sweep, image: Image.Image, c: Calls, latest: bool, registry: string, tags: nat, digests: nat)
    returns (ok: bool)
    requires Shows(s.view, registry, tags, digests, 0)
    ensures var s' := SweepStep(s, image, c, latest, true);
            var one := if ok && image.registry == registry then 1 else 0;
            && s'.done == s.done + [ok]
            && Shows(s'.view, registry, if image.tag != "" then tags + one else tags,
                     if image.tag != "" then digests else digests + one, 0)
            && Get(s'.view.keys, registry) ==
               Get(s.view.keys, registry) + one * |UpdateKeys(image, Skip(s, image, true), latest, c)|
  {
    var (v', r) := UpdateOf(s.view, Event(image, Update), Skip(s, image, true), latest, c);
    ok := r.Ok?;
    UpdateLeavesGauges(s.view, image, Skip(s, image, true), latest, c);
    if ok {
      CountShows(v'.(keys := Add(v'.keys, image.registry, r.value)), image, registry, tags, digests, 0);
      CountKeepsKeys(v'.(keys := Add(v'.keys, image.registry, r.value)), image);
    }
  }

  lemma CountKeepsKeys(v: View, image: Image.Image)
    ensures CountImage(v, image).keys == v.keys
  {
  }

  /** A listed image's update changes no gauge itself, and reports the number of keys it advertised. */
  lemma UpdateLeavesGauges(v: View, image: Image.Image, skip: bool, latest: bool, c: Calls)
    ensures var (v', r) := UpdateOf(v, Event(image, Update), skip, latest, c);
            && v'.keys == v.keys && v'.images == v.images && v'.tags == v.tags && v'.digests == v.digests
            && (r.Ok? ==> r.value == |UpdateKeys(image, skip, latest, c)|)
  {
  }

  /** Delete events handled for a registry since the last successful listing. */
  function PendingDeletes(inputs: seq<Input>, registry: string): nat
  {
    if inputs == [] then 0 else
    var before := PendingDeletes(inputs[..|inputs| - 1], registry);
    match inputs[|inputs| - 1]
    case Tick(_, Some(_), _) => 0
    case Observed(event, _) => before + if event.kind.Delete? && event.image.registry == registry then 1 else 0
    case _ => before
  }

  /** The event is a create whose identifiers are listed and whose keys all go through. */
  predicate Created(event: Event, call: Calls, latest: bool)
  {
    event.kind == Create && call.identifiers.Some? && |UpdateKeys(event.image, false, latest, call)| <= call.provided
  }

  /** Images of a registry updated by the last successful listing or created since, with a tag or without. */
  function Counted(inputs: seq<Input>, latest: bool, registry: string, tagged: bool): nat
    requires ValidInputs(inputs)
  {
    if inputs == [] then 0 else
    var n := |inputs| - 1;
    var before := Counted(inputs[..n], latest, registry, tagged);
    match inputs[n]
    case Tick(_, Some(images), calls) =>
      var done := SweepOf(RunOf(inputs[..n], latest), images, calls, latest, true).done;
      if |done| == |images| then Updated(images, done, registry, tagged) else 0
    case Observed(event, call) =>
      var image := event.image;
      before + if Created(event, call, latest) && image.registry == registry &&
          (image.tag != "") == tagged then 1 else 0
    case _ => before
  }

  /**
   The gauges in every reachable state: tags and digests are the images updated by the last successful
   listing or created since, with a tag and without, and images is both less the deletes since.
   */
  lemma {:induction false} GaugesAreExact(inputs: seq<Input>, latest: bool, registry: string)
    requires ValidInputs(inputs)
    ensures Shows(RunOf(inputs, latest), registry, Counted(inputs, latest, registry, true),
                  Counted(inputs, latest, registry, false), PendingDeletes(inputs, registry))
  {
    if inputs != [] {
      var initial, input := inputs[..|inputs| - 1], inputs[|inputs| - 1];
      GaugesAreExact(initial, latest, registry);
      var v := RunOf(initial, latest);
      match input
      case Tick(_, Some(images), calls) => SweepGauges(v, images, calls, latest, registry);
      case Observed(event, call) =>
        EventShows(v, event, latest, call, registry, Counted(initial, latest, registry, true),
                   Counted(initial, latest, registry, false), PendingDeletes(initial, registry));
      case _ =>
    }
  }

  lemma EventShows(v: View, event: Event, latest: bool, c: Calls, registry: string, tags: nat, digests: nat,
                   deletes: nat)
    requires Shows(v, registry, tags, digests, deletes)
    ensures var one := if event.image.registry == registry then 1 else 0;
            var made := if Created(event, c, latest) then one else 0;
            Shows(UpdateOf(v, event, false, latest, c).0, registry, if event.image.tag != "" then tags + made else tags,
                  if event.image.tag != "" then digests else digests + made,
                  if event.kind == Delete then deletes + one else deletes)
  {
    if Created(event, c, latest) {
      var keys := UpdateKeys(event.image, false, latest, c);
      CountShows(v.(records := v.records + Records(Provided(keys, c), c.at)), event.image, registry, tags, digests,
          deletes);
    }
  }

  /** In every reachable state: images minus tags minus digests is minus the pending deletes. */
  lemma GaugeConservation(inputs: seq<Input>, latest: bool, registry: string)
    requires ValidInputs(inputs)
    ensures Balance(RunOf(inputs, latest), registry) == 0 - PendingDeletes(inputs, registry)
  {
    GaugesAreExact(inputs, latest, registry);
  }

  /* ---------- Latest tags ---------- */

  predicate Hex(c: char)
  {
    '0' <= c <= '9' || 'a' <= c <= 'f'
  }

  /** The shape of a digest: hexadecimal digits after the colon. */
  predicate DigestShape(key: string)
  {
    forall c :: c in Strings.CutAfter(key, ':') ==> Hex(c)
  }

  ghost predicate DigestsOnly(c: Calls)
  {
    c.identifiers.Some? ==> forall k :: k in c.identifiers.value ==> DigestShape(k)
  }

  /** As the parser guarantees (Image.ParsedIsWellFormed); the registry may have a port. */
  predicate PlainRepository(image: Image.Image)
  {
    ':' !in image.repository
  }

  ghost predicate Ordinary(input: Input)
  {
    match input
    case Tick(_, Some(images), calls) =>
      (forall i :: 0 <= i < |images| ==> PlainRepository(images[i])) &&
          (forall i :: 0 <= i < |calls| ==> DigestsOnly(calls[i]))
    case Observed(event, call) => PlainRepository(event.image) && DigestsOnly(call)
    case _ => true
  }

  ghost predicate NoLatest(records: seq<Record>)
  {
    forall r :: r in records ==> !Distribution.HasLatestTag(r.key)
  }

  lemma DigestIsNotLatest(key: string)
    requires DigestShape(key)
    ensures !Distribution.HasLatestTag(key)
  {
    assert "latest"[0] in "latest" && !Hex("latest"[0]);
  }

  lemma TagKeyIsNotLatest(image: Image.Image)
    requires PlainRepository(image)
    ensures forall k :: k in TagKeys(image, false) ==> !Distribution.HasLatestTag(k)
  {
    Distribution.LatestOfTagName(image.registry, image.repository, image.tag);
  }

  lemma UpdateNoLatest(v: View, event: Event, skip: bool, c: Calls)
    requires NoLatest(v.records) && PlainRepository(event.image) && DigestsOnly(c)
    ensures NoLatest(UpdateOf(v, event, skip, false, c).0.records)
  {
    if !event.kind.Delete? && (skip || c.identifiers.Some?) {
      var keys := UpdateKeys(event.image, skip, false, c);
      TagKeyIsNotLatest(event.image);
      forall k | k in keys
        ensures !Distribution.HasLatestTag(k)
      {
        if k !in TagKeys(event.image, false) {
          DigestIsNotLatest(k);
        }
      }
      RecordsNoLatest(Provided(keys, c), c.at);
    }
  }

  lemma RecordsNoLatest(keys: seq<string>, at: nat -> real)
    requires forall k :: k in keys ==> !Distribution.HasLatestTag(k)
    ensures NoLatest(Records(keys, at))
  {
  }

  lemma {:induction false} SweepNoLatest(v: View, images: seq<Image.Image>, calls: seq<Calls>)
    requires |images| == |calls| && NoLatest(v.records)
    requires forall i :: 0 <= i < |images| ==> PlainRepository(images[i]) && DigestsOnly(calls[i])
    ensures NoLatest(SweepOf(v, images, calls, false, true).view.records)
  {
    if images != [] {
      var n := |images| - 1;
      SweepNoLatest(v, images[..n], calls[..n]);
      var s := SweepOf(v, images[..n], calls[..n], false, true);
      UpdateNoLatest(s.view, Event(images[n], Update), images[n].digest in s.targets, calls[n]);
      CountKeepsRecords(UpdateOf(s.view, Event(images[n], Update), images[n].digest in s.targets, false, calls[n]).0,
          images[n]);
    }
  }

  /** With latest tags not resolved, no run ever advertises a key that the request side would refuse as latest. */
  lemma {:induction false} LatestNeverAdvertised(inputs: seq<Input>)
    requires ValidInputs(inputs) && forall i :: 0 <= i < |inputs| ==> Ordinary(inputs[i])
    ensures NoLatest(RunOf(inputs, false).records)
  {
    if inputs != [] {
      var initial, input := inputs[..|inputs| - 1], inputs[|inputs| - 1];
      LatestNeverAdvertised(initial);
      var v := RunOf(initial, false);
      assert Ordinary(input);
      match input
      case Tick(_, Some(images), calls) => SweepNoLatest(v, images, calls);
      case Observed(event, call) => UpdateNoLatest(v, event, false, call);
      case _ =>
    }
  }
}
