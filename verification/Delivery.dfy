/**
 The components together: an image that a node keeps is swept by its state tracker, its keys are walked out of
 the node's content, their records stay alive, lookups for them find the node, and requests for the image at
 any node are answered. What libp2p contributes is a parameter: the providers that a lookup yields.
 */
module Delivery {
  import opened Prelude
  import opened Tracker
  import opened Freshness
  import opened Cluster
  import Image
  import ImageWalk
  import Registry
  import Resolve
  import Distribution
  import Strings
  import TrackerRuns

  /** A run of a node's tracker, when it started, how late its sweeps may be, and a time to look at it. */
  datatype Watch = Watch(inputs: seq<Input>, latest: bool, start: real, delay: real, t: real)
  {
    ghost predicate Valid()
    {
      && ValidInputs(inputs) && Ticks(inputs) > 0 && delay <= MINUTE
      && start + delay <= t <= TickTime(start, Ticks(inputs) - 1) + KEY_TTL
    }

    function Records(): seq<Record>
      requires ValidInputs(inputs)
    {
      RunOf(inputs, latest).records
    }
  }

  /* ---------- Lookups ---------- */

  /** One run of Resolve's goroutine and its consumer. */
  datatype Lookup = Lookup(call: Resolve.Call, steps: seq<Resolve.Step>, state: Resolve.State)
  {
    /** Closed and drained, the providers having been within the capacity. */
    ghost predicate Completed()
    {
      && Resolve.Run(call, steps, state) && state.closed && state.buffer == []
      && |state.seen| <= Resolve.Capacity(call)
    }
  }

  /** The lookup that each node makes for each key, and the address of a peer. */
  datatype Router = Router(lookups: (Address, string) -> Lookup, at: Resolve.Peer -> Address)
  {
    function Route(): Routing
    {
      (node, key) => Addresses(at, lookups(node, key).state.delivered)
    }
  }

  function Addresses(at: Resolve.Peer -> Address, peers: seq<Resolve.Peer>): seq<Address>
  {
    seq(|peers|, i requires 0 <= i < |peers| => at(peers[i]))
  }

  /** The provider has one address, usable in this call, which at the registry's port is p's. */
  ghost predicate IsAt(call: Resolve.Call, q: Resolve.Provider, at: Resolve.Peer -> Address, p: Address)
  {
    exists ip :: Resolve.Usable(call, q, ip) && at(Resolve.Peer(ip, call.port)) == p
  }

  /** The node's lookup for every key of which p has a live record completes, p among its providers. */
  ghost predicate Finds(router: Router, node: Address, p: Address, records: seq<Record>, t: real)
  {
    forall key :: Alive(records, key, t) ==>
      && router.lookups(node, key).Completed()
      && exists q :: q in router.lookups(node, key).state.seen && IsAt(router.lookups(node, key).call, q, router.at, p)
  }

  /** A provider among those of a completed lookup is delivered: nothing was dropped. */
  lemma FoundIsDelivered(router: Router, node: Address, p: Address, key: string, records: seq<Record>, t: real)
    requires Finds(router, node, p, records, t) && Alive(records, key, t)
    ensures p in router.Route()(node, key)
  {
    var l := router.lookups(node, key);
    var q :| q in l.state.seen && IsAt(l.call, q, router.at, p);
    var ip :| Resolve.Usable(l.call, q, ip) && router.at(Resolve.Peer(ip, l.call.port)) == p;
    Resolve.NothingDropped(l.call, l.steps, l.state);
    var peers := l.state.delivered;
    var i :| 0 <= i < |peers| && peers[i] == Resolve.Peer(ip, l.call.port);
    assert Addresses(router.at, peers)[i] == p;
  }

  /* ---------- A held key is found and served ---------- */

  /** The sweeps of the watched run all hold the key. */
  ghost predicate HoldsKeyAt(w: Watch, key: string)
  {
    w.Valid() && KeptBy(w.inputs, w.latest, key, w.start, w.delay)
  }

  lemma HeldKeyIsAlive(w: Watch, key: string)
    requires HoldsKeyAt(w, key)
    ensures Alive(w.Records(), key, w.t)
  {
    var _ := HeldKeysNeverLapse(w.inputs, w.latest, key, w.start, w.delay);
  }

  /**
   A request at any node, looked up under a key that p holds and whose request p serves, is answered by the
   first delivered peer that serves it, p or one before it.
   */
  lemma HeldKeyIsServed(w: Watch, key: string, nodes: Nodes, router: Router, node: Address, p: Address,
                        req: Registry.Request)
    returns (server: Address)
    requires HoldsKeyAt(w, key) && Finds(router, node, p, w.Records(), w.t)
    requires node in nodes && LookupKey(w.latest, req) == Some(key) && Serves(nodes, router.Route(), p, w.latest, req)
    ensures server in router.Route()(node, key) && Serves(nodes, router.Route(), server, w.latest, req)
    ensures Handle(nodes, router.Route(), w.latest, node, req, None).0 ==
            PeerAnswer(nodes, router.Route(), server, w.latest, req)
  {
    HeldKeyIsAlive(w, key);
    FoundIsDelivered(router, node, p, key, w.Records(), w.t);
    MirrorsFirstServing(nodes, router.Route(), w.latest, node, req);
    server := ServedBy(nodes, router.Route(), router.Route()(node, key), w.latest, req, p);
  }

  lemma ServedBy(nodes: Nodes, route: Routing, peers: seq<Address>, latest: bool, req: Registry.Request, p: Address)
    returns (server: Address)
    requires p in peers && Serves(nodes, route, p, latest, req)
    ensures server in peers && Serves(nodes, route, server, latest, req)
    ensures var k := FirstServing(nodes, route, peers, latest, req); k < |peers| && server == peers[k]
  {
    var i :| 0 <= i < |peers| && peers[i] == p;
    server := peers[FirstServing(nodes, route, peers, latest, req)];
  }

  /* ---------- A held image: the walk supplies the keys ---------- */

  /** An image's target and the content it is walked over; rank witnesses that the content has no cycle. */
  datatype Content = Content(base: ImageWalk.Store, rank: string -> nat, target: ImageWalk.Descriptor)
  {
    ghost predicate Walkable()
    {
      ImageWalk.Acyclic(base, rank) && ImageWalk.Preorder(base, rank, target).Some?
    }

    /** The key is one of a descriptor that the walk reaches. */
    ghost predicate Reaches(e: ImageWalk.Descriptor, key: string)
    {
      ImageWalk.Reached(base, target, e) && ImageWalk.IsKeyOf(base, e, key)
    }
  }

  /** The identifiers are those of walking the target over content that extends base. */
  ghost predicate WalkedFrom(c: Content, ids: seq<string>)
  {
    exists store :: ImageWalk.Extends(c.base, store) && ImageWalk.Acyclic(store, c.rank) &&
                    ImageWalk.Preorder(store, c.rank, c.target) == Some(ids)
  }

  ghost predicate Timely(c: Calls, n: nat, fired: real, delay: real)
  {
    forall p: nat :: p < n ==> fired <= c.at(p) <= fired + delay
  }

  /**
   The sweep updates an image of the target's digest, and each listing of that digest's identifiers is a walk
   over content that has base, its keys provided within the delay. Content may have arrived beyond base, and
   other images may do as they like.
   */
  ghost predicate SweepsImage(v: View, input: Input, latest: bool, c: Content, delay: real)
    requires ValidInput(input)
  {
    input.Tick? && input.listing.Some? &&
    var images, calls := input.listing.value, input.calls;
    var s := SweepOf(v, images, calls, latest, true);
    && |s.done| == |images|
    && (exists i :: 0 <= i < |images| && s.done[i] && images[i].digest == c.target.digest)
    && forall j :: 0 <= j < |images| && images[j].digest == c.target.digest && calls[j].identifiers.Some? ==>
         && WalkedFrom(c, calls[j].identifiers.value)
         && Timely(calls[j], |UpdateKeys(images[j], false, latest, calls[j])|, input.fired, delay)
  }

  /** Input i is no tick, or one on schedule. */
  predicate OnSchedule(inputs: seq<Input>, i: nat, start: real)
    requires i < |inputs|
  {
    inputs[i].Tick? ==> inputs[i].fired == TickTime(start, Ticks(inputs[..i]))
  }

  /** Every tick of the watched run is on schedule and sweeps the image. */
  ghost predicate KeepsImage(w: Watch, c: Content)
  {
    w.Valid() && c.Walkable() &&
    forall i :: 0 <= i < |w.inputs| ==>
      && OnSchedule(w.inputs, i, w.start)
      && (w.inputs[i].Tick? ==> SweepsImage(RunOf(w.inputs[..i], w.latest), w.inputs[i], w.latest, c, w.delay))
  }

  lemma WalkedKeyIsProvided(c: Content, key: string, image: Image.Image, latest: bool, call: Calls, fired: real,
                            delay: real)
    requires c.Walkable() && key in ImageWalk.Preorder(c.base, c.rank, c.target).value
    requires call.identifiers.Some? && WalkedFrom(c, call.identifiers.value)
    requires Timely(call, |UpdateKeys(image, false, latest, call)|, fired, delay)
    ensures Provides(UpdateKeys(image, false, latest, call), call.at, key, fired, delay)
  {
    WalkedKeyIsListed(c, key, call.identifiers.value);
    ListedKeyIsProvided(key, image, latest, call, fired, delay);
  }

  /** Walked over more content, the target still has the key. */
  lemma WalkedKeyIsListed(c: Content, key: string, ids: seq<string>)
    requires c.Walkable() && key in ImageWalk.Preorder(c.base, c.rank, c.target).value && WalkedFrom(c, ids)
    ensures key in ids
  {
    var store :| ImageWalk.Extends(c.base, store) && ImageWalk.Acyclic(store, c.rank) &&
                 ImageWalk.Preorder(store, c.rank, c.target) == Some(ids);
    ImageWalk.WalkIsMonotone(c.base, store, c.rank, c.target);
    SubsequenceMember(ImageWalk.Preorder(c.base, c.rank, c.target).value, ids, key);
  }

  lemma ListedKeyIsProvided(key: string, image: Image.Image, latest: bool, call: Calls, fired: real, delay: real)
    requires call.identifiers.Some? && key in call.identifiers.value
    requires Timely(call, |UpdateKeys(image, false, latest, call)|, fired, delay)
    ensures Provides(UpdateKeys(image, false, latest, call), call.at, key, fired, delay)
  {
    var ids, keys := call.identifiers.value, UpdateKeys(image, false, latest, call);
    var i :| 0 <= i < |ids| && ids[i] == key;
    var p := |TagKeys(image, latest)| + i;
    assert keys[p] == key && fired <= call.at(p) <= fired + delay;
  }

  lemma SweptImageHoldsKeys(v: View, input: Input, latest: bool, c: Content, delay: real, key: string)
    requires ValidInput(input) && SweepsImage(v, input, latest, c, delay)
    requires c.Walkable() && key in ImageWalk.Preorder(c.base, c.rank, c.target).value
    ensures Freshness.Holds(v, input, latest, key, delay)
  {
    var images, calls := input.listing.value, input.calls;
    forall j | 0 <= j < |images| && images[j].digest == c.target.digest && calls[j].identifiers.Some?
      ensures Provides(UpdateKeys(images[j], false, latest, calls[j]), calls[j].at, key, input.fired, delay)
    {
      WalkedKeyIsProvided(c, key, images[j], latest, calls[j], input.fired, delay);
    }
    assert ProvidedByDigest(images, calls, c.target.digest, latest, key, input.fired, delay);
  }

  /** A kept image keeps every key that its walk over base reaches. */
  lemma KeptImageKeepsKeys(w: Watch, c: Content, e: ImageWalk.Descriptor, key: string)
    requires KeepsImage(w, c) && c.Reaches(e, key)
    ensures HoldsKeyAt(w, key)
  {
    ImageWalk.KeysOfReached(c.base, c.rank, c.target, key);
    forall i | 0 <= i < |w.inputs|
      ensures KeptAt(w.inputs, i, w.latest, key, w.start, w.delay)
    {
      if w.inputs[i].Tick? {
        SweptImageHoldsKeys(RunOf(w.inputs[..i], w.latest), w.inputs[i], w.latest, c, w.delay, key);
      }
    }
  }

  /* ---------- Requests for a held image ---------- */

  /** Every peer that can serve the digest reads all of it. */
  ghost predicate ReadWhole(nodes: Nodes, peers: seq<Address>, digest: string)
  {
    forall q :: q in peers && CanServe(nodes, Registry.Get, q, digest) ==> nodes[q].blobs[digest].complete
  }

  /**
   Every config, layer or other digest that the image's walk reaches, as long as the keeping node can serve
   it: a blob request at any node gets 200, and for a GET exactly the content if the delivered peers able to
   serve it read it whole, for a HEAD no body.
   */
  lemma HeldBlobIsServed(w: Watch, c: Content, nodes: Nodes, router: Router, node: Address, p: Address,
                         verb: Registry.Verb, e: ImageWalk.Descriptor, digest: string, name: string, ns: string,
                         host: string, content: seq<bv8>)
    requires KeepsImage(w, c) && Finds(router, node, p, w.Records(), w.t) && c.Reaches(e, digest)
    requires node in nodes && CanServe(nodes, verb, p, digest) && Cluster.Holds(nodes, digest, content)
    requires Distribution.IsName(name) && Distribution.NoSlashOrNewline(digest) && digest != ""
    requires !Strings.Contains(name + "/", Distribution.MANIFESTS)
    ensures var peers := router.Route()(node, digest);
            var req := BlobRequest(verb, name, digest, ns, host);
            var answer := Handle(nodes, router.Route(), w.latest, node, req, None).0;
            && answer.status == 200 && answer.body <= content
            && (verb == Registry.Head ==> answer.body == [])
            && (verb == Registry.Get && ReadWhole(nodes, peers, digest) ==> answer.body == content)
  {
    KeptImageKeepsKeys(w, c, e, digest);
    HeldKeyIsAlive(w, digest);
    FoundIsDelivered(router, node, p, digest, w.Records(), w.t);
    BlobIsServed(nodes, router.Route(), w.latest, node, verb, name, digest, ns, host, content);
    var peers := router.Route()(node, digest);
    var i :| 0 <= i < |peers| && peers[i] == p;
    var k := FirstAble(nodes, verb, peers, digest);
    assert peers[k] in peers;
  }

  /** What the walk reads, the node also serves as manifests. */
  ghost predicate Backs(store: Registry.Store, base: ImageWalk.Store)
  {
    base.documents.Keys <= store.manifests.Keys
  }

  ghost predicate SameManifest(nodes: Nodes, digest: string, content: seq<bv8>)
  {
    forall q :: q in nodes && digest in nodes[q].manifests ==> nodes[q].manifests[digest] == content
  }

  function ManifestRequest(verb: Registry.Verb, name: string, reference: string, ns: string,
                           host: string): Registry.Request
  {
    ManifestPathRequest(verb, name, reference, ns, host, false)
  }

  /** What a request with this verb gets of a content. */
  function Part(verb: Registry.Verb, content: seq<bv8>): seq<bv8>
  {
    if verb == Registry.Head then [] else content
  }

  lemma ManifestLookup(nodes: Nodes, route: Routing, latest: bool, verb: Registry.Verb, name: string, digest: string,
                       ns: string,
                       host: string)
    requires Distribution.IsName(name) && Distribution.NoSlashOrNewline(digest) && digest != "" &&
             !Distribution.IsTag(digest)
    ensures LookupKey(latest, ManifestRequest(verb, name, digest, ns, host)) == Some(digest)
    ensures forall q :: q in nodes ==>
              PeerAnswer(nodes, route, q, latest, ManifestRequest(verb, name, digest, ns, host)) ==
              if digest in nodes[q].manifests then Registry.Answer(200, Part(verb, nodes[q].manifests[digest]))
              else Registry.Answer(404, [])
  {
    Distribution.NotVersionCheck(name, Distribution.MANIFESTS, digest);
    Distribution.SimpleReference(digest);
    Distribution.ManifestDigestPath(ns, name, digest);
  }

  /**
   Every index and manifest that the image's walk reaches: a request for it by digest at any node gets 200
   with its content.
   */
  lemma HeldManifestIsServed(w: Watch, c: Content, nodes: Nodes, router: Router, node: Address, p: Address,
                             verb: Registry.Verb,
                             e: ImageWalk.Descriptor, name: string, ns: string, host: string, content: seq<bv8>)
    requires KeepsImage(w, c) && Finds(router, node, p, w.Records(), w.t) && ImageWalk.Reached(c.base, c.target, e)
    requires node in nodes && p in nodes && Backs(nodes[p], c.base) && SameManifest(nodes, e.digest, content)
    requires Distribution.IsName(name) && Distribution.NoSlashOrNewline(e.digest) && e.digest != "" &&
             !Distribution.IsTag(e.digest)
    ensures Handle(nodes, router.Route(), w.latest, node, ManifestRequest(verb, name, e.digest, ns, host), None).0 ==
            Registry.Answer(200, Part(verb, content))
  {
    ReachedIsRead(c, e);
    KeptImageKeepsKeys(w, c, e, e.digest);
    ManifestLookup(nodes, router.Route(), w.latest, verb, name, e.digest, ns, host);
    var server := HeldKeyIsServed(w, e.digest, nodes, router, node, p, ManifestRequest(verb, name, e.digest, ns, host));
  }

  lemma ReachedIsRead(c: Content, e: ImageWalk.Descriptor)
    requires c.Walkable() && ImageWalk.Reached(c.base, c.target, e)
    ensures c.Reaches(e, e.digest) && e.digest in c.base.documents
  {
    ImageWalk.SucceedsIffReachedOk(c.base, c.rank, c.target);
    assert ImageWalk.Walkable(c.base, e);
  }

  /* ---------- Its tag ---------- */

  /** The image listed for <registry>/<name>:<tag>, by what its reference parses to. */
  function TaggedImage(registry: string, name: string, tag: string, digest: string): Image.Image
  {
    Image.Image(registry + "/" + name + ":" + tag, registry, name, tag, digest)
  }

  /** Every sweep of the watched run updates this image, its first key provided within the delay. */
  ghost predicate SweepsTag(w: Watch, image: Image.Image)
  {
    w.Valid() && forall i :: 0 <= i < |w.inputs| ==>
      && OnSchedule(w.inputs, i, w.start)
      && (w.inputs[i].Tick? ==> UpdatesInTime(RunOf(w.inputs[..i], w.latest), w.inputs[i], w.latest, image, w.delay))
  }

  ghost predicate UpdatesInTime(v: View, input: Input, latest: bool, image: Image.Image, delay: real)
    requires ValidInput(input)
  {
    input.Tick? && input.listing.Some? &&
    var images, calls := input.listing.value, input.calls;
    var s := SweepOf(v, images, calls, latest, true);
    && |s.done| == |images|
    && exists i :: 0 <= i < |images| && s.done[i] && images[i] == image &&
        input.fired <= calls[i].at(0) <= input.fired + delay
  }

  lemma UpdatedTagIsHeld(v: View, input: Input, latest: bool, image: Image.Image, delay: real, key: string)
    requires ValidInput(input) && UpdatesInTime(v, input, latest, image, delay) && TagKeys(image, latest) == [key]
    ensures Freshness.Holds(v, input, latest, key, delay)
  {
    var images, calls := input.listing.value, input.calls;
    var s := SweepOf(v, images, calls, latest, true);
    var i :| 0 <= i < |images| && s.done[i] && images[i] == image &&
        input.fired <= calls[i].at(0) <= input.fired + delay;
    assert TagKeys(images[i], latest)[0] == key;
    assert Provides(TagKeys(images[i], latest), calls[i].at, key, input.fired, delay);
  }

  /** An image that every sweep updates keeps its tag key, if it is to have one. */
  lemma SweptTagIsHeld(w: Watch, image: Image.Image, key: string)
    requires SweepsTag(w, image) && TagKeys(image, w.latest) == [key]
    ensures HoldsKeyAt(w, key)
  {
    forall i | 0 <= i < |w.inputs|
      ensures KeptAt(w.inputs, i, w.latest, key, w.start, w.delay)
    {
      if w.inputs[i].Tick? {
        UpdatedTagIsHeld(RunOf(w.inputs[..i], w.latest), w.inputs[i], w.latest, image, w.delay, key);
      }
    }
  }

  function TagReference(registry: string, name: string, tag: string): Distribution.Reference
  {
    Distribution.Reference(Distribution.Manifest, registry + "/" + name + ":" + tag, "", registry)
  }

  /** A tag is advertised, and its request looked up, under the same key, unless it is latest and not to be resolved. */
  lemma TagLookup(registry: string, name: string, tag: string, digest: string, latest: bool, verb: Registry.Verb,
                  host: string)
    requires Image.ValidRegistry(registry) && Distribution.IsName(name) && Distribution.IsTag(tag) && digest != ""
    ensures var image := TaggedImage(registry, name, tag, digest);
            && Image.Plain(image.name) && Image.Parse(image.name, digest) == Ok(image)
            && (latest || tag != "latest" ==> TagKeys(image, latest) == [image.name])
    ensures var ref, req := TagReference(registry, name, tag), ManifestRequest(verb, name, tag, registry, host);
            latest || tag != "latest" ==>
              && Registry.Classify(latest, req) == Registry.Mirrored(ref)
              && Registry.Classify(latest, Forwarded(req)) == Registry.Local(ref)
  {
    Distribution.ParseTagged(registry, name, tag, digest);
    Distribution.TagPath(registry, name, tag);
    Distribution.TagIsPlainText(tag);
    Distribution.NotVersionCheck(name, Distribution.MANIFESTS, tag);
    Distribution.LatestRecognised(registry, name, tag);
  }

  /** The answer of a peer to a tag request that was forwarded to it. */
  lemma TagAnswer(nodes: Nodes, route: Routing, q: Address, latest: bool, req: Registry.Request,
                  ref: Distribution.Reference)
    requires q in nodes && Registry.Classify(latest, Forwarded(req)) == Registry.Local(ref)
    ensures PeerAnswer(nodes, route, q, latest, req) == Registry.LocalAnswer(nodes[q], req.verb, ref)
  {
  }

  /** Wherever the tag resolves, it resolves to this digest. */
  ghost predicate SameDigest(nodes: Nodes, key: string, digest: string)
  {
    forall q :: q in nodes && key in nodes[q].tags ==> nodes[q].tags[key] == digest
  }

  /**
   The tag of a held image: its sweeps update the image, the keeping node resolves the tag to the target of
   the kept content. A request for the tag at any node gets 200, and with the tag resolving alike everywhere,
   the target's content. Not claimed of the tag latest where it is not to be resolved.
   */
  lemma HeldTagIsServed(w: Watch, c: Content, nodes: Nodes, router: Router, node: Address, p: Address,
                        verb: Registry.Verb,
                        registry: string, name: string, tag: string, host: string, content: seq<bv8>)
    requires Image.ValidRegistry(registry) && Distribution.IsName(name) && Distribution.IsTag(tag) &&
             c.target.digest != ""
    requires w.latest || tag != "latest"
    requires KeepsImage(w, c) && SweepsTag(w, TaggedImage(registry, name, tag, c.target.digest))
    requires Finds(router, node, p, w.Records(), w.t)
    requires node in nodes && p in nodes && Backs(nodes[p], c.base)
    requires var key := registry + "/" + name + ":" + tag; key in nodes[p].tags && nodes[p].tags[key] == c.target.digest
    ensures var req := ManifestRequest(verb, name, tag, registry, host);
            var answer := Handle(nodes, router.Route(), w.latest, node, req, None).0;
            && answer.status == 200
            && (SameDigest(nodes, registry + "/" + name + ":" + tag, c.target.digest) &&
                SameManifest(nodes, c.target.digest, content) ==>
                  answer.body == Part(verb, content))
  {
    TagLookup(registry, name, tag, c.target.digest, w.latest, verb, host);
    SweptTagIsHeld(w, TaggedImage(registry, name, tag, c.target.digest), registry + "/" + name + ":" + tag);
    ImageWalk.ReachedSelf(c.base, c.target);
    ReachedIsRead(c, c.target);
    TagServed(w, nodes, router, node, p, ManifestRequest(verb, name, tag, registry, host),
              TagReference(registry, name, tag), c.target.digest, content);
  }

  lemma TagServed(w: Watch, nodes: Nodes, router: Router, node: Address, p: Address, req: Registry.Request,
                  ref: Distribution.Reference, digest: string, content: seq<bv8>)
    requires HoldsKeyAt(w, ref.name) && Finds(router, node, p, w.Records(), w.t)
    requires ref.kind.Manifest? && ref.digest == ""
    requires node in nodes && p in nodes && ref.name in nodes[p].tags && nodes[p].tags[ref.name] in nodes[p].manifests
    ensures var answer := Handle(nodes, router.Route(), w.latest, node, req, None).0;
            Registry.Classify(w.latest, req) == Registry.Mirrored(ref) &&
            Registry.Classify(w.latest, Forwarded(req)) == Registry.Local(ref) ==>
              && answer.status == 200
              && (SameDigest(nodes, ref.name, digest) && SameManifest(nodes, digest, content) ==>
                    answer.body == Part(req.verb, content))
  {
    if Registry.Classify(w.latest, req) == Registry.Mirrored(ref) &&
       Registry.Classify(w.latest, Forwarded(req)) == Registry.Local(ref) {
      TagAnswer(nodes, router.Route(), p, w.latest, req, ref);
      var server := HeldKeyIsServed(w, ref.name, nodes, router, node, p, req);
      TagAnswer(nodes, router.Route(), server, w.latest, req, ref);
    }
  }

  /* ---------- Latest keys lead nowhere ---------- */

  /** Whatever is delivered for a key has a live record of it, made by its own tracker. */
  ghost predicate DeliversLive(route: Routing, node: Address, trackers: map<Address, seq<Input>>, t: real)
    requires forall p :: p in trackers ==> ValidInputs(trackers[p])
  {
    forall p, key :: p in route(node, key) ==> p in trackers && Alive(RunOf(trackers[p], false).records, key, t)
  }

  /**
   With latest tags not resolved anywhere, a lookup under a key that reads as latest, which a request can
   cause by giving it as a digest, finds no peer, and the request gets 404 without causing another.
   */
  lemma LatestLookupFindsNothing(trackers: map<Address, seq<Input>>, nodes: Nodes, route: Routing, node: Address,
                                 req: Registry.Request, t: real)
    requires forall p :: p in trackers ==> ValidInputs(trackers[p])
    requires forall p, i :: p in trackers && 0 <= i < |trackers[p]| ==> TrackerRuns.Ordinary(trackers[p][i])
    requires node in nodes && DeliversLive(route, node, trackers, t)
    ensures var key := LookupKey(false, req);
            key.Some? && Distribution.HasLatestTag(key.value) ==>
              && route(node, key.value) == []
              && Handle(nodes, route, false, node, req, None) == (Registry.Answer(404, []), Tree(node, false, []))
  {
    var key := LookupKey(false, req);
    if key.Some? && Distribution.HasLatestTag(key.value) {
      NoLivePeer(trackers, route, node, key.value, t);
      NoPeers(nodes, route, false, node, req);
    }
  }

  lemma NoLivePeer(trackers: map<Address, seq<Input>>, route: Routing, node: Address, key: string, t: real)
    requires forall p :: p in trackers ==> ValidInputs(trackers[p])
    requires forall p, i :: p in trackers && 0 <= i < |trackers[p]| ==> TrackerRuns.Ordinary(trackers[p][i])
    requires DeliversLive(route, node, trackers, t) && Distribution.HasLatestTag(key)
    ensures route(node, key) == []
  {
    var peers := route(node, key);
    if peers != [] {
      assert peers[0] in peers;
      TrackerRuns.LatestNeverAdvertised(trackers[peers[0]]);
      assert false;
    }
  }

  lemma NoPeers(nodes: Nodes, route: Routing, latest: bool, node: Address, req: Registry.Request)
    requires node in nodes
    ensures LookupKey(latest, req).Some? && route(node, LookupKey(latest, req).value) == [] ==>
              Handle(nodes, route, latest, node, req, None) == (Registry.Answer(404, []), Tree(node, false, []))
  {
  }
}
