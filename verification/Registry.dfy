/**
 The mirror and serve handlers of pkg/registry/registry.go. A request without the mirrored header is
 tried against the delivered peers one at a time until one answers 200; a request with it is served from
 the local store.
 */
module Registry {
  import opened Prelude
  import opened Response
  import Distribution
  import Resolve

  datatype Verb = Get | Head

  /** dropsMarker: the client's Connection header names the mirrored header as one for this hop only. */
  datatype Request = Request(verb: Verb, path: string, ns: string, host: string, mirrored: bool, dropsMarker: bool)

  datatype Answer = Answer(status: nat, body: Bytes)

  /** What the reverse proxy meets at a peer: a transport error or a response. */
  datatype Attempt = Unreachable | Answered(answer: Answer)

  /** bytes is what is read before the end (complete) or before a read error. */
  datatype Read = Read(bytes: Bytes, complete: bool)

  /** The OCI client of one node: where Resolve, GetManifest, Size and GetBlob succeed. */
  datatype Store = Store(tags: map<string, string>, manifests: map<string, Bytes>, sizes: set<string>,
      blobs: map<string, Read>)

  datatype Lookup = Lookup(key: string, allowSelf: bool, count: nat)

  /** The label values of the mirror request counter. */
  datatype Label = Label(registry: string, hit: bool, external: bool)

  /**
   What one mirror request meets: whether Resolve succeeds, how the delivered peers answer in order before
   the channel is closed, and the loop iteration, if any, at which the select takes the cancellation.
   */
  datatype Net = Net(resolved: bool, attempts: seq<Attempt>, cancelAt: Option<nat>)

  const NOT_FOUND: nat := 404
  const INTERNAL_ERROR: nat := 500

  /** What the client has when the handler returns. */
  function Seen(v: View): Answer
  {
    Answer(Delivered(v), v.body)
  }

  predicate Good(a: Attempt)
  {
    a.Answered? && a.answer.status == OK_STATUS
  }

  /** Index of the first attempt answered with 200, or |attempts|. */
  function FirstGood(attempts: seq<Attempt>): (k: nat)
    ensures k <= |attempts| && (k < |attempts| ==> Good(attempts[k]))
    ensures forall i :: 0 <= i < k ==> !Good(attempts[i])
  {
    if attempts == [] || Good(attempts[0]) then 0 else 1 + FirstGood(attempts[1..])
  }

  predicate Cancelled(net: Net)
  {
    net.cancelAt.Some? && net.cancelAt.value <= FirstGood(net.attempts)
  }

  function MirrorAnswer(net: Net): Answer
  {
    var k := FirstGood(net.attempts);
    if Cancelled(net) || k == |net.attempts| then Answer(NOT_FOUND, []) else net.attempts[k].answer
  }

  function MirrorTried(net: Net): nat
  {
    var k := FirstGood(net.attempts);
    if Cancelled(net) then net.cancelAt.value
    else if k == |net.attempts| then k else k + 1
  }

  function ManifestAnswer(store: Store, verb: Verb, ref: Distribution.Reference): Answer
  {
    var digest := if ref.digest != "" then ref.digest
                  else if ref.name in store.tags then store.tags[ref.name] else "";
    if ref.digest == "" && ref.name !in store.tags then Answer(NOT_FOUND, [])
    else if digest !in store.manifests then Answer(NOT_FOUND, [])
    else Answer(OK_STATUS, if verb == Head then [] else store.manifests[digest])
  }

  function BlobAnswer(store: Store, verb: Verb, ref: Distribution.Reference): Answer
  {
    if ref.digest !in store.sizes then Answer(INTERNAL_ERROR, [])
    else if verb == Head then Answer(OK_STATUS, [])
    else if ref.digest !in store.blobs then Answer(INTERNAL_ERROR, [])
    else Answer(OK_STATUS, store.blobs[ref.digest].bytes)
  }

  function LocalAnswer(store: Store, verb: Verb, ref: Distribution.Reference): Answer
  {
    match ref.kind
    case Manifest => ManifestAnswer(store, verb, ref)
    case Blob => BlobAnswer(store, verb, ref)
  }

  /** The content that a reference names in a store, if it can be read there. */
  function Named(store: Store, ref: Distribution.Reference): Option<Bytes>
  {
    match ref.kind
    case Blob =>
      if ref.digest in store.sizes && ref.digest in store.blobs then Some(store.blobs[ref.digest].bytes) else None
    case Manifest =>
      if ref.digest == "" && ref.name !in store.tags then None else
      var digest := if ref.digest == "" then store.tags[ref.name] else ref.digest;
      if digest in store.manifests then Some(store.manifests[digest]) else None
  }

  /** A GET, exactly: 200 with the content named, or no body and 404 for a manifest, 500 for a blob. */
  lemma GetAnswers(store: Store, ref: Distribution.Reference)
    ensures LocalAnswer(store, Get, ref) ==
            match Named(store, ref)
            case Some(content) => Answer(200, content)
            case None => Answer(if ref.kind.Manifest? then 404 else 500, [])
  {
  }

  /**
   A HEAD never has a body, and has the GET's status, except 200 for a blob whose size is known and which
   cannot be opened.
   */
  lemma HeadAnswers(store: Store, ref: Distribution.Reference)
    ensures LocalAnswer(store, Head, ref).body == []
    ensures LocalAnswer(store, Head, ref).status == LocalAnswer(store, Get, ref).status <==>
            !(ref.kind.Blob? && ref.digest in store.sizes && ref.digest !in store.blobs)
    ensures Named(store, ref).Some? ==> LocalAnswer(store, Head, ref) == Answer(200, [])
    ensures ref.kind.Blob? && ref.digest in store.sizes ==> LocalAnswer(store, Head, ref) == Answer(200, [])
  {
  }

  /** What becomes of a request. */
  datatype Route = VersionCheck | Unparsed | Local(ref: Distribution.Reference) | Refused(ref: Distribution.Reference)
      | Mirrored(ref: Distribution.Reference)

  predicate Refuses(latest: bool, ref: Distribution.Reference)
  {
    !latest && Distribution.HasLatestTag(ref.name)
  }

  function Classify(latest: bool, req: Request): Route
  {
    if Distribution.IsVersionCheck(req.path) then VersionCheck else
    match Distribution.ParsePathComponents(req.ns, req.path)
    case Err(_) => Unparsed
    case Ok(ref) => if req.mirrored then Local(ref) else if Refuses(latest, ref) then Refused(ref) else Mirrored(ref)
  }

  /** The whole handler, by what the client sees. */
  function Respond(store: Store, latest: bool, req: Request, net: Net): Answer
  {
    match Classify(latest, req)
    case VersionCheck => Answer(OK_STATUS, [])
    case Unparsed => Answer(NOT_FOUND, [])
    case Local(ref) => LocalAnswer(store, req.verb, ref)
    case Refused(_) => Answer(NOT_FOUND, [])
    case Mirrored(_) => if !net.resolved then Answer(INTERNAL_ERROR, []) else MirrorAnswer(net)
  }

  /**
   The answer to every request: 200 to the version check, 404 to a path that does not parse and to a latest tag
   that is not to be resolved, the store's own answer to a mirrored request, and to any other 500 if the
   lookup fails and what the peers come to if it does not.
   */
  lemma Responds(store: Store, latest: bool, req: Request, net: Net)
    ensures Respond(store, latest, req, net) ==
            match Classify(latest, req)
            case VersionCheck => Answer(200, [])
            case Unparsed => Answer(404, [])
            case Local(ref) => LocalAnswer(store, req.verb, ref)
            case Refused(_) => Answer(404, [])
            case Mirrored(_) => if net.resolved then MirrorAnswer(net) else Answer(500, [])
    ensures Classify(latest, req) == Unparsed <==>
            !Distribution.IsVersionCheck(req.path) && Distribution.ParsePathComponents(req.ns, req.path).Err?
    ensures Classify(latest, req) == VersionCheck <==> Distribution.IsVersionCheck(req.path)
  {
  }

  class Registry {
    const store: Store
    const localAddr: string
    const resolveRetries: nat
    const resolveLatestTag: bool
    const throttled: bool
    var lookups: seq<Lookup>
    var mirrorRequests: multiset<Label>

    constructor (store: Store, localAddr: string, resolveRetries: nat, resolveLatestTag: bool, throttled: bool)
      ensures this.store == store && this.localAddr == localAddr && this.resolveRetries == resolveRetries
      ensures this.resolveLatestTag == resolveLatestTag && this.throttled == throttled
      ensures lookups == [] && mirrorRequests == multiset{}
    {
      this.store, this.localAddr, this.resolveRetries := store, localAddr, resolveRetries;
      this.resolveLatestTag, this.throttled := resolveLatestTag, throttled;
      lookups, mirrorRequests := [], multiset{};
    }

    method HandleMirror(rw: Writer, req: Request, ref: Distribution.Reference, net: Net) returns (attempts: nat)
      requires rw.GetView() == NEW
      modifies this, rw, rw.wire
      ensures lookups == old(lookups) +
                         if Refuses(resolveLatestTag, ref) then []
                         else [Lookup(Distribution.Key(ref), req.host != localAddr, resolveRetries)]
      ensures Seen(rw.GetView()) == if Refuses(resolveLatestTag, ref) then Answer(NOT_FOUND, [])
                                    else if !net.resolved then Answer(INTERNAL_ERROR, [])
                                    else MirrorAnswer(net)
      ensures rw.GetView().committed.Some? && Status(rw.GetView()) == Delivered(rw.GetView())
      ensures attempts == if Refuses(resolveLatestTag, ref) || !net.resolved then 0 else MirrorTried(net)
      ensures mirrorRequests == old(mirrorRequests) +
                                multiset{Label(ref.originalRegistry, Delivered(rw.GetView()) == OK_STATUS,
                                    req.host != localAddr)}
    {
      var isExternal := req.host != localAddr;
      attempts := 0;
      if !resolveLatestTag && Distribution.HasLatestTag(ref.name) {
        rw.WriteHeader(NOT_FOUND);
      } else {
        lookups := lookups + [Lookup(Distribution.Key(ref), isExternal, resolveRetries)];
        if !net.resolved {
          rw.WriteError(INTERNAL_ERROR, "error occurred when attempting to resolve mirrors");
        } else {
          attempts := TryPeers(rw, net);
        }
      }
      // The deferred counter increment.
      var status := rw.GetStatus();
      mirrorRequests := mirrorRequests + multiset{Label(ref.originalRegistry, status == OK_STATUS, isExternal)};
    }

    /** The select loop. Until it ends nothing has been written, however many attempts failed. */
    method TryPeers(rw: Writer, net: Net) returns (mirrorAttempts: nat)
      requires rw.GetView() == NEW
      modifies rw, rw.wire
      ensures Seen(rw.GetView()) == MirrorAnswer(net)
      ensures rw.GetView().committed.Some? && Status(rw.GetView()) == Delivered(rw.GetView())
      ensures mirrorAttempts == MirrorTried(net)
    {
      mirrorAttempts := 0;
      while true
        invariant mirrorAttempts <= FirstGood(net.attempts)
        invariant net.cancelAt.Some? ==> mirrorAttempts <= net.cancelAt.value
        invariant rw.GetView() == NEW
        decreases |net.attempts| - mirrorAttempts
      {
        if net.cancelAt == Some(mirrorAttempts) {
          rw.WriteError(NOT_FOUND, "mirroring has been cancelled");
          return;
        }
        if mirrorAttempts == |net.attempts| {
          rw.WriteError(NOT_FOUND, "mirror could not be found");
          return;
        }
        var attempt := net.attempts[mirrorAttempts];
        mirrorAttempts := mirrorAttempts + 1;
        var succeeded := Proxy(rw, attempt);
        if succeeded {
          return;
        }
      }
    }

    /** ReverseProxy with an error handler that writes nothing and a check that the peer answered 200. */
    method Proxy(rw: Writer, attempt: Attempt) returns (succeeded: bool)
      requires rw.GetView() == NEW
      modifies rw, rw.wire
      ensures succeeded == Good(attempt)
      ensures if succeeded then Seen(rw.GetView()) == attempt.answer && rw.GetView().committed.Some? &&
              Status(rw.GetView()) == OK_STATUS
              else rw.GetView() == NEW
    {
      succeeded := false;
      if attempt.Answered? && attempt.answer.status == OK_STATUS {
        succeeded := true;
        rw.WriteHeader(OK_STATUS);
        var body := attempt.answer.body;
        assert body[..|body|] == body;
        var _ := rw.Write(body, |body|);
      }
    }

    method HandleManifest(rw: Writer, req: Request, ref: Distribution.Reference)
      requires rw.GetView() == NEW
      modifies rw, rw.wire
      ensures Seen(rw.GetView()) == ManifestAnswer(store, req.verb, ref)
      ensures Status(rw.GetView()) == Delivered(rw.GetView())
    {
      var digest := ref.digest;
      if digest == "" {
        if ref.name !in store.tags {
          rw.WriteError(NOT_FOUND, "could not get digest for image tag");
          return;
        }
        digest := store.tags[ref.name];
      }
      if digest !in store.manifests {
        rw.WriteError(NOT_FOUND, "could not get manifest content for digest");
        return;
      }
      if req.verb == Head {
        return;
      }
      var b := store.manifests[digest];
      assert b[..|b|] == b;
      var _ := rw.Write(b, |b|);
    }

    method HandleBlob(rw: Writer, req: Request, ref: Distribution.Reference)
      requires rw.GetView() == NEW
      modifies rw, rw.wire
      ensures Seen(rw.GetView()) == BlobAnswer(store, req.verb, ref)
      ensures Status(rw.GetView()) == Delivered(rw.GetView())
    {
      if ref.digest !in store.sizes {
        rw.WriteError(INTERNAL_ERROR, "could not determine size of blob with digest");
        return;
      }
      if req.verb == Head {
        return;
      }
      if ref.digest !in store.blobs {
        rw.WriteError(INTERNAL_ERROR, "could not get reader for blob with digest");
        return;
      }
      var b := store.blobs[ref.digest].bytes;
      if throttled && b != [] {
        assert b[..|b|] == b;
        var _ := rw.Write(b, |b|);
      } else {
        var _ := rw.ReadFrom(b);
      }
    }

    method RegistryHandler(rw: Writer, req: Request, net: Net)
      requires rw.GetView() == NEW
      modifies this, rw, rw.wire
      ensures Seen(rw.GetView()) == Respond(store, resolveLatestTag, req, net)
      ensures Status(rw.GetView()) == Delivered(rw.GetView())
      ensures lookups == old(lookups) +
                         match Classify(resolveLatestTag, req)
                         case Mirrored(ref) => [Lookup(Distribution.Key(ref), req.host != localAddr, resolveRetries)]
                         case _ => []
      ensures mirrorRequests == old(mirrorRequests) +
                                var route := Classify(resolveLatestTag, req);
                                if route.Mirrored? || route.Refused?
                                then multiset{Label(route.ref.originalRegistry, Delivered(rw.GetView()) == OK_STATUS,
                                    req.host != localAddr)}
                                else multiset{}
    {
      if Distribution.IsVersionCheck(req.path) {
        rw.WriteHeader(OK_STATUS);
        return;
      }
      var parsed := Distribution.ParsePathComponents(req.ns, req.path);
      if parsed.Err? {
        rw.WriteError(NOT_FOUND, "could not parse path according to OCI distribution spec");
        return;
      }
      var ref := parsed.value;
      if !req.mirrored {
        var _ := HandleMirror(rw, req, ref, net);
        return;
      }
      match ref.kind
      case Manifest => HandleManifest(rw, req, ref);
      case Blob => HandleBlob(rw, req, ref);
    }
  }

  /* ---------- The retry loop as first success ---------- */

  /** The attempt was answered with 200. */
  predicate Answered200(a: Attempt)
  {
    a.Answered? && a.answer.status == 200
  }

  /** No peer before the k-th attempt answered 200. */
  ghost predicate NoneBefore(attempts: seq<Attempt>, k: nat)
  {
    forall i :: 0 <= i < k && i < |attempts| ==> !Answered200(attempts[i])
  }

  /**
   What the loop comes to, exactly: it tried some number of peers, none of which answered 200 but perhaps
   the last; and either the last did and the client has its answer, the cancellation not having been taken
   by then, or the client has 404, the cancellation having been taken next or no peer being left.
   */
  lemma FirstSuccess(net: Net)
    ensures var k := MirrorTried(net);
            && k <= |net.attempts|
            && if k > 0 && Answered200(net.attempts[k - 1])
               then NoneBefore(net.attempts, k - 1) && MirrorAnswer(net) == net.attempts[k - 1].answer &&
                    (net.cancelAt.Some? ==> net.cancelAt.value >= k)
               else NoneBefore(net.attempts, k) && MirrorAnswer(net) == Answer(404, []) &&
                    (net.cancelAt == Some(k) ||
                     (k == |net.attempts| && (net.cancelAt.Some? ==> net.cancelAt.value > k)))
  {
  }

  /** With the peers of a lookup that honours resolveRetries > 0, no request makes more attempts than that. */
  lemma AttemptsBounded(call: Resolve.Call, steps: seq<Resolve.Step>, s: Resolve.State, net: Net)
    requires Resolve.Run(call, steps, s)
    requires call.count > 0 && |s.seen| <= call.count
    requires |net.attempts| == |s.delivered|
    ensures MirrorTried(net) <= call.count
  {
    Resolve.NothingDropped(call, steps, s);
  }
}

/** The handlers of many nodes together: who is asked, how deep, and what comes back. */
module Cluster {
  import opened Prelude
  import opened Response
  import opened Registry
  import Distribution
  import Strings

  type Address = string

  /** Nodes by address; addresses without a node do not answer. */
  type Nodes = map<Address, Store>

  /** Peers delivered for a key at a node: anything at all, so any stale advertisement. */
  type Routing = (Address, string) -> seq<Address>

  /** The requests one request causes. */
  datatype Tree = Tree(node: Address, mirrored: bool, children: seq<Tree>)

  /**
   What the reverse proxy sends on: the request with the mirrored header set, less the headers that the
   client's Connection header names and less that header itself.
   */
  function Forwarded(req: Request): Request
  {
    req.(mirrored := !req.dropsMarker, dropsMarker := false)
  }

  /** How many more times a request can be forwarded. */
  function Hops(req: Request): nat
  {
    if req.mirrored then 0 else if req.dropsMarker then 2 else 1
  }

  /** Whether the request goes to the router, and under which key. */
  function LookupKey(latest: bool, req: Request): Option<string>
  {
    match Classify(latest, req)
    case Mirrored(ref) => Some(Distribution.Key(ref))
    case _ => None
  }

  /** A request handled at a node, with the answer and the tree of requests it caused. */
  function Handle(nodes: Nodes, route: Routing, latest: bool, node: Address, req: Request,
                  cancelAt: Option<nat>): (Answer, Tree)
    requires node in nodes
    decreases Hops(req), 0
  {
    match LookupKey(latest, req)
    case None => (Respond(nodes[node], latest, req, Net(true, [], cancelAt)), Tree(node, req.mirrored, []))
    case Some(key) =>
      var asked := AskAll(nodes, route, latest, route(node, key), req);
      var net := Net(true, asked.0, cancelAt);
      (Respond(nodes[node], latest, req, net), Tree(node, req.mirrored, asked.1[..MirrorTried(net)]))
  }

  /** The forwarded request at each peer in turn. */
  function AskAll(nodes: Nodes, route: Routing, latest: bool, peers: seq<Address>,
                  req: Request): (r: (seq<Attempt>, seq<Tree>))
    requires !req.mirrored
    ensures |r.0| == |r.1| == |peers|
    decreases Hops(req), 0, |peers|
  {
    if peers == [] then ([], []) else
    var rest := AskAll(nodes, route, latest, peers[..|peers| - 1], req);
    var (attempt, tree) := Ask(nodes, route, latest, peers[|peers| - 1], req);
    (rest.0 + [attempt], rest.1 + [tree])
  }

  function Ask(nodes: Nodes, route: Routing, latest: bool, p: Address, req: Request): (Attempt, Tree)
    requires !req.mirrored
    decreases Hops(req), 0, 0
  {
    if p !in nodes then (Unreachable, Tree(p, Forwarded(req).mirrored, [])) else
    var (answer, tree) := Handle(nodes, route, latest, p, Forwarded(req), None);
    (Answered(answer), tree)
  }

  lemma {:induction false} AskedPeers(nodes: Nodes, route: Routing, latest: bool, peers: seq<Address>, req: Request)
    requires !req.mirrored
    ensures var (attempts, trees) := AskAll(nodes, route, latest, peers, req);
            forall i :: 0 <= i < |peers| ==> (attempts[i], trees[i]) == Ask(nodes, route, latest, peers[i], req)
  {
    if peers != [] {
      AskedPeers(nodes, route, latest, peers[..|peers| - 1], req);
    }
  }

  function Depth(t: Tree): nat
  {
    if t.children == [] then 0 else 1 + MaxDepth(t.children)
  }

  function MaxDepth(ts: seq<Tree>): nat
  {
    if ts == [] then 0 else
    var rest := MaxDepth(ts[..|ts| - 1]);
    var last := Depth(ts[|ts| - 1]);
    if rest >= last then rest else last
  }

  lemma {:induction false} DepthOfAll(ts: seq<Tree>, d: nat)
    requires forall i :: 0 <= i < |ts| ==> Depth(ts[i]) <= d
    ensures MaxDepth(ts) <= d
  {
    if ts != [] {
      DepthOfAll(ts[..|ts| - 1], d);
    }
  }

  /**
   For every cluster and every routing, however stale: a request causes requests to delivered peers only, in
   order; each carries the marker unless the client had it dropped, and one that carries it causes none. So
   the tree is finite, one deep, or two where the marker was dropped.
   */
  lemma {:induction false} ForwardingDepth(nodes: Nodes, route: Routing, latest: bool, node: Address, req: Request,
                                           cancelAt: Option<nat>)
    requires node in nodes
    ensures var tree := Handle(nodes, route, latest, node, req, cancelAt).1;
            && tree.node == node && tree.mirrored == req.mirrored
            && Depth(tree) <= Hops(req)
            && (tree.children != [] ==> LookupKey(latest, req).Some?)
            && (LookupKey(latest, req).Some? ==>
                  var peers := route(node, LookupKey(latest, req).value);
                  && |tree.children| <= |peers|
                  && forall i :: 0 <= i < |tree.children| ==>
                       && tree.children[i].node == peers[i]
                       && tree.children[i].mirrored == !req.dropsMarker
                       && (!req.dropsMarker ==> tree.children[i].children == []))
    decreases Hops(req)
  {
    if LookupKey(latest, req).Some? {
      var peers := route(node, LookupKey(latest, req).value);
      AskedPeers(nodes, route, latest, peers, req);
      var (attempts, trees) := AskAll(nodes, route, latest, peers, req);
      var children := trees[..MirrorTried(Net(true, attempts, cancelAt))];
      assert Handle(nodes, route, latest, node, req, cancelAt).1 == Tree(node, req.mirrored, children);
      forall i | 0 <= i < |children|
        ensures Depth(children[i]) <= Hops(req) - 1 && children[i].node == peers[i] &&
                children[i].mirrored == !req.dropsMarker
        ensures !req.dropsMarker ==> children[i].children == []
      {
        assert (attempts[i], children[i]) == Ask(nodes, route, latest, peers[i], req);
        if peers[i] in nodes {
          ForwardingDepth(nodes, route, latest, peers[i], Forwarded(req), None);
        }
      }
      DepthOfAll(children, Hops(req) - 1);
    }
  }

  /** A cluster of one node that is its own only peer. */
  function OneNode(): Nodes
  {
    map["a" := Store(map[], map[], {}, map[])]
  }

  function ToItself(): Routing
  {
    (_, _) => ["a"]
  }

  /** There, with the marker dropped, the node forwards to itself twice. */
  lemma DroppedMarker(latest: bool, req: Request)
    ensures LookupKey(latest, req).Some? && req.dropsMarker ==>
              Depth(Handle(OneNode(), ToItself(), latest, "a", req, None).1) == 2
  {
    var nodes, route := OneNode(), ToItself();
    if LookupKey(latest, req).Some? && req.dropsMarker {
      assert LookupKey(latest, Forwarded(req)) == LookupKey(latest, req);
      SelfAsked(nodes, route, latest, Forwarded(req));
      SelfAsked(nodes, route, latest, req);
      var once := Handle(nodes, route, latest, "a", Forwarded(req), None).1;
      assert Depth(once) == 1 + MaxDepth(once.children) && MaxDepth([Tree("a", true, [])]) == 0;
      assert MaxDepth([once]) == Depth(once);
    }
  }

  lemma SelfAsked(nodes: Nodes, route: Routing, latest: bool, req: Request)
    requires "a" in nodes && LookupKey(latest, req).Some?
    requires route("a", LookupKey(latest, req).value) == ["a"]
    ensures Handle(nodes, route, latest, "a", req, None).1 ==
            Tree("a", false, [Handle(nodes, route, latest, "a", Forwarded(req), None).1])
  {
    var (attempts, trees) := AskAll(nodes, route, latest, ["a"], req);
    AskedPeers(nodes, route, latest, ["a"], req);
    assert trees == [Handle(nodes, route, latest, "a", Forwarded(req), None).1];
    assert MirrorTried(Net(true, attempts, None)) == 1;
    assert trees[..1] == trees;
  }

  /**
   Exactly when forwarding stops after one hop in every cluster: unless the request goes to the router and
   the client has the marker dropped.
   */
  lemma DepthOneIsExact(latest: bool, req: Request)
    ensures (forall nodes: Nodes, route: Routing, node, cancelAt :: node in nodes ==>
               Depth(Handle(nodes, route, latest, node, req, cancelAt).1) <= 1) <==>
            !(LookupKey(latest, req).Some? && req.dropsMarker)
  {
    if LookupKey(latest, req).Some? && req.dropsMarker {
      DroppedMarker(latest, req);
      assert "a" in OneNode();
    } else {
      forall nodes: Nodes, route: Routing, node, cancelAt | node in nodes
        ensures Depth(Handle(nodes, route, latest, node, req, cancelAt).1) <= 1
      {
        ForwardingDepth(nodes, route, latest, node, req, cancelAt);
      }
    }
  }

  /** What a peer answers to the forwarded request. */
  function PeerAnswer(nodes: Nodes, route: Routing, p: Address, latest: bool, req: Request): Answer
    requires p in nodes
  {
    Handle(nodes, route, latest, p, Forwarded(req), None).0
  }

  predicate Serves(nodes: Nodes, route: Routing, p: Address, latest: bool, req: Request)
  {
    p in nodes && PeerAnswer(nodes, route, p, latest, req).status == OK_STATUS
  }

  /** Index of the first delivered peer that serves the request, or |peers|. */
  function FirstServing(nodes: Nodes, route: Routing, peers: seq<Address>, latest: bool, req: Request): (k: nat)
    ensures k <= |peers| && (k < |peers| ==> Serves(nodes, route, peers[k], latest, req))
    ensures forall i :: 0 <= i < k ==> !Serves(nodes, route, peers[i], latest, req)
  {
    if peers == [] || Serves(nodes, route, peers[0], latest, req) then 0
    else 1 + FirstServing(nodes, route, peers[1..], latest, req)
  }

  lemma AttemptsServe(nodes: Nodes, route: Routing, latest: bool, peers: seq<Address>, req: Request)
    requires !req.mirrored
    ensures var attempts := AskAll(nodes, route, latest, peers, req).0;
            var k := FirstServing(nodes, route, peers, latest, req);
            MirrorAnswer(Net(true, attempts, None)) ==
            if k == |peers| then Answer(NOT_FOUND, []) else PeerAnswer(nodes, route, peers[k], latest, req)
  {
    AskedPeers(nodes, route, latest, peers, req);
    var attempts := AskAll(nodes, route, latest, peers, req).0;
    forall i | 0 <= i < |peers|
      ensures Good(attempts[i]) <==> Serves(nodes, route, peers[i], latest, req)
      ensures Good(attempts[i]) ==> attempts[i].answer == PeerAnswer(nodes, route, peers[i], latest, req)
    {
      assert attempts[i] == Ask(nodes, route, latest, peers[i], req).0;
    }
    assert FirstGood(attempts) == FirstServing(nodes, route, peers, latest, req);
  }

  /**
   An uncancelled request that goes to the router gets the answer of the first delivered peer that serves
   it, or 404.
   */
  lemma MirrorsFirstServing(nodes: Nodes, route: Routing, latest: bool, node: Address, req: Request)
    requires node in nodes
    ensures LookupKey(latest, req).Some? ==>
              var peers := route(node, LookupKey(latest, req).value);
              var k := FirstServing(nodes, route, peers, latest, req);
              Handle(nodes, route, latest, node, req, None).0 ==
              if k == |peers| then Answer(NOT_FOUND, []) else PeerAnswer(nodes, route, peers[k], latest, req)
  {
    if LookupKey(latest, req).Some? {
      AttemptsServe(nodes, route, latest, route(node, LookupKey(latest, req).value), req);
    }
  }

  /* ---------- Blobs come back whole ---------- */

  /**
   Stores are content addressed: what any node reads for the digest is a prefix of its content, all of it if
   complete.
   */
  ghost predicate Holds(nodes: Nodes, digest: string, content: Bytes)
  {
    forall p :: p in nodes && digest in nodes[p].blobs ==>
      nodes[p].blobs[digest].bytes <= content &&
          (nodes[p].blobs[digest].complete ==> nodes[p].blobs[digest].bytes == content)
  }

  /** The peer has the size and, for a GET, opens the blob. */
  predicate CanServe(nodes: Nodes, verb: Verb, p: Address, digest: string)
  {
    p in nodes && digest in nodes[p].sizes && (verb == Get ==> digest in nodes[p].blobs)
  }

  /** Index of the first delivered peer able to serve the digest, or |peers|. */
  function FirstAble(nodes: Nodes, verb: Verb, peers: seq<Address>, digest: string): (k: nat)
    ensures k <= |peers| && (k < |peers| ==> CanServe(nodes, verb, peers[k], digest))
    ensures forall i :: 0 <= i < k ==> !CanServe(nodes, verb, peers[i], digest)
  {
    if peers == [] || CanServe(nodes, verb, peers[0], digest) then 0
    else 1 + FirstAble(nodes, verb, peers[1..], digest)
  }

  function BlobRequest(verb: Verb, name: string, digest: string, ns: string, host: string): Request
  {
    Request(verb, Distribution.Path(name, Distribution.BLOBS, digest), ns, host, false, false)
  }

  lemma BlobLookup(nodes: Nodes, route: Routing, latest: bool, verb: Verb, name: string, digest: string, ns: string,
                   host: string)
    requires Distribution.IsName(name) && Distribution.NoSlashOrNewline(digest) && digest != ""
    requires !Strings.Contains(name + "/", Distribution.MANIFESTS)
    ensures LookupKey(latest, BlobRequest(verb, name, digest, ns, host)) == Some(digest)
    ensures forall p :: p in nodes ==>
              PeerAnswer(nodes, route, p, latest, BlobRequest(verb, name, digest, ns, host)) ==
              BlobAnswer(nodes[p], verb, Distribution.Reference(Distribution.Blob, "", digest, ns))
  {
    Distribution.NotVersionCheck(name, Distribution.BLOBS, digest);
    Distribution.BlobDigestPath(ns, name, digest);
  }

  /**
   Blobs, exactly: the client gets 200 and, for a GET, what the first delivered peer able to serve the digest
   reads of it, however many others precede and whatever they answer, or 404 if none is able. So it gets 200
   with exactly the content if and only if that first able peer reads all of it. A HEAD gets 200 and no body.
   */
  lemma BlobIsServed(nodes: Nodes, route: Routing, latest: bool, node: Address, verb: Verb,
                     name: string, digest: string, ns: string, host: string, content: Bytes)
    requires node in nodes && Holds(nodes, digest, content)
    requires Distribution.IsName(name) && Distribution.NoSlashOrNewline(digest) && digest != ""
    requires !Strings.Contains(name + "/", Distribution.MANIFESTS)
    ensures var peers := route(node, digest);
            var answer := Handle(nodes, route, latest, node, BlobRequest(verb, name, digest, ns, host), None).0;
            var k := FirstAble(nodes, verb, peers, digest);
            if k == |peers| then answer == Answer(404, [])
            else if verb == Head then answer == Answer(200, [])
            else
              var read := nodes[peers[k]].blobs[digest];
              && answer == Answer(200, read.bytes) && answer.body <= content
              && (answer == Answer(200, content) <==> read.bytes == content)
              && (read.complete ==> answer == Answer(200, content))
  {
    var req, peers := BlobRequest(verb, name, digest, ns, host), route(node, digest);
    BlobLookup(nodes, route, latest, verb, name, digest, ns, host);
    MirrorsFirstServing(nodes, route, latest, node, req);
    assert forall p :: Serves(nodes, route, p, latest, req) <==> CanServe(nodes, verb, p, digest);
    assert FirstServing(nodes, route, peers, latest, req) == FirstAble(nodes, verb, peers, digest);
  }

  /** A complete peer is not enough: one before it that fails while reading has already committed 200. */
  lemma EarlierReadErrorWins(latest: bool)
    ensures var empty := Store(map[], map[], {"d"}, map["d" := Read([], false)]);
            var full := Store(map[], map[], {"d"}, map["d" := Read([1], true)]);
            var nodes: Nodes := map["a" := empty, "b" := full];
            && Holds(nodes, "d", [1]) && CanServe(nodes, Get, "b", "d")
            && Handle(nodes, (_, _) => ["a", "b"], latest, "a", BlobRequest(Get, "n", "d", "r", "h"), None).0 ==
                Answer(OK_STATUS, [])
  {
    var empty := Store(map[], map[], {"d"}, map["d" := Read([], false)]);
    var full := Store(map[], map[], {"d"}, map["d" := Read([1], true)]);
    var nodes: Nodes := map["a" := empty, "b" := full];
    assert Holds(nodes, "d", [1]);
    assert !Strings.Contains("n/", Distribution.MANIFESTS);
    BlobIsServed(nodes, (_, _) => ["a", "b"], latest, "a", Get, "n", "d", "r", "h", [1]);
  }

  /* ---------- Latest tags ---------- */

  function ManifestPathRequest(verb: Verb, name: string, reference: string, ns: string, host: string,
                               drops: bool): Request
  {
    Request(verb, Distribution.Path(name, Distribution.MANIFESTS, reference), ns, host, false, drops)
  }

  /**
   With latest tags not resolved, a tag request is kept from the router exactly when the tag is "latest"
   and the registry is named without a port.
   */
  lemma LatestPolicy(registry: string, name: string, tag: string, verb: Verb, host: string, drops: bool)
    requires registry != "" && Distribution.IsName(name) && Distribution.IsTag(tag)
    ensures LookupKey(false, ManifestPathRequest(verb, name, tag, registry, host, drops)).None? <==>
            tag == "latest" && ':' !in registry
  {
    Distribution.TagPath(registry, name, tag);
    Distribution.TagIsPlainText(tag);
    Distribution.NotVersionCheck(name, Distribution.MANIFESTS, tag);
    Distribution.LatestRecognised(registry, name, tag);
  }

  /**
   For every request that goes to the router: its key reads as latest if and only if it was taken for a
   digest that does. A digest is not tested, since only the name is.
   */
  lemma LatestKeyIff(req: Request)
    ensures LookupKey(false, req).Some? ==>
              var ref := Distribution.ParsePathComponents(req.ns, req.path);
              && ref.Ok?
              && (Distribution.HasLatestTag(LookupKey(false, req).value) <==>
                  ref.value.digest != "" && Distribution.HasLatestTag(ref.value.digest))
  {
  }

  /** A reference that reads as latest, taken apart. */
  lemma LatestParts(reference: string) returns (start: string)
    requires Distribution.HasLatestTag(reference)
    ensures reference == start + [':'] + "latest"
  {
    start := reference[..Strings.Find(reference, {':'})];
    Strings.CutParts(reference, ':');
  }

  lemma LatestIsNoTag(reference: string)
    requires Distribution.HasLatestTag(reference)
    ensures !Distribution.IsTag(reference) && reference != ""
  {
    var start := LatestParts(reference);
    assert reference[|start|] == ':';
  }

  /** A path whose reference reads as latest is not the version check. */
  lemma LatestIsNoVersionCheck(name: string, reference: string)
    requires Distribution.HasLatestTag(reference)
    ensures !Distribution.IsVersionCheck(Distribution.Path(name, Distribution.MANIFESTS, reference))
  {
    var start := LatestParts(reference);
    var before := Distribution.V2 + name + Distribution.MANIFESTS + start;
    var end := [':'] + "latest";
    assert Distribution.Path(name, Distribution.MANIFESTS, reference) == before + end;
    assert before[0] == '/' && end[0] == ':';
    Distribution.ColonAtEndIsNoVersionCheck(before, end);
  }

  /**
   On the reference itself, for manifest paths: a request reaches the router under a key that reads as latest
   if and only if the reference reads so, as no tag does.
   */
  lemma LatestReferencePolicy(name: string, reference: string, ns: string, verb: Verb, host: string, drops: bool)
    requires Distribution.IsName(name) && Distribution.LastSeparator(reference)
    ensures var key := LookupKey(false, ManifestPathRequest(verb, name, reference, ns, host, drops));
            && (key.Some? && Distribution.HasLatestTag(key.value) <==> Distribution.HasLatestTag(reference))
            && (Distribution.HasLatestTag(reference) ==> key == Some(reference))
  {
    var req := ManifestPathRequest(verb, name, reference, ns, host, drops);
    LatestKeyIff(req);
    Distribution.ManifestDigestPath(ns, name, reference);
    if Distribution.HasLatestTag(reference) {
      LatestIsNoVersionCheck(name, reference);
      LatestIsNoTag(reference);
    } else if Distribution.IsTag(reference) {
      Distribution.TagPath(ns, name, reference);
    }
  }

  /** Concretely: the key of a latest tag, given as a digest, is looked up although latest tags are refused. */
  lemma LatestDigestReachesRouter(ns: string, reference: string)
    requires reference == "r" + "/" + "a" + ":" + "latest"
    ensures Distribution.HasLatestTag(reference)
    ensures LookupKey(false, ManifestPathRequest(Get, "a", reference, ns, "h", false)) == Some(reference)
  {
    Distribution.LatestRecognised("r", "a", "latest");
    var s := "/" + reference;
    assert s[1] == 'r' && s[2] == '/';
    forall i: nat | Strings.OccursAt(s, Distribution.MANIFESTS, i)
      ensures false
    {
      Distribution.OccursChar(s, Distribution.MANIFESTS, i, 1);
    }
    LatestReferencePolicy("a", reference, ns, Get, "h", false);
  }
}
