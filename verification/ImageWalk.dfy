/**
 AllIdentifiers (pkg/oci/containerd.go): the depth-first walk over an image's index and manifest
 documents that collects the digests to advertise. Descriptors form an acyclic graph, as content
 addressing guarantees; rank witnesses it.
 */
module ImageWalk {
  import opened Prelude

  datatype MediaType = IndexType | ManifestType | OtherType(text: string)

  datatype Descriptor = Descriptor(mediaType: MediaType, digest: string)

  datatype Manifest = Manifest(config: string, layers: seq<string>)

  /** A readable blob: what decoding it as an index and as a manifest gives. */
  datatype Document = Document(asIndex: Option<seq<Descriptor>>, asManifest: Option<Manifest>)

  /** Where Info succeeds, and what ReadBlob returns. */
  datatype Store = Store(local: set<string>, documents: map<string, Document>)

  datatype WalkError = UnknownImage(name: string) | Unreadable(digest: string) | Malformed(digest: string)
      | NoPlatform(digest: string) | UnexpectedType(digest: string)

  ghost predicate Acyclic(store: Store, rank: string -> nat)
  {
    forall d, c :: d in store.documents && store.documents[d].asIndex.Some? && c in store.documents[d].asIndex.value ==>
      rank(c.digest) < rank(d)
  }

  ghost predicate Below(rank: string -> nat, ds: seq<Descriptor>, bound: nat)
  {
    forall i :: 0 <= i < |ds| ==> rank(ds[i].digest) < bound
  }

  /** Entries that exist locally, in order. */
  function Kept(all: seq<Descriptor>, local: set<string>): (kept: seq<Descriptor>)
    ensures forall c :: c in kept <==> c in all && c.digest in local
  {
    if all == [] then [] else
    var rest, last := Kept(all[..|all| - 1], local), all[|all| - 1];
    assert all == all[..|all| - 1] + [last];
    if last.digest in local then rest + [last] else rest
  }

  /** The children the walk goes on to. */
  function Children(store: Store, d: Descriptor): seq<Descriptor>
  {
    if d.mediaType.IndexType? && d.digest in store.documents && store.documents[d.digest].asIndex.Some?
    then Kept(store.documents[d.digest].asIndex.value, store.local) else []
  }

  /** The handler succeeds on this descriptor. */
  predicate NodeOk(store: Store, d: Descriptor)
  {
    match d.mediaType
    case IndexType => Children(store, d) != []
    case ManifestType => d.digest in store.documents && store.documents[d.digest].asManifest.Some?
    case OtherType(_) => false
  }

  /** The keys the handler contributes itself when it succeeds. */
  function OwnKeys(store: Store, d: Descriptor): seq<string>
    requires NodeOk(store, d)
  {
    if d.mediaType.IndexType? then [d.digest] else
    var m := store.documents[d.digest].asManifest.value;
    [d.digest, m.config] + m.layers
  }

  /** The recursive specification: own keys first, then the children's in order. */
  function Preorder(store: Store, rank: string -> nat, d: Descriptor): Option<seq<string>>
    requires Acyclic(store, rank)
    decreases rank(d.digest), 1, 0
  {
    if !NodeOk(store, d) then None else
    match PreorderAll(store, rank, Children(store, d), rank(d.digest))
    case None => None
    case Some(keys) => Some(OwnKeys(store, d) + keys)
  }

  function PreorderAll(store: Store, rank: string -> nat, ds: seq<Descriptor>, bound: nat): Option<seq<string>>
    requires Acyclic(store, rank) && Below(rank, ds, bound)
    decreases bound, 0, |ds| + 1
  {
    PreorderUpto(store, rank, ds, bound, |ds|)
  }

  /** The first n descriptors of ds, each with what lies below it. */
  function PreorderUpto(store: Store, rank: string -> nat, ds: seq<Descriptor>, bound: nat, n: nat): Option<seq<string>>
    requires Acyclic(store, rank) && Below(rank, ds, bound) && n <= |ds|
    decreases bound, 0, n
  {
    if n == 0 then Some([]) else
    match PreorderUpto(store, rank, ds, bound, n - 1)
    case None => None
    case Some(keys) =>
      match Preorder(store, rank, ds[n - 1])
      case None => None
      case Some(more) => Some(keys + more)
  }

  /* ---------- The code ---------- */

  class Walker {
    const store: Store
    var keys: seq<string>

    constructor (store: Store)
      ensures this.store == store && keys == []
    {
      this.store := store;
      keys := [];
    }

    /** The handler passed to the walk. */
    method Handle(d: Descriptor) returns (r: Result<seq<Descriptor>, WalkError>)
      modifies this
      ensures r.Ok? <==> NodeOk(store, d)
      ensures r.Ok? ==> r.value == Children(store, d) && keys == old(keys) + OwnKeys(store, d)
      ensures r == Err(UnexpectedType(d.digest)) <==> d.mediaType.OtherType?
      ensures r == Err(Unreadable(d.digest)) <==> !d.mediaType.OtherType? && d.digest !in store.documents
      ensures r == Err(NoPlatform(d.digest)) <==>
                && d.mediaType == IndexType && d.digest in store.documents && store.documents[d.digest].asIndex.Some?
                && Children(store, d) == []
    {
      keys := keys + [d.digest];
      match d.mediaType
      case IndexType =>
        if d.digest !in store.documents {
          return Err(Unreadable(d.digest));
        }
        var index := store.documents[d.digest].asIndex;
        if index.None? {
          return Err(Malformed(d.digest));
        }
        var all, descs := index.value, [];
        for i := 0 to |all|
          invariant descs == Kept(all[..i], store.local)
        {
          assert all[..i + 1][..i] == all[..i];
          if all[i].digest !in store.local {
            continue;
          }
          descs := descs + [all[i]];
        }
        assert all[..|all|] == all;
        if descs == [] {
          return Err(NoPlatform(d.digest));
        }
        return Ok(descs);
      case ManifestType =>
        if d.digest !in store.documents {
          return Err(Unreadable(d.digest));
        }
        var manifest := store.documents[d.digest].asManifest;
        if manifest.None? {
          return Err(Malformed(d.digest));
        }
        keys := keys + [manifest.value.config];
        var layers := manifest.value.layers;
        for i := 0 to |layers|
          invariant keys == old(keys) + [d.digest] + [manifest.value.config] + layers[..i]
        {
          keys := keys + [layers[i]];
        }
        assert keys == old(keys) + ([d.digest, manifest.value.config] + layers);
        return Ok([]);
      case OtherType(_) =>
        return Err(UnexpectedType(d.digest));
    }

    /** images.Walk: each descriptor, then its children, stopping at the first error. */
    method Walk(ds: seq<Descriptor>, ghost rank: string -> nat, ghost bound: nat) returns (failure: Option<WalkError>)
      requires Acyclic(store, rank)
      requires Below(rank, ds, bound)
      modifies this
      ensures failure.None? <==> PreorderAll(store, rank, ds, bound).Some?
      ensures failure.None? ==> keys == old(keys) + PreorderAll(store, rank, ds, bound).value
      decreases bound, 0
    {
      ghost var got := [];
      for i := 0 to |ds|
        invariant PreorderUpto(store, rank, ds, bound, i) == Some(got)
        invariant keys == old(keys) + got
      {
        failure := WalkOne(ds[i], rank);
        UptoStep(store, rank, ds, bound, i, got);
        if failure.Some? {
          return;
        }
        got := Joined(old(keys), got, Preorder(store, rank, ds[i]).value);
      }
      failure := None;
    }

    /** One round of the walk's loop. */
    method WalkOne(d: Descriptor, ghost rank: string -> nat) returns (failure: Option<WalkError>)
      requires Acyclic(store, rank)
      modifies this
      ensures failure.None? <==> Preorder(store, rank, d).Some?
      ensures failure.None? ==> keys == old(keys) + Preorder(store, rank, d).value
      decreases rank(d.digest), 1
    {
      var children := Handle(d);
      if children.Err? {
        return Some(children.error);
      }
      ChildrenBelow(store, rank, d);
      failure := Walk(children.value, rank, rank(d.digest));
      if failure.None? {
        ghost var own, below := OwnKeys(store, d), PreorderAll(store, rank, Children(store, d), rank(d.digest)).value;
        assert old(keys) + own + below == old(keys) + (own + below);
      }
    }
  }

  lemma ChildrenBelow(store: Store, rank: string -> nat, d: Descriptor)
    requires Acyclic(store, rank)
    ensures Below(rank, Children(store, d), rank(d.digest))
  {
  }

  /** The whole operation: the image's target descriptor by its name, and the walk from there. */
  method AllIdentifiers(store: Store, images: map<string, Descriptor>, name: string, ghost rank: string -> nat)
    returns (r: Result<seq<string>, WalkError>)
    requires Acyclic(store, rank)
    ensures r.Ok? <==> name in images && Preorder(store, rank, images[name]).Some?
    ensures r.Ok? ==> Some(r.value) == Preorder(store, rank, images[name]) && r.value != []
  {
    if name !in images {
      return Err(UnknownImage(name));
    }
    var target := images[name];
    var walker := new Walker(store);
    var failure := walker.Walk([target], rank, rank(target.digest) + 1);
    PreorderSingle(store, rank, target, rank(target.digest) + 1);
    if failure.Some? {
      return Err(failure.value);
    }
    r := Ok(walker.keys);
  }

  lemma PreorderSingle(store: Store, rank: string -> nat, d: Descriptor, bound: nat)
    requires Acyclic(store, rank) && rank(d.digest) < bound
    ensures PreorderAll(store, rank, [d], bound) == Preorder(store, rank, d)
  {
    assert PreorderUpto(store, rank, [d], bound, 0) == Some([]);
    if Preorder(store, rank, d).Some? {
      assert [] + Preorder(store, rank, d).value == Preorder(store, rank, d).value;
    }
  }

  ghost function Joined(a: seq<string>, b: seq<string>, c: seq<string>): (bc: seq<string>)
    ensures bc == b + c && a + bc == a + b + c
  {
    assert a + (b + c) == a + b + c;
    b + c
  }

  /** One more descriptor: the walk so far goes on by what lies below it, or has failed for good. */
  lemma UptoStep(store: Store, rank: string -> nat, ds: seq<Descriptor>, bound: nat, i: nat, got: seq<string>)
    requires Acyclic(store, rank) && Below(rank, ds, bound) && i < |ds|
    requires PreorderUpto(store, rank, ds, bound, i) == Some(got)
    ensures match Preorder(store, rank, ds[i])
            case None => PreorderAll(store, rank, ds, bound).None?
            case Some(more) => PreorderUpto(store, rank, ds, bound, i + 1) == Some(got + more)
  {
    if Preorder(store, rank, ds[i]).None? {
      NoneStays(store, rank, ds, bound, i + 1);
    }
  }

  lemma {:induction false} NoneStays(store: Store, rank: string -> nat, ds: seq<Descriptor>, bound: nat, i: nat)
    requires Acyclic(store, rank) && Below(rank, ds, bound) && i <= |ds|
    requires PreorderUpto(store, rank, ds, bound, i).None?
    ensures PreorderAll(store, rank, ds, bound).None?
    decreases |ds| - i
  {
    if i < |ds| {
      NoneStays(store, rank, ds, bound, i + 1);
    }
  }

  /* ---------- Reached nodes ---------- */

  /** d is an index that can be read and lists c, which is local. */
  predicate Child(store: Store, d: Descriptor, c: Descriptor)
  {
    && d.mediaType == IndexType && d.digest in store.documents && store.documents[d.digest].asIndex.Some?
    && c in store.documents[d.digest].asIndex.value && c.digest in store.local
  }

  /** Consecutive descriptors are parent and child. */
  ghost predicate IsPath(store: Store, path: seq<Descriptor>)
  {
    path != [] && forall i :: 0 <= i < |path| - 1 ==> Child(store, path[i], path[i + 1])
  }

  lemma ChildrenAre(store: Store, d: Descriptor, c: Descriptor)
    ensures c in Children(store, d) <==> Child(store, d, c)
  {
  }

  ghost predicate Reaches(store: Store, path: seq<Descriptor>, d: Descriptor, e: Descriptor)
  {
    IsPath(store, path) && path[0] == d && path[|path| - 1] == e
  }

  ghost predicate Reached(store: Store, d: Descriptor, e: Descriptor)
  {
    exists path :: Reaches(store, path, d, e)
  }

  lemma ReachedSelf(store: Store, d: Descriptor)
    ensures Reached(store, d, d)
  {
    assert Reaches(store, [d], d, d);
  }

  lemma ReachedThroughChild(store: Store, d: Descriptor, c: Descriptor, e: Descriptor)
    requires c in Children(store, d) && Reached(store, c, e)
    ensures Reached(store, d, e)
  {
    var path :| Reaches(store, path, c, e);
    ChildrenAre(store, d, c);
    assert Reaches(store, [d] + path, d, e);
  }

  lemma ReachedStep(store: Store, d: Descriptor, e: Descriptor)
    requires Reached(store, d, e)
    ensures d == e || exists c :: c in Children(store, d) && Reached(store, c, e)
  {
    var path :| Reaches(store, path, d, e);
    if |path| > 1 {
      assert Reaches(store, path[1..], path[1], e);
      assert Child(store, path[0], path[0 + 1]);
      ChildrenAre(store, path[0], path[1]);
      assert path[1] in Children(store, d) && Reached(store, path[1], e);
    }
  }

  lemma {:induction false} UptoIsEach(store: Store, rank: string -> nat, ds: seq<Descriptor>, bound: nat, n: nat)
    requires Acyclic(store, rank) && Below(rank, ds, bound) && n <= |ds|
    ensures PreorderUpto(store, rank, ds, bound, n).Some? <==> forall i :: 0 <= i < n ==>
            Preorder(store, rank, ds[i]).Some?
  {
    if n > 0 {
      UptoIsEach(store, rank, ds, bound, n - 1);
    }
  }

  lemma {:induction false} KeysOfUpto(store: Store, rank: string -> nat, ds: seq<Descriptor>, bound: nat, n: nat,
                                      k: string)
    requires Acyclic(store, rank) && Below(rank, ds, bound) && n <= |ds|
    requires PreorderUpto(store, rank, ds, bound, n).Some?
    ensures forall i :: 0 <= i < n ==> Preorder(store, rank, ds[i]).Some?
    ensures k in PreorderUpto(store, rank, ds, bound, n).value <==>
            exists i :: 0 <= i < n && k in Preorder(store, rank, ds[i]).value
  {
    UptoIsEach(store, rank, ds, bound, n);
    if n > 0 {
      KeysOfUpto(store, rank, ds, bound, n - 1, k);
    }
  }

  lemma {:induction false} SucceedsIffNodesOk(store: Store, rank: string -> nat, d: Descriptor)
    requires Acyclic(store, rank)
    ensures Preorder(store, rank, d).Some? <==> forall e :: Reached(store, d, e) ==> NodeOk(store, e)
    decreases rank(d.digest)
  {
    ReachedSelf(store, d);
    if NodeOk(store, d) {
      var children := Children(store, d);
      ChildrenBelow(store, rank, d);
      UptoIsEach(store, rank, children, rank(d.digest), |children|);
      forall c | c in children
        ensures Preorder(store, rank, c).Some? <==> forall e :: Reached(store, c, e) ==> NodeOk(store, e)
      {
        SucceedsIffNodesOk(store, rank, c);
      }
      forall c, e | c in children && Reached(store, c, e)
        ensures Reached(store, d, e)
      {
        ReachedThroughChild(store, d, c, e);
      }
      forall e | Reached(store, d, e)
        ensures d == e || exists c :: c in children && Reached(store, c, e)
      {
        ReachedStep(store, d, e);
      }
    }
  }

  lemma {:induction false} OwnKeysOfReached(store: Store, rank: string -> nat, d: Descriptor, k: string)
    requires Acyclic(store, rank) && Preorder(store, rank, d).Some?
    ensures forall e :: Reached(store, d, e) ==> NodeOk(store, e)
    ensures k in Preorder(store, rank, d).value <==> exists e :: Reached(store, d, e) && k in OwnKeys(store, e)
    decreases rank(d.digest)
  {
    SucceedsIffNodesOk(store, rank, d);
    ReachedSelf(store, d);
    var children := Children(store, d);
    ChildrenBelow(store, rank, d);
    KeysOfUpto(store, rank, children, rank(d.digest), |children|, k);
    if k in Preorder(store, rank, d).value && k !in OwnKeys(store, d) {
      var i :| 0 <= i < |children| && k in Preorder(store, rank, children[i]).value;
      var c := children[i];
      OwnKeysOfReached(store, rank, c, k);
      var e :| Reached(store, c, e) && k in OwnKeys(store, e);
      ReachedThroughChild(store, d, c, e);
    }
    if e :| Reached(store, d, e) && k in OwnKeys(store, e) {
      ReachedStep(store, d, e);
      if e != d {
        var c :| c in children && Reached(store, c, e);
        var i :| 0 <= i < |children| && children[i] == c;
        OwnKeysOfReached(store, rank, c, k);
      }
    }
  }

  /** An index that can be read and has a local child, or a manifest that can be read. */
  ghost predicate Walkable(store: Store, e: Descriptor)
  {
    || (exists c :: Child(store, e, c))
    || (e.mediaType == ManifestType && e.digest in store.documents && store.documents[e.digest].asManifest.Some?)
  }

  lemma NodeOkIffWalkable(store: Store, e: Descriptor)
    ensures NodeOk(store, e) <==> Walkable(store, e)
  {
    if e.mediaType.IndexType? && Children(store, e) != [] {
      ChildrenAre(store, e, Children(store, e)[0]);
    }
    forall c | Child(store, e, c)
      ensures NodeOk(store, e)
    {
      ChildrenAre(store, e, c);
    }
  }

  /**
   The walk succeeds exactly when every reached descriptor is an index with a local child or a manifest, and
   readable.
   */
  lemma SucceedsIffReachedOk(store: Store, rank: string -> nat, d: Descriptor)
    requires Acyclic(store, rank)
    ensures Preorder(store, rank, d).Some? <==> forall e :: Reached(store, d, e) ==> Walkable(store, e)
  {
    SucceedsIffNodesOk(store, rank, d);
    forall e
      ensures NodeOk(store, e) <==> Walkable(store, e)
    {
      NodeOkIffWalkable(store, e);
    }
  }

  /** k is the descriptor's digest or, for a manifest, that of its config or of one of its layers. */
  predicate IsKeyOf(store: Store, e: Descriptor, k: string)
  {
    || k == e.digest
    || (e.mediaType == ManifestType && e.digest in store.documents && store.documents[e.digest].asManifest.Some? &&
        var m := store.documents[e.digest].asManifest.value;
        k == m.config || k in m.layers)
  }

  lemma OwnKeysAre(store: Store, e: Descriptor, k: string)
    requires NodeOk(store, e)
    ensures k in OwnKeys(store, e) <==> IsKeyOf(store, e, k)
  {
  }

  /** The keys are the digests of the reached descriptors and the config and layers of the reached manifests. */
  lemma KeysOfReached(store: Store, rank: string -> nat, d: Descriptor, k: string)
    requires Acyclic(store, rank) && Preorder(store, rank, d).Some?
    ensures k in Preorder(store, rank, d).value <==> exists e :: Reached(store, d, e) && IsKeyOf(store, e, k)
  {
    OwnKeysOfReached(store, rank, d, k);
    forall e | Reached(store, d, e)
      ensures k in OwnKeys(store, e) <==> IsKeyOf(store, e, k)
    {
      OwnKeysAre(store, e, k);
    }
  }

  /* ---------- In which order ---------- */

  /** A manifest gives its own digest, its config and its layers, in that order. */
  lemma KeysOfManifest(store: Store, rank: string -> nat, d: Descriptor)
    requires Acyclic(store, rank) && Preorder(store, rank, d).Some? && d.mediaType == ManifestType
    ensures d.digest in store.documents && store.documents[d.digest].asManifest.Some?
    ensures var m := store.documents[d.digest].asManifest.value;
            Preorder(store, rank, d) == Some([d.digest] + [m.config] + m.layers)
  {
    PreorderOfLeaf(store, rank, d);
    var m := store.documents[d.digest].asManifest.value;
    assert [d.digest, m.config] + m.layers == [d.digest] + [m.config] + m.layers;
  }

  function Flatten(parts: seq<seq<string>>): seq<string>
  {
    if parts == [] then [] else Flatten(parts[..|parts| - 1]) + parts[|parts| - 1]
  }

  /** The first descriptors' keys, one part for each. */
  ghost predicate PartsOf(store: Store, rank: string -> nat, ds: seq<Descriptor>, parts: seq<seq<string>>)
    requires Acyclic(store, rank)
  {
    |parts| <= |ds| && forall i :: 0 <= i < |parts| ==> Preorder(store, rank, ds[i]) == Some(parts[i])
  }

  lemma OneMorePart(store: Store, rank: string -> nat, ds: seq<Descriptor>, parts: seq<seq<string>>, more: seq<string>)
    requires Acyclic(store, rank) && PartsOf(store, rank, ds, parts) && |parts| < |ds|
    requires Preorder(store, rank, ds[|parts|]) == Some(more)
    ensures PartsOf(store, rank, ds, parts + [more])
  {
  }

  lemma {:induction false} UptoIsFlat(store: Store, rank: string -> nat, ds: seq<Descriptor>, bound: nat, n: nat)
    returns (parts: seq<seq<string>>)
    requires Acyclic(store, rank) && Below(rank, ds, bound) && n <= |ds|
    requires PreorderUpto(store, rank, ds, bound, n).Some?
    ensures |parts| == n && PartsOf(store, rank, ds, parts)
    ensures PreorderUpto(store, rank, ds, bound, n) == Some(Flatten(parts))
  {
    if n == 0 {
      parts := [];
    } else {
      var keys, more := UptoSplit(store, rank, ds, bound, n);
      var before := UptoIsFlat(store, rank, ds, bound, n - 1);
      parts := before + [more];
      OneMorePart(store, rank, ds, before, more);
      FlattenSnoc(before, more);
    }
  }

  lemma UptoSplit(store: Store, rank: string -> nat, ds: seq<Descriptor>, bound: nat, n: nat)
    returns (keys: seq<string>, more: seq<string>)
    requires Acyclic(store, rank) && Below(rank, ds, bound) && 0 < n <= |ds|
    requires PreorderUpto(store, rank, ds, bound, n).Some?
    ensures PreorderUpto(store, rank, ds, bound, n - 1) == Some(keys) && Preorder(store, rank, ds[n - 1]) == Some(more)
    ensures PreorderUpto(store, rank, ds, bound, n) == Some(keys + more)
  {
    keys, more := PreorderUpto(store, rank, ds, bound, n - 1).value, Preorder(store, rank, ds[n - 1]).value;
  }

  lemma FlattenSnoc(parts: seq<seq<string>>, more: seq<string>)
    ensures Flatten(parts + [more]) == Flatten(parts) + more
  {
    assert (parts + [more])[..|parts|] == parts;
  }

  /** An index gives its own digest and then, in the order it lists them, the keys of each of its local entries. */
  lemma KeysOfIndex(store: Store, rank: string -> nat, d: Descriptor)
      returns (ds: seq<Descriptor>, parts: seq<seq<string>>)
    requires Acyclic(store, rank) && Preorder(store, rank, d).Some? && d.mediaType == IndexType
    ensures d.digest in store.documents && store.documents[d.digest].asIndex.Some?
    ensures ds == Kept(store.documents[d.digest].asIndex.value, store.local) && |parts| == |ds|
    ensures PartsOf(store, rank, ds, parts) && Preorder(store, rank, d) == Some([d.digest] + Flatten(parts))
  {
    ds := Children(store, d);
    ChildrenBelow(store, rank, d);
    parts := UptoIsFlat(store, rank, ds, rank(d.digest), |ds|);
  }

  /** What is kept of a list: the local entries, in place. */
  lemma {:induction false} KeptInOrder(a: seq<Descriptor>, c: Descriptor, b: seq<Descriptor>, local: set<string>)
    ensures Kept(a + [c] + b, local) == Kept(a, local) + (if c.digest in local then [c] else []) + Kept(b, local)
    decreases |b|
  {
    var all := a + [c] + b;
    if b == [] {
      assert all[..|all| - 1] == a;
      assert Kept(a, local) + [] == Kept(a, local);
    } else {
      var n := |b| - 1;
      assert all[..|all| - 1] == a + [c] + b[..n];
      KeptInOrder(a, c, b[..n], local);
    }
  }

  /* ---------- More content, more keys ---------- */

  ghost predicate Extends(small: Store, big: Store)
  {
    && small.local <= big.local
    && forall d :: d in small.documents ==> d in big.documents && big.documents[d] == small.documents[d]
  }

  /**
   If one store extends another and both walks succeed, the smaller one's keys are a subsequence of the
   larger one's.
   */
  lemma {:induction false} WalkIsMonotone(small: Store, big: Store, rank: string -> nat, d: Descriptor)
    requires Extends(small, big) && Acyclic(small, rank) && Acyclic(big, rank)
    requires Preorder(small, rank, d).Some? && Preorder(big, rank, d).Some?
    ensures IsSubsequence(Preorder(small, rank, d).value, Preorder(big, rank, d).value)
    decreases rank(d.digest), 1, 0
  {
    var own := OwnKeys(small, d);
    SubsequenceRefl(own);
    if d.mediaType.IndexType? {
      var all := small.documents[d.digest].asIndex.value;
      KeptIsMonotone(small, big, rank, all, rank(d.digest));
      SubsequenceConcat(own, own, PreorderAll(small, rank, Children(small, d), rank(d.digest)).value,
                        PreorderAll(big, rank, Children(big, d), rank(d.digest)).value);
    } else {
      PreorderOfLeaf(small, rank, d);
      PreorderOfLeaf(big, rank, d);
    }
  }

  lemma PreorderOfLeaf(store: Store, rank: string -> nat, d: Descriptor)
    requires Acyclic(store, rank) && NodeOk(store, d) && !d.mediaType.IndexType?
    ensures Preorder(store, rank, d) == Some(OwnKeys(store, d))
  {
    assert PreorderUpto(store, rank, [], rank(d.digest), 0) == Some([]);
    assert OwnKeys(store, d) + [] == OwnKeys(store, d);
  }

  lemma {:induction false} KeptIsMonotone(small: Store, big: Store, rank: string -> nat, all: seq<Descriptor>,
                                          bound: nat)
    requires Extends(small, big) && Acyclic(small, rank) && Acyclic(big, rank)
    requires Below(rank, all, bound)
    requires Below(rank, Kept(all, small.local), bound) && Below(rank, Kept(all, big.local), bound)
    requires PreorderAll(small, rank, Kept(all, small.local), bound).Some? &&
             PreorderAll(big, rank, Kept(all, big.local), bound).Some?
    ensures IsSubsequence(PreorderAll(small, rank, Kept(all, small.local), bound).value,
                          PreorderAll(big, rank, Kept(all, big.local), bound).value)
    decreases bound, 0, |all|
  {
    if all != [] {
      var initial, last := all[..|all| - 1], all[|all| - 1];
      var s, b := Kept(initial, small.local), Kept(initial, big.local);
      KeptBelow(small, rank, all, bound, last);
      KeptBelow(big, rank, all, bound, last);
      KeptIsMonotone(small, big, rank, initial, bound);
      var before, before' := PreorderAll(small, rank, s, bound).value, PreorderAll(big, rank, b, bound).value;
      if last.digest in small.local {
        WalkIsMonotone(small, big, rank, last);
        SubsequenceConcat(before, before', Preorder(small, rank, last).value, Preorder(big, rank, last).value);
      } else if last.digest in big.local {
        SubsequenceExtendRight(before, before', Preorder(big, rank, last).value);
      }
    }
  }

  /** Dropping the last index entry drops what lies below it from the end, if it was kept at all. */
  lemma KeptBelow(store: Store, rank: string -> nat, all: seq<Descriptor>, bound: nat, last: Descriptor)
    requires Acyclic(store, rank) && Below(rank, all, bound) && all != [] && last == all[|all| - 1]
    ensures var initial := Kept(all[..|all| - 1], store.local);
            && Below(rank, initial, bound) && Below(rank, Kept(all, store.local), bound)
            && PreorderAll(store, rank, Kept(all, store.local), bound) ==
               if last.digest !in store.local then PreorderAll(store, rank, initial, bound)
               else if PreorderAll(store, rank, initial, bound).None? || Preorder(store, rank, last).None? then None
               else Some(PreorderAll(store, rank, initial, bound).value + Preorder(store, rank, last).value)
  {
    var initial := Kept(all[..|all| - 1], store.local);
    KeptIsBelow(rank, all, store.local, bound);
    KeptIsBelow(rank, all[..|all| - 1], store.local, bound);
    if last.digest in store.local {
      UptoPrefix(store, rank, initial, initial + [last], bound, |initial|);
    }
  }

  lemma KeptIsBelow(rank: string -> nat, all: seq<Descriptor>, local: set<string>, bound: nat)
    requires Below(rank, all, bound)
    ensures Below(rank, Kept(all, local), bound)
  {
    forall i | 0 <= i < |Kept(all, local)|
      ensures rank(Kept(all, local)[i].digest) < bound
    {
      var c := Kept(all, local)[i];
      assert c in Kept(all, local);
      var j :| 0 <= j < |all| && all[j] == c;
    }
  }

  lemma {:induction false} UptoPrefix(store: Store, rank: string -> nat, ds: seq<Descriptor>, es: seq<Descriptor>,
                                      bound: nat, n: nat)
    requires Acyclic(store, rank) && Below(rank, ds, bound) && Below(rank, es, bound)
    requires n <= |ds| <= |es| && es[..|ds|] == ds
    ensures PreorderUpto(store, rank, ds, bound, n) == PreorderUpto(store, rank, es, bound, n)
  {
    if n > 0 {
      UptoPrefix(store, rank, ds, es, bound, n - 1);
      assert ds[n - 1] == es[..|ds|][n - 1];
    }
  }
}
