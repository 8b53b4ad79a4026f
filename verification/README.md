# Spegel, verified

A Dafny model of the state-changing core of Spegel, the per-node OCI mirror, with proofs of what that core
promises over whole runs. `dafny verify dfyconfig.toml` checks everything.

| file | models |
|---|---|
| `MirrorConfig.dfy`, `MirrorConfigRuns.dfy`, `MirrorConfigFaults.dfy` | the containerd mirror configuration as operations on a directory, any sequence of configuration runs, and runs cut short by failing calls |
| `Registry.dfy` (modules `Registry`, `Cluster`) | the request handlers of one node, and many nodes asking each other |
| `Response.dfy` | the response writer the handlers report through |
| `Resolve.dfy` | the peer lookup goroutine and its bounded channel |
| `Tracker.dfy`, `TrackerRuns.dfy`, `Freshness.dfy` | the state tracker, its sweeps and events, its gauges, and record lifetimes |
| `Merge.dfy` | `channel.Merge` over every interleaving |
| `Image.dfy`, `Distribution.dfy`, `Grammar.dfy` | image references, request paths, the expressions they are matched with, and the keys they yield |
| `ImageWalk.dfy` | the walk that collects an image's digests |
| `Throttle.dfy` | the shared token bucket |
| `Delivery.dfy` | tracker, walk, records, routing and handlers together: a held image is served |
| `Prelude.dfy`, `Strings.dfy` | options, results, subsequences, searching in strings |

Code that updates fields, directories or slices in place is modelled by classes and methods, each proved
against a function of the old state; the results about whole runs are lemmas about those functions.
Goroutines are transition systems, and a run is any sequence of enabled steps. What the program gets from
outside (clock readings, results of containerd and router calls, answers of peers, the order in which a
`select` takes its cases) is a parameter, so every theorem ranges over all of it.

## Where a natural claim is false

For each there is the exact condition under which the claim holds and, as a lemma, an input on which it fails.

- The live configuration depends on earlier runs when the directory was empty at first and the last run
  appends: the second run backs up Spegel's own output (`MirrorConfigRuns.HistoryMattersFromEmpty`). It does
  not exactly when `Compatible` holds of the first run that wrote anything and the last
  (`MirrorConfigRuns.HistoryIndependenceFromEmpty`).
- A backup pass cut short is not resumed, and the next run deletes what had not been moved
  (`MirrorConfigRuns.InterruptedBackupExample`, `MirrorConfigRuns.InterruptedBackupLosesTheRest`,
  `MirrorConfigFaults.InitialFilesSurviveIff`).
- A blob path whose name has a component `manifests` after the first is taken for a manifest path
  (`Distribution.BlobTakenForManifest`, `Distribution.BlobDigestPath`).
- A peer that can serve a blob whole is not enough when one before it fails while reading: the status is
  committed by then (`Cluster.EarlierReadErrorWins`, `Cluster.BlobIsServed`).
- Forwarding stops after one hop unless the client's Connection header names the mirrored header, which the
  reverse proxy then removes (`Cluster.DroppedMarker`, `Cluster.DepthOneIsExact`).
- The latest tag given as a digest, as in `/v2/a/manifests/r/a:latest`, is looked up although latest tags are
  refused, because only names are tested (`Cluster.LatestDigestReachesRouter`, `Cluster.LatestKeyIff`,
  `Cluster.LatestReferencePolicy`); no peer has such a key (`Delivery.LatestLookupFindsNothing`).
- Not every advertised tag can be requested: images are parsed with a wider grammar than paths
  (`Distribution.UnreachableRepository`, `Distribution.KeysAgreeIff`).
- A run cut short while writing to an empty directory is not always made good by the next: the torn file
  becomes the backup (`MirrorConfigFaults.TornFileIsForEver`, `MirrorConfigFaults.SucceedsIff`).
- `hasLatestTag` cuts at the first colon, so it never recognises a tag of a registry with a port, and such
  requests do reach the router (`Distribution.PortHidesLatest`, `Cluster.LatestPolicy`).
- `Status()` is not what the client got when bytes were copied past the wrapper before an error status
  (`Response.StatusDisagrees`, `Response.StatusAgrees`). The handlers never do this, and each is
  proved to report the status it delivered.
- The rate bound needs the writers' clock readings to reach the limiter in order: each is taken before the
  limiter's lock, and a step back is credited twice (`Throttle.OutOfOrderExceeds`, `Throttle.RateBoundIsExact`,
  `Throttle.OrderIsExact`).
- A sweep may not take longer than the minute by which ticks precede the end of a record's lifetime, or a
  held key lapses (`Freshness.LateRecordLapses`, `Freshness.DelayBoundIsExact`).

A consequence worth knowing beside these: a delete event whose image name carries no digest does not parse, so
it never reaches the gauges (`Image.NoDigestNoImage`).

## Model

| member | source | states |
|---|---|---|
| `MirrorConfig.ValidateRegistries` | pkg/oci/containerd.go:539-556 | the errors are those of each URL in order, and there are none if and only if every URL is http or https without path, query and user |
| `MirrorConfig.ErrorsAre` | pkg/oci/containerd.go:539-556 | an error is reported if and only if some URL offends in the way it names: scheme, path, query or user |
| `MirrorConfig.ErrorsInOrder` | pkg/oci/containerd.go:539-556 | the errors of later URLs come after those of earlier ones |
| `MirrorConfig.ConfigDir.BackupConfig` | pkg/oci/containerd.go:558-588 | the rename loop moves the whole directory under `_backup` if it is non-empty and has none, and otherwise changes nothing; a call that fails leaves either nothing changed or exactly the names renamed so far there and the others in place |
| `MirrorConfig.ConfigDir.ClearConfig` | pkg/oci/containerd.go:590-606 | only `_backup`, unchanged, remains; a call that fails leaves all but the entries removed so far |
| `MirrorConfig.ConfigDir.RenderHost` | pkg/oci/containerd.go:505-520 | assigning the mirrors one by one gives the overlay of the host table, or the nil-map failure exactly when there is a mirror to assign and no table |
| `MirrorConfig.ConfigDir.AddMirrorConfiguration` | pkg/oci/containerd.go:485-537 | directory and outcome after validate, back up, clear and write are those of the run function, on every failure path too; if any file-system call fails, the directory is that of a run cut short at some point |
| `MirrorConfigRuns.LiveFiles` | pkg/oci/containerd.go:509-535 | the write loop gets through if and only if every registry renders; then each host has the rendering of the last registry listed for it |
| `MirrorConfigRuns.FailsAtFirst` | pkg/oci/containerd.go:509-535 | a failing loop reports the first registry that does not render and leaves exactly the files of those before it |
| `MirrorConfigRuns.RendersIff` | pkg/oci/containerd.go:510-520 | a registry renders if and only if it is not appended to a backup that cannot be read, does not decode, or has no host table while there are mirrors; the error says which |
| `MirrorConfigRuns.ReadBackupIsRead` | pkg/oci/containerd.go:608-620 | what is read for a host is the file at _backup, the host, hosts.toml: its content, or that it is not there, or an error |
| `MirrorConfigRuns.LastForIsLast` | pkg/oci/containerd.go:509-535 | the registry whose file survives for a host is the last one listed with it |
| `MirrorConfigRuns.LiveEntriesAreTheHosts` | pkg/oci/containerd.go:509-535 | after a successful run the live top-level entries are exactly the configured hosts, each with one `hosts.toml` |
| `MirrorConfigRuns.LiveFileMeaning` | pkg/oci/containerd.go:505-523 | what decodes from a live file gives every mirror the capabilities pull and, if and only if tags are to be resolved, resolve, and nothing else, over the backed-up server and all entries not overridden when appending to one, and otherwise over the registry's own server, registry-1.docker.io for docker.io, and nothing else |
| `MirrorConfigRuns.InvalidRunChangesNothing` | pkg/oci/containerd.go:487-490 | a run that fails validation leaves the directory as it was |
| `MirrorConfigRuns.BackupNeverChanges` | pkg/oci/containerd.go:558-606 | once there is a backup, no sequence of runs, failing or not, changes anything in it |
| `MirrorConfigRuns.InitialFilesAreKept` | pkg/oci/containerd.go:564-587 | from a non-empty directory without backup: untouched until the first valid run, and from then on the whole initial directory is under `_backup` unchanged |
| `MirrorConfigRuns.InterruptedBackupLosesTheRest` | pkg/oci/containerd.go:577-606 | after a pass cut short and any later runs, the initial files survive if and only if all had been moved; live entries are only what the last run wrote |
| `MirrorConfigRuns.InterruptedBackupExample` | pkg/oci/containerd.go:577-606 | two directories, one moved when the pass stopped: the next run leaves the other nowhere |
| `MirrorConfigRuns.HistoryIndependence` | pkg/oci/containerd.go:485-537 | from a non-empty directory, or when the last run does not append: after any runs, failing ones included, live files and outcome of the last run are those of that run alone on the initial directory |
| `MirrorConfigRuns.HistoryIndependenceFromEmpty` | pkg/oci/containerd.go:608-620 | in the remaining case the same holds if and only if no earlier run wrote or the first that did agrees with the last on the servers of shared hosts and has no mirror the last lacks |
| `MirrorConfigRuns.HistoryMattersFromEmpty` | pkg/oci/containerd.go:608-620 | two appending runs with different mirrors on a missing directory, where history shows |
| `MirrorConfigRuns.Idempotent` | pkg/oci/containerd.go:485-537 | running twice is running once, on live files and outcome, in both modes, from every directory, for valid and invalid arguments |
| `MirrorConfigFaults.BackupIsDecided` | pkg/oci/containerd.go:558-606 | from any directory, after any runs each of which may be cut short anywhere, what later runs read from is the backup there was, or what the first run to back up moved, the directory at first or, if it was empty, what the first run to leave anything behind left |
| `MirrorConfigFaults.HistoryWithFailures` | pkg/oci/containerd.go:485-537 | from any directory, live files and outcome of a last whole run after any such runs are those of that run alone on that backup |
| `MirrorConfigFaults.SucceedsIff` | pkg/oci/containerd.go:509-535 | that run succeeds if and only if each of its registries renders from that backup |
| `MirrorConfigFaults.TornFileIsForEver` | pkg/oci/containerd.go:525-535 | from a missing directory, a first run cut while writing leaves a torn file; whatever whole runs follow, every appending run for that host fails |
| `MirrorConfigFaults.OverwritingForgetsFailures` | pkg/oci/containerd.go:608-633 | without append, from every directory, no earlier run or failure shows in the live files of a later whole run |
| `MirrorConfigFaults.InitialFilesSurviveIff` | pkg/oci/containerd.go:564-587 | the whole initial directory is under `_backup` if and only if the first run to back it up was not cut in its rename loop with a name unmoved |
| `MirrorConfigFaults.HistoryIndependenceWithFailures` | pkg/oci/containerd.go:485-537 | if so, live files and outcome are those of the last run alone on the initial directory, whatever else failed |
| `Merge.StepKeepsInv` | internal/channel/channel.go:7-27 | every step of caller, forwarders, closer, consumer and senders keeps: no panic, wait group equal to unfinished forwarders, and per input sent = received + held + queued |
| `Merge.Safety` | internal/channel/channel.go:7-27 | in every reachable state nothing has panicked (send on closed, double close, negative counter) and each input's items arrive as a prefix of what was sent, in order |
| `Merge.ClosedMeansDone` | internal/channel/channel.go:11-25 | a closed output means every input is closed and drained, the consumer has exactly the multiset of items sent with per-input order kept, and no step can follow |
| `Merge.ClosedExactlyOnce` | internal/channel/channel.go:22-25 | every run closes the output once if it ends closed and never otherwise |
| `Merge.InternalStepDecreases` | internal/channel/channel.go:11-25 | every step other than a sender's decreases one measure |
| `Merge.SomeStepEnabled` | internal/channel/channel.go:11-25 | no deadlock: with the inputs closed, some step is enabled until the output is closed |
| `Merge.EveryScheduleCloses` | internal/channel/channel.go:11-25 | with the inputs closed every schedule is bounded by the measure, and one that cannot go on has closed the output |
| `Resolve.StepKeepsInv` | pkg/routing/p2p.go:170-199 | every step of lookup, goroutine and consumer keeps the buffer bound and the account of kept and dropped peers |
| `Resolve.RunGuarantees` | pkg/routing/p2p.go:156-201 | in every run: buffer within capacity, the goroutine never waits for the consumer, kept peers are an in-order subsequence of the eligible ones with the missing ones counted as dropped, and every delivered peer has the registry's port and the one address of a provider that is not this node unless self is allowed |
| `Resolve.NothingDropped` | pkg/routing/p2p.go:162-199 | a lookup within the capacity loses nothing at any consumer speed; drained after close, every usable provider was delivered at its address and the registry's port, and as many peers as there are such providers |
| `Resolve.UnreadDrops` | pkg/routing/p2p.go:164-196 | the capacity is exact: unread, precisely the peers beyond the count, or beyond 20 without one, are dropped |
| `Response.Writer.WriteHeader` | internal/mux/response.go:33-39 | the first code is recorded unless something was written, and the connection keeps its own first |
| `Response.Writer.Write` | internal/mux/response.go:41-46 | marks the header and counts exactly the bytes the connection took |
| `Response.Writer.WriteError` | internal/mux/response.go:48-51 | records the error and then acts as a header write |
| `Response.Writer.Flush` | internal/mux/response.go:53-58 | marks the header and commits 200 if nothing was committed |
| `Response.Writer.ReadFrom` | internal/mux/response.go:66-70 | copies past the wrapper: counts bytes but does not mark the header |
| `Response.StateAfter` | internal/mux/response.go:33-81 | for every sequence of calls, status and committed status are the codes of the first call that marks and the first that commits |
| `Response.BodyAndError` | internal/mux/response.go:41-70 | for every sequence of calls, the client has the bytes of all of them in order, and the error kept is the last one reported |
| `Response.StatusAgrees` | internal/mux/response.go:76-89 | for every sequence of calls, Status() is the delivered status if and only if it is not the case that a copy committed first and the first marking call has another code; Size() is always the bytes delivered |
| `Response.StatusDisagrees` | internal/mux/response.go:66-81 | copy, then error: Status() says 500 and the client got 200 |
| `Registry.Registry.HandleMirror` | pkg/registry/registry.go:209-302 | what the client gets, the one lookup made or none, the attempts made, and exactly one counter increment labelled hit if and only if the delivered status is 200 |
| `Registry.Registry.TryPeers` | pkg/registry/registry.go:250-301 | the select loop with cancellation commits exactly one answer, that of the first success or 404, failed attempts having written nothing |
| `Registry.Registry.Proxy` | pkg/registry/registry.go:270-299 | succeeds exactly on a 200 from the peer, and otherwise leaves the response untouched |
| `Registry.Registry.HandleManifest` | pkg/registry/registry.go:304-329 | answer by digest, or by the digest its tag resolves to; status reported is status delivered |
| `Registry.Registry.HandleBlob` | pkg/registry/registry.go:331-357 | answer for every combination of size and reader failures, throttled or not; status reported is status delivered |
| `Registry.GetAnswers` | pkg/registry/registry.go:304-357 | for every store and reference, a GET gets 200 with the content named, directly or through its tag, or else 404 for a manifest and 500 for a blob, without a body |
| `Registry.HeadAnswers` | pkg/registry/registry.go:321-342 | a HEAD has no body and the status of the GET, if and only if it is not for a blob whose size is known and which cannot be opened; it gets 200 wherever the content can be read |
| `Registry.Registry.RegistryHandler` | pkg/registry/registry.go:172-207 | the answer for every request, the version check included; exactly the requests that are mirrored look a key up, and exactly those and the refused ones count |
| `Registry.Responds` | pkg/registry/registry.go:172-242 | 200 to the version check, 404 to a path that does not parse and to a refused latest tag, the store's own answer to a mirrored request, and to any other 500 if the lookup fails |
| `Registry.FirstSuccess` | pkg/registry/registry.go:250-301 | for every cancellation: the peers tried are those up to the first 200, whose answer it is, the cancellation not having been taken; or none of them answered 200, the answer is 404, and the cancellation was taken next or no peer is left |
| `Registry.AttemptsBounded` | pkg/registry/registry.go:244-268 | with peers of any run of a lookup that honours the retry count, no request makes more attempts than it |
| `Cluster.ForwardingDepth` | pkg/registry/registry.go:187-194 | for all nodes, stores and routing, however stale: the tree is finite, its children are the delivered peers in order, marked mirrored and childless unless the client's Connection header drops the marker; depth at most one, or two in that case |
| `Cluster.DroppedMarker` | pkg/registry/registry.go:187-194 | a node that is its own peer forwards twice when the client's Connection header names the marker |
| `Cluster.DepthOneIsExact` | pkg/registry/registry.go:187-194 | depth at most one in every cluster if and only if the request does not go to the router or does not have the marker dropped |
| `Cluster.MirrorsFirstServing` | pkg/registry/registry.go:250-301 | an uncancelled request gets the answer of the first delivered peer whose own store serves it, or 404 |
| `Cluster.BlobIsServed` | pkg/registry/registry.go:331-357 | a GET gets 200 with what the first delivered peer able to serve the digest reads, or 404 if none is able, and exactly the content if and only if that peer reads all of it, whatever others precede; a HEAD gets 200 without a body from the first that knows the size |
| `Cluster.EarlierReadErrorWins` | pkg/registry/registry.go:331-357 | two peers, the first failing while reading and the second complete: the client gets 200 and an empty body |
| `Cluster.LatestPolicy` | pkg/registry/registry.go:234-238 | with latest tags not resolved, a request for a tag is kept from the router if and only if the tag is latest and the registry has no port |
| `Cluster.LatestKeyIff` | pkg/registry/registry.go:210-238 | for every request that goes to the router then: its key reads as latest if and only if it was taken for a digest that does |
| `Cluster.LatestReferencePolicy` | pkg/registry/registry.go:234-244 | for every manifest path whose reference has neither a newline nor another `/manifests/`, slashes allowed: it is looked up under a key that reads as latest if and only if its reference reads so, which no tag does |
| `Cluster.LatestDigestReachesRouter` | pkg/registry/distribution.go:26-32 | the key r/a:latest given as a digest is looked up although latest tags are refused |
| `Tracker.StateTracker.Advertise` | pkg/routing/p2p.go:203-216 | a record per key in order, each at its own time, up to the first failure |
| `Tracker.StateTracker.UpdateImage` | pkg/state/state.go:94-131 | gauges, records and result of one update for every event kind and every failure |
| `TrackerRuns.UpdateFailures` | pkg/state/state.go:109-118 | an update fails for its identifiers if and only if they are needed and not listed, and for its advertisement if and only if they are and not all keys go through |
| `Tracker.StateTracker.All` | pkg/state/state.go:57-92 | a sweep is the fold of its steps from reset gauges, a failed listing changes nothing, and failures are reported if and only if there was one |
| `Tracker.StateTracker.Track` | pkg/state/state.go:17-55 | a failed subscription ends it at once; otherwise the loop is the fold of what the select took, errors do not end it, and it ends exactly on cancellation or a closed channel, with the matching result |
| `TrackerRuns.EventAdvertises` | pkg/state/state.go:94-131 | in every run, a create or update event whose identifiers are listed records the tag key, if there is to be one, and then every identifier, each at its time, up to the first that fails; one whose identifiers are not listed changes nothing; a delete records nothing |
| `TrackerRuns.SweepAdvertises` | pkg/state/state.go:73-89 | under every pattern of failures: each digest in targets had all identifiers of an image of that digest advertised in this sweep, and each image counted has its digest there and its tag key advertised in this sweep |
| `TrackerRuns.SweepIsExact` | pkg/state/state.go:73-89 | an image of a listing is updated if and only if its identifiers are listed, or one of its digest was updated before it, and all its keys go through |
| `TrackerRuns.DedupeChangesNothing` | pkg/state/state.go:73-89 | with a router that takes every key and identifiers determined by digest, the sweep advertises the same keys in this sweep, updates the same images and sets the same image gauges as one without the shortcut |
| `TrackerRuns.SweepGauges` | pkg/state/state.go:65-90 | after a sweep, for each registry: tags counts the updated images that have one, digests those that have none, images both, and keys the keys advertised for them, each digest's identifiers once |
| `TrackerRuns.GaugesAreExact` | pkg/state/state.go:101-129 | in every reachable state: tags and digests count the images updated by the last successful listing or created since, with a tag and without, and images is both less the deletes since |
| `TrackerRuns.GaugeConservation` | pkg/state/state.go:101-129 | in every reachable state images minus tags minus digests is minus the delete events for the registry since the last successful listing |
| `TrackerRuns.LatestNeverAdvertised` | pkg/state/state.go:96-100 | with latest tags not resolved, no run advertises a key that the request side would recognise as latest, registries with a port included |
| `Freshness.HeldKeyIsRecorded` | pkg/state/state.go:73-89 | a sweep that updates an image having the key, as its tag key or with whichever listing of its digest goes through, leaves a record of it dated within the delay, even when its own identifiers were skipped |
| `Freshness.HeldKeysNeverLapse` | pkg/state/state.go:26-38 | a key that every sweep so holds within a minute of its tick is recorded that soon after the start and alive at every moment after, up to a lifetime after the last tick, whatever other images, their failures, changing content and events do |
| `Freshness.DelayBoundIsExact` | pkg/state/state.go:26-26 | for every delay: all runs whose sweeps hold a key within the delay of their ticks keep it alive from each advertisement on, if and only if the delay is at most one minute |
| `Freshness.LateRecordLapses` | pkg/state/state.go:26-26 | the run that shows it: re-advertised more than a minute late, the key is dead in between |
| `Freshness.GoneKeysExpire` | pkg/routing/p2p.go:29-29 | once no input offers a key, it is not alive later than a lifetime after its last advertisement, for every continuation of the run |
| `Image.RoundTrip` | pkg/oci/image.go:60-116 | parsing the printed image with no digest or its own gives it back, and is a mismatch error for every other digest |
| `Image.ParsedIsWellFormed` | pkg/oci/image.go:77-116 | every image the parser returns is in the domain of the round trip |
| `Image.ParseFailures` | pkg/oci/image.go:34-116 | which error a text gets: the scheme mark, an unreadable URL and a missing host each if and only if, a digest error only as the supplied digest allows |
| `Image.PortIff` | pkg/oci/image.go:81-84 | a host with a colon is a valid one if and only if digits or nothing follow the last colon |
| `Image.NoDigestNoImage` | pkg/oci/containerd.go:171-176 | a name without a digest never parses when none is supplied, as for delete events |
| `Distribution.LongestName` | pkg/registry/distribution.go:39-45 | the greedy name group: the largest end at which the expression matches from a position |
| `Distribution.Leftmost` | pkg/registry/distribution.go:39-45 | the leftmost match of an unanchored expression, with the longest name there, and none only if there is none at all |
| `Distribution.PathText` | pkg/registry/distribution.go:36-45 | the paths are /v2/, the name, /manifests/ or /blobs/, and the reference |
| `Grammar.NameIff` | pkg/registry/distribution.go:40-40 | the predicate on names is the name expression, transcribed, on a whole text |
| `Grammar.TagIff` | pkg/registry/distribution.go:41-41 | the predicate on tags is the tag expression, transcribed, on a whole text |
| `Distribution.TagPath` | pkg/registry/distribution.go:48-60 | a tag path gives exactly registry, name and tag, or the demand for a registry when none is given |
| `Distribution.ManifestDigestPath` | pkg/registry/distribution.go:61-69 | a manifest path recovers its digest, for every name, slashes in the digest allowed but no newline or further `/manifests/`, if and only if it does not read as a tag |
| `Distribution.DigestEndsAtNewline` | pkg/registry/distribution.go:43-43 | the digest of a manifest path ends at a newline |
| `Distribution.BlobDigestPath` | pkg/registry/distribution.go:61-78 | a blob path is recognised as that blob if and only if the name has no component manifests after its first |
| `Distribution.BlobTakenForManifest` | pkg/registry/distribution.go:61-78 | no blob path for the name a/manifests is recognised as its blob |
| `Distribution.NotVersionCheck` | pkg/registry/registry.go:173-177 | no path of a name, a kind and a reference cleans to `/v2`, so none is answered as the version check |
| `Distribution.CleaningLaws` | pkg/registry/registry.go:174-177 | path cleaning by its laws: empty and dot components go, a double dot takes the one before, any other stays |
| `Distribution.VersionChecks` | pkg/registry/registry.go:174-177 | `/v2` and `/v2/` are version checks |
| `Distribution.KeysAgree` | pkg/registry/registry.go:210-213 | for every registry host, name and tag, the key looked up for the tag path is the key advertised for the parsed image |
| `Distribution.TagPathKeyIff` | pkg/registry/distribution.go:47-60 | for any repository and tag without a colon, the path of the tag yields the key registry/repository:tag if and only if they are in the path grammar |
| `Distribution.KeysAgreeIff` | pkg/oci/image.go:68-116 | for every repository and tag that images are parsed with: the image is advertised under its key, and its tag's path is looked up under that key if and only if they are in the path grammar |
| `Distribution.UnreachableRepository` | pkg/registry/distribution.go:39-45 | the repository a__b, which images may have and no path yields |
| `Distribution.LatestRecognised` | pkg/registry/distribution.go:26-32 | the latest test holds of a tag key if and only if the tag is latest and the registry has no colon |
| `Distribution.PortHidesLatest` | pkg/registry/distribution.go:26-32 | the same latest tag recognised without a port and not with one |
| `ImageWalk.Walker.Handle` | pkg/oci/containerd.go:214-255 | the handler succeeds exactly where the node is readable, of a known type and, for an index, has a local child, and appends exactly its own keys |
| `ImageWalk.AllIdentifiers` | pkg/oci/containerd.go:204-263 | for a known image the accumulating walk refines the recursive preorder over any acyclic graph, and it fails for an unknown one and where the preorder does |
| `ImageWalk.SucceedsIffReachedOk` | pkg/oci/containerd.go:214-255 | the walk succeeds if and only if every descriptor reachable along locally held entries of readable indexes is such an index with a local entry, or a readable manifest |
| `ImageWalk.KeysOfReached` | pkg/oci/containerd.go:215-251 | the keys are exactly the digests of reached descriptors and the configs and layers of reached manifests |
| `ImageWalk.KeysOfManifest` | pkg/oci/containerd.go:238-251 | a manifest gives its digest, its config and its layers, in that order |
| `ImageWalk.KeysOfIndex` | pkg/oci/containerd.go:217-237 | an index gives its digest and then the keys of its kept entries, one after another |
| `ImageWalk.KeptInOrder` | pkg/oci/containerd.go:226-233 | the kept entries are the local ones, in the order listed |
| `ImageWalk.WalkIsMonotone` | pkg/oci/containerd.go:227-251 | with more content the keys only grow: the smaller store's are a subsequence of the larger one's |
| `Throttle.Throttler.constructor` | pkg/throttle/throttle.go:17-23 | a new throttler starts with an empty bucket |
| `Throttle.Throttler.WriteBytes` | pkg/throttle/throttle.go:37-48 | a failed write reserves nothing; otherwise one reservation of the bytes written, refused beyond the burst |
| `Throttle.Supply` | pkg/throttle/throttle.go:37-48 | over every interleaving of any number of writers, tokens left plus bytes reserved are within rate times elapsed time plus the steps back of the clock readings |
| `Throttle.RateBoundWithSkew` | pkg/throttle/throttle.go:37-48 | when a write returns, bytes reserved so far are at most rate times the time since creation plus the total step back |
| `Throttle.RateBound` | pkg/throttle/throttle.go:37-48 | with readings in order, at most rate times the time since creation |
| `Throttle.RateBoundIsExact` | pkg/throttle/throttle.go:37-48 | for any number of writers and any readings: all writes keep the rate at every return if and only if, for each prefix of the readings, the credit they give is within the last reading's time or the largest writes are within the latest's |
| `Throttle.CreditOf` | pkg/throttle/throttle.go:17-48 | tokens left plus bytes reserved are at most the credit given by the readings alone, and exactly it when every write is as large as the burst |
| `Throttle.OutOfOrderExceeds` | pkg/throttle/throttle.go:42-46 | two writes at one byte a second that exceed the rate |
| `Throttle.OrderIsExact` | pkg/throttle/throttle.go:42-46 | for any number of writers, while the time since creation is worth less than a burst: they keep the rate at every return whatever they write if and only if their readings arrive in order |
| `Throttle.TwoWriters` | pkg/throttle/throttle.go:42-46 | what the burst changes: two writers keep the rate out of order too, exactly when the earlier reading's time is worth a burst or the later one's two |
| `Delivery.FoundIsDelivered` | pkg/routing/p2p.go:170-199 | a node among the providers of a completed lookup within the capacity is delivered, at any speed of the reader |
| `Delivery.HeldKeyIsServed` | pkg/registry/registry.go:244-301 | a request at any node for a key that some node holds through its sweeps, and serves, is answered by the first delivered peer that serves it, given a completed lookup with that node among its providers |
| `Delivery.KeptImageKeepsKeys` | pkg/state/state.go:101-116 | an image that every sweep updates, its identifiers walked over content that only grows, keeps every key reachable in the content there was |
| `Delivery.HeldBlobIsServed` | pkg/registry/registry.go:331-357 | every digest so reached that the keeping node can serve: a blob request at any node gets 200, for a GET exactly the content if the able delivered peers read it whole, for a HEAD no body |
| `Delivery.HeldManifestIsServed` | pkg/registry/registry.go:304-329 | every index and manifest so reached: a GET for it by digest at any node gets 200 with its content, a HEAD 200 without |
| `Delivery.HeldTagIsServed` | pkg/registry/registry.go:304-329 | a GET or HEAD at any node for the tag of a held image, kept by sweeps that update it in time, gets 200, and the GET the target's content where the tag resolves alike; for every tag that is to be resolved |
| `Delivery.SweptTagIsHeld` | pkg/state/state.go:94-100 | an image that every sweep updates in time keeps its tag key, if it is to have one |
| `Delivery.LatestLookupFindsNothing` | pkg/registry/registry.go:234-301 | with latest tags resolved nowhere, a lookup under a key that reads as latest finds no peer, and the request gets 404 without causing another |

## Left out

- MirrorConfig.ConfigDir.AddMirrorConfiguration: hosts that are empty, `.`, `..`, `_backup` or contain a slash are excluded, because joining them does not name a directory of their own.
- MirrorConfigRuns.LiveFileMeaning: the TOML library is a parameter, assumed to decode what it encoded; the field layout of the file is not modelled.
- Merge.Safety: the input channels are distinct and not nil.
- Resolve.RunGuarantees: the provider lookup is libp2p's and is an environment here; a negative count, on which making the channel panics, is not modelled.
- Response.StatusAgrees: final status codes only, no 1xx and no hijacking.
- Registry.Registry.Proxy: the reverse proxy is its contract: 1xx responses and aborts in mid body are not modelled, and of the hop-by-hop headers only the effect on the mirrored header, in Cluster.
- Registry.Registry.RegistryHandler: the other routes, logging, request metrics and response headers are not modelled.
- Registry.Registry.HandleManifest: media type detection is not modelled.
- Registry.Registry.HandleBlob: a connection that fails while a body is written is covered in the response writer, not in the handlers.
- Cluster.BlobIsServed: for requests that do not have the marker dropped; a cancellation by the client is the subject of Registry.FirstSuccess.
- Tracker.StateTracker.Track: merging the two tick sources is the subject of Merge.
- Freshness.HeldKeysNeverLapse: ticks fire on schedule and none is dropped by a sweep longer than a period, as the minute bound implies.
- TrackerRuns.LatestNeverAdvertised: identifiers are digests, with hexadecimal digits after the first colon.
- Image.RoundTrip: URL parsing covers letters, digits and `._-+:/@`; escapes, queries, fragments and bracketed hosts are not modelled.
- Distribution.LongestName: the regular expressions are modelled by what they match, not by the matching engine.
- ImageWalk.AllIdentifiers: label-based media types and the distinction between Docker and OCI media types are not modelled.
- Throttle.RateBound: exact reals and positive rates; the limiter follows golang.org/x/time/rate, whose source is not part of this model.
- Delivery.HeldKeyIsServed: that a lookup yields a node with a live record, within its count, is an assumption about libp2p. Config and layer digests are listed without a look at the content store, so that the node can serve them is a condition.
- pkg/routing/bootstrap.go, pkg/routing/memory.go, pkg/oci/mock.go: leader election and test doubles.
- pkg/throttle/byterate.go, `lookupMediaType`, `getContentFilter`, `createFilters`, `verifyStatusResponse`: they would only add easy members or belong to containerd's filter language.
- main.go, metrics registration, Helm charts, benchmarks and end-to-end scripts: wiring and data.
