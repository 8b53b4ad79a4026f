/** What unbounded sequences of configuration runs do to the live files and to the backup. */
module MirrorConfigRuns {
  import opened Prelude
  import opened MirrorConfig

  ghost predicate AllPlain(runs: seq<Args>)
  {
    forall a :: a in runs ==> PlainHosts(a)
  }

  /* ---------- One run ---------- */

  /** The registry whose file survives for host h: the last one listed with that host. */
  function LastFor(regs: seq<Url>, h: string): (u: Url)
    requires h in Hosts(regs)
    ensures u in regs && u.host == h
  {
    if regs[|regs| - 1].host == h then regs[|regs| - 1] else
      assert regs == regs[..|regs| - 1] + [regs[|regs| - 1]];
      LastFor(regs[..|regs| - 1], h)
  }

  lemma {:induction false} LastForIsLast(regs: seq<Url>, h: string) returns (i: nat)
    requires h in Hosts(regs)
    ensures i < |regs| && regs[i] == LastFor(regs, h) && forall j :: i < j < |regs| ==> regs[j].host != h
  {
    i := |regs| - 1;
    if regs[i].host != h {
      HostsSnoc(regs);
      var k := LastForIsLast(regs[..i], h);
      assert forall j :: 0 <= j < i ==> regs[..i][j] == regs[j];
      i := k;
    }
  }

  lemma HostsSnoc(regs: seq<Url>)
    requires regs != []
    ensures Hosts(regs) == Hosts(regs[..|regs| - 1]) + {regs[|regs| - 1].host}
  {
    assert regs == regs[..|regs| - 1] + [regs[|regs| - 1]];
  }

  /** The loop gets through exactly when every registry renders; then each host has the last rendering. */
  lemma {:induction false} LiveFiles(codec: Codec, b: Option<Node>, a: Args, regs: seq<Url>)
    ensures var (live, o) := LiveAfter(codec, b, a, regs);
            && live.Keys <= Hosts(regs)
            && (o == Configured <==> forall u :: u in regs ==> Render(codec, b, a, u).Ok?)
            && (o == Configured ==>
                  && live.Keys == Hosts(regs)
                  && forall h :: h in live ==> Ok(live[h]) == Render(codec, b, a, LastFor(regs, h)))
  {
    if regs != [] {
      var initial, u := regs[..|regs| - 1], regs[|regs| - 1];
      LiveFiles(codec, b, a, initial);
      HostsSnoc(regs);
      assert forall v :: v in regs <==> v in initial || v == u;
    }
  }

  /** A loop that fails does so at the first registry that does not render, and leaves the files of those before it. */
  lemma {:induction false} FailsAtFirst(codec: Codec, b: Option<Node>, a: Args, regs: seq<Url>) returns (i: nat)
    requires LiveAfter(codec, b, a, regs).1.Failed?
    ensures i < |regs| && Render(codec, b, a, regs[i]) == Err(LiveAfter(codec, b, a, regs).1.why)
    ensures forall j :: 0 <= j < i ==> Render(codec, b, a, regs[j]).Ok?
    ensures LiveAfter(codec, b, a, regs[..i]) == (LiveAfter(codec, b, a, regs).0, Configured)
  {
    var n := |regs| - 1;
    var initial := regs[..n];
    if LiveAfter(codec, b, a, initial).1.Failed? {
      i := FailsAtFirst(codec, b, a, initial);
      assert initial[..i] == regs[..i];
      assert forall j :: 0 <= j < n ==> initial[j] == regs[j];
    } else {
      i := n;
      LiveFiles(codec, b, a, initial);
      assert forall j :: 0 <= j < n ==> initial[j] == regs[j] && initial[j] in initial;
    }
  }

  lemma RunOf(codec: Codec, fs: Fs, a: Args)
    requires PlainHosts(a) && ValidArgs(a)
    ensures var b := BackupOf(Backup(EntriesOf(fs)));
            var (live, o) := LiveAfter(codec, b, a, a.registries);
            && BACKUP_DIR !in live
            && Run(codec, fs, a) == (Present(Assemble(b, live)), o)
            && BackupOf(EntriesOf(Run(codec, fs, a).0)) == b
            && Live(Run(codec, fs, a).0) == LiveDirs(live)
  {
    NoErrorsIffValid(a.registries);
    var b := BackupOf(Backup(EntriesOf(fs)));
    LiveFiles(codec, b, a, a.registries);
    var live := LiveAfter(codec, b, a, a.registries).0;
    BackupOfAssemble(b, live);
  }

  /** A run that fails validation leaves the directory as it was. */
  lemma InvalidRunChangesNothing(codec: Codec, fs: Fs, a: Args)
    requires !ValidArgs(a)
    ensures Run(codec, fs, a) == (fs, Failed(InvalidRegistries(RegistryErrors(a.registries))))
  {
    NoErrorsIffValid(a.registries);
  }

  /** After a successful run the live top-level entries are the configured hosts, each with one hosts.toml. */
  lemma LiveEntriesAreTheHosts(codec: Codec, fs: Fs, a: Args)
    requires PlainHosts(a)
    requires Run(codec, fs, a).1 == Configured
    ensures var live := Live(Run(codec, fs, a).0);
            && live.Keys == Hosts(a.registries)
            && forall h :: h in live ==>
                 live[h].Dir? && live[h].entries.Keys == {HOSTS_FILE} && live[h].entries[HOSTS_FILE].File?
  {
    NoErrorsIffValid(a.registries);
    RunOf(codec, fs, a);
    LiveFiles(codec, BackupOf(Backup(EntriesOf(fs))), a, a.registries);
  }

  function LiveFile(fs: Fs, h: string): (text: Option<string>)
  {
    if h in Live(fs) && Live(fs)[h].Dir? && HOSTS_FILE in Live(fs)[h].entries && Live(fs)[h].entries[HOSTS_FILE].File?
    then Some(Live(fs)[h].entries[HOSTS_FILE].content) else None
  }

  lemma LiveFileIsRendered(codec: Codec, fs: Fs, a: Args, h: string)
    requires PlainHosts(a)
    requires Run(codec, fs, a).1 == Configured && h in Hosts(a.registries)
    ensures var text := LiveFile(Run(codec, fs, a).0, h);
            text.Some? && Render(codec, BackupOf(Backup(EntriesOf(fs))), a, LastFor(a.registries, h)) == Ok(text.value)
  {
    NoErrorsIffValid(a.registries);
    RunOf(codec, fs, a);
    var b := BackupOf(Backup(EntriesOf(fs)));
    LiveFiles(codec, b, a, a.registries);
    LiveFileOf(Run(codec, fs, a).0, LiveAfter(codec, b, a, a.registries).0, h);
  }

  lemma LiveFileOf(fs: Fs, live: map<string, string>, h: string)
    requires Live(fs) == LiveDirs(live) && h in live
    ensures LiveFile(fs, h) == Some(live[h])
  {
    assert LiveDirs(live)[h] == HostDir(live[h]);
  }

  /**
   Every mirror URL may be pulled from, may be resolved at if and only if that was asked for, and carries
   nothing else.
   */
  ghost predicate HasMirrors(hf: HostFile, a: Args)
  {
    forall u :: u in a.mirrors ==>
      && hf.hosts.Some? && u.text in hf.hosts.value
      && var entry := hf.hosts.value[u.text];
      && entry.capabilities == (if a.resolveTags then ["pull", "resolve"] else ["pull"])
      && entry.ca == None && entry.client == None && entry.overridePath == None && entry.skipVerify == None
      && entry.header == map[]
  }

  /** hf keeps saved's server and all of its entries that no mirror URL overrides, and has no others but mirrors. */
  ghost predicate KeepsSaved(hf: HostFile, saved: HostFile, a: Args)
  {
    && hf.server == saved.server
    && hf.hosts.Some? == saved.hosts.Some?
    && (hf.hosts.Some? ==>
          && hf.hosts.value.Keys == saved.hosts.value.Keys + Texts(a.mirrors)
          && forall k :: k in saved.hosts.value && k !in Texts(a.mirrors) ==> hf.hosts.value[k] == saved.hosts.value[k])
  }

  lemma WithMirrorsMeaning(base: HostFile, a: Args)
    requires base.hosts.Some? || a.mirrors == []
    ensures HasMirrors(WithMirrors(base, a), a) && KeepsSaved(WithMirrors(base, a), base, a)
  {
    forall u | u in a.mirrors
      ensures u.text in Texts(a.mirrors)
    {
    }
  }

  /**
   What containerd reads back for a configured host: the mirrors, over the backed-up file when appending
   to one, and otherwise over the registry's own server and nothing else.
   */
  lemma LiveFileMeaning(codec: Codec, fs: Fs, a: Args, h: string) returns (hf: HostFile)
    requires codec.Inverse() && PlainHosts(a)
    requires Run(codec, fs, a).1 == Configured && h in Hosts(a.registries)
    ensures LiveFile(Run(codec, fs, a).0, h).Some?
    ensures codec.unmarshal(LiveFile(Run(codec, fs, a).0, h).value) == Some(hf)
    ensures HasMirrors(hf, a)
    ensures var saved := ReadBackup(BackupOf(Backup(EntriesOf(fs))), h);
            if a.append && saved.Found?
            then codec.unmarshal(saved.content).Some? && KeepsSaved(hf, codec.unmarshal(saved.content).value, a)
            else
              var url := LastFor(a.registries, h).text;
              var server := if url == "https://docker.io" then "https://registry-1.docker.io" else url;
              KeepsSaved(hf, HostFile(server, Some(map[])), a)
  {
    var b := BackupOf(Backup(EntriesOf(fs)));
    LiveFileIsRendered(codec, fs, a, h);
    var base := GetHostFile(codec, b, a.append, LastFor(a.registries, h)).value;
    hf := WithMirrors(base, a);
    WithMirrorsMeaning(base, a);
    assert codec.unmarshal(codec.marshal(hf)) == Some(hf);
  }

  /* ---------- What is read back ---------- */

  /** The node at a path, by names from the top. */
  function At(node: Node, path: seq<string>): Option<Node>
    decreases |path|
  {
    if path == [] then Some(node)
    else if node.Dir? && path[0] in node.entries then At(node.entries[path[0]], path[1..])
    else None
  }

  /** Some proper part of the path is a file. */
  predicate ThroughFile(node: Node, path: seq<string>)
    decreases |path|
  {
    path != [] && (node.File? || (path[0] in node.entries && ThroughFile(node.entries[path[0]], path[1..])))
  }

  /**
   Reading a host's backup is reading _backup/<host>/hosts.toml: its content, or that there is no such file,
   or an error.
   */
  lemma ReadBackupIsRead(e: Entries, host: string)
    ensures var path, read := ["_backup", host, "hosts.toml"], ReadBackup(BackupOf(e), host);
            && (forall content :: read == Found(content) <==> At(Dir(e), path) == Some(File(content)))
            && (read == NotFound <==> At(Dir(e), path) == None && !ThroughFile(Dir(e), path))
  {
    var path := ["_backup", host, "hosts.toml"];
    assert path[1..] == [host, "hosts.toml"] && path[1..][1..] == ["hosts.toml"] && path[1..][1..][1..] == [];
    if "_backup" in e && e["_backup"].Dir? && host in e["_backup"].entries {
      var dir := e["_backup"].entries[host];
      assert At(Dir(e), path) == At(dir, ["hosts.toml"]);
      assert ThroughFile(Dir(e), path) == ThroughFile(dir, ["hosts.toml"]);
    }
  }

  /**
   A registry renders unless it is to be appended to a backup that cannot be read, does not decode, or has no
   host table to put mirrors in.
   */
  lemma RendersIff(codec: Codec, b: Option<Node>, a: Args, u: Url)
    ensures Render(codec, b, a, u).Ok? <==>
            !a.append ||
            match ReadBackup(b, u.host)
            case NotFound => true
            case Unreadable => false
            case Found(content) =>
              codec.unmarshal(content).Some? && (codec.unmarshal(content).value.hosts.Some? || a.mirrors == [])
    ensures forall why :: Render(codec, b, a, u) == Err(why) ==>
              match ReadBackup(b, u.host)
              case NotFound => false
              case Unreadable => why == BackupUnreadable(u.host)
              case Found(content) =>
                why == if codec.unmarshal(content).None? then BackupMalformed(u.host) else NilHostTable(u.host)
  {
  }

  /* ---------- The backup over whole runs ---------- */

  /** Once a backup exists no run, successful or not, changes anything in it. */
  lemma {:induction false} BackupNeverChanges(codec: Codec, fs: Fs, runs: seq<Args>)
    requires AllPlain(runs)
    requires BACKUP_DIR in EntriesOf(fs)
    ensures BackupOf(EntriesOf(RunAll(codec, fs, runs))) == BackupOf(EntriesOf(fs))
  {
    if runs != [] {
      var initial, a := runs[..|runs| - 1], runs[|runs| - 1];
      BackupNeverChanges(codec, fs, initial);
      OneRunBackup(codec, RunAll(codec, fs, initial), a);
    }
  }

  lemma OneRunBackup(codec: Codec, fs: Fs, a: Args)
    requires PlainHosts(a)
    ensures var after := EntriesOf(Run(codec, fs, a).0);
            BackupOf(after) == if ValidArgs(a) then BackupOf(Backup(EntriesOf(fs))) else BackupOf(EntriesOf(fs))
  {
    if ValidArgs(a) {
      RunOf(codec, fs, a);
    } else {
      InvalidRunChangesNothing(codec, fs, a);
    }
  }

  /**
   From a non-empty directory without a backup: before the first valid run nothing has changed, and from
   then on, for ever, the initial directory is under _backup, every path and content unchanged.
   */
  lemma {:induction false} InitialFilesAreKept(codec: Codec, fs: Fs, runs: seq<Args>)
    requires AllPlain(runs)
    requires EntriesOf(fs) != map[] && BACKUP_DIR !in EntriesOf(fs)
    ensures if exists a :: a in runs && ValidArgs(a)
            then BackupOf(EntriesOf(RunAll(codec, fs, runs))) == Some(Dir(EntriesOf(fs)))
            else RunAll(codec, fs, runs) == fs
  {
    if runs != [] {
      var initial, a := runs[..|runs| - 1], runs[|runs| - 1];
      assert forall x :: x in runs <==> x in initial || x == a;
      InitialFilesAreKept(codec, fs, initial);
      OneRunBackup(codec, RunAll(codec, fs, initial), a);
      if !ValidArgs(a) {
        InvalidRunChangesNothing(codec, RunAll(codec, fs, initial), a);
      }
    }
  }

  /**
   Crash safety, exactly: after an interrupted pass and any later runs, the last of them valid, the initial
   files are under _backup if and only if the pass had moved every one of them. Those not moved are gone:
   _backup holds only the moved ones, and every live entry is one that the last run wrote.
   */
  lemma InterruptedBackupLosesTheRest(codec: Codec, e: Entries, moved: set<string>, runs: seq<Args>, last: Args)
    requires AllPlain(runs) && PlainHosts(last) && ValidArgs(last)
    requires BACKUP_DIR !in e && moved <= e.Keys
    ensures var after := Run(codec, RunAll(codec, Present(Interrupted(e, moved)), runs), last).0;
            && (BackupOf(EntriesOf(after)) == Some(Dir(e)) <==> moved == e.Keys)
            && BackupOf(EntriesOf(after)) == Some(Dir(Restrict(e, moved)))
            && forall h :: h in Live(after) ==>
                 h in Hosts(last.registries) && Live(after)[h].Dir? && Live(after)[h].entries.Keys == {HOSTS_FILE}
  {
    var fs := Present(Interrupted(e, moved));
    var before := RunAll(codec, fs, runs);
    BackupNeverChanges(codec, fs, runs);
    RunOf(codec, before, last);
    LiveFiles(codec, BackupOf(Backup(EntriesOf(before))), last, last.registries);
    var kept := Restrict(e, moved);
    assert kept.Keys == moved;
    if moved == e.Keys {
      assert kept == e;
    }
  }

  /** Concretely: two host directories, one moved when the pass stopped; the next run loses the other. */
  lemma InterruptedBackupExample(codec: Codec, x: Node, y: Node)
    ensures var after := Run(codec, Present(Interrupted(map["a" := x, "b" := y], {"a"})), Args([], [], false, false)).0;
            "b" !in Live(after) && BackupOf(EntriesOf(after)) == Some(Dir(map["a" := x]))
  {
    var e: Entries := map["a" := x, "b" := y];
    var fs, last := Present(Interrupted(e, {"a"})), Args([], [], false, false);
    InterruptedBackupLosesTheRest(codec, e, {"a"}, [], last);
    assert RunAll(codec, fs, []) == fs;
    assert Hosts(last.registries) == {};
    assert Restrict(e, {"a"}) == map["a" := x];
  }

  /* ---------- History independence ---------- */

  /** What the next valid run will read from: the same before and after any sequence of runs. */
  lemma {:induction false} NextBackupIsFixed(codec: Codec, fs: Fs, runs: seq<Args>)
    requires AllPlain(runs)
    requires EntriesOf(fs) != map[]
    ensures BackupOf(Backup(EntriesOf(RunAll(codec, fs, runs)))) == BackupOf(Backup(EntriesOf(fs)))
    ensures EntriesOf(RunAll(codec, fs, runs)) != map[]
  {
    if runs != [] {
      var initial, a := runs[..|runs| - 1], runs[|runs| - 1];
      NextBackupIsFixed(codec, fs, initial);
      OneRunBackup(codec, RunAll(codec, fs, initial), a);
      if ValidArgs(a) {
        var after := EntriesOf(Run(codec, RunAll(codec, fs, initial), a).0);
        assert BACKUP_DIR in after;
      } else {
        InvalidRunChangesNothing(codec, RunAll(codec, fs, initial), a);
      }
    }
  }

  lemma SameBackupSameRun(codec: Codec, fs: Fs, fs': Fs, a: Args)
    requires PlainHosts(a) && ValidArgs(a)
    requires BackupOf(Backup(EntriesOf(fs))) == BackupOf(Backup(EntriesOf(fs')))
    ensures Live(Run(codec, fs, a).0) == Live(Run(codec, fs', a).0)
    ensures Run(codec, fs, a).1 == Run(codec, fs', a).1
  {
    RunOf(codec, fs, a);
    RunOf(codec, fs', a);
  }

  lemma {:induction false} BackupIrrelevantWithoutAppend(codec: Codec, b: Option<Node>, b': Option<Node>, a: Args,
                                                         regs: seq<Url>)
    requires !a.append
    ensures LiveAfter(codec, b, a, regs) == LiveAfter(codec, b', a, regs)
  {
    if regs != [] {
      BackupIrrelevantWithoutAppend(codec, b, b', a, regs[..|regs| - 1]);
    }
  }

  /**
   History independence: from a non-empty directory, or when the last run does not append, the live
   files and the outcome of the last run are those of performing only that run on the initial
   directory, whatever runs came before and whether or not they succeeded.
   */
  lemma HistoryIndependence(codec: Codec, fs: Fs, runs: seq<Args>, last: Args)
    requires AllPlain(runs) && PlainHosts(last) && ValidArgs(last)
    requires EntriesOf(fs) != map[] || !last.append
    ensures Live(Run(codec, RunAll(codec, fs, runs), last).0) == Live(Run(codec, fs, last).0)
    ensures Run(codec, RunAll(codec, fs, runs), last).1 == Run(codec, fs, last).1
  {
    if EntriesOf(fs) != map[] {
      NextBackupIsFixed(codec, fs, runs);
      SameBackupSameRun(codec, RunAll(codec, fs, runs), fs, last);
    } else {
      RunOf(codec, RunAll(codec, fs, runs), last);
      RunOf(codec, fs, last);
      BackupIrrelevantWithoutAppend(codec, BackupOf(Backup(EntriesOf(RunAll(codec, fs, runs)))),
                                    BackupOf(Backup(EntriesOf(fs))), last, last.registries);
    }
  }

  /* ---------- The remaining case: an initially empty directory and an appending last run ---------- */

  predicate Writes(a: Args)
  {
    ValidArgs(a) && a.registries != []
  }

  /** Index of the first run that writes anything, or |runs|. */
  function FirstWriter(runs: seq<Args>): (k: nat)
    ensures k <= |runs|
    ensures k < |runs| ==> Writes(runs[k])
    ensures forall i :: 0 <= i < k ==> !Writes(runs[i])
  {
    if runs == [] then 0
    else if Writes(runs[0]) then 0
    else 1 + FirstWriter(runs[1..])
  }

  /** Appending to first's own output gives the same files as starting over, as a check on the arguments. */
  predicate Compatible(first: Args, last: Args)
  {
    forall h :: h in Hosts(first.registries) * Hosts(last.registries) ==>
      && Server(LastFor(first.registries, h)) == Server(LastFor(last.registries, h))
      && Texts(first.mirrors) <= Texts(last.mirrors)
  }

  /** Spegel's own file for host h when there was nothing to append to. */
  function OwnFile(a: Args, h: string): HostFile
    requires h in Hosts(a.registries)
  {
    WithMirrors(HostFile(Server(LastFor(a.registries, h)), Some(map[])), a)
  }

  lemma {:induction false} RenderWithoutBackup(codec: Codec, a: Args, regs: seq<Url>)
    ensures LiveAfter(codec, None, a, regs).1 == Configured
  {
    if regs != [] {
      RenderWithoutBackup(codec, a, regs[..|regs| - 1]);
    }
  }

  lemma RenderOwn(codec: Codec, a: Args, h: string)
    requires h in Hosts(a.registries)
    ensures Render(codec, None, a, LastFor(a.registries, h)) == Ok(codec.marshal(OwnFile(a, h)))
  {
  }

  /** The directory after a run on an empty one. */
  function OwnDir(codec: Codec, a: Args): Entries
  {
    map h | h in Hosts(a.registries) :: HostDir(codec.marshal(OwnFile(a, h)))
  }

  lemma OwnOutput(codec: Codec, fs: Fs, a: Args)
    requires PlainHosts(a) && ValidArgs(a) && EntriesOf(fs) == map[]
    ensures EntriesOf(Run(codec, fs, a).0) == Live(Run(codec, fs, a).0) == OwnDir(codec, a)
    ensures Run(codec, fs, a).1 == Configured
  {
    RunOf(codec, fs, a);
    RenderWithoutBackup(codec, a, a.registries);
    LiveFiles(codec, None, a, a.registries);
    var live := LiveAfter(codec, None, a, a.registries).0;
    forall h | h in live
      ensures live[h] == codec.marshal(OwnFile(a, h))
    {
      RenderOwn(codec, a, h);
    }
    assert LiveDirs(live) == OwnDir(codec, a);
    assert Assemble(None, live) == LiveDirs(live);
  }

  /** Runs that write nothing keep an empty directory empty. */
  lemma {:induction false} StaysEmpty(codec: Codec, fs: Fs, runs: seq<Args>)
    requires AllPlain(runs) && EntriesOf(fs) == map[]
    requires forall a :: a in runs ==> !Writes(a)
    ensures EntriesOf(RunAll(codec, fs, runs)) == map[]
  {
    if runs != [] {
      var initial, a := runs[..|runs| - 1], runs[|runs| - 1];
      StaysEmpty(codec, fs, initial);
      if ValidArgs(a) {
        OwnOutput(codec, RunAll(codec, fs, initial), a);
        assert a in runs && a.registries == [];
        assert OwnDir(codec, a) == map[];
      } else {
        InvalidRunChangesNothing(codec, RunAll(codec, fs, initial), a);
      }
    }
  }

  lemma {:induction false} RunAllSplit(codec: Codec, fs: Fs, runs: seq<Args>, k: nat)
    requires k <= |runs|
    ensures RunAll(codec, fs, runs) == RunAll(codec, RunAll(codec, fs, runs[..k]), runs[k..])
  {
    if k == |runs| {
      assert runs[..k] == runs && runs[k..] == [];
    } else {
      RunAllSplit(codec, fs, runs[..|runs| - 1], k);
      assert runs[..|runs| - 1][..k] == runs[..k];
      assert runs[..|runs| - 1][k..] == runs[k..][..|runs[k..]| - 1];
    }
  }

  lemma FirstOutputIsBackedUpNext(codec: Codec, fs: Fs, first: Args)
    requires PlainHosts(first) && Writes(first) && EntriesOf(fs) == map[]
    ensures var after := EntriesOf(Run(codec, fs, first).0);
            after != map[] && BackupOf(Backup(after)) == Some(Dir(OwnDir(codec, first)))
  {
    OwnOutput(codec, fs, first);
    assert first.registries[0] in first.registries;
    assert first.registries[0].host in OwnDir(codec, first);
  }

  lemma WriterFixesBackup(codec: Codec, fs: Fs, runs: seq<Args>)
    requires AllPlain(runs) && EntriesOf(fs) == map[]
    requires FirstWriter(runs) < |runs|
    ensures BackupOf(Backup(EntriesOf(RunAll(codec, fs, runs)))) == Some(Dir(OwnDir(codec, runs[FirstWriter(runs)])))
  {
    var k := FirstWriter(runs);
    var before := RunAll(codec, fs, runs[..k]);
    StaysEmpty(codec, fs, runs[..k]);
    FirstOutputIsBackedUpNext(codec, before, runs[k]);
    RunAllFrom(codec, fs, runs, k);
    NextBackupIsFixed(codec, Run(codec, before, runs[k]).0, runs[k + 1..]);
  }

  lemma RunAllFrom(codec: Codec, fs: Fs, runs: seq<Args>, k: nat)
    requires k < |runs|
    ensures RunAll(codec, fs, runs) == RunAll(codec, Run(codec, RunAll(codec, fs, runs[..k]), runs[k]).0, runs[k + 1..])
  {
    assert runs[..k + 1][..k] == runs[..k];
    RunAllSplit(codec, fs, runs, k + 1);
  }

  /** The file the appending run writes for h, over a backup made of first's own output. */
  function AppendedFile(first: Args, last: Args, h: string): HostFile
    requires h in Hosts(last.registries)
  {
    if h in Hosts(first.registries) then WithMirrors(OwnFile(first, h), last) else OwnFile(last, h)
  }

  lemma RenderOverOwn(codec: Codec, first: Args, last: Args, u: Url)
    requires codec.Inverse() && last.append && u in last.registries
    ensures var text := Render(codec, Some(Dir(OwnDir(codec, first))), last, u);
            text.Ok? && (u == LastFor(last.registries, u.host) ==>
                text.value == codec.marshal(AppendedFile(first, last, u.host)))
  {
    if u.host in Hosts(first.registries) {
      assert codec.unmarshal(codec.marshal(OwnFile(first, u.host))) == Some(OwnFile(first, u.host));
    }
  }

  lemma AppendToOwn(codec: Codec, fs: Fs, first: Args, last: Args)
    requires codec.Inverse() && PlainHosts(last) && ValidArgs(last) && last.append
    requires BackupOf(Backup(EntriesOf(fs))) == Some(Dir(OwnDir(codec, first)))
    ensures Live(Run(codec, fs, last).0) == AppendedDir(codec, first, last)
    ensures Run(codec, fs, last).1 == Configured
  {
    var b := BackupOf(Backup(EntriesOf(fs)));
    RunOf(codec, fs, last);
    forall u | u in last.registries
      ensures Render(codec, b, last, u).Ok?
    {
      RenderOverOwn(codec, first, last, u);
    }
    LiveFiles(codec, b, last, last.registries);
    var live := LiveAfter(codec, b, last, last.registries).0;
    forall h | h in live
      ensures live[h] == codec.marshal(AppendedFile(first, last, h))
    {
      RenderOverOwn(codec, first, last, LastFor(last.registries, h));
    }
  }

  lemma AppendedEqualsOwnIff(first: Args, last: Args, h: string)
    requires h in Hosts(first.registries) * Hosts(last.registries)
    ensures AppendedFile(first, last, h) == OwnFile(last, h) <==>
            && Server(LastFor(first.registries, h)) == Server(LastFor(last.registries, h))
            && Texts(first.mirrors) <= Texts(last.mirrors)
  {
    var appended := AppendedFile(first, last, h).hosts.value;
    var own := OwnFile(last, h).hosts.value;
    assert appended.Keys == Texts(first.mirrors) + Texts(last.mirrors);
    assert own.Keys == Texts(last.mirrors);
    if Texts(first.mirrors) <= Texts(last.mirrors) {
      assert appended.Keys == own.Keys;
      assert appended == own;
    }
  }

  /**
   History independence from an initially empty (or missing) directory with an appending last run:
   the live files are those of the last run alone exactly when no earlier run wrote anything or the
   arguments of the first run that did are compatible with those of the last.
   */
  lemma HistoryIndependenceFromEmpty(codec: Codec, fs: Fs, runs: seq<Args>, last: Args)
    requires codec.Inverse()
    requires AllPlain(runs) && PlainHosts(last) && ValidArgs(last) && last.append
    requires EntriesOf(fs) == map[]
    ensures Live(Run(codec, RunAll(codec, fs, runs), last).0) == Live(Run(codec, fs, last).0) <==>
            (FirstWriter(runs) < |runs| ==> Compatible(runs[FirstWriter(runs)], last))
    ensures Run(codec, RunAll(codec, fs, runs), last).1 == Run(codec, fs, last).1 == Configured
  {
    var k := FirstWriter(runs);
    var before := RunAll(codec, fs, runs);
    OwnOutput(codec, fs, last);
    if k == |runs| {
      StaysEmpty(codec, fs, runs);
      SameBackupSameRun(codec, before, fs, last);
    } else {
      var first := runs[k];
      WriterFixesBackup(codec, fs, runs);
      AppendToOwn(codec, before, first, last);
      forall h | h in Hosts(first.registries) * Hosts(last.registries)
        ensures HostDir(codec.marshal(AppendedFile(first, last, h))) == HostDir(codec.marshal(OwnFile(last, h))) <==>
                && Server(LastFor(first.registries, h)) == Server(LastFor(last.registries, h))
                && Texts(first.mirrors) <= Texts(last.mirrors)
      {
        AppendedEqualsOwnIff(first, last, h);
        SameTextSameFile(codec, AppendedFile(first, last, h), OwnFile(last, h));
      }
      AppendedDirIff(codec, first, last);
    }
  }

  lemma SameTextSameFile(codec: Codec, x: HostFile, y: HostFile)
    requires codec.Inverse()
    ensures HostDir(codec.marshal(x)) == HostDir(codec.marshal(y)) <==> x == y
  {
    assert codec.unmarshal(codec.marshal(x)) == Some(x);
    assert codec.unmarshal(codec.marshal(y)) == Some(y);
    assert HostDir(codec.marshal(x)).entries[HOSTS_FILE] == File(codec.marshal(x));
    assert HostDir(codec.marshal(y)).entries[HOSTS_FILE] == File(codec.marshal(y));
  }

  function AppendedDir(codec: Codec, first: Args, last: Args): Entries
  {
    map h | h in Hosts(last.registries) :: HostDir(codec.marshal(AppendedFile(first, last, h)))
  }

  lemma AppendedDirIff(codec: Codec, first: Args, last: Args)
    requires forall h :: h in Hosts(first.registries) * Hosts(last.registries) ==>
               (HostDir(codec.marshal(AppendedFile(first, last, h))) == HostDir(codec.marshal(OwnFile(last, h))) <==>
                && Server(LastFor(first.registries, h)) == Server(LastFor(last.registries, h))
                && Texts(first.mirrors) <= Texts(last.mirrors))
    ensures AppendedDir(codec, first, last) == OwnDir(codec, last) <==> Compatible(first, last)
  {
    var x, y := AppendedDir(codec, first, last), OwnDir(codec, last);
    assert x.Keys == y.Keys;
    assert forall h :: h in x && h !in Hosts(first.registries) ==> x[h] == y[h];
    if x == y {
      forall h | h in Hosts(first.registries) * Hosts(last.registries)
        ensures HostDir(codec.marshal(AppendedFile(first, last, h))) == HostDir(codec.marshal(OwnFile(last, h)))
      {
        assert x[h] == y[h];
      }
    }
  }

  /** Concretely: two appending runs with different mirrors on an empty directory keep the first mirror. */
  lemma HistoryMattersFromEmpty(codec: Codec)
    requires codec.Inverse()
    ensures var docker := Url("https", false, "docker.io", "", {}, "https://docker.io");
            var mirror := port => Url("http", false, "127.0.0.1", "", {}, "http://127.0.0.1:" + port);
            var first := Args([docker], [mirror("1")], true, true);
            var last := Args([docker], [mirror("2")], true, true);
            Live(Run(codec, RunAll(codec, Missing, [first]), last).0) != Live(Run(codec, Missing, last).0)
  {
    var docker := Url("https", false, "docker.io", "", {}, "https://docker.io");
    var m1 := Url("http", false, "127.0.0.1", "", {}, "http://127.0.0.1:" + "1");
    var m2 := Url("http", false, "127.0.0.1", "", {}, "http://127.0.0.1:" + "2");
    var first := Args([docker], [m1], true, true);
    var last := Args([docker], [m2], true, true);
    assert Writes(first) && FirstWriter([first]) == 0;
    assert docker in first.registries && docker in last.registries;
    assert "docker.io" in Hosts(first.registries) * Hosts(last.registries);
    assert m1 in first.mirrors && m1.text in Texts(first.mirrors);
    assert m1.text[17] != m2.text[17];
    assert m1.text !in Texts(last.mirrors);
    HistoryIndependenceFromEmpty(codec, Missing, [first], last);
  }

  /** Running twice is running once, on the live files and in the outcome, in both modes and from every start. */
  lemma Idempotent(codec: Codec, fs: Fs, a: Args)
    requires codec.Inverse() && PlainHosts(a)
    ensures var once := Run(codec, fs, a);
            Live(Run(codec, once.0, a).0) == Live(once.0) && Run(codec, once.0, a).1 == once.1
  {
    if !ValidArgs(a) {
      InvalidRunChangesNothing(codec, fs, a);
    } else {
      assert RunAll(codec, fs, [a][..0]) == fs;
      assert RunAll(codec, fs, [a]) == Run(codec, fs, a).0;
      if EntriesOf(fs) != map[] || !a.append {
        HistoryIndependence(codec, fs, [a], a);
      } else {
        HistoryIndependenceFromEmpty(codec, fs, [a], a);
        if FirstWriter([a]) < 1 {
          assert [a][FirstWriter([a])] == a;
        }
      }
    }
  }
}
