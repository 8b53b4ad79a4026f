/**
 Containerd mirror configuration: AddMirrorConfiguration and its helpers, run over a model of the
 configuration directory. Every pod start runs the operation again, so the results are about
 arbitrary sequences of runs with arbitrary arguments, failing runs included.
 */
module MirrorConfig {
  import opened Prelude

  const BACKUP_DIR := "_backup"
  const HOSTS_FILE := "hosts.toml"

  /** A URL as far as the code looks at it; text is what String() renders. */
  datatype Url = Url(scheme: string, hasUser: bool, host: string, path: string, query: set<string>, text: string)

  datatype HostConfig = HostConfig(
    ca: Option<string>, client: Option<string>, overridePath: Option<bool>, skipVerify: Option<bool>,
    header: map<string, string>, capabilities: seq<string>)

  /** hosts == None is Go's nil map: reading it is fine, assigning to it panics. */
  datatype HostFile = HostFile(server: string, hosts: Option<map<string, HostConfig>>)

  /** The TOML library: encoding always succeeds, decoding may reject its input. */
  datatype Codec = Codec(marshal: HostFile -> string, unmarshal: string -> Option<HostFile>)
  {
    ghost predicate Inverse()
    {
      forall hf :: unmarshal(marshal(hf)) == Some(hf)
    }
  }

  datatype Node = File(content: string) | Dir(entries: map<string, Node>)

  /** The configuration directory by top-level name. */
  type Entries = map<string, Node>

  datatype Fs = Missing | Present(entries: Entries)

  datatype Args = Args(registries: seq<Url>, mirrors: seq<Url>, resolveTags: bool, append: bool)

  datatype UrlError = BadScheme(text: string) | BadPath(text: string) | BadQuery(text: string) | BadUser(text: string)

  datatype Failure =
    | InvalidRegistries(errors: seq<UrlError>)
    | BackupUnreadable(host: string)
    | BackupMalformed(host: string)
    | NilHostTable(host: string)
    | FileSystem

  datatype Outcome = Configured | Failed(why: Failure)

  /* ---------- Validation ---------- */

  function UrlErrors(u: Url): (errors: seq<UrlError>)
    ensures errors == [] <==> ValidUrl(u)
  {
    (if u.scheme != "http" && u.scheme != "https" then [BadScheme(u.text)] else [])
    + (if u.path != "" then [BadPath(u.text)] else [])
    + (if u.query != {} then [BadQuery(u.text)] else [])
    + (if u.hasUser then [BadUser(u.text)] else [])
  }

  function RegistryErrors(urls: seq<Url>): seq<UrlError>
  {
    if urls == [] then [] else RegistryErrors(urls[..|urls| - 1]) + UrlErrors(urls[|urls| - 1])
  }

  predicate ValidUrl(u: Url)
  {
    u.scheme in {"http", "https"} && u.path == "" && u.query == {} && !u.hasUser
  }

  predicate ValidArgs(a: Args)
  {
    forall u :: u in a.registries ==> ValidUrl(u)
  }

  method ValidateRegistries(urls: seq<Url>) returns (errors: seq<UrlError>)
    ensures errors == RegistryErrors(urls)
    ensures errors == [] <==> forall u :: u in urls ==> ValidUrl(u)
  {
    errors := [];
    for i := 0 to |urls|
      invariant errors == RegistryErrors(urls[..i])
      invariant errors == [] <==> forall u :: u in urls[..i] ==> ValidUrl(u)
    {
      assert urls[..i + 1][..i] == urls[..i];
      errors := errors + UrlErrors(urls[i]);
    }
    assert urls[..|urls|] == urls;
  }

  lemma {:induction false} NoErrorsIffValid(urls: seq<Url>)
    ensures RegistryErrors(urls) == [] <==> forall u :: u in urls ==> ValidUrl(u)
  {
    if urls != [] {
      NoErrorsIffValid(urls[..|urls| - 1]);
      assert urls == urls[..|urls| - 1] + [urls[|urls| - 1]];
    }
  }

  /** Which errors there are, of what kind. */
  lemma {:induction false} ErrorsAre(urls: seq<Url>, e: UrlError)
    ensures e in RegistryErrors(urls) <==> exists u :: u in urls && e.text == u.text && Offends(u, e)
  {
    if urls != [] {
      var initial, last := urls[..|urls| - 1], urls[|urls| - 1];
      ErrorsAre(initial, e);
      ErrorsOfOne(last, e);
      assert forall u :: u in urls <==> u in initial || u == last;
    }
  }

  lemma ErrorsOfOne(u: Url, e: UrlError)
    ensures e in UrlErrors(u) <==> e.text == u.text && Offends(u, e)
  {
  }

  /** The errors of one more URL come after, those of the URLs before it unchanged. */
  lemma ErrorsInOrder(urls: seq<Url>, u: Url)
    ensures RegistryErrors(urls + [u]) == RegistryErrors(urls) + RegistryErrors([u])
  {
    assert (urls + [u])[..|urls|] == urls && [u][..0] == [];
    assert [] + UrlErrors(u) == UrlErrors(u);
  }

  /** The URL is wrong in the way that the error says. */
  predicate Offends(u: Url, e: UrlError)
  {
    match e
    case BadScheme(_) => u.scheme !in {"http", "https"}
    case BadPath(_) => u.path != ""
    case BadQuery(_) => u.query != {}
    case BadUser(_) => u.hasUser
  }

  /** Hosts that path.Join keeps as one directory name of their own. */
  predicate PlainHosts(a: Args)
  {
    forall u :: u in a.registries ==> u.host !in {"", ".", "..", BACKUP_DIR} && '/' !in u.host
  }

  /* ---------- One registry's file ---------- */

  datatype ReadResult = Found(content: string) | NotFound | Unreadable

  function BackupOf(e: Entries): Option<Node>
  {
    if BACKUP_DIR in e then Some(e[BACKUP_DIR]) else None
  }

  /** ReadFile of _backup/<host>/hosts.toml; a file where a directory is needed is not "not found". */
  function ReadBackup(b: Option<Node>, host: string): ReadResult
  {
    match b
    case None => NotFound
    case Some(File(_)) => Unreadable
    case Some(Dir(hosts)) =>
      if host !in hosts then NotFound else
      match hosts[host]
      case File(_) => Unreadable
      case Dir(files) =>
        if HOSTS_FILE !in files then NotFound else
        match files[HOSTS_FILE]
        case Dir(_) => Unreadable
        case File(content) => Found(content)
  }

  function Server(u: Url): string
  {
    if u.text == "https://docker.io" then "https://registry-1.docker.io" else u.text
  }

  function GetHostFile(codec: Codec, b: Option<Node>, append: bool, u: Url): Result<HostFile, Failure>
  {
    var blank := Ok(HostFile(Server(u), Some(map[])));
    if !append then blank else
    match ReadBackup(b, u.host)
    case NotFound => blank
    case Unreadable => Err(BackupUnreadable(u.host))
    case Found(content) =>
      match codec.unmarshal(content)
      case None => Err(BackupMalformed(u.host))
      case Some(hf) => Ok(hf)
  }

  function Texts(urls: seq<Url>): set<string>
  {
    set u | u in urls :: u.text
  }

  function Hosts(urls: seq<Url>): set<string>
  {
    set u | u in urls :: u.host
  }

  function MirrorHost(a: Args): HostConfig
  {
    HostConfig(None, None, None, None, map[], if a.resolveTags then ["pull", "resolve"] else ["pull"])
  }

  /** table with every mirror URL mapped to the mirror entry. */
  function Overlay(table: map<string, HostConfig>, mirrors: seq<Url>, entry: HostConfig): map<string, HostConfig>
  {
    map k | k in table.Keys + Texts(mirrors) :: if k in Texts(mirrors) then entry else table[k]
  }

  function WithMirrors(hf: HostFile, a: Args): HostFile
  {
    match hf.hosts
    case None => hf
    case Some(table) => HostFile(hf.server, Some(Overlay(table, a.mirrors, MirrorHost(a))))
  }

  /** The text written to <host>/hosts.toml, or why the run stops there. */
  function Render(codec: Codec, b: Option<Node>, a: Args, u: Url): Result<string, Failure>
  {
    match GetHostFile(codec, b, a.append, u)
    case Err(f) => Err(f)
    case Ok(hf) =>
      if hf.hosts.None? && a.mirrors != [] then Err(NilHostTable(u.host))
      else Ok(codec.marshal(WithMirrors(hf, a)))
  }

  /* ---------- The whole run, as a function ---------- */

  /** What happens to the directory before anything is written: moved under _backup once, if not empty. */
  function Backup(e: Entries): Entries
  {
    if BACKUP_DIR in e || e == map[] then e else map[BACKUP_DIR := Dir(e)]
  }

  /** Host to file text after the given registries, and whether the loop got through them. */
  function LiveAfter(codec: Codec, b: Option<Node>, a: Args, regs: seq<Url>): (map<string, string>, Outcome)
  {
    if regs == [] then (map[], Configured) else
    var u := regs[|regs| - 1];
    var (m, o) := LiveAfter(codec, b, a, regs[..|regs| - 1]);
    if o.Failed? then (m, o) else
    match Render(codec, b, a, u)
    case Err(f) => (m, Failed(f))
    case Ok(text) => (m[u.host := text], Configured)
  }

  function HostDir(text: string): Node
  {
    Dir(map[HOSTS_FILE := File(text)])
  }

  function LiveDirs(live: map<string, string>): Entries
  {
    map h | h in live :: HostDir(live[h])
  }

  function Assemble(b: Option<Node>, live: map<string, string>): Entries
  {
    LiveDirs(live) + (if b.Some? then map[BACKUP_DIR := b.value] else map[])
  }

  function EntriesOf(fs: Fs): Entries
  {
    if fs.Missing? then map[] else fs.entries
  }

  function Live(fs: Fs): Entries
  {
    EntriesOf(fs) - {BACKUP_DIR}
  }

  function Run(codec: Codec, fs: Fs, a: Args): (Fs, Outcome)
  {
    var errors := RegistryErrors(a.registries);
    if errors != [] then (fs, Failed(InvalidRegistries(errors))) else
    var b := BackupOf(Backup(EntriesOf(fs)));
    var (live, o) := LiveAfter(codec, b, a, a.registries);
    (Present(Assemble(b, live)), o)
  }

  function RunAll(codec: Codec, fs: Fs, runs: seq<Args>): Fs
  {
    if runs == [] then fs
    else Run(codec, RunAll(codec, fs, runs[..|runs| - 1]), runs[|runs| - 1]).0
  }

  /* ---------- A run that a failing file-system call cuts short ---------- */

  function Restrict(e: Entries, names: set<string>): Entries
  {
    map n | n in e && n in names :: e[n]
  }

  /** A backup pass stopped after moving only some names. */
  function Interrupted(e: Entries, moved: set<string>): Entries
  {
    (e - moved)[BACKUP_DIR := Dir(Restrict(e, moved))]
  }

  /** Where a run was cut short: before anything, in the backup pass, in the clearing, or while writing. */
  datatype Stop =
    | NotStarted
    | BeforeBackup
    | InBackup(moved: set<string>)
    | InClear(removed: set<string>)
    | InWrite(written: nat, partial: Option<Node>)

  /** What a run cut short there leaves behind; partial is whatever a host being written was left as. */
  function Halted(codec: Codec, fs: Fs, a: Args, stop: Stop): Fs
  {
    if RegistryErrors(a.registries) != [] then fs else
    var e := EntriesOf(fs);
    var b := BackupOf(Backup(e));
    match stop
    case NotStarted => fs
    case BeforeBackup => Present(e)
    case InBackup(moved) => Present(if BACKUP_DIR in e || e == map[] then e else Interrupted(e, moved))
    case InClear(removed) => Present(Backup(e) - (removed - {BACKUP_DIR}))
    case InWrite(n, partial) =>
      var dir := Assemble(b, LiveAfter(codec, b, a, if n < |a.registries| then a.registries[..n] else a.registries).0);
      if n < |a.registries| && a.registries[n].host != BACKUP_DIR && partial.Some?
      then Present(dir[a.registries[n].host := partial.value]) else Present(dir)
  }

  /* ---------- The code ---------- */

  class ConfigDir {
    var fs: Fs
    /** How many more file-system calls succeed before one fails; None if none fails. */
    var allowance: Option<nat>
    /** What a failing write leaves of a file. */
    const torn: string

    constructor (fs: Fs, allowance: Option<nat>, torn: string)
      ensures this.fs == fs && this.allowance == allowance && this.torn == torn
    {
      this.fs, this.allowance, this.torn := fs, allowance, torn;
    }

    /** Whether the next file-system call succeeds. */
    method Call() returns (ok: bool)
      modifies this`allowance
      ensures old(allowance).None? ==> ok && allowance.None?
    {
      if allowance == Some(0) {
        return false;
      }
      if allowance.Some? {
        allowance := Some(allowance.value - 1);
      }
      ok := true;
    }

    method BackupConfig() returns (ok: bool, ghost stop: Stop)
      requires fs.Present?
      modifies this
      ensures old(allowance).None? ==> ok && allowance.None?
      ensures ok ==> fs == Present(Backup(old(fs).entries))
      ensures !ok ==> (stop == BeforeBackup && fs == old(fs)) ||
                      (stop.InBackup? && BACKUP_DIR !in old(fs).entries && old(fs).entries != map[] &&
                       fs == Present(Interrupted(old(fs).entries, stop.moved)))
    {
      ghost var e := fs.entries;
      stop := BeforeBackup;
      ok := Call();
      if !ok || BACKUP_DIR in fs.entries {
        return;
      }
      ok := Call();
      if !ok || fs.entries == map[] {
        return;
      }
      var files := fs.entries.Keys;
      ok := Call();
      if !ok {
        return;
      }
      fs := Present(fs.entries[BACKUP_DIR := Dir(map[])]);
      var todo := files;
      assert Interrupted(e, e.Keys - todo) == fs.entries;
      while todo != {}
        invariant todo <= files == e.Keys
        invariant BACKUP_DIR !in files
        invariant old(allowance).None? ==> allowance.None?
        invariant fs == Present(Interrupted(e, e.Keys - todo))
      {
        var name :| name in todo;
        ok := Call();
        if !ok {
          stop := InBackup(e.Keys - todo);
          return;
        }
        // Rename(configPath/name, backupDir/name)
        RenameStep(e, todo, name);
        var moved := fs.entries[BACKUP_DIR].entries[name := fs.entries[name]];
        fs := Present((fs.entries - {name})[BACKUP_DIR := Dir(moved)]);
        todo := todo - {name};
      }
      assert Restrict(e, e.Keys - todo) == e;
      assert fs.entries == map[BACKUP_DIR := Dir(e)];
      ok := true;
    }

    method ClearConfig() returns (ok: bool, ghost removed: set<string>)
      requires fs.Present?
      modifies this
      ensures old(allowance).None? ==> ok && allowance.None?
      ensures ok ==> fs == Present(Assemble(BackupOf(old(fs).entries), map[]))
      ensures !ok ==> fs == Present(old(fs).entries - (removed - {BACKUP_DIR}))
    {
      ghost var e := fs.entries;
      removed := {};
      ok := Call();
      if !ok {
        return;
      }
      var todo := fs.entries.Keys;
      while todo != {}
        invariant todo <= e.Keys
        invariant old(allowance).None? ==> allowance.None?
        invariant removed == e.Keys - todo
        invariant fs == Present(e - (removed - {BACKUP_DIR}))
      {
        var name :| name in todo;
        if name == BACKUP_DIR {
          todo, removed := todo - {name}, removed + {name};
          continue;
        }
        ok := Call();
        if !ok {
          return;
        }
        assert (e - (removed - {BACKUP_DIR})) - {name} == e - (removed + {name} - {BACKUP_DIR});
        fs := Present(fs.entries - {name});
        todo, removed := todo - {name}, removed + {name};
      }
      assert fs.entries == Assemble(BackupOf(e), map[]);
      ok := true;
    }

    /** MkdirAll of the host's directory, then WriteFile of its hosts.toml. */
    method WriteHost(host: string, text: string) returns (ok: bool, ghost partial: Option<Node>)
      requires fs.Present? && host != BACKUP_DIR
      requires host in fs.entries ==> fs.entries[host].Dir? && fs.entries[host].entries.Keys == {HOSTS_FILE}
      modifies this
      ensures old(allowance).None? ==> ok && allowance.None?
      ensures ok ==> fs == Present(old(fs).entries[host := HostDir(text)])
      ensures !ok ==> fs == if partial.None? then old(fs) else Present(old(fs).entries[host := partial.value])
    {
      partial := None;
      ok := Call();
      if !ok {
        return;
      }
      if host !in fs.entries {
        fs := Present(fs.entries[host := Dir(map[])]);
      }
      ok := Call();
      ghost var before := fs.entries;
      var files := fs.entries[host].entries[HOSTS_FILE := File(if ok then text else torn)];
      assert files == map[HOSTS_FILE := File(if ok then text else torn)];
      fs := Present(fs.entries[host := Dir(files)]);
      assert fs.entries == old(fs).entries[host := Dir(files)];
      partial := Some(Dir(files));
    }

    /**
     The outcome and directory are those of the run, or a file-system call failed and the directory is what
     a run cut short at some point leaves.
     */
    method AddMirrorConfiguration(codec: Codec, a: Args) returns (o: Outcome, ghost stop: Stop)
      requires PlainHosts(a)
      modifies this
      ensures o != Failed(FileSystem) ==> (fs, o) == Run(codec, old(fs), a)
      ensures o == Failed(FileSystem) ==> fs == Halted(codec, old(fs), a, stop)
      ensures old(allowance).None? ==> o != Failed(FileSystem)
    {
      stop := NotStarted;
      var errors := ValidateRegistries(a.registries);
      if errors != [] {
        o := Failed(InvalidRegistries(errors));
        return;
      }
      var ok := Call();
      if !ok {
        o := Failed(FileSystem);
        return;
      }
      if fs.Missing? {
        fs := Present(map[]);
      }
      ok, stop := BackupConfig();
      if !ok {
        o := Failed(FileSystem);
        return;
      }
      ghost var b := BackupOf(fs.entries);
      ghost var removed;
      ok, removed := ClearConfig();
      if !ok {
        o, stop := Failed(FileSystem), InClear(removed);
        return;
      }
      ghost var n, partial;
      o, n, partial := WriteHosts(codec, a, b);
      stop := InWrite(n, partial);
    }

    /** The loop over the registries, from a cleared directory. */
    method WriteHosts(codec: Codec, a: Args, ghost b: Option<Node>)
      returns (o: Outcome, ghost n: nat, ghost partial: Option<Node>)
      requires PlainHosts(a)
      requires fs == Present(Assemble(b, map[]))
      modifies this
      ensures old(allowance).None? ==> o != Failed(FileSystem)
      ensures o != Failed(FileSystem) ==>
                && fs == Present(Assemble(b, LiveAfter(codec, b, a, a.registries).0))
                && o == LiveAfter(codec, b, a, a.registries).1
      ensures o == Failed(FileSystem) ==>
                n < |a.registries| &&
                var dir := Assemble(b, LiveAfter(codec, b, a, a.registries[..n]).0);
                fs == Present(if partial.Some? then dir[a.registries[n].host := partial.value] else dir)
    {
      ghost var live: map<string, string> := map[];
      n, partial := 0, None;
      for i := 0 to |a.registries|
        invariant fs == Present(Assemble(b, live))
        invariant BACKUP_DIR !in live
        invariant old(allowance).None? ==> allowance.None?
        invariant (live, Configured) == LiveAfter(codec, b, a, a.registries[..i])
      {
        n := i;
        o, live, partial := WriteOne(codec, a, i, b, live);
        if o.Failed? {
          if o.why != FileSystem {
            FailureStops(codec, b, a, i + 1);
          }
          return;
        }
      }
      assert a.registries[..|a.registries|] == a.registries;
      o := Configured;
    }

    /** One registry of the loop, after those that gave live. */
    method WriteOne(codec: Codec, a: Args, i: nat, ghost b: Option<Node>, ghost live: map<string, string>)
      returns (o: Outcome, ghost live': map<string, string>, ghost partial: Option<Node>)
      requires PlainHosts(a) && i < |a.registries|
      requires fs == Present(Assemble(b, live)) && BACKUP_DIR !in live
      requires (live, Configured) == LiveAfter(codec, b, a, a.registries[..i])
      modifies this
      ensures old(allowance).None? ==> allowance.None? && o != Failed(FileSystem)
      ensures BACKUP_DIR !in live'
      ensures o != Failed(FileSystem) ==>
                fs == Present(Assemble(b, live')) && LiveAfter(codec, b, a, a.registries[..i + 1]) == (live', o)
      ensures o == Failed(FileSystem) ==>
                fs == Present(if partial.Some? then Assemble(b, live)[a.registries[i].host := partial.value]
                              else Assemble(b, live))
    {
      var u := a.registries[i];
      BackupOfAssemble(b, live);
      live', partial := live, None;
      var ok := true;
      if a.append {
        ok := Call();
      }
      if !ok {
        o := Failed(FileSystem);
        return;
      }
      var text := RenderHost(codec, a, u);
      StepOf(codec, b, a, i, live);
      if text.Err? {
        RenderErrors(codec, b, a, u);
        o := Failed(text.error);
        return;
      }
      AssembleAt(b, live, u.host, text.value);
      ok, partial := WriteHost(u.host, text.value);
      if !ok {
        o := Failed(FileSystem);
        return;
      }
      live' := live[u.host := text.value];
      o := Configured;
    }

    /** The body of the write loop up to the file write: getHostFile, the mirror assignments, Marshal. */
    method RenderHost(codec: Codec, a: Args, u: Url) returns (text: Result<string, Failure>)
      requires fs.Present?
      ensures text == Render(codec, BackupOf(fs.entries), a, u)
    {
      var got := GetHostFile(codec, BackupOf(fs.entries), a.append, u);
      if got.Err? {
        return Err(got.error);
      }
      var hf := got.value;
      if hf.hosts.Some? {
        assert Overlay(hf.hosts.value, a.mirrors[..0], MirrorHost(a)) == hf.hosts.value;
      }
      for i := 0 to |a.mirrors|
        invariant hf == WithMirrors(got.value, a.(mirrors := a.mirrors[..i]))
        invariant i > 0 ==> hf.hosts.Some?
      {
        if hf.hosts.None? {
          return Err(NilHostTable(u.host));
        }
        hf := HostFile(hf.server, Some(hf.hosts.value[a.mirrors[i].text := MirrorHost(a)]));
        OverlayStep(got.value.hosts.value, a.mirrors, i, MirrorHost(a));
      }
      assert a.mirrors[..|a.mirrors|] == a.mirrors;
      text := Ok(codec.marshal(hf));
    }
  }

  /** Rendering never reports a failed call; the backup it reads is there or it is not. */
  lemma RenderErrors(codec: Codec, b: Option<Node>, a: Args, u: Url)
    ensures Render(codec, b, a, u) != Err(FileSystem)
  {
  }

  /** One rename of the backup pass, from one interrupted state to the next. */
  lemma RenameStep(e: Entries, todo: set<string>, name: string)
    requires name in todo && todo <= e.Keys && BACKUP_DIR !in e
    ensures var before := Interrupted(e, e.Keys - todo);
            && name in before && BACKUP_DIR in before && before[BACKUP_DIR].Dir?
            && (before - {name})[BACKUP_DIR := Dir(before[BACKUP_DIR].entries[name := before[name]])] ==
               Interrupted(e, e.Keys - (todo - {name}))
  {
    var before := Interrupted(e, e.Keys - todo);
    var moved := before[BACKUP_DIR].entries[name := before[name]];
    assert moved == Restrict(e, e.Keys - (todo - {name}));
    assert (before - {name})[BACKUP_DIR := Dir(moved)] == Interrupted(e, e.Keys - (todo - {name}));
  }

  lemma BackupOfAssemble(b: Option<Node>, live: map<string, string>)
    requires BACKUP_DIR !in live
    ensures BackupOf(Assemble(b, live)) == b
    ensures Assemble(b, live) - {BACKUP_DIR} == LiveDirs(live)
  {
  }

  lemma AssembleAt(b: Option<Node>, live: map<string, string>, host: string, text: string)
    requires host != BACKUP_DIR && BACKUP_DIR !in live
    ensures host in Assemble(b, live) ==>
              Assemble(b, live)[host].Dir? && Assemble(b, live)[host].entries.Keys == {HOSTS_FILE}
    ensures Assemble(b, live)[host := HostDir(text)] == Assemble(b, live[host := text])
  {
    var before, after := Assemble(b, live)[host := HostDir(text)], Assemble(b, live[host := text]);
    assert before.Keys == after.Keys;
    forall h | h in before
      ensures before[h] == after[h]
    {
      assert h == host || h == BACKUP_DIR || h in live;
    }
  }

  lemma OverlayStep(table: map<string, HostConfig>, mirrors: seq<Url>, i: nat, entry: HostConfig)
    requires i < |mirrors|
    ensures Overlay(table, mirrors[..i], entry)[mirrors[i].text := entry] == Overlay(table, mirrors[..i + 1], entry)
  {
    assert mirrors[..i + 1] == mirrors[..i] + [mirrors[i]];
    assert Texts(mirrors[..i + 1]) == Texts(mirrors[..i]) + {mirrors[i].text};
  }

  lemma StepOf(codec: Codec, b: Option<Node>, a: Args, i: nat, live: map<string, string>)
    requires i < |a.registries|
    requires (live, Configured) == LiveAfter(codec, b, a, a.registries[..i])
    ensures LiveAfter(codec, b, a, a.registries[..i + 1]) ==
            match Render(codec, b, a, a.registries[i])
            case Err(f) => (live, Failed(f))
            case Ok(text) => (live[a.registries[i].host := text], Configured)
  {
    assert a.registries[..i + 1][..i] == a.registries[..i];
  }

  lemma {:induction false} FailureStops(codec: Codec, b: Option<Node>, a: Args, i: nat)
    requires i <= |a.registries|
    requires LiveAfter(codec, b, a, a.registries[..i]).1.Failed?
    ensures LiveAfter(codec, b, a, a.registries) == LiveAfter(codec, b, a, a.registries[..i])
    decreases |a.registries| - i
  {
    if i == |a.registries| {
      assert a.registries[..i] == a.registries;
    } else {
      assert a.registries[..i + 1][..i] == a.registries[..i];
      FailureStops(codec, b, a, i + 1);
    }
  }
}
