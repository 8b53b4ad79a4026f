/** Sequences of configuration runs of which any may be cut short, by a failing file-system call or a crash. */
module MirrorConfigFaults {
  import opened Prelude
  import opened MirrorConfig
  import opened MirrorConfigRuns

  /** A run that got through, to whatever outcome, or one that was cut short. */
  datatype Step = Whole(args: Args) | Cut(args: Args, stop: Stop)

  function After(codec: Codec, fs: Fs, step: Step): Fs
  {
    match step
    case Whole(a) => Run(codec, fs, a).0
    case Cut(a, stop) => Halted(codec, fs, a, stop)
  }

  function AfterAll(codec: Codec, fs: Fs, steps: seq<Step>): Fs
    decreases |steps|
  {
    if steps == [] then fs else AfterAll(codec, After(codec, fs, steps[0]), steps[1..])
  }

  ghost predicate PlainSteps(steps: seq<Step>)
  {
    forall i :: 0 <= i < |steps| ==> PlainHosts(steps[i].args)
  }

  /** The step goes as far as the backup pass. */
  predicate BacksUp(step: Step)
  {
    ValidArgs(step.args) && (step.Cut? ==> !step.stop.NotStarted? && !step.stop.BeforeBackup?)
  }

  /** The names a step that backs up a directory moves there. */
  function Moves(e: Entries, step: Step): set<string>
  {
    if step.Cut? && step.stop.InBackup? then step.stop.moved else e.Keys
  }

  /**
   The backup that a non-empty directory ends up with, by the steps alone: the one it has, or what the first
   step to back it up moves, or all of it if there is none such yet.
   */
  function Origin(e: Entries, steps: seq<Step>): Node
    decreases |steps|
  {
    if BACKUP_DIR in e then e[BACKUP_DIR]
    else if steps == [] then Dir(e)
    else if BacksUp(steps[0]) then Dir(Restrict(e, Moves(e, steps[0])))
    else Origin(e, steps[1..])
  }

  lemma RestrictAll(e: Entries)
    ensures Restrict(e, e.Keys) == e
  {
  }

  /** One step: it leaves the entries as they were, or with the backup that the directory has or gets from it. */
  lemma StepBackup(codec: Codec, fs: Fs, step: Step)
    requires PlainHosts(step.args) && EntriesOf(fs) != map[]
    ensures var e, after := EntriesOf(fs), EntriesOf(After(codec, fs, step));
            if BACKUP_DIR in e then BACKUP_DIR in after && after[BACKUP_DIR] == e[BACKUP_DIR]
            else if BacksUp(step) then BACKUP_DIR in after && after[BACKUP_DIR] == Dir(Restrict(e, Moves(e, step)))
            else after == e
  {
    var e, a := EntriesOf(fs), step.args;
    NoErrorsIffValid(a.registries);
    RestrictAll(e);
    if ValidArgs(a) {
      match step
      case Whole(_) => RunOf(codec, fs, a);
      case Cut(_, InWrite(n, partial)) => WriteKeepsBackup(codec, BackupOf(Backup(e)), a, n);
      case _ =>
    }
  }

  lemma WriteKeepsBackup(codec: Codec, b: Option<Node>, a: Args, n: nat)
    requires PlainHosts(a)
    ensures var regs := if n < |a.registries| then a.registries[..n] else a.registries;
            BackupOf(Assemble(b, LiveAfter(codec, b, a, regs).0)) == b
  {
    var regs := if n < |a.registries| then a.registries[..n] else a.registries;
    LiveFiles(codec, b, a, regs);
    assert forall u :: u in regs ==> u in a.registries;
    BackupOfAssemble(b, LiveAfter(codec, b, a, regs).0);
  }

  /** After any steps on a non-empty directory, the next run that gets so far reads from the backup so decided. */
  lemma {:induction false} NonEmptyIsDecided(codec: Codec, fs: Fs, steps: seq<Step>)
    requires PlainSteps(steps) && EntriesOf(fs) != map[]
    ensures EntriesOf(AfterAll(codec, fs, steps)) != map[]
    ensures BackupOf(Backup(EntriesOf(AfterAll(codec, fs, steps)))) == Some(Origin(EntriesOf(fs), steps))
    decreases |steps|
  {
    if steps != [] {
      assert PlainHosts(steps[0].args);
      StepBackup(codec, fs, steps[0]);
      NonEmptyIsDecided(codec, After(codec, fs, steps[0]), steps[1..]);
    }
  }

  /* From an empty directory: the first step to leave anything behind is what gets backed up. */

  /** What a step leaves in an empty directory. */
  function Leaves(codec: Codec, step: Step): Entries
  {
    EntriesOf(After(codec, Missing, step))
  }

  lemma LeavesInEmpty(codec: Codec, fs: Fs, step: Step)
    requires EntriesOf(fs) == map[]
    ensures EntriesOf(After(codec, fs, step)) == Leaves(codec, step)
  {
  }

  /** The backup that later runs read from, by the steps and what was there at first; None if still nothing is. */
  function Decided(codec: Codec, e: Entries, steps: seq<Step>): Option<Node>
    decreases |steps|
  {
    if e != map[] then Some(Origin(e, steps))
    else if steps == [] then None
    else Decided(codec, Leaves(codec, steps[0]), steps[1..])
  }

  /** After any steps on any directory, the next run that gets so far reads from the backup so decided. */
  lemma {:induction false} BackupIsDecided(codec: Codec, fs: Fs, steps: seq<Step>)
    requires PlainSteps(steps)
    ensures BackupOf(Backup(EntriesOf(AfterAll(codec, fs, steps)))) == Decided(codec, EntriesOf(fs), steps)
    decreases |steps|
  {
    if EntriesOf(fs) != map[] {
      NonEmptyIsDecided(codec, fs, steps);
    } else if steps != [] {
      LeavesInEmpty(codec, fs, steps[0]);
      BackupIsDecided(codec, After(codec, fs, steps[0]), steps[1..]);
    }
  }

  /** The directory with that backup and nothing else. */
  function OnlyBackup(b: Option<Node>): Fs
  {
    Present(match b case None => map[] case Some(node) => map[BACKUP_DIR := node])
  }

  /**
   History with failures: from any directory, after any runs, whole or cut short anywhere, the live files and
   the outcome of a last whole run are those of that run alone on the backup so decided.
   */
  lemma HistoryWithFailures(codec: Codec, fs: Fs, steps: seq<Step>, last: Args)
    requires PlainSteps(steps) && PlainHosts(last) && ValidArgs(last)
    ensures var alone := Run(codec, OnlyBackup(Decided(codec, EntriesOf(fs), steps)), last);
            var after := Run(codec, AfterAll(codec, fs, steps), last);
            Live(after.0) == Live(alone.0) && after.1 == alone.1
  {
    BackupIsDecided(codec, fs, steps);
    SameBackupSameRun(codec, AfterAll(codec, fs, steps), OnlyBackup(Decided(codec, EntriesOf(fs), steps)), last);
  }

  /** A last whole run succeeds exactly if every one of its registries renders from the backup so decided. */
  lemma SucceedsIff(codec: Codec, fs: Fs, steps: seq<Step>, last: Args)
    requires PlainSteps(steps) && PlainHosts(last) && ValidArgs(last)
    ensures Run(codec, AfterAll(codec, fs, steps), last).1 == Configured <==>
            forall u :: u in last.registries ==> Render(codec, Decided(codec, EntriesOf(fs), steps), last, u).Ok?
  {
    BackupIsDecided(codec, fs, steps);
    RunOf(codec, AfterAll(codec, fs, steps), last);
    LiveFiles(codec, Decided(codec, EntriesOf(fs), steps), last, last.registries);
  }

  ghost predicate AllWhole(steps: seq<Step>)
  {
    forall i :: 0 <= i < |steps| ==> steps[i].Whole?
  }

  lemma {:induction false} WholeKeepsAll(e: Entries, steps: seq<Step>)
    requires AllWhole(steps) && BACKUP_DIR !in e
    ensures Origin(e, steps) == Dir(e)
    decreases |steps|
  {
    RestrictAll(e);
    if steps != [] && !BacksUp(steps[0]) {
      assert steps[0].Whole?;
      WholeKeepsAll(e, steps[1..]);
    }
  }

  lemma TornLeaves(codec: Codec, first: Args, torn: string)
    requires PlainHosts(first) && ValidArgs(first) && first.registries != []
    ensures Leaves(codec, Cut(first, InWrite(0, Some(HostDir(torn))))) == map[first.registries[0].host := HostDir(torn)]
  {
    NoErrorsIffValid(first.registries);
    assert first.registries[..0] == [] && first.registries[0] in first.registries;
    NothingAssembled();
    assert LiveAfter(codec, None, first, []).0 == map[];
  }

  lemma NothingAssembled()
    ensures Assemble(None, map[]) == map[]
  {
    var none: map<string, string> := map[];
    assert LiveDirs(none).Keys == {};
  }

  /**
   Concretely: a first run cut while it writes its first file leaves a torn one. The next run backs that up,
   and from then on, whatever whole runs come, every appending run for that host fails.
   */
  lemma TornFileIsForEver(codec: Codec, first: Args, torn: string, steps: seq<Step>, last: Args)
    requires PlainHosts(first) && ValidArgs(first) && first.registries != []
    requires PlainSteps(steps) && AllWhole(steps)
    requires PlainHosts(last) && ValidArgs(last) && last.append && first.registries[0].host in Hosts(last.registries)
    requires codec.unmarshal(torn) == None
    ensures var cut := Cut(first, InWrite(0, Some(HostDir(torn))));
            Run(codec, AfterAll(codec, Missing, [cut] + steps), last).1.Failed?
  {
    var cut, host := Cut(first, InWrite(0, Some(HostDir(torn)))), first.registries[0].host;
    var all := [cut] + steps;
    var e: Entries := map[host := HostDir(torn)];
    assert all[0] == cut && all[1..] == steps;
    TornLeaves(codec, first, torn);
    WholeKeepsAll(e, steps);
    assert host in e;
    assert Decided(codec, e, steps) == Some(Dir(e));
    assert Decided(codec, EntriesOf(Missing), all) == Decided(codec, e, steps);
    SucceedsIff(codec, Missing, all, last);
    var u :| u in last.registries && u.host == host;
    assert Render(codec, Some(Dir(e)), last, u) == Err(BackupMalformed(host));
  }

  /** Without append no failure anywhere, in whatever directory, shows in the files of a later whole run. */
  lemma OverwritingForgetsFailures(codec: Codec, fs: Fs, steps: seq<Step>, last: Args)
    requires PlainHosts(last) && ValidArgs(last) && !last.append
    ensures Live(Run(codec, AfterAll(codec, fs, steps), last).0) == Live(Run(codec, fs, last).0)
    ensures Run(codec, AfterAll(codec, fs, steps), last).1 == Run(codec, fs, last).1
  {
    var after := AfterAll(codec, fs, steps);
    RunOf(codec, after, last);
    RunOf(codec, fs, last);
    BackupIrrelevantWithoutAppend(codec, BackupOf(Backup(EntriesOf(after))), BackupOf(Backup(EntriesOf(fs))), last,
        last.registries);
  }

  /** The step, if any, that backs the directory up was cut in its backup pass with a name still unmoved. */
  predicate LosesNames(e: Entries, steps: seq<Step>)
    decreases |steps|
  {
    BACKUP_DIR !in e && steps != [] &&
    if BacksUp(steps[0]) then !(e.Keys <= Moves(e, steps[0])) else LosesNames(e, steps[1..])
  }

  lemma {:induction false} OriginIsWhole(e: Entries, steps: seq<Step>)
    requires BACKUP_DIR !in e
    ensures Origin(e, steps) == Dir(e) <==> !LosesNames(e, steps)
    decreases |steps|
  {
    if steps != [] {
      if BacksUp(steps[0]) {
        var kept := Restrict(e, Moves(e, steps[0]));
        assert kept.Keys == e.Keys * Moves(e, steps[0]);
        if e.Keys <= Moves(e, steps[0]) {
          assert kept == e;
        }
      } else {
        OriginIsWhole(e, steps[1..]);
      }
    }
  }

  /**
   Conservation with failures: from a non-empty directory without a backup, after any steps and a last valid
   whole run, every initial path and content is under _backup if and only if the first step to back the
   directory up was not cut with a name still unmoved.
   */
  lemma InitialFilesSurviveIff(codec: Codec, fs: Fs, steps: seq<Step>, last: Args)
    requires PlainSteps(steps) && PlainHosts(last) && ValidArgs(last)
    requires EntriesOf(fs) != map[] && BACKUP_DIR !in EntriesOf(fs)
    ensures BackupOf(EntriesOf(Run(codec, AfterAll(codec, fs, steps), last).0)) == Some(Dir(EntriesOf(fs))) <==>
            !LosesNames(EntriesOf(fs), steps)
  {
    NonEmptyIsDecided(codec, fs, steps);
    OneRunBackup(codec, AfterAll(codec, fs, steps), last);
    OriginIsWhole(EntriesOf(fs), steps);
  }

  /** And then history does not matter, failures included: live files and outcome are those of the last run alone. */
  lemma HistoryIndependenceWithFailures(codec: Codec, fs: Fs, steps: seq<Step>, last: Args)
    requires PlainSteps(steps) && PlainHosts(last) && ValidArgs(last)
    requires EntriesOf(fs) != map[] && !LosesNames(EntriesOf(fs), steps)
    ensures Live(Run(codec, AfterAll(codec, fs, steps), last).0) == Live(Run(codec, fs, last).0)
    ensures Run(codec, AfterAll(codec, fs, steps), last).1 == Run(codec, fs, last).1
  {
    NonEmptyIsDecided(codec, fs, steps);
    if BACKUP_DIR !in EntriesOf(fs) {
      OriginIsWhole(EntriesOf(fs), steps);
    }
    SameBackupSameRun(codec, AfterAll(codec, fs, steps), fs, last);
  }
}
