// Where the guarantees of the sync end: the one way a restore can destroy a save and the
// one way an unattended sync can replace what the server does not have, exactly when they
// do, and runs that show it.

module SyncLimits {
  import opened Common
  import opened SyncTypes
  import opened SyncMachine
  import opened SyncSafety
  import opened SyncConvergence

  // The rest of a call whose every step is answered: the task a console is in, by its rank,
  // picks the answer. No task comes twice, so these are all ways the calls can be answered.
  function Answered(cfg: Config, c: Console, h: History, answers: nat -> Outcome): (Console, History)
    decreases Rank(c.task)
  {
    if c.task.Idle? then (c, h)
    else
      CallsDecreaseRank(cfg, c, h, answers(Rank(c.task)));
      var (c', h') := Act(cfg, c, h, answers(Rank(c.task)));
      Answered(cfg, c', h', answers)
  }

  // The restore gets past the running check and the question.
  predicate Begins(job: Job, answers: nat -> Outcome) {
    answers(Rank(CheckingRunning(job))).ok && (job.agreed || answers(Rank(ConfirmingRestore(job))).yes)
  }

  predicate SaysNotFound(o: Outcome) { !o.ok && o.err == NotFound }

  // The backup of an archive with contents p ends without this payload being written, and
  // the restore goes on: some call said NOT_FOUND, or another file has the backup's name.
  predicate BackupPassedOver(cfg: Config, c: Console, p: Payload, job: Job, answers: nat -> Outcome) {
    var (opening, packing, renaming) := (answers(Rank(BackupOpening(job))), answers(Rank(BackupPacking(job))), answers(Rank(BackupRenaming(job))));
    || SaysNotFound(opening)
    || (opening.ok && p != map[] &&
        (BackupName(cfg, p) in c.backups || SaysNotFound(packing) || (packing.ok && SaysNotFound(renaming))))
  }

  // The backup of an archive with contents p is written.
  predicate BackupWritten(cfg: Config, c: Console, p: Payload, job: Job, answers: nat -> Outcome) {
    && answers(Rank(BackupOpening(job))).ok && p != map[] && BackupName(cfg, p) !in c.backups
    && answers(Rank(BackupPacking(job))).ok && answers(Rank(BackupRenaming(job))).ok
  }

  // What the archive shows after the write stage.
  function SaveWritten(cfg: Config, save: Save, job: Job, answers: nat -> Outcome): Save {
    var (unpacking, committing) := (answers(Rank(Unpacking(job))), answers(Rank(Committing(job))));
    if !answers(Rank(Verifying(job))).ok || !Verified(job.package) || !answers(Rank(OpeningWrite(job))).ok then save
    else if !unpacking.ok then Residue(cfg, save, unpacking.partial)
    else if !committing.ok then AfterFailedCommit(cfg, save, job, committing)
    else Archive(job.package.payload)
  }

  // Nothing after the commit touches the save or the backups.
  lemma {:induction false} AnsweredEnd(cfg: Config, c: Console, h: History, answers: nat -> Outcome)
    requires Rank(c.task) <= 4
    ensures var (c', h') := Answered(cfg, c, h, answers);
      c'.save == c.save && c'.backups == c.backups && h' == h
    decreases Rank(c.task)
  {
    if !c.task.Idle? {
      CallsDecreaseRank(cfg, c, h, answers(Rank(c.task)));
      AnsweredEnd(cfg, Act(cfg, c, h, answers(Rank(c.task))).0, h, answers);
    }
  }

  lemma AnsweredWrite(cfg: Config, c: Console, h: History, answers: nat -> Outcome)
    requires c.task.Verifying?
    ensures var (c', h') := Answered(cfg, c, h, answers);
      c'.save == SaveWritten(cfg, c.save, c.task.job, answers) && c'.backups == c.backups && h' == h
  {
    var job := c.task.job;
    var c1 := ActWrite(cfg, c, answers(Rank(Verifying(job))));
    assert Answered(cfg, c, h, answers) == Answered(cfg, c1, h, answers);
    if c1.task.OpeningWrite? {
      var c2 := ActWrite(cfg, c1, answers(Rank(OpeningWrite(job))));
      assert Answered(cfg, c1, h, answers) == Answered(cfg, c2, h, answers);
      if c2.task.Unpacking? {
        var c3 := ActWrite(cfg, c2, answers(Rank(Unpacking(job))));
        assert Answered(cfg, c2, h, answers) == Answered(cfg, c3, h, answers);
        if c3.task.Committing? {
          var c4 := ActWrite(cfg, c3, answers(Rank(Committing(job))));
          assert Answered(cfg, c3, h, answers) == Answered(cfg, c4, h, answers);
          AnsweredEnd(cfg, c4, h, answers);
        }
      }
    }
  }

  // The backup stage adds the save under its free name, changes nothing, or ends the call.
  lemma AnsweredBackup(cfg: Config, c: Console, h: History, answers: nat -> Outcome) returns (c': Console)
    requires c.task.BackupOpening? && c.save.Archive?
    ensures Answered(cfg, c, h, answers) == Answered(cfg, c', h, answers)
    ensures c'.save == c.save && (c'.task == Verifying(c.task.job) || c'.task.Idle?)
    ensures BackupPassedOver(cfg, c, c.save.payload, c.task.job, answers) ==> c' == c.(task := Verifying(c.task.job))
    ensures !BackupPassedOver(cfg, c, c.save.payload, c.task.job, answers) ==>
      c'.task.Idle? || (BackupName(cfg, c.save.payload) !in c.backups && c'.backups == c.backups[BackupName(cfg, c.save.payload) := c.save.payload])
    ensures c'.task.Idle? ==> c'.backups == c.backups
    ensures c'.task.Verifying? <==>
      BackupPassedOver(cfg, c, c.save.payload, c.task.job, answers) || BackupWritten(cfg, c, c.save.payload, c.task.job, answers)
  {
    var job := c.task.job;
    c' := ActBackup(cfg, c, answers(Rank(BackupOpening(job))));
    if c'.task.BackupPacking? {
      var c1 := c';
      c' := ActBackup(cfg, c1, answers(Rank(BackupPacking(job))));
      assert Answered(cfg, c1, h, answers) == Answered(cfg, c', h, answers);
      if c'.task.BackupRenaming? {
        var c2 := c';
        c' := ActBackup(cfg, c2, answers(Rank(BackupRenaming(job))));
        assert Answered(cfg, c2, h, answers) == Answered(cfg, c', h, answers);
      }
    }
  }

  // The confirmation and the running check come before anything is touched.
  lemma AnsweredQuestion(cfg: Config, c: Console, h: History, answers: nat -> Outcome)
    requires c.task.CheckingRunning?
    ensures
      var job := c.task.job;
      if Begins(job, answers) then
        Answered(cfg, c, h, answers) == Answered(cfg, c.(task := BackupOpening(job.(agreed := true))), h, answers)
      else
        Answered(cfg, c, h, answers).0.(task := c.task) == c && Answered(cfg, c, h, answers).1 == h
  {
    hide ActScan, ActPack, ActPost, ActResolve, ActWrite, ActRecord, Verified;
    var job := c.task.job;
    var c1 := ActBackup(cfg, c, answers(Rank(CheckingRunning(job))));
    assert Answered(cfg, c, h, answers) == Answered(cfg, c1, h, answers);
    if c1.task.ConfirmingRestore? {
      var c2 := ActBackup(cfg, c1, answers(Rank(ConfirmingRestore(job))));
      assert Answered(cfg, c1, h, answers) == Answered(cfg, c2, h, answers);
    } else if c1.task.BackupOpening? {
      assert job.(agreed := true) == job;
    }
  }

  // A restore, started by a sync or by a person, with or without a record to write and
  // with any answer to any of its calls: the old save is gone afterwards exactly when the
  // server does not have it, no backup holds it, the backup was passed over, and the
  // archive was written. Nothing is assumed about digests or answers here.
  lemma RestoreLosesExactlyWhen(cfg: Config, c: Console, h: History, answers: nat -> Outcome)
    requires c.task.CheckingRunning? && c.save.Archive?
    ensures
      var p, job := c.save.payload, c.task.job;
      var (c', h') := Answered(cfg, c, h, answers);
      && h' == h
      && (!Survives(cfg, c', h', p) <==>
          && Begins(job, answers) && p !in h && !BackedUp(cfg, c, p)
          && BackupPassedOver(cfg, c, p, job, answers)
          && SaveWritten(cfg, c.save, job, answers) != c.save)
  {
    hide Act, Begins, Answered, SaveWritten, BackupPassedOver;
    AnsweredQuestion(cfg, c, h, answers);
    if Begins(c.task.job, answers) {
      var agreed := c.task.job.(agreed := true);
      SameAnswers(cfg, c, c.task.job, answers);
      var c' := AnsweredBackup(cfg, c.(task := BackupOpening(agreed)), h, answers);
      if c'.task.Verifying? {
        AnsweredWrite(cfg, c', h, answers);
      } else {
        AnsweredEnd(cfg, c', h, answers);
      }
    }
  }

  // Having agreed changes nothing about which answers a restore gets.
  lemma SameAnswers(cfg: Config, c: Console, job: Job, answers: nat -> Outcome)
    requires c.save.Archive?
    ensures
      var agreed := job.(agreed := true);
      && (BackupPassedOver(cfg, c.(task := BackupOpening(agreed)), c.save.payload, agreed, answers)
          <==> BackupPassedOver(cfg, c, c.save.payload, job, answers))
      && SaveWritten(cfg, c.save, agreed, answers) == SaveWritten(cfg, c.save, job, answers)
  {
    hide Verified, Residue, BackupName, SaysNotFound;
  }

  // ---------------------------------------------------------------- unattended syncs

  // Reading the state file succeeds, and opening the archive says that there is none.
  predicate Overlooks(answers: nat -> Outcome) {
    var opts := AutosyncOpts();
    && answers(Rank(Starting(opts))).ok && answers(Rank(LoadingState(opts))).ok
    && SaysNotFound(answers(Rank(OpeningSave(opts, None))))
  }

  // What the scan then told, and the download it leads to.
  function Overlooked(c: Console, h: History): Context {
    Context(AutosyncOpts(), ScanOf(Absent, c.state), Latest(h))
  }

  function DownloadJob(c: Console, h: History, answers: nat -> Outcome): Job {
    var remote := Latest(h);
    Job(AutosyncOpts(), answers(Rank(Fetching(Overlooked(c, h)))).package,
        if remote.Remote? then Some(Base(remote.version, remote.digest)) else None, true)
  }

  // The server has a version and delivers it.
  predicate Delivers(c: Console, h: History, answers: nat -> Outcome) {
    var x := Overlooked(c, h);
    && answers(Rank(GettingLatest(x.opts, x.local))).ok && x.remote.Remote?
    && answers(Rank(Fetching(x))).ok && answers(Rank(Fetching(x))).package.claimed == x.remote.digest
  }

  // Tasks from which an unattended sync does not come to a download any more.
  predicate PastDownloads(t: Task) {
    match t
    case Idle(_) | WritingState(_) | Unlinking(_) | Renaming(_) => true
    case Packing(x, _, _) => x.opts.conflict.Defer?
    case Posting(x, _, _, _) => x.opts.conflict.Defer?
    case Rereading(x) => x.opts.conflict.Defer?
    case _ => false
  }

  lemma PastDownloadsStep(cfg: Config, c: Console, h: History, o: Outcome)
    requires PastDownloads(c.task)
    ensures Act(cfg, c, h, o).0.save == c.save && PastDownloads(Act(cfg, c, h, o).0.task)
  {
  }

  lemma {:induction false} AnsweredPastDownloads(cfg: Config, c: Console, h: History, answers: nat -> Outcome)
    requires PastDownloads(c.task)
    ensures Answered(cfg, c, h, answers).0.save == c.save
    decreases Rank(c.task)
  {
    hide Act, PastDownloads;
    if !c.task.Idle? {
      var o := answers(Rank(c.task));
      CallsDecreaseRank(cfg, c, h, o);
      PastDownloadsStep(cfg, c, h, o);
      AnsweredPastDownloads(cfg, Act(cfg, c, h, o).0, Act(cfg, c, h, o).1, answers);
    }
  }

  // Deciding on what a scan told: only an overlooked archive whose contents the server does
  // not hold comes to a download.
  lemma AutosyncDispatch(c: Console, h: History, local: LocalState)
    requires c.save.Archive? && c.save.payload !in h && StateTrue(c.state, h) && ScanTrue(c, local)
    ensures
      var x := Context(AutosyncOpts(), local, Latest(h));
      var d := Dispatch(c, x);
      && d == c.(task := d.task)
      && if local == ScanOf(Absent, c.state) && h != [] then d.task == Fetching(x) else PastDownloads(d.task)
  {
    if local == ScanOf(c.save, c.state) && Decide(local, Latest(h)) == Download {
      DownloadReplacesServerVersion(c.save, c.state, Latest(h), h);
    }
  }

  // The scan, up to the question to the server.
  lemma AnsweredLook(cfg: Config, c: Console, h: History, answers: nat -> Outcome) returns (c': Console)
    requires c.task.Starting?
    ensures Answered(cfg, c, h, answers) == Answered(cfg, c', h, answers) && c' == c.(task := c'.task)
    ensures c'.task.Idle? || (c'.task.GettingLatest? && c'.task.opts == c.task.opts)
    ensures c'.task.GettingLatest? ==> c'.task.local == if Overlooks(answers) then ScanOf(Absent, c.state) else ScanOf(c.save, c.state)
    ensures Overlooks(answers) ==> c'.task.GettingLatest?
  {
    hide Dispatch, ScanOf, ActPack, ActPost, ActResolve, ActBackup, ActWrite, ActRecord;
    c' := ActScan(c, h, answers(Rank(c.task)));
    assert Answered(cfg, c, h, answers) == Answered(cfg, c', h, answers);
    if c'.task.Idle? { return; }
    var c1 := c';
    c' := ActScan(c1, h, answers(Rank(c1.task)));
    assert Answered(cfg, c1, h, answers) == Answered(cfg, c', h, answers);
    if c'.task.Idle? { return; }
    var c2 := c';
    c' := ActScan(c2, h, answers(Rank(c2.task)));
    assert Answered(cfg, c2, h, answers) == Answered(cfg, c', h, answers);
    if c'.task.Hashing? {
      var c3 := c';
      c' := ActScan(c3, h, answers(Rank(c3.task)));
      assert Answered(cfg, c3, h, answers) == Answered(cfg, c', h, answers);
    }
  }

  lemma AnsweredScan(cfg: Config, c: Console, h: History, answers: nat -> Outcome) returns (c': Console)
    requires c.task == Starting(AutosyncOpts()) && c.save.Archive? && c.save.payload !in h && StateTrue(c.state, h)
    ensures Answered(cfg, c, h, answers) == Answered(cfg, c', h, answers) && c' == c.(task := c'.task)
    ensures
      var x := Overlooked(c, h);
      if Overlooks(answers) && h != [] && answers(Rank(GettingLatest(x.opts, x.local))).ok then c'.task == Fetching(x)
      else PastDownloads(c'.task)
  {
    hide Dispatch, Decide, Overlooks, ActPack, ActPost, ActResolve, ActBackup, ActWrite, ActRecord;
    var c1 := AnsweredLook(cfg, c, h, answers);
    if c1.task.Idle? { return c1; }
    AutosyncDispatch(c1, h, c1.task.local);
    c' := ActScan(c1, h, answers(Rank(c1.task)));
    assert Answered(cfg, c1, h, answers) == Answered(cfg, c', h, answers);
  }

  // The restore a download leads to: the archive is replaced exactly when the backup lets it
  // go on and writing changes it.
  lemma AnsweredRestore(cfg: Config, c: Console, h: History, answers: nat -> Outcome)
    requires c.task.CheckingRunning? && c.task.job.agreed && c.save.Archive?
    ensures
      var p, job := c.save.payload, c.task.job;
      Answered(cfg, c, h, answers).0.save != c.save <==>
        && Begins(job, answers)
        && (BackupWritten(cfg, c, p, job, answers) || BackupPassedOver(cfg, c, p, job, answers))
        && SaveWritten(cfg, c.save, job, answers) != c.save
  {
    hide Act, Begins, Answered, SaveWritten, BackupPassedOver, BackupWritten;
    var job := c.task.job;
    AnsweredQuestion(cfg, c, h, answers);
    if Begins(job, answers) {
      assert job.(agreed := true) == job;
      var opening := c.(task := BackupOpening(job));
      BackupsOnly(cfg, opening, c, answers, job);
      var c' := AnsweredBackup(cfg, opening, h, answers);
      if c'.task.Verifying? {
        AnsweredWrite(cfg, c', h, answers);
      } else {
        AnsweredEnd(cfg, c', h, answers);
      }
    }
  }

  // Only the backups of a console matter to what happens to a backup.
  lemma BackupsOnly(cfg: Config, c: Console, d: Console, answers: nat -> Outcome, job: Job)
    requires c.save == d.save && c.backups == d.backups && c.save.Archive?
    ensures BackupWritten(cfg, c, c.save.payload, job, answers) <==> BackupWritten(cfg, d, d.save.payload, job, answers)
    ensures BackupPassedOver(cfg, c, c.save.payload, job, answers) <==> BackupPassedOver(cfg, d, d.save.payload, job, answers)
  {
    hide Rank;
  }

  lemma AnsweredDownload(cfg: Config, c: Console, h: History, answers: nat -> Outcome)
    requires c.task == Fetching(Overlooked(c, h)) && c.save.Archive? && h != []
    ensures
      var p, job := c.save.payload, DownloadJob(c, h, answers);
      var fetched := answers(Rank(c.task));
      Answered(cfg, c, h, answers).0.save != c.save <==>
        && fetched.ok && fetched.package.claimed == Latest(h).digest && Begins(job, answers)
        && (BackupWritten(cfg, c, p, job, answers) || BackupPassedOver(cfg, c, p, job, answers))
        && SaveWritten(cfg, c.save, job, answers) != c.save
  {
    hide Begins, SaveWritten, BackupPassedOver, BackupWritten, ScanOf;
    var job := DownloadJob(c, h, answers);
    var c1 := ActResolve(c, h, answers(Rank(c.task)));
    assert Answered(cfg, c, h, answers) == Answered(cfg, c1, h, answers);
    if c1.task.CheckingRunning? {
      assert c1 == c.(task := CheckingRunning(job));
      AnsweredRestore(cfg, c1, h, answers);
      BackupsOnly(cfg, c1, c, answers, job);
    }
  }

  // An unattended sync of an archive whose contents the server does not hold, with any
  // answer to any of its calls: the archive is replaced exactly when opening it for the
  // scan said NOT_FOUND, the latest version was delivered, the title was not running, the
  // backup was written or passed over, and writing changed the archive.
  lemma UnattendedReplacesExactlyWhen(cfg: Config, c: Console, h: History, answers: nat -> Outcome)
    requires c.task == Starting(AutosyncOpts()) && StateTrue(c.state, h)
    requires c.save.Archive? && c.save.payload !in h
    ensures
      var p, job := c.save.payload, DownloadJob(c, h, answers);
      Answered(cfg, c, h, answers).0.save != c.save <==>
        && Overlooks(answers) && Delivers(c, h, answers) && Begins(job, answers)
        && (BackupWritten(cfg, c, p, job, answers) || BackupPassedOver(cfg, c, p, job, answers))
        && SaveWritten(cfg, c.save, job, answers) != c.save
  {
    hide Answered, Overlooks, Begins, BackupWritten, BackupPassedOver, SaveWritten, ScanOf;
    var c1 := AnsweredScan(cfg, c, h, answers);
    if c1.task.Fetching? {
      AnsweredDownload(cfg, c1, h, answers);
      BackupsOnly(cfg, c1, c, answers, DownloadJob(c, h, answers));
    } else {
      AnsweredPastDownloads(cfg, c1, h, answers);
    }
  }

  // A concrete run: a save that is nowhere else, a restore the person agreed to, and a
  // backup call that answers NOT_FOUND although the archive is there.
  const MINE: Payload := map[Ascii("main.sav") := Ascii("mine")]
  const OTHER: Payload := map[Ascii("main.sav") := Ascii("other")]

  function Answer(ok: bool, err: Error): Label {
    Call(0, Outcome(ok, err, false, true, 0, Package(DigestOf(OTHER), OTHER, true), map[]))
  }

  function LosingRun(): seq<Label> {
    [Restore(0, Package(DigestOf(OTHER), OTHER, true)),
     Answer(true, OtherError), Answer(true, OtherError), Answer(false, NotFound),
     Answer(true, OtherError), Answer(true, OtherError), Answer(true, OtherError), Answer(true, OtherError)]
  }

  function Alone(save: Save, task: Task): System {
    System([], [Console(save, None, map[], task)])
  }

  lemma AloneStep(cfg: Config, save: Save, task: Task, l: Label, save': Save, task': Task, ls: seq<Label>)
    requires l.i == 0 && Event(cfg, Console(save, None, map[], task), [], l) == (Console(save', None, map[], task'), [])
    ensures Run(cfg, Alone(save, task), [l] + ls) == Run(cfg, Alone(save', task'), ls)
  {
    assert ([l] + ls)[1..] == ls;
    assert Next(cfg, Alone(save, task), l) == Alone(save', task');
  }

  const AGREED: Job := Job(Opts(Ask, false, false), Package(DigestOf(OTHER), OTHER, true), None, true)

  lemma AloneWrite(cfg: Config, save: Save, task: Task, o: Outcome, save': Save, task': Task, ls: seq<Label>)
    requires task.Verifying? || task.OpeningWrite? || task.Unpacking? || task.Committing?
    requires ActWrite(cfg, Console(save, None, map[], task), o) == Console(save', None, map[], task')
    ensures Run(cfg, Alone(save, task), [Call(0, o)] + ls) == Run(cfg, Alone(save', task'), ls)
  {
    AloneStep(cfg, save, task, Call(0, o), save', task', ls);
  }

  // The archive was there, and the failed backup call reads as if it were not.
  lemma FirstHalf(cfg: Config, rest: seq<Label>)
    ensures
      var head := [Restore(0, AGREED.package), Answer(true, OtherError), Answer(true, OtherError), Answer(false, NotFound)];
      Run(cfg, Alone(Archive(MINE), Idle(Ok)), head + rest) == Run(cfg, Alone(Archive(MINE), Verifying(AGREED)), rest)
  {
    var ok, no, m := Answer(true, OtherError), Answer(false, NotFound), Archive(MINE);
    var asked := AGREED.(agreed := false);
    assert [Restore(0, AGREED.package), ok, ok, no] + rest == [Restore(0, AGREED.package)] + ([ok] + ([ok] + ([no] + rest)));
    AloneStep(cfg, m, Idle(Ok), Restore(0, AGREED.package), m, CheckingRunning(asked), [ok] + ([ok] + ([no] + rest)));
    AloneStep(cfg, m, CheckingRunning(asked), ok, m, ConfirmingRestore(asked), [ok] + ([no] + rest));
    AloneStep(cfg, m, ConfirmingRestore(asked), ok, m, BackupOpening(AGREED), [no] + rest);
    AloneStep(cfg, m, BackupOpening(AGREED), no, m, Verifying(AGREED), rest);
  }

  lemma SecondHalf(cfg: Config)
    ensures
      var ok := Answer(true, OtherError);
      Run(cfg, Alone(Archive(MINE), Verifying(AGREED)), [ok, ok, ok, ok]) == Alone(Archive(OTHER), Closing(AGREED))
  {
    var ok, m := Answer(true, OtherError), Archive(MINE);
    assert [ok, ok, ok, ok] == [ok] + ([ok] + ([ok] + ([ok] + [])));
    AloneWrite(cfg, m, Verifying(AGREED), ok.o, m, OpeningWrite(AGREED), [ok] + ([ok] + ([ok] + [])));
    AloneWrite(cfg, m, OpeningWrite(AGREED), ok.o, m, Unpacking(AGREED), [ok] + ([ok] + []));
    AloneWrite(cfg, m, Unpacking(AGREED), ok.o, m, Committing(AGREED), [ok] + []);
    AloneWrite(cfg, m, Committing(AGREED), ok.o, Archive(OTHER), Closing(AGREED), []);
  }

  lemma NotFoundLosesASave(cfg: Config)
    ensures
      var s := Alone(Archive(MINE), Idle(Ok));
      var s' := Run(cfg, s, LosingRun());
      && SystemTrue(cfg, s) && Survives(cfg, s.consoles[0], s.server, MINE)
      && !Survives(cfg, s'.consoles[0], s'.server, MINE)
      && !HonestRun(cfg, s, LosingRun())
  {
    var ok := Answer(true, OtherError);
    var s := Alone(Archive(MINE), Idle(Ok));
    var head := [Restore(0, AGREED.package), ok, ok, Answer(false, NotFound)];
    assert LosingRun() == head + [ok, ok, ok, ok];
    FirstHalf(cfg, [ok, ok, ok, ok]);
    SecondHalf(cfg);
    assert |MINE[Ascii("main.sav")]| != |OTHER[Ascii("main.sav")]|;
    if HonestRun(cfg, s, LosingRun()) {
      NothingIsLost(cfg, s, LosingRun(), 0, MINE);
    }
  }

  // A concrete unattended sync: every call succeeds, except that opening the archive for
  // the scan says that there is none.
  function Overlooking(): nat -> Outcome {
    n => Outcome(n != Rank(OpeningSave(AutosyncOpts(), None)), NotFound, false, true, 0, Package(DigestOf(OTHER), OTHER, true), map[])
  }

  lemma UnattendedReplacesASave(cfg: Config)
    ensures
      var c, h := Console(Archive(MINE), None, map[], Starting(AutosyncOpts())), [OTHER];
      !OnServer(c, h) && Answered(cfg, c, h, Overlooking()).0.save != c.save
  {
    var c, h := Console(Archive(MINE), None, map[], Starting(AutosyncOpts())), [OTHER];
    assert |MINE[Ascii("main.sav")]| != |OTHER[Ascii("main.sav")]|;
    hide Answered;
    UnattendedReplacesExactlyWhen(cfg, c, h, Overlooking());
  }
}
