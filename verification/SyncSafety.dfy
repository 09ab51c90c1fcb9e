// What every reachable state of the step machine satisfies, whatever fails, races or
// loses power: records name real versions, nothing is lost, and an unattended run
// overwrites only what the server already has.

module SyncSafety {
  import opened Common
  import opened SyncTypes
  import opened SyncMachine

  // ------------------------------------------------------------ console invariant

  predicate StateTrue(state: Option<Base>, h: History) {
    state.Some? ==> BaseTrue(state.value, h)
  }

  ghost predicate BackupsTrue(cfg: Config, backups: map<int, Payload>) {
    forall n | n in backups :: backups[n] != map[] && BackupName(cfg, backups[n]) == n
  }

  // A backup file of this console holds p.
  predicate BackedUp(cfg: Config, c: Console, p: Payload) {
    BackupName(cfg, p) in c.backups && c.backups[BackupName(cfg, p)] == p
  }

  // The archive, if there is one, is in the backups.
  predicate Secured(cfg: Config, c: Console) {
    c.save.Archive? ==> BackedUp(cfg, c, c.save.payload)
  }

  // There is something to back up and no file has the name it would get.
  predicate NeedsBackup(cfg: Config, c: Console) {
    c.save.Archive? && c.save.payload != map[] && BackupName(cfg, c.save.payload) !in c.backups
  }

  // The archive, if there is one, is a version the server holds.
  predicate OnServer(c: Console, h: History) {
    c.save.Archive? ==> c.save.payload in h
  }

  predicate Verified(p: Package) { DigestOf(p.payload) == p.claimed && p.ours }

  // What a scan told: the archive as it is, or that there is none.
  predicate ScanTrue(c: Console, local: LocalState) {
    local == ScanOf(c.save, c.state) || local == ScanOf(Absent, c.state)
  }

  predicate ContextTrue(c: Console, x: Context, h: History) {
    ScanTrue(c, x.local) && RemoteTrue(x.remote, h)
  }

  // A restore that records a version carries what that version has.
  predicate JobTrue(job: Job, h: History) {
    job.record.Some? ==> BaseTrue(job.record.value, h) && job.package.claimed == job.record.value.digest
  }

  predicate TaskTrue(cfg: Config, c: Console, h: History) {
    match c.task
    case Idle(_) | Starting(_) | LoadingState(_) => true
    case OpeningSave(_, loaded) => loaded == c.state
    case Hashing(_, loaded) => loaded == c.state && c.save.Archive?
    case GettingLatest(_, local) => ScanTrue(c, local)
    case ConfirmingUpload(x) => ContextTrue(c, x, h)
    case Packing(x, _, _) => ContextTrue(c, x, h)
    case Posting(x, _, package, _) =>
      ContextTrue(c, x, h) && package.payload != map[] && Verified(package) && c.save == Archive(package.payload)
    case Rereading(x) => ContextTrue(c, x, h)
    case Choosing(x) => ContextTrue(c, x, h) && x.opts.conflict.Ask?
    case Fetching(x) => ContextTrue(c, x, h)
    case CheckingRunning(job) => JobTrue(job, h)
    case ConfirmingRestore(job) => JobTrue(job, h)
    case BackupOpening(job) => JobTrue(job, h) && job.agreed
    case BackupPacking(job) => JobTrue(job, h) && job.agreed && NeedsBackup(cfg, c)
    case BackupRenaming(job) => JobTrue(job, h) && job.agreed && NeedsBackup(cfg, c)
    case Verifying(job) => JobTrue(job, h) && job.agreed && Secured(cfg, c)
    case OpeningWrite(job) => JobTrue(job, h) && job.agreed && Secured(cfg, c) && Verified(job.package)
    case Unpacking(job) => JobTrue(job, h) && job.agreed && Secured(cfg, c) && Verified(job.package)
    case Committing(job) => JobTrue(job, h) && job.agreed && Secured(cfg, c) && Verified(job.package)
    case Closing(job) => JobTrue(job, h) && Verified(job.package) && c.save == Archive(job.package.payload)
    case WritingState(b) => BaseTrue(b, h) && c.save == Archive(b.digest.payload)
    case Unlinking(b) => !cfg.atomicRename && BaseTrue(b, h) && c.save == Archive(b.digest.payload)
    case Renaming(b) => BaseTrue(b, h) && c.save == Archive(b.digest.payload)
  }

  ghost predicate ConsoleTrue(cfg: Config, c: Console, h: History) {
    StateTrue(c.state, h) && BackupsTrue(cfg, c.backups) && TaskTrue(cfg, c, h)
  }

  ghost predicate SystemTrue(cfg: Config, s: System) {
    NoEmptyVersion(s.server) && forall i | 0 <= i < |s.consoles| :: ConsoleTrue(cfg, s.consoles[i], s.server)
  }

  // ------------------------------------------------------------------ fault model

  // In a backup only opening an archive that is not there answers NOT_FOUND.
  predicate NotFoundIsHonest(c: Console, l: Label) {
    l.Call? && !l.o.ok && l.o.err == NotFound ==>
      !(c.task.BackupOpening? && c.save.Archive?) && !c.task.BackupPacking? && !c.task.BackupRenaming?
  }

  // A file that already has the name of this save's backup holds this save.
  predicate NameIsOwn(cfg: Config, c: Console, l: Label) {
    l.Call? && l.o.ok && c.task.BackupOpening? && c.save.Archive? && c.save.payload != map[] ==>
      NeedsBackup(cfg, c) || BackedUp(cfg, c, c.save.payload)
  }

  predicate HonestCall(cfg: Config, c: Console, l: Label) {
    NotFoundIsHonest(c, l) && NameIsOwn(cfg, c, l)
  }

  predicate Honest(cfg: Config, s: System, l: Label) {
    l.i < |s.consoles| ==> HonestCall(cfg, s.consoles[l.i], l)
  }

  predicate HonestRun(cfg: Config, s: System, ls: seq<Label>)
    decreases |ls|
  {
    ls == [] || (Honest(cfg, s, ls[0]) && HonestRun(cfg, Next(cfg, s, ls[0]), ls[1..]))
  }

  ghost predicate BackupsGrow(cfg: Config, c: Console, c': Console) {
    forall p | BackedUp(cfg, c, p) :: BackedUp(cfg, c', p)
  }

  // What every step guarantees: the invariant, a server that only grows, and backups
  // that stay.
  ghost predicate Kept(cfg: Config, c: Console, h: History, c': Console, h': History) {
    ConsoleTrue(cfg, c', h') && NoEmptyVersion(h') && h <= h' && BackupsGrow(cfg, c, c')
  }

  // Twelve digits have to tell apart only the payloads that are there: when they do so for
  // the payloads of a title, a file with the name of this save's backup holds this save.
  lemma SeparatedNamesAreOwn(cfg: Config, c: Console, l: Label, title: set<Payload>)
    requires BackupsTrue(cfg, c.backups)
    requires forall a, b | a in title && b in title :: BackupName(cfg, a) == BackupName(cfg, b) ==> a == b
    requires (c.save.Archive? ==> c.save.payload in title) && forall n | n in c.backups :: c.backups[n] in title
    ensures NameIsOwn(cfg, c, l)
  {
  }

  // -------------------------------------------------------------- one step keeps it

  // More versions on the server never invalidate what a console knows.
  lemma GrowthKeeps(cfg: Config, c: Console, h: History, h': History)
    requires ConsoleTrue(cfg, c, h) && h <= h'
    ensures ConsoleTrue(cfg, c, h')
  {
    assert forall p | p in h :: p in h';
  }

  // A download is only chosen for an archive whose contents the server holds.
  lemma DownloadReplacesServerVersion(save: Save, state: Option<Base>, remote: Remote, h: History)
    requires StateTrue(state, h)
    requires Decide(ScanOf(save, state), remote) == Download
    ensures save.Archive? ==> save.payload in h
  {
  }

  // Deciding, and taking the first step of what was decided.
  lemma DispatchKeeps(cfg: Config, c: Console, h: History, x: Context)
    requires ConsoleTrue(cfg, c, h) && NoEmptyVersion(h)
    requires ContextTrue(c, x, h)
    ensures Kept(cfg, c, h, Dispatch(c, x), h)
  {
    var d := Dispatch(c, x);
    assert d == c.(task := d.task);
    assert TaskTrue(cfg, d, h);
  }

  lemma ScanKeeps(cfg: Config, c: Console, h: History, o: Outcome)
    requires ConsoleTrue(cfg, c, h) && NoEmptyVersion(h) && HonestCall(cfg, c, Call(0, o))
    requires c.task.Starting? || c.task.LoadingState? || c.task.OpeningSave? || c.task.Hashing? || c.task.GettingLatest?
    ensures Kept(cfg, c, h, ActScan(c, h, o), h)
  {
    if c.task.GettingLatest? && o.ok {
      DispatchKeeps(cfg, c, h, Context(c.task.opts, c.task.local, Latest(h)));
    }
  }

  lemma PackKeeps(cfg: Config, c: Console, h: History, o: Outcome)
    requires ConsoleTrue(cfg, c, h) && NoEmptyVersion(h)
    requires c.task.ConfirmingUpload? || c.task.Packing?
    ensures Kept(cfg, c, h, ActPack(c, o), h)
  {
  }

  lemma PostKeeps(cfg: Config, c: Console, h: History, o: Outcome)
    requires ConsoleTrue(cfg, c, h) && NoEmptyVersion(h) && c.task.Posting?
    ensures Kept(cfg, c, h, ActPost(c, h, o).0, ActPost(c, h, o).1)
  {
    GrowthKeeps(cfg, c, h, ActPost(c, h, o).1);
  }

  lemma ResolveKeeps(cfg: Config, c: Console, h: History, o: Outcome)
    requires ConsoleTrue(cfg, c, h) && NoEmptyVersion(h)
    requires c.task.Rereading? || c.task.Choosing? || c.task.Fetching?
    ensures Kept(cfg, c, h, ActResolve(c, h, o), h)
  {
  }

  lemma BackupKeeps(cfg: Config, c: Console, h: History, o: Outcome)
    requires ConsoleTrue(cfg, c, h) && NoEmptyVersion(h) && HonestCall(cfg, c, Call(0, o))
    requires c.task.CheckingRunning? || c.task.ConfirmingRestore? || c.task.BackupOpening? || c.task.BackupPacking? || c.task.BackupRenaming?
    ensures Kept(cfg, c, h, ActBackup(cfg, c, o), h)
  {
  }

  lemma WriteKeeps(cfg: Config, c: Console, h: History, o: Outcome)
    requires ConsoleTrue(cfg, c, h) && NoEmptyVersion(h)
    requires c.task.Verifying? || c.task.OpeningWrite? || c.task.Unpacking? || c.task.Committing? || c.task.Closing?
    ensures Kept(cfg, c, h, ActWrite(cfg, c, o), h)
  {
  }

  lemma RecordKeeps(cfg: Config, c: Console, h: History, o: Outcome)
    requires ConsoleTrue(cfg, c, h) && NoEmptyVersion(h)
    requires c.task.WritingState? || c.task.Unlinking? || c.task.Renaming?
    ensures Kept(cfg, c, h, ActRecord(cfg, c, o), h)
  {
  }

  lemma CallKeeps(cfg: Config, c: Console, h: History, o: Outcome)
    requires ConsoleTrue(cfg, c, h) && NoEmptyVersion(h) && HonestCall(cfg, c, Call(0, o))
    ensures Kept(cfg, c, h, Act(cfg, c, h, o).0, Act(cfg, c, h, o).1)
  {
    var t := c.task;
    if t.Posting? {
      PostKeeps(cfg, c, h, o);
    } else if t.Verifying? || t.OpeningWrite? || t.Unpacking? || t.Committing? || t.Closing? {
      WriteKeeps(cfg, c, h, o);
    } else if t.CheckingRunning? || t.ConfirmingRestore? || t.BackupOpening? || t.BackupPacking? || t.BackupRenaming? {
      BackupKeeps(cfg, c, h, o);
    } else if !t.Idle? {
      EarlyOrLateCallKeeps(cfg, c, h, o);
    }
  }

  lemma EarlyOrLateCallKeeps(cfg: Config, c: Console, h: History, o: Outcome)
    requires ConsoleTrue(cfg, c, h) && NoEmptyVersion(h) && HonestCall(cfg, c, Call(0, o))
    requires var t := c.task;
      || t.Starting? || t.LoadingState? || t.OpeningSave? || t.Hashing? || t.GettingLatest?
      || t.ConfirmingUpload? || t.Packing? || t.Rereading? || t.Choosing? || t.Fetching?
      || t.WritingState? || t.Unlinking? || t.Renaming?
    ensures Kept(cfg, c, h, Act(cfg, c, h, o).0, Act(cfg, c, h, o).1)
  {
    var t := c.task;
    if t.ConfirmingUpload? || t.Packing? {
      PackKeeps(cfg, c, h, o);
    } else if t.Rereading? || t.Choosing? || t.Fetching? {
      ResolveKeeps(cfg, c, h, o);
    } else if t.WritingState? || t.Unlinking? || t.Renaming? {
      RecordKeeps(cfg, c, h, o);
    } else {
      ScanKeeps(cfg, c, h, o);
    }
  }

  // One event of one console keeps its invariant, only adds versions, and keeps backups.
  lemma EventKeeps(cfg: Config, c: Console, h: History, l: Label)
    requires ConsoleTrue(cfg, c, h) && NoEmptyVersion(h) && HonestCall(cfg, c, l)
    ensures Kept(cfg, c, h, Event(cfg, c, h, l).0, Event(cfg, c, h, l).1)
  {
    match l
    case Edit(_, _) => 
    case Sync(_, _) => 
    case Restore(_, _) => 
    case PowerLoss(_, o) =>
      GrowthKeeps(cfg, c, h, Crash(cfg, c, h, o).1);
    case Call(i, o) =>
      assert HonestCall(cfg, c, Call(0, o));
      CallKeeps(cfg, c, h, o);
  }

  // ------------------------------------------------------------------- whole runs

  lemma NextKeeps(cfg: Config, s: System, l: Label)
    requires SystemTrue(cfg, s) && Honest(cfg, s, l)
    ensures SystemTrue(cfg, Next(cfg, s, l)) && s.server <= Next(cfg, s, l).server
  {
    if l.i < |s.consoles| {
      var s' := Next(cfg, s, l);
      EventKeeps(cfg, s.consoles[l.i], s.server, l);
      forall j | 0 <= j < |s'.consoles| ensures ConsoleTrue(cfg, s'.consoles[j], s'.server) {
        if j != l.i {
          GrowthKeeps(cfg, s.consoles[j], s.server, s'.server);
        }
      }
    }
  }

  // Every reachable state of every run: records name real versions, no version and no
  // backup is empty, and the server only ever gained versions.
  lemma {:induction false} RunKeeps(cfg: Config, s: System, ls: seq<Label>)
    requires SystemTrue(cfg, s) && HonestRun(cfg, s, ls)
    ensures SystemTrue(cfg, Run(cfg, s, ls))
    ensures s.server <= Run(cfg, s, ls).server
    decreases |ls|
  {
    if ls != [] {
      NextKeeps(cfg, s, ls[0]);
      RunKeeps(cfg, Next(cfg, s, ls[0]), ls[1..]);
    }
  }

  // Fresh consoles in front of an empty server satisfy the invariant.
  lemma StartIsTrue(cfg: Config, saves: seq<Save>)
    ensures SystemTrue(cfg, System([], seq(|saves|, i requires 0 <= i < |saves| => Console(saves[i], None, map[], Idle(Ok)))))
  {
  }

  // ------------------------------------------------------------- nothing is lost

  // p can still be had: from the server, from this console's backups, or from its save.
  predicate Survives(cfg: Config, c: Console, h: History, p: Payload) {
    p in h || BackedUp(cfg, c, p) || c.save == Archive(p)
  }

  lemma EventSurvives(cfg: Config, c: Console, h: History, l: Label, p: Payload)
    requires ConsoleTrue(cfg, c, h) && NoEmptyVersion(h) && HonestCall(cfg, c, l) && !l.Edit?
    requires Survives(cfg, c, h, p)
    ensures Survives(cfg, Event(cfg, c, h, l).0, Event(cfg, c, h, l).1, p)
  {
    var (c', h') := Event(cfg, c, h, l);
    EventKeeps(cfg, c, h, l);
    if p in h {
      assert p in h';
    } else if !BackedUp(cfg, c, p) && c'.save != c.save {
      SaveChangesOnlyWhenWriting(cfg, c, h, l);
    }
  }

  // The only calls that change an archive are the write and the commit of a restore.
  lemma SaveChangesOnlyWhenWriting(cfg: Config, c: Console, h: History, l: Label)
    requires !l.Edit? && Event(cfg, c, h, l).0.save != c.save
    ensures c.task.Unpacking? || c.task.Committing?
  {
  }

  // Both sides survive: whatever a console or the server held before, the server, that
  // console's backups or its save hold after any run of syncs, failures, races and
  // crashes in which the game itself did not replace that console's save.
  lemma {:induction false} NothingIsLost(cfg: Config, s: System, ls: seq<Label>, i: nat, p: Payload)
    requires SystemTrue(cfg, s) && HonestRun(cfg, s, ls)
    requires i < |s.consoles| && Survives(cfg, s.consoles[i], s.server, p)
    requires forall l | l in ls :: !(l.Edit? && l.i == i)
    ensures Survives(cfg, Run(cfg, s, ls).consoles[i], Run(cfg, s, ls).server, p)
    decreases |ls|
  {
    if ls != [] {
      var l, s' := ls[0], Next(cfg, s, ls[0]);
      NextKeeps(cfg, s, l);
      assert l in ls;
      if l.i == i {
        EventSurvives(cfg, s.consoles[i], s.server, l, p);
      } else {
        assert s'.consoles[i] == s.consoles[i];
        assert forall q | q in s.server :: q in s'.server;
      }
      NothingIsLost(cfg, s', ls[1..], i, p);
    }
  }

  // ----------------------------------------------------------- unattended runs

  // Console i is only ever synced with the options of a run at startup.
  predicate Unattended(ls: seq<Label>, i: nat) {
    forall l | l in ls && l.i == i :: !l.Restore? && (l.Sync? ==> l.opts == AutosyncOpts())
  }

  // Inside such a sync: nothing is being asked, and every overwrite was agreed to.
  predicate UnattendedTask(t: Task) {
    match t
    case Idle(_) | WritingState(_) | Unlinking(_) | Renaming(_) => true
    case Starting(o) => o == AutosyncOpts()
    case LoadingState(o) => o == AutosyncOpts()
    case OpeningSave(o, _) => o == AutosyncOpts()
    case Hashing(o, _) => o == AutosyncOpts()
    case GettingLatest(o, _) => o == AutosyncOpts()
    case Packing(x, _, _) => x.opts == AutosyncOpts()
    case Posting(x, _, _, _) => x.opts == AutosyncOpts()
    case Rereading(x) => x.opts == AutosyncOpts()
    case Fetching(x) => x.opts == AutosyncOpts()
    case CheckingRunning(job) => job.opts == AutosyncOpts() && job.agreed
    case BackupOpening(job) => job.opts == AutosyncOpts()
    case BackupPacking(job) => job.opts == AutosyncOpts()
    case BackupRenaming(job) => job.opts == AutosyncOpts()
    case Verifying(job) => job.opts == AutosyncOpts()
    case OpeningWrite(job) => job.opts == AutosyncOpts()
    case Unpacking(job) => job.opts == AutosyncOpts()
    case Committing(job) => job.opts == AutosyncOpts()
    case Closing(job) => job.opts == AutosyncOpts()
    case ConfirmingUpload(_) | ConfirmingRestore(_) | Choosing(_) => false
  }

  lemma UnattendedKeeps(cfg: Config, c: Console, h: History, l: Label)
    requires UnattendedTask(c.task) && !l.Restore? && (l.Sync? ==> l.opts == AutosyncOpts())
    ensures UnattendedTask(Event(cfg, c, h, l).0.task)
  {
    if l.Call? {
      match c.task
      case GettingLatest(opts, local) => assert UnattendedTask(ActScan(c, h, l.o).task);
      case _ =>
    }
  }

  // The scan says that there is no archive only when there is none.
  predicate ScanIsHonest(c: Console, l: Label) {
    !(l.Call? && c.task.OpeningSave? && c.save.Archive? && !l.o.ok && l.o.err == NotFound)
  }

  // Every scan of console i in the run is honest.
  predicate SightedRun(cfg: Config, s: System, ls: seq<Label>, i: nat)
    requires i < |s.consoles|
    decreases |ls|
  {
    ls == [] ||
    ((ls[0].i == i ==> ScanIsHonest(s.consoles[i], ls[0])) && SightedRun(cfg, Next(cfg, s, ls[0]), ls[1..], i))
  }

  // What an unattended sync saw is there, and what it is about to replace is on the server.
  predicate SightTrue(c: Console, h: History) {
    match c.task
    case GettingLatest(_, local) => local == ScanOf(c.save, c.state)
    case Fetching(_) | CheckingRunning(_) | ConfirmingRestore(_) | BackupOpening(_) | BackupPacking(_)
      | BackupRenaming(_) | Verifying(_) | OpeningWrite(_) | Unpacking(_) | Committing(_) => OnServer(c, h)
    case _ => true
  }

  lemma SightKeeps(cfg: Config, c: Console, h: History, l: Label)
    requires ConsoleTrue(cfg, c, h) && UnattendedTask(c.task) && SightTrue(c, h) && ScanIsHonest(c, l)
    requires !l.Restore? && (l.Sync? ==> l.opts == AutosyncOpts())
    ensures SightTrue(Event(cfg, c, h, l).0, Event(cfg, c, h, l).1)
  {
    if l.Call? && l.o.ok && c.task.GettingLatest? {
      var x := Context(c.task.opts, c.task.local, Latest(h));
      assert ActScan(c, h, l.o) == Dispatch(c, x);
      if Decide(x.local, x.remote) == Download {
        DownloadReplacesServerVersion(c.save, c.state, x.remote, h);
      }
    }
  }

  lemma SightGrows(c: Console, h: History, h': History)
    requires SightTrue(c, h) && h <= h'
    ensures SightTrue(c, h')
  {
    assert forall p | p in h :: p in h';
  }

  // Along the whole run, no call ever replaces an archive of console i whose contents
  // the server does not hold, and nobody is asked anything.
  predicate LosesNothingUnattended(cfg: Config, s: System, ls: seq<Label>, i: nat)
    requires i < |s.consoles|
    decreases |ls|
  {
    && !s.consoles[i].task.ConfirmingUpload? && !s.consoles[i].task.ConfirmingRestore? && !s.consoles[i].task.Choosing?
    && (ls == [] ||
        (var s' := Next(cfg, s, ls[0]);
         && (!ls[0].Edit? && s'.consoles[i].save != s.consoles[i].save ==> OnServer(s.consoles[i], s.server))
         && LosesNothingUnattended(cfg, s', ls[1..], i)))
  }

  lemma {:induction false} UnattendedRunLosesNothing(cfg: Config, s: System, ls: seq<Label>, i: nat)
    requires SystemTrue(cfg, s) && HonestRun(cfg, s, ls)
    requires i < |s.consoles| && UnattendedTask(s.consoles[i].task) && Unattended(ls, i)
    requires SightTrue(s.consoles[i], s.server) && SightedRun(cfg, s, ls, i)
    ensures LosesNothingUnattended(cfg, s, ls, i)
    decreases |ls|
  {
    if ls != [] {
      var l, s' := ls[0], Next(cfg, s, ls[0]);
      NextKeeps(cfg, s, l);
      assert l in ls;
      if l.i == i {
        UnattendedKeeps(cfg, s.consoles[i], s.server, l);
        if !l.Edit? && s'.consoles[i].save != s.consoles[i].save {
          SaveChangesOnlyWhenWriting(cfg, s.consoles[i], s.server, l);
        }
        SightKeeps(cfg, s.consoles[i], s.server, l);
      } else {
        assert s'.consoles[i] == s.consoles[i];
        SightGrows(s.consoles[i], s.server, s'.server);
      }
      UnattendedRunLosesNothing(cfg, s', ls[1..], i);
    }
  }
}
