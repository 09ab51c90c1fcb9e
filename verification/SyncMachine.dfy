// The sync protocol as a step machine: any number of consoles, one append-only server,
// and one step per call that can fail, reach the server or change a file. Every step
// takes what the environment answered as an argument, so a list of labels is one
// interleaving, one failure schedule and one set of crash points.

module SyncMachine {
  import opened Common
  import opened SyncTypes

  datatype Error = NotFound | Cancelled | VersionConflict | EmptySave | Checksum | InvalidManifest | InvalidRequest | OtherError

  datatype Result = Ok | Err(error: Error) | Crashed

  // How a platform behaves. short is the part of a digest a backup file name keeps.
  // transactional: an archive closed without a commit shows its old contents again.
  // atomicRename: replacing a file is one step; on FAT it is an unlink and a rename.
  datatype Config = Config(short: Digest -> int, transactional: bool, atomicRename: bool)

  // What the environment answered to one call.
  // - ok, err: the return code; opening an archive that is not there answers NOT_FOUND
  //   where ok would say it could be opened
  // - landed: a request that failed on the way back had reached the server, or a commit
  //   that failed had taken effect
  // - yes, choice: the person's answer
  // - package: what a download delivered
  // - partial: what an interrupted write left in the archive
  datatype Outcome = Outcome(ok: bool, err: Error, landed: bool, yes: bool, choice: int, package: Package, partial: Payload)

  // A restore under way. record is the base to write afterwards, and is None for a
  // restore of a package the person picked. agreed: the overwrite was confirmed.
  datatype Job = Job(opts: Opts, package: Package, record: Option<Base>, agreed: bool)

  datatype Context = Context(opts: Opts, local: LocalState, remote: Remote)

  // Where a console is inside a sync call: the call it makes next, with the locals of
  // the C function it is in.
  datatype Task =
    | Idle(result: Result)
    | Starting(opts: Opts)
    | LoadingState(opts: Opts)
    | OpeningSave(opts: Opts, loaded: Option<Base>)
    | Hashing(opts: Opts, loaded: Option<Base>)
    | GettingLatest(opts: Opts, local: LocalState)
    | ConfirmingUpload(x: Context)
    | Packing(x: Context, parent: nat, again: bool)
    | Posting(x: Context, parent: nat, package: Package, again: bool)
    | Rereading(x: Context)
    | Choosing(x: Context)
    | Fetching(x: Context)
    | CheckingRunning(job: Job)
    | ConfirmingRestore(job: Job)
    | BackupOpening(job: Job)
    | BackupPacking(job: Job)
    | BackupRenaming(job: Job)
    | Verifying(job: Job)
    | OpeningWrite(job: Job)
    | Unpacking(job: Job)
    | Committing(job: Job)
    | Closing(job: Job)
    | WritingState(base: Base)
    | Unlinking(base: Base)
    | Renaming(base: Base)

  // One console: its archive as the next open sees it, the state file, the backups by
  // file name, and its place in the code.
  datatype Console = Console(save: Save, state: Option<Base>, backups: map<int, Payload>, task: Task)

  datatype System = System(server: History, consoles: seq<Console>)

  // Only the server's answer to an upload says that versions conflict.
  function LocalError(e: Error): Error {
    if e == VersionConflict then OtherError else e
  }

  function Finish(c: Console, r: Result): Console { c.(task := Idle(r)) }

  // What an archive shows after it was written to and closed without a commit.
  function Residue(cfg: Config, save: Save, partial: Payload): Save {
    if cfg.transactional then save else Archive(partial)
  }

  // What an archive shows when the commit of a restore did not report success.
  function AfterFailedCommit(cfg: Config, save: Save, job: Job, o: Outcome): Save {
    if o.landed then Archive(job.package.payload) else Residue(cfg, save, o.partial)
  }

  function BackupName(cfg: Config, p: Payload): int { cfg.short(DigestOf(p)) }

  // resolve_conflict, up to the first call it makes.
  function Resolve(c: Console, x: Context): Console {
    match x.opts.conflict
    case KeepLocal => c.(task := Packing(x, ParentOf(x.remote), true))
    case KeepServer => c.(task := Fetching(x))
    case Defer => Finish(c, Ok)
    case Ask => c.(task := Choosing(x))
  }

  // sync_title_with after the server answered: decide and start acting.
  function Dispatch(c: Console, x: Context): Console {
    match Decide(x.local, x.remote)
    case Nothing =>
      if x.local.hasSave && x.remote.Remote? && x.local.baseVersion != x.remote.version then
        c.(task := WritingState(Base(x.remote.version, x.local.digest)))
      else Finish(c, Ok)
    case Upload =>
      if x.opts.uploadConfirmed then c.(task := Packing(x, ParentOf(x.remote), false))
      else c.(task := ConfirmingUpload(x))
    case Download => c.(task := Fetching(x))
    case Conflict => Resolve(c, x)
  }

  function ActScan(c: Console, h: History, o: Outcome): Console
    requires c.task.Starting? || c.task.LoadingState? || c.task.OpeningSave? || c.task.Hashing? || c.task.GettingLatest?
  {
    match c.task
    case Starting(opts) => if o.ok then c.(task := LoadingState(opts)) else Finish(c, Err(o.err))
    case LoadingState(opts) => if o.ok then c.(task := OpeningSave(opts, c.state)) else Finish(c, Err(o.err))
    case OpeningSave(opts, base) =>
      if o.ok && c.save.Archive? then c.(task := Hashing(opts, base))
      else if o.ok || o.err == NotFound then c.(task := GettingLatest(opts, ScanOf(Absent, base)))
      else Finish(c, Err(o.err))
    case Hashing(opts, base) =>
      if o.ok then c.(task := GettingLatest(opts, ScanOf(c.save, base))) else Finish(c, Err(o.err))
    case GettingLatest(opts, local) =>
      if o.ok then Dispatch(c, Context(opts, local, Latest(h))) else Finish(c, Err(o.err))
  }

  // do_upload up to the request.
  function ActPack(c: Console, o: Outcome): Console
    requires c.task.ConfirmingUpload? || c.task.Packing?
  {
    match c.task
    case ConfirmingUpload(x) =>
      if o.yes then c.(task := Packing(x, ParentOf(x.remote), false)) else Finish(c, Err(Cancelled))
    case Packing(x, parent, again) =>
      if !o.ok then Finish(c, Err(LocalError(o.err)))
      else if c.save.Absent? then Finish(c, Err(NotFound))
      else if c.save.payload == map[] then Finish(c, Err(EmptySave))
      else c.(task := Posting(x, parent, Package(DigestOf(c.save.payload), c.save.payload, true), again))
  }

  // The server takes an upload only on top of its latest version.
  function Accept(h: History, parent: nat, p: Payload): History {
    if parent == |h| then h + [p] else h
  }

  function ActPost(c: Console, h: History, o: Outcome): (Console, History)
    requires c.task.Posting?
  {
    var t := c.task;
    if o.ok && t.parent == |h| then
      (c.(task := WritingState(Base(|h| + 1, t.package.claimed))), h + [t.package.payload])
    else
      var e := if o.ok then VersionConflict else o.err;
      (if e == VersionConflict && !t.again then c.(task := Rereading(t.x)) else Finish(c, Err(e)),
       if !o.ok && o.landed then Accept(h, t.parent, t.package.payload) else h)
  }

  // Re-reading after a lost race, the person's choice, and the download.
  function ActResolve(c: Console, h: History, o: Outcome): Console
    requires c.task.Rereading? || c.task.Choosing? || c.task.Fetching?
  {
    match c.task
    case Rereading(x) =>
      if o.ok then Resolve(c, x.(remote := Latest(h))) else Finish(c, Err(o.err))
    case Choosing(x) =>
      if o.choice < 0 || o.choice == 2 then Finish(c, Ok)
      else if o.choice == 0 then c.(task := Packing(x, ParentOf(x.remote), true))
      else c.(task := Fetching(x))
    case Fetching(x) =>
      if x.remote.NoRemote? then Finish(c, Err(InvalidRequest))
      else if !o.ok then Finish(c, Err(o.err))
      else if o.package.claimed != x.remote.digest then Finish(c, Err(Checksum))
      else
        var record := Some(Base(x.remote.version, x.remote.digest));
        c.(task := CheckingRunning(Job(x.opts, o.package, record, x.opts.restoreConfirmed)))
  }

  // A failed backup stops the restore, except that "not found" reads as "no archive".
  function BackupFailed(c: Console, job: Job, e: Error): Console {
    if e == NotFound then c.(task := Verifying(job)) else Finish(c, Err(e))
  }

  function ActBackup(cfg: Config, c: Console, o: Outcome): Console
    requires c.task.CheckingRunning? || c.task.ConfirmingRestore? || c.task.BackupOpening? || c.task.BackupPacking? || c.task.BackupRenaming?
  {
    match c.task
    case CheckingRunning(job) =>
      if !o.ok then Finish(c, Err(o.err))
      else if job.agreed then c.(task := BackupOpening(job))
      else c.(task := ConfirmingRestore(job))
    case ConfirmingRestore(job) =>
      if o.yes then c.(task := BackupOpening(job.(agreed := true))) else Finish(c, Err(Cancelled))
    case BackupOpening(job) =>
      if c.save.Absent? then BackupFailed(c, job, if o.ok then NotFound else o.err)
      else if !o.ok then BackupFailed(c, job, o.err)
      else if c.save.payload == map[] then Finish(c, Err(EmptySave))
      else if BackupName(cfg, c.save.payload) in c.backups then c.(task := Verifying(job))
      else c.(task := BackupPacking(job))
    case BackupPacking(job) =>
      if o.ok then c.(task := BackupRenaming(job)) else BackupFailed(c, job, o.err)
    case BackupRenaming(job) =>
      if !o.ok || c.save.Absent? then BackupFailed(c, job, o.err)
      else
        c.(backups := c.backups[BackupName(cfg, c.save.payload) := c.save.payload], task := Verifying(job))
  }

  function ActWrite(cfg: Config, c: Console, o: Outcome): Console
    requires c.task.Verifying? || c.task.OpeningWrite? || c.task.Unpacking? || c.task.Committing? || c.task.Closing?
  {
    match c.task
    case Verifying(job) =>
      if !o.ok then Finish(c, Err(o.err))
      else if DigestOf(job.package.payload) != job.package.claimed then Finish(c, Err(Checksum))
      else if !job.package.ours then Finish(c, Err(InvalidManifest))
      else c.(task := OpeningWrite(job))
    case OpeningWrite(job) =>
      if o.ok then c.(task := Unpacking(job)) else Finish(c, Err(o.err))
    case Unpacking(job) =>
      if o.ok then c.(task := Committing(job))
      else Finish(c.(save := Residue(cfg, c.save, o.partial)), Err(o.err))
    case Committing(job) =>
      if o.ok then c.(save := Archive(job.package.payload), task := Closing(job))
      else Finish(c.(save := AfterFailedCommit(cfg, c.save, job, o)), Err(o.err))
    case Closing(job) =>
      if !o.ok then Finish(c, Err(o.err))
      else if job.record.None? then Finish(c, Ok)
      else c.(task := WritingState(job.record.value))
  }

  // state_save: a whole temporary file first, then the swap. On FAT the old record is
  // unlinked, which can fail without anybody looking, and a rename does not replace it.
  function ActRecord(cfg: Config, c: Console, o: Outcome): Console
    requires c.task.WritingState? || c.task.Unlinking? || c.task.Renaming?
  {
    match c.task
    case WritingState(b) =>
      if !o.ok then Finish(c, Err(LocalError(o.err)))
      else if cfg.atomicRename then c.(task := Renaming(b))
      else c.(task := Unlinking(b))
    case Unlinking(b) => c.(state := if o.ok then None else c.state, task := Renaming(b))
    case Renaming(b) =>
      if o.ok && (cfg.atomicRename || c.state.None?) then Finish(c.(state := Some(b)), Ok)
      else Finish(c, Err(LocalError(o.err)))
  }

  // One call by one console.
  function Act(cfg: Config, c: Console, h: History, o: Outcome): (Console, History) {
    match c.task
    case Idle(_) => (c, h)
    case Starting(_) | LoadingState(_) | OpeningSave(_, _) | Hashing(_, _) | GettingLatest(_, _) => (ActScan(c, h, o), h)
    case ConfirmingUpload(_) | Packing(_, _, _) => (ActPack(c, o), h)
    case Posting(_, _, _, _) => ActPost(c, h, o)
    case Rereading(_) | Choosing(_) | Fetching(_) => (ActResolve(c, h, o), h)
    case CheckingRunning(_) | ConfirmingRestore(_) | BackupOpening(_) | BackupPacking(_) | BackupRenaming(_) => (ActBackup(cfg, c, o), h)
    case Verifying(_) | OpeningWrite(_) | Unpacking(_) | Committing(_) | Closing(_) => (ActWrite(cfg, c, o), h)
    case WritingState(_) | Unlinking(_) | Renaming(_) => (ActRecord(cfg, c, o), h)
  }

  // Power lost. Temporary files stay behind and nothing reads them; an upload under way
  // may have reached the server, and a commit under way may have taken effect.
  function Crash(cfg: Config, c: Console, h: History, o: Outcome): (Console, History) {
    var save :=
      if c.task.Unpacking? then Residue(cfg, c.save, o.partial)
      else if c.task.Committing? then AfterFailedCommit(cfg, c.save, c.task.job, o)
      else c.save;
    (Finish(c.(save := save), Crashed),
     if c.task.Posting? && o.landed then Accept(h, c.task.parent, c.task.package.payload) else h)
  }

  // One event of a run. The index says which console; an event that is not possible in
  // the current state changes nothing.
  datatype Label =
    | Edit(i: nat, save: Save)
    | Sync(i: nat, opts: Opts)
    | Restore(i: nat, package: Package)
    | Call(i: nat, o: Outcome)
    | PowerLoss(i: nat, o: Outcome)

  function Event(cfg: Config, c: Console, h: History, l: Label): (Console, History) {
    match l
    case Edit(_, save) => (if c.task.Idle? then c.(save := save) else c, h)
    case Sync(_, opts) => (if c.task.Idle? then c.(task := Starting(opts)) else c, h)
    case Restore(_, package) =>
      (if c.task.Idle? then c.(task := CheckingRunning(Job(Opts(Ask, false, false), package, None, false))) else c, h)
    case Call(_, o) => Act(cfg, c, h, o)
    case PowerLoss(_, o) => Crash(cfg, c, h, o)
  }

  function Next(cfg: Config, s: System, l: Label): System {
    if l.i >= |s.consoles| then s
    else
      var (c, h) := Event(cfg, s.consoles[l.i], s.server, l);
      System(h, s.consoles[l.i := c])
  }

  function Run(cfg: Config, s: System, ls: seq<Label>): (s': System)
    ensures |s'.consoles| == |s.consoles|
    decreases |ls|
  {
    if ls == [] then s else Run(cfg, Next(cfg, s, ls[0]), ls[1..])
  }
}
