// The functions of core/src/sync.c as imperative code over one console's files, shown to
// take exactly the steps of the machine in SyncMachine. Between any two calls other
// consoles may have added versions to the server, and any call may fail.

module SyncClient {
  import opened Common
  import opened SyncTypes
  import opened SyncMachine
  import opened SyncSafety

  // What happens around one call: versions other consoles added before it, then the answer.
  datatype Move = Move(rivals: seq<Payload>, o: Outcome)

  // The machine run that answers the calls with plan(from), ..., plan(till - 1).
  function Replay(cfg: Config, c: Console, h: History, plan: nat -> Move, from: nat, till: nat): (Console, History)
    requires from <= till
    decreases till - from
  {
    if from == till then (c, h)
    else
      var (c', h') := Act(cfg, c, h + plan(from).rivals, plan(from).o);
      Replay(cfg, c', h', plan, from + 1, till)
  }

  lemma {:induction false} ReplayOneMore(cfg: Config, c: Console, h: History, plan: nat -> Move, from: nat, till: nat)
    requires from <= till
    ensures
      var (c1, h1) := Replay(cfg, c, h, plan, from, till);
      Replay(cfg, c, h, plan, from, till + 1) == Act(cfg, c1, h1 + plan(till).rivals, plan(till).o)
    decreases till - from
  {
    var (c', h') := Act(cfg, c, h + plan(from).rivals, plan(from).o);
    if from == till {
      assert Replay(cfg, c, h, plan, from, till + 1) == Replay(cfg, c', h', plan, from + 1, till + 1);
    } else {
      ReplayOneMore(cfg, c', h', plan, from + 1, till);
    }
  }

  // Names the one call count a statement about the replay is needed for.
  predicate Now(n: nat) { true }

  // What a restore did, in order. A commit can take effect and still report a failure. A backup is skipped for the NOT_FOUND of some call.
  datatype Happened = SaidYes | BackupTaken | BackupSkipped(call: nat) | PackageVerified | SaveWritten | SaveCommitted

  class Server {
    var history: History

    constructor () ensures history == [] { history := []; }

    // POST blob: one transaction.
    method Put(parent: nat, p: Payload) returns (accepted: bool)
      modifies this
      ensures accepted == (parent == |old(history)|)
      ensures history == Accept(old(history), parent, p)
    {
      accepted := parent == |history|;
      if accepted { history := history + [p]; }
    }

    method Grow(rivals: seq<Payload>)
      modifies this
      ensures history == old(history) + rivals
    {
      history := history + rivals;
    }
  }

  class Client {
    const cfg: Config
    const plan: nat -> Move
    const server: Server
    var save: Save
    var state: Option<Base>
    var backups: map<int, Payload>
    var calls: nat                 // calls made so far
    var log: seq<Happened>
    // The machine's view, moved along by every call.
    ghost var start: nat
    ghost var machine0: Console
    ghost var history0: History
    ghost var machine: Console
    ghost var seen: History

    constructor (cfg: Config, plan: nat -> Move, server: Server, save: Save)
      ensures this.cfg == cfg && this.plan == plan && this.server == server
      ensures this.save == save && state == None && backups == map[] && log == [] && calls == 0
      ensures At(Idle(Ok))
    {
      this.cfg, this.plan, this.server := cfg, plan, server;
      this.save, this.state, this.backups := save, None, map[];
      calls, log, start := 0, [], 0;
      machine0, machine := Console(save, None, map[], Idle(Ok)), Console(save, None, map[], Idle(Ok));
      history0, seen := server.history, server.history;
    }

    // The ghost machine has really been run over the calls made.
    ghost predicate Tracks()
      reads this`start, this`calls, this`machine0, this`history0, this`machine, this`seen
    {
      start <= calls
      && forall n {:trigger Now(n)} :: Now(n) && n == calls ==> Replay(cfg, machine0, history0, plan, start, n) == (machine, seen)
    }

    // This code and the machine agree on every file and on the server.
    ghost predicate Agrees()
      reads this`start, this`calls, this`machine0, this`history0, this`machine, this`seen, this`save, this`state, this`backups, server
    {
      && Tracks()
      && machine.save == save && machine.state == state && machine.backups == backups
      && seen == server.history
    }

    ghost predicate At(t: Task)
      reads this`start, this`calls, this`machine0, this`history0, this`machine, this`seen, this`save, this`state, this`backups, server
    {
      Agrees() && machine.task == t
    }

    // One call: rivals first, then the answer. The machine takes the same step.
    method Call() returns (o: Outcome)
      requires Agrees()
      modifies this`calls, this`machine, this`seen, server
      ensures Tracks() && calls == old(calls) + 1
      ensures o == plan(old(calls)).o
      ensures server.history == old(server.history) + plan(old(calls)).rivals
      ensures (machine, seen) == Act(cfg, old(machine), server.history, o)
    {
      var m := plan(calls);
      server.Grow(m.rivals);
      o := m.o;
      assert Now(calls);
      ReplayOneMore(cfg, machine0, history0, plan, start, calls);
      machine, seen := Act(cfg, machine, server.history, o).0, Act(cfg, machine, server.history, o).1;
      calls := calls + 1;
    }

    // The same, for callers that know which part of the code they are in.
    method CallRecord() returns (o: Outcome)
      requires Agrees()
      requires machine.task.WritingState? || machine.task.Unlinking? || machine.task.Renaming?
      modifies this`calls, this`machine, this`seen, server
      ensures Tracks() && calls == old(calls) + 1 && o == plan(old(calls)).o
      ensures machine == ActRecord(cfg, old(machine), o) && seen == server.history
      ensures old(server.history) <= server.history
    {
      o := Call();
    }

    method CallWrite() returns (o: Outcome)
      requires Agrees()
      requires machine.task.Verifying? || machine.task.OpeningWrite? || machine.task.Unpacking? || machine.task.Committing? || machine.task.Closing?
      modifies this`calls, this`machine, this`seen, server
      ensures Tracks() && calls == old(calls) + 1 && o == plan(old(calls)).o
      ensures machine == ActWrite(cfg, old(machine), o) && seen == server.history
      ensures old(server.history) <= server.history
    {
      o := Call();
    }

    method CallResolve() returns (o: Outcome)
      requires Agrees()
      requires machine.task.Rereading? || machine.task.Choosing? || machine.task.Fetching?
      modifies this`calls, this`machine, this`seen, server
      ensures Tracks() && calls == old(calls) + 1 && o == plan(old(calls)).o
      ensures machine == ActResolve(old(machine), server.history, o) && seen == server.history
      ensures old(server.history) <= server.history
    {
      o := Call();
    }

    method CallPost() returns (o: Outcome)
      requires Agrees() && machine.task.Posting?
      modifies this`calls, this`machine, this`seen, server
      ensures Tracks() && calls == old(calls) + 1 && o == plan(old(calls)).o
      ensures (machine, seen) == ActPost(old(machine), server.history, o)
      ensures old(server.history) <= server.history
    {
      o := Call();
    }

    method CallPack() returns (o: Outcome)
      requires Agrees()
      requires machine.task.ConfirmingUpload? || machine.task.Packing?
      modifies this`calls, this`machine, this`seen, server
      ensures Tracks() && calls == old(calls) + 1 && o == plan(old(calls)).o
      ensures machine == ActPack(old(machine), o) && seen == server.history
      ensures old(server.history) <= server.history
    {
      o := Call();
    }

    method CallScan() returns (o: Outcome)
      requires Agrees()
      requires machine.task.Starting? || machine.task.LoadingState? || machine.task.OpeningSave? || machine.task.Hashing? || machine.task.GettingLatest?
      modifies this`calls, this`machine, this`seen, server
      ensures Tracks() && calls == old(calls) + 1 && o == plan(old(calls)).o
      ensures machine == ActScan(old(machine), server.history, o) && seen == server.history
      ensures old(server.history) <= server.history
    {
      o := Call();
    }

    method CallBackup() returns (o: Outcome)
      requires Agrees()
      requires machine.task.CheckingRunning? || machine.task.ConfirmingRestore? || machine.task.BackupOpening? || machine.task.BackupPacking? || machine.task.BackupRenaming?
      modifies this`calls, this`machine, this`seen, server
      ensures Tracks() && calls == old(calls) + 1 && o == plan(old(calls)).o
      ensures machine == ActBackup(cfg, old(machine), o) && seen == server.history
      ensures old(server.history) <= server.history
    {
      o := Call();
    }

    // ------------------------------------------------------------------ state file

    method StateSave(b: Base) returns (r: Result)
      requires At(WritingState(b))
      modifies this`calls, this`machine, this`seen, this`state, server
      ensures At(Idle(r)) && !r.Crashed? && r != Err(VersionConflict)
      ensures r == Ok ==> state == Some(b)
      ensures old(server.history) <= server.history
      ensures r != Ok ==> state == old(state) || (state == None && !cfg.atomicRename)
      ensures calls >= old(calls)
    {
      var o := CallRecord();
      if !o.ok { return Err(LocalError(o.err)); }
      if !cfg.atomicRename {
        o := CallRecord();
        if o.ok { state := None; }
      }
      o := CallRecord();
      if !o.ok || !(cfg.atomicRename || state.None?) { return Err(LocalError(o.err)); }
      state := Some(b);
      return Ok;
    }

    // ---------------------------------------------------------------------- backup

    // A file under the backup name of p holds p.
    predicate Holds(p: Payload)
      reads this`backups
    {
      BackupName(cfg, p) in backups && backups[BackupName(cfg, p)] == p
    }

    predicate SavedAs()
      reads this`save, this`backups
    {
      save.Archive? && Holds(save.payload)
    }

    predicate NameFree()
      reads this`save, this`backups
    {
      save.Archive? && BackupName(cfg, save.payload) !in backups
    }

    // Where the code goes on after a backup with this result.
    static function AfterBackup(job: Job, r: Result): Task {
      if r == Ok || r == Err(NotFound) then Verifying(job) else Idle(r)
    }

    // pack_title_to for a backup: a temporary file, then the rename.
    method PackBackup(ghost job: Job) returns (r: Result)
      requires At(BackupPacking(job)) && save.Archive?
      modifies this`calls, this`machine, this`seen, this`backups, server
      ensures At(AfterBackup(job, r)) && !r.Crashed? && calls > old(calls)
      ensures r == Ok ==> backups == old(backups)[BackupName(cfg, save.payload) := save.payload]
      ensures r != Ok ==> backups == old(backups) && !plan(calls - 1).o.ok && r == Err(plan(calls - 1).o.err)
    {
      var o := CallBackup();
      if !o.ok { return Err(o.err); }
      o := CallBackup();
      if !o.ok { return Err(o.err); }
      backups := backups[BackupName(cfg, save.payload) := save.payload];
      return Ok;
    }

    // daemoon_sync_backup_local. An existing file of the right name is taken for the backup.
    method BackupLocal(ghost job: Job) returns (r: Result)
      requires At(BackupOpening(job))
      modifies this`calls, this`machine, this`seen, this`backups, server
      ensures At(AfterBackup(job, r)) && !r.Crashed? && calls > old(calls)
      ensures r == Ok ==> save.Archive? && save.payload != map[]
      // When success is reported, the save is in the backups exactly if no other payload
      // had its twelve digits.
      ensures r == Ok ==> (SavedAs() <==> old(NameFree() || SavedAs()))
      // NOT_FOUND for an archive that is there comes from a call that answered it.
      ensures r == Err(NotFound) && save.Archive? ==> !plan(calls - 1).o.ok && plan(calls - 1).o.err == NotFound
      ensures backups == old(backups) || (save.Archive? && backups == old(backups)[BackupName(cfg, save.payload) := save.payload])
    {
      var o := CallBackup();
      if save.Absent? { return Err(if o.ok then NotFound else o.err); }
      if !o.ok { return Err(o.err); }
      if save.payload == map[] { return Err(EmptySave); }
      if BackupName(cfg, save.payload) !in backups {
        r := PackBackup(job);
        return;
      }
      return Ok;
    }

    // --------------------------------------------------------------------- restore

    static function AfterRestore(job: Job, r: Result): Task {
      if r == Ok && job.record.Some? then WritingState(job.record.value) else Idle(r)
    }

    // restore_package, step 2: nothing is written before the package is verified and is
    // for this title.
    method VerifyPackage(pkg: Package, ghost job: Job) returns (r: Result)
      requires At(Verifying(job)) && job.package == pkg
      modifies this`calls, this`machine, this`seen, server
      ensures At(if r == Ok then OpeningWrite(job) else Idle(r)) && !r.Crashed? && calls > old(calls)
      ensures r == Ok ==> Verified(pkg)
    {
      var o := CallWrite();
      if !o.ok { return Err(o.err); }
      if DigestOf(pkg.payload) != pkg.claimed { return Err(Checksum); }
      if !pkg.ours { return Err(InvalidManifest); }
      return Ok;
    }

    // restore_package, step 3: write, then commit, and treat a failed commit as a failed
    // restore.
    method WritePackage(pkg: Package, ghost job: Job) returns (r: Result)
      requires At(OpeningWrite(job)) && job.package == pkg
      modifies this`calls, this`machine, this`seen, this`save, this`log, server
      ensures At(AfterRestore(job, r)) && !r.Crashed? && calls > old(calls)
      ensures log == old(log) || log == old(log) + [SaveWritten] || log == old(log) + [SaveWritten, SaveCommitted]
      ensures r == Ok ==> save == Archive(pkg.payload) && |log| == |old(log)| + 2
      ensures save != old(save) ==> |log| > |old(log)|
      ensures save != old(save) && cfg.transactional ==> |log| == |old(log)| + 2
    {
      var o := CallWrite();
      if !o.ok { return Err(o.err); }
      log := log + [SaveWritten];
      o := CallWrite();
      if o.ok {
        r := CommitPackage(pkg, job);
        return;
      }
      save := Residue(cfg, save, o.partial);
      return Err(o.err);
    }

    method CommitPackage(pkg: Package, ghost job: Job) returns (r: Result)
      requires At(Committing(job)) && job.package == pkg
      modifies this`calls, this`machine, this`seen, this`save, this`log, server
      ensures At(AfterRestore(job, r)) && !r.Crashed? && calls > old(calls)
      ensures log == old(log) || log == old(log) + [SaveCommitted]
      ensures r == Ok ==> save == Archive(pkg.payload) && |log| == |old(log)| + 1
      ensures save != old(save) && cfg.transactional ==> |log| == |old(log)| + 1
    {
      var o := CallWrite();
      if !o.ok {
        if o.landed {
          save := Archive(pkg.payload);
          log := log + [SaveCommitted];
        } else {
          save := Residue(cfg, save, o.partial);
        }
        return Err(o.err);
      }
      save := Archive(pkg.payload);
      log := log + [SaveCommitted];
      o := CallWrite();
      if !o.ok { return Err(o.err); }
      return Ok;
    }

    // Call k answered NOT_FOUND.
    predicate NotFoundAt(k: nat) { !plan(k).o.ok && plan(k).o.err == NotFound }

    // restore_package. The log of what happened is a prefix of the script below: a write
    // to the save comes after the yes, the backup and the verification. The backup of an
    // archive that is there is skipped only when one of its calls answered NOT_FOUND, and
    // once it is taken the old save is in the backups unless its digits were taken.
    method RestorePackage(pkg: Package, confirmed: bool, ghost job: Job) returns (r: Result, ghost how: Happened)
      requires At(CheckingRunning(job)) && job.package == pkg && job.agreed == confirmed
      modifies this`calls, this`machine, this`seen, this`save, this`backups, this`log, server
      ensures At(AfterRestore(job, r)) && !r.Crashed? && calls > old(calls)
      ensures old(log) <= log <= old(log) + Script(confirmed, how)
      ensures how == BackupTaken || how.BackupSkipped?
      ensures how.BackupSkipped? && old(save).Archive? ==>
        old(calls) + (if confirmed then 1 else 2) <= how.call < calls && NotFoundAt(how.call)
      ensures how in log[|old(log)|..] && how == BackupTaken ==>
        old(save).Archive? && (Holds(old(save).payload) <==> old(NameFree() || SavedAs()))
      ensures var done := |log| - |old(log)| + (if confirmed then 1 else 0);
        && (done >= 3 ==> Verified(pkg))
        && (save != old(save) ==> done >= if cfg.transactional then 5 else 4)
        && (r == Ok ==> save == Archive(pkg.payload) && done == 5)
    {
      hide Client.At, Client.Holds, Client.SavedAs, Client.NameFree, Verified;
      how := BackupTaken;
      r := AskFirst(confirmed, job);
      if r != Ok { return; }
      r, how := RestoreConfirmed(pkg, job.(agreed := true));
    }

    // The title must not be running, and the overwrite must be agreed to.
    method AskFirst(confirmed: bool, ghost job: Job) returns (r: Result)
      requires At(CheckingRunning(job)) && job.agreed == confirmed
      modifies this`calls, this`machine, this`seen, this`log, server
      ensures At(if r == Ok then BackupOpening(job.(agreed := true)) else Idle(r)) && !r.Crashed? && calls > old(calls)
      ensures r == Ok ==> calls == old(calls) + (if confirmed then 1 else 2)
      ensures log == old(log) + if r == Ok && !confirmed then [SaidYes] else []
    {
      var o := CallBackup();
      if !o.ok { return Err(o.err); }
      if !confirmed {
        o := CallBackup();
        if !o.yes { return Err(Cancelled); }
        log := log + [SaidYes];
      }
      return Ok;
    }

    method RestoreConfirmed(pkg: Package, ghost job: Job) returns (r: Result, ghost how: Happened)
      requires At(BackupOpening(job)) && job.package == pkg
      modifies this`calls, this`machine, this`seen, this`save, this`backups, this`log, server
      ensures At(AfterRestore(job, r)) && !r.Crashed? && calls > old(calls)
      ensures old(log) <= log <= old(log) + [how, PackageVerified, SaveWritten, SaveCommitted]
      ensures how == BackupTaken || how.BackupSkipped?
      ensures how.BackupSkipped? && old(save).Archive? ==> old(calls) <= how.call < calls && NotFoundAt(how.call)
      ensures log != old(log) && how == BackupTaken ==>
        old(save).Archive? && (Holds(old(save).payload) <==> old(NameFree() || SavedAs()))
      ensures |log| >= |old(log)| + 2 ==> Verified(pkg)
      ensures save != old(save) ==> |log| >= |old(log)| + if cfg.transactional then 4 else 3
      ensures r == Ok ==> save == Archive(pkg.payload) && |log| == |old(log)| + 4
    {
      hide Client.At, Client.Holds, Client.NameFree, Verified;
      how := BackupTaken;
      r := BackupLocal(job);
      if r != Ok && r != Err(NotFound) { return; }
      if r != Ok {
        how := BackupSkipped(calls - 1);
        log := log + [BackupSkipped(calls - 1)];
      } else {
        log := log + [BackupTaken];
      }
      r := VerifyAndWrite(pkg, job);
    }

    method VerifyAndWrite(pkg: Package, ghost job: Job) returns (r: Result)
      requires At(Verifying(job)) && job.package == pkg
      modifies this`calls, this`machine, this`seen, this`save, this`log, server
      ensures At(AfterRestore(job, r)) && !r.Crashed? && calls > old(calls) && backups == old(backups)
      ensures old(log) <= log <= old(log) + [PackageVerified, SaveWritten, SaveCommitted]
      ensures |log| >= |old(log)| + 1 ==> Verified(pkg)
      ensures save != old(save) ==> |log| >= |old(log)| + if cfg.transactional then 3 else 2
      ensures r == Ok ==> save == Archive(pkg.payload) && |log| == |old(log)| + 3
    {
      r := VerifyPackage(pkg, job);
      if r != Ok { return; }
      log := log + [PackageVerified];
      r := WritePackage(pkg, job);
    }

    // ------------------------------------------------------------ upload and download

    // do_upload: pack into a staging file, send it, record the version it got.
    method DoUpload(parent: nat, again: bool, ghost x: Context) returns (r: Result)
      requires At(Packing(x, parent, again))
      modifies this`calls, this`machine, this`seen, this`state, server
      ensures At(if r == Err(VersionConflict) && !again then Rereading(x) else Idle(r)) && !r.Crashed?
      ensures calls > old(calls) && old(server.history) <= server.history
      ensures r == Ok ==> save.Archive? && save.payload != map[] && save.payload in server.history
    {
      var o := CallPack();
      if !o.ok { return Err(LocalError(o.err)); }
      if save.Absent? { return Err(NotFound); }
      if save.payload == map[] { return Err(EmptySave); }
      r := Send(parent, again, x, Package(DigestOf(save.payload), save.payload, true));
    }

    method Send(parent: nat, again: bool, ghost x: Context, pkg: Package) returns (r: Result)
      requires At(Posting(x, parent, pkg, again))
      modifies this`calls, this`machine, this`seen, this`state, server
      ensures At(if r == Err(VersionConflict) && !again then Rereading(x) else Idle(r)) && !r.Crashed?
      ensures calls > old(calls) && old(server.history) <= server.history
      ensures r == Ok ==> pkg.payload in server.history
    {
      var o := CallPost();
      if !o.ok {
        if o.landed { var _ := server.Put(parent, pkg.payload); }
        return Err(o.err);
      }
      var version := |server.history| + 1;
      var accepted := server.Put(parent, pkg.payload);
      if !accepted { return Err(VersionConflict); }
      ghost var h := server.history;
      assert h[|h| - 1] == pkg.payload;
      r := StateSave(Base(version, pkg.claimed));
      assert h <= server.history;
    }

    // do_download: fetch the version the server announced, make sure that is what came,
    // restore it, record it.
    method DoDownload(remote: Remote, restoreConfirmed: bool, ghost x: Context) returns (r: Result)
      requires At(Fetching(x)) && x.remote == remote && x.opts.restoreConfirmed == restoreConfirmed
      modifies this`calls, this`machine, this`seen, this`save, this`state, this`backups, this`log, server
      ensures At(Idle(r)) && !r.Crashed? && calls > old(calls)
      ensures r == Ok ==> remote.Remote? && state == Some(Base(remote.version, remote.digest)) && save == Archive(remote.digest.payload)
      ensures old(log) <= log
    {
      var o := CallResolve();
      if remote.NoRemote? { return Err(InvalidRequest); }
      if !o.ok { return Err(o.err); }
      if o.package.claimed != remote.digest { return Err(Checksum); }
      var record := Base(remote.version, remote.digest);
      ghost var how;
      r, how := RestorePackage(o.package, restoreConfirmed, Job(x.opts, o.package, Some(record), restoreConfirmed));
      if r != Ok { return; }
      r := StateSave(record);
    }

    // resolve_conflict. Whatever is chosen, nothing is merged.
    method ResolveConflict(opts: Opts, remote: Remote, ghost x: Context) returns (r: Result)
      requires Agrees() && machine == Resolve(machine, x) && x.opts == opts && x.remote == remote
      modifies this`calls, this`machine, this`seen, this`save, this`state, this`backups, this`log, server
      ensures At(Idle(r)) && !r.Crashed? && calls >= old(calls)
    {
      var policy := opts.conflict;
      if policy.Ask? {
        var o := CallResolve();
        if o.choice < 0 || o.choice == 2 { return Ok; }
        policy := if o.choice == 0 then KeepLocal else KeepServer;
      }
      if policy.Defer? { return Ok; }
      if policy.KeepLocal? {
        r := DoUpload(ParentOf(remote), true, x);
      } else {
        r := DoDownload(remote, opts.restoreConfirmed, x);
      }
    }

    // ----------------------------------------------------------------- the whole sync

    // daemoon_sync_scan_local.
    method ScanLocal(ghost opts: Opts) returns (r: Result, local: LocalState)
      requires At(LoadingState(opts))
      modifies this`calls, this`machine, this`seen, server
      ensures At(if r == Ok then GettingLatest(opts, local) else Idle(r)) && !r.Crashed? && calls > old(calls)
      ensures r == Ok ==> local == ScanOf(save, state) || (local == ScanOf(Absent, state) && plan(calls - 1).o.err == NotFound)
    {
      local := ScanOf(Absent, None);
      var o := CallScan();
      if !o.ok { return Err(o.err), local; }
      o := CallScan();
      if (o.ok && save.Absent?) || (!o.ok && o.err == NotFound) {
        return Ok, ScanOf(Absent, state);
      }
      if !o.ok { return Err(o.err), local; }
      o := CallScan();
      if !o.ok { return Err(o.err), local; }
      return Ok, ScanOf(save, state);
    }

    // What sync_title_with does once the answers are in.
    method Take(action: Action, local: LocalState, remote: Remote, opts: Opts, ghost x: Context) returns (r: Result)
      requires Agrees() && machine == Dispatch(machine, x) && x == Context(opts, local, remote) && action == Decide(local, remote)
      modifies this`calls, this`machine, this`seen, this`save, this`state, this`backups, this`log, server
      ensures At(Idle(r)) && !r.Crashed? && calls >= old(calls)
    {
      match action
      case Nothing =>
        if local.hasSave && remote.Remote? && local.baseVersion != remote.version {
          r := StateSave(Base(remote.version, local.digest));
          return;
        }
        return Ok;
      case Upload => r := TakeUpload(remote, opts, x);
      case Download => r := DoDownload(remote, opts.restoreConfirmed, x);
      case Conflict => r := ResolveConflict(opts, remote, x);
    }

    method TakeUpload(remote: Remote, opts: Opts, ghost x: Context) returns (r: Result)
      requires At(if opts.uploadConfirmed then Packing(x, ParentOf(remote), false) else ConfirmingUpload(x))
      requires x.opts == opts && x.remote == remote
      modifies this`calls, this`machine, this`seen, this`save, this`state, this`backups, this`log, server
      ensures At(Idle(r)) && !r.Crashed? && calls > old(calls)
    {
      if !opts.uploadConfirmed {
        var o := CallPack();
        if !o.yes { return Err(Cancelled); }
      }
      r := DoUpload(ParentOf(remote), false, x);
      if r == Err(VersionConflict) {
        // Someone else uploaded in between: re-read, and never overwrite.
        var o := CallResolve();
        if !o.ok { return Err(o.err); }
        var latest := Latest(server.history);
        r := ResolveConflict(opts, latest, x.(remote := latest));
      }
    }

    // daemoon_sync_title_with. Whatever fails and whoever else uploads meanwhile, the call
    // does exactly what the machine does with the same answers, and ends.
    method SyncTitleWith(opts: Opts) returns (r: Result)
      requires Agrees() && machine.task.Idle?
      modifies this`calls, this`machine, this`seen, this`save, this`state, this`backups, this`log, this`start, this`machine0, this`history0, server
      ensures Agrees() && machine.task == Idle(r) && calls > old(calls)
      ensures
        var before := Console(old(save), old(state), old(backups), Starting(opts));
        Replay(cfg, before, old(server.history), plan, old(calls), calls) == (Console(save, state, backups, Idle(r)), server.history)
    {
      start, history0 := calls, server.history;
      machine := machine.(task := Starting(opts));
      machine0 := machine;
      r := SyncFrom(opts);
      assert Now(calls);
    }

    method SyncFrom(opts: Opts) returns (r: Result)
      requires At(Starting(opts))
      modifies this`calls, this`machine, this`seen, this`save, this`state, this`backups, this`log, server
      ensures At(Idle(r)) && !r.Crashed? && calls > old(calls)
    {
      var o := CallScan();
      if !o.ok { return Err(o.err); }
      var local;
      r, local := ScanLocal(opts);
      if r != Ok { return; }
      r := DecideAndTake(local, opts);
    }

    // The rest of sync_title_with: ask the server, decide, act.
    method DecideAndTake(local: LocalState, opts: Opts) returns (r: Result)
      requires At(GettingLatest(opts, local))
      modifies this`calls, this`machine, this`seen, this`save, this`state, this`backups, this`log, server
      ensures At(Idle(r)) && !r.Crashed? && calls > old(calls)
    {
      var o := CallScan();
      if !o.ok { return Err(o.err); }
      var remote := Latest(server.history);
      r := Take(Decide(local, remote), local, remote, opts, Context(opts, local, remote));
    }
  }

  // A restore does these things in this order, and may stop after any of them.
  function Script(confirmed: bool, how: Happened): seq<Happened> {
    (if confirmed then [] else [SaidYes]) + [how, PackageVerified, SaveWritten, SaveCommitted]
  }

  // -------------------------------------------------- what the machine says about it

  // No call of this replay answers NOT_FOUND for an archive that is there, no other backup
  // has the name of the save's, and no rival uploads an empty save.
  predicate FairReplay(cfg: Config, c: Console, h: History, plan: nat -> Move, from: nat, till: nat)
    requires from <= till
    decreases till - from
  {
    from == till ||
    (var m := plan(from);
     var (c', h') := Act(cfg, c, h + m.rivals, m.o);
     HonestCall(cfg, c, Label.Call(0, m.o)) && NoEmptyVersion(m.rivals) && FairReplay(cfg, c', h', plan, from + 1, till))
  }

  // The scan of this replay, if it has one, finds an archive that is there.
  predicate SightedReplay(cfg: Config, c: Console, h: History, plan: nat -> Move, from: nat, till: nat)
    requires from <= till
    decreases till - from
  {
    from == till ||
    (var m := plan(from);
     var (c', h') := Act(cfg, c, h + m.rivals, m.o);
     ScanIsHonest(c, Label.Call(0, m.o)) && SightedReplay(cfg, c', h', plan, from + 1, till))
  }

  // One whole sync call, with rivals and failures anywhere in it: what the console and the
  // server held can still be had, and with the options of an unattended run and an honest
  // scan a replaced save was on the server.
  lemma {:induction false} ReplayIsSafe(cfg: Config, c: Console, h: History, plan: nat -> Move, from: nat, till: nat)
    requires ConsoleTrue(cfg, c, h) && NoEmptyVersion(h)
    requires from <= till && FairReplay(cfg, c, h, plan, from, till)
    ensures
      var (c', h') := Replay(cfg, c, h, plan, from, till);
      && ConsoleTrue(cfg, c', h') && NoEmptyVersion(h') && h <= h'
      && (forall p | Survives(cfg, c, h, p) :: Survives(cfg, c', h', p))
      && (UnattendedTask(c.task) && SightTrue(c, h) && SightedReplay(cfg, c, h, plan, from, till) && c'.save != c.save ==> OnServer(c, h'))
    decreases till - from
  {
    if from < till {
      var m := plan(from);
      var h0 := h + m.rivals;
      GrowthKeeps(cfg, c, h, h0);
      CallKeeps(cfg, c, h0, m.o);
      var (c1, h1) := Act(cfg, c, h0, m.o);
      StepIsSafe(cfg, c, h0, m.o);
      ReplayIsSafe(cfg, c1, h1, plan, from + 1, till);
      var (c', h') := Replay(cfg, c1, h1, plan, from + 1, till);
      assert h <= h0 <= h1 <= h';
      forall p | Survives(cfg, c, h, p) ensures Survives(cfg, c', h', p) {
        assert p in h ==> p in h0;
        assert Survives(cfg, c, h0, p);
      }
      if UnattendedTask(c.task) && SightTrue(c, h) && SightedReplay(cfg, c, h, plan, from, till) {
        SightGrows(c, h, h0);
        SightedStep(cfg, c, h0, m.o);
        assert OnServer(c, h0) && c.save.Archive? ==> c.save.payload in h';
      }
    }
  }

  lemma StepIsSafe(cfg: Config, c: Console, h: History, o: Outcome)
    requires ConsoleTrue(cfg, c, h) && NoEmptyVersion(h) && HonestCall(cfg, c, Label.Call(0, o))
    ensures
      var (c', h') := Act(cfg, c, h, o);
      && (forall p | Survives(cfg, c, h, p) :: Survives(cfg, c', h', p))
  {
    var (c', h') := Act(cfg, c, h, o);
    forall p | Survives(cfg, c, h, p) ensures Survives(cfg, c', h', p) {
      EventSurvives(cfg, c, h, Label.Call(0, o), p);
    }
  }

  lemma SightedStep(cfg: Config, c: Console, h: History, o: Outcome)
    requires ConsoleTrue(cfg, c, h) && UnattendedTask(c.task) && SightTrue(c, h) && ScanIsHonest(c, Label.Call(0, o))
    ensures
      var (c', h') := Act(cfg, c, h, o);
      UnattendedTask(c'.task) && SightTrue(c', h') && (c'.save != c.save ==> OnServer(c, h))
  {
    UnattendedKeeps(cfg, c, h, Label.Call(0, o));
    SightKeeps(cfg, c, h, Label.Call(0, o));
    if Act(cfg, c, h, o).0.save != c.save {
      SaveChangesOnlyWhenWriting(cfg, c, h, Label.Call(0, o));
    }
  }
}
