// What a sync answers: which failure ends it with which code, which failures it goes on
// after, and where alone it can end well (core/src/sync.c, the DAEMOON_TRYs and returns).

module SyncCodes {
  import opened Common
  import opened SyncTypes
  import opened SyncMachine

  // The calls that cannot fail: questions put to the person, and the unlink nobody looks at.
  predicate CannotFail(t: Task) {
    t.Idle? || t.ConfirmingUpload? || t.Choosing? || t.ConfirmingRestore? || t.Unlinking?
  }

  // What a NOT_FOUND means as "there is no archive", and the lost race of a first upload.
  predicate GoesOnAfter(t: Task, e: Error) {
    || ((t.OpeningSave? || t.BackupOpening? || t.BackupPacking? || t.BackupRenaming?) && e == NotFound)
    || (t.Posting? && !t.again && e == VersionConflict)
  }

  // Calls that only the server's answer to an upload lets end with VERSION_CONFLICT.
  predicate LocalCall(t: Task) { t.Packing? || t.WritingState? || t.Renaming? }

  // A call that fails ends the sync with its own code, except where the code reads it as an
  // answer; and a download that has nothing to fetch is refused before it is tried.
  lemma FailureEndsTheSync(cfg: Config, c: Console, h: History, o: Outcome)
    requires !CannotFail(c.task) && !o.ok
    ensures
      var d := Act(cfg, c, h, o).0;
      if GoesOnAfter(c.task, o.err) then !d.task.Idle?
      else if c.task.Fetching? && c.task.x.remote.NoRemote? then d.task == Idle(Err(InvalidRequest))
      else d.task == Idle(Err(if LocalCall(c.task) && o.err == VersionConflict then OtherError else o.err))
  {
  }

  // A sync ends well only when there is nothing to do, nothing is to be done about a
  // conflict, or the last file is written.
  lemma EndsWellOnly(cfg: Config, c: Console, h: History, o: Outcome)
    requires !c.task.Idle? && Act(cfg, c, h, o).0.task == Idle(Ok)
    ensures
      || (c.task.GettingLatest? && o.ok)
      || (c.task.Rereading? && o.ok && c.task.x.opts.conflict == Defer)
      || (c.task.Choosing? && (o.choice < 0 || o.choice == 2))
      || (c.task.Closing? && o.ok && c.task.job.record.None?)
      || (c.task.Renaming? && o.ok)
  {
    hide Decide;
  }

  // Answers that end the sync although the call went through.
  lemma Refusals(cfg: Config, c: Console, h: History, o: Outcome)
    requires !c.task.Idle? && c.task != Idle(Crashed)
    ensures
      var d := Act(cfg, c, h, o).0;
      && (c.task.ConfirmingUpload? || c.task.ConfirmingRestore? ==> (d.task == Idle(Err(Cancelled)) <==> !o.yes))
      && (c.task.Packing? && o.ok && c.save.Absent? ==> d.task == Idle(Err(NotFound)))
      && ((c.task.Packing? || c.task.BackupOpening?) && o.ok && c.save == SyncTypes.Archive(map[]) ==> d.task == Idle(Err(EmptySave)))
      && (c.task.Fetching? && o.ok && c.task.x.remote.Remote? && o.package.claimed != c.task.x.remote.digest ==> d.task == Idle(Err(Checksum)))
      && (c.task.Verifying? && o.ok && DigestOf(c.task.job.package.payload) != c.task.job.package.claimed ==> d.task == Idle(Err(Checksum)))
      && (c.task.Verifying? && o.ok && DigestOf(c.task.job.package.payload) == c.task.job.package.claimed && !c.task.job.package.ours ==>
            d.task == Idle(Err(InvalidManifest)))
      && (c.task.Posting? && c.task.again && o.ok && c.task.parent != |h| ==> d.task == Idle(Err(VersionConflict)))
  {
  }

  // On a platform with transactions only a commit that takes effect changes an archive, and
  // it is then the package's payload; elsewhere an interrupted write leaves what it leaves.
  lemma NothingWithoutCommit(cfg: Config, c: Console, h: History, o: Outcome)
    requires cfg.transactional
    ensures
      var d, e := Act(cfg, c, h, o).0, Crash(cfg, c, h, o).0;
      && (d.save != c.save ==> c.task.Committing? && (o.ok || o.landed) && d.save == SyncTypes.Archive(c.task.job.package.payload))
      && (e.save != c.save ==> c.task.Committing? && o.landed && e.save == SyncTypes.Archive(c.task.job.package.payload))
      && (c.task.Committing? && (o.ok || o.landed) ==> d.save == SyncTypes.Archive(c.task.job.package.payload))
  {
  }

  // The history grows exactly when an upload that fits its end reaches the server, whether
  // the console hears of it or not, and then by what was sent.
  lemma UploadLands(cfg: Config, c: Console, h: History, o: Outcome)
    ensures
      var g, k := Act(cfg, c, h, o).1, Crash(cfg, c, h, o).1;
      && (g == if c.task.Posting? && c.task.parent == |h| && (o.ok || o.landed) then h + [c.task.package.payload] else h)
      && (k == if c.task.Posting? && c.task.parent == |h| && o.landed then h + [c.task.package.payload] else h)
  {
  }

  // What can begin on an idle console, and that nothing begins on a busy one; a restore by a
  // person always asks, backs up and writes no record.
  lemma EventsBegin(cfg: Config, c: Console, h: History, i: nat, save: Save, opts: Opts, package: Package)
    ensures
      var edited, synced, restored := Event(cfg, c, h, Edit(i, save)).0, Event(cfg, c, h, Sync(i, opts)).0, Event(cfg, c, h, Restore(i, package)).0;
      if c.task.Idle? then
        && edited == c.(save := save) && synced == c.(task := Starting(opts))
        && restored.task.CheckingRunning? && restored.(task := c.task) == c
        && restored.task.job.package == package && restored.task.job.record.None? && !restored.task.job.agreed
      else edited == synced == restored == c
  {
  }
}
