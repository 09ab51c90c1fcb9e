// Syncs of many consoles interleaved call by call, none of which fails: how many versions
// they can add, and what every console holds once all have synced after the last of them.

module SyncInterleaved {
  import opened Common
  import opened SyncTypes
  import opened SyncMachine
  import opened SyncSafety
  import opened SyncConvergence

  // -------------------------------------------------------------------- smooth runs

  // A call that succeeds: the person says yes and picks a side, and a download delivers the
  // version that was announced, which need not be the latest any more.
  predicate SmoothCall(c: Console, o: Outcome) {
    && o.ok && o.yes && (o.choice == 0 || o.choice == 1)
    && (c.task.Fetching? && c.task.x.remote.Remote? ==>
          var d := c.task.x.remote.digest; o.package == Package(d, d.payload, true))
  }

  // Only syncs are begun and only calls are made.
  predicate Smooth(s: System, l: Label) {
    match l
    case Sync(_, _) => true
    case Call(i, o) => i < |s.consoles| ==> SmoothCall(s.consoles[i], o)
    case _ => false
  }

  predicate SmoothRun(cfg: Config, s: System, ls: seq<Label>)
    decreases |ls|
  {
    ls == [] || (Smooth(s, ls[0]) && SmoothRun(cfg, Next(cfg, s, ls[0]), ls[1..]))
  }

  predicate SmoothEvent(c: Console, l: Label) {
    l.Sync? || (l.Call? && SmoothCall(c, l.o))
  }

  // ----------------------------------------------------------- how many versions appear

  // The console can still add a version before the next edit.
  predicate MayPost(cfg: Config, c: Console) {
    match c.task
    case Idle(_) | Starting(_) | LoadingState(_) | OpeningSave(_, _) | Hashing(_, _) | GettingLatest(_, _) => Dirty(c)
    case ConfirmingUpload(_) | Packing(_, _, _) | Posting(_, _, _, _) | Rereading(_) | Choosing(_) => true
    case Fetching(_) => Dirty(c)
    case CheckingRunning(job) => Dirty(c) || job.record.None?
    case ConfirmingRestore(job) => Dirty(c) || job.record.None?
    case BackupOpening(job) => Dirty(c) || job.record.None?
    case BackupPacking(job) => Dirty(c) || job.record.None?
    case BackupRenaming(job) => Dirty(c) || job.record.None?
    case Verifying(job) => Dirty(c) || job.record.None?
    case OpeningWrite(job) => Dirty(c) || job.record.None?
    case Unpacking(job) => Dirty(c) || job.record.None?
    case Committing(job) => Dirty(c) || job.record.None?
    case Closing(job) => job.record.None?
    case WritingState(_) | Unlinking(_) => false
    case Renaming(_) => !cfg.atomicRename && c.state.Some?
  }

  function PostCount(cfg: Config, cs: seq<Console>): nat {
    if cs == [] then 0 else (if MayPost(cfg, cs[0]) then 1 else 0) + PostCount(cfg, cs[1..])
  }

  lemma {:induction false} PostCountUpdate(cfg: Config, cs: seq<Console>, i: nat, c: Console)
    requires i < |cs|
    ensures PostCount(cfg, cs[i := c]) + (if MayPost(cfg, cs[i]) then 1 else 0) == PostCount(cfg, cs) + (if MayPost(cfg, c) then 1 else 0)
  {
    hide MayPost;
    if i == 0 {
      assert cs[i := c][1..] == cs[1..];
    } else {
      assert cs[i := c][1..] == cs[1..][i - 1 := c];
      PostCountUpdate(cfg, cs[1..], i - 1, c);
    }
  }

  lemma {:induction false} AtRestDirtyMayPost(cfg: Config, cs: seq<Console>)
    requires forall c | c in cs :: c.task.Idle?
    ensures PostCount(cfg, cs) == DirtyCount(cs)
  {
    if cs != [] {
      assert cs[0] in cs;
      AtRestDirtyMayPost(cfg, cs[1..]);
    }
  }

  // Only a dirty console is sent to upload or to a conflict.
  lemma DispatchMayPost(cfg: Config, c: Console, h: History, x: Context)
    requires StateTrue(c.state, h) && ScanTrue(c, x.local) && x.remote == Latest(h)
    ensures MayPost(cfg, Dispatch(c, x)) ==> Dirty(c)
  {
  }

  lemma PostUsesItUp(cfg: Config, c: Console, h: History, o: Outcome)
    requires c.task.Posting? && o.ok
    ensures var (c', h') := ActPost(c, h, o);
      h' == h || (|h'| == |h| + 1 && !MayPost(cfg, c'))
  {
  }

  // No other call gives the right to add a version.
  lemma LookMayPost(cfg: Config, c: Console, h: History, o: Outcome)
    requires ConsoleTrue(cfg, c, h) && SmoothCall(c, o) && c.task.GettingLatest?
    ensures MayPost(cfg, ActScan(c, h, o)) ==> MayPost(cfg, c)
  {
    hide Dispatch;
    DispatchMayPost(cfg, c, h, Context(c.task.opts, c.task.local, Latest(h)));
  }

  lemma LateMayPost(cfg: Config, c: Console, h: History, o: Outcome)
    requires ConsoleTrue(cfg, c, h) && SmoothCall(c, o)
    requires var t := c.task; t.Verifying? || t.OpeningWrite? || t.Unpacking? || t.Committing? || t.Closing? || t.WritingState? || t.Unlinking? || t.Renaming?
    ensures MayPost(cfg, Act(cfg, c, h, o).0) ==> MayPost(cfg, c)
  {
    hide ActScan, ActPack, ActPost, ActResolve, ActBackup, Secured, Verified;
  }

  lemma EarlyMayPost(cfg: Config, c: Console, h: History, o: Outcome)
    requires SmoothCall(c, o)
    requires var t := c.task;
      || t.Starting? || t.LoadingState? || t.OpeningSave? || t.Hashing? || t.ConfirmingUpload? || t.Packing?
      || t.Rereading? || t.Choosing? || t.Fetching?
      || t.CheckingRunning? || t.ConfirmingRestore? || t.BackupOpening? || t.BackupPacking? || t.BackupRenaming?
    ensures MayPost(cfg, Act(cfg, c, h, o).0) ==> MayPost(cfg, c)
  {
    hide Dispatch, ActPost, ActWrite, ActRecord;
  }

  // One call adds a version only by using up the right to, and never gives that right.
  lemma StepUsesItUp(cfg: Config, c: Console, h: History, l: Label)
    requires ConsoleTrue(cfg, c, h) && SmoothEvent(c, l)
    ensures var (c', h') := Event(cfg, c, h, l);
      || (h' == h && (MayPost(cfg, c') ==> MayPost(cfg, c)))
      || (|h'| == |h| + 1 && MayPost(cfg, c) && !MayPost(cfg, c'))
  {
    var t := c.task;
    if l.Sync? || t.Idle? {
    } else {
      hide ActScan, ActPack, ActResolve, ActBackup, ActWrite, ActRecord, ConsoleTrue;
      if t.Posting? {
        PostUsesItUp(cfg, c, h, l.o);
      } else if t.GettingLatest? {
        LookMayPost(cfg, c, h, l.o);
      } else if t.Verifying? || t.OpeningWrite? || t.Unpacking? || t.Committing? || t.Closing? || t.WritingState? || t.Unlinking? || t.Renaming? {
        LateMayPost(cfg, c, h, l.o);
      } else {
        EarlyMayPost(cfg, c, h, l.o);
      }
    }
  }

  // Whatever the interleaving, syncs that do not fail add at most one version for every
  // console that was dirty or on its way to an upload.
  lemma {:induction false} VersionsAreBounded(cfg: Config, s: System, ls: seq<Label>)
    requires SystemTrue(cfg, s) && HonestRun(cfg, s, ls) && SmoothRun(cfg, s, ls)
    ensures var s' := Run(cfg, s, ls);
      |s'.server| + PostCount(cfg, s'.consoles) <= |s.server| + PostCount(cfg, s.consoles)
    decreases |ls|
  {
    if ls != [] {
      var l, s1 := ls[0], Next(cfg, s, ls[0]);
      NextKeeps(cfg, s, l);
      if l.i < |s.consoles| {
        StepUsesItUp(cfg, s.consoles[l.i], s.server, l);
        PostCountUpdate(cfg, s.consoles, l.i, s1.consoles[l.i]);
      }
      VersionsAreBounded(cfg, s1, ls[1..]);
    }
  }

  lemma AtMostOneVersionEach(cfg: Config, s: System, ls: seq<Label>)
    requires Resting(cfg, s) && HonestRun(cfg, s, ls) && SmoothRun(cfg, s, ls)
    ensures |Run(cfg, s, ls).server| <= |s.server| + DirtyCount(s.consoles)
  {
    VersionsAreBounded(cfg, s, ls);
    AtRestDirtyMayPost(cfg, s.consoles);
  }

  // ------------------------------------------------------ after the last version

  // The latest version, on its way to the console.
  predicate BringsLatest(job: Job, h: History) {
    && h != []
    && job.record == Some(Base(|h|, DigestOf(h[|h| - 1])))
    && job.package == Package(DigestOf(h[|h| - 1]), h[|h| - 1], true)
  }

  // The console is in a sync that it began since the latest version was added, or is done
  // with one.
  predicate Begun(c: Console, h: History) {
    && c.save != Archive(map[])
    && match c.task
       case Idle(_) | WritingState(_) | Unlinking(_) | Renaming(_) => !Behind(c, h)
       case Starting(opts) => !opts.conflict.Defer?
       case LoadingState(opts) => !opts.conflict.Defer?
       case OpeningSave(opts, _) => !opts.conflict.Defer?
       case Hashing(opts, _) => !opts.conflict.Defer?
       case GettingLatest(opts, local) => !opts.conflict.Defer? && local == ScanOf(c.save, c.state)
       case ConfirmingUpload(x) => c.save.Archive? && ParentOf(x.remote) == |h|
       case Packing(_, parent, _) => c.save.Archive? && parent == |h|
       case Posting(_, parent, _, _) => parent == |h|
       case Rereading(_) => false
       case Choosing(x) => c.save.Archive? && x.remote == Latest(h) && h != []
       case Fetching(x) => x.remote == Latest(h) && h != []
       case CheckingRunning(job) => BringsLatest(job, h)
       case ConfirmingRestore(job) => BringsLatest(job, h)
       case BackupOpening(job) => BringsLatest(job, h)
       case BackupPacking(job) => BringsLatest(job, h)
       case BackupRenaming(job) => BringsLatest(job, h)
       case Verifying(job) => BringsLatest(job, h)
       case OpeningWrite(job) => BringsLatest(job, h)
       case Unpacking(job) => BringsLatest(job, h)
       case Committing(job) => BringsLatest(job, h)
       case Closing(job) => job.record.Some? && !Behind(c, h)
  }

  lemma DispatchIsBegun(c: Console, h: History, x: Context)
    requires c.save != Archive(map[]) && !x.opts.conflict.Defer?
    requires x.local == ScanOf(c.save, c.state) && x.remote == Latest(h)
    ensures Begun(Dispatch(c, x), h)
  {
  }

  lemma BegunBackup(cfg: Config, c: Console, h: History, o: Outcome)
    requires ConsoleTrue(cfg, c, h) && Begun(c, h) && SmoothCall(c, o)
    requires c.task.CheckingRunning? || c.task.ConfirmingRestore? || c.task.BackupOpening? || c.task.BackupPacking? || c.task.BackupRenaming?
    ensures Begun(ActBackup(cfg, c, o), h)
  {
    hide Behind;
  }

  lemma BegunWrite(cfg: Config, c: Console, h: History, o: Outcome)
    requires NoEmptyVersion(h) && Begun(c, h) && SmoothCall(c, o)
    requires c.task.Verifying? || c.task.OpeningWrite? || c.task.Unpacking? || c.task.Committing? || c.task.Closing?
    ensures Begun(ActWrite(cfg, c, o), h)
  {
    if h != [] {
      assert h[|h| - 1] in h;
    }
  }

  lemma BegunEarly(cfg: Config, c: Console, h: History, o: Outcome)
    requires ConsoleTrue(cfg, c, h) && Begun(c, h) && SmoothCall(c, o)
    requires c.task.Starting? || c.task.LoadingState? || c.task.OpeningSave? || c.task.Hashing? || c.task.ConfirmingUpload? || c.task.Packing? || c.task.Choosing? || c.task.Fetching?
    ensures Begun(Act(cfg, c, h, o).0, h)
  {
    hide Dispatch, Behind, ActPost, ActBackup, ActWrite, ActRecord;
  }

  lemma BegunRecord(cfg: Config, c: Console, h: History, o: Outcome)
    requires Begun(c, h) && (c.task.WritingState? || c.task.Unlinking? || c.task.Renaming?)
    ensures Begun(ActRecord(cfg, c, o), h)
  {
  }

  // One call or begun sync that adds no version keeps a begun sync on its way.
  lemma BegunStep(cfg: Config, c: Console, h: History, l: Label)
    requires ConsoleTrue(cfg, c, h) && NoEmptyVersion(h) && Begun(c, h)
    requires SmoothEvent(c, l) && (l.Sync? ==> !l.opts.conflict.Defer?) && Event(cfg, c, h, l).1 == h
    ensures Begun(Event(cfg, c, h, l).0, h)
  {
    var t := c.task;
    if l.Sync? || t.Idle? {
    } else {
      hide Dispatch, ActScan, ActPack, ActResolve, ActBackup, ActWrite, ActRecord, ConsoleTrue, SmoothCall, Behind;
      if t.GettingLatest? {
        BegunLook(c, h, l.o);
      } else if t.CheckingRunning? || t.ConfirmingRestore? || t.BackupOpening? || t.BackupPacking? || t.BackupRenaming? {
        BegunBackup(cfg, c, h, l.o);
      } else if t.Verifying? || t.OpeningWrite? || t.Unpacking? || t.Committing? || t.Closing? {
        BegunWrite(cfg, c, h, l.o);
      } else if t.WritingState? || t.Unlinking? || t.Renaming? {
        BegunRecord(cfg, c, h, l.o);
      } else if t.Posting? {
        PostAdds(c, h, l.o);
      } else {
        BegunEarly(cfg, c, h, l.o);
      }
    }
  }

  lemma PostAdds(c: Console, h: History, o: Outcome)
    requires c.task.Posting? && Begun(c, h) && SmoothCall(c, o)
    ensures ActPost(c, h, o).1 != h
  {
  }

  lemma BegunLook(c: Console, h: History, o: Outcome)
    requires Begun(c, h) && c.task.GettingLatest? && SmoothCall(c, o)
    ensures Begun(ActScan(c, h, o), h)
  {
    hide Dispatch;
    DispatchIsBegun(c, h, Context(c.task.opts, c.task.local, Latest(h)));
  }

  // Conflicts are answered by a side.
  predicate TakesSides(ls: seq<Label>) {
    forall l | l in ls :: l.Sync? ==> !l.opts.conflict.Defer?
  }

  lemma {:induction false} BegunStays(cfg: Config, s: System, ls: seq<Label>, i: nat)
    requires SystemTrue(cfg, s) && HonestRun(cfg, s, ls) && SmoothRun(cfg, s, ls) && TakesSides(ls)
    requires i < |s.consoles| && Begun(s.consoles[i], s.server) && Run(cfg, s, ls).server == s.server
    ensures Begun(Run(cfg, s, ls).consoles[i], s.server)
    decreases |ls|
  {
    hide Begun;
    if ls != [] {
      var l, s1 := ls[0], Next(cfg, s, ls[0]);
      assert l in ls;
      NextKeeps(cfg, s, l);
      ServerOnlyGrows(cfg, s1, ls[1..]);
      assert s1.server == s.server;
      if l.i == i {
        BegunStep(cfg, s.consoles[i], s.server, l);
      } else {
        assert s1.consoles[i] == s.consoles[i];
      }
      BegunStays(cfg, s1, ls[1..], i);
    }
  }

  // Somewhere in the run console i, whose archive is then absent or has something in it,
  // begins a sync.
  predicate BeginsSync(cfg: Config, s: System, ls: seq<Label>, i: nat)
    requires i < |s.consoles|
    decreases |ls|
  {
    ls != [] &&
    ((ls[0].Sync? && ls[0].i == i && s.consoles[i].task.Idle? && s.consoles[i].save != Archive(map[]))
     || BeginsSync(cfg, Next(cfg, s, ls[0]), ls[1..], i))
  }

  lemma {:induction false} BeginningIsEnough(cfg: Config, s: System, ls: seq<Label>, i: nat)
    requires SystemTrue(cfg, s) && HonestRun(cfg, s, ls) && SmoothRun(cfg, s, ls) && TakesSides(ls)
    requires i < |s.consoles| && BeginsSync(cfg, s, ls, i) && Run(cfg, s, ls).server == s.server
    ensures Begun(Run(cfg, s, ls).consoles[i], s.server)
    decreases |ls|
  {
    var l, s1 := ls[0], Next(cfg, s, ls[0]);
    assert l in ls;
    NextKeeps(cfg, s, l);
    ServerOnlyGrows(cfg, s1, ls[1..]);
    assert s1.server == s.server;
    if l.Sync? && l.i == i && s.consoles[i].task.Idle? && s.consoles[i].save != Archive(map[]) {
      assert Begun(s1.consoles[i], s1.server);
      BegunStays(cfg, s1, ls[1..], i);
    } else {
      BeginningIsEnough(cfg, s1, ls[1..], i);
    }
  }

  // Any interleaving of syncs that do not fail and take sides, from the last version on:
  // once every console is done with a sync begun in it, all of them hold that version. In
  // which calls the others were when it began does not matter.
  lemma LastVersionReachesAll(cfg: Config, s: System, ls: seq<Label>)
    requires SystemTrue(cfg, s) && HonestRun(cfg, s, ls) && SmoothRun(cfg, s, ls) && TakesSides(ls)
    requires Run(cfg, s, ls).server == s.server
    requires forall i | 0 <= i < |s.consoles| :: BeginsSync(cfg, s, ls, i) && Run(cfg, s, ls).consoles[i].task.Idle?
    ensures AllLatest(Run(cfg, s, ls))
  {
    var s' := Run(cfg, s, ls);
    forall i | 0 <= i < |s'.consoles|
      ensures !Behind(s'.consoles[i], s'.server)
    {
      BeginningIsEnough(cfg, s, ls, i);
    }
  }
}
