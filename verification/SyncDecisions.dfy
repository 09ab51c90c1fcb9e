// What a sync decides, said without the decision function: from a true record, exactly when
// it adds a version, when it replaces the save, and when it asks; and what an answer to a
// conflict can and cannot do, whatever else fails.

module SyncDecisions {
  import opened Common
  import opened SyncTypes
  import opened SyncMachine
  import opened SyncSafety
  import opened SyncConvergence
  import opened SyncLimits

  // ------------------------------------------------------------------ the four cases

  // The contents differ from what the record says, or nothing says what they were.
  predicate Changed(local: LocalState) {
    local.baseVersion == 0 || local.baseDigest.None? || local.baseDigest.value != local.digest
  }

  predicate Differs(local: LocalState, remote: Remote) {
    local.hasSave && remote.Remote? && local.digest != remote.digest
  }

  // The decision as a table, one line for each answer.
  lemma DecideTable(local: LocalState, remote: Remote)
    ensures Decide(local, remote) == Nothing <==>
      if local.hasSave then remote.Remote? && local.digest == remote.digest else remote.NoRemote?
    ensures Decide(local, remote) == Upload <==>
      local.hasSave && (remote.NoRemote? || (Differs(local, remote) && local.baseVersion == remote.version && Changed(local)))
    ensures Decide(local, remote) == Download <==>
      remote.Remote? && (!local.hasSave || (Differs(local, remote) && local.baseVersion < remote.version && !Changed(local)))
    ensures Decide(local, remote) == Conflict <==>
      Differs(local, remote) &&
      (local.baseVersion > remote.version
       || (local.baseVersion == remote.version && !Changed(local))
       || (local.baseVersion < remote.version && Changed(local)))
  {
  }

  // The save is to be added: the server has nothing, or it has what the record names and the
  // save is no longer that.
  predicate Adds(c: Console, h: History) {
    c.save.Archive? && (h == [] || (c.state.Some? && c.state.value.version == |h| && c.state.value.digest != DigestOf(c.save.payload)))
  }

  // The save is to be replaced: there is none, or it is what an older version's record names.
  predicate Replaces(c: Console, h: History) {
    && h != []
    && (c.save.Absent? ||
        (c.save.payload != h[|h| - 1] && c.state.Some? && c.state.value.version < |h| && c.state.value.digest == DigestOf(c.save.payload)))
  }

  // The console and the server hold the same.
  predicate Same(c: Console, h: History) {
    if h == [] then c.save.Absent? else c.save == Archive(h[|h| - 1])
  }

  // Both have moved on.
  predicate Contested(c: Console, h: History) {
    && c.save.Archive? && h != [] && c.save.payload != h[|h| - 1]
    && (c.state.None? || (c.state.value.version < |h| && c.state.value.digest != DigestOf(c.save.payload)))
  }

  // With a true record exactly one of the four is the case, and it decides.
  lemma DecideMeans(c: Console, h: History)
    requires StateTrue(c.state, h)
    ensures Decide(ScanOf(c.save, c.state), Latest(h)) ==
      if Same(c, h) then Nothing
      else if Adds(c, h) then Upload
      else if Replaces(c, h) then Download
      else Conflict
    ensures !Same(c, h) && !Adds(c, h) && !Replaces(c, h) <==> Contested(c, h)
    ensures !(Same(c, h) && (Adds(c, h) || Replaces(c, h))) && !(Adds(c, h) && Replaces(c, h))
  {
    DecideTable(ScanOf(c.save, c.state), Latest(h));
  }

  // ------------------------------------------------------------- undisturbed syncs

  // What the answer to a conflict makes of it.
  datatype Side = Local | Server | Neither

  function SideOf(opts: Opts, choice: int): Side {
    match opts.conflict
    case KeepLocal => Local
    case KeepServer => Server
    case Defer => Neither
    case Ask => if choice == 0 then Local else if choice < 0 || choice == 2 then Neither else Server
  }

  function WithRecord(c: Console, version: nat, p: Payload): Console {
    c.(state := Some(Base(version, DigestOf(p))), task := Idle(Ok))
  }

  // The console with its save backed up and replaced.
  function Replaced(cfg: Config, c: Console, p: Payload): Console {
    var kept := if c.save.Absent? || BackupName(cfg, c.save.payload) in c.backups then c.backups
                else c.backups[BackupName(cfg, c.save.payload) := c.save.payload];
    c.(save := Archive(p), backups := kept)
  }

  // A whole sync in which every call succeeds, for every save that is not empty, every true
  // record and every way of answering: it adds a version exactly when the save is to be
  // added or a conflict is answered for it, replaces the save exactly when it is to be
  // replaced or a conflict is answered for the server, and otherwise changes at most the
  // record, which it makes that of the version both hold.
  lemma SyncDoes(cfg: Config, c: Console, h: History, opts: Opts, choice: int)
    requires StateTrue(c.state, h) && c.save != Archive(map[])
    ensures
      var side := if Contested(c, h) then SideOf(opts, choice) else Neither;
      var last := if h == [] then map[] else h[|h| - 1];
      FullSync(cfg, c, h, opts, choice) ==
        if Adds(c, h) || side == Local then (WithRecord(c, |h| + 1, c.save.payload), h + [c.save.payload])
        else if Replaces(c, h) || side == Server then (WithRecord(Replaced(cfg, c, last), |h|, last), h)
        else if c.save.Archive? && Same(c, h) then (WithRecord(c, |h|, last), h)
        else (Finish(c, Ok), h)
  {
    hide Decide, Latest, LocalDirty;
    DecideMeans(c, h);
    LatestMeans(h);
    var local, remote := ScanOf(c.save, c.state), Latest(h);
    var x := Context(opts, local, remote);
    var looking := c.(task := GettingLatest(opts, local));
    var d := Dispatch(looking, x);
    SettleScan(cfg, c, h, opts, choice);
    if Same(c, h) {
      if d.task.WritingState? {
        SettleRecord(cfg, d, h, choice);
      }
    } else if Adds(c, h) {
      var packing := c.(task := Packing(x, |h|, false));
      if !opts.uploadConfirmed {
        assert Settle(cfg, d, h, choice) == Settle(cfg, packing, h, choice);
      }
      SettleUpload(cfg, packing, h, choice);
    } else if Replaces(c, h) {
      SettleDownload(cfg, d, h, choice);
    } else {
      SettleResolve(cfg, looking, h, x, choice);
    }
  }

  lemma LatestMeans(h: History)
    ensures Latest(h) == if h == [] then NoRemote else Remote(|h|, DigestOf(h[|h| - 1]))
    ensures ParentOf(Latest(h)) == |h|
  {
  }

  // The undisturbed rest of a call that has come to a conflict.
  lemma SettleResolve(cfg: Config, c: Console, h: History, x: Context, choice: int)
    requires c.save.Archive? && c.save.payload != map[] && h != [] && x.remote == Latest(h)
    ensures
      var last := h[|h| - 1];
      Settle(cfg, Resolve(c, x), h, choice) ==
        match SideOf(x.opts, choice)
        case Local => (WithRecord(c, |h| + 1, c.save.payload), h + [c.save.payload])
        case Server => (WithRecord(Replaced(cfg, c, last), |h|, last), h)
        case Neither => (Finish(c, Ok), h)
  {
    LatestMeans(h);
    var c1 := Resolve(c, x);
    var c2 := c1;
    if c1.task.Choosing? {
      c2 := ActResolve(c1, h, Fine(h, choice));
      assert Settle(cfg, c1, h, choice) == Settle(cfg, c2, h, choice);
    }
    if c2.task.Packing? {
      SettleUpload(cfg, c2, h, choice);
    } else if c2.task.Fetching? {
      SettleDownload(cfg, c2, h, choice);
    }
  }

  // After a lost race the undisturbed rest of the call asks on the version it re-read.
  lemma SettleRereading(cfg: Config, c: Console, h: History, choice: int)
    requires c.task.Rereading? && c.save.Archive? && c.save.payload != map[] && h != []
    ensures
      var last := h[|h| - 1];
      Settle(cfg, c, h, choice) ==
        match SideOf(c.task.x.opts, choice)
        case Local => (WithRecord(c, |h| + 1, c.save.payload), h + [c.save.payload])
        case Server => (WithRecord(Replaced(cfg, c, last), |h|, last), h)
        case Neither => (Finish(c, Ok), h)
  {
    var x := c.task.x.(remote := Latest(h));
    assert Settle(cfg, c, h, choice) == Settle(cfg, Resolve(c, x), h, choice);
    SettleResolve(cfg, c, h, x, choice);
  }

  // ------------------------------------------------------- syncs with any answers

  // The side taken, when the person is asked.
  function Taken(x: Context, answers: nat -> Outcome): Side {
    SideOf(x.opts, answers(Rank(Choosing(x))).choice)
  }

  // From a download on nothing is uploaded any more.
  lemma {:induction false} NoMoreUploads(cfg: Config, c: Console, h: History, answers: nat -> Outcome)
    requires Rank(c.task) <= 14
    ensures Answered(cfg, c, h, answers).1 == h
    decreases Rank(c.task)
  {
    if !c.task.Idle? {
      var o := answers(Rank(c.task));
      CallsDecreaseRank(cfg, c, h, o);
      assert Act(cfg, c, h, o).1 == h;
      hide Act;
      NoMoreUploads(cfg, Act(cfg, c, h, o).0, h, answers);
    }
  }

  // An upload that is not asked about again: the save is added at most once, on top of the
  // version it was packed for, and stays.
  lemma LastUpload(cfg: Config, c: Console, h: History, answers: nat -> Outcome)
    requires c.task.Packing? && c.task.again
    ensures var (c', h') := Answered(cfg, c, h, answers);
      && c'.save == c.save && c'.backups == c.backups
      && (h' == h || (c.task.parent == |h| && c.save.Archive? && h' == h + [c.save.payload]))
  {
    hide ActScan, ActResolve, ActBackup, ActWrite, ActRecord;
    var c1 := ActPack(c, answers(Rank(c.task)));
    assert Answered(cfg, c, h, answers) == Answered(cfg, c1, h, answers);
    if c1.task.Posting? {
      var (c2, h2) := ActPost(c1, h, answers(Rank(c1.task)));
      assert Answered(cfg, c1, h, answers) == Answered(cfg, c2, h2, answers);
      AnsweredEnd(cfg, c2, h2, answers);
    }
  }

  // What an answered conflict can do, whatever the calls behind it answer: nothing at all
  // when no side is taken, no upload for the server's side, and for the console's side
  // nothing but one upload on top of the version that was looked at.
  lemma ResolveDoes(cfg: Config, c: Console, h: History, x: Context, answers: nat -> Outcome)
    requires x.remote == Latest(h)
    ensures
      var (c', h') := Answered(cfg, Resolve(c, x), h, answers);
      match Taken(x, answers)
      case Neither => c' == Finish(c, Ok) && h' == h
      case Server => h' == h
      case Local => c'.save == c.save && c'.backups == c.backups && (h' == h || (c.save.Archive? && h' == h + [c.save.payload]))
    ensures x.opts.conflict.Ask? ==> Resolve(c, x) == c.(task := Choosing(x))
  {
    hide ActScan, ActPack, ActPost, ActBackup, ActWrite, ActRecord, Latest;
    var c1 := Resolve(c, x);
    var c2 := c1;
    if c1.task.Choosing? {
      c2 := ActResolve(c1, h, answers(Rank(c1.task)));
      assert Answered(cfg, c1, h, answers) == Answered(cfg, c2, h, answers);
    }
    if c2.task.Packing? {
      LastUpload(cfg, c2, h, answers);
    } else if c2.task.Fetching? {
      NoMoreUploads(cfg, c2, h, answers);
    }
  }

  // After a lost race: the same, on the version that is re-read; and nothing at all when
  // re-reading fails.
  lemma RereadingDoes(cfg: Config, c: Console, h: History, answers: nat -> Outcome)
    requires c.task.Rereading?
    ensures
      var (c', h') := Answered(cfg, c, h, answers);
      var side := if answers(Rank(c.task)).ok then Taken(c.task.x, answers) else Neither;
      match side
      case Neither => c'.(task := c.task) == c && c'.task.Idle? && h' == h
      case Server => h' == h
      case Local => c'.save == c.save && c'.backups == c.backups && (h' == h || (c.save.Archive? && h' == h + [c.save.payload]))
  {
    hide ActScan, ActPack, ActPost, ActBackup, ActWrite, ActRecord, Latest, Resolve;
    var c1 := ActResolve(c, h, answers(Rank(c.task)));
    assert Answered(cfg, c, h, answers) == Answered(cfg, c1, h, answers);
    if answers(Rank(c.task)).ok {
      ResolveDoes(cfg, c, h, c.task.x.(remote := Latest(h)), answers);
    }
  }

  // A refused question ends the call and changes nothing.
  lemma RefusalEndsTheCall(cfg: Config, c: Console, h: History, answers: nat -> Outcome)
    requires c.task.ConfirmingUpload? || c.task.ConfirmingRestore?
    requires !answers(Rank(c.task)).yes
    ensures Answered(cfg, c, h, answers) == (Finish(c, Err(Cancelled)), h)
  {
  }

  // An upload that was not a conflict to begin with replaces the save only when it loses a
  // race and the server's side is taken then.
  lemma FirstUpload(cfg: Config, c: Console, h: History, x: Context, answers: nat -> Outcome)
    requires c.task == ConfirmingUpload(x) || (c.task.Packing? && c.task.x == x && !c.task.again)
    ensures Answered(cfg, c, h, answers).0.save != c.save ==> Taken(x, answers) == Server
  {
    hide ActScan, ActResolve, ActBackup, ActWrite, ActRecord, Latest, SideOf;
    var c0 := c;
    if c.task.ConfirmingUpload? {
      c0 := ActPack(c, answers(Rank(c.task)));
      assert Answered(cfg, c, h, answers) == Answered(cfg, c0, h, answers);
    }
    if c0.task.Packing? {
      var c1 := ActPack(c0, answers(Rank(c0.task)));
      assert Answered(cfg, c0, h, answers) == Answered(cfg, c1, h, answers);
      if c1.task.Posting? {
        var (c2, h2) := ActPost(c1, h, answers(Rank(c1.task)));
        assert Answered(cfg, c1, h, answers) == Answered(cfg, c2, h2, answers);
        if c2.task.Rereading? {
          RereadingDoes(cfg, c2, h2, answers);
        } else {
          AnsweredEnd(cfg, c2, h2, answers);
        }
      }
    }
  }

  // The context of a sync as far as its questions go.
  function Asked(opts: Opts): Context { Context(opts, ScanOf(Absent, None), NoRemote) }

  lemma SameSide(x: Context, answers: nat -> Outcome)
    ensures Taken(x, answers) == Taken(Asked(x.opts), answers)
  {
  }

  // What was decided, carried out with any answers.
  lemma DispatchDoes(cfg: Config, c: Console, h: History, x: Context, answers: nat -> Outcome)
    requires StateTrue(c.state, h) && ScanTrue(c, x.local) && x.remote == Latest(h)
    ensures
      var (c', h') := Answered(cfg, Dispatch(c, x), h, answers);
      var side := Taken(x, answers);
      && (h' != h ==> x.local == ScanOf(c.save, c.state) && (Adds(c, h) || (Contested(c, h) && side == Local)))
      && (c'.save != c.save ==>
            Replaces(c, h) || x.local != ScanOf(c.save, c.state) || ((Adds(c, h) || Contested(c, h)) && side == Server))
  {
    hide Decide, Act, Resolve, Answered, Adds, Replaces, Same, Contested, Taken;
    var d := Dispatch(c, x);
    if x.local == ScanOf(c.save, c.state) {
      DecideMeans(c, h);
    } else {
      OverlookedDecision(c, x, h);
    }
    if Decide(x.local, x.remote) == Conflict {
      ResolveDoes(cfg, c, h, x, answers);
    } else if Decide(x.local, x.remote) == Upload {
      FirstUpload(cfg, d, h, x, answers);
    } else {
      NoMoreUploads(cfg, d, h, answers);
      if !d.task.Fetching? {
        AnsweredEnd(cfg, d, h, answers);
      }
    }
  }

  lemma OverlookedDecision(c: Console, x: Context, h: History)
    requires x.local == ScanOf(Absent, c.state)
    ensures Decide(x.local, x.remote) == Download || Decide(x.local, x.remote) == Nothing
  {
  }

  // A whole sync with any answer to any of its calls, from a true record: a version is added
  // only when the save is to be added, or a conflict was answered for it; and the save is
  // replaced only when it is to be, when a conflict or a lost race was answered for the
  // server, or when the scan was told that there is no archive. In particular a sync that
  // defers conflicts never acts on one.
  lemma SyncActsOnlyWhen(cfg: Config, c: Console, h: History, answers: nat -> Outcome)
    requires c.task.Starting? && StateTrue(c.state, h)
    ensures
      var (c', h') := Answered(cfg, c, h, answers);
      var side := Taken(Asked(c.task.opts), answers);
      && (h' != h ==> Adds(c, h) || (Contested(c, h) && side == Local))
      && (c'.save != c.save ==> Replaces(c, h) || Overlooks(answers) || ((Adds(c, h) || Contested(c, h)) && side == Server))
  {
    hide Dispatch, Adds, Replaces, Contested, Taken, Overlooks, ScanOf, Latest;
    var c1 := AnsweredLook(cfg, c, h, answers);
    if c1.task.GettingLatest? {
      var o := answers(Rank(c1.task));
      var x := Context(c1.task.opts, c1.task.local, Latest(h));
      assert Answered(cfg, c1, h, answers) == Answered(cfg, ActScan(c1, h, o), h, answers);
      if o.ok {
        DispatchDoes(cfg, c1, h, x, answers);
        SameSide(x, answers);
        CaseKept(c, c1, h);
      }
    }
  }

  // The cases are about what a console holds, not about where it is.
  lemma CaseKept(c: Console, d: Console, h: History)
    requires d == c.(task := d.task)
    ensures (Adds(d, h) <==> Adds(c, h)) && (Replaces(d, h) <==> Replaces(c, h)) && (Contested(d, h) <==> Contested(c, h))
  {
  }

  // A contested save is asked about before anything else happens.
  lemma ContestedIsAsked(c: Console, h: History, opts: Opts)
    requires StateTrue(c.state, h) && Contested(c, h) && opts.conflict.Ask?
    ensures
      var x := Context(opts, ScanOf(c.save, c.state), Latest(h));
      Dispatch(c, x) == c.(task := Choosing(x))
  {
    hide Decide;
    DecideMeans(c, h);
  }
}
