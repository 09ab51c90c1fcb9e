// Undisturbed syncs: each one ends, each one that moves data brings the consoles closer,
// and two rounds over all consoles leave every console with the latest version. The same
// undisturbed sync repairs what a crash before the record was written left behind.

module SyncConvergence {
  import opened Common
  import opened SyncTypes
  import opened SyncMachine
  import opened SyncSafety

  // ------------------------------------------------------------ every sync call ends

  // How many calls can still follow.
  function Rank(t: Task): nat {
    match t
    case Idle(_) => 0
    case Renaming(_) => 1
    case Unlinking(_) => 2
    case WritingState(_) => 3
    case Closing(_) => 4
    case Committing(_) => 5
    case Unpacking(_) => 6
    case OpeningWrite(_) => 7
    case Verifying(_) => 8
    case BackupRenaming(_) => 9
    case BackupPacking(_) => 10
    case BackupOpening(_) => 11
    case ConfirmingRestore(_) => 12
    case CheckingRunning(_) => 13
    case Fetching(_) => 14
    case Posting(_, _, _, again) => if again then 15 else 19
    case Packing(_, _, again) => if again then 16 else 20
    case Choosing(_) => 17
    case Rereading(_) => 18
    case ConfirmingUpload(_) => 21
    case GettingLatest(_, _) => 22
    case Hashing(_, _) => 23
    case OpeningSave(_, _) => 24
    case LoadingState(_) => 25
    case Starting(_) => 26
  }

  // Whatever the environment answers, a sync call is over after at most 26 calls.
  lemma CallsDecreaseRank(cfg: Config, c: Console, h: History, o: Outcome)
    requires !c.task.Idle?
    ensures Rank(Act(cfg, c, h, o).0.task) < Rank(c.task)
  {
    match c.task
    case Posting(_, _, _, _) => assert Rank(ActPost(c, h, o).0.task) < Rank(c.task);
    case GettingLatest(_, _) => assert Rank(ActScan(c, h, o).task) < Rank(c.task);
    case _ =>
  }

  // ---------------------------------------------------------- an undisturbed sync

  // Every call succeeds, the person says yes, and the network delivers the latest version.
  function Fine(h: History, choice: int): Outcome {
    var last := if h == [] then map[] else h[|h| - 1];
    Outcome(true, OtherError, false, true, choice, Package(DigestOf(last), last, true), map[])
  }

  function Settle(cfg: Config, c: Console, h: History, choice: int): (Console, History)
    decreases Rank(c.task)
  {
    if c.task.Idle? then (c, h)
    else
      CallsDecreaseRank(cfg, c, h, Fine(h, choice));
      var (c', h') := Act(cfg, c, h, Fine(h, choice));
      Settle(cfg, c', h', choice)
  }

  function FullSync(cfg: Config, c: Console, h: History, opts: Opts, choice: int): (Console, History) {
    Settle(cfg, c.(task := Starting(opts)), h, choice)
  }

  function Recorded(c: Console, b: Base): Console {
    Finish(c.(state := Some(b)), Ok)
  }

  lemma SettleRecord(cfg: Config, c: Console, h: History, choice: int)
    requires c.task.WritingState?
    ensures Settle(cfg, c, h, choice) == (Recorded(c, c.task.base), h)
  {
    var b := c.task.base;
    var c1 := if cfg.atomicRename then c.(task := Renaming(b)) else c.(task := Unlinking(b));
    assert Settle(cfg, c, h, choice) == Settle(cfg, c1, h, choice);
    var c2 := if cfg.atomicRename then c1 else c.(state := None, task := Renaming(b));
    assert Settle(cfg, c1, h, choice) == Settle(cfg, c2, h, choice);
    assert Settle(cfg, c2, h, choice) == Settle(cfg, Recorded(c, b), h, choice);
  }

  lemma SettleUpload(cfg: Config, c: Console, h: History, choice: int)
    requires c.task.Packing? && c.task.parent == |h|
    requires c.save.Archive? && c.save.payload != map[]
    ensures var p := c.save.payload;
      Settle(cfg, c, h, choice) == (Recorded(c, Base(|h| + 1, DigestOf(p))), h + [p])
  {
    var t, p := c.task, c.save.payload;
    var c1 := c.(task := Posting(t.x, t.parent, Package(DigestOf(p), p, true), t.again));
    assert Settle(cfg, c, h, choice) == Settle(cfg, c1, h, choice);
    var c2 := c.(task := WritingState(Base(|h| + 1, DigestOf(p))));
    assert Settle(cfg, c1, h, choice) == Settle(cfg, c2, h + [p], choice);
    SettleRecord(cfg, c2, h + [p], choice);
  }

  function WithBackup(cfg: Config, c: Console): Console {
    if c.save.Absent? || BackupName(cfg, c.save.payload) in c.backups then c
    else c.(backups := c.backups[BackupName(cfg, c.save.payload) := c.save.payload])
  }

  lemma SettleWrite(cfg: Config, c: Console, h: History, choice: int)
    requires c.task.Verifying? && Verified(c.task.job.package)
    ensures var job := c.task.job;
      var written := c.(save := Archive(job.package.payload));
      Settle(cfg, c, h, choice) == (if job.record.Some? then Recorded(written, job.record.value) else Finish(written, Ok), h)
  {
    var job := c.task.job;
    var c1 := c.(task := OpeningWrite(job));
    assert Settle(cfg, c, h, choice) == Settle(cfg, c1, h, choice);
    var c2 := c.(task := Unpacking(job));
    assert Settle(cfg, c1, h, choice) == Settle(cfg, c2, h, choice);
    var c3 := c.(task := Committing(job));
    assert Settle(cfg, c2, h, choice) == Settle(cfg, c3, h, choice);
    var c4 := c.(save := Archive(job.package.payload), task := Closing(job));
    assert Settle(cfg, c3, h, choice) == Settle(cfg, c4, h, choice);
    if job.record.Some? {
      var c5 := c4.(task := WritingState(job.record.value));
      assert Settle(cfg, c4, h, choice) == Settle(cfg, c5, h, choice);
      SettleRecord(cfg, c5, h, choice);
    } else {
      assert Settle(cfg, c4, h, choice) == Settle(cfg, Finish(c4, Ok), h, choice);
    }
  }

  lemma SettleBackup(cfg: Config, c: Console, h: History, choice: int)
    requires c.task.BackupOpening? && c.save != Archive(map[])
    ensures Settle(cfg, c, h, choice) == Settle(cfg, WithBackup(cfg, c).(task := Verifying(c.task.job)), h, choice)
  {
    var job := c.task.job;
    if c.save.Archive? && BackupName(cfg, c.save.payload) !in c.backups {
      var c1 := c.(task := BackupPacking(job));
      assert Settle(cfg, c, h, choice) == Settle(cfg, c1, h, choice);
      var c2 := c.(task := BackupRenaming(job));
      assert Settle(cfg, c1, h, choice) == Settle(cfg, c2, h, choice);
      assert Settle(cfg, c2, h, choice) == Settle(cfg, WithBackup(cfg, c).(task := Verifying(job)), h, choice);
    }
  }

  lemma SettleDownload(cfg: Config, c: Console, h: History, choice: int)
    requires c.task.Fetching? && h != [] && c.task.x.remote == Latest(h)
    requires c.save != Archive(map[])
    ensures var last := h[|h| - 1];
      Settle(cfg, c, h, choice) == (Recorded(WithBackup(cfg, c).(save := Archive(last)), Base(|h|, DigestOf(last))), h)
  {
    var x, last := c.task.x, h[|h| - 1];
    var job := Job(x.opts, Package(DigestOf(last), last, true), Some(Base(|h|, DigestOf(last))), x.opts.restoreConfirmed);
    var c1 := c.(task := CheckingRunning(job));
    assert Settle(cfg, c, h, choice) == Settle(cfg, c1, h, choice);
    var c2 := c.(task := BackupOpening(job.(agreed := true)));
    if job.agreed {
      assert job.(agreed := true) == job;
      assert Settle(cfg, c1, h, choice) == Settle(cfg, c2, h, choice);
    } else {
      var c1' := c.(task := ConfirmingRestore(job));
      assert Settle(cfg, c1, h, choice) == Settle(cfg, c1', h, choice);
      assert Settle(cfg, c1', h, choice) == Settle(cfg, c2, h, choice);
    }
    SettleBackup(cfg, c2, h, choice);
    SettleWrite(cfg, WithBackup(cfg, c2).(task := Verifying(job.(agreed := true))), h, choice);
  }

  lemma SettleScan(cfg: Config, c: Console, h: History, opts: Opts, choice: int)
    ensures FullSync(cfg, c, h, opts, choice) ==
      Settle(cfg, Dispatch(c.(task := GettingLatest(opts, ScanOf(c.save, c.state))), Context(opts, ScanOf(c.save, c.state), Latest(h))), h, choice)
  {
    var c1 := c.(task := Starting(opts));
    var c2 := c.(task := LoadingState(opts));
    assert Settle(cfg, c1, h, choice) == Settle(cfg, c2, h, choice);
    var c3 := c.(task := OpeningSave(opts, c.state));
    assert Settle(cfg, c2, h, choice) == Settle(cfg, c3, h, choice);
    var c5 := c.(task := GettingLatest(opts, ScanOf(c.save, c.state)));
    if c.save.Archive? {
      var c4 := c.(task := Hashing(opts, c.state));
      assert Settle(cfg, c3, h, choice) == Settle(cfg, c4, h, choice);
      assert Settle(cfg, c4, h, choice) == Settle(cfg, c5, h, choice);
    } else {
      assert ScanOf(Absent, c.state) == ScanOf(c.save, c.state);
      assert Settle(cfg, c3, h, choice) == Settle(cfg, c5, h, choice);
    }
    var x := Context(opts, ScanOf(c.save, c.state), Latest(h));
    assert ActScan(c5, h, Fine(h, choice)) == Dispatch(c5, x);
    assert Act(cfg, c5, h, Fine(h, choice)) == (Dispatch(c5, x), h);
  }

  // How the person, or the policy standing in for them, answers a conflict.
  predicate Decides(opts: Opts, choice: int) {
    opts.conflict.KeepLocal? || opts.conflict.KeepServer? || (opts.conflict.Ask? && (choice == 0 || choice == 1))
  }

  predicate KeepsLocal(opts: Opts, choice: int) {
    opts.conflict.KeepLocal? || (opts.conflict.Ask? && choice == 0)
  }

  // What an undisturbed sync does, in one expression.
  function SyncEffect(cfg: Config, c: Console, h: History, opts: Opts, choice: int): (Console, History)
    requires c.save != Archive(map[]) && Decides(opts, choice)
  {
    var local, remote := ScanOf(c.save, c.state), Latest(h);
    var action := Decide(local, remote);
    if action == Nothing then
      if c.save.Archive? && remote.Remote? && local.baseVersion != remote.version then (Recorded(c, Base(|h|, local.digest)), h)
      else (Finish(c, Ok), h)
    else if action == Upload || (action == Conflict && KeepsLocal(opts, choice)) then
      (Recorded(c, Base(|h| + 1, local.digest)), h + [c.save.payload])
    else
      (Recorded(WithBackup(cfg, c).(save := Archive(h[|h| - 1])), Base(|h|, remote.digest)), h)
  }

  lemma FullSyncIsSyncEffect(cfg: Config, c: Console, h: History, opts: Opts, choice: int)
    requires c.save != Archive(map[]) && Decides(opts, choice)
    ensures FullSync(cfg, c, h, opts, choice) == SyncEffect(cfg, c, h, opts, choice)
  {
    SettleScan(cfg, c, h, opts, choice);
    var local, remote := ScanOf(c.save, c.state), Latest(h);
    var x := Context(opts, local, remote);
    var d := Dispatch(c.(task := GettingLatest(opts, local)), x);
    match Decide(local, remote) {
      case Nothing =>
        if d.task.WritingState? {
          SettleRecord(cfg, d, h, choice);
        }
      case Upload =>
        var packing := c.(task := Packing(x, ParentOf(remote), false));
        if !opts.uploadConfirmed {
          assert Settle(cfg, d, h, choice) == Settle(cfg, packing, h, choice);
        }
        SettleUpload(cfg, packing, h, choice);
      case Download =>
        SettleDownload(cfg, d, h, choice);
      case Conflict =>
        var packing, fetching := c.(task := Packing(x, ParentOf(remote), true)), c.(task := Fetching(x));
        if opts.conflict.Ask? {
          assert Settle(cfg, d, h, choice) == Settle(cfg, if choice == 0 then packing else fetching, h, choice);
        }
        if KeepsLocal(opts, choice) {
          SettleUpload(cfg, packing, h, choice);
        } else {
          SettleDownload(cfg, fetching, h, choice);
        }
    }
  }

  // -------------------------------------------------------------------- convergence

  predicate Dirty(c: Console) { LocalDirty(ScanOf(c.save, c.state)) }

  // The console does not hold what the server has last.
  predicate Behind(c: Console, h: History) {
    c.save != (if h == [] then Absent else Archive(h[|h| - 1]))
  }

  function DirtyCount(cs: seq<Console>): (n: nat)
    ensures n <= |cs|
  {
    if cs == [] then 0 else (if Dirty(cs[0]) then 1 else 0) + DirtyCount(cs[1..])
  }

  function BehindCount(cs: seq<Console>, h: History): (n: nat)
    ensures n <= |cs|
  {
    if cs == [] then 0 else (if Behind(cs[0], h) then 1 else 0) + BehindCount(cs[1..], h)
  }

  lemma {:induction false} DirtyCountUpdate(cs: seq<Console>, i: nat, c: Console)
    requires i < |cs|
    ensures DirtyCount(cs[i := c]) + (if Dirty(cs[i]) then 1 else 0) == DirtyCount(cs) + (if Dirty(c) then 1 else 0)
  {
    if i == 0 {
      assert cs[i := c][1..] == cs[1..];
    } else {
      assert cs[i := c][1..] == cs[1..][i - 1 := c];
      DirtyCountUpdate(cs[1..], i - 1, c);
    }
  }

  lemma {:induction false} BehindCountUpdate(cs: seq<Console>, h: History, i: nat, c: Console)
    requires i < |cs|
    ensures BehindCount(cs[i := c], h) + (if Behind(cs[i], h) then 1 else 0) == BehindCount(cs, h) + (if Behind(c, h) then 1 else 0)
  {
    if i == 0 {
      assert cs[i := c][1..] == cs[1..];
    } else {
      assert cs[i := c][1..] == cs[1..][i - 1 := c];
      BehindCountUpdate(cs[1..], h, i - 1, c);
    }
  }

  // The state between two undisturbed syncs: nobody is inside a call, and no archive is
  // present but empty.
  ghost predicate Resting(cfg: Config, s: System) {
    SystemTrue(cfg, s) && forall c | c in s.consoles :: c.task.Idle? && c.save != Archive(map[])
  }

  function SyncOne(cfg: Config, s: System, i: nat, opts: Opts, choice: int): System
    requires i < |s.consoles|
  {
    var (c, h) := FullSync(cfg, s.consoles[i], s.server, opts, choice);
    System(h, s.consoles[i := c])
  }

  // The sync moved data: a version was added or an archive replaced.
  predicate Moved(s: System, s': System, i: nat)
    requires i < |s.consoles| == |s'.consoles|
  {
    s'.server != s.server || s'.consoles[i].save != s.consoles[i].save
  }

  // After its sync a console is clean and holds the latest version. A clean console only
  // downloads, and a conflict only ever arises on a dirty one.
  lemma SyncEffectFacts(cfg: Config, c: Console, h: History, opts: Opts, choice: int)
    requires ConsoleTrue(cfg, c, h) && NoEmptyVersion(h)
    requires c.task.Idle? && c.save != Archive(map[]) && Decides(opts, choice)
    ensures var (c', h') := SyncEffect(cfg, c, h, opts, choice);
      && ConsoleTrue(cfg, c', h') && NoEmptyVersion(h') && c'.task == Idle(Ok) && c'.save != Archive(map[])
      && !Dirty(c') && !Behind(c', h')
      && (h' == h || (Dirty(c) && h' == h + [c.save.payload]))
      && (h' == h && c'.save == c.save ==> !Behind(c, h))
      && (c'.save != c.save ==> Behind(c, h))
  {
    var (c', h') := SyncEffect(cfg, c, h, opts, choice);
    if h' != h {
      GrowthKeeps(cfg, c, h, h');
    }
  }

  lemma SyncOneKeeps(cfg: Config, s: System, i: nat, opts: Opts, choice: int)
    requires Resting(cfg, s) && i < |s.consoles| && Decides(opts, choice)
    ensures var s' := SyncOne(cfg, s, i, opts, choice);
      && Resting(cfg, s') && |s'.consoles| == |s.consoles|
      && !Dirty(s'.consoles[i]) && !Behind(s'.consoles[i], s'.server)
  {
    var c, s' := s.consoles[i], SyncOne(cfg, s, i, opts, choice);
    assert c in s.consoles;
    FullSyncIsSyncEffect(cfg, c, s.server, opts, choice);
    SyncEffectFacts(cfg, c, s.server, opts, choice);
    forall j | 0 <= j < |s'.consoles| ensures ConsoleTrue(cfg, s'.consoles[j], s'.server) {
      if j != i {
        GrowthKeeps(cfg, s.consoles[j], s.server, s'.server);
      }
    }
  }

  // Every undisturbed sync that moves data decreases (dirty consoles, consoles not
  // holding the latest version) lexicographically; one that moves nothing increases
  // neither. This holds however conflicts are answered.
  lemma SyncDecreasesMeasure(cfg: Config, s: System, i: nat, opts: Opts, choice: int)
    requires Resting(cfg, s) && i < |s.consoles| && Decides(opts, choice)
    ensures var s' := SyncOne(cfg, s, i, opts, choice);
      var (d, b, d', b') := (DirtyCount(s.consoles), BehindCount(s.consoles, s.server), DirtyCount(s'.consoles), BehindCount(s'.consoles, s'.server));
      if Moved(s, s', i) then d' < d || (d' == d && b' < b) else d' <= d && b' == b
  {
    var c, s' := s.consoles[i], SyncOne(cfg, s, i, opts, choice);
    assert c in s.consoles;
    FullSyncIsSyncEffect(cfg, c, s.server, opts, choice);
    SyncEffectFacts(cfg, c, s.server, opts, choice);
    DirtyCountUpdate(s.consoles, i, s'.consoles[i]);
    BehindCountUpdate(s.consoles, s.server, i, s'.consoles[i]);
  }

  // When no console's sync would move anything, all of them hold the latest version.
  lemma QuietMeansEqual(cfg: Config, s: System, opts: Opts, choice: int)
    requires Resting(cfg, s) && Decides(opts, choice)
    ensures (forall i | 0 <= i < |s.consoles| :: !Moved(s, SyncOne(cfg, s, i, opts, choice), i))
      <==> AllLatest(s)
  {
    forall i | 0 <= i < |s.consoles|
      ensures !Moved(s, SyncOne(cfg, s, i, opts, choice), i) <==> !Behind(s.consoles[i], s.server)
    {
      assert s.consoles[i] in s.consoles;
      FullSyncIsSyncEffect(cfg, s.consoles[i], s.server, opts, choice);
      SyncEffectFacts(cfg, s.consoles[i], s.server, opts, choice);
    }
  }

  // One undisturbed sync of one console, with the answers it gets.
  datatype Turn = Turn(i: nat, opts: Opts, choice: int)

  predicate TurnsFit(turns: seq<Turn>, n: nat) {
    forall t | t in turns :: t.i < n && Decides(t.opts, t.choice)
  }

  function SyncMany(cfg: Config, s: System, turns: seq<Turn>): System
    requires TurnsFit(turns, |s.consoles|)
    decreases |turns|
  {
    if turns == [] then s
    else SyncMany(cfg, SyncOne(cfg, s, turns[0].i, turns[0].opts, turns[0].choice), turns[1..])
  }

  predicate Visits(turns: seq<Turn>, i: nat) {
    exists t | t in turns :: t.i == i
  }

  predicate Covers(turns: seq<Turn>, n: nat) {
    forall i: nat | i < n :: Visits(turns, i)
  }

  predicate NoneDirty(s: System) { forall i | 0 <= i < |s.consoles| :: !Dirty(s.consoles[i]) }

  predicate AllLatest(s: System) { forall i | 0 <= i < |s.consoles| :: !Behind(s.consoles[i], s.server) }

  // Syncing console j never dirties another console, and while nobody is dirty nothing
  // is added to the server.
  lemma {:induction false} RoundCleans(cfg: Config, s: System, turns: seq<Turn>)
    requires Resting(cfg, s) && TurnsFit(turns, |s.consoles|)
    ensures var s' := SyncMany(cfg, s, turns);
      && Resting(cfg, s') && |s'.consoles| == |s.consoles|
      && forall i | 0 <= i < |s.consoles| && (!Dirty(s.consoles[i]) || Visits(turns, i)) :: !Dirty(s'.consoles[i])
    decreases |turns|
  {
    if turns != [] {
      var t := turns[0];
      assert t in turns;
      var s1 := SyncOne(cfg, s, t.i, t.opts, t.choice);
      SyncOneKeeps(cfg, s, t.i, t.opts, t.choice);
      RoundCleans(cfg, s1, turns[1..]);
      assert SyncMany(cfg, s, turns) == SyncMany(cfg, s1, turns[1..]);
    }
  }

  lemma {:induction false} CleanRoundEqualises(cfg: Config, s: System, turns: seq<Turn>)
    requires Resting(cfg, s) && TurnsFit(turns, |s.consoles|)
    requires NoneDirty(s)
    ensures var s' := SyncMany(cfg, s, turns);
      && s'.server == s.server && |s'.consoles| == |s.consoles|
      && forall i | 0 <= i < |s.consoles| && (!Behind(s.consoles[i], s.server) || Visits(turns, i)) :: !Behind(s'.consoles[i], s'.server)
    decreases |turns|
  {
    if turns != [] {
      var t := turns[0];
      assert t in turns;
      var s1 := SyncOne(cfg, s, t.i, t.opts, t.choice);
      SyncOneKeeps(cfg, s, t.i, t.opts, t.choice);
      assert s.consoles[t.i] in s.consoles;
      FullSyncIsSyncEffect(cfg, s.consoles[t.i], s.server, t.opts, t.choice);
      SyncEffectFacts(cfg, s.consoles[t.i], s.server, t.opts, t.choice);
      CleanRoundEqualises(cfg, s1, turns[1..]);
      assert SyncMany(cfg, s, turns) == SyncMany(cfg, s1, turns[1..]);
    }
  }

  // Once the games are off, two rounds of syncs, each visiting every console in any order
  // and answering conflicts in any mix, leave every console with the latest version.
  lemma TwoRoundsConverge(cfg: Config, s: System, first: seq<Turn>, second: seq<Turn>)
    requires Resting(cfg, s)
    requires TurnsFit(first, |s.consoles|) && Covers(first, |s.consoles|)
    requires TurnsFit(second, |s.consoles|) && Covers(second, |s.consoles|)
    ensures |SyncMany(cfg, s, first).consoles| == |s.consoles|
    ensures var s' := SyncMany(cfg, SyncMany(cfg, s, first), second);
      |s'.consoles| == |s.consoles| && AllLatest(s')
  {
    RoundCleans(cfg, s, first);
    var s1 := SyncMany(cfg, s, first);
    assert NoneDirty(s1);
    CleanRoundEqualises(cfg, s1, second);
  }

  // ----------------------------------------------------------------- crash recovery

  // The console holds the latest version, and at most the record of that is missing.
  predicate Agreed(c: Console, h: History) {
    && !Behind(c, h) && h != []
    && (match c.task
        case Idle(_) | Starting(_) | LoadingState(_) | OpeningSave(_, _) | Hashing(_, _) => true
        case GettingLatest(_, local) => local == ScanOf(c.save, c.state)
        case Closing(job) => job.record.Some? && job.record.value.version == |h|
        case WritingState(b) => b.version == |h|
        case Unlinking(b) => b.version == |h|
        case Renaming(b) => b.version == |h|
        case _ => false)
  }

  // A commit takes effect when it says so, and may when it fails or power goes.
  predicate Takes(l: Label) {
    (l.Call? && (l.o.ok || l.o.landed)) || (l.PowerLoss? && l.o.landed)
  }

  // The two moments after which only the record is missing: the server took an upload,
  // even if its answer never arrived, and a downloaded latest version was committed, even
  // if the commit reported a failure or power went just then. Only
  // an answer of VERSION_CONFLICT to an upload that landed leads on to a conflict.
  lemma AcceptedOrCommittedIsAgreed(cfg: Config, c: Console, h: History, l: Label)
    requires ConsoleTrue(cfg, c, h) && !l.Edit? && !l.Sync? && !l.Restore?
    requires var (c', h') := Event(cfg, c, h, l);
      || h' != h
      || (c.task.Committing? && Takes(l) && c.task.job.record.Some? && c.task.job.record.value.version == |h|)
    ensures var (c', h') := Event(cfg, c, h, l);
      && !Behind(c', h') && h' != []
      && (Agreed(c', h') || (c'.task.Rereading? && l.Call? && !l.o.ok && l.o.err == VersionConflict))
  {
  }

  // That conflict is one of a save with itself. However it is answered, the undisturbed
  // rest of the call keeps the save, adds at most a second copy of it, and agrees.
  lemma RereadingEndsAgreed(cfg: Config, c: Console, h: History, choice: int)
    requires c.task.Rereading? && !Behind(c, h) && h != [] && NoEmptyVersion(h)
    ensures var (c', h') := Settle(cfg, c, h, choice);
      && c'.save == c.save && c'.task == Idle(Ok) && Agreed(c', h')
      && (h' == h || h' == h + [c.save.payload])
  {
    var x := c.task.x.(remote := Latest(h));
    var c1 := Resolve(c, x);
    assert h[|h| - 1] in h;
    assert Settle(cfg, c, h, choice) == Settle(cfg, c1, h, choice);
    var c2 := c1;
    if c1.task.Choosing? {
      c2 := ActResolve(c1, h, Fine(h, choice));
      assert Settle(cfg, c1, h, choice) == Settle(cfg, c2, h, choice);
    }
    if c2.task.Packing? {
      SettleUpload(cfg, c2, h, choice);
    } else if c2.task.Fetching? {
      SettleDownload(cfg, c2, h, choice);
    }
  }

  // Console i is not edited and nobody picks a package for it.
  predicate OnlySynced(ls: seq<Label>, i: nat) {
    forall l | l in ls && l.i == i :: l.Call? || l.PowerLoss? || l.Sync?
  }

  // Versions are only ever added, honestly or not.
  lemma {:induction false} ServerOnlyGrows(cfg: Config, s: System, ls: seq<Label>)
    ensures s.server <= Run(cfg, s, ls).server
    decreases |ls|
  {
    if ls != [] {
      ServerOnlyGrows(cfg, Next(cfg, s, ls[0]), ls[1..]);
    }
  }

  lemma AgreedStep(cfg: Config, c: Console, h: History, l: Label)
    requires ConsoleTrue(cfg, c, h) && ScanIsHonest(c, l) && Agreed(c, h) && (l.Call? || l.PowerLoss? || l.Sync?)
    ensures var (c', h') := Event(cfg, c, h, l);
      h' == h && c'.save == c.save && c'.backups == c.backups && Agreed(c', h')
  {
    if c.task.GettingLatest? && l.Call? && l.o.ok {
      var x := Context(c.task.opts, c.task.local, Latest(h));
      assert Decide(x.local, x.remote) == Nothing;
      assert ActScan(c, h, l.o) == Dispatch(c, x);
    }
  }

  // From then on, through every further failure, loss of power and begun sync of that
  // console, and whatever the others do as long as they add no version, it stays so.
  lemma {:induction false} AgreedStays(cfg: Config, s: System, ls: seq<Label>, i: nat)
    requires SystemTrue(cfg, s) && HonestRun(cfg, s, ls)
    requires i < |s.consoles| && Agreed(s.consoles[i], s.server) && OnlySynced(ls, i) && SightedRun(cfg, s, ls, i)
    requires Run(cfg, s, ls).server == s.server
    ensures var s' := Run(cfg, s, ls);
      && Agreed(s'.consoles[i], s'.server)
      && s'.consoles[i].save == s.consoles[i].save && s'.consoles[i].backups == s.consoles[i].backups
    decreases |ls|
  {
    if ls != [] {
      var l, s1 := ls[0], Next(cfg, s, ls[0]);
      assert l in ls;
      NextKeeps(cfg, s, l);
      ServerOnlyGrows(cfg, s1, ls[1..]);
      assert s1.server == s.server;
      if l.i == i {
        AgreedStep(cfg, s.consoles[i], s.server, l);
      } else {
        assert s1.consoles[i] == s.consoles[i];
      }
      AgreedStays(cfg, s1, ls[1..], i);
    }
  }

  // Whatever then fails, wherever power is lost and whatever the others do short of adding
  // a version, the next undisturbed sync decides that there is nothing to do, moves
  // nothing, and leaves the right record behind.
  lemma CrashIsRepaired(cfg: Config, s: System, ls: seq<Label>, i: nat, opts: Opts, choice: int)
    requires SystemTrue(cfg, s) && HonestRun(cfg, s, ls)
    requires i < |s.consoles| && Agreed(s.consoles[i], s.server) && OnlySynced(ls, i) && SightedRun(cfg, s, ls, i)
    requires Run(cfg, s, ls).server == s.server
    requires Run(cfg, s, ls).consoles[i].task.Idle? && Decides(opts, choice)
    ensures var s' := Run(cfg, s, ls);
      var c := s'.consoles[i];
      && Decide(ScanOf(c.save, c.state), Latest(s'.server)) == Nothing
      && var (c', h') := FullSync(cfg, c, s'.server, opts, choice);
      && h' == s.server && c'.save == s.consoles[i].save && c'.backups == c.backups
      && c'.state == Some(Base(|s.server|, DigestOf(s.server[|s.server| - 1])))
  {
    AgreedStays(cfg, s, ls, i);
    RunKeeps(cfg, s, ls);
    var s' := Run(cfg, s, ls);
    var c := s'.consoles[i];
    assert ConsoleTrue(cfg, c, s'.server);
    assert s'.server[|s'.server| - 1] in s'.server;
    FullSyncIsSyncEffect(cfg, c, s'.server, opts, choice);
  }

  // In every reachable state, crashed or not, the record is absent or true, so that a
  // download is never chosen over contents the server does not hold, whatever the server
  // answers by the time of the next sync.
  lemma NeverDownloadsOverUnknownContents(cfg: Config, s: System, ls: seq<Label>, i: nat, later: History)
    requires SystemTrue(cfg, s) && HonestRun(cfg, s, ls)
    requires i < |s.consoles|
    ensures var s' := Run(cfg, s, ls);
      var c := s'.consoles[i];
      && (c.state.None? || BaseTrue(c.state.value, s'.server))
      && (Decide(ScanOf(c.save, c.state), Latest(later)) == Download && c.save.Archive? ==> c.save.payload in s'.server)
  {
    RunKeeps(cfg, s, ls);
    var c := Run(cfg, s, ls).consoles[i];
    assert ConsoleTrue(cfg, c, Run(cfg, s, ls).server);
    if Decide(ScanOf(c.save, c.state), Latest(later)) == Download {
      DownloadReplacesServerVersion(c.save, c.state, Latest(later), Run(cfg, s, ls).server);
    }
  }

  // The record a console had when its sync began, none at all while a FAT rename is under
  // way or was cut short, or the true record of what is on the console now.
  predicate OldNewOrAbsent(cfg: Config, before: Option<Base>, c: Console, h: History) {
    || c.state == before
    || (c.state == None && !cfg.atomicRename && (c.task.Renaming? || c.task.Idle?))
    || (c.state.Some? && c.task.Idle? && BaseTrue(c.state.value, h) && c.save == Archive(c.state.value.digest.payload))
  }

  lemma EventRecord(cfg: Config, c: Console, h: History, l: Label, before: Option<Base>)
    requires ConsoleTrue(cfg, c, h) && (l.Call? || l.PowerLoss?) && OldNewOrAbsent(cfg, before, c, h)
    ensures var (c', h') := Event(cfg, c, h, l); OldNewOrAbsent(cfg, before, c', h')
  {
    if c.task.Idle? {
    } else if c.task.WritingState? || c.task.Unlinking? || c.task.Renaming? {
      assert l.Call? ==> Act(cfg, c, h, l.o).0 == ActRecord(cfg, c, l.o);
    } else {
      assert Event(cfg, c, h, l).0.state == c.state;
    }
  }

  lemma GrowthKeepsRecord(cfg: Config, c: Console, h: History, h': History, before: Option<Base>)
    requires OldNewOrAbsent(cfg, before, c, h) && h <= h'
    ensures OldNewOrAbsent(cfg, before, c, h')
  {
    assert c.state.Some? && BaseTrue(c.state.value, h) ==> BaseTrue(c.state.value, h');
  }

  lemma {:induction false} RecordIsOldNewOrAbsent(cfg: Config, s: System, ls: seq<Label>, i: nat, before: Option<Base>)
    requires SystemTrue(cfg, s) && HonestRun(cfg, s, ls)
    requires i < |s.consoles| && OldNewOrAbsent(cfg, before, s.consoles[i], s.server)
    requires forall l | l in ls && l.i == i :: l.Call? || l.PowerLoss?
    ensures OldNewOrAbsent(cfg, before, Run(cfg, s, ls).consoles[i], Run(cfg, s, ls).server)
    decreases |ls|
  {
    if ls != [] {
      var l, s' := ls[0], Next(cfg, s, ls[0]);
      assert l in ls;
      NextKeeps(cfg, s, l);
      if l.i == i {
        EventRecord(cfg, s.consoles[i], s.server, l, before);
      } else {
        GrowthKeepsRecord(cfg, s.consoles[i], s.server, s'.server, before);
      }
      RecordIsOldNewOrAbsent(cfg, s', ls[1..], i, before);
    }
  }
}
