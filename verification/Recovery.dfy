/** What a crash can cost, and what it can never add, under any schedule. */
module Recovery {
  import opened Common
  import opened Config
  import opened Counters
  import opened History
  import opened Storage
  import opened Engine

  // ---- A restart never over-charges -----------------------------------------

  /**
   The step keeps lock order in date order and wraps no counter. A start's day
   check is a locked section too.
   */
  predicate OrderlyStep(s: System, a: Action) {
    Enabled(s, a) ==>
      && (a.TickerLock? ==>
            var e := Section(s.ticker.today, Some(s.ticker.active));
            NotBefore(s.mem, s.ticker.today) && Fits(s.mem, e, s.d))
      && (a.ResetterLock? ==> NotBefore(s.mem, s.resetter.today))
      && (a.Restart? ==> NotBefore(s.mem, a.today))
  }

  predicate NotBefore(v: View, today: Date) {
    v.day.Some? ==> v.day.value <= today
  }

  predicate Orderly(s: System, acts: seq<Action>)
    requires WellFormed(s)
    decreases |acts|
  {
    acts != [] ==> OrderlyStep(s, acts[0]) && Orderly(Apply(s, acts[0]), acts[1..])
  }

  ghost predicate NodeBehind(s: System, i: nat)
    requires i < |s.disk.nodes|
  {
    s.disk.ViewAt(i).Some? ==> Behind(s.disk.ViewAt(i).value, s.mem)
  }

  ghost predicate SaveBehind(s: System, who: Task)
    requires WellFormed(s)
  {
    SaveOf(s, who).Some? ==>
      var (snap, save) := SaveOf(s, who).value;
      Behind(Persisted(snap), s.mem) && (save.Opened? ==> NodeBehind(s, save.fd))
  }

  /**
   Nothing that can become the state file charges more than the shared state. A
   leftover temporary file is exempt until a task opens, and so truncates, it.
   */
  ghost predicate FilesBehind(s: System)
    requires WellFormed(s)
  {
    && s.mem.day.Some?
    && (s.disk.path.Some? ==> NodeBehind(s, s.disk.path.value))
    && SaveBehind(s, TickerTask) && SaveBehind(s, ResetterTask)
    && ((InWindow(s, TickerTask) || InWindow(s, ResetterTask)) && s.disk.tmp.Some?
        ==> NodeBehind(s, s.disk.tmp.value))
  }

  lemma LockKeepsFilesBehind(s: System, a: Action)
    requires WellFormed(s) && FilesBehind(s) && OrderlyStep(s, a)
    requires a.TickerLock? || a.ResetterLock?
    ensures FilesBehind(Apply(s, a))
  {
    if Enabled(s, a) {
      var e := if a.TickerLock? then Section(s.ticker.today, Some(s.ticker.active))
               else Section(s.resetter.today, None);
      forall v: View | Behind(v, s.mem)
        ensures Behind(v, After(s.mem, e, s.d))
      {
        BehindAfter(v, s.mem, e, s.d);
      }
    }
  }

  lemma BootIsBehind(d: U32, disk: Disk, cloned: set<View>, today: Date, active: set<Name>)
    requires disk.Valid() && NotBefore(disk.Load(), today)
    ensures FilesBehind(Boot(d, disk, cloned, today, active))
  {
  }

  lemma OpenKeepsFilesBehind(s: System, who: Task, ok: bool)
    requires WellFormed(s) && s.disk.codec.Valid() && FilesBehind(s)
    ensures FilesBehind(Apply(s, OpenTmp(who, ok)))
  {
    NothingIsNoDocument(s.disk.codec);
  }

  lemma FillKeepsFilesBehind(s: System, who: Task, cut: Option<nat>)
    requires WellFormed(s) && s.disk.codec.Valid() && FilesBehind(s) && SafeStep(s, FillTmp(who, cut))
    ensures FilesBehind(Apply(s, FillTmp(who, cut)))
  {
    if Enabled(s, FillTmp(who, cut)) {
      var s' := Apply(s, FillTmp(who, cut));
      var (snap, save) := SaveOf(s, who).value;
      FilledView(s.disk, save.fd, snap, cut);
      assert s'.mem == s.mem;
      forall i: nat | i < |s.disk.nodes| && NodeBehind(s, i)
        ensures NodeBehind(s', i)
      {
      }
    }
  }

  lemma RenameKeepsFilesBehind(s: System, who: Task, ok: bool)
    requires WellFormed(s) && FilesBehind(s)
    ensures FilesBehind(Apply(s, RenameTmp(who, ok)))
  {
  }

  lemma OtherStepKeepsFilesBehind(s: System, a: Action)
    requires WellFormed(s) && FilesBehind(s)
    requires !a.TickerLock? && !a.ResetterLock? && !a.OpenTmp? && !a.FillTmp? && !a.RenameTmp? && !a.Restart?
    ensures FilesBehind(Apply(s, a))
  {
    var s' := Apply(s, a);
    assert s'.mem == s.mem && s'.disk == s.disk;
  }

  lemma StepKeepsFilesBehind(s: System, a: Action)
    requires WellFormed(s) && s.disk.codec.Valid() && FilesBehind(s) && OrderlyStep(s, a) && SafeStep(s, a)
    ensures FilesBehind(Apply(s, a))
  {
    match a
    case TickerLock => LockKeepsFilesBehind(s, a);
    case ResetterLock => LockKeepsFilesBehind(s, a);
    case OpenTmp(who, ok) => OpenKeepsFilesBehind(s, who, ok);
    case FillTmp(who, cut) => FillKeepsFilesBehind(s, who, cut);
    case RenameTmp(who, ok) => RenameKeepsFilesBehind(s, who, ok);
    case Restart(today, active) => RestartKeepsFilesBehind(s, today, active);
    case _ => OtherStepKeepsFilesBehind(s, a);
  }

  lemma RestartKeepsFilesBehind(s: System, today: Date, active: set<Name>)
    requires WellFormed(s) && FilesBehind(s) && NotBefore(s.mem, today)
    ensures FilesBehind(Apply(s, Restart(today, active)))
  {
    BootIsBehind(s.d, s.disk, s.trail.cloned, today, active);
  }

  lemma {:induction false} FilesStayBehind(s: System, acts: seq<Action>)
    requires WellFormed(s) && s.disk.codec.Valid() && FilesBehind(s) && Orderly(s, acts) && SafeFills(s, acts)
    ensures FilesBehind(Exec(s, acts))
    decreases |acts|
  {
    if acts != [] {
      StepKeepsFilesBehind(s, acts[0]);
      CodecStays(s, acts[0]);
      FilesStayBehind(Apply(s, acts[0]), acts[1..]);
    }
  }

  lemma BehindOnRestart(s: System, today: Date, active: set<Name>, u: Name)
    requires WellFormed(s) && FilesBehind(s) && NotBefore(s.mem, today)
    ensures Used(Apply(s, Restart(today, active)).mem, u) <= Used(s.mem, u)
  {
  }

  /**
   Crash anywhere, in the middle of either save or of both at once: as long as
   every write is safe, dates keep lock order and no counter wraps around, reading
   the file back and checking the day charges no user more than the shared state did
   at the moment of the crash.
   */
  lemma RestartNeverOverCharges(d: U32, disk: Disk, cloned: set<View>, today: Date, active: set<Name>,
                                acts: seq<Action>, restartDay: Date, u: Name)
    requires disk.Valid() && disk.codec.Valid() && NotBefore(disk.Load(), today)
    requires var s0 := Boot(d, disk, cloned, today, active);
             Orderly(s0, acts) && SafeFills(s0, acts) && NotBefore(Exec(s0, acts).mem, restartDay)
    ensures var s := Exec(Boot(d, disk, cloned, today, active), acts);
            Used(Apply(s, Restart(restartDay, active)).mem, u) <= Used(s.mem, u)
  {
    var s0 := Boot(d, disk, cloned, today, active);
    BootIsBehind(d, disk, cloned, today, active);
    FilesStayBehind(s0, acts);
    BehindOnRestart(Exec(s0, acts), restartDay, active, u);
  }

  // ---- A crash loses little ---------------------------------------------------

  /** The counters hold what the ticker cloned, or nothing since a rollover. */
  predicate SnapshotCurrent(s: System, snap: View) {
    s.mem.counters == map[] || (s.mem.day == snap.day && s.mem.counters == snap.counters)
  }

  /** What a restart on the shared state's own day would lose of `u`'s time. */
  function Lag(s: System, u: Name): int
    requires s.disk.Valid() && s.mem.day.Some?
  {
    Used(s.mem, u) - Used(Rolled(s.disk.Load(), s.mem.day.value), u)
  }

  predicate TickerOwnsTmp(s: System)
    requires s.disk.Valid()
  {
    s.ticker.TickerSaving? && s.trail.solo ==>
      match s.ticker.save
      case Pending => true
      case Opened(fd) => s.disk.tmp == Some(fd) && s.disk.nodes[fd] == ""
      case Filled => s.disk.tmp.Some? && s.disk.nodes[s.disk.tmp.value] == s.disk.codec.encode(s.ticker.snap)
  }

  predicate SoloMeansResetterOut(s: System) {
    && (s.ticker.TickerSaving? && s.trail.solo ==> !s.resetter.ResetterSaving? && !s.ticker.save.Pending?)
    && (s.trail.clean ==> !s.resetter.ResetterSaving?)
  }

  predicate Bookkeeping(s: System) {
    s.trail.unsaved == s.trail.failed + if s.ticker.TickerSaving? then 1 else 0
  }

  /** Everything in `LagBounded` but the bound itself. */
  predicate BoundApart(s: System)
    requires WellFormed(s)
  {
    && s.mem.day.Some?
    && TickerOwnsTmp(s) && SoloMeansResetterOut(s) && Bookkeeping(s)
    && (s.ticker.TickerSaving? ==> SnapshotCurrent(s, s.ticker.snap))
    && (s.trail.clean ==> s.disk.path.Some?)
    && (s.trail.clean && s.ticker.TickerSaving? && s.ticker.save.Opened? ==> s.disk.path != Some(s.ticker.save.fd))
  }

  ghost predicate LagBounded(s: System)
    requires WellFormed(s)
  {
    && BoundApart(s)
    && (s.trail.clean ==> forall u :: Lag(s, u) <= Seconds(s.trail.unsaved, s.d))
  }

  lemma LockKeepsLag(s: System, u: Name)
    requires WellFormed(s) && LagBounded(s) && s.ticker.TickerDated? && s.trail.clean
    ensures var s' := Apply(s, TickerLock);
            Lag(s', u) <= Seconds(s'.trail.unsaved, s.d)
  {
    var s' := Apply(s, TickerLock);
    assert s'.disk == s.disk;
    assert Seconds(s'.trail.unsaved, s.d) == Seconds(s.trail.unsaved, s.d) + s.d;
    assert Lag(s, u) <= Seconds(s.trail.unsaved, s.d);
    if s.mem.day == Some(s.ticker.today) {
      assert Used(s'.mem, u) <= Used(s.mem, u) + s.d;
    } else {
      assert Used(s'.mem, u) <= s.d;
    }
  }

  lemma RenameKeepsLag(s: System, ok: bool, u: Name)
    requires WellFormed(s) && s.disk.codec.Valid() && LagBounded(s) && Enabled(s, RenameTmp(TickerTask, ok))
    requires Apply(s, RenameTmp(TickerTask, ok)).trail.clean
    ensures var s' := Apply(s, RenameTmp(TickerTask, ok));
            Lag(s', u) <= Seconds(s'.trail.unsaved, s.d)
  {
    var s' := Apply(s, RenameTmp(TickerTask, ok));
    assert s'.mem == s.mem;
    if ok && s.disk.tmp.Some? {
      assert s.trail.solo;
      DecodesWhole(s.disk.codec, s.ticker.snap);
      assert s'.disk.Load() == Persisted(s.ticker.snap);
      assert SnapshotCurrent(s, s.ticker.snap);
    } else {
      assert s'.disk == s.disk && s'.trail.unsaved == s.trail.unsaved && s.trail.clean;
      assert Lag(s, u) <= Seconds(s.trail.unsaved, s.d);
    }
  }

  lemma SameFileSameLag(s: System, s': System)
    requires s.disk.Valid() && s'.disk.Valid() && s.mem.day.Some?
    requires s'.mem == s.mem && s'.disk.Load() == s.disk.Load()
    ensures forall u :: Lag(s', u) == Lag(s, u)
  {
  }

  lemma OpenKeepsBookkeeping(s: System, who: Task, ok: bool)
    requires WellFormed(s) && BoundApart(s)
    ensures BoundApart(Apply(s, OpenTmp(who, ok)))
  {
  }

  lemma FillKeepsBookkeeping(s: System, who: Task, cut: Option<nat>)
    requires WellFormed(s) && BoundApart(s)
    ensures BoundApart(Apply(s, FillTmp(who, cut)))
  {
    if Enabled(s, FillTmp(who, cut)) {
      var t := s.disk.codec.encode(SaveOf(s, who).value.0);
      assert t[..|t|] + "" == t;
    }
  }

  lemma RenameKeepsBookkeeping(s: System, who: Task, ok: bool)
    requires WellFormed(s) && BoundApart(s)
    ensures BoundApart(Apply(s, RenameTmp(who, ok)))
  {
  }

  lemma StepKeepsBookkeeping(s: System, a: Action)
    requires WellFormed(s) && BoundApart(s)
    ensures BoundApart(Apply(s, a))
  {
    match a
    case OpenTmp(who, ok) => OpenKeepsBookkeeping(s, who, ok);
    case FillTmp(who, cut) => FillKeepsBookkeeping(s, who, cut);
    case RenameTmp(who, ok) => RenameKeepsBookkeeping(s, who, ok);
    case _ =>
  }

  lemma StepKeepsLag(s: System, a: Action)
    requires WellFormed(s) && s.disk.codec.Valid() && LagBounded(s)
    ensures LagBounded(Apply(s, a))
  {
    var s' := Apply(s, a);
    StepKeepsBookkeeping(s, a);
    if Enabled(s, a) && s'.trail.clean {
      if a.TickerLock? {
        forall u
          ensures Lag(s', u) <= Seconds(s'.trail.unsaved, s.d)
        {
          LockKeepsLag(s, u);
        }
      } else if a.RenameTmp? {
        forall u
          ensures Lag(s', u) <= Seconds(s'.trail.unsaved, s.d)
        {
          RenameKeepsLag(s, a.ok, u);
        }
      } else {
        SameFileSameLag(s, s');
      }
    }
  }

  lemma {:induction false} LagStaysBounded(s: System, acts: seq<Action>)
    requires WellFormed(s) && s.disk.codec.Valid() && LagBounded(s)
    ensures LagBounded(Exec(s, acts))
    decreases |acts|
  {
    if acts != [] {
      CodecStays(s, acts[0]);
      StepKeepsLag(s, acts[0]);
      LagStaysBounded(Apply(s, acts[0]), acts[1..]);
    }
  }

  /**
   From a ticker save that met no resetter save until the resetter's next locked
   section, a crash costs each user at most one tick for each ticker save that
   failed since, plus one if a save is under way; with no failures, one tick.
   */
  lemma CrashLosesLittle(d: U32, disk: Disk, cloned: set<View>, today: Date, active: set<Name>,
                         acts: seq<Action>, u: Name)
    requires disk.Valid() && disk.codec.Valid()
    requires Exec(Boot(d, disk, cloned, today, active), acts).trail.clean
    ensures var s := Exec(Boot(d, disk, cloned, today, active), acts);
            && s.mem.day.Some?
            && Lag(s, u) <= Seconds(s.trail.failed + if s.ticker.TickerSaving? then 1 else 0, s.d)
            && (s.trail.failed == 0 ==> Lag(s, u) <= s.d)
  {
    BootLagBounded(d, disk, cloned, today, active);
    LagStaysBounded(Boot(d, disk, cloned, today, active), acts);
    LagAtCrash(Exec(Boot(d, disk, cloned, today, active), acts), u);
  }

  lemma BootLagBounded(d: U32, disk: Disk, cloned: set<View>, today: Date, active: set<Name>)
    requires disk.Valid()
    ensures LagBounded(Boot(d, disk, cloned, today, active))
  {
  }

  lemma LagAtCrash(s: System, u: Name)
    requires WellFormed(s) && LagBounded(s) && s.trail.clean
    ensures Lag(s, u) <= Seconds(s.trail.failed + if s.ticker.TickerSaving? then 1 else 0, s.d)
    ensures s.trail.failed == 0 ==> Lag(s, u) <= s.d
  {
    assert Lag(s, u) <= Seconds(s.trail.unsaved, s.d);
    assert Seconds(1, s.d) == Seconds(0, s.d) + s.d;
  }
}
