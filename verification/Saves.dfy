/**
 What is on disk, under any schedule: which views a reader can find there, and
 when the state file is whole.
 */
module Saves {
  import opened Common
  import opened Config
  import opened Counters
  import opened Storage
  import opened Engine

  // ---- Only cloned views are ever read back -----------------------------------

  predicate ClonesInHand(s: System) {
    && (SaveOf(s, TickerTask).Some? ==> Persisted(SaveOf(s, TickerTask).value.0) in s.trail.cloned)
    && (SaveOf(s, ResetterTask).Some? ==> Persisted(SaveOf(s, ResetterTask).value.0) in s.trail.cloned)
  }

  ghost predicate OnlyClones(s: System) {
    && (forall i: nat :: i < |s.disk.nodes| && s.disk.ViewAt(i).Some? ==> s.disk.ViewAt(i).value in s.trail.cloned)
    && ClonesInHand(s)
  }

  lemma StepKeepsClonesInHand(s: System, a: Action)
    requires WellFormed(s) && ClonesInHand(s)
    ensures ClonesInHand(Apply(s, a)) && s.trail.cloned <= Apply(s, a).trail.cloned
  {
  }

  /** A step leaves the files alone, empties one, or writes to one; this is what is in them then. */
  lemma FilesAfter(s: System, a: Action, i: nat)
    requires WellFormed(s) && s.disk.codec.Valid() && SafeStep(s, a) && i < |Apply(s, a).disk.nodes|
    ensures Apply(s, a).disk.codec == s.disk.codec
    ensures var now := Apply(s, a).disk.ViewAt(i);
            || (i < |s.disk.nodes| && now == s.disk.ViewAt(i))
            || now == None
            || (a.FillTmp? && SaveOf(s, a.who).Some? && now == Some(Persisted(SaveOf(s, a.who).value.0)))
  {
    NothingIsNoDocument(s.disk.codec);
    if Enabled(s, a) && a.FillTmp? {
      var (snap, save) := SaveOf(s, a.who).value;
      FilledView(s.disk, save.fd, snap, a.cut);
    }
  }

  lemma StepKeepsOnlyClones(s: System, a: Action)
    requires WellFormed(s) && s.disk.codec.Valid() && OnlyClones(s) && SafeStep(s, a)
    ensures OnlyClones(Apply(s, a))
  {
    var s' := Apply(s, a);
    StepKeepsClonesInHand(s, a);
    forall i: nat | i < |s'.disk.nodes| && s'.disk.ViewAt(i).Some?
      ensures s'.disk.ViewAt(i).value in s'.trail.cloned
    {
      FilesAfter(s, a, i);
    }
  }

  /**
   As long as every write is safe, whatever parses in any file is exactly what some
   locked section cloned, even when the two tasks write through the same temporary
   name at once.
   */
  lemma {:induction false} EveryFileIsAClone(s: System, acts: seq<Action>)
    requires WellFormed(s) && s.disk.codec.Valid() && OnlyClones(s) && SafeFills(s, acts)
    ensures OnlyClones(Exec(s, acts))
    decreases |acts|
  {
    if acts != [] {
      StepKeepsOnlyClones(s, acts[0]);
      CodecStays(s, acts[0]);
      EveryFileIsAClone(Apply(s, acts[0]), acts[1..]);
    }
  }

  /** Writes that run to completion are safe, whatever the tasks do in between. */
  lemma {:induction false} CompleteWritesAreSafe(s: System, acts: seq<Action>)
    requires WellFormed(s)
    requires forall i :: 0 <= i < |acts| && acts[i].FillTmp? ==> acts[i].cut.None?
    ensures SafeFills(s, acts)
    decreases |acts|
  {
    if acts != [] {
      CompleteWritesAreSafe(Apply(s, acts[0]), acts[1..]);
    }
  }

  // ---- Wholeness --------------------------------------------------------------

  /** The lengths alone tell which files hold a whole document. */
  ghost predicate Tracked(s: System) {
    forall i: nat :: i < |s.disk.nodes| ==> (i in s.trail.unfinished <==> s.disk.ViewAt(i).None?)
  }

  lemma FillKeepsTracked(s: System, who: Task, cut: Option<nat>)
    requires WellFormed(s) && s.disk.codec.Valid() && Tracked(s) && SafeStep(s, FillTmp(who, cut))
    ensures Tracked(Apply(s, FillTmp(who, cut)))
  {
    if Enabled(s, FillTmp(who, cut)) {
      var (snap, save) := SaveOf(s, who).value;
      FilledView(s.disk, save.fd, snap, cut);
    }
  }

  lemma StepKeepsTracked(s: System, a: Action)
    requires WellFormed(s) && s.disk.codec.Valid() && Tracked(s) && SafeStep(s, a)
    ensures Tracked(Apply(s, a))
  {
    NothingIsNoDocument(s.disk.codec);
    if a.FillTmp? {
      FillKeepsTracked(s, a.who, a.cut);
    }
  }

  /**
   The step spoils a whole state file: it puts an unfinished file in its place, or
   writes to it through a handle that the rename has already moved to the real
   name, and gets something out without covering all that was there.
   */
  predicate Spoils(s: System, a: Action)
    requires WellFormed(s)
  {
    && Enabled(s, a)
    && match a
       case RenameTmp(_, ok) => ok && s.disk.tmp.Some? && s.disk.tmp.value in s.trail.unfinished
       case FillTmp(who, cut) =>
         var (snap, save) := SaveOf(s, who).value;
         var n, k := |s.disk.codec.encode(snap)|, s.disk.Reach(snap, cut);
         s.disk.path == Some(save.fd) && 0 < k && (k < n || !Covers(n, s.disk.nodes[save.fd]))
       case _ => false
  }

  lemma SpoiledExactlyBy(s: System, a: Action)
    requires WellFormed(s) && s.disk.codec.Valid() && Tracked(s) && SafeStep(s, a) && s.disk.Whole()
    ensures !Apply(s, a).disk.Whole() <==> Spoils(s, a)
  {
    if Enabled(s, a) && a.FillTmp? {
      var (snap, save) := SaveOf(s, a.who).value;
      FilledView(s.disk, save.fd, snap, a.cut);
    }
  }

  predicate AlwaysWhole(s: System, acts: seq<Action>)
    requires WellFormed(s)
    decreases |acts|
  {
    s.disk.Whole() && (acts != [] ==> AlwaysWhole(Apply(s, acts[0]), acts[1..]))
  }

  predicate NeverSpoils(s: System, acts: seq<Action>)
    requires WellFormed(s)
    decreases |acts|
  {
    acts != [] ==> !Spoils(s, acts[0]) && NeverSpoils(Apply(s, acts[0]), acts[1..])
  }

  /**
   The state file is absent or one complete view at every point of a schedule
   exactly when no step of it spoils the file, going by lengths alone.
   */
  lemma {:induction false} WholeExactlyWhen(s: System, acts: seq<Action>)
    requires WellFormed(s) && s.disk.codec.Valid() && Tracked(s) && SafeFills(s, acts) && s.disk.Whole()
    ensures AlwaysWhole(s, acts) <==> NeverSpoils(s, acts)
    decreases |acts|
  {
    if acts != [] {
      var s' := Apply(s, acts[0]);
      SpoiledExactlyBy(s, acts[0]);
      if s'.disk.Whole() {
        StepKeepsTracked(s, acts[0]);
        CodecStays(s, acts[0]);
        WholeExactlyWhen(s', acts[1..]);
      }
    }
  }

  // ---- Saves that do not overlap ------------------------------------------------

  predicate Overlapping(s: System) {
    InWindow(s, TickerTask) && InWindow(s, ResetterTask)
  }

  /** At no point of the schedule are both tasks between open and rename. */
  predicate NeverOverlaps(s: System, acts: seq<Action>)
    requires WellFormed(s)
    decreases |acts|
  {
    !Overlapping(s) && (acts != [] ==> NeverOverlaps(Apply(s, acts[0]), acts[1..]))
  }

  /** A task alone in its window owns the temporary file. */
  predicate OwnsTmp(s: System, who: Task)
    requires s.disk.Valid()
  {
    InWindow(s, who) ==>
      var (snap, save) := SaveOf(s, who).value;
      && s.disk.tmp.Some?
      && (save.Opened? ==> s.disk.tmp == Some(save.fd) && s.disk.nodes[save.fd] == "")
      && (save.Filled? ==> s.disk.nodes[s.disk.tmp.value] == s.disk.codec.encode(snap))
  }

  predicate WholeAndOwned(s: System)
    requires s.disk.Valid()
  {
    s.disk.Whole() && OwnsTmp(s, TickerTask) && OwnsTmp(s, ResetterTask)
  }

  lemma OpenKeepsWhole(s: System, who: Task, ok: bool)
    requires WellFormed(s) && WholeAndOwned(s)
    requires !Overlapping(s) && !Overlapping(Apply(s, OpenTmp(who, ok)))
    ensures WholeAndOwned(Apply(s, OpenTmp(who, ok)))
  {
  }

  /** The writer is alone with an empty file, so its write is safe. */
  lemma FillKeepsWhole(s: System, who: Task, cut: Option<nat>)
    requires WellFormed(s) && s.disk.codec.Valid() && WholeAndOwned(s) && !Overlapping(s)
    ensures SafeStep(s, FillTmp(who, cut))
    ensures WholeAndOwned(Apply(s, FillTmp(who, cut)))
  {
    if Enabled(s, FillTmp(who, cut)) {
      var (snap, save) := SaveOf(s, who).value;
      var t := s.disk.codec.encode(snap);
      assert t[..|t|] + "" == t;
    }
  }

  lemma RenameKeepsWhole(s: System, who: Task, ok: bool)
    requires WellFormed(s) && s.disk.codec.Valid() && WholeAndOwned(s) && !Overlapping(s)
    ensures WholeAndOwned(Apply(s, RenameTmp(who, ok)))
  {
    if Enabled(s, RenameTmp(who, ok)) {
      DecodesWhole(s.disk.codec, SaveOf(s, who).value.0);
    }
  }

  lemma StepKeepsWhole(s: System, a: Action)
    requires WellFormed(s) && s.disk.codec.Valid() && WholeAndOwned(s)
    requires !Overlapping(s) && !Overlapping(Apply(s, a))
    ensures WholeAndOwned(Apply(s, a)) && SafeStep(s, a)
  {
    if a.OpenTmp? {
      OpenKeepsWhole(s, a.who, a.ok);
    } else if a.FillTmp? {
      FillKeepsWhole(s, a.who, a.cut);
    } else if a.RenameTmp? {
      RenameKeepsWhole(s, a.who, a.ok);
    }
  }

  /**
   As long as the two saves never overlap, the state file is absent or holds one
   complete view at every point of every schedule, crashes and failed writes
   included, and every write is safe.
   */
  lemma {:induction false} SerialSavesStayWhole(s: System, acts: seq<Action>)
    requires WellFormed(s) && s.disk.codec.Valid() && WholeAndOwned(s) && NeverOverlaps(s, acts)
    ensures AlwaysWhole(s, acts) && SafeFills(s, acts) && Exec(s, acts).disk.Whole()
    decreases |acts|
  {
    if acts != [] {
      StepKeepsWhole(s, acts[0]);
      CodecStays(s, acts[0]);
      SerialSavesStayWhole(Apply(s, acts[0]), acts[1..]);
    }
  }

  // ---- Concrete schedules -------------------------------------------------------

  lemma {:induction false} ExecAppend(s: System, first: seq<Action>, second: seq<Action>)
    requires WellFormed(s)
    ensures Exec(s, first + second) == Exec(Exec(s, first), second)
    decreases |first|
  {
    if first == [] {
      assert first + second == second;
    } else {
      assert (first + second)[1..] == first[1..] + second;
      ExecAppend(Apply(s, first[0]), first[1..], second);
    }
  }

  lemma ExecFour(s: System, a: Action, b: Action, c: Action, e: Action)
    requires WellFormed(s)
    ensures Exec(s, [a, b, c, e]) == Apply(Apply(Apply(Apply(s, a), b), c), e)
  {
    var s1 := Apply(s, a);
    var s2 := Apply(s1, b);
    var s3 := Apply(s2, c);
    assert Exec(s, [a, b, c, e]) == Exec(s1, [b, c, e]);
    assert Exec(s1, [b, c, e]) == Exec(s2, [c, e]);
    assert Exec(s2, [c, e]) == Exec(s3, [e]);
    assert Exec(s3, [e]) == Exec(Apply(s3, e), []);
  }

  function TickUpToOpen(name: Name, today: Date): seq<Action> {
    [Poll({name}), TickerReadDate(today), TickerLock, OpenTmp(TickerTask, true)]
  }

  function RestOfRound(): seq<Action> {
    [FillTmp(TickerTask, None), RenameTmp(TickerTask, true), TickerSend, Enforce]
  }

  /** The resetter locks between the ticker's fill and its open. */
  function ResetterSlipsIn(today: Date): seq<Action> {
    [FillTmp(TickerTask, None), ResetterReadDate(today), ResetterLock, OpenTmp(ResetterTask, true)]
  }

  /** One tick is saved; the next tick's file is truncated before its rename. */
  function TearingSchedule(name: Name, today: Date): seq<Action> {
    TickUpToOpen(name, today) + RestOfRound() + TickUpToOpen(name, today) + ResetterSlipsIn(today)
    + [RenameTmp(TickerTask, true)]
  }

  /** A first start, with no state file yet. */
  function FirstBoot(codec: Codec, d: U32, today: Date): System {
    Boot(d, Disk(codec, [], None, None), {}, today, {})
  }

  predicate BothIdle(s: System) {
    s.ticker.TickerIdle? && s.resetter.ResetterIdle?
  }

  lemma OneTick(s: System, name: Name, today: Date) returns (s': System)
    requires WellFormed(s) && BothIdle(s) && s.mem.day == Some(today)
    requires s.disk.tmp.None?
    ensures s' == Exec(s, TickUpToOpen(name, today))
    ensures s'.mem == Ticked(s.mem, {name}, s.d) && s'.d == s.d
    ensures s'.ticker == TickerSaving({name}, s'.mem, Opened(|s.disk.nodes|)) && s'.resetter == s.resetter
    ensures s'.disk == s.disk.(nodes := s.disk.nodes + [""], tmp := Some(|s.disk.nodes|)) && s'.sent == s.sent
  {
    ExecFour(s, Poll({name}), TickerReadDate(today), TickerLock, OpenTmp(TickerTask, true));
    var s3 := Apply(Apply(Apply(s, Poll({name})), TickerReadDate(today)), TickerLock);
    assert s3.ticker == TickerSaving({name}, s3.mem, Pending);
    s' := Apply(s3, OpenTmp(TickerTask, true));
  }

  lemma CompleteFill(s: System, fd: nat)
    requires fd < |s.disk.nodes| && s.disk.nodes[fd] == ""
    ensures s.disk.Fill(fd, s.mem, None) == s.disk.(nodes := s.disk.nodes[fd := s.disk.codec.encode(s.mem)])
  {
    var t := s.disk.codec.encode(s.mem);
    assert t[..|t|] + "" == t;
  }

  lemma OneSave(s: System, name: Name, fd: nat) returns (s': System)
    requires WellFormed(s) && s.resetter.ResetterIdle? && s.disk.tmp == Some(fd) && s.disk.nodes[fd] == ""
    requires s.ticker == TickerSaving({name}, s.mem, Opened(fd))
    ensures s' == Exec(s, RestOfRound())
    ensures s'.mem == s.mem && BothIdle(s') && s'.d == s.d && s'.sent == s.sent + 1
    ensures s'.disk == s.disk.(nodes := s.disk.nodes[fd := s.disk.codec.encode(s.mem)], path := Some(fd), tmp := None)
  {
    ExecFour(s, FillTmp(TickerTask, None), RenameTmp(TickerTask, true), TickerSend, Enforce);
    var s1 := Apply(s, FillTmp(TickerTask, None));
    CompleteFill(s, fd);
    assert s1.ticker == TickerSaving({name}, s.mem, Filled);
    var s2 := Apply(s1, RenameTmp(TickerTask, true));
    assert s2.ticker == TickerSending({name}, s.mem);
    s' := Apply(Apply(s2, TickerSend), Enforce);
  }

  lemma OneTruncation(s: System, name: Name, fd: nat, today: Date) returns (s': System)
    requires WellFormed(s) && s.resetter.ResetterIdle? && s.disk.tmp == Some(fd) && s.disk.nodes[fd] == ""
    requires s.ticker == TickerSaving({name}, s.mem, Opened(fd)) && s.mem.day == Some(today)
    ensures s' == Exec(s, ResetterSlipsIn(today))
    ensures s'.mem == s.mem && s'.disk == s.disk
    ensures s'.ticker == TickerSaving({name}, s.mem, Filled)
  {
    ExecFour(s, FillTmp(TickerTask, None), ResetterReadDate(today), ResetterLock, OpenTmp(ResetterTask, true));
    var s1 := Apply(s, FillTmp(TickerTask, None));
    CompleteFill(s, fd);
    assert s1.ticker == TickerSaving({name}, s.mem, Filled);
    var s3 := Apply(Apply(s1, ResetterReadDate(today)), ResetterLock);
    assert s3.resetter == ResetterSaving(false, s.mem, Pending);
    s' := Apply(s3, OpenTmp(ResetterTask, true));
    assert s'.disk.nodes == s.disk.nodes[fd := s.disk.codec.encode(s.mem)][fd := ""];
  }

  lemma ExecFive(s: System, a: seq<Action>, b: seq<Action>, c: seq<Action>, e: seq<Action>, f: seq<Action>)
    requires WellFormed(s)
    ensures Exec(s, a + b + c + e + f) == Exec(Exec(Exec(Exec(Exec(s, a), b), c), e), f)
  {
    ExecAppend(s, a, b);
    ExecAppend(s, a + b, c);
    ExecAppend(s, a + b + c, e);
    ExecAppend(s, a + b + c + e, f);
  }

  lemma ExecOne(s: System, a: Action)
    requires WellFormed(s)
    ensures Exec(s, [a]) == Apply(s, a)
  {
    assert Exec(Apply(s, a), []) == Apply(s, a);
  }

  lemma Torn(s0: System, name: Name, today: Date) returns (s: System)
    requires s0 == FirstBoot(s0.disk.codec, s0.d, today) && 2 * s0.d <= U32_MAX
    ensures s == Exec(s0, TearingSchedule(name, today))
    ensures s.disk.path == Some(1) && 1 < |s.disk.nodes| && s.disk.nodes[1] == "" && s.disk.codec == s0.disk.codec
    ensures Used(s.mem, name) == 2 * s0.d
  {
    var s2 := FirstTickSaved(s0, name, today);
    s := SecondTickTorn(s2, name, today);
    TearingIsFiveParts(s0, s2, name, today);
    TwoCredits(s0.mem, name, s0.d);
  }

  lemma TwoCredits(v: View, name: Name, d: U32)
    requires v.counters == map[] && 2 * d <= U32_MAX
    ensures Used(Ticked(Ticked(v, {name}, d), {name}, d), name) == 2 * d
  {
  }

  lemma TearingIsFiveParts(s0: System, s2: System, name: Name, today: Date)
    requires WellFormed(s0) && s2 == Exec(Exec(s0, TickUpToOpen(name, today)), RestOfRound())
    ensures Exec(s0, TearingSchedule(name, today))
         == Exec(Exec(Exec(s2, TickUpToOpen(name, today)), ResetterSlipsIn(today)), [RenameTmp(TickerTask, true)])
  {
    ExecFive(s0, TickUpToOpen(name, today), RestOfRound(), TickUpToOpen(name, today), ResetterSlipsIn(today),
             [RenameTmp(TickerTask, true)]);
  }

  lemma FirstTickSaved(s0: System, name: Name, today: Date) returns (s: System)
    requires s0 == FirstBoot(s0.disk.codec, s0.d, today)
    ensures s == Exec(Exec(s0, TickUpToOpen(name, today)), RestOfRound())
    ensures BothIdle(s) && s.d == s0.d && s.mem == Ticked(s0.mem, {name}, s0.d)
    ensures s.disk.tmp.None? && |s.disk.nodes| == 1 && s.disk.codec == s0.disk.codec
  {
    var s1 := OneTick(s0, name, today);
    s := OneSave(s1, name, 0);
  }

  lemma SecondTickTorn(s2: System, name: Name, today: Date) returns (s: System)
    requires WellFormed(s2) && BothIdle(s2) && s2.mem.day == Some(today)
    requires s2.disk.tmp.None? && |s2.disk.nodes| == 1
    ensures s == Exec(Exec(Exec(s2, TickUpToOpen(name, today)), ResetterSlipsIn(today)), [RenameTmp(TickerTask, true)])
    ensures s.disk.path == Some(1) && 1 < |s.disk.nodes| && s.disk.nodes[1] == "" && s.disk.codec == s2.disk.codec
    ensures s.mem == Ticked(s2.mem, {name}, s2.d)
  {
    var s3 := OneTick(s2, name, today);
    var s4 := OneTruncation(s3, name, 1, today);
    s := LastRename(s4, name, 1);
  }

  lemma LastRename(s: System, name: Name, fd: nat) returns (s': System)
    requires WellFormed(s) && s.disk.tmp == Some(fd) && s.ticker == TickerSaving({name}, s.mem, Filled)
    ensures s' == Exec(s, [RenameTmp(TickerTask, true)])
    ensures s'.mem == s.mem && s'.disk == s.disk.(path := Some(fd), tmp := None)
    ensures s'.trail.cloned == s.trail.cloned
  {
    ExecOne(s, RenameTmp(TickerTask, true));
    s' := Apply(s, RenameTmp(TickerTask, true));
  }

  /**
   Without that condition the promise of an atomic save fails: the resetter's
   open truncates the file the ticker is about to rename, and a crash right then
   loses a user's whole day although every write succeeded.
   */
  lemma OverlappingSavesLoseTheDay(codec: Codec, d: U32, name: Name, today: Date)
    requires codec.Valid() && 2 * d <= U32_MAX
    ensures var s0 := FirstBoot(codec, d, today);
            var s := Exec(s0, TearingSchedule(name, today));
            && s0.disk.Whole() && !NeverOverlaps(s0, TearingSchedule(name, today))
            && !s.disk.Whole()
            && Used(s.mem, name) == 2 * d
            && Used(Apply(s, Restart(today, {})).mem, name) == 0
  {
    var s0 := FirstBoot(codec, d, today);
    var s := Torn(s0, name, today);
    NothingIsNoDocument(codec);
    if NeverOverlaps(s0, TearingSchedule(name, today)) {
      SerialSavesStayWhole(s0, TearingSchedule(name, today));
      assert false;
    }
  }

  // ---- A write that is not safe ---------------------------------------------------

  /** The view of a day on which one user alone has been counted. */
  function OneUser(today: Date, name: Name, used: U32): View {
    View(Some(today), map[name := used], {})
  }

  /** How a format prints a count in decimal, with whatever it puts around it. */
  ghost predicate PrintsCounts(c: Codec, today: Date, name: Name, before: Text, after: Text) {
    && c.Writes(OneUser(today, name, 5)) && c.encode(OneUser(today, name, 5)) == before + "5" + after
    && (forall active :: c.encode(OneUser(today, name, 10).(active := active)) == before + "10" + after)
    && c.decode(before + "50" + after) == Some(OneUser(today, name, 50))
  }

  /** Both tasks open the file; the resetter's write fails just after its first digit. */
  function Race(k: nat): seq<Action> {
    [OpenTmp(TickerTask, true), OpenTmp(ResetterTask, true), FillTmp(TickerTask, None), FillTmp(ResetterTask, Some(k))]
  }

  /** Just after midnight the resetter clones, and the ticker counts one more tick. */
  function TwoClones(name: Name, today: Date): seq<Action> {
    [ResetterReadDate(today), ResetterLock, Poll({name}), TickerReadDate(today)]
  }

  function ForgingSchedule(name: Name, today: Date, k: nat): seq<Action> {
    TwoClones(name, today) + [TickerLock] + Race(k) + [RenameTmp(TickerTask, true)]
  }

  /** A start on a state file that holds five seconds of today. */
  function BootOnFive(c: Codec, name: Name, today: Date): System {
    Boot(5, Disk(c, [c.encode(OneUser(today, name, 5))], Some(0), None), {OneUser(today, name, 5)}, today, {})
  }

  lemma ClonedTwice(s: System, name: Name, today: Date) returns (s': System)
    requires WellFormed(s) && BothIdle(s) && s.mem == OneUser(today, name, 5) && s.d == 5
    ensures s' == Apply(Exec(s, TwoClones(name, today)), TickerLock)
    ensures s'.mem == OneUser(today, name, 10).(active := {name}) && s'.disk == s.disk
    ensures s'.ticker == TickerSaving({name}, s'.mem, Pending) && s'.resetter == ResetterSaving(false, s.mem, Pending)
    ensures s'.trail.cloned == s.trail.cloned + {OneUser(today, name, 5), OneUser(today, name, 10)}
  {
    ExecFour(s, ResetterReadDate(today), ResetterLock, Poll({name}), TickerReadDate(today));
    var s2 := Apply(Apply(s, ResetterReadDate(today)), ResetterLock);
    var s4 := Apply(Apply(s2, Poll({name})), TickerReadDate(today));
    assert s4.mem == s.mem && s4.trail.cloned == s.trail.cloned + {OneUser(today, name, 5)};
    s' := Apply(s4, TickerLock);
    assert Credited(s.mem.counters, {name}, 5) == map[name := 10];
  }

  lemma Raced(s: System, name: Name, today: Date, k: nat) returns (s': System)
    requires WellFormed(s) && s.disk.tmp.None? && k <= |s.disk.codec.encode(OneUser(today, name, 5))|
    requires s.ticker == TickerSaving({name}, s.mem, Pending)
    requires s.resetter == ResetterSaving(false, OneUser(today, name, 5), Pending)
    ensures s' == Exec(s, Race(k)) && s'.mem == s.mem && s'.trail.cloned == s.trail.cloned
    ensures s'.ticker == TickerSaving({name}, s.mem, Filled)
    ensures var c := s.disk.codec;
            s'.disk == s.disk.(nodes := s.disk.nodes
                                 + [Overwritten(c.encode(s.mem), c.encode(OneUser(today, name, 5)), k)],
                               tmp := Some(|s.disk.nodes|))
  {
    var c, fd := s.disk.codec, |s.disk.nodes|;
    ExecFour(s, OpenTmp(TickerTask, true), OpenTmp(ResetterTask, true), FillTmp(TickerTask, None),
             FillTmp(ResetterTask, Some(k)));
    var s2 := Apply(Apply(s, OpenTmp(TickerTask, true)), OpenTmp(ResetterTask, true));
    assert s2.disk.nodes == s.disk.nodes + [""];
    CompleteFill(s2, fd);
    var s3 := Apply(s2, FillTmp(TickerTask, None));
    assert s3.disk.nodes == s.disk.nodes + [c.encode(s.mem)];
    s' := Apply(s3, FillTmp(ResetterTask, Some(k)));
  }

  /**
   The claim fails for a write cut short over a longer text. Just after midnight
   the resetter's clone says five seconds and the ticker's ten. The resetter's
   write fails right after the `5`, over the ticker's `10`; the ticker renames the
   result. The state file now says fifty, which no section ever cloned, and a
   restart charges it.
   */
  lemma ShortWriteForgesACount(c: Codec, name: Name, today: Date, before: Text, after: Text)
    requires PrintsCounts(c, today, name, before, after)
    ensures var s0 := BootOnFive(c, name, today);
            var s := Exec(s0, ForgingSchedule(name, today, |before| + 1));
            && s.disk.Load() == OneUser(today, name, 50) && s.disk.Load() !in s.trail.cloned
            && Used(s.mem, name) == 10 && Used(Apply(s, Restart(today, {})).mem, name) == 50
  {
    var s := Forged(BootOnFive(c, name, today), name, today, before, after);
    ForgingSchedulePieces(BootOnFive(c, name, today), name, today, |before| + 1);
    CountsDiffer(today, name);
  }

  lemma CountsDiffer(today: Date, name: Name)
    ensures OneUser(today, name, 50) !in {OneUser(today, name, 5), OneUser(today, name, 10)}
  {
    assert OneUser(today, name, 50).counters[name] == 50;
    assert OneUser(today, name, 10).counters[name] == 10;
    assert OneUser(today, name, 5).counters[name] == 5;
  }

  lemma Forged(s0: System, name: Name, today: Date, before: Text, after: Text) returns (s: System)
    requires PrintsCounts(s0.disk.codec, today, name, before, after) && s0 == BootOnFive(s0.disk.codec, name, today)
    ensures s == Exec(Exec(Apply(Exec(s0, TwoClones(name, today)), TickerLock), Race(|before| + 1)),
                      [RenameTmp(TickerTask, true)])
    ensures s.disk.path == Some(1) && s.disk.codec == s0.disk.codec
    ensures 1 < |s.disk.nodes| && s.disk.nodes[1] == before + "50" + after
    ensures s.mem == OneUser(today, name, 10).(active := {name})
    ensures s.trail.cloned == {OneUser(today, name, 5), OneUser(today, name, 10)}
  {
    var c, k := s0.disk.codec, |before| + 1;
    assert s0.mem == OneUser(today, name, 5) by {
      DecodesWhole(c, OneUser(today, name, 5));
    }
    var s1 := ClonedTwice(s0, name, today);
    var s2 := Raced(s1, name, today, k);
    s := LastRename(s2, name, 1);
    SplicedText(before, after);
  }

  lemma ForgingSchedulePieces(s: System, name: Name, today: Date, k: nat)
    requires WellFormed(s)
    ensures Exec(s, ForgingSchedule(name, today, k))
         == Exec(Exec(Apply(Exec(s, TwoClones(name, today)), TickerLock), Race(k)), [RenameTmp(TickerTask, true)])
  {
    ExecAppend(s, TwoClones(name, today) + [TickerLock] + Race(k), [RenameTmp(TickerTask, true)]);
    ExecAppend(s, TwoClones(name, today) + [TickerLock], Race(k));
    ExecAppend(s, TwoClones(name, today), [TickerLock]);
    ExecOne(Exec(s, TwoClones(name, today)), TickerLock);
  }

  lemma SplicedText(before: Text, after: Text)
    ensures Overwritten(before + "10" + after, before + "5" + after, |before| + 1) == before + "50" + after
  {
    var over, body, k := before + "10" + after, before + "5" + after, |before| + 1;
    assert body[..k] == before + "5";
    assert over[k..] == "0" + after;
    assert before + "5" + ("0" + after) == before + "50" + after;
  }
}
