/** What the shared counters mean at any point of any schedule. */
module Tallies {
  import opened Common
  import opened Config
  import opened Counters
  import opened History
  import opened Storage
  import opened Engine

  /** The users and the snapshot of a round whose locked section is done. */
  function RoundOf(t: Ticker): Option<(set<Name>, View)> {
    match t
    case TickerSaving(active, snap, _) => Some((active, snap))
    case TickerSending(active, snap) => Some((active, snap))
    case TickerEnforcing(active, snap) => Some((active, snap))
    case _ => None
  }

  /**
   The shared state is the replay of the locked sections since the last start,
   and the ticker's snapshot is the replay up to its own section.
   */
  predicate IsHistory(s: System) {
    var t := s.trail;
    && s.mem == Replay(t.base, t.log, s.d)
    && (RoundOf(s.ticker).Some? ==>
          var (active, snap) := RoundOf(s.ticker).value;
          && 0 < t.ticked <= |t.log|
          && t.log[t.ticked - 1].credit == Some(active)
          && snap == Replay(t.base, t.log[..t.ticked], s.d))
  }

  lemma ReplayOneMore(base: View, log: seq<Section>, e: Section, d: U32)
    ensures Replay(base, log + [e], d) == After(Replay(base, log, d), e, d)
    ensures forall n :: 0 <= n <= |log| ==> (log + [e])[..n] == log[..n]
  {
    assert (log + [e])[..|log|] == log;
  }

  lemma TickerLockKeepsHistory(s: System)
    requires WellFormed(s) && IsHistory(s) && s.ticker.TickerDated?
    ensures IsHistory(LockTicker(s))
  {
    var e := Section(s.ticker.today, Some(s.ticker.active));
    ReplayOneMore(s.trail.base, s.trail.log, e, s.d);
    assert (s.trail.log + [e])[..|s.trail.log| + 1] == s.trail.log + [e];
  }

  lemma ResetterLockKeepsHistory(s: System)
    requires WellFormed(s) && IsHistory(s) && s.resetter.ResetterDated?
    ensures IsHistory(LockResetter(s))
  {
    ReplayOneMore(s.trail.base, s.trail.log, Section(s.resetter.today, None), s.d);
  }

  lemma StepKeepsHistory(s: System, a: Action)
    requires WellFormed(s) && IsHistory(s)
    ensures IsHistory(Apply(s, a))
  {
    if Enabled(s, a) {
      if a.TickerLock? {
        TickerLockKeepsHistory(s);
      } else if a.ResetterLock? {
        ResetterLockKeepsHistory(s);
      } else if a.Restart? {
        BootIsHistory(s.d, s.disk, s.trail.cloned, a.today, a.active);
      } else {
        OtherStepKeepsTrail(s, a);
      }
    }
  }

  lemma OtherStepKeepsTrail(s: System, a: Action)
    requires WellFormed(s) && !a.TickerLock? && !a.ResetterLock? && !a.Restart?
    ensures var s' := Apply(s, a);
            && s'.mem == s.mem && s'.d == s.d && s'.trail.base == s.trail.base
            && s'.trail.log == s.trail.log && s'.trail.ticked == s.trail.ticked
            && (RoundOf(s'.ticker) == RoundOf(s.ticker) || RoundOf(s'.ticker) == None)
  {
  }

  lemma BootIsHistory(d: U32, disk: Disk, cloned: set<View>, today: Date, active: set<Name>)
    requires disk.Valid()
    ensures IsHistory(Boot(d, disk, cloned, today, active))
  {
    var base := disk.Load().(active := active);
    assert [Section(today, None)][..0] == [];
    assert Replay(base, [], d) == base;
  }

  lemma {:induction false} AlwaysHistory(s: System, acts: seq<Action>)
    requires WellFormed(s) && IsHistory(s)
    ensures IsHistory(Exec(s, acts))
    decreases |acts|
  {
    if acts != [] {
      StepKeepsHistory(s, acts[0]);
      AlwaysHistory(Apply(s, acts[0]), acts[1..]);
    }
  }

  /**
   At any point of any schedule, a user's counter is one tick's worth for every
   ticker section naming them since section `k`, the last whose date differed
   from the stored day, and all those sections carried the day now stored. If no
   section of this run differed, what was loaded counts as well.
   */
  lemma CountersAreHistory(s0: System, acts: seq<Action>, u: Name, k: nat)
    requires WellFormed(s0) && IsHistory(s0)
    ensures var s := Exec(s0, acts);
            var log := s.trail.log;
            && (k < |log| && RollsAt(s.trail.base, log, k) && NoRollFrom(s.trail.base, log, k + 1)
                ==> && Used(s.mem, u) == Seconds(TicksNaming(log[k..], u), s.d) % U32_MODULUS
                    && forall i :: k <= i < |log| ==> s.mem.day == Some(log[i].today))
            && (NoRollFrom(s.trail.base, log, 0)
                ==> && Used(s.mem, u)
                       == (Used(s.trail.base, u) + Seconds(TicksNaming(log, u), s.d)) % U32_MODULUS
                    && forall i :: 0 <= i < |log| ==> s.mem.day == Some(log[i].today))
  {
    AlwaysHistory(s0, acts);
    var s := Exec(s0, acts);
    var log := s.trail.log;
    if k < |log| && RollsAt(s.trail.base, log, k) && NoRollFrom(s.trail.base, log, k + 1) {
      CountSinceRollover(s.trail.base, log, s.d, u, k);
    }
    if NoRollFrom(s.trail.base, log, 0) {
      CountSinceLoad(s.trail.base, log, s.d, u);
      ReplayStoresLastDate(s.trail.base, log, s.d);
    }
  }

  /** With dates in lock order never decreasing, it is every tick of the stored day. */
  lemma CountersAreTheDay(s0: System, acts: seq<Action>, u: Name)
    requires WellFormed(s0) && IsHistory(s0)
    requires var t := Exec(s0, acts).trail; t.log != [] && DatesNeverDecrease(t.base, t.log)
    ensures var s := Exec(s0, acts);
            && s.mem.day.Some?
            && Used(s.mem, u) == DayCount(s.trail.base, s.trail.log, s.d, u, s.mem.day.value) % U32_MODULUS
  {
    AlwaysHistory(s0, acts);
    var s := Exec(s0, acts);
    ReplayStoresLastDate(s.trail.base, s.trail.log, s.d);
    CountIsWholeDay(s.trail.base, s.trail.log, s.d, u);
  }

  /**
   At any point of any schedule a user is active exactly if the last tick found them
   at the console, whoever was there before, or, before the first tick, if the start
   did. Neither day checks nor saves change that.
   */
  lemma ActiveIsLastTick(s0: System, acts: seq<Action>, u: Name, k: nat)
    requires WellFormed(s0) && IsHistory(s0)
    ensures var s := Exec(s0, acts);
            var log := s.trail.log;
            && (k < |log| && log[k].credit.Some? && NoCreditFrom(log, k + 1)
                ==> (IsActive(s.mem, u) <==> u in log[k].credit.value))
            && (NoCreditFrom(log, 0) ==> (IsActive(s.mem, u) <==> IsActive(s.trail.base, u)))
  {
    AlwaysHistory(s0, acts);
    ActiveNow(Exec(s0, acts), u, k);
  }

  lemma ActiveNow(s: System, u: Name, k: nat)
    requires s.mem == Replay(s.trail.base, s.trail.log, s.d)
    ensures k < |s.trail.log| && s.trail.log[k].credit.Some? && NoCreditFrom(s.trail.log, k + 1)
            ==> (IsActive(s.mem, u) <==> u in s.trail.log[k].credit.value)
    ensures NoCreditFrom(s.trail.log, 0) ==> (IsActive(s.mem, u) <==> IsActive(s.trail.base, u))
  {
    if k < |s.trail.log| && s.trail.log[k].credit.Some? && NoCreditFrom(s.trail.log, k + 1) {
      ActiveIsLastCredit(s.trail.base, s.trail.log, s.d, k, u);
    }
    if NoCreditFrom(s.trail.log, 0) {
      ActiveSinceStart(s.trail.base, s.trail.log, s.d, u);
    }
  }

  /** A start takes whoever is at the console for active, and nobody the file names. */
  lemma StartAsksTheConsole(d: U32, disk: Disk, cloned: set<View>, today: Date, active: set<Name>, u: Name)
    requires disk.Valid()
    ensures var s := Boot(d, disk, cloned, today, active);
            && (IsActive(s.mem, u) <==> u in active) && (IsActive(s.trail.base, u) <==> u in active)
            && Used(s.mem, u) == if disk.Load().day == Some(today) then Used(disk.Load(), u) else 0
  {
  }

  // ---- Conservation -----------------------------------------------------------

  /** The console query names at most one user. */
  predicate SingleConsole(acts: seq<Action>) {
    forall i :: 0 <= i < |acts| && acts[i].Poll? ==> |acts[i].active| <= 1
  }

  predicate OneAtATime(s: System) {
    && OneConsole(s.trail.log)
    && (s.ticker.TickerPolled? || s.ticker.TickerDated? ==> |s.ticker.active| <= 1)
  }

  lemma StepKeepsOneAtATime(s: System, a: Action)
    requires WellFormed(s) && OneAtATime(s) && (a.Poll? ==> |a.active| <= 1)
    ensures OneAtATime(Apply(s, a))
  {
  }

  lemma {:induction false} AlwaysOneAtATime(s: System, acts: seq<Action>)
    requires WellFormed(s) && OneAtATime(s) && SingleConsole(acts)
    ensures OneAtATime(Exec(s, acts))
    decreases |acts|
  {
    if acts != [] {
      StepKeepsOneAtATime(s, acts[0]);
      AlwaysOneAtATime(Apply(s, acts[0]), acts[1..]);
    }
  }

  /**
   The counters of all users together hold exactly one tick's worth for every
   section of the stored day that found somebody at the console, on top of what a
   start in the middle of that day loaded, so no counter can wrap while one tick
   more than that total still fits.
   */
  lemma TimeIsConserved(s0: System, acts: seq<Action>, k: nat)
    requires WellFormed(s0) && IsHistory(s0) && OneAtATime(s0) && SingleConsole(acts)
    requires OneMoreTickFits(Exec(s0, acts), k)
    ensures Sum(Exec(s0, acts).mem.counters) == OccupiedSince(Exec(s0, acts), k)
    ensures forall u :: Used(Exec(s0, acts).mem, u) + Exec(s0, acts).d <= U32_MAX
  {
    AlwaysHistory(s0, acts);
    AlwaysOneAtATime(s0, acts);
    ConservedNow(Exec(s0, acts), k);
  }

  /** The day's occupied time from section `k` on, and what a start in the middle of it loaded. */
  ghost function OccupiedSince(s: System, k: nat): nat
    requires k <= |s.trail.log|
  {
    CarriedSum(s.trail.base, s.trail.log, k) + Seconds(Occupied(s.trail.log[k..]), s.d)
  }

  /** The stored day is in force since section `k`, and one tick more fits a counter. */
  ghost predicate OneMoreTickFits(s: System, k: nat) {
    && k <= |s.trail.log| && DayFrom(s.trail.base, s.trail.log, k)
    && CarriedSum(s.trail.base, s.trail.log, k) + Seconds(Occupied(s.trail.log[k..]) + 1, s.d) <= U32_MAX
  }

  lemma ConservedNow(s: System, k: nat)
    requires s.mem == Replay(s.trail.base, s.trail.log, s.d) && OneConsole(s.trail.log) && OneMoreTickFits(s, k)
    ensures Sum(s.mem.counters) == OccupiedSince(s, k)
    ensures forall u :: Used(s.mem, u) + s.d <= U32_MAX
  {
    ConservedAt(s.trail.base, s.trail.log, s.d, k);
  }

  lemma ConservedAt(base: View, log: seq<Section>, d: U32, k: nat)
    requires OneConsole(log) && k <= |log| && DayFrom(base, log, k)
    requires CarriedSum(base, log, k) + Seconds(Occupied(log[k..]) + 1, d) <= U32_MAX
    ensures Sum(Replay(base, log, d).counters) == CarriedSum(base, log, k) + Seconds(Occupied(log[k..]), d)
    ensures forall u :: Used(Replay(base, log, d), u) + d <= U32_MAX
  {
    SumOverDay(base, log, d, k);
    forall u
      ensures Used(Replay(base, log, d), u) + d <= U32_MAX
    {
      RoomForOneMore(base, log, d, k, u);
    }
  }

  lemma SumOverDay(base: View, log: seq<Section>, d: U32, k: nat)
    requires OneConsole(log) && k <= |log| && DayFrom(base, log, k)
    requires CarriedSum(base, log, k) + Seconds(Occupied(log[k..]) + 1, d) <= U32_MAX
    ensures Sum(Replay(base, log, d).counters) == CarriedSum(base, log, k) + Seconds(Occupied(log[k..]), d)
  {
    SecondsMonotone(Occupied(log[k..]), Occupied(log[k..]) + 1, d);
    ConservationOverDay(base, log, d, k);
  }

  lemma RoomForOneMore(base: View, log: seq<Section>, d: U32, k: nat, u: Name)
    requires k <= |log| && DayFrom(base, log, k)
    requires CarriedSum(base, log, k) + Seconds(Occupied(log[k..]) + 1, d) <= U32_MAX
    ensures Used(Replay(base, log, d), u) + d <= U32_MAX
  {
    CarriedWithinSum(base, log, k, u);
    NextTickCannotWrap(base, log, d, k, u);
  }

  lemma CarriedWithinSum(base: View, log: seq<Section>, k: nat, u: Name)
    ensures Carried(base, log, k, u) <= CarriedSum(base, log, k)
  {
    CounterWithinSum(base.counters, u);
  }

  // ---- Enforcement sees every tick ----------------------------------------------

  /**
   The snapshot an enforcement pass looks at overshoots a user's limit by less
   than one tick, if no earlier ticker section of the same day since the last start
   left that user at or over it, and the start did not load a count that was.
   */
  lemma FirstOvershootIsUnderOneTick(s0: System, acts: seq<Action>, k: nat, u: Name, limit: nat)
    requires WellFormed(s0) && IsHistory(s0) && 0 < limit
    requires var s := Exec(s0, acts);
             var log := TickerLog(s.trail);
             && s.ticker.TickerEnforcing? && u in s.ticker.active
             && k < |log| && DayFrom(s.trail.base, log, k) && UnderLimitSoFar(s.trail.base, log, s.d, k, u, limit)
    ensures var s := Exec(s0, acts);
            var loaded := Carried(s.trail.base, TickerLog(s.trail), k, u);
            && Used(s.ticker.snap, u) < Max(limit, loaded + 1) + s.d
            && (loaded < limit ==> Used(s.ticker.snap, u) < limit + s.d)
  {
    AlwaysHistory(s0, acts);
    SnapshotOvershoot(Exec(s0, acts), k, u, limit);
  }

  lemma SnapshotOvershoot(s: System, k: nat, u: Name, limit: nat)
    requires IsHistory(s) && s.ticker.TickerEnforcing? && u in s.ticker.active && 0 < limit
    requires var log := TickerLog(s.trail);
             k < |log| && DayFrom(s.trail.base, log, k) && UnderLimitSoFar(s.trail.base, log, s.d, k, u, limit)
    ensures Used(s.ticker.snap, u) < Max(limit, Carried(s.trail.base, TickerLog(s.trail), k, u) + 1) + s.d
  {
    var log := TickerLog(s.trail);
    assert log == s.trail.log[..s.trail.ticked] && log[|log| - 1] == s.trail.log[s.trail.ticked - 1];
    FirstPassOverLimit(s.trail.base, log, s.d, k, u, limit);
  }
}
