/** From the daemon's ticks to the tray's warnings. */
module EndToEnd {
  import opened Common
  import opened Config
  import opened Counters
  import opened History
  import opened Status
  import opened Notifications
  import opened Warnings
  import Midnight

  /** The status a subscriber gets on connecting and after each ticker section. */
  function Statuses(cfg: Config, name: Name, uid: U32, base: View, log: seq<Section>, d: U32, resetsAt: Instant)
    : (sts: seq<UserStatus>)
    ensures |sts| == |log| + 1
    ensures forall i :: 0 <= i <= |log| ==>
              sts[i] == ComputeStatus(name, uid, cfg, Replay(base, log[..i], d), resetsAt)
  {
    seq(|log| + 1, i requires 0 <= i <= |log| => ComputeStatus(name, uid, cfg, Replay(base, log[..i], d), resetsAt))
  }

  /** Every section credits the user, on the stored day, and the last one reaches the limit. */
  ghost predicate UsesUpLimit(cfg: Config, name: Name, base: View, log: seq<Section>, d: U32) {
    && name in cfg.users && LimitSeconds(cfg.users[name]) + d <= U32_MAX
    && IsActive(base, name) && NoRollFrom(base, log, 0)
    && (forall i :: 0 <= i < |log| ==> Names(log[i], name))
    && (forall i :: 0 <= i < |log| ==> Used(Replay(base, log[..i], d), name) < LimitSeconds(cfg.users[name]))
    && LimitSeconds(cfg.users[name]) <= Used(Replay(base, log, d), name)
  }

  /** One such section keeps the user active and adds exactly one tick. */
  lemma OneTickMore(cfg: Config, name: Name, base: View, log: seq<Section>, d: U32, i: nat)
    requires UsesUpLimit(cfg, name, base, log, d) && i < |log|
    ensures Used(Replay(base, log[..i + 1], d), name) == Used(Replay(base, log[..i], d), name) + d
    ensures IsActive(Replay(base, log[..i + 1], d), name)
  {
    var v, e := Replay(base, log[..i], d), log[i];
    assert log[..i + 1][..i] == log[..i];
    assert v.day == Some(e.today) by {
      ReplayStoresLastDate(base, log[..i], d);
      assert StoredDay(base, log[..i], i) == StoredDay(base, log, i);
      assert !RollsAt(base, log, i);
    }
    assert Replay(base, log[..i + 1], d) == After(v, e, d);
    CreditedOnce(v, e, d, name, LimitSeconds(cfg.users[name]));
  }

  lemma CreditedOnce(v: View, e: Section, d: U32, name: Name, limit: U32)
    requires v.day == Some(e.today) && Names(e, name) && Used(v, name) < limit && limit + d <= U32_MAX
    ensures Used(After(v, e, d), name) == Used(v, name) + d && IsActive(After(v, e, d), name)
  {
    SmallModulus(Used(v, name) + d);
  }

  /** The statuses of a user running out their limit are a countdown by `d`. */
  lemma TicksCountDown(cfg: Config, name: Name, uid: U32, base: View, log: seq<Section>, d: U32, resetsAt: Instant)
    requires UsesUpLimit(cfg, name, base, log, d) && log != []
    ensures Countdown(Statuses(cfg, name, uid, base, log, d, resetsAt), cfg.warnThresholdsMinutes, d)
  {
    var sts := Statuses(cfg, name, uid, base, log, d, resetsAt);
    var limit := LimitSeconds(cfg.users[name]);
    assert log[..0] == [] && log[..|log|] == log;
    forall i | 0 <= i < |sts|
      ensures sts[i].state.Active? <==> sts[i].remainingSeconds > 0
      ensures sts[i].remainingSeconds == limit - Used(Replay(base, log[..i], d), name)
    {
      if i > 0 {
        OneTickMore(cfg, name, base, log, d, i - 1);
      }
    }
    forall i, j | 0 <= i < |sts| && j == i + 1 < |sts|
      ensures sts[j].remainingSeconds == sts[i].remainingSeconds - d
    {
      OneTickMore(cfg, name, base, log, d, i);
    }
  }

  /**
   A user who stays at the console until the limit gets every configured warning
   that still applies, once each and loosest first, provided the thresholds and
   their gaps are no shorter than a tick.
   */
  lemma EveryWarningArrives(m: Memory, cfg: Config, name: Name, uid: U32, base: View, log: seq<Section>, d: U32,
                            resetsAt: Instant)
    requires UsesUpLimit(cfg, name, base, log, d) && log != []
    requires m.lastResetsAt != Some(resetsAt) && Spaced(cfg.warnThresholdsMinutes, d)
    ensures var sts := Statuses(cfg, name, uid, base, log, d, resetsAt);
            var announced := Announced(m, Calls(sts));
            && StrictlyDecreasing(announced)
            && forall t :: t in announced <==>
                 t in Thresholds(cfg.warnThresholdsMinutes) && (Wanted(sts[0]).None? || t <= Wanted(sts[0]).value)
  {
    TicksCountDown(cfg, name, uid, base, log, d, resetsAt);
    CompleteCoverage(m, Statuses(cfg, name, uid, base, log, d, resetsAt), cfg.warnThresholdsMinutes, d);
  }

  // ---- Telling days apart ---------------------------------------------------------------

  /** Statuses computed at these instants, with the reset times the daemon gives them. */
  ghost predicate ResetAsComputed(z: Midnight.Zone, times: seq<Instant>, calls: seq<Call>) {
    && |times| == |calls|
    && (forall i :: 0 <= i < |calls| ==> Midnight.IsNextMidnight(z, times[i], calls[i].resetsAt))
    && (forall i, j :: 0 <= i <= j < |times| ==> times[i] <= times[j])
  }

  /** Clocks change at most once around any of them, and none lies in the last day before the change. */
  ghost predicate AwayFromChange(z: Midnight.Zone, c: Midnight.Change, times: seq<Instant>, i: nat, j: nat)
    requires i <= j < |times|
  {
    forall n :: i <= n <= j ==>
      Midnight.ChangesOnceAround(z, times[n], c) && !(times[n] < c.at <= times[n] + Midnight.DAY)
  }

  /** The memory of a tracker that announced `t` and has seen no other reset time since. */
  lemma {:induction false} StaysAtOrBelow(m: Memory, calls: seq<Call>, i: nat, j: nat, t: U32)
    requires i < j <= |calls| && Fires(Feed(m, calls[..i]), calls[i]) == Some(t)
    requires forall n :: i <= n < j ==> calls[n].resetsAt == calls[i].resetsAt
    ensures var now := Feed(m, calls[..j]);
            now.lastResetsAt == Some(calls[i].resetsAt) && now.firedAtOrBelow.Some? && now.firedAtOrBelow.value <= t
    decreases j
  {
    assert calls[..j][..j - 1] == calls[..j - 1];
    if i < j - 1 {
      StaysAtOrBelow(m, calls, i, j - 1, t);
    }
  }

  /**
   Away from the last day before a change of offset, no threshold is announced
   twice on one local date.
   */
  lemma OncePerLocalDate(z: Midnight.Zone, c: Midnight.Change, times: seq<Instant>, m: Memory, calls: seq<Call>,
                         i: nat, j: nat, t: U32)
    requires Midnight.Bounded(z) && ResetAsComputed(z, times, calls) && i < j < |calls|
    requires AwayFromChange(z, c, times, i, j) && z.DateOf(times[i]) == z.DateOf(times[j])
    requires Fires(Feed(m, calls[..i]), calls[i]) == Some(t)
    ensures Fires(Feed(m, calls[..j]), calls[j]).Some? ==> Fires(Feed(m, calls[..j]), calls[j]).value < t
  {
    forall n | i <= n <= j
      ensures calls[n].resetsAt == calls[i].resetsAt
    {
      Midnight.SameDateBetween(z, c, times[i], times[n], times[j]);
      Midnight.LeadIsOne(z, times[i], c);
      Midnight.LeadIsOne(z, times[n], c);
      Midnight.SameMidnightExactlyWhen(z, c, times[i], times[n], calls[i].resetsAt, calls[n].resetsAt);
    }
    StaysAtOrBelow(m, calls, i, j, t);
  }

  /**
   In general a tracker that has just announced a threshold announces it again on
   the very next status, if that calls for it, exactly if the dates do not differ by
   what the leads do. With leads of one that is a new date; otherwise a new date may pass
   unnoticed, or the same date be taken for a new one.
   */
  lemma AnnouncedAgainExactlyWhen(z: Midnight.Zone, c: Midnight.Change, now: Instant, now': Instant,
                                  m: Memory, a: Call, b: Call, t: U32)
    requires Midnight.Bounded(z) && Midnight.ChangesOnceAround(z, now, c) && Midnight.ChangesOnceAround(z, now', c)
    requires Midnight.IsNextMidnight(z, now, a.resetsAt) && Midnight.IsNextMidnight(z, now', b.resetsAt)
    requires Fires(m, a) == Some(t) && b.wanted == Some(t)
    ensures Fires(Observed(m, a), b) == Some(t)
            <==> z.DateOf(now) + Midnight.Lead(z, now, c) != z.DateOf(now') + Midnight.Lead(z, now', c)
  {
    Midnight.SameMidnightExactlyWhen(z, c, now, now', a.resetsAt, b.resetsAt);
  }

  /**
   The tracker tells days apart by their reset time alone. On the night clocks go
   back it therefore does not notice midnight: a threshold announced the evening
   before is not announced again half an hour into the new day, although the
   counters have been reset and the same time is left.
   */
  lemma ClocksGoingBackHidesTheNewDay(m: Memory, before: Call, after: Call, r: Instant, r': Instant)
    requires Midnight.IsNextMidnight(Midnight.NIGHT_CLOCKS_GO_BACK, Midnight.HALF_PAST_ELEVEN, r)
    requires Midnight.IsNextMidnight(Midnight.NIGHT_CLOCKS_GO_BACK, Midnight.HALF_PAST_MIDNIGHT, r')
    requires before.resetsAt == r && after.resetsAt == r' && before.wanted.Some? && after.wanted == before.wanted
    ensures Fires(Observed(m, before), after) == None
  {
    Midnight.ClocksGoingBackGivesThePast();
    Midnight.NextMidnightUnique(Midnight.NIGHT_CLOCKS_GO_BACK, Midnight.HALF_PAST_ELEVEN, r, Midnight.THAT_MIDNIGHT);
    Midnight.NextMidnightUnique(Midnight.NIGHT_CLOCKS_GO_BACK, Midnight.HALF_PAST_MIDNIGHT, r', Midnight.THAT_MIDNIGHT);
  }

  /**
   In the last hour before a day that loses one it takes the same evening for a new
   day: the threshold announced at half past ten is announced again at half past
   eleven, although nothing has been reset.
   */
  lemma ClocksGoingForwardWarnsTwice(m: Memory, before: Call, after: Call, t: U32)
    requires Midnight.IsNextMidnight(Midnight.NIGHT_CLOCKS_GO_FORWARD, Midnight.HALF_PAST_TEN, before.resetsAt)
    requires Midnight.IsNextMidnight(Midnight.NIGHT_CLOCKS_GO_FORWARD, Midnight.LATE_EVENING, after.resetsAt)
    requires Fires(m, before) == Some(t) && after.wanted == Some(t)
    ensures Midnight.NIGHT_CLOCKS_GO_FORWARD.DateOf(Midnight.HALF_PAST_TEN)
         == Midnight.NIGHT_CLOCKS_GO_FORWARD.DateOf(Midnight.LATE_EVENING)
    ensures Fires(Observed(m, before), after) == Some(t)
  {
    var z := Midnight.NIGHT_CLOCKS_GO_FORWARD;
    Midnight.ClocksGoingForwardSkipsAMidnight();
    Midnight.NextMidnightUnique(z, Midnight.HALF_PAST_TEN, before.resetsAt, Midnight.SKIPPED_MIDNIGHT);
    Midnight.NextMidnightUnique(z, Midnight.LATE_EVENING, after.resetsAt, Midnight.MIDNIGHT_AFTER);
  }
}
