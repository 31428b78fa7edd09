/**
 What the tray of one subscriber announces under any schedule, however far the
 subscriber lags behind: the step system's statuses, fed to the tracker.
 */
module Viewing {
  import opened Common
  import opened Config
  import opened Counters
  import opened History
  import opened Engine
  import opened Status
  import opened Notifications
  import opened Warnings

  /** Who is looking, and what the statuses say besides the counters. */
  datatype Viewer = Viewer(id: nat, name: Name, uid: U32, cfg: Config, resetsAt: Instant)

  /** The step makes this subscriber compute, and so send, a status. */
  predicate Shows(s: System, a: Action, w: Viewer) {
    a == Compute(w.id) && Enabled(s, a) && s.subs[w.id].name == w.name
  }

  function StatusNow(s: System, w: Viewer): UserStatus {
    ComputeStatus(w.name, w.uid, w.cfg, s.mem, w.resetsAt)
  }

  /** The statuses a schedule sends to one subscriber, in order. */
  function StatusesOf(s: System, acts: seq<Action>, w: Viewer): seq<UserStatus>
    requires WellFormed(s)
    decreases |acts|
  {
    if acts == [] then []
    else (if Shows(s, acts[0], w) then [StatusNow(s, w)] else []) + StatusesOf(Apply(s, acts[0]), acts[1..], w)
  }

  /** The step neither leaves the stored day, nor restarts, nor wraps the user's counter. */
  predicate SteadyStep(s: System, a: Action, name: Name) {
    Enabled(s, a) ==>
      && !a.Restart?
      && (a.TickerLock? ==> s.mem.day == Some(s.ticker.today)
                            && (name in s.ticker.active ==> Used(s.mem, name) + s.d <= U32_MAX))
      && (a.ResetterLock? ==> s.mem.day == Some(s.resetter.today))
  }

  predicate Steady(s: System, acts: seq<Action>, name: Name)
    requires WellFormed(s)
    decreases |acts|
  {
    acts != [] ==> SteadyStep(s, acts[0], name) && Steady(Apply(s, acts[0]), acts[1..], name)
  }

  lemma CountNeverShrinks(s: System, a: Action, name: Name)
    requires WellFormed(s) && SteadyStep(s, a, name)
    ensures Used(s.mem, name) <= Used(Apply(s, a).mem, name)
  {
    if Enabled(s, a) && a.TickerLock? && name in s.ticker.active {
      SmallModulus(Used(s.mem, name) + s.d);
    }
  }

  lemma {:induction false} StatusesDwindle(s: System, acts: seq<Action>, w: Viewer)
    requires WellFormed(s) && Steady(s, acts, w.name)
    ensures var sts := StatusesOf(s, acts, w);
            && Dwindles(sts, w.cfg.warnThresholdsMinutes)
            && forall i :: 0 <= i < |sts| ==>
                 sts[i].resetsAt == w.resetsAt && sts[i].remainingSeconds <= StatusNow(s, w).remainingSeconds
    decreases |acts|
  {
    if acts != [] {
      CountNeverShrinks(s, acts[0], w.name);
      StatusesDwindle(Apply(s, acts[0]), acts[1..], w);
    }
  }

  /**
   Within one day, whatever the schedule and however far the subscriber lags, its
   tray announces exactly the thresholds that some status it did get calls for,
   each once and loosest first. Lag can cost a warning only by costing every status
   that calls for it.
   */
  lemma LaggingTrayWarns(s: System, acts: seq<Action>, w: Viewer, m: Memory, t: U32)
    requires WellFormed(s) && Steady(s, acts, w.name) && m.lastResetsAt != Some(w.resetsAt)
    ensures var sts := StatusesOf(s, acts, w);
            && StrictlyDecreasing(Announced(m, Calls(sts)))
            && (t in Announced(m, Calls(sts)) <==> exists k :: 0 <= k < |sts| && Wanted(sts[k]) == Some(t))
  {
    var sts := StatusesOf(s, acts, w);
    StatusesDwindle(s, acts, w);
    AnnouncedOnceEach(m, Calls(sts));
    AnnouncedExactlyWhenCalledFor(m, sts, w.cfg.warnThresholdsMinutes, t);
  }

  /** Once it has caught up, the tightest warning that applies has been given. */
  lemma CaughtUpTrayHasWarned(s: System, acts: seq<Action>, w: Viewer, m: Memory, t: U32)
    requires WellFormed(s) && Steady(s, acts + [Compute(w.id)], w.name) && m.lastResetsAt != Some(w.resetsAt)
    requires Shows(Exec(s, acts), Compute(w.id), w) && Wanted(StatusNow(Exec(s, acts), w)) == Some(t)
    ensures var fired := Announced(m, Calls(StatusesOf(s, acts + [Compute(w.id)], w)));
            fired != [] && fired[|fired| - 1] == t
  {
    var all := acts + [Compute(w.id)];
    var sts := StatusesOf(s, all, w);
    StatusesAppend(s, acts, Compute(w.id), w);
    StatusesDwindle(s, all, w);
    LaggingTrayWarns(s, all, w, m, t);
    var fired := Announced(m, Calls(sts));
    var last := fired[|fired| - 1];
    var n := AnnouncedAt(m, Calls(sts), last);
    WantedTightens(sts, w.cfg.warnThresholdsMinutes, n, |sts| - 1);
    var i :| 0 <= i < |fired| && fired[i] == t;
  }

  // ---- Statuses between midnight and the rollover ---------------------------------------

  lemma {:induction false} StatusesReset(s: System, acts: seq<Action>, w: Viewer)
    requires WellFormed(s)
    ensures forall i :: 0 <= i < |StatusesOf(s, acts, w)| ==> StatusesOf(s, acts, w)[i].resetsAt == w.resetsAt
    decreases |acts|
  {
    if acts != [] {
      StatusesReset(Apply(s, acts[0]), acts[1..], w);
    }
  }

  lemma {:induction false} StatusesConcat(s: System, a: seq<Action>, b: seq<Action>, w: Viewer)
    requires WellFormed(s)
    ensures StatusesOf(s, a + b, w) == StatusesOf(s, a, w) + StatusesOf(Exec(s, a), b, w)
    decreases |a|
  {
    if a == [] {
      assert a + b == b;
    } else {
      assert (a + b)[1..] == a[1..] + b;
      StatusesConcat(Apply(s, a[0]), a[1..], b, w);
    }
  }

  /** Some later status calls for the warning, and every earlier call was for a looser one. */
  predicate GivenAfter(before: seq<UserStatus>, after: seq<UserStatus>, t: U32) {
    && (exists k :: 0 <= k < |after| && Wanted(after[k]) == Some(t))
    && Tightest(Calls(before), t)
  }

  /**
   A status reads the counters first and asks for the reset time afterwards. One
   computed after midnight but before the first locked section of the day carries
   the new reset time with the old day's count, and the tracker takes it for the new
   day's. From then on a day's warning is given exactly if some status of the day
   calls for it and no such early status called for it or a tighter one.
   */
  lemma NewDayAfterEarlyStatuses(s: System, early: seq<Action>, day: seq<Action>, w: Viewer, m: Memory, t: U32)
    requires WellFormed(s) && Steady(Exec(s, early), day, w.name) && m.lastResetsAt != Some(w.resetsAt)
    ensures var before, after := StatusesOf(s, early, w), StatusesOf(Exec(s, early), day, w);
            && Announced(m, Calls(StatusesOf(s, early + day, w)))
               == Announced(m, Calls(before)) + Announced(Feed(m, Calls(before)), Calls(after))
            && (t in Announced(Feed(m, Calls(before)), Calls(after)) <==> GivenAfter(before, after, t))
  {
    var before, after := StatusesOf(s, early, w), StatusesOf(Exec(s, early), day, w);
    StatusesReset(s, early, w);
    StatusesReset(Exec(s, early), day, w);
    StatusesDwindle(Exec(s, early), day, w);
    StatusesConcat(s, early, day, w);
    EarlyThenDay(m, before, after, w, t);
  }

  lemma EarlyThenDay(m: Memory, before: seq<UserStatus>, after: seq<UserStatus>, w: Viewer, t: U32)
    requires m.lastResetsAt != Some(w.resetsAt) && Dwindles(after, w.cfg.warnThresholdsMinutes)
    requires forall i :: 0 <= i < |before| ==> before[i].resetsAt == w.resetsAt
    requires forall i :: 0 <= i < |after| ==> after[i].resetsAt == w.resetsAt
    ensures Announced(m, Calls(before + after))
         == Announced(m, Calls(before)) + Announced(Feed(m, Calls(before)), Calls(after))
    ensures t in Announced(Feed(m, Calls(before)), Calls(after)) <==> GivenAfter(before, after, t)
  {
    SameResetIsOneCycle(m, before, after, w.resetsAt);
    AnnouncedAfterOthers(m, before, after, w.cfg.warnThresholdsMinutes, t);
    StreamsConcat(m, Calls(before), Calls(after));
  }

  lemma SameResetIsOneCycle(m: Memory, a: seq<UserStatus>, b: seq<UserStatus>, resetsAt: Instant)
    requires m.lastResetsAt != Some(resetsAt)
    requires forall i :: 0 <= i < |a| ==> a[i].resetsAt == resetsAt
    requires forall i :: 0 <= i < |b| ==> b[i].resetsAt == resetsAt
    ensures Calls(a + b) == Calls(a) + Calls(b) && OneCycle(m, Calls(a) + Calls(b))
  {
    assert Calls(a + b) == Calls(a) + Calls(b);
  }

  /** The tray connects, or catches up, just before the resetter's locked section. */
  function JustBeforeRollover(w: Viewer): seq<Action> {
    [Compute(w.id), ResetterLock]
  }

  /** Two hours a day, of which forty seconds were left at midnight, and the usual warnings. */
  predicate FortySecondsLeft(s: System, w: Viewer) {
    && s.resetter.ResetterDated? && s.mem.day != Some(s.resetter.today)
    && Shows(s, Compute(w.id), w) && IsActive(s.mem, w.name) && Used(s.mem, w.name) == 7160
    && w.name in w.cfg.users && w.cfg.users[w.name] == 120 && w.cfg.warnThresholdsMinutes == [15, 5, 1]
  }

  /**
   So a user with forty seconds left at midnight gets the one-minute warning on a
   status computed just before the rollover, and then none all the new day, although
   the counters have been zeroed and all two hours are still to come.
   */
  lemma EarlyStatusSilencesTheDay(s: System, day: seq<Action>, w: Viewer, m: Memory)
    requires WellFormed(s) && FortySecondsLeft(s, w) && m.lastResetsAt != Some(w.resetsAt)
    requires Steady(Exec(s, JustBeforeRollover(w)), day, w.name)
    ensures Used(Exec(s, JustBeforeRollover(w)).mem, w.name) == 0
    ensures Announced(m, Calls(StatusesOf(s, JustBeforeRollover(w) + day, w))) == [60]
  {
    var early := JustBeforeRollover(w);
    ExecTwo(s, Compute(w.id), ResetterLock);
    OneEarlyStatus(s, w);
    var sts := StatusesOf(Exec(s, early), day, w);
    NewDayAfterEarlyStatuses(s, early, day, w, m, 60);
    FirstAnnouncement(m, CallOf(StatusNow(s, w)));
    forall t: U32
      ensures t !in Announced(Feed(m, Calls([StatusNow(s, w)])), Calls(sts))
    {
      NewDayAfterEarlyStatuses(s, early, day, w, m, t);
      StatusesDwindle(Exec(s, early), day, w);
      NothingTighter(s, sts, w, t);
    }
    assert Calls([StatusNow(s, w)]) == [CallOf(StatusNow(s, w))];
    NoneMeansEmpty(Announced(Feed(m, Calls([StatusNow(s, w)])), Calls(sts)));
  }

  lemma NoneMeansEmpty(fired: seq<U32>)
    requires forall t: U32 :: t !in fired
    ensures fired == []
  {
    var first := if fired == [] then 0 else fired[0];
    assert first !in fired;
  }

  lemma OneEarlyStatus(s: System, w: Viewer)
    requires WellFormed(s) && FortySecondsLeft(s, w)
    ensures StatusesOf(s, JustBeforeRollover(w), w) == [StatusNow(s, w)] && Wanted(StatusNow(s, w)) == Some(60)
  {
    var s1 := Apply(s, Compute(w.id));
    assert JustBeforeRollover(w)[1..] == [ResetterLock] && [ResetterLock][1..] == [];
    assert StatusesOf(s1, [ResetterLock], w) == [] + StatusesOf(Apply(s1, ResetterLock), [], w);
    FortyOfTwoHours();
  }

  /** One minute is the tightest of the usual warnings. */
  lemma NothingTighter(s: System, sts: seq<UserStatus>, w: Viewer, t: U32)
    requires FortySecondsLeft(s, w) && Wanted(StatusNow(s, w)) == Some(60)
    requires forall i :: 0 <= i < |sts| ==> sts[i].warnThresholdsMinutes == [15, 5, 1]
    ensures !GivenAfter([StatusNow(s, w)], sts, t)
  {
    if k :| 0 <= k < |sts| && Wanted(sts[k]) == Some(t) {
      WantedIsThreshold(sts[k], t);
      assert Calls([StatusNow(s, w)])[0].wanted == Some(60);
      assert t >= 60;
    }
  }

  lemma FortyOfTwoHours()
    ensures Candidate([15, 5, 1], 40) == Some(60)
  {
    var minutes := [15, 5, 1];
    assert minutes[2] == 1 && IsThreshold(minutes, 60);
    CandidateWhen(minutes, 40, 60);
  }

  lemma FirstAnnouncement(m: Memory, c: Call)
    requires m.lastResetsAt != Some(c.resetsAt) && c.wanted.Some?
    ensures Announced(m, [c]) == [c.wanted.value]
  {
    assert [c][..0] == [];
    assert Announced(m, []) == [] && Feed(m, []) == m;
  }

  lemma ExecTwo(s: System, a: Action, b: Action)
    requires WellFormed(s)
    ensures Exec(s, [a, b]) == Apply(Apply(s, a), b)
  {
    assert [a, b][1..] == [b] && [b][1..] == [];
    assert Exec(Apply(s, a), [b]) == Exec(Apply(Apply(s, a), b), []);
  }

  // ---- Catching up ----------------------------------------------------------------------

  lemma {:induction false} StatusesAppend(s: System, acts: seq<Action>, a: Action, w: Viewer)
    requires WellFormed(s) && Shows(Exec(s, acts), a, w)
    ensures StatusesOf(s, acts + [a], w) == StatusesOf(s, acts, w) + [StatusNow(Exec(s, acts), w)]
    decreases |acts|
  {
    if acts == [] {
      assert [a][1..] == [] && StatusesOf(Apply(s, a), [], w) == [];
      assert [] + [a] == [a];
    } else {
      assert (acts + [a])[1..] == acts[1..] + [a];
      StatusesAppend(Apply(s, acts[0]), acts[1..], a, w);
    }
  }
}
