/**
 The deferred uninstaller (crates/tray/src/bin/tray.rs): wait until the app
 bundle has stayed away for a grace period, then unregister the services.
 */
module BundleRemoval {
  import opened Common

  type Millis = nat

  const DEADLINE: Millis := 120_000
  const GRACE: Millis := 20_000
  const POLL_EVERY: Millis := 250

  datatype Observation = Original | Replaced | Missing | Unreadable

  /** One look at the bundle: what was seen, when, and when the look was dealt with. */
  datatype Look = Look(seen: Observation, at: Millis, handled: Millis)

  datatype WaitError = CannotRead | TimedOut

  datatype Step = WroteReady | RemovedReady | SentPrepare | Unregister

  datatype Reply = Done | Unauthorized | Refused | Unexpected | Unavailable

  /** The file system, the clock and the daemon, with arbitrary answers. */
  class World {
    const observe: nat -> Observation
    const drift: nat -> Millis
    const oversleep: nat -> Millis
    const reply: Reply
    const readyWritable: bool
    const unregisterWorks: bool
    var clock: Millis
    var clockReads: nat
    var shown: seq<Observation>
    var steps: seq<Step>

    method Now() returns (now: Millis)
      modifies this`clock, this`clockReads
      ensures now == clock && old(clock) <= clock
    {
      clock := clock + drift(clockReads);
      clockReads := clockReads + 1;
      now := clock;
    }

    method Observe() returns (seen: Observation)
      modifies this`shown
      ensures shown == old(shown) + [seen]
    {
      seen := observe(|shown|);
      shown := shown + [seen];
    }

    method Sleep(time: Millis)
      modifies this`clock, this`clockReads
      ensures old(clock) + time <= clock
    {
      clock := clock + time + oversleep(clockReads);
      clockReads := clockReads + 1;
    }

    method Record(s: Step)
      modifies this`steps
      ensures steps == old(steps) + [s]
    {
      steps := steps + [s];
    }
  }

  /** Looks from `i` up to but not including `j` all found nothing. */
  predicate MissingFrom(looks: seq<Look>, i: nat, j: nat)
    requires j <= |looks|
  {
    forall k :: i <= k < j ==> looks[k].seen.Missing?
  }

  predicate Quiet(looks: seq<Look>) {
    forall k :: 0 <= k < |looks| ==> looks[k].seen.Original? || looks[k].seen.Missing?
  }

  /** Each look starts at least one polling interval after the one before was dealt with. */
  predicate Ordered(looks: seq<Look>) {
    && (forall k :: 0 <= k < |looks| ==> looks[k].at <= looks[k].handled)
    && (forall j, k :: 0 <= j < k < |looks| ==> looks[j].handled + POLL_EVERY <= looks[k].at)
  }

  /** No unbroken run of absences among these looks lasted a whole grace period. */
  predicate NoGraceElapsed(looks: seq<Look>) {
    forall i, j :: 0 <= i <= j < |looks| && MissingFrom(looks, i, j + 1)
      ==> looks[j].handled < looks[i].handled + GRACE
  }

  /** What the looks saw. */
  function Seen(looks: seq<Look>): seq<Observation> {
    if looks == [] then [] else Seen(looks[..|looks| - 1]) + [looks[|looks| - 1].seen]
  }

  /** The current run of absences starts at `start`, which is the end if there is none. */
  predicate RunStartsAt(looks: seq<Look>, start: nat) {
    && start <= |looks| && MissingFrom(looks, start, |looks|)
    && (start > 0 ==> !looks[start - 1].seen.Missing?)
  }

  lemma SeenOfAppend(looks: seq<Look>, l: Look)
    ensures Seen(looks + [l]) == Seen(looks) + [l.seen]
    ensures forall earlier: seq<Observation> :: earlier + Seen(looks) + [l.seen] == earlier + Seen(looks + [l])
  {
    assert (looks + [l])[..|looks|] == looks;
  }

  lemma AppendOrdered(looks: seq<Look>, l: Look)
    requires Ordered(looks) && l.at <= l.handled
    requires forall k :: 0 <= k < |looks| ==> looks[k].handled + POLL_EVERY <= l.at
    ensures Ordered(looks + [l])
  {
  }

  /** Within the run that starts at `start`, no later look is handled earlier. */
  lemma RunBound(looks: seq<Look>, l: Look, start: nat, i: nat)
    requires Ordered(looks) && RunStartsAt(looks, start) && l.seen.Missing?
    requires i <= |looks| && MissingFrom(looks + [l], i, |looks| + 1)
    requires start < |looks| ==> l.handled < looks[start].handled + GRACE
    ensures l.handled < (looks + [l])[i].handled + GRACE
  {
    if start > 0 {
      assert (looks + [l])[start - 1] == looks[start - 1];
    }
  }

  lemma AppendLook(looks: seq<Look>, l: Look, start: nat)
    requires Ordered(looks) && NoGraceElapsed(looks) && RunStartsAt(looks, start)
    requires l.seen.Missing? && start < |looks| ==> l.handled < looks[start].handled + GRACE
    ensures NoGraceElapsed(looks + [l])
    ensures RunStartsAt(looks + [l], if l.seen.Missing? then start else |looks| + 1)
  {
    forall i, j | 0 <= i <= j < |looks + [l]| && MissingFrom(looks + [l], i, j + 1)
      ensures (looks + [l])[j].handled < (looks + [l])[i].handled + GRACE
    {
      RunIsShort(looks, l, start, i, j);
    }
    RunGoesOn(looks, l, start);
  }

  lemma RunGoesOn(looks: seq<Look>, l: Look, start: nat)
    requires RunStartsAt(looks, start)
    ensures RunStartsAt(looks + [l], if l.seen.Missing? then start else |looks| + 1)
  {
    assert forall k :: 0 <= k < |looks| ==> (looks + [l])[k] == looks[k];
  }

  lemma RunIsShort(looks: seq<Look>, l: Look, start: nat, i: nat, j: nat)
    requires Ordered(looks) && NoGraceElapsed(looks) && RunStartsAt(looks, start)
    requires l.seen.Missing? && start < |looks| ==> l.handled < looks[start].handled + GRACE
    requires i <= j <= |looks| && MissingFrom(looks + [l], i, j + 1)
    ensures (looks + [l])[j].handled < (looks + [l])[i].handled + GRACE
  {
    var all := looks + [l];
    if j < |looks| {
      MissingInPrefix(looks, l, i, j + 1);
      assert all[i] == looks[i] && all[j] == looks[j];
    } else {
      assert all[j].seen.Missing?;
      RunBound(looks, l, start, i);
    }
  }

  lemma MissingInPrefix(looks: seq<Look>, l: Look, i: nat, j: nat)
    requires j <= |looks| && MissingFrom(looks + [l], i, j)
    ensures MissingFrom(looks, i, j)
  {
    assert forall k :: i <= k < j ==> (looks + [l])[k] == looks[k];
  }

  /** Where a wait that began at `start` stands before its next look. */
  predicate Progress(looks: seq<Look>, runStart: nat, since: Option<Millis>, start: Millis, clock: Millis) {
    && Ordered(looks) && Quiet(looks) && NoGraceElapsed(looks) && RunStartsAt(looks, runStart)
    && (forall k :: 0 <= k < |looks| ==> looks[k].handled + POLL_EVERY <= clock)
    && start + POLL_EVERY * |looks| <= clock && POLL_EVERY * |looks| < DEADLINE + POLL_EVERY
    && (since.Some? <==> runStart < |looks|)
    && (since.Some? ==> looks[runStart].at <= since.value <= looks[runStart].handled)
  }

  /** The look is uneventful and the grace period, if running, is not over. */
  predicate Uneventful(l: Look, since: Option<Millis>, since': Option<Millis>) {
    && l.at <= l.handled
    && (l.seen.Original? || l.seen.Missing?)
    && (l.seen.Original? ==> since' == None)
    && (l.seen.Missing? ==>
          && since'.Some? && since'.value <= l.handled < since'.value + GRACE
          && (if since.Some? then since' == since else l.at <= since'.value))
  }

  lemma Advance(looks: seq<Look>, l: Look, runStart: nat, since: Option<Millis>, since': Option<Millis>,
                start: Millis, clock: Millis, clock': Millis)
    requires Progress(looks, runStart, since, start, clock) && Uneventful(l, since, since')
    requires clock <= l.at && l.handled + POLL_EVERY <= clock' && l.handled < start + DEADLINE
    ensures Progress(looks + [l], if l.seen.Missing? then runStart else |looks| + 1, since', start, clock')
  {
    AppendOrdered(looks, l);
    AppendLook(looks, l, runStart);
  }

  /** The looks end with an unbroken absence of at least the grace period. */
  predicate GoneForGood(looks: seq<Look>) {
    exists i :: 0 <= i < |looks| && MissingFrom(looks, i, |looks|) && looks[i].at + GRACE <= looks[|looks| - 1].handled
  }

  /** Gone for good means for twenty seconds at least. */
  lemma GraceIsTwentySeconds(looks: seq<Look>)
    requires GoneForGood(looks)
    ensures exists i :: 0 <= i < |looks| && MissingFrom(looks, i, |looks|)
                        && looks[i].at + 20 * 1000 <= looks[|looks| - 1].handled
  {
  }

  /**
   What a wait may conclude from its looks: every look before the last was
   uneventful, no full grace period was overlooked, and the last one, or the clock,
   justifies the result.
   */
  predicate Concluded(looks: seq<Look>, r: Result<bool, WaitError>, elapsed: Millis) {
    && 0 < |looks| <= DEADLINE / POLL_EVERY + 1
    && var n := |looks| - 1;
       && Ordered(looks) && Quiet(looks[..n]) && NoGraceElapsed(looks[..n])
       && match r
          case Ok(false) => looks[n].seen.Replaced?
          case Ok(true) => GoneForGood(looks)
          case Err(CannotRead) => looks[n].seen.Unreadable?
          case Err(TimedOut) => Quiet(looks) && DEADLINE <= elapsed
  }

  /** What one look decides, given since when the bundle has been missing. */
  function Decided(l: Look, since: Option<Millis>): Option<Result<bool, WaitError>> {
    match l.seen
    case Replaced => Some(Ok(false))
    case Unreadable => Some(Err(CannotRead))
    case Original => None
    case Missing => if since.Some? && since.value + GRACE <= l.handled then Some(Ok(true)) else None
  }

  lemma ConcludeFromLook(looks: seq<Look>, l: Look, runStart: nat, since: Option<Millis>, since': Option<Millis>,
                         start: Millis, clock: Millis, elapsed: Millis)
    requires Progress(looks, runStart, since, start, clock) && clock <= l.at <= l.handled
    requires Decided(l, since').Some?
    requires l.seen.Missing? ==> since'.Some? && if since.Some? then since' == since else l.at <= since'.value
    ensures Concluded(looks + [l], Decided(l, since').value, elapsed)
  {
    AppendOrdered(looks, l);
    assert (looks + [l])[..|looks|] == looks;
    if l.seen.Missing? {
      assert MissingFrom(looks + [l], runStart, |looks| + 1);
    }
  }

  lemma ConcludeTimedOut(looks: seq<Look>, l: Look, runStart: nat, since: Option<Millis>, since': Option<Millis>,
                         start: Millis, clock: Millis, elapsed: Millis)
    requires Progress(looks, runStart, since, start, clock) && Uneventful(l, since, since') && clock <= l.at
    requires DEADLINE <= elapsed
    ensures Concluded(looks + [l], Err(TimedOut), elapsed)
  {
    AppendOrdered(looks, l);
    assert (looks + [l])[..|looks|] == looks;
  }

  /** One look, and what it decides. */
  method LookOnce(world: World, missingSince: Option<Millis>)
    returns (decided: Option<Result<bool, WaitError>>, since: Option<Millis>, ghost l: Look)
    requires missingSince.Some? ==> missingSince.value <= world.clock
    modifies world`clock, world`clockReads, world`shown
    ensures world.shown == old(world.shown) + [l.seen]
    ensures l.at == old(world.clock) <= l.handled == world.clock
    ensures decided == Decided(l, since)
    ensures decided.None? ==> Uneventful(l, missingSince, since)
    ensures l.seen.Missing? ==> since.Some? && if missingSince.Some? then since == missingSince else l.at <= since.value
  {
    since := missingSince;
    ghost var at := world.clock;
    var seen := world.Observe();
    decided := None;
    match seen {
      case Replaced =>
        decided := Some(Ok(false));
      case Unreadable =>
        decided := Some(Err(CannotRead));
      case Original =>
        since := None;
      case Missing =>
        if since.None? {
          var first := world.Now();
          since := Some(first);
        }
        var now := world.Now();
        if now - since.value >= GRACE {
          decided := Some(Ok(true));
        }
    }
    l := Look(seen, at, world.clock);
  }

  /** One more look, and, unless that or the clock concludes the wait, a nap. */
  method Poll(world: World, missingSince: Option<Millis>, start: Millis, ghost before: seq<Look>, ghost runStart: nat)
    returns (decided: Option<Result<bool, WaitError>>, since: Option<Millis>, ghost l: Look)
    requires Progress(before, runStart, missingSince, start, world.clock)
    modifies world`clock, world`clockReads, world`shown
    ensures old(world.clock) <= world.clock && world.shown == old(world.shown) + [l.seen]
    ensures decided.Some? ==> Concluded(before + [l], decided.value, world.clock - start)
    ensures decided.None? ==>
              Progress(before + [l], if l.seen.Missing? then runStart else |before| + 1, since, start, world.clock)
  {
    ghost var clock := world.clock;
    assert missingSince.Some? ==> missingSince.value <= clock by {
      SinceIsPast(before, runStart, missingSince, start, clock);
    }
    decided, since, l := LookOnce(world, missingSince);
    if decided.Some? {
      ConcludeFromLook(before, l, runStart, missingSince, since, start, clock, world.clock - start);
      return;
    }
    var now := world.Now();
    if now >= start + DEADLINE {
      ConcludeTimedOut(before, l, runStart, missingSince, since, start, clock, world.clock - start);
      decided := Some(Err(TimedOut));
      return;
    }
    world.Sleep(POLL_EVERY);
    Advance(before, l, runStart, missingSince, since, start, clock, world.clock);
  }

  lemma SinceIsPast(looks: seq<Look>, runStart: nat, since: Option<Millis>, start: Millis, clock: Millis)
    requires Progress(looks, runStart, since, start, clock)
    ensures start <= clock && (since.Some? ==> since.value <= clock)
  {
  }

  lemma ConcludedLater(looks: seq<Look>, r: Result<bool, WaitError>, elapsed: Millis, later: Millis)
    requires Concluded(looks, r, elapsed) && elapsed <= later
    ensures Concluded(looks, r, later)
    ensures |looks| <= 481 && (r == Err(TimedOut) ==> 120 * 1000 <= later)
  {
  }

  /**
   Polls until the bundle is replaced, has been away for the grace period, cannot
   be read, or the deadline passes. It always ends, after at most 481 looks; every
   look before the last was uneventful, and no full grace period was overlooked.
   */
  method WaitForBundleRemoval(world: World) returns (r: Result<bool, WaitError>, ghost looks: seq<Look>)
    modifies world`clock, world`clockReads, world`shown
    ensures old(world.clock) <= world.clock && world.shown == old(world.shown) + Seen(looks)
    ensures Concluded(looks, r, world.clock - old(world.clock))
    ensures |looks| <= 481 && (r == Err(TimedOut) ==> 120 * 1000 <= world.clock - old(world.clock))
  {
    var start := world.Now();
    var missingSince: Option<Millis> := None;
    ghost var runStart: nat := 0;
    looks := [];
    while true
      invariant world.shown == old(world.shown) + Seen(looks) && old(world.clock) <= start <= world.clock
      invariant Progress(looks, runStart, missingSince, start, world.clock)
      decreases DEADLINE + POLL_EVERY - POLL_EVERY * |looks|
    {
      ghost var before := looks;
      var decided;
      ghost var l;
      SinceIsPast(before, runStart, missingSince, start, world.clock);
      decided, missingSince, l := Poll(world, missingSince, start, before, runStart);
      looks := before + [l];
      runStart := if l.seen.Missing? then runStart else |before| + 1;
      SeenOfAppend(before, l);
      if decided.Some? {
        ConcludedLater(looks, decided.value, world.clock - start, world.clock - old(world.clock));
        return decided.value, looks;
      }
    }
  }

  /**
   The order of the steps: the ready file is written before the wait and removed
   after it, and the daemon is asked to clean up before its service goes away.
   */
  function Rank(s: Step): nat {
    match s
    case WroteReady => 0
    case RemovedReady => 1
    case SentPrepare => 2
    case Unregister => 3
  }

  /** What the uninstaller does, given how its wait ended, if it got that far. */
  function StepsAfter(waited: Option<Result<bool, WaitError>>): (steps: seq<Step>)
    ensures Unregister in steps <==> waited == Some(Ok(true))
    ensures SentPrepare in steps <==> waited == Some(Ok(true))
    ensures RemovedReady in steps <==> waited.Some? && waited.value.Ok?
    ensures WroteReady in steps <==> waited.Some?
    ensures forall i, j :: 0 <= i < j < |steps| ==> Rank(steps[i]) < Rank(steps[j])
  {
    match waited
    case None => []
    case Some(Err(_)) => [WroteReady]
    case Some(Ok(false)) => [WroteReady, RemovedReady]
    case Some(Ok(true)) => [WroteReady, RemovedReady, SentPrepare, Unregister]
  }

  /**
   Unregisters only after looks that found the bundle gone without a break for the
   whole grace period, and then always tries to, whatever the daemon answered to
   the clean-up request. Nothing is looked at unless the ready file was written.
   */
  method DeferredUninstallServices(world: World)
    returns (ok: bool, ghost waited: Option<Result<bool, WaitError>>, ghost looks: seq<Look>, ghost elapsed: Millis)
    modifies world
    ensures world.steps == old(world.steps) + StepsAfter(waited)
    ensures world.shown == old(world.shown) + Seen(looks) && elapsed == world.clock - old(world.clock)
    ensures waited.Some? ==> Concluded(looks, waited.value, elapsed)
    ensures waited.None? ==> looks == []
    ensures Unregister in StepsAfter(waited) ==> GoneForGood(looks)
    ensures waited.None? <==> !world.readyWritable
    ensures ok ==> waited == Some(Ok(false)) || waited == Some(Ok(true))
    ensures waited == Some(Ok(false)) ==> ok
    ensures waited == Some(Ok(true)) ==>
              (ok <==> world.unregisterWorks && (world.reply.Done? || world.reply.Unavailable?))
  {
    waited, looks, elapsed := None, [], 0;
    if !world.readyWritable {
      return false, waited, looks, elapsed;
    }
    world.Record(WroteReady);
    ghost var clock := world.clock;
    var removed;
    removed, looks := WaitForBundleRemoval(world);
    waited, elapsed := Some(removed), world.clock - clock;
    if removed.Err? {
      return false, waited, looks, elapsed;
    }
    world.Record(RemovedReady);
    if !removed.value {
      return true, waited, looks, elapsed;
    }
    world.Record(SentPrepare);
    var cleanup := world.reply.Done? || world.reply.Unavailable?;
    world.Record(Unregister);
    if !world.unregisterWorks {
      return false, waited, looks, elapsed;
    }
    ok := cleanup;
  }
}
