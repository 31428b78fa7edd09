/** What the tracker announces over a whole stream of statuses. */
module Warnings {
  import opened Common
  import opened Status
  import opened Notifications

  // ---- Streams ------------------------------------------------------------------

  /** The tracker's memory after a stream. */
  function Feed(m: Memory, calls: seq<Call>): Memory {
    if calls == [] then m else Observed(Feed(m, calls[..|calls| - 1]), calls[|calls| - 1])
  }

  /** What a stream makes the tracker announce, in seconds and in order. */
  function Announced(m: Memory, calls: seq<Call>): seq<U32> {
    if calls == [] then []
    else
      var init := calls[..|calls| - 1];
      Announced(m, init)
      + match Fires(Feed(m, init), calls[|calls| - 1]) case None => [] case Some(t) => [t]
  }

  function Calls(sts: seq<UserStatus>): (calls: seq<Call>)
    ensures |calls| == |sts|
    ensures forall i :: 0 <= i < |sts| ==> calls[i] == CallOf(sts[i])
  {
    seq(|sts|, i requires 0 <= i < |sts| => CallOf(sts[i]))
  }

  /** The statuses from `k` up to `n` are one reset cycle, begun at `k`. */
  predicate SameCycle(m: Memory, calls: seq<Call>, k: nat, n: nat)
    requires k <= n <= |calls|
  {
    && (forall i :: k <= i < n ==> calls[i].resetsAt == calls[k].resetsAt)
    && (k < n ==> if k == 0 then m.lastResetsAt != Some(calls[0].resetsAt)
                  else calls[k - 1].resetsAt != calls[k].resetsAt)
  }

  /** `o` is the tightest threshold any status in `k..n` called for. */
  predicate IsTightest(calls: seq<Call>, k: nat, n: nat, o: Option<U32>)
    requires k <= n <= |calls|
  {
    match o
    case None => forall i :: k <= i < n ==> calls[i].wanted.None?
    case Some(t) =>
      && (exists i :: k <= i < n && calls[i].wanted == Some(t))
      && forall i :: k <= i < n && calls[i].wanted.Some? ==> t <= calls[i].wanted.value
  }

  lemma LastSeen(m: Memory, calls: seq<Call>)
    requires calls != []
    ensures Feed(m, calls).lastResetsAt == Some(calls[|calls| - 1].resetsAt)
  {
  }

  /**
   Within one reset cycle the tracker's memory is the plain minimum over the
   statuses of that cycle, whatever lists they carried, and a status is announced
   exactly when it calls for a strictly tighter threshold than every earlier one
   of its cycle.
   */
  lemma {:induction false} TrackerIsAMinimum(m: Memory, calls: seq<Call>, k: nat, n: nat)
    requires k < n <= |calls| && SameCycle(m, calls, k, n)
    ensures IsTightest(calls, k, n, Feed(m, calls[..n]).firedAtOrBelow)
    ensures Fires(Feed(m, calls[..n - 1]), calls[n - 1]).Some? <==>
              calls[n - 1].wanted.Some?
              && forall i :: k <= i < n - 1 && calls[i].wanted.Some?
                   ==> calls[n - 1].wanted.value < calls[i].wanted.value
    decreases n
  {
    var before, c := Feed(m, calls[..n - 1]), calls[n - 1];
    assert calls[..n][..n - 1] == calls[..n - 1];
    if n - 1 > k {
      TrackerIsAMinimum(m, calls, k, n - 1);
      LastSeen(m, calls[..n - 1]);
      assert Rearmed(before, c.resetsAt) == before;
    } else if k > 0 {
      LastSeen(m, calls[..k]);
      assert Rearmed(before, c.resetsAt).firedAtOrBelow == None;
    } else {
      assert calls[..0] == [];
      assert Rearmed(before, c.resetsAt).firedAtOrBelow == None;
    }
  }

  // ---- At most once per cycle ---------------------------------------------------

  predicate OneCycle(m: Memory, calls: seq<Call>) {
    SameCycle(m, calls, 0, |calls|)
  }

  predicate StrictlyDecreasing(s: seq<int>) {
    forall i, j :: 0 <= i < j < |s| ==> s[i] > s[j]
  }

  lemma {:induction false} AnnouncedAt(m: Memory, calls: seq<Call>, t: U32) returns (n: nat)
    requires t in Announced(m, calls)
    ensures n < |calls| && Fires(Feed(m, calls[..n]), calls[n]) == Some(t) && calls[n].wanted == Some(t)
  {
    var last := |calls| - 1;
    var init := calls[..last];
    if t in Announced(m, init) {
      n := AnnouncedAt(m, init, t);
      assert init[..n] == calls[..n];
    } else {
      n := last;
    }
  }

  lemma {:induction false} FiringIsAnnounced(m: Memory, calls: seq<Call>, n: nat, t: U32)
    requires n < |calls| && Fires(Feed(m, calls[..n]), calls[n]) == Some(t)
    ensures t in Announced(m, calls)
    decreases |calls|
  {
    var last := |calls| - 1;
    var init := calls[..last];
    if n < last {
      assert init[..n] == calls[..n];
      FiringIsAnnounced(m, init, n, t);
    }
  }

  /** Within one cycle every announcement is strictly tighter than the one before. */
  lemma {:induction false} AnnouncedOnceEach(m: Memory, calls: seq<Call>)
    requires OneCycle(m, calls)
    ensures StrictlyDecreasing(Announced(m, calls))
    ensures Announced(m, calls) != [] ==>
              Feed(m, calls).firedAtOrBelow == Some(Announced(m, calls)[|Announced(m, calls)| - 1])
    ensures Announced(m, calls) == [] && calls != [] ==> Feed(m, calls).firedAtOrBelow == None
    decreases |calls|
  {
    if calls != [] {
      var init, c := calls[..|calls| - 1], calls[|calls| - 1];
      AnnouncedOnceEach(m, init);
      if init != [] {
        LastSeen(m, init);
        assert Rearmed(Feed(m, init), c.resetsAt) == Feed(m, init);
      } else {
        assert Rearmed(Feed(m, init), c.resetsAt).firedAtOrBelow == None;
      }
    }
  }

  /** The distinct positive thresholds of a list, in seconds. */
  function Thresholds(minutes: seq<U32>): set<U32> {
    set i | 0 <= i < |minutes| && SaturatingMul(minutes[i], 60) > 0 :: SaturatingMul(minutes[i], 60)
  }

  lemma {:induction false} DecreasingWithin(s: seq<U32>, within: set<U32>)
    requires StrictlyDecreasing(s) && forall t :: t in s ==> t in within
    ensures |s| <= |within|
    decreases |s|
  {
    if s != [] {
      var last := s[|s| - 1];
      forall t | t in s[..|s| - 1]
        ensures t in within - {last}
      {
        assert t in s;
      }
      DecreasingWithin(s[..|s| - 1], within - {last});
    }
  }

  /** A cycle announces at most as often as there are distinct positive thresholds. */
  lemma AtMostOncePerThreshold(m: Memory, sts: seq<UserStatus>, minutes: seq<U32>)
    requires OneCycle(m, Calls(sts))
    requires forall i :: 0 <= i < |sts| ==> sts[i].warnThresholdsMinutes == minutes
    ensures |Announced(m, Calls(sts))| <= |Thresholds(minutes)|
    ensures forall t :: t in Announced(m, Calls(sts)) ==> t in Thresholds(minutes)
  {
    AnnouncedOnceEach(m, Calls(sts));
    forall t | t in Announced(m, Calls(sts))
      ensures t in Thresholds(minutes)
    {
      var n := AnnouncedAt(m, Calls(sts), t);
      WantedIsThreshold(sts[n], t);
      InThresholds(minutes, t);
    }
    DecreasingWithin(Announced(m, Calls(sts)), Thresholds(minutes));
  }

  lemma WantedIsThreshold(st: UserStatus, t: U32)
    requires Wanted(st) == Some(t)
    ensures IsThreshold(st.warnThresholdsMinutes, t)
  {
    CandidateIsSmallest(st.warnThresholdsMinutes, st.remainingSeconds);
  }

  lemma InThresholds(minutes: seq<U32>, t: U32)
    ensures t in Thresholds(minutes) <==> IsThreshold(minutes, t)
  {
  }

  /** The largest number of minutes whose seconds fit 32 bits. */
  const LAST_EXACT_MINUTE: U32 := 71582788

  lemma ThresholdShape(minutes: seq<U32>, t: U32)
    requires IsThreshold(minutes, t)
    ensures t == U32_MAX || t % 60 == 0
    ensures t == U32_MAX ==> exists i :: 0 <= i < |minutes| && minutes[i] > LAST_EXACT_MINUTE
  {
    var i :| 0 <= i < |minutes| && SaturatingMul(minutes[i], 60) == t;
  }

  /**
   Two different thresholds are announced as the same number of minutes in one
   case only: one is the largest exact one and the other has saturated.
   */
  lemma SameMinutesOnlyWhenSaturated(minutes: seq<U32>, minutes': seq<U32>, t: U32, t': U32)
    requires IsThreshold(minutes, t) && IsThreshold(minutes', t') && t < t'
    ensures InMinutes(t) == InMinutes(t') <==> t == LAST_EXACT_MINUTE * 60 && t' == U32_MAX
  {
    ThresholdShape(minutes, t);
    ThresholdShape(minutes', t');
  }

  /**
   What a status makes the tracker announce is one of the minutes it lists, the
   smallest that is not below what remains, unless the list holds a number of minutes
   too large for its seconds.
   */
  lemma AnnouncesAListedMinute(st: UserStatus, t: U32)
    requires Wanted(st) == Some(t)
    requires forall i :: 0 <= i < |st.warnThresholdsMinutes| ==> st.warnThresholdsMinutes[i] <= LAST_EXACT_MINUTE
    ensures InMinutes(t) in st.warnThresholdsMinutes && InMinutes(t) > 0 && st.remainingSeconds <= InMinutes(t) * 60
    ensures forall n :: n in st.warnThresholdsMinutes && n > 0 && st.remainingSeconds <= n * 60 ==> InMinutes(t) <= n
  {
    var minutes := st.warnThresholdsMinutes;
    CandidateIsSmallest(minutes, st.remainingSeconds);
    var i :| 0 <= i < |minutes| && SaturatingMul(minutes[i], 60) == t;
    assert t == minutes[i] * 60;
    forall n | n in minutes && n > 0 && st.remainingSeconds <= n * 60
      ensures InMinutes(t) <= n
    {
      var j :| 0 <= j < |minutes| && minutes[j] == n;
      assert IsThreshold(minutes, SaturatingMul(minutes[j], 60));
    }
  }

  /** The two such thresholds, met one after the other, are announced as the same minute. */
  lemma SaturationAnnouncesAMinuteTwice(resetsAt: Instant, tight: UserStatus, loose: UserStatus)
    requires loose.state.Active? && tight.state.Active? && loose.resetsAt == tight.resetsAt == resetsAt
    requires loose.warnThresholdsMinutes == tight.warnThresholdsMinutes == [LAST_EXACT_MINUTE, LAST_EXACT_MINUTE + 1]
    requires loose.remainingSeconds == U32_MAX && tight.remainingSeconds == LAST_EXACT_MINUTE * 60
    ensures Minutes(Announced(FRESH, [CallOf(loose), CallOf(tight)])) == [LAST_EXACT_MINUTE, LAST_EXACT_MINUTE]
  {
    var minutes := [LAST_EXACT_MINUTE, LAST_EXACT_MINUTE + 1];
    assert minutes[0] == LAST_EXACT_MINUTE && minutes[1] == LAST_EXACT_MINUTE + 1;
    assert IsThreshold(minutes, LAST_EXACT_MINUTE * 60) by {
      assert SaturatingMul(minutes[0], 60) == LAST_EXACT_MINUTE * 60;
    }
    assert IsThreshold(minutes, U32_MAX) by {
      assert SaturatingMul(minutes[1], 60) == U32_MAX;
    }
    CandidateWhen(minutes, U32_MAX, U32_MAX);
    CandidateWhen(minutes, LAST_EXACT_MINUTE * 60, LAST_EXACT_MINUTE * 60);
    var a, b := CallOf(loose), CallOf(tight);
    assert [a, b][..1] == [a] && [a][..0] == [];
    assert Feed(FRESH, []) == FRESH && Announced(FRESH, []) == [];
    assert Feed(FRESH, [a]) == Observed(Feed(FRESH, [a][..0]), a);
    assert Announced(FRESH, [a]) == [U32_MAX] && Feed(FRESH, [a]).firedAtOrBelow == Some(U32_MAX);
    assert Announced(FRESH, [a, b]) == [U32_MAX] + [LAST_EXACT_MINUTE * 60];
  }

  function Minutes(s: seq<U32>): seq<int> {
    seq(|s|, i requires 0 <= i < |s| => InMinutes(s[i]))
  }

  /** Where no threshold saturates, the announced minutes strictly decrease too. */
  lemma MinutesDecrease(m: Memory, sts: seq<UserStatus>)
    requires OneCycle(m, Calls(sts))
    requires forall i, j :: 0 <= i < |sts| && 0 <= j < |sts[i].warnThresholdsMinutes|
               ==> sts[i].warnThresholdsMinutes[j] <= LAST_EXACT_MINUTE
    ensures StrictlyDecreasing(Minutes(Announced(m, Calls(sts))))
  {
    var fired := Announced(m, Calls(sts));
    AnnouncedOnceEach(m, Calls(sts));
    forall i, j | 0 <= i < j < |fired|
      ensures fired[i] / 60 > fired[j] / 60
    {
      var a := AnnouncedAt(m, Calls(sts), fired[i]);
      var b := AnnouncedAt(m, Calls(sts), fired[j]);
      WantedIsThreshold(sts[a], fired[i]);
      WantedIsThreshold(sts[b], fired[j]);
      ThresholdShape(sts[a].warnThresholdsMinutes, fired[i]);
      SameMinutesOnlyWhenSaturated(sts[b].warnThresholdsMinutes, sts[a].warnThresholdsMinutes, fired[j], fired[i]);
    }
  }

  // ---- Complete coverage ----------------------------------------------------------

  /** The smallest threshold and every gap between two is at least `d` seconds. */
  predicate Spaced(minutes: seq<U32>, d: U32) {
    && (forall t :: t in Thresholds(minutes) ==> d <= t)
    && (forall t, t' :: t in Thresholds(minutes) && t' in Thresholds(minutes) && t < t' ==> d <= t' - t)
  }

  /** One status per tick of `d` seconds, active until no time remains. */
  predicate Countdown(sts: seq<UserStatus>, minutes: seq<U32>, d: U32) {
    && sts != [] && 0 < sts[0].remainingSeconds <= U32_MAX && sts[|sts| - 1].remainingSeconds <= 0
    && (forall i :: 0 <= i < |sts| ==> sts[i].warnThresholdsMinutes == minutes)
    && (forall i :: 0 <= i < |sts| ==> (sts[i].state.Active? <==> sts[i].remainingSeconds > 0))
    && (forall i, j :: 0 <= i < |sts| && j == i + 1 < |sts| ==> sts[j].remainingSeconds == sts[i].remainingSeconds - d)
  }

  lemma {:induction false} CountdownDecreases(sts: seq<UserStatus>, minutes: seq<U32>, d: U32, i: nat, j: nat)
    requires Countdown(sts, minutes, d) && i <= j < |sts|
    ensures sts[j].remainingSeconds <= sts[i].remainingSeconds
    decreases j
  {
    if i < j {
      CountdownDecreases(sts, minutes, d, i, j - 1);
      assert sts[j - 1 + 1] == sts[j];
    }
  }

  /** Less time left never calls for a looser threshold. */
  lemma CandidateMonotone(minutes: seq<U32>, r: U32, r': U32)
    requires r' <= r && Candidate(minutes, r).Some?
    ensures Candidate(minutes, r').Some? && Candidate(minutes, r').value <= Candidate(minutes, r).value
  {
    CandidateIsSmallest(minutes, r);
    CandidateIsSmallest(minutes, r');
  }

  /** The first status at which no more than `t` seconds remain. */
  lemma {:induction false} FirstAtOrBelow(sts: seq<UserStatus>, minutes: seq<U32>, d: U32, t: U32, j: nat)
    returns (k: nat)
    requires Countdown(sts, minutes, d) && j < |sts| && sts[j].remainingSeconds <= t < sts[0].remainingSeconds
    ensures 0 < k <= j && sts[k].remainingSeconds <= t < sts[k - 1].remainingSeconds
    decreases j
  {
    if t < sts[j - 1].remainingSeconds {
      k := j;
    } else {
      k := FirstAtOrBelow(sts, minutes, d, t, j - 1);
    }
  }

  lemma CandidateWhen(minutes: seq<U32>, r: U32, t: U32)
    requires IsThreshold(minutes, t) && r <= t
    requires forall t': U32 :: IsThreshold(minutes, t') && r <= t' ==> t <= t'
    ensures Candidate(minutes, r) == Some(t)
  {
    CandidateIsSmallest(minutes, r);
    CandidateUnique(minutes, r, Candidate(minutes, r), Some(t));
  }

  /** Every threshold up to the first status's candidate is called for by some status. */
  lemma EveryThresholdIsCalledFor(sts: seq<UserStatus>, minutes: seq<U32>, d: U32, t: U32) returns (k: nat)
    requires Countdown(sts, minutes, d) && Spaced(minutes, d) && t in Thresholds(minutes)
    requires Wanted(sts[0]).None? || t <= Wanted(sts[0]).value
    ensures k < |sts| && Wanted(sts[k]) == Some(t)
  {
    InThresholds(minutes, t);
    var first := sts[0].remainingSeconds;
    if first <= t {
      k := 0;
      CandidateIsSmallest(minutes, first);
    } else {
      k := FirstAtOrBelow(sts, minutes, d, t, |sts| - 1);
      var r := sts[k].remainingSeconds;
      assert sts[k - 1 + 1] == sts[k];
      assert t - d < r <= t;
      forall t': U32 | IsThreshold(minutes, t') && r <= t'
        ensures t <= t'
      {
        InThresholds(minutes, t');
      }
      CandidateWhen(minutes, r, t);
    }
  }

  /** Time left never grows from one status to a later one, whether the user is active or not. */
  predicate Dwindles(sts: seq<UserStatus>, minutes: seq<U32>) {
    && (forall i :: 0 <= i < |sts| ==> sts[i].warnThresholdsMinutes == minutes)
    && (forall i, j :: 0 <= i <= j < |sts| ==> sts[j].remainingSeconds <= sts[i].remainingSeconds)
  }

  lemma CountdownDwindles(sts: seq<UserStatus>, minutes: seq<U32>, d: U32)
    requires Countdown(sts, minutes, d)
    ensures Dwindles(sts, minutes)
  {
    forall i, j | 0 <= i <= j < |sts|
      ensures sts[j].remainingSeconds <= sts[i].remainingSeconds
    {
      CountdownDecreases(sts, minutes, d, i, j);
    }
  }

  /** What later statuses call for is never looser. */
  lemma WantedTightens(sts: seq<UserStatus>, minutes: seq<U32>, i: nat, j: nat)
    requires Dwindles(sts, minutes) && i <= j < |sts|
    requires Wanted(sts[i]).Some? && Wanted(sts[j]).Some?
    ensures Wanted(sts[j]).value <= Wanted(sts[i]).value
  {
    CandidateMonotone(minutes, sts[i].remainingSeconds, sts[j].remainingSeconds);
  }

  lemma {:induction false} FirstCaller(calls: seq<Call>, t: U32, k: nat) returns (f: nat)
    requires k < |calls| && calls[k].wanted == Some(t)
    ensures f <= k && calls[f].wanted == Some(t)
    ensures forall i :: 0 <= i < f ==> calls[i].wanted != Some(t)
    decreases k
  {
    if i :| 0 <= i < k && calls[i].wanted == Some(t) {
      f := FirstCaller(calls, t, i);
    } else {
      f := k;
    }
  }

  lemma TightestFires(m: Memory, calls: seq<Call>, k: nat, t: U32)
    requires OneCycle(m, calls) && k < |calls| && calls[k].wanted == Some(t)
    requires forall i :: 0 <= i < k && calls[i].wanted.Some? ==> t < calls[i].wanted.value
    ensures t in Announced(m, calls)
  {
    TrackerIsAMinimum(m, calls, 0, k + 1);
    assert calls[..k + 1][..k] == calls[..k];
    FiringIsAnnounced(m, calls, k, t);
  }

  /** The first status that calls for `t` announces it. */
  lemma CalledForIsAnnounced(m: Memory, sts: seq<UserStatus>, minutes: seq<U32>, t: U32, k: nat)
    requires OneCycle(m, Calls(sts)) && Dwindles(sts, minutes)
    requires k < |sts| && Wanted(sts[k]) == Some(t)
    ensures t in Announced(m, Calls(sts))
  {
    var calls := Calls(sts);
    var f := FirstCaller(calls, t, k);
    forall i | 0 <= i < f && calls[i].wanted.Some?
      ensures t < calls[i].wanted.value
    {
      WantedTightens(sts, minutes, i, f);
    }
    TightestFires(m, calls, f, t);
  }

  /**
   However the thresholds are spaced and however many statuses are missing, what is
   announced is exactly what some status that did arrive calls for.
   */
  lemma AnnouncedExactlyWhenCalledFor(m: Memory, sts: seq<UserStatus>, minutes: seq<U32>, t: U32)
    requires OneCycle(m, Calls(sts)) && Dwindles(sts, minutes)
    ensures t in Announced(m, Calls(sts)) <==> exists k :: 0 <= k < |sts| && Wanted(sts[k]) == Some(t)
  {
    if t in Announced(m, Calls(sts)) {
      var n := AnnouncedAt(m, Calls(sts), t);
      assert Wanted(sts[n]) == Some(t);
    }
    if k :| 0 <= k < |sts| && Wanted(sts[k]) == Some(t) {
      CalledForIsAnnounced(m, sts, minutes, t, k);
    }
  }

  lemma {:induction false} StreamsConcat(m: Memory, a: seq<Call>, b: seq<Call>)
    ensures Feed(m, a + b) == Feed(Feed(m, a), b)
    ensures Announced(m, a + b) == Announced(m, a) + Announced(Feed(m, a), b)
    decreases |b|
  {
    if b == [] {
      assert a + b == a;
    } else {
      var init := b[..|b| - 1];
      assert (a + b)[..|a + b| - 1] == a + init;
      StreamsConcat(m, a, init);
    }
  }

  /** Whatever these statuses call for is looser. */
  predicate Tightest(calls: seq<Call>, t: U32) {
    forall i :: 0 <= i < |calls| && calls[i].wanted.Some? ==> t < calls[i].wanted.value
  }

  /** What fires in the second of two streams of one cycle is tighter than all before it. */
  lemma FiresAfterOthers(m: Memory, first: seq<Call>, second: seq<Call>, n: nat)
    requires OneCycle(m, first + second) && n < |second|
    ensures Fires(Feed(Feed(m, first), second[..n]), second[n]).Some?
            <==> second[n].wanted.Some? && Tightest(first + second[..n], second[n].wanted.value)
  {
    var all, so := first + second, |first| + n;
    assert all[..so] == first + second[..n] && all[so] == second[n];
    FiresWhenTightest(m, all, so);
    StreamsConcat(m, first, second[..n]);
  }

  lemma FiresWhenTightest(m: Memory, calls: seq<Call>, n: nat)
    requires OneCycle(m, calls) && n < |calls|
    ensures Fires(Feed(m, calls[..n]), calls[n]).Some?
            <==> calls[n].wanted.Some? && Tightest(calls[..n], calls[n].wanted.value)
  {
    assert calls[..n + 1][..n] == calls[..n];
    assert forall i :: 0 <= i < n ==> calls[..n][i] == calls[i];
    TrackerIsAMinimum(m, calls, 0, n + 1);
  }

  lemma AnnouncedAfterOnlyIf(m: Memory, earlier: seq<UserStatus>, sts: seq<UserStatus>, t: U32)
    requires OneCycle(m, Calls(earlier) + Calls(sts)) && t in Announced(Feed(m, Calls(earlier)), Calls(sts))
    ensures exists k :: 0 <= k < |sts| && Wanted(sts[k]) == Some(t)
    ensures Tightest(Calls(earlier), t)
  {
    var first, second := Calls(earlier), Calls(sts);
    var n := AnnouncedAt(Feed(m, first), second, t);
    FiresAfterOthers(m, first, second, n);
    assert Wanted(sts[n]) == Some(t);
    forall i | 0 <= i < |first| && first[i].wanted.Some?
      ensures t < first[i].wanted.value
    {
      assert (first + second[..n])[i] == first[i];
    }
  }

  lemma AnnouncedAfterIf(m: Memory, earlier: seq<UserStatus>, sts: seq<UserStatus>, minutes: seq<U32>, t: U32, k: nat)
    requires OneCycle(m, Calls(earlier) + Calls(sts)) && Dwindles(sts, minutes)
    requires k < |sts| && Wanted(sts[k]) == Some(t) && Tightest(Calls(earlier), t)
    ensures t in Announced(Feed(m, Calls(earlier)), Calls(sts))
  {
    var first, second := Calls(earlier), Calls(sts);
    var f := FirstCaller(second, t, k);
    forall i | 0 <= i < |first| + f && (first + second[..f])[i].wanted.Some?
      ensures t < (first + second[..f])[i].wanted.value
    {
      if i >= |first| {
        WantedTightens(sts, minutes, i - |first|, f);
      }
    }
    FiresAfterOthers(m, first, second, f);
    FiringIsAnnounced(Feed(m, first), second, f, t);
  }

  /**
   Where a dwindling stream follows other statuses of the same reset cycle, a
   threshold is announced in it exactly if some status of it calls for that and
   everything the earlier ones called for was looser.
   */
  lemma AnnouncedAfterOthers(m: Memory, earlier: seq<UserStatus>, sts: seq<UserStatus>, minutes: seq<U32>, t: U32)
    requires OneCycle(m, Calls(earlier) + Calls(sts)) && Dwindles(sts, minutes)
    ensures t in Announced(Feed(m, Calls(earlier)), Calls(sts))
            <==> (exists k :: 0 <= k < |sts| && Wanted(sts[k]) == Some(t)) && Tightest(Calls(earlier), t)
  {
    if t in Announced(Feed(m, Calls(earlier)), Calls(sts)) {
      AnnouncedAfterOnlyIf(m, earlier, sts, t);
    }
    if k :| 0 <= k < |sts| && Wanted(sts[k]) == Some(t) {
      if Tightest(Calls(earlier), t) {
        AnnouncedAfterIf(m, earlier, sts, minutes, t, k);
      }
    }
  }

  /**
   A countdown in steps no longer than the thresholds' spacing announces exactly
   the thresholds at or below the first status's candidate (all of them if the
   first status is above every one), each once, from the loosest to the tightest.
   */
  lemma CompleteCoverage(m: Memory, sts: seq<UserStatus>, minutes: seq<U32>, d: U32)
    requires OneCycle(m, Calls(sts)) && Countdown(sts, minutes, d) && Spaced(minutes, d)
    ensures StrictlyDecreasing(Announced(m, Calls(sts)))
    ensures forall t :: t in Announced(m, Calls(sts)) <==>
              t in Thresholds(minutes) && (Wanted(sts[0]).None? || t <= Wanted(sts[0]).value)
  {
    AnnouncedOnceEach(m, Calls(sts));
    AtMostOncePerThreshold(m, sts, minutes);
    CountdownDwindles(sts, minutes, d);
    forall t | t in Announced(m, Calls(sts)) && Wanted(sts[0]).Some?
      ensures t <= Wanted(sts[0]).value
    {
      var n := AnnouncedAt(m, Calls(sts), t);
      WantedTightens(sts, minutes, 0, n);
    }
    forall t | t in Thresholds(minutes) && (Wanted(sts[0]).None? || t <= Wanted(sts[0]).value)
      ensures t in Announced(m, Calls(sts))
    {
      var k := EveryThresholdIsCalledFor(sts, minutes, d, t);
      CalledForIsAnnounced(m, sts, minutes, t, k);
    }
  }
}
