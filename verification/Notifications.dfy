/**
 The tray's threshold warnings (crates/tray/src/notifications.rs): the mutable
 tracker, and what a whole stream of statuses makes it announce.
 */
module Notifications {
  import opened Common
  import opened Status

  // ---- Thresholds ------------------------------------------------------------

  /** `t` is one of the configured warnings, in seconds; zero never warns. */
  predicate IsThreshold(minutes: seq<U32>, t: U32) {
    t > 0 && exists i :: 0 <= i < |minutes| && SaturatingMul(minutes[i], 60) == t
  }

  /** The smallest threshold that is at least `remaining`, if there is one. */
  ghost predicate IsCandidate(minutes: seq<U32>, remaining: U32, c: Option<U32>) {
    match c
    case None => forall t: U32 :: IsThreshold(minutes, t) ==> t < remaining
    case Some(t) =>
      && IsThreshold(minutes, t) && remaining <= t
      && forall t': U32 :: IsThreshold(minutes, t') && remaining <= t' ==> t <= t'
  }

  /** The candidate, by one scan of the unsorted list. */
  function Candidate(minutes: seq<U32>, remaining: U32): Option<U32> {
    if minutes == [] then None
    else
      var rest := Candidate(minutes[1..], remaining);
      var t := SaturatingMul(minutes[0], 60);
      if t > 0 && remaining <= t && (rest.None? || t < rest.value) then Some(t) else rest
  }

  lemma ThresholdsOfCons(minutes: seq<U32>)
    requires minutes != []
    ensures forall t: U32 :: IsThreshold(minutes, t)
              <==> (t > 0 && t == SaturatingMul(minutes[0], 60)) || IsThreshold(minutes[1..], t)
  {
    forall t: U32
      ensures IsThreshold(minutes, t)
              <==> (t > 0 && t == SaturatingMul(minutes[0], 60)) || IsThreshold(minutes[1..], t)
    {
      if IsThreshold(minutes, t) && t != SaturatingMul(minutes[0], 60) {
        var i :| 0 <= i < |minutes| && SaturatingMul(minutes[i], 60) == t;
        assert minutes[1..][i - 1] == minutes[i];
      }
      if IsThreshold(minutes[1..], t) {
        var i :| 0 <= i < |minutes[1..]| && SaturatingMul(minutes[1..][i], 60) == t;
        assert minutes[i + 1] == minutes[1..][i];
      }
    }
  }

  /** The scan finds the smallest threshold that is not below what remains. */
  lemma {:induction false} CandidateIsSmallest(minutes: seq<U32>, remaining: U32)
    ensures IsCandidate(minutes, remaining, Candidate(minutes, remaining))
  {
    if minutes != [] {
      CandidateIsSmallest(minutes[1..], remaining);
      ThresholdsOfCons(minutes);
    }
  }

  lemma CandidateUnique(minutes: seq<U32>, remaining: U32, c: Option<U32>, c': Option<U32>)
    requires IsCandidate(minutes, remaining, c) && IsCandidate(minutes, remaining, c')
    ensures c == c'
  {
  }

  // ---- The tracker --------------------------------------------------------------

  /** What the tracker remembers. */
  datatype Memory = Memory(lastResetsAt: Option<Instant>, firedAtOrBelow: Option<U32>)

  const FRESH: Memory := Memory(None, None)

  /** May warn: active, with a remainder that fits an unsigned 32-bit integer. */
  predicate Eligible(st: UserStatus) {
    st.state.Active? && 0 <= st.remainingSeconds <= U32_MAX
  }

  /** The threshold this status alone calls for. */
  function Wanted(st: UserStatus): Option<U32> {
    if Eligible(st) then Candidate(st.warnThresholdsMinutes, st.remainingSeconds) else None
  }

  /** All that matters of a status: its reset cycle and the threshold it calls for. */
  datatype Call = Call(resetsAt: Instant, wanted: Option<U32>)

  function CallOf(st: UserStatus): Call {
    Call(st.resetsAt, Wanted(st))
  }

  /** Strictly tighter, where no threshold at all is the loosest. */
  predicate Tighter(a: Option<U32>, b: Option<U32>) {
    a.Some? && (b.None? || a.value < b.value)
  }

  /** A new reset time re-arms the tracker. */
  function Rearmed(m: Memory, resetsAt: Instant): Memory {
    if m.lastResetsAt == Some(resetsAt) then m else Memory(Some(resetsAt), None)
  }

  function Observed(m: Memory, c: Call): Memory {
    var r := Rearmed(m, c.resetsAt);
    if Tighter(c.wanted, r.firedAtOrBelow) then r.(firedAtOrBelow := c.wanted) else r
  }

  /** The threshold, in seconds, that this status makes the tracker announce. */
  function Fires(m: Memory, c: Call): Option<U32> {
    if Tighter(c.wanted, Rearmed(m, c.resetsAt).firedAtOrBelow) then c.wanted else None
  }

  /** A threshold as it is announced. */
  function InMinutes(t: U32): U32 {
    t / 60
  }

  predicate Sorted(s: seq<U32>) {
    forall i, j :: 0 <= i < j < |s| ==> s[i] <= s[j]
  }

  class NotifTracker {
    var lastResetsAt: Option<Instant>
    var firedAtOrBelow: Option<U32>

    ghost function Model(): Memory
      reads this
    {
      Memory(lastResetsAt, firedAtOrBelow)
    }

    constructor ()
      ensures Model() == FRESH
    {
      lastResetsAt, firedAtOrBelow := None, None;
    }

    /** Decides whether a status crosses a threshold not announced yet. */
    method Evaluate(st: UserStatus) returns (announce: Option<U32>)
      modifies this
      ensures Model() == Observed(old(Model()), CallOf(st))
      ensures announce == match Fires(old(Model()), CallOf(st)) case None => None case Some(t) => Some(InMinutes(t))
    {
      if lastResetsAt != Some(st.resetsAt) {
        lastResetsAt := Some(st.resetsAt);
        firedAtOrBelow := None;
      }
      if st.state != Active {
        return None;
      }
      if !(0 <= st.remainingSeconds <= U32_MAX) {
        return None;
      }
      var remaining: U32 := st.remainingSeconds;
      var candidate := FindCandidate(st.warnThresholdsMinutes, remaining);
      CandidateIsSmallest(st.warnThresholdsMinutes, remaining);
      CandidateUnique(st.warnThresholdsMinutes, remaining, candidate,
                      Candidate(st.warnThresholdsMinutes, remaining));
      match (candidate, firedAtOrBelow) {
        case (None, _) =>
          announce := None;
        case (Some(t), None) =>
          firedAtOrBelow := Some(t);
          announce := Some(t / 60);
        case (Some(t), Some(prev)) =>
          if t < prev {
            firedAtOrBelow := Some(t);
            announce := Some(t / 60);
          } else {
            announce := None;
          }
      }
    }
  }

  /** Converts, sorts, dedups and searches, as the tracker does. */
  method FindCandidate(minutes: seq<U32>, remaining: U32) returns (candidate: Option<U32>)
    ensures IsCandidate(minutes, remaining, candidate)
  {
    var seconds := ToSeconds(minutes);
    var v := new U32[|seconds|](i requires 0 <= i < |seconds| => seconds[i]);
    assert v[..] == seconds;
    SortUnstable(v);
    SameElements(v[..], seconds);
    var n := Dedup(v);
    var k := 0;
    while k < n && v[k] < remaining
      invariant 0 <= k <= n
      invariant forall i :: 0 <= i < k ==> v[i] < remaining
    {
      k := k + 1;
    }
    candidate := if k < n then Some(v[k]) else None;
    FoundIsCandidate(minutes, remaining, v[..n], k);
  }

  /** The first of the sorted thresholds not below what remains is the smallest such. */
  lemma FoundIsCandidate(minutes: seq<U32>, remaining: U32, sorted: seq<U32>, k: nat)
    requires forall t: U32 :: t in sorted <==> IsThreshold(minutes, t)
    requires forall i, j :: 0 <= i < j < |sorted| ==> sorted[i] < sorted[j]
    requires k <= |sorted| && (forall i :: 0 <= i < k ==> sorted[i] < remaining)
    requires k < |sorted| ==> remaining <= sorted[k]
    ensures IsCandidate(minutes, remaining, if k < |sorted| then Some(sorted[k]) else None)
  {
    if k < |sorted| {
      assert sorted[k] in sorted;
    }
    forall t: U32 | IsThreshold(minutes, t) && remaining <= t
      ensures k < |sorted| && sorted[k] <= t
    {
      assert t in sorted;
      var i :| 0 <= i < |sorted| && sorted[i] == t;
      assert i >= k;
    }
  }

  /** Minutes to seconds, saturating, zeros dropped. */
  method ToSeconds(minutes: seq<U32>) returns (seconds: seq<U32>)
    ensures forall t: U32 :: t in seconds <==> IsThreshold(minutes, t)
  {
    seconds := [];
    var i := 0;
    while i < |minutes|
      invariant 0 <= i <= |minutes|
      invariant forall t: U32 :: t in seconds <==> IsThreshold(minutes[..i], t)
    {
      var t := SaturatingMul(minutes[i], 60);
      ghost var before := seconds;
      if t > 0 {
        seconds := seconds + [t];
      }
      ThresholdsOfPrefix(minutes, i);
      i := i + 1;
    }
    assert minutes[..i] == minutes;
  }

  lemma ThresholdsOfPrefix(minutes: seq<U32>, i: nat)
    requires i < |minutes|
    ensures forall t: U32 :: IsThreshold(minutes[..i + 1], t)
              <==> IsThreshold(minutes[..i], t) || (t > 0 && t == SaturatingMul(minutes[i], 60))
  {
    var longer, shorter := minutes[..i + 1], minutes[..i];
    assert longer[i] == minutes[i];
    forall t: U32
      ensures IsThreshold(longer, t) <==> IsThreshold(shorter, t) || (t > 0 && t == SaturatingMul(minutes[i], 60))
    {
      if IsThreshold(longer, t) && t != SaturatingMul(minutes[i], 60) {
        var j :| 0 <= j < |longer| && SaturatingMul(longer[j], 60) == t;
        assert shorter[j] == longer[j];
      }
      if IsThreshold(shorter, t) {
        var j :| 0 <= j < |shorter| && SaturatingMul(shorter[j], 60) == t;
        assert longer[j] == shorter[j];
      }
    }
  }

  /** `sort_unstable`, in place: sorted, and a permutation of what was there. */
  method SortUnstable(v: array<U32>)
    modifies v
    ensures Sorted(v[..])
    ensures multiset(v[..]) == multiset(old(v[..]))
  {
    var n := 0;
    while n < v.Length
      invariant 0 <= n <= v.Length
      invariant Sorted(v[..n])
      invariant v[n..] == old(v[n..])
      invariant multiset(v[..]) == multiset(old(v[..]))
    {
      assert v[n + 1..] == v[n..][1..] == old(v[n..])[1..] == old(v[n + 1..]);
      Insert(v, n);
      n := n + 1;
    }
    assert v[..n] == v[..];
  }

  /** Moves element `n` into its place among the sorted elements before it. */
  method Insert(v: array<U32>, n: nat)
    requires n < v.Length && Sorted(v[..n])
    modifies v
    ensures Sorted(v[..n + 1])
    ensures v[n + 1..] == old(v[n + 1..])
    ensures multiset(v[..]) == multiset(old(v[..]))
  {
    var k := n;
    while 0 < k && v[k] < v[k - 1]
      invariant 0 <= k <= n
      invariant forall i, j :: 0 <= i < j <= n && j != k ==> v[i] <= v[j]
      invariant v[n + 1..] == old(v[n + 1..])
      invariant multiset(v[..]) == multiset(old(v[..]))
    {
      SwapWithPrevious(v, k);
      k := k - 1;
    }
  }

  method SwapWithPrevious(v: array<U32>, k: nat)
    requires 0 < k < v.Length
    modifies v
    ensures v[k] == old(v[k - 1]) && v[k - 1] == old(v[k])
    ensures forall i :: 0 <= i < v.Length && i != k && i != k - 1 ==> v[i] == old(v[i])
    ensures v[k + 1..] == old(v[k + 1..])
    ensures multiset(v[..]) == multiset(old(v[..]))
  {
    ghost var before := v[..];
    v[k], v[k - 1] := v[k - 1], v[k];
    assert v[..] == before[k := before[k - 1]][k - 1 := before[k]];
  }

  lemma SameElements(s: seq<U32>, s': seq<U32>)
    requires multiset(s) == multiset(s')
    ensures forall t: U32 :: t in s <==> t in s'
  {
    forall t: U32
      ensures t in s <==> t in s'
    {
      assert t in s <==> t in multiset(s);
      assert t in s' <==> t in multiset(s');
    }
  }

  /** `dedup`, in place on a sorted vector: the first `n` elements are what is kept. */
  method Dedup(v: array<U32>) returns (n: nat)
    requires Sorted(v[..])
    modifies v
    ensures n <= v.Length
    ensures forall i, j :: 0 <= i < j < n ==> v[i] < v[j]
    ensures forall t: U32 :: t in v[..n] <==> t in old(v[..])
  {
    ghost var was := v[..];
    n := 0;
    var i := 0;
    while i < v.Length
      invariant 0 <= n <= i <= v.Length
      invariant v[i..] == was[i..]
      invariant Deduped(v[..n], was[..i])
    {
      assert v[i] == v[i..][0] == was[i..][0] == was[i] && was[..i + 1] == was[..i] + [was[i]];
      KeepOrSkip(v[..n], was[..i], was[i]);
      n := KeepUnlessRepeated(v, n, i);
      assert v[i + 1..] == was[i..][1..] == was[i + 1..];
      i := i + 1;
    }
    assert was[..i] == was;
  }

  /** Puts element `i` behind the first `n`, unless it repeats the last of them. */
  method KeepUnlessRepeated(v: array<U32>, n: nat, i: nat) returns (m: nat)
    requires n <= i < v.Length
    modifies v
    ensures m <= i + 1 && v[i + 1..] == old(v[i..])[1..]
    ensures var kept, x := old(v[..n]), old(v[i]);
            v[..m] == if kept == [] || kept[|kept| - 1] != x then kept + [x] else kept
  {
    m := n;
    if n == 0 || v[n - 1] != v[i] {
      v[n] := v[i];
      m := n + 1;
    }
  }

  /** Strictly increasing, and with the very elements of this sorted sequence. */
  ghost predicate Deduped(kept: seq<U32>, s: seq<U32>) {
    && Sorted(s)
    && (forall i, j :: 0 <= i < j < |kept| ==> kept[i] < kept[j])
    && (forall t: U32 :: t in kept <==> t in s)
    && (kept != [] ==> s != [] && kept[|kept| - 1] == s[|s| - 1])
  }

  /** One more element is kept exactly if it differs from the last one kept. */
  lemma KeepOrSkip(kept: seq<U32>, s: seq<U32>, x: U32)
    requires Deduped(kept, s) && Sorted(s + [x])
    ensures Deduped(if kept == [] || kept[|kept| - 1] != x then kept + [x] else kept, s + [x])
  {
    assert forall t: U32 :: t in s + [x] <==> t in s || t == x;
    assert s != [] ==> (s + [x])[|s| - 1] <= (s + [x])[|s|];
    assert s != [] ==> s[0] in s;
  }
}
