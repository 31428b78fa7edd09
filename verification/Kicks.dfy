/** What holds over every run of enforcement passes. */
module Kicks {
  import opened Common
  import opened Config
  import opened Enforcement

  /** Every act lies in some pass. */
  lemma {:induction false} PassOfAct(log: seq<Act>, passes: seq<Pass>, i: nat, n: nat) returns (k: nat)
    requires RunOk(log, passes) && n <= |passes|
    requires i < if n == 0 then 0 else passes[n - 1].to
    ensures k < n && passes[k].from <= i < passes[k].to <= |log| && Justified(log, passes[k], i)
    decreases n
  {
    assert PassOk(log, passes[n - 1]);
    assert n > 1 ==> passes[n - 1].from == passes[n - 2].to;
    if passes[n - 1].from <= i {
      k := n - 1;
    } else {
      k := PassOfAct(log, passes, i, n - 1);
    }
  }

  /** A uid's remembered stamp is never older than any stamp of that uid so far. */
  lemma {:induction false} StampsOnlyGrow(log: seq<Act>, passes: seq<Pass>, i: nat, n: nat)
    requires RunOk(log, passes) && i < n <= |log| && log[i].outcome.Stamps()
    ensures log[i].uid in Stamps(log[..n])
    ensures log[i].outcome.at <= Stamps(log[..n])[log[i].uid]
    decreases n
  {
    assert log[..n][..n - 1] == log[..n - 1];
    if i < n - 1 {
      StampsOnlyGrow(log, passes, i, n - 1);
      if log[n - 1].uid == log[i].uid && log[n - 1].outcome.Stamps() {
        var k := PassOfAct(log, passes, n - 1, |passes|);
        var a := log[n - 1];
        KickMeansBackoffOver(passes[k].cfg, a.name,
                             if a.name in passes[k].counters then passes[k].counters[a.name] else 0,
                             Stamps(log[..n - 1])[a.uid], passes[k].now);
      }
    }
  }

  /**
   After a stamp, no decision to kick that uid comes within the back-off, so two
   stamps of one uid are at least ten seconds apart, even when two names in one
   pass resolve to it.
   */
  lemma KickSpacing(log: seq<Act>, passes: seq<Pass>, i: nat, j: nat)
    requires RunOk(log, passes) && i < j < |log|
    requires log[i].uid == log[j].uid && log[i].outcome.Stamps()
    ensures log[i].outcome.at + BOOTOUT_BACKOFF <= log[j].now
    ensures log[j].outcome.Stamps() ==> log[i].outcome.at + BOOTOUT_BACKOFF <= log[j].outcome.at
  {
    StampsOnlyGrow(log, passes, i, j);
    var k := PassOfAct(log, passes, j, |passes|);
    var a := log[j];
    KickMeansBackoffOver(passes[k].cfg, a.name,
                         if a.name in passes[k].counters then passes[k].counters[a.name] else 0,
                         Stamps(log[..j])[a.uid], passes[k].now);
  }

  /** Within one pass a uid is stamped at most once. */
  lemma OneStampPerPass(log: seq<Act>, passes: seq<Pass>, k: nat, i: nat, j: nat)
    requires RunOk(log, passes) && k < |passes|
    requires passes[k].from <= i < j < passes[k].to <= |log| && log[i].uid == log[j].uid
    ensures !log[i].outcome.Stamps()
  {
    assert PassOk(log, passes[k]);
    assert Justified(log, passes[k], i) && Justified(log, passes[k], j);
    if log[i].outcome.Stamps() {
      KickSpacing(log, passes, i, j);
      assert false;
    }
  }

  // ---- Bounded response -----------------------------------------------------------

  /** Somebody active in this pass has this uid and, back-off aside, is to be kicked. */
  predicate Wants(p: Pass, uid: Uid) {
    exists name :: name in p.active && name in p.uids && p.uids[name] == uid && p.Decision(name, None).Kick?
  }

  /** The seconds the pass was handed for this user. */
  function Counted(p: Pass, name: Name): U32 {
    if name in p.counters then p.counters[name] else 0
  }

  /**
   Nobody else is acted on: every act is on a user who was active, whose uid it is,
   and who is over a configured limit, or not configured under a policy that blocks.
   */
  lemma ActsOnlyOnTheWanted(log: seq<Act>, passes: seq<Pass>, k: nat, i: nat)
    requires RunOk(log, passes) && k < |passes| && passes[k].from <= i < passes[k].to <= |log|
    ensures var p, a := passes[k], log[i];
            && Wants(p, a.uid) && a.name in p.active && a.name in p.uids && p.uids[a.name] == a.uid
            && (a.name in p.cfg.users ==> Counted(p, a.name) >= LimitSeconds(p.cfg.users[a.name]))
            && (a.name !in p.cfg.users ==> p.cfg.defaultPolicy.Block?)
  {
    var p, a := passes[k], log[i];
    assert PassOk(log, p) && Justified(log, p, i);
    assert p.Decision(a.name, None).Kick?;
  }

  /** A pass acts on a uid exactly when somebody active makes it wanted and its back-off is over. */
  lemma ActsExactlyWhenWanted(log: seq<Act>, passes: seq<Pass>, k: nat, uid: Uid)
    requires RunOk(log, passes) && k < |passes| && passes[k].from <= passes[k].to <= |log|
    ensures ActsOn(log, passes[k], uid)
            <==> Wants(passes[k], uid)
                 && !BackingOff(Lookup(Stamps(log[..passes[k].from]), uid), passes[k].now)
  {
    var p := passes[k];
    if ActsOn(log, p, uid) {
      var i :| p.from <= i < p.to && log[i].uid == uid;
      ActsOnlyOnTheWanted(log, passes, k, i);
    }
    if Wants(p, uid) {
      ActsExactlyAfterBackoff(log, passes, k, uid);
    }
  }

  /** A wanted uid is acted on exactly when its back-off is over. */
  lemma ActsExactlyAfterBackoff(log: seq<Act>, passes: seq<Pass>, k: nat, uid: Uid)
    requires RunOk(log, passes) && k < |passes| && passes[k].from <= passes[k].to <= |log|
    requires Wants(passes[k], uid)
    ensures ActsOn(log, passes[k], uid)
            <==> !BackingOff(Lookup(Stamps(log[..passes[k].from]), uid), passes[k].now)
  {
    var p := passes[k];
    assert PassOk(log, p);
    var name :| name in p.active && name in p.uids && p.uids[name] == uid && p.Decision(name, None).Kick?;
    if BackingOff(Lookup(Stamps(log[..p.from]), uid), p.now) {
      if ActsOn(log, p, uid) {
        ActingMeansBackoffOver(log, p, uid);
      }
    } else {
      assert p.Decision(name, Lookup(Stamps(log[..p.from]), uid)).Kick?;
    }
  }

  lemma ActingMeansBackoffOver(log: seq<Act>, p: Pass, uid: Uid)
    requires PassOk(log, p) && ActsOn(log, p, uid)
    ensures !BackingOff(Lookup(Stamps(log[..p.from]), uid), p.now)
  {
    var i := FirstActOn(log, p, uid, p.from, p.to);
    UntouchedUntil(log, p.from, i, uid);
    assert Justified(log, p, i);
  }

  lemma {:induction false} FirstActOn(log: seq<Act>, p: Pass, uid: Uid, lo: nat, hi: nat) returns (i: nat)
    requires lo <= hi <= |log| && exists n :: lo <= n < hi && log[n].uid == uid
    ensures lo <= i < hi && log[i].uid == uid
    ensures forall n :: lo <= n < i ==> log[n].uid != uid
    decreases hi - lo
  {
    if log[lo].uid == uid {
      i := lo;
    } else {
      i := FirstActOn(log, p, uid, lo + 1, hi);
    }
  }

  lemma {:induction false} UntouchedUntil(log: seq<Act>, lo: nat, hi: nat, uid: Uid)
    requires lo <= hi <= |log|
    requires forall n :: lo <= n < hi ==> log[n].uid != uid || !log[n].outcome.Stamps()
    ensures Lookup(Stamps(log[..hi]), uid) == Lookup(Stamps(log[..lo]), uid)
    decreases hi
  {
    if lo < hi {
      UntouchedUntil(log, lo, hi - 1, uid);
      assert log[..hi][..hi - 1] == log[..hi - 1];
    }
  }

  lemma PassBounds(log: seq<Act>, passes: seq<Pass>, k: nat)
    requires RunOk(log, passes) && k < |passes|
    ensures passes[k].from <= passes[k].to <= |log|
    ensures k + 1 < |passes| ==> passes[k].to == passes[k + 1].from
  {
    assert PassOk(log, passes[k]);
  }

  predicate PassesWant(passes: seq<Pass>, from: nat, end: nat, uid: Uid)
    requires end <= |passes|
  {
    forall k :: from <= k < end ==> Wants(passes[k], uid)
  }

  /**
   While a uid stays wanted, passes at most `gap` apart make the next attempt on
   it no earlier than its back-off ends and less than `gap` later.
   */
  lemma {:induction false} NextAttemptIsBounded(
      log: seq<Act>, passes: seq<Pass>, from: nat, end: nat, uid: Uid, t: Millis, gap: Millis) returns (k: nat)
    requires RunOk(log, passes) && from < end <= |passes| && PassesWant(passes, from, end, uid)
    requires passes[from].from <= |log| && Lookup(Stamps(log[..passes[from].from]), uid) == Some(t)
    requires forall i, j :: from <= i < end && j == i + 1 < end ==> passes[j].now <= passes[i].now + gap
    requires t <= passes[from].now < t + BOOTOUT_BACKOFF <= passes[end - 1].now
    ensures from < k < end && passes[k].from <= passes[k].to <= |log| && ActsOn(log, passes[k], uid)
    ensures t + BOOTOUT_BACKOFF <= passes[k].now < t + BOOTOUT_BACKOFF + gap
    ensures forall n :: passes[from].from <= n < passes[k].from ==> log[n].uid != uid
    decreases end - from
  {
    PassBounds(log, passes, from);
    ActsExactlyAfterBackoff(log, passes, from, uid);
    PassBounds(log, passes, from + 1);
    UntouchedUntil(log, passes[from].from, passes[from].to, uid);
    if passes[from + 1].now < t + BOOTOUT_BACKOFF {
      k := NextAttemptIsBounded(log, passes, from + 1, end, uid, t, gap);
    } else {
      k := from + 1;
      ActsExactlyAfterBackoff(log, passes, k, uid);
    }
  }

  /**
   An attempt that ends without a stamp, a failed logout or a present kill switch,
   is repeated on the very next pass that still wants the uid.
   */
  lemma RetriedAtOnce(log: seq<Act>, passes: seq<Pass>, k: nat, uid: Uid)
    requires RunOk(log, passes) && k + 1 < |passes|
    requires passes[k].from <= passes[k].to <= |log| && ActsOn(log, passes[k], uid)
    requires forall i :: passes[k].from <= i < passes[k].to && log[i].uid == uid ==> !log[i].outcome.Stamps()
    requires Wants(passes[k + 1], uid)
    ensures passes[k + 1].from <= passes[k + 1].to <= |log| && ActsOn(log, passes[k + 1], uid)
  {
    PassBounds(log, passes, k);
    PassBounds(log, passes, k + 1);
    var p := passes[k];
    assert PassOk(log, p);
    var i := FirstActOn(log, p, uid, p.from, p.to);
    UntouchedUntil(log, p.from, i, uid);
    assert Justified(log, p, i);
    UntouchedUntil(log, p.from, p.to, uid);
    ActsExactlyAfterBackoff(log, passes, k + 1, uid);
  }
}
