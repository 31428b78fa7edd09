/** No subscriber ever misses a change of what it shows, under any schedule. */
module Wakeups {
  import opened Common
  import opened Config
  import opened Counters
  import opened History
  import opened Storage
  import opened Engine
  import Saves

  /** A publisher has changed the shared state and has yet to send. */
  predicate Publishing(s: System) {
    || s.ticker.TickerSaving? || s.ticker.TickerSending?
    || (s.resetter.ResetterSaving? && s.resetter.rolled) || s.resetter.ResetterSending?
  }

  /** The view this subscriber computed last is the shared state's. */
  predicate UpToDate(s: System, sub: Subscriber) {
    sub.used == Used(s.mem, sub.name) && sub.active == IsActive(s.mem, sub.name)
  }

  /**
   A message is unread, a publisher is about to send, the subscriber is about to
   compute, or what it shows is current.
   */
  predicate Covered(s: System, sub: Subscriber) {
    && sub.next <= s.sent
    && (sub.next < s.sent || Publishing(s) || !sub.phase.Waiting? || UpToDate(s, sub))
  }

  ghost predicate AllCovered(s: System) {
    forall id :: id in s.subs ==> Covered(s, s.subs[id])
  }

  lemma StepKeepsCovered(s: System, a: Action)
    requires WellFormed(s) && AllCovered(s)
    ensures AllCovered(Apply(s, a))
  {
    var s' := Apply(s, a);
    if Enabled(s, a) && a.ResetterLock? && s.mem.day == Some(s.resetter.today) {
      assert s'.mem == s.mem;
    }
  }

  lemma {:induction false} AllStayCovered(s: System, acts: seq<Action>)
    requires WellFormed(s) && AllCovered(s)
    ensures AllCovered(Exec(s, acts))
    decreases |acts|
  {
    if acts != [] {
      StepKeepsCovered(s, acts[0]);
      AllStayCovered(Apply(s, acts[0]), acts[1..]);
    }
  }

  // ---- Staying subscribed -----------------------------------------------------

  /** Nothing here closes this subscriber's connection or kills the daemon. */
  predicate StaysOpen(acts: seq<Action>, id: nat) {
    forall i :: 0 <= i < |acts| ==> acts[i] != Close(id) && !acts[i].Restart?
  }

  /** None of these is a step of this subscriber's own. */
  predicate NotItsOwn(acts: seq<Action>, id: nat) {
    forall i :: 0 <= i < |acts| ==> acts[i] != Receive(id) && acts[i] != Compute(id)
  }

  /**
   A subscriber stays subscribed, under its own name, until its own connection
   closes, whatever others do, and nothing of it changes but by its own steps.
   */
  lemma {:induction false} StaysSubscribed(s: System, acts: seq<Action>, id: nat)
    requires WellFormed(s) && id in s.subs && StaysOpen(acts, id)
    ensures var s' := Exec(s, acts);
            && id in s'.subs && s'.subs[id].name == s.subs[id].name
            && (NotItsOwn(acts, id) ==> s'.subs[id] == s.subs[id])
    decreases |acts|
  {
    if acts != [] {
      assert acts[0] != Close(id) && !acts[0].Restart? && StaysOpen(acts[1..], id);
      assert NotItsOwn(acts, id) ==> NotItsOwn(acts[1..], id) && acts[0] != Receive(id) && acts[0] != Compute(id);
      StepKeepsSubscribed(s, acts[0], id);
      StaysSubscribed(Apply(s, acts[0]), acts[1..], id);
    }
  }

  lemma StepKeepsSubscribed(s: System, a: Action, id: nat)
    requires WellFormed(s) && id in s.subs && a != Close(id) && !a.Restart?
    ensures id in Apply(s, a).subs && Apply(s, a).subs[id].name == s.subs[id].name
    ensures a != Receive(id) && a != Compute(id) ==> Apply(s, a).subs[id] == s.subs[id]
  {
  }

  /** A new subscriber has nothing old to read and computes first; a closed one is gone. */
  lemma ComesAndGoes(s: System, id: nat, name: Name)
    requires WellFormed(s)
    ensures id !in s.subs ==>
              var s' := Apply(s, Subscribe(id, name));
              && s'.subs.Keys == s.subs.Keys + {id}
              && s'.subs[id].name == name && s'.subs[id].next == s.sent && s'.subs[id].phase.Minted?
              && !Enabled(s', Receive(id)) && Enabled(s', Compute(id))
    ensures Apply(s, Close(id)).subs.Keys == s.subs.Keys - {id}
  {
  }

  /**
   No subscriber is ever left without a wake-up: one that was there at the start and
   has not closed is there at the end, with a message unread, a publisher about to
   send, a computation pending, or the current view on its screen.
   */
  lemma NoLostWakeup(s: System, acts: seq<Action>, id: nat)
    requires WellFormed(s) && AllCovered(s) && id in s.subs && StaysOpen(acts, id)
    ensures var s' := Exec(s, acts);
            id in s'.subs && s'.subs[id].name == s.subs[id].name && Covered(s', s'.subs[id])
  {
    AllStayCovered(s, acts);
    StaysSubscribed(s, acts, id);
  }

  // ---- Neither too many nor too few ---------------------------------------------

  /** Whose message is still to be sent. */
  function Unsent(s: System): nat {
    (if s.ticker.TickerSaving? || s.ticker.TickerSending? then 1 else 0)
    + if (s.resetter.ResetterSaving? && s.resetter.rolled) || s.resetter.ResetterSending? then 1 else 0
  }

  /** The sections since the start-up check that call for a message: each tick, and each rollover. */
  function Due(base: View, log: seq<Section>): nat {
    if |log| <= 1 then 0
    else
      var n := |log| - 1;
      Due(base, log[..n]) + if log[n].credit.Some? || RollsAt(base, log, n) then 1 else 0
  }

  predicate WakeupsAddUp(s: System) {
    && s.trail.log != [] && s.mem.day == StoredDay(s.trail.base, s.trail.log, |s.trail.log|)
    && s.sent + Unsent(s) == Due(s.trail.base, s.trail.log)
  }

  lemma DueOneMore(base: View, log: seq<Section>, e: Section)
    requires log != []
    ensures Due(base, log + [e])
         == Due(base, log)
            + if e.credit.Some? || StoredDay(base, log, |log|) != Some(e.today) then 1 else 0
  {
    assert (log + [e])[..|log|] == log;
    assert StoredDay(base, log + [e], |log|) == StoredDay(base, log, |log|);
  }

  lemma TickerLockKeepsWakeups(s: System)
    requires WellFormed(s) && WakeupsAddUp(s) && s.ticker.TickerDated?
    ensures WakeupsAddUp(LockTicker(s))
  {
    DueOneMore(s.trail.base, s.trail.log, Section(s.ticker.today, Some(s.ticker.active)));
  }

  lemma ResetterLockKeepsWakeups(s: System)
    requires WellFormed(s) && WakeupsAddUp(s) && s.resetter.ResetterDated?
    ensures WakeupsAddUp(LockResetter(s))
  {
    DueOneMore(s.trail.base, s.trail.log, Section(s.resetter.today, None));
  }

  /** Nothing is locked, and what is sent and what is still to be sent add up as before. */
  predicate SameAccount(s: System, s': System) {
    && s'.mem == s.mem && s'.trail.base == s.trail.base && s'.trail.log == s.trail.log
    && s'.sent + Unsent(s') == s.sent + Unsent(s)
  }

  lemma SaveStepKeepsAccount(s: System, a: Action)
    requires WellFormed(s) && (a.OpenTmp? || a.FillTmp? || a.RenameTmp?)
    ensures SameAccount(s, Apply(s, a))
  {
    if Enabled(s, a) {
      match a
      case OpenTmp(who, ok) => SaveDoneKeepsAccount(s, who, false);
      case FillTmp(who, cut) => FillKeepsAccount(s, who, cut);
      case RenameTmp(who, ok) => RenameKeepsAccount(s, who, ok);
    }
  }

  lemma SaveDoneKeepsAccount(s: System, who: Task, saved: bool)
    requires SaveOf(s, who).Some?
    ensures SameAccount(s, SaveDone(s, who, saved))
  {
  }

  lemma FillKeepsAccount(s: System, who: Task, cut: Option<nat>)
    requires WellFormed(s) && Enabled(s, FillTmp(who, cut))
    ensures SameAccount(s, FillStep(s, who, cut))
  {
  }

  lemma RenameKeepsAccount(s: System, who: Task, ok: bool)
    requires WellFormed(s) && Enabled(s, RenameTmp(who, ok))
    ensures SameAccount(s, RenameStep(s, who, ok))
  {
  }

  lemma OtherStepKeepsAccount(s: System, a: Action)
    requires WellFormed(s) && !a.TickerLock? && !a.ResetterLock? && !a.Restart?
    requires !a.OpenTmp? && !a.FillTmp? && !a.RenameTmp?
    ensures SameAccount(s, Apply(s, a))
  {
  }

  lemma StepKeepsWakeups(s: System, a: Action)
    requires WellFormed(s) && WakeupsAddUp(s)
    ensures WakeupsAddUp(Apply(s, a))
  {
    if Enabled(s, a) {
      match a
      case TickerLock => TickerLockKeepsWakeups(s);
      case ResetterLock => ResetterLockKeepsWakeups(s);
      case Restart(today, active) =>
      case OpenTmp(_, _) => SaveStepKeepsAccount(s, a);
      case FillTmp(_, _) => SaveStepKeepsAccount(s, a);
      case RenameTmp(_, _) => SaveStepKeepsAccount(s, a);
      case _ => OtherStepKeepsAccount(s, a);
    }
  }

  lemma {:induction false} WakeupsAlwaysAddUp(s: System, acts: seq<Action>)
    requires WellFormed(s) && WakeupsAddUp(s)
    ensures WakeupsAddUp(Exec(s, acts))
    decreases |acts|
  {
    if acts != [] {
      StepKeepsWakeups(s, acts[0]);
      WakeupsAlwaysAddUp(Apply(s, acts[0]), acts[1..]);
    }
  }

  /**
   Since the last start, the messages sent and those about to be are exactly one per
   tick and one per rollover by the resetter, failed saves or not.
   */
  lemma OneMessagePerChange(d: U32, disk: Disk, cloned: set<View>, today: Date, active: set<Name>, acts: seq<Action>)
    requires disk.Valid()
    ensures var s := Exec(Boot(d, disk, cloned, today, active), acts);
            s.sent + Unsent(s) == Due(s.trail.base, s.trail.log)
  {
    WakeupsAlwaysAddUp(Boot(d, disk, cloned, today, active), acts);
  }

  /** Once the publishers have sent and the subscriber has caught up, it shows the truth. */
  lemma QuietMeansCurrent(d: U32, disk: Disk, cloned: set<View>, today: Date, active: set<Name>,
                          acts: seq<Action>, id: nat)
    requires disk.Valid()
    requires var s := Exec(Boot(d, disk, cloned, today, active), acts);
             id in s.subs && !Publishing(s) && s.subs[id].phase.Waiting? && s.subs[id].next == s.sent
    ensures var s := Exec(Boot(d, disk, cloned, today, active), acts);
            UpToDate(s, s.subs[id])
  {
    var s0 := Boot(d, disk, cloned, today, active);
    AllStayCovered(s0, acts);
  }

  /**
   It matters that the receiver is minted before the first status is computed: the
   other way round, one tick in between leaves a subscriber with nothing to read
   and an old status, until something else happens.
   */
  lemma ComputingBeforeMintingLosesAWakeup(codec: Codec, d: U32, name: Name, today: Date)
    requires 0 < d
    ensures var s0 := Saves.FirstBoot(codec, d, today);
            var s := Exec(s0, Saves.TickUpToOpen(name, today) + Saves.RestOfRound());
            var early := Computed(MintReceiver(s0, name), s0.mem);
            var late := early.(next := MintReceiver(s, name).next);
            !Publishing(s) && Covered(s, early) && !Covered(s, late)
  {
    var s0 := Saves.FirstBoot(codec, d, today);
    var s1 := Saves.OneTick(s0, name, today);
    var s := Saves.OneSave(s1, name, 0);
    Saves.ExecAppend(s0, Saves.TickUpToOpen(name, today), Saves.RestOfRound());
    assert Used(s0.mem, name) == 0 && Used(s.mem, name) == d;
  }

  // ---- Catching up ----------------------------------------------------------

  /** How many receive-and-compute rounds drain what is unread. */
  function Backlog(s: System, id: nat): nat
    requires id in s.subs && s.subs[id].next <= s.sent
  {
    var unread := s.sent - s.subs[id].next;
    if unread > TICK_BROADCAST_CAPACITY then TICK_BROADCAST_CAPACITY + 1 else unread
  }

  /** One receive and one compute by subscriber `id`, `n` times over. */
  function Rounds(id: nat, n: nat): seq<Action> {
    if n == 0 then [] else [Receive(id), Compute(id)] + Rounds(id, n - 1)
  }

  /**
   However far behind, a waiting subscriber is drained by at most 65 of its own
   rounds, lag notice included, and each of its rounds ends with a view that was
   current when computed.
   */
  lemma {:induction false} LaggardCatchesUp(s: System, id: nat)
    requires WellFormed(s) && id in s.subs
    requires s.subs[id].next <= s.sent && s.subs[id].phase.Waiting?
    ensures Backlog(s, id) == if s.sent - s.subs[id].next > 64 then 65 else s.sent - s.subs[id].next
    ensures var s' := Exec(s, Rounds(id, Backlog(s, id)));
            && s'.mem == s.mem && s'.sent == s.sent && id in s'.subs
            && s'.subs[id].next == s.sent && s'.subs[id].phase.Waiting?
            && (Backlog(s, id) > 0 ==> UpToDate(s', s'.subs[id]))
    decreases Backlog(s, id)
  {
    var n := Backlog(s, id);
    if n > 0 {
      var acts := Rounds(id, n);
      var s1 := Apply(s, Receive(id));
      var s2 := Apply(s1, Compute(id));
      assert acts[0] == Receive(id) && acts[1..][0] == Compute(id);
      assert acts[1..][1..] == Rounds(id, n - 1);
      assert Exec(s, acts) == Exec(s2, Rounds(id, n - 1));
      assert Backlog(s2, id) == n - 1;
      assert UpToDate(s2, s2.subs[id]);
      LaggardCatchesUp(s2, id);
      if n == 1 {
        assert Rounds(id, 0) == [];
      }
    }
  }
}
