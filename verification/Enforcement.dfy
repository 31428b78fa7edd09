/**
 Enforcement (crates/daemon/src/enforcement.rs): the pure decision, the enforcer
 that remembers when it last kicked each uid, and the logout escalation.
 */
module Enforcement {
  import opened Common
  import opened Config
  import opened Counters
  import Status

  type Uid = U32

  /** The monotonic clock, in milliseconds. */
  type Millis = nat

  const BOOTOUT_BACKOFF: Millis := 10_000
  const SETTLE_AFTER_BOOTOUT: Millis := 1_000

  // ---- The decision ---------------------------------------------------------------

  datatype KickReason = LimitReached | BlockedByDefaultPolicy

  datatype Decision = NoOp | Kick(reason: KickReason)

  /** `Instant::duration_since`: zero when the other instant is later. */
  function DurationSince(now: Millis, t: Millis): Millis {
    if t <= now then now - t else 0
  }

  predicate BackingOff(lastKicked: Option<Millis>, now: Millis) {
    lastKicked.Some? && DurationSince(now, lastKicked.value) < BOOTOUT_BACKOFF
  }

  function Decide(cfg: Config, name: Name, used: U32, lastKicked: Option<Millis>, now: Millis): Decision {
    if BackingOff(lastKicked, now) then NoOp
    else
      match cfg.UserByName(name)
      case Some(minutes) => if used >= LimitSeconds(minutes) then Kick(LimitReached) else NoOp
      case None => if cfg.defaultPolicy.Block? then Kick(BlockedByDefaultPolicy) else NoOp
  }

  /** A kick of a uid stamped at `t` comes no sooner than the whole back-off later. */
  lemma KickMeansBackoffOver(cfg: Config, name: Name, used: U32, t: Millis, now: Millis)
    requires Decide(cfg, name, used, Some(t), now).Kick?
    ensures t + BOOTOUT_BACKOFF <= now && BOOTOUT_BACKOFF == 10 * 1000
  {
  }

  /**
   What the user is told and what enforcement does agree: a status says the limit
   is reached exactly when the decision, back-off aside, is to kick for the limit,
   and a user told they are not configured is kicked for the policy alone.
   */
  lemma StatusAgreesWithDecision(name: Name, uid: Uid, cfg: Config, v: View, resetsAt: Status.Instant, now: Millis)
    ensures var st := Status.ComputeStatus(name, uid, cfg, v, resetsAt);
            var decision := Decide(cfg, name, Used(v, name), None, now);
            && (st.state == Status.LimitReached <==> decision == Kick(LimitReached))
            && (st.state == Status.NotConfigured && cfg.defaultPolicy.Block?
                <==> decision == Kick(BlockedByDefaultPolicy))
            && (st.remainingSeconds <= 0 && st.state != Status.NotConfigured <==> decision == Kick(LimitReached))
  {
  }

  // ---- The outside world ------------------------------------------------------------

  datatype Tool = BootoutGui | BootoutUser | KillProcesses

  datatype Op = RunTool(tool: Tool, uid: Uid) | Settle(time: Millis) | QueryConsole

  /**
   Everything enforcement asks or does outside: answers are arbitrary, one per
   question, and every side effect is recorded in order.
   */
  class World {
    const drift: nat -> Millis
    const uidOf: (nat, Name) -> Option<Uid>
    const killSwitch: nat -> bool
    const toolResult: nat -> Option<bool>
    const consoleUsers: nat -> set<Name>
    var clock: Millis
    var clockReads: nat
    var lookups: nat
    var checks: nat
    var runs: nat
    var queries: nat
    var ops: seq<Op>

    constructor (toolResult: nat -> Option<bool>, consoleUsers: nat -> set<Name>)
      ensures this.toolResult == toolResult && this.consoleUsers == consoleUsers
      ensures ops == [] && runs == 0 && queries == 0
    {
      this.drift, this.uidOf, this.killSwitch := n => 0, (n, name) => None, n => false;
      this.toolResult, this.consoleUsers := toolResult, consoleUsers;
      clock, clockReads, lookups, checks, runs, queries, ops := 0, 0, 0, 0, 0, 0, [];
    }

    method Now() returns (now: Millis)
      modifies this`clock, this`clockReads
      ensures now == clock && old(clock) <= clock
    {
      clock := clock + drift(clockReads);
      clockReads := clockReads + 1;
      now := clock;
    }

    method ResolveUid(name: Name) returns (uid: Option<Uid>)
      modifies this`lookups
      ensures uid == uidOf(old(lookups), name) && lookups == old(lookups) + 1
    {
      uid := uidOf(lookups, name);
      lookups := lookups + 1;
    }

    method KillSwitchExists() returns (present: bool)
      modifies this`checks
      ensures present == killSwitch(old(checks)) && checks == old(checks) + 1
    {
      present := killSwitch(checks);
      checks := checks + 1;
    }

    /** `None` is a failure to spawn or a timeout; otherwise the exit status. */
    method Run(tool: Tool, uid: Uid) returns (success: Option<bool>)
      modifies this`ops, this`runs
      ensures ops == old(ops) + [RunTool(tool, uid)]
      ensures success == toolResult(old(runs)) && runs == old(runs) + 1
    {
      ops := ops + [RunTool(tool, uid)];
      success := toolResult(runs);
      runs := runs + 1;
    }

    method Sleep(time: Millis)
      modifies this`ops, this`clock
      ensures ops == old(ops) + [Settle(time)] && clock == old(clock) + time
    {
      ops := ops + [Settle(time)];
      clock := clock + time;
    }

    method ConsoleUsers() returns (users: set<Name>)
      modifies this`ops, this`queries
      ensures ops == old(ops) + [QueryConsole]
      ensures users == consoleUsers(old(queries)) && queries == old(queries) + 1
    {
      ops := ops + [QueryConsole];
      users := consoleUsers(queries);
      queries := queries + 1;
    }
  }

  // ---- Logout escalation --------------------------------------------------------------

  /** The first query after the bootouts still lists the user. */
  predicate StillListed(world: World, name: Name, queries: nat) {
    name in world.consoleUsers(queries)
  }

  /** The calls of one escalation that starts after `runs` tool runs and `queries` queries. */
  function EscalationOps(world: World, name: Name, uid: Uid, runs: nat, queries: nat): seq<Op> {
    [RunTool(BootoutGui, uid), RunTool(BootoutUser, uid), Settle(SETTLE_AFTER_BOOTOUT), QueryConsole]
    + (if !StillListed(world, name, queries) then []
       else [RunTool(KillProcesses, uid)]
            + if world.toolResult(runs + 2) == Some(false) then [QueryConsole] else [])
  }

  /** A query showed the user gone, or the kill reported a match. */
  predicate EscalationSucceeds(world: World, name: Name, runs: nat, queries: nat) {
    || !StillListed(world, name, queries)
    || world.toolResult(runs + 2) == Some(true)
    || (world.toolResult(runs + 2) == Some(false) && name !in world.consoleUsers(queries + 1))
  }

  /** How often these calls ask who is at the console. */
  function Queries(ops: seq<Op>): nat {
    if ops == [] then 0 else (if ops[0].QueryConsole? then 1 else 0) + Queries(ops[1..])
  }

  /** One of the queries an escalation makes finds the user gone. */
  ghost predicate SeenGone(world: World, name: Name, uid: Uid, runs: nat, queries: nat) {
    exists q :: queries <= q < queries + Queries(EscalationOps(world, name, uid, runs, queries))
                && name !in world.consoleUsers(q)
  }

  lemma {:induction false} QueriesOfConcat(a: seq<Op>, b: seq<Op>)
    ensures Queries(a + b) == Queries(a) + Queries(b)
  {
    if a == [] {
      assert a + b == b;
    } else {
      assert (a + b)[1..] == a[1..] + b;
      QueriesOfConcat(a[1..], b);
    }
  }

  lemma EscalationQueries(world: World, name: Name, uid: Uid, runs: nat, queries: nat)
    ensures Queries(EscalationOps(world, name, uid, runs, queries))
         == if StillListed(world, name, queries) && world.toolResult(runs + 2) == Some(false) then 2 else 1
  {
    var first := [RunTool(BootoutGui, uid), RunTool(BootoutUser, uid), Settle(SETTLE_AFTER_BOOTOUT), QueryConsole];
    var asked := if world.toolResult(runs + 2) == Some(false) then [QueryConsole] else [];
    var last := if !StillListed(world, name, queries) then [] else [RunTool(KillProcesses, uid)] + asked;
    assert Queries(first) == 1 by {
      assert first[1..] == [RunTool(BootoutUser, uid), Settle(SETTLE_AFTER_BOOTOUT), QueryConsole];
      assert first[1..][1..] == [Settle(SETTLE_AFTER_BOOTOUT), QueryConsole];
      assert first[1..][1..][1..] == [QueryConsole] && first[1..][1..][1..][1..] == [];
      assert Queries(first[1..][1..][1..]) == 1 && Queries(first[1..][1..]) == 1 && Queries(first[1..]) == 1;
    }
    QueriesOfConcat(first, last);
    QueriesOfConcat([RunTool(KillProcesses, uid)], asked);
  }

  /**
   `Ok` is documented to mean that the user is gone. An escalation succeeds exactly
   if one of its own queries found the user gone or the kill reported a match after
   the first query still listed them; so a success was seen to be true in every case
   but that last one, in every world.
   */
  lemma SuccessIsSeenExactlyWhen(world: World, name: Name, uid: Uid, runs: nat, queries: nat)
    ensures var byReport := StillListed(world, name, queries) && world.toolResult(runs + 2) == Some(true);
            && (EscalationSucceeds(world, name, runs, queries) <==>
                  SeenGone(world, name, uid, runs, queries) || byReport)
            && (EscalationSucceeds(world, name, runs, queries) ==>
                  (SeenGone(world, name, uid, runs, queries) <==> !byReport))
  {
    EscalationQueries(world, name, uid, runs, queries);
    if EscalationSucceeds(world, name, runs, queries) {
      if !StillListed(world, name, queries) {
        assert name !in world.consoleUsers(queries);
      } else if world.toolResult(runs + 2) == Some(false) {
        assert name !in world.consoleUsers(queries + 1);
      }
    }
  }

  /**
   Both bootouts come first, one settle follows, and the kill is the last resort:
   issued exactly when the first query still lists the user.
   */
  lemma KillIsTheLastResort(world: World, name: Name, uid: Uid, runs: nat, queries: nat)
    ensures var ops := EscalationOps(world, name, uid, runs, queries);
            && 4 <= |ops| <= 6 && ops[0] == RunTool(BootoutGui, uid) && ops[1] == RunTool(BootoutUser, uid)
            && ops[2] == Settle(1000) && ops[3] == QueryConsole
            && (forall i :: 0 <= i < |ops| ==> (ops[i].Settle? <==> i == 2))
            && (forall i :: 0 <= i < |ops| && ops[i] == RunTool(KillProcesses, uid) ==> i == 4)
            && (RunTool(KillProcesses, uid) in ops <==> StillListed(world, name, queries))
  {
    var ops := EscalationOps(world, name, uid, runs, queries);
    if StillListed(world, name, queries) {
      assert ops[4] == RunTool(KillProcesses, uid);
    }
  }

  method ForceLogout(world: World, name: Name, uid: Uid) returns (ok: bool)
    modifies world`ops, world`runs, world`queries, world`clock
    ensures old(world.clock) + SETTLE_AFTER_BOOTOUT <= world.clock
    ensures world.ops == old(world.ops) + EscalationOps(world, name, uid, old(world.runs), old(world.queries))
    ensures ok <==> EscalationSucceeds(world, name, old(world.runs), old(world.queries))
  {
    var gui := world.Run(BootoutGui, uid);
    var user := world.Run(BootoutUser, uid);
    world.Sleep(SETTLE_AFTER_BOOTOUT);
    var stillActive := world.ConsoleUsers();
    if name !in stillActive {
      return true;
    }
    var killed := world.Run(KillProcesses, uid);
    match killed {
      case None =>
        return false;
      case Some(success) =>
        if !success {
          var after := world.ConsoleUsers();
          if name in after {
            return false;
          }
        }
    }
    return true;
  }

  /**
   A world in which the kill reports a match and the session survives: the
   escalation succeeds, and the very next query still lists the user.
   */
  method SuccessWithoutLeaving(name: Name, uid: Uid) returns (world: World, ok: bool, after: set<Name>)
    ensures ok && name in after && fresh(world)
    ensures !SeenGone(world, name, uid, 0, 0)
  {
    world := new World(n => Some(true), n => {name});
    ok := ForceLogout(world, name, uid);
    EscalationQueries(world, name, uid, 0, 0);
    after := world.ConsoleUsers();
  }

  // ---- Passes -------------------------------------------------------------------------

  /** How one decision to kick ended. */
  datatype Outcome = Refused | Pretended(at: Millis) | LoggedOut(at: Millis) | Failed
  {
    predicate Stamps() { Pretended? || LoggedOut? }
  }

  /** One decision to kick, with the instant its pass started. */
  datatype Act = Act(name: Name, uid: Uid, now: Millis, outcome: Outcome)

  /** The stamps a log of acts leaves behind. */
  function Stamps(log: seq<Act>): map<Uid, Millis> {
    if log == [] then map[]
    else
      var before, a := Stamps(log[..|log| - 1]), log[|log| - 1];
      if a.outcome.Stamps() then before[a.uid := a.outcome.at] else before
  }

  function Lookup(m: map<Uid, Millis>, uid: Uid): Option<Millis> {
    if uid in m then Some(m[uid]) else None
  }

  /** One enforcement pass: its inputs, and where its acts lie in the log. */
  datatype Pass = Pass(
    cfg: Config,
    active: set<Name>,
    counters: Tally,
    now: Millis,
    uids: map<Name, Uid>,
    from: nat,
    to: nat)
  {
    function Decision(name: Name, lastKicked: Option<Millis>): Decision {
      Decide(cfg, name, if name in counters then counters[name] else 0, lastKicked, now)
    }
  }

  /** An act its pass had reason for, stamped no earlier than the pass began. */
  predicate Justified(log: seq<Act>, p: Pass, i: nat)
    requires i < |log|
  {
    var a := log[i];
    && a.name in p.active && a.name in p.uids && a.uid == p.uids[a.name] && a.now == p.now
    && p.Decision(a.name, Lookup(Stamps(log[..i]), a.uid)).Kick?
    && (a.outcome.Stamps() ==> p.now <= a.outcome.at)
    && (a.outcome.Pretended? ==> p.cfg.enforcement.Log?)
    && (a.outcome.LoggedOut? || a.outcome.Failed? ==> p.cfg.enforcement.Logout?)
  }

  predicate ActsOn(log: seq<Act>, p: Pass, uid: Uid)
    requires p.from <= p.to <= |log|
  {
    exists i :: p.from <= i < p.to && log[i].uid == uid
  }

  /** Every act is justified, and nobody who should be acted on is passed over. */
  predicate PassOk(log: seq<Act>, p: Pass) {
    && p.from <= p.to <= |log|
    && (forall i :: p.from <= i < p.to ==> Justified(log, p, i))
    && (forall name :: name in p.active && name in p.uids
          && p.Decision(name, Lookup(Stamps(log[..p.from]), p.uids[name])).Kick?
          ==> ActsOn(log, p, p.uids[name]))
  }

  /** A whole run: consecutive passes that account for the entire log. */
  predicate RunOk(log: seq<Act>, passes: seq<Pass>) {
    && (forall k :: 0 <= k < |passes| ==> PassOk(log, passes[k]))
    && (passes != [] ==> passes[0].from == 0)
    && (forall j, k :: 0 <= j < |passes| && 0 <= k < |passes| && k == j + 1 ==> passes[k].from == passes[j].to)
    && |log| == (if passes == [] then 0 else passes[|passes| - 1].to)
    && (forall j, k :: 0 <= j <= k < |passes| ==> passes[j].now <= passes[k].now)
  }

  /** The pass so far, over the names in `p.uids` only. */
  ghost predicate PassSoFar(log: seq<Act>, p: Pass) {
    && p.from <= p.to == |log| && p.uids.Keys <= p.active
    && (forall i :: p.from <= i < p.to ==> Justified(log, p, i))
    && (forall name :: name in p.uids
          && p.Decision(name, Lookup(Stamps(log[..p.from]), p.uids[name])).Kick?
          ==> ActsOn(log, p, p.uids[name]))
    && (forall uid :: Lookup(Stamps(log[..p.from]), uid) == Lookup(Stamps(log), uid) || ActsOn(log, p, uid))
  }

  /** Deciding not to act is right: either nothing changed or the uid was acted on. */
  lemma PassOver(log: seq<Act>, p: Pass, name: Name, uid: Uid)
    requires PassSoFar(log, p) && name in p.active && name !in p.uids
    requires p.Decision(name, Lookup(Stamps(log), uid)).NoOp?
    ensures PassSoFar(log, p.(uids := p.uids[name := uid]))
  {
    var p' := p.(uids := p.uids[name := uid]);
    assert forall i :: p.from <= i < p.to && Justified(log, p, i) ==> Justified(log, p', i);
    assert forall u :: ActsOn(log, p, u) ==> ActsOn(log, p', u);
  }

  predicate Fitting(p: Pass, a: Act) {
    && a.name in p.active && a.now == p.now
    && (a.outcome.Stamps() ==> p.now <= a.outcome.at)
    && (a.outcome.Pretended? ==> p.cfg.enforcement.Log?)
    && (a.outcome.LoggedOut? || a.outcome.Failed? ==> p.cfg.enforcement.Logout?)
  }

  function WithAct(p: Pass, a: Act): Pass {
    p.(uids := p.uids[a.name := a.uid], to := p.to + 1)
  }

  lemma JustifiedStays(log: seq<Act>, p: Pass, a: Act, i: nat)
    requires i < |log| && Justified(log, p, i) && a.name !in p.uids
    ensures Justified(log + [a], WithAct(p, a), i)
  {
    assert (log + [a])[..i] == log[..i];
  }

  lemma ActsOnStays(log: seq<Act>, p: Pass, a: Act, uid: Uid)
    requires p.from <= p.to == |log|
    requires ActsOn(log, p, uid) || uid == a.uid
    ensures ActsOn(log + [a], WithAct(p, a), uid)
  {
    if ActsOn(log, p, uid) {
      var i :| p.from <= i < p.to && log[i].uid == uid;
      assert (log + [a])[i].uid == uid;
    } else {
      assert (log + [a])[|log|].uid == uid;
    }
  }

  lemma StampsAfterAct(log: seq<Act>, a: Act, uid: Uid)
    ensures uid != a.uid ==> Lookup(Stamps(log + [a]), uid) == Lookup(Stamps(log), uid)
  {
    assert (log + [a])[..|log|] == log;
  }

  /** Acting on the decision keeps the pass in order. */
  lemma Proceed(log: seq<Act>, p: Pass, a: Act)
    requires PassSoFar(log, p) && Fitting(p, a) && a.name !in p.uids
    requires p.Decision(a.name, Lookup(Stamps(log), a.uid)).Kick?
    ensures PassSoFar(log + [a], WithAct(p, a))
  {
    var p', log' := WithAct(p, a), log + [a];
    assert log'[..p.from] == log[..p.from];
    forall i | p.from <= i < p'.to
      ensures Justified(log', p', i)
    {
      if i < p.to {
        JustifiedStays(log, p, a, i);
      } else {
        assert log'[..i] == log;
      }
    }
    forall name | name in p'.uids && p'.Decision(name, Lookup(Stamps(log'[..p.from]), p'.uids[name])).Kick?
      ensures ActsOn(log', p', p'.uids[name])
    {
      ActsOnStays(log, p, a, p'.uids[name]);
    }
    forall uid
      ensures Lookup(Stamps(log'[..p.from]), uid) == Lookup(Stamps(log'), uid) || ActsOn(log', p', uid)
    {
      StampsAfterAct(log, a, uid);
      if ActsOn(log, p, uid) || uid == a.uid {
        ActsOnStays(log, p, a, uid);
      }
    }
  }

  lemma AppendPass(log: seq<Act>, log': seq<Act>, passes: seq<Pass>, p: Pass)
    requires RunOk(log, passes) && log <= log' && p.from == |log| && PassSoFar(log', p)
    requires passes != [] ==> passes[|passes| - 1].now <= p.now
    ensures RunOk(log', passes + [p])
  {
    var all := passes + [p];
    forall k | 0 <= k < |all|
      ensures PassOk(log', all[k])
    {
      if k < |passes| {
        var q := passes[k];
        EarlierPassWithin(log, passes, k);
        forall i | q.from <= i < q.to
          ensures Justified(log', q, i)
        {
          assert log'[..i] == log[..i] && log'[i] == log[i] && Justified(log, q, i);
        }
        assert log'[..q.from] == log[..q.from];
        forall u | ActsOn(log, q, u)
          ensures ActsOn(log', q, u)
        {
          var i :| q.from <= i < q.to && log[i].uid == u;
          assert log'[i].uid == u;
        }
      }
    }
  }

  lemma EarlierPassWithin(log: seq<Act>, passes: seq<Pass>, k: nat)
    requires RunOk(log, passes) && k < |passes|
    ensures passes[k].from <= passes[k].to <= |log|
  {
    assert PassOk(log, passes[k]);
  }

  /** Every act from index `from` on met the kill switch. */
  predicate AllRefused(log: seq<Act>, from: nat) {
    forall i :: from <= i < |log| ==> log[i].outcome.Refused?
  }

  /** No act from index `from` on reached the logout tools. */
  predicate AllHarmless(log: seq<Act>, from: nat) {
    forall i :: from <= i < |log| ==> log[i].outcome.Refused? || log[i].outcome.Pretended?
  }

  /** Checks `from` up to `to` all found the kill switch. */
  ghost predicate AllPaused(world: World, from: nat, to: nat) {
    forall n :: from <= n < to ==> world.killSwitch(n)
  }

  /** Some lookup of the pass answered what `uids` records for this name. */
  ghost predicate Resolved(world: World, from: nat, to: nat, uids: map<Name, Uid>, name: Name) {
    exists n :: from <= n < to && world.uidOf(n, name) == if name in uids then Some(uids[name]) else None
  }

  lemma ResolvedStays(world: World, from: nat, mid: nat, to: nat, uids: map<Name, Uid>,
                     uids': map<Name, Uid>, name: Name)
    requires from <= mid <= to && Resolved(world, from, mid, uids, name)
    requires name in uids' <==> name in uids
    requires name in uids ==> uids'[name] == uids[name]
    ensures Resolved(world, from, to, uids', name)
  {
    var n :| from <= n < mid && world.uidOf(n, name) == if name in uids then Some(uids[name]) else None;
    assert world.uidOf(n, name) == if name in uids' then Some(uids'[name]) else None;
  }

  class Enforcer {
    var lastKicked: map<Uid, Millis>
    ghost var log: seq<Act>
    ghost var passes: seq<Pass>

    ghost predicate Valid(clock: Millis)
      reads this
    {
      && RunOk(log, passes)
      && lastKicked == Stamps(log)
      && (passes != [] ==> passes[|passes| - 1].now <= clock)
    }

    constructor ()
      ensures Valid(0) && log == [] && passes == []
    {
      lastKicked, log, passes := map[], [], [];
    }

    /** Walks every active user, decides, and acts where the decision is to kick. */
    method Step(cfg: Config, active: set<Name>, counters: Tally, world: World)
      requires Valid(world.clock)
      modifies this, world
      ensures Valid(world.clock)
      ensures old(log) <= log && |passes| == |old(passes)| + 1 && passes[..|old(passes)|] == old(passes)
      ensures old(world.checks) <= world.checks
      ensures var p := passes[|old(passes)|];
              && p.cfg == cfg && p.active == active && p.counters == counters
              && forall name :: name in active ==> Resolved(world, old(world.lookups), world.lookups, p.uids, name)
      ensures AllPaused(world, old(world.checks), world.checks) ==> AllRefused(log, |old(log)|)
      ensures AllHarmless(log, |old(log)|) ==> world.ops == old(world.ops)
    {
      var now := world.Now();
      ghost var p := Walk(cfg, active, counters, now, world);
      AppendPass(old(log), log, passes, p);
      passes := passes + [p];
    }

    /** The loop over the active users. */
    method Walk(cfg: Config, active: set<Name>, counters: Tally, now: Millis, world: World) returns (ghost p: Pass)
      requires lastKicked == Stamps(log) && now <= world.clock
      modifies this`lastKicked, this`log, world
      ensures lastKicked == Stamps(log) && now <= world.clock && old(log) <= log
      ensures p == Pass(cfg, active, counters, now, p.uids, |old(log)|, |log|) && PassSoFar(log, p)
      ensures old(world.checks) <= world.checks
      ensures forall name :: name in active ==> Resolved(world, old(world.lookups), world.lookups, p.uids, name)
      ensures AllPaused(world, old(world.checks), world.checks) ==> AllRefused(log, |old(log)|)
      ensures AllHarmless(log, |old(log)|) ==> world.ops == old(world.ops)
    {
      p := Pass(cfg, active, counters, now, map[], |log|, |log|);
      assert log[..|log|] == log;
      var todo := active;
      while todo != {}
        invariant p == Pass(cfg, active, counters, now, p.uids, |old(log)|, |log|)
        invariant todo <= active && p.uids.Keys !! todo
        invariant old(log) <= log && lastKicked == Stamps(log) && now <= world.clock
        invariant PassSoFar(log, p)
        invariant forall name :: name in active - todo ==>
                    Resolved(world, old(world.lookups), world.lookups, p.uids, name)
        invariant old(world.lookups) <= world.lookups && old(world.checks) <= world.checks
        invariant AllPaused(world, old(world.checks), world.checks) ==> AllRefused(log, |old(log)|)
        invariant AllHarmless(log, |old(log)|) ==> world.ops == old(world.ops)
        decreases todo
      {
        var name :| name in todo;
        ghost var before, lookups := p, world.lookups;
        p := Consider(cfg, counters, name, now, world, p);
        forall other | other in active - todo
          ensures Resolved(world, old(world.lookups), world.lookups, p.uids, other)
        {
          ResolvedStays(world, old(world.lookups), lookups, world.lookups, before.uids, p.uids, other);
        }
        todo := todo - {name};
      }
    }

    /** One user of a pass: resolve the uid, decide, act. */
    method Consider(cfg: Config, counters: Tally, name: Name, now: Millis, world: World, ghost p: Pass)
      returns (ghost p': Pass)
      requires p.cfg == cfg && p.counters == counters
      requires PassSoFar(log, p) && lastKicked == Stamps(log)
      requires name in p.active && name !in p.uids && p.now == now <= world.clock
      modifies this`lastKicked, this`log, world
      ensures lastKicked == Stamps(log) && now <= world.clock && old(log) <= log
      ensures PassSoFar(log, p') && p.uids.Keys <= p'.uids.Keys <= p.uids.Keys + {name}
      ensures forall other :: other in p.uids ==> p'.uids[other] == p.uids[other]
      ensures old(world.lookups) <= world.lookups
      ensures Resolved(world, old(world.lookups), world.lookups, p'.uids, name)
      ensures p' == p.(uids := p'.uids, to := |log|)
      ensures old(world.checks) <= world.checks
      ensures AllPaused(world, old(world.checks), world.checks) ==> AllRefused(log, |old(log)|)
      ensures AllHarmless(log, |old(log)|) ==> world.ops == old(world.ops)
    {
      p' := p;
      var resolved := world.ResolveUid(name);
      match resolved {
        case None =>
        case Some(uid) =>
          var used := if name in counters then counters[name] else 0;
          var decision := Decide(cfg, name, used, Lookup(lastKicked, uid), now);
          match decision {
            case NoOp =>
              PassOver(log, p, name, uid);
              p' := p.(uids := p.uids[name := uid]);
            case Kick(reason) =>
              ghost var before := log;
              ActOn(cfg, name, uid, now, world);
              ghost var a := log[|before|];
              assert log == before + [a];
              Proceed(before, p, a);
              p' := WithAct(p, a);
          }
      }
    }

    /** The side effect of a decision to kick. Only a success stamps the uid. */
    method ActOn(cfg: Config, name: Name, uid: Uid, ghost now: Millis, world: World)
      requires lastKicked == Stamps(log) && now <= world.clock
      modifies this`lastKicked, this`log, world
      ensures lastKicked == Stamps(log) && now <= world.clock
      ensures |log| == |old(log)| + 1 && log[..|old(log)|] == old(log)
      ensures var a := log[|old(log)|];
              && a.name == name && a.uid == uid && a.now == now
              && (a.outcome.Stamps() ==> now <= a.outcome.at)
              && (a.outcome.Stamps() ==> old(world.clock) <= a.outcome.at <= world.clock)
              && (a.outcome.LoggedOut? ==> old(world.clock) + SETTLE_AFTER_BOOTOUT <= a.outcome.at)
              && (a.outcome.Pretended? ==> cfg.enforcement.Log?)
              && (a.outcome.LoggedOut? || a.outcome.Failed? ==> cfg.enforcement.Logout?)
              && (a.outcome.Refused? <==> world.killSwitch(old(world.checks)))
              && (a.outcome.Refused? || a.outcome.Pretended? ==> world.ops == old(world.ops))
              && (a.outcome.LoggedOut? || a.outcome.Failed? ==>
                    world.ops == old(world.ops) + EscalationOps(world, name, uid, old(world.runs), old(world.queries))
                    && (a.outcome.LoggedOut? <==>
                          EscalationSucceeds(world, name, old(world.runs), old(world.queries))))
      ensures world.lookups == old(world.lookups) && world.checks == old(world.checks) + 1
    {
      ghost var before := log;
      var paused := world.KillSwitchExists();
      if paused {
        log := log + [Act(name, uid, now, Refused)];
        assert log[..|before|] == before;
        return;
      }
      match cfg.enforcement {
        case Log =>
          var t := world.Now();
          lastKicked := lastKicked[uid := t];
          log := log + [Act(name, uid, now, Pretended(t))];
        case Logout =>
          var ok := ForceLogout(world, name, uid);
          if ok {
            var t := world.Now();
            lastKicked := lastKicked[uid := t];
            log := log + [Act(name, uid, now, LoggedOut(t))];
          } else {
            log := log + [Act(name, uid, now, Failed)];
          }
      }
      assert log[..|before|] == before;
    }
  }
}
