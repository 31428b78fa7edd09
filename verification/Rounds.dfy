/** A ticker round together with the enforcement pass that ends it. */
module Rounds {
  import opened Common
  import opened Config
  import opened Counters
  import opened History
  import opened Storage
  import opened Engine
  import opened Tallies
  import opened Enforcement
  import opened Kicks
  import Daemon

  /** The pass is handed this snapshot, and in it the user has used up their limit. */
  predicate HandedOverLimit(p: Pass, active: set<Name>, snap: View, name: Name) {
    && p.active == active && p.counters == snap.counters
    && name in active && name in p.uids && name in p.cfg.users
    && LimitSeconds(p.cfg.users[name]) <= Used(snap, name)
  }

  /** A pass acts on a user who has used up their limit exactly if the uid's back-off is over. */
  lemma OverLimitIsActedOn(log: seq<Act>, passes: seq<Pass>, i: nat, active: set<Name>, snap: View, name: Name)
    requires RunOk(log, passes) && i < |passes| && HandedOverLimit(passes[i], active, snap, name)
    ensures var p := passes[i];
            && p.from <= p.to <= |log|
            && (ActsOn(log, p, p.uids[name]) <==>
                  !BackingOff(Lookup(Stamps(log[..p.from]), p.uids[name]), p.now))
  {
    var p := passes[i];
    PassBounds(log, passes, i);
    assert p.Decision(name, None).Kick?;
    ActsExactlyAfterBackoff(log, passes, i, p.uids[name]);
  }

  /**
   Under any schedule, the first pass of a day that is handed a user at or over
   their limit finds less than one tick over it, and acts on that user unless their
   uid is backing off.
   */
  lemma FirstOverLimitIsActedOn(s0: System, acts: seq<Action>, k: nat, name: Name,
                                log: seq<Act>, passes: seq<Pass>, i: nat)
    requires WellFormed(s0) && IsHistory(s0) && RunOk(log, passes) && i < |passes|
    requires var s := Exec(s0, acts);
             s.ticker.TickerEnforcing? && HandedOverLimit(passes[i], s.ticker.active, s.ticker.snap, name)
    requires var s := Exec(s0, acts);
             var sections, limit := TickerLog(s.trail), LimitSeconds(passes[i].cfg.users[name]);
             && 0 < limit && k < |sections| && DayFrom(s.trail.base, sections, k)
             && Carried(s.trail.base, sections, k, name) < limit
             && UnderLimitSoFar(s.trail.base, sections, s.d, k, name, limit)
    ensures var s, p := Exec(s0, acts), passes[i];
            var limit := LimitSeconds(p.cfg.users[name]);
            && limit <= Used(s.ticker.snap, name) < limit + s.d
            && p.from <= p.to <= |log|
            && (ActsOn(log, p, p.uids[name]) <==>
                  !BackingOff(Lookup(Stamps(log[..p.from]), p.uids[name]), p.now))
  {
    var s := Exec(s0, acts);
    FirstOvershootIsUnderOneTick(s0, acts, k, name, LimitSeconds(passes[i].cfg.users[name]));
    OverLimitIsActedOn(log, passes, i, s.ticker.active, s.ticker.snap, name);
  }

  /**
   One whole round of the ticker: day check, tick, save, wake-up, and a pass over
   the very counters just saved. Everybody who was at the console, has a uid and has
   used up their limit is acted on, unless that uid is backing off.
   */
  method Round(daemon: Daemon.Daemon, enforcer: Enforcer, world: World, cfg: Config, active: set<Name>, today: Date)
    requires daemon.Valid() && daemon.files.codec.Valid() && daemon.ticker.TickerIdle?
    requires enforcer.Valid(world.clock)
    modifies daemon, daemon.state, daemon.files, enforcer, world
    ensures daemon.Valid() && daemon.ticker.TickerIdle? && daemon.sent == old(daemon.sent) + 1
    ensures daemon.state.Contents() == Ticked(Rolled(old(daemon.state.Contents()), today), active, daemon.d)
    ensures enforcer.Valid(world.clock) && |enforcer.passes| == |old(enforcer.passes)| + 1
    ensures var p := enforcer.passes[|old(enforcer.passes)|];
            && p.from <= p.to <= |enforcer.log|
            && forall name :: HandedOverLimit(p, active, daemon.state.Contents(), name) ==>
                 (ActsOn(enforcer.log, p, p.uids[name]) <==>
                    !BackingOff(Lookup(Stamps(enforcer.log[..p.from]), p.uids[name]), p.now))
    ensures var p := enforcer.passes[|old(enforcer.passes)|];
            && p.cfg == cfg && p.active == active && p.counters == daemon.state.Contents().counters
            && forall name :: name in active ==> Resolved(world, old(world.lookups), world.lookups, p.uids, name)
  {
    daemon.TickerRound(active, today);
    ghost var snap := daemon.state.Contents();
    enforcer.Step(cfg, daemon.ticker.active, daemon.ticker.snap.counters, world);
    daemon.FinishRound();
    ghost var i := |old(enforcer.passes)|;
    PassBounds(enforcer.log, enforcer.passes, i);
    forall name | HandedOverLimit(enforcer.passes[i], active, snap, name)
      ensures var p := enforcer.passes[i];
              ActsOn(enforcer.log, p, p.uids[name]) <==>
                !BackingOff(Lookup(Stamps(enforcer.log[..p.from]), p.uids[name]), p.now)
    {
      OverLimitIsActedOn(enforcer.log, enforcer.passes, i, active, snap, name);
    }
  }
}
