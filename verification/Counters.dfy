/**
 The daemon's per-user counters (crates/daemon/src/state.rs): the mutable
 object both tasks share, and the value it holds.
 */
module Counters {
  import opened Common
  import opened Config

  /** A local calendar date, as a day number. */
  type Date = int

  /** Seconds counted per user; a missing entry counts as zero. */
  type Tally = map<Name, U32>

  /** Everything the shared object holds, as one value. */
  datatype View = View(day: Option<Date>, counters: Tally, active: set<Name>)

  const EMPTY: View := View(None, map[], {})

  function Used(v: View, name: Name): U32 {
    if name in v.counters then v.counters[name] else 0
  }

  predicate IsActive(v: View, name: Name) {
    name in v.active
  }

  /** The view after the day check. */
  function Rolled(v: View, today: Date): View {
    if v.day == Some(today) then v else v.(day := Some(today), counters := map[])
  }

  /** The view after every user in `users` was credited `delta` seconds. */
  function Credited(c: Tally, users: set<Name>, delta: U32): Tally {
    map u | u in c.Keys + users ::
      if u in users then WrappingAdd(if u in c then c[u] else 0, delta) else c[u]
  }

  function Ticked(v: View, users: set<Name>, delta: U32): View {
    v.(counters := Credited(v.counters, users, delta), active := users)
  }

  /** What survives in the state file: the active set is not written. */
  function Persisted(v: View): View {
    v.(active := {})
  }

  class State {
    var day: Option<Date>
    var counters: Tally
    var activeNow: set<Name>

    ghost function Contents(): View
      reads this
    {
      View(day, counters, activeNow)
    }

    constructor (v: View)
      ensures Contents() == v
    {
      day := v.day;
      counters := v.counters;
      activeNow := v.active;
    }

    /** Zeroes the counters when the date differs from the stored day. */
    method ResetIfNewDay(today: Date) returns (rolled: bool)
      modifies this
      ensures Contents() == Rolled(old(Contents()), today)
      ensures rolled <==> old(day) != Some(today)
      ensures !rolled ==> Contents() == old(Contents())
      ensures rolled ==> forall u :: Used(Contents(), u) == 0
      ensures day == Some(today) && activeNow == old(activeNow)
    {
      match day {
        case Some(d) =>
          if d == today {
            return false;
          }
        case None =>
      }
      day := Some(today);
      counters := map[];
      rolled := true;
    }

    /** Credits every active user, one by one, then replaces the active set. */
    method Tick(active: set<Name>, delta: U32)
      modifies this
      ensures Contents() == Ticked(old(Contents()), active, delta)
      ensures forall u :: u in active ==>
                Used(Contents(), u) == WrappingAdd(old(Used(Contents(), u)), delta)
      ensures forall u :: u !in active ==> Used(Contents(), u) == old(Used(Contents(), u))
      ensures forall u :: u in activeNow <==> u in active
      ensures day == old(day)
    {
      var todo := active;
      ghost var done: set<Name> := {};
      while todo != {}
        invariant done + todo == active && done !! todo
        invariant day == old(day) && activeNow == old(activeNow)
        invariant counters == Credited(old(counters), done, delta)
        decreases todo
      {
        var user :| user in todo;
        var before := if user in counters then counters[user] else 0;
        counters := counters[user := WrappingAdd(before, delta)];
        todo := todo - {user};
        done := done + {user};
      }
      assert done == active;
      activeNow := active;
    }

    method Clone() returns (v: View)
      ensures v == Contents()
    {
      v := View(day, counters, activeNow);
    }
  }
}
