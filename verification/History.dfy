/**
 What the counters mean, in terms of the order in which the two tasks took the
 lock. Each locked section carries the date its task had read beforehand; a
 ticker section also credits the users it saw at the console.
 */
module History {
  import opened Common
  import opened Config
  import opened Counters

  /** One locked section: `credit` is present in the ticker's sections only. */
  datatype Section = Section(today: Date, credit: Option<set<Name>>)

  /** The shared state after one locked section. */
  function After(v: View, e: Section, d: U32): View {
    var r := Rolled(v, e.today);
    match e.credit
    case None => r
    case Some(users) => Ticked(r, users, d)
  }

  /** The shared state after a sequence of locked sections. */
  function Replay(base: View, log: seq<Section>, d: U32): View {
    if log == [] then base else After(Replay(base, log[..|log| - 1], d), log[|log| - 1], d)
  }

  /** The day stored just before section `i` runs. */
  function StoredDay(base: View, log: seq<Section>, i: nat): Option<Date>
    requires i <= |log|
  {
    if i == 0 then base.day else Some(log[i - 1].today)
  }

  /** Section `i` carries a date other than the stored day. */
  predicate RollsAt(base: View, log: seq<Section>, i: nat)
    requires i < |log|
  {
    StoredDay(base, log, i) != Some(log[i].today)
  }

  /** No section from index `from` on finds a new date. */
  predicate NoRollFrom(base: View, log: seq<Section>, from: nat) {
    forall i :: from <= i < |log| ==> !RollsAt(base, log, i)
  }

  predicate Names(e: Section, u: Name) {
    e.credit.Some? && u in e.credit.value
  }

  /** How many sections credit `u`. */
  function TicksNaming(log: seq<Section>, u: Name): nat {
    if log == [] then 0
    else TicksNaming(log[..|log| - 1], u) + if Names(log[|log| - 1], u) then 1 else 0
  }

  /** How many sections dated `day` credit `u`. */
  function TicksNamingOn(log: seq<Section>, u: Name, day: Date): nat {
    if log == [] then 0
    else
      var e := log[|log| - 1];
      TicksNamingOn(log[..|log| - 1], u, day) + if e.today == day && Names(e, u) then 1 else 0
  }

  /** Lock order agrees with calendar order, starting from the loaded day. */
  predicate DatesNeverDecrease(base: View, log: seq<Section>) {
    forall i, j :: 0 <= i < j <= |log| && StoredDay(base, log, i).Some? && StoredDay(base, log, j).Some?
      ==> StoredDay(base, log, i).value <= StoredDay(base, log, j).value
  }

  /** Every section leaves its own date stored. */
  lemma ReplayStoresLastDate(base: View, log: seq<Section>, d: U32)
    ensures Replay(base, log, d).day == StoredDay(base, log, |log|)
  {
  }

  /** The length of `n` ticks of `d` seconds; kept additive for the proofs. */
  function Seconds(n: nat, d: U32): nat {
    if n == 0 then 0 else Seconds(n - 1, d) + d
  }

  lemma {:induction false} SecondsIsProduct(n: nat, d: U32)
    ensures Seconds(n, d) == n * d
  {
    if n > 0 {
      SecondsIsProduct(n - 1, d);
    }
  }

  lemma {:induction false} SecondsMonotone(a: nat, b: nat, d: U32)
    requires a <= b
    ensures Seconds(a, d) <= Seconds(b, d)
    decreases b
  {
    if a < b {
      SecondsMonotone(a, b - 1, d);
    }
  }

  lemma WrapSum(a: int, d: U32)
    ensures WrappingAdd(a % U32_MODULUS, d) == (a + d) % U32_MODULUS
  {
  }

  /** A section dated with the stored day adds its tick to the count, modulo the width. */
  lemma SameDayCount(base: View, log: seq<Section>, d: U32, u: Name, count: nat)
    requires log != [] && !RollsAt(base, log, |log| - 1)
    requires Used(Replay(base, log[..|log| - 1], d), u) == count % U32_MODULUS
    ensures Used(Replay(base, log, d), u)
         == (count + if Names(log[|log| - 1], u) then d else 0) % U32_MODULUS
  {
    var init := log[..|log| - 1];
    ReplayStoresLastDate(base, init, d);
    assert StoredDay(base, init, |init|) == StoredDay(base, log, |init|);
    WrapSum(count, d);
  }

  /** A section that finds a new date starts from nothing. */
  lemma NewDayCount(base: View, log: seq<Section>, d: U32, u: Name)
    requires log != [] && RollsAt(base, log, |log| - 1)
    ensures Used(Replay(base, log, d), u) == if Names(log[|log| - 1], u) then d else 0
  {
    var init := log[..|log| - 1];
    ReplayStoresLastDate(base, init, d);
    assert StoredDay(base, init, |init|) == StoredDay(base, log, |init|);
    SmallModulus(d);
  }

  lemma TicksOneMore(log: seq<Section>, k: nat, u: Name)
    requires k < |log|
    ensures TicksNaming(log[k..], u)
         == TicksNaming(log[..|log| - 1][k..], u) + if Names(log[|log| - 1], u) then 1 else 0
  {
    assert log[k..][..|log| - k - 1] == log[..|log| - 1][k..];
    assert log[k..][|log| - k - 1] == log[|log| - 1];
  }

  lemma RollsOfPrefix(base: View, log: seq<Section>, k: nat)
    requires log != [] && k <= |log| && NoRollFrom(base, log, k)
    ensures NoRollFrom(base, log[..|log| - 1], k)
    ensures forall i :: 0 <= i < |log| - 1 ==> RollsAt(base, log[..|log| - 1], i) == RollsAt(base, log, i)
  {
    var init := log[..|log| - 1];
    forall i | 0 <= i < |init|
      ensures RollsAt(base, init, i) == RollsAt(base, log, i)
    {
      assert StoredDay(base, init, i) == StoredDay(base, log, i);
    }
  }

  /**
   No section rolled over: the loaded count plus one tick's worth per crediting
   section, modulo the width of the counter.
   */
  lemma {:induction false} CountSinceLoad(base: View, log: seq<Section>, d: U32, u: Name)
    requires NoRollFrom(base, log, 0)
    ensures Used(Replay(base, log, d), u) == (Used(base, u) + Seconds(TicksNaming(log, u), d)) % U32_MODULUS
    ensures forall i :: 0 <= i < |log| ==> base.day == Some(log[i].today)
  {
    if log == [] {
      SmallModulus(Used(base, u));
    } else {
      var init := log[..|log| - 1];
      RollsOfPrefix(base, log, 0);
      CountSinceLoad(base, init, d, u);
      assert !RollsAt(base, log, |init|);
      SameDayCount(base, log, d, u, Used(base, u) + Seconds(TicksNaming(init, u), d));
    }
  }

  /**
   Section `k` was the last to find a new date: the count is exactly one tick's
   worth per crediting section from `k` on, and each of those carried the day
   now stored.
   */
  lemma {:induction false} CountSinceRollover(base: View, log: seq<Section>, d: U32, u: Name, k: nat)
    requires k < |log| && RollsAt(base, log, k) && NoRollFrom(base, log, k + 1)
    ensures Used(Replay(base, log, d), u) == (Seconds(TicksNaming(log[k..], u), d)) % U32_MODULUS
    ensures forall i :: k <= i < |log| ==> Replay(base, log, d).day == Some(log[i].today)
    decreases |log|
  {
    var init := log[..|log| - 1];
    ReplayStoresLastDate(base, log, d);
    TicksOneMore(log, k, u);
    if k == |init| {
      assert init[k..] == [];
      NewDayCount(base, log, d, u);
      assert Seconds(1, d) == Seconds(0, d) + d;
      SmallModulus(d);
    } else {
      RollsOfPrefix(base, log, k + 1);
      CountSinceRollover(base, init, d, u, k);
      ReplayStoresLastDate(base, init, d);
      assert !RollsAt(base, log, |init|);
      SameDayCount(base, log, d, u, Seconds(TicksNaming(init[k..], u), d));
    }
  }

  /** What was loaded of this day and every tick dated with it. */
  function DayCount(base: View, log: seq<Section>, d: U32, u: Name, day: Date): nat {
    (if base.day == Some(day) then Used(base, u) else 0) + Seconds(TicksNamingOn(log, u, day), d)
  }

  /**
   When dates never decrease in lock order the count is the whole day's: every
   section dated with the stored day counts, whenever it ran, and what was
   loaded counts if it was of that day.
   */
  lemma {:induction false} CountIsWholeDay(base: View, log: seq<Section>, d: U32, u: Name)
    requires log != [] && DatesNeverDecrease(base, log)
    ensures Used(Replay(base, log, d), u) == DayCount(base, log, d, u, log[|log| - 1].today) % U32_MODULUS
    decreases |log|
  {
    var init, day := log[..|log| - 1], log[|log| - 1].today;
    ReplayStoresLastDate(base, init, d);
    DatesOfPrefix(base, log);
    if StoredDay(base, init, |init|) != Some(day) {
      FreshDay(base, log, u);
      NewDayCount(base, log, d, u);
      assert Seconds(1, d) == Seconds(0, d) + d;
      SmallModulus(d);
    } else {
      if init == [] {
        SmallModulus(Used(base, u));
      } else {
        CountIsWholeDay(base, init, d, u);
      }
      SameDayCount(base, log, d, u, DayCount(base, init, d, u, day));
    }
  }

  lemma DatesOfPrefix(base: View, log: seq<Section>)
    requires log != [] && DatesNeverDecrease(base, log)
    ensures var init := log[..|log| - 1];
            DatesNeverDecrease(base, init) && StoredDay(base, init, |init|) == StoredDay(base, log, |init|)
  {
    var init := log[..|log| - 1];
    assert forall i :: 0 <= i <= |init| ==> StoredDay(base, init, i) == StoredDay(base, log, i);
  }

  /** A section that rolls over is the first of its day. */
  lemma FreshDay(base: View, log: seq<Section>, u: Name)
    requires log != [] && DatesNeverDecrease(base, log) && RollsAt(base, log, |log| - 1)
    ensures var day := log[|log| - 1].today;
            base.day != Some(day) && TicksNamingOn(log[..|log| - 1], u, day) == 0
  {
    var last := |log| - 1;
    var day := log[last].today;
    assert StoredDay(base, log, |log|) == Some(day);
    assert StoredDay(base, log, last) != Some(day);
    assert forall i :: 0 <= i <= last ==> StoredDay(base, log, i) != Some(day);
    assert StoredDay(base, log, 0) == base.day;
    forall i | 0 <= i < last
      ensures log[..last][i].today != day
    {
      assert StoredDay(base, log, i + 1) == Some(log[i].today);
    }
    NoTicksOnOtherDays(log[..last], u, day);
  }

  lemma NoTicksOnOtherDays(log: seq<Section>, u: Name, day: Date)
    requires forall i :: 0 <= i < |log| ==> log[i].today != day
    ensures TicksNamingOn(log, u, day) == 0
  {
  }

  // ---- Who is active ---------------------------------------------------------

  /** No section of these found out who is at the console. */
  predicate NoCreditFrom(log: seq<Section>, from: nat) {
    forall i :: from <= i < |log| ==> log[i].credit.None?
  }

  /** A user is active exactly if the last section that asked the console names them. */
  lemma {:induction false} ActiveIsLastCredit(base: View, log: seq<Section>, d: U32, k: nat, u: Name)
    requires k < |log| && log[k].credit.Some? && NoCreditFrom(log, k + 1)
    ensures IsActive(Replay(base, log, d), u) <==> Names(log[k], u)
    decreases |log|
  {
    var n := |log| - 1;
    if k < n {
      assert log[n].credit.None? && NoCreditFrom(log[..n], k + 1);
      ActiveIsLastCredit(base, log[..n], d, k, u);
    }
  }

  /** If none asked, whoever was active at the start still is. */
  lemma {:induction false} ActiveSinceStart(base: View, log: seq<Section>, d: U32, u: Name)
    requires NoCreditFrom(log, 0)
    ensures IsActive(Replay(base, log, d), u) <==> IsActive(base, u)
    decreases |log|
  {
    if log != [] {
      assert NoCreditFrom(log[..|log| - 1], 0);
      ActiveSinceStart(base, log[..|log| - 1], d, u);
    }
  }

  // ---- Conservation ---------------------------------------------------------

  /** The sum of all the counters of the users in `names`. */
  ghost function Total(c: Tally, names: set<Name>): nat {
    if names == {} then 0
    else
      var u :| u in names;
      (if u in c then c[u] else 0) + Total(c, names - {u})
  }

  /** The total does not depend on the order in which the users are visited. */
  lemma {:induction false} TotalSplit(c: Tally, names: set<Name>, x: Name)
    requires x in names
    ensures Total(c, names) == (if x in c then c[x] else 0) + Total(c, names - {x})
    decreases |names|
  {
    var u :| u in names && Total(c, names) == (if u in c then c[u] else 0) + Total(c, names - {u});
    if u != x {
      TotalSplit(c, names - {u}, x);
      TotalSplit(c, names - {x}, u);
      assert names - {u} - {x} == names - {x} - {u};
    }
  }

  lemma {:induction false} TotalSame(c: Tally, c': Tally, names: set<Name>)
    requires forall u :: u in names ==> (if u in c then c[u] else 0) == (if u in c' then c'[u] else 0)
    ensures Total(c, names) == Total(c', names)
    decreases |names|
  {
    if names != {} {
      var u :| u in names;
      TotalSame(c, c', names - {u});
      TotalSplit(c, names, u);
      TotalSplit(c', names, u);
    }
  }

  lemma {:induction false} TotalIgnoresAbsent(c: Tally, names: set<Name>)
    ensures Total(c, names) == Total(c, names * c.Keys)
    decreases |names|
  {
    if names != {} {
      var u :| u in names;
      TotalIgnoresAbsent(c, names - {u});
      TotalSplit(c, names, u);
      if u in c {
        TotalSplit(c, names * c.Keys, u);
        assert names * c.Keys - {u} == (names - {u}) * c.Keys;
      } else {
        assert names * c.Keys == (names - {u}) * c.Keys;
      }
    }
  }

  /** The sum of all counters. */
  ghost function Sum(c: Tally): nat {
    Total(c, c.Keys)
  }

  lemma CounterWithinSum(c: Tally, u: Name)
    ensures (if u in c then c[u] else 0) <= Sum(c)
  {
    if u in c {
      TotalSplit(c, c.Keys, u);
    }
  }

  /** A tick that names one user and does not wrap adds one tick to the sum. */
  lemma CreditAddsOnce(c: Tally, u: Name, d: U32)
    requires (if u in c then c[u] else 0) + d <= U32_MAX
    ensures Sum(Credited(c, {u}, d)) == Sum(c) + d
  {
    var c' := Credited(c, {u}, d);
    assert c'.Keys == c.Keys + {u};
    assert Sum(c') == c'[u] + Total(c', c'.Keys - {u}) by {
      TotalSplit(c', c'.Keys, u);
    }
    assert Total(c', c'.Keys - {u}) == Total(c, c'.Keys - {u}) by {
      TotalSame(c, c', c'.Keys - {u});
    }
    SumOver(c, c'.Keys, u);
  }

  /** The sum, taken over a larger set of names and split at one of them. */
  lemma SumOver(c: Tally, names: set<Name>, u: Name)
    requires c.Keys <= names && u in names
    ensures Sum(c) == (if u in c then c[u] else 0) + Total(c, names - {u})
  {
    TotalIgnoresAbsent(c, names);
    assert names * c.Keys == c.Keys;
    TotalSplit(c, names, u);
  }

  /** At most one user is at the console in any section. */
  predicate OneConsole(log: seq<Section>) {
    forall i :: 0 <= i < |log| && log[i].credit.Some? ==> |log[i].credit.value| <= 1
  }

  /** How many sections found somebody at the console. */
  function Occupied(log: seq<Section>): nat {
    if log == [] then 0
    else
      var e := log[|log| - 1];
      Occupied(log[..|log| - 1]) + if e.credit.Some? && e.credit.value != {} then 1 else 0
  }

  lemma SingletonOf(s: set<Name>, u: Name)
    requires |s| <= 1 && u in s
    ensures s == {u}
  {
    assert |s - {u}| == |s| - 1;
    assert s - {u} == {};
  }

  lemma {:induction false} OccupiedOfPrefix(log: seq<Section>, n: nat)
    requires n <= |log|
    ensures Occupied(log[..n]) <= Occupied(log)
    decreases |log|
  {
    if n < |log| {
      OccupiedOfPrefix(log[..|log| - 1], n);
      assert log[..|log| - 1][..n] == log[..n];
    } else {
      assert log[..n] == log;
    }
  }

  /** The day check of the last section is a no-op when nothing rolls over. */
  lemma LastSectionKeepsDay(base: View, log: seq<Section>, d: U32, from: nat)
    requires from < |log| && NoRollFrom(base, log, from)
    ensures Replay(base, log[..|log| - 1], d).day == Some(log[|log| - 1].today)
    ensures NoRollFrom(base, log[..|log| - 1], from)
  {
    var init := log[..|log| - 1];
    ReplayStoresLastDate(base, init, d);
    assert StoredDay(base, init, |init|) == StoredDay(base, log, |init|);
    assert !RollsAt(base, log, |init|);
    assert forall i :: 0 <= i < |init| ==> RollsAt(base, init, i) == RollsAt(base, log, i);
  }

  /** What the next lemma asks of a log. */
  ghost predicate Conserves(base: View, log: seq<Section>, d: U32) {
    && OneConsole(log) && NoRollFrom(base, log, 0)
    && Sum(base.counters) + Seconds(Occupied(log), d) <= U32_MAX
  }

  lemma ConservesPrefix(base: View, log: seq<Section>, d: U32)
    requires log != [] && Conserves(base, log, d)
    ensures Conserves(base, log[..|log| - 1], d)
  {
    var init := log[..|log| - 1];
    LastSectionKeepsDay(base, log, d, 0);
    OccupiedOfPrefix(log, |init|);
    SecondsMonotone(Occupied(init), Occupied(log), d);
  }

  /**
   While no section finds a new date, the sum of all counters grows by exactly
   one tick per occupied section, provided that product still fits a counter.
   */
  lemma {:induction false} Conservation(base: View, log: seq<Section>, d: U32)
    requires Conserves(base, log, d)
    ensures Sum(Replay(base, log, d).counters) == Sum(base.counters) + Seconds(Occupied(log), d)
    decreases |log|
  {
    if log == [] {
      assert Occupied(log) == 0 && Seconds(0, d) == 0 && Replay(base, log, d) == base;
    } else {
      ConservesPrefix(base, log, d);
      Conservation(base, log[..|log| - 1], d);
      ConservationLast(base, log, d);
    }
  }

  /** The last section alone adds one tick to the sum, if it was occupied. */
  lemma ConservationLast(base: View, log: seq<Section>, d: U32)
    requires log != [] && Conserves(base, log, d)
    requires var init := log[..|log| - 1];
             Sum(Replay(base, init, d).counters) == Sum(base.counters) + Seconds(Occupied(init), d)
    ensures Sum(Replay(base, log, d).counters) == Sum(base.counters) + Seconds(Occupied(log), d)
  {
    var init, e := log[..|log| - 1], log[|log| - 1];
    OccupiedLast(log, d);
    LastSectionKeepsDay(base, log, d, 0);
    ConservationStep(Replay(base, init, d), e, d, Sum(base.counters) + Seconds(Occupied(init), d));
  }

  lemma OccupiedLast(log: seq<Section>, d: U32)
    requires log != []
    ensures var init, e := log[..|log| - 1], log[|log| - 1];
            Seconds(Occupied(log), d)
            == Seconds(Occupied(init), d) + if e.credit.Some? && e.credit.value != {} then d else 0
  {
  }

  lemma ConservationStep(v: View, e: Section, d: U32, before: nat)
    requires v.day == Some(e.today) && Sum(v.counters) == before
    requires e.credit.Some? ==> |e.credit.value| <= 1
    requires before + (if e.credit.Some? && e.credit.value != {} then d else 0) <= U32_MAX
    ensures Sum(After(v, e, d).counters) == before + if e.credit.Some? && e.credit.value != {} then d else 0
  {
    if e.credit.Some? {
      if e.credit.value == {} {
        assert Credited(v.counters, {}, d) == v.counters;
      } else {
        var u :| u in e.credit.value;
        SingletonOf(e.credit.value, u);
        CounterWithinSum(v.counters, u);
        CreditAddsOnce(v.counters, u, d);
      }
    }
  }

  /**
   The day now stored has been in force since section `k`: that section rolled
   over, or none did since what was loaded.
   */
  predicate DayFrom(base: View, log: seq<Section>, k: nat) {
    if k < |log| && RollsAt(base, log, k) then NoRollFrom(base, log, k + 1)
    else k == 0 && NoRollFrom(base, log, 0)
  }

  /** There always is such a section. */
  lemma {:induction false} DayHasStart(base: View, log: seq<Section>) returns (k: nat)
    ensures DayFrom(base, log, k)
    decreases |log|
  {
    if log == [] {
      k := 0;
    } else {
      var init, n := log[..|log| - 1], |log| - 1;
      if RollsAt(base, log, n) {
        k := n;
      } else {
        k := DayHasStart(base, init);
        assert forall i :: 0 <= i < n ==> RollsAt(base, log, i) == RollsAt(base, init, i);
      }
    }
  }

  /** What of a user's loaded count still counts on that day. */
  function Carried(base: View, log: seq<Section>, k: nat, u: Name): U32 {
    if k < |log| && RollsAt(base, log, k) then 0 else Used(base, u)
  }

  ghost function CarriedSum(base: View, log: seq<Section>, k: nat): nat {
    if k < |log| && RollsAt(base, log, k) then 0 else Sum(base.counters)
  }

  /** The same over the whole stored day, after a rollover or a start in the middle of it. */
  lemma ConservationOverDay(base: View, log: seq<Section>, d: U32, k: nat)
    requires DayFrom(base, log, k) && k <= |log| && OneConsole(log)
    requires CarriedSum(base, log, k) + Seconds(Occupied(log[k..]), d) <= U32_MAX
    ensures Sum(Replay(base, log, d).counters) == CarriedSum(base, log, k) + Seconds(Occupied(log[k..]), d)
  {
    if k < |log| && RollsAt(base, log, k) {
      ConservationSinceRollover(base, log, d, k);
    } else {
      assert log[0..] == log;
      Conservation(base, log, d);
    }
  }

  /** The same from the last rollover on, where the sum starts again from zero. */
  lemma ConservationSinceRollover(base: View, log: seq<Section>, d: U32, k: nat)
    requires k < |log| && RollsAt(base, log, k) && NoRollFrom(base, log, k + 1)
    requires OneConsole(log) && Seconds(Occupied(log[k..]), d) <= U32_MAX
    ensures Sum(Replay(base, log, d).counters) == Seconds(Occupied(log[k..]), d)
  {
    var before := Replay(base, log[..k], d);
    var restart := Rolled(before, log[k].today);
    ReplayStoresLastDate(base, log[..k], d);
    assert StoredDay(base, log[..k], k) == StoredDay(base, log, k);
    ReplayFromRollover(base, log, d, k);
    assert restart.counters == map[];
    forall i | 0 <= i < |log[k..]|
      ensures !RollsAt(restart, log[k..], i)
    {
      if i > 0 {
        assert StoredDay(restart, log[k..], i) == StoredDay(base, log, k + i);
        assert !RollsAt(base, log, k + i);
      }
    }
    Conservation(restart, log[k..], d);
  }

  /** Replaying from the day check of section `k` is replaying from the start. */
  lemma {:induction false} ReplayFromRollover(base: View, log: seq<Section>, d: U32, k: nat)
    requires k < |log|
    ensures Replay(base, log, d) == Replay(Rolled(Replay(base, log[..k], d), log[k].today), log[k..], d)
    decreases |log|
  {
    var init, e := log[..|log| - 1], log[|log| - 1];
    assert log[k..][..|log| - k - 1] == init[k..];
    if k < |init| {
      ReplayFromRollover(base, init, d, k);
      assert init[..k] == log[..k];
    } else {
      assert log[..k] == init;
      assert log[k..] == [e];
      assert Replay(Rolled(Replay(base, init, d), e.today), [], d) == Rolled(Replay(base, init, d), e.today);
      assert [e][..0] == [];
    }
  }

  /** A count is what was carried over plus every tick of the day exactly when that fits a counter. */
  lemma CountIsExact(base: View, log: seq<Section>, d: U32, u: Name, k: nat)
    requires DayFrom(base, log, k) && k <= |log|
    ensures var sum := Carried(base, log, k, u) + Seconds(TicksNaming(log[k..], u), d);
            Used(Replay(base, log, d), u) == sum <==> sum <= U32_MAX
  {
    var sum := Carried(base, log, k, u) + Seconds(TicksNaming(log[k..], u), d);
    if k < |log| && RollsAt(base, log, k) {
      CountSinceRollover(base, log, d, u, k);
    } else {
      assert log[0..] == log;
      CountSinceLoad(base, log, d, u);
    }
    if sum <= U32_MAX {
      SmallModulus(sum);
    }
  }

  /** With a tick of 2^31 seconds, which the configuration allows, two ticks count as none. */
  lemma TwoHugeTicksWrapAround(u: Name, today: Date)
    ensures var log := [Section(today, Some({u})), Section(today, Some({u}))];
            && Seconds(TicksNaming(log, u), 0x8000_0000) == U32_MODULUS
            && Used(Replay(EMPTY, log, 0x8000_0000), u) == 0
  {
    var e: Section, d: U32 := Section(today, Some({u})), 0x8000_0000;
    assert [e, e][..1] == [e] && [e][..0] == [];
    assert Replay(EMPTY, [], d) == EMPTY;
    assert TicksNaming([e], u) == 1 && TicksNaming([e, e], u) == 2;
    assert Seconds(1, d) == Seconds(0, d) + d && Seconds(2, d) == Seconds(1, d) + d;
    var once := Replay(EMPTY, [e], d);
    assert once == After(Replay(EMPTY, [e][..0], d), e, d);
    assert Credited(map[], {u}, d)[u] == d;
    assert Used(once, u) == d && once.day == Some(today);
    assert Replay(EMPTY, [e, e], d) == After(once, e, d);
  }

  lemma SmallModulus(x: U32)
    ensures x % U32_MODULUS == x
  {
  }

  /**
   Hence no counter can wrap on the next tick as long as one more tick's worth
   still fits above the whole day's occupied time and what was carried over.
   */
  lemma NextTickCannotWrap(base: View, log: seq<Section>, d: U32, k: nat, u: Name)
    requires DayFrom(base, log, k) && k <= |log|
    requires Carried(base, log, k, u) + Seconds(Occupied(log[k..]) + 1, d) <= U32_MAX
    ensures Used(Replay(base, log, d), u)
         == Carried(base, log, k, u) + Seconds(TicksNaming(log[k..], u), d) <= U32_MAX - d
  {
    NamingWithinOccupied(log[k..], u);
    SecondsMonotone(TicksNaming(log[k..], u), Occupied(log[k..]), d);
    CountIsExact(base, log, d, u, k);
  }

  lemma NamingWithinOccupied(log: seq<Section>, u: Name)
    ensures TicksNaming(log, u) <= Occupied(log)
  {
  }

  // ---- Overshoot ------------------------------------------------------------

  function Max(x: int, y: int): int {
    if x < y then y else x
  }

  /** No ticker section of the day, before the last section, left the user at or over the limit. */
  predicate UnderLimitSoFar(base: View, log: seq<Section>, d: U32, k: nat, u: Name, limit: nat) {
    forall j :: k < j < |log| && log[j - 1].credit.Some? ==> Used(Replay(base, log[..j], d), u) < limit
  }

  /**
   Enforcement looks at the snapshot of every ticker section. The first of a day
   that is not under a user's limit is less than one tick over it, or over what a
   start in the middle of the day had loaded if that was at the limit already.
   */
  lemma FirstPassOverLimit(base: View, log: seq<Section>, d: U32, k: nat, u: Name, limit: nat)
    requires log != [] && k < |log| && DayFrom(base, log, k)
    requires 0 < limit && Names(log[|log| - 1], u) && UnderLimitSoFar(base, log, d, k, u, limit)
    ensures Used(Replay(base, log, d), u) < Max(limit, Carried(base, log, k, u) + 1) + d
  {
    var n, bound := |log| - 1, Max(limit, Carried(base, log, k, u) + 1);
    var before := Replay(base, log[..n], d);
    ReplayStoresLastDate(base, log[..n], d);
    assert StoredDay(base, log[..n], n) == StoredDay(base, log, n);
    if !RollsAt(base, log, n) {
      BelowBoundBefore(base, log, d, k, u, limit, bound, n);
      assert Used(before, u) < bound;
    }
  }

  /** Between two ticker sections of a day a count does not grow. */
  lemma {:induction false} BelowBoundBefore(
      base: View, log: seq<Section>, d: U32, k: nat, u: Name, limit: nat, bound: int, n: nat)
    requires DayFrom(base, log, k) && UnderLimitSoFar(base, log, d, k, u, limit)
    requires n < |log| && k <= n && (k == n ==> !RollsAt(base, log, k))
    requires bound == Max(limit, Carried(base, log, k, u) + 1)
    ensures Used(Replay(base, log[..n], d), u) < bound
    decreases n
  {
    if n == 0 {
      assert log[..0] == [];
    } else if log[n - 1].credit.None? {
      assert log[..n][..n - 1] == log[..n - 1];
      ReplayStoresLastDate(base, log[..n - 1], d);
      assert StoredDay(base, log[..n - 1], n - 1) == StoredDay(base, log, n - 1);
      if !RollsAt(base, log, n - 1) {
        BelowBoundBefore(base, log, d, k, u, limit, bound, n - 1);
      }
    }
  }

  // ---- Recovery order -------------------------------------------------------

  /** Once its day has been checked against `m`'s, `s` charges nobody more than `m`. */
  ghost predicate Behind(s: View, m: View) {
    m.day.Some?
    && (s.day.Some? ==>
          s.day.value <= m.day.value
          && (s.day == m.day ==> forall u :: Used(s, u) <= Used(m, u)))
  }

  /** The section does not make any counter wrap around. */
  predicate Fits(v: View, e: Section, d: U32) {
    e.credit.Some? ==> forall u :: u in e.credit.value ==> Used(Rolled(v, e.today), u) + d <= U32_MAX
  }

  /** Order among saved views survives any locked section that keeps date order. */
  lemma BehindAfter(s: View, m: View, e: Section, d: U32)
    requires Behind(s, m) && m.day.value <= e.today && Fits(m, e, d)
    ensures Behind(s, After(m, e, d))
  {
  }
}
