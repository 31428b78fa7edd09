/**
 The next local midnight (crates/daemon/src/time.rs), over any time zone. Times
 are seconds; a zone gives the offset of local time at every instant and maps a
 local time back to the instants at which clocks showed it.
 */
module Midnight {
  import opened Common

  type Instant = int

  const DAY: int := 86400

  datatype LocalResult = Single(at: Instant) | Ambiguous(earlier: Instant, later: Instant) | Absent

  datatype Zone = Zone(offset: Instant -> int, fromLocal: int -> LocalResult)
  {
    /** What a clock on the wall shows. */
    function Local(t: Instant): int {
      t + offset(t)
    }

    /** The local calendar date. */
    function DateOf(t: Instant): int {
      Local(t) / DAY
    }

    /** `from_local` is the inverse of `Local`: none, one or two instants. */
    ghost predicate Inverts(local: int) {
      match fromLocal(local)
      case Single(at) => Local(at) == local && forall t: Instant :: Local(t) == local ==> t == at
      case Ambiguous(earlier, later) =>
        && earlier < later && Local(earlier) == local && Local(later) == local
        && forall t: Instant :: Local(t) == local ==> t == earlier || t == later
      case Absent => forall t: Instant :: Local(t) != local
    }

    ghost predicate Valid() {
      forall local: int :: Inverts(local)
    }
  }

  // ---- The search -----------------------------------------------------------------

  const SEARCH_DAYS: nat := 7

  /** `t` is the earliest instant at which clocks show midnight of `date`. */
  ghost predicate IsFirstMidnightOf(z: Zone, date: int, t: Instant) {
    z.Local(t) == date * DAY && forall t': Instant :: z.Local(t') == date * DAY ==> t <= t'
  }

  /** No clock ever shows midnight of `date`. */
  ghost predicate MidnightSkipped(z: Zone, date: int) {
    forall t: Instant :: z.Local(t) != date * DAY
  }

  /**
   The result is the first instant of the first date, from that of `now + 24 h` on
   and within seven days, whose midnight exists; failing that, `now + 24 h`.
   */
  ghost predicate IsNextMidnight(z: Zone, now: Instant, r: Instant) {
    var first := z.DateOf(now + DAY);
    || (exists date :: first <= date < first + SEARCH_DAYS
          && IsFirstMidnightOf(z, date, r)
          && forall skipped :: first <= skipped < date ==> MidnightSkipped(z, skipped))
    || (r == now + DAY
        && forall skipped :: first <= skipped < first + SEARCH_DAYS ==> MidnightSkipped(z, skipped))
  }

  method NextLocalMidnightAfter(z: Zone, now: Instant) returns (r: Instant)
    requires z.Valid()
    ensures IsNextMidnight(z, now, r)
  {
    var date := z.DateOf(now + DAY);
    ghost var first := date;
    for k := 0 to SEARCH_DAYS
      invariant date == first + k
      invariant forall skipped :: first <= skipped < date ==> MidnightSkipped(z, skipped)
    {
      var candidate := date * DAY;
      assert z.Inverts(candidate);
      match z.fromLocal(candidate) {
        case Single(at) =>
          assert IsFirstMidnightOf(z, date, at);
          return at;
        case Ambiguous(earlier, _) =>
          assert IsFirstMidnightOf(z, date, earlier);
          return earlier;
        case Absent =>
          assert MidnightSkipped(z, date);
          date := date + 1;
      }
    }
    r := now + DAY;
  }

  /** A week without a midnight, and no less, makes the search give up and look a day ahead. */
  lemma GivesUpAfterAWeek(z: Zone, now: Instant, r: Instant)
    requires IsNextMidnight(z, now, r)
    ensures var first := z.DateOf(now + DAY);
            && (MidnightSkippedUntil(z, first, first + 7) ==> r == now + DAY)
            && (forall date, t: Instant :: first <= date < first + 7 && IsFirstMidnightOf(z, date, t)
                  ==> z.Local(r) % DAY == 0 && z.Local(r) <= date * DAY)
  {
    var first := z.DateOf(now + DAY);
    forall date, t: Instant | IsFirstMidnightOf(z, date, t)
      ensures !MidnightSkipped(z, date)
    {
      assert z.Local(t) == date * DAY;
    }
  }

  ghost predicate MidnightSkippedUntil(z: Zone, first: int, end: int) {
    forall date :: first <= date < end ==> MidnightSkipped(z, date)
  }

  lemma NextMidnightUnique(z: Zone, now: Instant, r: Instant, r': Instant)
    requires IsNextMidnight(z, now, r) && IsNextMidnight(z, now, r')
    ensures r == r'
  {
    forall date, t: Instant | IsFirstMidnightOf(z, date, t)
      ensures !MidnightSkipped(z, date)
    {
      assert z.Local(t) == date * DAY;
    }
  }

  // ---- How far away it is -----------------------------------------------------------

  /**
   When the date of `now + 24 h` has a midnight, the result lies within a day of
   the present if it falls under the later offset, and within a day shifted by the
   change of offset if it falls under the present one.
   */
  lemma ExactBound(z: Zone, now: Instant, r: Instant)
    requires z.Valid() && IsNextMidnight(z, now, r)
    requires !MidnightSkipped(z, z.DateOf(now + DAY))
    ensures var shift := z.offset(now + DAY) - z.offset(now);
            && (z.offset(r) == z.offset(now + DAY) ==> now < r <= now + DAY)
            && (z.offset(r) == z.offset(now) ==> now + shift < r <= now + DAY + shift)
  {
    var date := z.DateOf(now + DAY);
    assert IsFirstMidnightOf(z, date, r);
  }

  /** Where the offset never changes, it is the least local midnight after now. */
  lemma ConstantOffset(z: Zone, now: Instant, r: Instant)
    requires z.Valid() && IsNextMidnight(z, now, r)
    requires forall t: Instant :: z.offset(t) == z.offset(now)
    ensures z.Local(r) % DAY == 0 && now < r
    ensures forall t: Instant :: now < t && z.Local(t) % DAY == 0 ==> r <= t
  {
    var date := z.DateOf(now + DAY);
    var midnight := date * DAY - z.offset(now);
    assert z.Local(midnight) == date * DAY;
    ExactBound(z, now, r);
    assert r == midnight;
  }

  /** And it changes exactly when the local date does. */
  lemma ConstantOffsetFollowsTheDate(z: Zone, now: Instant, now': Instant, r: Instant, r': Instant)
    requires z.Valid() && IsNextMidnight(z, now, r) && IsNextMidnight(z, now', r')
    requires forall t: Instant :: z.offset(t) == z.offset(now)
    ensures r == r' <==> z.DateOf(now) == z.DateOf(now')
  {
    assert z.offset(now') == z.offset(now);
    var midnight, midnight' := z.DateOf(now + DAY) * DAY - z.offset(now), z.DateOf(now' + DAY) * DAY - z.offset(now);
    assert z.Local(midnight) == z.DateOf(now + DAY) * DAY && z.Local(midnight') == z.DateOf(now' + DAY) * DAY;
    ExactBound(z, now, r);
    ExactBound(z, now', r');
  }

  // ---- At most one change nearby ------------------------------------------------------

  /** No offset reaches a whole day. */
  ghost predicate Bounded(z: Zone) {
    forall t: Instant :: -DAY < z.offset(t) < DAY
  }

  /** A change of offset, of less than a day, at one instant. */
  datatype Change = Change(at: Instant, before: int, after: int)
  {
    predicate Valid() {
      -DAY < before < DAY && -DAY < after < DAY && -DAY < after - before < DAY
    }

    /** The first instant, if any, at which clocks show midnight of `date`. */
    function FirstShown(date: int): Option<Instant> {
      if date * DAY - before < at then Some(date * DAY - before)
      else if at <= date * DAY - after then Some(date * DAY - after)
      else None
    }
  }

  /**
   In the nine days around `now` clocks change at most once, as `c` says; what they
   do at other times of the year does not matter.
   */
  ghost predicate ChangesOnceAround(z: Zone, now: Instant, c: Change) {
    && c.Valid()
    && forall t: Instant :: now - 4 * DAY <= t <= now + 5 * DAY ==>
         z.offset(t) == if t < c.at then c.before else c.after
  }

  lemma FirstShownIsFirst(z: Zone, now: Instant, c: Change, date: int)
    requires Bounded(z) && ChangesOnceAround(z, now, c)
    requires now - 3 * DAY <= date * DAY <= now + 4 * DAY
    ensures match c.FirstShown(date)
            case Some(t) => IsFirstMidnightOf(z, date, t)
            case None => MidnightSkipped(z, date)
  {
    var early, late := date * DAY - c.before, date * DAY - c.after;
    forall t: Instant | z.Local(t) == date * DAY
      ensures t == early < c.at || t == late >= c.at
    {
      assert -DAY < z.offset(t) < DAY;
    }
    if early < c.at {
      assert z.Local(early) == date * DAY;
    } else if c.at <= late {
      assert z.Local(late) == date * DAY;
    }
  }

  /** The date whose midnight the search ends at: skipped dates are passed over. */
  function TargetDate(z: Zone, now: Instant, c: Change): int {
    var date := z.DateOf(now + DAY);
    if c.FirstShown(date).Some? then date else date + 1
  }

  lemma ResultIsTarget(z: Zone, now: Instant, c: Change, r: Instant)
    requires Bounded(z) && ChangesOnceAround(z, now, c) && IsNextMidnight(z, now, r)
    ensures c.FirstShown(TargetDate(z, now, c)) == Some(r)
    ensures IsFirstMidnightOf(z, TargetDate(z, now, c), r)
  {
    var first, target := z.DateOf(now + DAY), TargetDate(z, now, c);
    assert z.offset(now + DAY) == c.before || z.offset(now + DAY) == c.after;
    FirstShownIsFirst(z, now, c, first);
    FirstShownIsFirst(z, now, c, target);
    var t := c.FirstShown(target).value;
    assert IsNextMidnight(z, now, t) by {
      assert first <= target < first + SEARCH_DAYS && IsFirstMidnightOf(z, target, t);
    }
    NextMidnightUnique(z, now, r, t);
  }

  predicate AtMidnight(z: Zone, t: Instant) {
    z.Local(t) % DAY == 0
  }

  /** What the documentation promises: the next local midnight strictly in the future. */
  ghost predicate IsNextInFuture(z: Zone, now: Instant, r: Instant) {
    && now < r && AtMidnight(z, r)
    && forall t: Instant :: now < t < r ==> !AtMidnight(z, t)
  }

  /** The midnight the search starts with. */
  function FirstCandidate(z: Zone, now: Instant): int {
    z.DateOf(now + DAY) * DAY
  }

  /** Clocks show a later date a day ahead, and did not show its midnight already. */
  predicate StaysAhead(z: Zone, now: Instant, c: Change) {
    && z.DateOf(now) < z.DateOf(now + DAY)
    && (c.at <= now ==> c.at + c.before <= FirstCandidate(z, now))
  }

  /** The date a day ahead is tomorrow's, or clocks jump over tomorrow's midnight. */
  predicate SkipsNothing(z: Zone, now: Instant, c: Change) {
    z.DateOf(now) + 1 < z.DateOf(now + DAY) ==> c.at + c.before <= (z.DateOf(now) + 1) * DAY
  }

  lemma FutureExactlyWhen(z: Zone, now: Instant, c: Change, r: Instant)
    requires Bounded(z) && ChangesOnceAround(z, now, c) && IsNextMidnight(z, now, r)
    ensures now < r <==> StaysAhead(z, now, c)
  {
    ResultIsTarget(z, now, c, r);
    assert z.offset(now) == if now < c.at then c.before else c.after;
    assert z.offset(now + DAY) == if now + DAY < c.at then c.before else c.after;
  }

  /** No midnight lies between now and the one the search ends at. */
  lemma NothingBetween(z: Zone, now: Instant, c: Change, r: Instant, t: Instant)
    requires Bounded(z) && ChangesOnceAround(z, now, c) && IsNextMidnight(z, now, r)
    requires StaysAhead(z, now, c) && SkipsNothing(z, now, c) && now < t < r
    ensures !AtMidnight(z, t)
  {
    ResultIsTarget(z, now, c, r);
    assert z.offset(now) == if now < c.at then c.before else c.after;
    assert z.offset(now + DAY) == if now + DAY < c.at then c.before else c.after;
    assert z.offset(t) == if t < c.at then c.before else c.after;
  }

  /**
   The documentation promises the next local midnight strictly in the future. With
   at most one change of offset in the days around, the search keeps that promise
   in exactly this case: clocks show a later date a day ahead; if the change has
   already happened, they had not shown that midnight before it; and if they show
   a date later than tomorrow's, it is because they jump over tomorrow's midnight.
   */
  lemma NextInFutureExactlyWhen(z: Zone, now: Instant, c: Change, r: Instant)
    requires Bounded(z) && ChangesOnceAround(z, now, c) && IsNextMidnight(z, now, r)
    ensures IsNextInFuture(z, now, r) <==> StaysAhead(z, now, c) && SkipsNothing(z, now, c)
  {
    FutureExactlyWhen(z, now, c, r);
    ResultIsTarget(z, now, c, r);
    if StaysAhead(z, now, c) {
      if SkipsNothing(z, now, c) {
        forall t: Instant | now < t < r
          ensures !AtMidnight(z, t)
        {
          NothingBetween(z, now, c, r, t);
        }
      } else {
        MissedMidnight(z, now, c, r);
      }
    }
  }

  lemma MissedMidnight(z: Zone, now: Instant, c: Change, r: Instant)
    requires Bounded(z) && ChangesOnceAround(z, now, c) && IsNextMidnight(z, now, r)
    requires !SkipsNothing(z, now, c)
    ensures var t := (z.DateOf(now) + 1) * DAY - c.before; now < t < r && AtMidnight(z, t)
  {
    ResultIsTarget(z, now, c, r);
    var t := (z.DateOf(now) + 1) * DAY - c.before;
    assert z.offset(now) == if now < c.at then c.before else c.after;
    assert z.offset(now + DAY) == if now + DAY < c.at then c.before else c.after;
    assert z.Local(t) == (z.DateOf(now) + 1) * DAY;
  }

  // ---- Telling days apart by it -----------------------------------------------------------

  /** How many dates ahead of today's the midnight found is. */
  function Lead(z: Zone, now: Instant, c: Change): int {
    TargetDate(z, now, c) - z.DateOf(now)
  }

  /** It is one, except in the last day before a change. */
  lemma LeadIsOne(z: Zone, now: Instant, c: Change)
    requires ChangesOnceAround(z, now, c) && !(now < c.at <= now + DAY)
    ensures Lead(z, now, c) == 1
  {
    assert z.offset(now) == if now < c.at then c.before else c.after;
    assert z.offset(now + DAY) == if now + DAY < c.at then c.before else c.after;
  }

  /** In that day it is one exactly if a day ahead it is tomorrow and tomorrow has a midnight. */
  lemma LeadBeforeChange(z: Zone, now: Instant, c: Change)
    requires ChangesOnceAround(z, now, c) && now < c.at <= now + DAY
    ensures 0 <= Lead(z, now, c) <= 3
    ensures var tomorrow := z.DateOf(now) + 1;
            Lead(z, now, c) == 1 <==>
              z.DateOf(now + DAY) == tomorrow && !(c.at + c.before <= tomorrow * DAY < c.at + c.after)
  {
    assert z.offset(now) == c.before && z.offset(now + DAY) == c.after;
  }

  /**
   Two results are the same midnight exactly if the dates differ by as much as the
   leads do: where both leads are one, exactly if the dates are the same.
   */
  lemma SameMidnightExactlyWhen(z: Zone, c: Change, now: Instant, now': Instant, r: Instant, r': Instant)
    requires Bounded(z) && ChangesOnceAround(z, now, c) && ChangesOnceAround(z, now', c)
    requires IsNextMidnight(z, now, r) && IsNextMidnight(z, now', r')
    ensures r == r' <==> z.DateOf(now) + Lead(z, now, c) == z.DateOf(now') + Lead(z, now', c)
  {
    ResultIsTarget(z, now, c, r);
    ResultIsTarget(z, now', c, r');
  }

  /** Away from the last day before a change, what lies between two instants of one date is of that date. */
  lemma SameDateBetween(z: Zone, c: Change, first: Instant, t: Instant, last: Instant)
    requires ChangesOnceAround(z, first, c) && ChangesOnceAround(z, t, c) && ChangesOnceAround(z, last, c)
    requires first <= t <= last && z.DateOf(first) == z.DateOf(last)
    requires !(first < c.at <= first + DAY) && !(t < c.at <= t + DAY) && !(last < c.at <= last + DAY)
    ensures z.DateOf(t) == z.DateOf(first)
  {
    assert z.offset(first) == if first < c.at then c.before else c.after;
    assert z.offset(t) == if t < c.at then c.before else c.after;
    assert z.offset(last) == if last < c.at then c.before else c.after;
  }

  // ---- Concrete nights -----------------------------------------------------------

  /** Offset `before` up to `change`, then `after`. */
  function OneChange(change: Instant, before: int, after: int): Zone {
    Zone((t: Instant) => if t < change then before else after,
         (local: int) =>
           var early, late := local - before < change, local - after >= change;
           if early && late && before != after then
             if local - before < local - after then Ambiguous(local - before, local - after)
             else Ambiguous(local - after, local - before)
           else if early then Single(local - before)
           else if late then Single(local - after)
           else Absent)
  }

  lemma OneChangeIsValid(change: Instant, before: int, after: int)
    ensures OneChange(change, before, after).Valid()
  {
    var z := OneChange(change, before, after);
    forall local: int
      ensures z.Inverts(local)
    {
    }
  }

  lemma OneChangeIsNearby(change: Instant, before: int, after: int, now: Instant)
    requires Change(change, before, after).Valid()
    ensures var z := OneChange(change, before, after);
            Bounded(z) && ChangesOnceAround(z, now, Change(change, before, after))
  {
  }

  /** Clocks go back by an hour at three in the morning of day zero. */
  const NIGHT_CLOCKS_GO_BACK: Zone := OneChange(3 * 3600 - 7200, 7200, 3600)

  /** Half an hour before, and half an hour into, that day. */
  const HALF_PAST_ELEVEN: Instant := -1800 - 7200
  const HALF_PAST_MIDNIGHT: Instant := 1800 - 7200
  const THAT_MIDNIGHT: Instant := -7200

  /**
   The promise fails on the night clocks go back: half an hour into the day, with
   an hour to be repeated later that night, the result is the midnight just past,
   the same as half an hour before it. The resetter falls back to a one-minute
   sleep, and statuses announce a reset time that is already over.
   */
  lemma ClocksGoingBackGivesThePast()
    ensures var z := NIGHT_CLOCKS_GO_BACK;
            && z.Valid()
            && z.DateOf(HALF_PAST_ELEVEN) == -1 && z.DateOf(HALF_PAST_MIDNIGHT) == 0
            && IsNextMidnight(z, HALF_PAST_ELEVEN, THAT_MIDNIGHT)
            && IsNextMidnight(z, HALF_PAST_MIDNIGHT, THAT_MIDNIGHT)
            && HALF_PAST_ELEVEN < THAT_MIDNIGHT < HALF_PAST_MIDNIGHT
            && var c := Change(3 * 3600 - 7200, 7200, 3600);
               Bounded(z) && ChangesOnceAround(z, HALF_PAST_MIDNIGHT, c) && !StaysAhead(z, HALF_PAST_MIDNIGHT, c)
  {
    var z := NIGHT_CLOCKS_GO_BACK;
    OneChangeIsNearby(3 * 3600 - 7200, 7200, 3600, HALF_PAST_MIDNIGHT);
    OneChangeIsValid(3 * 3600 - 7200, 7200, 3600);
    assert z.DateOf(HALF_PAST_ELEVEN + DAY) == 0 && z.DateOf(HALF_PAST_MIDNIGHT + DAY) == 0;
    assert IsFirstMidnightOf(z, 0, THAT_MIDNIGHT);
  }

  /** Clocks go forward by an hour at two in the morning of day zero. */
  const NIGHT_CLOCKS_GO_FORWARD: Zone := OneChange(3600, 3600, 7200)

  /** The evening before: an hour and a half, and half an hour, before its midnight. */
  const HALF_PAST_TEN: Instant := -5400 - 3600
  const LATE_EVENING: Instant := -1800 - 3600
  const SKIPPED_MIDNIGHT: Instant := -3600
  const MIDNIGHT_AFTER: Instant := DAY - 7200

  /**
   It also fails in the last hour before a day that loses one: a day ahead it is
   already the day after tomorrow, and the midnight half an hour away is passed over.
   */
  lemma ClocksGoingForwardSkipsAMidnight()
    ensures var z := NIGHT_CLOCKS_GO_FORWARD;
            && z.Valid()
            && z.DateOf(HALF_PAST_TEN) == -1 && z.DateOf(LATE_EVENING) == -1
            && IsNextMidnight(z, HALF_PAST_TEN, SKIPPED_MIDNIGHT)
            && IsNextMidnight(z, LATE_EVENING, MIDNIGHT_AFTER)
            && LATE_EVENING < SKIPPED_MIDNIGHT < MIDNIGHT_AFTER && AtMidnight(z, SKIPPED_MIDNIGHT)
            && var c := Change(3600, 3600, 7200);
               && Bounded(z) && ChangesOnceAround(z, LATE_EVENING, c)
               && StaysAhead(z, LATE_EVENING, c) && !SkipsNothing(z, LATE_EVENING, c)
  {
    var z := NIGHT_CLOCKS_GO_FORWARD;
    OneChangeIsNearby(3600, 3600, 7200, LATE_EVENING);
    OneChangeIsValid(3600, 3600, 7200);
    assert z.DateOf(HALF_PAST_TEN + DAY) == 0 && z.DateOf(LATE_EVENING + DAY) == 1;
    assert IsFirstMidnightOf(z, 0, SKIPPED_MIDNIGHT);
    assert IsFirstMidnightOf(z, 1, MIDNIGHT_AFTER);
  }
}
