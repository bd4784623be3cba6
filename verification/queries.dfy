/** The three time-window queries over a calendar's cached events, and how
    they relate once the events are ordered by start time. They read the
    snapshot only; `now` is the caller's current instant. */
module Queries {
  import opened Wrappers
  import opened Seqs
  import opened DateTimeValue
  import opened Event
  import opened StableSort
  import opened Cache

  /** get_current_event: the first event, in list order, under way at `now`. */
  function GetCurrentEvent(c: Calendar, now: Instant): (r: Option<CalendarEvent>)
    ensures r.None? <==> forall i :: 0 <= i < |c.events| ==> !IsCurrent(c.events[i], now)
    ensures r.Some? ==>
      exists i :: 0 <= i < |c.events| && c.events[i] == r.value && IsCurrent(r.value, now) &&
        forall j :: 0 <= j < i ==> !IsCurrent(c.events[j], now)
  {
    FindFirst(c.events, (e: CalendarEvent) => IsCurrent(e, now))
  }

  /** get_next_event: the first event, in list order, not yet started. */
  function GetNextEvent(c: Calendar, now: Instant): (r: Option<CalendarEvent>)
    ensures r.None? <==> forall i :: 0 <= i < |c.events| ==> !IsFuture(c.events[i], now)
    ensures r.Some? ==>
      exists i :: 0 <= i < |c.events| && c.events[i] == r.value && IsFuture(r.value, now) &&
        forall j :: 0 <= j < i ==> !IsFuture(c.events[j], now)
  {
    FindFirst(c.events, (e: CalendarEvent) => IsFuture(e, now))
  }

  predicate NotEnded(e: CalendarEvent, now: Instant) {
    e.endTime > now
  }

  /** get_future_events: every event not yet ended, ongoing ones included,
      in list order. */
  function GetFutureEvents(c: Calendar, now: Instant): (r: seq<CalendarEvent>)
    ensures forall i :: 0 <= i < |r| ==> r[i] in c.events && NotEnded(r[i], now)
    ensures forall i :: 0 <= i < |c.events| && NotEnded(c.events[i], now) ==> c.events[i] in r
    ensures forall e :: multiset(r)[e] == if NotEnded(e, now) then multiset(c.events)[e] else 0
  {
    Filter(c.events, (e: CalendarEvent) => NotEnded(e, now))
  }

  /** The future list keeps the order of the cached list. */
  lemma FutureEventsAreSubsequence(c: Calendar, now: Instant)
    ensures IsSubsequence(GetFutureEvents(c, now), c.events)
  {
    FilterIsSubsequence(c.events, (e: CalendarEvent) => NotEnded(e, now));
  }

  lemma {:induction false} SubsequenceKeepsSorted(a: seq<CalendarEvent>, b: seq<CalendarEvent>)
    requires IsSubsequence(a, b) && SortedByStart(b)
    ensures SortedByStart(a)
    decreases |b|
  {
    if |a| > 0 {
      if a[0] == b[0] && IsSubsequence(a[1..], b[1..]) {
        SubsequenceKeepsSorted(a[1..], b[1..]);
        forall j | 0 < j < |a| ensures a[0].startTime <= a[j].startTime {
          SubsequenceMembers(a[1..], b[1..], j - 1);
        }
      } else {
        SubsequenceKeepsSorted(a, b[1..]);
      }
    }
  }

  lemma {:induction false} SubsequenceMembers(a: seq<CalendarEvent>, b: seq<CalendarEvent>, i: int)
    requires IsSubsequence(a, b) && 0 <= i < |a|
    ensures a[i] in b
    decreases |b|
  {
    if a[0] == b[0] && IsSubsequence(a[1..], b[1..]) {
      if i > 0 {
        SubsequenceMembers(a[1..], b[1..], i - 1);
      }
    } else {
      SubsequenceMembers(a, b[1..], i);
    }
  }

  /** When the cache is ordered, so is the future list. */
  lemma FutureEventsSorted(c: Calendar, now: Instant)
    requires SortedByStart(c.events)
    ensures SortedByStart(GetFutureEvents(c, now))
  {
    FutureEventsAreSubsequence(c, now);
    SubsequenceKeepsSorted(GetFutureEvents(c, now), c.events);
  }

  /** With ordered events, the current event has the earliest start among
      all events under way: the earlier of two overlapping events wins. */
  lemma CurrentHasEarliestStart(c: Calendar, now: Instant, other: CalendarEvent)
    requires SortedByStart(c.events)
    requires other in c.events && IsCurrent(other, now)
    ensures GetCurrentEvent(c, now).Some?
    ensures GetCurrentEvent(c, now).value.startTime <= other.startTime
  {
    var i :| 0 <= i < |c.events| && c.events[i] == other;
    var k :| 0 <= k < |c.events| && c.events[k] == GetCurrentEvent(c, now).value &&
      forall j :: 0 <= j < k ==> !IsCurrent(c.events[j], now);
    assert k <= i;
  }

  /** With ordered events, the next event starts no later than any event
      not yet started. */
  lemma NextHasEarliestStart(c: Calendar, now: Instant, other: CalendarEvent)
    requires SortedByStart(c.events)
    requires other in c.events && IsFuture(other, now)
    ensures GetNextEvent(c, now).Some?
    ensures GetNextEvent(c, now).value.startTime <= other.startTime
  {
    var i :| 0 <= i < |c.events| && c.events[i] == other;
    var k :| 0 <= k < |c.events| && c.events[k] == GetNextEvent(c, now).value &&
      forall j :: 0 <= j < k ==> !IsFuture(c.events[j], now);
    assert k <= i;
  }

  /** The current event is listed among the future events and is never the
      next event. */
  lemma CurrentIsFutureButNotNext(c: Calendar, now: Instant)
    requires GetCurrentEvent(c, now).Some?
    ensures GetCurrentEvent(c, now).value in GetFutureEvents(c, now)
    ensures GetNextEvent(c, now) != GetCurrentEvent(c, now)
  {
    var e := GetCurrentEvent(c, now).value;
    var i :| 0 <= i < |c.events| && c.events[i] == e && IsCurrent(e, now);
    assert NotEnded(c.events[i], now);
  }

  /** An event that has not started but whose end precedes its start
      (malformed data, passed through) can be the next event while missing
      from the future list; with well-formed events it is always listed. */
  lemma NextIsFutureWhenWellFormed(c: Calendar, now: Instant)
    requires GetNextEvent(c, now).Some?
    requires GetNextEvent(c, now).value.startTime <= GetNextEvent(c, now).value.endTime
    ensures GetNextEvent(c, now).value in GetFutureEvents(c, now)
  {
    var e := GetNextEvent(c, now).value;
    var i :| 0 <= i < |c.events| && c.events[i] == e && IsFuture(e, now);
    assert NotEnded(c.events[i], now);
  }

  function Take<T>(s: seq<T>, n: nat): (r: seq<T>)
    ensures |r| <= n && |r| <= |s|
    ensures forall i :: 0 <= i < |r| ==> r[i] == s[i]
  {
    if n < |s| then s[..n] else s
  }

  /** The command-line front end's "upcoming" list: future events that are
      not under way, at most `n` of them. */
  function UpcomingEvents(c: Calendar, now: Instant, n: nat): (r: seq<CalendarEvent>)
    ensures |r| <= n
    ensures forall i :: 0 <= i < |r| ==> r[i] in c.events && IsFuture(r[i], now) && NotEnded(r[i], now)
  {
    var future := GetFutureEvents(c, now);
    var upcoming := NotUnderWay(future, now);
    UpcomingMembers(c, now, future, upcoming);
    Take(upcoming, n)
  }

  function NotUnderWay(s: seq<CalendarEvent>, now: Instant): (r: seq<CalendarEvent>)
    ensures forall i :: 0 <= i < |r| ==> r[i] in s && !IsCurrent(r[i], now)
  {
    Filter(s, (e: CalendarEvent) => !IsCurrent(e, now))
  }

  lemma UpcomingMembers(c: Calendar, now: Instant, future: seq<CalendarEvent>,
                        upcoming: seq<CalendarEvent>)
    requires forall i :: 0 <= i < |future| ==> future[i] in c.events && NotEnded(future[i], now)
    requires forall i :: 0 <= i < |upcoming| ==> upcoming[i] in future && !IsCurrent(upcoming[i], now)
    ensures forall i :: 0 <= i < |upcoming| ==>
      upcoming[i] in c.events && IsFuture(upcoming[i], now) && NotEnded(upcoming[i], now)
  {
    forall i | 0 <= i < |upcoming|
      ensures upcoming[i] in c.events && NotEnded(upcoming[i], now)
    {
      var j :| 0 <= j < |future| && future[j] == upcoming[i];
    }
  }
}
