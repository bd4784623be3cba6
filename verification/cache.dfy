/** The refresh-gated cache (Calendar): its configuration, its snapshot of
    events and last-update time, and `update` as a state transition. The
    network is replaced by its outcome, supplied by the caller together
    with the current instant and the instant the refresh completes. */
module Cache {
  import opened Wrappers
  import opened DateTimeValue
  import opened Event
  import opened Extract
  import opened StableSort

  const TwoTo63 := 0x8000_0000_0000_0000
  const TwoTo64 := 0x1_0000_0000_0000_0000

  type u64 = x: int | 0 <= x < TwoTo64

  datatype Calendar = Calendar(
    url: string,
    lastUpdated: Option<Instant>,
    events: seq<CalendarEvent>,
    refreshIntervalMinutes: u64)

  datatype CalendarError = FetchError | ParseError | NoEventsError

  /** What read_calendar makes of the unfolded response body. */
  datatype ReadOutcome = ReadFailed | Parsed(components: seq<Component>)

  /** What the HTTP request produced: a transport failure, or a status with
      a body that either could not be read or was read and parsed. */
  datatype FetchOutcome = TransportFailed | Response(status: int, body: Option<ReadOutcome>)

  datatype UpdateResult = UpdateResult(calendar: Calendar, outcome: Result<(), CalendarError>)

  /** Calendar::new: nothing fetched yet. */
  function NewCalendar(url: string, refreshIntervalMinutes: u64): (c: Calendar)
    ensures c.url == url && c.refreshIntervalMinutes == refreshIntervalMinutes
    ensures c.lastUpdated.None? && c.events == []
  {
    Calendar(url, None, [], refreshIntervalMinutes)
  }

  /** `n as i64` for a `u64`: two's-complement wrap-around. */
  function AsI64(n: u64): (r: int)
    ensures -TwoTo63 <= r < TwoTo63
    ensures r % TwoTo64 == n
  {
    if n < TwoTo63 then n else n - TwoTo64
  }

  /** `signed_duration_since(..).num_minutes()`: whole minutes, truncated
      toward zero. */
  function ElapsedMinutes(now: Instant, since: Instant): int {
    TruncDiv(now - since, 60)
  }

  /** The throttle: a refresh happened and fewer than the interval's
      minutes have elapsed since. In seconds, for a clock that has not gone
      back and an interval the cast leaves alone: fewer than 60 times the
      interval. */
  predicate IsFresh(c: Calendar, now: Instant): (b: bool)
    ensures c.lastUpdated.None? ==> !b
    ensures c.lastUpdated.Some? && c.lastUpdated.value <= now && c.refreshIntervalMinutes < TwoTo63 ==>
      (b <==> now - c.lastUpdated.value < 60 * c.refreshIntervalMinutes)
  {
    match c.lastUpdated
    case None => false
    case Some(since) =>
      MinutesBelowInterval(now - since, c.refreshIntervalMinutes);
      ElapsedMinutes(now, since) < AsI64(c.refreshIntervalMinutes)
  }

  /** Whole minutes below an interval are seconds below 60 times it. */
  lemma MinutesBelowInterval(d: int, n: u64)
    ensures 0 <= d && n < TwoTo63 ==> (TruncDiv(d, 60) < AsI64(n) <==> d < 60 * n)
  {
    if 0 <= d && n < TwoTo63 {
      var q := d / 60;
      assert d == 60 * q + d % 60;
      if q < n {
        assert 60 * (q + 1) <= 60 * n;
      } else {
        assert 60 * n <= 60 * q;
      }
    }
  }

  /** Elapsed whole minutes never decrease as the clock moves on. */
  lemma ElapsedMinutesMonotone(since: Instant, now: Instant, later: Instant)
    requires now <= later
    ensures ElapsedMinutes(now, since) <= ElapsedMinutes(later, since)
  {
    var a, b := now - since, later - since;
    if 0 <= a {
      assert a / 60 <= b / 60;
    } else if 0 <= b {
      assert -((-a) / 60) <= 0;
    } else {
      assert (-b) / 60 <= (-a) / 60;
    }
  }

  predicate IsSuccessStatus(status: int) {
    200 <= status < 300
  }

  /** The events a successful refresh installs: those extracted, ordered
      by start time. */
  function Refreshed(cs: seq<Component>, offset: int): seq<CalendarEvent> {
    SortByStart(ExtractEvents(cs, offset))
  }

  /** Calendar::update. Fresh: nothing happens. Otherwise the fetch outcome
      decides: every failure leaves the snapshot as it was, and a parsed
      document replaces events and last-update time together. */
  function Update(c: Calendar, now: Instant, fetch: FetchOutcome, completedAt: Instant,
                  offset: int): (r: UpdateResult)
    ensures r.calendar.url == c.url
    ensures r.calendar.refreshIntervalMinutes == c.refreshIntervalMinutes
    ensures IsFresh(c, now) ==> r == UpdateResult(c, Ok(()))
    ensures r.outcome.Err? ==> r.calendar == c && r.outcome.error != NoEventsError
    ensures !IsFresh(c, now) && (fetch.TransportFailed? || !IsSuccessStatus(fetch.status)) ==>
      r.outcome == Err(FetchError)
    ensures !IsFresh(c, now) && fetch.Response? && IsSuccessStatus(fetch.status) ==>
      (fetch.body.None? ==> r.outcome == Err(FetchError)) &&
      (fetch.body == Some(ReadFailed) ==> r.outcome == Err(ParseError))
    ensures !IsFresh(c, now) && fetch.Response? && IsSuccessStatus(fetch.status) &&
            fetch.body.Some? && fetch.body.value.Parsed? ==>
      var extracted := ExtractEvents(fetch.body.value.components, offset);
      && r.outcome == Ok(())
      && r.calendar.lastUpdated == Some(completedAt)
      && SortedByStart(r.calendar.events)
      && multiset(r.calendar.events) == multiset(extracted)
      && forall k :: WithStart(r.calendar.events, k) == WithStart(extracted, k)
  {
    if IsFresh(c, now) then UpdateResult(c, Ok(()))
    else
      match fetch
      case TransportFailed => UpdateResult(c, Err(FetchError))
      case Response(status, body) =>
        if !IsSuccessStatus(status) then UpdateResult(c, Err(FetchError))
        else
          match body
          case None => UpdateResult(c, Err(FetchError))
          case Some(ReadFailed) => UpdateResult(c, Err(ParseError))
          case Some(Parsed(cs)) =>
            SortIsStableEverywhere(ExtractEvents(cs, offset));
            UpdateResult(c.(events := Refreshed(cs, offset), lastUpdated := Some(completedAt)), Ok(()))
  }

  // ----- properties of the throttle -----

  /** A new calendar always fetches on its first update. */
  lemma NewCalendarFetchesFirst(url: string, interval: u64, now: Instant)
    ensures !IsFresh(NewCalendar(url, interval), now)
  {
  }

  /** While fresh, update does not consult the network: its result is the
      same whatever the fetch would have produced and whenever it would
      have completed. */
  lemma ThrottledIgnoresFetch(c: Calendar, now: Instant, f1: FetchOutcome, t1: Instant,
                              f2: FetchOutcome, t2: Instant, offset: int)
    requires IsFresh(c, now)
    ensures Update(c, now, f1, t1, offset) == Update(c, now, f2, t2, offset)
  {
  }

  lemma {:induction false} TruncDivBounds(a: int)
    ensures 0 <= a ==> 0 <= TruncDiv(a, 60) && 60 * TruncDiv(a, 60) <= a
    ensures -60 < a ==> 0 <= TruncDiv(a, 60)
  {
  }

  /** After a successful refresh completing at `done`, an update at any
      `now` fewer than interval minutes later (and not before `done`) is
      throttled. With an interval of 15, a second update one minute later
      does not fetch. */
  lemma {:induction false} UpdateWithinIntervalIsThrottled(
    c: Calendar, now: Instant, cs: seq<Component>, status: int, done: Instant,
    later: Instant, offset: int)
    requires !IsFresh(c, now) && IsSuccessStatus(status)
    requires c.refreshIntervalMinutes < TwoTo63
    requires done <= later < done + 60 * c.refreshIntervalMinutes
    ensures var c' := Update(c, now, Response(status, Some(Parsed(cs))), done, offset).calendar;
            IsFresh(c', later)
  {
    var c' := Update(c, now, Response(status, Some(Parsed(cs))), done, offset).calendar;
    assert c'.lastUpdated == Some(done);
    var m := TruncDiv(later - done, 60);
    TruncDivBounds(later - done);
    assert 60 * m <= later - done < 60 * c.refreshIntervalMinutes;
  }

  /** With an interval of 0 every update fetches, as long as the clock has
      not gone backwards by a minute or more. */
  lemma {:induction false} ZeroIntervalAlwaysFetches(c: Calendar, now: Instant)
    requires c.refreshIntervalMinutes == 0
    requires c.lastUpdated.Some? ==> now - c.lastUpdated.value > -60
    ensures !IsFresh(c, now)
  {
    if c.lastUpdated.Some? {
      TruncDivBounds(now - c.lastUpdated.value);
    }
  }

  /** An interval of 2^63 minutes or more turns negative in the cast to
      i64, so every update with a non-negative elapsed time fetches. */
  lemma {:induction false} HugeIntervalAlwaysFetches(c: Calendar, now: Instant)
    requires c.refreshIntervalMinutes >= TwoTo63
    requires c.lastUpdated.Some? ==> now >= c.lastUpdated.value
    ensures !IsFresh(c, now)
  {
    if c.lastUpdated.Some? {
      TruncDivBounds(now - c.lastUpdated.value);
    }
  }

  /** A failed update leaves the cache stale, so the next update retries at
      once instead of waiting out an interval. */
  lemma FailedUpdateStaysStale(c: Calendar, now: Instant, fetch: FetchOutcome, done: Instant,
                               offset: int, later: Instant)
    requires !IsFresh(c, now)
    requires Update(c, now, fetch, done, offset).outcome.Err?
    requires now <= later
    ensures !IsFresh(Update(c, now, fetch, done, offset).calendar, later)
  {
    assert Update(c, now, fetch, done, offset).calendar == c;
    if c.lastUpdated.Some? {
      ElapsedMinutesMonotone(c.lastUpdated.value, now, later);
    }
  }

  /** The events of a calendar stay ordered by start time across updates. */
  lemma UpdateKeepsEventsSorted(c: Calendar, now: Instant, fetch: FetchOutcome, done: Instant,
                                offset: int)
    requires SortedByStart(c.events)
    ensures SortedByStart(Update(c, now, fetch, done, offset).calendar.events)
  {
  }

  /** The installed events are exactly the stable sort of the extracted
      ones: any sorted arrangement with the same events per start instant
      is this one. */
  lemma {:induction false} RefreshedIsTheStableSort(cs: seq<Component>, offset: int,
                                                    t: seq<CalendarEvent>)
    requires SortedByStart(t)
    requires forall k :: WithStart(t, k) == WithStart(ExtractEvents(cs, offset), k)
    ensures t == Refreshed(cs, offset)
  {
    SortIsStableEverywhere(ExtractEvents(cs, offset));
    StableSortIsUnique(t, Refreshed(cs, offset));
  }
}
