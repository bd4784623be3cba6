/** Ordering the extracted events by start time. Rust's `sort_by` is a
    stable sort, so events with equal start times keep extraction order;
    the model is an insertion sort that places each event after every
    event already present whose start is not later. */
module StableSort {
  import opened Seqs
  import opened DateTimeValue
  import opened Event

  predicate SortedByStart(s: seq<CalendarEvent>) {
    forall i, j :: 0 <= i < j < |s| ==> s[i].startTime <= s[j].startTime
  }

  /** The events starting at instant `k`, in their order in `s`. */
  function WithStart(s: seq<CalendarEvent>, k: Instant): (r: seq<CalendarEvent>)
    ensures |r| <= |s|
  {
    if |s| == 0 then []
    else if s[0].startTime == k then [s[0]] + WithStart(s[1..], k)
    else WithStart(s[1..], k)
  }

  function Insert(s: seq<CalendarEvent>, e: CalendarEvent): (r: seq<CalendarEvent>)
    requires SortedByStart(s)
    ensures multiset(r) == multiset(s) + multiset{e}
    ensures SortedByStart(r)
  {
    if |s| == 0 then [e]
    else if e.startTime < s[0].startTime then [e] + s
    else
      var rest := Insert(s[1..], e);
      assert s == [s[0]] + s[1..];
      LowerBoundKept(s[0], s[1..], e, rest);
      [s[0]] + rest
  }

  lemma LowerBoundKept(first: CalendarEvent, tail: seq<CalendarEvent>, e: CalendarEvent,
                       rest: seq<CalendarEvent>)
    requires SortedByStart([first] + tail) && first.startTime <= e.startTime
    requires SortedByStart(rest)
    requires multiset(rest) == multiset(tail) + multiset{e}
    ensures SortedByStart([first] + rest)
  {
    forall i | 0 <= i < |rest| ensures first.startTime <= rest[i].startTime {
      assert rest[i] in multiset(rest);
      if rest[i] != e {
        assert rest[i] in multiset(tail);
        var j :| 0 <= j < |tail| && tail[j] == rest[i];
        assert ([first] + tail)[0] == first && ([first] + tail)[j + 1] == tail[j];
      }
    }
    forall i, j | 0 <= i < j < |[first] + rest|
      ensures ([first] + rest)[i].startTime <= ([first] + rest)[j].startTime
    {
      if i > 0 {
        assert ([first] + rest)[i] == rest[i - 1];
      }
      assert ([first] + rest)[j] == rest[j - 1];
    }
  }

  /** The events of `s`, sorted by start time: a permutation of `s`. */
  function SortByStart(s: seq<CalendarEvent>): (r: seq<CalendarEvent>)
    ensures multiset(r) == multiset(s)
    ensures SortedByStart(r)
  {
    if |s| == 0 then []
    else
      assert s == s[..|s| - 1] + [s[|s| - 1]];
      Insert(SortByStart(s[..|s| - 1]), s[|s| - 1])
  }

  lemma {:induction false} NoneStartEarlier(s: seq<CalendarEvent>, k: Instant)
    requires SortedByStart(s) && |s| > 0 && k < s[0].startTime
    ensures WithStart(s, k) == []
  {
    if |s| > 1 {
      NoneStartEarlier(s[1..], k);
    }
  }

  lemma {:induction false} WithStartAppend(a: seq<CalendarEvent>, b: seq<CalendarEvent>, k: Instant)
    ensures WithStart(a + b, k) == WithStart(a, k) + WithStart(b, k)
  {
    if |a| == 0 {
      assert a + b == b;
    } else {
      assert (a + b)[0] == a[0] && (a + b)[1..] == a[1..] + b;
      WithStartAppend(a[1..], b, k);
    }
  }

  lemma SortedTail(s: seq<CalendarEvent>)
    requires SortedByStart(s) && |s| > 0
    ensures SortedByStart(s[1..])
  {
    forall i, j | 0 <= i < j < |s| - 1 ensures s[1..][i].startTime <= s[1..][j].startTime {
      assert s[1..][i] == s[i + 1] && s[1..][j] == s[j + 1];
    }
  }

  /** An event placed before every other keeps its own key's order. */
  lemma InsertFrontIsStable(s: seq<CalendarEvent>, e: CalendarEvent, k: Instant)
    requires SortedByStart(s) && |s| > 0 && e.startTime < s[0].startTime
    ensures WithStart([e] + s, k) == WithStart(s, k) + WithStart([e], k)
  {
    WithStartAppend([e], s, k);
    if k == e.startTime {
      NoneStartEarlier(s, k);
    } else {
      assert WithStart([e], k) == [];
    }
  }

  /** Passing over the head keeps the head in front of its key's events. */
  lemma InsertLaterIsStable(s: seq<CalendarEvent>, e: CalendarEvent, k: Instant, rest: seq<CalendarEvent>)
    requires |s| > 0
    requires WithStart(rest, k) == WithStart(s[1..], k) + WithStart([e], k)
    ensures WithStart([s[0]] + rest, k) == WithStart(s, k) + WithStart([e], k)
  {
    WithStartAppend([s[0]], rest, k);
    assert s == [s[0]] + s[1..];
    WithStartAppend([s[0]], s[1..], k);
  }

  lemma {:induction false} InsertIsStable(s: seq<CalendarEvent>, e: CalendarEvent, k: Instant)
    requires SortedByStart(s)
    ensures WithStart(Insert(s, e), k) == WithStart(s, k) + WithStart([e], k)
  {
    if |s| == 0 {
      assert Insert(s, e) == [e] && s + [e] == [e];
    } else if e.startTime < s[0].startTime {
      InsertFrontIsStable(s, e, k);
    } else {
      SortedTail(s);
      InsertIsStable(s[1..], e, k);
      InsertLaterIsStable(s, e, k, Insert(s[1..], e));
    }
  }

  /** Stability: for every start instant, the events starting then appear
      in the sorted result exactly as, and in the order, they appear in `s`. */
  lemma {:induction false} SortIsStable(s: seq<CalendarEvent>, k: Instant)
    ensures WithStart(SortByStart(s), k) == WithStart(s, k)
  {
    if |s| > 0 {
      var init, last := s[..|s| - 1], s[|s| - 1];
      var sortedInit := SortByStart(init);
      assert SortByStart(s) == Insert(sortedInit, last);
      SortIsStable(init, k);
      InsertIsStable(sortedInit, last, k);
      assert s == init + [last];
      WithStartAppend(init, [last], k);
    }
  }

  lemma SortIsStableEverywhere(s: seq<CalendarEvent>)
    ensures forall k :: WithStart(SortByStart(s), k) == WithStart(s, k)
  {
    forall k ensures WithStart(SortByStart(s), k) == WithStart(s, k) {
      SortIsStable(s, k);
    }
  }

  /** The first element of a sorted sequence has the least start time. */
  lemma FirstOfSortedIsEarliest(t: seq<CalendarEvent>, x: CalendarEvent)
    requires SortedByStart(t) && |t| > 0 && x in t
    ensures t[0].startTime <= x.startTime
  {
  }

  lemma HeadOfWithStart(t: seq<CalendarEvent>)
    requires |t| > 0
    ensures WithStart(t, t[0].startTime) == [t[0]] + WithStart(t[1..], t[0].startTime)
  {
  }

  lemma TailOfWithStart(t: seq<CalendarEvent>, k: Instant)
    requires |t| > 0
    ensures k != t[0].startTime ==> WithStart(t, k) == WithStart(t[1..], k)
    ensures k == t[0].startTime ==> WithStart(t, k)[1..] == WithStart(t[1..], k)
  {
  }

  lemma {:induction false} MemberOfWithStart(t: seq<CalendarEvent>, x: CalendarEvent, k: Instant)
    requires x in WithStart(t, k)
    ensures x in t && x.startTime == k
  {
    if t[0].startTime != k || x != t[0] {
      MemberOfWithStart(t[1..], x, k);
    }
  }

  lemma HeadInWithStart(t: seq<CalendarEvent>)
    requires |t| > 0
    ensures t[0] in WithStart(t, t[0].startTime)
  {
    HeadOfWithStart(t);
  }

  /** Sortedness and stability determine the result: any sorted sequence
      with the same events per start instant as `s` is SortByStart(s). */
  lemma {:induction false} StableSortIsUnique(t: seq<CalendarEvent>, u: seq<CalendarEvent>)
    requires SortedByStart(t) && SortedByStart(u)
    requires forall k :: WithStart(t, k) == WithStart(u, k)
    ensures t == u
    decreases |t|
  {
    if |t| == 0 {
      if |u| > 0 {
        HeadInWithStart(u);
      }
    } else if |u| == 0 {
      HeadInWithStart(t);
    } else {
      HeadInWithStart(t);
      HeadInWithStart(u);
      assert WithStart(t, t[0].startTime) == WithStart(u, t[0].startTime);
      assert WithStart(t, u[0].startTime) == WithStart(u, u[0].startTime);
      MemberOfWithStart(u, t[0], t[0].startTime);
      MemberOfWithStart(t, u[0], u[0].startTime);
      FirstOfSortedIsEarliest(u, t[0]);
      FirstOfSortedIsEarliest(t, u[0]);
      var k0 := t[0].startTime;
      assert u[0].startTime == k0;
      HeadOfWithStart(t);
      HeadOfWithStart(u);
      assert WithStart(t, k0)[0] == t[0] && WithStart(u, k0)[0] == u[0];
      assert t[0] == u[0];
      SameTails(t, u);
      StableSortIsUnique(t[1..], u[1..]);
      assert t == [t[0]] + t[1..] && u == [u[0]] + u[1..];
    }
  }

  lemma SameTails(t: seq<CalendarEvent>, u: seq<CalendarEvent>)
    requires |t| > 0 && |u| > 0 && t[0] == u[0]
    requires forall k :: WithStart(t, k) == WithStart(u, k)
    ensures SortedByStart(t) ==> SortedByStart(t[1..])
    ensures forall k :: WithStart(t[1..], k) == WithStart(u[1..], k)
  {
    forall k ensures WithStart(t[1..], k) == WithStart(u[1..], k) {
      TailOfWithStart(t, k);
      TailOfWithStart(u, k);
      assert WithStart(t, k) == WithStart(u, k);
    }
  }
}
