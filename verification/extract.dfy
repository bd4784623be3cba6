/** Building events out of parsed calendar components: the extraction loop
    of Calendar::update over the VEVENT components of RFC 5545 section
    3.6.1. A property is a name and its raw value (parameters such as TZID
    are never read). */
module Extract {
  import opened Wrappers
  import opened DateTimeValue
  import opened Event

  datatype Property = Property(name: string, value: string)

  datatype Component = Component(name: string, properties: seq<Property>)

  const VEvent := "VEVENT"
  const Summary := "SUMMARY"
  const DtStart := "DTSTART"
  const DtEnd := "DTEND"
  const Location := "LOCATION"
  const Description := "DESCRIPTION"

  /** The five recognised properties of one component, as read so far. */
  datatype Slots = Slots(
    summary: Option<string>,
    dtstart: Option<Instant>,
    dtend: Option<Instant>,
    location: Option<string>,
    description: Option<string>)

  const NoSlots := Slots(None, None, None, None, None)

  /** One iteration of the property loop: a recognised property overwrites
      its slot, and a DTSTART or DTEND value that does not parse clears it. */
  function Absorb(s: Slots, p: Property, offset: int): (r: Slots)
    ensures p.name == Summary ==> r.summary == Some(p.value)
    ensures p.name == DtStart ==> r.dtstart == ParseDateTimeProperty(p.value, offset)
    ensures p.name == DtEnd ==> r.dtend == ParseDateTimeProperty(p.value, offset)
    ensures p.name == Location ==> r.location == Some(p.value)
    ensures p.name == Description ==> r.description == Some(p.value)
    ensures p.name != Summary ==> r.summary == s.summary
    ensures p.name != DtStart ==> r.dtstart == s.dtstart
    ensures p.name != DtEnd ==> r.dtend == s.dtend
    ensures p.name != Location ==> r.location == s.location
    ensures p.name != Description ==> r.description == s.description
  {
    if p.name == Summary then s.(summary := Some(p.value))
    else if p.name == DtStart then s.(dtstart := ParseDateTimeProperty(p.value, offset))
    else if p.name == DtEnd then s.(dtend := ParseDateTimeProperty(p.value, offset))
    else if p.name == Location then s.(location := Some(p.value))
    else if p.name == Description then s.(description := Some(p.value))
    else s
  }

  /** The whole property loop, in document order. */
  function ScanProperties(props: seq<Property>, offset: int): Slots {
    if |props| == 0 then NoSlots
    else Absorb(ScanProperties(props[..|props| - 1], offset), props[|props| - 1], offset)
  }

  /** `i` is the position of the last property named `key`. */
  ghost predicate IsLastIndex(props: seq<Property>, key: string, i: int) {
    0 <= i < |props| && props[i].name == key &&
    forall j :: i < j < |props| ==> props[j].name != key
  }

  /** The position of the last property named `key`, if any. */
  function LastIndexOf(props: seq<Property>, key: string): (r: Option<nat>)
    ensures r.Some? ==> IsLastIndex(props, key, r.value)
    ensures r.None? <==> forall j :: 0 <= j < |props| ==> props[j].name != key
  {
    if |props| == 0 then None
    else if props[|props| - 1].name == key then Some(|props| - 1)
    else
      var r := LastIndexOf(props[..|props| - 1], key);
      assert forall j :: 0 <= j < |props| - 1 ==> props[j] == props[..|props| - 1][j];
      r
  }

  /** The raw value of the last property named `key`. */
  function LastValue(props: seq<Property>, key: string): Option<string> {
    match LastIndexOf(props, key)
    case None => None
    case Some(i) => Some(props[i].value)
  }

  function ParseOpt(v: Option<string>, offset: int): Option<Instant> {
    match v
    case None => None
    case Some(s) => ParseDateTimeProperty(s, offset)
  }

  /** Last occurrence wins: each slot holds the last value given for its
      property, parsed for DTSTART and DTEND, and nothing if none was given. */
  lemma {:induction false} ScanIsLastOccurrence(props: seq<Property>, offset: int)
    ensures ScanProperties(props, offset) ==
      Slots(LastValue(props, Summary),
            ParseOpt(LastValue(props, DtStart), offset),
            ParseOpt(LastValue(props, DtEnd), offset),
            LastValue(props, Location),
            LastValue(props, Description))
  {
    if |props| > 0 {
      var init := props[..|props| - 1];
      ScanIsLastOccurrence(init, offset);
      forall key | true
        ensures props[|props| - 1].name != key ==> LastValue(props, key) == LastValue(init, key)
      {
        if props[|props| - 1].name != key && LastIndexOf(init, key).Some? {
          assert props[LastIndexOf(init, key).value] == init[LastIndexOf(init, key).value];
        }
      }
    }
  }

  /** One component: an event when it is a VEVENT whose SUMMARY, DTSTART and
      DTEND slots are all filled; otherwise nothing, silently. */
  function ExtractEvent(c: Component, offset: int): (r: Option<CalendarEvent>)
    ensures r.Some? ==> c.name == VEvent
    ensures r.Some? ==>
      exists i :: 0 <= i < |c.properties| && c.properties[i] == Property(Summary, r.value.name)
    ensures r.Some? ==>
      exists i :: 0 <= i < |c.properties| && c.properties[i].name == DtStart &&
        ParseDateTimeProperty(c.properties[i].value, offset) == Some(r.value.startTime)
    ensures r.Some? ==>
      exists i :: 0 <= i < |c.properties| && c.properties[i].name == DtEnd &&
        ParseDateTimeProperty(c.properties[i].value, offset) == Some(r.value.endTime)
  {
    if c.name != VEvent then None
    else
      var s := ScanProperties(c.properties, offset);
      ScanIsLastOccurrence(c.properties, offset);
      if s.summary.Some? && s.dtstart.Some? && s.dtend.Some? then
        Some(NewEvent(s.summary.value, s.dtstart.value, s.dtend.value, s.location, s.description))
      else None
  }

  /** When a component yields an event, and what that event holds, in terms
      of the last occurrence of each property. */
  lemma ExtractEventCharacterised(c: Component, offset: int)
    ensures ExtractEvent(c, offset).Some? <==>
      c.name == VEvent &&
      LastValue(c.properties, Summary).Some? &&
      ParseOpt(LastValue(c.properties, DtStart), offset).Some? &&
      ParseOpt(LastValue(c.properties, DtEnd), offset).Some?
    ensures ExtractEvent(c, offset).Some? ==>
      var e := ExtractEvent(c, offset).value;
      && Some(e.name) == LastValue(c.properties, Summary)
      && Some(e.startTime) == ParseOpt(LastValue(c.properties, DtStart), offset)
      && Some(e.endTime) == ParseOpt(LastValue(c.properties, DtEnd), offset)
      && e.location == LastValue(c.properties, Location)
      && e.description == LastValue(c.properties, Description)
  {
    ScanIsLastOccurrence(c.properties, offset);
  }

  /** A component without DTEND is dropped. */
  lemma MissingEndDropsEvent(c: Component, offset: int)
    requires forall j :: 0 <= j < |c.properties| ==> c.properties[j].name != DtEnd
    ensures ExtractEvent(c, offset) == None
  {
    ScanIsLastOccurrence(c.properties, offset);
  }

  /** A DTSTART that does not parse, given after one that does, still drops
      the event: the later occurrence overwrites the earlier one. */
  lemma LaterBadStartDropsEvent(before: seq<Property>, bad: string, after: seq<Property>,
                                name: string, offset: int)
    requires ParseDateTimeProperty(bad, offset).None?
    requires forall j :: 0 <= j < |after| ==> after[j].name != DtStart
    ensures ExtractEvent(Component(name, before + [Property(DtStart, bad)] + after), offset) == None
  {
    var props := before + [Property(DtStart, bad)] + after;
    ScanIsLastOccurrence(props, offset);
    assert IsLastIndex(props, DtStart, |before|) by {
      forall j | |before| < j < |props| ensures props[j].name != DtStart {
        assert props[j] == after[j - |before| - 1];
      }
    }
  }

  /** Every component in document order, each contributing at most one event;
      no component's failure stops the others. */
  function ExtractEvents(cs: seq<Component>, offset: int): (r: seq<CalendarEvent>)
    ensures |r| <= |cs|
  {
    if |cs| == 0 then []
    else
      var e := ExtractEvent(cs[0], offset);
      (if e.Some? then [e.value] else []) + ExtractEvents(cs[1..], offset)
  }

  /** Extraction preserves document order: the events of a concatenation
      are the events of each part, in turn. */
  lemma {:induction false} ExtractEventsAppend(a: seq<Component>, b: seq<Component>, offset: int)
    ensures ExtractEvents(a + b, offset) == ExtractEvents(a, offset) + ExtractEvents(b, offset)
  {
    if |a| == 0 {
      assert a + b == b;
    } else {
      assert (a + b)[0] == a[0] && (a + b)[1..] == a[1..] + b;
      var e := ExtractEvent(a[0], offset);
      var head := if e.Some? then [e.value] else [];
      ExtractEventsAppend(a[1..], b, offset);
      calc {
        ExtractEvents(a + b, offset);
        head + ExtractEvents(a[1..] + b, offset);
        head + (ExtractEvents(a[1..], offset) + ExtractEvents(b, offset));
        (head + ExtractEvents(a[1..], offset)) + ExtractEvents(b, offset);
      }
    }
  }

  /** An event is extracted iff some component yields it. */
  lemma {:induction false} ExtractEventsMembers(cs: seq<Component>, offset: int, e: CalendarEvent)
    ensures e in ExtractEvents(cs, offset) <==>
      exists i :: 0 <= i < |cs| && ExtractEvent(cs[i], offset) == Some(e)
  {
    if |cs| > 0 {
      ExtractEventsMembers(cs[1..], offset, e);
      if exists i :: 0 <= i < |cs| && ExtractEvent(cs[i], offset) == Some(e) {
        var i :| 0 <= i < |cs| && ExtractEvent(cs[i], offset) == Some(e);
        if i > 0 {
          assert cs[1..][i - 1] == cs[i];
        }
      }
      if e in ExtractEvents(cs[1..], offset) {
        var i :| 0 <= i < |cs[1..]| && ExtractEvent(cs[1..][i], offset) == Some(e);
        assert cs[i + 1] == cs[1..][i];
      }
    }
  }
}
