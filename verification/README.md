# Meeting-room display core, modelled in Dafny

This project models the core of a meeting-room e-paper display server.
The server reads an iCalendar feed, keeps a refresh-gated cache of the
meeting events, and answers "what is on now / next / later" queries. It
also serves a bitmap to registered display devices behind a header check.

The model covers three parts.

1. **Calendar ingestion and queries** (`src/calendar.rs`):
   - the date-time value dispatch of `parse_datetime_property`;
   - the VEVENT property extraction loop of `Calendar::update`;
   - `CalendarEvent::new`, `format_time_range`, `is_current` and `is_future`;
   - `Calendar::new` and `Calendar::update`, as a pure state transition;
   - the three queries.
2. **Request gating** (`src/server/handlers.rs`):
   - `validate_headers`;
   - the decisions of `setup_handler` and `display_handler`, over an
     abstract set of registered device IDs.
3. **`draw_border`** (`src/bmp.rs`): a black rectangle outline drawn into
   a grey-scale image under explicit bounds guards.

Modelling choices:

- **Instants** are integer seconds since 1970-01-01T00:00:00 UTC.
- **The local zone** is a fixed offset in seconds east of UTC: local wall
  time is the instant plus the offset. `Civil.DaysFromCivil` turns a
  proleptic Gregorian date into a day number.
- **"Now" and the completion time** are parameters wherever the code reads
  the clock. The network fetch becomes a `Cache.FetchOutcome` value.
- **The parsed calendar** is given as a sequence of `Extract.Component`
  values. Each is a name plus its `(name, value)` properties.
- **Header values** are bytes. `HeaderValue::to_str` accepts tab and the
  visible ASCII bytes 32 to 126.
- **The bitmap** is opaque bytes, or `None` when generating it failed.
  `Base64.Encode` and `Base64.Decode` model the standard alphabet of
  section 4 of RFC 4648, with `=` padding.
- **The image** for `draw_border` is a value: rows of `Luma` pixels, read
  as `img[y][x]`. The method returns the drawn copy. `put_pixel`'s panic
  outside the image is a precondition of `Bmp.PutPixel`, so verifying the
  method shows that no write falls outside the image.

A repeated SUMMARY, DTSTART, DTEND, LOCATION or DESCRIPTION overwrites its
slot (`src/calendar.rs:174-183`), so the last occurrence wins
(`Extract.ScanIsLastOccurrence`).

Event extraction reads DTSTART and DTEND values with
`DateTimeValue.ParseDateTimeProperty`, the dispatch with its UTC branch
read as intended (first row of "## Findings"). As written, the code drops
every event whose start or end is a `…Z` value. The as-written dispatch is
`DateTimeValue.ParseDateTimePropertyAsWritten`, and
`DateTimeValue.AsWrittenAgreesOffUtcForm` shows that the two agree on every
other value.

Module layout: `Wrappers`, `Seqs`, `Digits`, `Civil`, `DateTimeValue`,
`Event`, `Extract`, `StableSort`, `Cache`, `Queries`, `Base64`, `Handlers`
and `Bmp`, one file each.

## Model

| member | source | states |
|---|---|---|
| DateTimeValue.ParseDateTimeProperty | src/calendar.rs:225-262 | The dispatch with the UTC branch read as intended. A value is accepted iff it has the UTC form, the floating form or the DATE form. A UTC value gives its UTC instant. A floating value gives its wall time minus the offset. A DATE gives local midnight minus the offset. Every other value gives None. |
| DateTimeValue.ParseDateTimePropertyAsWritten | src/calendar.rs:225-262 | As the code runs, a value is accepted iff it has the floating form or the DATE form: no `Z` value is ever accepted. |
| DateTimeValue.ScanUtcPattern | src/calendar.rs:233 | The scan of `%Y%m%dT%H%M%SZ` matches exactly the values of the UTC form, and it never records an offset, because the `Z` is a literal. |
| DateTimeValue.ScannedInstant | src/calendar.rs:233-235 | Turning a scan into a zoned date-time succeeds iff the scan recorded an offset. |
| DateTimeValue.UtcBranchAsWritten | src/calendar.rs:231-236 | The UTC branch as written never yields an instant, whatever the value. |
| DateTimeValue.UtcBranch | src/calendar.rs:231-236 | The UTC branch as intended: it succeeds exactly on UTC-form values, with the scanned stamp read at offset zero. |
| DateTimeValue.UtcValue | src/calendar.rs:231-236 | The digits of any valid date-time followed by `Z` parse to that UTC instant, whatever the local offset. |
| DateTimeValue.LocalValue | src/calendar.rs:238-248 | The digits of any valid date-time, without `Z`, parse to its local wall time: the wall seconds minus the offset. |
| DateTimeValue.DateValue | src/calendar.rs:250-259 | The eight digits of any valid date parse to local midnight of that date. |
| DateTimeValue.UtcAndLocalDifferByOffset | src/calendar.rs:231-248 | The same digits with and without `Z` give instants that differ by exactly the zone offset. |
| DateTimeValue.AcceptedValuesAreWellFormed | src/calendar.rs:225-262 | Every accepted value is one of the three forms written out from a valid date or date-time, so trailing junk and impossible dates are rejected. |
| DateTimeValue.UtcValueRejectedAsWritten | src/calendar.rs:232-236 | As written, every well-formed UTC value yields None, although the intended reading gives its UTC instant. |
| DateTimeValue.AsWrittenAgreesOffUtcForm | src/calendar.rs:238-261 | The code as written and the corrected dispatch agree on every value not of the UTC form. |
| DateTimeValue.DateRoundTrip | src/calendar.rs:251 | `%Y%m%d` on fixed-width fields reads back exactly the valid dates it writes. |
| DateTimeValue.DateTimeRoundTrip | src/calendar.rs:240 | `%Y%m%dT%H%M%S` on fixed-width fields reads back exactly the valid date-times it writes. |
| DateTimeValue.FormatDateTime | src/calendar.rs:240 | The basic date-time form is 15 characters with `T` at position 8. |
| Digits.ValueOfPad | src/calendar.rs:75-76 | A number written zero-padded to its width reads back as that number. |
| Digits.PadOfValue | src/calendar.rs:240 | A fixed-width digit field is the zero-padded writing of its value. |
| Digits.DigitsValue | src/calendar.rs:240 | A field of n digits denotes a number below 10^n. |
| Civil.DaysFromCivilNextDay | src/calendar.rs:242-243 | Consecutive calendar days have consecutive day numbers, including across month ends, year ends and 29 February. |
| Civil.DaysFromCivilMonotone | src/calendar.rs:242-243 | Later dates have larger day numbers, so distinct valid dates give distinct instants. |
| Civil.YearLength | src/calendar.rs:242-243 | A year spans 366 days when it is a leap year and 365 otherwise. |
| Civil.NextDay | src/calendar.rs:242-243 | The day after a valid date is a valid date. |
| Event.NewEvent | src/calendar.rs:51-69 | The fields are stored as given. The duration is the whole minutes from start to end, truncated toward zero: negative when the end precedes the start by a minute or more, and 0 when it precedes it by less. |
| Event.MeetingExample | src/calendar.rs:269-285 | In any fixed zone, 09:00 to 10:30 on 2023-01-01 lasts 90 minutes and renders as `09:00 - 10:30`. |
| Event.ClockText | src/calendar.rs:75-76 | `%H:%M` is five characters: two digits, a colon, two digits. |
| Event.ClockTextIsWallClockMinute | src/calendar.rs:75-76 | The hour and minute shown name the local wall-clock minute that contains the instant. |
| Event.ClockOf | src/calendar.rs:75-76 | The two fields shown read back as the hour and minute given. |
| Event.FormatTimeRange | src/calendar.rs:72-78 | The rendering is 13 characters: the start's `%H:%M`, then ` - `, then the end's `%H:%M`. |
| Event.FormatTimeRangeOfLocalValue | src/calendar.rs:238-246 | For a start read from a floating value, the start half of the rendering repeats the value's own HH and MM digits. |
| Event.TimeRangeOfLocalTimes | src/calendar.rs:72-78 | For times read from floating values, the rendering shows those values' hours and minutes. |
| Event.IsCurrent | src/calendar.rs:81-84 | An event is ongoing only if it has positive length. |
| Event.IsFuture | src/calendar.rs:87-89 | An upcoming event is not ongoing, and an upcoming event whose end does not precede its start has not ended. |
| Event.CurrentExcludesFuture | src/calendar.rs:80-89 | An ongoing event is not upcoming, and an event that is neither has already ended. |
| Extract.Absorb | src/calendar.rs:174-183 | A recognised property sets its own slot: the text for SUMMARY, LOCATION and DESCRIPTION, the parsed instant (or None) for DTSTART and DTEND. Every other slot is left as it was, and an unrecognised property changes nothing. |
| Extract.ExtractEvent | src/calendar.rs:161-189 | An event comes only from a VEVENT. Its name is the value of one of the component's SUMMARY properties, and its start and end are parsed from one of its DTSTART and DTEND properties. |
| Extract.ScanIsLastOccurrence | src/calendar.rs:167-183 | Each slot holds the last value given for its property, parsed for DTSTART and DTEND, and None when the property never occurs. |
| Extract.LastIndexOf | src/calendar.rs:174-183 | The index found is the last property with that name, and None means no property has it. |
| Extract.ExtractEventCharacterised | src/calendar.rs:161-189 | A component yields an event iff it is named exactly VEVENT, has a SUMMARY, and the last DTSTART and DTEND both parse. The event then holds those last values. |
| Extract.MissingEndDropsEvent | src/calendar.rs:185-188 | A component without DTEND yields no event. |
| Extract.LaterBadStartDropsEvent | src/calendar.rs:177-188 | An unparseable DTSTART after a good one clears the slot and drops the event. |
| Extract.ExtractEvents | src/calendar.rs:161-189 | Each component contributes at most one event. |
| Extract.ExtractEventsAppend | src/calendar.rs:161-189 | Extraction keeps document order, and no component's failure affects the others. |
| Extract.ExtractEventsMembers | src/calendar.rs:161-189 | An event is extracted iff some component yields it. |
| StableSort.Insert | src/calendar.rs:192 | Inserting into a sorted list keeps it sorted and adds exactly the one event. |
| StableSort.SortByStart | src/calendar.rs:192 | The result is a permutation of the input, ascending by start time. |
| StableSort.SortIsStable | src/calendar.rs:192 | For every start instant, the events starting then appear in the result in their input order, as `sort_by`'s stability promises. |
| StableSort.InsertIsStable | src/calendar.rs:192 | Insertion places an event after every event already present with the same start. |
| StableSort.StableSortIsUnique | src/calendar.rs:192 | Two sorted lists with the same events, in the same order, per start instant are equal. |
| Cache.NewCalendar | src/calendar.rs:109-116 | A new calendar keeps its URL and interval, has no last-update time and has no events. |
| Cache.AsI64 | src/calendar.rs:125 | `u64 as i64` gives the value in the i64 range that is congruent to the input modulo 2^64. |
| Cache.Update | src/calendar.rs:119-201 | A fresh cache returns Ok unchanged. A transport failure, a non-2xx status or an unreadable body gives FetchError. A parse failure gives ParseError. Every failure leaves the calendar exactly as it was. Success installs the extracted events sorted, as a permutation, stable per start instant, with last-update time the completion time. URL and interval never change. |
| Cache.IsFresh | src/calendar.rs:121-131 | A calendar never updated is never fresh. With a clock that has not gone back and an interval below 2^63, it is fresh iff fewer than 60 × interval seconds have passed since the last update. |
| Cache.NewCalendarFetchesFirst | src/calendar.rs:121 | A calendar that has never been updated is never fresh, so its first update fetches. |
| Cache.ThrottledIgnoresFetch | src/calendar.rs:121-131 | While fresh, update's result does not depend on what the fetch would have produced. |
| Cache.UpdateWithinIntervalIsThrottled | src/calendar.rs:121-131 | After a successful refresh, an update less than the interval's minutes later, and not before it, is throttled. |
| Cache.ZeroIntervalAlwaysFetches | src/calendar.rs:125 | With interval 0, every update fetches unless the clock went back a minute or more. |
| Cache.HugeIntervalAlwaysFetches | src/calendar.rs:125 | An interval of 2^63 minutes or more wraps negative in the cast, so every update with non-negative elapsed time fetches. |
| Cache.FailedUpdateStaysStale | src/calendar.rs:121-156 | A failed update leaves the cache stale at every later instant, so the next update fetches again. |
| Cache.UpdateKeepsEventsSorted | src/calendar.rs:191-195 | The cached events stay ordered by start time across every update. |
| Cache.RefreshedIsTheStableSort | src/calendar.rs:191-195 | Any sorted list with the same events per start instant as the extracted list is exactly the list installed. |
| Queries.GetCurrentEvent | src/calendar.rs:204-209 | Returns the first event in list order with start ≤ now < end, and None iff there is none. |
| Queries.GetNextEvent | src/calendar.rs:212-215 | Returns the first event in list order that starts after now, and None iff there is none. |
| Queries.GetFutureEvents | src/calendar.rs:218-221 | Returns exactly the events not yet ended, ongoing ones included, each as many times as it is cached. |
| Queries.FutureEventsAreSubsequence | src/calendar.rs:218-221 | The future list keeps the order of the cached list. |
| Queries.FutureEventsSorted | src/calendar.rs:218-221 | When the cache is ordered by start, so is the future list. |
| Queries.SubsequenceKeepsSorted | src/calendar.rs:218-221 | Deleting elements from a list ordered by start keeps it ordered. |
| Queries.CurrentHasEarliestStart | src/calendar.rs:204-209 | With ordered events, the current event starts no later than any other event under way. |
| Queries.NextHasEarliestStart | src/calendar.rs:212-215 | With ordered events, the next event starts no later than any event not yet started. |
| Queries.CurrentIsFutureButNotNext | src/calendar.rs:204-221 | The current event is in the future list and is never the next event. |
| Queries.NextIsFutureWhenWellFormed | src/calendar.rs:212-221 | A next event whose end does not precede its start is in the future list. |
| Queries.UpcomingEvents | src/bin/calendar_cli.rs:48-53 | The upcoming list holds at most n events. Each is cached, not yet started and not ended. |
| Seqs.FindFirst | src/calendar.rs:206-214 | `find` returns the first element satisfying the predicate, and None iff no element does. |
| Seqs.Filter | src/calendar.rs:220 | `filter` keeps exactly the elements satisfying the predicate, each with its multiplicity, and drops the rest. |
| Seqs.FilterIsSubsequence | src/calendar.rs:220 | `filter` keeps the order of the elements it keeps. |
| Handlers.GetHeader | src/server/handlers.rs:40-42 | Returns the value of the first header whose name matches case-insensitively, and None iff no header matches. |
| Handlers.HeaderText | src/server/handlers.rs:44-45 | A value is text iff every byte is a tab or visible ASCII; the text has the same characters. |
| Handlers.ValidateHeaders | src/server/handlers.rs:38-61 | A missing ID is reported first, then an ID that is not text. The call succeeds iff ID is text and Access-Token is present and exactly the configured token. It then returns the ID unchanged. Every failure is an auth error. |
| Handlers.TokenFailures | src/server/handlers.rs:49-58 | With a usable ID: a missing token, a non-text token and a wrong token each get their own auth error. |
| Handlers.ValidCredentialsAccepted | src/server/handlers.rs:38-61 | A textual ID together with the configured token is accepted under that ID, whatever headers follow. |
| Handlers.SetupHandler | src/server/handlers.rs:64-84 | A request that fails validation changes nothing. An accepted device is added to the registered set and is always told "registration updated". |
| Handlers.FreshDeviceReportedAsUpdated | src/server/handlers.rs:72-81 | A device never registered before is told its registration was updated, unlike the intended handler. |
| Handlers.SetupHandlerIntended | src/server/handlers.rs:72-81 | With the existence check made before registering, the message is "registered successfully" exactly for a device not registered before. |
| Handlers.DisplayHandler | src/server/handlers.rs:87-122 | A request that fails validation gets that error. An unregistered device is refused with NotRegistered and no image. Success happens iff the device is registered and the bitmap exists. The response is then `demo.bmp` with timeout 0, refresh rate 200, and a `data:image/bmp;base64,` URL that decodes to the bitmap. |
| Handlers.DisplayAfterSetup | src/server/handlers.rs:64-122 | After setup succeeds, display accepts the same headers. |
| Base64.Encode | src/server/handlers.rs:110 | The encoding has 4 characters for every started group of 3 bytes. |
| Base64.RoundTrip | src/server/handlers.rs:110-111 | Decoding the standard encoding of any bytes gives those bytes back. |
| Base64.CharSextet | src/server/handlers.rs:110 | Reading an alphabet character gives the 6-bit value that writes it. |
| Bmp.DrawBorder | src/bmp.rs:162-197 | The image keeps its size. A pixel becomes black iff it is on the top or bottom edge (columns x to x+width-1) or the left or right edge (rows y to y+height-1), within the image size cast to i32. Every other pixel keeps its value. |
| Bmp.DrawHorizontalEdges | src/bmp.rs:172-183 | The first loop blackens exactly the guarded pixels of rows y and y+height in columns x to x+width-1. |
| Bmp.DrawVerticalEdges | src/bmp.rs:185-196 | The second loop blackens exactly the guarded pixels of columns x and x+width in rows y to y+height-1. |
| Bmp.PutPixel | src/bmp.rs:176-193 | A write inside the image changes that one pixel and nothing else. |
| Bmp.U32AsI32 | src/bmp.rs:173-193 | `u32 as i32` gives the i32 congruent to the input modulo 2^32, which is never larger than the input. |
| Bmp.FarCornerNeverPainted | src/bmp.rs:172-196 | Both ranges are half-open, so the corner (x+width, y+height) is never painted. |
| Bmp.EmptyRangesPaintNothing | src/bmp.rs:172-196 | A width ≤ 0 paints no top or bottom edge pixel, and a height ≤ 0 paints no left or right edge pixel. |
| Bmp.SmallImagesPaintWholeEdges | src/bmp.rs:173-193 | For images under 2^31 pixels wide and high, every edge pixel inside the image is painted. |

## Left out

- **The HTTP fetch and async/await** (`reqwest`, `src/calendar.rs:137-151`). The fetch is replaced by its outcome, given as input.
- **`unfold` and `read_calendar`** from the icalendar crate (`src/calendar.rs:154-156`). Their code is not part of this model; the parsed component list is taken as input, and a `read_calendar` failure is the `ReadFailed` outcome.
- **Daylight-saving time** and the `.single().unwrap_or_else(Local::now)` fallback (`src/calendar.rs:244-245, 256-257`). The zone is a fixed offset, so local times are never ambiguous and the fallback never triggers.
- **chrono's leniencies.** chrono also reads `%Y`, `%m`, `%d`, `%H`, `%M` and `%S` with fewer digits, skips leading whitespace and accepts second 60.
  - DateTimeValue.ParseDateTimeProperty: accepts only the fixed-width forms with second below 60 and year 0 to 9999. This agrees with chrono on well-formed iCalendar values but rejects some inputs chrono accepts.
- **The as-written UTC branch in extraction.** Extraction uses the corrected UTC reading of the first finding.
  - Extract.ExtractEventCharacterised: a component whose last DTSTART or DTEND is a `…Z` value yields an event here; the code as written drops it.
  - Cache.Update: installs the events extracted with the corrected UTC reading, so it keeps the `…Z`-timed events the code as written drops.
- **Sub-second precision**, `Display` for events, and debug logging.
- **Property parameters** such as TZID. The code never reads them (it uses `property.val` only), and neither does the model.
- **Cancellation, concurrency and the single-flight requirement** for `update`. The code has no locking; the model is sequential.
- **`generate_bmp` / `generate_hello_world_bmp`** (font layout with floating-point metrics, file I/O, BMP encoding). The bitmap is opaque bytes, and a generation failure is `None`.
- **The SQLite database** (`src/database.rs`, `src/database/mod.rs`). It is an abstract set of registered IDs.
  - Handlers.SetupHandler: a database failure in `register_device` or `device_exists` (a `DbError`) is not modelled; the set operations always succeed.
  - Handlers.DisplayHandler: a database failure in `device_exists` is not modelled.
- **Headers given more than once.** Only the first value of a header name is read, as `HeaderMap::get` does; the others are ignored.
- **The error-to-HTTP-status mapping** (`src/server/errors.rs`), configuration, server wiring and the JSON encoding of responses.
- Bmp.DrawBorder: requires that `x+width` and `y+height` fit in i32. A debug build panics on that overflow; a release build would wrap, and the wrap is not modelled.
- Queries.UpcomingEvents: states the bound and each element's properties. It does not state that the result is exactly the first n such events in list order.
- Event.ClockText: its own contract states only the `HH:MM` shape. The meaning of the digits is stated by Event.ClockTextIsWallClockMinute.
- The command-line front end (`src/bin/calendar_cli.rs`) apart from its upcoming-events selection.

## Findings

| source | as written | input that shows it | evidently intended | confidence | as-written member | corrected member |
|---|---|---|---|---|---|---|
| src/calendar.rs:233 | `DateTime::parse_from_str(&value, "%Y%m%dT%H%M%SZ")` has no offset item (the `Z` is a literal), so it always fails for lack of an offset. The value then fails the local branch (trailing `Z`) and the date branch (length), and the event is dropped. | `"20230101T090000Z"` as a DTSTART value | The UTC instant 2023-01-01T09:00:00Z | not executed; high (chrono's documented behaviour for a format without an offset item) | DateTimeValue.UtcValueRejectedAsWritten | DateTimeValue.UtcValue |
| src/server/handlers.rs:73-75 | `is_new` is computed after `register_device`, so `device_exists` is always true and `is_new` always false. | Any device ID not yet registered, with valid headers | "Device … registered successfully" for a device not registered before | not executed; high | Handlers.FreshDeviceReportedAsUpdated | Handlers.SetupHandlerIntended |
