# FamilyHealth visit scheduling — a verified model

FamilyHealth is a demo clinic-booking service. Patients search for free
appointment slots with doctors or clinic services, book a visit, list their
visits and cancel them. Patient id 0 is the administrator, who may also see
busy slots and every patient's visits. An agent plugin (`fh-api`) turns loosely
typed tool arguments into calls to that HTTP API.

This project models three parts of it in Dafny and proves their properties:

- **The scheduling engine** (`app/slot_service.py`).
  - `occupancy.dfy`: the overlap test on half-open occupied intervals
    `[start, start + duration + buffer)`, and the per-day visit filters.
  - `slots.dfy`: the minute-by-minute slot generator with its free/busy tagging
    and visibility rule, and the final stable sort.
  - `booking.dfy`: the booking pipeline, as a method on a `VisitStore` class
    that holds the visit rows and the next id.
- **The HTTP handlers' decision logic** (`app/main.py`), in `api.dfy`:
  - the admin sentinel;
  - the order of the permission and parsing checks;
  - the error-code-to-status map;
  - the listing filter and order;
  - cancellation.
- **The plugin's input-normalisation helpers**
  (`openclaw/config/extensions/fh-api/index.ts`), in `plugin.dfy`.

Shared pieces:

- `instants.dfy`: time is an integer number of microseconds. A date is a day
  number, and a time of day is `0 <= x < 86_400_000_000`. `datetime.combine`
  is `day * MICROS_PER_DAY + time`. `t.date()` is floor division, which is
  Dafny's `/` on integers.
- `models.dfy`: the record shapes of the database tables, plus `_doctor_name`.
- `stable_sort.dfy`: Python's stable `list.sort` with a tuple key, written as an
  insertion sort. It is proved sorted, a permutation, and stable.
- `wrappers.dfy`: `Option` and `Result`.

The code is followed where it departs from an idealised design:

- The doctor branch looks up the doctor before it checks that a clinic id was
  given.
- Slots produced twice by overlapping schedule windows stay twice.
- Conflicts are checked only against visits that *start* on the requested
  date. `Booking.PreviousDayBufferIsNotChecked` shows a booking accepted while
  a previous-day visit's buffer still occupies that time.

## Model

| member | source | states |
|---|---|---|
| Instants.CombineParts | app/slot_service.py:15-16 | an instant built from a date and a time of day gives back that date and that time of day |
| Instants.AlignUp | app/slot_service.py:113-116 | the cursor is rounded up to the next whole minute (left alone when already whole), with no whole minute skipped |
| Models.FindById | app/slot_service.py:223-230 | the lookup `filter(id == key).first()` finds nothing exactly when no row has the key; otherwise it finds a stored row with that key |
| Models.DoctorName | app/slot_service.py:19-23 | the name is "last first", followed by " middle" only when a non-empty middle name is present |
| Occupancy.ConflictsIffSharedInstant | app/slot_service.py:52-60 | for non-empty intervals, the overlap comparison holds exactly when the candidate's and the visit's occupied intervals share an instant |
| Occupancy.FirstConflictSpec | app/slot_service.py:52-60 | the overlap test returns None exactly when no visit conflicts; otherwise it returns the patient of the first conflicting visit in list order |
| Occupancy.Overlaps | app/slot_service.py:52-60 | the loop with early return computes that first conflict |
| Occupancy.StartsOnIffSameDate | app/slot_service.py:26-36 | a visit is in the day's range `[day 00:00, next day 00:00)` exactly when its start's date is that day |
| Occupancy.VisitsOnDay | app/slot_service.py:26-49 | the per-day query returns exactly the provider's visits that start on that date |
| Slots.GenerateWindowSlots | app/slot_service.py:105-138 | the cursor loop over one schedule window emits exactly the specified slot sequence |
| Slots.SlotsFromSound | app/slot_service.py:113-138 | every slot emitted from cursor `t` on starts at or after `t` and meets the slot conditions |
| Slots.WindowSlotsSound | app/slot_service.py:113-138 | every emitted slot: whole-minute start; after the window start and `time_from`; before `time_to`; ends no later than the window end, buffer excluded; free iff no same-day visit conflicts; busy only for an admin who asked; for an admin the patient id is that of the first conflicting visit, for anyone else none; provider, clinic name and district copied |
| Slots.AdminSeesBusyPatient | app/slot_service.py:119-135 | a busy slot shown to an admin carries a patient id: the one of the first conflicting same-day visit |
| Slots.SlotsFromIncreasing | app/slot_service.py:118-138 | the starts emitted from `t` on are whole minutes and strictly increase by whole minutes |
| Slots.SlotsFromComplete | app/slot_service.py:118-138 | every whole-minute start at or after `t` that satisfies the loop condition and the visibility rule is emitted |
| Slots.WindowSlotsExact | app/slot_service.py:105-138 | one window's slots: sound, strictly increasing, and containing every visible candidate start from the aligned cursor on |
| Slots.SearchSlots | app/slot_service.py:105-140 | the loop over windows followed by the sort yields the sorted concatenation of the per-window slots |
| Slots.GeneratedFromWindows | app/slot_service.py:105-138 | every generated slot fits one of the windows |
| Slots.SearchResultProperties | app/slot_service.py:140 | the result is sorted by (start, name); it is a permutation of the generated slots; slots with equal keys keep generation order; each slot fits one window |
| Slots.RepeatedWindowDoublesSlots | app/slot_service.py:105-140 | a window selected twice contributes each of its slots twice; nothing is deduplicated |
| Slots.DoctorWindows | app/slot_service.py:105-111 | one window per doctor schedule row, in row order |
| Slots.ServiceWindows | app/slot_service.py:171-177 | one window per service schedule row, in row order |
| Slots.SearchDoctorSlots | app/slot_service.py:63-141 | the doctor search is the window search over the selected doctor rows, sorted by (start, doctor name) |
| Slots.SearchServiceSlots | app/slot_service.py:144-206 | the service search is the window search over the selected service rows, sorted by (start, service name) |
| StableSort.StrLeTotal | app/slot_service.py:140 | Python's string order is total |
| StableSort.StrLeTrans | app/slot_service.py:140 | Python's string order is transitive |
| StableSort.SortSorted | app/slot_service.py:140 | the sort's output is ordered by the key |
| StableSort.SortPermutes | app/slot_service.py:140 | the sort's output is a permutation of its input |
| StableSort.SortStable | app/slot_service.py:205 | for every key, the elements with that key keep their input order |
| Booking.DoctorSpans | app/slot_service.py:236-245 | the doctor schedule query selects exactly the rows of that doctor and clinic on the start's date with `time_start <= start.time` |
| Booking.ServiceSpans | app/slot_service.py:309-317 | the service schedule query selects exactly the rows of that service on the start's date with `time_start <= start.time` |
| Booking.ResolveFollowsCodeOrder | app/slot_service.py:220-230 | `Booking.Resolve`: other visit types give invalid_request. DOCTOR: missing doctor id → invalid_request; unknown doctor → not_found; only then missing clinic id → invalid_request; unknown clinic → not_found. SERVICE: missing id → invalid_request; unknown service → not_found |
| Booking.ResolvedTarget | app/slot_service.py:232-233 | duration and buffer come from the provider record; the clinic comes from the request for a doctor and from the service for a service |
| Booking.AcceptedIsContained | app/slot_service.py:236-254 | `Booking.Decide`: any non-error outcome has a schedule row of the provider (and the requested clinic for a doctor) on the start's date whose window holds `[start, start + duration]` |
| Booking.InsertHasNoSameDayConflict | app/slot_service.py:272-275 | `Booking.Decide`: an insert happens only when the candidate interval conflicts with no same-day visit of the provider |
| Booking.ExactStartSpec | app/slot_service.py:257-265 | the idempotency query finds nothing exactly when no visit of the provider has exactly that start; otherwise it finds the provider's visit with that start that comes first in store order |
| Booking.RebookingIsIdempotent | app/slot_service.py:266-268 | once a booking is inserted, the same request again returns the new visit's id and inserts nothing |
| Booking.OtherPatientGetsSlotBusy | app/slot_service.py:269-270 | once a booking is inserted, the same provider and start from another patient gets slot_busy |
| Booking.InsertKeepsNoSameDayOverlap | app/slot_service.py:272-295 | appending the decided visit keeps same-provider, same-day visits pairwise non-overlapping |
| Booking.RemoveKeepsInvariant | app/main.py:286-287 | deleting a visit keeps ids unique and keeps the no-overlap invariant |
| Booking.PreviousDayBufferIsNotChecked | app/slot_service.py:272-275 | a service visit at 23:00 with a 60-minute buffer does not stop a booking at 00:00 the next day, although their occupied intervals intersect |
| Booking.VisitStore.BookVisit | app/slot_service.py:209-369 | returns the decided error or existing id with the store unchanged, or appends exactly one new visit with the next id. A failed commit returns slot_busy with the store unchanged. The store invariant is kept |
| Booking.VisitStore.Delete | app/main.py:286-287 | removes exactly the visit at the given position; the invariant is kept |
| Api.SearchCheckOrder | app/main.py:146-154 | `Api.SearchResponse`, the handler: a non-admin asking for busy slots gets 403 whatever else was given; otherwise an unparsable datetime gets 400; otherwise the search runs |
| Api.NonAdminSeesOnlyFreeSlots | app/main.py:146-176 | a non-admin sees only free slots and no patient ids; without include_busy every slot is free; slots lie in `[time_from, time_to)` and are sorted |
| Api.BookingErrorsAreClientErrors | app/main.py:205-212 | `Api.BookingStatus`: invalid_request → 400, not_found → 404, slot_busy and not_in_schedule → 409; the four codes are distinct, so the 500 fallback is never used |
| Api.ApiBookVisit | app/main.py:188-214 | `patient_id <= 0` or an unparsable start gets 400 and no booking; otherwise the booking's outcome maps to its status, or to the visit id with status "booked". The id counter advances by one on a committed insert and stays the same on every other path |
| Api.SelectVisits | app/main.py:237-242 | the listing filter keeps exactly the visits with `tf <= start <= tt` that belong to the caller unless the scope is "all", with their multiplicities |
| Api.ItemsOf | app/main.py:246-267 | one listing item per visit, in order |
| Api.ApiListVisits | app/main.py:225-269 | the listing handler with its item loop answers the specified response |
| Api.ListedVisitsProperties | app/main.py:227-244 | `Api.ListResponse`, the handler: scope "all" from a non-admin gets 403. Otherwise the listing holds exactly the filtered visits, ordered by start, with equal starts in stored order |
| Api.ListRangeDefaults | app/main.py:230-235 | `Api.ListRange`: an absent or empty `time_from` means now and an absent or empty `time_to` means now plus 90 days; a given value is used as parsed; the range is missing exactly when a given value does not parse, and the listing then answers 400 |
| Api.ItemEndsAfterDuration | app/main.py:248-254 | an item's end is its start plus the duration, buffer excluded; names are absent when the visit has no doctor or no service |
| Api.IndexOfId | app/main.py:278-280 | the lookup finds nothing exactly when no visit has the id; otherwise it finds the first such visit |
| Api.ApiCancelVisit | app/main.py:278-288 | unknown id → 404 with the store unchanged; then a non-admin non-owner → 403 with the store unchanged; otherwise exactly that visit is removed; the id counter never changes |
| Api.CancelRemovesExactlyThatVisit | app/main.py:286-287 | with ids unique, after the delete no visit has the id, and every other visit remains |
| FhPlugin.Trunc | openclaw/config/extensions/fh-api/index.ts:19 | `Math.trunc` keeps the integer part: the result lies within one of the input, toward zero |
| FhPlugin.TrimEmptyIffAllSpaces | openclaw/config/extensions/fh-api/index.ts:13 | `FhPlugin.Trim`: `trim` yields the empty string exactly when the input is all white space or line terminators |
| FhPlugin.TrimSpec | openclaw/config/extensions/fh-api/index.ts:13 | `FhPlugin.Trim`: a non-empty `trim` result is the slice between the leading and the trailing white space, with no white space at either end |
| FhPlugin.TrimIdempotent | openclaw/config/extensions/fh-api/index.ts:209-211 | trimming an already trimmed string changes nothing |
| FhPlugin.CleanString | openclaw/config/extensions/fh-api/index.ts:9-15 | a string that is not blank gives its trimmed form; anything else gives null |
| FhPlugin.CleanNumberSpec | openclaw/config/extensions/fh-api/index.ts:17-28 | `FhPlugin.CleanNumber`: finite numbers, and non-blank strings that convert to finite numbers, give their truncated value; anything else gives null |
| FhPlugin.CleanPositiveNumber | openclaw/config/extensions/fh-api/index.ts:30-36 | null, or the cleaned number when it is > 0 |
| FhPlugin.SanitizeBaseUrl | openclaw/config/extensions/fh-api/index.ts:38-48 | the default URL for a non-string or blank value; otherwise the trimmed string with at most one trailing "/" removed |
| FhPlugin.BaseUrlKeepsSecondSlash | openclaw/config/extensions/fh-api/index.ts:47 | only one of two trailing slashes is removed |
| FhPlugin.SanitizeTimeoutMs | openclaw/config/extensions/fh-api/index.ts:50-56 | always within [1000, 60000]: the truncated input when it is in range, 15000 otherwise |
| FhPlugin.MergeDateAndTimeSpec | openclaw/config/extensions/fh-api/index.ts:200-216 | `FhPlugin.MergeDateAndTime`: null unless the date is `DDDD-DD-DD` and the time is `HH:MM` or `HH:MM:SS` (hours 00-23, minutes and seconds 00-59). Otherwise `date + "T" + time` in the 19-character extended form, with ":00" added to a 5-character time |
| FhPlugin.ToLower | openclaw/config/extensions/fh-api/index.ts:164 | lower-casing maps each character, keeping the length |
| FhPlugin.ToUpper | openclaw/config/extensions/fh-api/index.ts:181 | upper-casing maps each character, keeping the length |
| FhPlugin.SlotTypeInference | openclaw/config/extensions/fh-api/index.ts:163-178 | `FhPlugin.NormalizeSlotType`: the result is "doctor" or "service". An explicit type (any case) wins; then doctor_id > 0, a doctor name or direction_id > 0 gives "doctor"; then service_id > 0 gives "service"; otherwise it throws |
| FhPlugin.ExplicitTypeIsCaseInsensitive | openclaw/config/extensions/fh-api/index.ts:164-166 | a type of " Doctor " is taken as "doctor" |
| FhPlugin.VisitTypeInference | openclaw/config/extensions/fh-api/index.ts:180-189 | `FhPlugin.NormalizeVisitType`: the result is "DOCTOR" or "SERVICE". An explicit type wins; then doctor_id > 0 gives "DOCTOR"; then service_id > 0 gives "SERVICE"; otherwise it throws |
| FhPlugin.DotlessIFoldsToService | openclaw/config/extensions/fh-api/index.ts:181-183 | "servıce" (dotless i) upper-cases to the explicit type "SERVICE" |
| FhPlugin.CompactSlotsResultSpec | openclaw/config/extensions/fh-api/index.ts:261-278 | `FhPlugin.CompactSlotsResult`: results with at most 10 items are returned unchanged. Longer ones keep the first 10 items in order and set `_truncated`, `_returned = 10` and `_total` = the original count; every other property is left alone |
| FhPlugin.CompactionBoundsAndIsIdempotent | openclaw/config/extensions/fh-api/index.ts:261-278 | compaction leaves at most 10 items (or returns its input), and compacting twice is compacting once |

## Left out

- SQL query construction is not modelled: joins, the district, clinic, direction and name (`ilike`) filters, and the work-date range filter of the searches. The schedule rows a search selects are an input (`DoctorRow`/`ServiceRow`).
- The per-day visit queries and the booking's idempotency query are modelled as filters over the visit store, in storage order. The booking's schedule queries are modelled as filters over the catalogue's schedule rows (`Catalog`), in row order.
- `ORDER BY start_datetime` leaves rows with equal starts in an order the database chooses. The model keeps storage order for them.
- Slot and item `start`/`end` are kept as instants. The source formats them with `strftime("%Y-%m-%dT%H:%M:%S")` and sorts on that string, which orders like the instant for four-digit years.
- `datetime.fromisoformat` is not modelled: every datetime argument comes with its parse result (`IsoArg`). Sub-second parts of formatted output are not modelled either.
- The wall clock (`created_at`, the default listing range) is a `now` parameter.
- Booking.RebookingIsIdempotent: a visit's start is stored to the microsecond. The `start_datetime` column is a MySQL `DATETIME` without fractional seconds (app/models.py:88, app/config.py:10-11), so the database rounds a sub-second start to the second. A start such as 09:15:00.700 is stored as 09:15:01. Repeating that request then finds no exact-start match (app/slot_service.py:257-265) and hits the patient's own visit in the overlap check (272-275), so the source answers slot_busy where the model answers the existing id. The idempotency promise holds in the source only for whole-second starts. The same rounding is not modelled in Booking.VisitStore.BookVisit or in the no-overlap invariant.
- Concurrent bookings are not modelled. A commit that raises is the `commitFails` input.
- Booking.VisitStore.Valid holds only for calls made one after another. The store has no unique or exclusion constraint on visits, and `book_visit` checks for overlaps (app/slot_service.py:272-275) before its unlocked insert and commit (app/slot_service.py:288-292). So two concurrent bookings can both commit and leave two overlapping visits, which the model's no-overlap invariant excludes.
- Datetime arguments with a UTC offset (`+02:00`) are not modelled: every `IsoArg` parse result is a naive instant. In the source, `fromisoformat` accepts an offset (app/main.py:151-152, 192). Comparing the resulting aware value with the naive schedule instants then raises `TypeError` (app/slot_service.py:113, 250), which reaches the client as a 500.
- Visit ids are abstract. `nextId` advances only on a committed insert. A database auto-increment would also use up an id on a commit that fails and is rolled back (app/slot_service.py:289-292); the model does not capture that gap.
- Database sessions, connection retries, configuration, FastAPI routing, request validation of the body (`visit_type` is one of the two enum values, `type` is doctor or service) and the web pages are not modelled.
- `clinic_name` and the other joined display fields of a listing item are not modelled (no clinic lookup). `doctor_directions` of a slot is not modelled.
- Api.ItemsOf: a visit whose doctor or service row is missing gets no name. In the source the relationship would be empty in that case too.
- Booking.VisitStore.Delete: `db.delete` followed by `commit` is modelled as removal from the sequence; a failing commit on delete is not modelled.
- JavaScript's `Number(string)` conversion is not modelled: a string value carries the number it converts to.
- FhPlugin.ToLower: only ASCII letters are mapped. No other character lower-cases to a letter of "doctor" or "service", so every comparison the helpers make is decided as in JavaScript.
- FhPlugin.ToUpper: only ASCII letters, U+0131 (dotless i → "I") and U+017F (long s → "S") are mapped. No other character upper-cases to a letter of "DOCTOR" or "SERVICE", so every comparison the helpers make is decided as in JavaScript.
- The plugin's network client is not modelled: `requestJson`, `fetch`, timeouts and the tool `execute` orchestration.
- These plugin helpers are not modelled: `resolveTelegramPatientId`, `buildUrl`, `normalizeApiDateTime`, `normalizeText`, `filterDoctorsByName`, `filterFutureFreeSlots`. They rely on regular expressions, Unicode normalisation, the `URL` class or `Date` parsing.
- Property order within objects (which `JSON.stringify` would show) is not modelled: objects are maps.
