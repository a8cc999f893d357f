# Free-slot computation of an appointment agent

This project models, in Dafny, the core of `getAvailability` in
`src/appointmentAgent.ts`. Given a working window, a slot length and a busy
list from the calendar backend, it finds the open appointment slots of a day.
It does this in three steps:

1. It drops busy entries that lack a start or an end.
2. It steps a time `t` from the start of the window in fixed slot lengths
   (`durationMinutes * 60 * 1000` milliseconds) while a whole slot still fits
   before the end.
3. It keeps every slot `[t, t + slot)` that no busy interval overlaps under
   the half-open test `slotStart < busyEnd && slotEnd > busyStart`. Kept slots
   are appended in order.

Instants are integer milliseconds since the epoch, as `Date.getTime` returns
them. The window, the duration and the fetched busy list are parameters.

Modules, one per component:

- `Intervals` (`intervals.dfy`): the interval `[start, end)` and the
  half-open overlap test.
- `Busy` (`busy.dfy`): busy entries as delivered. Each boundary is a
  `Stamp`: `Absent` (missing, null or empty, all falsy), `Unparsable` (a
  non-empty string that `Date` cannot parse, whose `getTime` is NaN) or
  `At(ms)`. This module holds the clean-up filter (`CleanBusy`), the per-entry
  test (`Conflicts`) and the `.some` over the list (`Blocked`).
- `Slots` (`slots.dfy`): the specification of the loop. `Candidate(ws, slot, k)`
  is the slot tried on iteration `k`. `SlotCount` is the number of
  iterations. `FreeAmong`/`FreeSlots` give the free candidates in loop order.
  This module also holds the properties proved about them.
- `Availability` (`availability.dfy`): the constants (60 000 ms per minute,
  default duration 30 minutes, 09:00 to 18:00) and the working window. It
  also holds `GetAvailability`, a method with the source's `for` loop proved
  equal to the specification, and worked examples.

Facts about the code that the model keeps:

- The duration is an optional argument that defaults to 30 minutes
  (`src/appointmentAgent.ts:24`). The model gives `Availability` and
  `GetAvailability` the same default, and the worked examples rely on it.
- The code never checks the duration. With a slot of zero or less, its loop
  at line 52 never ends. Its only caller (`src/index.ts:38`) passes just
  the date and so gets the default. The model therefore *requires* `durationMinutes > 0` and has
  no error for a non-positive duration.
- The code does not check that a busy entry's start comes before its end.
  The model applies the overlap test to whatever two instants an entry
  carries.
- Result slots are contiguous when nothing is busy (`NoBusyAllSlots`). A
  busy interval that blocks a candidate lying between two free ones leaves a
  gap (`TouchingMeetingExample`), so in general only chaining holds
  (`SlotsOrdered`).
- An entry whose boundary is a present but unparsable string passes the
  code's filter. It then never blocks a slot, because every comparison with
  NaN is false (`AvailabilityIgnoresUnparsable`).

## Model

| member | source | states |
|---|---|---|
| `Intervals.Overlaps` | src/appointmentAgent.ts:58 | the half-open test `slotStart < busyEnd && slotEnd > busyStart`; a definition with no contract, whose meaning `OverlapsIffSharedInstant` and `TouchingDoesNotOverlap` pin down |
| `Intervals.OverlapsIffSharedInstant` | src/appointmentAgent.ts:58 | for nonempty intervals the half-open test holds exactly when some instant lies in both intervals |
| `Intervals.TouchingDoesNotOverlap` | src/appointmentAgent.ts:58 | intervals that only touch at an endpoint do not overlap, in either order |
| `Busy.CleanBusy` | src/appointmentAgent.ts:42-45 | the cleaned list holds exactly the raw entries that have both boundaries, and is no longer than the raw list |
| `Busy.CleanBusyConcat` | src/appointmentAgent.ts:42-45 | the clean-up distributes over concatenation, so it keeps the surviving entries in their original order |
| `Busy.CleanBusyDropsMalformed` | src/appointmentAgent.ts:42-45 | inserting an entry without both boundaries anywhere in the raw list leaves the cleaned list unchanged |
| `Busy.Conflicts` | src/appointmentAgent.ts:55-58 | the `.some` callback for one cleaned entry: the overlap test when both boundaries parse, false when either is NaN; a definition with no contract, pinned down by `Blocked`, `BlockedIgnoresUnparsable` and `SlotsAvoidBusy` |
| `Busy.Blocked` | src/appointmentAgent.ts:55-59 | a slot is blocked exactly when some entry of the list conflicts with it |
| `Busy.BlockedBySameEntries` | src/appointmentAgent.ts:55-59 | two busy lists holding the same entries, in any order and with any repetition, block the same slots |
| `Busy.BlockedIgnoresUnparsable` | src/appointmentAgent.ts:55-58 | inserting an entry with an unparsable boundary never changes whether a slot is blocked |
| `Slots.Candidate` | src/appointmentAgent.ts:52-54 | the slot `[t, t + slot)` tried on iteration k, with `t == workStart + k * slot`; a definition with no contract, pinned down by `CandidatesOrdered` and `FitsIffBelowCount` |
| `Slots.SlotCount` | src/appointmentAgent.ts:52 | the number of iterations of the loop; a definition with no contract, pinned down by `FitsIffBelowCount` |
| `Slots.FreeAmong` | src/appointmentAgent.ts:52-65 | the slots appended after the first n iterations, in loop order; a definition with no contract, pinned down by `FreeAmongSound`, `FreeAmongComplete`, `FreeAmongPrefix` and `FreeAmongChained` |
| `Slots.FreeSlots` | src/appointmentAgent.ts:52-65 | the slots appended by the whole loop; a definition with no contract, pinned down by `FreeSlotsExactlyUnblocked` and the `Slots*` lemmas |
| `Slots.FitsIffBelowCount` | src/appointmentAgent.ts:52 | the loop condition `t + slot <= workEnd` holds on iteration k exactly when k is below the number of whole slots in the window |
| `Slots.CandidatesOrdered` | src/appointmentAgent.ts:52-54 | a candidate of an earlier iteration ends no later than a candidate of a later one starts |
| `Slots.FreeAmongSound` | src/appointmentAgent.ts:52-65 | everything the loop has appended after n iterations is an unblocked candidate of one of those iterations |
| `Slots.FreeAmongComplete` | src/appointmentAgent.ts:52-65 | every unblocked candidate of the first n iterations has been appended |
| `Slots.FreeAmongPrefix` | src/appointmentAgent.ts:60-65 | the loop only appends: the result after m iterations is a prefix of the result after any n >= m |
| `Slots.FreeAmongChained` | src/appointmentAgent.ts:52-65 | each appended slot ends no later than every later one starts |
| `Slots.FreeSlotsExactlyUnblocked` | src/appointmentAgent.ts:52-65 | a slot is returned if and only if it is a candidate that fits in the window and no busy entry blocks it (soundness and completeness) |
| `Slots.SlotsHaveDuration` | src/appointmentAgent.ts:49-54 | every returned slot lasts exactly the slot length |
| `Slots.SlotsInsideWindow` | src/appointmentAgent.ts:52 | every returned slot starts at or after the window start and ends at or before the window end: no partial trailing slot |
| `Slots.SlotsOrdered` | src/appointmentAgent.ts:52-65 | returned slots are chained in order, strictly increasing in start and pairwise non-overlapping |
| `Slots.SlotsAvoidBusy` | src/appointmentAgent.ts:55-60 | no returned slot overlaps any busy interval whose two boundaries parse |
| `Slots.AddedEntryRemovesSlotIff` | src/appointmentAgent.ts:55-65 | adding one busy interval removes a free slot exactly when the two overlap under the half-open test, so a touching interval leaves it free |
| `Slots.FreeAmongNoBusy` | src/appointmentAgent.ts:52-65 | with no busy entry the loop appends every candidate, the k-th slot being candidate k |
| `Slots.NoBusyAllSlots` | src/appointmentAgent.ts:52-65 | with no busy entry the result has exactly the slot count of slots, the k-th being candidate k, each starting where the previous ends |
| `Slots.TooLongIsEmpty` | src/appointmentAgent.ts:52 | a slot longer than the window gives an empty result |
| `Slots.AllBlockedNoneFree` | src/appointmentAgent.ts:55-65 | when every candidate is blocked nothing is appended |
| `Slots.FullyBusyIsEmpty` | src/appointmentAgent.ts:52-65 | a single busy interval covering the whole window gives an empty result |
| `Slots.CoveredWindowIsEmpty` | src/appointmentAgent.ts:52-65 | busy intervals that together cover every instant of the window, such as back-to-back meetings, give an empty result |
| `Slots.SameBlockingSameFreeAmong` | src/appointmentAgent.ts:55-65 | two busy lists that block the same candidates give the same result |
| `Slots.SameEntriesSameSlots` | src/appointmentAgent.ts:55-59 | the order of the busy list and duplicates in it do not change the result |
| `Availability.Availability` | src/appointmentAgent.ts:42-68 | the free slots of the cleaned busy list for a window and a duration in minutes, 30 when none is passed; a definition with no contract, tied to the loop by `GetAvailability` and pinned down by the lemmas below |
| `Availability.WorkWindow` | src/appointmentAgent.ts:47-48 | the window lasts nine hours whatever the day and offset, and its start reads 09:00 at the given offset |
| `Availability.GetAvailability` | src/appointmentAgent.ts:42-68 | the loop returns exactly the specified free slots of the cleaned busy list: each one slot long, inside the window, in increasing order, overlapping no busy interval |
| `Availability.AvailabilityIgnoresMalformed` | src/appointmentAgent.ts:42-45 | a busy entry with a missing boundary, wherever it stands, does not change the result |
| `Availability.AvailabilityIgnoresUnparsable` | src/appointmentAgent.ts:55-58 | a busy entry with an unparsable boundary survives the clean-up but does not change the result |
| `Availability.NoBusyCount` | src/appointmentAgent.ts:49-52 | with nothing busy the result has `(workEnd - workStart) / slot` slots, rounded down |
| `Availability.DefaultDayOffersEighteenSlots` | src/appointmentAgent.ts:47-52 | a 09:00 to 18:00 window with 30-minute slots and nothing busy gives 18 slots, from 09:00 to 09:30 through 17:30 to 18:00 |
| `Availability.MorningMeetingExample` | src/appointmentAgent.ts:52-65 | a 09:00 to 10:00 meeting removes the 09:00 and 09:30 slots, and the first free slot is 10:00 to 10:30 |
| `Availability.TouchingMeetingExample` | src/appointmentAgent.ts:52-65 | a 09:30 to 10:00 meeting leaves both touching slots free: 09:00 to 09:30 first, then 10:00 to 10:30 |
| `Availability.BackToBackMeetingsExample` | src/appointmentAgent.ts:52-65 | meetings from 09:00 to 13:00 and from 13:00 to 18:00 leave no free slot |

## Left out

- `getCalendarClient` (src/appointmentAgent.ts:8-20): reads environment variables, parses JSON credentials and sets up a JWT through a foreign library.
- The backend query and the `timeMin`/`timeMax` construction (src/appointmentAgent.ts:27-40): network I/O. The busy list is a parameter instead.
- Taking the busy list out of the response (src/appointmentAgent.ts:43): this covers the `?? []` default and the TypeError when the response lacks the calendar id. The model starts from the list itself.
- `offset()` (src/appointmentAgent.ts:97-118): it reads the current clock and `Intl`. `WorkWindow` takes the resulting offset as an integer number of minutes. It also assumes the two calls on lines 47-48 give the same offset.
- ISO-8601 parsing and formatting (src/appointmentAgent.ts:56-57, 62-63): instants are integers. A boundary either parses to one (`At`) or does not (`Unparsable`). Result slots are intervals of instants, not ISO strings.
- GetAvailability: `durationMinutes` is an integer. A fractional number of minutes, and the double-precision rounding of JavaScript arithmetic on instants, are not modelled.
- `bookAppointment` (src/appointmentAgent.ts:71-95): a single event insertion with no validation and no conflict check.
- src/index.ts: HTTP routing, the `toISO` helper (clock and time-zone formatting) and server start-up.
- Concurrency and double booking between simultaneous requests: nothing is shared between calls, and exclusivity is up to the backend.
