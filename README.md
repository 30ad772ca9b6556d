# TUP ECE class scheduler: the scheduling engine

This project models the scheduling engine of the class scheduler in
`src/App.jsx` and proves properties of it in Dafny. The engine covers:

- a weekly grid of six weekdays and 29 half-hour points from 07:00 to 21:00;
- the registry of committed class entries (section, subject, room, faculty, day, start, end);
- the conflict check that runs on every new entry;
- the form that adds an entry and the button that deletes one;
- the availability finder. For a section, subject, faculty and number of
  hours, it proposes placements of one to three sessions, each in one of the
  five predefined rooms. It ranks them by session count and then by days
  spanned, offers the first ten, and commits the one the user picks.

Modules, one per part of the engine:

- `TimeGrid`: the grid labels, `timeToMinutes`, and how the string order of labels relates to their time order.
- `Conflicts`: `checkConflicts`, as a method proved equal to a specification function.
- `Patterns`, `DayCombos`, `SlotSearch`: the three generators/scanners of the finder, each a method with loop invariants, proved equal to a specification function.
- `Availability`: `findSlotsForPattern` and `findAvailableSlots` as methods, plus ranking by a stable sort.
- `SearchProperties`: what a search result is, and what committing one guarantees.
- `Registry`: the schedule list as a class, with submit, delete and commit.
- `Findings`: two defects of the code as written, each next to its corrected form.

The finder is modelled in two versions, chosen by `Availability.Version`:

- `AsWritten` is the code as it stands: every session of a result is searched against the registry alone, and the hours check is `!totalHours`.
- `Corrected` searches each session against the registry plus the sessions already placed for the same result, and requires positive hours.

Both versions share every definition and every property proved for an
arbitrary version. The no-double-booking results hold for `Corrected` only.

Times of entries are minutes since midnight. Grid point `i` lies at minute
`420 + 30 * i`. Days are indices 0 (Monday) to 5 (Saturday). The finder's
hours are a whole number of half-hour slots.

## Model

| member | source | states |
|---|---|---|
| TimeGrid.GridLabelMinutes | src/App.jsx:474-479 | every grid label is a well-formed "HH:MM" label, and timeToMinutes reads it as 420 + 30·i |
| TimeGrid.LabelIsClock | src/App.jsx:487-490 | timeToMinutes of the label built from hour and minute gives back that time |
| TimeGrid.GridLabelOrder | src/App.jsx:474-479 | two grid labels compare as strings exactly as their indices compare, and so as their times do |
| Conflicts.CheckConflicts | src/App.jsx:493-528 | the loop returns exactly the reasons of every non-excluded entry, in entry order |
| Conflicts.EntryConflictsSpec | src/App.jsx:499-522 | one entry gives at most three reasons; none unless it is on the same day with overlapping half-open times and shares a field; exactly one per shared room, faculty and section; each names that entry; order is room, faculty, section |
| Conflicts.ConflictsOfMembers | src/App.jsx:496-523 | a reason is reported if and only if its entry is in the list, is not the excluded id, collides in day and time, and shares the reason's field |
| Conflicts.NoConflictsIff | src/App.jsx:496-523 | no reasons if and only if every non-excluded entry fails to clash; entries on another day or outside the time range never count, even with every field shared |
| Conflicts.ConflictsOfBound | src/App.jsx:496-523 | at most three reasons per entry |
| Conflicts.ConflictsOfAppend | src/App.jsx:496-523 | reasons against a concatenation are those against each part, in order |
| Conflicts.ConflictsOfSnoc | src/App.jsx:496-523 | one more entry adds exactly its own reasons at the end |
| Conflicts.ClashSymmetric | src/App.jsx:499-522 | A clashes with B exactly when B clashes with A |
| Conflicts.EntryConflictKinds | src/App.jsx:499-522 | checking A against B and B against A give the same number and kinds of reason, in the same order |
| Patterns.GenerateSessionPatterns | src/App.jsx:310-340 | the three loops build exactly the specification list `SessionPatterns(t)` |
| Patterns.SessionPatternsMembers | src/App.jsx:310-340 | a pattern is generated if and only if it is [t] with t ≤ 12; or two parts in [1,12] adding to t; or three parts in [1,12] adding to t, with the first at most t/3 and the second no larger than the third |
| Patterns.PatternShape | src/App.jsx:310-340 | every pattern has one to three parts, its parts sum to t, and no part exceeds 12; split patterns have no part below 1 |
| Patterns.PatternPartsPositive | src/App.jsx:310-340 | for t ≥ 1, every part of every pattern lies in [1,12] |
| Patterns.SingleSessionPattern | src/App.jsx:313-316 | [t] is generated exactly when t ≤ 12 |
| Patterns.SessionPatternsEmpty | src/App.jsx:310-340 | no pattern is generated exactly when t > 36 |
| Patterns.SixSlots | src/App.jsx:310-340 | six slots give [6], [3,3], [2,2,2] and [1,1,4], but not [1,4,1] |
| DayCombos.GenerateDaysCombinations | src/App.jsx:393-419 | the loops build exactly the specification list `DayCombinations(n)` |
| DayCombos.DayCombinationsMembers | src/App.jsx:393-419 | a tuple is generated if and only if n is 1, 2 or 3, the tuple has n days, and the days never decrease (repeats allowed) |
| DayCombos.DayCombinationsCount | src/App.jsx:393-419 | 6, 21 and 56 tuples for n = 1, 2, 3, and none for any other n |
| SlotSearch.FindAvailableTimeSlot | src/App.jsx:422-471 | the nested scan with its flag, break and early return computes the first-fit specification `FirstFit` |
| SlotSearch.FirstFitSpec | src/App.jsx:422-471 | a found window starts at 07:00 or later and ends no later than 21:00 (i + k ≤ 28; for a negative k that end index lies off the grid); none of its slots is blocked by a same-day overlapping entry sharing the room, the faculty or the section; no earlier start is clear; nothing is found exactly when no start is clear |
| SlotSearch.ClearWindowAvoids | src/App.jsx:436-458 | a clear window of at least one slot does not overlap any well-formed same-day entry that shares the room, the faculty or the section |
| SlotSearch.EmptyWindowAtStart | src/App.jsx:425-432 | a request of zero or fewer slots is "found" at 07:00 |
| SlotSearch.FreeGridFirstFit | src/App.jsx:422-471 | with no entries, every request that fits the grid (fewer than 29 slots) is found at 07:00 |
| Availability.Place | src/App.jsx:353-372 | a placement, in either version, when there is one, has one session per pattern part |
| Availability.PlaceSessions | src/App.jsx:353-372 | the `pattern.forEach`, in either version, yields a placement exactly when every session found a window, and that placement is then its sessions |
| Availability.FindSlotsForPattern | src/App.jsx:343-390 | the loops over day combinations and rooms compute the specification `PatternResults` of the version |
| Availability.MaxDay | src/App.jsx:375-376 | the latest day is at least every session's day and is some session's day |
| Availability.MinDay | src/App.jsx:375-376 | the earliest day is at most every session's day and is some session's day |
| Availability.Take | src/App.jsx:305 | the slice is a prefix of length min(n, length) |
| Availability.FindAvailableSlots | src/App.jsx:274-307 | the method computes the specification `Search` of the version: its form check (`!totalHours` as written, positive hours corrected), then every pattern's results, sorted, first ten |
| Availability.SortResultsRanked | src/App.jsx:297-303 | the sort's output is ordered by session count, then by span, and is a permutation of its input |
| Availability.SortResultsStable | src/App.jsx:297-303 | results of equal rank keep their relative order, as in a stable sort |
| Availability.InsertRanked | src/App.jsx:297-303 | inserting into a ranked list keeps it ranked |
| Availability.InsertPermutes | src/App.jsx:297-303 | inserting adds exactly one element |
| Availability.DayCombinationsLength | src/App.jsx:347 | every day combination for n sessions has n days |
| SearchProperties.PlaceShape | src/App.jsx:353-372 | session m of a placement starts at the first window found against what its version searches against: the registry as written, the registry and the earlier sessions corrected. It is on `daysCombo[m]`, in the room, lasts `pattern[m]` slots, starts at 07:00 or later and ends no later than 21:00 (start + slots ≤ 28, no lower bound on the end for a negative part), and that window was clear |
| SearchProperties.PlaceConsistent | src/App.jsx:353-372 | with the corrected placement, the bookings of a placement of positive parts, added to a conflict-free registry, keep it conflict-free |
| SearchProperties.CommitPlacementConsistent | src/App.jsx:876-893 | the same holds whatever ids the committed sessions receive |
| SearchProperties.ConsistentIgnoresIds | src/App.jsx:493-528 | whether a registry is conflict-free does not depend on the ids |
| SearchProperties.AttemptPlacement | src/App.jsx:349-386 | a result built for one day combination and room is a full placement on that combination and room |
| SearchProperties.PlacementInAttempt | src/App.jsx:349-386 | a full placement on a combination and room is built for them |
| SearchProperties.PatternWalkMembers | src/App.jsx:349-387 | the loops over combinations and rooms add exactly the results still ahead of their cursor |
| SearchProperties.PatternResultsMembers | src/App.jsx:343-390 | a pattern's results are exactly its full placements on a day combination of its arity and one predefined room, with sessions as placed and span max day − min day + 1 |
| SearchProperties.SearchWalkMembers | src/App.jsx:292-295 | the patterns loop gathers exactly the results of every pattern |
| SearchProperties.AllResultsMembers | src/App.jsx:286-295 | the gathered results are exactly the valid results: full placements of some generated pattern |
| SearchProperties.SearchSound | src/App.jsx:274-307 | in either version, missing fields are reported exactly when the version's form check refuses; otherwise at most ten results, ranked by session count then span, each valid |
| SearchProperties.SearchKeepsBest | src/App.jsx:297-305 | a valid result that is not offered comes after ten offered results, each ranking no later than it |
| SearchProperties.ValidResultShape | src/App.jsx:343-390 | in either version, for positive hours, a valid result has one to three sessions, one per part, the parts adding up to the request; each session lasts 1 to 12 slots, lies within 07:00-21:00, and uses the first session's predefined room; days never decrease; span = last day − first day + 1 |
| SearchProperties.SpanOfOrdered | src/App.jsx:375-376 | with days in order, the span is the last day minus the first day plus one |
| SearchProperties.CommitFoundResult | src/App.jsx:876-893 | with the corrected search, committing any result offered for a conflict-free registry, whatever its ids, into that same registry keeps it conflict-free |
| SearchProperties.FirstOfferRanksFirst | src/App.jsx:297-305 | in either version, the first offered result ranks no later than any valid result |
| SearchProperties.SingleSessionFirst | src/App.jsx:297-305 | in either version, if some single session fits, the first offered result is a single session spanning one day |
| SearchProperties.EmptyRegistryStarts | src/App.jsx:353-372 | on an empty registry the first session of every valid result starts at 07:00; as written, every session does |
| SearchProperties.MondayMorningValid | src/App.jsx:274-390 | on an empty registry, a request of at most six hours is valid as one session, Monday 07:00 in E34 |
| SearchProperties.EmptyRegistrySingleSession | src/App.jsx:274-307 | in either version, on an empty registry, a complete request of at most six hours may be placed Monday 07:00 in E34. The first result offered is then a single session spanning one day, at 07:00, in a predefined room |
| Registry.Minutes | src/App.jsx:487-490 | timeToMinutes of grid label i is 420 + 30·i |
| Registry.Registry.constructor | src/App.jsx:112 | the registry starts from the stored list |
| Registry.Registry.Submit | src/App.jsx:531-572 | the method computes the specification `Submission`; the list gains exactly the new entry at the end when it is added, and is unchanged otherwise |
| Registry.SubmissionSpec | src/App.jsx:531-572 | missing field exactly when a field is empty; "end not after start" exactly when the end time is not later; an added entry is the form's entry, starts before it ends, and clashes with nothing; a rejection lists exactly the conflicts |
| Registry.EndCheckIsTimeOrder | src/App.jsx:540-543 | the string comparison of the two labels refuses exactly the ends that are not later in time |
| Registry.SubmitKeepsConsistent | src/App.jsx:545-558 | submitting keeps a conflict-free registry conflict-free |
| Registry.Registry.Delete | src/App.jsx:575-577 | the list becomes the filter of the old list by id |
| Registry.WithoutIdMembers | src/App.jsx:575-577 | an entry survives deletion exactly when it was there and has another id |
| Registry.WithoutIdAppend | src/App.jsx:575-577 | deletion works entry by entry, so the survivors keep their order |
| Registry.WithoutAbsentId | src/App.jsx:575-577 | deleting an id that no entry has changes nothing |
| Registry.WithoutIdShrinks | src/App.jsx:575-577 | deletion never grows the list and leaves no entry with the id |
| Registry.DeleteKeepsConsistent | src/App.jsx:575-577 | deleting keeps a conflict-free registry conflict-free |
| Registry.Registry.CommitResult | src/App.jsx:876-893 | the list gains, at the end and in order, one entry per session, carrying the request's section, subject and faculty; nothing is checked |
| Registry.RoomConflictExample | src/App.jsx:509-512 | A in E34 on Monday 07:00-10:00 against B in E34 on Monday 08:00-09:00 with another faculty: the only reason is the room |
| Findings.SameDaySessionsCollide | src/App.jsx:353-372 | as written, two equal sessions on the same day always get the same window and clash |
| Findings.MondayPairPlaced | src/App.jsx:353-372 | as written, seven hours as [2,12] slots on Monday and Monday in E34, on an empty registry, gives 07:00-08:00 and 07:00-13:00 |
| Findings.SameDayExample | src/App.jsx:353-372 | [2,12] is a generated pattern of 14 slots and Monday-Monday a generated day combination; as written, the placement above is made, and committing it is not conflict-free |
| Findings.SameDayCorrected | src/App.jsx:353-372 | the corrected placement of the same request puts the second session at 08:00-14:00 |
| Findings.MondayPairPlacement | src/App.jsx:343-390 | as written, that pair is a full placement on a generated day combination and a predefined room, spanning one day |
| Findings.MondayPairValid | src/App.jsx:274-390 | as written, that pair is a valid result of the seven-hour search |
| Findings.SameDayShape | src/App.jsx:297-305 | as written, a valid seven-hour result on the empty registry ranking no later than that pair has two sessions of at least one slot, on one day, both at 07:00, in one room |
| Findings.SameDayOffered | src/App.jsx:274-307 | as written, the first result offered for seven hours on an empty registry is two sessions on one day, both at 07:00 in one room, and committing it (876-893) with any two ids is not conflict-free |
| Findings.NegativeHoursShape | src/App.jsx:343-390 | as written, every valid result for minus one hour on an empty registry is one session at start index 0 whose end index is -2, off the grid |
| Findings.NegativeHoursAccepted | src/App.jsx:277-284 | as written, minus one hour passes the check and results are offered. Each is one session found at 07:00 whose end index is two before its start, so its end label `timeSlots[-2]` is undefined. The corrected check refuses the form |

## Left out

- localStorage load and save, the auto-save, clearing and the default seed list: browser storage. The registry's constructor takes the stored list as a parameter instead.
- JSON export and import, `printSchedule`, all JSX rendering and React state plumbing: file, DOM and UI work.
- The grid view and filters (`getScheduleForSlot`, `getFilteredSchedules`, the distinct-value helpers) and `getScheduleDuration`: they only feed the display.
- Ids from `Date.now()` and `Math.random()`: nondeterministic. Every operation takes the ids as parameters.
- Floating point: `parseFloat(hours) * 2` becomes an integer slot count, absent when the field is empty or not a number. Fractional slot counts (hours that are not a multiple of 0.5) are not modelled. The `hours` and `totalHours` display fields of a result are not modelled either.
- The result's `pattern` is kept as its list of slot counts, not as the display string "1 + 1 hours".
- Message texts of alerts and of conflict reasons: a reason is modelled as its kind plus the existing entry whose fields the text quotes.
- The form's day and times are selects. The model takes a weekday index and grid indices, or nothing. Arbitrary strings in those fields are not modelled.
- A search that fails validation leaves the previous results on screen (UI state). The model reports `MissingFields` instead.
- The commit loop does not re-check conflicts, and the model does not add a check either.
- SearchProperties.CommitFoundResult: it covers only a commit into the registry the search ran on. The finder keeps its results when the user switches tabs (src/App.jsx:697, 707); they are cleared only by "Clear" (829) and by a commit (892). In between, entries can be submitted (531-572), deleted (575-577) or imported (80-88), and "Use This Option" then appends a stale result without any check. Such a commit can double-book even with the corrected search. The model does not carry results across registry changes and promises nothing for that case.
- Availability.SessionEntry: a session whose end index falls outside the grid (possible only as written, with negative hours) has no end label in the source: `timeSlots[-2]` is undefined. Committing it stores an undefined end time, on which `timeToMinutes` later fails in the grid view and in `checkConflicts`. The model instead commits the minute `420 + 30 * index`, 360 for index -2, and does not model that failure.
- Built-ins `find`, `filter`, `sort`, `slice`, `Math.max` and `Math.min` are modelled as functions rather than loops. `sort` is modelled as a stable insertion sort, matching the stable `Array.prototype.sort`.
- vite.config.js: build configuration.

## Findings

| source | as written | input that shows it | evidently intended | confidence | as-written member | corrected member |
|---|---|---|---|---|---|---|
| src/App.jsx:353-372 | each session of one result is searched against the registry only, not against the sessions placed before it for the same result; day combinations repeat days, so two sessions of equal length on one day always get the same window | empty registry, 7 hours (14 slots), so no single session fits: the first result offered is two sessions on one day, both from 07:00 in one room, e.g. pattern [2, 12] on Monday and Monday in E34, 07:00-08:00 and 07:00-13:00 | sessions of one result do not overlap; committing a result never double-books | high (not executed) | Findings.SameDayOffered | SearchProperties.CommitFoundResult |
| src/App.jsx:277-284 | `!totalHours` refuses only empty, non-numeric and zero hours | hours = -1: 2·(-1) = -2 slots; the only pattern is [-2]; the scan accepts start 07:00 with end index -2, whose label `timeSlots[-2]` is undefined, and such results are offered | hours must be positive, and every session lies inside the grid | high (not executed) | Findings.NegativeHoursAccepted | SearchProperties.ValidResultShape |
