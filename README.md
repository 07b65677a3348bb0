# MMM-Skyss departure pipeline in Dafny

MMM-Skyss is a MagicMirror module that shows the next departures from
stops run by Skyss, the public transit authority of Bergen. Each time it
polls, it does the following:

1. It builds a request body from the `stops` configuration. The body is a
   list of stop groups, and each group holds NSR-prefixed quay ids.
2. It sends that body to the departures API.
3. It projects every `PassingTimes` entry of the response into a journey
   record. Where the `DisplayTime` text ("5 min" or "23:50") can be read as
   a realtime estimate, the record takes that estimate as its timestamp.
4. It sorts the records by timestamp and keeps the first `maxItems`.

When it renders a row, the module labels the departure time either
relatively ("NOW", "1MIN", "<n> MINUTES") or as a clock time. It also
picks a Font Awesome icon for the service mode.

The Dafny model covers those five pieces. Each one keeps the form it has in
`MMM-Skyss.js`:

- `RequestBody`: `normalizeId` and `buildRequestBody`.
  - `BuildRequestBody` is a method with loops over an insertion-ordered
    group map.
  - It is proved equal to a recursive reference definition,
    `RequestGroups`, which is built from `GroupOrder`, `StopsFor` and
    `KeepNonEmpty`.
  - The lemmas state what the request contains: prefixed and distinct
    group ids, no empty group, every group with stops present, first-seen
    order, merging of the two configuration forms, and skipped entries.
- `DisplayTime`: `processSkyssDisplaytime`.
  - The two regular expressions are unanchored searches. They are
    modelled as leftmost searches (`FindMinutes`, `FindClock`), and each
    search is proved sound and complete.
  - The moment.js behaviour is modelled as follows:
    - a relative time is `now + (n+1)` minutes;
    - a clock time is read as today and moved one day on if it lies in
      the past;
    - an hour or minute out of range gives an invalid moment;
    - `24:00` means the next midnight.
  - Instants are integers in local-clock milliseconds.
- `Projection`: the response callback of `getStopInfo`, modelled as a
  method with a loop.
  - It returns one record per passing time.
  - When a passing time names a stop that `Stops` does not describe, the
    callback throws. The model reports this as an error.
  - An invalid moment is stored as the epoch, because its `toISOString()`
    is `null`.
- `Aggregation`: the `then` branch of `startPolling`.
  - It is the class `SkyssModule`, with a `journeys` field that
    `ApplyResults` and `Poll` replace.
  - The sort is an in-place stable insertion sort on an array. It is
    proved equal to the functional `SortByTime`, which is proved sorted,
    a permutation, and stable.
  - `slice(0, maxItems)` is modelled exactly, including a negative
    `maxItems`.
- `Rendering`: `formatTime` and the icon `switch` of `getTableRow`.

`Text`, `Time` and `Wrappers` hold the shared helpers:

- decimal digits and `String(n)`;
- local-day arithmetic;
- `Option` and `Result`.

Some behaviours of `MMM-Skyss.js` that a reader may not expect, all kept by the model:

- A negative `maxItems` drops that many records from the end of the sorted list, as `slice(0, k)` does (MMM-Skyss.js:137).
- `formatTime` shows `<n> MINUTES` whenever `min < humanizeTimeTreshold` (MMM-Skyss.js:412-413). For a departure already past, `n` is negative (`PastDepartureCountsNegative`).
- The clock label pads the minute but not the hour, so 9:05 shows as `9:05` (MMM-Skyss.js:416).
- A `DisplayTime` whose `HH:MM` is out of range gives an invalid moment (MMM-Skyss.js:174). Its `toISOString()` is `null`, so the record's timestamp is the epoch (MMM-Skyss.js:277).
- The stops of a group are a list that keeps duplicates in configuration order (MMM-Skyss.js:210, 237).
- A passing time with an unknown stop makes the callback throw at `stop.Description` (MMM-Skyss.js:286). The promise never settles and `journeys` keeps its value.

## Model

| member | source | states |
|---|---|---|
| RequestBody.NormalizeId | MMM-Skyss.js:186-190 | a falsy id (missing, `""`, `0`) gives none; every other id gets the `NSR:` prefix; text that already has it is returned unchanged; a non-zero number `n` becomes `NSR:<type>:` followed by the decimal digits of `n` |
| RequestBody.NormalizeIdIdempotent | MMM-Skyss.js:186-190 | normalizing an already normalized id changes nothing, whatever the type name |
| RequestBody.NormalizeIdPrefixes | MMM-Skyss.js:189 | a bare id `s` becomes exactly `NSR:<type>:s`, which is 5 plus the type name longer |
| RequestBody.BuildRequestBody | MMM-Skyss.js:184-253 | the body's groups are exactly `RequestGroups` of the configuration entries |
| RequestBody.AddEntry | MMM-Skyss.js:195-237 | one loop step: a new group id is appended to the key order; every group's stops grow by exactly what the entry contributes to it |
| RequestBody.PushStops | MMM-Skyss.js:207-214 | the grouped form appends the normalized truthy quay ids in order |
| RequestBody.DropEmptyGroups | MMM-Skyss.js:240-243 | filtering the map values in key order keeps exactly the groups with stops |
| RequestBody.EntryStep | MMM-Skyss.js:194-238 | one more entry extends the key order by its group if that group is new, and each group's stops by what the entry contributes |
| RequestBody.GroupedIgnoresStopId | MMM-Skyss.js:198-216 | an entry with `stopIds` and a truthy `stopGroupId` contributes the same whatever its `stopId` |
| RequestBody.SkippedEntries | MMM-Skyss.js:198-229 | an entry contributes nothing if and only if it is not grouped and lacks a truthy `stopGroupId` or `stopId` |
| RequestBody.NormalizeStopsAppend | MMM-Skyss.js:207-214 | the quay ids of a concatenated `stopIds` list are the concatenation of the parts' ids |
| RequestBody.NormalizeStopsSkipsIndividually | MMM-Skyss.js:208-213 | a falsy raw quay id is skipped on its own, without affecting its neighbours |
| RequestBody.NormalizeStopsPrefixed | MMM-Skyss.js:207-210 | every quay id pushed by the grouped form carries the `NSR:` prefix |
| RequestBody.GroupOrderDistinct | MMM-Skyss.js:204-205 | the map's key order has no repeated group id |
| RequestBody.GroupOrderMembers | MMM-Skyss.js:194-238 | a group id is a map key if and only if some entry contributes to it |
| RequestBody.GroupOrderPrefixed | MMM-Skyss.js:199-232 | every map key is non-empty and carries the `NSR:` prefix |
| RequestBody.GroupOrderPrefix | MMM-Skyss.js:204-236 | later entries never reorder the keys created by earlier ones |
| RequestBody.UnseenGroupHasNoStops | MMM-Skyss.js:204-237 | a group that is not a map key has no stops |
| RequestBody.StopsForAppend | MMM-Skyss.js:194-238 | a group's stops over concatenated configurations are the concatenation of its stops over each part |
| RequestBody.SimpleThenGroupedMerge | MMM-Skyss.js:198-237 | a simple entry and a grouped entry for the same stop place merge into one group: the simple quay first, then the grouped quays |
| RequestBody.KeepNonEmptyShape | MMM-Skyss.js:240-243 | each kept group is a key with its own non-empty stops, and every key with stops is kept |
| RequestBody.KeepNonEmptyPrefix | MMM-Skyss.js:240-243 | filtering a prefix of the keys gives a prefix of the filtered groups, made of exactly the groups from that prefix |
| RequestBody.KeepNonEmptyDistinct | MMM-Skyss.js:240-243 | filtering distinct keys gives groups with distinct ids |
| RequestBody.RequestGroupsValid | MMM-Skyss.js:240-252 | every requested group has an `NSR:` id and exactly its non-empty list of stops |
| RequestBody.RequestGroupsDistinct | MMM-Skyss.js:192-252 | no group id appears twice in a request |
| RequestBody.RequestGroupsComplete | MMM-Skyss.js:240-252 | a group is requested if and only if the configuration gives it at least one stop |
| RequestBody.FirstSeenFirst | MMM-Skyss.js:192-243 | groups come in the order their ids were first seen in the configuration |
| RequestBody.SkippedEntryNoEffect | MMM-Skyss.js:222-229 | appending an entry that is skipped leaves the request unchanged |
| RequestBody.KeepNonEmptyCongruent | MMM-Skyss.js:240-243 | the filtered groups depend only on each group's stops |
| DisplayTime.DigitRunEnd | MMM-Skyss.js:162 | the digit run starting at a position ends just before the first non-digit |
| DisplayTime.MinutesEndUnique | MMM-Skyss.js:162 | a match of `([0-9]+) min` that starts at a given position has only one possible digit group |
| DisplayTime.NoMinutesInRun | MMM-Skyss.js:162-167 | no match of the minutes pattern starts inside a digit run that is not followed by ` min` |
| DisplayTime.FindMinutes | MMM-Skyss.js:162-167 | the search finds the leftmost match of `([0-9]+) min`, or reports that there is none |
| DisplayTime.FindClock | MMM-Skyss.js:163-174 | the search finds the leftmost match of `[0-9]{2}:[0-9]{2}`, or reports that there is none |
| DisplayTime.ProcessSkyssDisplaytime | MMM-Skyss.js:160-182 | the method returns the `RealtimeEstimate` of the display time at `now` |
| DisplayTime.RelativeEstimate | MMM-Skyss.js:166-170 | `N min` gives `now + (N+1)` minutes, with `N` read from the leftmost match |
| DisplayTime.ClockEstimate | MMM-Skyss.js:173-179 | a valid `HH:MM` below 24:00 gives the earliest instant at or after `now` with that clock time, within one day |
| DisplayTime.MidnightEstimate | MMM-Skyss.js:174-179 | `24:00` gives the next midnight |
| DisplayTime.EarliestAtClock | MMM-Skyss.js:174-179 | moving today's clock time a day on when it is past gives the earliest instant at or after `now` with that time of day |
| DisplayTime.InvalidClockEstimate | MMM-Skyss.js:174 | an out-of-range `HH:MM` gives an invalid moment |
| DisplayTime.NoPatternNoEstimate | MMM-Skyss.js:160-182 | there is no estimate if and only if neither pattern occurs anywhere in the text |
| DisplayTime.EstimateNotBeforeNow | MMM-Skyss.js:166-179 | a valid estimate never lies before `now`, and a relative one lies at least a minute after it |
| DisplayTime.FiveMinutes | MMM-Skyss.js:169-170 | `5 min` resolves to `now` plus six minutes |
| DisplayTime.TwentyThreeFifty | MMM-Skyss.js:163-174 | `23:50` has no minutes match, has a clock match at 0, and reads as hour 23, minute 50 |
| DisplayTime.SameDayExample | MMM-Skyss.js:174-179 | `23:50` seen at 00:10 resolves to 23:50 the same day |
| DisplayTime.NextDayExample | MMM-Skyss.js:176-179 | `23:50` seen at 23:55 resolves to 23:50 the next day |
| Projection.ProjectResponse | MMM-Skyss.js:257-300 | succeeds if and only if every passing time's stop is described; it then gives one record per passing time in order, each holding that entry's fields and stop name, the chosen timestamp and the platform or `""`; otherwise it names the first unknown stop |
| Projection.TimestampChoice | MMM-Skyss.js:275-282 | the scheduled `AimedTime` is kept unless realtime is enabled and the display time yields an estimate |
| Projection.RealtimeTimestampNotBeforeNow | MMM-Skyss.js:275-277 | a timestamp taken from a valid estimate is not before `now` |
| Aggregation.WithTimeAppend | MMM-Skyss.js:131-135 | the records with one timestamp, taken from a concatenation, are those of each part in turn |
| Aggregation.InsertMultiset | MMM-Skyss.js:131-135 | insertion adds exactly the new record |
| Aggregation.InsertSorted | MMM-Skyss.js:131-135 | inserting into a sorted list keeps it sorted |
| Aggregation.InsertStable | MMM-Skyss.js:131-135 | an inserted record goes after every record with the same timestamp |
| Aggregation.NoneWithTime | MMM-Skyss.js:131-135 | a sorted list holds no record earlier than its first record |
| Aggregation.SortByTimeCorrect | MMM-Skyss.js:131-135 | the sort is ordered by timestamp, is a permutation, and is stable: records with equal timestamps keep their input order |
| Aggregation.InsertAt | MMM-Skyss.js:131-135 | insertion puts the record after the ones not later than it and before the later ones |
| Aggregation.SortJourneys | MMM-Skyss.js:131-135 | the array in place becomes `SortByTime` of its old contents |
| Aggregation.InsertNext | MMM-Skyss.js:131-135 | one pass inserts element `i` into the sorted prefix and leaves the rest of the array alone |
| Aggregation.SlidResult | MMM-Skyss.js:131-135 | shifting the later records one slot right and writing the key into the gap is exactly insertion |
| Aggregation.SliceEnd | MMM-Skyss.js:137 | `slice(0, maxItems)` keeps `min(n, maxItems)` records for non-negative `maxItems`, and drops `-maxItems` from the end (none left at most) otherwise |
| Aggregation.RankedSortedPrefix | MMM-Skyss.js:131-137 | the displayed list is sorted, has `SliceEnd` records, and is a prefix of the sorted results |
| Aggregation.RankedFromResults | MMM-Skyss.js:124-137 | the displayed records come from the results, and records with equal timestamps keep their relative order |
| Aggregation.SortedCut | MMM-Skyss.js:131-137 | cutting a sorted list leaves no record in the kept part later than one in the dropped part |
| Aggregation.RankedEarliest | MMM-Skyss.js:131-137 | every displayed record is no later than every dropped record: the module shows the earliest departures |
| Aggregation.SkyssModule.constructor | MMM-Skyss.js:41-64 | a module starts with no journeys and the configured `maxItems` and `useRealtime` |
| Aggregation.SkyssModule.ApplyResults | MMM-Skyss.js:120-146 | non-empty results replace `journeys` with the sorted, sliced list; empty results leave it unchanged |
| Aggregation.SkyssModule.Poll | MMM-Skyss.js:107-147 | a poll sends the request body for the configured stops; if the transport fails, a stop is unknown or there are no passing times, `journeys` is unchanged; otherwise `journeys` is `Ranked` of one projected record per passing time, so it is sorted and has `SliceEnd` records |
| Rendering.MinutesUntil | MMM-Skyss.js:404-405 | `Math.floor(diff/60000)` is the whole number of minutes, rounded down |
| Rendering.ClockText | MMM-Skyss.js:416 | the clock label is one or two hour digits, `:`, and two minute digits; the digits read back as the local hour and minute of `t` (with `ClockTextReadsBack`) |
| Rendering.FormatTime | MMM-Skyss.js:401-417 | a zero threshold gives the clock; `NOW` and `1MIN` only in the first and second minute; `<n> MINUTES` only below the threshold with `n` the floored minutes left; a clock label is the clock text of `t` (the exact intervals are in `FormatTimeCases`) |
| Rendering.TwoDigits | MMM-Skyss.js:416 | `("0"+m).slice(-2)` is two digits that read back as `m` |
| Rendering.ClockTextReadsBack | MMM-Skyss.js:416 | the clock label is the unpadded hour, `:`, and two digits; these read back as the local hour and minute |
| Rendering.ClockLabelIsDisplayTime | MMM-Skyss.js:416 | a clock label with a two-digit hour matches `[0-9]{2}:[0-9]{2}` and reads back as the same hour and minute |
| Rendering.FormatTimeCases | MMM-Skyss.js:401-417 | each label holds exactly in its interval: `NOW` in the first minute, `1MIN` in the second, `<n> MINUTES` below the threshold, the clock otherwise or when the threshold is 0 |
| Rendering.PastDepartureCountsNegative | MMM-Skyss.js:405-413 | with a positive threshold, a past departure shows a negative minute count |
| Rendering.ZeroThresholdShowsClock | MMM-Skyss.js:407-416 | a zero threshold always shows the clock time |
| Rendering.HumanizerExamples | MMM-Skyss.js:401-417 | at threshold 15: +59 s is `NOW`, +61 s is `1MIN`, +601 s is 10 minutes, +1000 min is a clock time, and -1 s is -1 minutes |
| Rendering.ServiceIcon | MMM-Skyss.js:339-358 | every service maps to one of the five icon names |
| Rendering.ServiceIconPreimages | MMM-Skyss.js:339-358 | each icon is given to exactly the services its cases list, and `rocket` to every service no case lists |
| Text.NatToString | MMM-Skyss.js:413-416 | `String(n)` is a non-empty digit string that reads back as `n`, has no leading zero, and is one digit exactly when `n < 10` |
| Time.StartOfDay | MMM-Skyss.js:174 | the local midnight that starts the day holding `t` |

## Left out

- `node_helper.js` is not part of this model. The transport, meaning the HTTP POST, the socket notifications and the FIFO queue of request callbacks, is replaced by `Poll`'s `response` parameter. `None` there stands for a failed request, whose callback is never called.
- Timers, `updateDom`, the DOM building in `getDom`, `getTableHeaderRow` and `getTableRow`, the fade arithmetic and the translations are left out. Labels are the `TimeLabel` datatype rather than translated strings.
- `JSON.parse` and any malformed payload are left out. The parsed response is given as the `Response` datatype.
- Clock readings (`moment()`, `new Date()`) are left out. They are the `now` parameter, taken once per resolution, while the source reads the clock on every call.
- Time zones and daylight-saving changes are left out. An instant is a count of local-clock milliseconds, and a day is always 86400000 ms.
- moment's lenient parsing of `HH:mm` is left out. When other digits come before the clock time in the text, moment may read those digits instead. The model reads the clock at the leftmost `[0-9]{2}:[0-9]{2}` match.
- `parseInt`'s loss of precision for digit runs longer than a double can hold is left out. Integers are unbounded.
- Negative and fractional numeric configuration ids are left out. A numeric id is a `nat`, and its text form is its decimal digits.
- `NatToString`: JavaScript writes a number of 1e21 or more in exponent form (`String(1e21)` is `"1e+21"`). The model gives the plain decimal digits for every `nat`, so it matches `String(n)` only below 1e21.
- Logging, `console.warn` and the `debug` branches are left out. They change no state.
- The unreachable `if (!groupId)` check of the grouped form is left out. Its group id is truthy at that point, so it is never taken.
- `ServiceIcon`: the icon names are checked against the switch but not against Font Awesome.
