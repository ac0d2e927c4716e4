# Room availability, modelled and verified in Dafny

This project models the room-availability pipeline of the unibz room finder
(`functions/src/api.ts`). The pipeline takes the events of a day's timetable
feed and produces, for each room mentioned by some event, its reserved slots
and the free slots between them. It has these steps.

- **`normalizeValidRoomName`** turns a free-text location into a room
  `(campus, building, name)`, or null. It does this with one unanchored
  regular expression.
- **`compareReservedSlots`** orders slots by start instant. A null start
  compares equal to everything.
- **`computeFreeSlots`** walks a room's reserved slots. It emits a gap of at
  least one whole hour:
  - before the first slot, from the start of its day;
  - between consecutive slots;
  - after the last slot, to the end of its day.
- **`getRoomsAndAvailability`** chains four stages:
  - it keeps the events whose location normalises and that have both
    bounds, as singleton records;
  - it sorts those records by `"campus building name"`;
  - it folds neighbouring records of the same room into one, re-sorting the
    slots after each append;
  - it attaches the free slots to each record.

Files and modules, in dependency order:

| file | module | contents |
|---|---|---|
| `types.dfy` | `Types` | `TimeSlot`, `Room`, `RoomAvailability`, the decoded `Event`, instants as `int` milliseconds |
| `normalizer.dfy` | `Normalizer` | the regular expression as a backtracking engine, one function per pattern element, and what a match is |
| `collation.dfy` | `Collation` | the string order used by the room sort |
| `slots.dfy` | `Slots` | `compareReservedSlots`, and the stable sort of a room's slots |
| `freeslots.dfy` | `FreeSlots` | `computeFreeSlots`, read as its flatMap and rule by rule |
| `records.dfy` | `Records` | the flatMap, the room sort, the reduce callback and the final map of `getRoomsAndAvailability` |
| `aggregator.dfy` | `Aggregator` | the reduce loop and `getRoomsAndAvailability` itself |

Three behaviours of the code are easy to misread:

- **Overlapping bookings are not merged.** The slots of one room are only
  concatenated and sorted. The interior gap is measured from the previous
  slot's end only. So when bookings overlap, a free slot can overlap a
  reservation; `FreeSlots.FreeSlotMayOverlapReservation` shows one.
  Disjointness is proved only for reservations that follow one another
  (`FreeSlots.FreeSlotsApart`).
- **The leftmost match can start at a blank.** For `"A BZ 2.08"` the
  campus defaults to `"BZ"` and the building is `"Z"`
  (`Normalizer.ExampleLeftmostQuirk`).
- **`"12.3.4"` yields `"12"`.** Periods are allowed only right after the
  first digit of the room number.

## Model

| member | source | states |
|---|---|---|
| Normalizer.NormalizeValidRoomName | functions/src/api.ts:32-39 | a returned room has campus BZ or BX, a building that is empty or one upper-case letter, and a name that is a room number |
| Normalizer.CampusStar | functions/src/api.ts:33 | the campus group and its star, greedy: one more iteration first, else the rest of the pattern; no contract of its own, its meaning is given by Normalizer.CampusStarSound, Normalizer.CampusStarComplete and Normalizer.CampusStarMax |
| Normalizer.BlankOne | functions/src/api.ts:33 | the first `\s*`, greedy; no contract of its own, meaning given by Normalizer.ExecSound |
| Normalizer.BuildingStar | functions/src/api.ts:33 | `(?<building>[A-Z])*`, greedy; no contract of its own, meaning given by Normalizer.ExecSound |
| Normalizer.BlankTwo | functions/src/api.ts:33 | the second `\s*`, greedy; no contract of its own, meaning given by Normalizer.ExecSound |
| Normalizer.RoomDigit | functions/src/api.ts:33 | the leading `[0-9]` of the room group; no contract of its own, meaning given by Normalizer.RoomDigitClosed |
| Normalizer.PeriodStar | functions/src/api.ts:33 | `\.*` in the room group, greedy; no contract of its own, meaning given by Normalizer.RoomDigitClosed |
| Normalizer.DigitPlus | functions/src/api.ts:33 | `[0-9]+` in the room group; no contract of its own, meaning given by Normalizer.RoomDigitClosed |
| Normalizer.DigitStar | functions/src/api.ts:33 | the tail of `[0-9]+`, greedy, ending the match; no contract of its own, meaning given by Normalizer.RoomDigitClosed |
| Normalizer.RoomDigitClosed | functions/src/api.ts:33 | the room group the engine takes from r is the greedy token digit, periods, digits, and there is none when no token starts at r |
| Normalizer.RoomEndSpec | functions/src/api.ts:33 | a room group starts at r exactly when some room number starts there, and the engine's one is the longest |
| Normalizer.Exec | functions/src/api.ts:33 | `exec` without the g flag: tries start positions from left to right and returns the first match; no contract of its own, meaning given by Normalizer.ExecSound, Normalizer.ExecComplete and Normalizer.MatchUnique |
| Normalizer.CampusStarSound | functions/src/api.ts:33 | every match the engine returns from a start satisfies the whole pattern from that start, with a longest room group |
| Normalizer.CampusStarComplete | functions/src/api.ts:33 | backtracking finds a match at a start whenever the pattern can match there with some split |
| Normalizer.CampusStarMax | functions/src/api.ts:33 | the split the engine returns is the lexicographically greatest split (campus run, first blank run, building run) that reaches its room group |
| Normalizer.ExecSound | functions/src/api.ts:33 | the match exec returns from position p satisfies the whole pattern and its room group is as long as it can be; it starts at the first position from p on where the pattern matches at all; its split before the room group is the greedy one (longest BZ/BX run, then longest blank run, then longest letter run); and no room number starts between p and its room group |
| Normalizer.ExecComplete | functions/src/api.ts:33 | exec succeeds whenever some room number starts at or after the search position |
| Normalizer.MatchUnique | functions/src/api.ts:33 | at most one match is leftmost, greedy and has a longest room group, so ExecSound determines the match exec returns |
| Normalizer.RoomOf | functions/src/api.ts:34-38 | the room built from the groups, an unmatched campus giving "BZ" and an unmatched building ""; no contract of its own, meaning given by Normalizer.NormalizeMatch and Normalizer.NormalizeValidRoomName |
| Normalizer.NormalizeNoneIff | functions/src/api.ts:33-38 | the result is null exactly when no substring of the location is digit, periods, digits |
| Normalizer.NormalizeMatch | functions/src/api.ts:33-38 | on success the name is the leftmost room number of the location taken as long as possible, and campus and building come from the match that starts at the first position where the pattern matches, split greedily: the campus is the last BZ/BX of the longest run, the building the last letter of the longest letter run |
| Normalizer.RoomNumberShape | functions/src/api.ts:33 | a room number has at least two characters, starts and ends with a digit, and holds only digits and periods |
| Normalizer.ExampleNoRoom | functions/src/api.ts:33-38 | "Lab", "" (a missing location) and "5" give null |
| Normalizer.ExampleCampusBuildingName | functions/src/api.ts:33-38 | "BZ E 2.08" gives (BZ, E, 2.08) |
| Normalizer.ExampleNameOnly | functions/src/api.ts:33-38 | "3.05" gives (BZ, "", 3.05) |
| Normalizer.ExampleLeftmostQuirk | functions/src/api.ts:33-38 | "A BZ 2.08" gives (BZ, Z, 2.08): the match starts at the blank |
| Normalizer.ExampleSecondPeriodStops | functions/src/api.ts:33-38 | "12.3.4" gives the name "12" |
| Collation.LocaleCompare | functions/src/api.ts:76 | the comparison is -1, 0 or 1 |
| Collation.CompareFlip | functions/src/api.ts:76 | swapping the operands flips the sign |
| Collation.CompareZero | functions/src/api.ts:76 | the comparison is 0 exactly for equal strings |
| Collation.CompareTransitive | functions/src/api.ts:76 | "not after" is transitive |
| Collation.CompareStrictTransitive | functions/src/api.ts:76 | "strictly before" followed by "not after" is "strictly before" |
| Slots.CompareReservedSlots | functions/src/api.ts:25-30 | 0 exactly when either start is null or the starts are equal; otherwise the sign is the order of the starts |
| Slots.InsertSlot | functions/src/api.ts:84 | one insertion step of the sort is a permutation of its input plus the inserted slot |
| Slots.SortSlots | functions/src/api.ts:84 | the sort is a permutation of its input |
| Slots.SortSlotsSorted | functions/src/api.ts:84 | when every start is known, the sorted slots are non-decreasing by start |
| Slots.SortSlotsStable | functions/src/api.ts:84 | the slots sharing a start keep their input order |
| Slots.SortSlotsOfSorted | functions/src/api.ts:84 | sorting slots already in order changes nothing |
| Slots.ResortAppend | functions/src/api.ts:83-84 | appending one slot to sorted slots and sorting again equals sorting all of them at once |
| FreeSlots.StartOfDay | functions/src/api.ts:46 | `startOf('day')` in a zone `offset` ahead of UTC; no contract of its own, meaning given by FreeSlots.DayBounds |
| FreeSlots.EndOfDay | functions/src/api.ts:59 | `endOf('day')`, the last millisecond of the day; no contract of its own, meaning given by FreeSlots.DayBounds |
| FreeSlots.DiffHours | functions/src/api.ts:47 | `diff(…, 'hours')`, truncated toward zero, also used at lines 53 and 60; no contract of its own, meaning given by FreeSlots.DiffHoursAtLeastOne |
| FreeSlots.LeadingGap | functions/src/api.ts:44-49 | the gap before the first slot; no contract of its own, meaning given by FreeSlots.LeadingGapIff |
| FreeSlots.InteriorGap | functions/src/api.ts:50-55 | the gap before slot j; no contract of its own, meaning given by FreeSlots.InteriorGapIff |
| FreeSlots.TrailingGap | functions/src/api.ts:57-62 | the gap after the last slot; no contract of its own, meaning given by FreeSlots.TrailingGapIff |
| FreeSlots.FreeSlotsAt | functions/src/api.ts:42-65 | the flatMap callback at index j; no contract of its own, meaning given by FreeSlots.FreeSlotsFromStep and FreeSlots.FreeSlotsByRule |
| FreeSlots.FreeSlotsFrom | functions/src/api.ts:42-65 | the flatMap from index j on; no contract of its own, meaning given by FreeSlots.FreeSlotsFromShape and FreeSlots.FreeSlotsFromInterior |
| FreeSlots.DayBounds | functions/src/api.ts:46-59 | the day of t starts at or before t and ends after it, at whole days of the zone, with the end at the last millisecond |
| FreeSlots.DiffHoursAtLeastOne | functions/src/api.ts:47-60 | a truncated hour difference is at least 1 exactly when the millisecond difference is at least 3,600,000 |
| FreeSlots.ComputeFreeSlots | functions/src/api.ts:41-66 | at most one free slot more than there are reservations, none with a description |
| FreeSlots.FreeSlotsFromShape | functions/src/api.ts:42-65 | from index j on, at most one gap per index plus the trailing one, none with a description |
| FreeSlots.FreeSlotsByRule | functions/src/api.ts:42-65 | the free slots are the leading gap, then the interior gaps in index order, then the trailing gap |
| FreeSlots.FreeSlotsFromInterior | functions/src/api.ts:50-65 | from an index j >= 1 on, the flatMap yields the interior gaps from j on, then the trailing gap |
| FreeSlots.FreeSlotsFromStep | functions/src/api.ts:50-65 | one index of the flatMap: the gap before arr[j], and at the last index the trailing gap after it |
| FreeSlots.FreeSlotsOfNothing | functions/src/api.ts:42 | no reservations, no free slots |
| FreeSlots.LeadingGapIff | functions/src/api.ts:44-48 | the leading slot (null, s0) exists exactly when s0 is at least an hour after the start of its day |
| FreeSlots.InteriorGapIff | functions/src/api.ts:50-55 | the slot (e[j-1], s[j]) exists exactly when s[j] is at least an hour after e[j-1] |
| FreeSlots.TrailingGapIff | functions/src/api.ts:57-62 | the trailing slot (eLast, null) exists exactly when the end of its day is at least an hour after eLast |
| FreeSlots.InteriorMembers | functions/src/api.ts:50-55 | a slot is an interior free slot exactly when it is (e[j-1], s[j]) for some j >= 1 with s[j] - e[j-1] at least an hour |
| FreeSlots.FreeSlotsLastAnHour | functions/src/api.ts:44-62 | every free slot is bounded on at least one side and lasts at least an hour, up to or from the edge of its day when open |
| FreeSlots.FreeSlotsApart | functions/src/api.ts:42-65 | when reservations are well-formed and follow one another, no free slot shares an instant with a reservation |
| FreeSlots.FreeSlotMayOverlapReservation | functions/src/api.ts:50-55 | with overlapping reservations a free slot can overlap a reservation, since the gap is measured from the previous end only |
| FreeSlots.DayOf | functions/src/api.ts:46 | an instant within a day aligned to the zone has that day as its start of day |
| FreeSlots.ExampleOneMeeting | functions/src/api.ts:44-62 | one 09:00-10:00 reservation gives exactly (null, 09:00) and (10:00, null) |
| FreeSlots.ExampleWholeDay | functions/src/api.ts:44-62 | one 00:00-23:30 reservation gives no free slot |
| FreeSlots.ExampleGapThreshold | functions/src/api.ts:50-55 | a 59-minute gap gives nothing, and a one-hour gap gives exactly one slot |
| Records.LocationText | functions/src/api.ts:70 | the location, or "" when it is missing; no contract of its own, used by Records.EventRecord |
| Records.Description | functions/src/api.ts:72 | the description is the summary when the summary is present and non-empty, and null otherwise |
| Records.EventRecord | functions/src/api.ts:69-74 | an event gives one record exactly when its location normalises and both bounds are present; that record holds the normalised room, the single slot (start, end, summary or null) and no free slots |
| Records.Survivors | functions/src/api.ts:69-74 | the flatMap over the events; no contract of its own, meaning given by Records.SurvivorsFacts and Records.SurvivorsOfRoom |
| Records.SurvivorsFacts | functions/src/api.ts:69-74 | the flatMap gives singleton records carrying exactly the contributed slots, in input order, and exactly the contributing rooms |
| Records.SurvivorsOfRoom | functions/src/api.ts:69-74 | the records of one room carry exactly that room's contributed slots, in input order |
| Records.Key | functions/src/api.ts:76 | the key `"campus building name"`; no contract of its own, meaning given by Records.KeyShape and Records.KeyInjective |
| Records.KeyShape | functions/src/api.ts:76 | where campus, building and name sit in the key of a normalised room |
| Records.CompareRecords | functions/src/api.ts:75-76 | the sort comparator; no contract of its own, its order properties are those of Collation.LocaleCompare |
| Records.InsertRecord | functions/src/api.ts:75-76 | one insertion step of the room sort is a permutation of its input plus the inserted record |
| Records.KeyInjective | functions/src/api.ts:76-82 | for normalised rooms, equal sort keys mean equal (campus, building, name) triples, so key order and the triple comparison agree |
| Records.SortRecords | functions/src/api.ts:75-76 | the room sort is a permutation of the records |
| Records.SortRecordsSorted | functions/src/api.ts:75-76 | after the room sort the keys are non-decreasing |
| Records.SortRecordsContents | functions/src/api.ts:75-76 | the room sort keeps every slot and every room, and the records of one room keep their order |
| Records.ReduceStep | functions/src/api.ts:77-87 | the callback's accumulator is never empty and ends with a record of the current room |
| Records.FoldSame | functions/src/api.ts:80-85 | a record of the accumulator's last room joins that record, whose slots are sorted again, and the accumulator keeps describing the records folded so far |
| Records.FoldNew | functions/src/api.ts:86-87 | a record of another room is appended, and the accumulator keeps describing the records folded so far, its key now the largest |
| Records.FoldStep | functions/src/api.ts:77-87 | after each call of the callback: one record per room met so far, keys strictly increasing, each record holding exactly the sorted slots of its room, no slot lost or duplicated |
| Records.AttachFreeSlots | functions/src/api.ts:88 | the final map leaves each room and its reserved slots unchanged and sets the free slots computed from them |
| Records.FoldResult | functions/src/api.ts:68-88 | the folded and mapped records, read against the events: the properties of GetRoomsAndAvailability |
| Aggregator.ReduceFirst | functions/src/api.ts:77-87 | the reduce over the first n records is empty exactly when n is 0, and ends with a record of the n-th record's room |
| Aggregator.ReduceMerges | functions/src/api.ts:75-87 | over sorted singleton records, the reduce gives one record per room, in strictly increasing key order, each holding the sorted slots of exactly its room's records |
| Aggregator.MergeAdjacent | functions/src/api.ts:77-87 | the loop gives the result of the reduce |
| Aggregator.GetRoomsAndAvailability | functions/src/api.ts:68-89 | one record per room of a contributing event and no other; empty exactly when no event contributes; records in strictly increasing key order, so no room appears twice; each record holds exactly its room's slots, stably sorted and non-decreasing by start, and the free slots computed from them; no slot lost or duplicated |

## Left out

- `getRoomAvailability` (`functions/src/api.ts:91-100`): the HTTP fetch, the date formatting for "today" and the Promise are I/O.
- `functions/src/index.ts` is not part of this model. It is the HTTP handler, which is network plumbing.
- `ical.parseICS` is a foreign library. Its output is modelled as a sequence of already-decoded `Event`s, in the order `Object.values` lists them, with every field optional.
- `localeCompare` (`functions/src/api.ts:76`): ICU collation is abstracted as lexicographic order on code points. Keys of normalised rooms hold only the campus letters, blanks, one upper-case letter, digits and periods. Both orders are total on such keys. Whether ICU orders them exactly lexicographically is not modelled.
- Time zones and daylight saving: the start of a day is that of a zone a fixed `offset` milliseconds ahead of UTC. The offset is a parameter of `GetRoomsAndAvailability`.
- JavaScript `Date` is modelled as an integer count of milliseconds. A missing bound stands for the invalid date that `dayjs(null)` gives: its hour difference is NaN, so no gap is emitted.
- Strings are sequences of code points, not UTF-16 code units. In particular `\s` and `[A-Z]` are matched per code point.
- Record objects are not modelled as shared references. The reduce mutates `distinct[li].reservedSlots` in place, and that record object is also an element of the sorted array. The mutation is visible only at array indices the reduce has already passed. So the model works on values: it replaces the last record of the accumulator.
- `Array.prototype.sort` is modelled as a stable insertion sort. A stable sort by a consistent comparator has one result, whatever algorithm the engine uses.
- Records.ReduceStep: requires a non-empty accumulator from the second call on. The reduce always passes one; on an empty one the source would throw.
- Slots.SortSlotsSorted: proved only when every start is known. With a null start the comparator is not a consistent order, and the source's promise is then the engine's behaviour. Reserved slots always have both bounds after the filter at `functions/src/api.ts:71`.
- FreeSlots.FreeSlotsApart: proved only for reservations that are well-formed and follow one another. In general it does not hold; `FreeSlots.FreeSlotMayOverlapReservation` shows why.
