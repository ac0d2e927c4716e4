/** computeFreeSlots (functions/src/api.ts:41-66): a flatMap over the
    reserved slots that, at each index, may emit the gap before the slot and,
    at the last index, the gap after it, keeping only gaps of at least one
    whole hour. Day boundaries are those of a time zone a fixed `offset`
    milliseconds ahead of UTC. */
module FreeSlots {
  import opened Types

  const HOUR: int := 3_600_000
  const DAY: int := 86_400_000

  /** dayjs(t).startOf('day'). */
  function StartOfDay(offset: int, t: Instant): (d: Instant)
  {
    t - (t + offset) % DAY
  }

  /** dayjs(t).endOf('day'): 23:59:59.999 of the same day. */
  function EndOfDay(offset: int, t: Instant): (d: Instant)
  {
    StartOfDay(offset, t) + DAY - 1
  }

  /** The day of t starts at or before t, ends after it, and its bounds are
      whole days in the zone. */
  lemma DayBounds(offset: int, t: Instant)
    ensures StartOfDay(offset, t) <= t < StartOfDay(offset, t) + DAY
    ensures (StartOfDay(offset, t) + offset) % DAY == 0
    ensures t <= EndOfDay(offset, t) < t + DAY
    ensures (EndOfDay(offset, t) + 1 + offset) % DAY == 0
  {
  }

  /** later.diff(earlier, 'hours'): whole hours, truncated toward zero. */
  function DiffHours(later: Instant, earlier: Instant): int {
    var d := later - earlier;
    if d >= 0 then d / HOUR else -((-d) / HOUR)
  }

  /** The one-hour threshold in milliseconds. */
  lemma DiffHoursAtLeastOne(later: Instant, earlier: Instant)
    ensures DiffHours(later, earlier) >= 1 <==> later - earlier >= HOUR
  {
  }

  /** The gap from the start of the day to a slot starting at s, if an hour long. */
  function LeadingGap(offset: int, start: Option<Instant>): seq<TimeSlot> {
    match start
    case Some(s) => if DiffHours(s, StartOfDay(offset, s)) >= 1 then [TimeSlot(None, Some(s), None)] else []
    case None => []
  }

  /** The gap between an end and the next start, if an hour long. */
  function InteriorGap(end: Option<Instant>, start: Option<Instant>): seq<TimeSlot> {
    if end.Some? && start.Some? && DiffHours(start.value, end.value) >= 1
    then [TimeSlot(end, start, None)] else []
  }

  /** The gap from a slot ending at e to the end of the day, if an hour long. */
  function TrailingGap(offset: int, end: Option<Instant>): seq<TimeSlot> {
    match end
    case Some(e) => if DiffHours(EndOfDay(offset, e), e) >= 1 then [TimeSlot(Some(e), None, None)] else []
    case None => []
  }

  /** The flatMap callback at index j of arr: the leading gap at j = 0, the
      gap after arr[j - 1] otherwise, then the trailing gap at the last index.
      A missing bound is an invalid date, whose diff is NaN: no gap. */
  function FreeSlotsAt(offset: int, arr: seq<TimeSlot>, j: nat): (r: seq<TimeSlot>)
    requires j < |arr|
  {
    var slots := if j < 1 then LeadingGap(offset, arr[j].start) else InteriorGap(arr[j - 1].end, arr[j].start);
    if j == |arr| - 1 then slots + TrailingGap(offset, arr[j].end) else slots
  }

  /** The flatMap from index j on. */
  function FreeSlotsFrom(offset: int, arr: seq<TimeSlot>, j: nat): (r: seq<TimeSlot>)
    requires j <= |arr|
    decreases |arr| - j
  {
    if j == |arr| then [] else FreeSlotsAt(offset, arr, j) + FreeSlotsFrom(offset, arr, j + 1)
  }

  /** Each index yields at most one gap, the last at most two, and no gap
      carries a description. */
  lemma {:induction false} FreeSlotsFromShape(offset: int, arr: seq<TimeSlot>, j: nat)
    requires j <= |arr|
    ensures |FreeSlotsFrom(offset, arr, j)| <= |arr| - j + 1
    ensures forall k | 0 <= k < |FreeSlotsFrom(offset, arr, j)| :: FreeSlotsFrom(offset, arr, j)[k].description.None?
    decreases |arr| - j
  {
    if j < |arr| {
      FreeSlotsFromShape(offset, arr, j + 1);
    }
  }

  /** computeFreeSlots. */
  function ComputeFreeSlots(offset: int, reserved: seq<TimeSlot>): (r: seq<TimeSlot>)
    ensures |r| <= |reserved| + 1
    ensures forall k | 0 <= k < |r| :: r[k].description.None?
  {
    FreeSlotsFromShape(offset, reserved, 0);
    FreeSlotsFrom(offset, reserved, 0)
  }

  // ---------------------------------------------------------------------------
  // The same result read rule by rule.
  // ---------------------------------------------------------------------------

  /** The gaps between consecutive slots, from the one before arr[j] on. */
  function InteriorFrom(arr: seq<TimeSlot>, j: nat): seq<TimeSlot>
    requires 1 <= j <= |arr|
    decreases |arr| - j
  {
    if j == |arr| then [] else InteriorGap(arr[j - 1].end, arr[j].start) + InteriorFrom(arr, j + 1)
  }

  /** The free slots are the leading gap, then the interior gaps in index
      order, then the trailing gap. */
  lemma FreeSlotsByRule(offset: int, arr: seq<TimeSlot>)
    requires |arr| >= 1
    ensures ComputeFreeSlots(offset, arr) ==
      LeadingGap(offset, arr[0].start) + InteriorFrom(arr, 1) + TrailingGap(offset, arr[|arr| - 1].end)
  {
    var lead, trail := LeadingGap(offset, arr[0].start), TrailingGap(offset, arr[|arr| - 1].end);
    if |arr| == 1 {
      assert FreeSlotsAt(offset, arr, 0) == lead + trail;
      assert FreeSlotsFrom(offset, arr, 1) == [];
      assert InteriorFrom(arr, 1) == [];
    } else {
      assert FreeSlotsAt(offset, arr, 0) == lead;
      FreeSlotsFromInterior(offset, arr, 1);
    }
    assert FreeSlotsFrom(offset, arr, 0) == FreeSlotsAt(offset, arr, 0) + FreeSlotsFrom(offset, arr, 1);
  }

  lemma {:induction false} FreeSlotsFromInterior(offset: int, arr: seq<TimeSlot>, j: nat)
    requires 1 <= j < |arr|
    ensures FreeSlotsFrom(offset, arr, j) == InteriorFrom(arr, j) + TrailingGap(offset, arr[|arr| - 1].end)
    decreases |arr| - j
  {
    if j < |arr| - 1 {
      FreeSlotsFromInterior(offset, arr, j + 1);
    }
    FreeSlotsFromStep(offset, arr, j);
  }

  /** One index of the flatMap: at the last index it yields the last gap
      and the trailing one, before it the gap before arr[j]. */
  lemma FreeSlotsFromStep(offset: int, arr: seq<TimeSlot>, j: nat)
    requires 1 <= j < |arr|
    requires j < |arr| - 1 ==>
      FreeSlotsFrom(offset, arr, j + 1) == InteriorFrom(arr, j + 1) + TrailingGap(offset, arr[|arr| - 1].end)
    ensures FreeSlotsFrom(offset, arr, j) == InteriorFrom(arr, j) + TrailingGap(offset, arr[|arr| - 1].end)
  {
    var gap := InteriorGap(arr[j - 1].end, arr[j].start);
    var trail := TrailingGap(offset, arr[|arr| - 1].end);
    if j == |arr| - 1 {
      assert FreeSlotsAt(offset, arr, j) == gap + trail;
      assert FreeSlotsFrom(offset, arr, j + 1) == [];
      assert InteriorFrom(arr, j + 1) == [];
      assert FreeSlotsFrom(offset, arr, j) == (gap + trail) + [];
      assert InteriorFrom(arr, j) == gap + [];
    } else {
      var rest := InteriorFrom(arr, j + 1);
      assert FreeSlotsAt(offset, arr, j) == gap;
      assert FreeSlotsFrom(offset, arr, j) == gap + (rest + trail);
      assert InteriorFrom(arr, j) == gap + rest;
      assert gap + (rest + trail) == (gap + rest) + trail;
    }
  }

  /** The empty list of reservations has no free slots. */
  lemma FreeSlotsOfNothing(offset: int)
    ensures ComputeFreeSlots(offset, []) == []
  {
  }

  // ---------------------------------------------------------------------------
  // Each rule against the one-hour threshold in milliseconds.
  // ---------------------------------------------------------------------------

  /** A leading free slot exists iff the first start is at least an hour after
      the start of its day (functions/src/api.ts:44-48). */
  lemma LeadingGapIff(offset: int, start: Option<Instant>)
    ensures LeadingGap(offset, start) ==
      if start.Some? && start.value - StartOfDay(offset, start.value) >= HOUR
      then [TimeSlot(None, start, None)] else []
  {
    if start.Some? {
      DiffHoursAtLeastOne(start.value, StartOfDay(offset, start.value));
    }
  }

  /** A gap between consecutive slots exists iff the next start is at least an
      hour after the previous end (functions/src/api.ts:50-55). */
  lemma InteriorGapIff(end: Option<Instant>, start: Option<Instant>)
    ensures InteriorGap(end, start) ==
      if end.Some? && start.Some? && start.value - end.value >= HOUR
      then [TimeSlot(end, start, None)] else []
  {
    if end.Some? && start.Some? {
      DiffHoursAtLeastOne(start.value, end.value);
    }
  }

  /** A trailing free slot exists iff the last end is at least an hour before
      the end of its day (functions/src/api.ts:57-62). */
  lemma TrailingGapIff(offset: int, end: Option<Instant>)
    ensures TrailingGap(offset, end) ==
      if end.Some? && EndOfDay(offset, end.value) - end.value >= HOUR
      then [TimeSlot(end, None, None)] else []
  {
    if end.Some? {
      DiffHoursAtLeastOne(EndOfDay(offset, end.value), end.value);
    }
  }

  /** The gap between arr[j - 1] and arr[j], for j >= 1, is among the interior
      free slots exactly when it is at least an hour long; nothing else is. */
  lemma {:induction false} InteriorMembers(arr: seq<TimeSlot>, j0: nat, t: TimeSlot)
    requires 1 <= j0 <= |arr|
    ensures t in InteriorFrom(arr, j0) <==>
      exists j | j0 <= j < |arr| :: arr[j - 1].end.Some? && arr[j].start.Some? &&
        arr[j].start.value - arr[j - 1].end.value >= HOUR && t == TimeSlot(arr[j - 1].end, arr[j].start, None)
    decreases |arr| - j0
  {
    if j0 < |arr| {
      var gap := InteriorGap(arr[j0 - 1].end, arr[j0].start);
      var rest := InteriorFrom(arr, j0 + 1);
      assert InteriorFrom(arr, j0) == gap + rest;
      assert t in gap + rest <==> t in gap || t in rest;
      InteriorGapIff(arr[j0 - 1].end, arr[j0].start);
      InteriorMembers(arr, j0 + 1, t);
    }
  }

  /** Every free slot is at least an hour long: a bounded one between its
      bounds, an open one up to or from the edge of its day. */
  lemma {:induction false} FreeSlotsLastAnHour(offset: int, arr: seq<TimeSlot>, t: TimeSlot)
    requires |arr| >= 1 && t in ComputeFreeSlots(offset, arr)
    ensures t.start.Some? || t.end.Some?
    ensures t.start.Some? && t.end.Some? ==> t.end.value - t.start.value >= HOUR
    ensures t.start.None? ==> t.end.value - StartOfDay(offset, t.end.value) >= HOUR
    ensures t.end.None? ==> EndOfDay(offset, t.start.value) - t.start.value >= HOUR
  {
    FreeSlotsByRule(offset, arr);
    LeadingGapIff(offset, arr[0].start);
    TrailingGapIff(offset, arr[|arr| - 1].end);
    var lead, inner, trail := LeadingGap(offset, arr[0].start), InteriorFrom(arr, 1), TrailingGap(offset, arr[|arr| - 1].end);
    assert t in lead || t in inner || t in trail;
    if t in inner {
      InteriorMembers(arr, 1, t);
    }
  }

  // ---------------------------------------------------------------------------
  // Against the reservations.
  // ---------------------------------------------------------------------------

  /** Reservations that are each well-formed and follow one another without
      overlapping. */
  ghost predicate Chained(arr: seq<TimeSlot>) {
    (forall j | 0 <= j < |arr| :: arr[j].start.Some? && arr[j].end.Some? && arr[j].start.value <= arr[j].end.value) &&
    (forall j | 1 <= j < |arr| :: arr[j - 1].end.value <= arr[j].start.value)
  }

  /** Two slots share no instant (an open bound reaches the edge of the day). */
  ghost predicate Apart(free: TimeSlot, reserved: TimeSlot)
    requires reserved.start.Some? && reserved.end.Some?
  {
    (free.end.Some? && free.end.value <= reserved.start.value) ||
    (free.start.Some? && reserved.end.value <= free.start.value)
  }

  lemma {:induction false} ChainedMonotone(arr: seq<TimeSlot>, i: nat, j: nat)
    requires Chained(arr) && i < j < |arr|
    ensures arr[i].end.value <= arr[j].start.value
    decreases j - i
  {
    if i + 1 < j {
      ChainedMonotone(arr, i, j - 1);
    }
  }

  lemma StartsMonotone(arr: seq<TimeSlot>, i: nat, j: nat)
    requires Chained(arr) && i <= j < |arr|
    ensures arr[i].start.value <= arr[j].start.value
  {
    if i < j {
      ChainedMonotone(arr, i, j);
    }
  }

  lemma EndsMonotone(arr: seq<TimeSlot>, i: nat, j: nat)
    requires Chained(arr) && i <= j < |arr|
    ensures arr[i].end.value <= arr[j].end.value
  {
    if i < j {
      ChainedMonotone(arr, i, j);
    }
  }

  /** With non-overlapping reservations in order, no free slot meets a
      reserved one. */
  lemma FreeSlotsApart(offset: int, arr: seq<TimeSlot>, t: TimeSlot, k: nat)
    requires Chained(arr) && k < |arr| && t in ComputeFreeSlots(offset, arr)
    ensures Apart(t, arr[k])
  {
    var last := |arr| - 1;
    var lead, inner, trail := LeadingGap(offset, arr[0].start), InteriorFrom(arr, 1), TrailingGap(offset, arr[last].end);
    FreeSlotsByRule(offset, arr);
    assert t in lead || t in inner || t in trail;
    if t in lead {
      LeadingGapIff(offset, arr[0].start);
      assert t.end == arr[0].start;
      StartsMonotone(arr, 0, k);
    } else if t in trail {
      TrailingGapIff(offset, arr[last].end);
      assert t.start == arr[last].end;
      EndsMonotone(arr, k, last);
    } else {
      InteriorMembers(arr, 1, t);
      var j :| 1 <= j < |arr| && t == TimeSlot(arr[j - 1].end, arr[j].start, None);
      if k < j {
        EndsMonotone(arr, k, j - 1);
      } else {
        StartsMonotone(arr, j, k);
      }
    }
  }

  /** Overlapping reservations are not merged: the gap is measured from the
      previous slot's end only, so a free slot may overlap a reservation. */
  lemma FreeSlotMayOverlapReservation(d: Instant)
    ensures var arr := [TimeSlot(Some(d + 9 * HOUR), Some(d + 12 * HOUR), None),
                        TimeSlot(Some(d + 10 * HOUR), Some(d + 10 * HOUR + HOUR / 2), None),
                        TimeSlot(Some(d + 13 * HOUR), Some(d + 14 * HOUR), None)];
      TimeSlot(Some(d + 10 * HOUR + HOUR / 2), Some(d + 13 * HOUR), None) in InteriorFrom(arr, 1) &&
      !Apart(TimeSlot(Some(d + 10 * HOUR + HOUR / 2), Some(d + 13 * HOUR), None), arr[0])
  {
    var arr := [TimeSlot(Some(d + 9 * HOUR), Some(d + 12 * HOUR), None),
                TimeSlot(Some(d + 10 * HOUR), Some(d + 10 * HOUR + HOUR / 2), None),
                TimeSlot(Some(d + 13 * HOUR), Some(d + 14 * HOUR), None)];
    InteriorMembers(arr, 1, TimeSlot(Some(d + 10 * HOUR + HOUR / 2), Some(d + 13 * HOUR), None));
    assert arr[1].end.value == d + 10 * HOUR + HOUR / 2 && arr[2].start.value == d + 13 * HOUR;
  }

  // ---------------------------------------------------------------------------
  // Worked examples on an arbitrary day starting at instant d.
  // ---------------------------------------------------------------------------

  lemma DayOf(offset: int, d: Instant, t: Instant)
    requires (d + offset) % DAY == 0 && d <= t < d + DAY
    ensures StartOfDay(offset, t) == d
  {
    var q := (d + offset) / DAY;
    assert t + offset == q * DAY + (t - d);
  }

  /** A single 09:00-10:00 reservation leaves the morning and the rest of the day. */
  lemma ExampleOneMeeting(offset: int, d: Instant)
    requires (d + offset) % DAY == 0
    ensures ComputeFreeSlots(offset, [TimeSlot(Some(d + 9 * HOUR), Some(d + 10 * HOUR), None)]) ==
      [TimeSlot(None, Some(d + 9 * HOUR), None), TimeSlot(Some(d + 10 * HOUR), None, None)]
  {
    var arr := [TimeSlot(Some(d + 9 * HOUR), Some(d + 10 * HOUR), None)];
    DayOf(offset, d, d + 9 * HOUR);
    DayOf(offset, d, d + 10 * HOUR);
    FreeSlotsByRule(offset, arr);
    LeadingGapIff(offset, arr[0].start);
    TrailingGapIff(offset, arr[0].end);
  }

  /** A 00:00-23:30 reservation leaves nothing. */
  lemma ExampleWholeDay(offset: int, d: Instant)
    requires (d + offset) % DAY == 0
    ensures ComputeFreeSlots(offset, [TimeSlot(Some(d), Some(d + 23 * HOUR + HOUR / 2), None)]) == []
  {
    var arr := [TimeSlot(Some(d), Some(d + 23 * HOUR + HOUR / 2), None)];
    DayOf(offset, d, d);
    DayOf(offset, d, d + 23 * HOUR + HOUR / 2);
    FreeSlotsByRule(offset, arr);
    LeadingGapIff(offset, arr[0].start);
    TrailingGapIff(offset, arr[0].end);
  }

  /** 10:00 to 10:59 is too short a gap; 10:00 to 11:00 is exactly one. */
  lemma ExampleGapThreshold(end: Instant)
    ensures InteriorGap(Some(end), Some(end + 59 * 60_000)) == []
    ensures InteriorGap(Some(end), Some(end + HOUR)) == [TimeSlot(Some(end), Some(end + HOUR), None)]
  {
    InteriorGapIff(Some(end), Some(end + 59 * 60_000));
    InteriorGapIff(Some(end), Some(end + HOUR));
  }
}
