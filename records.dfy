/** The stages of getRoomsAndAvailability (functions/src/api.ts:68-89): the
    flatMap that keeps the events whose location names a room and that have
    both bounds, one singleton record each; the sort of the records by
    "campus building name"; the reduce callback that folds a record into
    the accumulator; and the final map that attaches the free slots. */
module Records {
  import opened Types
  import opened Normalizer
  import opened Collation
  import opened Slots
  import opened FreeSlots

  // ---------------------------------------------------------------------------
  // The events that contribute (functions/src/api.ts:69-74).
  // ---------------------------------------------------------------------------

  /** `event.location || ""`. */
  function LocationText(event: Event): string {
    match event.location
    case Some(l) => l
    case None => ""
  }

  /** `event.summary || null`: a missing or empty summary is null. */
  function Description(summary: Option<string>): (d: Option<string>)
    ensures d.Some? <==> summary.Some? && summary.value != ""
    ensures d.Some? ==> d == summary
  {
    if summary.Some? && summary.value != "" then summary else None
  }

  /** The event's location normalises and both its bounds are present. */
  predicate Contributes(event: Event) {
    NormalizeValidRoomName(LocationText(event)).Some? && event.start.Some? && event.end.Some?
  }

  function RoomOfEvent(event: Event): Room
    requires Contributes(event)
  {
    NormalizeValidRoomName(LocationText(event)).value
  }

  /** The reserved slot an event stands for. */
  function SlotOf(event: Event): TimeSlot {
    TimeSlot(event.start, event.end, Description(event.summary))
  }

  /** The flatMap callback: one singleton record for a contributing event,
      none for any other. */
  function EventRecord(event: Event): (r: seq<RoomAvailability>)
    ensures |r| == (if Contributes(event) then 1 else 0)
    ensures |r| == 1 ==> ValidRoom(r[0].room)
    ensures |r| == 1 ==> r[0] == RoomAvailability(RoomOfEvent(event), [SlotOf(event)], [])
  {
    var room := NormalizeValidRoomName(LocationText(event));
    if room.Some? && event.start.Some? && event.end.Some? then
      [RoomAvailability(room.value, [TimeSlot(event.start, event.end, Description(event.summary))], [])]
    else []
  }

  /** Object.values(calendar).flatMap(...). */
  function Survivors(events: seq<Event>): seq<RoomAvailability> {
    if events == [] then []
    else Survivors(events[..|events| - 1]) + EventRecord(events[|events| - 1])
  }

  /** The slots of the contributing events, in input order. */
  ghost function ContributedSlots(events: seq<Event>): seq<TimeSlot> {
    if events == [] then []
    else
      var last := events[|events| - 1];
      ContributedSlots(events[..|events| - 1]) + (if Contributes(last) then [SlotOf(last)] else [])
  }

  /** The slots of the contributing events located in `room`, in input order. */
  ghost function EventSlots(events: seq<Event>, room: Room): seq<TimeSlot> {
    if events == [] then []
    else
      var last := events[|events| - 1];
      EventSlots(events[..|events| - 1], room) +
        (if Contributes(last) && RoomOfEvent(last) == room then [SlotOf(last)] else [])
  }

  /** The rooms of the contributing events. */
  ghost function RoomsOf(events: seq<Event>): set<Room> {
    if events == [] then {}
    else
      var last := events[|events| - 1];
      RoomsOf(events[..|events| - 1]) + (if Contributes(last) then {RoomOfEvent(last)} else {})
  }

  // ---------------------------------------------------------------------------
  // Sequences of records.
  // ---------------------------------------------------------------------------

  /** The reserved slots of all records, record after record. */
  function AllReserved(rs: seq<RoomAvailability>): seq<TimeSlot> {
    if rs == [] then [] else AllReserved(rs[..|rs| - 1]) + rs[|rs| - 1].reservedSlots
  }

  /** The records for `room`, in order. */
  ghost function WithRoom(rs: seq<RoomAvailability>, room: Room): seq<RoomAvailability> {
    if rs == [] then []
    else WithRoom(rs[..|rs| - 1], room) + (if rs[|rs| - 1].room == room then [rs[|rs| - 1]] else [])
  }

  ghost function RoomSet(rs: seq<RoomAvailability>): set<Room> {
    if rs == [] then {} else RoomSet(rs[..|rs| - 1]) + {rs[|rs| - 1].room}
  }

  /** A record as a contributing event produces it. */
  ghost predicate Singleton(ra: RoomAvailability) {
    ValidRoom(ra.room) && |ra.reservedSlots| == 1 && ra.reservedSlots[0].start.Some? && ra.freeSlots == []
  }

  ghost predicate AllSingleton(rs: seq<RoomAvailability>) {
    forall j | 0 <= j < |rs| :: Singleton(rs[j])
  }

  lemma AppendReserved(rs: seq<RoomAvailability>, x: RoomAvailability)
    ensures AllReserved(rs + [x]) == AllReserved(rs) + x.reservedSlots
  {
    assert (rs + [x])[..|rs|] == rs;
  }

  lemma AppendRooms(rs: seq<RoomAvailability>, x: RoomAvailability)
    ensures RoomSet(rs + [x]) == RoomSet(rs) + {x.room}
  {
    assert (rs + [x])[..|rs|] == rs;
  }

  lemma AppendWithRoom(rs: seq<RoomAvailability>, x: RoomAvailability, room: Room)
    ensures WithRoom(rs + [x], room) == WithRoom(rs, room) + (if x.room == room then [x] else [])
  {
    assert (rs + [x])[..|rs|] == rs;
  }

  lemma {:induction false} RoomSetMembers(rs: seq<RoomAvailability>, room: Room)
    ensures room in RoomSet(rs) <==> exists k | 0 <= k < |rs| :: rs[k].room == room
  {
    if rs != [] {
      RoomSetMembers(rs[..|rs| - 1], room);
    }
  }

  lemma {:induction false} WithRoomAbsent(rs: seq<RoomAvailability>, room: Room)
    requires room !in RoomSet(rs)
    ensures WithRoom(rs, room) == []
  {
    if rs != [] {
      WithRoomAbsent(rs[..|rs| - 1], room);
    }
  }

  lemma StartsKnownConcat(a: seq<TimeSlot>, b: seq<TimeSlot>)
    requires StartsKnown(a) && StartsKnown(b)
    ensures StartsKnown(a + b)
  {
  }

  lemma {:induction false} RoomSlotsKnown(rs: seq<RoomAvailability>, room: Room)
    requires AllSingleton(rs)
    ensures StartsKnown(AllReserved(WithRoom(rs, room)))
  {
    if rs != [] {
      var init, last := rs[..|rs| - 1], rs[|rs| - 1];
      assert AllSingleton(init);
      RoomSlotsKnown(init, room);
      var w := WithRoom(init, room);
      if last.room == room {
        assert WithRoom(rs, room) == w + [last];
        AppendReserved(w, last);
        assert Singleton(last);
        StartsKnownConcat(AllReserved(w), last.reservedSlots);
      } else {
        assert WithRoom(rs, room) == w;
      }
    }
  }

  /** The flatMap yields one singleton record per contributing event, and
      with them exactly the contributed slots and rooms. */
  lemma {:induction false} SurvivorsFacts(events: seq<Event>)
    ensures AllSingleton(Survivors(events))
    ensures AllReserved(Survivors(events)) == ContributedSlots(events)
    ensures RoomSet(Survivors(events)) == RoomsOf(events)
  {
    if events != [] {
      var init, last := events[..|events| - 1], events[|events| - 1];
      SurvivorsFacts(init);
      var rs := Survivors(init);
      var e := EventRecord(last);
      assert Survivors(events) == rs + e;
      if Contributes(last) {
        assert e == [e[0]];
        AppendReserved(rs, e[0]);
        AppendRooms(rs, e[0]);
        assert Singleton(e[0]);
      } else {
        assert rs + e == rs;
      }
    }
  }

  /** The records of one room carry exactly that room's slots, in input order. */
  lemma {:induction false} SurvivorsOfRoom(events: seq<Event>, room: Room)
    ensures AllReserved(WithRoom(Survivors(events), room)) == EventSlots(events, room)
  {
    if events != [] {
      var init, last := events[..|events| - 1], events[|events| - 1];
      SurvivorsOfRoom(init, room);
      var rs := Survivors(init);
      if Contributes(last) {
        var x := EventRecord(last)[0];
        assert x.room == RoomOfEvent(last) && x.reservedSlots == [SlotOf(last)];
        assert Survivors(events) == rs + [x];
        AppendWithRoom(rs, x, room);
        if x.room == room {
          AppendReserved(WithRoom(rs, room), x);
          assert EventSlots(events, room) == EventSlots(init, room) + [SlotOf(last)];
          assert AllReserved(WithRoom(rs + [x], room)) == AllReserved(WithRoom(rs, room)) + [SlotOf(last)];
        } else {
          assert EventSlots(events, room) == EventSlots(init, room);
          assert WithRoom(rs + [x], room) == WithRoom(rs, room);
        }
      } else {
        assert Survivors(events) == rs;
        assert EventSlots(events, room) == EventSlots(init, room);
      }
    }
  }

  // ---------------------------------------------------------------------------
  // The sort by "campus building name" (functions/src/api.ts:75-76).
  // ---------------------------------------------------------------------------

  /** The sort key of a room. */
  function Key(room: Room): string {
    room.campus + " " + room.building + " " + room.name
  }

  /** Where the parts of a normalised room sit in its key. */
  lemma KeyShape(a: Room)
    requires ValidRoom(a)
    ensures var k := Key(a);
      |k| >= 5 && k[..2] == a.campus && k[2] == ' ' &&
      (a.building == "" ==> k[3] == ' ' && k[4..] == a.name) &&
      (a.building != "" ==> k[3] != ' ' && a.building == [k[3]] && k[4] == ' ' && k[5..] == a.name)
  {
    RoomNumberShape(a.name);
  }

  /** For the rooms the normaliser produces, equal keys mean equal rooms. */
  lemma KeyInjective(a: Room, b: Room)
    requires ValidRoom(a) && ValidRoom(b)
    ensures Key(a) == Key(b) <==> a == b
  {
    KeyShape(a);
    KeyShape(b);
    if Key(a) == Key(b) {
      if a.building == "" {
        assert b.building == "";
      } else {
        assert b.building != "";
      }
    }
  }

  function CompareRecords(a: RoomAvailability, b: RoomAvailability): int {
    LocaleCompare(Key(a.room), Key(b.room))
  }

  /** Inserts x into ys, scanning from the back and stepping over the records
      whose key compares greater. */
  function InsertRecord(x: RoomAvailability, ys: seq<RoomAvailability>): (r: seq<RoomAvailability>)
    ensures multiset(r) == multiset(ys) + multiset{x}
    ensures |r| == |ys| + 1
  {
    if ys == [] then [x]
    else
      var init, last := ys[..|ys| - 1], ys[|ys| - 1];
      assert ys == init + [last];
      if CompareRecords(last, x) <= 0 then ys + [x] else InsertRecord(x, init) + [last]
  }

  /** records.sort((a, b) => key(a).localeCompare(key(b))). */
  function SortRecords(xs: seq<RoomAvailability>): (r: seq<RoomAvailability>)
    ensures multiset(r) == multiset(xs)
    ensures |r| == |xs|
  {
    if xs == [] then []
    else
      assert xs == xs[..|xs| - 1] + [xs[|xs| - 1]];
      InsertRecord(xs[|xs| - 1], SortRecords(xs[..|xs| - 1]))
  }

  ghost predicate SortedByKey(ys: seq<RoomAvailability>) {
    forall i, j | 0 <= i < j < |ys| :: CompareRecords(ys[i], ys[j]) <= 0
  }

  /** Every key in ys is at most that of x. */
  ghost predicate KeysAtMost(ys: seq<RoomAvailability>, x: RoomAvailability) {
    forall i | 0 <= i < |ys| :: CompareRecords(ys[i], x) <= 0
  }

  lemma {:induction false} InsertRecordAtMost(x: RoomAvailability, ys: seq<RoomAvailability>, y: RoomAvailability)
    requires KeysAtMost(ys, y) && CompareRecords(x, y) <= 0
    ensures KeysAtMost(InsertRecord(x, ys), y)
    decreases |ys|
  {
    if ys != [] && CompareRecords(ys[|ys| - 1], x) > 0 {
      InsertRecordAtMost(x, ys[..|ys| - 1], y);
    }
  }

  lemma {:induction false} InsertRecordSorted(x: RoomAvailability, ys: seq<RoomAvailability>)
    requires SortedByKey(ys)
    ensures SortedByKey(InsertRecord(x, ys))
    decreases |ys|
  {
    if ys != [] {
      var init, last := ys[..|ys| - 1], ys[|ys| - 1];
      assert KeysAtMost(init, last);
      if CompareRecords(last, x) <= 0 {
        forall i | 0 <= i < |ys|
          ensures CompareRecords(ys[i], x) <= 0
        {
          if i < |ys| - 1 {
            CompareTransitive(Key(ys[i].room), Key(last.room), Key(x.room));
          }
        }
        assert KeysAtMost(ys, x);
      } else {
        CompareFlip(Key(last.room), Key(x.room));
        assert SortedByKey(init);
        InsertRecordSorted(x, init);
        InsertRecordAtMost(x, init, last);
      }
    }
  }

  /** The sort orders the records by key. */
  lemma {:induction false} SortRecordsSorted(xs: seq<RoomAvailability>)
    ensures SortedByKey(SortRecords(xs))
  {
    if xs != [] {
      SortRecordsSorted(xs[..|xs| - 1]);
      InsertRecordSorted(xs[|xs| - 1], SortRecords(xs[..|xs| - 1]));
    }
  }

  lemma {:induction false} InsertRecordSlots(x: RoomAvailability, ys: seq<RoomAvailability>)
    ensures multiset(AllReserved(InsertRecord(x, ys))) == multiset(AllReserved(ys)) + multiset(x.reservedSlots)
    ensures RoomSet(InsertRecord(x, ys)) == RoomSet(ys) + {x.room}
    decreases |ys|
  {
    if ys == [] {
      AppendReserved([], x);
      AppendRooms([], x);
      assert [] + [x] == [x];
    } else {
      var init, last := ys[..|ys| - 1], ys[|ys| - 1];
      if CompareRecords(last, x) <= 0 {
        AppendReserved(ys, x);
        AppendRooms(ys, x);
      } else {
        InsertRecordSlots(x, init);
        AppendReserved(InsertRecord(x, init), last);
        AppendRooms(InsertRecord(x, init), last);
      }
    }
  }

  /** Inserting steps over no record of x's own room. */
  lemma {:induction false} InsertRecordStable(x: RoomAvailability, ys: seq<RoomAvailability>, room: Room)
    ensures WithRoom(InsertRecord(x, ys), room) == WithRoom(ys, room) + (if x.room == room then [x] else [])
    decreases |ys|
  {
    if ys == [] {
      AppendWithRoom([], x, room);
      assert [] + [x] == [x];
    } else {
      var init, last := ys[..|ys| - 1], ys[|ys| - 1];
      if CompareRecords(last, x) <= 0 {
        AppendWithRoom(ys, x, room);
      } else {
        InsertRecordStable(x, init, room);
        AppendWithRoom(InsertRecord(x, init), last, room);
        CompareZero(Key(last.room), Key(x.room));
      }
    }
  }

  /** The sort keeps every slot and every room, and is stable: the records
      of one room keep their order. */
  lemma {:induction false} SortRecordsContents(xs: seq<RoomAvailability>, room: Room)
    ensures multiset(AllReserved(SortRecords(xs))) == multiset(AllReserved(xs))
    ensures RoomSet(SortRecords(xs)) == RoomSet(xs)
    ensures WithRoom(SortRecords(xs), room) == WithRoom(xs, room)
  {
    if xs != [] {
      var init, last := xs[..|xs| - 1], xs[|xs| - 1];
      SortRecordsContents(init, room);
      InsertRecordSlots(last, SortRecords(init));
      InsertRecordStable(last, SortRecords(init), room);
    }
  }

  lemma SingletonsPermuted(xs: seq<RoomAvailability>, ys: seq<RoomAvailability>)
    requires AllSingleton(xs) && multiset(ys) == multiset(xs)
    ensures AllSingleton(ys)
  {
    forall j | 0 <= j < |ys|
      ensures Singleton(ys[j])
    {
      assert ys[j] in multiset(ys);
      assert ys[j] in multiset(xs);
      var k :| 0 <= k < |xs| && xs[k] == ys[j];
    }
  }

  // ---------------------------------------------------------------------------
  // The fold (functions/src/api.ts:77-87).
  // ---------------------------------------------------------------------------

  ghost predicate KeysIncreasing(d: seq<RoomAvailability>) {
    forall a, b | 0 <= a < b < |d| :: CompareRecords(d[a], d[b]) < 0
  }

  /** Each accumulated record holds the sorted slots of its room's records in pre. */
  ghost predicate RecordsExact(pre: seq<RoomAvailability>, d: seq<RoomAvailability>) {
    forall k | 0 <= k < |d| ::
      ValidRoom(d[k].room) && d[k].freeSlots == [] && |d[k].reservedSlots| >= 1 &&
      d[k].reservedSlots == SortSlots(AllReserved(WithRoom(pre, d[k].room)))
  }

  /** What the accumulator d holds after folding the records pre: one record
      per room met so far, in strictly increasing key order, the last for
      pre's last room, each holding exactly the sorted slots of its room. */
  ghost predicate Merged(pre: seq<RoomAvailability>, d: seq<RoomAvailability>) {
    (pre == [] <==> d == []) &&
    (pre != [] ==> d[|d| - 1].room == pre[|pre| - 1].room) &&
    KeysIncreasing(d) && RecordsExact(pre, d) &&
    RoomSet(d) == RoomSet(pre) &&
    multiset(AllReserved(d)) == multiset(AllReserved(pre))
  }

  lemma SortOne(s: TimeSlot)
    ensures SortSlots([s]) == [s]
  {
    assert [s][..0] == [];
  }

  lemma FoldFirst(pre: seq<RoomAvailability>, x: RoomAvailability)
    requires pre == [] && Singleton(x)
    ensures Merged(pre + [x], [x])
  {
    assert pre + [x] == [x];
    AppendReserved([], x);
    AppendRooms([], x);
    AppendWithRoom([], x, x.room);
    assert x.reservedSlots == [x.reservedSlots[0]];
    SortOne(x.reservedSlots[0]);
  }

  /** Appending a record of r's room to pre and re-sorting r's slots with
      its slot gives the sorted slots of that room in the longer prefix. */
  lemma FoldSameLast(pre: seq<RoomAvailability>, x: RoomAvailability, r: RoomAvailability)
    requires AllSingleton(pre) && Singleton(x) && x.room == r.room
    requires r.reservedSlots == SortSlots(AllReserved(WithRoom(pre, r.room)))
    ensures SortSlots(r.reservedSlots + x.reservedSlots) == SortSlots(AllReserved(WithRoom(pre + [x], r.room)))
  {
    var room := x.room;
    var s := x.reservedSlots[0];
    assert x.reservedSlots == [s];
    var w := WithRoom(pre, room);
    RoomSlotsKnown(pre, room);
    ResortAppend(AllReserved(w), s);
    AppendWithRoom(pre, x, room);
    AppendReserved(w, x);
  }

  /** A record of another room is untouched by appending x. */
  lemma FoldOther(pre: seq<RoomAvailability>, x: RoomAvailability, r: RoomAvailability)
    requires r.room != x.room
    requires r.reservedSlots == SortSlots(AllReserved(WithRoom(pre, r.room)))
    ensures r.reservedSlots == SortSlots(AllReserved(WithRoom(pre + [x], r.room)))
  {
    AppendWithRoom(pre, x, r.room);
    assert WithRoom(pre + [x], r.room) == WithRoom(pre, r.room);
  }

  lemma FoldSameExact(pre: seq<RoomAvailability>, x: RoomAvailability, d: seq<RoomAvailability>)
    requires d != [] && KeysIncreasing(d) && RecordsExact(pre, d)
    requires AllSingleton(pre) && Singleton(x) && x.room == d[|d| - 1].room
    ensures var li := |d| - 1;
      RecordsExact(pre + [x], d[li := d[li].(reservedSlots := SortSlots(d[li].reservedSlots + x.reservedSlots))])
  {
    var li := |d| - 1;
    var room := x.room;
    var d' := d[li := d[li].(reservedSlots := SortSlots(d[li].reservedSlots + x.reservedSlots))];
    forall k | 0 <= k < |d'|
      ensures ValidRoom(d'[k].room) && d'[k].freeSlots == [] && |d'[k].reservedSlots| >= 1
      ensures d'[k].reservedSlots == SortSlots(AllReserved(WithRoom(pre + [x], d'[k].room)))
    {
      if k < li {
        assert CompareRecords(d[k], d[li]) < 0;
        CompareZero(Key(d[k].room), Key(room));
        FoldOther(pre, x, d[k]);
      } else {
        FoldSameLast(pre, x, d[li]);
      }
    }
  }

  /** Replacing the last record of d by r. */
  lemma ReplaceLast(d: seq<RoomAvailability>, r: RoomAvailability)
    requires d != []
    ensures var li := |d| - 1;
      AllReserved(d[li := r]) == AllReserved(d[..li]) + r.reservedSlots &&
      RoomSet(d[li := r]) == RoomSet(d[..li]) + {r.room}
  {
    var li := |d| - 1;
    assert d[li := r][..li] == d[..li];
  }

  /** Replacing the last record by one of the same room keeps the key order. */
  lemma KeepRooms(d: seq<RoomAvailability>, r: RoomAvailability)
    requires d != [] && KeysIncreasing(d) && r.room == d[|d| - 1].room
    ensures KeysIncreasing(d[|d| - 1 := r])
  {
    var d' := d[|d| - 1 := r];
    assert forall k | 0 <= k < |d| :: d'[k].room == d[k].room;
  }

  lemma FoldSameTotals(pre: seq<RoomAvailability>, x: RoomAvailability, d: seq<RoomAvailability>)
    requires d != [] && x.room == d[|d| - 1].room
    requires RoomSet(d) == RoomSet(pre) && multiset(AllReserved(d)) == multiset(AllReserved(pre))
    ensures var li := |d| - 1;
      var d' := d[li := d[li].(reservedSlots := SortSlots(d[li].reservedSlots + x.reservedSlots))];
      RoomSet(d') == RoomSet(pre + [x]) &&
      multiset(AllReserved(d')) == multiset(AllReserved(pre + [x]))
  {
    var li := |d| - 1;
    var r := d[li].(reservedSlots := SortSlots(d[li].reservedSlots + x.reservedSlots));
    var init := AllReserved(d[..li]);
    ReplaceLast(d, r);
    assert AllReserved(d) == init + d[li].reservedSlots;
    AppendReserved(pre, x);
    AppendRooms(pre, x);
    calc {
      multiset(AllReserved(d[li := r]));
      multiset(init + r.reservedSlots);
      multiset(init) + multiset(d[li].reservedSlots + x.reservedSlots);
      multiset(init + d[li].reservedSlots) + multiset(x.reservedSlots);
      multiset(AllReserved(pre)) + multiset(x.reservedSlots);
      multiset(AllReserved(pre + [x]));
    }
  }

  /** The next record is for the accumulator's last room: its slot joins
      that record, which is sorted again. */
  lemma FoldSame(pre: seq<RoomAvailability>, x: RoomAvailability, d: seq<RoomAvailability>)
    requires pre != [] && Merged(pre, d) && AllSingleton(pre) && Singleton(x)
    requires x.room == d[|d| - 1].room
    ensures var li := |d| - 1;
      Merged(pre + [x], d[li := d[li].(reservedSlots := SortSlots(d[li].reservedSlots + x.reservedSlots))])
  {
    var li := |d| - 1;
    var r := d[li].(reservedSlots := SortSlots(d[li].reservedSlots + x.reservedSlots));
    FoldSameExact(pre, x, d);
    FoldSameTotals(pre, x, d);
    KeepRooms(d, r);
  }

  /** A record whose key is above the last one's is above every one's. */
  lemma FoldNewKeys(d: seq<RoomAvailability>, x: RoomAvailability)
    requires d != [] && KeysIncreasing(d) && CompareRecords(d[|d| - 1], x) < 0
    ensures KeysIncreasing(d + [x])
    ensures forall k | 0 <= k < |d| :: d[k].room != x.room
  {
    var li := |d| - 1;
    forall k | 0 <= k < |d|
      ensures CompareRecords(d[k], x) < 0
    {
      if k < li {
        CompareStrictTransitive(Key(d[k].room), Key(d[li].room), Key(x.room));
      }
    }
    forall k | 0 <= k < |d|
      ensures d[k].room != x.room
    {
      CompareZero(Key(d[k].room), Key(x.room));
    }
  }

  /** A record for a room not met before holds just its own slot. */
  lemma FoldNewLast(pre: seq<RoomAvailability>, x: RoomAvailability)
    requires Singleton(x) && x.room !in RoomSet(pre)
    ensures x.reservedSlots == SortSlots(AllReserved(WithRoom(pre + [x], x.room)))
  {
    WithRoomAbsent(pre, x.room);
    AppendWithRoom(pre, x, x.room);
    assert WithRoom(pre + [x], x.room) == [x];
    AppendReserved([], x);
    assert [] + [x] == [x];
    assert x.reservedSlots == [x.reservedSlots[0]];
    SortOne(x.reservedSlots[0]);
  }

  lemma FoldNewExact(pre: seq<RoomAvailability>, x: RoomAvailability, d: seq<RoomAvailability>)
    requires RecordsExact(pre, d) && Singleton(x) && x.room !in RoomSet(pre)
    requires forall k | 0 <= k < |d| :: d[k].room != x.room
    ensures RecordsExact(pre + [x], d + [x])
  {
    FoldNewLast(pre, x);
    var d' := d + [x];
    forall k | 0 <= k < |d'|
      ensures ValidRoom(d'[k].room) && d'[k].freeSlots == [] && |d'[k].reservedSlots| >= 1
      ensures d'[k].reservedSlots == SortSlots(AllReserved(WithRoom(pre + [x], d'[k].room)))
    {
      if k < |d| {
        FoldOther(pre, x, d[k]);
      }
    }
  }

  /** The next record is for a new room: it is appended. */
  lemma FoldNew(pre: seq<RoomAvailability>, x: RoomAvailability, d: seq<RoomAvailability>)
    requires pre != [] && Merged(pre, d) && Singleton(x)
    requires CompareRecords(pre[|pre| - 1], x) <= 0
    requires x.room != d[|d| - 1].room
    ensures Merged(pre + [x], d + [x])
  {
    var li := |d| - 1;
    KeyInjective(d[li].room, x.room);
    CompareZero(Key(d[li].room), Key(x.room));
    FoldNewKeys(d, x);
    RoomSetMembers(d, x.room);
    FoldNewExact(pre, x, d);
    AppendReserved(d, x);
    AppendRooms(d, x);
    AppendReserved(pre, x);
    AppendRooms(pre, x);
  }

  // ---------------------------------------------------------------------------
  // The final map and the whole pipeline (functions/src/api.ts:88).
  // ---------------------------------------------------------------------------

  /** .map(room => ({ ...room, freeSlots: computeFreeSlots(room) })): the room
      and reserved slots of each record are left as they are. */
  function AttachFreeSlots(offset: int, rs: seq<RoomAvailability>): (r: seq<RoomAvailability>)
    ensures |r| == |rs|
    ensures forall k | 0 <= k < |r| ::
      r[k].room == rs[k].room && r[k].reservedSlots == rs[k].reservedSlots &&
      r[k].freeSlots == ComputeFreeSlots(offset, r[k].reservedSlots)
  {
    seq(|rs|, k requires 0 <= k < |rs| => rs[k].(freeSlots := ComputeFreeSlots(offset, rs[k].reservedSlots)))
  }

  lemma {:induction false} SameRoomsAndSlots(xs: seq<RoomAvailability>, ys: seq<RoomAvailability>)
    requires |xs| == |ys|
    requires forall k | 0 <= k < |xs| :: xs[k].room == ys[k].room && xs[k].reservedSlots == ys[k].reservedSlots
    ensures AllReserved(xs) == AllReserved(ys) && RoomSet(xs) == RoomSet(ys)
  {
    if xs != [] {
      SameRoomsAndSlots(xs[..|xs| - 1], ys[..|ys| - 1]);
    }
  }

  /** What the fold's result says about the events, once the sort's and the
      flatMap's lemmas are applied. */
  lemma FoldResult(events: seq<Event>, offset: int, d: seq<RoomAvailability>, result: seq<RoomAvailability>)
    requires Merged(SortRecords(Survivors(events)), d) && result == AttachFreeSlots(offset, d)
    ensures forall k | 0 <= k < |result| :: result[k].room in RoomsOf(events)
    ensures forall room | room in RoomsOf(events) :: exists k | 0 <= k < |result| :: result[k].room == room
    ensures result == [] <==> RoomsOf(events) == {}
    ensures forall a, b | 0 <= a < b < |result| :: CompareRecords(result[a], result[b]) < 0
    ensures forall k | 0 <= k < |result| ::
      ValidRoom(result[k].room) && result[k].reservedSlots != [] &&
      result[k].reservedSlots == SortSlots(EventSlots(events, result[k].room)) &&
      SortedByStart(result[k].reservedSlots)
    ensures forall k | 0 <= k < |result| :: result[k].freeSlots == ComputeFreeSlots(offset, result[k].reservedSlots)
    ensures multiset(AllReserved(result)) == multiset(ContributedSlots(events))
  {
    var records := Survivors(events);
    SurvivorsFacts(events);
    SameRoomsAndSlots(result, d);
    SortRecordsContents(records, Room("", "", ""));
    ResultRooms(RoomsOf(events), result);
    assert KeysIncreasing(result);
    forall k | 0 <= k < |result|
      ensures result[k].reservedSlots == SortSlots(EventSlots(events, result[k].room))
      ensures SortedByStart(result[k].reservedSlots)
    {
      RecordOfRoom(events, result[k].room, result[k]);
    }
  }

  /** The rooms of result, read both ways. */
  lemma ResultRooms(rooms: set<Room>, result: seq<RoomAvailability>)
    requires RoomSet(result) == rooms
    ensures forall k | 0 <= k < |result| :: result[k].room in rooms
    ensures forall room | room in rooms :: exists k | 0 <= k < |result| :: result[k].room == room
    ensures result == [] <==> rooms == {}
  {
    forall room | room in rooms
      ensures exists k | 0 <= k < |result| :: result[k].room == room
    {
      RoomSetMembers(result, room);
    }
    forall k | 0 <= k < |result|
      ensures result[k].room in rooms
    {
      RoomSetMembers(result, result[k].room);
    }
  }

  /** A record holding the sorted slots of its room's sorted records holds
      the sorted slots of that room's events. */
  lemma RecordOfRoom(events: seq<Event>, room: Room, r: RoomAvailability)
    requires r.reservedSlots == SortSlots(AllReserved(WithRoom(SortRecords(Survivors(events)), room)))
    ensures r.reservedSlots == SortSlots(EventSlots(events, room))
    ensures SortedByStart(r.reservedSlots)
  {
    var records := Survivors(events);
    SurvivorsFacts(events);
    SortRecordsContents(records, room);
    SurvivorsOfRoom(events, room);
    RoomSlotsKnown(records, room);
    SortSlotsSorted(EventSlots(events, room));
  }

  /** What the loop needs to know about the prefix it has walked. */
  lemma PrefixFacts(s: seq<RoomAvailability>, i: nat, pre: seq<RoomAvailability>)
    requires i < |s| && |pre| == i && FoldInput(s)
    requires forall j | 0 <= j < i :: pre[j] == s[j]
    ensures (i == 0) == (pre == [])
    ensures AllSingleton(pre) && Singleton(s[i])
    ensures i > 0 ==> CompareRecords(pre[|pre| - 1], s[i]) <= 0
  {
  }

  /** The records handed to the reduce: singletons in key order. */
  ghost predicate FoldInput(sorted: seq<RoomAvailability>) {
    SortedByKey(sorted) && AllSingleton(sorted)
  }

  /** The sorted records are singletons in key order. */
  lemma FoldInputOf(events: seq<Event>)
    ensures FoldInput(SortRecords(Survivors(events)))
  {
    SurvivorsFacts(events);
    SortRecordsSorted(Survivors(events));
    SingletonsPermuted(Survivors(events), SortRecords(Survivors(events)));
  }

  /** The callback handed to reduce: the first record starts the
      accumulator; a record of the accumulator's last room adds its slot to
      that record, whose slots are sorted again; any other record is
      appended. */
  function ReduceStep(distinct: seq<RoomAvailability>, avail: RoomAvailability, i: nat,
                      arr: seq<RoomAvailability>): (r: seq<RoomAvailability>)
    requires i < |arr| && avail == arr[i] && (i >= 1 ==> distinct != [])
    ensures r != [] && r[|r| - 1].room == avail.room
  {
    if i < 1 then [arr[0]]
    else
      var li := |distinct| - 1;
      if avail.room.name == distinct[li].room.name &&
         avail.room.campus == distinct[li].room.campus &&
         avail.room.building == distinct[li].room.building then
        distinct[li := distinct[li].(reservedSlots := SortSlots(distinct[li].reservedSlots + avail.reservedSlots))]
      else
        distinct + [arr[i]]
  }

  /** One call of the callback keeps the accumulator merged. */
  lemma FoldStep(pre: seq<RoomAvailability>, i: nat, arr: seq<RoomAvailability>, d: seq<RoomAvailability>)
    requires i < |arr| && |pre| == i && FoldInput(arr)
    requires forall j | 0 <= j < i :: pre[j] == arr[j]
    requires Merged(pre, d)
    ensures i >= 1 ==> d != []
    ensures Merged(pre + [arr[i]], ReduceStep(d, arr[i], i, arr))
  {
    PrefixFacts(arr, i, pre);
    var avail := arr[i];
    if i < 1 {
      FoldFirst(pre, avail);
    } else {
      var li := |d| - 1;
      if avail.room.name == d[li].room.name &&
         avail.room.campus == d[li].room.campus &&
         avail.room.building == d[li].room.building {
        FoldSame(pre, avail, d);
      } else {
        FoldNew(pre, avail, d);
      }
    }
  }
}
