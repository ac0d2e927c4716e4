/** getRoomsAndAvailability (functions/src/api.ts:68-89): keep the events
    whose location names a room and that have both bounds, one singleton
    record each; sort the records by "campus building name"; fold equal
    neighbours into one record, re-sorting its reserved slots after each
    append; then attach the free slots of every record. */
module Aggregator {
  import opened Types
  import opened Normalizer
  import opened Slots
  import opened FreeSlots
  import opened Records

  /** reduce(callback, []) over the first n records of arr. */
  function ReduceFirst(arr: seq<RoomAvailability>, n: nat): (r: seq<RoomAvailability>)
    requires n <= |arr|
    ensures (r == []) == (n == 0)
    ensures n > 0 ==> r[|r| - 1].room == arr[n - 1].room
  {
    if n == 0 then [] else ReduceStep(ReduceFirst(arr, n - 1), arr[n - 1], n - 1, arr)
  }

  /** The reduce over the sorted records merges them: records of one room
      are adjacent after the sort, so each room ends up with one record. */
  lemma {:induction false} ReduceMerges(arr: seq<RoomAvailability>, n: nat, pre: seq<RoomAvailability>)
    requires n <= |arr| && FoldInput(arr)
    requires |pre| == n && forall j | 0 <= j < n :: pre[j] == arr[j]
    ensures Merged(pre, ReduceFirst(arr, n))
  {
    if n > 0 {
      var p := pre[..n - 1];
      assert p + [arr[n - 1]] == pre;
      ReduceMerges(arr, n - 1, p);
      var d := ReduceFirst(arr, n - 1);
      FoldStep(p, n - 1, arr, d);
    }
  }

  /** The reduce: the callback applied to each sorted record in turn,
      starting from the empty accumulator. */
  method MergeAdjacent(sorted: seq<RoomAvailability>) returns (distinct: seq<RoomAvailability>)
    ensures distinct == ReduceFirst(sorted, |sorted|)
  {
    distinct := [];
    var i := 0;
    while i < |sorted|
      invariant 0 <= i <= |sorted|
      invariant distinct == ReduceFirst(sorted, i)
    {
      distinct := ReduceStep(distinct, sorted[i], i, sorted);
      i := i + 1;
    }
  }

  /** getRoomsAndAvailability over already-decoded events; `offset` fixes the
      time zone of the day boundaries. */
  method GetRoomsAndAvailability(events: seq<Event>, offset: int) returns (result: seq<RoomAvailability>)
    // one record per room of a contributing event, and no other
    ensures forall k | 0 <= k < |result| :: result[k].room in RoomsOf(events)
    ensures forall room | room in RoomsOf(events) :: exists k | 0 <= k < |result| :: result[k].room == room
    ensures result == [] <==> RoomsOf(events) == {}
    // in strictly increasing key order, so no room twice
    ensures forall a, b | 0 <= a < b < |result| :: CompareRecords(result[a], result[b]) < 0
    // each record holds exactly its room's slots, stably sorted by start
    ensures forall k | 0 <= k < |result| ::
      ValidRoom(result[k].room) && result[k].reservedSlots != [] &&
      result[k].reservedSlots == SortSlots(EventSlots(events, result[k].room)) &&
      SortedByStart(result[k].reservedSlots)
    // and its free slots
    ensures forall k | 0 <= k < |result| :: result[k].freeSlots == ComputeFreeSlots(offset, result[k].reservedSlots)
    // no slot is lost or duplicated
    ensures multiset(AllReserved(result)) == multiset(ContributedSlots(events))
  {
    var sorted := SortRecords(Survivors(events));
    FoldInputOf(events);
    var distinct := MergeAdjacent(sorted);
    ReduceMerges(sorted, |sorted|, sorted);
    result := AttachFreeSlots(offset, distinct);
    FoldResult(events, offset, distinct, result);
  }
}
