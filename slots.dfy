/** compareReservedSlots (functions/src/api.ts:25-30) and the sort of a room's
    reserved slots with it (functions/src/api.ts:84). Array.prototype.sort is
    stable, and a stable sort by a consistent comparator has exactly one
    result; it is modelled by insertion sort, which moves an element in front
    of an earlier one only when the comparator says the earlier one is
    greater. */
module Slots {
  import opened Types

  /** compareReservedSlots: 0 when either start is null, otherwise the
      difference of the start instants. */
  function CompareReservedSlots(slot1: TimeSlot, slot2: TimeSlot): (r: int)
    ensures r < 0 ==> slot1.start.Some? && slot2.start.Some? && slot1.start.value < slot2.start.value
    ensures r > 0 ==> slot1.start.Some? && slot2.start.Some? && slot2.start.value < slot1.start.value
    ensures r == 0 <==> slot1.start.None? || slot2.start.None? || slot1.start == slot2.start
  {
    if slot1.start.None? || slot2.start.None? then 0
    else slot1.start.value - slot2.start.value
  }

  /** Inserts x into ys, scanning from the back and stepping over the
      elements that compare greater than x. */
  function InsertSlot(x: TimeSlot, ys: seq<TimeSlot>): (r: seq<TimeSlot>)
    ensures multiset(r) == multiset(ys) + multiset{x}
    ensures |r| == |ys| + 1
  {
    if ys == [] then [x]
    else
      var init, last := ys[..|ys| - 1], ys[|ys| - 1];
      assert ys == init + [last];
      if CompareReservedSlots(last, x) <= 0 then ys + [x] else InsertSlot(x, init) + [last]
  }

  /** reservedSlots.sort(compareReservedSlots). */
  function SortSlots(xs: seq<TimeSlot>): (r: seq<TimeSlot>)
    ensures multiset(r) == multiset(xs)
    ensures |r| == |xs|
  {
    if xs == [] then []
    else
      assert xs == xs[..|xs| - 1] + [xs[|xs| - 1]];
      InsertSlot(xs[|xs| - 1], SortSlots(xs[..|xs| - 1]))
  }

  ghost predicate StartsKnown(ys: seq<TimeSlot>) {
    forall i | 0 <= i < |ys| :: ys[i].start.Some?
  }

  /** Every start is known and the starts never decrease. */
  ghost predicate SortedByStart(ys: seq<TimeSlot>) {
    StartsKnown(ys) &&
    forall i, j | 0 <= i < j < |ys| :: ys[i].start.value <= ys[j].start.value
  }

  /** The slots of ys whose start is t, in the order of ys. */
  function WithStart(ys: seq<TimeSlot>, t: Option<Instant>): seq<TimeSlot> {
    if ys == [] then []
    else WithStart(ys[..|ys| - 1], t) + (if ys[|ys| - 1].start == t then [ys[|ys| - 1]] else [])
  }

  /** Every start in ys is known and at most v. */
  ghost predicate StartsAtMost(ys: seq<TimeSlot>, v: Instant) {
    forall i | 0 <= i < |ys| :: ys[i].start.Some? && ys[i].start.value <= v
  }

  lemma AppendSorted(ys: seq<TimeSlot>, x: TimeSlot)
    requires SortedByStart(ys) && x.start.Some? && StartsAtMost(ys, x.start.value)
    ensures SortedByStart(ys + [x])
  {
  }

  lemma {:induction false} InsertSlotAtMost(x: TimeSlot, ys: seq<TimeSlot>, v: Instant)
    requires StartsAtMost(ys, v) && x.start.Some? && x.start.value <= v
    ensures StartsAtMost(InsertSlot(x, ys), v)
    decreases |ys|
  {
    if ys != [] && CompareReservedSlots(ys[|ys| - 1], x) > 0 {
      InsertSlotAtMost(x, ys[..|ys| - 1], v);
    }
  }

  lemma {:induction false} InsertSlotSorted(x: TimeSlot, ys: seq<TimeSlot>)
    requires SortedByStart(ys) && x.start.Some?
    ensures SortedByStart(InsertSlot(x, ys))
    decreases |ys|
  {
    if ys == [] {
    } else {
      var init, last := ys[..|ys| - 1], ys[|ys| - 1];
      assert StartsAtMost(init, last.start.value);
      if CompareReservedSlots(last, x) <= 0 {
        assert StartsAtMost(ys, x.start.value);
        AppendSorted(ys, x);
      } else {
        assert SortedByStart(init);
        InsertSlotSorted(x, init);
        InsertSlotAtMost(x, init, last.start.value);
        AppendSorted(InsertSlot(x, init), last);
      }
    }
  }

  /** The sort is a permutation sorted by start when every start is known. */
  lemma {:induction false} SortSlotsSorted(xs: seq<TimeSlot>)
    requires StartsKnown(xs)
    ensures SortedByStart(SortSlots(xs))
  {
    if xs != [] {
      SortSlotsSorted(xs[..|xs| - 1]);
      InsertSlotSorted(xs[|xs| - 1], SortSlots(xs[..|xs| - 1]));
    }
  }

  /** Inserting into a sequence sorted by start moves x past no element with
      the same start. */
  lemma {:induction false} InsertSlotStable(x: TimeSlot, ys: seq<TimeSlot>, t: Option<Instant>)
    ensures WithStart(InsertSlot(x, ys), t) == WithStart(ys, t) + (if x.start == t then [x] else [])
    decreases |ys|
  {
    if ys == [] {
      assert WithStart([x], t) == WithStart([], t) + (if x.start == t then [x] else []);
    } else if CompareReservedSlots(ys[|ys| - 1], x) <= 0 {
      assert (ys + [x])[..|ys|] == ys;
    } else {
      var init, last := ys[..|ys| - 1], ys[|ys| - 1];
      InsertSlotStable(x, init, t);
      var r := InsertSlot(x, init);
      assert (r + [last])[..|r|] == r;
    }
  }

  /** The sort is stable: the slots sharing a start keep their order. */
  lemma {:induction false} SortSlotsStable(xs: seq<TimeSlot>, t: Option<Instant>)
    ensures WithStart(SortSlots(xs), t) == WithStart(xs, t)
  {
    if xs != [] {
      SortSlotsStable(xs[..|xs| - 1], t);
      InsertSlotStable(xs[|xs| - 1], SortSlots(xs[..|xs| - 1]), t);
    }
  }

  /** Sorting an already sorted sequence changes nothing. */
  lemma {:induction false} SortSlotsOfSorted(ys: seq<TimeSlot>)
    requires SortedByStart(ys)
    ensures SortSlots(ys) == ys
  {
    if ys != [] {
      var init := ys[..|ys| - 1];
      assert SortedByStart(init);
      SortSlotsOfSorted(init);
      assert ys == init + [ys[|ys| - 1]];
    }
  }

  /** Re-sorting after appending one slot to a sorted list is the same as
      sorting the whole list at once (functions/src/api.ts:83-84). */
  lemma ResortAppend(a: seq<TimeSlot>, x: TimeSlot)
    requires StartsKnown(a)
    ensures SortSlots(SortSlots(a) + [x]) == SortSlots(a + [x])
  {
    SortSlotsSorted(a);
    SortSlotsOfSorted(SortSlots(a));
    assert (SortSlots(a) + [x])[..|a|] == SortSlots(a);
    assert (a + [x])[..|a|] == a;
  }
}
