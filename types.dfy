/** The records exchanged by the room-availability pipeline (functions/src/api.ts:7-23). */
module Types {

  datatype Option<+T> = None | Some(value: T)

  /** An instant, as milliseconds since the epoch (a JavaScript Date's getTime()). */
  type Instant = int

  /** TimeSlot: either bound may be null (an open end of the day); a missing
      description is null. */
  datatype TimeSlot = TimeSlot(start: Option<Instant>, end: Option<Instant>, description: Option<string>)

  /** Room identity: the triple (campus, building, name). */
  datatype Room = Room(campus: string, building: string, name: string)

  datatype RoomAvailability = RoomAvailability(room: Room, reservedSlots: seq<TimeSlot>, freeSlots: seq<TimeSlot>)

  /** An already-decoded calendar component, every field optional. */
  datatype Event = Event(location: Option<string>, start: Option<Instant>, end: Option<Instant>, summary: Option<string>)
}
