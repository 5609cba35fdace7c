/** A time slot: an interval between two boundary points, with a payload. */
module TimeSlots {
  import opened BoundaryPoints

  /** The slot's id is the id both of its boundary points carry. */
  datatype TimeSlot<T> = TimeSlot(startPoint: BoundaryPoint, endPoint: BoundaryPoint, data: T)
  {
    function Id(): Uuid {
      startPoint.uuid
    }
  }

  /** The overlap test of the grid layout: a starts before b ends and ends
      after b starts. Slots that only touch do not overlap. */
  predicate Overlaps<T>(a: TimeSlot<T>, b: TimeSlot<T>) {
    a.startPoint.position < b.endPoint.position && a.endPoint.position > b.startPoint.position
  }
}
