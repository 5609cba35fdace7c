/** Boundary points: the start or end event of one time slot, and the order
    in which the table keeps them. */
module BoundaryPoints {

  /** The identifier of a time slot. The table draws a random UUID for it;
      here it is an opaque number chosen by the caller. */
  type Uuid = nat

  /** One end of an interval: where it lies, whether it opens or closes the
      interval, and the id of the time slot it belongs to. */
  datatype BoundaryPoint = BoundaryPoint(position: int, isStart: bool, uuid: Uuid)
  {
    /** Equality of boundary points looks at the position and the kind only;
        two points of different slots can be equal. */
    predicate Equals(o: BoundaryPoint): (r: bool)
      ensures r <==> Rank(this) == Rank(o)
    {
      position == o.position && isStart == o.isStart
    }

    /** Three-way comparison: by position first; at the same position a start
        point comes before an end point. */
    function CompareTo(o: BoundaryPoint): (r: int)
      ensures r == ComparePositions(Rank(this), Rank(o))
      ensures r == 0 <==> Equals(o)
    {
      var byPosition := ComparePositions(position, o.position);
      if byPosition != 0 then byPosition
      else if isStart == o.isStart then 0
      else if isStart then -1
      else 1
    }
  }

  /** The three-way comparison of two positions. */
  function ComparePositions(x: int, y: int): int {
    if x < y then -1 else if x == y then 0 else 1
  }

  /** A search key at a position: the table builds these with a null id,
      which neither Equals nor CompareTo ever reads. */
  function Probe(position: int, isStart: bool): BoundaryPoint {
    BoundaryPoint(position, isStart, 0)
  }

  /** An independent reading of the order: a point at position p ranks
      2p when it is a start and 2p + 1 when it is an end. */
  function Rank(p: BoundaryPoint): int {
    2 * p.position + (if p.isStart then 0 else 1)
  }

  /** CompareTo is the comparison of ranks, it is zero exactly when Equals
      holds, and it never looks at the id. */
  lemma CompareToIsRankOrder(a: BoundaryPoint, b: BoundaryPoint)
    ensures a.CompareTo(b) == ComparePositions(Rank(a), Rank(b))
    ensures a.CompareTo(b) == 0 <==> a.Equals(b)
    ensures a.CompareTo(b) == -b.CompareTo(a)
    ensures forall id :: a.CompareTo(b) == a.CompareTo(b.(uuid := id))
  {
  }

  /** CompareTo is transitive, so it is a total preorder on points. */
  lemma CompareToTransitive(a: BoundaryPoint, b: BoundaryPoint, c: BoundaryPoint)
    requires a.CompareTo(b) <= 0 && b.CompareTo(c) <= 0
    ensures a.CompareTo(c) <= 0
    ensures a.CompareTo(b) < 0 || b.CompareTo(c) < 0 ==> a.CompareTo(c) < 0
  {
    CompareToIsRankOrder(a, b);
    CompareToIsRankOrder(b, c);
    CompareToIsRankOrder(a, c);
  }
}
