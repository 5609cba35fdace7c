/** The consistency of the three collections of the time slot table, and how
    adding, updating and removing a slot keeps it. */
module TableInvariant {
  import opened BoundaryPoints
  import opened PointLists
  import opened TimeSlots

  /** The start point (isStart) or the end point of a slot. */
  function PointOf<T>(slot: TimeSlot<T>, isStart: bool): BoundaryPoint {
    if isStart then slot.startPoint else slot.endPoint
  }

  /** Every point of the list belongs to a live slot, which records exactly
      that point. */
  ghost predicate PointsRecorded<T>(s: seq<BoundaryPoint>, intervals: map<Uuid, TimeSlot<T>>, isStart: bool) {
    forall i :: 0 <= i < |s| ==> Recorded(s, intervals, isStart, i)
  }

  /** The point at index i belongs to a live slot that records it. */
  ghost predicate Recorded<T>(s: seq<BoundaryPoint>, intervals: map<Uuid, TimeSlot<T>>, isStart: bool, i: int)
    requires 0 <= i < |s|
  {
    s[i].uuid in intervals && PointOf(intervals[s[i].uuid], isStart) == s[i]
  }

  /** Every live slot's point of the given kind is in the list. */
  ghost predicate PointsListed<T>(s: seq<BoundaryPoint>, intervals: map<Uuid, TimeSlot<T>>, isStart: bool) {
    forall id :: id in intervals ==> Listed(s, intervals, isStart, id)
  }

  /** The point of the live slot id is in the list. */
  ghost predicate Listed<T>(s: seq<BoundaryPoint>, intervals: map<Uuid, TimeSlot<T>>, isStart: bool, id: Uuid)
    requires id in intervals
  {
    PointOf(intervals[id], isStart) in s
  }

  /** One of the two point lists agrees with the map: as many points as live
      slots, sorted, one point per id, all of one kind, each recorded by its
      slot, and every slot's point listed. */
  ghost predicate ListInv<T>(s: seq<BoundaryPoint>, intervals: map<Uuid, TimeSlot<T>>, isStart: bool) {
    && |s| == |intervals|
    && Sorted(s) && DistinctIds(s) && AllOfKind(s, isStart)
    && PointsRecorded(s, intervals, isStart) && PointsListed(s, intervals, isStart)
  }

  /** Both points of a live slot carry the slot's id. */
  ghost predicate IdsCarried<T>(intervals: map<Uuid, TimeSlot<T>>) {
    forall id :: id in intervals ==> intervals[id].startPoint.uuid == id && intervals[id].endPoint.uuid == id
  }

  /** The state of a time slot table: the start points and the end points,
      each sorted, and the live slots by id. */
  datatype Table<T> = Table(starts: seq<BoundaryPoint>, ends: seq<BoundaryPoint>, intervals: map<Uuid, TimeSlot<T>>)

  /** The consistency of the table: the start list and the end list both
      agree with the map of live slots. */
  ghost predicate TableInv<T>(t: Table<T>) {
    ListInv(t.starts, t.intervals, true) && ListInv(t.ends, t.intervals, false) && IdsCarried(t.intervals)
  }

  /** Under the invariant a live id has exactly one point in the list, and
      an id that is not live has none. */
  lemma ListHoldsIdOnce<T>(s: seq<BoundaryPoint>, intervals: map<Uuid, TimeSlot<T>>, isStart: bool, id: Uuid)
    requires ListInv(s, intervals, isStart) && IdsCarried(intervals)
    ensures id in intervals ==> exists k :: 0 <= k < |s| && s[k] == PointOf(intervals[id], isStart) && s[k].uuid == id
    ensures forall j, k :: 0 <= j < |s| && 0 <= k < |s| && s[j].uuid == id && s[k].uuid == id ==> j == k
    ensures id !in intervals ==> forall k :: 0 <= k < |s| ==> s[k].uuid != id
  {
    if id in intervals {
      assert Listed(s, intervals, isStart, id);
      var k :| 0 <= k < |s| && s[k] == PointOf(intervals[id], isStart);
      assert s[k].uuid == id;
    } else {
      forall k | 0 <= k < |s|
        ensures s[k].uuid != id
      {
        assert Recorded(s, intervals, isStart, k);
      }
    }
  }

  /** Inserting the point of a fresh slot into a list that agrees with the
      map, at a place that keeps it sorted, gives a list that agrees with the
      map extended by the slot. */
  lemma ListInsertKeeps<T>(s: seq<BoundaryPoint>, intervals: map<Uuid, TimeSlot<T>>, isStart: bool,
                           k: nat, slot: TimeSlot<T>)
    requires ListInv(s, intervals, isStart) && IdsCarried(intervals) && k <= |s|
    requires slot.Id() !in intervals && PointOf(slot, isStart).uuid == slot.Id() && PointOf(slot, isStart).isStart == isStart
    requires Sorted(InsertAt(s, k, PointOf(slot, isStart)))
    ensures ListInv(InsertAt(s, k, PointOf(slot, isStart)), intervals[slot.Id() := slot], isStart)
  {
    var p := PointOf(slot, isStart);
    var r := InsertAt(s, k, p);
    var m := intervals[slot.Id() := slot];
    ListHoldsIdOnce(s, intervals, isStart, slot.Id());
    assert |r| == |m| by {
      assert m.Keys == intervals.Keys + {slot.Id()};
    }
    InsertKeepsDistinct(s, k, p);
    ListInsertRecorded(s, intervals, isStart, k, slot);
    ListInsertListed(s, intervals, isStart, k, slot);
  }

  /** After the insertion every point is recorded by its slot. */
  lemma ListInsertRecorded<T>(s: seq<BoundaryPoint>, intervals: map<Uuid, TimeSlot<T>>, isStart: bool,
                              k: nat, slot: TimeSlot<T>)
    requires AllOfKind(s, isStart) && PointsRecorded(s, intervals, isStart) && k <= |s|
    requires slot.Id() !in intervals && PointOf(slot, isStart).uuid == slot.Id() && PointOf(slot, isStart).isStart == isStart
    ensures AllOfKind(InsertAt(s, k, PointOf(slot, isStart)), isStart)
    ensures PointsRecorded(InsertAt(s, k, PointOf(slot, isStart)), intervals[slot.Id() := slot], isStart)
  {
    var p := PointOf(slot, isStart);
    var r := InsertAt(s, k, p);
    var m := intervals[slot.Id() := slot];
    forall i | 0 <= i < |r|
      ensures r[i].isStart == isStart && Recorded(r, m, isStart, i)
    {
      InsertAtIndex(s, k, p, i);
      if i != k {
        assert Recorded(s, intervals, isStart, if i < k then i else i - 1);
      }
    }
  }

  /** After the insertion every live slot's point is listed. */
  lemma ListInsertListed<T>(s: seq<BoundaryPoint>, intervals: map<Uuid, TimeSlot<T>>, isStart: bool,
                            k: nat, slot: TimeSlot<T>)
    requires PointsListed(s, intervals, isStart) && k <= |s|
    ensures PointsListed(InsertAt(s, k, PointOf(slot, isStart)), intervals[slot.Id() := slot], isStart)
  {
    var p := PointOf(slot, isStart);
    var r := InsertAt(s, k, p);
    var m := intervals[slot.Id() := slot];
    forall id | id in m
      ensures Listed(r, m, isStart, id)
    {
      InsertAtMembers(s, k, p, PointOf(m[id], isStart));
      if id != slot.Id() {
        assert Listed(s, intervals, isStart, id);
      }
    }
  }

  /** Removing the point of a live id from a list that agrees with the map
      gives a list that agrees with the map without that id. */
  lemma ListRemoveKeeps<T>(s: seq<BoundaryPoint>, intervals: map<Uuid, TimeSlot<T>>, isStart: bool, id: Uuid)
    requires ListInv(s, intervals, isStart) && IdsCarried(intervals) && id in intervals
    ensures ListInv(WithoutId(s, id), intervals - {id}, isStart)
  {
    ListHoldsIdOnce(s, intervals, isStart, id);
    var k :| 0 <= k < |s| && s[k] == PointOf(intervals[id], isStart) && s[k].uuid == id;
    WithoutIdAt(s, k);
    var r := RemoveAt(s, k);
    var m := intervals - {id};
    assert Sorted(r) && DistinctIds(r) && |r| == |s| - 1 by {
      RemoveAtKeeps(s, k);
    }
    assert |r| == |m| by {
      assert m.Keys == intervals.Keys - {id};
    }
    assert AllOfKind(r, isStart) && PointsRecorded(r, m, isStart) by {
      forall i | 0 <= i < |r|
        ensures r[i].isStart == isStart && Recorded(r, m, isStart, i)
      {
        var i' := if i < k then i else i + 1;
        RemoveAtIndex(s, k, i);
        assert Recorded(s, intervals, isStart, i');
      }
    }
    assert PointsListed(r, m, isStart) by {
      forall j | j in m
        ensures Listed(r, m, isStart, j)
      {
        assert Listed(s, intervals, isStart, j);
        assert PointOf(intervals[j], isStart).uuid == j;
        RemoveAtMembers(s, k, PointOf(intervals[j], isStart));
      }
    }
  }

  /** The table after adding the slot [start, end) with the given payload
      under the fresh id uuid: the start point goes before every equal start
      point, the end point where the end-point search lands. */
  function Added<T>(t: Table<T>, start: int, end: int, data: T, uuid: Uuid): Table<T> {
    var sp := BoundaryPoint(start, true, uuid);
    var ep := BoundaryPoint(end, false, uuid);
    Table(InsertAt(t.starts, CountBelow(t.starts, sp), sp),
          InsertAt(t.ends, LastIndexOf(t.ends, ep), ep),
          t.intervals[uuid := TimeSlot(sp, ep, data)])
  }

  /** The table without the slot id. */
  function Removed<T>(t: Table<T>, id: Uuid): Table<T> {
    Table(WithoutId(t.starts, id), WithoutId(t.ends, id), t.intervals - {id})
  }

  /** The table with the payload of the live slot id replaced. */
  function Updated<T>(t: Table<T>, id: Uuid, data: T): Table<T>
    requires id in t.intervals
  {
    t.(intervals := t.intervals[id := t.intervals[id].(data := data)])
  }

  /** Where add puts the new points: the start point ahead of every start
      point at the same position; the end point after every end point at a
      smaller position, and just before the last end point at the same
      position when there is one, so that exactly one such point follows it. */
  lemma AddPlacesPoints<T>(t: Table<T>, start: int, end: int, data: T, uuid: Uuid)
    requires Sorted(t.starts) && AllOfKind(t.starts, true)
    requires Sorted(t.ends) && AllOfKind(t.ends, false)
    ensures CountBelow(t.starts, BoundaryPoint(start, true, uuid)) < |Added(t, start, end, data, uuid).starts|
    ensures Added(t, start, end, data, uuid).starts[CountBelow(t.starts, BoundaryPoint(start, true, uuid))] == BoundaryPoint(start, true, uuid)
    ensures forall i :: 0 <= i < |Added(t, start, end, data, uuid).starts| ==>
      (Added(t, start, end, data, uuid).starts[i].position < start <==> i < CountBelow(t.starts, BoundaryPoint(start, true, uuid)))
    ensures LastIndexOf(t.ends, BoundaryPoint(end, false, uuid)) < |Added(t, start, end, data, uuid).ends|
    ensures Added(t, start, end, data, uuid).ends[LastIndexOf(t.ends, BoundaryPoint(end, false, uuid))] == BoundaryPoint(end, false, uuid)
    ensures forall i :: 0 <= i < LastIndexOf(t.ends, BoundaryPoint(end, false, uuid)) ==>
      Added(t, start, end, data, uuid).ends[i].position <= end
    ensures forall i :: LastIndexOf(t.ends, BoundaryPoint(end, false, uuid)) + 1 < i < |Added(t, start, end, data, uuid).ends| ==>
      Added(t, start, end, data, uuid).ends[i].position > end
    ensures (exists j :: 0 <= j < |t.ends| && t.ends[j].position == end) <==>
      (&& LastIndexOf(t.ends, BoundaryPoint(end, false, uuid)) + 1 < |Added(t, start, end, data, uuid).ends|
       && Added(t, start, end, data, uuid).ends[LastIndexOf(t.ends, BoundaryPoint(end, false, uuid)) + 1].position == end)
  {
    InsertFirstOfRun(t.starts, BoundaryPoint(start, true, uuid));
    InsertBeforeLastOfRun(t.ends, BoundaryPoint(end, false, uuid));
  }

  /** Inserting a start point at the number of points below it puts it
      ahead of every start point at its position. */
  lemma InsertFirstOfRun(s: seq<BoundaryPoint>, p: BoundaryPoint)
    requires Sorted(s) && AllOfKind(s, true) && p.isStart
    ensures CountBelow(s, p) < |InsertAt(s, CountBelow(s, p), p)|
    ensures InsertAt(s, CountBelow(s, p), p)[CountBelow(s, p)] == p
    ensures forall i :: 0 <= i < |InsertAt(s, CountBelow(s, p), p)| ==>
      (InsertAt(s, CountBelow(s, p), p)[i].position < p.position <==> i < CountBelow(s, p))
  {
    var k := CountBelow(s, p);
    var r := InsertAt(s, k, p);
    RunBounds(s, p);
    forall i | 0 <= i < |r|
      ensures r[i].position < p.position <==> i < k
    {
      if i < k {
        assert r[i] == s[i];
        CompareToIsRankOrder(s[i], p);
      } else if k < i {
        assert r[i] == s[i - 1];
        CompareToIsRankOrder(s[i - 1], p);
      }
    }
  }

  /** Inserting an end point at LastIndexOf puts it after every end point at
      a smaller position and just before the last end point at its position,
      when there is one. */
  lemma InsertBeforeLastOfRun(s: seq<BoundaryPoint>, p: BoundaryPoint)
    requires Sorted(s) && AllOfKind(s, false) && !p.isStart
    ensures LastIndexOf(s, p) < |InsertAt(s, LastIndexOf(s, p), p)|
    ensures InsertAt(s, LastIndexOf(s, p), p)[LastIndexOf(s, p)] == p
    ensures forall i :: 0 <= i < LastIndexOf(s, p) ==> InsertAt(s, LastIndexOf(s, p), p)[i].position <= p.position
    ensures forall i :: LastIndexOf(s, p) + 1 < i < |InsertAt(s, LastIndexOf(s, p), p)| ==>
      InsertAt(s, LastIndexOf(s, p), p)[i].position > p.position
    ensures (exists j :: 0 <= j < |s| && s[j].position == p.position) <==>
      (&& LastIndexOf(s, p) + 1 < |InsertAt(s, LastIndexOf(s, p), p)|
       && InsertAt(s, LastIndexOf(s, p), p)[LastIndexOf(s, p) + 1].position == p.position)
  {
    var k := LastIndexOf(s, p);
    var r := InsertAt(s, k, p);
    RunBounds(s, p);
    forall i | 0 <= i < |s|
      ensures s[i].CompareTo(p) == ComparePositions(s[i].position, p.position)
    {
      CompareToIsRankOrder(s[i], p);
    }
    forall i | 0 <= i < k
      ensures r[i].position <= p.position
    {
      assert r[i] == s[i];
    }
    forall i | k + 1 < i < |r|
      ensures r[i].position > p.position
    {
      assert r[i] == s[i - 1];
    }
    if k + 1 < |r| {
      assert r[k + 1] == s[k];
    }
    if exists j :: 0 <= j < |s| && s[j].position == p.position {
      var j :| 0 <= j < |s| && s[j].position == p.position;
      assert s[j].Equals(p);
    }
  }

  /** Adding a slot under a fresh id keeps the table consistent; the slot is
      then live, with the given bounds and payload, and there is one more. */
  lemma AddKeepsInv<T>(t: Table<T>, start: int, end: int, data: T, uuid: Uuid)
    requires TableInv(t) && uuid !in t.intervals
    ensures TableInv(Added(t, start, end, data, uuid))
    ensures uuid in Added(t, start, end, data, uuid).intervals
    ensures Added(t, start, end, data, uuid).intervals[uuid].startPoint.position == start
    ensures Added(t, start, end, data, uuid).intervals[uuid].endPoint.position == end
    ensures Added(t, start, end, data, uuid).intervals[uuid].data == data
    ensures |Added(t, start, end, data, uuid).intervals| == |t.intervals| + 1
  {
    var sp := BoundaryPoint(start, true, uuid);
    var ep := BoundaryPoint(end, false, uuid);
    var slot := TimeSlot(sp, ep, data);
    var m := t.intervals[uuid := slot];
    assert ListInv(InsertAt(t.starts, CountBelow(t.starts, sp), sp), m, true) by {
      var i := CountBelow(t.starts, sp);
      RunBounds(t.starts, sp);
      forall k | i <= k < |t.starts|
        ensures sp.CompareTo(t.starts[k]) <= 0
      {
        CompareToIsRankOrder(t.starts[k], sp);
      }
      InsertAtKeepsSorted(t.starts, i, sp);
      ListInsertKeeps(t.starts, t.intervals, true, i, slot);
    }
    assert ListInv(InsertAt(t.ends, LastIndexOf(t.ends, ep), ep), m, false) by {
      LastIndexOfSplits(t.ends, ep);
      InsertAtKeepsSorted(t.ends, LastIndexOf(t.ends, ep), ep);
      ListInsertKeeps(t.ends, t.intervals, false, LastIndexOf(t.ends, ep), slot);
    }
  }

  /** Removing a live slot keeps the table consistent, with one slot fewer. */
  lemma RemoveKeepsInv<T>(t: Table<T>, id: Uuid)
    requires TableInv(t) && id in t.intervals
    ensures TableInv(Removed(t, id))
    ensures id !in Removed(t, id).intervals && |Removed(t, id).intervals| == |t.intervals| - 1
  {
    ListRemoveKeeps(t.starts, t.intervals, true, id);
    ListRemoveKeeps(t.ends, t.intervals, false, id);
  }

  /** Replacing a live slot's payload keeps the table consistent and leaves
      both point lists and the slot's bounds as they were. */
  lemma UpdateKeepsInv<T>(t: Table<T>, id: Uuid, data: T)
    requires TableInv(t) && id in t.intervals
    ensures TableInv(Updated(t, id, data))
    ensures Updated(t, id, data).intervals.Keys == t.intervals.Keys
    ensures Updated(t, id, data).intervals[id].startPoint == t.intervals[id].startPoint
    ensures Updated(t, id, data).intervals[id].endPoint == t.intervals[id].endPoint
    ensures Updated(t, id, data).intervals[id].data == data
    ensures Updated(t, id, data).starts == t.starts && Updated(t, id, data).ends == t.ends
    ensures forall other :: other in t.intervals && other != id ==> Updated(t, id, data).intervals[other] == t.intervals[other]
  {
    ListUpdateKeeps(t.starts, t.intervals, true, id, data);
    ListUpdateKeeps(t.ends, t.intervals, false, id, data);
  }

  /** A list that agrees with the map still agrees after a payload change. */
  lemma ListUpdateKeeps<T>(s: seq<BoundaryPoint>, intervals: map<Uuid, TimeSlot<T>>, isStart: bool, id: Uuid, data: T)
    requires ListInv(s, intervals, isStart) && id in intervals
    ensures ListInv(s, intervals[id := intervals[id].(data := data)], isStart)
  {
    var m := intervals[id := intervals[id].(data := data)];
    assert m.Keys == intervals.Keys;
    forall i | 0 <= i < |s|
      ensures Recorded(s, m, isStart, i)
    {
      assert Recorded(s, intervals, isStart, i);
    }
    forall j | j in m
      ensures Listed(s, m, isStart, j)
    {
      assert Listed(s, intervals, isStart, j);
    }
  }

  /** Adding a slot and then removing its id gives back the table as it was. */
  lemma AddThenRemove<T>(t: Table<T>, start: int, end: int, data: T, uuid: Uuid)
    requires TableInv(t) && uuid !in t.intervals
    ensures Removed(Added(t, start, end, data, uuid), uuid) == t
  {
    ListInsertThenRemove(t.starts, t.intervals, true, CountBelow(t.starts, BoundaryPoint(start, true, uuid)), BoundaryPoint(start, true, uuid));
    ListInsertThenRemove(t.ends, t.intervals, false, LastIndexOf(t.ends, BoundaryPoint(end, false, uuid)), BoundaryPoint(end, false, uuid));
    var m := t.intervals[uuid := TimeSlot(BoundaryPoint(start, true, uuid), BoundaryPoint(end, false, uuid), data)];
    assert m - {uuid} == t.intervals;
  }

  /** Inserting the point of an id that is not live into a list that agrees
      with the map, then removing that id, gives back the list. */
  lemma ListInsertThenRemove<T>(s: seq<BoundaryPoint>, intervals: map<Uuid, TimeSlot<T>>, isStart: bool, k: nat, p: BoundaryPoint)
    requires ListInv(s, intervals, isStart) && IdsCarried(intervals) && k <= |s| && p.uuid !in intervals
    ensures WithoutId(InsertAt(s, k, p), p.uuid) == s
  {
    ListHoldsIdOnce(s, intervals, isStart, p.uuid);
    InsertThenRemove(s, k, p);
  }
}
