/** The time slot table: time slots indexed by their boundary points, kept in
    two sorted lists beside a map from id to slot, with the operations that
    add, look up, update and remove slots and lay them out as a grid. */
module TimeSlotTables {
  import opened BoundaryPoints
  import opened PointLists
  import opened TimeSlots
  import opened GridLayout
  import opened TableInvariant
  import opened TableQueries

  datatype Option<T> = None | Some(value: T)

  /** The outcome of a removal by id: success, or the error that names the
      id looked for and lists the ids that are live. */
  datatype RemoveResult = Success | UnknownId(id: Uuid, liveIds: set<Uuid>)

  /** The live slot id lies exactly at [start, end). */
  predicate HasBounds<T>(intervals: map<Uuid, TimeSlot<T>>, id: Uuid, start: int, end: int) {
    id in intervals && intervals[id].startPoint.position == start && intervals[id].endPoint.position == end
  }

  /** A slot whose end point is not among the end points at position end that
      lie above k (k being -1 or an end point at another position) does not
      end at end. */
  lemma UnpairedSlotEndsElsewhere<T>(t: Table<T>, start: int, end: int, k: int, id: Uuid)
    requires TableInv(t) && id in t.intervals
    requires LastIndexOf(t.ends, Probe(end, false)) < |t.ends|
    requires -1 <= k <= LastIndexOf(t.ends, Probe(end, false))
    requires k < 0 || !t.ends[k].Equals(Probe(end, false))
    requires forall i :: k < i <= LastIndexOf(t.ends, Probe(end, false)) ==> t.ends[i].uuid != id
    ensures !HasBounds(t.intervals, id, start, end)
  {
    var ep := Probe(end, false);
    if HasBounds(t.intervals, id, start, end) {
      ListHoldsIdOnce(t.ends, t.intervals, false, id);
      var m :| 0 <= m < |t.ends| && t.ends[m] == t.intervals[id].endPoint && t.ends[m].uuid == id;
      assert Recorded(t.ends, t.intervals, false, m);
      RunBounds(t.ends, ep);
      assert t.ends[m].Equals(ep);
      assert false;
    }
  }

  /** A start point after the run of start points at position start belongs
      to a slot that does not start at start. */
  lemma LaterStartElsewhere<T>(t: Table<T>, start: int, end: int, j: nat)
    requires TableInv(t) && LastIndexOf(t.starts, Probe(start, true)) < j < |t.starts|
    requires t.starts[LastIndexOf(t.starts, Probe(start, true))].Equals(Probe(start, true))
    ensures !HasBounds(t.intervals, t.starts[j].uuid, start, end)
  {
    RunBounds(t.starts, Probe(start, true));
    assert Recorded(t.starts, t.intervals, true, j);
  }

  /** No slot whose start point lies in (lo, hi] lies at [start, end). */
  ghost predicate NoMatchBetween<T>(t: Table<T>, lo: int, hi: int, start: int, end: int)
    requires hi < |t.starts|
  {
    forall i :: 0 <= i && lo < i <= hi ==> !HasBounds(t.intervals, t.starts[i].uuid, start, end)
  }

  /** One step of the search of the removal by position: when the end point
      of the slot at startIndex is not among the end points at end, no slot
      from startIndex up to the top of the run lies at [start, end), and the
      slot k0 that does lies below startIndex. */
  lemma PairSearchStep<T>(t: Table<T>, start: int, end: int, startIndex: nat, lastStart: nat, k: int, k0: nat)
    requires TableInv(t) && k0 <= startIndex <= lastStart < |t.starts|
    requires HasBounds(t.intervals, t.starts[k0].uuid, start, end)
    requires NoMatchBetween(t, startIndex, lastStart, start, end)
    requires LastIndexOf(t.ends, Probe(end, false)) < |t.ends|
    requires -1 <= k <= LastIndexOf(t.ends, Probe(end, false))
    requires k < 0 || !t.ends[k].Equals(Probe(end, false))
    requires forall i :: k < i <= LastIndexOf(t.ends, Probe(end, false)) ==> t.ends[i].uuid != t.starts[startIndex].uuid
    ensures k0 < startIndex && NoMatchBetween(t, startIndex - 1, lastStart, start, end)
  {
    assert Recorded(t.starts, t.intervals, true, startIndex);
    UnpairedSlotEndsElsewhere(t, start, end, k, t.starts[startIndex].uuid);
  }

  /** When the search stops, no slot whose start point lies above it lies at
      [start, end): those up to the top of the run were ruled out, those
      above the run start elsewhere. */
  lemma PairSearchDone<T>(t: Table<T>, start: int, end: int, startIndex: nat)
    requires TableInv(t) && LastIndexOf(t.starts, Probe(start, true)) < |t.starts|
    requires t.starts[LastIndexOf(t.starts, Probe(start, true))].Equals(Probe(start, true))
    requires startIndex <= LastIndexOf(t.starts, Probe(start, true))
    requires NoMatchBetween(t, startIndex, LastIndexOf(t.starts, Probe(start, true)), start, end)
    ensures forall j :: startIndex < j < |t.starts| ==> !HasBounds(t.intervals, t.starts[j].uuid, start, end)
  {
    forall j | startIndex < j < |t.starts|
      ensures !HasBounds(t.intervals, t.starts[j].uuid, start, end)
    {
      if j > LastIndexOf(t.starts, Probe(start, true)) {
        LaterStartElsewhere(t, start, end, j);
      }
    }
  }

  class TimeSlotTable<T(==)> {
    /** The start points, sorted. */
    var startPoints: seq<BoundaryPoint>
    /** The end points, sorted. */
    var endPoints: seq<BoundaryPoint>
    /** The live slots by id. */
    var intervalData: map<Uuid, TimeSlot<T>>

    /** The state of the table as a value. */
    function State(): Table<T>
      reads this
    {
      Table(startPoints, endPoints, intervalData)
    }

    ghost predicate Valid()
      reads this
    {
      TableInv(State())
    }

    constructor ()
      ensures Valid() && State() == Table([], [], map[])
    {
      startPoints := [];
      endPoints := [];
      intervalData := map[];
    }

    /** The list that holds points of o's kind. */
    function PointsOfKind(o: BoundaryPoint): seq<BoundaryPoint>
      reads this
    {
      if o.isStart then startPoints else endPoints
    }

    /** From the result of the binary search for o to the index of the first
        point equal to o, or to where o would be inserted: in both cases the
        number of points below o. */
    method GetFirstIndexOf(index: int, o: BoundaryPoint) returns (r: nat)
      requires Sorted(PointsOfKind(o)) && IsSearchResult(PointsOfKind(o), o, index)
      ensures r == CountBelow(PointsOfKind(o), o)
    {
      var intervalPoints := PointsOfKind(o);
      RunBounds(intervalPoints, o);
      if index < 0 {
        return -(index + 1);
      }
      r := index;
      while r > 0 && intervalPoints[r - 1].Equals(o)
        invariant CountBelow(intervalPoints, o) <= r < CountAtMost(intervalPoints, o)
      {
        r := r - 1;
      }
    }

    /** From the result of the binary search for o to the index of the last
        point equal to o, or to where o would be inserted. */
    method GetLastIndexOf(index: int, o: BoundaryPoint) returns (r: nat)
      requires Sorted(PointsOfKind(o)) && IsSearchResult(PointsOfKind(o), o, index)
      ensures r == LastIndexOf(PointsOfKind(o), o)
    {
      var intervalPoints := PointsOfKind(o);
      RunBounds(intervalPoints, o);
      if index < 0 {
        NoneEqualSameCounts(intervalPoints, o);
        return -(index + 1);
      }
      r := index;
      while r < |intervalPoints| - 1 && intervalPoints[r + 1].Equals(o)
        invariant CountBelow(intervalPoints, o) <= r < CountAtMost(intervalPoints, o)
      {
        r := r + 1;
      }
    }

    /** Adds the slot [start, end) with the given payload under uuid, which
        stands for the freshly drawn random id, and returns that id. */
    method Add(start: int, end: int, data: T, uuid: Uuid) returns (id: Uuid)
      requires Valid() && uuid !in intervalData
      modifies this
      ensures Valid() && id == uuid
      ensures State() == Added(old(State()), start, end, data, uuid)
    {
      AddKeepsInv(State(), start, end, data, uuid);
      var startPoint := BoundaryPoint(start, true, uuid);
      var endPoint := BoundaryPoint(end, false, uuid);
      var found := BinarySearch(startPoints, startPoint);
      var insertionPoint := GetFirstIndexOf(found, startPoint);
      startPoints := InsertAt(startPoints, insertionPoint, startPoint);
      found := BinarySearch(endPoints, endPoint);
      insertionPoint := GetLastIndexOf(found, endPoint);
      endPoints := InsertAt(endPoints, insertionPoint, endPoint);
      intervalData := intervalData[uuid := TimeSlot(startPoint, endPoint, data)];
      return uuid;
    }

    /** The id of some live slot whose payload equals data, or none when no
        live slot carries it. */
    method Get(data: T) returns (r: Option<Uuid>)
      ensures r.Some? ==> r.value in intervalData && intervalData[r.value].data == data
      ensures r.None? ==> forall id :: id in intervalData ==> intervalData[id].data != data
    {
      var unvisited := intervalData.Keys;
      while unvisited != {}
        invariant unvisited <= intervalData.Keys
        invariant forall id :: id in intervalData && id !in unvisited ==> intervalData[id].data != data
        decreases |unvisited|
      {
        var id :| id in unvisited;
        if intervalData[id].data == data {
          return Some(id);
        }
        unvisited := unvisited - {id};
      }
      return None;
    }

    /** Replaces the payload of the live slot uuid. */
    method Update(uuid: Uuid, newData: T)
      requires Valid() && uuid in intervalData
      modifies this
      ensures Valid() && State() == Updated(old(State()), uuid, newData)
    {
      UpdateKeepsInv(State(), uuid, newData);
      var orig := intervalData[uuid];
      intervalData := intervalData[uuid := TimeSlot(orig.startPoint, orig.endPoint, newData)];
    }

    /** The search of the removal by value: from the last point equal to
        each of the slot's points, scan back to the one carrying its id.
        Removing at the two indices found is removing the slot's id. */
    method LocateSlot(timeSlot: TimeSlot<T>) returns (startIndex: nat, endIndex: nat)
      requires Valid()
      requires timeSlot.startPoint in startPoints && timeSlot.endPoint in endPoints
      requires timeSlot.endPoint.uuid == timeSlot.Id()
      ensures timeSlot.Id() in intervalData
      ensures startIndex < |startPoints| && startPoints[startIndex].uuid == timeSlot.Id()
      ensures endIndex < |endPoints| && endPoints[endIndex].uuid == timeSlot.Id()
      ensures RemoveAt(startPoints, startIndex) == WithoutId(startPoints, timeSlot.Id())
      ensures RemoveAt(endPoints, endIndex) == WithoutId(endPoints, timeSlot.Id())
    {
      var startPoint := timeSlot.startPoint;
      var endPoint := timeSlot.endPoint;
      ghost var ks :| 0 <= ks < |startPoints| && startPoints[ks] == startPoint;
      ghost var ke :| 0 <= ke < |endPoints| && endPoints[ke] == endPoint;
      assert Recorded(startPoints, intervalData, true, ks);
      LastIndexOfCovers(startPoints, startPoint, ks);
      LastIndexOfCovers(endPoints, endPoint, ke);

      var found := BinarySearch(startPoints, startPoint);
      startIndex := GetLastIndexOf(found, startPoint);
      found := BinarySearch(endPoints, endPoint);
      endIndex := GetLastIndexOf(found, endPoint);
      startIndex := ScanBackToId(startPoints, startIndex, startPoint.uuid);
      endIndex := ScanBackToId(endPoints, endIndex, endPoint.uuid);
      WithoutIdAt(startPoints, startIndex);
      WithoutIdAt(endPoints, endIndex);
    }

    /** Removes a live slot given by value: its points are found by scanning
        back from the last equal point to the one with its id. */
    method RemoveSlot(timeSlot: TimeSlot<T>)
      requires Valid()
      requires timeSlot.startPoint in startPoints && timeSlot.endPoint in endPoints
      requires timeSlot.endPoint.uuid == timeSlot.Id()
      modifies this
      ensures timeSlot.Id() in old(intervalData)
      ensures Valid() && State() == Removed(old(State()), timeSlot.Id())
    {
      var startIndex, endIndex := LocateSlot(timeSlot);
      RemoveKeepsInv(State(), timeSlot.Id());
      intervalData := intervalData - {timeSlot.Id()};
      startPoints := RemoveAt(startPoints, startIndex);
      endPoints := RemoveAt(endPoints, endIndex);
    }

    /** Removes the slot with the given id; an unknown id is an error that
        lists the live ids and leaves the table as it was. */
    method RemoveId(uuid: Uuid) returns (r: RemoveResult)
      requires Valid()
      modifies this
      ensures Valid()
      ensures uuid in old(intervalData) ==> r == Success && State() == Removed(old(State()), uuid)
      ensures uuid !in old(intervalData) ==> r == UnknownId(uuid, old(intervalData).Keys) && State() == old(State())
    {
      if uuid !in intervalData {
        return UnknownId(uuid, intervalData.Keys);
      }
      assert Listed(startPoints, intervalData, true, uuid);
      assert Listed(endPoints, intervalData, false, uuid);
      RemoveSlot(intervalData[uuid]);
      return Success;
    }

    /** The search of the removal by position: the start point and the end
        point of the slot lying at [start, end) whose start point comes last
        among such slots. */
    method FindPair(start: int, end: int) returns (startIndex: nat, pairIndex: nat)
      requires Valid()
      requires exists id :: HasBounds(intervalData, id, start, end)
      ensures startIndex < |startPoints| && pairIndex < |endPoints|
      ensures startPoints[startIndex].uuid == endPoints[pairIndex].uuid
      ensures HasBounds(intervalData, startPoints[startIndex].uuid, start, end)
      ensures forall j :: startIndex < j < |startPoints| ==> !HasBounds(intervalData, startPoints[j].uuid, start, end)
    {
      var startPoint := Probe(start, true);
      var endPoint := Probe(end, false);
      ghost var id0 :| HasBounds(intervalData, id0, start, end);
      ghost var k0, m0 := WitnessIndices(id0, start, end);

      var found := BinarySearch(startPoints, startPoint);
      startIndex := GetLastIndexOf(found, startPoint);
      found := BinarySearch(endPoints, endPoint);
      var endIndex := GetLastIndexOf(found, endPoint);
      ghost var lastStart := startIndex;
      RunBounds(startPoints, startPoint);
      RunBounds(endPoints, endPoint);

      pairIndex := endIndex;
      while startPoints[startIndex].uuid != endPoints[pairIndex].uuid
        invariant k0 <= startIndex <= lastStart < |startPoints|
        invariant pairIndex == endIndex
        invariant NoMatchBetween(State(), startIndex, lastStart, start, end)
        decreases startIndex
      {
        var uuid := startPoints[startIndex].uuid;
        var paired, k := ScanRunForId(endPoints, pairIndex, endPoint, uuid);
        if paired {
          pairIndex := k;
          break;
        }
        PairSearchStep(State(), start, end, startIndex, lastStart, k, k0);
        startIndex := startIndex - 1;
      }

      assert Recorded(startPoints, intervalData, true, startIndex);
      assert Recorded(endPoints, intervalData, false, pairIndex);
      PairSearchDone(State(), start, end, startIndex);
    }

    /** Removes a slot lying exactly at [start, end), without knowing its
        id: of the slots that do, the one whose start point comes last. */
    method RemoveByBounds(start: int, end: int) returns (uuid: Uuid)
      requires Valid()
      requires exists id :: HasBounds(intervalData, id, start, end)
      modifies this
      ensures HasBounds(old(intervalData), uuid, start, end)
      ensures forall i, j :: 0 <= i < j < |old(startPoints)| && old(startPoints)[i].uuid == uuid ==>
        !HasBounds(old(intervalData), old(startPoints)[j].uuid, start, end)
      ensures Valid() && State() == Removed(old(State()), uuid)
    {
      var startIndex, pairIndex := FindPair(start, end);
      uuid := startPoints[startIndex].uuid;
      RemoveKeepsInv(State(), uuid);
      WithoutIdAt(startPoints, startIndex);
      WithoutIdAt(endPoints, pairIndex);
      intervalData := intervalData - {uuid};
      startPoints := RemoveAt(startPoints, startIndex);
      endPoints := RemoveAt(endPoints, pairIndex);
    }

    /** Where the points of a slot lying at [start, end) sit: inside the run
        of start points at start and the run of end points at end. */
    lemma WitnessIndices(id: Uuid, start: int, end: int) returns (k: nat, m: nat)
      requires Valid() && HasBounds(intervalData, id, start, end)
      ensures k < |startPoints| && startPoints[k].uuid == id && startPoints[k].Equals(Probe(start, true))
      ensures m < |endPoints| && endPoints[m].uuid == id && endPoints[m].Equals(Probe(end, false))
      ensures k <= LastIndexOf(startPoints, Probe(start, true)) < |startPoints|
      ensures m <= LastIndexOf(endPoints, Probe(end, false)) < |endPoints|
      ensures CountBelow(startPoints, Probe(start, true)) <= k
    {
      ListHoldsIdOnce(startPoints, intervalData, true, id);
      ListHoldsIdOnce(endPoints, intervalData, false, id);
      k :| 0 <= k < |startPoints| && startPoints[k] == intervalData[id].startPoint && startPoints[k].uuid == id;
      m :| 0 <= m < |endPoints| && endPoints[m] == intervalData[id].endPoint && endPoints[m].uuid == id;
      LastIndexOfCovers(startPoints, Probe(start, true), k);
      LastIndexOfCovers(endPoints, Probe(end, false), m);
      RunBounds(startPoints, Probe(start, true));
    }

    /** The grid of all live slots: the layout sweep over the start points.
        It holds every live slot, nothing else, and as many slots as are
        live, and no two slots of a row overlap when every slot ends after
        it starts. */
    method GetTimeSlotsAsGrid() returns (grid: seq<seq<TimeSlot<T>>>)
      requires Valid()
      ensures AllLive(startPoints, intervalData)
      ensures grid == Sweep(SlotsOf(startPoints, intervalData)).rows
      ensures TotalSize(grid) == |intervalData|
      ensures forall id :: id in intervalData ==> InGrid(grid, intervalData[id])
      ensures OnlyLive(grid, intervalData)
      ensures AllProper(intervalData) ==> RowsDisjoint(grid)
    {
      GridComplete(State());
      if AllProper(intervalData) {
        GridRowsDisjoint(State());
      }
      StartsAreLive(State());
      grid := DrainAsGrid(startPoints, intervalData);
    }

    /** The grid of the slots the range query (start, end) selects, in the
        selection the code makes: a live slot is in it exactly when
        KeptAsWritten holds for the index of its start point. */
    method GetTimeSlotsAsGridWithin(start: int, end: int) returns (grid: seq<seq<TimeSlot<T>>>)
      requires Valid()
      ensures AllLive(startPoints, intervalData)
      ensures AllLive(WindowAsWritten(startPoints, endPoints, start, end), intervalData)
      ensures grid == Sweep(SlotsOf(WindowAsWritten(startPoints, endPoints, start, end), intervalData)).rows
      ensures forall k :: 0 <= k < |startPoints| ==>
        (InGrid(grid, intervalData[startPoints[k].uuid]) <==> KeptAsWritten(State(), k, start, end))
      ensures OnlyLive(grid, intervalData)
      ensures AllProper(intervalData) ==> RowsDisjoint(grid)
    {
      var startPoint := Probe(end, true);
      var endPoint := Probe(start, false);
      var found := BinarySearch(endPoints, endPoint);
      var firstEndAfterStart := GetFirstIndexOf(found, endPoint);
      found := BinarySearch(startPoints, startPoint);
      var lastStartBeforeEnd := GetLastIndexOf(found, startPoint);

      var idsEndingAfterStart := IdsFrom(endPoints, firstEndAfterStart);
      var startsBeforeEnd := FilterIds(startPoints[..lastStartBeforeEnd], idsEndingAfterStart);
      WindowAsWrittenGrid(State(), start, end);
      StartSlotsInOrder(State(), lastStartBeforeEnd, idsEndingAfterStart);
      grid := DrainAsGrid(startsBeforeEnd, intervalData);
    }

    /** The range query as evidently intended: the grid of exactly the live
        slots that overlap [start, end). The end list is cut after the last
        end point at start, the start list before the first start point at
        end. */
    method GetTimeSlotsAsGridOverlapping(start: int, end: int) returns (grid: seq<seq<TimeSlot<T>>>)
      requires Valid()
      ensures AllLive(Window(startPoints, endPoints, start, end), intervalData)
      ensures grid == Sweep(SlotsOf(Window(startPoints, endPoints, start, end), intervalData)).rows
      ensures forall id :: id in intervalData ==>
        (InGrid(grid, intervalData[id]) <==>
         intervalData[id].startPoint.position < end && intervalData[id].endPoint.position > start)
      ensures OnlyLive(grid, intervalData)
      ensures AllProper(intervalData) ==> RowsDisjoint(grid)
    {
      var startPoint := Probe(end, true);
      var endPoint := Probe(start, false);
      var found := BinarySearch(endPoints, endPoint);
      var lastEndAtStart := GetLastIndexOf(found, endPoint);
      PastLastIndexOf(endPoints, endPoint);
      var firstEndAfterStart := lastEndAtStart;
      if lastEndAtStart < |endPoints| && endPoints[lastEndAtStart].Equals(endPoint) {
        firstEndAfterStart := lastEndAtStart + 1;
      }
      found := BinarySearch(startPoints, startPoint);
      var firstStartAtEnd := GetFirstIndexOf(found, startPoint);

      var idsEndingAfterStart := IdsFrom(endPoints, firstEndAfterStart);
      var startsBeforeEnd := FilterIds(startPoints[..firstStartAtEnd], idsEndingAfterStart);
      WindowGrid(State(), start, end);
      StartSlotsInOrder(State(), firstStartAtEnd, idsEndingAfterStart);
      grid := DrainAsGrid(startsBeforeEnd, intervalData);
    }
  }
}
