/** What the two grid queries of the table return: the layout of every live
    slot, and the layout of the slots the range query selects. */
module TableQueries {
  import opened BoundaryPoints
  import opened PointLists
  import opened TimeSlots
  import opened GridLayout
  import opened TableInvariant

  /** Every point of the list belongs to a live slot. */
  ghost predicate AllLive<T>(points: seq<BoundaryPoint>, intervals: map<Uuid, TimeSlot<T>>) {
    forall i :: 0 <= i < |points| ==> points[i].uuid in intervals
  }

  /** Every live slot ends after it starts. */
  ghost predicate AllProper<T>(intervals: map<Uuid, TimeSlot<T>>) {
    forall id :: id in intervals ==> intervals[id].startPoint.position < intervals[id].endPoint.position
  }

  /** Everything in the rows is a live slot, stored under its own id. */
  ghost predicate OnlyLive<T>(rows: seq<seq<TimeSlot<T>>>, intervals: map<Uuid, TimeSlot<T>>) {
    forall d, i :: 0 <= d < |rows| && 0 <= i < |rows[d]| ==>
      rows[d][i].Id() in intervals && intervals[rows[d][i].Id()] == rows[d][i]
  }

  /** Under the invariant the start list names live slots only, and the slots
      it names, in its order, start in non-decreasing position and each sits
      at its own start point. */
  lemma StartSlotsInOrder<T>(t: Table<T>, cut: nat, keep: set<Uuid>)
    requires TableInv(t) && cut <= |t.starts|
    ensures AllLive(FilterIds(t.starts[..cut], keep), t.intervals)
    ensures StartsSorted(SlotsOf(FilterIds(t.starts[..cut], keep), t.intervals))
    ensures forall i :: 0 <= i < |FilterIds(t.starts[..cut], keep)| ==>
      SlotsOf(FilterIds(t.starts[..cut], keep), t.intervals)[i].startPoint == FilterIds(t.starts[..cut], keep)[i]
  {
    var sel := FilterIds(t.starts[..cut], keep);
    forall i | 0 <= i < |sel|
      ensures sel[i].uuid in t.intervals && t.intervals[sel[i].uuid].startPoint == sel[i] && sel[i].isStart
    {
      var k :| 0 <= k < cut && t.starts[..cut][k] == sel[i];
      assert Recorded(t.starts, t.intervals, true, k);
    }
    assert Sorted(t.starts[..cut]);
    FilterIdsSorted(t.starts[..cut], keep);
    var slots := SlotsOf(sel, t.intervals);
    forall i, j | 0 <= i < j < |slots|
      ensures slots[i].startPoint.position <= slots[j].startPoint.position
    {
      CompareToIsRankOrder(sel[i], sel[j]);
    }
  }

  /** Under the invariant every start point is the start point of the live
      slot whose id it carries. */
  lemma StartsAreLive<T>(t: Table<T>)
    requires TableInv(t)
    ensures forall i :: 0 <= i < |t.starts| ==>
      t.starts[i].uuid in t.intervals && t.intervals[t.starts[i].uuid].startPoint == t.starts[i]
  {
    forall i | 0 <= i < |t.starts|
      ensures t.starts[i].uuid in t.intervals && t.intervals[t.starts[i].uuid].startPoint == t.starts[i]
    {
      assert Recorded(t.starts, t.intervals, true, i);
    }
  }

  /** The full grid holds every live slot, holds nothing else, and holds as
      many slots as are live. */
  lemma GridComplete<T>(t: Table<T>)
    requires TableInv(t)
    ensures AllLive(t.starts, t.intervals)
    ensures TotalSize(Sweep(SlotsOf(t.starts, t.intervals)).rows) == |t.intervals|
    ensures forall id :: id in t.intervals ==> InGrid(Sweep(SlotsOf(t.starts, t.intervals)).rows, t.intervals[id])
    ensures OnlyLive(Sweep(SlotsOf(t.starts, t.intervals)).rows, t.intervals)
  {
    StartsAreLive(t);
    SweepTotal(SlotsOf(t.starts, t.intervals));
    GridHoldsLive(t);
    GridHoldsOnlyLive(t);
  }

  /** Every live slot is in the full grid. */
  lemma GridHoldsLive<T>(t: Table<T>)
    requires TableInv(t)
    ensures AllLive(t.starts, t.intervals)
    ensures forall id :: id in t.intervals ==> InGrid(Sweep(SlotsOf(t.starts, t.intervals)).rows, t.intervals[id])
  {
    StartsAreLive(t);
    var slots := SlotsOf(t.starts, t.intervals);
    forall id | id in t.intervals
      ensures InGrid(Sweep(slots).rows, t.intervals[id])
    {
      assert Listed(t.starts, t.intervals, true, id);
      var k :| 0 <= k < |t.starts| && t.starts[k] == t.intervals[id].startPoint;
      assert slots[k] == t.intervals[id];
      SweepHoldsExactly(slots, t.intervals[id]);
    }
  }

  /** Everything in the full grid is a live slot, stored under its own id. */
  lemma GridHoldsOnlyLive<T>(t: Table<T>)
    requires TableInv(t)
    ensures AllLive(t.starts, t.intervals)
    ensures OnlyLive(Sweep(SlotsOf(t.starts, t.intervals)).rows, t.intervals)
  {
    StartsAreLive(t);
    var slots := SlotsOf(t.starts, t.intervals);
    var rows: seq<seq<TimeSlot<T>>> := Sweep(slots).rows;
    forall d, i | 0 <= d < |rows| && 0 <= i < |rows[d]|
      ensures rows[d][i].Id() in t.intervals && t.intervals[rows[d][i].Id()] == rows[d][i]
    {
      assert InGrid(rows, rows[d][i]);
      SweepHoldsExactly(slots, rows[d][i]);
    }
  }

  /** A live slot is in the grid of a selection of start points exactly when
      its start point was selected. */
  lemma GridOfSelection<T>(t: Table<T>, cut: nat, keep: set<Uuid>, id: Uuid)
    requires TableInv(t) && cut <= |t.starts| && id in t.intervals
    ensures AllLive(FilterIds(t.starts[..cut], keep), t.intervals)
    ensures InGrid(Sweep(SlotsOf(FilterIds(t.starts[..cut], keep), t.intervals)).rows, t.intervals[id])
      <==> t.intervals[id].startPoint in FilterIds(t.starts[..cut], keep)
  {
    StartSlotsInOrder(t, cut, keep);
    var sel := FilterIds(t.starts[..cut], keep);
    var slots := SlotsOf(sel, t.intervals);
    SweepHoldsExactly(slots, t.intervals[id]);
    if t.intervals[id].startPoint in sel {
      var i :| 0 <= i < |sel| && sel[i] == t.intervals[id].startPoint;
      assert slots[i] == t.intervals[id];
    }
    if t.intervals[id] in slots {
      var i :| 0 <= i < |slots| && slots[i] == t.intervals[id];
      assert sel[i] == t.intervals[id].startPoint;
    }
  }

  /** Everything in the grid of a selection of start points is a live slot,
      stored under its own id. */
  lemma SelectionGridOnlyLive<T>(t: Table<T>, cut: nat, keep: set<Uuid>)
    requires TableInv(t) && cut <= |t.starts|
    ensures AllLive(FilterIds(t.starts[..cut], keep), t.intervals)
    ensures OnlyLive(Sweep(SlotsOf(FilterIds(t.starts[..cut], keep), t.intervals)).rows, t.intervals)
  {
    StartSlotsInOrder(t, cut, keep);
    var sel := FilterIds(t.starts[..cut], keep);
    var slots := SlotsOf(sel, t.intervals);
    var rows: seq<seq<TimeSlot<T>>> := Sweep(slots).rows;
    forall d, i | 0 <= d < |rows| && 0 <= i < |rows[d]|
      ensures rows[d][i].Id() in t.intervals && t.intervals[rows[d][i].Id()] == rows[d][i]
    {
      assert InGrid(rows, rows[d][i]);
      SweepHoldsExactly(slots, rows[d][i]);
      var j :| 0 <= j < |slots| && slots[j] == rows[d][i];
      assert rows[d][i].startPoint == sel[j];
    }
  }

  /** No two slots in a row of the full grid overlap, when every live slot
      ends after it starts. */
  lemma GridRowsDisjoint<T>(t: Table<T>)
    requires TableInv(t)
    requires AllProper(t.intervals)
    ensures AllLive(t.starts, t.intervals)
    ensures RowsDisjoint(Sweep(SlotsOf(t.starts, t.intervals)).rows)
  {
    StartSlotsInOrder(t, |t.starts|, set i | 0 <= i < |t.starts| :: t.starts[i].uuid);
    SelectedRowsDisjoint(t, |t.starts|, set i | 0 <= i < |t.starts| :: t.starts[i].uuid);
    assert t.starts[..|t.starts|] == t.starts;
    FilterIdsAll(t.starts, set i | 0 <= i < |t.starts| :: t.starts[i].uuid);
  }

  /** Filtering by a set that holds every id of the list keeps the list. */
  lemma {:induction false} FilterIdsAll(s: seq<BoundaryPoint>, keep: set<Uuid>)
    requires forall i :: 0 <= i < |s| ==> s[i].uuid in keep
    ensures FilterIds(s, keep) == s
  {
    if s != [] {
      FilterIdsAll(s[1..], keep);
    }
  }

  /** No two slots in a row of the grid of a selection of start points
      overlap, when every live slot ends after it starts. */
  lemma SelectedRowsDisjoint<T>(t: Table<T>, cut: nat, keep: set<Uuid>)
    requires TableInv(t) && cut <= |t.starts|
    requires AllProper(t.intervals)
    ensures AllLive(FilterIds(t.starts[..cut], keep), t.intervals)
    ensures RowsDisjoint(Sweep(SlotsOf(FilterIds(t.starts[..cut], keep), t.intervals)).rows)
  {
    StartSlotsInOrder(t, cut, keep);
    var slots := SlotsOf(FilterIds(t.starts[..cut], keep), t.intervals);
    assert Proper(slots);
    SweepRowsDisjoint(slots);
  }

  /** The ids of the end points from index cut on. */
  function IdsFrom(ends: seq<BoundaryPoint>, cut: nat): set<Uuid>
    requires cut <= |ends|
  {
    set j | cut <= j < |ends| :: ends[j].uuid
  }

  /** Some end point of slot id lies at or after start. */
  ghost predicate HasEndFrom(ends: seq<BoundaryPoint>, id: Uuid, start: int) {
    exists j :: 0 <= j < |ends| && ends[j].uuid == id && ends[j].position >= start
  }

  /** Some end point of slot id lies after start. */
  ghost predicate HasEndAfter(ends: seq<BoundaryPoint>, id: Uuid, start: int) {
    exists j :: 0 <= j < |ends| && ends[j].uuid == id && ends[j].position > start
  }

  /** Every point the as-written selection keeps lies at or before end, and
      its slot has an end point at or after start. */
  lemma WindowAsWrittenBounds(starts: seq<BoundaryPoint>, ends: seq<BoundaryPoint>, start: int, end: int, r: seq<BoundaryPoint>)
    requires Sorted(starts) && Sorted(ends)
    requires r == FilterIds(starts[..LastIndexOf(starts, Probe(end, true))], IdsFrom(ends, CountBelow(ends, Probe(start, false))))
    ensures forall i :: 0 <= i < |r| ==> r[i] in starts && r[i].position <= end
    ensures forall i :: 0 <= i < |r| ==> HasEndFrom(ends, r[i].uuid, start)
  {
    var startCut, endCut := LastIndexOf(starts, Probe(end, true)), CountBelow(ends, Probe(start, false));
    RunBounds(starts, Probe(end, true));
    RunBounds(ends, Probe(start, false));
    forall i | 0 <= i < |r|
      ensures r[i] in starts && r[i].position <= end
      ensures HasEndFrom(ends, r[i].uuid, start)
    {
      BeforeCut(starts, Probe(end, true), startCut, r[i]);
      var j :| endCut <= j < |ends| && ends[j].uuid == r[i].uuid;
      FromCut(ends, Probe(start, false), endCut, j);
      assert ends[j].position >= start;
    }
  }

  /** The start points the range query [start, end] hands to the layout, as
      the code selects them: the end list is cut before the first end point
      at start or later, the start list before the LAST start point at end
      (or, when there is none, before the first one after end). */
  function WindowAsWritten(starts: seq<BoundaryPoint>, ends: seq<BoundaryPoint>, start: int, end: int): (r: seq<BoundaryPoint>)
    requires Sorted(starts) && Sorted(ends)
    ensures forall i :: 0 <= i < |r| ==> r[i] in starts && r[i].position <= end
    ensures forall i :: 0 <= i < |r| ==> HasEndFrom(ends, r[i].uuid, start)
  {
    var r := FilterIds(starts[..LastIndexOf(starts, Probe(end, true))],
                       IdsFrom(ends, CountBelow(ends, Probe(start, false))));
    WindowAsWrittenBounds(starts, ends, start, end, r);
    r
  }

  /** Every point the corrected selection keeps lies before end, and its
      slot has an end point after start. */
  lemma WindowBounds(starts: seq<BoundaryPoint>, ends: seq<BoundaryPoint>, start: int, end: int, r: seq<BoundaryPoint>)
    requires Sorted(starts) && Sorted(ends)
    requires r == FilterIds(starts[..CountBelow(starts, Probe(end, true))], IdsFrom(ends, CountAtMost(ends, Probe(start, false))))
    ensures forall i :: 0 <= i < |r| ==> r[i] in starts && r[i].position < end
    ensures forall i :: 0 <= i < |r| ==> HasEndAfter(ends, r[i].uuid, start)
  {
    var startCut, endCut := CountBelow(starts, Probe(end, true)), CountAtMost(ends, Probe(start, false));
    RunBounds(starts, Probe(end, true));
    RunBounds(ends, Probe(start, false));
    forall i | 0 <= i < |r|
      ensures r[i] in starts && r[i].position < end
      ensures HasEndAfter(ends, r[i].uuid, start)
    {
      BeforeCut(starts, Probe(end, true), startCut, r[i]);
      var j :| endCut <= j < |ends| && ends[j].uuid == r[i].uuid;
      FromCut(ends, Probe(start, false), endCut, j);
      assert ends[j].position > start;
    }
  }

  /** The selection as intended: slots that start before end and end after
      start, that is, the slots that overlap [start, end). */
  function Window(starts: seq<BoundaryPoint>, ends: seq<BoundaryPoint>, start: int, end: int): (r: seq<BoundaryPoint>)
    requires Sorted(starts) && Sorted(ends)
    ensures forall i :: 0 <= i < |r| ==> r[i] in starts && r[i].position < end
    ensures forall i :: 0 <= i < |r| ==> HasEndAfter(ends, r[i].uuid, start)
  {
    var r := FilterIds(starts[..CountBelow(starts, Probe(end, true))],
                       IdsFrom(ends, CountAtMost(ends, Probe(start, false))));
    WindowBounds(starts, ends, start, end, r);
    r
  }

  /** Where a live slot's start point lies relative to a cut of the start
      list, and whether its end point lies at or after a cut of the end
      list: the facts the window lemmas combine. */
  lemma LivePointIndices<T>(t: Table<T>, id: Uuid, startCut: nat, endCut: nat)
    requires TableInv(t) && id in t.intervals && startCut <= |t.starts| && endCut <= |t.ends|
    ensures exists k :: (0 <= k < |t.starts| && t.starts[k] == t.intervals[id].startPoint &&
                         (t.intervals[id].startPoint in t.starts[..startCut] <==> k < startCut))
    ensures exists m :: (0 <= m < |t.ends| && t.ends[m] == t.intervals[id].endPoint &&
                         (id in IdsFrom(t.ends, endCut) <==> endCut <= m))
  {
    ListHoldsIdOnce(t.starts, t.intervals, true, id);
    ListHoldsIdOnce(t.ends, t.intervals, false, id);
    var k :| 0 <= k < |t.starts| && t.starts[k] == t.intervals[id].startPoint && t.starts[k].uuid == id;
    var m :| 0 <= m < |t.ends| && t.ends[m] == t.intervals[id].endPoint && t.ends[m].uuid == id;
    if t.intervals[id].startPoint in t.starts[..startCut] {
      var j :| 0 <= j < startCut && t.starts[..startCut][j] == t.intervals[id].startPoint;
      assert t.starts[j].uuid == id;
    }
    if k < startCut {
      assert t.starts[..startCut][k] == t.starts[k];
    }
  }

  /** The corrected range selection picks exactly the live slots that
      overlap [start, end). */
  lemma WindowSelectsOverlapping<T>(t: Table<T>, start: int, end: int, id: Uuid)
    requires TableInv(t) && id in t.intervals
    ensures t.intervals[id].startPoint in Window(t.starts, t.ends, start, end) <==>
      t.intervals[id].startPoint.position < end && t.intervals[id].endPoint.position > start
  {
    var startCut, endCut := CountBelow(t.starts, Probe(end, true)), CountAtMost(t.ends, Probe(start, false));
    FilterIdsMember(t.starts[..startCut], IdsFrom(t.ends, endCut), t.intervals[id].startPoint);
    assert t.intervals[id].startPoint.uuid == id;
    StartCutBefore(t, id, end);
    EndCutAfter(t, id, start);
  }

  /** Cutting the start list before the first start point at end keeps
      exactly the slots starting before end. */
  lemma StartCutBefore<T>(t: Table<T>, id: Uuid, end: int)
    requires TableInv(t) && id in t.intervals
    ensures t.intervals[id].startPoint in t.starts[..CountBelow(t.starts, Probe(end, true))]
      <==> t.intervals[id].startPoint.position < end
  {
    var sp := Probe(end, true);
    var startCut := CountBelow(t.starts, sp);
    LivePointIndices(t, id, startCut, 0);
    var k :| 0 <= k < |t.starts| && t.starts[k] == t.intervals[id].startPoint &&
      (t.intervals[id].startPoint in t.starts[..startCut] <==> k < startCut);
    RunBounds(t.starts, sp);
    CompareToIsRankOrder(t.starts[k], sp);
  }

  /** Cutting the end list past the last end point at start keeps the ids
      of exactly the slots ending after start. */
  lemma EndCutAfter<T>(t: Table<T>, id: Uuid, start: int)
    requires TableInv(t) && id in t.intervals
    ensures id in IdsFrom(t.ends, CountAtMost(t.ends, Probe(start, false))) <==> t.intervals[id].endPoint.position > start
  {
    var ep := Probe(start, false);
    var endCut := CountAtMost(t.ends, ep);
    LivePointIndices(t, id, 0, endCut);
    var m :| 0 <= m < |t.ends| && t.ends[m] == t.intervals[id].endPoint &&
      (id in IdsFrom(t.ends, endCut) <==> endCut <= m);
    RunBounds(t.ends, ep);
    CompareToIsRankOrder(t.ends[m], ep);
  }

  /** Whether the range query as written keeps the slot whose start point
      is at index k: its end lies at start or later, and it starts before
      end, or at end when a later start point is also at end. */
  ghost predicate KeptAsWritten<T>(t: Table<T>, k: nat, start: int, end: int)
    requires k < |t.starts| && t.starts[k].uuid in t.intervals
  {
    && t.intervals[t.starts[k].uuid].endPoint.position >= start
    && (|| t.starts[k].position < end
        || (t.starts[k].position == end && exists j :: k < j < |t.starts| && t.starts[j].position == end))
  }

  /** The range selection as written keeps the start point at index k
      exactly when KeptAsWritten says so. */
  lemma WindowAsWrittenSelects<T>(t: Table<T>, start: int, end: int, k: nat)
    requires TableInv(t) && k < |t.starts|
    ensures t.starts[k].uuid in t.intervals
    ensures t.starts[k] in WindowAsWritten(t.starts, t.ends, start, end) <==> KeptAsWritten(t, k, start, end)
  {
    StartsAreLive(t);
    var id := t.starts[k].uuid;
    var startCut, endCut := LastIndexOf(t.starts, Probe(end, true)), CountBelow(t.ends, Probe(start, false));
    RunBounds(t.starts, Probe(end, true));
    FilterIdsMember(t.starts[..startCut], IdsFrom(t.ends, endCut), t.starts[k]);
    assert t.starts[k] in t.starts[..startCut] <==> k < startCut by {
      ListHoldsIdOnce(t.starts, t.intervals, true, id);
      if k < startCut {
        assert t.starts[..startCut][k] == t.starts[k];
      }
      if t.starts[k] in t.starts[..startCut] {
        var j :| 0 <= j < startCut && t.starts[..startCut][j] == t.starts[k];
        assert t.starts[j].uuid == id;
      }
    }
    assert k < startCut <==> KeptStart(t.starts, k, end) by {
      StartCutAsWritten(t.starts, k, end);
    }
    assert id in IdsFrom(t.ends, endCut) <==> t.intervals[id].endPoint.position >= start by {
      EndCutAt(t, id, start);
    }
  }

  /** A live slot's id is among those of the end points from the first end
      point at start or later exactly when the slot ends at start or later. */
  lemma EndCutAt<T>(t: Table<T>, id: Uuid, start: int)
    requires TableInv(t) && id in t.intervals
    ensures CountBelow(t.ends, Probe(start, false)) <= |t.ends|
    ensures id in IdsFrom(t.ends, CountBelow(t.ends, Probe(start, false))) <==> t.intervals[id].endPoint.position >= start
  {
    var ep := Probe(start, false);
    var endCut := CountBelow(t.ends, ep);
    RunBounds(t.ends, ep);
    LivePointIndices(t, id, 0, endCut);
    var m :| 0 <= m < |t.ends| && t.ends[m] == t.intervals[id].endPoint &&
      (id in IdsFrom(t.ends, endCut) <==> endCut <= m);
    CompareToIsRankOrder(t.ends[m], ep);
  }

  /** The start-side condition of KeptAsWritten. */
  ghost predicate KeptStart(starts: seq<BoundaryPoint>, k: nat, end: int)
    requires k < |starts|
  {
    || starts[k].position < end
    || (starts[k].position == end && exists j :: k < j < |starts| && starts[j].position == end)
  }

  /** In a sorted list of start points, an index lies before the cut the
      range query makes at end exactly when its point starts before end, or
      at end with a later start point also at end. */
  lemma StartCutAsWritten(starts: seq<BoundaryPoint>, k: nat, end: int)
    requires Sorted(starts) && AllOfKind(starts, true) && k < |starts|
    ensures k < LastIndexOf(starts, Probe(end, true)) <==> KeptStart(starts, k, end)
  {
    var sp := Probe(end, true);
    RunBounds(starts, sp);
    forall i | 0 <= i < |starts|
      ensures starts[i].CompareTo(sp) == ComparePositions(starts[i].position, end)
    {
      CompareToIsRankOrder(starts[i], sp);
    }
    var lo, hi := CountBelow(starts, sp), CountAtMost(starts, sp);
    if lo < hi && starts[k].position == end {
      if k < hi - 1 {
        assert starts[hi - 1].position == end;
      }
    }
  }

  /** The grid of the range query as written: a live slot is in it exactly
      when KeptAsWritten holds for the index of its start point, nothing
      else is, and its rows are free of overlaps when every slot is proper. */
  lemma WindowAsWrittenGrid<T>(t: Table<T>, start: int, end: int)
    requires TableInv(t)
    ensures AllLive(t.starts, t.intervals)
    ensures AllLive(WindowAsWritten(t.starts, t.ends, start, end), t.intervals)
    ensures forall k :: 0 <= k < |t.starts| ==>
      (InGrid(Sweep(SlotsOf(WindowAsWritten(t.starts, t.ends, start, end), t.intervals)).rows, t.intervals[t.starts[k].uuid])
       <==> KeptAsWritten(t, k, start, end))
    ensures OnlyLive(Sweep(SlotsOf(WindowAsWritten(t.starts, t.ends, start, end), t.intervals)).rows, t.intervals)
    ensures AllProper(t.intervals) ==> RowsDisjoint(Sweep(SlotsOf(WindowAsWritten(t.starts, t.ends, start, end), t.intervals)).rows)
  {
    var cut, keep := LastIndexOf(t.starts, Probe(end, true)), IdsFrom(t.ends, CountBelow(t.ends, Probe(start, false)));
    StartsAreLive(t);
    SelectionGridOnlyLive(t, cut, keep);
    if AllProper(t.intervals) {
      SelectedRowsDisjoint(t, cut, keep);
    }
    forall k | 0 <= k < |t.starts|
      ensures InGrid(Sweep(SlotsOf(WindowAsWritten(t.starts, t.ends, start, end), t.intervals)).rows, t.intervals[t.starts[k].uuid])
        <==> KeptAsWritten(t, k, start, end)
    {
      WindowAsWrittenSelects(t, start, end, k);
      GridOfSelection(t, cut, keep, t.starts[k].uuid);
    }
  }

  /** The grid of the corrected range query holds exactly the live slots
      that overlap [start, end), and its rows are free of overlaps when every
      slot is proper. */
  lemma WindowGrid<T>(t: Table<T>, start: int, end: int)
    requires TableInv(t)
    ensures AllLive(Window(t.starts, t.ends, start, end), t.intervals)
    ensures forall id :: id in t.intervals ==>
      (InGrid(Sweep(SlotsOf(Window(t.starts, t.ends, start, end), t.intervals)).rows, t.intervals[id])
       <==> t.intervals[id].startPoint.position < end && t.intervals[id].endPoint.position > start)
    ensures OnlyLive(Sweep(SlotsOf(Window(t.starts, t.ends, start, end), t.intervals)).rows, t.intervals)
    ensures AllProper(t.intervals) ==> RowsDisjoint(Sweep(SlotsOf(Window(t.starts, t.ends, start, end), t.intervals)).rows)
  {
    var cut, keep := CountBelow(t.starts, Probe(end, true)), IdsFrom(t.ends, CountAtMost(t.ends, Probe(start, false)));
    SelectionGridOnlyLive(t, cut, keep);
    if AllProper(t.intervals) {
      SelectedRowsDisjoint(t, cut, keep);
    }
    forall id | id in t.intervals
      ensures InGrid(Sweep(SlotsOf(Window(t.starts, t.ends, start, end), t.intervals)).rows, t.intervals[id])
        <==> t.intervals[id].startPoint.position < end && t.intervals[id].endPoint.position > start
    {
      WindowSelectsOverlapping(t, start, end, id);
      GridOfSelection(t, cut, keep, id);
    }
  }

  /** The table after add(10, 12, 1) and then add(10, 14, 2) on an empty
      table, with ids 1 and 2. */
  function TwoAtTen(): Table<int> {
    Added(Added(Table([], [], map[]), 10, 12, 1, 1), 10, 14, 2, 2)
  }

  /** Both slots start at 10, yet the range query (0, 10) as written keeps
      the one added second and drops the one added first; the corrected
      selection keeps neither. */
  lemma WindowAsWrittenDependsOnAddOrder()
    ensures TwoAtTen().intervals[1].startPoint.position == 10 && TwoAtTen().intervals[2].startPoint.position == 10
    ensures Sorted(TwoAtTen().starts) && Sorted(TwoAtTen().ends)
    ensures WindowAsWritten(TwoAtTen().starts, TwoAtTen().ends, 0, 10) == [BoundaryPoint(10, true, 2)]
    ensures Window(TwoAtTen().starts, TwoAtTen().ends, 0, 10) == []
  {
    var t1 := Added(Table([], [], map[]), 10, 12, 1, 1);
    assert t1.starts == [BoundaryPoint(10, true, 1)];
    assert t1.ends == [BoundaryPoint(12, false, 1)];
    var t := TwoAtTen();
    assert CountBelow(t1.starts, BoundaryPoint(10, true, 2)) == 0;
    assert t.starts == [BoundaryPoint(10, true, 2), BoundaryPoint(10, true, 1)];
    assert LastIndexOf(t1.ends, BoundaryPoint(14, false, 2)) == 1;
    assert t.ends == [BoundaryPoint(12, false, 1), BoundaryPoint(14, false, 2)];
    assert LastIndexOf(t.starts, Probe(10, true)) == 1;
    assert CountBelow(t.ends, Probe(0, false)) == 0;
    assert IdsFrom(t.ends, 0) == {1, 2};
    assert t.starts[..1] == [BoundaryPoint(10, true, 2)];
    assert FilterIds([BoundaryPoint(10, true, 2)], {1, 2}) == [BoundaryPoint(10, true, 2)];
    assert WindowAsWritten(t.starts, t.ends, 0, 10) == FilterIds(t.starts[..1], IdsFrom(t.ends, 0));
    assert CountBelow(t.starts, Probe(10, true)) == 0;
    assert t.starts[..0] == [];
  }

  /** The table after add(0, 5, 1) on an empty table, with id 1. */
  function EndsAtFive(): Table<int> {
    Added(Table([], [], map[]), 0, 5, 1, 1)
  }

  /** The slot [0, 5) does not overlap [5, 10), yet the range query (5, 10)
      as written keeps it; the corrected selection does not. */
  lemma WindowAsWrittenKeepsTouching()
    ensures !Overlaps(EndsAtFive().intervals[1], TimeSlot(Probe(5, true), Probe(10, false), 0))
    ensures Sorted(EndsAtFive().starts) && Sorted(EndsAtFive().ends)
    ensures WindowAsWritten(EndsAtFive().starts, EndsAtFive().ends, 5, 10) == [BoundaryPoint(0, true, 1)]
    ensures Window(EndsAtFive().starts, EndsAtFive().ends, 5, 10) == []
  {
    var t := EndsAtFive();
    assert t.starts == [BoundaryPoint(0, true, 1)];
    assert t.ends == [BoundaryPoint(5, false, 1)];
    assert LastIndexOf(t.starts, Probe(10, true)) == 1;
    assert CountBelow(t.ends, Probe(5, false)) == 0;
    assert IdsFrom(t.ends, 0) == {1};
    assert t.starts[..1] == t.starts;
    assert FilterIds(t.starts, {1}) == t.starts;
    assert WindowAsWritten(t.starts, t.ends, 5, 10) == FilterIds(t.starts[..1], IdsFrom(t.ends, 0));
    assert CountAtMost(t.ends, Probe(5, false)) == 1;
    assert IdsFrom(t.ends, 1) == {};
    assert CountBelow(t.starts, Probe(10, true)) == 1;
    assert FilterIds(t.starts, {}) == [];
    assert Window(t.starts, t.ends, 5, 10) == FilterIds(t.starts[..1], IdsFrom(t.ends, 1));
  }

  /** The table after add(5, 5, 1), add(5, 9, 2) and add(6, 8, 3) on an
      empty table, with ids 1, 2 and 3. */
  function WithEmptySlot(): Table<int> {
    Added(Added(Added(Table([], [], map[]), 5, 5, 1, 1), 5, 9, 2, 2), 6, 8, 3, 3)
  }

  /** The start list and the slots of WithEmptySlot: the start point of
      [5, 9), added second, goes ahead of that of [5, 5). */
  lemma WithEmptySlotState()
    ensures WithEmptySlot().starts == [BoundaryPoint(5, true, 2), BoundaryPoint(5, true, 1), BoundaryPoint(6, true, 3)]
    ensures WithEmptySlot().intervals.Keys == {1, 2, 3}
    ensures WithEmptySlot().intervals[1] == TimeSlot(BoundaryPoint(5, true, 1), BoundaryPoint(5, false, 1), 1)
    ensures WithEmptySlot().intervals[2] == TimeSlot(BoundaryPoint(5, true, 2), BoundaryPoint(9, false, 2), 2)
    ensures WithEmptySlot().intervals[3] == TimeSlot(BoundaryPoint(6, true, 3), BoundaryPoint(8, false, 3), 3)
  {
    var t1 := Added(Table([], [], map[]), 5, 5, 1, 1);
    assert t1.starts == [BoundaryPoint(5, true, 1)];
    var t2 := Added(t1, 5, 9, 2, 2);
    assert CountBelow(t1.starts, BoundaryPoint(5, true, 2)) == 0;
    assert t2.starts == [BoundaryPoint(5, true, 2), BoundaryPoint(5, true, 1)];
    assert CountBelow(t2.starts, BoundaryPoint(6, true, 3)) == 2;
  }

  /** The sweep over [5, 9), [5, 5), [6, 8) in that order puts all three in
      one row: [5, 5) does not overlap [5, 9), and [6, 8) does not overlap
      [5, 5), the last slot of the row. */
  lemma SweepPastEmptySlot(a: TimeSlot<int>, b: TimeSlot<int>, c: TimeSlot<int>)
    requires a == TimeSlot(BoundaryPoint(5, true, 1), BoundaryPoint(5, false, 1), 1)
    requires b == TimeSlot(BoundaryPoint(5, true, 2), BoundaryPoint(9, false, 2), 2)
    requires c == TimeSlot(BoundaryPoint(6, true, 3), BoundaryPoint(8, false, 3), 3)
    ensures Sweep([b, a, c]).rows == [[b, a, c]]
  {
    assert Sweep([b]).rows == [[b]] && Sweep([b]).prev == [b] by {
      assert [b][..0] == [];
    }
    assert Sweep([b, a]).rows == [[b, a]] && Sweep([b, a]).prev == [a] by {
      assert [b, a][..1] == [b];
      assert FirstFit([b], a) == 0;
      assert [b] + [a] == [b, a];
      assert [[b]][0 := [b, a]] == [[b, a]];
      assert [b][0 := a] == [a];
    }
    assert [b, a, c][..2] == [b, a];
    assert FirstFit([a], c) == 0;
    assert [b, a] + [c] == [b, a, c];
    assert [[b, a]][0 := [b, a, c]] == [[b, a, c]];
  }

  /** With the empty slot [5, 5) in the table, the full grid puts [5, 9) and
      [6, 8) in the same row although they overlap: the empty slot, placed
      between them, overlaps neither and lets [6, 8) into the row. */
  lemma EmptySlotBreaksRows()
    ensures !AllProper(WithEmptySlot().intervals)
    ensures AllLive(WithEmptySlot().starts, WithEmptySlot().intervals)
    ensures Sweep(SlotsOf(WithEmptySlot().starts, WithEmptySlot().intervals)).rows
      == [[WithEmptySlot().intervals[2], WithEmptySlot().intervals[1], WithEmptySlot().intervals[3]]]
    ensures Overlaps(WithEmptySlot().intervals[2], WithEmptySlot().intervals[3])
    ensures !RowsDisjoint(Sweep(SlotsOf(WithEmptySlot().starts, WithEmptySlot().intervals)).rows)
  {
    WithEmptySlotState();
    var t := WithEmptySlot();
    var a, b, c := t.intervals[1], t.intervals[2], t.intervals[3];
    assert SlotsOf(t.starts, t.intervals) == [b, a, c];
    SweepPastEmptySlot(a, b, c);
    var rows := Sweep([b, a, c]).rows;
    assert rows[0][0] == b && rows[0][2] == c;
  }
}
