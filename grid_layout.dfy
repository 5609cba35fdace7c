/** The grid layout sweep: slots are taken in start-point order and each goes
    in the lowest row whose most recently placed slot it does not overlap. */
module GridLayout {
  import opened BoundaryPoints
  import opened TimeSlots

  /** The row a slot goes in, given the last slot placed in each row so far:
      the first row whose last slot it does not overlap, or a new row. */
  function FirstFit<T>(prev: seq<TimeSlot<T>>, s: TimeSlot<T>): (d: nat)
    ensures d <= |prev|
    ensures d < |prev| ==> !Overlaps(s, prev[d])
    ensures forall e :: 0 <= e < d ==> Overlaps(s, prev[e])
  {
    if prev == [] || !Overlaps(s, prev[0]) then 0
    else 1 + FirstFit(prev[1..], s)
  }

  /** The state of the sweep: the rows built so far, the last slot placed in
      each row, and the row each slot was given. */
  datatype Layout<T> = Layout(rows: seq<seq<TimeSlot<T>>>, prev: seq<TimeSlot<T>>, depths: seq<nat>)

  /** The sweep over slots in the order given. */
  function Sweep<T>(slots: seq<TimeSlot<T>>): (l: Layout<T>)
    ensures |l.rows| == |l.prev| && |l.depths| == |slots|
  {
    if slots == [] then Layout([], [], [])
    else
      var l0 := Sweep(slots[..|slots| - 1]);
      var s := slots[|slots| - 1];
      var d := FirstFit(l0.prev, s);
      if d == |l0.prev| then Layout(l0.rows + [[s]], l0.prev + [s], l0.depths + [d])
      else Layout(l0.rows[d := l0.rows[d] + [s]], l0.prev[d := s], l0.depths + [d])
  }

  /** The slots given depth d, in their original order. */
  function Pick<T>(slots: seq<TimeSlot<T>>, depths: seq<nat>, d: nat): seq<TimeSlot<T>>
    requires |depths| == |slots|
  {
    if slots == [] then []
    else
      Pick(slots[..|slots| - 1], depths[..|depths| - 1], d)
        + (if depths[|depths| - 1] == d then [slots[|slots| - 1]] else [])
  }

  /** The number of slots in all rows together. */
  function TotalSize<T>(rows: seq<seq<TimeSlot<T>>>): nat {
    if rows == [] then 0 else |rows[0]| + TotalSize(rows[1..])
  }

  lemma {:induction false} TotalSizeAppend<T>(rows: seq<seq<TimeSlot<T>>>, row: seq<TimeSlot<T>>)
    ensures TotalSize(rows + [row]) == TotalSize(rows) + |row|
  {
    if rows != [] {
      assert (rows + [row])[1..] == rows[1..] + [row];
      TotalSizeAppend(rows[1..], row);
    }
  }

  lemma {:induction false} TotalSizeGrow<T>(rows: seq<seq<TimeSlot<T>>>, d: nat, s: TimeSlot<T>)
    requires d < |rows|
    ensures TotalSize(rows[d := rows[d] + [s]]) == TotalSize(rows) + 1
  {
    if d > 0 {
      assert rows[d := rows[d] + [s]][1..] == rows[1..][d - 1 := rows[1..][d - 1] + [s]];
      TotalSizeGrow(rows[1..], d - 1, s);
    }
  }

  /** Every slot is given an existing row, and row d holds exactly the
      slots given depth d, in their original order. */
  ghost predicate RowsArePicks<T>(slots: seq<TimeSlot<T>>, l: Layout<T>)
    requires |l.depths| == |slots|
  {
    && (forall i :: 0 <= i < |slots| ==> l.depths[i] < |l.rows|)
    && (forall d :: 0 <= d < |l.rows| ==> l.rows[d] == Pick(slots, l.depths, d))
  }

  lemma {:induction false} SweepRowsArePicks<T>(slots: seq<TimeSlot<T>>)
    ensures RowsArePicks(slots, Sweep(slots))
  {
    if slots != [] {
      var n := |slots| - 1;
      var init := slots[..n];
      SweepRowsArePicks(init);
      var l0 := Sweep(init);
      var l := Sweep(slots);
      var s := slots[n];
      var d := FirstFit(l0.prev, s);
      assert l.depths == l0.depths + [d];
      assert l.depths[..|l.depths| - 1] == l0.depths;
      forall e | 0 <= e < |l.rows|
        ensures l.rows[e] == Pick(slots, l.depths, e)
      {
        if e < |l0.rows| {
          assert Pick(init, l0.depths, e) == l0.rows[e];
        } else {
          PickAbsent(init, l0.depths, e);
        }
      }
    }
  }

  /** No row is empty, and the slot remembered for a row is its last one. */
  ghost predicate RowsNonEmpty<T>(l: Layout<T>)
    requires |l.rows| == |l.prev|
  {
    forall d :: 0 <= d < |l.rows| ==> |l.rows[d]| > 0 && l.prev[d] == l.rows[d][|l.rows[d]| - 1]
  }

  lemma {:induction false} SweepRowsNonEmpty<T>(slots: seq<TimeSlot<T>>)
    ensures RowsNonEmpty(Sweep(slots))
  {
    if slots != [] {
      SweepRowsNonEmpty(slots[..|slots| - 1]);
    }
  }

  /** The rows together hold as many slots as were swept. */
  lemma {:induction false} SweepTotal<T>(slots: seq<TimeSlot<T>>)
    ensures TotalSize(Sweep(slots).rows) == |slots|
  {
    if slots != [] {
      var init := slots[..|slots| - 1];
      SweepTotal(init);
      var l0 := Sweep(init);
      var s := slots[|slots| - 1];
      var d := FirstFit(l0.prev, s);
      if d == |l0.prev| {
        TotalSizeAppend(l0.rows, [s]);
      } else {
        TotalSizeGrow(l0.rows, d, s);
      }
    }
  }

  /** The slots given depth d include every slot given depth d. */
  lemma {:induction false} PickContains<T>(slots: seq<TimeSlot<T>>, depths: seq<nat>, i: nat)
    requires |depths| == |slots| && i < |slots|
    ensures slots[i] in Pick(slots, depths, depths[i])
  {
    var n := |slots| - 1;
    if i < n {
      PickContains(slots[..n], depths[..n], i);
    }
  }

  /** Every swept slot is in the row it was given. */
  lemma SweepPlacesEvery<T>(slots: seq<TimeSlot<T>>, i: nat)
    requires i < |slots|
    ensures Sweep(slots).depths[i] < |Sweep(slots).rows|
    ensures slots[i] in Sweep(slots).rows[Sweep(slots).depths[i]]
  {
    SweepRowsArePicks(slots);
    PickContains(slots, Sweep(slots).depths, i);
  }

  /** The slot s is in some row of the grid. */
  ghost predicate InGrid<T>(rows: seq<seq<TimeSlot<T>>>, s: TimeSlot<T>) {
    exists d :: 0 <= d < |rows| && s in rows[d]
  }

  /** Picking takes slots of the sequence only. */
  lemma {:induction false} PickFrom<T>(slots: seq<TimeSlot<T>>, depths: seq<nat>, d: nat, x: TimeSlot<T>)
    requires |depths| == |slots| && x in Pick(slots, depths, d)
    ensures x in slots
  {
    var n := |slots| - 1;
    if x != slots[n] {
      PickFrom(slots[..n], depths[..n], d, x);
      assert slots[..n] <= slots;
    }
  }

  /** A slot is in the grid of the sweep exactly when it was swept. */
  lemma SweepHoldsExactly<T>(slots: seq<TimeSlot<T>>, x: TimeSlot<T>)
    ensures InGrid(Sweep(slots).rows, x) <==> x in slots
  {
    SweepRowsArePicks(slots);
    if InGrid(Sweep(slots).rows, x) {
      var d :| 0 <= d < |Sweep(slots).rows| && x in Sweep(slots).rows[d];
      PickFrom(slots, Sweep(slots).depths, d, x);
    }
    if x in slots {
      var i :| 0 <= i < |slots| && slots[i] == x;
      SweepPlacesEvery(slots, i);
    }
  }

  /** A depth no slot was given picks nothing. */
  lemma {:induction false} PickAbsent<T>(slots: seq<TimeSlot<T>>, depths: seq<nat>, d: nat)
    requires |depths| == |slots|
    requires forall i :: 0 <= i < |depths| ==> depths[i] != d
    ensures Pick(slots, depths, d) == []
  {
    if slots != [] {
      PickAbsent(slots[..|slots| - 1], depths[..|depths| - 1], d);
    }
  }

  /** The sweep of a prefix is the beginning of the sweep of the whole. */
  lemma {:induction false} SweepPrefix<T>(slots: seq<TimeSlot<T>>, k: nat)
    requires k <= |slots|
    ensures Sweep(slots).depths[..k] == Sweep(slots[..k]).depths
    decreases |slots|
  {
    if k < |slots| {
      var init := slots[..|slots| - 1];
      SweepPrefix(init, k);
      assert init[..k] == slots[..k];
    } else {
      assert slots[..k] == slots;
    }
  }

  /** Placement: every slot is put in the lowest row whose most recently
      placed slot, at the moment it is placed, it does not overlap; a new
      row is opened only when it overlaps the last slot of every row. */
  lemma SweepPlacesByFirstFit<T>(slots: seq<TimeSlot<T>>, i: nat)
    requires i < |slots|
    ensures Sweep(slots).depths[i] == FirstFit(Sweep(slots[..i]).prev, slots[i])
    ensures Sweep(slots).depths[i] <= |Sweep(slots[..i]).rows|
  {
    SweepPrefix(slots, i + 1);
    var p := slots[..i + 1];
    assert p[..|p| - 1] == slots[..i];
    assert Sweep(slots).depths[i] == Sweep(slots).depths[..i + 1][i];
  }

  /** Slot i, placed at depth d, lies at its start inside the last slot of
      each of the d rows below it at that moment, and those are earlier
      slots of the sequence. */
  ghost predicate InsideRowsBelow<T>(slots: seq<TimeSlot<T>>, i: nat)
    requires i < |slots|
  {
    var l := Sweep(slots[..i]);
    Sweep(slots).depths[i] <= |l.prev| &&
    forall e :: 0 <= e < Sweep(slots).depths[i] ==>
      l.prev[e] in l.rows[e] && l.prev[e] in slots[..i] &&
      l.prev[e].startPoint.position <= slots[i].startPoint.position < l.prev[e].endPoint.position
  }

  /** Why the sweep uses no more rows than it must: when the slots come in
      start order, a slot placed at depth d lies inside the last slot of each
      of the d rows below it. Those d slots and the slot itself share a
      point, so no overlap-free layout can give them fewer than d + 1 rows. */
  lemma DepthIsClique<T>(slots: seq<TimeSlot<T>>, i: nat)
    requires StartsSorted(slots) && i < |slots|
    ensures InsideRowsBelow(slots, i)
  {
    SweepPlacesByFirstFit(slots, i);
    var l := Sweep(slots[..i]);
    SweepRowsNonEmpty(slots[..i]);
    forall e | 0 <= e < Sweep(slots).depths[i]
      ensures l.prev[e] in l.rows[e] && l.prev[e] in slots[..i]
      ensures l.prev[e].startPoint.position <= slots[i].startPoint.position < l.prev[e].endPoint.position
    {
      assert l.prev[e] in l.rows[e];
      SweepHoldsExactly(slots[..i], l.prev[e]);
      var j :| 0 <= j < i && slots[..i][j] == l.prev[e];
      assert slots[j] == l.prev[e];
    }
  }

  /** The last row of the sweep was opened by some slot, whose depth is the
      number of rows less one. */
  lemma {:induction false} SweepLastRowOpened<T>(slots: seq<TimeSlot<T>>)
    ensures |Sweep(slots).rows| > 0 ==>
      exists i :: 0 <= i < |slots| && Sweep(slots).depths[i] == |Sweep(slots).rows| - 1
  {
    if slots != [] {
      var n := |slots| - 1;
      var l0 := Sweep(slots[..n]);
      SweepLastRowOpened(slots[..n]);
      var d := FirstFit(l0.prev, slots[n]);
      if d == |l0.prev| {
        assert Sweep(slots).depths[n] == |Sweep(slots).rows| - 1;
      } else if |l0.rows| > 0 {
        var i :| 0 <= i < n && l0.depths[i] == |l0.rows| - 1;
        assert Sweep(slots).depths[i] == l0.depths[i];
      }
    }
  }

  /** The number of rows of the sweep over slots in start order is the size
      of a set of slots that share one point: the slot that opened the last
      row, at its start, and the last slots of the rows below it then. */
  lemma RowCountIsClique<T>(slots: seq<TimeSlot<T>>)
    requires StartsSorted(slots) && slots != []
    ensures exists i :: 0 <= i < |slots| && Sweep(slots).depths[i] + 1 == |Sweep(slots).rows| && InsideRowsBelow(slots, i)
  {
    SweepPlacesEvery(slots, 0);
    SweepLastRowOpened(slots);
    var i :| 0 <= i < |slots| && Sweep(slots).depths[i] == |Sweep(slots).rows| - 1;
    DepthIsClique(slots, i);
  }

  /** Start positions never decrease along the sequence. */
  ghost predicate StartsSorted<T>(slots: seq<TimeSlot<T>>) {
    forall i, j :: 0 <= i < j < |slots| ==> slots[i].startPoint.position <= slots[j].startPoint.position
  }

  /** Every slot ends after it starts. */
  ghost predicate Proper<T>(slots: seq<TimeSlot<T>>) {
    forall i :: 0 <= i < |slots| ==> slots[i].startPoint.position < slots[i].endPoint.position
  }

  /** Each slot of the row ends no later than the next one starts. */
  ghost predicate Chained<T>(row: seq<TimeSlot<T>>) {
    forall a :: 0 <= a < |row| - 1 ==> row[a].endPoint.position <= row[a + 1].startPoint.position
  }

  /** Every row is chained and holds only slots of the sequence. */
  ghost predicate RowsChained<T>(slots: seq<TimeSlot<T>>, l: Layout<T>) {
    forall d :: 0 <= d < |l.rows| ==> Chained(l.rows[d]) && forall x :: x in l.rows[d] ==> x in slots
  }

  lemma {:induction false} SweepRowsChained<T>(slots: seq<TimeSlot<T>>)
    requires StartsSorted(slots) && Proper(slots)
    ensures RowsChained(slots, Sweep(slots))
  {
    if slots != [] {
      var n := |slots| - 1;
      var init := slots[..n];
      assert StartsSorted(init) && Proper(init);
      SweepRowsChained(init);
      SweepRowsNonEmpty(init);
      var l0 := Sweep(init);
      var l := Sweep(slots);
      var s := slots[n];
      var d := FirstFit(l0.prev, s);
      forall e | 0 <= e < |l.rows|
        ensures Chained(l.rows[e]) && forall x :: x in l.rows[e] ==> x in slots
      {
        if e < |l0.rows| && e != d {
          assert l.rows[e] == l0.rows[e];
        } else if e == d && d < |l0.rows| {
          var row := l0.rows[d];
          assert l.rows[e] == row + [s];
          assert row[|row| - 1].endPoint.position <= s.startPoint.position by {
            var k := l0.prev[d];
            assert k == row[|row| - 1];
            assert k in init;
            var j :| 0 <= j < n && init[j] == k;
            assert slots[j] == k;
          }
          ChainedAppend(row, s);
          forall x | x in row + [s]
            ensures x in slots
          {
            if x != s {
              assert x in row;
            }
          }
        } else {
          assert l.rows[e] == [s];
        }
      }
    }
  }

  /** Appending a slot that starts no earlier than the row's last slot ends
      keeps the row chained. */
  lemma ChainedAppend<T>(row: seq<TimeSlot<T>>, s: TimeSlot<T>)
    requires Chained(row) && row != [] && row[|row| - 1].endPoint.position <= s.startPoint.position
    ensures Chained(row + [s])
  {
    var r := row + [s];
    forall a | 0 <= a < |r| - 1
      ensures r[a].endPoint.position <= r[a + 1].startPoint.position
    {
      if a + 1 < |row| {
        assert r[a] == row[a] && r[a + 1] == row[a + 1];
      }
    }
  }

  /** In a chained row of slots that end after they start, every slot ends
      no later than any later slot of the row starts. */
  lemma {:induction false} ChainedApart<T>(row: seq<TimeSlot<T>>, a: nat, b: nat)
    requires Chained(row) && Proper(row) && a < b < |row|
    ensures row[a].endPoint.position <= row[b].startPoint.position
    decreases b - a
  {
    if a + 1 < b {
      ChainedApart(row, a + 1, b);
    }
  }

  /** No two slots of the same row overlap, in either order. */
  ghost predicate RowsDisjoint<T>(rows: seq<seq<TimeSlot<T>>>) {
    forall d, a, b :: 0 <= d < |rows| && 0 <= a < b < |rows[d]| ==>
      !Overlaps(rows[d][a], rows[d][b]) && !Overlaps(rows[d][b], rows[d][a])
  }

  /** No two slots in the same row overlap, when the slots come in start
      order and each ends after it starts. */
  lemma SweepRowsDisjoint<T>(slots: seq<TimeSlot<T>>)
    requires StartsSorted(slots) && Proper(slots)
    ensures RowsDisjoint(Sweep(slots).rows)
  {
    var rows := Sweep(slots).rows;
    SweepRowsChained(slots);
    assert RowsChained(slots, Sweep(slots));
    forall d, a, b | 0 <= d < |rows| && 0 <= a < b < |rows[d]|
      ensures !Overlaps(rows[d][a], rows[d][b]) && !Overlaps(rows[d][b], rows[d][a])
    {
      var row := rows[d];
      assert Proper(row) by {
        forall c | 0 <= c < |row|
          ensures row[c].startPoint.position < row[c].endPoint.position
        {
          assert row[c] in slots;
        }
      }
      ChainedApart(row, a, b);
    }
  }

  /** The slots that the start points name, in the same order. */
  function SlotsOf<T>(points: seq<BoundaryPoint>, intervals: map<Uuid, TimeSlot<T>>): (r: seq<TimeSlot<T>>)
    requires forall i :: 0 <= i < |points| ==> points[i].uuid in intervals
    ensures |r| == |points|
  {
    seq(|points|, i requires 0 <= i < |points| => intervals[points[i].uuid])
  }

  /** The depth search of the layout iterator: walks the rows upwards while
      the slot overlaps the last slot placed in the row. */
  method FindDepth<T>(prev: seq<TimeSlot<T>>, startPosition: int, next: TimeSlot<T>) returns (depth: nat)
    requires startPosition == next.startPoint.position
    ensures depth == FirstFit(prev, next)
  {
    var endPoint := next.endPoint;
    depth := 0;
    while depth < |prev|
      && startPosition < prev[depth].endPoint.position
      && endPoint.position > prev[depth].startPoint.position
      invariant 0 <= depth <= |prev|
      invariant forall e :: 0 <= e < depth ==> Overlaps(next, prev[e])
    {
      depth := depth + 1;
    }
  }

  /** Appends a slot to the row at the given depth, first opening rows until
      that depth exists. */
  method AppendAtDepth<T>(grid: seq<seq<TimeSlot<T>>>, depth: nat, slot: TimeSlot<T>)
    returns (out: seq<seq<TimeSlot<T>>>)
    requires depth <= |grid|
    ensures depth == |grid| ==> out == grid + [[slot]]
    ensures depth < |grid| ==> out == grid[depth := grid[depth] + [slot]]
  {
    out := grid;
    while |out| <= depth
      invariant |grid| <= |out| <= if depth < |grid| then |grid| else depth + 1
      invariant out[..|grid|] == grid
      invariant forall r :: |grid| <= r < |out| ==> out[r] == []
    {
      out := out + [[]];
    }
    assert depth == |grid| ==> out == grid + [[]];
    assert depth < |grid| ==> out == grid;
    out := out[depth := out[depth] + [slot]];
    if depth == |grid| {
      assert [] + [slot] == [slot];
      assert out == grid + [[slot]];
    }
  }

  /** Drains the layout iterator over the given start points into rows: each
      slot is placed at the depth the search finds, then appended to its
      row, a new row being opened when the depth is one past the last. */
  method DrainAsGrid<T>(points: seq<BoundaryPoint>, intervals: map<Uuid, TimeSlot<T>>)
    returns (out: seq<seq<TimeSlot<T>>>)
    requires forall i :: 0 <= i < |points| ==>
      points[i].uuid in intervals && intervals[points[i].uuid].startPoint.position == points[i].position
    ensures out == Sweep(SlotsOf(points, intervals)).rows
  {
    ghost var slots := SlotsOf(points, intervals);
    out := [];
    var prev: seq<TimeSlot<T>> := [];
    var index := 0;
    while index < |points|
      invariant 0 <= index <= |points|
      invariant out == Sweep(slots[..index]).rows
      invariant prev == Sweep(slots[..index]).prev
    {
      var startPoint := points[index];
      var next := intervals[startPoint.uuid];
      var depth := FindDepth(prev, startPoint.position, next);
      ghost var l0 := Sweep(slots[..index]);
      assert slots[..index + 1][..index] == slots[..index];
      assert slots[..index + 1][index] == next;
      ghost var l1 := Sweep(slots[..index + 1]);
      assert l1.rows == if depth == |l0.prev| then l0.rows + [[next]] else l0.rows[depth := l0.rows[depth] + [next]];
      assert l1.prev == if depth == |l0.prev| then l0.prev + [next] else l0.prev[depth := next];
      if |prev| <= depth {
        prev := prev + [next];
      } else {
        prev := prev[depth := next];
      }
      out := AppendAtDepth(out, depth, next);
      index := index + 1;
    }
    assert slots[..index] == slots;
  }
}
