# TimeSlotTable in Dafny

A model of the interval index `TimeSlotTable<T>` of the employee-rostering
shared module. The table keeps time slots in three places at once:

- a sorted list of start boundary points;
- a sorted list of end boundary points;
- a map from slot id to slot.

It adds, looks up, updates and removes slots. Removal comes in three forms:
by value, by id and by position. It also lays the slots out as a grid of
rows. Slots are taken in start order, and each goes in the lowest row whose
most recently placed slot it does not overlap. A range variant lays out only
the slots the range query selects.

Modules, one file each:

- `BoundaryPoints` (`boundary_points.dfy`): the boundary point, its
  `equals` and `compareTo`, and a reference order (`Rank`) that
  `compareTo` is proved to follow.
- `PointLists` (`point_lists.dfy`): sorted point lists, and the counts of
  points below and at-or-below a key that delimit a run of equal points.
  Also the library binary search, insertion and removal at an index, the
  id filter of the range query, and the two backward scans of the removals.
- `TimeSlots` (`time_slots.dfy`): the slot value and the overlap test of
  the layout.
- `GridLayout` (`grid_layout.dfy`): the layout sweep as a function
  (`Sweep`) and its properties. The drain loop of the layout iterator
  (`DrainAsGrid`) is proved to compute it.
- `TableInvariant` (`table_invariant.dfy`): the consistency invariant of
  the three collections. It includes the table state as a value with the
  effect of add, remove and update on it, and proofs that each keeps the
  invariant.
- `TableQueries` (`table_queries.dfy`): what the two grid queries return;
  the range selection as the code makes it and as evidently intended.
- `TimeSlotTables` (`time_slot_table.dfy`): the table as a class. Its
  fields are the two lists and the map. Its methods are the source's
  operations, each proved against the value-level functions above.

## Model

Source paths are relative to the repository root.

| member | source | states |
|---|---|---|
| BoundaryPoints.BoundaryPoint.Equals | optashift-employee-rostering-shared/src/main/java/org/optaplanner/openshift/employeerostering/shared/timeslot/TimeSlotTable.java:326-333 | Two points are equal exactly when they have the same rank: the same position and the same kind, whatever their ids. |
| BoundaryPoints.BoundaryPoint.CompareTo | optashift-employee-rostering-shared/src/main/java/org/optaplanner/openshift/employeerostering/shared/timeslot/TimeSlotTable.java:340-354 | The comparison is the comparison of ranks (position first, a start before an end at the same position), and it is zero exactly when the points are equal. |
| BoundaryPoints.CompareToIsRankOrder | optashift-employee-rostering-shared/src/main/java/org/optaplanner/openshift/employeerostering/shared/timeslot/TimeSlotTable.java:326-354 | `compareTo` orders by position, and at equal positions a start point comes before an end point. It is zero exactly when `equals` holds, it is antisymmetric, and it never reads the id. |
| BoundaryPoints.CompareToTransitive | optashift-employee-rostering-shared/src/main/java/org/optaplanner/openshift/employeerostering/shared/timeslot/TimeSlotTable.java:340-354 | `compareTo` is transitive, so it is a total preorder on points. |
| PointLists.RunBounds | optashift-employee-rostering-shared/src/main/java/org/optaplanner/openshift/employeerostering/shared/timeslot/TimeSlotTable.java:37-59 | In a sorted list, the points below a key come first, then the run of points equal to it, then the points above it. |
| PointLists.BinarySearch | optashift-employee-rostering-shared/src/main/java/org/optaplanner/openshift/employeerostering/shared/timeslot/TimeSlotTable.java:66-68 | The library search returns the index of some point equal to the key. When there is none, it returns minus one minus the insertion point. |
| PointLists.InsertAtKeepsSorted | optashift-employee-rostering-shared/src/main/java/org/optaplanner/openshift/employeerostering/shared/timeslot/TimeSlotTable.java:66-69 | Inserting a point between everything at or below it and everything at or above it keeps the list sorted. The list grows by one, with the point at that index. |
| PointLists.InsertAtMembers | optashift-employee-rostering-shared/src/main/java/org/optaplanner/openshift/employeerostering/shared/timeslot/TimeSlotTable.java:67-69 | After an insertion the list holds the new point and exactly the old points. |
| PointLists.InsertThenRemove | optashift-employee-rostering-shared/src/main/java/org/optaplanner/openshift/employeerostering/shared/timeslot/TimeSlotTable.java:67-69 | Removing the points of a fresh id after inserting its point gives back the list. |
| PointLists.RemoveAtKeeps | optashift-employee-rostering-shared/src/main/java/org/optaplanner/openshift/employeerostering/shared/timeslot/TimeSlotTable.java:105-106 | Removing at an index shortens the list by one and shifts the later points down. It keeps the list sorted and its ids distinct. |
| PointLists.RemoveAtMembers | optashift-employee-rostering-shared/src/main/java/org/optaplanner/openshift/employeerostering/shared/timeslot/TimeSlotTable.java:105-106 | Removing at an index keeps every point other than the one removed. |
| PointLists.WithoutIdAt | optashift-employee-rostering-shared/src/main/java/org/optaplanner/openshift/employeerostering/shared/timeslot/TimeSlotTable.java:96-106 | In a list with distinct ids, removing at the index of a point is removing that point's id. |
| PointLists.WithoutIdAbsent | optashift-employee-rostering-shared/src/main/java/org/optaplanner/openshift/employeerostering/shared/timeslot/TimeSlotTable.java:104-106 | Removing an id the list does not hold changes nothing. |
| PointLists.LastIndexOfSplits | optashift-employee-rostering-shared/src/main/java/org/optaplanner/openshift/employeerostering/shared/timeslot/TimeSlotTable.java:68-69 | The index getLastIndexOf yields splits the list into points at or below the key and points at or above it, so inserting there keeps it sorted. |
| PointLists.NoneEqualSameCounts | optashift-employee-rostering-shared/src/main/java/org/optaplanner/openshift/employeerostering/shared/timeslot/TimeSlotTable.java:50-52 | When no point equals the key, the insertion point is both the first and the last index of the run. |
| PointLists.LastIndexOfCovers | optashift-employee-rostering-shared/src/main/java/org/optaplanner/openshift/employeerostering/shared/timeslot/TimeSlotTable.java:93-94 | When some point equals the key, the last index of its run is an equal point at or after every equal point. |
| PointLists.PastLastIndexOf | optashift-employee-rostering-shared/src/main/java/org/optaplanner/openshift/employeerostering/shared/timeslot/TimeSlotTable.java:49-59 | Stepping one past the last index of a non-empty run gives the number of points at or below the key. |
| PointLists.FilterIds | optashift-employee-rostering-shared/src/main/java/org/optaplanner/openshift/employeerostering/shared/timeslot/TimeSlotTable.java:171-172 | Every point the filter keeps is a point of the list whose id is in the set; FilterIdsMember and FilterIdsSorted give the converse and the order. |
| PointLists.FilterIdsSorted | optashift-employee-rostering-shared/src/main/java/org/optaplanner/openshift/employeerostering/shared/timeslot/TimeSlotTable.java:170-171 | Filtering a sorted list by id keeps it sorted. |
| PointLists.FilterIdsMember | optashift-employee-rostering-shared/src/main/java/org/optaplanner/openshift/employeerostering/shared/timeslot/TimeSlotTable.java:170-171 | A point survives the filter exactly when it is in the list and its id is in the kept set. |
| PointLists.ScanBackToId | optashift-employee-rostering-shared/src/main/java/org/optaplanner/openshift/employeerostering/shared/timeslot/TimeSlotTable.java:96-102 | The backward scan stops at the nearest point carrying the id at or below its starting index. It passes only points of other ids. |
| PointLists.ScanRunForId | optashift-employee-rostering-shared/src/main/java/org/optaplanner/openshift/employeerostering/shared/timeslot/TimeSlotTable.java:135-141 | The inner scan of removal by position walks down the run of equal end points. It either finds the point of the id or stops below the run, having passed only points of other ids. |
| GridLayout.FirstFit | optashift-employee-rostering-shared/src/main/java/org/optaplanner/openshift/employeerostering/shared/timeslot/TimeSlotTable.java:226-230 | The depth of a slot is the first row whose last slot it does not overlap, or a new row. It overlaps the last slot of every row below. |
| GridLayout.Sweep | optashift-employee-rostering-shared/src/main/java/org/optaplanner/openshift/employeerostering/shared/timeslot/TimeSlotTable.java:197-243 | The layout as a function of the slots in order: one depth per slot, and one last slot per row. What the rows hold is proved in the lemmas below. |
| GridLayout.SweepRowsArePicks | optashift-employee-rostering-shared/src/main/java/org/optaplanner/openshift/employeerostering/shared/timeslot/TimeSlotTable.java:197-209 | Every slot is given an existing row. Row d holds exactly the slots given depth d, in start-point order. |
| GridLayout.SweepRowsNonEmpty | optashift-employee-rostering-shared/src/main/java/org/optaplanner/openshift/employeerostering/shared/timeslot/TimeSlotTable.java:200-203 | No row of the grid is empty. A row's last slot is the one recorded as the row's previous occupant. |
| GridLayout.SweepTotal | optashift-employee-rostering-shared/src/main/java/org/optaplanner/openshift/employeerostering/shared/timeslot/TimeSlotTable.java:197-209 | The rows together hold as many slots as were laid out. |
| GridLayout.SweepPlacesEvery | optashift-employee-rostering-shared/src/main/java/org/optaplanner/openshift/employeerostering/shared/timeslot/TimeSlotTable.java:197-209 | Each slot lands in the row its depth names. |
| GridLayout.SweepHoldsExactly | optashift-employee-rostering-shared/src/main/java/org/optaplanner/openshift/employeerostering/shared/timeslot/TimeSlotTable.java:197-209 | A slot is in some row exactly when it was laid out. |
| GridLayout.SweepPlacesByFirstFit | optashift-employee-rostering-shared/src/main/java/org/optaplanner/openshift/employeerostering/shared/timeslot/TimeSlotTable.java:217-237 | Each slot's depth is the first fit against the rows' last slots at the moment it is placed, and is at most the number of rows then. |
| GridLayout.DepthIsClique | optashift-employee-rostering-shared/src/main/java/org/optaplanner/openshift/employeerostering/shared/timeslot/TimeSlotTable.java:224-237 | With slots in start order, a slot placed at depth d lies, at its start, inside the last slot of each of the d rows below it; those slots are earlier slots of the input. |
| GridLayout.SweepLastRowOpened | optashift-employee-rostering-shared/src/main/java/org/optaplanner/openshift/employeerostering/shared/timeslot/TimeSlotTable.java:232-237 | The last row was opened by some slot, whose depth is the number of rows less one. |
| GridLayout.RowCountIsClique | optashift-employee-rostering-shared/src/main/java/org/optaplanner/openshift/employeerostering/shared/timeslot/TimeSlotTable.java:197-243 | With slots in start order, some slot opened the last row, and at its start it lies inside the last slot of each of the other rows at that moment, all of them earlier input slots: as many slots sharing one point as there are rows. |
| GridLayout.SweepRowsChained | optashift-employee-rostering-shared/src/main/java/org/optaplanner/openshift/employeerostering/shared/timeslot/TimeSlotTable.java:226-236 | When slots come in start order and each ends after it starts, each slot in a row starts at or after the end of the slot before it. |
| GridLayout.ChainedAppend | optashift-employee-rostering-shared/src/main/java/org/optaplanner/openshift/employeerostering/shared/timeslot/TimeSlotTable.java:226-236 | Appending to a row a slot that starts at or after the end of the row's last slot keeps the row chained. |
| GridLayout.ChainedApart | optashift-employee-rostering-shared/src/main/java/org/optaplanner/openshift/employeerostering/shared/timeslot/TimeSlotTable.java:226-236 | In such a row, any earlier slot ends at or before any later slot starts. |
| GridLayout.SweepRowsDisjoint | optashift-employee-rostering-shared/src/main/java/org/optaplanner/openshift/employeerostering/shared/timeslot/TimeSlotTable.java:217-243 | When slots come in start order and each ends after it starts, no two slots in a row overlap. |
| GridLayout.FindDepth | optashift-employee-rostering-shared/src/main/java/org/optaplanner/openshift/employeerostering/shared/timeslot/TimeSlotTable.java:226-230 | The depth loop of the iterator computes the first fit. |
| GridLayout.AppendAtDepth | optashift-employee-rostering-shared/src/main/java/org/optaplanner/openshift/employeerostering/shared/timeslot/TimeSlotTable.java:200-206 | The drain opens a new row when the depth is one past the last row. Otherwise it appends to the row at that depth. |
| GridLayout.DrainAsGrid | optashift-employee-rostering-shared/src/main/java/org/optaplanner/openshift/employeerostering/shared/timeslot/TimeSlotTable.java:197-209 | Draining the iterator over a list of start points yields the rows of the layout sweep over the slots they name. |
| TableInvariant.ListHoldsIdOnce | optashift-employee-rostering-shared/src/main/java/org/optaplanner/openshift/employeerostering/shared/timeslot/TimeSlotTable.java:16-29 | Under the invariant, each list holds exactly one point of each live id and no point of any other id. |
| TableInvariant.ListInsertKeeps | optashift-employee-rostering-shared/src/main/java/org/optaplanner/openshift/employeerostering/shared/timeslot/TimeSlotTable.java:66-71 | Inserting the point of a fresh slot into one list, with the slot added to the map, keeps that list consistent with the map. |
| TableInvariant.ListInsertRecorded | optashift-employee-rostering-shared/src/main/java/org/optaplanner/openshift/employeerostering/shared/timeslot/TimeSlotTable.java:66-71 | After inserting the point of a fresh slot, every point in the list is still of the list's kind and is the recorded point of its slot in the new map. |
| TableInvariant.ListInsertListed | optashift-employee-rostering-shared/src/main/java/org/optaplanner/openshift/employeerostering/shared/timeslot/TimeSlotTable.java:66-71 | After inserting the point of a fresh slot, every slot of the new map, the fresh one included, has its point in the list. |
| TableInvariant.ListRemoveKeeps | optashift-employee-rostering-shared/src/main/java/org/optaplanner/openshift/employeerostering/shared/timeslot/TimeSlotTable.java:104-106 | Removing a live id from one list and from the map keeps them consistent. |
| TableInvariant.AddPlacesPoints | optashift-employee-rostering-shared/src/main/java/org/optaplanner/openshift/employeerostering/shared/timeslot/TimeSlotTable.java:66-69 | add puts the new start point ahead of every start point at its position. It puts the new end point after every end point at a smaller position and just before the last end point at its position: exactly one equal end point follows it when there is one. |
| TableInvariant.InsertFirstOfRun | optashift-employee-rostering-shared/src/main/java/org/optaplanner/openshift/employeerostering/shared/timeslot/TimeSlotTable.java:66-67 | Inserting a start point at the first index of its run puts it at that index, after exactly the start points at smaller positions. |
| TableInvariant.InsertBeforeLastOfRun | optashift-employee-rostering-shared/src/main/java/org/optaplanner/openshift/employeerostering/shared/timeslot/TimeSlotTable.java:68-69 | Inserting an end point at getLastIndexOf puts it after the end points at or below its position except the last equal one. Exactly one equal end point follows it when there is one, and every later point lies above its position. |
| TableInvariant.AddKeepsInv | optashift-employee-rostering-shared/src/main/java/org/optaplanner/openshift/employeerostering/shared/timeslot/TimeSlotTable.java:61-73 | Adding under a fresh id keeps both lists sorted and consistent with the map. The new slot is live with the given bounds and payload, and there is one more slot. |
| TableInvariant.RemoveKeepsInv | optashift-employee-rostering-shared/src/main/java/org/optaplanner/openshift/employeerostering/shared/timeslot/TimeSlotTable.java:104-106 | Removing a live id keeps the invariant. The id is gone, and there is one slot fewer. |
| TableInvariant.UpdateKeepsInv | optashift-employee-rostering-shared/src/main/java/org/optaplanner/openshift/employeerostering/shared/timeslot/TimeSlotTable.java:84-87 | Updating a live slot keeps the invariant and changes only its payload. Both lists and every other slot stay as they were. |
| TableInvariant.ListUpdateKeeps | optashift-employee-rostering-shared/src/main/java/org/optaplanner/openshift/employeerostering/shared/timeslot/TimeSlotTable.java:86 | A new payload leaves each list consistent with the map. |
| TableInvariant.AddThenRemove | optashift-employee-rostering-shared/src/main/java/org/optaplanner/openshift/employeerostering/shared/timeslot/TimeSlotTable.java:61-73 | Removing the id that add returned gives back the table as it was. |
| TableInvariant.ListInsertThenRemove | optashift-employee-rostering-shared/src/main/java/org/optaplanner/openshift/employeerostering/shared/timeslot/TimeSlotTable.java:67-69 | Removing a fresh id's point after inserting it gives back the list. |
| TableQueries.StartSlotsInOrder | optashift-employee-rostering-shared/src/main/java/org/optaplanner/openshift/employeerostering/shared/timeslot/TimeSlotTable.java:170-173 | A filtered prefix of the start list names live slots only, in non-decreasing start order, each at its own start point. |
| TableQueries.StartsAreLive | optashift-employee-rostering-shared/src/main/java/org/optaplanner/openshift/employeerostering/shared/timeslot/TimeSlotTable.java:19-29 | Every start point is the start point of the live slot whose id it carries. |
| TableQueries.GridComplete | optashift-employee-rostering-shared/src/main/java/org/optaplanner/openshift/employeerostering/shared/timeslot/TimeSlotTable.java:158-160 | The full grid holds every live slot and nothing else, and holds as many slots as are live. |
| TableQueries.GridHoldsLive | optashift-employee-rostering-shared/src/main/java/org/optaplanner/openshift/employeerostering/shared/timeslot/TimeSlotTable.java:158-160 | Every live slot is in the full grid. |
| TableQueries.GridHoldsOnlyLive | optashift-employee-rostering-shared/src/main/java/org/optaplanner/openshift/employeerostering/shared/timeslot/TimeSlotTable.java:158-160 | Everything in the full grid is a live slot stored under its own id. |
| TableQueries.GridOfSelection | optashift-employee-rostering-shared/src/main/java/org/optaplanner/openshift/employeerostering/shared/timeslot/TimeSlotTable.java:171-173 | A live slot is in the grid of a selection of start points exactly when its start point was selected. |
| TableQueries.SelectionGridOnlyLive | optashift-employee-rostering-shared/src/main/java/org/optaplanner/openshift/employeerostering/shared/timeslot/TimeSlotTable.java:171-173 | Everything in the grid of a selection is a live slot stored under its own id. |
| TableQueries.GridRowsDisjoint | optashift-employee-rostering-shared/src/main/java/org/optaplanner/openshift/employeerostering/shared/timeslot/TimeSlotTable.java:158-160 | When every live slot ends after it starts, no two slots in a row of the full grid overlap. |
| TableQueries.FilterIdsAll | optashift-employee-rostering-shared/src/main/java/org/optaplanner/openshift/employeerostering/shared/timeslot/TimeSlotTable.java:170-171 | Filtering by a set holding every id of the list keeps the whole list. |
| TableQueries.SelectedRowsDisjoint | optashift-employee-rostering-shared/src/main/java/org/optaplanner/openshift/employeerostering/shared/timeslot/TimeSlotTable.java:162-173 | When every live slot ends after it starts, no two slots in a row of a selection's grid overlap. |
| TableQueries.LivePointIndices | optashift-employee-rostering-shared/src/main/java/org/optaplanner/openshift/employeerostering/shared/timeslot/TimeSlotTable.java:164-171 | A live slot's start point lies before a cut of the start list exactly when its index does. Its id lies past a cut of the end list exactly when its end point's index does. |
| TableQueries.WindowAsWritten | optashift-employee-rostering-shared/src/main/java/org/optaplanner/openshift/employeerostering/shared/timeslot/TimeSlotTable.java:162-173 | The selection as written: from sorted lists, every kept point is a start point at or before `end` whose slot has an end point at or after `start`. |
| TableQueries.Window | optashift-employee-rostering-shared/src/main/java/org/optaplanner/openshift/employeerostering/shared/timeslot/TimeSlotTable.java:162-173 | The corrected selection: from sorted lists, every kept point is a start point before `end` whose slot has an end point after `start`. |
| TableQueries.WindowAsWrittenSelects | optashift-employee-rostering-shared/src/main/java/org/optaplanner/openshift/employeerostering/shared/timeslot/TimeSlotTable.java:162-173 | The range selection as written keeps a start point exactly when its slot ends at `start` or later and either starts before `end`, or starts at `end` with a later start point also at `end`. |
| TableQueries.EndCutAt | optashift-employee-rostering-shared/src/main/java/org/optaplanner/openshift/employeerostering/shared/timeslot/TimeSlotTable.java:169-170 | Cutting the end list at the first end point at `start` keeps the ids of exactly the slots ending at `start` or later. |
| TableQueries.StartCutAsWritten | optashift-employee-rostering-shared/src/main/java/org/optaplanner/openshift/employeerostering/shared/timeslot/TimeSlotTable.java:166-171 | Cutting the start list at the last start point at `end` keeps exactly the points before `end`, plus those at `end` that have a later start point at `end`. |
| TableQueries.WindowSelectsOverlapping | optashift-employee-rostering-shared/src/main/java/org/optaplanner/openshift/employeerostering/shared/timeslot/TimeSlotTable.java:162-173 | The corrected selection keeps a live slot exactly when it starts before `end` and ends after `start`. |
| TableQueries.StartCutBefore | optashift-employee-rostering-shared/src/main/java/org/optaplanner/openshift/employeerostering/shared/timeslot/TimeSlotTable.java:166-171 | A live slot's start point lies before the corrected start cut (the first start point at `end`) exactly when the slot starts before `end`. |
| TableQueries.EndCutAfter | optashift-employee-rostering-shared/src/main/java/org/optaplanner/openshift/employeerostering/shared/timeslot/TimeSlotTable.java:169-170 | A live slot's id is among the end points past the corrected end cut (the last end point at `start`) exactly when the slot ends after `start`. |
| TableQueries.WindowAsWrittenGrid | optashift-employee-rostering-shared/src/main/java/org/optaplanner/openshift/employeerostering/shared/timeslot/TimeSlotTable.java:162-173 | The grid of the range query as written holds exactly the slots the selection keeps and nothing else. Its rows are overlap-free when every slot is proper. |
| TableQueries.WindowGrid | optashift-employee-rostering-shared/src/main/java/org/optaplanner/openshift/employeerostering/shared/timeslot/TimeSlotTable.java:162-173 | The grid of the corrected range query holds exactly the live slots overlapping `[start, end)` and nothing else. Its rows are overlap-free when every slot is proper. |
| TableQueries.WindowAsWrittenDependsOnAddOrder | optashift-employee-rostering-shared/src/main/java/org/optaplanner/openshift/employeerostering/shared/timeslot/TimeSlotTable.java:166-171 | Counterexample: two slots both starting at 10. The range query (0, 10) as written keeps the one added second and drops the one added first. The corrected selection keeps neither. |
| TableQueries.WindowAsWrittenKeepsTouching | optashift-employee-rostering-shared/src/main/java/org/optaplanner/openshift/employeerostering/shared/timeslot/TimeSlotTable.java:164-171 | Counterexample: [0, 5) does not overlap [5, 10), yet the range query (5, 10) as written keeps it. The corrected selection does not. |
| TableQueries.EmptySlotBreaksRows | optashift-employee-rostering-shared/src/main/java/org/optaplanner/openshift/employeerostering/shared/timeslot/TimeSlotTable.java:226-236 | Counterexample: with an empty slot [5, 5) among [5, 9) and [6, 8), the full grid puts the two overlapping slots in the same row. The no-overlap property needs every slot to end after it starts. |
| TableQueries.WithEmptySlotState | optashift-employee-rostering-shared/src/main/java/org/optaplanner/openshift/employeerostering/shared/timeslot/TimeSlotTable.java:61-73 | Adding [5, 5), [5, 9) and [6, 8) in that order leaves the start of [5, 9) ahead of that of [5, 5) in the start list, with all three slots recorded. |
| TableQueries.SweepPastEmptySlot | optashift-employee-rostering-shared/src/main/java/org/optaplanner/openshift/employeerostering/shared/timeslot/TimeSlotTable.java:226-236 | Dealing [5, 9), [5, 5), [6, 8) in that order into rows puts all three in one row. |
| TimeSlotTables.UnpairedSlotEndsElsewhere | optashift-employee-rostering-shared/src/main/java/org/optaplanner/openshift/employeerostering/shared/timeslot/TimeSlotTable.java:135-141 | A slot whose end point the inner scan did not meet in the run of end points at `end` does not end at `end`. |
| TimeSlotTables.LaterStartElsewhere | optashift-employee-rostering-shared/src/main/java/org/optaplanner/openshift/employeerostering/shared/timeslot/TimeSlotTable.java:123-128 | A start point above the run of start points at `start` belongs to a slot that starts elsewhere. |
| TimeSlotTables.PairSearchStep | optashift-employee-rostering-shared/src/main/java/org/optaplanner/openshift/employeerostering/shared/timeslot/TimeSlotTable.java:132-147 | Stepping the outer loop down past an unpaired start point keeps "no slot at [start, end) above the index". The matching slot still lies below. |
| TimeSlotTables.PairSearchDone | optashift-employee-rostering-shared/src/main/java/org/optaplanner/openshift/employeerostering/shared/timeslot/TimeSlotTable.java:132-148 | When the outer loop stops, no slot whose start point lies above it is at [start, end). |
| TimeSlotTables.TimeSlotTable.constructor | optashift-employee-rostering-shared/src/main/java/org/optaplanner/openshift/employeerostering/shared/timeslot/TimeSlotTable.java:31-35 | A new table is empty and consistent. |
| TimeSlotTables.TimeSlotTable.GetFirstIndexOf | optashift-employee-rostering-shared/src/main/java/org/optaplanner/openshift/employeerostering/shared/timeslot/TimeSlotTable.java:37-47 | From any search result, the result is the first index of the run of equal points, or the insertion point: the number of points below the key. |
| TimeSlotTables.TimeSlotTable.GetLastIndexOf | optashift-employee-rostering-shared/src/main/java/org/optaplanner/openshift/employeerostering/shared/timeslot/TimeSlotTable.java:49-59 | From any search result, the result is the last index of the run of equal points, or the insertion point when there is none. |
| TimeSlotTables.TimeSlotTable.Add | optashift-employee-rostering-shared/src/main/java/org/optaplanner/openshift/employeerostering/shared/timeslot/TimeSlotTable.java:61-73 | add returns the fresh id and keeps the table consistent. The new state is `Added`, whose placement and invariant are proved in AddPlacesPoints and AddKeepsInv. |
| TimeSlotTables.TimeSlotTable.Get | optashift-employee-rostering-shared/src/main/java/org/optaplanner/openshift/employeerostering/shared/timeslot/TimeSlotTable.java:75-82 | get returns the id of some live slot carrying the payload. It returns none exactly when no live slot carries it. |
| TimeSlotTables.TimeSlotTable.Update | optashift-employee-rostering-shared/src/main/java/org/optaplanner/openshift/employeerostering/shared/timeslot/TimeSlotTable.java:84-87 | update of a live id keeps the table consistent. The new state is `Updated` (see UpdateKeepsInv). |
| TimeSlotTables.TimeSlotTable.RemoveSlot | optashift-employee-rostering-shared/src/main/java/org/optaplanner/openshift/employeerostering/shared/timeslot/TimeSlotTable.java:89-107 | Removing a slot by value removes exactly its two points and its map entry: the new state is `Removed` for its id. |
| TimeSlotTables.TimeSlotTable.LocateSlot | optashift-employee-rostering-shared/src/main/java/org/optaplanner/openshift/employeerostering/shared/timeslot/TimeSlotTable.java:89-102 | Finds the indices of the slot's start and end points, each carrying the slot's id, such that removing them drops exactly that slot's points from each list. |
| TimeSlotTables.TimeSlotTable.RemoveId | optashift-employee-rostering-shared/src/main/java/org/optaplanner/openshift/employeerostering/shared/timeslot/TimeSlotTable.java:109-117 | A live id is removed and the result is success. An unknown id yields the error naming the id and the live ids, and the table is unchanged. |
| TimeSlotTables.TimeSlotTable.FindPair | optashift-employee-rostering-shared/src/main/java/org/optaplanner/openshift/employeerostering/shared/timeslot/TimeSlotTable.java:119-149 | The search finds a start point and an end point of one slot lying at [start, end). No start point above it belongs to such a slot. |
| TimeSlotTables.TimeSlotTable.RemoveByBounds | optashift-employee-rostering-shared/src/main/java/org/optaplanner/openshift/employeerostering/shared/timeslot/TimeSlotTable.java:119-156 | Removal by position removes exactly one slot lying at [start, end), the one whose start point comes last, and returns its id. |
| TimeSlotTables.TimeSlotTable.WitnessIndices | optashift-employee-rostering-shared/src/main/java/org/optaplanner/openshift/employeerostering/shared/timeslot/TimeSlotTable.java:123-124 | A slot at [start, end) has its start point inside the run at `start` and its end point inside the run at `end`, at or below the indices getLastIndexOf yields. |
| TimeSlotTables.TimeSlotTable.GetTimeSlotsAsGrid | optashift-employee-rostering-shared/src/main/java/org/optaplanner/openshift/employeerostering/shared/timeslot/TimeSlotTable.java:158-160 | The full grid is the layout sweep over the start points. It holds every live slot and nothing else, as many slots as are live, and rows without overlaps when every slot ends after it starts. That the row count is the minimum is stated by RowCountIsClique, which applies because the start points come in start order (StartSlotsInOrder). |
| TimeSlotTables.TimeSlotTable.GetTimeSlotsAsGridWithin | optashift-employee-rostering-shared/src/main/java/org/optaplanner/openshift/employeerostering/shared/timeslot/TimeSlotTable.java:162-174 | The range grid as written is the sweep over the selection the code makes. A live slot is in it exactly when the selection keeps its start point (WindowAsWrittenSelects), and nothing else is. |
| TimeSlotTables.TimeSlotTable.GetTimeSlotsAsGridOverlapping | optashift-employee-rostering-shared/src/main/java/org/optaplanner/openshift/employeerostering/shared/timeslot/TimeSlotTable.java:162-174 | The corrected range grid holds exactly the live slots that start before `end` and end after `start`, and nothing else. Its rows are overlap-free when every slot is proper. |

## Left out

- `Calendar.java` is not part of this model: it is user-interface wiring with timers and asynchronous callbacks.
- The random id of `add` (`UUID.randomUUID`) is a parameter that the caller guarantees is not live.
- The null id of the probe points in the range query and in removal by position is id 0. `equals` and `compareTo` never read the id.
- `Collections.binarySearch` is a verified binary search whose contract allows any equal point when several are equal, as the library's does.
- The iteration order of the map in `get` is not modelled; the result is stated as some live id carrying the payload.
- The text of the exception thrown by removal by id is not modelled. The error carries the id and the set of live ids that the message lists.
- The `Iterator` plumbing of the layout iterator (`hasNext`, the constructor priming `next`) is folded into the drain loop `DrainAsGrid`.
- Positions are unbounded integers. The 64-bit `long` of the source and `Long.compare` on extreme values are not modelled.
- `TimeSlot.getUUID` is the one-line definition `TimeSlot.Id`, with no contract of its own. `TimeSlot.getLength`, `TimeSlot.equals` and the hash codes of both classes are not modelled: nothing in the table's operations uses them.
- The two lists are `seq` fields that the methods reassign. In-place `ArrayList` insertion and removal, and aliasing of the lists by the layout iterator, are not modelled.
- TimeSlotTables.TimeSlotTable.Update: requires a live id. The source reads the fields of the missing entry and throws.
- TimeSlotTables.TimeSlotTable.RemoveSlot: requires that both points of the slot are in the lists and carry the slot's id. For any other slot the source removes the live slot of that id when each backward scan starts inside its list, at or above that slot's point. It throws when a scan starts at the list's size or runs below index 0. When the two points of the given slot carry different ids, it can remove points of two different slots.
- TimeSlotTables.TimeSlotTable.RemoveByBounds: requires that some live slot lies exactly at [start, end). Without one the source may index out of range, or remove a slot with a different start or end. With [3, 10) and [7, 12) live, removal at (5, 10) removes [3, 10). With only [3, 12) live, removal at (3, 10) removes [3, 12) and returns its id.
- The end point of `add` goes just before the last equal end point, as the code does (AddPlacesPoints). A plain description of the table would put it after every equal end point.
- GridLayout.RowCountIsClique: states that the rows match a set of slots that all contain one point. It does not carry out the final counting step: that those slots are distinct, and that any overlap-free layout must put them in different rows.
- The no-overlap property of the rows holds only when every slot ends after it starts; `add` does not check this (see Findings).

## Findings

| source | as written | input that shows it | evidently intended | confidence | as-written member | corrected member |
|---|---|---|---|---|---|---|
| optashift-employee-rostering-shared/src/main/java/org/optaplanner/openshift/employeerostering/shared/timeslot/TimeSlotTable.java:166-171 | The start list is cut at getLastIndexOf of a start probe at `end`. Of the start points exactly at `end`, all but the last are kept, and which ones those are depends on the order of the adds. | add(10, 12) then add(10, 14), then getTimeSlotsAsGrid(0, 10): the grid holds [10, 14) but not [10, 12). | Cut before the first start point at `end` (getFirstIndexOf), so no slot starting at `end` is kept. | high; not executed | TableQueries.WindowAsWrittenDependsOnAddOrder | TimeSlotTables.TimeSlotTable.GetTimeSlotsAsGridOverlapping |
| optashift-employee-rostering-shared/src/main/java/org/optaplanner/openshift/employeerostering/shared/timeslot/TimeSlotTable.java:164-165 | The end list is cut at the first end point at `start`, so slots that end exactly at `start` are kept although they do not overlap the range. | add(0, 5), then getTimeSlotsAsGrid(5, 10): the grid holds [0, 5). | Keep only slots ending after `start` (cut past the last end point at `start`), consistent with the half-open overlap test of the layout. | medium; not executed | TableQueries.WindowAsWrittenKeepsTouching | TimeSlotTables.TimeSlotTable.GetTimeSlotsAsGridOverlapping |
| optashift-employee-rostering-shared/src/main/java/org/optaplanner/openshift/employeerostering/shared/timeslot/TimeSlotTable.java:226-229 | `add` accepts a slot with `start == end`. Once such an empty slot is the last slot of a row, the layout's overlap test finds that no slot placed after it overlaps it, so it can sit between two overlapping slots and let the second into the first one's row. | add(5, 5), add(5, 9), add(6, 8), then getTimeSlotsAsGrid(): one row holds [5, 9), [5, 5), [6, 8), and [5, 9) overlaps [6, 8). | No two slots of a row overlap, as the layout promises; this holds once every slot ends after it starts, so `add` should reject `start >= end`. | medium; not executed | TableQueries.EmptySlotBreaksRows | TableQueries.GridRowsDisjoint |
