/** Sorted lists of boundary points with duplicate keys: the bounds of a run
    of equal points, the library binary search, and in-place insertion and
    removal as the table performs them. */
module PointLists {
  import opened BoundaryPoints

  /** Sorted under CompareTo (equal points may appear in any order). */
  ghost predicate Sorted(s: seq<BoundaryPoint>) {
    forall i, j :: 0 <= i < j < |s| ==> s[i].CompareTo(s[j]) <= 0
  }

  /** No two points of the list belong to the same slot. */
  ghost predicate DistinctIds(s: seq<BoundaryPoint>) {
    forall i, j :: 0 <= i < j < |s| ==> s[i].uuid != s[j].uuid
  }

  /** Every point of the list is of the given kind. */
  ghost predicate AllOfKind(s: seq<BoundaryPoint>, isStart: bool) {
    forall i :: 0 <= i < |s| ==> s[i].isStart == isStart
  }

  /** The number of points strictly below o. */
  function CountBelow(s: seq<BoundaryPoint>, o: BoundaryPoint): (n: nat)
    ensures n <= |s|
  {
    if s == [] then 0
    else (if s[0].CompareTo(o) < 0 then 1 else 0) + CountBelow(s[1..], o)
  }

  /** The number of points at or below o. */
  function CountAtMost(s: seq<BoundaryPoint>, o: BoundaryPoint): (n: nat)
    ensures n <= |s|
  {
    if s == [] then 0
    else (if s[0].CompareTo(o) <= 0 then 1 else 0) + CountAtMost(s[1..], o)
  }

  /** In a sorted list the points below o are exactly the first CountBelow
      ones, and the points at or below o are exactly the first CountAtMost
      ones; the run of points equal to o lies between the two. */
  lemma {:induction false} RunBounds(s: seq<BoundaryPoint>, o: BoundaryPoint)
    requires Sorted(s)
    ensures CountBelow(s, o) <= CountAtMost(s, o)
    ensures forall i :: 0 <= i < |s| ==> (s[i].CompareTo(o) < 0 <==> i < CountBelow(s, o))
    ensures forall i :: 0 <= i < |s| ==> (s[i].CompareTo(o) <= 0 <==> i < CountAtMost(s, o))
    ensures forall i :: 0 <= i < |s| ==> (s[i].Equals(o) <==> CountBelow(s, o) <= i < CountAtMost(s, o))
  {
    if s != [] {
      var t := s[1..];
      assert Sorted(t);
      RunBounds(t, o);
      forall i | 0 < i < |s|
        ensures s[0].CompareTo(s[i]) <= 0 && s[i] == t[i - 1]
      {
      }
      forall i | 0 <= i < |s|
        ensures s[i].CompareTo(o) == 0 <==> s[i].Equals(o)
      {
        CompareToIsRankOrder(s[i], o);
      }
    }
  }

  /** What the library binary search promises: a non-negative result is the
      index of SOME point equal to the key; a negative result -(k + 1) says
      that no point is equal to the key and k is where it would go. */
  ghost predicate IsSearchResult(s: seq<BoundaryPoint>, key: BoundaryPoint, r: int) {
    if r >= 0 then r < |s| && s[r].Equals(key)
    else -(r + 1) == CountBelow(s, key) && forall i :: 0 <= i < |s| ==> !s[i].Equals(key)
  }

  /** The library binary search over a sorted list. */
  method BinarySearch(s: seq<BoundaryPoint>, key: BoundaryPoint) returns (r: int)
    requires Sorted(s)
    ensures IsSearchResult(s, key, r)
  {
    var lo, hi := 0, |s|;
    while lo < hi
      invariant 0 <= lo <= hi <= |s|
      invariant forall i :: 0 <= i < lo ==> s[i].CompareTo(key) < 0
      invariant forall i :: hi <= i < |s| ==> s[i].CompareTo(key) > 0
    {
      var mid := (lo + hi) / 2;
      var c := s[mid].CompareTo(key);
      if c < 0 {
        lo := mid + 1;
      } else if c > 0 {
        hi := mid;
      } else {
        return mid;
      }
    }
    RunBounds(s, key);
    if lo < |s| {
      assert s[lo].CompareTo(key) > 0;
    }
    if lo > 0 {
      assert s[lo - 1].CompareTo(key) < 0;
    }
    return -(lo + 1);
  }

  /** The list with p inserted at index k (ArrayList.add(k, p)). */
  function InsertAt(s: seq<BoundaryPoint>, k: nat, p: BoundaryPoint): (r: seq<BoundaryPoint>)
    requires k <= |s|
  {
    s[..k] + [p] + s[k..]
  }

  /** The list without the points of slot id. */
  function WithoutId(s: seq<BoundaryPoint>, id: Uuid): (r: seq<BoundaryPoint>)
  {
    if s == [] then []
    else (if s[0].uuid == id then [] else [s[0]]) + WithoutId(s[1..], id)
  }

  /** Inserting a point between everything at or below it and everything at
      or above it keeps the list sorted, and the new point is found at k. */
  lemma InsertAtKeepsSorted(s: seq<BoundaryPoint>, k: nat, p: BoundaryPoint)
    requires Sorted(s) && k <= |s|
    requires forall i :: 0 <= i < k ==> s[i].CompareTo(p) <= 0
    requires forall i :: k <= i < |s| ==> p.CompareTo(s[i]) <= 0
    ensures Sorted(InsertAt(s, k, p))
    ensures |InsertAt(s, k, p)| == |s| + 1 && InsertAt(s, k, p)[k] == p
  {
    var r := InsertAt(s, k, p);
    forall i, j | 0 <= i < j < |r|
      ensures r[i].CompareTo(r[j]) <= 0
    {
      if i < k && j > k {
        CompareToTransitive(r[i], p, r[j]);
      }
    }
  }

  /** Removing the one point of a slot is removing the entry at its index. */
  lemma {:induction false} WithoutIdAt(s: seq<BoundaryPoint>, k: nat)
    requires DistinctIds(s) && k < |s|
    ensures WithoutId(s, s[k].uuid) == RemoveAt(s, k)
  {
    if k == 0 {
      WithoutIdAbsent(s[1..], s[0].uuid);
    } else {
      assert DistinctIds(s[1..]);
      assert s[1..][k - 1] == s[k];
      WithoutIdAt(s[1..], k - 1);
      assert s[1..][..k - 1] + s[1..][k..] == s[1..k] + s[k + 1..];
      assert s[..k] == [s[0]] + s[1..k];
    }
  }

  /** Removing an id that no point carries changes nothing. */
  lemma {:induction false} WithoutIdAbsent(s: seq<BoundaryPoint>, id: Uuid)
    requires forall i :: 0 <= i < |s| ==> s[i].uuid != id
    ensures WithoutId(s, id) == s
  {
    if s != [] {
      WithoutIdAbsent(s[1..], id);
    }
  }

  /** The list without its entry at index k (ArrayList.remove(k)). */
  function RemoveAt(s: seq<BoundaryPoint>, k: nat): (r: seq<BoundaryPoint>)
    requires k < |s|
  {
    s[..k] + s[k + 1..]
  }

  /** Removing an entry keeps a sorted list sorted and distinct ids distinct,
      and keeps every other point. */
  lemma RemoveAtKeeps(s: seq<BoundaryPoint>, k: nat)
    requires k < |s|
    ensures |RemoveAt(s, k)| == |s| - 1
    ensures forall i :: 0 <= i < |s| - 1 ==> RemoveAt(s, k)[i] == if i < k then s[i] else s[i + 1]
    ensures Sorted(s) ==> Sorted(RemoveAt(s, k))
    ensures DistinctIds(s) ==> DistinctIds(RemoveAt(s, k))
  {
  }

  /** The entry at i after inserting p at k. */
  lemma InsertAtIndex(s: seq<BoundaryPoint>, k: nat, p: BoundaryPoint, i: nat)
    requires k <= |s| && i <= |s|
    ensures InsertAt(s, k, p)[i] == if i < k then s[i] else if i == k then p else s[i - 1]
  {
  }

  /** Inserting a point whose id the list does not hold keeps the ids
      distinct. */
  lemma InsertKeepsDistinct(s: seq<BoundaryPoint>, k: nat, p: BoundaryPoint)
    requires DistinctIds(s) && k <= |s|
    requires forall i :: 0 <= i < |s| ==> s[i].uuid != p.uuid
    ensures DistinctIds(InsertAt(s, k, p))
  {
    var r := InsertAt(s, k, p);
    forall i, j | 0 <= i < j < |r|
      ensures r[i].uuid != r[j].uuid
    {
      InsertAtIndex(s, k, p, i);
      InsertAtIndex(s, k, p, j);
    }
  }

  /** The entry at i after removing the entry at k. */
  lemma RemoveAtIndex(s: seq<BoundaryPoint>, k: nat, i: nat)
    requires k < |s| && i < |s| - 1
    ensures RemoveAt(s, k)[i] == s[if i < k then i else i + 1]
  {
  }

  /** Removing the entry at k keeps every point other than that entry. */
  lemma RemoveAtMembers(s: seq<BoundaryPoint>, k: nat, x: BoundaryPoint)
    requires k < |s|
    ensures x in s && x != s[k] ==> x in RemoveAt(s, k)
  {
    if x in s && x != s[k] {
      var i :| 0 <= i < |s| && s[i] == x;
      if i < k { assert RemoveAt(s, k)[i] == x; } else { assert RemoveAt(s, k)[i - 1] == x; }
    }
  }

  /** Inserting a point whose id is new then removing that id gives back the
      original list. */
  lemma InsertThenRemove(s: seq<BoundaryPoint>, k: nat, p: BoundaryPoint)
    requires DistinctIds(s) && k <= |s|
    requires forall i :: 0 <= i < |s| ==> s[i].uuid != p.uuid
    ensures WithoutId(InsertAt(s, k, p), p.uuid) == s
  {
    var r := InsertAt(s, k, p);
    assert DistinctIds(r) by {
      forall i, j | 0 <= i < j < |r|
        ensures r[i].uuid != r[j].uuid
      {
        if i < k && j > k { assert r[j] == s[j - 1]; }
        if i > k { assert r[i] == s[i - 1] && r[j] == s[j - 1]; }
      }
    }
    assert r[k] == p;
    WithoutIdAt(r, k);
    assert RemoveAt(r, k) == s;
  }

  /** Where the end-point insertion of the table lands: at the LAST point
      equal to o when there is one (so the new point goes just before it),
      otherwise where o would be inserted. */
  function LastIndexOf(s: seq<BoundaryPoint>, o: BoundaryPoint): (k: nat)
    ensures k <= |s|
  {
    if CountBelow(s, o) < CountAtMost(s, o) then CountAtMost(s, o) - 1 else CountBelow(s, o)
  }

  /** A point before a cut that lies at or below the run of o ranks at or
      below o, and strictly below o when the cut lies at or before the run. */
  lemma BeforeCut(s: seq<BoundaryPoint>, o: BoundaryPoint, cut: nat, p: BoundaryPoint)
    requires Sorted(s) && cut <= CountAtMost(s, o) && p in s[..cut]
    ensures Rank(p) <= Rank(o)
    ensures cut <= CountBelow(s, o) ==> Rank(p) < Rank(o)
  {
    RunBounds(s, o);
    var i :| 0 <= i < cut && s[..cut][i] == p;
    assert s[i] == p;
    CompareToIsRankOrder(p, o);
  }

  /** A point at or after a cut that lies at or past the start of the run of
      o ranks at or above o, and strictly above o when the cut lies at or
      past the end of the run. */
  lemma FromCut(s: seq<BoundaryPoint>, o: BoundaryPoint, cut: nat, j: nat)
    requires Sorted(s) && CountBelow(s, o) <= cut <= j < |s|
    ensures Rank(o) <= Rank(s[j])
    ensures CountAtMost(s, o) <= cut ==> Rank(o) < Rank(s[j])
  {
    RunBounds(s, o);
    CompareToIsRankOrder(s[j], o);
  }

  /** Stepping past the last point equal to o, when there is one, gives the
      number of points at or below o. */
  lemma PastLastIndexOf(s: seq<BoundaryPoint>, o: BoundaryPoint)
    requires Sorted(s)
    ensures (if LastIndexOf(s, o) < |s| && s[LastIndexOf(s, o)].Equals(o) then LastIndexOf(s, o) + 1
             else LastIndexOf(s, o)) == CountAtMost(s, o)
  {
    RunBounds(s, o);
  }

  /** In a sorted list, inserting o at LastIndexOf puts it between everything
      at or below it and everything at or above it. */
  lemma LastIndexOfSplits(s: seq<BoundaryPoint>, o: BoundaryPoint)
    requires Sorted(s)
    ensures forall i :: 0 <= i < LastIndexOf(s, o) ==> s[i].CompareTo(o) <= 0
    ensures forall i :: LastIndexOf(s, o) <= i < |s| ==> o.CompareTo(s[i]) <= 0
  {
    RunBounds(s, o);
    forall i | 0 <= i < |s|
      ensures o.CompareTo(s[i]) == -s[i].CompareTo(o)
    {
      CompareToIsRankOrder(s[i], o);
    }
  }

  /** When no point equals o, the points below o and the points at or below
      o are the same. */
  lemma {:induction false} NoneEqualSameCounts(s: seq<BoundaryPoint>, o: BoundaryPoint)
    requires forall i :: 0 <= i < |s| ==> !s[i].Equals(o)
    ensures CountBelow(s, o) == CountAtMost(s, o)
  {
    if s != [] {
      CompareToIsRankOrder(s[0], o);
      NoneEqualSameCounts(s[1..], o);
    }
  }

  /** A point equal to o lies at or before LastIndexOf, which is then an
      index of the list. */
  lemma LastIndexOfCovers(s: seq<BoundaryPoint>, o: BoundaryPoint, i: nat)
    requires Sorted(s) && i < |s| && s[i].Equals(o)
    ensures i <= LastIndexOf(s, o) < |s| && s[LastIndexOf(s, o)].Equals(o)
  {
    RunBounds(s, o);
  }

  /** Membership after an insertion. */
  lemma InsertAtMembers(s: seq<BoundaryPoint>, k: nat, p: BoundaryPoint, x: BoundaryPoint)
    requires k <= |s|
    ensures x in InsertAt(s, k, p) <==> x == p || x in s
  {
    assert s == s[..k] + s[k..];
  }

  /** The points of the list whose id is in keep, in their order (the
      stream filter of the range query). */
  function FilterIds(s: seq<BoundaryPoint>, keep: set<Uuid>): (r: seq<BoundaryPoint>)
    ensures forall i :: 0 <= i < |r| ==> r[i] in s && r[i].uuid in keep
  {
    if s == [] then []
    else (if s[0].uuid in keep then [s[0]] else []) + FilterIds(s[1..], keep)
  }

  /** Filtering keeps a sorted list sorted. */
  lemma {:induction false} FilterIdsSorted(s: seq<BoundaryPoint>, keep: set<Uuid>)
    requires Sorted(s)
    ensures Sorted(FilterIds(s, keep))
  {
    if s != [] {
      assert Sorted(s[1..]);
      FilterIdsSorted(s[1..], keep);
      var rest := FilterIds(s[1..], keep);
      forall j | 0 <= j < |rest|
        ensures s[0].CompareTo(rest[j]) <= 0
      {
        assert rest[j] in s[1..];
      }
    }
  }

  /** A point survives the filter exactly when it is in the list and its id
      is kept. */
  lemma {:induction false} FilterIdsMember(s: seq<BoundaryPoint>, keep: set<Uuid>, x: BoundaryPoint)
    ensures x in FilterIds(s, keep) <==> x in s && x.uuid in keep
  {
    if s != [] {
      FilterIdsMember(s[1..], keep, x);
      assert s == [s[0]] + s[1..];
    }
  }

  /** The backward scan of a removal: from index from down to the point of
      slot id, which must lie at or before from. */
  method ScanBackToId(s: seq<BoundaryPoint>, from: int, id: Uuid) returns (k: nat)
    requires from < |s|
    requires exists i :: 0 <= i <= from && s[i].uuid == id
    ensures k <= from && s[k].uuid == id
    ensures forall i :: k < i <= from ==> s[i].uuid != id
  {
    k := from;
    while s[k].uuid != id
      invariant 0 <= k <= from
      invariant exists i :: 0 <= i <= k && s[i].uuid == id
      invariant forall i :: k < i <= from ==> s[i].uuid != id
      decreases k
    {
      k := k - 1;
    }
  }

  /** The inner scan of the removal by position: from index from downwards,
      while the points are equal to key, look for the point of slot id. */
  method ScanRunForId(s: seq<BoundaryPoint>, from: int, key: BoundaryPoint, id: Uuid)
    returns (found: bool, k: int)
    requires -1 <= from < |s|
    ensures -1 <= k <= from
    ensures found ==> 0 <= k && s[k].uuid == id && s[k].Equals(key)
    ensures !found ==> k < 0 || !s[k].Equals(key)
    ensures forall i :: k < i <= from ==> s[i].uuid != id && s[i].Equals(key)
  {
    found := false;
    k := from;
    while k >= 0 && s[k].Equals(key)
      invariant -1 <= k <= from
      invariant forall i :: k < i <= from ==> s[i].uuid != id && s[i].Equals(key)
    {
      if s[k].uuid == id {
        found := true;
        break;
      }
      k := k - 1;
    }
  }
}
