/** Looking up ranges and events of a timeline: utils/grid.py.

    Ranges are searched for one that contains a key, events for the first one that is not before
    it.  Both searches halve the list.

    What `get_ranges` returns for an interval depends on whether its ends lie in ranges or in the
    gaps between them; the overlapping ranges are the definition its slices are compared with.
 */
module Timeline {

  datatype DataRange = DataRange(start: real, end: real)

  datatype Event = Event(at: real)

  /** Ranges one after the other; a range may begin where the one before it ends. */
  ghost predicate Sorted(ranges: seq<DataRange>) {
    && (forall i :: 0 <= i < |ranges| ==> ranges[i].start <= ranges[i].end)
    && (forall i, j :: 0 <= i < j < |ranges| ==> ranges[i].end <= ranges[j].start)
  }

  /** No two ranges have a point in common. */
  ghost predicate Disjoint(ranges: seq<DataRange>) {
    Sorted(ranges) && forall i, j :: 0 <= i < j < |ranges| ==> ranges[i].end < ranges[j].start
  }

  predicate Contains(r: DataRange, key: real) { r.start <= key <= r.end }

  predicate Overlaps(r: DataRange, start: real, end: real) { r.start <= end && start <= r.end }

  /** The ranges that have a point in [start, end], in their order. */
  function Overlapping(ranges: seq<DataRange>, start: real, end: real): seq<DataRange> {
    if ranges == [] then []
    else
      Overlapping(ranges[..|ranges| - 1], start, end)
      + if Overlaps(ranges[|ranges| - 1], start, end) then [ranges[|ranges| - 1]] else []
  }

  /** `i` is what the search for `key` may answer. */
  ghost predicate Found(ranges: seq<DataRange>, key: real, i: int) {
    if i == -1 then forall k :: 0 <= k < |ranges| ==> !Contains(ranges[k], key)
    else 0 <= i < |ranges| && Contains(ranges[i], key)
  }

  /** Python's slice: both bounds are cut off at the length. */
  function Slice<T>(s: seq<T>, from: nat, to: nat): seq<T> {
    var hi := if to < |s| then to else |s|;
    if from < hi then s[from..hi] else []
  }

  /** Which slice `get_ranges` takes, from the answers for its two ends. */
  function Bounds(n: nat, s: int, e: int): (nat, nat)
    requires -1 <= s < n && -1 <= e < n
  {
    if s == -1 && e == -1 then (0, 0) else if s == -1 then (0, e + 1) else if e == -1 then (s, n) else (s, e + 1)
  }

  class TimelineDataRange {
    var ranges: seq<DataRange>

    method Search(key: real) returns (r: int)
      requires Sorted(ranges)
      ensures Found(ranges, key, r)
    {
      var l, u := 0, |ranges| - 1;
      while l <= u
        invariant 0 <= l <= u + 1 <= |ranges|
        invariant forall k :: 0 <= k < |ranges| && Contains(ranges[k], key) ==> l <= k <= u
        decreases u - l
      {
        var i := (l + u) / 2;
        if key >= ranges[i].start && key <= ranges[i].end {
          return i;
        } else if key < ranges[i].start {
          u := i - 1;
        } else {
          l := i + 1;
        }
      }
      return -1;
    }

    method GetRanges(start: real, end: real) returns (r: seq<DataRange>)
      requires Sorted(ranges)
      ensures exists s, e :: Found(ranges, start, s) && Found(ranges, end, e)
                && r == Slice(ranges, Bounds(|ranges|, s, e).0, Bounds(|ranges|, s, e).1)
      ensures Disjoint(ranges) && start <= end ==>
                ((forall x :: x in ranges && Overlaps(x, start, end) ==> x in r) <==> Covered(ranges, start, end))
    {
      hide *;
      var s := Search(start);
      var e := Search(end);
      FoundIsIndex(ranges, start, s);
      FoundIsIndex(ranges, end, e);
      SliceByCase(ranges, s, e);
      if Disjoint(ranges) && start <= end {
        NoneIsMissedExactly(ranges, start, end, s, e);
      }
      if s == -1 && e == -1 {
        r := [];
      } else if s == -1 {
        r := ranges[0..e + 1];
      } else if e == -1 {
        r := ranges[s..|ranges|];
      } else {
        r := if s <= e then ranges[s..e + 1] else [];
      }
    }

    method GetRangesBounds(start: real, end: real) returns (lo: nat, hi: nat)
      requires Sorted(ranges)
      ensures exists s, e :: Found(ranges, start, s) && Found(ranges, end, e) && (lo, hi) == Bounds(|ranges|, s, e)
    {
      var s := Search(start);
      var e := Search(end);
      if s == -1 && e == -1 {
        return 0, 0;
      } else if s == -1 {
        return 0, e + 1;
      } else if e == -1 {
        return s, |ranges|;
      } else {
        return s, e + 1;
      }
    }
  }

  lemma FoundIsIndex(ranges: seq<DataRange>, key: real, i: int)
    requires Found(ranges, key, i)
    ensures -1 <= i < |ranges|
  {
  }

  lemma SliceByCase(ranges: seq<DataRange>, s: int, e: int)
    requires -1 <= s < |ranges| && -1 <= e < |ranges|
    ensures Slice(ranges, Bounds(|ranges|, s, e).0, Bounds(|ranges|, s, e).1)
            == if s == -1 && e == -1 then []
               else if s == -1 then ranges[0..e + 1]
               else if e == -1 then ranges[s..|ranges|]
               else if s <= e then ranges[s..e + 1] else []
  {
  }

  /** Among disjoint ranges the search has only one possible answer. */
  lemma AnswerIsUnique(ranges: seq<DataRange>, key: real, i: int, j: int)
    requires Disjoint(ranges) && Found(ranges, key, i) && Found(ranges, key, j)
    ensures i == j
  {
    if i != -1 && j != -1 {
      Apart(ranges, i, j, key);
    }
  }

  lemma Apart(ranges: seq<DataRange>, i: nat, j: nat, key: real)
    requires Disjoint(ranges) && i < |ranges| && j < |ranges|
    requires Contains(ranges[i], key) && Contains(ranges[j], key)
    ensures i == j
  {
  }

  /** The overlapping ranges are the ones from `lo` on and before `hi`. */
  ghost predicate Cut(ranges: seq<DataRange>, start: real, end: real, lo: nat, hi: nat) {
    && lo <= hi <= |ranges|
    && forall i :: 0 <= i < |ranges| ==> (Overlaps(ranges[i], start, end) <==> lo <= i < hi)
  }

  lemma {:induction false} CutIsOverlapping(ranges: seq<DataRange>, start: real, end: real, lo: nat, hi: nat)
    requires Cut(ranges, start, end, lo, hi)
    ensures Overlapping(ranges, start, end) == ranges[lo..hi]
  {
    if ranges != [] {
      var front, last := ranges[..|ranges| - 1], ranges[|ranges| - 1];
      if hi == |ranges| {
        if lo < hi {
          CutIsOverlapping(front, start, end, lo, hi - 1);
          assert ranges[lo..hi] == front[lo..hi - 1] + [last];
        } else {
          CutIsOverlapping(front, start, end, lo - 1, hi - 1);
        }
      } else {
        CutIsOverlapping(front, start, end, lo, hi);
        SliceOfFront(ranges, lo, hi);
      }
    }
  }

  lemma SliceOfFront<T>(s: seq<T>, lo: nat, hi: nat)
    requires lo <= hi < |s|
    ensures s[..|s| - 1][lo..hi] == s[lo..hi]
  {
  }

  lemma {:induction false} OverlappingMembers(ranges: seq<DataRange>, start: real, end: real, r: DataRange)
    requires r in Overlapping(ranges, start, end)
    ensures Overlaps(r, start, end)
  {
    if r in Overlapping(ranges[..|ranges| - 1], start, end) {
      OverlappingMembers(ranges[..|ranges| - 1], start, end, r);
    }
  }

  lemma {:induction false} NoneOverlaps(ranges: seq<DataRange>, start: real, end: real)
    ensures Overlapping(ranges, start, end) == [] <==>
            forall i :: 0 <= i < |ranges| ==> !Overlaps(ranges[i], start, end)
  {
    if ranges != [] {
      NoneOverlaps(ranges[..|ranges| - 1], start, end);
    }
  }

  /** Some end hits a range, or no range lies strictly inside. */
  ghost predicate Covered(ranges: seq<DataRange>, start: real, end: real) {
    || (exists x :: x in ranges && (Contains(x, start) || Contains(x, end)))
    || (forall x :: x in ranges ==> !(start < x.start && x.end < end))
  }

  /** Every overlapping range is returned, with others perhaps, exactly in these cases. */
  lemma NoneIsMissedExactly(ranges: seq<DataRange>, start: real, end: real, s: int, e: int)
    requires Disjoint(ranges) && start <= end && Found(ranges, start, s) && Found(ranges, end, e)
    ensures var (lo, hi) := Bounds(|ranges|, s, e);
            (forall x :: x in ranges && Overlaps(x, start, end) ==> x in Slice(ranges, lo, hi))
            <==> Covered(ranges, start, end)
  {
    var (lo, hi) := Bounds(|ranges|, s, e);
    if s == -1 && e == -1 {
      forall x | x in ranges ensures Overlaps(x, start, end) <==> start < x.start && x.end < end {
        assert !Contains(x, start) && !Contains(x, end);
      }
    } else {
      assert ranges[if s != -1 then s else e] in ranges;
      forall i | 0 <= i < |ranges| && Overlaps(ranges[i], start, end) ensures ranges[i] in Slice(ranges, lo, hi) {
        assert lo <= i < hi <= |ranges|;
        assert Slice(ranges, lo, hi)[i - lo] == ranges[i];
      }
    }
  }

  /** When both ends hit a range, exactly the overlapping ranges are returned. */
  lemma BothEndsHit(ranges: seq<DataRange>, start: real, end: real, s: nat, e: nat)
    requires Disjoint(ranges) && start <= end && Found(ranges, start, s) && Found(ranges, end, e)
    ensures s <= e && ranges[s..e + 1] == Overlapping(ranges, start, end)
  {
    forall i | 0 <= i < |ranges| ensures Overlaps(ranges[i], start, end) <==> s <= i < e + 1 {
    }
    assert Overlaps(ranges[s], start, end);
    CutIsOverlapping(ranges, start, end, s, e + 1);
  }

  /** When an end hits no range, the slice may hold ranges beyond it, or miss those inside.  Whether it
      does can be seen from the first range, from the last one, or from those between the ends. */
  ghost predicate Precise(ranges: seq<DataRange>, start: real, end: real, s: int, e: int)
    requires -1 <= s < |ranges| && -1 <= e < |ranges|
  {
    && (s == -1 && e != -1 ==> ranges[0].end >= start)
    && (s != -1 && e == -1 ==> ranges[|ranges| - 1].start <= end)
    && (s == -1 && e == -1 ==> forall i :: 0 <= i < |ranges| ==> !(start < ranges[i].start && ranges[i].end < end))
  }

  /** `get_ranges` returns the overlapping ranges exactly in these cases; both ends hitting is one of them. */
  lemma GetRangesIsPreciseExactly(ranges: seq<DataRange>, start: real, end: real, s: int, e: int)
    requires Disjoint(ranges) && start <= end && Found(ranges, start, s) && Found(ranges, end, e)
    ensures var (lo, hi) := Bounds(|ranges|, s, e);
            Slice(ranges, lo, hi) == Overlapping(ranges, start, end) <==> Precise(ranges, start, end, s, e)
  {
    if s != -1 && e != -1 {
      BothEndsHit(ranges, start, end, s, e);
    } else if s == -1 && e == -1 {
      NoneOverlaps(ranges, start, end);
      forall i | 0 <= i < |ranges|
        ensures Overlaps(ranges[i], start, end) <==> start < ranges[i].start && ranges[i].end < end
      {
      }
    } else if s == -1 {
      OnlyEndHits(ranges, start, end, e);
    } else {
      OnlyStartHits(ranges, start, end, s);
    }
  }

  lemma OnlyEndHits(ranges: seq<DataRange>, start: real, end: real, e: nat)
    requires Disjoint(ranges) && start <= end && Found(ranges, start, -1) && Found(ranges, end, e)
    ensures ranges[0..e + 1] == Overlapping(ranges, start, end) <==> ranges[0].end >= start
  {
    if ranges[0].end >= start {
      assert Cut(ranges, start, end, 0, e + 1);
      CutIsOverlapping(ranges, start, end, 0, e + 1);
    } else {
      assert ranges[0..e + 1][0] == ranges[0];
      if ranges[0] in Overlapping(ranges, start, end) {
        OverlappingMembers(ranges, start, end, ranges[0]);
      }
    }
  }

  lemma OnlyStartHits(ranges: seq<DataRange>, start: real, end: real, s: nat)
    requires Disjoint(ranges) && start <= end && Found(ranges, start, s) && Found(ranges, end, -1)
    ensures ranges[s..|ranges|] == Overlapping(ranges, start, end) <==> ranges[|ranges| - 1].start <= end
  {
    var last := |ranges| - 1;
    if ranges[last].start <= end {
      assert Cut(ranges, start, end, s, |ranges|);
      CutIsOverlapping(ranges, start, end, s, |ranges|);
    } else {
      assert ranges[s..|ranges|][last - s] == ranges[last];
      if ranges[last] in Overlapping(ranges, start, end) {
        OverlappingMembers(ranges, start, end, ranges[last]);
      }
    }
  }

  /** A range strictly inside the interval is missed when both ends lie in gaps. */
  lemma RangesMayBeMissed()
    ensures var ranges := [DataRange(1.0, 2.0)];
            && Found(ranges, 0.0, -1) && Found(ranges, 3.0, -1)
            && Slice(ranges, Bounds(1, -1, -1).0, Bounds(1, -1, -1).1) == []
            && Overlapping(ranges, 0.0, 3.0) == ranges
  {
    var ranges := [DataRange(1.0, 2.0)];
    assert ranges[..0] == [];
  }

  // Events.

  ghost predicate Increasing(events: seq<Event>) {
    forall i, j :: 0 <= i < j < |events| ==> events[i].at < events[j].at
  }

  /** `i` is the number of events before `key`. */
  ghost predicate Place(events: seq<Event>, key: real, i: int) {
    && 0 <= i <= |events|
    && (forall k :: 0 <= k < i ==> events[k].at < key)
    && (forall k :: i <= k < |events| ==> events[k].at >= key)
  }

  class TimelineEvent {
    var events: seq<Event>

    method Search(key: real) returns (r: nat)
      requires Increasing(events)
      ensures Place(events, key, r)
    {
      var l, u := 0, |events| - 1;
      while l <= u
        invariant 0 <= l <= u + 1 <= |events|
        invariant forall k :: 0 <= k < l ==> events[k].at < key
        invariant forall k :: u < k < |events| ==> events[k].at > key
        decreases u - l
      {
        var i := (l + u) / 2;
        if key == events[i].at {
          return i;
        } else if key < events[i].at {
          u := i - 1;
        } else {
          l := i + 1;
        }
      }
      return l;
    }

    /** All events from `start` to `end`, and the first one after `end` unless one happens at `end`. */
    method GetEvents(start: real, end: real) returns (r: seq<Event>)
      requires Increasing(events)
      ensures exists s, e :: Place(events, start, s) && Place(events, end, e) && r == Slice(events, s, e + 1)
      ensures forall event <- events :: start <= event.at <= end ==> event in r
      ensures forall event <- r :: event in events && event.at >= start
      ensures forall i :: 0 <= i < |r| - 1 ==> r[i].at < end
    {
      var s := Search(start);
      var e := Search(end);
      r := Slice(events, s, e + 1);
      SliceOfEvents(events, start, end, s, e);
    }

    method GetEventsBounds(start: real, end: real) returns (lo: nat, hi: nat)
      requires Increasing(events)
      ensures Place(events, start, lo) && hi > 0 && Place(events, end, hi - 1)
    {
      lo := Search(start);
      var e := Search(end);
      hi := e + 1;
    }
  }

  lemma NotAfter(events: seq<Event>, end: real, e: nat, k: nat)
    requires Increasing(events) && Place(events, end, e) && k < |events| && events[k].at <= end
    ensures k <= e
  {
    var here := if e < |events| then events[e] else events[k];
  }

  lemma PlacesAscend(events: seq<Event>, start: real, end: real, s: nat, e: nat)
    requires start <= end && Place(events, start, s) && Place(events, end, e)
    ensures s <= e
  {
    var here := if e < |events| then events[e] else Event(end);
  }

  lemma SliceOfEvents(events: seq<Event>, start: real, end: real, s: nat, e: nat)
    requires Increasing(events) && Place(events, start, s) && Place(events, end, e)
    ensures var r := Slice(events, s, e + 1);
            && (forall event <- events :: start <= event.at <= end ==> event in r)
            && (forall event <- r :: event in events && event.at >= start)
            && (forall i :: 0 <= i < |r| - 1 ==> r[i].at < end)
  {
    var r := Slice(events, s, e + 1);
    var hi := if e + 1 < |events| then e + 1 else |events|;
    forall event | event in events && start <= event.at <= end ensures event in r {
      var k :| 0 <= k < |events| && events[k] == event;
      NotAfter(events, end, e, k);
      assert r[k - s] == event;
    }
  }

  /** No later event is returned exactly if one happens at `end` or none happens after it. */
  lemma NothingLaterExactly(events: seq<Event>, start: real, end: real, s: nat, e: nat)
    requires Increasing(events) && start <= end && Place(events, start, s) && Place(events, end, e)
    ensures (forall event <- Slice(events, s, e + 1) :: event.at <= end) <==> e == |events| || events[e].at == end
  {
    var r := Slice(events, s, e + 1);
    if e < |events| {
      PlacesAscend(events, start, end, s, e);
      assert r[e - s] == events[e];
    }
  }
}
