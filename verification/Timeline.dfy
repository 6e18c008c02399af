/** Window queries on timelines: utils/grid.py, TimelineDataRange and TimelineEvent. */
module Timeline {

  datatype DataRange = DataRange(start: int, end: int)
  datatype Event = Event(at: int, value: int)

  // ----- ranges -----

  /** Sorted, as sort() leaves ranges of which none reaches into another; they may touch. */
  ghost predicate Touching(ranges: seq<DataRange>) {
    && (forall i :: 0 <= i < |ranges| ==> ranges[i].start <= ranges[i].end)
    && (forall i, j :: 0 <= i < j < |ranges| ==> ranges[i].end <= ranges[j].start)
  }

  /** Sorted and disjoint. */
  ghost predicate Ordered(ranges: seq<DataRange>) {
    && (forall i :: 0 <= i < |ranges| ==> ranges[i].start <= ranges[i].end)
    && (forall i, j :: 0 <= i < j < |ranges| ==> ranges[i].end < ranges[j].start)
  }

  predicate Holds(r: DataRange, key: int) {
    r.start <= key <= r.end
  }

  predicate Meets(r: DataRange, start: int, end: int) {
    r.start <= end && start <= r.end
  }

  /** More than touching an end of the window. */
  predicate Overlaps(r: DataRange, start: int, end: int) {
    r.start < end && start < r.end
  }

  /** Everything that meets the window, but perhaps not all of what merely touches one of its ends. */
  ghost predicate ExactUpToTouching(ranges: seq<DataRange>, start: int, end: int, found: seq<DataRange>) {
    && (forall r :: r in found ==> Meets(r, start, end))
    && (forall r :: r in ranges && Overlaps(r, start, end) ==> r in found)
  }

  /** The ranges that meet a window, in order. */
  ghost function MeetingRanges(ranges: seq<DataRange>, start: int, end: int): seq<DataRange> {
    if ranges == [] then [] else
    var last := ranges[|ranges|-1];
    MeetingRanges(ranges[..|ranges|-1], start, end) + if Meets(last, start, end) then [last] else []
  }

  ghost predicate Found(ranges: seq<DataRange>, key: int) {
    exists i :: 0 <= i < |ranges| && Holds(ranges[i], key)
  }

  class TimelineDataRange {
    var ranges: seq<DataRange>

    constructor ()
      ensures ranges == []
    {
      ranges := [];
    }

    method AddRange(r: DataRange)
      modifies this
      ensures ranges == old(ranges) + [r]
    {
      ranges := ranges + [r];
    }

    /** Binary search for a range that holds the key; -1 if it finds none. */
    method Search(key: int) returns (index: int)
      ensures index == Bisect(ranges, key, 0, |ranges| - 1)
      ensures -1 <= index < |ranges|
      ensures index >= 0 ==> Holds(ranges[index], key)
      ensures index == -1 && Touching(ranges) ==> !Found(ranges, key)
    {
      hide Touching, Found, Bisect;
      if Touching(ranges) {
        BisectFindsIt(ranges, key);
      }
      var l, u := 0, |ranges| - 1;
      while l <= u
        invariant 0 <= l && u < |ranges| && l <= u + 1
        invariant Bisect(ranges, key, l, u) == Bisect(ranges, key, 0, |ranges| - 1)
      {
        BisectStep(ranges, key, l, u);
        var i := (l + u) / 2;
        if ranges[i].start <= key && key <= ranges[i].end {
          return i;
        } else if key < ranges[i].start {
          u := i - 1;
        } else {
          l := i + 1;
        }
      }
      BisectStep(ranges, key, l, u);
      return -1;
    }

    /** The stretch of ranges between two that hold the two ends; an end that no range holds leaves its side open,
        and if that is so for both ends nothing is returned. */
    method GetRanges(start: int, end: int) returns (found: seq<DataRange>)
      ensures found == Answer(ranges, start, end)
      ensures Touching(ranges) && start <= end ==>
        && (ExactUpToTouching(ranges, start, end, found) <==> WindowIsExact(ranges, start, end))
        && (Found(ranges, start) && Found(ranges, end) ==> ExactUpToTouching(ranges, start, end, found))
        && (Found(ranges, start) || Found(ranges, end) ==>
              forall r :: r in ranges && Overlaps(r, start, end) ==> r in found)
        && (!Found(ranges, start) && !Found(ranges, end) ==> found == [])
      ensures Ordered(ranges) && start <= end ==>
        && (found == MeetingRanges(ranges, start, end) <==> WindowIsExact(ranges, start, end))
        && (Found(ranges, start) && Found(ranges, end) ==> found == MeetingRanges(ranges, start, end))
        && (Found(ranges, start) || Found(ranges, end) ==>
              forall r :: r in MeetingRanges(ranges, start, end) ==> r in found)
      ensures Touching(ranges) && start > end && Found(ranges, start) && Found(ranges, end) ==>
        |found| <= 1 && forall r :: r in found ==> Holds(r, start) && Holds(r, end)
    {
      hide Bisect, Touching, Ordered, ExactUpToTouching, WindowIsExact, MeetingRanges, Found;
      var s := Search(start);
      var e := Search(end);
      if s == -1 && e == -1 {
        found := [];
      } else if s == -1 {
        found := Slice(ranges, 0, e + 1);
      } else if e == -1 {
        found := Slice(ranges, s, |ranges|);
      } else {
        found := Slice(ranges, s, e + 1);
      }
      if Touching(ranges) && start <= end {
        AnswerOnTouching(ranges, start, end, s, e);
      }
      if Ordered(ranges) && start <= end {
        OrderedIsTouching(ranges);
        AnswerOnOrdered(ranges, start, end, s, e);
      }
      if Touching(ranges) && start > end {
        AnswerOnReversed(ranges, start, end, s, e);
      }
    }
  }

  /** What the binary search returns, whatever the order of the ranges is. */
  function Bisect(ranges: seq<DataRange>, key: int, l: int, u: int): (index: int)
    requires 0 <= l <= u + 1 <= |ranges|
    ensures index == -1 || (l <= index <= u && Holds(ranges[index], key))
    decreases u - l
  {
    if l > u then -1 else
    var i := (l + u) / 2;
    if Holds(ranges[i], key) then i
    else if key < ranges[i].start then Bisect(ranges, key, l, i - 1)
    else Bisect(ranges, key, i + 1, u)
  }

  lemma BisectStep(ranges: seq<DataRange>, key: int, l: int, u: int)
    requires 0 <= l <= u + 1 <= |ranges|
    ensures l > u ==> Bisect(ranges, key, l, u) == -1
    ensures l <= u ==>
      var i := (l + u) / 2;
      && l <= i <= u
      && Bisect(ranges, key, l, u) ==
           if Holds(ranges[i], key) then i
           else if key < ranges[i].start then Bisect(ranges, key, l, i - 1)
           else Bisect(ranges, key, i + 1, u)
  {
  }

  lemma {:induction false} BisectFinds(ranges: seq<DataRange>, key: int, l: int, u: int)
    requires 0 <= l <= u + 1 <= |ranges|
    requires Touching(ranges)
    ensures Bisect(ranges, key, l, u) == -1 ==> forall k :: l <= k <= u ==> !Holds(ranges[k], key)
    decreases u - l
  {
    if l <= u {
      var i := (l + u) / 2;
      BisectFinds(ranges, key, l, i - 1);
      BisectFinds(ranges, key, i + 1, u);
    }
  }

  lemma BisectFindsIt(ranges: seq<DataRange>, key: int)
    requires Touching(ranges)
    ensures Bisect(ranges, key, 0, |ranges| - 1) == -1 ==> !Found(ranges, key)
  {
    hide Bisect;
    BisectFinds(ranges, key, 0, |ranges| - 1);
  }

  /** A slice in Python is empty when its bounds are crossed, and ends where the list ends. */
  function Slice<T>(s: seq<T>, from: nat, to: nat): seq<T> {
    var end := if to <= |s| then to else |s|;
    if from <= end then s[from..end] else []
  }

  function Answer(ranges: seq<DataRange>, start: int, end: int): seq<DataRange> {
    Between(ranges, Bisect(ranges, start, 0, |ranges| - 1), Bisect(ranges, end, 0, |ranges| - 1))
  }

  /** The two searches for the ends of a window. */
  ghost predicate AreEnds(ranges: seq<DataRange>, start: int, end: int, s: int, e: int) {
    && -1 <= s < |ranges| && -1 <= e < |ranges|
    && (start == end ==> s == e)
    && (if s >= 0 then Holds(ranges[s], start) else !Found(ranges, start))
    && (if e >= 0 then Holds(ranges[e], end) else !Found(ranges, end))
  }

  function Between(ranges: seq<DataRange>, s: int, e: int): seq<DataRange>
    requires -1 <= s && -1 <= e
  {
    if s == -1 && e == -1 then []
    else Slice(ranges, if s == -1 then 0 else s, if e == -1 then |ranges| else e + 1)
  }

  lemma OrderedIsTouching(ranges: seq<DataRange>)
    requires Ordered(ranges)
    ensures Touching(ranges)
  {
  }

  /** The stretch that is returned when at least one end is held. */
  ghost predicate IsStretch(ranges: seq<DataRange>, s: int, e: int, a: nat, b: nat) {
    && a <= b <= |ranges| && (s >= 0 || e >= 0)
    && a == (if s == -1 then 0 else s) && b == if e == -1 then |ranges| else e + 1
  }

  lemma OverlappingAreFound(ranges: seq<DataRange>, start: int, end: int, s: int, e: int, a: nat, b: nat, i: nat)
    requires Touching(ranges) && AreEnds(ranges, start, end, s, e) && IsStretch(ranges, s, e, a, b)
    requires i < |ranges| && Overlaps(ranges[i], start, end)
    ensures ranges[i] in ranges[a..b]
  {
    assert a <= i < b;
    assert ranges[a..b][i-a] == ranges[i];
  }

  lemma FoundMeet(ranges: seq<DataRange>, start: int, end: int, s: int, e: int, a: nat, b: nat, i: nat)
    requires Touching(ranges) && start <= end && AreEnds(ranges, start, end, s, e) && IsStretch(ranges, s, e, a, b)
    requires a <= i < b
    ensures s >= 0 ==> start <= ranges[i].end
    ensures e >= 0 ==> ranges[i].start <= end
    ensures WindowIsExact(ranges, start, end) ==> Meets(ranges[i], start, end)
  {
    assert s >= 0 && s < i ==> ranges[s].end <= ranges[i].start;
    assert e >= 0 && i < e ==> ranges[i].end <= ranges[e].start;
  }

  lemma OutsideIsFound(ranges: seq<DataRange>, start: int, end: int, s: int, e: int, a: nat, b: nat)
    requires Touching(ranges) && start <= end && AreEnds(ranges, start, end, s, e) && IsStretch(ranges, s, e, a, b)
    requires !WindowIsExact(ranges, start, end)
    ensures exists r :: r in ranges[a..b] && !Meets(r, start, end)
  {
    if s >= 0 {
      var i :| 0 <= i < |ranges| && ranges[i].start > end;
      assert i >= s;
      assert ranges[a..b][i-a] == ranges[i] && !Meets(ranges[i], start, end);
    } else {
      var i :| 0 <= i < |ranges| && ranges[i].end < start;
      assert i <= e;
      assert ranges[a..b][i] == ranges[i] && !Meets(ranges[i], start, end);
    }
  }

  lemma AnswerOnTouching(ranges: seq<DataRange>, start: int, end: int, s: int, e: int)
    requires Touching(ranges) && start <= end && AreEnds(ranges, start, end, s, e)
    ensures var found := Between(ranges, s, e);
      && (ExactUpToTouching(ranges, start, end, found) <==> WindowIsExact(ranges, start, end))
      && (Found(ranges, start) && Found(ranges, end) ==> ExactUpToTouching(ranges, start, end, found))
      && (Found(ranges, start) || Found(ranges, end) ==>
            forall r :: r in ranges && Overlaps(r, start, end) ==> r in found)
      && (!Found(ranges, start) && !Found(ranges, end) ==> found == [])
  {
    hide WindowIsExact, Touching;
    EndsHeld(ranges, start, end, s, e);
    if s >= 0 || e >= 0 {
      var a, b := if s == -1 then 0 else s, if e == -1 then |ranges| else e + 1;
      EndsInOrder(ranges, start, end, s, e);
      forall r | r in ranges && Overlaps(r, start, end) ensures r in ranges[a..b] {
        var i :| 0 <= i < |ranges| && ranges[i] == r;
        OverlappingAreFound(ranges, start, end, s, e, a, b, i);
      }
      forall r | r in ranges[a..b] && WindowIsExact(ranges, start, end) ensures Meets(r, start, end) {
        var i :| a <= i < b && ranges[i] == r;
        FoundMeet(ranges, start, end, s, e, a, b, i);
      }
      if !WindowIsExact(ranges, start, end) {
        OutsideIsFound(ranges, start, end, s, e, a, b);
      }
    } else {
      NothingInside(ranges, start, end);
    }
  }

  lemma EndsHeld(ranges: seq<DataRange>, start: int, end: int, s: int, e: int)
    requires AreEnds(ranges, start, end, s, e)
    ensures s >= 0 <==> Found(ranges, start)
    ensures e >= 0 <==> Found(ranges, end)
    ensures s >= 0 && e >= 0 ==> WindowIsExact(ranges, start, end)
  {
  }

  lemma NothingInside(ranges: seq<DataRange>, start: int, end: int)
    requires Touching(ranges) && start <= end && !Found(ranges, start) && !Found(ranges, end)
    ensures WindowIsExact(ranges, start, end) <==> forall r :: r in ranges ==> !Overlaps(r, start, end)
  {
    NeitherEndHeld(ranges, start, end);
    if WindowIsExact(ranges, start, end) {
      forall r | r in ranges ensures !Overlaps(r, start, end) {
        var i :| 0 <= i < |ranges| && ranges[i] == r;
        assert !Meets(ranges[i], start, end);
      }
    } else {
      var i :| 0 <= i < |ranges| && Meets(ranges[i], start, end);
      assert ranges[i] in ranges;
    }
  }

  lemma EndsInOrder(ranges: seq<DataRange>, start: int, end: int, s: int, e: int)
    requires Touching(ranges) && start <= end && AreEnds(ranges, start, end, s, e)
    ensures s >= 0 && e >= 0 ==> s <= e
  {
  }

  lemma NeitherEndHeld(ranges: seq<DataRange>, start: int, end: int)
    requires start <= end && !Found(ranges, start) && !Found(ranges, end)
    requires forall i :: 0 <= i < |ranges| ==> ranges[i].start <= ranges[i].end
    ensures forall i :: 0 <= i < |ranges| ==> (Meets(ranges[i], start, end) <==> Overlaps(ranges[i], start, end))
  {
    forall i | 0 <= i < |ranges|
      ensures Meets(ranges[i], start, end) <==> Overlaps(ranges[i], start, end)
    {
      assert !Holds(ranges[i], start) && !Holds(ranges[i], end);
    }
  }

  lemma AnswerOnReversed(ranges: seq<DataRange>, start: int, end: int, s: int, e: int)
    requires Touching(ranges) && start > end && AreEnds(ranges, start, end, s, e)
    ensures Found(ranges, start) && Found(ranges, end) ==>
      && |Between(ranges, s, e)| <= 1
      && forall r :: r in Between(ranges, s, e) ==> Holds(r, start) && Holds(r, end)
  {
  }

  lemma AnswerOnOrdered(ranges: seq<DataRange>, start: int, end: int, s: int, e: int)
    requires Ordered(ranges) && start <= end && AreEnds(ranges, start, end, s, e)
    ensures var found := Between(ranges, s, e);
      && (found == MeetingRanges(ranges, start, end) <==> WindowIsExact(ranges, start, end))
      && (Found(ranges, start) && Found(ranges, end) ==> found == MeetingRanges(ranges, start, end))
      && (Found(ranges, start) || Found(ranges, end) ==>
            forall r :: r in MeetingRanges(ranges, start, end) ==> r in found)
  {
    hide MeetingRanges, WindowIsExact;
    EndsHeld(ranges, start, end, s, e);
    var lo, hi := MeetingStretch(ranges, start, end);
    WindowCases(ranges, start, end, s, e, lo, hi);
    if s == -1 && e == -1 {
      assert ranges[lo..hi] == [] <==> lo == hi;
    } else {
      var a, b := if s == -1 then 0 else s, if e == -1 then |ranges| else e + 1;
      assert Between(ranges, s, e) == ranges[a..b] && a <= lo <= hi <= b;
      StretchesDiffer(ranges, lo, hi, a, b);
      StretchWithin(ranges, lo, hi, a, b);
    }
  }

  lemma StretchWithin(ranges: seq<DataRange>, lo: nat, hi: nat, a: nat, b: nat)
    requires a <= lo <= hi <= b <= |ranges|
    ensures forall r :: r in ranges[lo..hi] ==> r in ranges[a..b]
  {
    assert forall i :: lo <= i < hi ==> ranges[a..b][i-a] == ranges[i];
  }

  /** Where the answer is exact: an end that no range holds must have no range on its far side, and if neither end is
      held there must be no range in the window. */
  ghost predicate WindowIsExact(ranges: seq<DataRange>, start: int, end: int) {
    if Found(ranges, start) then
      Found(ranges, end) || forall i :: 0 <= i < |ranges| ==> ranges[i].start <= end
    else if Found(ranges, end) then
      forall i :: 0 <= i < |ranges| ==> ranges[i].end >= start
    else
      forall i :: 0 <= i < |ranges| ==> !Meets(ranges[i], start, end)
  }

  /** The window cuts the ranges into those before it, those that meet it and those after it. */
  ghost predicate Cut(ranges: seq<DataRange>, start: int, end: int, lo: nat, hi: nat) {
    && lo <= hi <= |ranges|
    && (forall i :: 0 <= i < lo ==> ranges[i].end < start)
    && (forall i :: lo <= i < hi ==> Meets(ranges[i], start, end))
    && (forall i :: hi <= i < |ranges| ==> ranges[i].start > end)
  }

  /** The meeting ranges are one stretch. */
  lemma MeetingStretch(ranges: seq<DataRange>, start: int, end: int) returns (lo: nat, hi: nat)
    requires Ordered(ranges) && start <= end
    ensures Cut(ranges, start, end, lo, hi) && MeetingRanges(ranges, start, end) == ranges[lo..hi]
  {
    lo := 0;
    while lo < |ranges| && ranges[lo].end < start
      invariant lo <= |ranges| && forall i :: 0 <= i < lo ==> ranges[i].end < start
    {
      lo := lo + 1;
    }
    hi := lo;
    while hi < |ranges| && ranges[hi].start <= end
      invariant lo <= hi <= |ranges| && forall i :: lo <= i < hi ==> Meets(ranges[i], start, end)
    {
      hi := hi + 1;
    }
    MeetingIsStretch(ranges, start, end, lo, hi);
  }

  lemma LongerSlice<T>(s: seq<T>, lo: nat, n: nat)
    requires lo <= n < |s|
    ensures s[lo..n+1] == s[..n][lo..n] + [s[n]]
  {
  }

  lemma SameSlice<T>(s: seq<T>, lo: nat, hi: nat, n: nat)
    requires lo <= hi <= n <= |s|
    ensures s[lo..hi] == s[..n][lo..hi]
  {
  }

  lemma {:induction false} MeetingIsStretch(ranges: seq<DataRange>, start: int, end: int, lo: nat, hi: nat)
    requires start <= end && Cut(ranges, start, end, lo, hi)
    requires forall i :: 0 <= i < |ranges| ==> ranges[i].start <= ranges[i].end
    ensures MeetingRanges(ranges, start, end) == ranges[lo..hi]
  {
    hide Meets;
    if ranges != [] {
      var n := |ranges| - 1;
      LastOfCut(ranges, start, end, lo, hi);
      if hi == n + 1 && lo <= n {
        MeetingIsStretch(ranges[..n], start, end, lo, n);
        LongerSlice(ranges, lo, n);
      } else if hi == n + 1 {
        MeetingIsStretch(ranges[..n], start, end, n, n);
      } else {
        MeetingIsStretch(ranges[..n], start, end, lo, hi);
        SameSlice(ranges, lo, hi, n);
      }
    }
  }

  lemma LastOfCut(ranges: seq<DataRange>, start: int, end: int, lo: nat, hi: nat)
    requires Cut(ranges, start, end, lo, hi) && ranges != []
    requires ranges[|ranges|-1].start <= ranges[|ranges|-1].end
    ensures Meets(ranges[|ranges|-1], start, end) <==> lo < hi == |ranges|
  {
    var last := ranges[|ranges|-1];
    if hi < |ranges| {
      assert last.start > end;
    } else if lo < hi {
      assert Meets(last, start, end);
    } else {
      assert last.end < start;
    }
  }

  /** Where the found positions lie with respect to the meeting ranges, and when the open sides do no harm. */
  lemma WindowCases(ranges: seq<DataRange>, start: int, end: int, s: int, e: int, lo: nat, hi: nat)
    requires Ordered(ranges) && start <= end && Cut(ranges, start, end, lo, hi)
    requires -1 <= s < |ranges| && -1 <= e < |ranges|
    requires if s >= 0 then Holds(ranges[s], start) else !Found(ranges, start)
    requires if e >= 0 then Holds(ranges[e], end) else !Found(ranges, end)
    ensures s >= 0 <==> Found(ranges, start)
    ensures e >= 0 <==> Found(ranges, end)
    ensures s >= 0 ==> lo == s < hi
    ensures e >= 0 ==> lo < hi == e + 1
    ensures s == -1 && e >= 0 ==> (WindowIsExact(ranges, start, end) <==> lo == 0)
    ensures s >= 0 && e == -1 ==> (WindowIsExact(ranges, start, end) <==> hi == |ranges|)
    ensures s == -1 && e == -1 ==> (WindowIsExact(ranges, start, end) <==> lo == hi)
  {
    assert lo < |ranges| ==> ranges[lo].end >= start;
    assert hi < |ranges| ==> ranges[hi].start > end;
    assert lo > 0 ==> ranges[0].end < start;
    assert forall i :: 0 <= i < hi ==> ranges[i].start <= end;
    assert forall i :: lo <= i < |ranges| ==> ranges[i].end >= start;
    if 0 <= s {
      assert s > 0 ==> ranges[s-1].end < ranges[s].start;
    }
    if 0 <= e {
      assert e + 1 < |ranges| ==> ranges[e].end < ranges[e+1].start;
    }
  }

  lemma StretchesDiffer(ranges: seq<DataRange>, lo: nat, hi: nat, a: nat, b: nat)
    requires Ordered(ranges) && lo <= hi <= |ranges| && a < b <= |ranges|
    ensures ranges[lo..hi] == ranges[a..b] <==> lo == a && hi == b
  {
    if ranges[lo..hi] == ranges[a..b] {
      assert ranges[lo..hi][0] == ranges[lo] && ranges[a..b][0] == ranges[a];
    }
  }

  // ----- events -----

  ghost predicate Increasing(events: seq<Event>) {
    forall i, j :: 0 <= i < j < |events| ==> events[i].at < events[j].at
  }

  /** As sort() leaves them: there may be several events at the same time. */
  ghost predicate NonDecreasing(events: seq<Event>) {
    forall i, j :: 0 <= i < j < |events| ==> events[i].at <= events[j].at
  }

  /** The events of a window, in order. */
  ghost function EventsIn(events: seq<Event>, start: int, end: int): seq<Event> {
    if events == [] then [] else
    var last := events[|events|-1];
    EventsIn(events[..|events|-1], start, end) + if start <= last.at <= end then [last] else []
  }

  class TimelineEvent {
    var events: seq<Event>

    constructor ()
      ensures events == []
    {
      events := [];
    }

    method AddEvent(e: Event)
      modifies this
      ensures events == old(events) + [e]
    {
      events := events + [e];
    }

    /** Binary search for an event at the key, or for the place where one would go. */
    method Search(key: int) returns (index: nat)
      ensures index == BisectEvents(events, key, 0, |events| - 1)
      ensures index <= |events|
      ensures NonDecreasing(events) ==> IsPlace(events, key, index)
      ensures Increasing(events) ==> forall i :: 0 <= i < |events| ==> (events[i].at < key <==> i < index)
    {
      hide NonDecreasing, Increasing, IsPlace, BisectEvents;
      if NonDecreasing(events) {
        PlaceIsFound(events, key, 0, |events| - 1);
      }
      if Increasing(events) {
        PlaceWithoutTies(events, key);
      }
      var l, u := 0, |events| - 1;
      while l <= u
        invariant 0 <= l <= u + 1 <= |events|
        invariant BisectEvents(events, key, l, u) == BisectEvents(events, key, 0, |events| - 1)
      {
        BisectEventsStep(events, key, l, u);
        var i := (l + u) / 2;
        if key == events[i].at {
          return i;
        } else if key < events[i].at {
          u := i - 1;
        } else {
          l := i + 1;
        }
      }
      BisectEventsStep(events, key, l, u);
      return l;
    }

    /** The events of the window, and perhaps the first one after it. */
    method GetEvents(start: int, end: int) returns (found: seq<Event>)
      ensures found == Slice(events, BisectEvents(events, start, 0, |events| - 1),
                             BisectEvents(events, end, 0, |events| - 1) + 1)
      ensures NonDecreasing(events) && start <= end ==> ExactButForTies(events, start, end, found)
      ensures NonDecreasing(events) && start > end ==> |found| <= 1 && forall x :: x in found ==> x.at >= start
      ensures Increasing(events) && start <= end ==>
        && EventsIn(events, start, end) <= found
        && IsOvershoot(events, end, found[|EventsIn(events, start, end)|..])
    {
      hide EventsIn, IsOvershoot, Increasing, NonDecreasing, ExactButForTies, BisectEvents;
      var s := Search(start);
      var e := Search(end);
      found := Slice(events, s, e + 1);
      if NonDecreasing(events) && start <= end {
        WindowWithTies(events, start, end, s, e);
      }
      if NonDecreasing(events) && start > end {
        ReversedWindow(events, start, end, s, e);
      }
      if Increasing(events) && start <= end {
        WindowWithoutTies(events, start, end, s, e);
      }
    }
  }

  /** What the binary search returns, whatever the order of the events is. */
  function BisectEvents(events: seq<Event>, key: int, l: int, u: int): (index: nat)
    requires 0 <= l <= u + 1 <= |events|
    ensures l <= index <= u + 1
    decreases u - l
  {
    if l > u then l else
    var i := (l + u) / 2;
    if key == events[i].at then i
    else if key < events[i].at then BisectEvents(events, key, l, i - 1)
    else BisectEvents(events, key, i + 1, u)
  }

  lemma BisectEventsStep(events: seq<Event>, key: int, l: int, u: int)
    requires 0 <= l <= u + 1 <= |events|
    ensures l > u ==> BisectEvents(events, key, l, u) == l
    ensures l <= u ==>
      var i := (l + u) / 2;
      && l <= i <= u
      && BisectEvents(events, key, l, u) ==
           if key == events[i].at then i
           else if key < events[i].at then BisectEvents(events, key, l, i - 1)
           else BisectEvents(events, key, i + 1, u)
  {
  }

  /** An event at the key if there is one, and otherwise the place that divides earlier from later events. */
  ghost predicate IsPlace(events: seq<Event>, key: int, index: nat) {
    && index <= |events|
    && (forall i :: 0 <= i < index ==> events[i].at <= key)
    && (forall i :: index <= i < |events| ==> events[i].at >= key)
    && ((exists i :: 0 <= i < |events| && events[i].at == key) ==> index < |events| && events[index].at == key)
  }

  lemma {:induction false} PlaceIsFound(events: seq<Event>, key: int, l: int, u: int)
    requires NonDecreasing(events) && 0 <= l <= u + 1 <= |events|
    requires forall i :: 0 <= i < l ==> events[i].at < key
    requires forall i :: u < i < |events| ==> events[i].at > key
    ensures IsPlace(events, key, BisectEvents(events, key, l, u))
    decreases u - l
  {
    hide NonDecreasing, IsPlace;
    if l > u {
      DividingPlace(events, key, l);
    } else {
      var i := (l + u) / 2;
      AroundEvent(events, i);
      if key < events[i].at {
        PlaceIsFound(events, key, l, i - 1);
      } else if key > events[i].at {
        PlaceIsFound(events, key, i + 1, u);
      } else {
        PlaceOfEvent(events, key, i);
      }
    }
  }

  lemma PlaceWithoutTies(events: seq<Event>, key: int)
    requires Increasing(events)
    ensures forall i :: 0 <= i < |events| ==>
      (events[i].at < key <==> i < BisectEvents(events, key, 0, |events| - 1))
  {
    hide BisectEvents;
    PlaceIsFound(events, key, 0, |events| - 1);
    var index := BisectEvents(events, key, 0, |events| - 1);
    forall i | 0 <= i < |events| ensures events[i].at < key <==> i < index {
      assert events[i].at == key ==> index < |events| && events[index].at == key;
    }
  }

  lemma AroundEvent(events: seq<Event>, i: nat)
    requires NonDecreasing(events) && i < |events|
    ensures forall k :: 0 <= k <= i ==> events[k].at <= events[i].at
    ensures forall k :: i <= k < |events| ==> events[k].at >= events[i].at
  {
  }

  lemma DividingPlace(events: seq<Event>, key: int, l: nat)
    requires l <= |events|
    requires forall i :: 0 <= i < l ==> events[i].at < key
    requires forall i :: l <= i < |events| ==> events[i].at > key
    ensures IsPlace(events, key, l)
  {
  }

  lemma PlaceOfEvent(events: seq<Event>, key: int, i: nat)
    requires NonDecreasing(events) && i < |events| && events[i].at == key
    ensures IsPlace(events, key, i)
  {
  }

  /** Some event is at this time. */
  ghost predicate HasEventAt(events: seq<Event>, at: int) {
    exists x :: x in events && x.at == at
  }

  /** Every event inside the window, and at least one at each end that has any. */
  ghost predicate FillsWindow(events: seq<Event>, start: int, end: int, found: seq<Event>) {
    && (forall x :: x in found ==> x in events && x.at >= start)
    && (forall x :: x in events && start < x.at < end ==> x in found)
    && (HasEventAt(events, start) ==> found != [] && found[0].at == start)
    && (HasEventAt(events, end) ==> found != [] && found[|found|-1].at == end)
  }

  /** Nothing after the window but perhaps one event, a first one after it, and that exactly when there is none at its
      end. */
  ghost predicate OvershootsByOne(events: seq<Event>, end: int, found: seq<Event>) {
    && (forall k :: 0 <= k < |found| - 1 ==> found[k].at <= end)
    && (found != [] && found[|found|-1].at > end ==>
          forall x :: x in events ==> x.at < end || x.at >= found[|found|-1].at)
    && ((exists x :: x in events && x.at > end) ==> found != [] && found[|found|-1].at >= end)
  }

  ghost predicate ExactButForTies(events: seq<Event>, start: int, end: int, found: seq<Event>) {
    FillsWindow(events, start, end, found) && OvershootsByOne(events, end, found)
  }

  lemma StretchFillsWindow(events: seq<Event>, start: int, end: int, s: nat, e: nat, b: nat)
    requires NonDecreasing(events) && start <= end && IsPlace(events, start, s) && IsPlace(events, end, e)
    requires s <= e && b == if e + 1 <= |events| then e + 1 else |events|
    ensures FillsWindow(events, start, end, events[s..b])
  {
    hide NonDecreasing;
    var found := events[s..b];
    forall x | x in events && start < x.at < end ensures x in found {
      var i :| 0 <= i < |events| && events[i] == x;
      assert s <= i < b;
      assert found[i-s] == x;
    }
    if x :| x in events && x.at == start {
      var i :| 0 <= i < |events| && events[i] == x;
      assert events[s].at == start;
    }
    if x :| x in events && x.at == end {
      var i :| 0 <= i < |events| && events[i] == x;
      assert events[e].at == end && found[|found|-1] == events[e];
    }
  }

  lemma StretchOvershootsByOne(events: seq<Event>, end: int, s: nat, e: nat, b: nat)
    requires NonDecreasing(events) && IsPlace(events, end, e)
    requires s <= e && b == if e + 1 <= |events| then e + 1 else |events|
    ensures OvershootsByOne(events, end, events[s..b])
  {
    hide NonDecreasing;
    var found := events[s..b];
    if found != [] && found[|found|-1].at > end {
      assert found[|found|-1] == events[e];
      AroundEvent(events, e);
      forall x | x in events ensures x.at < end || x.at >= events[e].at {
        var i :| 0 <= i < |events| && events[i] == x;
        assert events[i].at != end;
      }
    }
    if x :| x in events && x.at > end {
      var i :| 0 <= i < |events| && events[i] == x;
      assert i >= e && found[|found|-1] == events[e];
    }
  }

  lemma WindowWithTies(events: seq<Event>, start: int, end: int, s: nat, e: nat)
    requires NonDecreasing(events) && start <= end && IsPlace(events, start, s) && IsPlace(events, end, e)
    requires start == end ==> s == e
    ensures ExactButForTies(events, start, end, Slice(events, s, e + 1))
  {
    hide FillsWindow, OvershootsByOne;
    if start < end {
      PlacesInOrder(events, start, end, s, e);
    }
    var b := if e + 1 <= |events| then e + 1 else |events|;
    assert s <= b;
    StretchFillsWindow(events, start, end, s, e, b);
    StretchOvershootsByOne(events, end, s, e, b);
  }

  lemma PlacesInOrder(events: seq<Event>, start: int, end: int, s: nat, e: nat)
    requires NonDecreasing(events) && start < end && IsPlace(events, start, s) && IsPlace(events, end, e)
    ensures s <= e
  {
  }

  lemma ReversedWindow(events: seq<Event>, start: int, end: int, s: nat, e: nat)
    requires NonDecreasing(events) && start > end && IsPlace(events, start, s) && IsPlace(events, end, e)
    ensures var found := Slice(events, s, e + 1); |found| <= 1 && forall x :: x in found ==> x.at >= start
  {
  }

  lemma WindowWithoutTies(events: seq<Event>, start: int, end: int, s: nat, e: nat)
    requires Increasing(events) && start <= end && s <= |events| && e <= |events|
    requires forall i :: 0 <= i < |events| ==> (events[i].at < start <==> i < s)
    requires forall i :: 0 <= i < |events| ==> (events[i].at < end <==> i < e)
    ensures var found := Slice(events, s, e + 1);
      && EventsIn(events, start, end) <= found
      && IsOvershoot(events, end, found[|EventsIn(events, start, end)|..])
  {
    hide EventsIn, IsOvershoot;
    assert e < |events| ==> events[e].at >= start;
    assert s <= e;
    var stop := if e + 1 <= |events| then e + 1 else |events|;
    var found := events[s..stop];
    var hi := if e < |events| && events[e].at == end then e + 1 else e;
    EventsAreStretch(events, start, end, s, hi);
    Overshoot(events, end, e, hi, stop);
    assert found == events[s..hi] + events[hi..stop];
    assert found[hi - s..] == events[hi..stop];
  }

  lemma Overshoot(events: seq<Event>, end: int, e: nat, hi: nat, stop: nat)
    requires Increasing(events) && e <= |events|
    requires forall i :: 0 <= i < |events| ==> (events[i].at < end <==> i < e)
    requires hi == (if e < |events| && events[e].at == end then e + 1 else e)
    requires stop == if e + 1 <= |events| then e + 1 else |events|
    ensures hi <= stop && IsOvershoot(events, end, events[hi..stop])
  {
    if hi < stop {
      assert events[hi].at > end && events[hi..stop] == [events[hi]];
    }
  }

  /** What comes after the window: nothing if some event is exactly at its end or none comes after it, and otherwise
      the first event after it. */
  ghost predicate IsOvershoot(events: seq<Event>, end: int, extra: seq<Event>) {
    if (exists i :: 0 <= i < |events| && events[i].at == end) || (forall i :: 0 <= i < |events| ==> events[i].at <= end)
    then extra == []
    else exists k :: 0 <= k < |events| && events[k].at > end && extra == [events[k]]
                  && forall i :: 0 <= i < k ==> events[i].at <= end
  }

  lemma {:induction false} EventsAreStretch(events: seq<Event>, start: int, end: int, lo: nat, hi: nat)
    requires lo <= hi <= |events|
    requires forall i :: 0 <= i < |events| ==> (start <= events[i].at <= end <==> lo <= i < hi)
    ensures EventsIn(events, start, end) == events[lo..hi]
  {
    if events != [] {
      var n := |events| - 1;
      assert start <= events[n].at <= end <==> lo <= n < hi;
      if lo <= n < hi {
        EventsAreStretch(events[..n], start, end, lo, n);
        LongerSlice(events, lo, n);
      } else if lo == n + 1 {
        EventsAreStretch(events[..n], start, end, n, n);
      } else {
        EventsAreStretch(events[..n], start, end, lo, hi);
        SameSlice(events, lo, hi, n);
      }
    }
  }
}
