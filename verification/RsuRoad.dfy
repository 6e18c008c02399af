/** Whether the units of scratch/scene1.cc reach all of the road, up to its end, which lies beyond the last unit. */
module RsuRoad {
  import opened Basics
  import opened RsuPlacement

  predicate OnRoad(p: Setup, roadLength: real, x: real, y: real) {
    0.0 <= x <= roadLength && -p.w / 2.0 <= y <= p.w / 2.0
  }

  ghost predicate RoadCovered(p: Setup, roadLength: real, units: seq<Position>) {
    forall x, y :: OnRoad(p, roadLength, x, y) ==> Covered(p.r, units, x, y)
  }

  /** How far beyond a unit its disc reaches over the whole width of the road. */
  function Half(p: Setup, s: Strategy): real {
    if s == Middle then p.rootH / 2.0 else p.rootF
  }

  /** The length of road beyond the last unit. */
  function Beyond(roadLength: real, units: seq<Position>): real
    requires units != []
  {
    roadLength - units[|units|-1].x
  }

  /** How wide the discs of the last unit and of the one before it are at the end of the road, counted from their
      edges. It matters for units on both sides only. */
  predicate EndRoots(p: Setup, e: real, last: real, previous: real) {
    && (e <= p.r ==> last >= 0.0 && Square(last) + Square(e) == Square(p.r))
    && (e + G(p) <= p.r ==> previous >= 0.0 && Square(previous) + Square(e + G(p)) == Square(p.r))
  }

  /** The end of the road is reached over its whole width: by the last unit, or by the last two from both edges. */
  predicate EndReached(p: Setup, s: Strategy, count: nat, e: real, last: real, previous: real) {
    || e <= Half(p, s)
    || (s == BothSide && count >= 2 && e + G(p) <= p.r && last + previous >= p.w)
  }

  /** With no deviation or a positive one the loop ends, because the spacing is positive. */
  lemma SpacingIsPositive(p: Setup, s: Strategy)
    requires Usable(p, s) && p.delta >= 0.0
    ensures Spacing(p, s) > 0.0
  {
    match s {
      case OneSide =>
        RootIsPositive(p.rootF, p.r * p.r - p.w * p.w, p.r, p.w);
      case BothSide =>
        BothSideSpacing(p);
      case Middle =>
        RootIsPositive(p.rootH, 4.0 * p.r * p.r - p.w * p.w, 2.0 * p.r, p.w);
    }
  }

  lemma RootIsPositive(root: real, square: real, a: real, b: real)
    requires IsRoot(root, square) && 0.0 <= b < a && square == a * a - b * b
    ensures root > 0.0
  {
    SquareStrict(a, b);
  }

  // ----- the place of a point of the end strip, seen from the last unit -----

  /** The point at distance v from the last unit's edge; on the middle line v is the distance upwards. */
  function Sideways(p: Setup, s: Strategy, n: nat, v: real): real {
    Across(p, s, n) + if s == BothSide && n % 2 == 1 then -v else v
  }

  /** The largest distance across the road from a unit. */
  function Widest(p: Setup, s: Strategy): real {
    if s == Middle then p.w / 2.0 else p.w
  }

  lemma HalfAndWidest(p: Setup, s: Strategy)
    requires Usable(p, s)
    ensures 0.0 <= p.w < p.r && Half(p, s) >= 0.0 && Widest(p, s) >= 0.0
    ensures Square(Half(p, s)) + Square(Widest(p, s)) == Square(p.r)
  {
    RootFacts(p, s);
  }

  lemma SidewaysIsOnRoad(p: Setup, s: Strategy, n: nat, v: real)
    requires p.w >= 0.0 && 0.0 <= v <= Widest(p, s)
    ensures -p.w / 2.0 <= Sideways(p, s, n, v) <= p.w / 2.0
  {
  }

  /** How far the point is from each unit, across the road. */
  lemma SidewaysFrom(p: Setup, s: Strategy, n: nat, k: nat, v: real)
    requires k <= n
    ensures s != BothSide || (n - k) % 2 == 0 ==> Square(Sideways(p, s, n, v) - Across(p, s, k)) == Square(v)
    ensures s == BothSide && (n - k) % 2 == 1 ==> Square(Sideways(p, s, n, v) - Across(p, s, k)) == Square(p.w - v)
  {
    hide Square;
    SquareFacts(v);
    SquareFacts(p.w - v);
    var off := Sideways(p, s, n, v) - Across(p, s, k);
    if s == BothSide && (n - k) % 2 == 1 {
      assert n % 2 != k % 2;
      assert off == p.w - v || off == -(p.w - v);
    } else if s == BothSide {
      assert n % 2 == k % 2;
      assert off == v || off == -v;
    }
  }

  // ----- the end strip is reached -----

  lemma EndStripIsReached(p: Setup, s: Strategy, roadLength: real, units: seq<Position>, last: real, previous: real,
                          x: real, y: real)
    requires Usable(p, s) && Spacing(p, s) > 0.0 && Placed(p, s, roadLength, units) && units != []
    requires var e := Beyond(roadLength, units);
      (s == BothSide ==> EndRoots(p, e, last, previous)) && EndReached(p, s, |units|, e, last, previous)
    requires units[|units|-1].x <= x && OnRoad(p, roadLength, x, y)
    ensures Covered(p.r, units, x, y)
  {
    hide Square, Multiple, Spacing, Usable, Across;
    var n, e, t := |units| - 1, Beyond(roadLength, units), x - units[|units|-1].x;
    HalfAndWidest(p, s);
    if e <= Half(p, s) {
      AcrossBound(p, s, n, y);
      SquareMonotone(t, Half(p, s));
      SquareMonotone(y - Across(p, s, n), Widest(p, s));
      assert Reaches(p.r, units[n], x, y);
    } else {
      assert Spacing(p, s) == G(p) by {
        BothSideSpacingIsG(p);
      }
      TwoDiscsReach(p, n, e, last, previous, t, y);
      Multiples(n - 1, Spacing(p, s));
      assert Reaches(p.r, units[n], x, y) || Reaches(p.r, units[n-1], x, y);
    }
  }

  lemma BothSideSpacingIsG(p: Setup)
    ensures Spacing(p, BothSide) == G(p)
  {
  }

  lemma AcrossBound(p: Setup, s: Strategy, n: nat, y: real)
    requires -p.w / 2.0 <= y <= p.w / 2.0
    ensures -Widest(p, s) <= y - Across(p, s, n) <= Widest(p, s)
  {
  }

  lemma TwoDiscsReach(p: Setup, n: nat, e: real, last: real, previous: real, t: real, y: real)
    requires p.w >= 0.0 && G(p) > 0.0 && n > 0 && EndRoots(p, e, last, previous)
    requires e + G(p) <= p.r && last + previous >= p.w && 0.0 <= t <= e && -p.w / 2.0 <= y <= p.w / 2.0
    ensures Square(t) + Square(y - Across(p, BothSide, n)) <= Square(p.r)
         || Square(t + G(p)) + Square(y - Across(p, BothSide, n - 1)) <= Square(p.r)
  {
    hide Square, G;
    var v := if n % 2 == 0 then y + p.w / 2.0 else p.w / 2.0 - y;
    SquareFacts(v);
    SquareFacts(p.w - v);
    if v <= last {
      SquareMonotone(t, e);
      SquareMonotone(v, last);
    } else {
      SquareMonotone(t + G(p), e + G(p));
      SquareMonotone(p.w - v, previous);
    }
    assert y - Across(p, BothSide, n) == v || y - Across(p, BothSide, n) == -v;
    assert y - Across(p, BothSide, n - 1) == p.w - v || y - Across(p, BothSide, n - 1) == -(p.w - v);
  }

  // ----- a point of the end line is not reached -----

  lemma NoUnitReaches(p: Setup, s: Strategy, roadLength: real, units: seq<Position>, v: real, k: nat)
    requires p.w >= 0.0 && Spacing(p, s) > 0.0 && Placed(p, s, roadLength, units) && k < |units|
    requires var e := Beyond(roadLength, units);
      && e >= 0.0 && Square(e) + Square(v) > Square(p.r)
      && (s == BothSide && |units| >= 2 ==> Square(e + G(p)) + Square(p.w - v) > Square(p.r))
    ensures !Reaches(p.r, units[k], roadLength, Sideways(p, s, |units| - 1, v))
  {
    hide Square, Multiple, Spacing, Sideways, Across;
    var n, e, d := |units| - 1, Beyond(roadLength, units), Spacing(p, s);
    SidewaysFrom(p, s, n, k, v);
    MultiplesGrow(d, k, n);
    var far := roadLength - units[k].x;
    if s == BothSide && (n - k) % 2 == 1 {
      BothSideSpacingIsG(p);
      SquareMonotone(e + d, far);
    } else {
      SquareMonotone(e, far);
    }
  }

  /** Where the end of the road is not reached. */
  function EndGap(p: Setup, s: Strategy, count: nat, e: real, last: real, previous: real): real {
    if s == BothSide && count >= 2 && e + G(p) <= p.r then (last + p.w - previous) / 2.0 else Widest(p, s)
  }

  lemma EndGapIsOut(p: Setup, s: Strategy, count: nat, e: real, last: real, previous: real)
    requires Usable(p, s) && Spacing(p, s) > 0.0 && e >= 0.0
    requires (s == BothSide ==> EndRoots(p, e, last, previous)) && !EndReached(p, s, count, e, last, previous)
    ensures var v := EndGap(p, s, count, e, last, previous);
      && 0.0 <= v <= Widest(p, s)
      && Square(e) + Square(v) > Square(p.r)
      && (s == BothSide && count >= 2 ==> Square(e + G(p)) + Square(p.w - v) > Square(p.r))
  {
    hide Square, G, Usable, Spacing;
    HalfAndWidest(p, s);
    BothSideSpacingIsG(p);
    SquareStrict(e, Half(p, s));
    var v := EndGap(p, s, count, e, last, previous);
    if s == BothSide && count >= 2 {
      if e + G(p) <= p.r {
        SquareMonotone(e, e + G(p));
        RootOrder(last, p.w);
        RootOrder(previous, last);
        SquareStrict(v, last);
        SquareStrict(p.w - v, previous);
      } else {
        SquareStrict(e + G(p), p.r);
        SquareFacts(p.w - v);
      }
    }
  }

  // ----- the whole road -----

  /** All of the road is reached exactly when the strip between the first and the last unit is, for which the
      deviation must not be positive or there must be one unit only, and the end of the road is. */
  lemma RoadCoverageExactly(p: Setup, s: Strategy, roadLength: real, units: seq<Position>, last: real, previous: real)
    requires Usable(p, s) && Spacing(p, s) > 0.0 && Placed(p, s, roadLength, units) && units != []
    requires s == BothSide ==> EndRoots(p, Beyond(roadLength, units), last, previous)
    ensures RoadCovered(p, roadLength, units) <==>
      (p.delta <= 0.0 || |units| == 1) && EndReached(p, s, |units|, Beyond(roadLength, units), last, previous)
  {
    hide Square, Multiple, Spacing, Usable, Reaches, EndReached, EndRoots, EndGap;
    var n, e := |units|, Beyond(roadLength, units);
    CoverageExactly(p, s, roadLength, units);
    StripIsOnRoad(p, s, roadLength, units);
    if StripCovered(p, units) && EndReached(p, s, n, e, last, previous) {
      forall x, y | OnRoad(p, roadLength, x, y) ensures Covered(p.r, units, x, y) {
        if x >= units[n-1].x {
          EndStripIsReached(p, s, roadLength, units, last, previous, x, y);
        } else {
          assert InStrip(p, units, x, y);
        }
      }
    }
    if !EndReached(p, s, n, e, last, previous) {
      EndIsNotReached(p, s, roadLength, units, last, previous);
    }
  }

  lemma StripIsOnRoad(p: Setup, s: Strategy, roadLength: real, units: seq<Position>)
    requires Placed(p, s, roadLength, units) && units != []
    ensures Beyond(roadLength, units) >= 0.0
    ensures RoadCovered(p, roadLength, units) ==> StripCovered(p, units)
  {
    hide Multiple, Spacing, Reaches;
    assert |units| - 1 < |units|;
    forall x, y | RoadCovered(p, roadLength, units) && InStrip(p, units, x, y) ensures Covered(p.r, units, x, y) {
      assert OnRoad(p, roadLength, x, y);
    }
  }

  lemma EndIsNotReached(p: Setup, s: Strategy, roadLength: real, units: seq<Position>, last: real, previous: real)
    requires Usable(p, s) && Spacing(p, s) > 0.0 && Placed(p, s, roadLength, units) && units != []
    requires s == BothSide ==> EndRoots(p, Beyond(roadLength, units), last, previous)
    requires !EndReached(p, s, |units|, Beyond(roadLength, units), last, previous)
    ensures var y := Sideways(p, s, |units| - 1, EndGap(p, s, |units|, Beyond(roadLength, units), last, previous));
      OnRoad(p, roadLength, roadLength, y) && !Covered(p.r, units, roadLength, y)
  {
    hide Square, Multiple, Spacing, Usable, Reaches, EndReached, EndRoots, EndGap, Sideways;
    var n, e := |units|, Beyond(roadLength, units);
    StripIsOnRoad(p, s, roadLength, units);
    HalfAndWidest(p, s);
    EndGapIsOut(p, s, n, e, last, previous);
    var v := EndGap(p, s, n, e, last, previous);
    SidewaysIsOnRoad(p, s, n - 1, v);
    Multiples(0, Spacing(p, s));
    FirstUnit(p, s, roadLength, units);
    forall k | 0 <= k < n ensures !Reaches(p.r, units[k], roadLength, Sideways(p, s, n - 1, v)) {
      NoUnitReaches(p, s, roadLength, units, v, k);
    }
  }

  lemma FirstUnit(p: Setup, s: Strategy, roadLength: real, units: seq<Position>)
    requires Placed(p, s, roadLength, units) && units != []
    ensures roadLength >= 0.0
  {
    hide Spacing;
    Multiples(0, Spacing(p, s));
    assert Multiple(0, Spacing(p, s)) <= roadLength;
  }

  /** With units that far apart, as they are without deviation, only the last unit can reach the end of the road. */
  lemma OnlyLastUnitAtEnd(p: Setup, s: Strategy, count: nat, e: real, last: real, previous: real)
    requires s == BothSide ==> G(p) >= p.r - p.rootF
    ensures EndReached(p, s, count, e, last, previous) <==> e <= Half(p, s)
  {
  }

  /** Whatever a square root is taken to be, the script's own road of 1 km with six lanes is not reached up to its
      end by units on both sides without deviation. */
  lemma OwnRoadIsNotCovered(p: Setup, units: seq<Position>)
    requires p.r == 50.0 && p.w == 21.0 && p.delta == 0.0 && Usable(p, BothSide)
    requires Placed(p, BothSide, 1000.0, units)
    ensures |units| == 11 && StripCovered(p, units) && !Covered(p.r, units, 1000.0, 10.5)
  {
    hide Square, Multiple, Reaches;
    BothSideSpacing(p);
    OwnRoot(p);
    var d := Spacing(p, BothSide);
    Multiples(10, d);
    TenTimes(d);
    assert 10 < |units| && !(11 < |units|);
    CoverageExactly(p, BothSide, 1000.0, units);
    var e := Beyond(1000.0, units);
    SquareStrict(e, p.rootF);
    SquareStrict(e + d, p.r);
    SquareFacts(p.w - p.w);
    RootFacts(p, BothSide);
    forall k | 0 <= k < 11 ensures !Reaches(p.r, units[k], 1000.0, 10.5) {
      NoUnitReaches(p, BothSide, 1000.0, units, p.w, k);
    }
  }

  lemma OwnRoot(p: Setup)
    requires p.r == 50.0 && p.w == 21.0 && RootF(p)
    ensures 45.0 < p.rootF < 45.4
  {
    if p.rootF >= 45.4 {
      SquareMonotone(45.4, p.rootF);
    } else if p.rootF <= 45.0 {
      SquareMonotone(p.rootF, 45.0);
    }
  }

  lemma TenTimes(d: real)
    ensures Multiple(10, d) == 10.0 * d && Multiple(11, d) == 11.0 * d
  {
  }
}
