/** Roadside units along a straight road, scratch/scene1.cc: the spacing functions, the placement loop, and which part
    of the road the units reach. Exact reals stand for doubles; a square root is a value given with its square. */
module RsuPlacement {
  import opened Basics

  datatype Strategy = OneSide | BothSide | Middle

  predicate IsRoot(root: real, square: real) {
    root >= 0.0 && root * root == square
  }

  /** Transmission radius, road width, deviation, and the square roots that the spacing functions take. */
  datatype Setup = Setup(r: real, w: real, delta: real, rootF: real, rootG: real, rootH: real)

  function F(p: Setup): real {
    2.0 * p.rootF + p.delta
  }

  function G(p: Setup): real {
    p.rootG + p.delta
  }

  function H(p: Setup): real {
    p.rootH + p.delta
  }

  predicate RootF(p: Setup) {
    IsRoot(p.rootF, p.r * p.r - p.w * p.w)
  }

  predicate RootG(p: Setup) {
    IsRoot(p.rootG, 2.0 * p.r * p.r - p.w * p.w + p.r * F(p))
  }

  predicate RootH(p: Setup) {
    IsRoot(p.rootH, 4.0 * p.r * p.r - p.w * p.w)
  }

  /** The radius exceeds the road width, and the roots a strategy needs are there. */
  predicate Usable(p: Setup, s: Strategy) {
    && 0.0 <= p.w < p.r
    && match s
       case OneSide => RootF(p)
       case BothSide => RootF(p) && RootG(p)
       case Middle => RootH(p)
  }

  function Spacing(p: Setup, s: Strategy): real {
    match s
    case OneSide => F(p)
    case BothSide => G(p)
    case Middle => H(p)
  }

  /** Across the road: always one edge, alternating edges, or the middle line. */
  function Across(p: Setup, s: Strategy, k: nat): real {
    match s
    case OneSide => -p.w / 2.0
    case BothSide => if k % 2 == 0 then -p.w / 2.0 else p.w / 2.0
    case Middle => 0.0
  }

  function Multiple(k: nat, d: real): real {
    k as real * d
  }

  function UnitAt(p: Setup, s: Strategy, k: nat): Position {
    Position(Multiple(k, Spacing(p, s)), Across(p, s, k))
  }

  function StrategyOf(placement: string): Option<Strategy> {
    if placement == "one-side" then Some(OneSide)
    else if placement == "both-side" then Some(BothSide)
    else if placement == "middle" then Some(Middle)
    else None
  }

  /** The units stand at the multiples of the spacing, as many as fit on the road. */
  ghost predicate Placed(p: Setup, s: Strategy, roadLength: real, units: seq<Position>) {
    && (forall k :: 0 <= k < |units| ==> units[k] == UnitAt(p, s, k))
    && (forall k: nat :: Multiple(k, Spacing(p, s)) <= roadLength <==> k < |units|)
  }

  lemma Multiples(k: nat, d: real)
    ensures Multiple(0, d) == 0.0 && Multiple(1, d) == d && Multiple(2, d) == 2.0 * d
    ensures Multiple(k + 1, d) == Multiple(k, d) + d
  {
  }

  lemma {:induction false} MultiplesGrow(d: real, k: nat, n: nat)
    requires d > 0.0 && k <= n
    ensures Multiple(k, d) <= Multiple(n, d) && (k < n ==> Multiple(k, d) + d <= Multiple(n, d))
    decreases n - k
  {
    hide Multiple;
    if k < n {
      Multiples(k, d);
      MultiplesGrow(d, k + 1, n);
    }
  }

  /** A bound for the number of the last multiple that fits. */
  function FloorOfQuotient(a: real, d: real): int
    requires d > 0.0
  {
    (a / d).Floor
  }

  lemma MultipleFits(d: real, roadLength: real, n: nat)
    requires d > 0.0 && Multiple(n, d) <= roadLength
    ensures n <= FloorOfQuotient(roadLength, d)
  {
    assert n as real <= roadLength / d;
  }

  /** The placement loop. It needs a positive spacing to end. */
  method PlaceUnits(p: Setup, ghost s: Strategy, dx: real, dyFirst: real, yFirst: real, roadLength: real)
      returns (units: seq<Position>)
    requires dx == Spacing(p, s) > 0.0 && yFirst == Across(p, s, 0)
    requires dyFirst == if s == BothSide then p.w else 0.0
    ensures Placed(p, s, roadLength, units)
  {
    hide Multiple, Spacing, FloorOfQuotient;
    var x, y, dy := 0.0, yFirst, dyFirst;
    ghost var last := FloorOfQuotient(roadLength, dx);
    units := [];
    Multiples(0, dx);
    while x <= roadLength
      invariant x == Multiple(|units|, dx) && y == Across(p, s, |units|)
      invariant dy == if s != BothSide then 0.0 else if |units| % 2 == 0 then p.w else -p.w
      invariant forall k :: 0 <= k < |units| ==> units[k] == UnitAt(p, s, k)
      invariant forall k: nat :: k < |units| ==> Multiple(k, dx) <= roadLength
      decreases last - |units|
    {
      MultipleFits(dx, roadLength, |units|);
      Multiples(|units|, dx);
      units := units + [Position(x, y)];
      x := x + dx;
      y := y + dy;
      dy := -dy;
    }
    forall k: nat | k >= |units| ensures Multiple(k, dx) > roadLength {
      MultiplesGrow(dx, |units|, k);
    }
  }

  /** With a spacing that is not positive the loop's condition never fails. */
  lemma {:induction false} WithoutSpacingNoEnd(d: real, roadLength: real, k: nat)
    requires d <= 0.0 <= roadLength
    ensures Multiple(k, d) <= roadLength
  {
    if k > 0 {
      Multiples(k - 1, d);
      WithoutSpacingNoEnd(d, roadLength, k - 1);
    } else {
      Multiples(0, d);
    }
  }

  lemma LastFits(p: Setup, s: Strategy, roadLength: real, units: seq<Position>)
    requires Placed(p, s, roadLength, units) && units != []
    ensures units[|units|-1].x <= roadLength < units[|units|-1].x + Spacing(p, s)
  {
    hide Spacing, Across, Multiple;
    Multiples(|units| - 1, Spacing(p, s));
    assert Multiple(|units| - 1, Spacing(p, s)) <= roadLength;
    assert !(Multiple(|units|, Spacing(p, s)) <= roadLength);
  }

  lemma PlacesOfUnits(p: Setup, s: Strategy, roadLength: real, units: seq<Position>)
    requires Placed(p, s, roadLength, units)
    ensures forall k :: 0 <= k < |units| ==> units[k] == Position(k as real * Spacing(p, s), Across(p, s, k))
    ensures units == [] <==> roadLength < 0.0
    ensures units != [] ==> units[|units|-1].x <= roadLength < units[|units|-1].x + Spacing(p, s)
  {
    hide Spacing, Across;
    Multiples(0, Spacing(p, s));
    assert Multiple(0, Spacing(p, s)) <= roadLength <==> 0 < |units|;
    if units != [] {
      LastFits(p, s, roadLength, units);
    }
  }

  /** The choice of the spacing; an unknown strategy is a fatal error. */
  method Deploy(placement: string, p: Setup, roadLength: real) returns (units: Option<seq<Position>>)
    requires StrategyOf(placement).Some? ==> Spacing(p, StrategyOf(placement).value) > 0.0
    ensures units.None? <==> StrategyOf(placement).None?
    ensures units.Some? ==> Placed(p, StrategyOf(placement).value, roadLength, units.value)
    ensures units.Some? <==> placement == "one-side" || placement == "both-side" || placement == "middle"
    ensures units.Some? ==> forall k :: 0 <= k < |units.value| ==>
      units.value[k].y ==
        if placement == "middle" then 0.0
        else if placement == "both-side" && k % 2 == 1 then p.w / 2.0
        else -p.w / 2.0
    ensures units.Some? ==> forall k :: 0 <= k < |units.value| ==>
      units.value[k].x ==
        if placement == "one-side" then k as real * (2.0 * p.rootF + p.delta)
        else if placement == "both-side" then k as real * (p.rootG + p.delta)
        else k as real * (p.rootH + p.delta)
    ensures units.Some? ==> (units.value == [] <==> roadLength < 0.0)
    ensures units.Some? && units.value != [] ==>
      var x := units.value[|units.value|-1].x;
      x <= roadLength < x + Spacing(p, StrategyOf(placement).value)
  {
    hide Placed;
    var dx, dy;
    var y := -p.w / 2.0;
    if placement == "one-side" {
      dx, dy := F(p), 0.0;
    } else if placement == "both-side" {
      dx, dy := G(p), p.w;
    } else if placement == "middle" {
      dx, dy, y := H(p), 0.0, 0.0;
    } else {
      return None;
    }
    var positions := PlaceUnits(p, StrategyOf(placement).value, dx, dy, y, roadLength);
    PlacesOfUnits(p, StrategyOf(placement).value, roadLength, positions);
    return Some(positions);
  }

  // ----- what the units reach -----

  function Square(a: real): real {
    a * a
  }

  predicate Reaches(r: real, u: Position, x: real, y: real) {
    Square(x - u.x) + Square(y - u.y) <= Square(r)
  }

  ghost predicate Covered(r: real, units: seq<Position>, x: real, y: real) {
    exists k :: 0 <= k < |units| && Reaches(r, units[k], x, y)
  }

  /** The road strip between the first and the last unit. */
  predicate InStrip(p: Setup, units: seq<Position>, x: real, y: real)
    requires units != []
  {
    0.0 <= x <= units[|units|-1].x && -p.w / 2.0 <= y <= p.w / 2.0
  }

  ghost predicate StripCovered(p: Setup, units: seq<Position>)
    requires units != []
  {
    forall x, y :: InStrip(p, units, x, y) ==> Covered(p.r, units, x, y)
  }

  /** The spacings without their deviation are the square roots that the formulas take. */
  lemma SpacingWithoutDeviation(p: Setup, s: Strategy)
    requires Usable(p, s)
    ensures Spacing(p, s) - p.delta >= 0.0
    ensures Square(Spacing(p, s) - p.delta) == match s
      case OneSide => 4.0 * (p.r * p.r - p.w * p.w)
      case BothSide => 2.0 * p.r * p.r - p.w * p.w + p.r * (2.0 * p.rootF + p.delta)
      case Middle => 4.0 * p.r * p.r - p.w * p.w
  {
    match s {
      case OneSide => FourTimesSquare(p.rootF);
      case _ =>
    }
  }

  lemma FourTimesSquare(a: real)
    ensures Square(2.0 * a) == 4.0 * (a * a)
  {
  }

  lemma SquareMonotone(a: real, b: real)
    requires -b <= a <= b
    ensures Square(a) <= Square(b)
  {
  }

  function Times(a: real, b: real): real {
    a * b
  }

  lemma TimesStrict(a: real, b: real, c: real)
    requires 0.0 < c && b < a
    ensures Times(b, c) < Times(a, c)
  {
  }

  lemma TimesWeak(a: real, b: real, c: real)
    requires 0.0 <= c && b <= a
    ensures Times(c, b) <= Times(c, a)
  {
  }

  lemma SquareFacts(a: real)
    ensures Square(a) == Times(a, a) && Square(a) == Square(-a) && Square(a) >= 0.0
    ensures Square(a / 2.0) == Square(a) / 4.0
  {
  }

  lemma SquareStrict(a: real, b: real)
    requires 0.0 <= b && (a > b || a < -b)
    ensures Square(a) > Square(b)
  {
    hide Times, Square;
    var c := if a > b then a else -a;
    SquareFacts(a);
    SquareFacts(b);
    SquareFacts(c);
    TimesStrict(c, b, c);
    TimesWeak(c, b, b);
  }

  lemma RootOrder(a: real, b: real)
    requires a >= 0.0 && b >= 0.0 && Square(a) <= Square(b)
    ensures a <= b
  {
    if a > b {
      SquareStrict(a, b);
    }
  }

  /** With no deviation, the spacing on both sides is the radius and the half spacing on one side. */
  lemma BothSideSpacing(p: Setup)
    requires Usable(p, BothSide)
    ensures p.delta == 0.0 ==> G(p) == p.r + p.rootF
    ensures p.delta <= 0.0 ==> G(p) <= p.r + p.rootF
    ensures p.delta > 0.0 ==> G(p) > p.r + p.rootF
  {
    var sum := p.r + p.rootF;
    assert Square(sum) == p.r * p.r + 2.0 * (p.r * p.rootF) + p.rootF * p.rootF;
    assert p.r * F(p) == 2.0 * (p.r * p.rootF) + p.r * p.delta;
    assert Square(p.rootG) == Square(sum) + p.r * p.delta;
    if p.delta <= 0.0 {
      assert p.r * p.delta <= 0.0;
      RootOrder(p.rootG, sum);
    }
    if p.delta >= 0.0 {
      assert p.r * p.delta >= 0.0;
      RootOrder(sum, p.rootG);
    }
  }

  /** A point between two points of a disc round the origin is in the disc. */
  lemma DiscIsConvex(a: real, b: real, c: real, d: real, t: real, q: real)
    requires 0.0 <= t <= 1.0
    requires Square(a) + Square(b) <= q && Square(c) + Square(d) <= q
    ensures Square((1.0 - t) * a + t * c) + Square((1.0 - t) * b + t * d) <= q
  {
    hide Square;
    SquareOfMean(a, c, t);
    SquareOfMean(b, d, t);
    WeightedBound(Square(a) + Square(b), Square(c) + Square(d), t, q);
    WeightedSum(Square(a), Square(b), Square(c), Square(d), t);
  }

  lemma TimesNonNegative(a: real, b: real)
    requires a >= 0.0 && b >= 0.0
    ensures Times(a, b) >= 0.0
  {
  }

  /** By how much the square of a mean falls short of the mean of the squares. */
  lemma MeanGap(a: real, c: real, t: real)
    ensures (1.0 - t) * Square(a) + t * Square(c) - Square((1.0 - t) * a + t * c)
         == Times(Times(t, 1.0 - t), Square(a - c))
  {
  }

  lemma SquareOfMean(a: real, c: real, t: real)
    requires 0.0 <= t <= 1.0
    ensures Square((1.0 - t) * a + t * c) <= (1.0 - t) * Square(a) + t * Square(c)
  {
    hide Square, Times;
    MeanGap(a, c, t);
    SquareFacts(a - c);
    TimesNonNegative(t, 1.0 - t);
    TimesNonNegative(Times(t, 1.0 - t), Square(a - c));
  }

  lemma WeightedSum(a: real, b: real, c: real, d: real, t: real)
    ensures (1.0 - t) * (a + b) + t * (c + d) == ((1.0 - t) * a + t * c) + ((1.0 - t) * b + t * d)
  {
  }

  lemma WeightsAreTimes(a: real, b: real, t: real, q: real)
    ensures (1.0 - t) * a + t * b == Times(1.0 - t, a) + Times(t, b)
    ensures Times(1.0 - t, q) + Times(t, q) == q
  {
  }

  lemma WeightedBound(a: real, b: real, t: real, q: real)
    requires 0.0 <= t <= 1.0 && a <= q && b <= q
    ensures (1.0 - t) * a + t * b <= q
  {
    hide Times;
    TimesWeak(q, a, 1.0 - t);
    TimesWeak(q, b, t);
    WeightsAreTimes(a, b, t, q);
  }

  // ----- two neighbouring units reach the road between them -----

  /** What the roots say, in squares. */
  lemma RootFacts(p: Setup, s: Strategy)
    requires Usable(p, s)
    ensures 0.0 <= p.w < p.r
    ensures s != Middle ==> p.rootF >= 0.0 && Square(p.rootF) + Square(p.w) == Square(p.r)
    ensures s == Middle ==> p.rootH >= 0.0 && Square(p.rootH / 2.0) + Square(p.w / 2.0) == Square(p.r)
    ensures Square(0.0) == 0.0
  {
    SquareFacts(p.rootH);
    SquareFacts(p.w);
  }

  /** Units on one line, no further apart than twice the half width of a disc at the far side. */
  lemma StraightPair(r: real, half: real, v: real, far: real, d: real, a: real)
    requires 0.0 <= a <= d <= 2.0 * half && -far <= v <= far
    requires Square(half) + Square(far) <= Square(r)
    ensures Square(a) + Square(v) <= Square(r) || Square(a - d) + Square(v) <= Square(r)
  {
    hide Square;
    SquareMonotone(v, far);
    if a <= d / 2.0 {
      SquareMonotone(a, half);
    } else {
      SquareMonotone(a - d, half);
    }
  }

  /** Units on opposite edges: the segment from where the first disc leaves its edge to where the second one reaches
      it on the other lies in both discs. */
  lemma CrossPair(r: real, s: real, w: real, d: real, a: real, v: real)
    requires 0.0 <= w && 0.0 <= r && 0.0 <= s && Square(s) + Square(w) == Square(r)
    requires 0.0 <= a <= d <= r + s && 0.0 <= v <= w
    ensures Square(a) + Square(v) <= Square(r) || Square(a - d) + Square(w - v) <= Square(r)
  {
    var t := if w > 0.0 then v / w else 0.0;
    assert 0.0 <= t <= 1.0 && t * w == v;
    var m := (1.0 - t) * r + t * s;
    var n := (1.0 - t) * s + t * r;
    assert m + n == r + s;
    assert (1.0 - t) * w == w - v;
    hide Square;
    SquareFacts(0.0);
    SquareZero();
    DiscIsConvex(r, 0.0, s, w, t, Square(r));
    DiscIsConvex(s, w, r, 0.0, t, Square(r));
    assert (1.0 - t) * 0.0 + t * w == v && (1.0 - t) * w + t * 0.0 == w - v;
    if a <= m {
      SquareMonotone(a, m);
    } else {
      SquareMonotone(a - d, n);
    }
  }

  lemma SquareZero()
    ensures Square(0.0) == 0.0
  {
  }

  lemma BothSidePairReaches(p: Setup, k: nat, a: real, y: real)
    requires Usable(p, BothSide) && p.delta <= 0.0 && 0.0 <= a <= G(p) && -p.w / 2.0 <= y <= p.w / 2.0
    ensures Square(a) + Square(y - Across(p, BothSide, k)) <= Square(p.r)
         || Square(a - G(p)) + Square(y - Across(p, BothSide, k + 1)) <= Square(p.r)
  {
    hide Square, G, Usable;
    RootFacts(p, BothSide);
    BothSideSpacing(p);
    var v := if k % 2 == 0 then y + p.w / 2.0 else p.w / 2.0 - y;
    CrossPair(p.r, p.rootF, p.w, G(p), a, v);
    SquareFacts(v);
    SquareFacts(p.w - v);
    var here, there := y - Across(p, BothSide, k), y - Across(p, BothSide, k + 1);
    assert here == v || here == -v;
    assert there == p.w - v || there == -(p.w - v);
  }

  lemma PairReaches(p: Setup, s: Strategy, k: nat, a: real, y: real)
    requires Usable(p, s) && p.delta <= 0.0 && 0.0 <= a <= Spacing(p, s) && -p.w / 2.0 <= y <= p.w / 2.0
    ensures Square(a) + Square(y - Across(p, s, k)) <= Square(p.r)
         || Square(a - Spacing(p, s)) + Square(y - Across(p, s, k + 1)) <= Square(p.r)
  {
    hide Square;
    RootFacts(p, s);
    match s {
      case OneSide =>
        StraightPair(p.r, p.rootF, y + p.w / 2.0, p.w, F(p), a);
      case Middle =>
        StraightPair(p.r, p.rootH / 2.0, y, p.w / 2.0, H(p), a);
      case BothSide =>
        BothSidePairReaches(p, k, a, y);
    }
  }

  /** The last unit that is not beyond x. */
  lemma UnitBefore(d: real, n: nat, x: real) returns (k: nat)
    requires d > 0.0 && n > 0 && x >= 0.0
    ensures k < n && Multiple(k, d) <= x && (k + 1 < n ==> x < Multiple(k + 1, d))
  {
    Multiples(0, d);
    k := 0;
    while k + 1 < n && Multiple(k + 1, d) <= x
      invariant k < n && Multiple(k, d) <= x
    {
      k := k + 1;
    }
  }

  lemma PointIsCovered(p: Setup, s: Strategy, roadLength: real, units: seq<Position>, x: real, y: real)
    requires Usable(p, s) && p.delta <= 0.0 && Spacing(p, s) > 0.0
    requires Placed(p, s, roadLength, units) && units != [] && InStrip(p, units, x, y)
    ensures Covered(p.r, units, x, y)
  {
    hide Square, Multiple, Spacing;
    var d := Spacing(p, s);
    var k := UnitBefore(d, |units|, x);
    Multiples(k, d);
    var a := x - Multiple(k, d);
    if k + 1 < |units| {
      PairReaches(p, s, k, a, y);
      assert x - units[k].x == a && x - units[k+1].x == a - d;
      assert Reaches(p.r, units[k], x, y) || Reaches(p.r, units[k+1], x, y);
    } else {
      assert x == units[k].x;
      OwnCrossSection(p, s, k, y);
      assert Reaches(p.r, units[k], x, y);
    }
  }

  lemma OwnCrossSection(p: Setup, s: Strategy, k: nat, y: real)
    requires Usable(p, s) && -p.w / 2.0 <= y <= p.w / 2.0
    ensures Square(0.0) + Square(y - Across(p, s, k)) <= Square(p.r)
  {
    SquareZero();
    hide Square;
    SquareMonotone(y - Across(p, s, k), p.r);
  }

  // ----- a gap opens as soon as the deviation is positive -----

  lemma StraightGap(r: real, half: real, far: real, d: real, k: nat)
    requires 0.0 <= half && d > 2.0 * half && Square(half) + Square(far) == Square(r)
    ensures Square(d / 2.0 - Multiple(k, d)) + Square(far) > Square(r)
  {
    hide Square, Multiple;
    Multiples(0, d);
    if k > 0 {
      MultiplesGrow(d, 1, k);
    }
    SquareStrict(d / 2.0 - Multiple(k, d), half);
  }

  lemma CrossGap(r: real, s: real, w: real, d: real, k: nat)
    requires 0.0 <= r && 0.0 <= s && 0.0 <= w && d > r + s && Square(s) + Square(w) == Square(r)
    ensures Square((r + d - s) / 2.0 - Multiple(k, d)) + Square(if k % 2 == 0 then 0.0 else w) > Square(r)
  {
    hide Square, Multiple;
    Multiples(0, d);
    SquareFacts(0.0);
    SquareFacts(w);
    var x := (r + d - s) / 2.0;
    if k == 1 {
      SquareStrict(x - d, s);
    } else {
      if k > 1 {
        MultiplesGrow(d, 2, k);
      }
      SquareStrict(x - Multiple(k, d), r);
    }
  }

  /** A point of the strip, between the first two units, that no unit reaches. */
  function GapPoint(p: Setup, s: Strategy): (real, real) {
    match s
    case OneSide => (F(p) / 2.0, p.w / 2.0)
    case Middle => (H(p) / 2.0, p.w / 2.0)
    case BothSide => ((p.r + G(p) - p.rootF) / 2.0, -p.w / 2.0)
  }

  lemma GapIsNotReached(p: Setup, s: Strategy, k: nat)
    requires Usable(p, s) && p.delta > 0.0
    ensures !Reaches(p.r, UnitAt(p, s, k), GapPoint(p, s).0, GapPoint(p, s).1)
    ensures 0.0 <= GapPoint(p, s).0 <= Spacing(p, s)
  {
    hide Square, Multiple;
    RootFacts(p, s);
    match s {
      case OneSide =>
        StraightGap(p.r, p.rootF, p.w, F(p), k);
      case Middle =>
        StraightGap(p.r, p.rootH / 2.0, p.w / 2.0, H(p), k);
      case BothSide =>
        BothSideSpacing(p);
        CrossGap(p.r, p.rootF, p.w, G(p), k);
        SquareFacts(p.w);
    }
  }

  /** Every point of the road between the first and the last unit is reached exactly when the deviation is not
      positive, or there is no second unit. */
  lemma CoverageExactly(p: Setup, s: Strategy, roadLength: real, units: seq<Position>)
    requires Usable(p, s) && Spacing(p, s) > 0.0
    requires Placed(p, s, roadLength, units) && units != []
    ensures StripCovered(p, units) <==> p.delta <= 0.0 || |units| == 1
  {
    hide Square, Multiple, Spacing, Reaches, Usable;
    var d := Spacing(p, s);
    if p.delta <= 0.0 {
      forall x, y | InStrip(p, units, x, y) ensures Covered(p.r, units, x, y) {
        PointIsCovered(p, s, roadLength, units, x, y);
      }
    } else if |units| == 1 {
      forall x, y | InStrip(p, units, x, y) ensures Covered(p.r, units, x, y) {
        SingleUnitCovers(p, s, units, x, y);
      }
    } else {
      var (x, y) := GapPoint(p, s);
      forall k: nat | k < |units| ensures !Reaches(p.r, units[k], x, y) {
        GapIsNotReached(p, s, k);
      }
      GapIsInStrip(p, s, roadLength, units);
      assert !Covered(p.r, units, x, y);
    }
  }

  lemma SingleUnitCovers(p: Setup, s: Strategy, units: seq<Position>, x: real, y: real)
    requires Usable(p, s) && |units| == 1 && units[0] == UnitAt(p, s, 0) && InStrip(p, units, x, y)
    ensures Covered(p.r, units, x, y)
  {
    hide Square;
    Multiples(0, Spacing(p, s));
    OwnCrossSection(p, s, 0, y);
    assert Reaches(p.r, units[0], x, y);
  }

  lemma GapIsInStrip(p: Setup, s: Strategy, roadLength: real, units: seq<Position>)
    requires Usable(p, s) && p.delta > 0.0 && Spacing(p, s) > 0.0
    requires Placed(p, s, roadLength, units) && |units| > 1
    ensures InStrip(p, units, GapPoint(p, s).0, GapPoint(p, s).1)
  {
    hide Square, Multiple, Spacing;
    GapIsNotReached(p, s, 0);
    Multiples(0, Spacing(p, s));
    MultiplesGrow(Spacing(p, s), 1, |units| - 1);
  }
}
