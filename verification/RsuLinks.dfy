/** The cross of roadside units in scratch/scene.cc: a centre, four arms, and the point-to-point links between them. */
module RsuLinks {
  import opened Basics

  type Link = (nat, nat)

  // ----- numbering -----

  /** Unit 0 is the centre; unit v stands on arm (v-1)/L, as number (v-1)%L+1 from the centre. */
  function ArmOf(layers: nat, v: nat): nat
    requires layers > 0 && v > 0
  {
    (v - 1) / layers
  }

  function StepOf(layers: nat, v: nat): nat
    requires layers > 0 && v > 0
  {
    (v - 1) % layers + 1
  }

  /** The next unit towards the centre. */
  function Inward(layers: nat, v: nat): (u: nat)
    requires layers > 0 && v > 0
    ensures u < v
  {
    if (v - 1) % layers == 0 then 0 else v - 1
  }

  lemma Numbering(layers: nat, arm: nat, j: nat)
    requires layers > 0 && j < layers
    ensures ArmOf(layers, 1 + arm * layers + j) == arm && StepOf(layers, 1 + arm * layers + j) == j + 1
    ensures Inward(layers, 1 + arm * layers + j) == if j == 0 then 0 else arm * layers + j
  {
    var m := arm * layers + j;
    DivisionIsUnique(m, layers, arm, j);
  }

  lemma DivisionIsUnique(m: nat, d: nat, q: nat, r: nat)
    requires d > 0 && r < d && m == q * d + r
    ensures m / d == q && m % d == r
  {
    var p := m / d;
    assert m == p * d + m % d;
    if p < q {
      ProductsGrow(p, q, d);
    } else if p > q {
      ProductsGrow(q, p, d);
    }
  }

  lemma ProductIsNonNegative(a: nat, d: nat)
    ensures a * d >= 0
  {
  }

  lemma ProductOfSum(a: nat, b: nat, d: nat)
    ensures (a + b + 1) * d == a * d + b * d + d
  {
  }

  lemma ProductsGrow(a: nat, b: nat, d: nat)
    requires a < b
    ensures a * d + d <= b * d
  {
    var more := b - a - 1;
    ProductIsNonNegative(more, d);
    ProductOfSum(a, more, d);
  }

  // ----- positions -----

  /** How far out a step is. */
  function Far(step: nat, dx: real): real {
    step as real * dx
  }

  lemma FarFacts(a: nat, b: nat, dx: real)
    requires a <= b && dx >= 0.0
    ensures 0.0 <= Far(a, dx) <= Far(b, dx)
  {
  }

  lemma FarStep(a: nat, dx: real)
    ensures Far(0, dx) == 0.0 && Far(1, dx) == dx && Far(a + 1, dx) - Far(a, dx) == dx
  {
  }

  function OnArm(dx: real, arm: nat, step: nat): Position {
    var far := Far(step, dx);
    if arm == 0 then Position(far, 0.0)
    else if arm == 1 then Position(-far, 0.0)
    else if arm == 2 then Position(0.0, far)
    else Position(0.0, -far)
  }

  function PositionOf(dx: real, layers: nat, v: nat): Position {
    if layers == 0 || v == 0 then Position(0.0, 0.0) else OnArm(dx, ArmOf(layers, v), StepOf(layers, v))
  }

  lemma CentrePosition(dx: real)
    ensures forall layers :: PositionOf(dx, layers, 0) == Position(0.0, 0.0)
  {
  }

  method AppendArm(dx: real, layers: nat, arm: nat, positions: seq<Position>) returns (more: seq<Position>)
    requires arm < 4 && |positions| == 1 + arm * layers
    requires forall v :: 0 <= v < |positions| ==> positions[v] == PositionOf(dx, layers, v)
    ensures |more| == 1 + (arm + 1) * layers
    ensures forall v :: 0 <= v < |more| ==> more[v] == PositionOf(dx, layers, v)
  {
    more := positions;
    for i := 1 to layers + 1
      invariant |more| == 1 + arm * layers + (i - 1)
      invariant forall v :: 0 <= v < |more| ==> more[v] == PositionOf(dx, layers, v)
    {
      Numbering(layers, arm, i - 1);
      var far := Far(i, dx);
      var next := match arm
        case 0 => Position(far, 0.0)
        case 1 => Position(-far, 0.0)
        case 2 => Position(0.0, far)
        case _ => Position(0.0, -far);
      more := more + [next];
    }
  }

  lemma FarGrows(a: nat, b: nat, dx: real)
    requires a < b && dx > 0.0
    ensures Far(a, dx) < Far(b, dx) && Far(b, dx) > 0.0
  {
    hide Far;
    FarFacts(a + 1, b, dx);
    FarFacts(0, a, dx);
    FarStep(0, dx);
    FarStep(a, dx);
  }

  /** Where a unit stands, by its number: the arms lie along +x, -x, +y and -y, one after another. */
  lemma PlaceByNumber(dx: real, layers: nat, v: nat)
    ensures 1 <= v <= layers ==> PositionOf(dx, layers, v) == Position(v as real * dx, 0.0)
    ensures layers < v <= 2 * layers ==> PositionOf(dx, layers, v) == Position(-((v - layers) as real * dx), 0.0)
    ensures 2 * layers < v <= 3 * layers ==>
      PositionOf(dx, layers, v) == Position(0.0, (v - 2 * layers) as real * dx)
    ensures 3 * layers < v <= 4 * layers ==>
      PositionOf(dx, layers, v) == Position(0.0, -((v - 3 * layers) as real * dx))
  {
    if 0 < v <= 4 * layers {
      var arm := if v <= layers then 0 else if v <= 2 * layers then 1 else if v <= 3 * layers then 2 else 3;
      var i := v - arm * layers;
      assert Far(i, dx) == i as real * dx;
      hide Far;
      Numbering(layers, arm, i - 1);
    }
  }

  /** Every number but 0 is that of a step on one of the four arms. */
  lemma NumberOnArm(layers: nat, v: nat)
    requires 0 < v <= 4 * layers
    ensures ArmOf(layers, v) < 4 && 1 <= StepOf(layers, v) <= layers
    ensures v == ArmOf(layers, v) * layers + StepOf(layers, v)
  {
    var arm := ArmOf(layers, v);
    assert v == arm * layers + StepOf(layers, v);
    if arm >= 4 {
      ProductsGrow(3, arm, layers);
    }
  }

  /** No two units stand on one spot. */
  lemma PlacesDiffer(dx: real, layers: nat, u: nat, v: nat)
    requires dx > 0.0 && u < v <= 4 * layers
    ensures PositionOf(dx, layers, u) != PositionOf(dx, layers, v)
  {
    hide Far, ArmOf, StepOf;
    NumberOnArm(layers, v);
    var j := StepOf(layers, v);
    FarGrows(0, j, dx);
    if u > 0 {
      NumberOnArm(layers, u);
      var i := StepOf(layers, u);
      FarGrows(0, i, dx);
      if ArmOf(layers, u) == ArmOf(layers, v) {
        FarGrows(i, j, dx);
      }
    }
  }

  /** The centre and the four arms; as many layers as the range holds. */
  method DeployCross(dx: real, maxRange: real) returns (layers: nat, positions: seq<Position>)
    requires dx > 0.0 && maxRange >= 0.0
    ensures Far(layers, dx) <= maxRange < Far(layers + 1, dx)
    ensures |positions| == 4 * layers + 1
    ensures forall v :: 0 <= v < |positions| ==> positions[v] == PositionOf(dx, layers, v)
    ensures positions[0] == Position(0.0, 0.0)
    ensures forall v :: 1 <= v <= layers ==> positions[v] == Position(v as real * dx, 0.0)
    ensures forall v :: layers < v <= 2 * layers ==> positions[v] == Position(-((v - layers) as real * dx), 0.0)
    ensures forall v :: 2 * layers < v <= 3 * layers ==> positions[v] == Position(0.0, (v - 2 * layers) as real * dx)
    ensures forall v :: 3 * layers < v <= 4 * layers ==>
      positions[v] == Position(0.0, -((v - 3 * layers) as real * dx))
    ensures NoDuplicates(positions)
  {
    hide PositionOf, Far;
    CentrePosition(dx);
    layers := LayersFor(dx, maxRange);
    positions := [Position(0.0, 0.0)];
    for arm := 0 to 4
      invariant |positions| == 1 + arm * layers
      invariant forall v :: 0 <= v < |positions| ==> positions[v] == PositionOf(dx, layers, v)
    {
      positions := AppendArm(dx, layers, arm, positions);
    }
    forall v | 0 <= v < |positions|
      ensures 1 <= v <= layers ==> positions[v] == Position(v as real * dx, 0.0)
      ensures layers < v <= 2 * layers ==> positions[v] == Position(-((v - layers) as real * dx), 0.0)
      ensures 2 * layers < v <= 3 * layers ==> positions[v] == Position(0.0, (v - 2 * layers) as real * dx)
      ensures 3 * layers < v <= 4 * layers ==> positions[v] == Position(0.0, -((v - 3 * layers) as real * dx))
    {
      PlaceByNumber(dx, layers, v);
    }
    forall u, v | 0 <= u < v < |positions| ensures positions[u] != positions[v] {
      PlacesDiffer(dx, layers, u, v);
    }
  }

  /** Conversion to an integer truncates. */
  function LayersFor(dx: real, maxRange: real): (layers: nat)
    requires dx > 0.0 && maxRange >= 0.0
    ensures Far(layers, dx) <= maxRange < Far(layers + 1, dx)
  {
    var q := maxRange / dx;
    QuotientBounds(q, dx, maxRange);
    q.Floor
  }

  function Product(a: real, b: real): real {
    a * b
  }

  lemma QuotientFacts(a: real, d: real)
    requires a >= 0.0 && d > 0.0
    ensures a / d >= 0.0 && Product(a / d, d) == a
  {
  }

  lemma ProductOrder(a: real, b: real, c: real)
    requires a <= b && c > 0.0
    ensures Product(a, c) <= Product(b, c) && (a < b ==> Product(a, c) < Product(b, c))
  {
  }

  lemma FarIsProduct(step: nat, dx: real)
    ensures Far(step, dx) == Product(step as real, dx)
  {
  }

  lemma QuotientBounds(q: real, dx: real, maxRange: real)
    requires dx > 0.0 && maxRange >= 0.0 && q == maxRange / dx
    ensures q.Floor >= 0 && Far(q.Floor, dx) <= maxRange < Far(q.Floor + 1, dx)
  {
    hide Far, Product;
    QuotientFacts(maxRange, dx);
    var n: nat := q.Floor;
    FarIsProduct(n, dx);
    FarIsProduct(n + 1, dx);
    ProductOrder(n as real, q, dx);
    ProductOrder(q, (n + 1) as real, dx);
  }

  /** No unit stands further out than the range. */
  lemma WithinRange(dx: real, maxRange: real, layers: nat, v: nat)
    requires dx > 0.0 && Far(layers, dx) <= maxRange && v <= 4 * layers
    ensures -maxRange <= PositionOf(dx, layers, v).x <= maxRange
    ensures -maxRange <= PositionOf(dx, layers, v).y <= maxRange
  {
    hide Far;
    FarFacts(0, layers, dx);
    FarStep(0, dx);
    if v > 0 {
      FarFacts(StepOf(layers, v), layers, dx);
    }
  }

  function DistanceSquared(a: Position, b: Position): real {
    (a.x - b.x) * (a.x - b.x) + (a.y - b.y) * (a.y - b.y)
  }

  lemma StepsApart(dx: real, arm: nat, j: nat)
    ensures DistanceSquared(OnArm(dx, arm, j + 1), OnArm(dx, arm, j)) == dx * dx
    ensures OnArm(dx, arm, 0) == Position(0.0, 0.0)
  {
    hide Far;
    FarStep(j, dx);
    var d := Far(j + 1, dx) - Far(j, dx);
    assert d == dx;
  }

  /** A unit and the next one towards the centre are exactly the spacing apart. */
  lemma SpacingApart(dx: real, layers: nat, v: nat)
    requires layers > 0 && 0 < v
    ensures DistanceSquared(PositionOf(dx, layers, v), PositionOf(dx, layers, Inward(layers, v))) == dx * dx
  {
    hide OnArm, DistanceSquared;
    var arm, j := ArmOf(layers, v), (v - 1) % layers;
    StepsApart(dx, arm, j);
    UnitInward(dx, layers, v, arm, j);
  }

  lemma UnitInward(dx: real, layers: nat, v: nat, arm: nat, j: nat)
    requires layers > 0 && 0 < v && arm == (v - 1) / layers && j == (v - 1) % layers
    ensures PositionOf(dx, layers, v) == OnArm(dx, arm, j + 1)
    ensures PositionOf(dx, layers, Inward(layers, v)) == OnArm(dx, arm, j)
  {
    assert v == 1 + arm * layers + j;
    if j > 0 {
      Numbering(layers, arm, j - 1);
    } else {
      StepsApart(dx, arm, 0);
    }
  }

  // ----- links -----

  /** The links that lead inwards from units 1 to n; without the centre those to the centre are missing. */
  function LinksUpTo(layers: nat, disableRsu: bool, n: nat): seq<Link>
    requires layers > 0
  {
    if n == 0 then [] else
    LinksUpTo(layers, disableRsu, n - 1)
    + if disableRsu && Inward(layers, n) == 0 then [] else [(Inward(layers, n), n)]
  }

  lemma {:induction false} LinksExactly(layers: nat, disableRsu: bool, n: nat, l: Link)
    requires layers > 0
    ensures l in LinksUpTo(layers, disableRsu, n) <==>
      1 <= l.1 <= n && l.0 == Inward(layers, l.1) && !(disableRsu && l.0 == 0)
  {
    if n > 0 {
      LinksExactly(layers, disableRsu, n - 1, l);
    }
  }

  /** A link, by the numbers of its units: from the centre to the first unit of an arm, or from a unit to the next
      one on the same arm. */
  predicate IsLink(layers: nat, disableRsu: bool, l: Link) {
    || (!disableRsu && l.0 == 0 && (l.1 == 1 || l.1 == layers + 1 || l.1 == 2 * layers + 1 || l.1 == 3 * layers + 1))
    || (1 <= l.0 && l.1 == l.0 + 1 <= 4 * layers && l.0 != layers && l.0 != 2 * layers && l.0 != 3 * layers)
  }

  lemma LinksByNumber(layers: nat, disableRsu: bool, l: Link)
    requires layers > 0
    ensures l in LinksUpTo(layers, disableRsu, 4 * layers) <==> IsLink(layers, disableRsu, l)
  {
    LinksExactly(layers, disableRsu, 4 * layers, l);
    var v := l.1;
    if 1 <= v <= 4 * layers {
      var arm := if v <= layers then 0 else if v <= 2 * layers then 1 else if v <= 3 * layers then 2 else 3;
      hide Inward;
      Numbering(layers, arm, v - arm * layers - 1);
    }
  }

  method InstallLinks(layers: nat, disableRsu: bool) returns (links: seq<Link>)
    requires layers > 0
    ensures links == LinksUpTo(layers, disableRsu, 4 * layers)
    ensures forall l :: l in links <==> IsLink(layers, disableRsu, l)
  {
    hide IsLink;
    links := [];
    for i := 0 to 4
      invariant links == LinksUpTo(layers, disableRsu, i * layers)
    {
      var k := 1 + i * layers;
      Numbering(layers, i, 0);
      if !disableRsu {
        links := links + [(0, k)];
      }
      for j := 0 to layers - 1
        invariant links == LinksUpTo(layers, disableRsu, k + j)
      {
        Numbering(layers, i, j + 1);
        links := links + [(k + j, k + j + 1)];
      }
      assert k + (layers - 1) == (i + 1) * layers;
    }
    forall l ensures l in links <==> IsLink(layers, disableRsu, l) {
      LinksByNumber(layers, disableRsu, l);
    }
  }

  predicate Joined(links: seq<Link>, a: nat, b: nat) {
    (a, b) in links || (b, a) in links
  }

  predicate IsPath(links: seq<Link>, path: seq<nat>) {
    path != [] && forall j :: 1 <= j < |path| ==> Joined(links, path[j-1], path[j])
  }

  ghost predicate Connected(links: seq<Link>, a: nat, b: nat) {
    exists path :: IsPath(links, path) && path[0] == a && path[|path|-1] == b
  }

  lemma ConnectedItself(links: seq<Link>, a: nat)
    ensures Connected(links, a, a)
  {
    assert IsPath(links, [a]);
  }

  lemma OneLinkFurther(links: seq<Link>, a: nat, b: nat, c: nat)
    requires Connected(links, a, b) && Joined(links, b, c)
    ensures Connected(links, a, c)
  {
    var path :| IsPath(links, path) && path[0] == a && path[|path|-1] == b;
    var longer := path + [c];
    forall j | 1 <= j < |longer| ensures Joined(links, longer[j-1], longer[j]) {
      if j < |path| {
        assert longer[j-1] == path[j-1] && longer[j] == path[j];
      }
    }
    assert IsPath(links, longer);
  }

  // ----- with the centre: a spanning tree -----

  lemma {:induction false} JoinedToCentre(layers: nat, n: nat, v: nat)
    requires layers > 0 && v <= n
    ensures Connected(LinksUpTo(layers, false, n), 0, v)
    decreases v
  {
    var links := LinksUpTo(layers, false, n);
    if v == 0 {
      ConnectedItself(links, 0);
    } else {
      JoinedToCentre(layers, n, Inward(layers, v));
      LinksExactly(layers, false, n, (Inward(layers, v), v));
      OneLinkFurther(links, 0, Inward(layers, v), v);
    }
  }

  lemma {:induction false} OneLinkPerUnit(layers: nat, n: nat)
    requires layers > 0
    ensures |LinksUpTo(layers, false, n)| == n
    ensures forall m :: 0 <= m < n ==> LinksUpTo(layers, false, n)[m] == (Inward(layers, m + 1), m + 1)
  {
    if n > 0 {
      OneLinkPerUnit(layers, n - 1);
    }
  }

  /** The links join all 4L+1 units to the centre, and there is one link less than there are units: a spanning tree.
      Each link is one spacing long. */
  lemma SpanningTree(dx: real, layers: nat)
    requires layers > 0
    ensures var links := LinksUpTo(layers, false, 4 * layers);
      && |links| + 1 == 4 * layers + 1
      && (forall v :: 0 <= v < 4 * layers + 1 ==> Connected(links, 0, v))
      && (forall m :: 0 <= m < |links| ==>
            DistanceSquared(PositionOf(dx, layers, links[m].0), PositionOf(dx, layers, links[m].1)) == dx * dx)
  {
    hide PositionOf, DistanceSquared, Connected, LinksUpTo, Inward;
    var links := LinksUpTo(layers, false, 4 * layers);
    OneLinkPerUnit(layers, 4 * layers);
    forall v | 0 <= v < 4 * layers + 1 ensures Connected(links, 0, v) {
      JoinedToCentre(layers, 4 * layers, v);
    }
    forall m | 0 <= m < |links|
      ensures DistanceSquared(PositionOf(dx, layers, links[m].0), PositionOf(dx, layers, links[m].1)) == dx * dx
    {
      SpacingApart(dx, layers, m + 1);
      SymmetricDistance(PositionOf(dx, layers, m + 1), PositionOf(dx, layers, Inward(layers, m + 1)));
    }
  }

  lemma SymmetricDistance(a: Position, b: Position)
    ensures DistanceSquared(a, b) == DistanceSquared(b, a)
  {
    SquareOfDifference(a.x, b.x);
    SquareOfDifference(a.y, b.y);
  }

  lemma SquareOfDifference(a: real, b: real)
    ensures (a - b) * (a - b) == (b - a) * (b - a)
  {
  }

  // ----- without the centre: four separate arms -----

  predicate SameArm(layers: nat, a: nat, b: nat)
    requires layers > 0
  {
    a > 0 && b > 0 && ArmOf(layers, a) == ArmOf(layers, b)
  }

  lemma LinkKeepsArm(layers: nat, v: nat)
    requires layers > 0 && v > 0 && Inward(layers, v) > 0
    ensures SameArm(layers, Inward(layers, v), v)
  {
    var arm, j := ArmOf(layers, v), (v - 1) % layers;
    assert v == 1 + arm * layers + j;
    Numbering(layers, arm, j - 1);
  }

  lemma {:induction false} PathKeepsArm(layers: nat, n: nat, path: seq<nat>)
    requires layers > 0 && IsPath(LinksUpTo(layers, true, n), path) && |path| > 1
    ensures SameArm(layers, path[0], path[|path|-1])
    decreases |path|
  {
    var links, last := LinksUpTo(layers, true, n), |path| - 1;
    assert Joined(links, path[last-1], path[last]);
    LinksExactly(layers, true, n, (path[last-1], path[last]));
    LinksExactly(layers, true, n, (path[last], path[last-1]));
    LinkKeepsArm(layers, if (path[last-1], path[last]) in links then path[last] else path[last-1]);
    if |path| > 2 {
      var shorter := path[..last];
      forall j | 1 <= j < |shorter| ensures Joined(links, shorter[j-1], shorter[j]) {
        assert shorter[j-1] == path[j-1] && shorter[j] == path[j];
      }
      PathKeepsArm(layers, n, shorter);
    }
  }

  /** Along an arm, from a unit outwards. */
  lemma {:induction false} OutwardsOnArm(layers: nat, n: nat, a: nat, b: nat)
    requires layers > 0 && a <= b <= n && SameArm(layers, a, b)
    ensures Connected(LinksUpTo(layers, true, n), a, b)
    decreases b
  {
    var links := LinksUpTo(layers, true, n);
    if a == b {
      ConnectedItself(links, a);
    } else {
      BetweenOnArm(layers, a, b);
      OutwardsOnArm(layers, n, a, b - 1);
      LinksExactly(layers, true, n, (b - 1, b));
      OneLinkFurther(links, a, b - 1, b);
    }
  }

  lemma BetweenOnArm(layers: nat, a: nat, b: nat)
    requires layers > 0 && a < b && SameArm(layers, a, b)
    ensures SameArm(layers, a, b - 1) && Inward(layers, b) == b - 1
  {
    var arm, i, j := ArmOf(layers, a), (a - 1) % layers, (b - 1) % layers;
    assert a == 1 + arm * layers + i && b == 1 + arm * layers + j;
    Numbering(layers, arm, j - 1);
  }

  lemma Backwards(links: seq<Link>, a: nat, b: nat)
    requires Connected(links, a, b)
    ensures Connected(links, b, a)
  {
    var path :| IsPath(links, path) && path[0] == a && path[|path|-1] == b;
    var n := |path|;
    var back := seq(n, i requires 0 <= i < n => path[n-1-i]);
    forall j | 1 <= j < n ensures Joined(links, back[j-1], back[j]) {
      assert Joined(links, path[n-1-j], path[n-j]);
    }
    assert IsPath(links, back);
  }

  lemma {:induction false} CountWithoutCentre(layers: nat, arm: nat, j: nat)
    requires layers > 0 && j < layers
    ensures |LinksUpTo(layers, true, 1 + arm * layers + j)| == arm * (layers - 1) + j
    decreases arm, j
  {
    Numbering(layers, arm, j);
    if j > 0 {
      CountWithoutCentre(layers, arm, j - 1);
    } else if arm > 0 {
      assert 1 + (arm - 1) * layers + (layers - 1) == arm * layers;
      CountWithoutCentre(layers, arm - 1, layers - 1);
    }
  }

  /** Without the centre two units are connected exactly when they are the same or stand on the same arm, so the
      centre is isolated; each arm is a path of layers-1 links. */
  lemma FourArms(layers: nat, a: nat, b: nat)
    requires layers > 0 && a <= 4 * layers && b <= 4 * layers
    ensures var links := LinksUpTo(layers, true, 4 * layers);
      && (Connected(links, a, b) <==> a == b || SameArm(layers, a, b))
      && |links| == 4 * (layers - 1)
  {
    var links := LinksUpTo(layers, true, 4 * layers);
    CountWithoutCentre(layers, 3, layers - 1);
    if path :| IsPath(links, path) && path[0] == a && path[|path|-1] == b {
      if |path| > 1 {
        PathKeepsArm(layers, 4 * layers, path);
      }
    }
    if a == b {
      ConnectedItself(links, a);
    } else if SameArm(layers, a, b) {
      if a < b {
        OutwardsOnArm(layers, 4 * layers, a, b);
      } else {
        OutwardsOnArm(layers, 4 * layers, b, a);
        Backwards(links, b, a);
      }
    }
  }
}
