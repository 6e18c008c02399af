/** The configuration paths of a TypeId database, utils/print-introspected-doxygen.cc: a labelled multigraph of types,
    the trails through it that repeat no type, and what is written down at the end of each. */
module PathTrails {
  import opened Basics

  type TypeId(==, !new)

  datatype Checker = PointerTo(pointee: TypeId) | ContainerOf(item: TypeId) | PlainValue
  datatype Attribute = Attribute(name: string, checker: Checker)

  /** The TypeId database, as the explorer queries it. */
  datatype Database = Database(
    attributes: TypeId -> seq<Attribute>,
    name: TypeId -> string,
    registered: seq<TypeId>,
    isChildOf: (TypeId, TypeId) -> bool,
    objectType: TypeId,
    aggregates: seq<(TypeId, TypeId)>)

  /** One way of continuing a configuration path: the step that is written, and the type it leads to. */
  datatype Edge = Edge(step: string, target: TypeId)

  type Entry = (TypeId, string)

  // ----- the labelled multigraph of types -----

  /** At most one edge: pointers to plain objects are not followed. */
  function AttributeEdge(db: Database, a: Attribute): seq<Edge> {
    match a.checker
    case PointerTo(t) => if t == db.objectType then [] else [Edge(a.name, t)]
    case ContainerOf(t) => [Edge(a.name + "/[i]", t)]
    case PlainValue => []
  }

  function ChildEdge(db: Database, t: TypeId, candidate: TypeId): seq<Edge> {
    if db.isChildOf(candidate, t) then [Edge("$" + db.name(candidate), candidate)] else []
  }

  /** Aggregation goes both ways; a type aggregated with itself leads to itself. */
  function AggregateEdge(db: Database, t: TypeId, pair: (TypeId, TypeId)): seq<Edge> {
    if pair.1 == t then [Edge("$" + db.name(pair.0), pair.0)]
    else if pair.0 == t then [Edge("$" + db.name(pair.1), pair.1)]
    else []
  }

  function AttributeEdges(db: Database, attributes: seq<Attribute>): seq<Edge> {
    if attributes == [] then [] else AttributeEdge(db, attributes[0]) + AttributeEdges(db, attributes[1..])
  }

  function ChildEdges(db: Database, t: TypeId, candidates: seq<TypeId>): seq<Edge> {
    if candidates == [] then [] else ChildEdge(db, t, candidates[0]) + ChildEdges(db, t, candidates[1..])
  }

  function AggregateEdges(db: Database, t: TypeId, pairs: seq<(TypeId, TypeId)>): seq<Edge> {
    if pairs == [] then [] else AggregateEdge(db, t, pairs[0]) + AggregateEdges(db, t, pairs[1..])
  }

  function Edges(db: Database, t: TypeId): seq<Edge> {
    AttributeEdges(db, db.attributes(t)) + ChildEdges(db, t, db.registered) + AggregateEdges(db, t, db.aggregates)
  }

  /** Every type that can be reached is registered. */
  ghost predicate Closed(db: Database) {
    forall t, e :: t in db.registered && e in Edges(db, t) ==> e.target in db.registered
  }

  // ----- trails: which edges are taken, by their numbers -----

  predicate IsTrail(db: Database, t: TypeId, trail: seq<nat>) {
    trail != [] ==>
      trail[0] < |Edges(db, t)| && IsTrail(db, Edges(db, t)[trail[0]].target, trail[1..])
  }

  /** The types a trail goes through, from its start to its end. */
  function TypesOn(db: Database, t: TypeId, trail: seq<nat>): seq<TypeId>
    requires IsTrail(db, t, trail)
  {
    [t] + if trail == [] then [] else TypesOn(db, Edges(db, t)[trail[0]].target, trail[1..])
  }

  function StepsOn(db: Database, t: TypeId, trail: seq<nat>): seq<string>
    requires IsTrail(db, t, trail)
  {
    if trail == [] then [] else
    var e := Edges(db, t)[trail[0]];
    [e.step] + StepsOn(db, e.target, trail[1..])
  }

  /** A trail that goes through no type twice, and through none of the given ancestors. */
  predicate RepeatsNoType(db: Database, t: TypeId, ancestors: seq<TypeId>, trail: seq<nat>) {
    && IsTrail(db, t, trail)
    && NoDuplicates(TypesOn(db, t, trail))
    && forall x :: x in TypesOn(db, t, trail) ==> x !in ancestors
  }

  function Render(path: seq<string>): string {
    if path == [] then "" else Render(path[..|path|-1]) + "/" + path[|path|-1]
  }

  /** What is written down at the end of a trail that started with the given path. */
  function EntryFor(db: Database, t: TypeId, path: seq<string>, trail: seq<nat>): Entry
    requires IsTrail(db, t, trail)
  {
    var types := TypesOn(db, t, trail);
    (types[|types|-1], Render(path + StepsOn(db, t, trail)))
  }

  function EntriesFor(db: Database, t: TypeId, path: seq<string>, trails: seq<seq<nat>>): seq<Entry>
    requires forall k :: 0 <= k < |trails| ==> IsTrail(db, t, trails[k])
  {
    seq(|trails|, k requires 0 <= k < |trails| => EntryFor(db, t, path, trails[k]))
  }

  // ----- the order of exploration -----

  function Prefixed(n: nat, trails: seq<seq<nat>>): (r: seq<seq<nat>>)
    ensures |r| == |trails| && forall k :: 0 <= k < |r| ==> r[k] == [n] + trails[k]
  {
    seq(|trails|, k requires 0 <= k < |trails| => [n] + trails[k])
  }

  lemma PrefixedAreTrails(db: Database, t: TypeId, n: nat, trails: seq<seq<nat>>)
    requires n < |Edges(db, t)|
    requires forall k :: 0 <= k < |trails| ==> IsTrail(db, Edges(db, t)[n].target, trails[k])
    ensures forall k :: 0 <= k < |trails| ==> IsTrail(db, t, Prefixed(n, trails)[k])
  {
    hide Edges;
    forall k | 0 <= k < |trails| ensures IsTrail(db, t, Prefixed(n, trails)[k]) {
      assert Prefixed(n, trails)[k][1..] == trails[k];
    }
  }

  lemma BothAreTrails(db: Database, t: TypeId, n: nat, earlier: seq<seq<nat>>, deeper: seq<seq<nat>>)
    requires n < |Edges(db, t)|
    requires forall k :: 0 <= k < |earlier| ==> IsTrail(db, t, earlier[k])
    requires forall k :: 0 <= k < |deeper| ==> IsTrail(db, Edges(db, t)[n].target, deeper[k])
    ensures var both := earlier + Prefixed(n, deeper);
      forall k :: 0 <= k < |both| ==> IsTrail(db, t, both[k])
  {
    hide Edges, IsTrail;
    PrefixedAreTrails(db, t, n, deeper);
  }

  lemma FewerTypesLeft(db: Database, t: TypeId, ancestors: seq<TypeId>)
    requires t in db.registered && t !in ancestors
    ensures Members(db.registered) - Members(ancestors + [t]) < Members(db.registered) - Members(ancestors)
  {
    assert Members(ancestors + [t]) == Members(ancestors) + {t};
    assert t in Members(db.registered) - Members(ancestors);
  }

  lemma OneLevelDeeper(db: Database, t: TypeId, ancestors: seq<TypeId>, n: nat)
    requires Closed(db) && t in db.registered && t !in ancestors && n < |Edges(db, t)|
    ensures Edges(db, t)[n].target in db.registered
    ensures Members(db.registered) - Members(ancestors + [t]) < Members(db.registered) - Members(ancestors)
  {
    hide Edges;
    assert Edges(db, t)[n] in Edges(db, t);
    FewerTypesLeft(db, t, ancestors);
  }

  /** The trails in the order in which the depth-first search meets them. */
  ghost function Trails(db: Database, t: TypeId, ancestors: seq<TypeId>): (r: seq<seq<nat>>)
    requires Closed(db) && t in db.registered
    ensures forall k :: 0 <= k < |r| ==> IsTrail(db, t, r[k])
    decreases Members(db.registered) - Members(ancestors), 1, 0
  {
    if t in ancestors then [] else [[]] + FirstBranches(db, t, ancestors, |Edges(db, t)|)
  }

  /** The trails that take one of the first n edges. */
  ghost function FirstBranches(db: Database, t: TypeId, ancestors: seq<TypeId>, n: nat): (r: seq<seq<nat>>)
    requires Closed(db) && t in db.registered && t !in ancestors && n <= |Edges(db, t)|
    ensures forall k :: 0 <= k < |r| ==> IsTrail(db, t, r[k])
    decreases Members(db.registered) - Members(ancestors), 0, n
  {
    if n == 0 then [] else
    OneLevelDeeper(db, t, ancestors, n - 1);
    var deeper := Trails(db, Edges(db, t)[n-1].target, ancestors + [t]);
    var earlier := FirstBranches(db, t, ancestors, n - 1);
    BothAreTrails(db, t, n - 1, earlier, deeper);
    earlier + Prefixed(n - 1, deeper)
  }

  lemma RepeatsNoTypeUnfolds(db: Database, t: TypeId, ancestors: seq<TypeId>, trail: seq<nat>)
    requires trail != [] && trail[0] < |Edges(db, t)|
    ensures RepeatsNoType(db, t, ancestors, trail) <==>
      t !in ancestors && RepeatsNoType(db, Edges(db, t)[trail[0]].target, ancestors + [t], trail[1..])
  {
    hide Edges;
    if IsTrail(db, t, trail) {
      var types, rest := TypesOn(db, t, trail), TypesOn(db, Edges(db, t)[trail[0]].target, trail[1..]);
      assert types == [t] + rest;
      if RepeatsNoType(db, t, ancestors, trail) {
        assert t in types;
        forall x | x in rest ensures x in types && x != t {
          var k :| 0 <= k < |rest| && rest[k] == x;
          assert types[k+1] == x && types[0] == t;
        }
        forall i, j | 0 <= i < j < |rest| ensures rest[i] != rest[j] {
          assert types[i+1] != types[j+1];
        }
      } else if t !in ancestors && RepeatsNoType(db, Edges(db, t)[trail[0]].target, ancestors + [t], trail[1..]) {
        forall i, j | 0 <= i < j < |types| ensures types[i] != types[j] {
          assert types[j] == rest[j-1] && rest[j-1] in rest;
        }
        assert false;
      }
    }
  }

  /** The search meets exactly the trails that repeat no type. */
  lemma {:induction false} TrailsAreTheRepetitionFreeOnes(db: Database, t: TypeId, ancestors: seq<TypeId>,
                                                          trail: seq<nat>)
    requires Closed(db) && t in db.registered
    ensures trail in Trails(db, t, ancestors) <==> RepeatsNoType(db, t, ancestors, trail)
    decreases |trail|
  {
    hide Edges;
    if t in ancestors {
      if IsTrail(db, t, trail) {
        assert TypesOn(db, t, trail)[0] in TypesOn(db, t, trail);
      }
    } else if trail == [] {
      assert Trails(db, t, ancestors)[0] == [];
    } else {
      var n := |Edges(db, t)|;
      BranchesStartWith(db, t, ancestors, n, trail);
      assert trail in Trails(db, t, ancestors) <==> trail in FirstBranches(db, t, ancestors, n);
      if trail[0] < n {
        var e := Edges(db, t)[trail[0]];
        assert e in Edges(db, t);
        TrailsAreTheRepetitionFreeOnes(db, e.target, ancestors + [t], trail[1..]);
        RepeatsNoTypeUnfolds(db, t, ancestors, trail);
      }
    }
  }

  lemma {:induction false} BranchesStartWith(db: Database, t: TypeId, ancestors: seq<TypeId>, n: nat, trail: seq<nat>)
    requires Closed(db) && t in db.registered && t !in ancestors && n <= |Edges(db, t)|
    ensures trail in FirstBranches(db, t, ancestors, n) <==>
      && trail != [] && trail[0] < n
      && (var e := Edges(db, t)[trail[0]]; e in Edges(db, t) && trail[1..] in Trails(db, e.target, ancestors + [t]))
  {
    hide Edges;
    if n > 0 {
      BranchesStartWith(db, t, ancestors, n - 1, trail);
      var e := Edges(db, t)[n-1];
      assert e in Edges(db, t);
      var deeper := Trails(db, e.target, ancestors + [t]);
      if trail != [] && trail[0] == n - 1 && trail[1..] in deeper {
        var k :| 0 <= k < |deeper| && deeper[k] == trail[1..];
        assert Prefixed(n - 1, deeper)[k] == trail;
      }
    }
  }

  /** Depth-first order: a trail comes before its continuations, and lower edge numbers before higher ones. */
  predicate Before(a: seq<nat>, b: seq<nat>) {
    b != [] && (a == [] || a[0] < b[0] || (a[0] == b[0] && Before(a[1..], b[1..])))
  }

  ghost predicate Ascending(trails: seq<seq<nat>>) {
    forall i, j :: 0 <= i < j < |trails| ==> Before(trails[i], trails[j])
  }

  lemma {:induction false} BeforeIsIrreflexive(a: seq<nat>)
    ensures !Before(a, a)
  {
    if a != [] {
      BeforeIsIrreflexive(a[1..]);
    }
  }

  /** The trails come in strictly ascending order, so none is met twice. */
  lemma {:induction false} TrailsAscend(db: Database, t: TypeId, ancestors: seq<TypeId>)
    requires Closed(db) && t in db.registered
    ensures Ascending(Trails(db, t, ancestors)) && NoDuplicates(Trails(db, t, ancestors))
    decreases Members(db.registered) - Members(ancestors), 1, 0
  {
    hide Edges;
    var trails := Trails(db, t, ancestors);
    if t !in ancestors {
      var branches := FirstBranches(db, t, ancestors, |Edges(db, t)|);
      BranchesAscend(db, t, ancestors, |Edges(db, t)|);
      forall i, j | 0 <= i < j < |trails| ensures Before(trails[i], trails[j]) {
        assert trails[j] == branches[j-1];
        if i > 0 {
          assert trails[i] == branches[i-1];
        }
      }
    }
    forall i, j | 0 <= i < j < |trails| ensures trails[i] != trails[j] {
      BeforeIsIrreflexive(trails[i]);
    }
  }

  lemma {:induction false} BranchesAscend(db: Database, t: TypeId, ancestors: seq<TypeId>, n: nat)
    requires Closed(db) && t in db.registered && t !in ancestors && n <= |Edges(db, t)|
    ensures Ascending(FirstBranches(db, t, ancestors, n))
    ensures forall k :: 0 <= k < |FirstBranches(db, t, ancestors, n)| ==>
      var trail := FirstBranches(db, t, ancestors, n)[k]; trail != [] && trail[0] < n
    decreases Members(db.registered) - Members(ancestors), 0, n
  {
    hide Edges;
    if n > 0 {
      var e := Edges(db, t)[n-1];
      assert e in Edges(db, t);
      FewerTypesLeft(db, t, ancestors);
      BranchesAscend(db, t, ancestors, n - 1);
      TrailsAscend(db, e.target, ancestors + [t]);
      PrefixedAscend(n - 1, Trails(db, e.target, ancestors + [t]));
    }
  }

  lemma PrefixedAscend(n: nat, trails: seq<seq<nat>>)
    requires Ascending(trails)
    ensures Ascending(Prefixed(n, trails))
  {
    var r := Prefixed(n, trails);
    forall i, j | 0 <= i < j < |r| ensures Before(r[i], r[j]) {
      assert r[i][1..] == trails[i] && r[j][1..] == trails[j];
    }
  }

  // ----- entries -----

  /** Taking an edge moves its step from the trail to the path. */
  lemma EntryThroughEdge(db: Database, t: TypeId, path: seq<string>, n: nat, trail: seq<nat>)
    requires n < |Edges(db, t)| && IsTrail(db, Edges(db, t)[n].target, trail)
    ensures IsTrail(db, t, [n] + trail)
    ensures EntryFor(db, t, path, [n] + trail)
         == EntryFor(db, Edges(db, t)[n].target, path + [Edges(db, t)[n].step], trail)
  {
    hide Edges;
    var e := Edges(db, t)[n];
    assert ([n] + trail)[1..] == trail;
    assert path + StepsOn(db, t, [n] + trail) == (path + [e.step]) + StepsOn(db, e.target, trail);
  }
}
