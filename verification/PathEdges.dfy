/** Which edges lead out of a type, in which order, and what the explorer of utils/print-introspected-doxygen.cc
    records, told without them. */
module PathEdges {
  import opened Basics
  import opened PathTrails

  // ----- the edges, case by case -----

  /** The attribute is a pointer, to something other than a plain object, or a container. */
  predicate IsFollowed(db: Database, a: Attribute) {
    (a.checker.PointerTo? && a.checker.pointee != db.objectType) || a.checker.ContainerOf?
  }

  /** The four ways in which a step leads from one type to another. */
  ghost predicate Leads(db: Database, t: TypeId, step: string, target: TypeId) {
    || (target != db.objectType && Attribute(step, PointerTo(target)) in db.attributes(t))
    || (exists a :: a in db.attributes(t) && a.checker == ContainerOf(target) && step == a.name + "/[i]")
    || (target in db.registered && db.isChildOf(target, t) && step == "$" + db.name(target))
    || (((t, target) in db.aggregates || (target, t) in db.aggregates) && step == "$" + db.name(target))
  }

  lemma {:induction false} AttributeEdgesExactly(db: Database, attributes: seq<Attribute>, e: Edge)
    ensures e in AttributeEdges(db, attributes) <==>
      || (e.target != db.objectType && Attribute(e.step, PointerTo(e.target)) in attributes)
      || (exists a :: a in attributes && a.checker == ContainerOf(e.target) && e.step == a.name + "/[i]")
  {
    if attributes != [] {
      AttributeEdgesExactly(db, attributes[1..], e);
      assert attributes == [attributes[0]] + attributes[1..];
    }
  }

  lemma {:induction false} ChildEdgesExactly(db: Database, t: TypeId, candidates: seq<TypeId>, e: Edge)
    ensures e in ChildEdges(db, t, candidates) <==>
      e.target in candidates && db.isChildOf(e.target, t) && e.step == "$" + db.name(e.target)
  {
    if candidates != [] {
      ChildEdgesExactly(db, t, candidates[1..], e);
      assert candidates == [candidates[0]] + candidates[1..];
    }
  }

  lemma {:induction false} AggregateEdgesExactly(db: Database, t: TypeId, pairs: seq<(TypeId, TypeId)>, e: Edge)
    ensures e in AggregateEdges(db, t, pairs) <==>
      ((t, e.target) in pairs || (e.target, t) in pairs) && e.step == "$" + db.name(e.target)
  {
    if pairs != [] {
      AggregateEdgesExactly(db, t, pairs[1..], e);
      assert pairs == [pairs[0]] + pairs[1..];
    }
  }

  /** There is an edge exactly where a step leads. */
  lemma EdgesExactly(db: Database, t: TypeId, e: Edge)
    ensures e in Edges(db, t) <==> Leads(db, t, e.step, e.target)
  {
    hide AttributeEdges, ChildEdges, AggregateEdges;
    AttributeEdgesExactly(db, db.attributes(t), e);
    ChildEdgesExactly(db, t, db.registered, e);
    AggregateEdgesExactly(db, t, db.aggregates, e);
  }

  // ----- how many there are, and in which order -----

  function AttributesBefore(db: Database, t: TypeId, i: nat): nat
    requires i <= |db.attributes(t)|
  {
    if i == 0 then 0 else AttributesBefore(db, t, i - 1) + if IsFollowed(db, db.attributes(t)[i-1]) then 1 else 0
  }

  function ChildrenBefore(db: Database, t: TypeId, i: nat): nat
    requires i <= |db.registered|
  {
    if i == 0 then 0 else ChildrenBefore(db, t, i - 1) + if db.isChildOf(db.registered[i-1], t) then 1 else 0
  }

  function AggregatesBefore(db: Database, t: TypeId, i: nat): nat
    requires i <= |db.aggregates|
  {
    if i == 0 then 0 else
    var pair := db.aggregates[i-1];
    AggregatesBefore(db, t, i - 1) + if pair.0 == t || pair.1 == t then 1 else 0
  }

  lemma FirstAttributeEdges(db: Database, items: seq<Attribute>)
    ensures items == [] ==> AttributeEdges(db, items) == []
    ensures items != [] ==>
      AttributeEdges(db, items) == AttributeEdge(db, items[0]) + AttributeEdges(db, items[1..])
  {
    hide AttributeEdge;
  }

  lemma {:induction false} AttributeEdgesOfBoth(db: Database, some: seq<Attribute>, more: seq<Attribute>)
    ensures AttributeEdges(db, some + more) == AttributeEdges(db, some) + AttributeEdges(db, more)
    decreases |some|
  {
    hide AttributeEdge, AttributeEdges;
    FirstAttributeEdges(db, some);
    if some == [] {
      assert some + more == more;
    } else {
      FirstAttributeEdges(db, some + more);
      AttributeEdgesOfBoth(db, some[1..], more);
      assert (some + more)[1..] == some[1..] + more;
    }
  }

  lemma FirstChildEdges(db: Database, t: TypeId, items: seq<TypeId>)
    ensures items == [] ==> ChildEdges(db, t, items) == []
    ensures items != [] ==>
      ChildEdges(db, t, items) == ChildEdge(db, t, items[0]) + ChildEdges(db, t, items[1..])
  {
    hide ChildEdge;
  }

  lemma {:induction false} ChildEdgesOfBoth(db: Database, t: TypeId, some: seq<TypeId>, more: seq<TypeId>)
    ensures ChildEdges(db, t, some + more) == ChildEdges(db, t, some) + ChildEdges(db, t, more)
    decreases |some|
  {
    hide ChildEdge, ChildEdges;
    FirstChildEdges(db, t, some);
    if some == [] {
      assert some + more == more;
    } else {
      FirstChildEdges(db, t, some + more);
      ChildEdgesOfBoth(db, t, some[1..], more);
      assert (some + more)[1..] == some[1..] + more;
    }
  }

  lemma FirstAggregateEdges(db: Database, t: TypeId, items: seq<(TypeId, TypeId)>)
    ensures items == [] ==> AggregateEdges(db, t, items) == []
    ensures items != [] ==>
      AggregateEdges(db, t, items) == AggregateEdge(db, t, items[0]) + AggregateEdges(db, t, items[1..])
  {
    hide AggregateEdge;
  }

  lemma {:induction false} AggregateEdgesOfBoth(
      db: Database, t: TypeId, some: seq<(TypeId, TypeId)>, more: seq<(TypeId, TypeId)>)
    ensures AggregateEdges(db, t, some + more) == AggregateEdges(db, t, some) + AggregateEdges(db, t, more)
    decreases |some|
  {
    hide AggregateEdge, AggregateEdges;
    FirstAggregateEdges(db, t, some);
    if some == [] {
      assert some + more == more;
    } else {
      FirstAggregateEdges(db, t, some + more);
      AggregateEdgesOfBoth(db, t, some[1..], more);
      assert (some + more)[1..] == some[1..] + more;
    }
  }

  lemma {:induction false} AttributesAreCounted(db: Database, t: TypeId, i: nat)
    requires i <= |db.attributes(t)|
    ensures |AttributeEdges(db, db.attributes(t)[..i])| == AttributesBefore(db, t, i)
  {
    hide AttributeEdges;
    FirstAttributeEdges(db, []);
    assert db.attributes(t)[..0] == [];
    if i > 0 {
      AttributesAreCounted(db, t, i - 1);
      var a := db.attributes(t)[i-1];
      AttributeEdgesOfBoth(db, db.attributes(t)[..i-1], [a]);
      assert db.attributes(t)[..i] == db.attributes(t)[..i-1] + [a];
      FirstAttributeEdges(db, [a]);
      assert [a][1..] == [];
    }
  }

  lemma {:induction false} ChildrenAreCounted(db: Database, t: TypeId, i: nat)
    requires i <= |db.registered|
    ensures |ChildEdges(db, t, db.registered[..i])| == ChildrenBefore(db, t, i)
  {
    hide ChildEdges;
    FirstChildEdges(db, t, []);
    assert db.registered[..0] == [];
    if i > 0 {
      ChildrenAreCounted(db, t, i - 1);
      var child := db.registered[i-1];
      ChildEdgesOfBoth(db, t, db.registered[..i-1], [child]);
      assert db.registered[..i] == db.registered[..i-1] + [child];
      FirstChildEdges(db, t, [child]);
      assert [child][1..] == [];
    }
  }

  lemma {:induction false} AggregatesAreCounted(db: Database, t: TypeId, i: nat)
    requires i <= |db.aggregates|
    ensures |AggregateEdges(db, t, db.aggregates[..i])| == AggregatesBefore(db, t, i)
  {
    hide AggregateEdges;
    FirstAggregateEdges(db, t, []);
    assert db.aggregates[..0] == [];
    if i > 0 {
      AggregatesAreCounted(db, t, i - 1);
      var pair := db.aggregates[i-1];
      AggregateEdgesOfBoth(db, t, db.aggregates[..i-1], [pair]);
      assert db.aggregates[..i] == db.aggregates[..i-1] + [pair];
      FirstAggregateEdges(db, t, [pair]);
      assert [pair][1..] == [];
    }
  }

  /** The number of edges to attributes, to children and to aggregated types. */
  function CountAttributes(db: Database, t: TypeId): nat {
    AttributesBefore(db, t, |db.attributes(t)|)
  }

  function CountChildren(db: Database, t: TypeId): nat {
    ChildrenBefore(db, t, |db.registered|)
  }

  lemma EdgesAreCounted(db: Database, t: TypeId)
    ensures |Edges(db, t)| ==
      CountAttributes(db, t) + CountChildren(db, t) + AggregatesBefore(db, t, |db.aggregates|)
    ensures |AttributeEdges(db, db.attributes(t))| == CountAttributes(db, t)
    ensures |ChildEdges(db, t, db.registered)| == CountChildren(db, t)
  {
    hide AttributeEdges, ChildEdges, AggregateEdges, AttributesBefore, ChildrenBefore, AggregatesBefore;
    AttributesAreCounted(db, t, |db.attributes(t)|);
    ChildrenAreCounted(db, t, |db.registered|);
    AggregatesAreCounted(db, t, |db.aggregates|);
    assert db.attributes(t)[..|db.attributes(t)|] == db.attributes(t);
    assert db.registered[..|db.registered|] == db.registered;
    assert db.aggregates[..|db.aggregates|] == db.aggregates;
  }

  /** Each pointer or container attribute has one edge, in the order of the attributes. */
  lemma AttributeEdgeAt(db: Database, t: TypeId, i: nat)
    requires i < |db.attributes(t)| && IsFollowed(db, db.attributes(t)[i])
    ensures var a, n := db.attributes(t)[i], AttributesBefore(db, t, i);
      && n < |Edges(db, t)|
      && (a.checker.PointerTo? ==> Edges(db, t)[n] == Edge(a.name, a.checker.pointee))
      && (a.checker.ContainerOf? ==> Edges(db, t)[n] == Edge(a.name + "/[i]", a.checker.item))
  {
    hide AttributeEdges, ChildEdges, AggregateEdges, AttributesBefore;
    var all := db.attributes(t);
    AttributesAreCounted(db, t, i);
    AttributeEdgesOfBoth(db, all[..i], all[i..]);
    assert all[..i] + all[i..] == all;
    FirstAttributeEdges(db, all[i..]);
  }

  /** Each registered child has one edge, after those of the attributes and in the order of registration. */
  lemma ChildEdgeAt(db: Database, t: TypeId, i: nat)
    requires i < |db.registered| && db.isChildOf(db.registered[i], t)
    ensures var child, n := db.registered[i], CountAttributes(db, t) + ChildrenBefore(db, t, i);
      n < |Edges(db, t)| && Edges(db, t)[n] == Edge("$" + db.name(child), child)
  {
    hide AttributeEdges, ChildEdges, AggregateEdges, CountAttributes, ChildrenBefore;
    var all := db.registered;
    EdgesAreCounted(db, t);
    ChildrenAreCounted(db, t, i);
    ChildEdgesOfBoth(db, t, all[..i], all[i..]);
    assert all[..i] + all[i..] == all;
    FirstChildEdges(db, t, all[i..]);
    var before, here := AttributeEdges(db, db.attributes(t)), ChildEdges(db, t, all);
    var after := AggregateEdges(db, t, db.aggregates);
    InTheMiddle(before, here, after, ChildrenBefore(db, t, i));
  }

  lemma InTheMiddle<T>(before: seq<T>, here: seq<T>, after: seq<T>, i: nat)
    requires i < |here|
    ensures (before + here + after)[|before|+i] == here[i]
  {
  }

  lemma AggregateEdgeAmong(db: Database, t: TypeId, i: nat)
    requires i < |db.aggregates| && (db.aggregates[i].0 == t || db.aggregates[i].1 == t)
    ensures var pair, n, edges := db.aggregates[i], AggregatesBefore(db, t, i), AggregateEdges(db, t, db.aggregates);
      var other := if pair.1 == t then pair.0 else pair.1;
      n < |edges| && edges[n] == Edge("$" + db.name(other), other)
  {
    hide AggregateEdges, AggregatesBefore;
    var all := db.aggregates;
    AggregatesAreCounted(db, t, i);
    AggregateEdgesOfBoth(db, t, all[..i], all[i..]);
    assert all[..i] + all[i..] == all;
    FirstAggregateEdges(db, t, all[i..]);
  }

  /** Each aggregation of the type has one edge, last of all and in the order of the aggregations. */
  lemma AggregateEdgeAt(db: Database, t: TypeId, i: nat)
    requires i < |db.aggregates| && (db.aggregates[i].0 == t || db.aggregates[i].1 == t)
    ensures var pair, n := db.aggregates[i], CountAttributes(db, t) + CountChildren(db, t) + AggregatesBefore(db, t, i);
      var other := if pair.1 == t then pair.0 else pair.1;
      n < |Edges(db, t)| && Edges(db, t)[n] == Edge("$" + db.name(other), other)
  {
    hide AttributeEdges, ChildEdges, AggregateEdges, CountAttributes, CountChildren, AggregatesBefore;
    EdgesAreCounted(db, t);
    AggregateEdgeAmong(db, t, i);
    var before := AttributeEdges(db, db.attributes(t)) + ChildEdges(db, t, db.registered);
    InTheMiddle(before, AggregateEdges(db, t, db.aggregates), [], AggregatesBefore(db, t, i));
    assert Edges(db, t) == before + AggregateEdges(db, t, db.aggregates) + [];
  }

  // ----- what is recorded, told by the database alone -----

  /** A way through the database: from type to type by steps that lead there, through no type twice and through none
      of the ancestors. */
  ghost predicate IsVisit(db: Database, t: TypeId, ancestors: seq<TypeId>, types: seq<TypeId>, steps: seq<string>) {
    && |types| == |steps| + 1 && types[0] == t
    && (forall k :: 0 <= k < |steps| ==> Leads(db, types[k], steps[k], types[k+1]))
    && NoDuplicates(types) && forall x :: x in types ==> x !in ancestors
  }

  /** The entry is what is recorded at the end of a way through the database. */
  ghost predicate IsVisited(db: Database, t: TypeId, ancestors: seq<TypeId>, path: seq<string>, entry: Entry) {
    exists types, steps :: IsVisitTo(db, t, ancestors, path, entry, types, steps)
  }

  ghost predicate IsVisitTo(db: Database, t: TypeId, ancestors: seq<TypeId>, path: seq<string>, entry: Entry,
                            types: seq<TypeId>, steps: seq<string>) {
    IsVisit(db, t, ancestors, types, steps) && entry == (types[|types|-1], Render(path + steps))
  }

  lemma {:induction false} TrailIsVisit(db: Database, t: TypeId, trail: seq<nat>)
    requires IsTrail(db, t, trail)
    ensures var types, steps := TypesOn(db, t, trail), StepsOn(db, t, trail);
      && |types| == |steps| + 1 && types[0] == t
      && forall k :: 0 <= k < |steps| ==> Leads(db, types[k], steps[k], types[k+1])
    decreases |trail|
  {
    hide Edges, Leads;
    if trail != [] {
      var e := Edges(db, t)[trail[0]];
      TrailIsVisit(db, e.target, trail[1..]);
      EdgesExactly(db, t, e);
      assert e in Edges(db, t);
      var types, steps := TypesOn(db, e.target, trail[1..]), StepsOn(db, e.target, trail[1..]);
      assert TypesOn(db, t, trail) == [t] + types && StepsOn(db, t, trail) == [e.step] + steps;
      forall k | 0 <= k < |steps| + 1 ensures Leads(db, ([t] + types)[k], ([e.step] + steps)[k], ([t] + types)[k+1]) {
        if k > 0 {
          assert Leads(db, types[k-1], steps[k-1], types[k]);
        }
      }
    }
  }

  lemma OneEdgeInFront(db: Database, t: TypeId, i: nat, rest: seq<nat>)
    requires i < |Edges(db, t)| && IsTrail(db, Edges(db, t)[i].target, rest)
    ensures var e := Edges(db, t)[i];
      && IsTrail(db, t, [i] + rest)
      && TypesOn(db, t, [i] + rest) == [t] + TypesOn(db, e.target, rest)
      && StepsOn(db, t, [i] + rest) == [e.step] + StepsOn(db, e.target, rest)
  {
    hide Edges;
    assert ([i] + rest)[1..] == rest;
  }

  lemma {:induction false} VisitHasTrail(db: Database, types: seq<TypeId>, steps: seq<string>) returns (trail: seq<nat>)
    requires |types| == |steps| + 1
    requires forall k :: 0 <= k < |steps| ==> Leads(db, types[k], steps[k], types[k+1])
    ensures IsTrail(db, types[0], trail)
    ensures TypesOn(db, types[0], trail) == types && StepsOn(db, types[0], trail) == steps
    decreases |steps|
  {
    hide Edges, Leads;
    if steps == [] {
      trail := [];
      assert types == [types[0]];
    } else {
      var rest := VisitHasTrail(db, types[1..], steps[1..]);
      var e := Edge(steps[0], types[1]);
      EdgesExactly(db, types[0], e);
      var i :| 0 <= i < |Edges(db, types[0])| && Edges(db, types[0])[i] == e;
      trail := [i] + rest;
      OneEdgeInFront(db, types[0], i, rest);
      assert types == [types[0]] + types[1..] && steps == [steps[0]] + steps[1..];
    }
  }

  /** The entries recorded are exactly those at the ends of the ways through the database. */
  lemma EntriesAreVisited(db: Database, t: TypeId, ancestors: seq<TypeId>, path: seq<string>, entry: Entry)
    requires Closed(db) && t in db.registered
    ensures entry in EntriesFor(db, t, path, Trails(db, t, ancestors)) <==> IsVisited(db, t, ancestors, path, entry)
  {
    hide Edges, Leads, Trails, IsTrail, TypesOn, StepsOn, Render;
    var trails := Trails(db, t, ancestors);
    var entries := EntriesFor(db, t, path, trails);
    if entry in entries {
      var k :| 0 <= k < |entries| && entries[k] == entry;
      assert trails[k] in trails;
      TrailsAreTheRepetitionFreeOnes(db, t, ancestors, trails[k]);
      TrailIsVisit(db, t, trails[k]);
      assert IsVisitTo(db, t, ancestors, path, entry, TypesOn(db, t, trails[k]), StepsOn(db, t, trails[k]));
    }
    if types, steps :| IsVisitTo(db, t, ancestors, path, entry, types, steps) {
      var trail := VisitHasTrail(db, types, steps);
      TrailsAreTheRepetitionFreeOnes(db, t, ancestors, trail);
      var k :| 0 <= k < |trails| && trails[k] == trail;
      assert entries[k] == entry;
    }
  }

  lemma AllEntriesAreVisited(db: Database, t: TypeId, ancestors: seq<TypeId>, path: seq<string>)
    requires Closed(db) && t in db.registered
    ensures forall entry :: entry in EntriesFor(db, t, path, Trails(db, t, ancestors)) <==>
      IsVisited(db, t, ancestors, path, entry)
  {
    hide EntriesFor, Trails, IsVisited;
    forall entry
      ensures entry in EntriesFor(db, t, path, Trails(db, t, ancestors)) <==> IsVisited(db, t, ancestors, path, entry)
    {
      EntriesAreVisited(db, t, ancestors, path, entry);
    }
  }

  /** What comes in front of a slash, a step and nothing else. */
  lemma RenderMore(path: seq<string>, step: string)
    ensures Render(path + [step]) == Render(path) + "/" + step
  {
    assert (path + [step])[..|path|] == path;
  }

  /** A type whose only attribute is a container has what is in it recorded after the name and the index. */
  lemma ContainerIsRecorded(db: Database, t: TypeId, item: TypeId, name: string)
    requires Closed(db) && t in db.registered && t != item
    requires Attribute(name, ContainerOf(item)) in db.attributes(t)
    ensures (t, "") in EntriesFor(db, t, [], Trails(db, t, []))
    ensures (item, "/" + name + "/[i]") in EntriesFor(db, t, [], Trails(db, t, []))
  {
    hide Trails, EntriesFor, Closed;
    EntriesAreVisited(db, t, [], [], (t, ""));
    assert IsVisitTo(db, t, [], [], (t, ""), [t], []);
    var entry, step := (item, "/" + name + "/[i]"), name + "/[i]";
    EntriesAreVisited(db, t, [], [], entry);
    RenderMore([], step);
    assert [] + [step] == [step] && "" + "/" + step == entry.1;
    assert IsVisitTo(db, t, [], [], entry, [t, item], [step]);
  }
}
