/** The configuration-path explorer: utils/print-introspected-doxygen.cc, class StaticInformation. */
module PathGather {
  import opened Basics
  import opened PathEdges
  import opened PathTrails
  import opened PathRepeats

  /** The entries made when the type itself and its first n edges have been dealt with. */
  ghost function EntriesSoFar(db: Database, t: TypeId, ancestors: seq<TypeId>, path: seq<string>, n: nat): seq<Entry>
    requires Closed(db) && t in db.registered && t !in ancestors && n <= |Edges(db, t)|
  {
    EntriesFor(db, t, path, [[]] + FirstBranches(db, t, ancestors, n))
  }

  lemma EntriesOfBoth(db: Database, t: TypeId, path: seq<string>, some: seq<seq<nat>>, more: seq<seq<nat>>)
    requires forall k :: 0 <= k < |some| ==> IsTrail(db, t, some[k])
    requires forall k :: 0 <= k < |more| ==> IsTrail(db, t, more[k])
    ensures forall k :: 0 <= k < |some + more| ==> IsTrail(db, t, (some + more)[k])
    ensures EntriesFor(db, t, path, some + more) == EntriesFor(db, t, path, some) + EntriesFor(db, t, path, more)
  {
    hide Edges, IsTrail, EntryFor;
  }

  lemma EntriesThroughEdge(db: Database, t: TypeId, path: seq<string>, n: nat, trails: seq<seq<nat>>)
    requires n < |Edges(db, t)|
    requires forall k :: 0 <= k < |trails| ==> IsTrail(db, Edges(db, t)[n].target, trails[k])
    ensures forall k :: 0 <= k < |trails| ==> IsTrail(db, t, Prefixed(n, trails)[k])
    ensures EntriesFor(db, t, path, Prefixed(n, trails))
         == EntriesFor(db, Edges(db, t)[n].target, path + [Edges(db, t)[n].step], trails)
  {
    hide Edges, IsTrail, EntryFor;
    var e := Edges(db, t)[n];
    forall k | 0 <= k < |trails|
      ensures IsTrail(db, t, Prefixed(n, trails)[k])
      ensures EntryFor(db, t, path, Prefixed(n, trails)[k]) == EntryFor(db, e.target, path + [e.step], trails[k])
    {
      EntryThroughEdge(db, t, path, n, trails[k]);
    }
  }

  lemma OneMoreEdge(db: Database, t: TypeId, ancestors: seq<TypeId>, path: seq<string>, n: nat)
    requires Closed(db) && t in db.registered && t !in ancestors && n < |Edges(db, t)|
    ensures var e := Edges(db, t)[n];
      && e in Edges(db, t)
      && EntriesSoFar(db, t, ancestors, path, n + 1)
      == EntriesSoFar(db, t, ancestors, path, n)
         + EntriesFor(db, e.target, path + [e.step], Trails(db, e.target, ancestors + [t]))
  {
    hide Edges, IsTrail, EntryFor, EntriesFor, Trails;
    var e := Edges(db, t)[n];
    assert e in Edges(db, t);
    var sofar, deeper := [[]] + FirstBranches(db, t, ancestors, n), Trails(db, e.target, ancestors + [t]);
    assert [[]] + FirstBranches(db, t, ancestors, n + 1) == sofar + Prefixed(n, deeper);
    EntriesThroughEdge(db, t, path, n, deeper);
    EmptyTrail(db, t);
    EntriesOfBoth(db, t, path, sofar, Prefixed(n, deeper));
  }

  lemma EmptyTrail(db: Database, t: TypeId)
    ensures IsTrail(db, t, [])
  {
  }

  lemma NoEdgesYet(db: Database, t: TypeId, ancestors: seq<TypeId>, path: seq<string>)
    requires Closed(db) && t in db.registered && t !in ancestors
    ensures EntriesSoFar(db, t, ancestors, path, 0) == [(t, Render(path))]
  {
    assert path + StepsOn(db, t, []) == path;
  }

  // ----- the removal of repeated entries -----

  ghost predicate IsTotalOrder<T(!new)>(less: (T, T) -> bool) {
    && (forall x :: !less(x, x))
    && (forall x, y :: x != y ==> less(x, y) || less(y, x))
    && (forall x, y, z :: less(x, y) && less(y, z) ==> less(x, z))
  }

  predicate IsSorted<T(==)>(s: seq<T>, less: (T, T) -> bool) {
    forall i, j :: 0 <= i < j < |s| ==> less(s[i], s[j]) || s[i] == s[j]
  }

  /** std::sort, as the value it leaves. */
  function Inserted<T(==)>(s: seq<T>, x: T, less: (T, T) -> bool): (r: seq<T>)
    ensures multiset(r) == multiset(s) + multiset{x}
  {
    if s == [] || less(x, s[0]) then [x] + s else
    assert s == [s[0]] + s[1..];
    [s[0]] + Inserted(s[1..], x, less)
  }

  function SortedBy<T(==)>(s: seq<T>, less: (T, T) -> bool): (r: seq<T>)
    ensures multiset(r) == multiset(s)
  {
    if s == [] then [] else
    assert s == [s[0]] + s[1..];
    Inserted(SortedBy(s[1..], less), s[0], less)
  }

  /** std::unique followed by erase: of equal neighbours only one stays. */
  function WithoutEqualNeighbours<T(==)>(s: seq<T>): seq<T> {
    if |s| < 2 then s
    else if s[0] == s[1] then WithoutEqualNeighbours(s[1..])
    else [s[0]] + WithoutEqualNeighbours(s[1..])
  }

  function Uniquefied<T(==)>(s: seq<T>, less: (T, T) -> bool): seq<T> {
    WithoutEqualNeighbours(SortedBy(s, less))
  }

  lemma {:induction false} InsertedIsSorted<T(!new)>(s: seq<T>, x: T, less: (T, T) -> bool)
    requires IsTotalOrder(less) && IsSorted(s, less)
    ensures IsSorted(Inserted(s, x, less), less)
  {
    var r := Inserted(s, x, less);
    if s != [] && !less(x, s[0]) {
      InsertedIsSorted(s[1..], x, less);
      forall j | 1 <= j < |r| ensures less(r[0], r[j]) || r[0] == r[j] {
        assert r[j] in multiset(r[1..]) && multiset(r[1..]) == multiset(s[1..]) + multiset{x};
      }
    }
  }

  lemma {:induction false} SortedByIsSorted<T(!new)>(s: seq<T>, less: (T, T) -> bool)
    requires IsTotalOrder(less)
    ensures IsSorted(SortedBy(s, less), less)
  {
    if s != [] {
      SortedByIsSorted(s[1..], less);
      InsertedIsSorted(SortedBy(s[1..], less), s[0], less);
    }
  }

  lemma {:induction false} NeighboursOfSorted<T(!new)>(s: seq<T>, less: (T, T) -> bool)
    requires IsTotalOrder(less) && IsSorted(s, less)
    ensures NoDuplicates(WithoutEqualNeighbours(s)) && IsSorted(WithoutEqualNeighbours(s), less)
    ensures Members(WithoutEqualNeighbours(s)) == Members(s)
  {
    if |s| >= 2 {
      NeighboursOfSorted(s[1..], less);
      var rest := WithoutEqualNeighbours(s[1..]);
      assert s == [s[0]] + s[1..] && s[1] in s[1..];
      if s[0] != s[1] {
        forall x | x in rest ensures less(s[0], x) && x != s[0] {
          assert x in Members(s[1..]);
          var k :| 1 <= k < |s| && s[k] == x;
          assert k > 1 ==> less(s[1], s[k]) || s[1] == s[k];
        }
        assert Members([s[0]] + rest) == {s[0]} + Members(rest);
      }
      assert Members(s) == {s[0]} + Members(s[1..]);
    }
  }

  /** What Uniquefy would leave, had it been given the list itself: the same entries, each once and in order. */
  lemma UniquefiedIsTheSet<T(!new)>(s: seq<T>, less: (T, T) -> bool)
    requires IsTotalOrder(less)
    ensures NoDuplicates(Uniquefied(s, less)) && IsSorted(Uniquefied(s, less), less)
    ensures Members(Uniquefied(s, less)) == Members(s)
  {
    SortedByIsSorted(s, less);
    NeighboursOfSorted(SortedBy(s, less), less);
    forall x ensures x in SortedBy(s, less) <==> x in s {
      assert x in multiset(SortedBy(s, less)) <==> x in multiset(s);
    }
  }

  // ----- the explorer -----

  class StaticInformation {
    const db: Database
    var output: seq<Entry>
    var currentPath: seq<string>
    var alreadyProcessed: seq<TypeId>

    constructor (db: Database)
      ensures this.db == db && output == [] && currentPath == [] && alreadyProcessed == []
    {
      this.db := db;
      output, currentPath, alreadyProcessed := [], [], [];
    }

    method GetCurrentPath() returns (path: string)
      ensures path == Render(currentPath)
    {
      path := "";
      for i := 0 to |currentPath|
        invariant path == Render(currentPath[..i])
      {
        assert currentPath[..i+1][..i] == currentPath[..i];
        path := path + "/" + currentPath[i];
      }
      assert currentPath[..|currentPath|] == currentPath;
    }

    method RecordOutput(tid: TypeId)
      modifies this`output
      ensures output == old(output) + [(tid, Render(currentPath))]
    {
      var path := GetCurrentPath();
      output := output + [(tid, path)];
    }

    method HasAlreadyBeenProcessed(tid: TypeId) returns (found: bool)
      ensures found <==> tid in alreadyProcessed
    {
      for i := 0 to |alreadyProcessed|
        invariant tid !in alreadyProcessed[..i]
      {
        if alreadyProcessed[i] == tid {
          return true;
        }
      }
      return false;
    }

    /** Follow edge number n of tid: push the step and the type, explore, pop both. */
    method Follow(tid: TypeId, step: string, target: TypeId, ghost n: nat, ghost before: seq<Entry>)
      requires Closed(db) && tid in db.registered && tid !in alreadyProcessed
      requires n < |Edges(db, tid)| && Edges(db, tid)[n] == Edge(step, target)
      requires output == before + EntriesSoFar(db, tid, alreadyProcessed, currentPath, n)
      modifies this
      ensures currentPath == old(currentPath) && alreadyProcessed == old(alreadyProcessed)
      ensures output == before + EntriesSoFar(db, tid, alreadyProcessed, currentPath, n + 1)
      decreases Members(db.registered) - Members(alreadyProcessed), 0
    {
      hide Edges, EntriesSoFar, EntriesFor, Trails;
      ghost var path, ancestors := currentPath, alreadyProcessed;
      OneMoreEdge(db, tid, ancestors, path, n);
      currentPath := currentPath + [step];
      alreadyProcessed := alreadyProcessed + [tid];
      FewerTypesLeft(db, tid, ancestors);
      DoGather(target);
      alreadyProcessed := alreadyProcessed[..|alreadyProcessed|-1];
      currentPath := currentPath[..|currentPath|-1];
      assert currentPath == path && alreadyProcessed == ancestors;
    }

    /** The loop over the attributes; n edges have been taken when it starts. */
    method GatherAttributes(tid: TypeId, ghost n: nat, ghost before: seq<Entry>, ghost later: seq<Edge>)
        returns (ghost reached: nat)
      requires Closed(db) && tid in db.registered && tid !in alreadyProcessed
      requires n <= |Edges(db, tid)| && output == before + EntriesSoFar(db, tid, alreadyProcessed, currentPath, n)
      requires Ahead(db, tid, n, AttributeEdges(db, db.attributes(tid)[0..]) + later)
      modifies this
      ensures currentPath == old(currentPath) && alreadyProcessed == old(alreadyProcessed)
      ensures reached <= |Edges(db, tid)|
      ensures output == before + EntriesSoFar(db, tid, alreadyProcessed, currentPath, reached)
      ensures Ahead(db, tid, reached, later)
      decreases Members(db.registered) - Members(alreadyProcessed), 1
    {
      hide Edges, AttributeEdges, ChildEdges, AggregateEdges, EntriesSoFar, FirstBranches, Ahead;
      reached := n;
      var attributes := db.attributes(tid);
      for i := 0 to |attributes|
        invariant Ahead(db, tid, reached, AttributeEdges(db, attributes[i..]) + later)
        invariant currentPath == old(currentPath) && alreadyProcessed == old(alreadyProcessed)
        invariant reached <= |Edges(db, tid)|
        invariant output == before + EntriesSoFar(db, tid, alreadyProcessed, currentPath, reached)
      {
        NextAttribute(db, tid, i, reached, later);
        var info := attributes[i];
        match info.checker {
          case PointerTo(pointee) =>
            if pointee == db.objectType {
              continue;
            }
            Follow(tid, info.name, pointee, reached, before);
            reached := reached + 1;
          case ContainerOf(item) =>
            Follow(tid, info.name + "/[i]", item, reached, before);
            reached := reached + 1;
          case PlainValue =>
        }
      }
      AtFirst(db, tid);
      assert attributes[|attributes|..] == [] && [] + later == later;
    }

    /** The loop over all registered types, for the children of tid. */
    method GatherChildren(tid: TypeId, ghost n: nat, ghost before: seq<Entry>, ghost later: seq<Edge>)
        returns (ghost reached: nat)
      requires Closed(db) && tid in db.registered && tid !in alreadyProcessed
      requires n <= |Edges(db, tid)| && output == before + EntriesSoFar(db, tid, alreadyProcessed, currentPath, n)
      requires Ahead(db, tid, n, ChildEdges(db, tid, db.registered[0..]) + later)
      modifies this
      ensures currentPath == old(currentPath) && alreadyProcessed == old(alreadyProcessed)
      ensures reached <= |Edges(db, tid)|
      ensures output == before + EntriesSoFar(db, tid, alreadyProcessed, currentPath, reached)
      ensures Ahead(db, tid, reached, later)
      decreases Members(db.registered) - Members(alreadyProcessed), 1
    {
      hide Edges, AttributeEdges, ChildEdges, AggregateEdges, EntriesSoFar, FirstBranches, Ahead;
      reached := n;
      for j := 0 to |db.registered|
        invariant Ahead(db, tid, reached, ChildEdges(db, tid, db.registered[j..]) + later)
        invariant currentPath == old(currentPath) && alreadyProcessed == old(alreadyProcessed)
        invariant reached <= |Edges(db, tid)|
        invariant output == before + EntriesSoFar(db, tid, alreadyProcessed, currentPath, reached)
      {
        NextChild(db, tid, j, reached, later);
        var child := db.registered[j];
        if db.isChildOf(child, tid) {
          Follow(tid, "$" + db.name(child), child, reached, before);
          reached := reached + 1;
        }
      }
      AtFirst(db, tid);
      assert db.registered[|db.registered|..] == [] && [] + later == later;
    }

    /** The loop over the aggregations. */
    method GatherAggregates(tid: TypeId, ghost n: nat, ghost before: seq<Entry>) returns (ghost reached: nat)
      requires Closed(db) && tid in db.registered && tid !in alreadyProcessed
      requires n <= |Edges(db, tid)| && output == before + EntriesSoFar(db, tid, alreadyProcessed, currentPath, n)
      requires Ahead(db, tid, n, AggregateEdges(db, tid, db.aggregates[0..]))
      modifies this
      ensures currentPath == old(currentPath) && alreadyProcessed == old(alreadyProcessed)
      ensures reached <= |Edges(db, tid)|
      ensures output == before + EntriesSoFar(db, tid, alreadyProcessed, currentPath, reached)
      ensures Ahead(db, tid, reached, [])
      decreases Members(db.registered) - Members(alreadyProcessed), 1
    {
      hide Edges, AttributeEdges, ChildEdges, AggregateEdges, EntriesSoFar, FirstBranches, Ahead;
      reached := n;
      for k := 0 to |db.aggregates|
        invariant Ahead(db, tid, reached, AggregateEdges(db, tid, db.aggregates[k..]))
        invariant currentPath == old(currentPath) && alreadyProcessed == old(alreadyProcessed)
        invariant reached <= |Edges(db, tid)|
        invariant output == before + EntriesSoFar(db, tid, alreadyProcessed, currentPath, reached)
      {
        NextAggregate(db, tid, k, reached);
        var (first, second) := db.aggregates[k];
        if first == tid || second == tid {
          var other := if second == tid then first else second;
          Follow(tid, "$" + db.name(other), other, reached, before);
          reached := reached + 1;
        }
      }
      AtFirst(db, tid);
      assert db.aggregates[|db.aggregates|..] == [];
    }

    /** One entry for each trail from tid that repeats no type and meets no ancestor; both stacks are restored. */
    method DoGather(tid: TypeId)
      requires Closed(db) && tid in db.registered
      modifies this
      ensures currentPath == old(currentPath) && alreadyProcessed == old(alreadyProcessed)
      ensures output == old(output)
        + EntriesFor(db, tid, old(currentPath), Trails(db, tid, old(alreadyProcessed)))
      ensures forall entry :: entry in output[|old(output)|..] <==>
        IsVisited(db, tid, old(alreadyProcessed), old(currentPath), entry)
      decreases Members(db.registered) - Members(alreadyProcessed), 2
    {
      hide Edges, AttributeEdges, ChildEdges, AggregateEdges, EntriesSoFar, FirstBranches, Ahead, IsVisited;
      AllEntriesAreVisited(db, tid, alreadyProcessed, currentPath);
      var processed := HasAlreadyBeenProcessed(tid);
      if processed {
        assert output == old(output) + EntriesFor(db, tid, currentPath, []);
        return;
      }
      ghost var before := output;
      RecordOutput(tid);
      NoEdgesYet(db, tid, alreadyProcessed, currentPath);
      AtFirst(db, tid);
      ghost var children := ChildEdges(db, tid, db.registered[0..]);
      ghost var aggregates := AggregateEdges(db, tid, db.aggregates[0..]);
      ghost var n := GatherAttributes(tid, 0, before, children + aggregates);
      n := GatherChildren(tid, n, before, aggregates);
      n := GatherAggregates(tid, n, before);
      AllEdgesTaken(db, tid, alreadyProcessed, currentPath, n);
    }

    /** Uniquefy gets a copy of the list, and what it makes of the copy is dropped. */
    method Gather(tid: TypeId, less: (Entry, Entry) -> bool)
      requires Closed(db) && tid in db.registered && IsTotalOrder(less)
      modifies this
      ensures currentPath == old(currentPath) && alreadyProcessed == old(alreadyProcessed)
      ensures output == old(output)
        + EntriesFor(db, tid, old(currentPath), Trails(db, tid, old(alreadyProcessed)))
      ensures forall entry :: entry in output[|old(output)|..] <==>
        IsVisited(db, tid, old(alreadyProcessed), old(currentPath), entry)
      ensures old(output) == [] && Named(db) ==>
        (NoDuplicates(output) <==> !MeetsDoubledEdge(db, tid, old(alreadyProcessed)))
    {
      hide Edges, Closed, Trails, EntriesFor, Named, MeetsDoubledEdge, Uniquefied, IsTotalOrder, IsVisited;
      ghost var path, ancestors := currentPath, alreadyProcessed;
      DoGather(tid);
      var _ := Uniquefied(output, less);
      if Named(db) {
        ghost var recorded := EntriesFor(db, tid, path, Trails(db, tid, ancestors));
        assert [] + recorded == recorded;
        RepeatsExactlyAtDoubledEdges(db, tid, ancestors, path);
      }
    }
  }

  // ----- the three loops take the edges in order -----

  /** The edges from number n on are those of the items still to come. */
  ghost predicate Ahead(db: Database, t: TypeId, n: nat, coming: seq<Edge>) {
    n <= |Edges(db, t)| && Edges(db, t)[n..] == coming
  }

  lemma TakeNext(db: Database, t: TypeId, n: nat, next: seq<Edge>, coming: seq<Edge>, later: seq<Edge>)
    requires |next| <= 1 && Ahead(db, t, n, next + coming + later)
    ensures Ahead(db, t, n + |next|, coming + later)
    ensures next != [] ==> n < |Edges(db, t)| && Edges(db, t)[n] == next[0]
  {
    var edges := Edges(db, t);
    assert edges[n+|next|..] == edges[n..][|next|..] == coming + later;
    if next != [] {
      assert edges[n] == edges[n..][0];
    }
  }

  lemma AtFirst(db: Database, t: TypeId)
    ensures Ahead(db, t, 0, AttributeEdges(db, db.attributes(t)[0..])
      + (ChildEdges(db, t, db.registered[0..]) + AggregateEdges(db, t, db.aggregates[0..])))
    ensures AttributeEdges(db, []) == [] && ChildEdges(db, t, []) == [] && AggregateEdges(db, t, []) == []
  {
    assert db.attributes(t)[0..] == db.attributes(t) && db.registered[0..] == db.registered
      && db.aggregates[0..] == db.aggregates;
    assert Edges(db, t)[0..] == Edges(db, t);
  }

  lemma NextAttribute(db: Database, t: TypeId, i: nat, n: nat, later: seq<Edge>)
    requires i < |db.attributes(t)| && Ahead(db, t, n, AttributeEdges(db, db.attributes(t)[i..]) + later)
    ensures var next := AttributeEdge(db, db.attributes(t)[i]);
      && Ahead(db, t, n + |next|, AttributeEdges(db, db.attributes(t)[i+1..]) + later)
      && (next != [] ==> n < |Edges(db, t)| && Edges(db, t)[n] == next[0])
  {
    var items := db.attributes(t);
    assert items[i..][1..] == items[i+1..];
    TakeNext(db, t, n, AttributeEdge(db, items[i]), AttributeEdges(db, items[i+1..]), later);
  }

  lemma NextChild(db: Database, t: TypeId, i: nat, n: nat, later: seq<Edge>)
    requires i < |db.registered| && Ahead(db, t, n, ChildEdges(db, t, db.registered[i..]) + later)
    ensures var next := ChildEdge(db, t, db.registered[i]);
      && Ahead(db, t, n + |next|, ChildEdges(db, t, db.registered[i+1..]) + later)
      && (next != [] ==> n < |Edges(db, t)| && Edges(db, t)[n] == next[0])
  {
    var items := db.registered;
    assert items[i..][1..] == items[i+1..];
    TakeNext(db, t, n, ChildEdge(db, t, items[i]), ChildEdges(db, t, items[i+1..]), later);
  }

  lemma NextAggregate(db: Database, t: TypeId, i: nat, n: nat)
    requires i < |db.aggregates| && Ahead(db, t, n, AggregateEdges(db, t, db.aggregates[i..]))
    ensures var next := AggregateEdge(db, t, db.aggregates[i]);
      && Ahead(db, t, n + |next|, AggregateEdges(db, t, db.aggregates[i+1..]))
      && (next != [] ==> n < |Edges(db, t)| && Edges(db, t)[n] == next[0])
  {
    var items := db.aggregates;
    var next, coming := AggregateEdge(db, t, items[i]), AggregateEdges(db, t, items[i+1..]);
    assert items[i..][1..] == items[i+1..];
    assert next + coming + [] == AggregateEdges(db, t, items[i..]) && coming + [] == coming;
    TakeNext(db, t, n, next, coming, []);
  }

  lemma AllEdgesTaken(db: Database, t: TypeId, ancestors: seq<TypeId>, path: seq<string>, n: nat)
    requires Closed(db) && t in db.registered && t !in ancestors
    requires Ahead(db, t, n, [])
    ensures EntriesSoFar(db, t, ancestors, path, n) == EntriesFor(db, t, path, Trails(db, t, ancestors))
  {
    assert n == |Edges(db, t)|;
  }
}
