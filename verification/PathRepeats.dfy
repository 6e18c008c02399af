/** When the configuration-path explorer records the same entry twice. */
module PathRepeats {
  import opened Basics
  import opened PathTrails

  function End(db: Database, t: TypeId, trail: seq<nat>): TypeId
    requires IsTrail(db, t, trail)
  {
    var types := TypesOn(db, t, trail);
    types[|types|-1]
  }

  /** Two equal edges out of u, to a type that is not among those seen. */
  predicate Doubled(db: Database, u: TypeId, seen: seq<TypeId>, i: nat, j: nat) {
    i < j < |Edges(db, u)| && Edges(db, u)[i] == Edges(db, u)[j] && Edges(db, u)[i].target !in seen
  }

  /** A trail that the explorer meets, and at its end two equal edges that it both follows. */
  ghost predicate ComesToDoubled(db: Database, t: TypeId, ancestors: seq<TypeId>, trail: seq<nat>, i: nat, j: nat) {
    && RepeatsNoType(db, t, ancestors, trail)
    && Doubled(db, End(db, t, trail), ancestors + TypesOn(db, t, trail), i, j)
  }

  ghost predicate MeetsDoubledEdge(db: Database, t: TypeId, ancestors: seq<TypeId>) {
    exists trail, i, j :: ComesToDoubled(db, t, ancestors, trail, i, j)
  }

  // ----- two equal edges: the same entry twice -----

  lemma {:induction false} OneEdgeFurther(db: Database, t: TypeId, trail: seq<nat>, i: nat)
    requires IsTrail(db, t, trail) && i < |Edges(db, End(db, t, trail))|
    ensures IsTrail(db, t, trail + [i])
    ensures var e := Edges(db, End(db, t, trail))[i];
      && TypesOn(db, t, trail + [i]) == TypesOn(db, t, trail) + [e.target]
      && StepsOn(db, t, trail + [i]) == StepsOn(db, t, trail) + [e.step]
    decreases |trail|
  {
    hide Edges;
    var longer := trail + [i];
    if trail == [] {
      var e := Edges(db, t)[i];
      assert longer == [i] && longer[1..] == [];
      assert TypesOn(db, e.target, []) == [e.target] && StepsOn(db, e.target, []) == [];
    } else {
      assert longer[0] == trail[0] && longer[1..] == trail[1..] + [i];
      OneEdgeFurther(db, Edges(db, t)[trail[0]].target, trail[1..], i);
    }
  }

  lemma OneTypeFurther(db: Database, t: TypeId, ancestors: seq<TypeId>, trail: seq<nat>, i: nat)
    requires RepeatsNoType(db, t, ancestors, trail)
    requires i < |Edges(db, End(db, t, trail))|
    requires Edges(db, End(db, t, trail))[i].target !in ancestors + TypesOn(db, t, trail)
    ensures RepeatsNoType(db, t, ancestors, trail + [i])
  {
    hide Edges, IsTrail, TypesOn;
    OneEdgeFurther(db, t, trail, i);
  }

  /** Whatever the names are, the explorer repeats an entry where it follows two equal edges. */
  lemma DoubledEdgeRepeats(db: Database, t: TypeId, ancestors: seq<TypeId>, path: seq<string>)
    requires Closed(db) && t in db.registered && MeetsDoubledEdge(db, t, ancestors)
    ensures !NoDuplicates(EntriesFor(db, t, path, Trails(db, t, ancestors)))
  {
    hide Edges, Trails, IsTrail, TypesOn, StepsOn;
    var trail, i, j :| ComesToDoubled(db, t, ancestors, trail, i, j);
    OneEdgeFurther(db, t, trail, i);
    OneEdgeFurther(db, t, trail, j);
    OneTypeFurther(db, t, ancestors, trail, i);
    OneTypeFurther(db, t, ancestors, trail, j);
    TrailsAreTheRepetitionFreeOnes(db, t, ancestors, trail + [i]);
    TrailsAreTheRepetitionFreeOnes(db, t, ancestors, trail + [j]);
    var trails := Trails(db, t, ancestors);
    var k :| 0 <= k < |trails| && trails[k] == trail + [i];
    var m :| 0 <= m < |trails| && trails[m] == trail + [j];
    assert (trail + [i])[|trail|] == i && (trail + [j])[|trail|] == j;
    assert k != m;
    var entries := EntriesFor(db, t, path, trails);
    assert entries[k] == EntryFor(db, t, path, trail + [i]) == EntryFor(db, t, path, trail + [j]) == entries[m];
  }

  // ----- the steps can be read back from the text of a path -----

  /** One piece of a path, which is not the index that follows the name of a container. */
  predicate IsPiece(s: string) {
    '/' !in s && s != "[i]"
  }

  predicate IsStep(s: string) {
    IsPiece(s) || (|s| >= 4 && s[|s|-4..] == "/[i]" && IsPiece(s[..|s|-4]))
  }

  predicate SameStep(edges: seq<Edge>, i: nat, j: nat) {
    i < |edges| && j < |edges| && edges[i].step == edges[j].step
  }

  /** Names consist of one piece, and steps that are equal lead from one type to one other. */
  ghost predicate Named(db: Database) {
    && (forall t, a :: t in db.registered && a in db.attributes(t) ==> IsPiece(a.name))
    && (forall t :: t in db.registered ==> '/' !in db.name(t))
    && (forall t, i: nat, j: nat ::
         t in db.registered && SameStep(Edges(db, t), i, j) ==> Edges(db, t)[i].target == Edges(db, t)[j].target)
  }

  predicate EndsOrSlash(s: string) {
    s == "" || s[0] == '/'
  }

  lemma NotShorter(p: string, rest: string, q: string, more: string)
    requires '/' !in q && EndsOrSlash(rest) && p + rest == q + more
    ensures |p| >= |q|
  {
    var whole := q + more;
    assert forall k :: 0 <= k < |q| ==> whole[k] == q[k];
    assert forall k :: 0 <= k < |rest| ==> whole[|p|+k] == rest[k];
  }

  /** Where the first piece of a text ends is determined by the text. */
  lemma FirstPiece(p: string, rest: string, q: string, more: string)
    requires '/' !in p && '/' !in q && EndsOrSlash(rest) && EndsOrSlash(more)
    requires p + rest == q + more
    ensures p == q && rest == more
  {
    NotShorter(p, rest, q, more);
    NotShorter(q, more, p, rest);
    assert p == (p + rest)[..|p|] && q == (q + more)[..|q|];
    assert rest == (p + rest)[|p|..] && more == (q + more)[|q|..];
  }

  lemma AddedLast(a: string, b: string, c: string)
    ensures (a + b) + "/" + c == a + (b + "/" + c)
  {
  }

  lemma {:induction false} RenderJoined(path: seq<string>, more: seq<string>)
    ensures Render(path + more) == Render(path) + Render(more)
  {
    if more == [] {
      assert path + more == path;
    } else {
      var n := |more| - 1;
      RenderJoined(path, more[..n]);
      assert (path + more)[..|path|+n] == path + more[..n];
      assert (path + more)[|path|+n] == more[n];
      AddedLast(Render(path), Render(more[..n]), more[n]);
    }
  }

  lemma RenderFirst(path: seq<string>)
    requires path != []
    ensures Render(path) == "/" + path[0] + Render(path[1..])
  {
    assert [path[0]] + path[1..] == path && [path[0]][..0] == [];
    RenderJoined([path[0]], path[1..]);
  }

  /** The part of a step in front of its index, and the index. */
  function Stem(s: string): (p: string)
    requires IsStep(s)
    ensures IsPiece(p)
  {
    if IsPiece(s) then s else s[..|s|-4]
  }

  function Index(s: string): (rest: string)
    requires IsStep(s)
    ensures Stem(s) + rest == s
    ensures rest == "" || rest == "/[i]"
  {
    if IsPiece(s) then "" else s[|s|-4..]
  }

  ghost predicate AreSteps(path: seq<string>) {
    forall k :: 0 <= k < |path| ==> IsStep(path[k])
  }

  lemma SlashFirst(path: seq<string>)
    ensures EndsOrSlash(Render(path))
  {
    if path != [] {
      RenderFirst(path);
    }
  }

  /** What follows the first piece of a rendered path. */
  function AfterStem(path: seq<string>): string
    requires path != [] && IsStep(path[0])
  {
    Index(path[0]) + Render(path[1..])
  }

  lemma RenderStem(path: seq<string>)
    requires path != [] && IsStep(path[0])
    ensures Render(path) == "/" + (Stem(path[0]) + AfterStem(path))
    ensures EndsOrSlash(AfterStem(path))
  {
    hide IsStep, IsPiece, Stem, Index;
    RenderFirst(path);
    SlashFirst(path[1..]);
    var stem, index, rest := Stem(path[0]), Index(path[0]), Render(path[1..]);
    assert "/" + (stem + index) + rest == "/" + (stem + (index + rest));
  }

  lemma SameAfterSlash(a: string, b: string)
    requires "/" + a == "/" + b
    ensures a == b
  {
    assert ("/" + a)[1..] == a && ("/" + b)[1..] == b;
  }

  /** No path starts with an index, because no name is one. */
  lemma NoIndexFirst(path: seq<string>, more: string)
    requires AreSteps(path) && EndsOrSlash(more)
    ensures Render(path) != "/[i]" + more
  {
    hide IsStep, Render, AfterStem, Index;
    if path == [] {
      NothingRendered();
    } else {
      RenderStem(path);
      assert "/[i]" + more == "/" + ("[i]" + more);
      if Render(path) == "/[i]" + more {
        SameAfterSlash(Stem(path[0]) + AfterStem(path), "[i]" + more);
        FirstPiece(Stem(path[0]), AfterStem(path), "[i]", more);
        assert false;
      }
    }
  }

  lemma NothingRendered()
    ensures Render([]) == ""
  {
  }

  lemma SameIndex(x: string, path: seq<string>, y: string, more: seq<string>)
    requires (x == "" || x == "/[i]") && (y == "" || y == "/[i]")
    requires AreSteps(path) && AreSteps(more) && x + Render(path) == y + Render(more)
    ensures x == y && Render(path) == Render(more)
  {
    hide AreSteps, Render;
    SlashFirst(path);
    SlashFirst(more);
    NoIndexFirst(path, Render(more));
    NoIndexFirst(more, Render(path));
    assert "" + Render(path) == Render(path) && "" + Render(more) == Render(more);
    assert x == y;
    assert (x + Render(path))[|x|..] == Render(path) && (y + Render(more))[|y|..] == Render(more);
  }

  lemma {:induction false} RenderIsInjective(a: seq<string>, b: seq<string>)
    requires AreSteps(a) && AreSteps(b) && Render(a) == Render(b)
    ensures a == b
  {
    hide IsStep, IsPiece, Stem, Index, AfterStem;
    if a == [] && b != [] {
      RenderStem(b);
      assert false;
    } else if a != [] && b == [] {
      RenderStem(a);
      assert false;
    } else if a != [] {
      FirstSteps(a, b);
      RenderIsInjective(a[1..], b[1..]);
      assert a == [a[0]] + a[1..] && b == [b[0]] + b[1..];
    }
  }

  lemma FirstSteps(a: seq<string>, b: seq<string>)
    requires a != [] && b != [] && AreSteps(a) && AreSteps(b) && Render(a) == Render(b)
    ensures a[0] == b[0] && Render(a[1..]) == Render(b[1..])
  {
    hide IsStep, Render;
    RenderStem(a);
    RenderStem(b);
    SameAfterSlash(Stem(a[0]) + AfterStem(a), Stem(b[0]) + AfterStem(b));
    FirstPiece(Stem(a[0]), AfterStem(a), Stem(b[0]), AfterStem(b));
    SameIndex(Index(a[0]), a[1..], Index(b[0]), b[1..]);
  }

  // ----- with such names, a repeated entry comes from two equal edges -----

  lemma {:induction false} AttributeSteps(db: Database, attributes: seq<Attribute>)
    requires forall a :: a in attributes ==> IsPiece(a.name)
    ensures forall e :: e in AttributeEdges(db, attributes) ==> IsStep(e.step)
  {
    if attributes != [] {
      AttributeSteps(db, attributes[1..]);
      var name := attributes[0].name;
      assert (name + "/[i]")[|name|..] == "/[i]" && (name + "/[i]")[..|name|] == name;
      assert IsStep(name) && IsStep(name + "/[i]");
    }
  }

  lemma TypeStep(name: string)
    requires '/' !in name
    ensures IsStep("$" + name)
  {
    assert ("$" + name)[0] == '$';
  }

  lemma {:induction false} ChildSteps(db: Database, t: TypeId, candidates: seq<TypeId>)
    requires forall e :: e in ChildEdges(db, t, candidates) ==> '/' !in db.name(e.target)
    ensures forall e :: e in ChildEdges(db, t, candidates) ==> IsStep(e.step)
  {
    if candidates != [] {
      ChildSteps(db, t, candidates[1..]);
      if ChildEdge(db, t, candidates[0]) != [] {
        assert ChildEdges(db, t, candidates)[0] == ChildEdge(db, t, candidates[0])[0];
        TypeStep(db.name(candidates[0]));
      }
    }
  }

  lemma {:induction false} AggregateSteps(db: Database, t: TypeId, pairs: seq<(TypeId, TypeId)>)
    requires forall e :: e in AggregateEdges(db, t, pairs) ==> '/' !in db.name(e.target)
    ensures forall e :: e in AggregateEdges(db, t, pairs) ==> IsStep(e.step)
  {
    if pairs != [] {
      AggregateSteps(db, t, pairs[1..]);
      var next := AggregateEdge(db, t, pairs[0]);
      if next != [] {
        assert AggregateEdges(db, t, pairs)[0] == next[0];
        TypeStep(db.name(next[0].target));
      }
    }
  }

  lemma EdgesAreSteps(db: Database, t: TypeId, e: Edge)
    requires Closed(db) && Named(db) && t in db.registered && e in Edges(db, t)
    ensures e.target in db.registered && IsStep(e.step)
  {
    hide AttributeEdges, ChildEdges, AggregateEdges, IsStep, IsPiece;
    assert forall f :: f in ChildEdges(db, t, db.registered) ==> f in Edges(db, t);
    assert forall f :: f in AggregateEdges(db, t, db.aggregates) ==> f in Edges(db, t);
    AttributeSteps(db, db.attributes(t));
    ChildSteps(db, t, db.registered);
    AggregateSteps(db, t, db.aggregates);
  }

  lemma {:induction false} TrailsConsistOfSteps(db: Database, t: TypeId, trail: seq<nat>)
    requires Closed(db) && Named(db) && t in db.registered && IsTrail(db, t, trail)
    ensures AreSteps(StepsOn(db, t, trail))
    decreases |trail|
  {
    hide Edges, IsStep, Named;
    if trail != [] {
      var e := Edges(db, t)[trail[0]];
      assert e in Edges(db, t);
      EdgesAreSteps(db, t, e);
      TrailsConsistOfSteps(db, e.target, trail[1..]);
    }
  }

  lemma PartAtOnce(db: Database, t: TypeId, ancestors: seq<TypeId>, a: seq<nat>, b: seq<nat>)
    requires Named(db) && t in db.registered && a != [] && b != [] && a[0] < b[0]
    requires RepeatsNoType(db, t, ancestors, a) && RepeatsNoType(db, t, ancestors, b)
    requires StepsOn(db, t, a) == StepsOn(db, t, b)
    ensures ComesToDoubled(db, t, ancestors, [], a[0], b[0])
  {
    hide Edges, IsPiece;
    var edges := Edges(db, t);
    var e := edges[a[0]];
    assert StepsOn(db, t, a)[0] == e.step && StepsOn(db, t, b)[0] == edges[b[0]].step;
    assert SameStep(edges, a[0], b[0]);
    assert TypesOn(db, t, []) == [t];
    assert TypesOn(db, e.target, a[1..])[0] == e.target;
    RepeatsNoTypeUnfolds(db, t, ancestors, a);
  }

  lemma TypesFromFirstEdge(db: Database, t: TypeId, n: nat, rest: seq<nat>)
    requires n < |Edges(db, t)| && IsTrail(db, Edges(db, t)[n].target, rest)
    ensures IsTrail(db, t, [n] + rest)
    ensures TypesOn(db, t, [n] + rest) == [t] + TypesOn(db, Edges(db, t)[n].target, rest)
  {
    hide Edges;
    assert ([n] + rest)[1..] == rest;
  }

  lemma TypesAreNotEmpty(db: Database, t: TypeId, trail: seq<nat>)
    requires IsTrail(db, t, trail)
    ensures TypesOn(db, t, trail) != []
  {
  }

  lemma OneEdgeEarlier(db: Database, t: TypeId, ancestors: seq<TypeId>, n: nat, rest: seq<nat>, i: nat, j: nat)
    requires n < |Edges(db, t)| && t !in ancestors
    requires ComesToDoubled(db, Edges(db, t)[n].target, ancestors + [t], rest, i, j)
    ensures ComesToDoubled(db, t, ancestors, [n] + rest, i, j)
  {
    hide Edges, TypesOn, IsTrail;
    var trail, u := [n] + rest, Edges(db, t)[n].target;
    assert trail[1..] == rest;
    TypesFromFirstEdge(db, t, n, rest);
    assert RepeatsNoType(db, t, ancestors, trail) by {
      RepeatsNoTypeUnfolds(db, t, ancestors, trail);
    }
    var types := TypesOn(db, u, rest);
    assert types != [] by {
      TypesAreNotEmpty(db, u, rest);
    }
    assert ([t] + types)[|types|] == types[|types|-1];
    assert ancestors + TypesOn(db, t, trail) == ancestors + [t] + TypesOn(db, u, rest);
  }

  /** Two trails with the same steps part at two equal edges. */
  lemma {:induction false} WhereTrailsPart(db: Database, t: TypeId, ancestors: seq<TypeId>, a: seq<nat>, b: seq<nat>)
      returns (trail: seq<nat>, i: nat, j: nat)
    requires Closed(db) && Named(db) && t in db.registered
    requires RepeatsNoType(db, t, ancestors, a) && RepeatsNoType(db, t, ancestors, b)
    requires StepsOn(db, t, a) == StepsOn(db, t, b) && a != b
    ensures ComesToDoubled(db, t, ancestors, trail, i, j)
    decreases |a|
  {
    hide Edges, Named, ComesToDoubled, TypesOn;
    assert a != [] && b != [];
    if a[0] < b[0] {
      PartAtOnce(db, t, ancestors, a, b);
      trail, i, j := [], a[0], b[0];
    } else if b[0] < a[0] {
      PartAtOnce(db, t, ancestors, b, a);
      trail, i, j := [], b[0], a[0];
    } else {
      var e := Edges(db, t)[a[0]];
      assert e in Edges(db, t);
      RepeatsNoTypeUnfolds(db, t, ancestors, a);
      RepeatsNoTypeUnfolds(db, t, ancestors, b);
      assert StepsOn(db, e.target, a[1..]) == StepsOn(db, t, a)[1..];
      assert StepsOn(db, e.target, b[1..]) == StepsOn(db, t, b)[1..];
      assert a == [a[0]] + a[1..] && b == [b[0]] + b[1..];
      trail, i, j := WhereTrailsPart(db, e.target, ancestors + [t], a[1..], b[1..]);
      OneEdgeEarlier(db, t, ancestors, a[0], trail, i, j);
      trail := [a[0]] + trail;
    }
  }

  /** With such names, the explorer records an entry twice exactly when it comes to two equal edges that it can
      both follow. */
  lemma RepeatsExactlyAtDoubledEdges(db: Database, t: TypeId, ancestors: seq<TypeId>, path: seq<string>)
    requires Closed(db) && t in db.registered && Named(db)
    ensures NoDuplicates(EntriesFor(db, t, path, Trails(db, t, ancestors))) <==> !MeetsDoubledEdge(db, t, ancestors)
  {
    hide Trails, EntryFor, ComesToDoubled, Named;
    var trails := Trails(db, t, ancestors);
    var entries := EntriesFor(db, t, path, trails);
    if MeetsDoubledEdge(db, t, ancestors) {
      DoubledEdgeRepeats(db, t, ancestors, path);
    }
    if !NoDuplicates(entries) {
      var k, m :| 0 <= k < m < |entries| && entries[k] == entries[m];
      TrailsAscend(db, t, ancestors);
      assert trails[k] in trails && trails[m] in trails;
      TrailsAreTheRepetitionFreeOnes(db, t, ancestors, trails[k]);
      TrailsAreTheRepetitionFreeOnes(db, t, ancestors, trails[m]);
      SameEntrySameSteps(db, t, path, trails[k], trails[m]);
      var trail, i, j := WhereTrailsPart(db, t, ancestors, trails[k], trails[m]);
    }
  }

  lemma SameEntrySameSteps(db: Database, t: TypeId, path: seq<string>, a: seq<nat>, b: seq<nat>)
    requires Closed(db) && Named(db) && t in db.registered && IsTrail(db, t, a) && IsTrail(db, t, b)
    requires EntryFor(db, t, path, a) == EntryFor(db, t, path, b)
    ensures StepsOn(db, t, a) == StepsOn(db, t, b)
  {
    hide Edges, Named, Render, IsStep, TypesOn, StepsOn, IsTrail;
    var x, y := StepsOn(db, t, a), StepsOn(db, t, b);
    TrailsConsistOfSteps(db, t, a);
    TrailsConsistOfSteps(db, t, b);
    RenderJoined(path, x);
    RenderJoined(path, y);
    assert Render(x) == Render(path + x)[|Render(path)|..] && Render(y) == Render(path + y)[|Render(path)|..];
    RenderIsInjective(x, y);
  }

  /** A database with two types, the second of which is aggregated with the first twice. */
  function AggregatedTwice(node: TypeId, protocol: TypeId, name: TypeId -> string): Database {
    Database(_ => [], name, [node, protocol], (_, _) => false, node, [(node, protocol), (node, protocol)])
  }

  /** There the entry of the second type is recorded twice. */
  lemma RegisteredTwiceRecordedTwice(node: TypeId, protocol: TypeId, name: TypeId -> string, path: seq<string>)
    requires node != protocol
    ensures var db := AggregatedTwice(node, protocol, name);
      && Closed(db) && MeetsDoubledEdge(db, node, [])
      && !NoDuplicates(EntriesFor(db, node, path, Trails(db, node, [])))
  {
    var db := AggregatedTwice(node, protocol, name);
    EdgesOfAggregatedTwice(node, protocol, name);
    assert ComesToDoubled(db, node, [], [], 0, 1);
    DoubledEdgeRepeats(db, node, [], path);
  }

  lemma EdgesOfAggregatedTwice(node: TypeId, protocol: TypeId, name: TypeId -> string)
    requires node != protocol
    ensures var db := AggregatedTwice(node, protocol, name);
      && Edges(db, node) == [Edge("$" + name(protocol), protocol), Edge("$" + name(protocol), protocol)]
      && Edges(db, protocol) == [Edge("$" + name(node), node), Edge("$" + name(node), node)]
  {
    var db := AggregatedTwice(node, protocol, name);
    assert db.registered[1..] == [protocol] && [protocol][1..] == [];
    forall t ensures AttributeEdges(db, db.attributes(t)) == [] && ChildEdges(db, t, db.registered) == [] {
      assert ChildEdges(db, t, [protocol]) == [];
    }
    var pair := (node, protocol);
    assert db.aggregates[1..] == [pair] && [pair][1..] == [];
    forall t ensures AggregateEdges(db, t, [pair]) == AggregateEdge(db, t, pair) {
      assert AggregateEdges(db, t, []) == [];
    }
    forall t ensures Edges(db, t) == AggregateEdge(db, t, pair) + AggregateEdge(db, t, pair) {
      assert AggregateEdges(db, t, db.aggregates) == AggregateEdge(db, t, pair) + AggregateEdges(db, t, [pair]);
    }
  }

  /** An aggregation that is registered twice makes parallel edges, and every path through it is then recorded
      once for each of them: the same entry for different trails. */
  lemma ParallelEdgesRepeatEntries(db: Database, t: TypeId, ancestors: seq<TypeId>, path: seq<string>,
                                   i: nat, j: nat, trail: seq<nat>)
    requires Closed(db) && t in db.registered
    requires i < |Edges(db, t)| && j < |Edges(db, t)| && Edges(db, t)[i] == Edges(db, t)[j]
    requires [i] + trail in Trails(db, t, ancestors)
    ensures [j] + trail in Trails(db, t, ancestors)
    ensures i != j ==> [i] + trail != [j] + trail
    ensures EntryFor(db, t, path, [i] + trail) == EntryFor(db, t, path, [j] + trail)
  {
    TrailsAreTheRepetitionFreeOnes(db, t, ancestors, [i] + trail);
    TrailsAreTheRepetitionFreeOnes(db, t, ancestors, [j] + trail);
    RepeatsNoTypeUnfolds(db, t, ancestors, [i] + trail);
    RepeatsNoTypeUnfolds(db, t, ancestors, [j] + trail);
    assert ([i] + trail)[0] == i && ([j] + trail)[0] == j;
    assert ([i] + trail)[1..] == trail && ([j] + trail)[1..] == trail;
    EntryThroughEdge(db, t, path, i, trail);
    EntryThroughEdge(db, t, path, j, trail);
  }
}
