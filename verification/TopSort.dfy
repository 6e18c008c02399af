/** Dependency sorting of (parent, child) pairs: bindings/python/topsort.py, topsort and topsort_levels. */
module TopSort {
  import opened Basics
  import opened Graphs

  /** topsort's answer, or the three arguments of the CycleError it raises. */
  datatype SortOutcome =
    | Sorted(answer: seq<Vertex>)
    | CycleError(before: seq<Vertex>, numParents: map<Vertex, int>, children: map<Vertex, seq<Vertex>>)

  /** What the level generator yields before it stops, or before it raises CycleError with two arguments. */
  datatype LevelsOutcome =
    | Levels(levels: seq<seq<Vertex>>)
    | LevelsThenCycleError(levels: seq<seq<Vertex>>, numParents: map<Vertex, int>, children: map<Vertex, seq<Vertex>>)

  function ArcsOf(pairs: seq<Arc>): set<Arc> {
    set e | e in pairs
  }

  function VerticesOf(pairs: seq<Arc>): set<Vertex> {
    (set e | e in pairs :: e.0) + (set e | e in pairs :: e.1)
  }

  /** The children of p, in list order and as often as they are listed. */
  function ChildrenOf(pairs: seq<Arc>, p: Vertex): seq<Vertex> {
    if pairs == [] then [] else
    var e := pairs[|pairs|-1];
    ChildrenOf(pairs[..|pairs|-1], p) + if e.0 == p then [e.1] else []
  }

  /** How many pairs lead into c from a parent that is not gone, repeated pairs counted as often as they occur. */
  function LiveParents(pairs: seq<Arc>, gone: set<Vertex>, c: Vertex): nat {
    if pairs == [] then 0 else
    var e := pairs[|pairs|-1];
    LiveParents(pairs[..|pairs|-1], gone, c) + if e.1 == c && e.0 !in gone then 1 else 0
  }

  function Listed(children: map<Vertex, seq<Vertex>>, p: Vertex): seq<Vertex> {
    if p in children then children[p] else []
  }

  /** The tables describe what is left of the graph with vertices vs and the arcs in pairs when the vertices in gone
      are taken out. */
  ghost predicate Describe(pairs: seq<Arc>, vs: set<Vertex>, gone: set<Vertex>,
                           numParents: map<Vertex, int>, children: map<Vertex, seq<Vertex>>) {
    && VerticesOf(pairs) <= vs
    && numParents.Keys == vs - gone
    && children.Keys !! gone
    && (forall v :: v in numParents ==> numParents[v] == LiveParents(pairs, gone, v))
    && (forall p {:trigger Listed(children, p)} :: p !in gone ==> Listed(children, p) == ChildrenOf(pairs, p))
  }

  /** The part of a dependency order that has been settled: no repeats, and parents before their children. */
  ghost predicate InOrder(arcs: set<Arc>, order: seq<Vertex>) {
    && NoDuplicates(order)
    && forall k, p :: 0 <= k < |order| && (p, order[k]) in arcs ==> p in order[..k]
  }

  lemma {:induction false} ChildrenAreArcs(pairs: seq<Arc>, p: Vertex, c: Vertex)
    ensures c in ChildrenOf(pairs, p) <==> (p, c) in ArcsOf(pairs)
  {
    if pairs != [] {
      var n := |pairs| - 1;
      ChildrenAreArcs(pairs[..n], p, c);
      assert pairs == pairs[..n] + [pairs[n]];
    }
  }

  /** Taking p out lowers c's count by the number of times c is listed as p's child. */
  lemma {:induction false} TakingOutLowersCount(pairs: seq<Arc>, gone: set<Vertex>, p: Vertex, c: Vertex)
    requires p !in gone
    ensures LiveParents(pairs, gone, c)
         == LiveParents(pairs, gone + {p}, c) + multiset(ChildrenOf(pairs, p))[c]
  {
    if pairs != [] {
      TakingOutLowersCount(pairs[..|pairs|-1], gone, p, c);
    }
  }

  lemma {:induction false} NoLiveParents(pairs: seq<Arc>, gone: set<Vertex>, c: Vertex)
    ensures LiveParents(pairs, gone, c) == 0 <==> forall p :: (p, c) in ArcsOf(pairs) ==> p in gone
  {
    if pairs != [] {
      var n := |pairs| - 1;
      NoLiveParents(pairs[..n], gone, c);
      assert pairs == pairs[..n] + [pairs[n]];
      assert forall e :: e in ArcsOf(pairs) <==> e in ArcsOf(pairs[..n]) || e == pairs[n];
    }
  }

  lemma OnePairMore(pairs: seq<Arc>, e: Arc, v: Vertex)
    ensures v in VerticesOf(pairs + [e]) <==> v in VerticesOf(pairs) || v == e.0 || v == e.1
    ensures LiveParents(pairs + [e], {}, v) == LiveParents(pairs, {}, v) + if v == e.1 then 1 else 0
    ensures ChildrenOf(pairs + [e], v) == ChildrenOf(pairs, v) + if v == e.0 then [e.1] else []
    ensures v !in VerticesOf(pairs) ==> LiveParents(pairs, {}, v) == 0
  {
    assert (pairs + [e])[..|pairs|] == pairs;
    assert forall x :: x in pairs + [e] <==> x in pairs || x == e;
    NoLiveParents(pairs, {}, v);
  }

  /** What one pair does to the parent counts. */
  function CountPair(numParents: map<Vertex, int>, e: Arc): map<Vertex, int> {
    var known := map[e.0 := 0, e.1 := 0] + numParents;
    known[e.1 := known[e.1] + 1]
  }

  lemma DescribeOnePairMore(pairs: seq<Arc>, e: Arc, numParents: map<Vertex, int>, children: map<Vertex, seq<Vertex>>)
    requires Describe(pairs, VerticesOf(pairs), {}, numParents, children)
    ensures Describe(pairs + [e], VerticesOf(pairs + [e]), {},
                     CountPair(numParents, e), children[e.0 := Listed(children, e.0) + [e.1]])
  {
    hide LiveParents, ChildrenOf, VerticesOf;
    var after := CountPair(numParents, e);
    var listed := children[e.0 := Listed(children, e.0) + [e.1]];
    forall v
      ensures v in after <==> v in VerticesOf(pairs + [e])
      ensures v in after ==> after[v] == LiveParents(pairs + [e], {}, v)
      ensures Listed(listed, v) == ChildrenOf(pairs + [e], v)
    {
      OnePairMore(pairs, e, v);
      assert Listed(children, v) == ChildrenOf(pairs, v);
    }
  }

  lemma DescribeNoPairs()
    ensures Describe([], VerticesOf([]), {}, map[], map[])
  {
  }

  /** The first loop of both sorting functions: count the parents and list the children. */
  method BuildTables(pairs: seq<Arc>) returns (numParents: map<Vertex, int>, children: map<Vertex, seq<Vertex>>)
    ensures Describe(pairs, VerticesOf(pairs), {}, numParents, children)
    ensures forall p :: p in children ==> children[p] != []
  {
    hide LiveParents, ChildrenOf, VerticesOf;
    DescribeNoPairs();
    numParents, children := map[], map[];
    for i := 0 to |pairs|
      invariant Describe(pairs[..i], VerticesOf(pairs[..i]), {}, numParents, children)
      invariant forall p :: p in children ==> children[p] != []
    {
      var (parent, child) := pairs[i];
      DescribeOnePairMore(pairs[..i], pairs[i], numParents, children);
      ghost var expected := CountPair(numParents, pairs[i]);
      assert pairs[..i] + [pairs[i]] == pairs[..i+1];
      if parent !in numParents {
        numParents := numParents[parent := 0];
      }
      if child !in numParents {
        numParents := numParents[child := 0];
      }
      numParents := numParents[child := numParents[child] + 1];
      assert numParents == expected;
      children := children[parent := Listed(children, parent) + [child]];
    }
    assert pairs[..|pairs|] == pairs;
  }

  /** Which vertices are held back, and why, when part of a graph has been put in order and no vertex without
      a parent is left: exactly those downstream of a cycle. */
  lemma HeldBackIsDownstream(pairs: seq<Arc>, order: seq<Vertex>, left: set<Vertex>, v: Vertex)
    requires InOrder(ArcsOf(pairs), order)
    requires left == VerticesOf(pairs) - Members(order)
    requires forall c :: c in left ==> LiveParents(pairs, Members(order), c) > 0
    ensures v in left <==> Downstream(ArcsOf(pairs), v) && v in VerticesOf(pairs)
    ensures v in left ==> Cyclic(ArcsOf(pairs))
  {
    var arcs := ArcsOf(pairs);
    if v in left {
      forall c | c in left ensures HasParentIn(arcs, left, c) {
        NoLiveParents(pairs, Members(order), c);
        var p :| (p, c) in arcs && p !in order;
        assert (p, c) in pairs;
      }
      ParentsWithinMakeCycle(arcs, left, v);
    } else if v in order && Downstream(arcs, v) {
      var w, k :| LeadsFromCycle(arcs, w, k, v);
      SettledWalk(arcs, order, w);
    }
  }

  lemma HeldBack(pairs: seq<Arc>, order: seq<Vertex>)
    requires InOrder(ArcsOf(pairs), order)
    requires forall c :: c in VerticesOf(pairs) && c !in order ==> LiveParents(pairs, Members(order), c) > 0
    ensures forall v :: v in VerticesOf(pairs) ==> (v in order <==> !Downstream(ArcsOf(pairs), v))
    ensures Cyclic(ArcsOf(pairs)) <==> exists v :: v in VerticesOf(pairs) && v !in order
  {
    var left := VerticesOf(pairs) - Members(order);
    forall v ensures v in left <==> Downstream(ArcsOf(pairs), v) && v in VerticesOf(pairs)
             ensures v in left ==> Cyclic(ArcsOf(pairs)) {
      HeldBackIsDownstream(pairs, order, left, v);
    }
    if Cyclic(ArcsOf(pairs)) {
      var p, v := CycleHasDownstream(ArcsOf(pairs));
      assert (p, v) in pairs;
      assert v in left;
    }
  }

  /** A walk into a settled vertex consists of settled vertices, none of them twice. */
  lemma {:induction false} SettledWalk(arcs: set<Arc>, order: seq<Vertex>, w: seq<Vertex>)
    requires InOrder(arcs, order) && IsWalk(arcs, w) && w[|w|-1] in order
    ensures forall x :: x in w ==> x in order
    ensures NoDuplicates(w)
  {
    var k :| 0 <= k < |order| && order[k] == w[|w|-1];
    SettledWalkUpTo(arcs, order, w, k);
  }

  lemma {:induction false} SettledWalkUpTo(arcs: set<Arc>, order: seq<Vertex>, w: seq<Vertex>, k: nat)
    requires InOrder(arcs, order) && IsWalk(arcs, w) && k < |order| && order[k] == w[|w|-1]
    ensures forall x :: x in w ==> x in order[..k+1]
    ensures NoDuplicates(w)
    decreases k
  {
    if |w| > 1 {
      var n := |w| - 1;
      assert (w[n-1], order[k]) in arcs;
      var m :| 0 <= m < k && order[m] == w[n-1];
      Subwalk(arcs, w, 0, n);
      SettledWalkUpTo(arcs, order, w[..n], m);
      assert w == w[..n] + [w[n]];
      forall i | 0 <= i < n ensures w[i] != w[n] {
        assert w[..n][i] in w[..n];
        assert w[i] in order[..m+1];
      }
    }
  }

  /** Halfway through knocking down the counts of parent's children: those in done have been dealt with. */
  ghost predicate Knocking(pairs: seq<Arc>, vs: set<Vertex>, gone: set<Vertex>, parent: Vertex, done: seq<Vertex>,
                           numParents: map<Vertex, int>) {
    && numParents.Keys == vs - gone - {parent}
    && forall v :: v in numParents ==> numParents[v] + multiset(done)[v] == LiveParents(pairs, gone, v)
  }

  lemma StartKnocking(pairs: seq<Arc>, vs: set<Vertex>, gone: set<Vertex>, parent: Vertex,
                      children: map<Vertex, seq<Vertex>>, counts: map<Vertex, int>)
    requires parent !in gone && Describe(pairs, vs, gone, counts, children)
    ensures Knocking(pairs, vs, gone, parent, [], counts - {parent})
    ensures Listed(children, parent) == ChildrenOf(pairs, parent)
  {
    hide LiveParents, ChildrenOf, VerticesOf;
    assert Listed(children, parent) == ChildrenOf(pairs, parent);
  }

  lemma KnockedDown(pairs: seq<Arc>, vs: set<Vertex>, gone: set<Vertex>, parent: Vertex,
                    children: map<Vertex, seq<Vertex>>, before: map<Vertex, int>, after: map<Vertex, int>)
    requires parent !in gone && Describe(pairs, vs, gone, before, children)
    requires Knocking(pairs, vs, gone, parent, Listed(children, parent), after)
    ensures Describe(pairs, vs, gone + {parent}, after, children - {parent})
    ensures parent !in children ==> children - {parent} == children
  {
    hide LiveParents, ChildrenOf, VerticesOf;
    assert Listed(children, parent) == ChildrenOf(pairs, parent);
    forall v | v in after ensures after[v] == LiveParents(pairs, gone + {parent}, v) {
      TakingOutLowersCount(pairs, gone, parent, v);
    }
    forall p | p !in gone + {parent} ensures Listed(children - {parent}, p) == ChildrenOf(pairs, p) {
      assert Listed(children, p) == ChildrenOf(pairs, p);
    }
  }

  /** The child about to be knocked down still has a count, and if that drops to zero all its parents are out. */
  lemma NextChild(pairs: seq<Arc>, vs: set<Vertex>, gone: set<Vertex>, parent: Vertex, j: nat,
                  numParents: map<Vertex, int>)
    requires parent !in gone && j < |ChildrenOf(pairs, parent)| && VerticesOf(pairs) <= vs
    requires Knocking(pairs, vs, gone, parent, ChildrenOf(pairs, parent)[..j], numParents)
    ensures var child := ChildrenOf(pairs, parent)[j];
      && (parent, child) in ArcsOf(pairs)
      && child in VerticesOf(pairs)
      && (child in numParents ==>
           && numParents[child] >= 1
           && Knocking(pairs, vs, gone, parent, ChildrenOf(pairs, parent)[..j+1],
                       numParents[child := numParents[child] - 1])
           && (numParents[child] == 1 ==> forall p :: (p, child) in ArcsOf(pairs) ==> p in gone + {parent}))
  {
    hide LiveParents, ChildrenOf;
    var kids := ChildrenOf(pairs, parent);
    var child := kids[j];
    ChildrenAreArcs(pairs, parent, child);
    assert (parent, child) in pairs;
    assert kids == kids[..j+1] + kids[j+1..];
    assert kids[..j+1] == kids[..j] + [child];
    TakingOutLowersCount(pairs, gone, parent, child);
    NoLiveParents(pairs, gone + {parent}, child);
  }

  lemma NotAmongEarlier(arcs: set<Arc>, order: seq<Vertex>, i: nat)
    requires InOrder(arcs, order) && i < |order|
    ensures order[i] !in order[..i]
  {
  }

  lemma ChildIsUnsettled(arcs: set<Arc>, order: seq<Vertex>, i: nat, child: Vertex)
    requires InOrder(arcs, order) && i < |order| && (order[i], child) in arcs
    ensures child !in order[..i+1]
  {
  }

  lemma ParentsAreSettled(arcs: set<Arc>, order: seq<Vertex>, i: nat, child: Vertex)
    requires InOrder(arcs, order) && i < |order| && child !in order
    requires forall p :: (p, child) in arcs ==> p in Members(order[..i]) + {order[i]}
    ensures InOrder(arcs, order + [child])
  {
    var longer := order + [child];
    forall k, p | 0 <= k < |longer| && (p, longer[k]) in arcs ensures p in longer[..k] {
      if k < |order| {
        assert longer[..k] == order[..k];
      } else {
        assert p in order[..i+1] && longer[..k] == order;
      }
    }
  }

  lemma NothingSettledFirst(pairs: seq<Arc>, order: seq<Vertex>)
    requires NoDuplicates(order) && forall v :: v in order ==> LiveParents(pairs, {}, v) == 0
    ensures InOrder(ArcsOf(pairs), order) && Members(order[..0]) == {}
  {
    forall k, p | 0 <= k < |order| && (p, order[k]) in ArcsOf(pairs) ensures false {
      NoLiveParents(pairs, {}, order[k]);
    }
  }

  /** The vertices counted as having no parent, in the arbitrary order of the table. */
  method Parentless(numParents: map<Vertex, int>) returns (found: seq<Vertex>)
    ensures NoDuplicates(found)
    ensures forall v :: v in found <==> v in numParents && numParents[v] == 0
  {
    found := [];
    var keys := numParents.Keys;
    while keys != {}
      invariant keys <= numParents.Keys && NoDuplicates(found)
      invariant forall v :: v in found <==> v in numParents && v !in keys && numParents[v] == 0
    {
      var x :| x in keys;
      keys := keys - {x};
      if numParents[x] == 0 {
        found := found + [x];
      }
    }
  }

  /** The inner loop of Kahn's algorithm: knock down the counts of the children of answer[i], and append to the
      answer those that have no parent left. */
  method KnockDown(ghost pairs: seq<Arc>, answer: seq<Vertex>, i: nat, kids: seq<Vertex>, numParents: map<Vertex, int>)
      returns (grown: seq<Vertex>, lowered: map<Vertex, int>)
    requires i < |answer| && kids == ChildrenOf(pairs, answer[i])
    requires InOrder(ArcsOf(pairs), answer) && Members(answer) <= VerticesOf(pairs)
    requires Knocking(pairs, VerticesOf(pairs), Members(answer[..i]), answer[i], [], numParents)
    requires forall v :: v in numParents ==> (numParents[v] == 0 <==> v in answer)
    ensures answer <= grown && InOrder(ArcsOf(pairs), grown) && Members(grown) <= VerticesOf(pairs)
    ensures Knocking(pairs, VerticesOf(pairs), Members(answer[..i]), answer[i], kids, lowered)
    ensures forall v :: v in lowered ==> (lowered[v] == 0 <==> v in grown)
  {
    hide LiveParents, ChildrenOf, VerticesOf, InOrder;
    ghost var vs, gone, parent := VerticesOf(pairs), Members(answer[..i]), answer[i];
    NotAmongEarlier(ArcsOf(pairs), answer, i);
    grown, lowered := answer, numParents;
    for j := 0 to |kids|
      invariant answer <= grown
      invariant InOrder(ArcsOf(pairs), grown) && Members(grown) <= VerticesOf(pairs)
      invariant Knocking(pairs, vs, gone, parent, kids[..j], lowered)
      invariant forall v :: v in lowered ==> (lowered[v] == 0 <==> v in grown)
    {
      var child := kids[j];
      NextChild(pairs, vs, gone, parent, j, lowered);
      ChildIsUnsettled(ArcsOf(pairs), grown, i, child);
      lowered := lowered[child := lowered[child] - 1];
      if lowered[child] == 0 {
        ParentsAreSettled(ArcsOf(pairs), grown, i, child);
        grown := grown + [child];
      }
    }
    assert kids[..|kids|] == kids;
  }

  /** Kahn's algorithm. The answer grows while it is walked over. */
  method TopSort(pairs: seq<Arc>) returns (r: SortOutcome)
    ensures r.CycleError? <==> Cyclic(ArcsOf(pairs))
    ensures r.Sorted? ==> InOrder(ArcsOf(pairs), r.answer) && Members(r.answer) == VerticesOf(pairs)
    ensures r.CycleError? ==>
      && InOrder(ArcsOf(pairs), r.before)
      && (forall v :: v in r.before <==> v in VerticesOf(pairs) && !Downstream(ArcsOf(pairs), v))
      && (forall v :: v in r.numParents <==> v in VerticesOf(pairs) && Downstream(ArcsOf(pairs), v))
      && Describe(pairs, VerticesOf(pairs), Members(r.before), r.numParents, r.children)
  {
    hide LiveParents, ChildrenOf, VerticesOf;
    var numParents, children := BuildTables(pairs);
    var answer := Parentless(numParents);
    NothingSettledFirst(pairs, answer);
    var i := 0;
    while i < |answer|
      invariant 0 <= i <= |answer|
      invariant InOrder(ArcsOf(pairs), answer) && Members(answer) <= VerticesOf(pairs)
      invariant Describe(pairs, VerticesOf(pairs), Members(answer[..i]), numParents, children)
      invariant forall v :: v in numParents ==> (numParents[v] == 0 <==> v in answer)
      decreases numParents.Keys
    {
      var parent := answer[i];
      ghost var settled, listed, counts := answer[..i+1], children, numParents;
      ghost var gone := Members(answer[..i]);
      assert Members(settled) == gone + {parent};
      StartKnocking(pairs, VerticesOf(pairs), gone, parent, listed, counts);
      numParents := numParents - {parent};
      if parent in children {
        answer, numParents := KnockDown(pairs, answer, i, children[parent], numParents);
        children := children - {parent};
      }
      assert answer[..i+1] == settled;
      KnockedDown(pairs, VerticesOf(pairs), gone, parent, listed, counts, numParents);
      i := i + 1;
    }
    assert answer[..i] == answer;
    HeldBack(pairs, answer);
    if numParents != map[] {
      assert exists v :: v in numParents;
      return CycleError(answer, numParents, children);
    }
    return Sorted(answer);
  }

  /** What has been taken out after k levels: the vertices no walk of k arcs leads into. */
  ghost predicate Shallow(pairs: seq<Arc>, vs: set<Vertex>, gone: set<Vertex>, k: nat) {
    && VerticesOf(pairs) <= vs
    && forall v :: v in vs ==> (v in gone <==> !HasWalkInto(ArcsOf(pairs), v, k))
  }

  ghost predicate IsLevel(pairs: seq<Arc>, vs: set<Vertex>, level: seq<Vertex>, k: nat) {
    && NoDuplicates(level) && level != []
    && forall v :: v in level <==> v in vs && AtDepth(ArcsOf(pairs), v, k)
  }

  /** A vertex that is left has a walk of one more arc exactly when it has a live parent. */
  lemma LiveParentMeansLongerWalk(pairs: seq<Arc>, vs: set<Vertex>, gone: set<Vertex>, k: nat, v: Vertex)
    requires Shallow(pairs, vs, gone, k)
    ensures LiveParents(pairs, gone, v) > 0 <==> HasWalkInto(ArcsOf(pairs), v, k + 1)
  {
    var arcs := ArcsOf(pairs);
    NoLiveParents(pairs, gone, v);
    forall p | (p, v) in arcs && p !in gone ensures HasWalkInto(arcs, v, k + 1) {
      assert (p, v) in pairs;
      WalkIntoChild(arcs, p, v, k);
    }
    if HasWalkInto(arcs, v, k + 1) {
      var w :| IsWalkInto(arcs, w, v) && |w| == k + 2;
      Subwalk(arcs, w, 0, k + 1);
      assert IsWalkInto(arcs, w[..k+1], w[k]);
      assert (w[k], v) in pairs;
    }
  }

  lemma OneLevelDeeper(pairs: seq<Arc>, vs: set<Vertex>, gone: set<Vertex>, k: nat, level: seq<Vertex>)
    requires Shallow(pairs, vs, gone, k) && NoDuplicates(level) && level != []
    requires forall v :: v in level <==> v in vs - gone && LiveParents(pairs, gone, v) == 0
    ensures Shallow(pairs, vs, gone + Members(level), k + 1) && IsLevel(pairs, vs, level, k)
  {
    forall v | v in vs
      ensures v in gone + Members(level) <==> !HasWalkInto(ArcsOf(pairs), v, k + 1)
      ensures v in level <==> AtDepth(ArcsOf(pairs), v, k)
    {
      LiveParentMeansLongerWalk(pairs, vs, gone, k, v);
      if HasWalkInto(ArcsOf(pairs), v, k + 1) {
        ShorterWalkInto(ArcsOf(pairs), v, k);
      }
    }
  }

  /** A level's children are still in the table while the level is being taken out. */
  lemma ChildIsDeeper(pairs: seq<Arc>, vs: set<Vertex>, gone: set<Vertex>, k: nat, level: seq<Vertex>,
                      p: Vertex, child: Vertex)
    requires Shallow(pairs, vs, gone, k) && IsLevel(pairs, vs, level, k)
    requires p in level && child in ChildrenOf(pairs, p)
    ensures child in vs && child !in gone && child !in level
  {
    ChildrenAreArcs(pairs, p, child);
    assert (p, child) in pairs;
    WalkIntoChild(ArcsOf(pairs), p, child, k);
    ShorterWalkInto(ArcsOf(pairs), child, k);
  }

  lemma NothingDeeper(pairs: seq<Arc>, vs: set<Vertex>, gone: set<Vertex>, k: nat)
    requires Shallow(pairs, vs, gone, k)
    requires forall v :: v in vs - gone ==> LiveParents(pairs, gone, v) > 0
    ensures Cyclic(ArcsOf(pairs)) <==> exists v :: v in vs && v !in gone
    ensures forall v :: v in vs ==> (v in gone <==> !Downstream(ArcsOf(pairs), v))
  {
    var arcs, left := ArcsOf(pairs), vs - gone;
    forall c | c in left ensures HasParentIn(arcs, left, c) {
      NoLiveParents(pairs, gone, c);
      var p :| (p, c) in arcs && p !in gone;
      assert (p, c) in pairs;
    }
    forall v | v in vs
      ensures v in left <==> Downstream(arcs, v)
      ensures v in left ==> Cyclic(arcs)
    {
      if v in left {
        ParentsWithinMakeCycle(arcs, left, v);
      } else if Downstream(arcs, v) {
        DownstreamWalks(arcs, v, k);
      }
    }
    if Cyclic(arcs) {
      var p, v := CycleHasDownstream(arcs);
      assert (p, v) in pairs;
    }
  }

  /** The innermost loop: knock down the counts of the children of level[i]. */
  method KnockDownLevelChildren(ghost pairs: seq<Arc>, ghost vs: set<Vertex>, ghost gone: set<Vertex>, ghost k: nat,
                                level: seq<Vertex>, i: nat, kids: seq<Vertex>, numParents: map<Vertex, int>)
      returns (lowered: map<Vertex, int>)
    requires i < |level| && kids == ChildrenOf(pairs, level[i])
    requires Shallow(pairs, vs, gone, k) && IsLevel(pairs, vs, level, k)
    requires level[i] !in gone + Members(level[..i])
    requires Knocking(pairs, vs, gone + Members(level[..i]), level[i], [], numParents)
    ensures Knocking(pairs, vs, gone + Members(level[..i]), level[i], kids, lowered)
  {
    hide LiveParents, ChildrenOf, VerticesOf;
    ghost var out, parent := gone + Members(level[..i]), level[i];
    lowered := numParents;
    for j := 0 to |kids|
      invariant Knocking(pairs, vs, out, parent, kids[..j], lowered)
    {
      var child := kids[j];
      NextChild(pairs, vs, out, parent, j, lowered);
      ChildIsDeeper(pairs, vs, gone, k, level, parent, child);
      lowered := lowered[child := lowered[child] - 1];
    }
    assert kids[..|kids|] == kids;
  }

  lemma TakenFromLevel(pairs: seq<Arc>, vs: set<Vertex>, gone: set<Vertex>, k: nat, level: seq<Vertex>, i: nat)
    requires Shallow(pairs, vs, gone, k) && IsLevel(pairs, vs, level, k) && i < |level|
    ensures level[i] !in gone + Members(level[..i])
  {
    assert level[i] in level;
  }

  /** Takes one level out of the tables. */
  method TakeOutLevel(ghost pairs: seq<Arc>, ghost vs: set<Vertex>, ghost gone: set<Vertex>, ghost k: nat,
                      level: seq<Vertex>, numParents: map<Vertex, int>, children: map<Vertex, seq<Vertex>>)
      returns (lowered: map<Vertex, int>, remaining: map<Vertex, seq<Vertex>>)
    requires Describe(pairs, vs, gone, numParents, children)
    requires Shallow(pairs, vs, gone, k) && IsLevel(pairs, vs, level, k)
    ensures Describe(pairs, vs, gone + Members(level), lowered, remaining)
  {
    hide LiveParents, ChildrenOf, VerticesOf, Describe, Knocking, Shallow, IsLevel;
    lowered, remaining := numParents, children;
    assert gone + Members(level[..0]) == gone;
    for i := 0 to |level|
      invariant Describe(pairs, vs, gone + Members(level[..i]), lowered, remaining)
    {
      var parent := level[i];
      ghost var out, listed, counts := gone + Members(level[..i]), remaining, lowered;
      assert gone + Members(level[..i+1]) == out + {parent};
      TakenFromLevel(pairs, vs, gone, k, level, i);
      StartKnocking(pairs, vs, out, parent, listed, counts);
      lowered := lowered - {parent};
      if parent in remaining {
        lowered := KnockDownLevelChildren(pairs, vs, gone, k, level, i, remaining[parent], lowered);
        remaining := remaining - {parent};
      }
      KnockedDown(pairs, vs, out, parent, listed, counts, lowered);
    }
    assert level[..|level|] == level;
  }

  /** Everything that has been yielded. */
  function OnLevels(levels: seq<seq<Vertex>>): set<Vertex> {
    set k, v | 0 <= k < |levels| && v in levels[k] :: v
  }

  lemma MoreLevels(levels: seq<seq<Vertex>>, level: seq<Vertex>)
    ensures OnLevels(levels + [level]) == OnLevels(levels) + Members(level)
  {
    var more := levels + [level];
    assert more[|levels|] == level;
    assert forall k :: 0 <= k < |levels| ==> more[k] == levels[k];
  }

  lemma NothingIsShallowFirst(pairs: seq<Arc>, vs: set<Vertex>)
    requires VerticesOf(pairs) <= vs
    ensures Shallow(pairs, vs, {}, 0)
  {
    forall v ensures HasWalkInto(ArcsOf(pairs), v, 0) {
      assert IsWalkInto(ArcsOf(pairs), [v], v);
    }
  }

  lemma TableOfRest(pairs: seq<Arc>, vs: set<Vertex>, gone: set<Vertex>,
                    numParents: map<Vertex, int>, children: map<Vertex, seq<Vertex>>)
    requires Describe(pairs, vs, gone, numParents, children)
    ensures VerticesOf(pairs) <= vs && numParents.Keys == vs - gone
    ensures forall v :: v in numParents ==> numParents[v] == LiveParents(pairs, gone, v)
  {
    hide LiveParents, ChildrenOf, VerticesOf;
  }

  /** When no vertex without a live parent is left: what is left is downstream of a cycle, if there is one. */
  lemma NothingLeftToTakeOut(pairs: seq<Arc>, vs: set<Vertex>, gone: set<Vertex>, k: nat,
                             numParents: map<Vertex, int>, children: map<Vertex, seq<Vertex>>)
    requires Describe(pairs, vs, gone, numParents, children) && Shallow(pairs, vs, gone, k)
    requires forall v :: v in numParents ==> numParents[v] != 0
    ensures numParents != map[] <==> Cyclic(ArcsOf(pairs))
    ensures forall v :: v in vs ==> (v in gone <==> !Downstream(ArcsOf(pairs), v))
    ensures forall v :: v in numParents <==> v in vs && Downstream(ArcsOf(pairs), v)
  {
    hide LiveParents, ChildrenOf, VerticesOf, Cyclic, Downstream;
    TableOfRest(pairs, vs, gone, numParents, children);
    assert forall v :: v in numParents <==> v in vs && v !in gone;
    assert numParents != map[] <==> exists v :: v in numParents;
    NothingDeeper(pairs, vs, gone, k);
    if Cyclic(ArcsOf(pairs)) {
      var v :| v in vs && v !in gone;
      assert v in numParents;
    }
  }

  /** The level generator, run to its end. Its caller supplies tables that describe some graph, in which there may be
      items that no pair names. */
  method TopSortLevelsCore(ghost pairs: seq<Arc>, ghost vs: set<Vertex>,
                           parentCounts: map<Vertex, int>, childLists: map<Vertex, seq<Vertex>>)
      returns (r: LevelsOutcome)
    requires Describe(pairs, vs, {}, parentCounts, childLists)
    ensures r.LevelsThenCycleError? <==> Cyclic(ArcsOf(pairs))
    ensures forall k :: 0 <= k < |r.levels| ==> IsLevel(pairs, vs, r.levels[k], k)
    ensures forall v :: v in vs ==> (v in OnLevels(r.levels) <==> !Downstream(ArcsOf(pairs), v))
    ensures r.LevelsThenCycleError? ==>
      && (forall v :: v in r.numParents <==> v in vs && Downstream(ArcsOf(pairs), v))
      && Describe(pairs, vs, OnLevels(r.levels), r.numParents, r.children)
  {
    hide LiveParents, ChildrenOf, VerticesOf, Describe, Shallow, IsLevel, Cyclic, Downstream;
    var numParents, children := parentCounts, childLists;
    var levels := [];
    assert OnLevels(levels) == {};
    TableOfRest(pairs, vs, {}, numParents, children);
    NothingIsShallowFirst(pairs, vs);
    while true
      invariant Describe(pairs, vs, OnLevels(levels), numParents, children)
      invariant Shallow(pairs, vs, OnLevels(levels), |levels|)
      invariant forall k :: 0 <= k < |levels| ==> IsLevel(pairs, vs, levels[k], k)
      decreases numParents.Keys
    {
      hide OnLevels;
      var level := Parentless(numParents);
      if level == [] {
        break;
      }
      ghost var gone, before := OnLevels(levels), numParents.Keys;
      TableOfRest(pairs, vs, gone, numParents, children);
      OneLevelDeeper(pairs, vs, gone, |levels|, level);
      numParents, children := TakeOutLevel(pairs, vs, gone, |levels|, level, numParents, children);
      MoreLevels(levels, level);
      levels := levels + [level];
      TableOfRest(pairs, vs, OnLevels(levels), numParents, children);
      assert level[0] in level && level[0] in before;
    }
    NothingLeftToTakeOut(pairs, vs, OnLevels(levels), |levels|, numParents, children);
    if numParents != map[] {
      return LevelsThenCycleError(levels, numParents, children);
    }
    return Levels(levels);
  }

  method TopSortLevels(pairs: seq<Arc>) returns (r: LevelsOutcome)
    ensures r.LevelsThenCycleError? <==> Cyclic(ArcsOf(pairs))
    ensures forall k :: 0 <= k < |r.levels| ==> IsLevel(pairs, VerticesOf(pairs), r.levels[k], k)
    ensures forall v :: v in VerticesOf(pairs) ==> (v in OnLevels(r.levels) <==> !Downstream(ArcsOf(pairs), v))
    ensures r.LevelsThenCycleError? ==>
      && (forall v :: v in r.numParents <==> v in VerticesOf(pairs) && Downstream(ArcsOf(pairs), v))
      && Describe(pairs, VerticesOf(pairs), OnLevels(r.levels), r.numParents, r.children)
  {
    var numParents, children := BuildTables(pairs);
    r := TopSortLevelsCore(pairs, VerticesOf(pairs), numParents, children);
  }

  predicate HasChild(pairs: seq<Arc>, v: Vertex) {
    exists e :: e in pairs && e.0 == v
  }

  /** When everything that is held back has a child, as the comment at the end of both functions says: exactly when
      every vertex downstream of a cycle has a child in the list of pairs. */
  lemma WhenHeldBackHaveChildren(pairs: seq<Arc>, vs: set<Vertex>, gone: set<Vertex>,
                                 numParents: map<Vertex, int>, children: map<Vertex, seq<Vertex>>)
    requires forall v :: v in numParents <==> v in vs && Downstream(ArcsOf(pairs), v)
    requires Describe(pairs, vs, gone, numParents, children)
    ensures (forall v :: v in numParents ==> Listed(children, v) != [])
       <==> (forall v :: v in vs && Downstream(ArcsOf(pairs), v) ==> HasChild(pairs, v))
  {
    hide Downstream, LiveParents, ChildrenOf, VerticesOf;
    forall v | v in numParents ensures Listed(children, v) != [] <==> HasChild(pairs, v) {
      assert Listed(children, v) == ChildrenOf(pairs, v);
      ListedExactlyWithChild(pairs, v);
    }
  }

  lemma ListedExactlyWithChild(pairs: seq<Arc>, v: Vertex)
    ensures ChildrenOf(pairs, v) != [] <==> HasChild(pairs, v)
  {
    hide ChildrenOf;
    if ChildrenOf(pairs, v) != [] {
      ChildrenAreArcs(pairs, v, ChildrenOf(pairs, v)[0]);
    }
    if e :| e in pairs && e.0 == v {
      ChildrenAreArcs(pairs, v, e.1);
    }
  }

  /** A list of pairs with a held-back vertex that has no child: it is merely downstream of a cycle. */
  lemma HeldBackWithoutChildren(a: Vertex, b: Vertex)
    requires a != b
    ensures var pairs := [(a, a), (a, b)];
      b in VerticesOf(pairs) && Downstream(ArcsOf(pairs), b) && !HasChild(pairs, b) && ChildrenOf(pairs, b) == []
  {
    hide ChildrenOf;
    var pairs := [(a, a), (a, b)];
    assert (a, a) == pairs[0] && (a, b) == pairs[1];
    assert LeadsFromCycle(ArcsOf(pairs), [a, a, b], 1, b);
    ListedExactlyWithChild(pairs, b);
  }
}
