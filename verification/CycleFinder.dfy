/** Enumeration of simple cycles: bindings/python/topsort.py, find_cycles, and is_rotated of rad_util.py. */
module CycleFinder {
  import opened Basics
  import opened Graphs

  type Family = map<Vertex, seq<Vertex>>

  // ----- rotations -----

  function RotatedAt<T>(s: seq<T>, k: nat): seq<T>
    requires k <= |s|
  {
    s[k..] + s[..k]
  }

  predicate Rotation<T(==)>(a: seq<T>, b: seq<T>) {
    exists k :: 0 <= k < |a| && b == RotatedAt(a, k)
  }

  lemma DoubledSlice<T>(s: seq<T>, k: nat)
    requires k < |s|
    ensures (s + s)[k..k+|s|] == RotatedAt(s, k)
  {
  }

  /** The comparison raises IndexError on two empty sequences, and decides rotation on all others. */
  method IsRotated<T(==)>(seq1: seq<T>, seq2: seq<T>) returns (raised: bool, rotated: bool)
    ensures raised <==> seq1 == [] && seq2 == []
    ensures !raised ==> (rotated <==> Rotation(seq1, seq2))
  {
    if |seq1| != |seq2| {
      return false, false;
    }
    if seq2 == [] {
      return true, false;
    }
    var startIndexes: seq<nat> := [];
    var headItem := seq2[0];
    for i := 0 to |seq1|
      invariant forall k :: k in startIndexes <==> 0 <= k < i && seq1[k] == headItem
    {
      if seq1[i] == headItem {
        startIndexes := startIndexes + [i];
      }
    }
    var double := seq1 + seq1;
    for m := 0 to |startIndexes|
      invariant forall n :: 0 <= n < |startIndexes| ==> startIndexes[n] in startIndexes
      invariant forall n :: 0 <= n < m ==> seq2 != RotatedAt(seq1, startIndexes[n])
    {
      var k := startIndexes[m];
      assert k in startIndexes;
      DoubledSlice(seq1, k);
      if double[k..k+|seq1|] == seq2 {
        return false, true;
      }
    }
    forall k | 0 <= k < |seq1| ensures seq2 != RotatedAt(seq1, k) {
      assert RotatedAt(seq1, k)[0] == seq1[k];
    }
    return false, false;
  }

  lemma RotationSymmetric<T>(a: seq<T>, b: seq<T>)
    requires Rotation(a, b)
    ensures Rotation(b, a)
  {
    var k :| 0 <= k < |a| && b == RotatedAt(a, k);
    var back := if k == 0 then 0 else |a| - k;
    assert a == RotatedAt(b, back);
  }

  lemma RotatedTwice<T>(s: seq<T>, j: nat, k: nat)
    requires j < |s| && k < |s|
    ensures RotatedAt(RotatedAt(s, j), k) == RotatedAt(s, if j + k < |s| then j + k else j + k - |s|)
  {
  }

  lemma RotationTransitive<T>(a: seq<T>, b: seq<T>, c: seq<T>)
    requires Rotation(a, b) && Rotation(b, c)
    ensures Rotation(a, c)
  {
    var j :| 0 <= j < |a| && b == RotatedAt(a, j);
    var k :| 0 <= k < |b| && c == RotatedAt(b, k);
    RotatedTwice(a, j, k);
  }

  // ----- simple cycles and simple paths -----

  function ArcsIn(g: Family): set<Arc> {
    set p, c | p in g && c in g[p] :: (p, c)
  }

  function NodesIn(g: Family): set<Vertex> {
    set p, c | p in g && c in g[p] :: c
  }

  function Last<T>(s: seq<T>): T
    requires s != []
  {
    s[|s|-1]
  }

  /** A cycle as it is reported: no vertex twice, and the last item is a parent of the first one. */
  predicate SimpleCycle(arcs: set<Arc>, c: seq<Vertex>) {
    IsWalk(arcs, c) && NoDuplicates(c) && (Last(c), c[0]) in arcs
  }

  predicate SimplePath(arcs: set<Arc>, root: Vertex, q: seq<Vertex>) {
    IsWalk(arcs, q) && NoDuplicates(q) && q[0] == root
  }

  /** The cycle is in the list, in some rotation. */
  predicate Recorded(cycles: seq<seq<Vertex>>, c: seq<Vertex>) {
    exists k :: 0 <= k < |cycles| && Rotation(cycles[k], c)
  }

  /** What has been reported is sound and free of rotated copies. */
  ghost predicate GoodCycles(arcs: set<Arc>, cycles: seq<seq<Vertex>>) {
    && (forall k :: 0 <= k < |cycles| ==> SimpleCycle(arcs, cycles[k]))
    && (forall i, j :: 0 <= i < j < |cycles| ==> !Rotation(cycles[i], cycles[j]))
  }

  /** Every arc from the end of q back to its vertex number i has had its cycle recorded. */
  ghost predicate Expanded(arcs: set<Arc>, cycles: seq<seq<Vertex>>, q: seq<Vertex>)
    requires q != []
  {
    forall i :: 0 <= i < |q| && (Last(q), q[i]) in arcs ==> Recorded(cycles, q[i..])
  }

  ghost predicate Explored(arcs: set<Arc>, cycles: seq<seq<Vertex>>, root: Vertex) {
    forall q :: SimplePath(arcs, root, q) ==> Expanded(arcs, cycles, q)
  }

  ghost predicate ReachedBySimplePath(arcs: set<Arc>, roots: set<Vertex>, v: Vertex) {
    exists q :: q != [] && q[0] in roots && SimplePath(arcs, q[0], q) && Last(q) == v
  }

  /** Recording is for ever: the list only grows. */
  lemma RecordedStays(cycles: seq<seq<Vertex>>, more: seq<seq<Vertex>>, c: seq<Vertex>)
    requires cycles <= more && Recorded(cycles, c)
    ensures Recorded(more, c)
  {
  }

  /** A tail of a simple path whose end has an arc back to the tail's start is a simple cycle. */
  lemma TailIsCycle(arcs: set<Arc>, root: Vertex, q: seq<Vertex>, i: nat)
    requires SimplePath(arcs, root, q) && i < |q| && (Last(q), q[i]) in arcs
    ensures SimpleCycle(arcs, q[i..])
  {
  }

  lemma LongerSimplePath(arcs: set<Arc>, root: Vertex, q: seq<Vertex>, child: Vertex)
    requires SimplePath(arcs, root, q) && (Last(q), child) in arcs && child !in q
    ensures SimplePath(arcs, root, q + [child])
  {
  }

  lemma RotatedCycle(arcs: set<Arc>, c: seq<Vertex>, k: nat)
    requires SimpleCycle(arcs, c) && k < |c|
    ensures SimpleCycle(arcs, RotatedAt(c, k)) && Rotation(RotatedAt(c, k), c)
  {
    var r := RotatedAt(c, k);
    assert Rotation(c, r);
    RotationSymmetric(c, r);
    RotatedWalk(arcs, c, k);
    RotatedKeepsDistinct(c, k);
  }

  lemma RotatedWalk(arcs: set<Arc>, c: seq<Vertex>, k: nat)
    requires SimpleCycle(arcs, c) && k < |c|
    ensures IsWalk(arcs, RotatedAt(c, k)) && (Last(RotatedAt(c, k)), RotatedAt(c, k)[0]) in arcs
  {
    hide NoDuplicates;
    if k > 0 {
      Subwalk(arcs, c, k, |c|);
      Subwalk(arcs, c, 0, k);
      JoinWalks(arcs, c[k..], c[..k]);
      assert (c[k-1], c[k]) in arcs;
    } else {
      assert RotatedAt(c, k) == c;
    }
  }

  lemma RotatedKeepsDistinct<T>(c: seq<T>, k: nat)
    requires NoDuplicates(c) && k < |c|
    ensures NoDuplicates(RotatedAt(c, k))
  {
  }

  /** A simple path that stops at the first vertex it shares with a cycle can be continued once round. */
  lemma ContinueRound(arcs: set<Arc>, root: Vertex, q: seq<Vertex>, i: nat, r: seq<Vertex>)
    requires SimplePath(arcs, root, q) && SimpleCycle(arcs, r)
    requires i < |q| && q[i] == r[0] && forall m :: 0 <= m < i ==> q[m] !in r
    ensures SimplePath(arcs, root, q[..i] + r)
  {
  }

  /** A path that meets a cycle can be followed to its first vertex on the cycle and then once round. */
  lemma PathMeetsCycle(arcs: set<Arc>, cycles: seq<seq<Vertex>>, root: Vertex, q: seq<Vertex>, c: seq<Vertex>)
    requires SimpleCycle(arcs, c) && SimplePath(arcs, root, q) && Last(q) in c
    requires Explored(arcs, cycles, root)
    ensures Recorded(cycles, c)
  {
    var i := 0;
    while q[i] !in c
      invariant 0 <= i < |q| && forall m :: 0 <= m < i ==> q[m] !in c
      decreases |q| - i
    {
      i := i + 1;
    }
    var k :| 0 <= k < |c| && c[k] == q[i];
    var r := RotatedAt(c, k);
    RotatedCycle(arcs, c, k);
    forall x | x in r ensures x in c {
    }
    ContinueRound(arcs, root, q, i, r);
    ExploredGivesCycle(arcs, cycles, root, q[..i], r);
    var n :| 0 <= n < |cycles| && Rotation(cycles[n], r);
    RotationTransitive(cycles[n], r, c);
  }

  lemma ExploredGivesCycle(arcs: set<Arc>, cycles: seq<seq<Vertex>>, root: Vertex, q: seq<Vertex>, r: seq<Vertex>)
    requires SimpleCycle(arcs, r) && SimplePath(arcs, root, q + r) && Explored(arcs, cycles, root)
    ensures Recorded(cycles, r)
  {
    var p := q + r;
    assert Expanded(arcs, cycles, p);
    assert p[|q|] == r[0] && Last(p) == Last(r) && p[|q|..] == r;
  }

  // ----- the search -----

  /** The size of the tree of simple paths that extend a path: what is still to be popped on its account. */
  ghost function Weight(g: Family, path: seq<Vertex>): nat
    requires path != []
    decreases NodesIn(g) - Members(path), 1, 0
  {
    var end := Last(path);
    1 + if end in g then ChildWeights(g, path, g[end]) else 0
  }

  ghost function ChildWeights(g: Family, path: seq<Vertex>, children: seq<Vertex>): nat
    requires path != []
    decreases NodesIn(g) - Members(path), 0, |children|
  {
    if children == [] then 0 else
    var c := children[0];
    ChildWeights(g, path, children[1..]) +
    if c in path || c !in NodesIn(g) then 0 else
    assert NodesIn(g) - Members(path + [c]) == NodesIn(g) - Members(path) - {c};
    Weight(g, path + [c])
  }

  ghost function StackWeight(g: Family, paths: seq<seq<Vertex>>): nat {
    if paths == [] then 0 else
    StackWeight(g, paths[..|paths|-1]) + if Last(paths) == [] then 0 else Weight(g, Last(paths))
  }

  lemma PushWeight(g: Family, paths: seq<seq<Vertex>>, path: seq<Vertex>)
    requires path != []
    ensures StackWeight(g, paths + [path]) == StackWeight(g, paths) + Weight(g, path)
  {
  }

  /** A simple path is accounted for: it is finished with, or some path on the stack leads to it. */
  ghost predicate Accounted(arcs: set<Arc>, cycles: seq<seq<Vertex>>, paths: seq<seq<Vertex>>, q: seq<Vertex>)
    requires q != []
  {
    Expanded(arcs, cycles, q) || exists k :: 0 <= k < |paths| && paths[k] <= q
  }

  ghost predicate AllAccounted(arcs: set<Arc>, root: Vertex, cycles: seq<seq<Vertex>>, paths: seq<seq<Vertex>>) {
    forall q :: SimplePath(arcs, root, q) ==> Accounted(arcs, cycles, paths, q)
  }

  /** Accounted for while the last path taken from the stack is dealt with: children in todo are still to come. */
  ghost predicate Awaited(path: seq<Vertex>, todo: seq<Vertex>, q: seq<Vertex>) {
    path <= q && (|path| < |q| ==> q[|path|] in todo)
  }

  ghost predicate AccountedMeanwhile(arcs: set<Arc>, root: Vertex, cycles: seq<seq<Vertex>>, paths: seq<seq<Vertex>>,
                                     path: seq<Vertex>, todo: seq<Vertex>) {
    forall q :: SimplePath(arcs, root, q) ==> Accounted(arcs, cycles, paths, q) || Awaited(path, todo, q)
  }

  ghost predicate StackOfPaths(arcs: set<Arc>, root: Vertex, paths: seq<seq<Vertex>>) {
    forall k :: 0 <= k < |paths| ==> SimplePath(arcs, root, paths[k])
  }

  ghost predicate AllReached(arcs: set<Arc>, roots: set<Vertex>, vs: set<Vertex>) {
    forall v :: v in vs ==> ReachedBySimplePath(arcs, roots, v)
  }

  /** The duplicate check: a cycle goes on the list unless a rotation of it is there. */
  method RecordCycle(ghost arcs: set<Arc>, cycles: seq<seq<Vertex>>, cycle: seq<Vertex>)
      returns (more: seq<seq<Vertex>>)
    requires GoodCycles(arcs, cycles) && SimpleCycle(arcs, cycle)
    ensures cycles <= more && GoodCycles(arcs, more) && Recorded(more, cycle)
  {
    for k := 0 to |cycles|
      invariant forall m :: 0 <= m < k ==> !Rotation(cycles[m], cycle)
    {
      var raised, isDup := IsRotated(cycles[k], cycle);
      if isDup {
        return cycles;
      }
    }
    more := cycles + [cycle];
    assert cycle == RotatedAt(cycle, 0);
    assert Rotation(more[|cycles|], cycle);
  }

  lemma TakenOff(arcs: set<Arc>, root: Vertex, cycles: seq<seq<Vertex>>, paths: seq<seq<Vertex>>, children: seq<Vertex>)
    requires paths != [] && Last(paths) != [] && AllAccounted(arcs, root, cycles, paths)
    requires forall c :: (Last(Last(paths)), c) in arcs ==> c in children
    ensures AccountedMeanwhile(arcs, root, cycles, paths[..|paths|-1], Last(paths), children)
  {
  }

  /** A child on the path closes a cycle: nothing that goes through it remains to be awaited. */
  lemma ChildOnPath(arcs: set<Arc>, root: Vertex, cycles: seq<seq<Vertex>>, more: seq<seq<Vertex>>,
                    paths: seq<seq<Vertex>>, path: seq<Vertex>, todo: seq<Vertex>)
    requires todo != [] && todo[0] in path && cycles <= more
    requires AccountedMeanwhile(arcs, root, cycles, paths, path, todo)
    ensures AccountedMeanwhile(arcs, root, more, paths, path, todo[1..])
  {
  }

  lemma ChildPushed(arcs: set<Arc>, root: Vertex, cycles: seq<seq<Vertex>>,
                    paths: seq<seq<Vertex>>, path: seq<Vertex>, todo: seq<Vertex>)
    requires todo != []
    requires AccountedMeanwhile(arcs, root, cycles, paths, path, todo)
    ensures AccountedMeanwhile(arcs, root, cycles, paths + [path + [todo[0]]], path, todo[1..])
  {
    var pushed := paths + [path + [todo[0]]];
    forall q | SimplePath(arcs, root, q)
      ensures Accounted(arcs, cycles, pushed, q) || Awaited(path, todo[1..], q)
    {
      if k :| 0 <= k < |paths| && paths[k] <= q {
        assert pushed[k] <= q;
      }
      if Awaited(path, todo, q) && |path| < |q| && q[|path|] == todo[0] {
        assert pushed[|paths|] <= q;
      }
    }
  }

  lemma AllDealtWith(arcs: set<Arc>, root: Vertex, cycles: seq<seq<Vertex>>, paths: seq<seq<Vertex>>, path: seq<Vertex>)
    requires path != [] && Expanded(arcs, cycles, path)
    requires AccountedMeanwhile(arcs, root, cycles, paths, path, [])
    ensures AllAccounted(arcs, root, cycles, paths)
  {
  }

  function IndexOf<T(==)>(s: seq<T>, x: T): (i: nat)
    requires x in s
    ensures i < |s| && s[i] == x && x !in s[..i]
  {
    if s[0] == x then 0 else 1 + IndexOf(s[1..], x)
  }

  lemma ChildWeightsStep(g: Family, path: seq<Vertex>, children: seq<Vertex>, j: nat)
    requires path != [] && j < |children| && children[j] in NodesIn(g)
    ensures ChildWeights(g, path, children[j..])
         == ChildWeights(g, path, children[j+1..]) + if children[j] in path then 0 else Weight(g, path + [children[j]])
  {
  }

  lemma NodeWeight(g: Family, path: seq<Vertex>)
    requires path != []
    ensures Weight(g, path) == 1 + if Last(path) in g then ChildWeights(g, path, g[Last(path)]) else 0
    ensures ChildWeights(g, path, []) == 0
  {
  }

  lemma FinishedWith(g: Family, cycles: seq<seq<Vertex>>, path: seq<Vertex>)
    requires path != [] && Last(path) in g
    requires forall i :: 0 <= i < |path| && path[i] in g[Last(path)] ==> Recorded(cycles, path[i..])
    ensures Expanded(ArcsIn(g), cycles, path)
  {
  }

  /** The loop over the children of the path's end. */
  method ExpandPath(ghost g: Family, ghost root: Vertex, ghost roots: set<Vertex>,
                    path: seq<Vertex>, children: seq<Vertex>,
                    paths: seq<seq<Vertex>>, cycles: seq<seq<Vertex>>, visited: set<Vertex>)
      returns (stack: seq<seq<Vertex>>, more: seq<seq<Vertex>>, seen: set<Vertex>)
    requires root in roots && SimplePath(ArcsIn(g), root, path) && StackOfPaths(ArcsIn(g), root, paths)
    requires Last(path) in g && children == g[Last(path)]
    requires GoodCycles(ArcsIn(g), cycles) && AllReached(ArcsIn(g), roots, visited)
    requires AccountedMeanwhile(ArcsIn(g), root, cycles, paths, path, children)
    ensures cycles <= more && GoodCycles(ArcsIn(g), more)
    ensures StackOfPaths(ArcsIn(g), root, stack) && AllAccounted(ArcsIn(g), root, more, stack)
    ensures visited <= seen && AllReached(ArcsIn(g), roots, seen)
    ensures StackWeight(g, stack) + 1 == StackWeight(g, paths) + Weight(g, path)
  {
    hide StackWeight, ChildWeights, Expanded, AccountedMeanwhile, GoodCycles, RotatedAt;
    ghost var arcs := ArcsIn(g);
    stack, more, seen := paths, cycles, visited;
    assert children[0..] == children;
    for j := 0 to |children|
      invariant cycles <= more && GoodCycles(arcs, more)
      invariant StackOfPaths(arcs, root, stack)
      invariant AccountedMeanwhile(arcs, root, more, stack, path, children[j..])
      invariant forall i :: 0 <= i < |path| && path[i] in children[..j] ==> Recorded(more, path[i..])
      invariant visited <= seen && AllReached(arcs, roots, seen)
      invariant StackWeight(g, stack) + ChildWeights(g, path, children[j..])
             == StackWeight(g, paths) + ChildWeights(g, path, children)
    {
      var child := children[j];
      assert child in children && (Last(path), child) in arcs && child in NodesIn(g);
      assert children[j..][1..] == children[j+1..] && children[j..][0] == child;
      assert children[..j+1] == children[..j] + [child];
      ChildWeightsStep(g, path, children, j);
      if child in path {
        ghost var sofar := more;
        var start := IndexOf(path, child);
        TailIsCycle(arcs, root, path, start);
        more := RecordCycle(arcs, more, path[start..]);
        ChildOnPath(arcs, root, sofar, more, stack, path, children[j..]);
        forall i | 0 <= i < |path| && path[i] in children[..j+1] ensures Recorded(more, path[i..]) {
          if path[i] == child {
            assert i == start;
          } else {
            RecordedStays(sofar, more, path[i..]);
          }
        }
      } else {
        LongerSimplePath(arcs, root, path, child);
        PushWeight(g, stack, path + [child]);
        ChildPushed(arcs, root, more, stack, path, children[j..]);
        stack := stack + [path + [child]];
        assert ReachedBySimplePath(arcs, roots, child) by {
          assert Last(path + [child]) == child && (path + [child])[0] == root;
        }
        seen := seen + {child};
      }
    }
    assert children[..|children|] == children && children[|children|..] == [];
    FinishedWith(g, more, path);
    NodeWeight(g, path);
    AllDealtWith(arcs, root, more, stack, path);
  }

  /** The while loop: every simple path from the root is taken from the stack once. */
  method ExploreFrom(g: Family, root: Vertex, ghost roots: set<Vertex>, cycles: seq<seq<Vertex>>, visited: set<Vertex>)
      returns (more: seq<seq<Vertex>>, seen: set<Vertex>)
    requires root in roots && GoodCycles(ArcsIn(g), cycles) && AllReached(ArcsIn(g), roots, visited)
    ensures cycles <= more && GoodCycles(ArcsIn(g), more)
    ensures Explored(ArcsIn(g), more, root)
    ensures visited <= seen && AllReached(ArcsIn(g), roots, seen)
  {
    hide StackWeight, ChildWeights, Expanded, AccountedMeanwhile, GoodCycles, AllReached, Weight;
    ghost var arcs := ArcsIn(g);
    var paths := [[root]];
    more, seen := cycles, visited;
    StartOfStack(arcs, root, cycles);
    while paths != []
      invariant cycles <= more && GoodCycles(arcs, more)
      invariant StackOfPaths(arcs, root, paths) && AllAccounted(arcs, root, more, paths)
      invariant visited <= seen && AllReached(arcs, roots, seen)
      decreases StackWeight(g, paths)
    {
      var path := Last(paths);
      assert paths == paths[..|paths|-1] + [path];
      PushWeight(g, paths[..|paths|-1], path);
      NodeWeight(g, path);
      ghost var kids := if Last(path) in g then g[Last(path)] else [];
      TakenOff(arcs, root, more, paths, kids);
      paths := paths[..|paths|-1];
      if Last(path) !in g {
        ChildlessPath(g, more, path);
        AllDealtWith(arcs, root, more, paths, path);
        continue;
      }
      paths, more, seen := ExpandPath(g, root, roots, path, g[Last(path)], paths, more, seen);
    }
  }

  lemma StartOfStack(arcs: set<Arc>, root: Vertex, cycles: seq<seq<Vertex>>)
    ensures StackOfPaths(arcs, root, [[root]]) && AllAccounted(arcs, root, cycles, [[root]])
  {
    forall q | SimplePath(arcs, root, q) ensures Accounted(arcs, cycles, [[root]], q) {
      assert [[root]][0] <= q;
    }
  }

  lemma ChildlessPath(g: Family, cycles: seq<seq<Vertex>>, path: seq<Vertex>)
    requires path != [] && Last(path) !in g
    ensures Expanded(ArcsIn(g), cycles, path)
  {
  }

  lemma ExploredStays(arcs: set<Arc>, cycles: seq<seq<Vertex>>, more: seq<seq<Vertex>>, root: Vertex)
    requires cycles <= more && Explored(arcs, cycles, root)
    ensures Explored(arcs, more, root)
  {
  }

  /** Every key has been explored from, or can be reached from a root that has: that is enough for every cycle. */
  lemma EveryCycleRecorded(g: Family, cycles: seq<seq<Vertex>>, roots: set<Vertex>, c: seq<Vertex>)
    requires SimpleCycle(ArcsIn(g), c)
    requires forall r :: r in roots ==> Explored(ArcsIn(g), cycles, r)
    requires forall k :: k in g ==> ReachedBySimplePath(ArcsIn(g), roots, k)
    ensures Recorded(cycles, c)
  {
    assert c[0] in g by {
      if |c| > 1 {
        assert (c[0], c[1]) in ArcsIn(g);
      }
    }
    assert ReachedBySimplePath(ArcsIn(g), roots, c[0]);
    var q :| q != [] && q[0] in roots && SimplePath(ArcsIn(g), q[0], q) && Last(q) == c[0];
    PathMeetsCycle(ArcsIn(g), cycles, q[0], q, c);
  }

  lemma MoreRoots(arcs: set<Arc>, roots: set<Vertex>, root: Vertex, v: Vertex)
    ensures ReachedBySimplePath(arcs, roots, v) ==> ReachedBySimplePath(arcs, roots + {root}, v)
    ensures ReachedBySimplePath(arcs, roots + {root}, root)
  {
    var q := [root];
    assert q[0] in roots + {root} && SimplePath(arcs, q[0], q) && Last(q) == root;
  }

  /** The generator run to its end. A node already visited from an earlier root is passed over; keys come in
      arbitrary order. */
  method FindCycles(g: Family) returns (cycles: seq<seq<Vertex>>)
    ensures forall k :: 0 <= k < |cycles| ==> SimpleCycle(ArcsIn(g), cycles[k])
    ensures forall i, j :: 0 <= i < |cycles| && 0 <= j < |cycles| && i != j ==> !Rotation(cycles[i], cycles[j])
    ensures forall c :: SimpleCycle(ArcsIn(g), c) ==> Recorded(cycles, c)
  {
    ghost var arcs := ArcsIn(g);
    cycles := [];
    var visited: set<Vertex> := {};
    ghost var roots: set<Vertex> := {};
    var keys := g.Keys;
    while keys != {}
      invariant keys <= g.Keys && GoodCycles(arcs, cycles)
      invariant forall r :: r in roots ==> Explored(arcs, cycles, r)
      invariant AllReached(arcs, roots, visited)
      invariant AllReached(arcs, roots, g.Keys - keys)
    {
      var parent :| parent in keys;
      keys := keys - {parent};
      if parent in visited {
        continue;
      }
      forall v ensures ReachedBySimplePath(arcs, roots, v) ==> ReachedBySimplePath(arcs, roots + {parent}, v)
               ensures ReachedBySimplePath(arcs, roots + {parent}, parent) {
        MoreRoots(arcs, roots, parent, v);
      }
      ghost var sofar := cycles;
      roots := roots + {parent};
      cycles, visited := ExploreFrom(g, parent, roots, cycles, visited);
      forall r | r in roots ensures Explored(arcs, cycles, r) {
        if r != parent {
          ExploredStays(arcs, sofar, cycles, r);
        }
      }
    }
    forall c | SimpleCycle(arcs, c) ensures Recorded(cycles, c) {
      EveryCycleRecorded(g, cycles, roots, c);
    }
    forall i, j | 0 <= i < |cycles| && 0 <= j < |cycles| && i != j ensures !Rotation(cycles[i], cycles[j]) {
      if Rotation(cycles[i], cycles[j]) {
        RotationSymmetric(cycles[i], cycles[j]);
      }
    }
  }
}
