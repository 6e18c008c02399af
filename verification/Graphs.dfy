/** Directed graphs as sets of arcs: walks, cycles, and what lies downstream of a cycle. */
module Graphs {
  import opened Basics

  type Vertex(==, !new)
  type Arc = (Vertex, Vertex)

  /** A nonempty list of vertices in which every vertex is a parent of the next one. */
  predicate IsWalk(arcs: set<Arc>, w: seq<Vertex>) {
    |w| > 0 && forall j :: 1 <= j < |w| ==> (w[j-1], w[j]) in arcs
  }

  predicate IsWalkInto(arcs: set<Arc>, w: seq<Vertex>, v: Vertex) {
    IsWalk(arcs, w) && w[|w|-1] == v
  }

  predicate IsCycle(arcs: set<Arc>, w: seq<Vertex>) {
    |w| >= 2 && IsWalk(arcs, w) && w[0] == w[|w|-1]
  }

  ghost predicate Cyclic(arcs: set<Arc>) {
    exists w :: IsCycle(arcs, w)
  }

  /** A walk of exactly k arcs ends at v. */
  ghost predicate HasWalkInto(arcs: set<Arc>, v: Vertex, k: nat) {
    exists w :: IsWalkInto(arcs, w, v) && |w| == k + 1
  }

  /** The longest walk into v has exactly k arcs. */
  ghost predicate AtDepth(arcs: set<Arc>, v: Vertex, k: nat) {
    HasWalkInto(arcs, v, k) && !HasWalkInto(arcs, v, k + 1)
  }

  /** The walk w starts with a cycle, of k arcs, and ends at v. */
  predicate LeadsFromCycle(arcs: set<Arc>, w: seq<Vertex>, k: nat, v: Vertex) {
    IsWalkInto(arcs, w, v) && 1 <= k < |w| && w[0] == w[k]
  }

  /** v lies on a cycle or can be reached from one. */
  ghost predicate Downstream(arcs: set<Arc>, v: Vertex) {
    exists w, k :: LeadsFromCycle(arcs, w, k, v)
  }

  ghost predicate HasParentIn(arcs: set<Arc>, within: set<Vertex>, c: Vertex) {
    exists p :: p in within && (p, c) in arcs
  }

  lemma Subwalk(arcs: set<Arc>, w: seq<Vertex>, i: nat, j: nat)
    requires IsWalk(arcs, w) && i < j <= |w|
    ensures IsWalk(arcs, w[i..j])
  {
  }

  lemma JoinWalks(arcs: set<Arc>, u: seq<Vertex>, w: seq<Vertex>)
    requires IsWalk(arcs, u) && IsWalk(arcs, w) && (u[|u|-1], w[0]) in arcs
    ensures IsWalk(arcs, u + w)
  {
  }

  lemma ShorterWalkInto(arcs: set<Arc>, v: Vertex, k: nat)
    requires HasWalkInto(arcs, v, k + 1)
    ensures HasWalkInto(arcs, v, k)
  {
    var w :| IsWalkInto(arcs, w, v) && |w| == k + 2;
    Subwalk(arcs, w, 1, |w|);
    assert IsWalkInto(arcs, w[1..], v);
  }

  lemma WalkIntoChild(arcs: set<Arc>, p: Vertex, c: Vertex, k: nat)
    requires (p, c) in arcs && HasWalkInto(arcs, p, k)
    ensures HasWalkInto(arcs, c, k + 1)
  {
    var w :| IsWalkInto(arcs, w, p) && |w| == k + 1;
    JoinWalks(arcs, w, [c]);
    assert IsWalkInto(arcs, w + [c], c);
  }

  /** Depths are unique: the longest walk has one length. */
  lemma {:induction false} DepthIsUnique(arcs: set<Arc>, v: Vertex, k: nat, m: nat)
    requires AtDepth(arcs, v, k) && HasWalkInto(arcs, v, m)
    ensures m <= k
    decreases m
  {
    if m > k + 1 {
      ShorterWalkInto(arcs, v, m - 1);
      DepthIsUnique(arcs, v, k, m - 1);
    }
  }

  lemma {:induction false} DuplicateFreeLength<T>(s: seq<T>, bound: set<T>)
    requires NoDuplicates(s) && forall x :: x in s ==> x in bound
    ensures |s| <= |bound|
  {
    if s != [] {
      var last := s[|s|-1];
      forall x | x in s[..|s|-1] ensures x in bound - {last} {
      }
      DuplicateFreeLength(s[..|s|-1], bound - {last});
    }
  }

  /** Where every member of a set has a parent in the set, walks can be continued backwards for ever. */
  lemma {:induction false} BackwardWalk(arcs: set<Arc>, within: set<Vertex>, v: Vertex, n: nat)
      returns (w: seq<Vertex>)
    requires v in within
    requires forall c :: c in within ==> HasParentIn(arcs, within, c)
    ensures IsWalkInto(arcs, w, v) && |w| == n + 1
    ensures forall x :: x in w ==> x in within
  {
    if n == 0 {
      w := [v];
    } else {
      w := BackwardWalk(arcs, within, v, n - 1);
      assert w[0] in w && HasParentIn(arcs, within, w[0]);
      var p :| p in within && (p, w[0]) in arcs;
      JoinWalks(arcs, [p], w);
      w := [p] + w;
    }
  }

  /** Such a set is downstream of a cycle, member by member. */
  lemma ParentsWithinMakeCycle(arcs: set<Arc>, within: set<Vertex>, v: Vertex)
    requires v in within
    requires forall c :: c in within ==> HasParentIn(arcs, within, c)
    ensures Downstream(arcs, v) && Cyclic(arcs)
  {
    var w := BackwardWalk(arcs, within, v, |within|);
    if NoDuplicates(w) {
      DuplicateFreeLength(w, within);
    }
    var i, j :| 0 <= i < j < |w| && w[i] == w[j];
    Subwalk(arcs, w, i, j + 1);
    assert IsCycle(arcs, w[i..j+1]);
    Subwalk(arcs, w, i, |w|);
    assert LeadsFromCycle(arcs, w[i..], j - i, v);
  }

  /** Downstream of a cycle there are walks of every length, so no vertex there has a depth. */
  lemma {:induction false} DownstreamWalks(arcs: set<Arc>, v: Vertex, k: nat)
    requires Downstream(arcs, v)
    ensures HasWalkInto(arcs, v, k)
  {
    if k == 0 {
      assert IsWalkInto(arcs, [v], v);
    } else {
      DownstreamWalks(arcs, v, k - 1);
      var w, n :| LeadsFromCycle(arcs, w, n, v);
      var u := CycleThenWalk(arcs, w, n, v, k + 1);
      Subwalk(arcs, u, |u| - (k + 1), |u|);
      assert IsWalkInto(arcs, u[|u|-(k+1)..], v);
    }
  }

  /** Going round the cycle often enough gives a walk of at least the wanted length. */
  lemma {:induction false} CycleThenWalk(arcs: set<Arc>, w: seq<Vertex>, n: nat, v: Vertex, len: nat)
      returns (u: seq<Vertex>)
    requires LeadsFromCycle(arcs, w, n, v)
    ensures IsWalkInto(arcs, u, v) && |u| >= len && u[0] == w[0]
  {
    if len <= |w| {
      u := w;
    } else {
      u := CycleThenWalk(arcs, w, n, v, len - 1);
      Subwalk(arcs, w, 0, n);
      assert (w[n-1], w[n]) in arcs;
      JoinWalks(arcs, w[..n], u);
      u := w[..n] + u;
    }
  }

  lemma CycleHasDownstream(arcs: set<Arc>) returns (p: Vertex, v: Vertex)
    requires Cyclic(arcs)
    ensures Downstream(arcs, v) && (p, v) in arcs
  {
    var w :| IsCycle(arcs, w);
    p, v := w[|w|-2], w[|w|-1];
    assert LeadsFromCycle(arcs, w, |w| - 1, v);
  }
}
