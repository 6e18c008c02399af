/** permutations of bindings/python/rad_util.py: all rearrangements of a list. */
module Permutations {
  import opened Basics

  function Factorial(n: nat): nat {
    if n == 0 then 1 else n * Factorial(n - 1)
  }

  function InsertAt<T>(s: seq<T>, i: nat, x: T): seq<T>
    requires i <= |s|
  {
    s[..i] + [x] + s[i..]
  }

  /** The first n ways of inserting x, from the front on. */
  function Insertions<T>(s: seq<T>, x: T, n: nat): (r: seq<seq<T>>)
    requires n <= |s| + 1
    ensures |r| == n && forall i :: 0 <= i < n ==> r[i] == InsertAt(s, i, x)
  {
    seq(n, i requires 0 <= i < n => InsertAt(s, i, x))
  }

  function InsertedIntoAll<T>(subs: seq<seq<T>>, x: T): seq<seq<T>> {
    if subs == [] then [] else
    var last := subs[|subs|-1];
    InsertedIntoAll(subs[..|subs|-1], x) + Insertions(last, x, |last| + 1)
  }

  function AllOf<T>(s: seq<T>): seq<seq<T>> {
    if |s| > 1 then InsertedIntoAll(AllOf(s[1..]), s[0]) else [s]
  }

  /** The inner loop: x at every place of one list. */
  method AppendInsertions<T>(outLists: seq<seq<T>>, subList: seq<T>, item: T) returns (more: seq<seq<T>>)
    ensures more == outLists + Insertions(subList, item, |subList| + 1)
  {
    hide InsertAt;
    more := outLists;
    for i := 0 to |subList| + 1
      invariant more == outLists + Insertions(subList, item, i)
    {
      more := more + [InsertAt(subList, i, item)];
    }
  }

  lemma OneListMore<T>(subs: seq<seq<T>>, k: nat, x: T)
    requires k < |subs|
    ensures InsertedIntoAll(subs[..k+1], x)
         == InsertedIntoAll(subs[..k], x) + Insertions(subs[k], x, |subs[k]| + 1)
  {
    assert subs[..k+1][..k] == subs[..k];
  }

  method Permute<T>(inputList: seq<T>) returns (outLists: seq<seq<T>>)
    ensures outLists == AllOf(inputList)
    decreases |inputList|
  {
    outLists := [];
    if |inputList| > 1 {
      var item := inputList[0];
      var subLists := Permute(inputList[1..]);
      for k := 0 to |subLists|
        invariant outLists == InsertedIntoAll(subLists[..k], item)
      {
        hide InsertedIntoAll, Insertions;
        OneListMore(subLists, k, item);
        outLists := AppendInsertions(outLists, subLists[k], item);
      }
      assert subLists[..|subLists|] == subLists;
    } else {
      outLists := [inputList];
    }
  }

  // ----- what is in the list -----

  ghost predicate Rearranges<T>(p: seq<T>, s: seq<T>) {
    multiset(p) == multiset(s)
  }

  lemma InsertedElements<T>(s: seq<T>, i: nat, x: T)
    requires i <= |s|
    ensures multiset(InsertAt(s, i, x)) == multiset(s) + multiset{x}
  {
    assert s == s[..i] + s[i..];
  }

  lemma {:induction false} AmongInsertions<T>(subs: seq<seq<T>>, x: T, p: seq<T>)
    ensures p in InsertedIntoAll(subs, x) <==> exists q, i :: q in subs && 0 <= i <= |q| && p == InsertAt(q, i, x)
  {
    if subs != [] {
      var rest, last := subs[..|subs|-1], subs[|subs|-1];
      AmongInsertions(rest, x, p);
      assert subs == rest + [last];
      var added := Insertions(last, x, |last| + 1);
      if q, i :| q in subs && 0 <= i <= |q| && p == InsertAt(q, i, x) {
        if q == last {
          assert added[i] == p;
        } else {
          assert q in rest;
        }
      }
    }
  }

  lemma SameLength<T>(s: seq<T>, p: seq<T>)
    requires p in AllOf(s)
    ensures |p| == |s|
  {
    AreRearrangements(s, p);
    assert |multiset(p)| == |multiset(s)|;
  }

  lemma {:induction false} AreRearrangements<T>(s: seq<T>, p: seq<T>)
    requires p in AllOf(s)
    ensures Rearranges(p, s)
    decreases |s|
  {
    if |s| > 1 {
      AmongInsertions(AllOf(s[1..]), s[0], p);
      var q, i :| q in AllOf(s[1..]) && 0 <= i <= |q| && p == InsertAt(q, i, s[0]);
      AreRearrangements(s[1..], q);
      InsertedElements(q, i, s[0]);
      FirstElement(s);
    }
  }

  lemma FirstElement<T>(s: seq<T>)
    requires s != []
    ensures multiset(s) == multiset(s[1..]) + multiset{s[0]}
  {
    assert s == [s[0]] + s[1..];
  }

  /** The list without one item that it has, and where that item was. */
  lemma TakenOut<T>(p: seq<T>, x: T) returns (q: seq<T>, i: nat)
    requires x in p
    ensures i <= |q| && p == InsertAt(q, i, x) && multiset(p) == multiset(q) + multiset{x}
  {
    i :| 0 <= i < |p| && p[i] == x;
    q := p[..i] + p[i+1..];
    assert q[..i] == p[..i] && q[i..] == p[i+1..];
    InsertedElements(q, i, x);
  }

  lemma RearrangedAtMostOne<T>(s: seq<T>, p: seq<T>)
    requires Rearranges(p, s) && |p| == |s| <= 1
    ensures p == s
  {
    if |s| == 1 {
      assert p[0] in multiset(p) && s == [s[0]];
    }
  }

  lemma RearrangedLength<T>(s: seq<T>, p: seq<T>)
    requires Rearranges(p, s)
    ensures |p| == |s|
  {
    assert |multiset(p)| == |multiset(s)|;
  }

  lemma RearrangedItem<T>(s: seq<T>, p: seq<T>)
    requires Rearranges(p, s) && s != []
    ensures s[0] in p
  {
    assert s[0] in multiset(s);
  }

  /** Every rearrangement is listed: take the first item out, and put it back where it was. */
  lemma {:induction false} AllAreListed<T>(s: seq<T>, p: seq<T>)
    requires Rearranges(p, s)
    ensures p in AllOf(s)
    decreases |s|
  {
    hide InsertAt, InsertedIntoAll;
    RearrangedLength(s, p);
    if |s| > 1 {
      var x := s[0];
      RearrangedItem(s, p);
      var q, i := TakenOut(p, x);
      FirstElement(s);
      SameWithout(multiset(q), multiset(s[1..]), x);
      AllAreListed(s[1..], q);
      AmongInsertions(AllOf(s[1..]), x, p);
    } else {
      RearrangedAtMostOne(s, p);
      assert AllOf(s)[0] == p;
    }
  }

  lemma SameWithout<T>(a: multiset<T>, b: multiset<T>, x: T)
    requires a + multiset{x} == b + multiset{x}
    ensures a == b
  {
    assert a == (a + multiset{x}) - multiset{x} && b == (b + multiset{x}) - multiset{x};
  }

  /** The list holds exactly the rearrangements. */
  lemma ExactlyTheRearrangements<T>(s: seq<T>, p: seq<T>)
    ensures p in AllOf(s) <==> Rearranges(p, s)
  {
    if p in AllOf(s) {
      AreRearrangements(s, p);
    }
    if Rearranges(p, s) {
      AllAreListed(s, p);
    }
  }

  // ----- how many there are -----

  lemma OneMoreTimes(a: nat, b: nat)
    ensures (a + 1) * b == a * b + b
  {
  }

  lemma {:induction false} CountInsertions<T>(subs: seq<seq<T>>, x: T, n: nat)
    requires forall k :: 0 <= k < |subs| ==> |subs[k]| == n
    ensures |InsertedIntoAll(subs, x)| == |subs| * (n + 1)
  {
    if subs != [] {
      CountInsertions(subs[..|subs|-1], x, n);
      OneMoreTimes(|subs| - 1, n + 1);
    }
  }

  lemma EitherOrder(a: nat, b: nat)
    ensures a * b == b * a
  {
  }

  /** There are n! lists; one for the empty list. */
  lemma {:induction false} CountIsFactorial<T>(s: seq<T>)
    ensures |AllOf(s)| == Factorial(|s|)
    decreases |s|
  {
    if |s| > 1 {
      var subs := AllOf(s[1..]);
      CountIsFactorial(s[1..]);
      forall k | 0 <= k < |subs| ensures |subs[k]| == |s| - 1 {
        SameLength(s[1..], subs[k]);
      }
      CountInsertions(subs, s[0], |s| - 1);
      EitherOrder(|subs|, |s|);
    } else {
      assert Factorial(1) == 1 * Factorial(0);
    }
  }

  // ----- in which order they come -----

  lemma {:induction false} InsertedInOrder<T>(subs: seq<seq<T>>, x: T, n: nat, k: nat, i: nat)
    requires (forall m :: 0 <= m < |subs| ==> |subs[m]| == n) && k < |subs| && i <= n
    ensures 0 <= k * (n + 1) + i < |InsertedIntoAll(subs, x)|
    ensures InsertedIntoAll(subs, x)[k * (n + 1) + i] == subs[k][..i] + [x] + subs[k][i..]
  {
    var rest := subs[..|subs|-1];
    CountInsertions(rest, x, n);
    if k < |subs| - 1 {
      InsertedInOrder(rest, x, n, k, i);
    }
  }

  lemma RestsAreShorter<T>(s: seq<T>)
    requires |s| > 1
    ensures AllOf(s) == InsertedIntoAll(AllOf(s[1..]), s[0])
    ensures forall m :: 0 <= m < |AllOf(s[1..])| ==> |AllOf(s[1..])[m]| == |s| - 1
  {
    hide InsertedIntoAll;
    var subs := AllOf(s[1..]);
    forall m | 0 <= m < |subs| ensures |subs[m]| == |s| - 1 {
      SameLength(s[1..], subs[m]);
    }
  }

  /** List by list for the rest, and in each the first item from the front to the back. */
  lemma {:induction false} ListedInOrder<T>(s: seq<T>, n: nat, k: nat, i: nat)
    requires |s| == n + 1 > 1 && k < |AllOf(s[1..])| && i <= n
    ensures 0 <= k * (n + 1) + i < |AllOf(s)|
    ensures var q := AllOf(s[1..])[k]; |q| == n && AllOf(s)[k * (n + 1) + i] == q[..i] + [s[0]] + q[i..]
  {
    hide AllOf, InsertedIntoAll;
    RestsAreShorter(s);
    InsertedInOrder(AllOf(s[1..]), s[0], n, k, i);
  }

  // ----- without repetition -----

  lemma InsertedOnlyThere<T>(q: seq<T>, i: nat, x: T, m: nat)
    requires i <= |q| && m <= |q| && x !in q
    ensures InsertAt(q, i, x)[m] == x <==> m == i
  {
    if m < i {
      assert q[m] in q;
    } else if m > i {
      assert q[m-1] in q;
    }
  }

  /** Where x was inserted into a list without x can be seen, and so can the list. */
  lemma InsertionIsInjective<T>(q: seq<T>, i: nat, r: seq<T>, j: nat, x: T)
    requires i <= |q| && j <= |r| && x !in q && x !in r && InsertAt(q, i, x) == InsertAt(r, j, x)
    ensures i == j && q == r
  {
    var p := InsertAt(q, i, x);
    assert |p| == |q| + 1 == |r| + 1;
    InsertedOnlyThere(q, i, x, j);
    InsertedOnlyThere(r, j, x, j);
    assert q == p[..i] + p[i+1..] && r == p[..j] + p[j+1..];
  }

  lemma {:induction false} InsertionsDiffer<T>(subs: seq<seq<T>>, x: T)
    requires NoDuplicates(subs) && forall q :: q in subs ==> x !in q
    ensures NoDuplicates(InsertedIntoAll(subs, x))
  {
    if subs != [] {
      var rest, last := subs[..|subs|-1], subs[|subs|-1];
      InsertionsDiffer(rest, x);
      var before, added := InsertedIntoAll(rest, x), Insertions(last, x, |last| + 1);
      assert x !in last;
      forall m, n | 0 <= m < |before| && 0 <= n < |added| ensures before[m] != added[n] {
        AmongInsertions(rest, x, before[m]);
        var q, i :| q in rest && 0 <= i <= |q| && before[m] == InsertAt(q, i, x);
        if before[m] == added[n] {
          InsertionIsInjective(q, i, last, n, x);
        }
      }
      forall m, n | 0 <= m < n < |added| ensures added[m] != added[n] {
        if added[m] == added[n] {
          InsertionIsInjective(last, m, last, n, x);
        }
      }
    }
  }

  /** When the items are distinct, no list comes twice. */
  lemma {:induction false} DistinctItemsDistinctLists<T>(s: seq<T>)
    requires NoDuplicates(s)
    ensures NoDuplicates(AllOf(s))
    decreases |s|
  {
    if |s| > 1 {
      DistinctItemsDistinctLists(s[1..]);
      forall q | q in AllOf(s[1..]) ensures s[0] !in q {
        AreRearrangements(s[1..], q);
        assert s[0] in q <==> s[0] in multiset(q);
        assert s[0] in multiset(s[1..]) <==> s[0] in s[1..];
      }
      InsertionsDiffer(AllOf(s[1..]), s[0]);
    }
  }
}
