/**
 * Model of SetMerge.MergeOverlapping: a list of sets is rewritten in place so
 * that no two of its sets share an element. Whenever the set at position i
 * overlaps a later set at position j, set j is unioned into set i, removed from
 * the list, and the scan of the later sets restarts.
 *
 * The list of mutable sets becomes a value of type seq<set<T>> that the method
 * threads through its loops and returns.
 */
module SetMerge {

  /** ISet.Overlaps: the two sets share at least one element. */
  predicate Overlaps<T>(a: set<T>, b: set<T>): (r: bool)
    ensures r <==> exists x :: x in a && x in b
  {
    !(a !! b)
  }

  /** No two sets at different positions of the list share an element. */
  ghost predicate PairwiseDisjoint<T>(s: seq<set<T>>)
  {
    forall a, b | 0 <= a < b < |s| :: s[a] !! s[b]
  }

  /** Every element held by some set of the list. */
  ghost function Elements<T>(s: seq<set<T>>): set<T>
  {
    set n, x | 0 <= n < |s| && x in s[n] :: x
  }

  /**
   * One merge step: sets[i].UnionWith(sets[j]) followed by sets.RemoveAt(j).
   * Positions before j keep their set (position i now holding the union),
   * positions after j move down by one.
   */
  function MergeInto<T>(s: seq<set<T>>, i: nat, j: nat): (r: seq<set<T>>)
    requires i < j < |s|
    ensures |r| == |s| - 1
    ensures forall k | 0 <= k < |r| ::
      r[k] == if k == i then s[i] + s[j] else if k < j then s[k] else s[k + 1]
  {
    var united := s[i := s[i] + s[j]];
    united[..j] + united[j + 1..]
  }

  /**
   * What the two loops of MergeOverlapping compute from the state in which the
   * list is s, the outer index is i and the inner index is j. A merge restarts
   * the inner scan at i + 1; an exhausted inner scan advances the outer index.
   */
  function MergeFrom<T>(s: seq<set<T>>, i: nat, j: nat): (r: seq<set<T>>)
    requires i < j <= |s| + 1
    ensures |r| <= |s|
    decreases |s|, |s| - i, |s| + 1 - j
  {
    if i >= |s| then s
    else if j >= |s| then MergeFrom(s, i + 1, i + 2)
    else if Overlaps(s[i], s[j]) then MergeFrom(MergeInto(s, i, j), i, i + 1)
    else MergeFrom(s, i, j + 1)
  }

  /**
   * The result of MergeOverlapping on the list s: pairwise disjoint sets that
   * hold exactly the elements of s, each set of s lying inside one of them,
   * and no more sets than s has.
   */
  function Merge<T>(s: seq<set<T>>): (r: seq<set<T>>)
    ensures PairwiseDisjoint(r)
    ensures Elements(r) == Elements(s)
    ensures Covers(s, r)
    ensures |r| <= |s|
  {
    MergeFromDisjoint(s, 0, 1);
    MergeFromRegroups(s, 0, 1);
    MergeFrom(s, 0, 1)
  }

  /**
   * SetMerge.MergeOverlapping. Returns the list as the source leaves it: the
   * sets are pairwise disjoint, they hold exactly the elements of the input,
   * each input set lies wholly inside one of them, the list has not grown,
   * and a list that was already pairwise disjoint comes back unchanged.
   */
  method MergeOverlapping<T>(sets: seq<set<T>>) returns (merged: seq<set<T>>)
    ensures merged == Merge(sets)
    ensures PairwiseDisjoint(merged)
    ensures Elements(merged) == Elements(sets)
    ensures Covers(sets, merged)
    ensures |merged| <= |sets|
    ensures PairwiseDisjoint(sets) ==> merged == sets
  {
    var s := sets;
    var i := 0;
    while i < |s|
      invariant i <= |s|
      invariant MergeFrom(s, i, i + 1) == Merge(sets)
      decreases |s| - i
    {
      ghost var before := |s|;
      var j := i + 1;
      while j < |s|
        invariant i < j <= |s| <= before
        invariant MergeFrom(s, i, j) == Merge(sets)
        decreases |s|, |s| - j
      {
        if Overlaps(s[i], s[j]) {
          s := s[i := s[i] + s[j]];
          s := s[..j] + s[j + 1..];
          j := i; // restart the comparison of the grown set with every later set
        }
        j := j + 1;
      }
      i := i + 1;
    }
    merged := s;
    if PairwiseDisjoint(sets) {
      MergeFromKeepsDisjoint(sets, 0, 1);
    }
  }

  /*
   * Disjointness
   */

  /**
   * The loop state (s, i, j) has been scanned: every set before position i is
   * disjoint from every other set, and the set at i is disjoint from the sets
   * at i + 1 .. j - 1.
   */
  ghost predicate Scanned<T>(s: seq<set<T>>, i: nat, j: nat)
  {
    && (forall a, b | 0 <= a < i && a < |s| && 0 <= b < |s| && a != b :: s[a] !! s[b])
    && (i < |s| ==> forall b | i < b < j && b < |s| :: s[i] !! s[b])
  }

  /** Every list the loops reach from a scanned state ends pairwise disjoint. */
  lemma {:induction false} MergeFromDisjoint<T>(s: seq<set<T>>, i: nat, j: nat)
    requires i < j <= |s| + 1
    requires Scanned(s, i, j)
    ensures PairwiseDisjoint(MergeFrom(s, i, j))
    decreases |s|, |s| - i, |s| + 1 - j
  {
    if i >= |s| {
    } else if j >= |s| {
      MergeFromDisjoint(s, i + 1, i + 2);
    } else if Overlaps(s[i], s[j]) {
      var r := MergeInto(s, i, j);
      forall a, b | 0 <= a < i && 0 <= b < |r| && a != b
        ensures r[a] !! r[b]
      {
        assert r[a] == s[a];
        if b == i {
          assert s[a] !! s[i] && s[a] !! s[j];
        } else if b < j {
          assert r[b] == s[b];
        } else {
          assert r[b] == s[b + 1];
        }
      }
      MergeFromDisjoint(r, i, i + 1);
    } else {
      MergeFromDisjoint(s, i, j + 1);
    }
  }

  /*
   * Elements are moved, never lost, and no input set is split
   */

  /** The set at position k of s lies wholly inside some set of r. */
  ghost predicate CoveredAt<T>(s: seq<set<T>>, r: seq<set<T>>, k: nat)
    requires k < |s|
  {
    exists m | 0 <= m < |r| :: s[k] <= r[m]
  }

  /** Every set of s lies wholly inside some set of r. */
  ghost predicate Covers<T>(s: seq<set<T>>, r: seq<set<T>>)
  {
    forall k | 0 <= k < |s| :: CoveredAt(s, r, k)
  }

  lemma CoversReflexive<T>(s: seq<set<T>>)
    ensures Covers(s, s)
  {
    forall k | 0 <= k < |s|
      ensures CoveredAt(s, s, k)
    {
      assert s[k] <= s[k];
    }
  }

  lemma CoversTransitive<T>(s: seq<set<T>>, t: seq<set<T>>, r: seq<set<T>>)
    requires Covers(s, t) && Covers(t, r)
    ensures Covers(s, r)
  {
    forall k | 0 <= k < |s|
      ensures CoveredAt(s, r, k)
    {
      assert CoveredAt(s, t, k);
      var n :| 0 <= n < |t| && s[k] <= t[n];
      assert CoveredAt(t, r, n);
      var m :| 0 <= m < |r| && t[n] <= r[m];
      assert s[k] <= r[m];
    }
  }

  /** One merge step keeps the elements and moves whole sets together. */
  lemma MergeIntoRegroups<T>(s: seq<set<T>>, i: nat, j: nat)
    requires i < j < |s|
    ensures Elements(MergeInto(s, i, j)) == Elements(s)
    ensures Covers(s, MergeInto(s, i, j))
  {
    var r := MergeInto(s, i, j);
    forall k | 0 <= k < |s|
      ensures CoveredAt(s, r, k)
    {
      if k == i || k == j {
        assert s[k] <= r[i];
      } else if k < j {
        assert s[k] <= r[k];
      } else {
        assert s[k] <= r[k - 1];
      }
    }
    forall x | x in Elements(s)
      ensures x in Elements(r)
    {
      var k :| 0 <= k < |s| && x in s[k];
      if k == i || k == j {
        assert x in r[i];
      } else if k < j {
        assert x in r[k];
      } else {
        assert x in r[k - 1];
      }
    }
    forall x | x in Elements(r)
      ensures x in Elements(s)
    {
      var m :| 0 <= m < |r| && x in r[m];
      if m == i {
        assert x in s[i] || x in s[j];
      } else if m < j {
        assert x in s[m];
      } else {
        assert x in s[m + 1];
      }
    }
  }

  /**
   * Running the loops from any state keeps that state's elements, and every
   * set of that state ends up wholly inside one set of the result.
   */
  lemma {:induction false} MergeFromRegroups<T>(s: seq<set<T>>, i: nat, j: nat)
    requires i < j <= |s| + 1
    ensures Elements(MergeFrom(s, i, j)) == Elements(s)
    ensures Covers(s, MergeFrom(s, i, j))
    decreases |s|, |s| - i, |s| + 1 - j
  {
    if i >= |s| {
      CoversReflexive(s);
    } else if j >= |s| {
      MergeFromRegroups(s, i + 1, i + 2);
    } else if Overlaps(s[i], s[j]) {
      var r := MergeInto(s, i, j);
      MergeIntoRegroups(s, i, j);
      MergeFromRegroups(r, i, i + 1);
      CoversTransitive(s, r, MergeFrom(r, i, i + 1));
    } else {
      MergeFromRegroups(s, i, j + 1);
    }
  }

  /*
   * Positions that the outer loop has passed
   */

  /**
   * The sets before the outer index are final, and the set at the outer index
   * is never removed; its contents only grow.
   */
  lemma {:induction false} MergeFromKeepsPrefix<T>(s: seq<set<T>>, i: nat, j: nat)
    requires i < j <= |s| + 1
    ensures i <= |s| ==> i <= |MergeFrom(s, i, j)| && MergeFrom(s, i, j)[..i] == s[..i]
    ensures i < |s| ==> i < |MergeFrom(s, i, j)| && s[i] <= MergeFrom(s, i, j)[i]
    decreases |s|, |s| - i, |s| + 1 - j
  {
    if i >= |s| {
    } else if j >= |s| {
      MergeFromKeepsPrefix(s, i + 1, i + 2);
      assert MergeFrom(s, i, j)[..i + 1][i] == s[..i + 1][i];
      assert MergeFrom(s, i, j)[..i] == MergeFrom(s, i, j)[..i + 1][..i];
    } else if Overlaps(s[i], s[j]) {
      var r := MergeInto(s, i, j);
      MergeFromKeepsPrefix(r, i, i + 1);
      assert r[..i] == s[..i];
    } else {
      MergeFromKeepsPrefix(s, i, j + 1);
    }
  }

  /*
   * Fixed points
   */

  /** On a pairwise-disjoint list no overlap test succeeds: the list is kept as it is. */
  lemma {:induction false} MergeFromKeepsDisjoint<T>(s: seq<set<T>>, i: nat, j: nat)
    requires i < j <= |s| + 1
    requires PairwiseDisjoint(s)
    ensures MergeFrom(s, i, j) == s
    decreases |s|, |s| - i, |s| + 1 - j
  {
    if i >= |s| {
    } else if j >= |s| {
      MergeFromKeepsDisjoint(s, i + 1, i + 2);
    } else {
      assert s[i] !! s[j];
      MergeFromKeepsDisjoint(s, i, j + 1);
    }
  }

  /** Merging the result of a merge changes nothing. */
  lemma MergeIdempotent<T>(s: seq<set<T>>)
    ensures Merge(Merge(s)) == Merge(s)
  {
    MergeFromDisjoint(s, 0, 1);
    MergeFromKeepsDisjoint(Merge(s), 0, 1);
  }

  /*
   * Consequences for the elements
   */

  /** Every element of the input ends up in exactly one set of the result. */
  lemma ElementInExactlyOneSet<T>(s: seq<set<T>>, x: T)
    requires x in Elements(s)
    ensures exists m | 0 <= m < |Merge(s)| :: x in Merge(s)[m]
    ensures forall m, n | 0 <= m < n < |Merge(s)| :: !(x in Merge(s)[m] && x in Merge(s)[n])
  {
    MergeFromDisjoint(s, 0, 1);
    MergeFromRegroups(s, 0, 1);
    assert x in Elements(Merge(s));
  }

  /**
   * Every set of the result is made of whole input sets: each of its elements
   * comes from an input set lying wholly inside it.
   */
  lemma MergedSetsAreUnionsOfInputs<T>(s: seq<set<T>>, m: nat, x: T)
    requires m < |Merge(s)| && x in Merge(s)[m]
    ensures exists k | 0 <= k < |s| :: x in s[k] && s[k] <= Merge(s)[m]
  {
    var r := Merge(s);
    MergeFromDisjoint(s, 0, 1);
    MergeFromRegroups(s, 0, 1);
    assert x in Elements(r);
    var k :| 0 <= k < |s| && x in s[k];
    assert CoveredAt(s, r, k);
    var n :| 0 <= n < |r| && s[k] <= r[n];
    assert n == m;
  }

  /** Two overlapping input sets end up inside the same set of the result. */
  lemma OverlappingSetsMerged<T>(s: seq<set<T>>, a: nat, b: nat)
    requires a < |s| && b < |s|
    requires Overlaps(s[a], s[b])
    ensures exists m | 0 <= m < |Merge(s)| :: s[a] <= Merge(s)[m] && s[b] <= Merge(s)[m]
  {
    var r := Merge(s);
    MergeFromDisjoint(s, 0, 1);
    MergeFromRegroups(s, 0, 1);
    assert CoveredAt(s, r, a) && CoveredAt(s, r, b);
    var ma :| 0 <= ma < |r| && s[a] <= r[ma];
    var mb :| 0 <= mb < |r| && s[b] <= r[mb];
    var x :| x in s[a] && x in s[b];
    assert ma == mb;
  }

  /*
   * Connected components: the result groups exactly the elements linked by a
   * chain of pairwise-overlapping input sets
   */

  /** p lists positions of s in which each set overlaps the next one. */
  ghost predicate IsChain<T>(s: seq<set<T>>, p: seq<nat>)
  {
    && |p| > 0
    && (forall t | 0 <= t < |p| :: p[t] < |s|)
    && (forall t | 0 <= t < |p| - 1 :: Overlaps(s[p[t]], s[p[t + 1]]))
  }

  /** x and y are connected: some chain of overlapping sets of s leads from a set holding x to a set holding y. */
  ghost predicate Linked<T>(s: seq<set<T>>, x: T, y: T)
  {
    exists p | IsChain(s, p) :: x in s[p[0]] && y in s[p[|p| - 1]]
  }

  /** Every two elements of one set of r are connected in s. */
  ghost predicate LinkedWithin<T>(s: seq<set<T>>, r: seq<set<T>>)
  {
    forall m, x, y | 0 <= m < |r| && x in r[m] && y in r[m] :: Linked(s, x, y)
  }

  lemma LinkedTransitive<T>(s: seq<set<T>>, x: T, z: T, y: T)
    requires Linked(s, x, z) && Linked(s, z, y)
    ensures Linked(s, x, y)
  {
    var p :| IsChain(s, p) && x in s[p[0]] && z in s[p[|p| - 1]];
    var q :| IsChain(s, q) && z in s[q[0]] && y in s[q[|q| - 1]];
    var pq := p + q;
    forall t | 0 <= t < |pq| - 1
      ensures Overlaps(s[pq[t]], s[pq[t + 1]])
    {
      if t < |p| - 1 {
        assert pq[t] == p[t] && pq[t + 1] == p[t + 1];
      } else if t == |p| - 1 {
        assert pq[t] == p[|p| - 1] && pq[t + 1] == q[0];
        assert z in s[pq[t]] && z in s[pq[t + 1]];
      } else {
        assert pq[t] == q[t - |p|] && pq[t + 1] == q[t - |p| + 1];
      }
    }
    assert IsChain(s, pq) && x in s[pq[0]] && y in s[pq[|pq| - 1]];
  }

  /** Two elements of one input set are connected. */
  lemma LinkedWithinReflexive<T>(s: seq<set<T>>)
    ensures LinkedWithin(s, s)
  {
    forall m, x, y | 0 <= m < |s| && x in s[m] && y in s[m]
      ensures Linked(s, x, y)
    {
      assert IsChain(s, [m]);
    }
  }

  /** A merge step joins two sets that share an element, so it keeps every set's elements connected. */
  lemma MergeIntoKeepsLinked<T>(s: seq<set<T>>, u: seq<set<T>>, i: nat, j: nat)
    requires i < j < |u| && Overlaps(u[i], u[j])
    requires LinkedWithin(s, u)
    ensures LinkedWithin(s, MergeInto(u, i, j))
  {
    var r := MergeInto(u, i, j);
    var z :| z in u[i] && z in u[j];
    forall m, x, y | 0 <= m < |r| && x in r[m] && y in r[m]
      ensures Linked(s, x, y)
    {
      if m == i {
        var a := if x in u[i] then i else j;
        var b := if y in u[i] then i else j;
        assert Linked(s, x, z) && Linked(s, z, y) by {
          assert x in u[a] && z in u[a] && z in u[b] && y in u[b];
        }
        LinkedTransitive(s, x, z, y);
      } else if m < j {
        assert x in u[m] && y in u[m];
      } else {
        assert x in u[m + 1] && y in u[m + 1];
      }
    }
  }

  /** Running the loops keeps the elements of every set connected. */
  lemma {:induction false} MergeFromKeepsLinked<T>(s: seq<set<T>>, u: seq<set<T>>, i: nat, j: nat)
    requires i < j <= |u| + 1
    requires LinkedWithin(s, u)
    ensures LinkedWithin(s, MergeFrom(u, i, j))
    decreases |u|, |u| - i, |u| + 1 - j
  {
    if i >= |u| {
    } else if j >= |u| {
      MergeFromKeepsLinked(s, u, i + 1, i + 2);
    } else if Overlaps(u[i], u[j]) {
      MergeIntoKeepsLinked(s, u, i, j);
      MergeFromKeepsLinked(s, MergeInto(u, i, j), i, i + 1);
    } else {
      MergeFromKeepsLinked(s, u, i, j + 1);
    }
  }

  /** The sets of a chain all lie inside one set of the result. */
  lemma {:induction false} ChainInOneSet<T>(s: seq<set<T>>, p: seq<nat>) returns (m: nat)
    requires IsChain(s, p)
    ensures m < |Merge(s)|
    ensures forall t | 0 <= t < |p| :: s[p[t]] <= Merge(s)[m]
    decreases |p|
  {
    var r := Merge(s);
    MergeFromRegroups(s, 0, 1);
    var last := p[|p| - 1];
    assert CoveredAt(s, r, last);
    var n :| 0 <= n < |r| && s[last] <= r[n];
    if |p| == 1 {
      m := n;
    } else {
      var front := p[..|p| - 1];
      assert IsChain(s, front);
      m := ChainInOneSet(s, front);
      var prev := p[|p| - 2];
      assert s[prev] <= r[m] by {
        assert prev == front[|front| - 1];
      }
      var z :| z in s[prev] && z in s[last];
      MergeFromDisjoint(s, 0, 1);
      assert z in r[m] && z in r[n];
      assert m == n;
      forall t | 0 <= t < |p|
        ensures s[p[t]] <= r[m]
      {
        if t < |p| - 1 {
          assert p[t] == front[t];
        }
      }
    }
  }

  /**
   * Two elements end up in the same set of the result exactly when a chain of
   * pairwise-overlapping input sets connects them.
   */
  lemma MergeGroupsLinkedElements<T>(s: seq<set<T>>, x: T, y: T)
    ensures (exists m | 0 <= m < |Merge(s)| :: x in Merge(s)[m] && y in Merge(s)[m]) <==> Linked(s, x, y)
  {
    LinkedWithinReflexive(s);
    MergeFromKeepsLinked(s, s, 0, 1);
    if Linked(s, x, y) {
      var p :| IsChain(s, p) && x in s[p[0]] && y in s[p[|p| - 1]];
      var m := ChainInOneSet(s, p);
      assert x in Merge(s)[m] && y in Merge(s)[m];
    }
  }

  /** The worked example of the documentation comment. */
  lemma MergeExample()
    ensures Merge([{1, 2, 3}, {4, 5}, {6, 7}, {3, 4}, {7, 8}]) == [{1, 2, 3, 4, 5}, {6, 7, 8}]
  {
    var s0: seq<set<int>> := [{1, 2, 3}, {4, 5}, {6, 7}, {3, 4}, {7, 8}];
    var s1: seq<set<int>> := [{1, 2, 3, 4}, {4, 5}, {6, 7}, {7, 8}];
    var s2: seq<set<int>> := [{1, 2, 3, 4, 5}, {6, 7}, {7, 8}];
    var s3: seq<set<int>> := [{1, 2, 3, 4, 5}, {6, 7, 8}];
    assert s0[0] !! s0[1] && s0[0] !! s0[2] && 3 in s0[0] && 3 in s0[3];
    assert s0[0] + s0[3] == s1[0];
    assert MergeInto(s0, 0, 3) == s1;
    assert 4 in s1[0] && 4 in s1[1];
    assert s1[0] + s1[1] == s2[0];
    assert MergeInto(s1, 0, 1) == s2;
    assert s2[0] !! s2[1] && s2[0] !! s2[2] && 7 in s2[1] && 7 in s2[2];
    assert s2[1] + s2[2] == s3[1];
    assert MergeInto(s2, 1, 2) == s3;
    calc {
      Merge(s0);
      MergeFrom(s0, 0, 3);
      MergeFrom(s1, 0, 1);
      MergeFrom(s2, 0, 1);
      MergeFrom(s2, 0, 3);
      MergeFrom(s2, 1, 2);
      MergeFrom(s3, 1, 2);
      MergeFrom(s3, 2, 3);
      s3;
    }
  }
}
