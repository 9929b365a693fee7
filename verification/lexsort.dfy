/** The final `all_clusters.sort()` of `get_clusters_from_file`
    (app/modules/clustering/cluster_maker.py:114): Python orders lists of
    ints lexicographically, element by element, a proper prefix coming
    first. */
module LexOrder {
  import opened Communities

  /** Python's `a <= b` on two lists of ints. */
  predicate LexLe(a: Community, b: Community)
  {
    a == [] || (b != [] && (a[0] < b[0] || (a[0] == b[0] && LexLe(a[1..], b[1..]))))
  }

  /** Any two lists are comparable. */
  lemma {:induction false} LexLeTotal(a: Community, b: Community)
    ensures LexLe(a, b) || LexLe(b, a)
  {
    if a != [] && b != [] && a[0] == b[0] {
      LexLeTotal(a[1..], b[1..]);
    }
  }

  /** Lists that are each at most the other are equal. */
  lemma {:induction false} LexLeAntisymmetric(a: Community, b: Community)
    requires LexLe(a, b) && LexLe(b, a)
    ensures a == b
  {
    if a != [] {
      LexLeAntisymmetric(a[1..], b[1..]);
      assert a == [a[0]] + a[1..] && b == [b[0]] + b[1..];
    }
  }

  /** The order is transitive. */
  lemma {:induction false} LexLeTransitive(a: Community, b: Community, c: Community)
    requires LexLe(a, b) && LexLe(b, c)
    ensures LexLe(a, c)
  {
    if a != [] && a[0] == b[0] && b[0] == c[0] {
      LexLeTransitive(a[1..], b[1..], c[1..]);
    }
  }

  /** Every list is ordered before each later one. */
  predicate LexSorted(s: seq<Community>)
  {
    forall i, j :: 0 <= i < j < |s| ==> LexLe(s[i], s[j])
  }

  /** Inserts `c` in front of the first community it does not exceed. */
  function InsertLex(c: Community, s: seq<Community>): (r: seq<Community>)
    ensures multiset(r) == multiset(s) + multiset{c}
  {
    if s == [] || LexLe(c, s[0]) then [c] + s
    else
      assert s == [s[0]] + s[1..];
      [s[0]] + InsertLex(c, s[1..])
  }

  /** A list at most every element of a sorted list can lead it. */
  lemma ConsKeepsSorted(c: Community, t: seq<Community>)
    requires LexSorted(t)
    requires forall k :: 0 <= k < |t| ==> LexLe(c, t[k])
    ensures LexSorted([c] + t)
  {
    var r := [c] + t;
    forall i, j | 0 <= i < j < |r|
      ensures LexLe(r[i], r[j])
    {
      assert r[j] == t[j - 1];
      if i > 0 {
        assert r[i] == t[i - 1];
      }
    }
  }

  /** Inserting a list above `b` among lists above `b` keeps every list
      above `b`. */
  lemma InsertLexKeepsLowerBound(c: Community, s: seq<Community>, b: Community)
    requires LexLe(b, c)
    requires forall k :: 0 <= k < |s| ==> LexLe(b, s[k])
    ensures forall k :: 0 <= k < |InsertLex(c, s)| ==> LexLe(b, InsertLex(c, s)[k])
  {
    var r := InsertLex(c, s);
    forall k | 0 <= k < |r|
      ensures LexLe(b, r[k])
    {
      assert r[k] in multiset(r);
      if r[k] != c {
        assert r[k] in multiset(s);
      }
    }
  }

  /** Inserting into a sorted list keeps it sorted. */
  lemma {:induction false} InsertLexKeepsSorted(c: Community, s: seq<Community>)
    requires LexSorted(s)
    ensures LexSorted(InsertLex(c, s))
  {
    if s == [] || LexLe(c, s[0]) {
      forall k | 0 <= k < |s|
        ensures LexLe(c, s[k])
      {
        if k > 0 {
          LexLeTransitive(c, s[0], s[k]);
        }
      }
      ConsKeepsSorted(c, s);
    } else {
      var tail := s[1..];
      assert LexSorted(tail) by {
        forall i, j | 0 <= i < j < |tail|
          ensures LexLe(tail[i], tail[j])
        {
          assert tail[i] == s[i + 1] && tail[j] == s[j + 1];
        }
      }
      InsertLexKeepsSorted(c, tail);
      LexLeTotal(c, s[0]);
      assert forall k :: 0 <= k < |tail| ==> LexLe(s[0], tail[k]) by {
        forall k | 0 <= k < |tail|
          ensures LexLe(s[0], tail[k])
        {
          assert tail[k] == s[k + 1];
        }
      }
      InsertLexKeepsLowerBound(c, tail, s[0]);
      ConsKeepsSorted(s[0], InsertLex(c, tail));
    }
  }

  /** `list.sort()` on the communities: a sorted permutation. */
  function SortLex(s: seq<Community>): (r: seq<Community>)
    ensures multiset(r) == multiset(s)
    ensures LexSorted(r)
  {
    if s == [] then []
    else
      assert s == [s[0]] + s[1..];
      var rest := SortLex(s[1..]);
      InsertLexKeepsSorted(s[0], rest);
      InsertLex(s[0], rest)
  }

  /** The head of a sorted list is at most each of its elements. */
  lemma SortedHeadIsLeast(a: seq<Community>, x: Community)
    requires LexSorted(a)
    requires x in a
    ensures LexLe(a[0], x)
  {
    var i :| 0 <= i < |a| && a[i] == x;
    if i == 0 {
      LexLeTotal(x, x);
    }
  }

  /** The tail of a sorted list is sorted. */
  lemma SortedTail(a: seq<Community>)
    requires LexSorted(a) && a != []
    ensures LexSorted(a[1..])
  {
    forall i, j | 0 <= i < j < |a[1..]|
      ensures LexLe(a[1..][i], a[1..][j])
    {
      assert a[1..][i] == a[i + 1] && a[1..][j] == a[j + 1];
    }
  }

  /** Two sorted permutations of each other start with the same list. */
  lemma SortedPermutationsShareHead(a: seq<Community>, b: seq<Community>)
    requires LexSorted(a) && LexSorted(b)
    requires multiset(a) == multiset(b)
    requires a != []
    ensures b != [] && a[0] == b[0]
  {
    assert a[0] in multiset(b);
    assert b[0] in multiset(a);
    SortedHeadIsLeast(a, b[0]);
    SortedHeadIsLeast(b, a[0]);
    LexLeAntisymmetric(a[0], b[0]);
  }

  /** There is only one sorted permutation of a list of communities, so the
      result does not depend on the sorting algorithm Python uses. */
  lemma {:induction false} SortedPermutationIsUnique(a: seq<Community>, b: seq<Community>)
    requires LexSorted(a) && LexSorted(b)
    requires multiset(a) == multiset(b)
    ensures a == b
  {
    if a != [] {
      SortedPermutationsShareHead(a, b);
      assert a == [a[0]] + a[1..] && b == [b[0]] + b[1..];
      assert multiset(a[1..]) == multiset(a) - multiset{a[0]};
      assert multiset(b[1..]) == multiset(b) - multiset{b[0]};
      SortedTail(a);
      SortedTail(b);
      SortedPermutationIsUnique(a[1..], b[1..]);
    }
  }

  /** Sorting keeps a list of communities pairwise disjoint and within the
      corpus. */
  lemma SortLexKeepsClusterSet(s: seq<Community>, n: nat)
    requires PairwiseDisjoint(s)
    requires IndicesBelow(s, n)
    ensures PairwiseDisjoint(SortLex(s))
    ensures IndicesBelow(SortLex(s), n)
  {
    PermutationKeepsDisjoint(s, SortLex(s));
    PermutationKeepsIndicesBelow(s, SortLex(s), n);
  }
}
