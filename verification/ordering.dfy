/** The reorder that runs before deduplication: `all_entries.sort(key=entry_priority)`.
    Python's sort is stable, and the key takes only the values 0, 1 and 2, so
    the sorted list is the key-0 entries, then the key-1 entries, then the
    key-2 entries, each group in its original order. The sort is stated for
    any three-valued key and then instantiated with `entry_priority`. */
module Ordering {
  import opened Bib

  /** The values a three-way sort key can take. */
  type Rank = n: nat | n <= 2

  /** `entry_priority`: books first, incollection entries last, everything
      else in between. */
  function Priority(e: Entry): (p: Rank)
    ensures p == 0 <==> Kind(e) == "book"
    ensures p == 2 <==> Kind(e) == "incollection"
  {
    var t := Kind(e);
    if t == "book" then 0
    else if t == "incollection" then 2
    else 1
  }

  /** The elements whose key is `p`, in their original order. */
  function OfRank<T>(key: T -> Rank, s: seq<T>, p: Rank): (r: seq<T>)
    ensures |r| <= |s|
    ensures forall k :: 0 <= k < |r| ==> key(r[k]) == p
  {
    if s == [] then []
    else
      var prev := OfRank(key, s[..|s| - 1], p);
      var x := s[|s| - 1];
      if key(x) == p then prev + [x] else prev
  }

  /** Every element's key is no larger than that of any element after it. */
  ghost predicate SortedBy<T>(key: T -> Rank, s: seq<T>) {
    forall i, j :: 0 <= i < j < |s| ==> key(s[i]) <= key(s[j])
  }

  /** A stable sort on a three-valued key. */
  function StableSort<T>(key: T -> Rank, s: seq<T>): (r: seq<T>)
    ensures multiset(r) == multiset(s)
    ensures SortedBy(key, r)
    ensures forall p: Rank :: OfRank(key, r, p) == OfRank(key, s, p)
  {
    GroupsArePermutation(key, s);
    forall p: Rank
      ensures OfRank(key, OfRank(key, s, 0) + OfRank(key, s, 1) + OfRank(key, s, 2), p) == OfRank(key, s, p)
    {
      GroupsKeepGroup(key, s, p);
    }
    GroupsAreSorted(key, OfRank(key, s, 0), OfRank(key, s, 1), OfRank(key, s, 2));
    OfRank(key, s, 0) + OfRank(key, s, 1) + OfRank(key, s, 2)
  }

  lemma {:induction false} GroupsArePermutation<T>(key: T -> Rank, s: seq<T>)
    ensures multiset(OfRank(key, s, 0) + OfRank(key, s, 1) + OfRank(key, s, 2)) == multiset(s)
    decreases |s|
  {
    if s != [] {
      var s' := s[..|s| - 1];
      var x := s[|s| - 1];
      GroupsArePermutation(key, s');
      assert s == s' + [x];
    }
  }

  lemma {:induction false} OfRankConcat<T>(key: T -> Rank, a: seq<T>, b: seq<T>, p: Rank)
    ensures OfRank(key, a + b, p) == OfRank(key, a, p) + OfRank(key, b, p)
    decreases |b|
  {
    if b != [] {
      var b' := b[..|b| - 1];
      assert (a + b)[..|a + b| - 1] == a + b';
      OfRankConcat(key, a, b', p);
    } else {
      assert a + b == a;
    }
  }

  /** Filtering a list whose elements all have key `q`: by `q` keeps all of
      it, by any other key keeps none of it. */
  lemma {:induction false} OfRankUniform<T>(key: T -> Rank, g: seq<T>, q: Rank, p: Rank)
    requires forall k :: 0 <= k < |g| ==> key(g[k]) == q
    ensures OfRank(key, g, p) == if p == q then g else []
    decreases |g|
  {
    if g != [] {
      var g' := g[..|g| - 1];
      OfRankUniform(key, g', q, p);
      assert g == g' + [g[|g| - 1]];
    }
  }

  /** Filtering three uniform groups laid end to end picks out one group. */
  lemma OfRankOfGroups<T>(key: T -> Rank, g0: seq<T>, g1: seq<T>, g2: seq<T>, p: Rank)
    requires forall k :: 0 <= k < |g0| ==> key(g0[k]) == 0
    requires forall k :: 0 <= k < |g1| ==> key(g1[k]) == 1
    requires forall k :: 0 <= k < |g2| ==> key(g2[k]) == 2
    ensures OfRank(key, g0 + g1 + g2, p) == if p == 0 then g0 else if p == 1 then g1 else g2
  {
    OfRankConcat(key, g0 + g1, g2, p);
    OfRankConcat(key, g0, g1, p);
    OfRankUniform(key, g0, 0, p);
    OfRankUniform(key, g1, 1, p);
    OfRankUniform(key, g2, 2, p);
    if p == 0 {
      assert g0 + [] + [] == g0;
    } else if p == 1 {
      assert [] + g1 + [] == g1;
    } else {
      assert [] + [] + g2 == g2;
    }
  }

  lemma GroupsKeepGroup<T>(key: T -> Rank, s: seq<T>, p: Rank)
    ensures OfRank(key, OfRank(key, s, 0) + OfRank(key, s, 1) + OfRank(key, s, 2), p) == OfRank(key, s, p)
  {
    OfRankOfGroups(key, OfRank(key, s, 0), OfRank(key, s, 1), OfRank(key, s, 2), p);
  }

  lemma GroupsAreSorted<T>(key: T -> Rank, g0: seq<T>, g1: seq<T>, g2: seq<T>)
    requires forall k :: 0 <= k < |g0| ==> key(g0[k]) == 0
    requires forall k :: 0 <= k < |g1| ==> key(g1[k]) == 1
    requires forall k :: 0 <= k < |g2| ==> key(g2[k]) == 2
    ensures SortedBy(key, g0 + g1 + g2)
  {
    var r := g0 + g1 + g2;
    forall i, j | 0 <= i < j < |r|
      ensures key(r[i]) <= key(r[j])
    {
      if i >= |g0| + |g1| {
        assert r[i] == g2[i - |g0| - |g1|];
      } else if j < |g0| {
        assert r[j] == g0[j];
      } else if i >= |g0| {
        assert r[i] == g1[i - |g0|];
        if j < |g0| + |g1| {
          assert r[j] == g1[j - |g0|];
        } else {
          assert r[j] == g2[j - |g0| - |g1|];
        }
      } else {
        assert r[i] == g0[i];
      }
    }
  }

  lemma {:induction false} NoneOfRank<T>(key: T -> Rank, s: seq<T>, p: Rank)
    requires forall k :: 0 <= k < |s| ==> key(s[k]) < p
    ensures OfRank(key, s, p) == []
    decreases |s|
  {
    if s != [] {
      NoneOfRank(key, s[..|s| - 1], p);
    }
  }

  /** A list sorted by the key is its three groups laid end to end. */
  lemma {:induction false} SortedIsGrouped<T>(key: T -> Rank, t: seq<T>)
    requires SortedBy(key, t)
    ensures t == OfRank(key, t, 0) + OfRank(key, t, 1) + OfRank(key, t, 2)
    decreases |t|
  {
    if t != [] {
      var t' := t[..|t| - 1];
      var x := t[|t| - 1];
      assert t == t' + [x];
      SortedPrefix(key, t', x);
      SortedIsGrouped(key, t');
      if key(x) < 2 {
        NoneOfRank(key, t', 2);
      }
      if key(x) < 1 {
        NoneOfRank(key, t', 1);
      }
      AppendToGroups(OfRank(key, t', 0), OfRank(key, t', 1), OfRank(key, t', 2), x, key(x));
    }
  }

  /** Appending an element of key `q` to three groups, the later ones empty,
      extends group `q`. */
  lemma AppendToGroups<T>(g0: seq<T>, g1: seq<T>, g2: seq<T>, x: T, q: Rank)
    requires q < 2 ==> g2 == []
    requires q < 1 ==> g1 == []
    ensures g0 + g1 + g2 + [x] == (if q == 0 then g0 + [x] else g0)
                                   + (if q == 1 then g1 + [x] else g1)
                                   + (if q == 2 then g2 + [x] else g2)
  {
    if q == 0 {
      assert g0 + g1 + g2 + [x] == g0 + [x] + [] + [];
    } else if q == 1 {
      assert g0 + g1 + g2 + [x] == g0 + (g1 + [x]) + [];
    } else {
      assert g0 + g1 + g2 + [x] == g0 + g1 + (g2 + [x]);
    }
  }

  /** Dropping the last element of a sorted list leaves it sorted, below that
      element's key. */
  lemma SortedPrefix<T>(key: T -> Rank, t: seq<T>, x: T)
    requires SortedBy(key, t + [x])
    ensures SortedBy(key, t)
    ensures forall k :: 0 <= k < |t| ==> key(t[k]) <= key(x)
  {
    assert forall k :: 0 <= k < |t| ==> (t + [x])[k] == t[k];
    assert (t + [x])[|t|] == x;
  }

  /** The stable sort is the only arrangement of its input that is sorted by
      the key and keeps each key group in its original order. */
  lemma StableSortIsUnique<T>(key: T -> Rank, s: seq<T>, t: seq<T>)
    requires SortedBy(key, t)
    requires forall p: Rank :: OfRank(key, t, p) == OfRank(key, s, p)
    ensures t == StableSort(key, s)
  {
    SortedIsGrouped(key, t);
  }

  /** `all_entries.sort(key=entry_priority)` */
  function Reorder(s: seq<Entry>): (r: seq<Entry>)
    ensures multiset(r) == multiset(s)
    ensures SortedBy(Priority, r)
    ensures forall p: Rank :: OfRank(Priority, r, p) == OfRank(Priority, s, p)
  {
    StableSort(Priority, s)
  }

  /** In the reordered list every book precedes every other entry, and every
      incollection entry follows every other entry. */
  lemma BooksFirstChaptersLast(s: seq<Entry>)
    ensures forall i, j :: 0 <= i < j < |Reorder(s)| && Kind(Reorder(s)[j]) == "book" ==> Kind(Reorder(s)[i]) == "book"
    ensures forall i, j :: 0 <= i < j < |Reorder(s)| && Kind(Reorder(s)[i]) == "incollection" ==> Kind(Reorder(s)[j]) == "incollection"
  {
    var r := Reorder(s);
    forall i, j | 0 <= i < j < |r|
      ensures Priority(r[i]) <= Priority(r[j])
    {
    }
  }
}
