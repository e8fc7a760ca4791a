/**
 * Value-level meaning of the `ft::list` operations: every mutating
 * operation of the list is specified by one of these functions applied to
 * the sequence of values the list held before the call.
 */
module ListSpec {

  /** The default ordering of the list, `ft::less` on integers. */
  function Lt(a: int, b: int): bool
  {
    a < b
  }

  /**
   * "Equal" as the list decides it: neither element is less than the other.
   * On integers this is plain equality.
   */
  function Equiv(a: int, b: int): (r: bool)
    ensures r <==> a == b
  {
    !Lt(a, b) && !Lt(b, a)
  }

  /** `n` copies of `v`, what the fill operations add. */
  function Repeat(v: int, n: nat): (r: seq<int>)
    ensures |r| == n
    ensures forall i :: 0 <= i < n ==> r[i] == v
  {
    if n == 0 then [] else Repeat(v, n - 1) + [v]
  }

  ghost predicate Sorted(s: seq<int>)
  {
    forall i, j :: 0 <= i < j < |s| ==> s[i] <= s[j]
  }

  function Last(s: seq<int>): int
    requires s != []
  {
    s[|s| - 1]
  }

  // ---------------------------------------------------------------------
  // remove / remove_if
  // ---------------------------------------------------------------------

  /** The elements of `s` that do not satisfy `p`, in their original order. */
  function RemoveWhere(s: seq<int>, p: int -> bool): (r: seq<int>)
    ensures |r| <= |s|
  {
    if s == [] then []
    else RemoveWhere(s[..|s| - 1], p) + (if p(Last(s)) then [] else [Last(s)])
  }

  /** The predicate `remove(val)` removes by: the value is equivalent to `val`. */
  function IsEquiv(val: int): int -> bool
  {
    v => Equiv(v, val)
  }

  /** `remove(val)` takes out every copy of `val` and nothing else. */
  lemma RemoveValueCounts(s: seq<int>, val: int, x: int)
    ensures multiset(RemoveWhere(s, IsEquiv(val)))[x] == if x == val then 0 else multiset(s)[x]
  {
    RemoveWhereCounts(s, IsEquiv(val), x);
  }

  /** Extending the prefix `s[..p]` by one element: the element survives unless it satisfies `p`. */
  lemma RemoveWhereStep(s: seq<int>, n: nat, p: int -> bool)
    requires n < |s|
    ensures p(s[n]) ==> RemoveWhere(s[..n + 1], p) == RemoveWhere(s[..n], p)
    ensures !p(s[n]) ==> RemoveWhere(s[..n + 1], p) == RemoveWhere(s[..n], p) + [s[n]]
  {
    assert s[..n + 1][..n] == s[..n];
    assert RemoveWhere(s[..n], p) + [] == RemoveWhere(s[..n], p);
  }

  /** Removing distributes over concatenation: the relative order of the survivors is kept. */
  lemma {:induction false} RemoveWhereAppend(a: seq<int>, b: seq<int>, p: int -> bool)
    ensures RemoveWhere(a + b, p) == RemoveWhere(a, p) + RemoveWhere(b, p)
    decreases |b|
  {
    if b == [] {
      assert a + b == a;
    } else {
      var b' := b[..|b| - 1];
      assert (a + b)[..|a + b| - 1] == a + b';
      RemoveWhereAppend(a, b', p);
    }
  }

  /** Exactly the elements satisfying `p` disappear, every other value keeps its multiplicity. */
  lemma {:induction false} RemoveWhereCounts(s: seq<int>, p: int -> bool, x: int)
    ensures multiset(RemoveWhere(s, p))[x] == if p(x) then 0 else multiset(s)[x]
    decreases |s|
  {
    if s != [] {
      var s' := s[..|s| - 1];
      assert s == s' + [Last(s)];
      RemoveWhereCounts(s', p, x);
    }
  }

  /** Nothing that satisfies `p` survives. */
  lemma RemoveWhereNone(s: seq<int>, p: int -> bool)
    ensures forall i :: 0 <= i < |RemoveWhere(s, p)| ==> !p(RemoveWhere(s, p)[i])
  {
    var r := RemoveWhere(s, p);
    forall i | 0 <= i < |r|
      ensures !p(r[i])
    {
      assert r[i] in multiset(r);
      RemoveWhereCounts(s, p, r[i]);
    }
  }

  // ---------------------------------------------------------------------
  // unique
  // ---------------------------------------------------------------------

  /**
   * What `unique` leaves: each element is compared with the last element
   * kept so far and dropped when `same` holds of the pair.
   */
  function Collapsed(s: seq<int>, same: (int, int) -> bool): (r: seq<int>)
    ensures |r| <= |s|
    ensures s != [] ==> r != [] && r[0] == s[0]
  {
    if |s| <= 1 then s
    else
      var d := Collapsed(s[..|s| - 1], same);
      if same(Last(d), Last(s)) then d else d + [Last(s)]
  }

  /** Extending the prefix `s[..n]` by one element: it is dropped when `same` as the last one kept. */
  lemma CollapsedStep(s: seq<int>, n: nat, same: (int, int) -> bool)
    requires 1 <= n < |s|
    ensures var d := Collapsed(s[..n], same);
      Collapsed(s[..n + 1], same) == if same(Last(d), s[n]) then d else d + [s[n]]
  {
    assert s[..n + 1][..n] == s[..n];
  }

  /** `unique()`: adjacent-duplicate removal under `Equiv`. */
  function Uniqued(s: seq<int>): seq<int>
  {
    Collapsed(s, Equiv)
  }

  ghost predicate NoAdjacentEqual(s: seq<int>)
  {
    forall i :: 0 <= i < |s| - 1 ==> s[i] != s[i + 1]
  }

  /** The last value is always kept (it ends the last run). */
  lemma {:induction false} UniqueLast(s: seq<int>)
    requires s != []
    ensures Last(Uniqued(s)) == Last(s)
  {
    if |s| > 1 {
      UniqueLast(s[..|s| - 1]);
    }
  }

  /** After `unique()` no two adjacent elements are equal. */
  lemma {:induction false} UniqueNoAdjacent(s: seq<int>)
    ensures NoAdjacentEqual(Uniqued(s))
  {
    if |s| > 1 {
      var s' := s[..|s| - 1];
      UniqueNoAdjacent(s');
      UniqueLast(s');
    }
  }

  /** `unique()` drops duplicates only: the set of values is unchanged. */
  lemma {:induction false} UniqueMembers(s: seq<int>, x: int)
    ensures x in Uniqued(s) <==> x in s
  {
    if |s| > 1 {
      var s' := s[..|s| - 1];
      assert s == s' + [Last(s)];
      UniqueMembers(s', x);
      UniqueLast(s');
    }
  }

  /** A list without adjacent duplicates is left alone, so `unique()` is idempotent. */
  lemma {:induction false} UniqueFixpoint(s: seq<int>)
    requires NoAdjacentEqual(s)
    ensures Uniqued(s) == s
  {
    if |s| > 1 {
      var s' := s[..|s| - 1];
      UniqueFixpoint(s');
      assert s == s' + [Last(s)];
    }
  }

  lemma UniqueIdempotent(s: seq<int>)
    ensures Uniqued(Uniqued(s)) == Uniqued(s)
  {
    UniqueNoAdjacent(s);
    UniqueFixpoint(Uniqued(s));
  }

  /** A run of equal values collapses to its first element. */
  lemma {:induction false} UniqueRun(v: int, n: nat)
    ensures Uniqued(Repeat(v, n + 1)) == [v]
  {
    if n > 0 {
      UniqueRun(v, n - 1);
      assert Repeat(v, n + 1)[..n] == Repeat(v, n);
    }
  }

  /** Runs are treated independently: where two runs meet, both survive. */
  lemma {:induction false} UniqueAppend(a: seq<int>, b: seq<int>)
    requires a != [] && b != [] && Last(a) != b[0]
    ensures Uniqued(a + b) == Uniqued(a) + Uniqued(b)
    decreases |b|
  {
    if |b| == 1 {
      assert (a + b)[..|a + b| - 1] == a;
      UniqueLast(a);
    } else {
      var b' := b[..|b| - 1];
      assert (a + b)[..|a + b| - 1] == a + b';
      UniqueAppend(a, b');
      UniqueLast(b');
      UniqueLast(a + b');
    }
  }

  // ---------------------------------------------------------------------
  // merge and sort
  // ---------------------------------------------------------------------

  /**
   * Merging under `comp`: the head of `s` is taken while it is ordered
   * before the head of `t`, otherwise the head of `t` is taken.
   */
  function Merged(s: seq<int>, t: seq<int>, comp: (int, int) -> bool): seq<int>
    decreases |s| + |t|
  {
    if s == [] then t
    else if t == [] then s
    else if comp(s[0], t[0]) then [s[0]] + Merged(s[1..], t, comp)
    else [t[0]] + Merged(s, t[1..], comp)
  }

  /** A merge holds every element of both inputs, as often as they do. */
  lemma {:induction false} MergedPerm(s: seq<int>, t: seq<int>, comp: (int, int) -> bool)
    ensures multiset(Merged(s, t, comp)) == multiset(s) + multiset(t)
    decreases |s| + |t|
  {
    if s != [] && t != [] {
      if comp(s[0], t[0]) {
        MergedPerm(s[1..], t, comp);
        assert Merged(s, t, comp) == [s[0]] + Merged(s[1..], t, comp);
        assert multiset(s) == multiset([s[0]]) + multiset(s[1..]) by {
          assert s == [s[0]] + s[1..];
        }
      } else {
        MergedPerm(s, t[1..], comp);
        assert Merged(s, t, comp) == [t[0]] + Merged(s, t[1..], comp);
        assert multiset(t) == multiset([t[0]]) + multiset(t[1..]) by {
          assert t == [t[0]] + t[1..];
        }
      }
    }
  }

  /**
   * What `sort(comp)` and `merge(x, comp)` need of `comp`: a strict weak
   * order, that is irreflexive, transitive, and with "not before" also
   * transitive.
   */
  ghost predicate StrictWeakOrder(comp: (int, int) -> bool)
  {
    && (forall a :: !comp(a, a))
    && (forall a, b, c :: comp(a, b) && comp(b, c) ==> comp(a, c))
    && (forall a, b, c :: !comp(a, b) && !comp(b, c) ==> !comp(a, c))
  }

  /** Sorted under `comp`: no element goes before one to its left. */
  ghost predicate SortedBy(s: seq<int>, comp: (int, int) -> bool)
  {
    forall i, j :: 0 <= i < j < |s| ==> !comp(s[j], s[i])
  }

  /** `<` is a strict weak order. */
  lemma LtStrictWeak()
    ensures StrictWeakOrder(Lt)
  {
  }

  /** Sorted under `<` is non-decreasing. */
  lemma SortedLt(s: seq<int>)
    ensures SortedBy(s, Lt) <==> Sorted(s)
  {
    if SortedBy(s, Lt) {
      forall i, j | 0 <= i < j < |s|
        ensures s[i] <= s[j]
      {
        assert !Lt(s[j], s[i]);
      }
    }
  }

  /** A value that nothing of a sorted list goes before can lead it. */
  lemma SortedByCons(x: int, s: seq<int>, comp: (int, int) -> bool)
    requires SortedBy(s, comp)
    requires forall y :: y in multiset(s) ==> !comp(y, x)
    ensures SortedBy([x] + s, comp)
  {
    var r := [x] + s;
    forall i, j | 0 <= i < j < |r|
      ensures !comp(r[j], r[i])
    {
      if i == 0 {
        assert r[j] == s[j - 1] && s[j - 1] in multiset(s);
      }
    }
  }

  /**
   * Under a strict weak order, a value that the first element of a sorted
   * list does not go before is gone before by no element of it.
   */
  lemma SortedByMin(x: int, s: seq<int>, comp: (int, int) -> bool)
    requires StrictWeakOrder(comp) && SortedBy(s, comp)
    requires s != [] ==> !comp(s[0], x)
    ensures forall y :: y in multiset(s) ==> !comp(y, x)
  {
    forall y | y in multiset(s)
      ensures !comp(y, x)
    {
      var k :| 0 <= k < |s| && s[k] == y;
      if k > 0 {
        var first := s[0];
        assert !comp(y, first) && !comp(first, x);
      }
    }
  }

  /** Merging two lists sorted under a strict weak order gives a sorted list. */
  lemma {:induction false} MergedSortedBy(s: seq<int>, t: seq<int>, comp: (int, int) -> bool)
    requires StrictWeakOrder(comp) && SortedBy(s, comp) && SortedBy(t, comp)
    ensures SortedBy(Merged(s, t, comp), comp)
    decreases |s| + |t|
  {
    if s != [] && t != [] {
      if comp(s[0], t[0]) {
        var a, b := s[0], t[0];
        assert comp(a, b);
        assert !comp(b, a);
        MergedSortedBy(s[1..], t, comp);
        MergedPerm(s[1..], t, comp);
        SortedByMin(s[0], s[1..], comp);
        SortedByMin(s[0], t, comp);
        SortedByCons(s[0], Merged(s[1..], t, comp), comp);
      } else {
        MergedSortedBy(s, t[1..], comp);
        MergedPerm(s, t[1..], comp);
        SortedByMin(t[0], s, comp);
        SortedByMin(t[0], t[1..], comp);
        SortedByCons(t[0], Merged(s, t[1..], comp), comp);
      }
    }
  }

  /** Merging two lists sorted under `<` gives a sorted list. */
  lemma MergedSorted(s: seq<int>, t: seq<int>)
    requires Sorted(s) && Sorted(t)
    ensures Sorted(Merged(s, t, Lt))
  {
    LtStrictWeak();
    SortedLt(s);
    SortedLt(t);
    MergedSortedBy(s, t, Lt);
    SortedLt(Merged(s, t, Lt));
  }

  /**
   * The inner walk of `merge` passes over elements of this list that all
   * go before the head of the other list: they come first in the merge,
   * in their order.
   */
  lemma {:induction false} MergedSkip(moved: seq<int>, rest: seq<int>, t: seq<int>, comp: (int, int) -> bool)
    requires t != [] && forall i :: 0 <= i < |moved| ==> comp(moved[i], t[0])
    ensures Merged(moved + rest, t, comp) == moved + Merged(rest, t, comp)
    decreases |moved|
  {
    if moved == [] {
      assert moved + rest == rest;
    } else {
      var s := moved + rest;
      assert s[0] == moved[0] && s[1..] == moved[1..] + rest;
      MergedSkip(moved[1..], rest, t, comp);
    }
  }

  /**
   * One step of the `merge` walk that moves an element of the other list in:
   * when this list's rest is empty or its head does not go first, the head
   * of the other list's rest is placed next.
   */
  lemma MergedTakeRight(s: seq<int>, t: seq<int>, placed: seq<int>, target: seq<int>, comp: (int, int) -> bool)
    requires t != [] && (s == [] || !comp(s[0], t[0]))
    requires target == placed + Merged(s, t, comp)
    ensures target == (placed + [t[0]]) + Merged(s, t[1..], comp)
  {
  }

  /** Length of the front half that `FrontBackSplit` cuts off a chain of `n` nodes. */
  function FrontLength(n: nat): (f: nat)
    ensures n >= 2 ==> 1 <= f < n
  {
    (n + 1) / 2
  }

  /** The recursive merge sort of the list: split, sort both halves, merge. */
  function MergeSorted(s: seq<int>, comp: (int, int) -> bool): (r: seq<int>)
    ensures multiset(r) == multiset(s)
    decreases |s|
  {
    if |s| <= 1 then s
    else
      var f := FrontLength(|s|);
      assert s == s[..f] + s[f..];
      MergedPerm(MergeSorted(s[..f], comp), MergeSorted(s[f..], comp), comp);
      Merged(MergeSorted(s[..f], comp), MergeSorted(s[f..], comp), comp)
  }

  /** `sort(comp)` under a strict weak order yields a list sorted under `comp`. */
  lemma {:induction false} MergeSortedSortedBy(s: seq<int>, comp: (int, int) -> bool)
    ensures StrictWeakOrder(comp) ==> SortedBy(MergeSorted(s, comp), comp)
    decreases |s|
  {
    if |s| > 1 && StrictWeakOrder(comp) {
      var f := FrontLength(|s|);
      MergeSortedSortedBy(s[..f], comp);
      MergeSortedSortedBy(s[f..], comp);
      MergedSortedBy(MergeSorted(s[..f], comp), MergeSorted(s[f..], comp), comp);
    }
  }

  /** `sort()` yields a non-decreasing list. */
  lemma MergeSortedSorted(s: seq<int>)
    ensures Sorted(MergeSorted(s, Lt))
  {
    LtStrictWeak();
    MergeSortedSortedBy(s, Lt);
    SortedLt(MergeSorted(s, Lt));
  }

  // ---------------------------------------------------------------------
  // reverse
  // ---------------------------------------------------------------------

  function Reversed<T>(s: seq<T>): (r: seq<T>)
    ensures |r| == |s|
  {
    if s == [] then [] else Reversed(s[1..]) + [s[0]]
  }

  lemma {:induction false} ReversedAt<T>(s: seq<T>, i: nat)
    requires i < |s|
    ensures Reversed(s)[i] == s[|s| - 1 - i]
  {
    if i < |s| - 1 {
      ReversedAt(s[1..], i);
    }
  }

  /** Reversing twice restores the original list. */
  lemma ReversedTwice<T>(s: seq<T>)
    ensures Reversed(Reversed(s)) == s
  {
    var r := Reversed(Reversed(s));
    forall i | 0 <= i < |s|
      ensures r[i] == s[i]
    {
      ReversedAt(Reversed(s), i);
      ReversedAt(s, |s| - 1 - i);
    }
  }

  // ---------------------------------------------------------------------
  // comparison operators
  // ---------------------------------------------------------------------

  /**
   * The lexicographic order of `operator<`: the first differing position
   * decides, and otherwise the shorter list is the smaller.
   */
  function LexLess(a: seq<int>, b: seq<int>): bool
  {
    if a == [] || b == [] then |a| < |b|
    else if a[0] < b[0] then true
    else if a[0] > b[0] then false
    else LexLess(a[1..], b[1..])
  }

  lemma {:induction false} LexIrreflexive(a: seq<int>)
    ensures !LexLess(a, a)
  {
    if a != [] {
      LexIrreflexive(a[1..]);
    }
  }

  lemma {:induction false} LexTransitive(a: seq<int>, b: seq<int>, c: seq<int>)
    requires LexLess(a, b) && LexLess(b, c)
    ensures LexLess(a, c)
  {
    if a != [] && b != [] && c != [] && a[0] == b[0] == c[0] {
      LexTransitive(a[1..], b[1..], c[1..]);
    }
  }

  /** Past a common prefix of length `i`, the order is decided by what follows it. */
  lemma {:induction false} LexDrop(a: seq<int>, b: seq<int>, i: nat)
    requires i <= |a| && i <= |b| && a[..i] == b[..i]
    ensures LexLess(a, b) == LexLess(a[i..], b[i..])
  {
    if i > 0 {
      assert a[0] == a[..i][0] == b[..i][0] == b[0];
      assert a[1..][..i - 1] == a[..i][1..] && b[1..][..i - 1] == b[..i][1..];
      LexDrop(a[1..], b[1..], i - 1);
      assert a[1..][i - 1..] == a[i..] && b[1..][i - 1..] == b[i..];
    }
  }

  /** Exactly one of `a < b`, `a == b`, `b < a` holds. */
  lemma {:induction false} LexTrichotomy(a: seq<int>, b: seq<int>)
    ensures a == b || LexLess(a, b) || LexLess(b, a)
    ensures !(LexLess(a, b) && LexLess(b, a))
  {
    if a != [] && b != [] && a[0] == b[0] {
      LexTrichotomy(a[1..], b[1..]);
      if a[1..] == b[1..] {
        assert a == [a[0]] + a[1..] && b == [b[0]] + b[1..];
      }
    }
  }
}
