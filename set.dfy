/**
 * `ft::set`: a set of integer keys over the tree of `FtTree`, with a
 * comparator `_cmp` of its own that orders the tree and answers the
 * `lower_bound` and `upper_bound` scans.
 */
module FtSet {
  import opened FtTree

  class Set {
    /** The tree the set derives from. */
    var tree: Tree
    /** `_cmp`. */
    var cmp: KeyCompare

    ghost function Repr(): set<object>
      reads this
    {
      {this, tree}
    }

    /** The set's comparator is the one that orders its tree. */
    ghost predicate Valid()
      reads this, tree
    {
      tree.Valid() && cmp == tree.cmp
    }

    /** `set(cmp)`: an empty set. */
    constructor (cmp: KeyCompare)
      ensures Valid() && fresh(Repr()) && tree.elems == [] && this.cmp == cmp
    {
      tree := new Tree(cmp);
      this.cmp := cmp;
    }

    /** `set(first, last, cmp)`: an empty set, then `insert(first, last)` for a range holding `values`. */
    constructor FromRange(values: seq<int>, cmp: KeyCompare)
      ensures Valid() && fresh(Repr()) && this.cmp == cmp
      ensures tree.elems == InsertedAll([], cmp, values)
    {
      tree := new Tree(cmp);
      this.cmp := cmp;
      new;
      InsertRange(values);
    }

    /** `set(x)`: an empty set with the comparator of `x`, then `insert(x.begin(), x.end())`. */
    constructor Copy(x: Set)
      requires x.Valid()
      ensures Valid() && fresh(Repr()) && cmp == x.cmp && tree.elems == x.tree.elems
    {
      tree := new Tree(x.cmp);
      cmp := x.cmp;
      new;
      InsertRange(x.tree.elems);
      InsertedAllOrdered(cmp, x.tree.elems);
    }

    /** `empty()`: the size is zero. */
    function Empty(): (r: bool)
      reads this, tree
      requires Valid()
      ensures r <==> tree.elems == []
    {
      tree.Size() == 0
    }

    /** `size()`, the tree's. */
    function Size(): (r: nat)
      reads this, tree
      requires Valid()
      ensures r == |tree.elems|
    {
      tree.Size()
    }

    /** `key_comp()` and `value_comp()`: the comparator. */
    function KeyComp(): (r: KeyCompare)
      reads this, tree
      requires Valid()
      ensures r == tree.cmp
    {
      cmp
    }

    /** `insert(val)`: the tree's insert. */
    method Insert(val: int) returns (p: Pos, inserted: bool)
      requires Valid()
      modifies tree
      ensures Valid() && tree.elems == Inserted(old(tree.elems), cmp, val)
      ensures p == At(val) && (inserted <==> val !in old(tree.elems))
    {
      p, inserted := tree.Insert(val);
    }

    /** `insert(position, val)`: the hint is ignored; this is `insert(val).first`. */
    method InsertHint(position: Pos, val: int) returns (p: Pos)
      requires Valid()
      modifies tree
      ensures Valid() && tree.elems == Inserted(old(tree.elems), cmp, val)
      ensures p == At(val)
    {
      var inserted;
      p, inserted := tree.Insert(val);
    }

    /** `insert(first, last)` for an input range holding `values`: each key in turn. */
    method InsertRange(values: seq<int>)
      requires Valid()
      modifies tree
      ensures Valid() && tree.elems == InsertedAll(old(tree.elems), cmp, values)
    {
      for i := 0 to |values|
        invariant Valid() && tree.elems == InsertedAll(old(tree.elems), cmp, values[..i])
      {
        var _, _ := tree.Insert(values[i]);
        assert values[..i + 1][..i] == values[..i];
      }
      assert values[..|values|] == values;
    }

    /** `erase(position)`: the tree's erase of the key `position` sits on. */
    method EraseAt(position: Pos)
      requires Valid() && position != End && position.key in tree.elems
      modifies tree
      ensures Valid() && tree.elems == Without(old(tree.elems), IndexOf(old(tree.elems), position))
    {
      tree.Erase(position);
    }

    /**
     * `erase(val)`: count the keys equivalent to `val`, erase the one found
     * when there is exactly one, and report the count.
     */
    method EraseKey(val: int) returns (r: nat)
      requires Valid()
      modifies tree
      ensures Valid() && r == Occurrences(old(tree.elems), cmp, val)
      ensures r == 0 ==> tree.elems == old(tree.elems)
      ensures r == 1 ==> val in old(tree.elems) && tree.elems == Without(old(tree.elems), KeyIndex(old(tree.elems), val))
    {
      r := tree.Count(val);
      if r == 1 {
        OccurrencesAtMostOne(tree.elems, cmp, val);
        tree.Erase(tree.Find(val));
      }
    }

    /**
     * `erase(first, last)`: erase the keys of `[first, last)` one at a
     * time, taking the iterator to the next key before each erase.
     */
    method EraseRange(first: Pos, last: Pos)
      requires Valid() && ValidPos(tree.elems, first) && ValidPos(tree.elems, last)
      requires IndexOf(tree.elems, first) <= IndexOf(tree.elems, last)
      modifies tree
      ensures Valid()
      ensures tree.elems == old(tree.elems[..IndexOf(tree.elems, first)] + tree.elems[IndexOf(tree.elems, last)..])
    {
      ghost var s0 := tree.elems;
      ghost var i, j := IndexOf(s0, first), IndexOf(s0, last);
      ghost var k: nat := 0;
      var curr := first;
      CutNone(s0, i);
      while curr != last
        invariant Valid() && cmp == old(cmp) && Ordered(s0, cmp) && i + k <= j <= |s0|
        invariant tree.elems == Cut(s0, i, k)
        invariant curr == PosAt(s0, i + k)
        decreases j - k - i
      {
        curr := EraseVisit(curr, last, s0, i, k, j);
        k := k + 1;
      }
      EraseDone(s0, cmp, i, k, j);
    }

    /**
     * One turn of the `erase(first, last)` walk: `next = ++curr; --curr;`
     * steps to the following key and back, then `curr` is erased and the
     * walk goes on from `next`.  Iterators are named by the positions of
     * their keys in the keys `s0` the walk started from.
     */
    method EraseVisit(curr: Pos, last: Pos, ghost s0: seq<int>, ghost i: nat, ghost k: nat, ghost j: nat)
      returns (next: Pos)
      requires Valid() && Ordered(s0, cmp) && i + k <= j <= |s0| && tree.elems == Cut(s0, i, k)
      requires curr == PosAt(s0, i + k) && last == PosAt(s0, j) && curr != last
      modifies tree
      ensures Valid() && cmp == old(cmp) && i + k + 1 <= j && tree.elems == Cut(s0, i, k + 1)
      ensures next == PosAt(s0, i + k + 1)
    {
      EraseStep(s0, i, k);
      next := tree.Next(curr);
      OrderedIndex(tree.elems, cmp, i);
      tree.Erase(curr);
    }

    /** `swap(x)`: exchange the trees' contents, then the comparators. */
    method Swap(x: Set)
      requires Valid() && x.Valid() && (x == this || x.tree != tree)
      modifies this, tree, x, x.tree
      ensures Valid() && x.Valid() && tree == old(tree) && x.tree == old(x.tree)
      ensures tree.elems == old(x.tree.elems) && x.tree.elems == old(tree.elems)
      ensures cmp == old(x.cmp) && x.cmp == old(cmp)
    {
      tree.Swap(x.tree);
      cmp, x.cmp := x.cmp, cmp;
    }

    /** `clear()`: the tree's. */
    method Clear()
      requires Valid()
      modifies tree
      ensures Valid() && tree.elems == []
    {
      tree.Clear();
    }

    /** `find(val)`: the tree's. */
    function Find(val: int): (p: Pos)
      reads this, tree
      requires Valid()
      ensures p == if val in tree.elems then At(val) else End
    {
      EquivIsEqual(cmp, val, val);
      var p := tree.Find(val);
      if p == End then p else EquivIsEqual(cmp, p.key, val); p
    }

    /** `count(val)`: the tree's, which for a set is 1 exactly for a key. */
    function Count(val: int): (r: nat)
      reads this, tree
      requires Valid()
      ensures r == Occurrences(tree.elems, cmp, val)
      ensures r == if val in tree.elems then 1 else 0
    {
      OccurrencesAtMostOne(tree.elems, cmp, val);
      tree.Count(val)
    }

    /**
     * `lower_bound(val)`: walk from `begin()` and stop at the first key that
     * does not go before `val`; `end()` when there is none.
     */
    method LowerBound(val: int) returns (p: Pos)
      requires Valid()
      ensures p == PosAt(tree.elems, LowerIndex(tree.elems, cmp, val))
    {
      var it := tree.Begin();
      ghost var i: nat := 0;
      while it != End
        invariant i <= |tree.elems| && it == PosAt(tree.elems, i)
        invariant forall j :: 0 <= j < i ==> Before(cmp, tree.elems[j], val)
        decreases |tree.elems| - i
      {
        if !Before(cmp, it.key, val) {
          LowerIs(tree.elems, cmp, val, i);
          return it;
        }
        OrderedIndex(tree.elems, cmp, i);
        it := tree.Next(it);
        i := i + 1;
      }
      LowerIs(tree.elems, cmp, val, i);
      return End;
    }

    /**
     * `upper_bound(val)`: walk from `begin()` and stop at the first key
     * that `val` goes before; `end()` when there is none.
     */
    method UpperBound(val: int) returns (p: Pos)
      requires Valid()
      ensures p == PosAt(tree.elems, UpperIndex(tree.elems, cmp, val))
    {
      var it := tree.Begin();
      ghost var i: nat := 0;
      while it != End
        invariant i <= |tree.elems| && it == PosAt(tree.elems, i)
        invariant forall j :: 0 <= j < i ==> !Before(cmp, val, tree.elems[j])
        decreases |tree.elems| - i
      {
        if Before(cmp, val, it.key) {
          UpperIs(tree.elems, cmp, val, i);
          return it;
        }
        OrderedIndex(tree.elems, cmp, i);
        it := tree.Next(it);
        i := i + 1;
      }
      UpperIs(tree.elems, cmp, val, i);
      return End;
    }

    /**
     * `equal_range(val)`: the pair `(lower_bound(val), upper_bound(val))`,
     * which spans the one key equivalent to `val` when there is one and is
     * empty otherwise.
     */
    method EqualRange(val: int) returns (lo: Pos, hi: Pos)
      requires Valid()
      ensures lo == PosAt(tree.elems, LowerIndex(tree.elems, cmp, val))
      ensures hi == PosAt(tree.elems, UpperIndex(tree.elems, cmp, val))
      ensures IndexOf(tree.elems, hi) == IndexOf(tree.elems, lo) + Count(val)
    {
      lo := LowerBound(val);
      hi := UpperBound(val);
      BoundsSpan(tree.elems, cmp, val);
      PosAtInjective(tree.elems, cmp, IndexOf(tree.elems, lo), LowerIndex(tree.elems, cmp, val));
      PosAtInjective(tree.elems, cmp, IndexOf(tree.elems, hi), UpperIndex(tree.elems, cmp, val));
    }
  }

  /** The position where the `lower_bound` scan stops is the one `LowerIndex` names. */
  lemma LowerIs(s: seq<int>, cmp: KeyCompare, v: int, i: nat)
    requires i <= |s| && (i < |s| ==> !Before(cmp, s[i], v))
    requires forall j :: 0 <= j < i ==> Before(cmp, s[j], v)
    ensures i == LowerIndex(s, cmp, v)
  {
  }

  /** The position where the `upper_bound` scan stops is the one `UpperIndex` names. */
  lemma UpperIs(s: seq<int>, cmp: KeyCompare, v: int, i: nat)
    requires i <= |s| && (i < |s| ==> Before(cmp, v, s[i]))
    requires forall j :: 0 <= j < i ==> !Before(cmp, v, s[j])
    ensures i == UpperIndex(s, cmp, v)
  {
  }

  /** The keys of `s0` without the `k` keys from position `i` on. */
  function Cut(s0: seq<int>, i: nat, k: nat): seq<int>
    requires i + k <= |s0|
  {
    s0[..i] + s0[i + k..]
  }

  /** Before the first erase nothing is cut. */
  lemma CutNone(s0: seq<int>, i: nat)
    requires i <= |s0|
    ensures Cut(s0, i, 0) == s0
  {
    assert s0 == s0[..i] + s0[i..];
  }

  /** When the `erase(first, last)` walk reaches `last`, exactly `[first, last)` is gone. */
  lemma EraseDone(s0: seq<int>, cmp: KeyCompare, i: nat, k: nat, j: nat)
    requires Ordered(s0, cmp) && i + k <= j <= |s0|
    requires PosAt(s0, i + k) == PosAt(s0, j)
    ensures Cut(s0, i, k) == s0[..i] + s0[j..]
  {
    PosAtInjective(s0, cmp, i + k, j);
  }

  /**
   * One erase of the `erase(first, last)` walk, on the sequence of keys:
   * the key at `i` is `s0[i + k]`, the one after it `s0[i + k + 1]`, and
   * erasing it cuts one more key.
   */
  lemma EraseStep(s0: seq<int>, i: nat, k: nat)
    requires i + k < |s0|
    ensures i < |Cut(s0, i, k)| && Cut(s0, i, k)[i] == s0[i + k]
    ensures PosAt(Cut(s0, i, k), i + 1) == PosAt(s0, i + k + 1)
    ensures Without(Cut(s0, i, k), i) == Cut(s0, i, k + 1)
  {
    var s := Cut(s0, i, k);
    assert |s| == |s0| - k;
    if i + 1 < |s| {
      assert s[i + 1] == s0[i + k + 1];
    }
  }
}
