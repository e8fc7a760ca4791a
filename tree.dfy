/**
 * The tree `ft::set` derives from, seen only through its interface: a
 * duplicate-free sequence of keys held in the order of the tree's
 * comparator, which is also the order its iterators visit them in.  The
 * red-black balancing behind it is not part of this model; each operation
 * below is given the effect the set relies on.
 */
module FtTree {

  /** The comparator type of a set: `std::less` or `std::greater` on integers. */
  datatype KeyCompare = Less | Greater

  /** `cmp(a, b)`: does `a` go before `b`? */
  function Before(cmp: KeyCompare, a: int, b: int): bool
  {
    match cmp
    case Less => a < b
    case Greater => b < a
  }

  /** Two keys neither of which goes before the other are the same key. */
  lemma EquivIsEqual(cmp: KeyCompare, a: int, b: int)
    ensures !Before(cmp, a, b) && !Before(cmp, b, a) <==> a == b
  {
  }

  /** Each key goes strictly before every later one: sorted, with no key twice. */
  ghost predicate Ordered(s: seq<int>, cmp: KeyCompare)
  {
    forall i, j :: 0 <= i < j < |s| ==> Precedes(s, cmp, i, j)
  }

  /**
   * The key at `i` goes before the key at `j`.  A proof names the instance
   * of `Ordered` it needs through this predicate.
   */
  ghost predicate Precedes(s: seq<int>, cmp: KeyCompare, i: nat, j: nat)
    requires i < |s| && j < |s|
  {
    Before(cmp, s[i], s[j])
  }

  /**
   * A tree iterator.  Keys are unique in a set, so the node an iterator
   * sits on is named by its key; `End` is `end()`.
   */
  datatype Pos = At(key: int) | End

  /** The iterator to position `i` of `s`, which is `end()` for `i == |s|`. */
  function PosAt(s: seq<int>, i: nat): (p: Pos)
    requires i <= |s|
    ensures p == End <==> i == |s|
    ensures p != End ==> p.key == s[i]
  {
    if i < |s| then At(s[i]) else End
  }

  /** The iterator `p` is `end()` or sits on a key of `s`. */
  ghost predicate ValidPos(s: seq<int>, p: Pos)
  {
    p == End || p.key in s
  }

  /** Where `k` sits in `s`. */
  function KeyIndex(s: seq<int>, k: int): (i: nat)
    requires k in s
    ensures i < |s| && s[i] == k
    ensures forall j :: 0 <= j < i ==> s[j] != k
  {
    if s[0] == k then 0 else 1 + KeyIndex(s[1..], k)
  }

  /** How far along `s` the iterator `p` is: `end()` is past the last key. */
  function IndexOf(s: seq<int>, p: Pos): (i: nat)
    requires ValidPos(s, p)
    ensures i <= |s| && PosAt(s, i) == p
  {
    if p == End then |s| else KeyIndex(s, p.key)
  }

  /** In an ordered sequence a key sits at one place only. */
  lemma OrderedIndex(s: seq<int>, cmp: KeyCompare, i: nat)
    requires Ordered(s, cmp) && i < |s|
    ensures KeyIndex(s, s[i]) == i
  {
    forall m | 0 <= m < i
      ensures s[m] != s[i]
    {
      assert Precedes(s, cmp, m, i);
    }
  }

  /**
   * The number of keys of `s` that `v` is equivalent to under `cmp`:
   * what `count(v)` reports.
   */
  function Occurrences(s: seq<int>, cmp: KeyCompare, v: int): nat
  {
    if s == [] then 0
    else (if !Before(cmp, s[0], v) && !Before(cmp, v, s[0]) then 1 else 0) + Occurrences(s[1..], cmp, v)
  }

  /** In an ordered sequence `count(v)` is 1 when `v` is a key and 0 otherwise. */
  lemma {:induction false} OccurrencesAtMostOne(s: seq<int>, cmp: KeyCompare, v: int)
    requires Ordered(s, cmp)
    ensures Occurrences(s, cmp, v) == if v in s then 1 else 0
  {
    if s != [] {
      assert Ordered(s[1..], cmp) by {
        forall i, j | 0 <= i < j < |s[1..]|
          ensures Precedes(s[1..], cmp, i, j)
        {
          assert Precedes(s, cmp, i + 1, j + 1);
        }
      }
      OccurrencesAtMostOne(s[1..], cmp, v);
      EquivIsEqual(cmp, s[0], v);
      if s[0] == v {
        forall j | 0 <= j < |s[1..]|
          ensures s[1..][j] != v
        {
          assert Precedes(s, cmp, 0, j + 1);
        }
      }
      assert v in s <==> s[0] == v || v in s[1..];
    }
  }

  /** The first position of `s` whose key does not go before `v`, the scan of `lower_bound`. */
  function LowerIndex(s: seq<int>, cmp: KeyCompare, v: int): (i: nat)
    ensures i <= |s| && (i < |s| ==> !Before(cmp, s[i], v))
    ensures forall j :: 0 <= j < i ==> Before(cmp, s[j], v)
  {
    if s == [] || !Before(cmp, s[0], v) then 0 else 1 + LowerIndex(s[1..], cmp, v)
  }

  /** The first position of `s` whose key `v` goes before, the scan of `upper_bound`. */
  function UpperIndex(s: seq<int>, cmp: KeyCompare, v: int): (i: nat)
    ensures i <= |s| && (i < |s| ==> Before(cmp, v, s[i]))
    ensures forall j :: 0 <= j < i ==> !Before(cmp, v, s[j])
  {
    if s == [] || Before(cmp, v, s[0]) then 0 else 1 + UpperIndex(s[1..], cmp, v)
  }

  /**
   * In an ordered sequence the keys equivalent to `v` are exactly those
   * between the two scans: one key when `v` is there, none otherwise.
   */
  lemma BoundsSpan(s: seq<int>, cmp: KeyCompare, v: int)
    requires Ordered(s, cmp)
    ensures UpperIndex(s, cmp, v) == LowerIndex(s, cmp, v) + if v in s then 1 else 0
  {
    var lo := LowerIndex(s, cmp, v);
    forall j | 0 <= j < lo
      ensures !Before(cmp, v, s[j]) && s[j] != v
    {
      assert Before(cmp, s[j], v);
    }
    if lo < |s| {
      EquivIsEqual(cmp, s[lo], v);
      if lo + 1 < |s| {
        assert Precedes(s, cmp, lo, lo + 1);
      }
      forall k | lo < k < |s|
        ensures s[k] != v
      {
        assert Precedes(s, cmp, lo, k);
      }
    }
  }

  /** In an ordered sequence different positions give different iterators. */
  lemma PosAtInjective(s: seq<int>, cmp: KeyCompare, a: nat, b: nat)
    requires Ordered(s, cmp) && a <= |s| && b <= |s| && PosAt(s, a) == PosAt(s, b)
    ensures a == b
  {
    if a < |s| && b < |s| {
      OrderedIndex(s, cmp, a);
      OrderedIndex(s, cmp, b);
    }
  }

  /** `s` with the key `k` inserted where the order puts it, or `s` itself if `k` is already there. */
  function Inserted(s: seq<int>, cmp: KeyCompare, k: int): seq<int>
  {
    var i := LowerIndex(s, cmp, k);
    if i < |s| && s[i] == k then s else s[..i] + [k] + s[i..]
  }

  /** `s` without the key at position `i`. */
  function Without(s: seq<int>, i: nat): (r: seq<int>)
    requires i < |s|
    ensures |r| == |s| - 1
  {
    s[..i] + s[i + 1..]
  }

  /**
   * Inserting keeps the sequence ordered, adds exactly `k` to its keys, and
   * adds one key exactly when `k` was not there.
   */
  lemma InsertedOrdered(s: seq<int>, cmp: KeyCompare, k: int)
    requires Ordered(s, cmp)
    ensures Ordered(Inserted(s, cmp, k), cmp)
    ensures forall x :: x in Inserted(s, cmp, k) <==> x in s || x == k
    ensures |Inserted(s, cmp, k)| == if k in s then |s| else |s| + 1
  {
    var i := LowerIndex(s, cmp, k);
    var r := Inserted(s, cmp, k);
    if i < |s| && s[i] == k {
    } else {
      if i < |s| {
        EquivIsEqual(cmp, s[i], k);
      }
      forall j | 0 <= j < |s|
        ensures s[j] != k
      {
        if j > i {
          assert Precedes(s, cmp, i, j);
        }
      }
      SpliceOrdered(s, cmp, k, i, r);
      assert forall x :: x in r <==> x in s[..i] || x == k || x in s[i..];
      assert s == s[..i] + s[i..];
    }
  }

  /** Putting `k` at `i`, after every smaller key and before every larger one, keeps the order. */
  lemma SpliceOrdered(s: seq<int>, cmp: KeyCompare, k: int, i: nat, r: seq<int>)
    requires Ordered(s, cmp) && i <= |s| && r == s[..i] + [k] + s[i..]
    requires forall j :: 0 <= j < i ==> Before(cmp, s[j], k)
    requires i < |s| ==> Before(cmp, k, s[i])
    ensures Ordered(r, cmp)
  {
    assert |r| == |s| + 1;
    forall a | 0 <= a < |r|
      ensures r[a] == if a < i then s[a] else if a == i then k else s[a - 1]
    {
    }
    forall a, b | 0 <= a < b < |r|
      ensures Precedes(r, cmp, a, b)
    {
      if b < i {
        assert Precedes(s, cmp, a, b);
      } else if a > i {
        assert Precedes(s, cmp, a - 1, b - 1);
      } else if a == i {
        if b - 1 > i {
          assert Precedes(s, cmp, i, b - 1);
        }
      } else if b > i {
        assert Precedes(s, cmp, a, b - 1);
      }
    }
  }

  /** Removing a key keeps the sequence ordered and drops exactly that key. */
  lemma WithoutOrdered(s: seq<int>, cmp: KeyCompare, i: nat)
    requires Ordered(s, cmp) && i < |s|
    ensures Ordered(Without(s, i), cmp)
    ensures forall x :: x in Without(s, i) <==> x in s && x != s[i]
  {
    var r := Without(s, i);
    forall a, b | 0 <= a < b < |r|
      ensures Precedes(r, cmp, a, b)
    {
      var a', b' := if a < i then a else a + 1, if b < i then b else b + 1;
      assert r[a] == s[a'] && r[b] == s[b'] && Precedes(s, cmp, a', b');
    }
    forall x | x in r
      ensures x in s && x != s[i]
    {
      var j :| 0 <= j < |r| && r[j] == x;
      var j' := if j < i then j else j + 1;
      assert s[j'] == x;
      if j' != i {
        assert Precedes(s, cmp, if j' < i then j' else i, if j' < i then i else j');
      }
    }
    forall x | x in s && x != s[i]
      ensures x in r
    {
      var j :| 0 <= j < |s| && s[j] == x;
      assert r[if j < i then j else j - 1] == x;
    }
  }

  /** The keys of `vs` inserted into `s` one after the other, from the front. */
  function InsertedAll(s: seq<int>, cmp: KeyCompare, vs: seq<int>): seq<int>
  {
    if vs == [] then s else Inserted(InsertedAll(s, cmp, vs[..|vs| - 1]), cmp, vs[|vs| - 1])
  }

  /** Inserting a range keeps the tree ordered and adds exactly the keys of the range. */
  lemma {:induction false} InsertedAllKeys(s: seq<int>, cmp: KeyCompare, vs: seq<int>)
    requires Ordered(s, cmp)
    ensures Ordered(InsertedAll(s, cmp, vs), cmp)
    ensures forall x :: x in InsertedAll(s, cmp, vs) <==> x in s || x in vs
  {
    if vs != [] {
      var front := vs[..|vs| - 1];
      InsertedAllKeys(s, cmp, front);
      InsertedOrdered(InsertedAll(s, cmp, front), cmp, vs[|vs| - 1]);
      assert vs == front + [vs[|vs| - 1]];
      assert forall x :: x in vs <==> x in front || x == vs[|vs| - 1];
    }
  }

  /** Inserting the keys of an ordered sequence, in order, into an empty tree rebuilds that sequence. */
  lemma {:induction false} InsertedAllOrdered(cmp: KeyCompare, vs: seq<int>)
    requires Ordered(vs, cmp)
    ensures InsertedAll([], cmp, vs) == vs
  {
    if vs != [] {
      var front := vs[..|vs| - 1];
      OrderedFront(vs, cmp);
      InsertedAllOrdered(cmp, front);
      InsertedLast(front, cmp, vs[|vs| - 1]);
      assert vs == front + [vs[|vs| - 1]];
    }
  }

  /** Dropping the last key keeps the order, and every other key goes before it. */
  lemma OrderedFront(vs: seq<int>, cmp: KeyCompare)
    requires Ordered(vs, cmp) && vs != []
    ensures Ordered(vs[..|vs| - 1], cmp)
    ensures forall j :: 0 <= j < |vs| - 1 ==> Before(cmp, vs[j], vs[|vs| - 1])
  {
    var front := vs[..|vs| - 1];
    forall i, j | 0 <= i < j < |front|
      ensures Precedes(front, cmp, i, j)
    {
      assert Precedes(vs, cmp, i, j);
    }
    forall j | 0 <= j < |vs| - 1
      ensures Before(cmp, vs[j], vs[|vs| - 1])
    {
      assert Precedes(vs, cmp, j, |vs| - 1);
    }
  }

  /** A key that every key goes before is inserted at the end. */
  lemma InsertedLast(s: seq<int>, cmp: KeyCompare, k: int)
    requires forall j :: 0 <= j < |s| ==> Before(cmp, s[j], k)
    ensures Inserted(s, cmp, k) == s + [k]
  {
    var i := LowerIndex(s, cmp, k);
    assert i == |s|;
    assert s[..i] == s && s[i..] == [];
  }

  /** The first key of an ordered sequence is its least. */
  lemma FirstLeast(s: seq<int>, cmp: KeyCompare)
    requires Ordered(s, cmp) && s != []
    ensures forall k :: k in s ==> !Before(cmp, k, s[0])
  {
    forall j | 0 < j < |s|
      ensures !Before(cmp, s[j], s[0])
    {
      assert Precedes(s, cmp, 0, j);
    }
  }

  /**
   * In an ordered sequence the key after position `i` is the least key
   * after `s[i]`; at the last position no key comes after `s[i]`.
   */
  lemma NextLeast(s: seq<int>, cmp: KeyCompare, i: nat)
    requires Ordered(s, cmp) && i < |s|
    ensures i + 1 == |s| ==> forall k :: k in s ==> !Before(cmp, s[i], k)
    ensures i + 1 < |s| ==> Before(cmp, s[i], s[i + 1])
    ensures i + 1 < |s| ==> forall k :: k in s && Before(cmp, s[i], k) ==> !Before(cmp, k, s[i + 1])
  {
    forall j | 0 <= j < i
      ensures !Before(cmp, s[i], s[j])
    {
      assert Precedes(s, cmp, j, i);
    }
    if i + 1 < |s| {
      assert Precedes(s, cmp, i, i + 1);
      forall j | i + 1 < j < |s|
        ensures !Before(cmp, s[j], s[i + 1])
      {
        assert Precedes(s, cmp, i + 1, j);
      }
    }
  }

  /** The abstract tree: its keys in iteration order, and its comparator. */
  class Tree {
    var elems: seq<int>
    var cmp: KeyCompare

    ghost predicate Valid()
      reads this
    {
      Ordered(elems, cmp)
    }

    /** An empty tree ordered by `cmp`. */
    constructor (cmp: KeyCompare)
      ensures Valid() && elems == [] && this.cmp == cmp
    {
      elems, this.cmp := [], cmp;
    }

    function Size(): (r: nat)
      reads this
      ensures r == |elems|
    {
      |elems|
    }

    /**
     * `begin()`: the least key under the comparator, or `end()` when there
     * is none; it is the first position of the iteration order.
     */
    function Begin(): (p: Pos)
      reads this
      requires Valid()
      ensures p == End <==> elems == []
      ensures p != End ==> p.key in elems && forall k :: k in elems ==> !Before(cmp, k, p.key)
      ensures p == PosAt(elems, 0)
    {
      if elems == [] then End
      else
        FirstLeast(elems, cmp);
        At(elems[0])
    }

    /**
     * `++it`: the least key after the one `p` sits on, with no key in
     * between, or `end()` when `p` sits on the greatest key; it is the next
     * position of the iteration order.
     */
    function Next(p: Pos): (q: Pos)
      reads this
      requires Valid() && p != End && p.key in elems
      ensures q == End ==> forall k :: k in elems ==> !Before(cmp, p.key, k)
      ensures q != End ==> q.key in elems && Before(cmp, p.key, q.key)
      ensures q != End ==> forall k :: k in elems && Before(cmp, p.key, k) ==> !Before(cmp, k, q.key)
      ensures IndexOf(elems, p) < |elems| && q == PosAt(elems, IndexOf(elems, p) + 1)
    {
      var i := KeyIndex(elems, p.key);
      NextLeast(elems, cmp, i);
      PosAt(elems, i + 1)
    }

    /**
     * `find(val)`: the iterator to the key equivalent to `val` under the
     * comparator, or `end()` when every key goes before or after `val`.
     */
    function Find(val: int): (p: Pos)
      reads this
      ensures p != End ==> p.key in elems && !Before(cmp, p.key, val) && !Before(cmp, val, p.key)
      ensures p == End ==> forall k :: k in elems ==> Before(cmp, k, val) || Before(cmp, val, k)
    {
      if val in elems then At(val) else End
    }

    /** `count(val)`: how many keys are equivalent to `val`. */
    function Count(val: int): (r: nat)
      reads this
      requires Valid()
      ensures r == Occurrences(elems, cmp, val) && r <= 1
    {
      OccurrencesAtMostOne(elems, cmp, val);
      if val in elems then 1 else 0
    }

    /**
     * `insert(val)`: the iterator to `val` and whether it was added; a key
     * already present is left alone.
     */
    method Insert(val: int) returns (p: Pos, inserted: bool)
      requires Valid()
      modifies this
      ensures Valid() && cmp == old(cmp) && elems == Inserted(old(elems), cmp, val)
      ensures p == At(val) && (inserted <==> val !in old(elems))
    {
      InsertedOrdered(elems, cmp, val);
      inserted := val !in elems;
      elems := Inserted(elems, cmp, val);
      p := At(val);
    }

    /** `erase(position)`: remove the key `position` sits on. */
    method Erase(position: Pos)
      requires Valid() && position != End && position.key in elems
      modifies this
      ensures Valid() && cmp == old(cmp)
      ensures elems == Without(old(elems), IndexOf(old(elems), position))
    {
      WithoutOrdered(elems, cmp, KeyIndex(elems, position.key));
      elems := Without(elems, KeyIndex(elems, position.key));
    }

    /** `clear()`. */
    method Clear()
      modifies this
      ensures Valid() && cmp == old(cmp) && elems == []
    {
      elems := [];
    }

    /** `swap(x)`: exchange the keys and the comparators of the two trees. */
    method Swap(x: Tree)
      requires Valid() && x.Valid()
      modifies this, x
      ensures Valid() && x.Valid()
      ensures elems == old(x.elems) && x.elems == old(elems)
      ensures cmp == old(x.cmp) && x.cmp == old(cmp)
    {
      elems, x.elems := x.elems, elems;
      cmp, x.cmp := x.cmp, cmp;
    }
  }
}
