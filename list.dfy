/**
 * `ft::list`: a doubly linked list of integers bracketed by two sentinel
 * nodes.  Every node is a heap object with `prev`/`next` links; iterators
 * are node references.  The ghost field `Nodes` lists the nodes in chain
 * order, head sentinel first and tail sentinel last, and `Contents` lists
 * the values of the element nodes, so position `k` of `Contents` is the
 * node `Nodes[k + 1]` and `end()` is position `|Contents|`.
 */
module FtList {
  import opened ListSpec

  class Node {
    const data: int
    var prev: Node?
    var next: Node?

    /** `new node(val)`: a node that is not linked to anything yet. */
    constructor (val: int)
      ensures data == val && prev == null && next == null
    {
      data, prev, next := val, null, null;
    }
  }

  /** Positions `i` and `j` of `ns` hold different nodes. */
  ghost predicate Apart(ns: seq<Node>, i: nat, j: nat)
    requires i < |ns| && j < |ns|
  {
    ns[i] != ns[j]
  }

  /**
   * No node occurs twice.  The quantifier is instantiated only where a
   * proof names `Apart(ns, i, j)`, which keeps the list proofs cheap.
   */
  ghost predicate Distinct(ns: seq<Node>)
  {
    forall i, j :: 0 <= i < |ns| && 0 <= j < |ns| && i != j ==> Apart(ns, i, j)
  }

  lemma DistinctInsert(ns: seq<Node>, k: nat, x: Node)
    requires Distinct(ns) && k <= |ns| && x !in ns
    ensures Distinct(ns[..k] + [x] + ns[k..])
  {
    var r := ns[..k] + [x] + ns[k..];
    forall i, j | 0 <= i < |r| && 0 <= j < |r| && i != j
      ensures Apart(r, i, j)
    {
      if i == k {
        assert r[j] == if j < k then ns[j] else ns[j - 1];
      } else if j == k {
        assert r[i] == if i < k then ns[i] else ns[i - 1];
      } else {
        assert Apart(ns, if i < k then i else i - 1, if j < k then j else j - 1);
      }
    }
  }

  lemma DistinctRemove(ns: seq<Node>, k: nat)
    requires Distinct(ns) && k < |ns|
    ensures Distinct(ns[..k] + ns[k + 1..])
  {
    var r := ns[..k] + ns[k + 1..];
    forall i, j | 0 <= i < |r| && 0 <= j < |r| && i != j
      ensures Apart(r, i, j)
    {
      assert Apart(ns, if i < k then i else i + 1, if j < k then j else j + 1);
    }
  }

  /** In a sequence of distinct nodes a node has one position. */
  lemma SameNode(ns: seq<Node>, a: nat, b: nat)
    requires Distinct(ns) && a < |ns| && b < |ns| && ns[a] == ns[b]
    ensures a == b
  {
    assert a != b ==> Apart(ns, a, b);
  }

  /** The node taken out at position `k` is not among the ones left. */
  lemma RemovedGone(ns: seq<Node>, k: nat)
    requires Distinct(ns) && k < |ns|
    ensures ns[k] !in ns[..k] + ns[k + 1..]
  {
    var r := ns[..k] + ns[k + 1..];
    forall m | 0 <= m < |r|
      ensures r[m] != ns[k]
    {
      assert Apart(ns, if m < k then m else m + 1, k);
    }
  }

  /** Putting a chain `seg` of other nodes in at position `k` keeps the nodes distinct. */
  lemma DistinctSplice(ns: seq<Node>, k: nat, seg: seq<Node>)
    requires Distinct(ns) && Distinct(seg) && k <= |ns|
    requires forall n :: n in seg ==> n !in ns
    ensures Distinct(ns[..k] + seg + ns[k..])
  {
    var r := ns[..k] + seg + ns[k..];
    var L := |seg|;
    forall i, j | 0 <= i < |r| && 0 <= j < |r| && i != j
      ensures Apart(r, i, j)
    {
      var ini, inj := k <= i < k + L, k <= j < k + L;
      if ini && inj {
        assert Apart(seg, i - k, j - k);
      } else if !ini && !inj {
        assert Apart(ns, if i < k then i else i - L, if j < k then j else j - L);
      } else if ini {
        assert r[i] == seg[i - k] && seg[i - k] in seg;
        assert r[j] == ns[if j < k then j else j - L];
      } else {
        assert r[j] == seg[j - k] && seg[j - k] in seg;
        assert r[i] == ns[if i < k then i else i - L];
      }
    }
  }

  /** Taking the slice `ns[i..j]` out keeps the nodes distinct. */
  lemma DistinctCut(ns: seq<Node>, i: nat, j: nat)
    requires Distinct(ns) && i <= j <= |ns|
    ensures Distinct(ns[..i] + ns[j..])
  {
    var r := ns[..i] + ns[j..];
    forall p, q | 0 <= p < |r| && 0 <= q < |r| && p != q
      ensures Apart(r, p, q)
    {
      assert Apart(ns, if p < i then p else p + (j - i), if q < i then q else q + (j - i));
    }
  }

  /** The nodes at positions `i` and `i + 1` of `ns` point at each other. */
  ghost predicate Step(ns: seq<Node>, i: nat)
    requires i + 1 < |ns|
    reads ns
  {
    ns[i].next == ns[i + 1] && ns[i + 1].prev == ns[i]
  }

  /** Position `i` of the values `cs` is the value of the node after `ns[i]`. */
  ghost predicate Holds(ns: seq<Node>, cs: seq<int>, i: nat)
    requires i < |cs| && i + 1 < |ns|
  {
    cs[i] == ns[i + 1].data
  }

  /**
   * Consecutive nodes point at each other through `next` and `prev`.  As
   * with `Distinct`, a proof names the instance `Step(ns, i)` it needs.
   */
  ghost predicate Linked(ns: seq<Node>)
    reads ns
  {
    forall i :: 0 <= i < |ns| - 1 ==> Step(ns, i)
  }

  /** Following `next` from the first node of `ns` visits `ns` and then reaches `stop`. */
  ghost predicate Chain(ns: seq<Node>, stop: Node)
    reads ns`next
  {
    forall i :: 0 <= i < |ns| ==> Link(ns, stop, i)
  }

  /** The node `ns[i]` points at the next node of `ns`, or at `stop` from the last one. */
  ghost predicate Link(ns: seq<Node>, stop: Node, i: nat)
    requires i < |ns|
    reads ns`next
  {
    ns[i].next == if i + 1 < |ns| then ns[i + 1] else stop
  }

  /** The node a chain starts at: its first node, or `stop` for an empty chain. */
  function First(ns: seq<Node>, stop: Node): Node
  {
    if ns == [] then stop else ns[0]
  }

  /**
   * The two relinking lemmas below take their arguments as one value: a
   * `Graft` puts the chain `seg` in between `ns[k]` and `ns[k + 1]`, a
   * `Gap` takes out the nodes strictly between `ns[i]` and `ns[j]`.
   */
  datatype Graft = Graft(ns: seq<Node>, k: nat, seg: seq<Node>)
  datatype Gap = Gap(ns: seq<Node>, i: nat, j: nat)

  /**
   * Linking the chain `seg` in between `ns[k]` and `ns[k + 1]`: if those four
   * link fields now point at the chain's ends and no other link of `ns` or
   * `seg` has changed, the spliced sequence is linked.
   */
  twostate lemma SpliceLinked(g: Graft)
    requires old(Linked(g.ns)) && old(Linked(g.seg)) && g.k + 1 < |g.ns| && g.seg != []
    requires Distinct(g.ns) && Distinct(g.seg) && forall m :: m in g.seg ==> m !in g.ns
    requires g.ns[g.k].next == g.seg[0] && g.seg[0].prev == g.ns[g.k]
    requires g.seg[|g.seg| - 1].next == g.ns[g.k + 1] && g.ns[g.k + 1].prev == g.seg[|g.seg| - 1]
    requires forall m :: m in g.ns + g.seg && m != g.ns[g.k] && m != g.seg[|g.seg| - 1] ==> m.next == old(m.next)
    requires forall m :: m in g.ns + g.seg && m != g.ns[g.k + 1] && m != g.seg[0] ==> m.prev == old(m.prev)
    ensures Linked(g.ns[..g.k + 1] + g.seg + g.ns[g.k + 1..])
  {
    var ns, k, seg := g.ns, g.k, g.seg;
    var r, L := ns[..k + 1] + seg + ns[k + 1..], |seg|;
    forall m | 0 <= m < |r| - 1
      ensures Step(r, m)
    {
      if m < k {
        assert r[m] == ns[m] && r[m + 1] == ns[m + 1];
        assert Apart(ns, m, k) && Apart(ns, m + 1, k + 1);
        assert ns[m] in ns + seg && ns[m + 1] in ns + seg && seg[0] in seg && seg[L - 1] in seg;
        assert old(Step(ns, m));
      } else if k < m < k + L {
        assert r[m] == seg[m - k - 1] && r[m + 1] == seg[m - k];
        assert Apart(seg, m - k - 1, L - 1) && Apart(seg, m - k, 0);
        assert seg[m - k - 1] in seg && seg[m - k] in seg;
        assert seg[m - k - 1] in ns + seg && seg[m - k] in ns + seg;
        assert old(Step(seg, m - k - 1));
      } else if m > k + L {
        assert r[m] == ns[m - L] && r[m + 1] == ns[m - L + 1];
        assert Apart(ns, m - L, k) && Apart(ns, m - L + 1, k + 1);
        assert ns[m - L] in ns + seg && ns[m - L + 1] in ns + seg && seg[0] in seg && seg[L - 1] in seg;
        assert old(Step(ns, m - L));
      }
    }
  }

  /**
   * Linking `ns[i]` to `ns[j]` directly: if those two link fields now
   * point at each other and no other link of `ns` has changed, the nodes
   * left over are linked, and so are the ones cut out.
   */
  twostate lemma CutLinked(c: Gap)
    requires old(Linked(c.ns)) && Distinct(c.ns) && c.i < c.j < |c.ns|
    requires c.ns[c.i].next == c.ns[c.j] && c.ns[c.j].prev == c.ns[c.i]
    requires forall m :: m in c.ns && m != c.ns[c.i] ==> m.next == old(m.next)
    requires forall m :: m in c.ns && m != c.ns[c.j] ==> m.prev == old(m.prev)
    ensures Linked(c.ns[..c.i + 1] + c.ns[c.j..]) && Linked(c.ns[c.i + 1..c.j])
  {
    var ns, i, j := c.ns, c.i, c.j;
    var r, d := ns[..i + 1] + ns[j..], j - i - 1;
    forall m | 0 <= m < |r| - 1
      ensures Step(r, m)
    {
      if m < i {
        assert r[m] == ns[m] && r[m + 1] == ns[m + 1];
        assert Apart(ns, m, i) && Apart(ns, m + 1, j);
        assert ns[m] in ns && ns[m + 1] in ns;
        assert old(Step(ns, m));
      } else if m > i {
        assert r[m] == ns[m + d] && r[m + 1] == ns[m + 1 + d];
        assert Apart(ns, m + d, i) && Apart(ns, m + 1 + d, j);
        assert ns[m + d] in ns && ns[m + 1 + d] in ns;
        assert old(Step(ns, m + d));
      }
    }
    var seg := ns[i + 1..j];
    forall p | 0 <= p < |seg| - 1
      ensures Step(seg, p)
    {
      assert Apart(ns, i + 1 + p, i) && Apart(ns, i + 2 + p, j);
      assert ns[i + 1 + p] in ns && ns[i + 2 + p] in ns;
      assert old(Step(ns, i + 1 + p));
    }
  }

  /** The values stored in a sequence of nodes. */
  ghost function Vals(ns: seq<Node>): (r: seq<int>)
    ensures |r| == |ns|
  {
    if ns == [] then [] else [ns[0].data] + Vals(ns[1..])
  }

  lemma {:induction false} ValsAt(ns: seq<Node>, i: nat)
    requires i < |ns|
    ensures Vals(ns)[i] == ns[i].data
  {
    if i > 0 {
      ValsAt(ns[1..], i - 1);
    }
  }

  /** Every position `i` of `cs` is the value of the node `ns[i + 1]`. */
  ghost predicate Carries(ns: seq<Node>, cs: seq<int>)
  {
    |cs| == |ns| - 2 && forall i :: 0 <= i < |cs| ==> Holds(ns, cs, i)
  }

  /** Cutting `cs[a..b]` and the nodes holding it out keeps the values in step. */
  lemma CarriesCut(ns: seq<Node>, cs: seq<int>, a: nat, b: nat)
    requires Carries(ns, cs) && a <= b <= |cs|
    ensures Carries(ns[..a + 1] + ns[b + 1..], cs[..a] + cs[b..])
  {
    var rn, rc := ns[..a + 1] + ns[b + 1..], cs[..a] + cs[b..];
    forall m | 0 <= m < |rc|
      ensures Holds(rn, rc, m)
    {
      if m < a {
        assert rn[m + 1] == ns[m + 1] && Holds(ns, cs, m);
      } else {
        assert rn[m + 1] == ns[m + 1 + (b - a)] && Holds(ns, cs, m + (b - a));
      }
    }
  }

  /** Putting the nodes `seg` in after `ns[k]` puts their values in at position `k`. */
  lemma CarriesSplice(ns: seq<Node>, cs: seq<int>, k: nat, seg: seq<Node>)
    requires Carries(ns, cs) && k <= |cs|
    ensures Carries(ns[..k + 1] + seg + ns[k + 1..], cs[..k] + Vals(seg) + cs[k..])
  {
    var rn, rc, n := ns[..k + 1] + seg + ns[k + 1..], cs[..k] + Vals(seg) + cs[k..], |seg|;
    forall m | 0 <= m < |rc|
      ensures Holds(rn, rc, m)
    {
      if m < k {
        assert rn[m + 1] == ns[m + 1] && Holds(ns, cs, m);
      } else if m < k + n {
        assert rn[m + 1] == seg[m - k];
        ValsAt(seg, m - k);
      } else {
        assert rn[m + 1] == ns[m - n + 1] && Holds(ns, cs, m - n);
      }
    }
  }

  /** A slice of distinct nodes is distinct. */
  lemma DistinctSlice(ns: seq<Node>, a: nat, b: nat)
    requires Distinct(ns) && a <= b <= |ns|
    ensures Distinct(ns[a..b])
  {
    var r := ns[a..b];
    forall p, q | 0 <= p < |r| && 0 <= q < |r| && p != q
      ensures Apart(r, p, q)
    {
      assert Apart(ns, a + p, a + q);
    }
  }

  /** The nodes of the slice `ns[a..b]` are not among the ones left when it is cut out. */
  lemma CutGone(ns: seq<Node>, a: nat, b: nat)
    requires Distinct(ns) && a <= b <= |ns|
    ensures forall m :: m in ns[a..b] ==> m !in ns[..a] + ns[b..]
  {
    var r := ns[..a] + ns[b..];
    forall m | m in ns[a..b]
      ensures m !in r
    {
      var p :| 0 <= p < b - a && ns[a..b][p] == m;
      forall q | 0 <= q < |r|
        ensures r[q] != m
      {
        assert Apart(ns, a + p, if q < a then q else q + (b - a));
      }
    }
  }

  lemma SliceIn<T>(s: seq<T>, a: nat, b: nat)
    requires a <= b <= |s|
    ensures forall m :: m in s[a..b] ==> m in s
  {
  }

  /** The nodes `ns[a + 1..b + 1]` hold the values `cs[a..b]`. */
  lemma ValsSlice(ns: seq<Node>, cs: seq<int>, a: nat, b: nat)
    requires Carries(ns, cs) && a <= b <= |cs|
    ensures Vals(ns[a + 1..b + 1]) == cs[a..b]
  {
    var v := Vals(ns[a + 1..b + 1]);
    forall p | 0 <= p < b - a
      ensures v[p] == cs[a..b][p]
    {
      assert Holds(ns, cs, a + p);
      ValsAt(ns[a + 1..b + 1], p);
    }
  }

  /** Splicing in an empty slice leaves both sequences as they were. */
  lemma EmptySlice<T, U>(ns: seq<T>, cs: seq<U>, k: nat, xs: seq<T>, xc: seq<U>, i: nat)
    requires k < |ns| && k <= |cs| && i < |xs| && i <= |xc|
    ensures ns == ns[..k + 1] + xs[i + 1..i + 1] + ns[k + 1..]
    ensures cs == cs[..k] + xc[i..i] + cs[k..]
    ensures xs == xs[..i + 1] + xs[i + 1..] && xc == xc[..i] + xc[i..]
  {
    assert xs[i + 1..i + 1] == [] && xc[i..i] == [];
  }

  /**
   * What a range `splice` needs to know about the slice `seg` of the node
   * sequence `xs` that it moves in after `ns[k]`.
   */
  lemma MovePrep(ns: seq<Node>, xs: seq<Node>, xc: seq<int>, seg: seq<Node>, k: nat, i: nat, j: nat)
    requires Distinct(xs) && Carries(xs, xc) && i <= j <= |xc| && k < |ns|
    requires seg == xs[i + 1..j + 1]
    requires forall m :: m in ns ==> m !in xs
    ensures Distinct(seg) && Vals(seg) == xc[i..j]
    ensures forall m :: m in seg ==> m !in ns
    ensures forall m :: m in ns ==> m !in xs[..i + 1] + xs[j + 1..]
    ensures forall m :: m in seg ==> m !in xs[..i + 1] + xs[j + 1..]
  {
    DistinctSlice(xs, i + 1, j + 1);
    ValsSlice(xs, xc, i, j);
    SliceIn(xs, i + 1, j + 1);
    CutGone(xs, i + 1, j + 1);
    assert forall y :: y in xs[..i + 1] + xs[j + 1..] ==> y in xs;
  }

  /** Following `next` from the first node of `w` visits every node of `w` in order. */
  ghost predicate Path(w: seq<Node>)
    reads w
  {
    forall m :: 0 <= m < |w| - 1 ==> w[m].next == w[m + 1]
  }

  /**
   * Dropping one more element after the prefix `s[..p]`: the step of a loop
   * that erases `s[p..p + g]` one element at a time.
   */
  lemma DropNext<T>(s: seq<T>, b: seq<T>, p: nat, g: nat)
    requires p + g < |s| && b == s[..p] + s[p + g..]
    ensures b[..p] + b[p + 1..] == s[..p] + s[p + (g + 1)..]
  {
    assert b[..p] == s[..p];
    assert b[p + 1..] == s[p + (g + 1)..];
  }

  /**
   * Putting `x` in at the end of the middle part `mid`: the step of a loop
   * that inserts a range one element at a time.
   */
  lemma PutNext<T>(b: seq<T>, pre: seq<T>, mid: seq<T>, post: seq<T>, x: T, p: nat)
    requires b == pre + mid + post && p == |pre| + |mid|
    ensures b[..p] + [x] + b[p..] == pre + (mid + [x]) + post
  {
    assert b[..p] == pre + mid;
    assert b[p..] == post;
  }

  /** `PutNext` for the next element `vs[i]` of an input range. */
  lemma PutNextOf<T>(b: seq<T>, pre: seq<T>, vs: seq<T>, post: seq<T>, i: nat, p: nat)
    requires i < |vs| && b == pre + vs[..i] + post && p == |pre| + i
    ensures b[..p] + [vs[i]] + b[p..] == pre + vs[..i + 1] + post
  {
    PutNext(b, pre, vs[..i], post, vs[i], p);
    assert vs[..i + 1] == vs[..i] + [vs[i]];
  }

  /** `PutNext` for one more copy of `v`. */
  lemma PutNextFill(b: seq<int>, pre: seq<int>, v: int, post: seq<int>, i: nat, p: nat)
    requires b == pre + Repeat(v, i) + post && p == |pre| + i
    ensures b[..p] + [v] + b[p..] == pre + Repeat(v, i + 1) + post
  {
    PutNext(b, pre, Repeat(v, i), post, v, p);
  }

  /**
   * The list holds `kept + rest` and its node at position `|kept|` is
   * either unlinked or stepped over: the two shapes of one step of the
   * `remove`, `remove_if` and `unique` walks.
   */
  lemma NextOf<T>(cb: seq<T>, kept: seq<T>, rest: seq<T>)
    requires cb == kept + rest && rest != []
    ensures |kept| < |cb| && cb[|kept|] == rest[0]
    ensures cb[..|kept|] + cb[|kept| + 1..] == kept + rest[1..]
    ensures cb == (kept + [rest[0]]) + rest[1..]
  {
    assert cb[..|kept|] == kept;
    assert cb[|kept| + 1..] == rest[1..];
  }

  /**
   * One step of the `unique` walk, for a list whose nodes `ns` hold
   * `cb == kept + cs[p..]`, where `kept` is what is left of `cs[..p]`: the
   * node `ns[|kept|]` holds the last value kept, the node after it the
   * value `cs[p]`, and dropping or keeping that value gives the shape for
   * `p + 1`.
   */
  lemma CollapseFacts(ns: seq<Node>, cs: seq<int>, p: nat, same: (int, int) -> bool, kept: seq<int>, cb: seq<int>)
    requires Carries(ns, cb) && 1 <= p < |cs|
    requires kept == Collapsed(cs[..p], same) && cb == kept + cs[p..]
    ensures 1 <= |kept| && |kept| + 2 < |ns|
    ensures ns[|kept|].data == Last(kept) && ns[|kept| + 1].data == cs[p]
    ensures same(Last(kept), cs[p]) ==>
      kept == Collapsed(cs[..p + 1], same) && cb[..|kept|] + cb[|kept| + 1..] == kept + cs[p + 1..]
    ensures !same(Last(kept), cs[p]) ==>
      kept + [cs[p]] == Collapsed(cs[..p + 1], same) && cb == (kept + [cs[p]]) + cs[p + 1..]
  {
    CollapsedStep(cs, p, same);
    NextOf(cb, kept, cs[p..]);
    assert cs[p..][1..] == cs[p + 1..];
    assert Holds(ns, cb, |kept| - 1) && Holds(ns, cb, |kept|);
  }

  /**
   * One step of the `remove_if` walk, for a list whose nodes `ns` hold
   * `cb == kept + cs[p..]`, where `kept` are the survivors of `cs[..p]`.
   */
  lemma RemoveFacts(ns: seq<Node>, cs: seq<int>, p: nat, pred: int -> bool, kept: seq<int>, cb: seq<int>)
    requires Carries(ns, cb) && p < |cs|
    requires kept == RemoveWhere(cs[..p], pred) && cb == kept + cs[p..]
    ensures |kept| + 2 < |ns| && ns[|kept| + 1].data == cs[p]
    ensures pred(cs[p]) ==>
      kept == RemoveWhere(cs[..p + 1], pred) && cb[..|kept|] + cb[|kept| + 1..] == kept + cs[p + 1..]
    ensures !pred(cs[p]) ==>
      kept + [cs[p]] == RemoveWhere(cs[..p + 1], pred) && cb == (kept + [cs[p]]) + cs[p + 1..]
  {
    RemoveWhereStep(cs, p, pred);
    NextOf(cb, kept, cs[p..]);
    assert cs[p..][1..] == cs[p + 1..];
    assert Holds(ns, cb, |kept|);
  }

  /** The node holding `rest[0]`, when the nodes `ns` hold `cb == kept + rest`. */
  lemma Ahead(ns: seq<Node>, cb: seq<int>, kept: seq<int>, rest: seq<int>)
    requires Carries(ns, cb) && rest != [] && cb == kept + rest
    ensures |kept| + 2 < |ns| && ns[|kept| + 1].data == rest[0]
    ensures cb == (kept + [rest[0]]) + rest[1..]
  {
    NextOf(cb, kept, rest);
    assert Holds(ns, cb, |kept|);
  }

  /**
   * The sequences after the inner walk of `merge` passed over `moved`, the
   * elements of this list that go before the head of the other list's `xr`.
   */
  lemma SkipFacts(cb: seq<int>, target: seq<int>, xr: seq<int>, placed: seq<int>, moved: seq<int>,
                  rest: seq<int>, rest': seq<int>, comp: (int, int) -> bool)
    requires xr != [] && forall i :: 0 <= i < |moved| ==> comp(moved[i], xr[0])
    requires cb == placed + rest && rest == moved + rest'
    requires target == placed + Merged(rest, xr, comp)
    ensures cb == (placed + moved) + rest' && target == (placed + moved) + Merged(rest', xr, comp)
  {
    MergedSkip(moved, rest', xr, comp);
    var m := Merged(rest', xr, comp);
    assert target == placed + (moved + m);
    assert placed + (moved + m) == (placed + moved) + m;
    assert placed + (moved + rest') == (placed + moved) + rest';
  }

  /**
   * The sequences after the splice step of `merge`: the node `xs[1]` went
   * from `xs` to position `|kept| + 1` of `ns`.
   */
  lemma TakeFacts(ns: seq<Node>, nb: seq<Node>, xs: seq<Node>, xb: seq<Node>, cb: seq<int>, cn: seq<int>,
                  xcb: seq<int>, xcn: seq<int>, kept: seq<int>, rest: seq<int>)
    requires |kept| + 1 < |ns| && 2 < |xs| && xcb != [] && cb == kept + rest
    requires nb == ns[..|kept| + 1] + [xs[1]] + ns[|kept| + 1..]
    requires xb == xs[..1] + xs[2..]
    requires cn == cb[..|kept|] + [xcb[0]] + cb[|kept|..]
    requires xcn == xcb[..0] + xcb[1..]
    ensures cn == (kept + [xcb[0]]) + rest && xcn == xcb[1..]
    ensures nb[|kept| + 2] == ns[|kept| + 1] && xb[1] == xs[2]
  {
    assert cb[..|kept|] == kept && cb[|kept|..] == rest;
  }

  /** After the node at position `k + 1` of `ns` is unlinked, its neighbours sit at `k` and `k + 1`. */
  lemma Closed(ns: seq<Node>, nb: seq<Node>, k: nat)
    requires k + 2 < |ns| && nb == ns[..k + 1] + ns[k + 2..]
    ensures nb[k] == ns[k] && nb[k + 1] == ns[k + 2]
  {
  }

  lemma SplitAt<T>(s: seq<T>, p: nat)
    requires p <= |s|
    ensures s[..p] + s[p..] == s
  {
  }

  /** `DropNext` in the shape used for node sequences, which carry the head sentinel in front. */
  lemma DropNextNode<T>(s: seq<T>, b: seq<T>, p: nat, g: nat)
    requires p + 1 + g < |s| && b == s[..p + 1] + s[p + 1 + g..]
    ensures b[..p + 1] + b[p + 2..] == s[..p + 1] + s[p + 1 + (g + 1)..]
  {
    DropNext(s, b, p + 1, g);
  }

  /** The values held by `[h] + rs + [t]` are the values of `rs`. */
  lemma CarriesVals(h: Node, rs: seq<Node>, t: Node)
    ensures Carries([h] + rs + [t], Vals(rs))
  {
    var w := [h] + rs + [t];
    forall i | 0 <= i < |rs|
      ensures Holds(w, Vals(rs), i)
    {
      ValsAt(rs, i);
    }
  }

  // ---------------------------------------------------------------------
  // merge sort over the `next` chain
  // ---------------------------------------------------------------------

  /** `SortedMerge` on chains of nodes: the node of `ps` goes first while `comp` says so. */
  ghost function MergedNodes(ps: seq<Node>, qs: seq<Node>, comp: (int, int) -> bool): seq<Node>
    decreases |ps| + |qs|
  {
    if ps == [] then qs
    else if qs == [] then ps
    else if comp(ps[0].data, qs[0].data) then [ps[0]] + MergedNodes(ps[1..], qs, comp)
    else [qs[0]] + MergedNodes(ps, qs[1..], comp)
  }

  /** `MergeSort` on a chain of nodes: cut after its front half, sort both halves, merge. */
  ghost function SortedNodes(ns: seq<Node>, comp: (int, int) -> bool): seq<Node>
    decreases |ns|
  {
    if |ns| <= 1 then ns
    else
      var f := FrontLength(|ns|);
      MergedNodes(SortedNodes(ns[..f], comp), SortedNodes(ns[f..], comp), comp)
  }

  /** The merged chain is made of the nodes of both chains. */
  lemma {:induction false} MergedNodesPerm(ps: seq<Node>, qs: seq<Node>, comp: (int, int) -> bool)
    ensures multiset(MergedNodes(ps, qs, comp)) == multiset(ps) + multiset(qs)
    decreases |ps| + |qs|
  {
    if ps != [] && qs != [] {
      if comp(ps[0].data, qs[0].data) {
        var r := MergedNodes(ps[1..], qs, comp);
        MergedNodesPerm(ps[1..], qs, comp);
        assert MergedNodes(ps, qs, comp) == [ps[0]] + r;
        assert ps == [ps[0]] + ps[1..];
        assert multiset(ps) == multiset([ps[0]]) + multiset(ps[1..]);
      } else {
        var r := MergedNodes(ps, qs[1..], comp);
        MergedNodesPerm(ps, qs[1..], comp);
        assert MergedNodes(ps, qs, comp) == [qs[0]] + r;
        assert qs == [qs[0]] + qs[1..];
        assert multiset(qs) == multiset([qs[0]]) + multiset(qs[1..]);
      }
    }
  }

  /** The values of the merged chain are the merge of the two chains' values. */
  lemma {:induction false} MergedNodesVals(ps: seq<Node>, qs: seq<Node>, comp: (int, int) -> bool)
    ensures Vals(MergedNodes(ps, qs, comp)) == Merged(Vals(ps), Vals(qs), comp)
    decreases |ps| + |qs|
  {
    if ps != [] && qs != [] {
      ValsAt(ps, 0);
      ValsAt(qs, 0);
      if comp(ps[0].data, qs[0].data) {
        MergedNodesVals(ps[1..], qs, comp);
        assert Vals(ps)[1..] == Vals(ps[1..]);
      } else {
        MergedNodesVals(ps, qs[1..], comp);
        assert Vals(qs)[1..] == Vals(qs[1..]);
      }
    }
  }

  lemma {:induction false} ValsAppend(a: seq<Node>, b: seq<Node>)
    ensures Vals(a + b) == Vals(a) + Vals(b)
    decreases |a|
  {
    if a == [] {
      assert a + b == b;
    } else {
      ValsAppend(a[1..], b);
      assert (a + b)[0] == a[0] && (a + b)[1..] == a[1..] + b;
      assert Vals(a + b) == [a[0].data] + Vals(a[1..] + b);
    }
  }

  /** The sorted chain is made of the nodes of the chain. */
  lemma {:induction false} SortedNodesPerm(ns: seq<Node>, comp: (int, int) -> bool)
    ensures multiset(SortedNodes(ns, comp)) == multiset(ns)
    decreases |ns|
  {
    if |ns| > 1 {
      var f := FrontLength(|ns|);
      var front, back := ns[..f], ns[f..];
      SortedNodesPerm(front, comp);
      SortedNodesPerm(back, comp);
      MergedNodesPerm(SortedNodes(front, comp), SortedNodes(back, comp), comp);
      assert ns == front + back;
    }
  }

  /** The values of the sorted chain are the merge sort of the chain's values. */
  lemma {:induction false} SortedNodesVals(ns: seq<Node>, comp: (int, int) -> bool)
    ensures Vals(SortedNodes(ns, comp)) == MergeSorted(Vals(ns), comp)
    decreases |ns|
  {
    if |ns| > 1 {
      var f := FrontLength(|ns|);
      var front, back := ns[..f], ns[f..];
      SortedNodesVals(front, comp);
      SortedNodesVals(back, comp);
      MergedNodesVals(SortedNodes(front, comp), SortedNodes(back, comp), comp);
      ValsSplit(ns, f);
    }
  }

  /** The values of the two halves of `ns` are the two halves of its values. */
  lemma ValsSplit(ns: seq<Node>, f: nat)
    requires f <= |ns|
    ensures Vals(ns)[..f] == Vals(ns[..f]) && Vals(ns)[f..] == Vals(ns[f..])
  {
    assert ns == ns[..f] + ns[f..];
    ValsAppend(ns[..f], ns[f..]);
  }

  /** A sequence with no repeated node holds each node at most once. */
  lemma {:induction false} DistinctCount(ns: seq<Node>, x: Node)
    requires Distinct(ns)
    ensures multiset(ns)[x] <= 1
    decreases |ns|
  {
    if ns != [] {
      HeadGone(ns);
      DistinctCount(ns[1..], x);
      assert ns == [ns[0]] + ns[1..];
    }
  }

  /** A node at two positions is counted twice. */
  lemma TwiceCount(ns: seq<Node>, i: nat, j: nat)
    requires i < j < |ns| && ns[i] == ns[j]
    ensures multiset(ns)[ns[i]] >= 2
  {
    assert ns == ns[..j] + ns[j..];
    assert ns[i] in ns[..j] && ns[j] in ns[j..];
  }

  /** Rearranging a sequence with no repeated node gives one with no repeated node. */
  lemma DistinctPerm(ns: seq<Node>, rs: seq<Node>)
    requires Distinct(ns) && multiset(rs) == multiset(ns)
    ensures Distinct(rs)
  {
    forall i, j | 0 <= i < |rs| && 0 <= j < |rs| && i != j
      ensures Apart(rs, i, j)
    {
      if rs[i] == rs[j] {
        if i < j { TwiceCount(rs, i, j); } else { TwiceCount(rs, j, i); }
        DistinctCount(ns, rs[i]);
      }
    }
  }

  /** The first node of a sequence with no repeated node is not among the others. */
  lemma HeadGone(ns: seq<Node>)
    requires Distinct(ns) && ns != []
    ensures ns[0] !in ns[1..] && Distinct(ns[1..])
  {
    var r := ns[1..];
    forall j | 0 <= j < |r|
      ensures r[j] != ns[0]
    {
      assert Apart(ns, 0, j + 1);
    }
    DistinctSlice(ns, 1, |ns|);
    assert ns[1..|ns|] == r;
  }

  /**
   * What `MergeSort` needs of a half once it is sorted: `sa`, a
   * rearrangement of the half `front` of `ns`, repeats no node, holds only
   * nodes of `ns`, and shares none with `other`, which `front` does not meet.
   */
  lemma HalfSorted(front: seq<Node>, sa: seq<Node>, ns: seq<Node>, other: seq<Node>, stop: Node)
    requires Distinct(front) && stop !in front && multiset(sa) == multiset(front)
    requires forall m :: m in front ==> m !in other && m in ns
    ensures Distinct(sa) && stop !in sa
    ensures forall i :: 0 <= i < |sa| ==> sa[i] !in other
    ensures forall m :: m in sa ==> m in ns && m !in other
  {
    DistinctPerm(front, sa);
    forall m | m in sa
      ensures m in front
    {
      assert m in multiset(sa);
    }
    forall i | 0 <= i < |sa|
      ensures sa[i] !in other
    {
      assert sa[i] in sa;
    }
    assert stop !in multiset(front);
  }

  /** The two halves `front` and `back` of a sequence with no repeated node share no node. */
  lemma HalvesApart(ns: seq<Node>, f: nat, front: seq<Node>, back: seq<Node>)
    requires Distinct(ns) && f <= |ns| && front == ns[..f] && back == ns[f..]
    ensures Distinct(front) && Distinct(back)
    ensures forall i :: 0 <= i < |back| ==> back[i] !in front
    ensures forall m :: m in front ==> m !in back && m in ns
    ensures forall m :: m in back ==> m in ns
  {
    DistinctSlice(ns, 0, f);
    DistinctSlice(ns, f, |ns|);
    assert ns[0..f] == front && ns[f..|ns|] == back;
    forall p | 0 <= p < |front|
      ensures front[p] !in back && front[p] in ns
    {
      assert front[p] == ns[p];
      forall q | 0 <= q < |back|
        ensures back[q] != front[p]
      {
        assert Apart(ns, p, f + q);
      }
    }
    forall q | 0 <= q < |back|
      ensures back[q] in ns
    {
      assert back[q] == ns[f + q];
    }
  }

  /** A node pointing at the first node of a chain it is not part of starts a longer chain. */
  lemma ChainCons(a: Node, rr: seq<Node>, stop: Node)
    requires Chain(rr, stop) && a.next == First(rr, stop)
    ensures Chain([a] + rr, stop)
  {
    var w := [a] + rr;
    forall i | 0 <= i < |w|
      ensures Link(w, stop, i)
    {
      if i > 0 {
        assert Link(rr, stop, i - 1);
      }
    }
  }

  /** The interior node `ns[m]` has had its links exchanged: `next` points back and `prev` forward. */
  ghost predicate Flipped(ns: seq<Node>, m: nat)
    requires 0 < m < |ns| - 1
    reads ns[m]
  {
    ns[m].next == ns[m - 1] && ns[m].prev == ns[m + 1]
  }

  /** The interior node `ns[m]` still points forward through `next` and back through `prev`. */
  ghost predicate Fwd(ns: seq<Node>, m: nat)
    requires 0 < m < |ns| - 1
    reads ns[m]
  {
    ns[m].next == ns[m + 1] && ns[m].prev == ns[m - 1]
  }

  /**
   * Once every interior node of `ns` is flipped, and the two ends point
   * inwards through the opposite field, the reversed sequence is linked.
   */
  lemma FlippedLinked(ns: seq<Node>)
    requires |ns| >= 2 && forall m :: 0 < m < |ns| - 1 ==> Flipped(ns, m)
    requires ns[0].prev == ns[1] && ns[|ns| - 1].next == ns[|ns| - 2]
    ensures Linked(Reversed(ns))
  {
    var rv, n := Reversed(ns), |ns|;
    forall i | 0 <= i < n - 1
      ensures Step(rv, i)
    {
      ReversedAt(ns, i);
      ReversedAt(ns, i + 1);
      var j := n - 1 - i;
      var a, b := ns[j], ns[j - 1];
      assert rv[i] == a && rv[i + 1] == b;
      if j < n - 1 {
        assert Flipped(ns, j);
      }
      assert a.next == b;
      if j - 1 > 0 {
        assert Flipped(ns, j - 1);
      }
      assert b.prev == a;
    }
  }

  /** Reversing a sequence of distinct nodes and the values they carry keeps both properties. */
  lemma ReversedShape(ns: seq<Node>, cs: seq<int>)
    requires Distinct(ns) && Carries(ns, cs)
    ensures Distinct(Reversed(ns)) && Carries(Reversed(ns), Reversed(cs))
  {
    var rv, rc, n := Reversed(ns), Reversed(cs), |ns|;
    forall i, j | 0 <= i < n && 0 <= j < n && i != j
      ensures Apart(rv, i, j)
    {
      ReversedAt(ns, i);
      ReversedAt(ns, j);
      assert Apart(ns, n - 1 - i, n - 1 - j);
    }
    forall i | 0 <= i < |rc|
      ensures Holds(rv, rc, i)
    {
      ReversedAt(cs, i);
      ReversedAt(ns, i + 1);
      assert Holds(ns, cs, |cs| - 1 - i);
    }
  }

  /** The first node of a chain points at the first node of the rest. */
  lemma ChainRest(ns: seq<Node>, stop: Node)
    requires Chain(ns, stop) && ns != []
    ensures Chain(ns[1..], stop) && ns[0].next == First(ns[1..], stop)
  {
    var r := ns[1..];
    forall i | 0 <= i < |r|
      ensures Link(r, stop, i)
    {
      assert r[i] == ns[i + 1] && Link(ns, stop, i + 1);
    }
    assert Link(ns, stop, 0);
  }


  /**
   * The node sequence `ns` is a chain from the sentinel `h` to the sentinel
   * `t` whose element nodes hold `cs`, and `size` counts them.
   */
  ghost predicate Shaped(ns: seq<Node>, cs: seq<int>, h: Node, t: Node, size: nat)
    reads ns
  {
    && |ns| >= 2 && ns[0] == h && ns[|ns| - 1] == t
    && Distinct(ns)
    && Linked(ns)
    && Carries(ns, cs)
    && size == |cs|
  }

  /** Two different sentinels linked to each other make an empty list. */
  lemma Sentinels(h: Node, t: Node)
    requires h != t && h.next == t && t.prev == h
    ensures Shaped([h, t], [], h, t, 0)
  {
    assert Step([h, t], 0);
    forall i, j | 0 <= i < 2 && 0 <= j < 2 && i != j
      ensures Apart([h, t], i, j)
    {
    }
  }

  /** A list none of whose objects has changed is still well formed and holds the same chain. */
  twostate lemma Untouched(x: List)
    requires old(x.Valid()) && unchanged(x) && unchanged(old(x.Repr()))
    ensures x.Valid() && x.Nodes == old(x.Nodes) && x.Contents == old(x.Contents)
  {
  }

  /** Two lists share no object exactly when they are different lists with no node in common. */
  lemma Separate(a: List, b: List)
    ensures a.Repr() !! b.Repr() <==> a != b && forall m :: m in a.Nodes ==> m !in b.Nodes
  {
    if a.Repr() !! b.Repr() {
      assert a in a.Repr();
      forall m | m in a.Nodes
        ensures m !in b.Nodes
      {
        assert m in a.Repr();
      }
    }
  }

  class List {
    var head: Node
    var tail: Node
    var size: nat
    ghost var Nodes: seq<Node>
    ghost var Contents: seq<int>

    ghost function Repr(): set<object>
      reads this
    {
      {this} + set n: object | n in Nodes
    }

    ghost predicate Valid()
      reads this, Repr()
    {
      Shaped(Nodes, Contents, head, tail, size)
    }

    /** The default constructor: two sentinels linked to each other. */
    constructor ()
      ensures Valid() && fresh(Repr()) && Contents == []
    {
      var h := new Node(0);
      var t := new Node(0);
      h.next := t;
      t.prev := h;
      head, tail, size := h, t, 0;
      Nodes, Contents := [h, t], [];
      Sentinels(h, t);
    }

    /** The fill constructor: an empty list, then `assign(n, val)`. */
    constructor Fill(n: nat, val: int)
      ensures Valid() && fresh(Repr()) && Contents == Repeat(val, n)
    {
      var h := new Node(0);
      var t := new Node(0);
      h.next := t;
      t.prev := h;
      head, tail, size := h, t, 0;
      Nodes, Contents := [h, t], [];
      Sentinels(h, t);
      new;
      AssignFill(n, val);
    }

    /** The range constructor: an empty list, then `assign(first, last)` for a range holding `values`. */
    constructor FromRange(values: seq<int>)
      ensures Valid() && fresh(Repr()) && Contents == values
    {
      var h := new Node(0);
      var t := new Node(0);
      h.next := t;
      t.prev := h;
      head, tail, size := h, t, 0;
      Nodes, Contents := [h, t], [];
      Sentinels(h, t);
      new;
      Assign(values);
    }

    /** The copy constructor: an empty list, then `assign(x.begin(), x.end())`. */
    constructor Copy(x: List)
      requires x.Valid()
      ensures Valid() && fresh(Repr()) && Contents == old(x.Contents)
    {
      var values := x.Read();
      var h := new Node(0);
      var t := new Node(0);
      h.next := t;
      t.prev := h;
      head, tail, size := h, t, 0;
      Nodes, Contents := [h, t], [];
      Sentinels(h, t);
      new;
      assert Repr() == {this, h, t};
      Assign(values);
    }

    /**
     * `operator=(x)`: clear, replace both sentinels by new ones, then
     * assign the range of `x`.  When `x` is this list, that range is read
     * only after the clearing, so the list ends up empty.
     */
    method CopyAssign(x: List)
      requires Valid() && x.Valid() && (x == this || Repr() !! x.Repr())
      modifies Repr()
      ensures Valid() && (x != this ==> x.Valid() && x.Contents == old(x.Contents))
      ensures x == this ==> Contents == []
      ensures x != this ==> Contents == old(x.Contents)
    {
      Clear();
      Renew();
      if x != this {
        Untouched(x);
      }
      var values := x.Read();
      label read:
      Assign(values);
      if x != this {
        Untouched@read(x);
      }
    }

    /** The middle of `operator=`: the old sentinels are dropped and two new ones linked. */
    method Renew()
      modifies this
      ensures Valid() && Contents == [] && fresh(Repr() - {this})
    {
      var h := new Node(0);
      var t := new Node(0);
      h.next := t;
      t.prev := h;
      head, tail, size := h, t, 0;
      Nodes, Contents := [h, t], [];
      Sentinels(h, t);
    }

    /** `operator=(x)` as it is meant to behave: assigning a list to itself leaves it alone. */
    method CopyAssignChecked(x: List)
      requires Valid() && x.Valid() && (x == this || Repr() !! x.Repr())
      modifies Repr()
      ensures Valid() && x.Valid() && x.Contents == old(x.Contents)
      ensures Contents == old(x.Contents)
    {
      if x != this {
        CopyAssign(x);
      }
    }

    /** The values of the range `[begin(), end())`, read by walking it. */
    method Read() returns (values: seq<int>)
      requires Valid()
      ensures values == Contents
    {
      values := [];
      var curr := Begin();
      ghost var i: nat := 0;
      while curr != tail
        invariant i <= |Contents| && curr == Nodes[i + 1] && values == Contents[..i]
        decreases |Contents| - i
      {
        if i == |Contents| {
          assert false;
        }
        assert Holds(Nodes, Contents, i) && Step(Nodes, i + 1);
        assert Contents[..i + 1] == Contents[..i] + [Contents[i]];
        values := values + [curr.data];
        curr := curr.next;
        i := i + 1;
      }
      SameNode(Nodes, i + 1, |Nodes| - 1);
    }

    function Begin(): (it: Node)
      reads this, Repr()
      requires Valid()
      ensures it == Nodes[1]
    {
      assert Step(Nodes, 0);
      head.next
    }

    function End(): (it: Node)
      reads this, Repr()
      requires Valid()
      ensures it == Nodes[|Nodes| - 1]
    {
      tail
    }

    function Empty(): (r: bool)
      reads this, Repr()
      requires Valid()
      ensures r <==> Contents == []
    {
      size == 0
    }

    function Size(): (r: nat)
      reads this, Repr()
      requires Valid()
      ensures r == |Contents|
    {
      size
    }

    /** `front()`: the value of the first node after the head sentinel. */
    function Front(): (r: int)
      reads this, Repr()
      requires Valid()
      ensures Contents != [] ==> r == Contents[0]
    {
      assert Step(Nodes, 0);
      assert Contents != [] ==> Holds(Nodes, Contents, 0);
      head.next.data
    }

    /** `back()`: the value of the node before the tail sentinel. */
    function Back(): (r: int)
      reads this, Repr()
      requires Valid()
      ensures Contents != [] ==> r == Contents[|Contents| - 1]
    {
      assert Step(Nodes, |Nodes| - 2);
      assert Contents != [] ==> Holds(Nodes, Contents, |Contents| - 1);
      tail.prev.data
    }

    /** `insert(position, val)`: link a new node in front of `position`. */
    method Insert(position: Node, val: int, ghost k: nat) returns (it: Node)
      requires Valid()
      requires k <= |Contents| && Nodes[k + 1] == position
      modifies Repr()
      ensures Valid() && fresh(it) && fresh(Repr() - old(Repr()))
      ensures Nodes == old(Nodes[..k + 1]) + [it] + old(Nodes[k + 1..])
      ensures Contents == old(Contents[..k]) + [val] + old(Contents[k..])
    {
      var item := new Node(val);
      assert Step(Nodes, k);
      Attach(position, item, k);
      it := item;
    }

    /**
     * The relinking shared by `insert` and the single-element `splice`: the
     * node `item`, which is not in this list, goes in front of `position`
     * and the counter goes up by one.
     */
    method Attach(position: Node, item: Node, ghost k: nat)
      requires Valid()
      requires k <= |Contents| && Nodes[k + 1] == position && item !in Nodes
      modifies this, item, position, position.prev
      ensures Valid()
      ensures Nodes == old(Nodes[..k + 1]) + [item] + old(Nodes[k + 1..])
      ensures Contents == old(Contents[..k]) + [item.data] + old(Contents[k..])
    {
      assert Step(Nodes, k);
      ghost var ns, cs := Nodes, Contents;
      item.next := position;
      item.prev := position.prev;
      position.prev.next := item;
      position.prev := item;
      size := size + 1;
      Nodes := Nodes[..k + 1] + [item] + Nodes[k + 1..];
      Contents := Contents[..k] + [item.data] + Contents[k..];
      DistinctInsert(ns, k + 1, item);
      ghost var seg := [item];
      SpliceLinked(Graft(ns, k, seg));
      forall i | 0 <= i < |Contents|
        ensures Holds(Nodes, Contents, i)
      {
        if i < k {
          assert Nodes[i + 1] == ns[i + 1] && Holds(ns, cs, i);
        } else if i > k {
          assert Nodes[i + 1] == ns[i] && Holds(ns, cs, i - 1);
        }
      }
    }

    /**
     * The relinking shared by `erase`, `remove`, `remove_if` and `unique`:
     * the neighbours of the node at position `k` are linked to each other
     * and the counter goes down by one.
     */
    method Unlink(n: Node, ghost k: nat)
      requires Valid()
      requires k < |Contents| && Nodes[k + 1] == n
      modifies this, n.prev, n.next
      ensures Valid() && Repr() <= old(Repr())
      ensures Nodes == old(Nodes[..k + 1] + Nodes[k + 2..])
      ensures Contents == old(Contents[..k] + Contents[k + 1..])
    {
      assert Step(Nodes, k) && Step(Nodes, k + 1);
      ghost var ns, cs := Nodes, Contents;
      n.prev.next := n.next;
      n.next.prev := n.prev;
      size := size - 1;
      Nodes := Nodes[..k + 1] + Nodes[k + 2..];
      Contents := Contents[..k] + Contents[k + 1..];
      DistinctRemove(ns, k + 1);
      CutLinked(Gap(ns, k, k + 2));
      forall i | 0 <= i < |Contents|
        ensures Holds(Nodes, Contents, i)
      {
        if i < k {
          assert Nodes[i + 1] == ns[i + 1] && Holds(ns, cs, i);
        } else {
          assert Nodes[i + 1] == ns[i + 2] && Holds(ns, cs, i + 1);
        }
      }
    }

    /**
     * `erase(position)`: on an empty list nothing happens and the null
     * iterator comes back; otherwise the node at `position` is unlinked and
     * its successor is returned.
     */
    method Erase(position: Node, ghost k: nat) returns (it: Node?)
      requires Valid()
      requires Contents != [] ==> k < |Contents| && Nodes[k + 1] == position
      modifies if Contents == [] then {} else {this, position.prev, position.next}
      ensures Valid() && Repr() <= old(Repr())
      ensures old(Contents) == [] ==> it == null && Nodes == old(Nodes) && Contents == []
      ensures old(Contents) != [] ==>
        && it == old(Nodes[k + 2])
        && Nodes == old(Nodes[..k + 1] + Nodes[k + 2..])
        && Contents == old(Contents[..k] + Contents[k + 1..])
    {
      if size == 0 {
        return null;
      }
      assert Step(Nodes, k) && Step(Nodes, k + 1);
      it := position.next;
      Unlink(position, k);
    }

    /** `erase(first, last)`: erase node by node, remembering the next one before each erase. */
    method EraseRange(first: Node, last: Node, ghost i: nat, ghost j: nat) returns (it: Node)
      requires Valid()
      requires i <= j <= |Contents| && Nodes[i + 1] == first && Nodes[j + 1] == last
      modifies Repr()
      ensures Valid() && Repr() <= old(Repr())
      ensures Contents == old(Contents[..i] + Contents[j..])
      ensures it == last && Nodes[i + 1] == last
    {
      var curr := first;
      ghost var gone := 0;
      ghost var cs := Contents;
      SplitAt(cs, i);
      while curr != last
        invariant Valid() && Repr() <= old(Repr())
        invariant 0 <= gone <= j - i
        invariant Contents == cs[..i] + cs[i + gone..]
        invariant curr == Nodes[i + 1] && last == Nodes[j + 1 - gone]
        decreases j - i - gone
      {
        assert gone < j - i;
        assert Step(Nodes, i) && Step(Nodes, i + 1);
        var tmpNext := curr.next;
        ghost var cb := Contents;
        var _ := Erase(curr, i);
        DropNext(cs, cb, i, gone);
        curr := tmpNext;
        gone := gone + 1;
      }
      SameNode(Nodes, i + 1, j + 1 - gone);
      it := curr;
    }

    /** `insert(position, n, val)`: `n` copies of `val` in front of `position`. */
    method InsertFill(position: Node, n: nat, val: int, ghost k: nat)
      requires Valid()
      requires k <= |Contents| && Nodes[k + 1] == position
      modifies Repr()
      ensures Valid() && fresh(Repr() - old(Repr()))
      ensures Contents == old(Contents[..k]) + Repeat(val, n) + old(Contents[k..])
    {
      var curr := position;
      for i := 0 to n
        invariant Valid() && fresh(Repr() - old(Repr()))
        invariant k + i <= |Contents| && Nodes[k + i + 1] == curr
        invariant Contents == old(Contents[..k]) + Repeat(val, i) + old(Contents[k..])
      {
        ghost var cb := Contents;
        var item := Insert(curr, val, k + i);
        assert Nodes[k + i + 1] == item && Step(Nodes, k + i + 1);
        PutNextFill(cb, old(Contents[..k]), val, old(Contents[k..]), i, k + i);
        curr := item.next;
      }
    }

    /** `insert(position, first, last)` for an input range holding `values`. */
    method InsertRange(position: Node, values: seq<int>, ghost k: nat)
      requires Valid()
      requires k <= |Contents| && Nodes[k + 1] == position
      modifies Repr()
      ensures Valid() && fresh(Repr() - old(Repr()))
      ensures Contents == old(Contents[..k]) + values + old(Contents[k..])
    {
      var curr := position;
      for i := 0 to |values|
        invariant Valid() && fresh(Repr() - old(Repr()))
        invariant k + i <= |Contents| && Nodes[k + i + 1] == curr
        invariant Contents == old(Contents[..k]) + values[..i] + old(Contents[k..])
      {
        ghost var cb := Contents;
        var item := Insert(curr, values[i], k + i);
        assert Nodes[k + i + 1] == item && Step(Nodes, k + i + 1);
        PutNextOf(cb, old(Contents[..k]), values, old(Contents[k..]), i, k + i);
        curr := item.next;
      }
    }

    method PushFront(val: int)
      requires Valid()
      modifies Repr()
      ensures Valid() && fresh(Repr() - old(Repr()))
      ensures Contents == [val] + old(Contents)
    {
      var _ := Insert(Begin(), val, 0);
    }

    method PushBack(val: int)
      requires Valid()
      modifies Repr()
      ensures Valid() && fresh(Repr() - old(Repr()))
      ensures Contents == old(Contents) + [val]
    {
      var _ := Insert(tail, val, |Contents|);
    }

    /** `pop_front()`: `erase(begin())`, which leaves an empty list alone. */
    method PopFront()
      requires Valid()
      modifies Repr()
      ensures Valid() && Repr() <= old(Repr())
      ensures Nodes == if old(Contents) == [] then old(Nodes) else old([Nodes[0]] + Nodes[2..])
      ensures Contents == if old(Contents) == [] then [] else old(Contents[1..])
    {
      assert Step(Nodes, 0) && (Contents != [] ==> Step(Nodes, 1));
      var _ := Erase(Begin(), 0);
    }

    /** `pop_back()`: `erase(--end())`, which leaves an empty list alone. */
    method PopBack()
      requires Valid()
      modifies Repr()
      ensures Valid() && Repr() <= old(Repr())
      ensures Nodes == if old(Contents) == [] then old(Nodes)
                       else old(Nodes[..|Nodes| - 2] + [Nodes[|Nodes| - 1]])
      ensures Contents == if old(Contents) == [] then [] else old(Contents[..|Contents| - 1])
    {
      assert Step(Nodes, |Nodes| - 2) && (Contents != [] ==> Step(Nodes, |Nodes| - 3));
      var _ := Erase(tail.prev, if |Contents| == 0 then 0 else |Contents| - 1);
    }

    /** `clear()`: pop from the back until the counter says empty. */
    method Clear()
      requires Valid()
      modifies Repr()
      ensures Valid() && Contents == [] && Nodes == old([Nodes[0], Nodes[|Nodes| - 1]])
    {
      while !Empty()
        invariant Valid() && Repr() <= old(Repr())
        invariant Nodes[0] == old(Nodes[0]) && Nodes[|Nodes| - 1] == old(Nodes[|Nodes| - 1])
        decreases |Contents|
      {
        PopBack();
      }
    }

    /** `assign(first, last)`: clear, then insert the range at `begin()`. */
    method Assign(values: seq<int>)
      requires Valid()
      modifies Repr()
      ensures Valid() && fresh(Repr() - old(Repr()))
      ensures Contents == values
    {
      Clear();
      InsertRange(Begin(), values, 0);
    }

    /** `assign(n, val)`. */
    method AssignFill(n: nat, val: int)
      requires Valid()
      modifies Repr()
      ensures Valid() && fresh(Repr() - old(Repr()))
      ensures Contents == Repeat(val, n)
    {
      Clear();
      InsertFill(Begin(), n, val, 0);
    }

    /** `resize(n, val)`: pop from the back down to `n`, or push copies of `val` up to `n`. */
    method Resize(n: nat, val: int)
      requires Valid()
      modifies Repr()
      ensures Valid() && fresh(Repr() - old(Repr()))
      ensures Contents == if n <= old(|Contents|) then old(Contents[..n])
                          else old(Contents) + Repeat(val, n - old(|Contents|))
    {
      if n <= size {
        var sizeDiff := size - n;
        for i := 0 to sizeDiff
          invariant Valid() && Repr() <= old(Repr())
          invariant Contents == old(Contents[..|Contents| - i])
        {
          PopBack();
        }
      } else {
        for i := size to n
          invariant Valid() && fresh(Repr() - old(Repr()))
          invariant Contents == old(Contents) + Repeat(val, i - old(|Contents|))
        {
          PushBack(val);
        }
      }
    }

    /**
     * `splice(position, x, i)`: move the node `i` of the other list `x`
     * in front of `position`; both counters follow.
     */
    method SpliceOne(position: Node, x: List, i: Node, ghost k: nat, ghost j: nat)
      requires Valid() && x.Valid() && Repr() !! x.Repr()
      requires k <= |Contents| && Nodes[k + 1] == position
      requires j < |x.Contents| && x.Nodes[j + 1] == i
      modifies Repr(), x.Repr()
      ensures Valid() && x.Valid() && Repr() !! x.Repr()
      ensures Nodes == old(Nodes[..k + 1]) + [i] + old(Nodes[k + 1..])
      ensures x.Nodes == old(x.Nodes[..j + 1] + x.Nodes[j + 2..])
      ensures Contents == old(Contents[..k]) + [old(x.Contents[j])] + old(Contents[k..])
      ensures x.Contents == old(x.Contents[..j] + x.Contents[j + 1..])
    {
      ghost var xs := x.Nodes;
      assert Step(xs, j) && Step(xs, j + 1) && Holds(xs, x.Contents, j);
      assert i in x.Repr() && i.prev in x.Repr() && i.next in x.Repr();
      assert i !in Nodes;
      RemovedGone(xs, j + 1);
      x.Unlink(i, j);
      assert x.Repr() <= old(x.Repr());
      assert Step(Nodes, k);
      assert position.prev in Repr() && position.prev !in x.Repr();
      Attach(position, i, k);
    }

    /** `ft::distance(first, last)`: the number of `next` steps from `first` to `last`. */
    method Distance(first: Node, last: Node, ghost i: nat, ghost j: nat) returns (n: nat)
      requires Valid()
      requires i <= j <= |Contents| && Nodes[i + 1] == first && Nodes[j + 1] == last
      ensures n == j - i
    {
      var curr := first;
      n := 0;
      while curr != last
        invariant i + n <= j && curr == Nodes[i + 1 + n]
        decreases j - i - n
      {
        assert Step(Nodes, i + 1 + n);
        curr := curr.next;
        n := n + 1;
      }
      SameNode(Nodes, i + 1 + n, j + 1);
    }

    /**
     * The half of a range `splice` done on the list that gives the nodes
     * up: the node before `first` and `last` are linked to each other and
     * the counter goes down by the `n` nodes of `[first, last)`.
     */
    method CutRange(first: Node, last: Node, n: nat, ghost i: nat, ghost j: nat)
      requires Valid()
      requires i < j <= |Contents| && Nodes[i + 1] == first && Nodes[j + 1] == last && n == j - i
      modifies this, first.prev, last
      ensures Valid()
      ensures Nodes == old(Nodes[..i + 1] + Nodes[j + 1..])
      ensures Contents == old(Contents[..i] + Contents[j..])
      ensures Linked(old(Nodes[i + 1..j + 1])) && Repr() <= old(Repr())
    {
      assert Step(Nodes, i);
      ghost var ns, cs, seg := Nodes, Contents, Nodes[i + 1..j + 1];

      first.prev.next := last;
      last.prev := first.prev;
      size := size - n;
      Nodes := Nodes[..i + 1] + Nodes[j + 1..];
      Contents := Contents[..i] + Contents[j..];
      DistinctCut(ns, i + 1, j + 1);
      CutLinked(Gap(ns, i, j + 1));
      CarriesCut(ns, cs, i, j);
    }

    /**
     * The half of a range `splice` done on the receiving list: the linked
     * chain `seg`, running from `first` to `lastElem` and made of nodes
     * that are not in this list, goes in front of `position`, and the
     * counter goes up by its length `n`.
     */
    method AttachRange(position: Node, first: Node, lastElem: Node, n: nat, ghost seg: seq<Node>, ghost k: nat)
      requires Valid()
      requires k <= |Contents| && Nodes[k + 1] == position
      requires seg != [] && seg[0] == first && seg[|seg| - 1] == lastElem && n == |seg|
      requires Linked(seg) && Distinct(seg) && forall m :: m in seg ==> m !in Nodes
      modifies this, position, position.prev, first, lastElem
      ensures Valid()
      ensures Nodes == old(Nodes[..k + 1]) + seg + old(Nodes[k + 1..])
      ensures Contents == old(Contents[..k]) + Vals(seg) + old(Contents[k..])
      ensures Repr() <= old(Repr()) + set m: object | m in seg
    {
      assert Step(Nodes, k);
      ghost var ns, cs, vs := Nodes, Contents, Vals(seg);
      assert first !in ns && lastElem !in ns by {
        assert first in seg && lastElem in seg;
      }
      position.prev.next := first;
      first.prev := position.prev;
      position.prev := lastElem;
      lastElem.next := position;
      size := size + n;
      Nodes := Nodes[..k + 1] + seg + Nodes[k + 1..];
      Contents := Contents[..k] + vs + Contents[k..];
      DistinctSplice(ns, k + 1, seg);
      SpliceLinked(Graft(ns, k, seg));
      CarriesSplice(ns, cs, k, seg);
    }

    /**
     * `splice(position, x, first, last)` as it is evidently meant: the
     * nodes of `[first, last)` move from `x` in front of `position`, both
     * counters change by the length of the range, measured before any link
     * changes, and an empty range changes nothing.
     */
    method SpliceRange(position: Node, x: List, first: Node, last: Node, ghost k: nat, ghost i: nat, ghost j: nat)
      requires Valid() && x.Valid() && Repr() !! x.Repr()
      requires k <= |Contents| && Nodes[k + 1] == position
      requires i <= j <= |x.Contents| && x.Nodes[i + 1] == first && x.Nodes[j + 1] == last
      modifies Repr(), x.Repr()
      ensures Valid() && x.Valid() && Repr() !! x.Repr()
      ensures Nodes == old(Nodes[..k + 1] + x.Nodes[i + 1..j + 1] + Nodes[k + 1..])
      ensures x.Nodes == old(x.Nodes[..i + 1] + x.Nodes[j + 1..])
      ensures Contents == old(Contents[..k] + x.Contents[i..j] + Contents[k..])
      ensures x.Contents == old(x.Contents[..i] + x.Contents[j..])
    {
      var n := x.Distance(first, last, i, j);
      if n == 0 {
        EmptySlice(Nodes, Contents, k, x.Nodes, x.Contents, i);
        return;
      }
      ghost var xs, xc, ns, cs := x.Nodes, x.Contents, Nodes, Contents;
      ghost var seg := xs[i + 1..j + 1];
      assert Step(xs, i) && Step(xs, j);
      var lastElem := last.prev;
      assert forall m :: m in ns ==> m !in xs by {
        Separate(this, x);
      }
      MovePrep(ns, xs, xc, seg, k, i, j);
      assert first.prev in x.Repr() && last in x.Repr();
      assert first in x.Repr() && lastElem in x.Repr();
      assert Step(ns, k) && position.prev in Repr();
      x.CutRange(first, last, n, i, j);
      Receive(position, x, first, lastElem, n, seg, k);
    }

    /**
     * The second half of a range `splice`: `AttachRange` on this list,
     * with the list `x` the chain came from left as it is.
     */
    method Receive(position: Node, x: List, first: Node, lastElem: Node, n: nat, ghost seg: seq<Node>, ghost k: nat)
      requires Valid() && x.Valid() && this != x
      requires k <= |Contents| && Nodes[k + 1] == position
      requires seg != [] && seg[0] == first && seg[|seg| - 1] == lastElem && n == |seg|
      requires Linked(seg) && Distinct(seg)
      requires forall m :: m in Nodes ==> m !in x.Nodes
      requires forall m :: m in seg ==> m !in x.Nodes
      requires forall m :: m in seg ==> m !in Nodes
      modifies this, position, position.prev, first, lastElem
      ensures Valid() && x.Valid() && Repr() !! x.Repr()
      ensures Nodes == old(Nodes[..k + 1]) + seg + old(Nodes[k + 1..])
      ensures Contents == old(Contents[..k]) + Vals(seg) + old(Contents[k..])
      ensures x.Nodes == old(x.Nodes) && x.Contents == old(x.Contents)
    {
      assert first in seg && lastElem in seg;
      assert Step(Nodes, k);
      assert position.prev in Nodes;
      assert Nodes[k + 1] in Nodes;
      ghost var ns := Nodes;
      label before:
      AttachRange(position, first, lastElem, n, seg, k);
      Untouched@before(x);
      assert forall m :: m in Nodes ==> m !in x.Nodes by {
        forall m | m in Nodes
          ensures m !in x.Nodes
        {
          assert m in ns[..k + 1] || m in seg || m in ns[k + 1..];
        }
      }
      Separate(this, x);
    }

    /** `splice(position, x)`: the whole of `x`, as the range `[x.begin(), x.end())`. */
    method SpliceAll(position: Node, x: List, ghost k: nat)
      requires Valid() && x.Valid() && Repr() !! x.Repr()
      requires k <= |Contents| && Nodes[k + 1] == position
      modifies Repr(), x.Repr()
      ensures Valid() && x.Valid() && Repr() !! x.Repr()
      ensures Contents == old(Contents[..k] + x.Contents + Contents[k..])
      ensures x.Contents == []
    {
      ghost var xc := x.Contents;
      SpliceRange(position, x, x.Begin(), x.End(), k, 0, |x.Contents|);
      assert xc[0..|xc|] == xc;
    }

    /**
     * `merge(x, comp)`: walk both lists once; before each node of `x` skip
     * the nodes of this list that `comp` puts first, then splice that node
     * in; what is left of `x` at the end goes to the back. Merging a list
     * into itself does nothing.
     */
    method MergeBy(x: List, comp: (int, int) -> bool)
      requires Valid() && x.Valid() && (x == this || Repr() !! x.Repr())
      modifies Repr(), x.Repr()
      ensures Valid() && x.Valid()
      ensures x == this ==> Contents == old(Contents)
      ensures x != this ==> Repr() !! x.Repr() && x.Contents == []
      ensures x != this ==> Contents == Merged(old(Contents), old(x.Contents), comp)
      ensures x != this && StrictWeakOrder(comp) ==>
                (SortedBy(old(Contents), comp) && SortedBy(old(x.Contents), comp) ==> SortedBy(Contents, comp))
    {
      if x == this {
        return;
      }
      ghost var target := Merged(Contents, x.Contents, comp);
      ghost var placed: seq<int> := [];
      ghost var rest := Contents;
      assert Step(Nodes, 0) && Step(x.Nodes, 0);
      var curr := head.next;
      var other := x.head.next;
      while curr != tail && other != x.tail
        invariant Valid() && x.Valid() && Repr() !! x.Repr()
        invariant Repr() <= old(Repr()) + old(x.Repr()) && x.Repr() <= old(x.Repr())
        invariant Contents == placed + rest && target == placed + Merged(rest, x.Contents, comp)
        invariant curr == Nodes[|placed| + 1] && other == x.Nodes[1]
        decreases |x.Contents|
      {
        assert x.Contents != [];
        curr, other, placed, rest := MergeStep(curr, x, other, comp, target, placed, rest);
      }
      MergeFinish(curr, x, other, comp, target, placed, rest);
      if StrictWeakOrder(comp) && SortedBy(old(Contents), comp) && SortedBy(old(x.Contents), comp) {
        MergedSortedBy(old(Contents), old(x.Contents), comp);
      }
    }

    /**
     * The end of `merge`: once one of the two walks reached its tail
     * sentinel, what is left of `x` goes in front of `curr`, which is then
     * the tail of this list.
     */
    method MergeFinish(curr: Node, x: List, other: Node, comp: (int, int) -> bool, ghost target: seq<int>,
                       ghost placed: seq<int>, ghost rest: seq<int>)
      requires Valid() && x.Valid() && Repr() !! x.Repr() && (curr == tail || other == x.tail)
      requires Contents == placed + rest && target == placed + Merged(rest, x.Contents, comp)
      requires curr == Nodes[|placed| + 1] && other == x.Nodes[1]
      modifies Repr(), x.Repr()
      ensures Valid() && x.Valid() && Repr() !! x.Repr()
      ensures Contents == target && x.Contents == []
    {
      if other != x.tail {
        SameNode(Nodes, |placed| + 1, |Nodes| - 1);
        assert rest == [];
        ghost var xc := x.Contents;
        SpliceRange(curr, x, other, x.End(), |placed|, 0, |x.Contents|);
        assert xc[0..|xc|] == xc;
      } else {
        SameNode(x.Nodes, 1, |x.Nodes| - 1);
        assert rest + [] == rest;
      }
    }

    /** `merge(x)`: `merge` with `<` as the order. */
    method Merge(x: List)
      requires Valid() && x.Valid() && (x == this || Repr() !! x.Repr())
      modifies Repr(), x.Repr()
      ensures Valid() && x.Valid()
      ensures x == this ==> Contents == old(Contents)
      ensures x != this ==> Repr() !! x.Repr() && x.Contents == []
      ensures x != this ==> Contents == Merged(old(Contents), old(x.Contents), Lt)
      ensures x != this && Sorted(old(Contents)) && Sorted(old(x.Contents)) ==> Sorted(Contents)
    {
      MergeBy(x, Lt);
      if x != this && Sorted(old(Contents)) && Sorted(old(x.Contents)) {
        MergedSorted(old(Contents), old(x.Contents));
      }
    }

    /**
     * One turn of the outer `merge` loop: the inner walk, then the splice
     * of `other`, the head of `x`. `target` is the merge of the two lists
     * as they were; `placed` is the part of it already in place in front
     * of `curr`, and `rest` this list from `curr` on.
     */
    method MergeStep(curr: Node, x: List, other: Node, comp: (int, int) -> bool, ghost target: seq<int>,
                     ghost placed: seq<int>, ghost rest: seq<int>)
      returns (curr': Node, otherNext: Node, ghost placed': seq<int>, ghost rest': seq<int>)
      requires Valid() && x.Valid() && Repr() !! x.Repr() && x.Contents != []
      requires Contents == placed + rest && target == placed + Merged(rest, x.Contents, comp)
      requires curr == Nodes[|placed| + 1] && other == x.Nodes[1]
      modifies Repr(), x.Repr()
      ensures Valid() && x.Valid() && Repr() !! x.Repr()
      ensures Repr() <= old(Repr()) + old(x.Repr()) && x.Repr() <= old(x.Repr())
      ensures Contents == placed' + rest' && target == placed' + Merged(rest', x.Contents, comp)
      ensures curr' == Nodes[|placed'| + 1] && otherNext == x.Nodes[1]
      ensures |x.Contents| < old(|x.Contents|)
    {
      Ahead(x.Nodes, x.Contents, [], x.Contents);
      ghost var moved;
      curr', moved, rest' := MergeSkip(curr, other, comp, placed, rest);
      SkipFacts(Contents, target, x.Contents, placed, moved, rest, rest', comp);
      otherNext, placed' := MergeTake(curr', x, other, comp, target, placed + moved, rest');
    }

    /**
     * The inner walk of `merge`: advance `curr` over the nodes of this list
     * that `comp` puts before `other`. The nodes up to `curr` hold `placed`,
     * the ones from `curr` on `rest`; the walk passes over `moved`.
     */
    method MergeSkip(curr: Node, other: Node, comp: (int, int) -> bool, ghost placed: seq<int>, ghost rest: seq<int>)
      returns (c: Node, ghost moved: seq<int>, ghost rest': seq<int>)
      requires Valid() && Contents == placed + rest && curr == Nodes[|placed| + 1]
      ensures rest == moved + rest' && c == Nodes[|placed| + |moved| + 1]
      ensures forall i :: 0 <= i < |moved| ==> comp(moved[i], other.data)
      ensures rest' == [] || !comp(rest'[0], other.data)
    {
      c := curr;
      ghost var k := 0;
      while c != tail && comp(c.data, other.data)
        invariant k <= |rest| && c == Nodes[|placed| + k + 1]
        invariant forall i :: 0 <= i < k ==> comp(rest[i], other.data)
        decreases |rest| - k
      {
        assert |placed| + k < |Contents|;
        assert Holds(Nodes, Contents, |placed| + k) && Step(Nodes, |placed| + k + 1);
        c := c.next;
        k := k + 1;
      }
      if c == tail {
        SameNode(Nodes, |placed| + k + 1, |Nodes| - 1);
      } else {
        assert Holds(Nodes, Contents, |placed| + k);
      }
      moved, rest' := rest[..k], rest[k..];
      assert rest == moved + rest';
    }

    /**
     * The splice step of `merge`: move `other`, the head of `x`, in front of
     * `curr`, and go on with the node after it.
     */
    method MergeTake(curr: Node, x: List, other: Node, comp: (int, int) -> bool, ghost target: seq<int>,
                     ghost placed: seq<int>, ghost rest: seq<int>)
      returns (otherNext: Node, ghost placed': seq<int>)
      requires Valid() && x.Valid() && Repr() !! x.Repr()
      requires x.Contents != [] && (rest == [] || !comp(rest[0], x.Contents[0]))
      requires Contents == placed + rest && target == placed + Merged(rest, x.Contents, comp)
      requires curr == Nodes[|placed| + 1] && other == x.Nodes[1]
      modifies Repr(), x.Repr()
      ensures Valid() && x.Valid() && Repr() !! x.Repr()
      ensures Repr() <= old(Repr()) + old(x.Repr()) && x.Repr() <= old(x.Repr())
      ensures Contents == placed' + rest && target == placed' + Merged(rest, x.Contents, comp)
      ensures curr == Nodes[|placed'| + 1] && otherNext == x.Nodes[1]
      ensures |x.Contents| < old(|x.Contents|)
    {
      ghost var ns, xs, cb, xc := Nodes, x.Nodes, Contents, x.Contents;
      assert Step(xs, 1);
      otherNext := other.next;
      SpliceOne(curr, x, other, |placed|, 0);
      placed' := placed + [xc[0]];
      MergedTakeRight(rest, xc, placed, target, comp);
      TakeFacts(ns, Nodes, xs, x.Nodes, cb, Contents, xc, x.Contents, placed, rest);
      forall o | o in Repr()
        ensures o in old(Repr()) + old(x.Repr())
      {
        if o != this {
          assert o in Nodes;
        }
      }
    }

    /**
     * The six link writes of the range `splice` (List/List.hpp:370-379) as
     * written, taken before the counters are touched.  For an empty range
     * (`first == last`, as in `splice(position, x)` with `x` empty) they
     * cross the two lists: the node before `position` is left pointing at
     * the node `last` of `x`, and the node before `last` at `position`.
     * For a non-empty range, walking `next` from `first` afterwards runs
     * through the moved nodes and this list's nodes from `position` on, up
     * to the tail sentinel, and never meets `last`; that walk is what
     * `ft::distance(first, last)` is asked for after the writes.
     */
    method SpliceRangeRelink(position: Node, x: List, first: Node, last: Node, ghost k: nat, ghost i: nat, ghost j: nat)
      requires Valid() && x.Valid() && Repr() !! x.Repr()
      requires k <= |Contents| && Nodes[k + 1] == position
      requires i <= j <= |x.Contents| && x.Nodes[i + 1] == first && x.Nodes[j + 1] == last
      modifies first.prev, last, position.prev, first, position, last.prev
      ensures i == j ==> old(Nodes[k]).next == last && last !in old(Nodes)
      ensures i == j ==> old(x.Nodes[i]).next == position && position !in old(x.Nodes)
      ensures i < j ==> Path(old(x.Nodes[i + 1..j + 1] + Nodes[k + 1..]))
      ensures i < j ==> last !in old(x.Nodes[i + 1..j + 1] + Nodes[k + 1..])
    {
      ghost var ns, xs := Nodes, x.Nodes;
      assert Step(ns, k) && Step(xs, i) && Step(xs, j);
      assert position in Repr() && last in x.Repr();
      var firstElem := first;
      var lastElem := last.prev;
      var lastElemNext := last;
      var positionElem := position;
      label before:
      firstElem.prev.next := lastElemNext;
      lastElemNext.prev := firstElem.prev;
      positionElem.prev.next := firstElem;
      firstElem.prev := positionElem.prev;
      positionElem.prev := lastElem;
      lastElem.next := positionElem;
      if i < j {
        ghost var w := xs[i + 1..j + 1] + ns[k + 1..];
        forall m | 0 <= m < |w| - 1
          ensures w[m].next == w[m + 1]
        {
          if m < j - i - 1 {
            assert w[m] == xs[i + 1 + m] && w[m + 1] == xs[i + 2 + m];
            assert Apart(xs, i + 1 + m, i) && Apart(xs, i + 1 + m, j);
            assert xs[i + 1 + m] in x.Repr() && ns[k] in Repr();
            assert old@before(Step(xs, i + 1 + m));
          } else if m > j - i - 1 {
            var p := k + 1 + m - (j - i);
            assert w[m] == ns[p] && w[m + 1] == ns[p + 1];
            assert Apart(ns, p, k);
            assert ns[p] in Repr() && xs[i] in x.Repr() && xs[j] in x.Repr();
            assert old@before(Step(ns, p));
          }
        }
        forall m | 0 <= m < |w|
          ensures w[m] != last
        {
          if m < j - i {
            assert Apart(xs, i + 1 + m, j + 1);
          } else {
            assert ns[k + 1 + m - (j - i)] in Repr();
          }
        }
      }
    }

    /**
     * `remove_if(pred)`: one walk over the list that remembers the next
     * node before unlinking every node whose value satisfies `pred`.
     */
    method RemoveIf(pred: int -> bool)
      requires Valid()
      modifies Repr()
      ensures Valid() && Repr() <= old(Repr())
      ensures Contents == RemoveWhere(old(Contents), pred)
    {
      ghost var cs := Contents;
      ghost var p := 0;
      ghost var kept := [];
      assert Step(Nodes, 0);
      assert cs[..0] == [];
      var curr := head.next;
      while curr != tail
        invariant Valid() && Repr() <= old(Repr())
        invariant p <= |cs| && kept == RemoveWhere(cs[..p], pred)
        invariant Contents == kept + cs[p..]
        invariant curr == Nodes[|kept| + 1]
        decreases |cs| - p
      {
        assert |kept| < |Contents|;
        curr, kept := RemoveVisit(curr, pred, cs, p, kept);
        p := p + 1;
      }
      SameNode(Nodes, |kept| + 1, |Nodes| - 1);
      assert cs[..p] == cs;
    }

    /**
     * One turn of the `remove_if` walk: remember the next node, then unlink
     * `curr` when its value satisfies `pred`. `kept` are the survivors of
     * the first `p` values, and `curr` holds value `p`.
     */
    method RemoveVisit(curr: Node, pred: int -> bool, ghost cs: seq<int>, ghost p: nat, ghost kept: seq<int>)
      returns (tmpNext: Node, ghost after: seq<int>)
      requires Valid() && p < |cs|
      requires kept == RemoveWhere(cs[..p], pred) && Contents == kept + cs[p..]
      requires curr == Nodes[|kept| + 1]
      modifies Repr()
      ensures Valid() && Repr() <= old(Repr())
      ensures after == RemoveWhere(cs[..p + 1], pred) && Contents == after + cs[p + 1..]
      ensures tmpNext == Nodes[|after| + 1]
    {
      ghost var d := |kept|;
      RemoveFacts(Nodes, cs, p, pred, kept, Contents);
      assert Step(Nodes, d) && Step(Nodes, d + 1);
      tmpNext := curr.next;
      if pred(curr.data) {
        ghost var nb := Nodes;
        Unlink(curr, d);
        Closed(nb, Nodes, d);
        after := kept;
      } else {
        after := kept + [cs[p]];
      }
    }

    /** `remove(val)`: `remove_if` with "equivalent to `val`" as the predicate. */
    method Remove(val: int)
      requires Valid()
      modifies Repr()
      ensures Valid() && Repr() <= old(Repr())
      ensures Contents == RemoveWhere(old(Contents), IsEquiv(val))
    {
      RemoveIf(IsEquiv(val));
    }

    /**
     * `unique(same)`: `curr` is the last node kept and `next` the one
     * examined; a node `same` as `curr` is unlinked, otherwise `curr`
     * moves on to it.  The walk starts at the first element, so the list
     * must not be empty.
     */
    method UniqueBy(same: (int, int) -> bool)
      requires Valid() && Contents != []
      modifies Repr()
      ensures Valid() && Repr() <= old(Repr())
      ensures Contents == Collapsed(old(Contents), same)
    {
      ghost var cs := Contents;
      ghost var p := 1;
      ghost var kept := cs[..1];
      assert Step(Nodes, 0);
      assert cs == kept + cs[1..];
      var curr := head.next;
      var next := curr;
      while next != tail.prev
        invariant Valid() && Repr() <= old(Repr())
        invariant 1 <= p <= |cs| && kept == Collapsed(cs[..p], same)
        invariant Contents == kept + cs[p..]
        invariant next == curr && curr == Nodes[|kept|]
        decreases |cs| - p
      {
        assert Step(Nodes, |Nodes| - 2);
        assert |kept| < |Contents|;
        curr, next, kept := UniqueVisit(curr, next, same, cs, p, kept);
        p := p + 1;
      }
      assert Step(Nodes, |Nodes| - 2);
      SameNode(Nodes, |kept|, |Nodes| - 2);
      assert cs[..p] == cs;
    }

    /**
     * One turn of the `unique` walk: step `next` past `curr`, then unlink it
     * when `same` relates the two values, or else advance `curr`. `kept`
     * collapses the first `p` values and ends in the value of `curr`.
     */
    method UniqueVisit(curr: Node, next: Node, same: (int, int) -> bool,
                       ghost cs: seq<int>, ghost p: nat, ghost kept: seq<int>)
      returns (curr': Node, next': Node, ghost after: seq<int>)
      requires Valid() && 1 <= p < |cs|
      requires kept == Collapsed(cs[..p], same) && Contents == kept + cs[p..]
      requires next == curr && curr == Nodes[|kept|]
      modifies Repr()
      ensures Valid() && Repr() <= old(Repr())
      ensures after == Collapsed(cs[..p + 1], same) && Contents == after + cs[p + 1..]
      ensures next' == curr' && curr' == Nodes[|after|]
    {
      ghost var d := |kept|;
      CollapseFacts(Nodes, cs, p, same, kept, Contents);
      assert Step(Nodes, d) && Step(Nodes, d + 1);
      next' := next.next;
      curr' := curr;
      if same(curr.data, next'.data) {
        ghost var nb := Nodes;
        Unlink(next', d);
        Closed(nb, Nodes, d);
        next' := curr;
        after := kept;
      } else {
        curr' := curr.next;
        after := kept + [cs[p]];
      }
    }

    /** `unique()`: `unique` with equivalence as the predicate. */
    method Unique()
      requires Valid() && Contents != []
      modifies Repr()
      ensures Valid() && Repr() <= old(Repr())
      ensures Contents == Uniqued(old(Contents))
    {
      UniqueBy(Equiv);
    }

    /**
     * `sort(comp)`: merge sort the chain of `next` links from the first
     * element to the tail sentinel, hang the sorted chain after the head
     * sentinel, then walk it once to set every `prev` link.
     */
    method SortBy(comp: (int, int) -> bool)
      requires Valid()
      modifies Repr()
      ensures Valid()
      ensures Contents == MergeSorted(old(Contents), comp)
      ensures StrictWeakOrder(comp) ==> SortedBy(Contents, comp)
    {
      ghost var ns, cs := Nodes, Contents;
      ghost var es := ns[1..|ns| - 1];
      MergeSortedSortedBy(cs, comp);
      SortPrep();
      var r, rs := MergeSort(head.next, es, comp);
      SortedNodesPerm(es, comp);
      SortedNodesVals(es, comp);
      SortedShape(ns, es, rs);
      Rehang(r, rs);
    }

    /**
     * The end of `sort`: the sorted chain `rs`, starting at `r`, becomes
     * the chain after the head sentinel, and the `prev` pass repairs the
     * backward links.
     */
    method Rehang(r: Node, ghost rs: seq<Node>)
      requires Chain(rs, tail) && r == First(rs, tail) && head !in rs
      requires Distinct([head] + rs + [tail]) && size == |rs|
      modifies this, head, tail, rs
      ensures Nodes == [head] + rs + [tail] && Contents == Vals(rs) && Valid()
    {
      head.next := r;
      RelinkPrev(rs);
      Nodes := [head] + rs + [tail];
      Contents := Vals(rs);
      CarriesVals(head, rs, tail);
    }

    /** `sort()`: `sort` with `<` as the order. */
    method Sort()
      requires Valid()
      modifies Repr()
      ensures Valid()
      ensures Contents == MergeSorted(old(Contents), Lt) && Sorted(Contents)
    {
      SortBy(Lt);
      MergeSortedSorted(old(Contents));
    }

    /** The element nodes of a well formed list form a `next` chain to the tail sentinel. */
    lemma SortPrep()
      requires Valid()
      ensures Chain(Nodes[1..|Nodes| - 1], tail) && head.next == First(Nodes[1..|Nodes| - 1], tail)
      ensures Distinct(Nodes[1..|Nodes| - 1]) && tail !in Nodes[1..|Nodes| - 1]
      ensures head !in Nodes[1..|Nodes| - 1] && head != tail
      ensures Vals(Nodes[1..|Nodes| - 1]) == Contents
      ensures forall m :: m in Nodes[1..|Nodes| - 1] ==> m in Nodes
    {
      var ns := Nodes;
      var es := ns[1..|ns| - 1];
      forall i | 0 <= i < |es|
        ensures Link(es, tail, i)
      {
        assert Step(ns, i + 1);
      }
      assert Step(ns, 0);
      DistinctSlice(ns, 1, |ns| - 1);
      forall j | 0 <= j < |es|
        ensures es[j] != tail && es[j] != head
      {
        assert Apart(ns, j + 1, |ns| - 1) && Apart(ns, j + 1, 0);
      }
      assert Apart(ns, 0, |ns| - 1);
      ValsSlice(ns, Contents, 0, |Contents|);
      forall j | 0 <= j < |es|
        ensures es[j] in ns
      {
        assert es[j] == ns[j + 1];
      }
    }

    /** The sorted chain `rs` is a rearrangement of the element nodes `es` of the list `ns`. */
    lemma SortedShape(ns: seq<Node>, es: seq<Node>, rs: seq<Node>)
      requires Distinct(es) && head !in es && tail !in es && head != tail
      requires multiset(rs) == multiset(es) && forall m :: m in es ==> m in ns
      ensures Distinct([head] + rs + [tail]) && |rs| == |es|
      ensures head !in rs && forall m :: m in rs ==> m in ns
    {
      DistinctPerm(es, rs);
      forall m | m in rs
        ensures m in es
      {
        assert m in multiset(rs);
      }
      assert head !in multiset(es) && tail !in multiset(es);
      var w := [head] + rs + [tail];
      forall i, j | 0 <= i < |w| && 0 <= j < |w| && i != j
        ensures Apart(w, i, j)
      {
        if 0 < i < |w| - 1 && 0 < j < |w| - 1 {
          assert Apart(rs, i - 1, j - 1);
        } else if 0 < i < |w| - 1 {
          assert w[i] in rs;
        } else if 0 < j < |w| - 1 {
          assert w[j] in rs;
        }
      }
      assert |multiset(rs)| == |multiset(es)|;
    }

    /**
     * The `prev` pass of `sort`: walk the `next` chain `rs` from the head
     * sentinel, pointing every node back at the one before it, and the
     * tail sentinel at the last one.
     */
    method RelinkPrev(ghost rs: seq<Node>)
      requires Chain(rs, tail) && head.next == First(rs, tail)
      requires Distinct([head] + rs + [tail])
      modifies rs, tail
      ensures Linked([head] + rs + [tail])
      ensures head.next == old(head.next)
    {
      ghost var w := [head] + rs + [tail];
      var prev := head;
      var tmp := head.next;
      ghost var i: nat := 0;
      while tmp != tail
        invariant i <= |rs| && prev == w[i] && tmp == w[i + 1]
        invariant Chain(rs, tail) && head.next == First(rs, tail)
        invariant forall m :: 0 <= m < i ==> Step(w, m)
        decreases |rs| - i
      {
        if i == |rs| {
          assert false;
        }
        label visit:
        tmp.prev := prev;
        assert Link(rs, tail, i);
        forall m | 0 <= m <= i
          ensures Step(w, m)
        {
          if m < i {
            assert Apart(w, m + 1, i + 1) && old@visit(Step(w, m));
          } else if i > 0 {
            assert Link(rs, tail, i - 1);
          }
        }
        prev := tmp;
        tmp := tmp.next;
        i := i + 1;
      }
      SameNode(w, i + 1, |w| - 1);
      label last:
      tail.prev := prev;
      forall m | 0 <= m < |w| - 1
        ensures Step(w, m)
      {
        if m < i {
          assert Apart(w, m + 1, |w| - 1) && old@last(Step(w, m));
        } else if rs != [] {
          assert Link(rs, tail, |rs| - 1);
        }
      }
    }

    /**
     * `MergeSort(headRef, comp)`: a chain of fewer than two nodes is left as
     * it is; a longer one is split, both halves are sorted, and the merged
     * chain's first node is what `headRef` is set to, returned here.
     */
    method MergeSort(h: Node, ghost ns: seq<Node>, comp: (int, int) -> bool) returns (r: Node, ghost rs: seq<Node>)
      requires Chain(ns, tail) && h == First(ns, tail) && Distinct(ns) && tail !in ns
      modifies ns
      ensures rs == SortedNodes(ns, comp) && Chain(rs, tail) && r == First(rs, tail)
      decreases |ns|
    {
      if h == tail || h.next == tail {
        if ns != [] {
          assert Link(ns, tail, 0);
        }
        return h, ns;
      }
      assert Link(ns, tail, 0);
      var a, b := FrontBackSplit(h, ns);
      ghost var f := FrontLength(|ns|);
      ghost var front, back := ns[..f], ns[f..];
      HalvesApart(ns, f, front, back);
      var a', sa := MergeSort(a, front, comp);
      SortedNodesPerm(front, comp);
      HalfSorted(front, sa, ns, back, tail);
      var b', sb := MergeSort(b, back, comp);
      SortedNodesPerm(back, comp);
      HalfSorted(back, sb, ns, sa, tail);
      r, rs := SortedMerge(a', b', sa, sb, comp);
    }

    /**
     * `SortedMerge(a, b, comp)`: merge the chains from `a` and from `b`,
     * both ending at the tail sentinel, by relinking `next` fields; the
     * node of `a` goes first when `comp` says so.
     */
    method SortedMerge(a: Node, b: Node, ghost ps: seq<Node>, ghost qs: seq<Node>, comp: (int, int) -> bool)
      returns (r: Node, ghost rs: seq<Node>)
      requires Chain(ps, tail) && Chain(qs, tail) && a == First(ps, tail) && b == First(qs, tail)
      requires Distinct(ps) && Distinct(qs) && tail !in ps && tail !in qs
      requires forall m :: m in ps ==> m !in qs
      modifies ps, qs
      ensures rs == MergedNodes(ps, qs, comp) && Chain(rs, tail) && r == First(rs, tail)
      decreases |ps| + |qs|
    {
      if a == tail {
        return b, qs;
      }
      if b == tail {
        return a, ps;
      }
      assert ps != [] && qs != [] && a == ps[0] && b == qs[0];
      if comp(a.data, b.data) {
        ChainRest(ps, tail);
        HeadGone(ps);
        var rest, rr := SortedMerge(a.next, b, ps[1..], qs, comp);
        MergedNodesPerm(ps[1..], qs, comp);
        assert a in ps && multiset(ps[1..])[a] == 0 && multiset(qs)[a] == 0;
        assert a !in multiset(rr);
        assert a !in rr;
        a.next := rest;
        r, rs := a, [a] + rr;
        ChainCons(a, rr, tail);
      } else {
        ChainRest(qs, tail);
        HeadGone(qs);
        var rest, rr := SortedMerge(a, b.next, ps, qs[1..], comp);
        MergedNodesPerm(ps, qs[1..], comp);
        assert b in qs && multiset(qs[1..])[b] == 0 && multiset(ps)[b] == 0;
        assert b !in multiset(rr);
        assert b !in rr;
        b.next := rest;
        r, rs := b, [b] + rr;
        ChainCons(b, rr, tail);
      }
    }

    /**
     * `FrontBackSplit(source, frontRef, backRef)`: `fast` takes two steps
     * for every step of `slow`, so `slow` stops at the last node of the
     * front half, whose `next` is then cut to the tail sentinel.
     */
    method FrontBackSplit(source: Node, ghost ns: seq<Node>) returns (front: Node, back: Node)
      requires Chain(ns, tail) && |ns| >= 2 && source == ns[0] && Distinct(ns) && tail !in ns
      modifies ns[FrontLength(|ns|) - 1]
      ensures Chain(ns[..FrontLength(|ns|)], tail) && Chain(ns[FrontLength(|ns|)..], tail)
      ensures front == ns[0] && back == ns[FrontLength(|ns|)]
    {
      ghost var n := |ns|;
      var fast := source;
      var slow := source;
      ghost var f: nat, s: nat := 0, 0;
      while fast != tail
        invariant f <= n && s < n && slow == ns[s]
        invariant (f == 2 * s && f < n) || (f == 2 * s + 1 && f + 1 >= n) || (f == 2 * s + 2 && f == n)
        invariant fast == if f < n then ns[f] else tail
        decreases n - f
      {
        assert Link(ns, tail, f);
        fast := fast.next;
        f := f + 1;
        if f < n {
          assert Link(ns, tail, f);
        }
        if fast != tail && fast.next != tail {
          assert Link(ns, tail, s);
          slow := slow.next;
          fast := fast.next;
          s, f := s + 1, f + 1;
        }
      }
      assert f == n && s + 1 == FrontLength(n);
      front := source;
      assert Link(ns, tail, s);
      back := slow.next;
      slow.next := tail;
      ghost var fr, bk := ns[..s + 1], ns[s + 1..];
      forall i | 0 <= i < |fr|
        ensures Link(fr, tail, i)
      {
        if i < s {
          assert Apart(ns, i, s) && old(Link(ns, tail, i));
        }
      }
      forall i | 0 <= i < |bk|
        ensures Link(bk, tail, i)
      {
        assert Apart(ns, s + 1 + i, s) && old(Link(ns, tail, s + 1 + i));
      }
    }

    /**
     * `reverse()`: exchange `prev` and `next` in every element node, then in
     * both sentinels, and finally exchange the roles of the two sentinels.
     */
    method Reverse()
      requires Valid()
      modifies Repr()
      ensures Valid()
      ensures Nodes == Reversed(old(Nodes)) && Contents == Reversed(old(Contents))
    {
      ghost var ns, cs := Nodes, Contents;
      FlipLinks();
      head, tail := tail, head;
      ReversedShape(ns, cs);
      ReversedAt(ns, 0);
      ReversedAt(ns, |ns| - 1);
      Nodes, Contents := Reversed(ns), Reversed(cs);
    }

    /** Every exchange of `reverse()` except the one of the sentinels' roles. */
    method FlipLinks()
      requires Valid()
      modifies Repr() - {this}
      ensures Linked(Reversed(Nodes)) && Distinct(Nodes) && Carries(Nodes, Contents)
      ensures |Nodes| >= 2 && head == Nodes[0] && tail == Nodes[|Nodes| - 1] && size == |Contents|
    {
      ghost var ns := Nodes;
      FlipElements();
      assert Apart(ns, 0, |ns| - 1);
      label flipped:
      head.prev, head.next := head.next, head.prev;
      tail.prev, tail.next := tail.next, tail.prev;
      forall m | 0 < m < |ns| - 1
        ensures Flipped(ns, m)
      {
        assert Apart(ns, 0, m) && Apart(ns, m, |ns| - 1) && old@flipped(Flipped(ns, m));
      }
      FlippedLinked(ns);
    }

    /** The loop of `reverse()`: walk from the first element to the tail sentinel, flipping each node. */
    method FlipElements()
      requires Valid()
      modifies Nodes[1..|Nodes| - 1]
      ensures forall m :: 0 < m < |Nodes| - 1 ==> Flipped(Nodes, m)
      ensures head.next == old(head.next) && head.prev == old(head.prev)
      ensures tail.next == old(tail.next) && tail.prev == old(tail.prev)
      ensures Distinct(Nodes) && Carries(Nodes, Contents) && size == |Contents|
      ensures |Nodes| >= 2 && head == Nodes[0] && tail == Nodes[|Nodes| - 1]
      ensures head.next == Nodes[1] && tail.prev == Nodes[|Nodes| - 2]
    {
      ghost var ns, n := Nodes, |Nodes|;
      ghost var es := ns[1..n - 1];
      assert Step(ns, 0) && Step(ns, n - 2);
      forall m | 0 < m < n - 1
        ensures Fwd(ns, m)
      {
        assert Step(ns, m - 1) && Step(ns, m);
      }
      var curr := head.next;
      ghost var p: nat := 1;
      while curr != tail
        invariant 1 <= p <= n - 1 && curr == ns[p]
        invariant forall m :: 0 < m < p ==> Flipped(ns, m)
        invariant forall m :: p <= m < n - 1 ==> Fwd(ns, m)
        invariant head.next == old(head.next) && head.prev == old(head.prev)
        invariant tail.next == old(tail.next) && tail.prev == old(tail.prev)
        decreases n - 1 - p
      {
        if p == n - 1 {
          assert false;
        }
        label visit:
        assert Fwd(ns, p);
        assert Apart(ns, 0, p) && Apart(ns, p, n - 1);
        assert es[p - 1] == curr;
        curr.prev, curr.next := curr.next, curr.prev;
        forall m | 0 < m <= p
          ensures Flipped(ns, m)
        {
          if m < p {
            assert Apart(ns, m, p);
            assert old@visit(Flipped(ns, m));
          }
        }
        forall m | p < m < n - 1
          ensures Fwd(ns, m)
        {
          assert Apart(ns, m, p);
          assert old@visit(Fwd(ns, m));
        }
        curr := curr.prev;
        p := p + 1;
      }
      SameNode(ns, p, n - 1);
    }

    /** `swap(x)`: exchange the sentinels and the counters of the two lists. */
    method Swap(x: List)
      requires Valid() && x.Valid()
      modifies this, x
      ensures Valid() && x.Valid()
      ensures Nodes == old(x.Nodes) && x.Nodes == old(Nodes)
      ensures Contents == old(x.Contents) && x.Contents == old(Contents)
    {
      if x == this {
        return;
      }
      var h, t, s := head, tail, size;
      ghost var ns, cs := Nodes, Contents;
      Become(x.head, x.tail, x.size, x.Nodes, x.Contents);
      x.Become(h, t, s, ns, cs);
    }

    /** One half of `swap`: take over the sentinels and the counter of a well-formed chain. */
    method Become(h: Node, t: Node, s: nat, ghost ns: seq<Node>, ghost cs: seq<int>)
      requires Shaped(ns, cs, h, t, s)
      modifies this
      ensures Valid() && Nodes == ns && Contents == cs
    {
      head, tail, size := h, t, s;
      Nodes, Contents := ns, cs;
    }
  }

  /** `swap(x, y)`: the free function, which is `x.swap(y)`. */
  method SwapLists(x: List, y: List)
    requires x.Valid() && y.Valid()
    modifies x, y
    ensures x.Valid() && y.Valid()
    ensures x.Nodes == old(y.Nodes) && y.Nodes == old(x.Nodes)
    ensures x.Contents == old(y.Contents) && y.Contents == old(x.Contents)
  {
    x.Swap(y);
  }

  /** `operator==`: equal sizes, then the values compared pairwise from the front. */
  method Equal(lhs: List, rhs: List) returns (r: bool)
    requires lhs.Valid() && rhs.Valid()
    ensures r <==> lhs.Contents == rhs.Contents
  {
    if lhs.Size() != rhs.Size() {
      return false;
    }
    var a, b := lhs.Begin(), rhs.Begin();
    ghost var i: nat := 0;
    while a != lhs.End()
      invariant i <= |lhs.Contents| && a == lhs.Nodes[i + 1] && b == rhs.Nodes[i + 1]
      invariant lhs.Contents[..i] == rhs.Contents[..i]
      decreases |lhs.Contents| - i
    {
      if i == |lhs.Contents| {
        assert false;
      }
      assert Holds(lhs.Nodes, lhs.Contents, i) && Holds(rhs.Nodes, rhs.Contents, i);
      if a.data != b.data {
        return false;
      }
      assert Step(lhs.Nodes, i + 1) && Step(rhs.Nodes, i + 1);
      assert lhs.Contents[..i + 1] == lhs.Contents[..i] + [lhs.Contents[i]];
      assert rhs.Contents[..i + 1] == rhs.Contents[..i] + [rhs.Contents[i]];
      a, b := a.next, b.next;
      i := i + 1;
    }
    SameNode(lhs.Nodes, i + 1, |lhs.Nodes| - 1);
    assert lhs.Contents == lhs.Contents[..i] && rhs.Contents == rhs.Contents[..i];
    return true;
  }

  /** `operator!=`. */
  method NotEqual(lhs: List, rhs: List) returns (r: bool)
    requires lhs.Valid() && rhs.Valid()
    ensures r <==> lhs.Contents != rhs.Contents
  {
    var e := Equal(lhs, rhs);
    return !e;
  }

  /**
   * `operator<`: walk the common length; the first pair of different values
   * decides, and otherwise the shorter list is the smaller.
   */
  method Less(lhs: List, rhs: List) returns (r: bool)
    requires lhs.Valid() && rhs.Valid()
    ensures r == LexLess(lhs.Contents, rhs.Contents)
  {
    var minSize := if lhs.Size() < rhs.Size() then lhs.Size() else rhs.Size();
    var a, b := lhs.Begin(), rhs.Begin();
    for i := 0 to minSize
      invariant a == lhs.Nodes[i + 1] && b == rhs.Nodes[i + 1]
      invariant lhs.Contents[..i] == rhs.Contents[..i]
    {
      assert Holds(lhs.Nodes, lhs.Contents, i) && Holds(rhs.Nodes, rhs.Contents, i);
      if a.data < b.data || a.data > b.data {
        LexDrop(lhs.Contents, rhs.Contents, i);
        return a.data < b.data;
      }
      assert Step(lhs.Nodes, i + 1) && Step(rhs.Nodes, i + 1);
      assert lhs.Contents[..i + 1] == lhs.Contents[..i] + [lhs.Contents[i]];
      assert rhs.Contents[..i + 1] == rhs.Contents[..i] + [rhs.Contents[i]];
      a, b := a.next, b.next;
    }
    LexDrop(lhs.Contents, rhs.Contents, minSize);
    return lhs.Size() < rhs.Size();
  }

  /** `operator>`: `rhs < lhs`. */
  method Greater(lhs: List, rhs: List) returns (r: bool)
    requires lhs.Valid() && rhs.Valid()
    ensures r == LexLess(rhs.Contents, lhs.Contents)
  {
    r := Less(rhs, lhs);
  }

  /** `operator<=`: not `rhs < lhs`, which is `lhs < rhs` or equal contents. */
  method LessOrEqual(lhs: List, rhs: List) returns (r: bool)
    requires lhs.Valid() && rhs.Valid()
    ensures r <==> LexLess(lhs.Contents, rhs.Contents) || lhs.Contents == rhs.Contents
  {
    var g := Less(rhs, lhs);
    LexTrichotomy(lhs.Contents, rhs.Contents);
    return !g;
  }

  /** `operator>=`: not `lhs < rhs`, which is `rhs < lhs` or equal contents. */
  method GreaterOrEqual(lhs: List, rhs: List) returns (r: bool)
    requires lhs.Valid() && rhs.Valid()
    ensures r <==> LexLess(rhs.Contents, lhs.Contents) || lhs.Contents == rhs.Contents
  {
    var l := Less(lhs, rhs);
    LexTrichotomy(lhs.Contents, rhs.Contents);
    return !l;
  }
}
