/**
 What the local rules say about the tree as a whole: it unfolds into an inductive search tree that holds
 every node, that assert_tree (kernel/rb_tree.c:397-439) accepts, and whose height is logarithmic.
 */
module RbMeaning {
  import opened RbShape
  import opened RbColor
  import opened RbState
  import RbChains

  datatype Shape = Leaf | Branch(addr: Ptr, key: int, red: bool, left: Shape, right: Shape)

  /** The subtree that hangs at x. */
  ghost function Unfold(m: Nodes, s: Spans, x: Ptr): Shape
    requires Struct(m, s) && (x == NULL || x in s)
    decreases if x == NULL then 0 else Hi(s, x) - Lo(s, x) + 1
  {
    if x == NULL then Leaf
    else
      assert NodeOk(m, s, x);
      var l, r := Kid(m, x, false), Kid(m, x, true);
      assert (l != NULL ==> NodeOk(m, s, l)) && (r != NULL ==> NodeOk(m, s, r));
      Branch(x, Data(m, x), Red(m, x), Unfold(m, s, l), Unfold(m, s, r))
  }

  /** rb_tree.c:397-439: black height plus one, or 0 where it reports a violation. */
  function AssertTree(t: Shape): int {
    match t
    case Leaf => 1
    case Branch(_, key, red, l, r) =>
      var lh, rh := AssertTree(l), AssertTree(r);
      if red && ((l.Branch? && l.red) || (r.Branch? && r.red)) then 0
      else if (l.Branch? && l.key >= key) || (r.Branch? && r.key <= key) then 0
      else if lh != 0 && rh != 0 && lh != rh then 0
      else if lh != 0 && rh != 0 then (if red then lh else lh + 1)
      else 0
  }

  ghost predicate Ordered(t: Shape, lo: int, hi: int) {
    t.Branch? ==> lo < t.key < hi && Ordered(t.left, lo, t.key) && Ordered(t.right, t.key, hi)
  }

  ghost function Addrs(t: Shape): set<Ptr> {
    match t
    case Leaf => {}
    case Branch(a, _, _, l, r) => {a} + Addrs(l) + Addrs(r)
  }

  lemma {:induction false} UnfoldOrdered(m: Nodes, s: Spans, x: Ptr)
    requires Struct(m, s) && x in s && x != HEAD
    ensures Ordered(Unfold(m, s, x), Lo(s, x), Hi(s, x))
    decreases Hi(s, x) - Lo(s, x)
  {
    assert NodeOk(m, s, x);
    var l, r := Kid(m, x, false), Kid(m, x, true);
    if l != NULL { assert NodeOk(m, s, l); UnfoldOrdered(m, s, l); }
    if r != NULL { assert NodeOk(m, s, r); UnfoldOrdered(m, s, r); }
  }

  lemma {:induction false} UnfoldAccepted(m: Nodes, s: Spans, b: Heights, x: Ptr)
    requires Struct(m, s) && Shade(m, s, b, NULL) && (x == NULL || (x in s && x != HEAD))
    ensures AssertTree(Unfold(m, s, x)) == Bh(b, x) + 1
    decreases if x == NULL then 0 else Hi(s, x) - Lo(s, x) + 1
  {
    if x != NULL {
      IsGood(m, s, b, x, NULL);
      var l, r := Kid(m, x, false), Kid(m, x, true);
      if l != NULL { IsGood(m, s, b, l, NULL); }
      if r != NULL { IsGood(m, s, b, r, NULL); }
      UnfoldAccepted(m, s, b, l);
      UnfoldAccepted(m, s, b, r);
    }
  }

  /** Whoever is in the tree is met when the tree is unfolded from the root. */
  lemma {:induction false} UnfoldComplete(m: Nodes, s: Spans, x: Ptr, y: Ptr)
    requires Struct(m, s) && x in s && x != HEAD && y in Addrs(Unfold(m, s, x))
    ensures Kid(m, HEAD, true) in s && y in Addrs(Unfold(m, s, Kid(m, HEAD, true)))
    decreases TOP + 1 - (Hi(s, x) - Lo(s, x))
  {
    assert NodeOk(m, s, x) && NodeOk(m, s, HEAD);
    var p := Par(s, x);
    if p != HEAD {
      assert NodeOk(m, s, p);
      assert Kid(m, p, false) == x || Kid(m, p, true) == x;
      UnfoldComplete(m, s, p, y);
    }
  }

  lemma {:induction false} UnfoldInside(m: Nodes, s: Spans, x: Ptr, y: Ptr)
    requires Struct(m, s) && (x == NULL || (x in s && x != HEAD)) && y in Addrs(Unfold(m, s, x))
    ensures y in s && y != HEAD
    decreases if x == NULL then 0 else Hi(s, x) - Lo(s, x) + 1
  {
    assert NodeOk(m, s, x);
    var l, r := Kid(m, x, false), Kid(m, x, true);
    assert (l != NULL ==> NodeOk(m, s, l)) && (r != NULL ==> NodeOk(m, s, r));
    if y != x {
      if y in Addrs(Unfold(m, s, l)) { UnfoldInside(m, s, l, y); } else { UnfoldInside(m, s, r, y); }
    }
  }

  // ---------------------------------------------------------------- height

  function Height(t: Shape): nat {
    match t
    case Leaf => 0
    case Branch(_, _, _, l, r) => 1 + if Height(l) > Height(r) then Height(l) else Height(r)
  }

  function Count(t: Shape): nat {
    match t
    case Leaf => 0
    case Branch(_, _, _, l, r) => 1 + Count(l) + Count(r)
  }

  function Pow2(n: nat): nat { if n == 0 then 1 else 2 * Pow2(n - 1) }

  /** A tree that assert_tree accepts is full enough and not too high for its black height. */
  lemma {:induction false} AcceptedIsShallow(t: Shape)
    requires AssertTree(t) > 0
    ensures Pow2(AssertTree(t) - 1) <= Count(t) + 1
    ensures Height(t) <= 2 * (AssertTree(t) - 1) + (if t.Branch? && t.red then 1 else 0)
  {
    if t.Branch? {
      AcceptedIsShallow(t.left);
      AcceptedIsShallow(t.right);
      assert AssertTree(t.left) == AssertTree(t.right) > 0;
    }
  }

  /**
   The whole-tree reading of the invariant: an inductive search tree with strictly ordered keys that
   holds exactly the tree nodes, accepted by assert_tree, and no deeper than twice the logarithm of its size.
   */
  lemma Meaning(v: Nodes, s: Spans, b: Heights, ch: RbChains.Chaining, own: RbChains.Owners)
    requires Sound(v, s, b, ch, own) && !Red(v, Kid(v, HEAD, true))
    ensures var root := Kid(v, HEAD, true);
            && (root == NULL || root in s)
            && var t := Unfold(v, s, root);
            && AssertTree(t) > 0
            && Ordered(t, 0, TOP)
            && (forall x :: x in Addrs(t) <==> x in s && x != HEAD)
            && Height(t) <= 2 * (AssertTree(t) - 1) && Pow2(AssertTree(t) - 1) <= Count(t) + 1
  {
    var root := Kid(v, HEAD, true);
    assert NodeOk(v, s, HEAD);
    var t := Unfold(v, s, root);
    UnfoldAccepted(v, s, b, root);
    if root != NULL {
      IsGood(v, s, b, root, NULL);
      UnfoldOrdered(v, s, root);
    } else {
      OnlyHead(v, s);
    }
    AcceptedIsShallow(t);
    forall x ensures x in Addrs(t) <==> x in s && x != HEAD {
      if x in Addrs(t) { UnfoldInside(v, s, root, x); }
      if x in s && x != HEAD {
        assert x in Addrs(Unfold(v, s, x));
        UnfoldComplete(v, s, x, x);
      }
    }
  }

  // ---------------------------------------------------------------- what assert_tree does not see

  function Leftmost(t: Shape): int
    requires t.Branch?
  {
    if t.left.Leaf? then t.key else Leftmost(t.left)
  }

  function Rightmost(t: Shape): int
    requires t.Branch?
  {
    if t.right.Leaf? then t.key else Rightmost(t.right)
  }

  /** Each key lies between its two neighbours in order, at the ends of its subtrees' inner spines. */
  predicate Spined(t: Shape) {
    t.Branch? ==>
      && Spined(t.left) && Spined(t.right)
      && (t.left.Branch? ==> Rightmost(t.left) < t.key)
      && (t.right.Branch? ==> t.key < Leftmost(t.right))
  }

  /** A tree is a search tree between two bounds exactly when its spines are in order and its ends are inside. */
  lemma {:induction false} OrderedIffSpined(t: Shape, lo: int, hi: int)
    requires t.Branch?
    ensures Ordered(t, lo, hi) <==> Spined(t) && lo < Leftmost(t) && Rightmost(t) < hi
    ensures Spined(t) ==> Leftmost(t) <= t.key <= Rightmost(t)
  {
    if t.left.Branch? { OrderedIffSpined(t.left, lo, t.key); }
    if t.right.Branch? { OrderedIffSpined(t.right, t.key, hi); }
  }

  /** The comparisons that assert_tree leaves out: with the end of an inner spine of two or more nodes. */
  predicate Bends(t: Shape) {
    t.Branch? ==>
      && Bends(t.left) && Bends(t.right)
      && (t.left.Branch? && t.left.right.Branch? ==> Rightmost(t.left) < t.key)
      && (t.right.Branch? && t.right.left.Branch? ==> t.key < Leftmost(t.right))
  }

  lemma {:induction false} SpinedIffBends(t: Shape)
    requires AssertTree(t) > 0
    ensures Spined(t) <==> Bends(t)
  {
    if t.Branch? {
      SpinedIffBends(t.left);
      SpinedIffBends(t.right);
    }
  }

  /** What assert_tree accepts is a search tree exactly when the comparisons that it leaves out hold as well. */
  lemma AcceptedOrdered(t: Shape, lo: int, hi: int)
    requires AssertTree(t) > 0 && t.Branch?
    ensures Ordered(t, lo, hi) <==> Bends(t) && lo < Leftmost(t) && Rightmost(t) < hi
  {
    OrderedIffSpined(t, lo, hi);
    SpinedIffBends(t);
  }

  /**
   assert_tree compares a node with its kids only, so it also accepts trees that are not search trees.
   The order that the operations keep is the one of `Ordered`.
   */
  lemma AcceptedNeedNotBeOrdered()
    ensures exists t :: AssertTree(t) > 0 && !Ordered(t, 0, TOP)
  {
    var low := Branch(64, 24, true, Leaf, Leaf);
    var mid := Branch(96, 8, false, Leaf, low);
    var right := Branch(128, 32, false, Leaf, Leaf);
    var t := Branch(160, 16, false, mid, right);
    assert AssertTree(low) == 1 && AssertTree(mid) == 2 && AssertTree(right) == 2 && AssertTree(t) == 3;
    assert !Ordered(low, 8, 16);
    assert !Ordered(mid, 0, 16);
    assert !Ordered(t, 0, TOP);
  }
}
