/**
 The two ways a node leaves the tree at the end of remove_rbnode (kernel/rb_tree.c:234-276): the leaf
 that the descent stopped at is unlinked, and another node takes over the place of the found one.
 */
module RbUnlink {
  import opened RbShape
  import opened RbColor

  /** The leaf n is taken off its parent. */
  ghost predicate Unlinked(m: Nodes, s: Spans, m': Nodes, s': Spans, n: Ptr) {
    && n in s && n != HEAD && Kid(m, n, false) == NULL && Kid(m, n, true) == NULL
    && SameData(m, m') && SameRed(m, m')
    && (forall y, e {:trigger Kid(m', y, e)} ::
          Kid(m', y, e) == if y == Par(s, n) && Kid(m, y, e) == n then NULL else Kid(m, y, e))
    && s' == s - {n}
  }

  lemma UnlinkNode(m: Nodes, s: Spans, m': Nodes, s': Spans, n: Ptr, x: Ptr)
    requires Struct(m, s) && Unlinked(m, s, m', s', n) && x in s'
    ensures NodeOk(m', s', x)
  {
    assert NodeOk(m, s, n) && NodeOk(m, s, x);
    assert Kid(m', x, false) == (if Kid(m, x, false) == n then NULL else Kid(m, x, false));
    assert Kid(m', x, true) == (if Kid(m, x, true) == n then NULL else Kid(m, x, true));
  }

  lemma UnlinkShade(m: Nodes, s: Spans, b: Heights, m': Nodes, s': Spans, n: Ptr, x: Ptr)
    requires Struct(m, s) && Shade(m, s, b, NULL) && Unlinked(m, s, m', s', n) && x in s' && x != HEAD
    requires Red(m, n) || Par(s, n) == HEAD
    ensures ShadeOk(m', b - {n}, x, NULL)
  {
    IsGood(m, s, b, n, NULL);
    IsGood(m, s, b, x, NULL);
    assert Kid(m', x, false) == (if Kid(m, x, false) == n then NULL else Kid(m, x, false));
    assert Kid(m', x, true) == (if Kid(m, x, true) == n then NULL else Kid(m, x, true));
  }

  lemma UnlinkLeaf(m: Nodes, s: Spans, b: Heights, m': Nodes, s': Spans, n: Ptr)
    requires Struct(m, s) && Shade(m, s, b, NULL) && Unlinked(m, s, m', s', n)
    requires Red(m, n) || Par(s, n) == HEAD
    ensures Struct(m', s') && Shade(m', s', b - {n}, NULL)
    ensures Distinct(m, s) ==> Distinct(m', s')
  {
    forall x | x in s' ensures NodeOk(m', s', x) { UnlinkNode(m, s, m', s', n, x); }
    forall x | x in s' && x != HEAD ensures ShadeOk(m', b - {n}, x, NULL) { UnlinkShade(m, s, b, m', s', n, x); }
    assert NodeOk(m, s, HEAD);
  }

  // ---------------------------------------------------------------- one node takes over from another

  function Ren(v: int, was: int, now: int): int { if v == was then now else v }

  ghost function SwapSpans(m: Nodes, s: Spans, f: Ptr, z: Ptr): Spans
    requires f in s
  {
    map y | y in s.Keys - {f} + {z} ::
      var o := if y == z then s[f] else s[y];
      Span(Ren(o.lo, Data(m, f), Data(m, z)), Ren(o.hi, Data(m, f), Data(m, z)), Ren(o.par, f, z))
  }

  ghost function SwapHeights(b: Heights, f: Ptr, z: Ptr): Heights
    requires f in b
  {
    (b - {f})[z := b[f]]
  }

  /** z, which is not in the tree, gets the links and colour of f, and the parent of f links to z. */
  ghost predicate Swapped(m: Nodes, s: Spans, m': Nodes, f: Ptr, z: Ptr) {
    && f in s && f != HEAD && z !in s && z in m && z != NULL
    && SameData(m, m')
    && (forall y, e {:trigger Kid(m', y, e)} :: y != f ==> (Kid(m', y, e) ==
         if y == z then Kid(m, f, e) else if y == Par(s, f) && Kid(m, y, e) == f then z else Kid(m, y, e)))
    && (forall y {:trigger Red(m', y)} :: Red(m', y) == if y == z then Red(m, f) else Red(m, y))
  }

  /** The key of z fits where f was: only f lies at or above it below the rest. */
  ghost predicate Adjacent(m: Nodes, s: Spans, f: Ptr, z: Ptr) {
    && Lo(s, f) < Data(m, z) <= Data(m, f)
    && (forall y {:trigger Data(m, y)} :: y in s && y != f ==> !(Data(m, z) <= Data(m, y) < Data(m, f)))
  }

  lemma SwapNode(m: Nodes, s: Spans, m': Nodes, f: Ptr, z: Ptr, x: Ptr)
    requires Struct(m, s) && Distinct(m, s) && Swapped(m, s, m', f, z) && Adjacent(m, s, f, z)
    requires x in s && x != f
    ensures NodeOk(m', SwapSpans(m, s, f, z), x)
  {
    var s' := SwapSpans(m, s, f, z);
    assert NodeOk(m, s, f) && NodeOk(m, s, x);
    assert Data(m', x) == Data(m, x);
    var p := Par(s, x);
    if x != HEAD { assert NodeOk(m, s, p); }
    assert s'[x] == Span(Ren(Lo(s, x), Data(m, f), Data(m, z)), Ren(Hi(s, x), Data(m, f), Data(m, z)), Ren(p, f, z));
    SwapLink(m, s, m', f, z, x, false);
    SwapLink(m, s, m', f, z, x, true);
  }

  lemma SwapLink(m: Nodes, s: Spans, m': Nodes, f: Ptr, z: Ptr, x: Ptr, e: bool)
    requires Struct(m, s) && Distinct(m, s) && Swapped(m, s, m', f, z)
    requires x in s && x != f
    ensures LinkOk(m', SwapSpans(m, s, f, z), x, e)
  {
    var s' := SwapSpans(m, s, f, z);
    assert NodeOk(m, s, f) && NodeOk(m, s, x);
    var c := Kid(m, x, e);
    if c != NULL {
      assert NodeOk(m, s, c);
      var c' := Kid(m', x, e);
      assert c' == Ren(c, f, z);
      assert s'[c'] == Span(Ren(Lo(s, c), Data(m, f), Data(m, z)), Ren(Hi(s, c), Data(m, f), Data(m, z)), Ren(x, f, z));
    }
  }

  lemma SwapNew(m: Nodes, s: Spans, m': Nodes, f: Ptr, z: Ptr)
    requires Struct(m, s) && Distinct(m, s) && Swapped(m, s, m', f, z) && Adjacent(m, s, f, z)
    ensures NodeOk(m', SwapSpans(m, s, f, z), z)
  {
    var s' := SwapSpans(m, s, f, z);
    assert NodeOk(m, s, f) && NodeOk(m, s, Par(s, f));
    assert s'[z] == Span(Lo(s, f), Hi(s, f), Par(s, f));
    var l, r := Kid(m, f, false), Kid(m, f, true);
    if l != NULL {
      assert NodeOk(m, s, l);
      assert s'[l] == Span(Lo(s, f), Data(m, z), z);
    }
    if r != NULL {
      assert NodeOk(m, s, r);
      assert s'[r] == Span(Data(m, z), Hi(s, f), z);
    }
  }

  lemma SwapShade(m: Nodes, s: Spans, b: Heights, m': Nodes, f: Ptr, z: Ptr, x: Ptr)
    requires Struct(m, s) && Shade(m, s, b, NULL) && Swapped(m, s, m', f, z)
    requires x in SwapSpans(m, s, f, z) && x != HEAD
    ensures ShadeOk(m', SwapHeights(b, f, z), x, NULL)
  {
    var o := if x == z then f else x;
    IsGood(m, s, b, o, NULL);
    IsGood(m, s, b, f, NULL);
    var l, r := Kid(m, o, false), Kid(m, o, true);
    assert Kid(m', x, false) == Ren(l, f, z) && Kid(m', x, true) == Ren(r, f, z);
  }

  /** Taking over a place keeps the whole red-black search tree. */
  lemma SwapIn(m: Nodes, s: Spans, b: Heights, m': Nodes, f: Ptr, z: Ptr)
    requires Struct(m, s) && Distinct(m, s) && Shade(m, s, b, NULL)
    requires Swapped(m, s, m', f, z) && Adjacent(m, s, f, z)
    ensures f in b
    ensures Struct(m', SwapSpans(m, s, f, z)) && Shade(m', SwapSpans(m, s, f, z), SwapHeights(b, f, z), NULL)
    ensures Distinct(m', SwapSpans(m, s, f, z))
  {
    var s' := SwapSpans(m, s, f, z);
    forall x | x in s' ensures NodeOk(m', s', x) {
      if x == z { SwapNew(m, s, m', f, z); } else { SwapNode(m, s, m', f, z, x); }
    }
    forall x | x in s' && x != HEAD ensures ShadeOk(m', SwapHeights(b, f, z), x, NULL) {
      SwapShade(m, s, b, m', f, z, x);
    }
    assert NodeOk(m, s, HEAD) && NodeOk(m, s, f);
    assert SwapHeights(b, f, z).Keys == s'.Keys;
  }

  // ---------------------------------------------------------------- where the descent stops

  /** The red that removal pushes down has reached n, or will be met at its kid towards d. */
  ghost predicate Pushed(m: Nodes, s: Spans, n: Ptr, d: bool) {
    || n == HEAD
    || Red(m, n)
    || Red(m, Kid(m, n, d))
    || (Par(s, n) == HEAD && !Red(m, Kid(m, n, !d)))
  }

  /** The node the descent ends at is a leaf that can be cut off. */
  lemma StopsAtLeaf(m: Nodes, s: Spans, b: Heights, n: Ptr, d: bool)
    requires Struct(m, s) && Shade(m, s, b, NULL) && n in s && n != HEAD
    requires Pushed(m, s, n, d) && Kid(m, n, d) == NULL
    ensures Kid(m, n, false) == NULL && Kid(m, n, true) == NULL
    ensures Red(m, n) || Par(s, n) == HEAD
  {
    IsGood(m, s, b, n, NULL);
    var c := Kid(m, n, !d);
    if c != NULL { IsGood(m, s, b, c, NULL); }
  }

  /** The leaf the descent ends at is the found node's in-order predecessor, or the found node itself. */
  lemma StopsAtPredecessor(m: Nodes, s: Spans, n: Ptr, d: bool, f: Ptr)
    requires Struct(m, s) && Distinct(m, s) && n in s && f in s && f != HEAD && n != HEAD
    requires Kid(m, n, d) == NULL && SHi(m, s, n, d) == Data(m, f)
    ensures n == f || (d && Data(m, n) < Data(m, f) && Lo(s, f) <= Lo(s, n))
    ensures n != f ==>
              forall y {:trigger Data(m, y)} :: y in s && y != f && y != n ==> !(Data(m, n) <= Data(m, y) < Data(m, f))
  {
    assert NodeOk(m, s, n) && NodeOk(m, s, f);
    if d {
      Nest(m, s, n, f);
      forall y | y in s && y != f && y != n ensures !(Data(m, n) <= Data(m, y) < Data(m, f)) {
        EmptySlot(m, s, n, d, y);
        assert Data(m, y) != Data(m, n);
      }
    }
  }
}
