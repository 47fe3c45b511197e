/**
 The recolourings and rebalancing steps of kernel/rb_tree.c keep the red-black rules.
 Each step is one branch of the two loops: the predicate says what the branch has tested (or what the
 loop invariant knows there) and what it writes, and the lemma says that the rules hold afterwards.
 */
module RbColor {
  import opened RbShape

  /** A tree node that obeys all of its local rules (a red exc may hang under a red node). */
  ghost predicate Good(m: Nodes, s: Spans, b: Heights, x: Ptr, exc: Ptr) {
    && x in s && x != NULL && x != HEAD && NULL !in s && b.Keys == s.Keys
    && NodeOk(m, s, x) && ShadeOk(m, b, x, exc)
  }

  lemma IsGood(m: Nodes, s: Spans, b: Heights, x: Ptr, exc: Ptr)
    requires Struct(m, s) && Shade(m, s, b, exc) && x in s && x != HEAD
    ensures Good(m, s, b, x, exc)
  {
    assert NodeOk(m, s, x) && ShadeOk(m, b, x, exc);
  }

  lemma Excuse(m: Nodes, s: Spans, b: Heights, exc: Ptr)
    requires Shade(m, s, b, NULL)
    ensures Shade(m, s, b, exc)
  {
    forall x | x in s && x != HEAD ensures ShadeOk(m, b, x, exc) { assert ShadeOk(m, b, x, NULL); }
  }

  /**
   A rebalancing step rearranges the nodes of K, which hang from p; afterwards top hangs in p's place.
   A node outside K sees at most that its kid p has become top.
   */
  lemma Outside(m: Nodes, s: Spans, b: Heights, m': Nodes, b': Heights, K: set<Ptr>, p: Ptr, top: Ptr, x: Ptr, exc: Ptr)
    requires Good(m, s, b, x, exc) && x !in K && p in K && top in K && NULL !in K && exc in K + {NULL}
    requires forall k {:trigger Par(s, k)} :: k in K && k != p ==> Par(s, k) in K
    requires forall e {:trigger Kid(m', x, e)} :: Kid(m', x, e) == if Kid(m, x, e) == p then top else Kid(m, x, e)
    requires forall y {:trigger Red(m', y)} :: y !in K ==> Red(m', y) == Red(m, y)
    requires forall y {:trigger Bh(b', y)} :: y !in K ==> Bh(b', y) == Bh(b, y)
    requires Par(s, p) == x ==> Bh(b', top) == Bh(b, p) && (Red(m, x) ==> !Red(m', top))
    ensures ShadeOk(m', b', x, NULL)
  {
    var l, r := Kid(m, x, false), Kid(m, x, true);
    assert l in K ==> l == p;
    assert r in K ==> r == p;
    assert Kid(m', x, false) == if l == p then top else l;
    assert Kid(m', x, true) == if r == p then top else r;
  }

  // ---------------------------------------------------------------- insertion

  /** A present node that insert_rbnode will not flip. */
  ghost predicate Calm(m: Nodes, x: Ptr) {
    x != NULL && !(Red(m, Kid(m, x, false)) && Red(m, Kid(m, x, true)))
  }

  /** rb_tree.c:98-102.  Pushing red up from both kids leaves at most n itself red under red. */
  lemma FlipUp(m: Nodes, s: Spans, b: Heights, m': Nodes, b': Heights, n: Ptr)
    requires Struct(m, s) && Shade(m, s, b, NULL) && n in s && n != HEAD
    requires Red(m, Kid(m, n, false)) && Red(m, Kid(m, n, true))
    requires SameData(m, m') && SameKids(m, m')
    requires forall y {:trigger Red(m', y)} :: Red(m', y) ==
               (y == n || (y != Kid(m, n, false) && y != Kid(m, n, true) && Red(m, y)))
    requires b' == b[Kid(m, n, false) := Bh(b, n)][Kid(m, n, true) := Bh(b, n)]
    ensures Struct(m', s) && Shade(m', s, b', n)
    ensures Red(m', n) && !Red(m', Kid(m', n, false)) && !Red(m', Kid(m', n, true))
    ensures Calm(m', Kid(m', n, false)) && Calm(m', Kid(m', n, true))
  {
    StructFrame(m, m', s);
    var l, r := Kid(m, n, false), Kid(m, n, true);
    assert NodeOk(m, s, n) && NodeOk(m, s, l) && NodeOk(m, s, r);
    assert ShadeOk(m, b, n, NULL) && ShadeOk(m, b, l, NULL) && ShadeOk(m, b, r, NULL);
    forall x | x in s && x != HEAD ensures ShadeOk(m', b', x, n) {
      assert NodeOk(m, s, x) && ShadeOk(m, b, x, NULL);
    }
  }

  /** rb_tree.c:88-95.  z is a new red leaf, hung in the empty slot (p, d). */
  ghost predicate Hang(m: Nodes, s: Spans, m': Nodes, s': Spans, p: Ptr, d: bool, z: Ptr) {
    && p in s && p != HEAD && Kid(m, p, d) == NULL
    && z !in s && z != NULL && z in m && Kid(m, z, false) == NULL && Kid(m, z, true) == NULL && Red(m, z)
    && SLo(m, s, p, d) < Data(m, z) < SHi(m, s, p, d)
    && SameData(m, m') && SameRed(m, m') && KidSet(m, m', p, d, z)
    && s' == s[z := Span(SLo(m, s, p, d), SHi(m, s, p, d), p)]
  }

  lemma HangNode(m: Nodes, s: Spans, m': Nodes, s': Spans, p: Ptr, d: bool, z: Ptr, x: Ptr)
    requires Struct(m, s) && Hang(m, s, m', s', p, d, z) && x in s'
    ensures NodeOk(m', s', x)
  {
    assert NodeOk(m, s, p);
    if x != z { assert NodeOk(m, s, x); }
  }

  lemma HangShade(m: Nodes, s: Spans, b: Heights, m': Nodes, s': Spans, p: Ptr, d: bool, z: Ptr, x: Ptr)
    requires Struct(m, s) && Shade(m, s, b, NULL) && Hang(m, s, m', s', p, d, z) && x in s' && x != HEAD
    ensures ShadeOk(m', b[z := 0], x, z)
  {
    IsGood(m, s, b, p, NULL);
    if x != z { IsGood(m, s, b, x, NULL); }
  }

  lemma HangLeaf(m: Nodes, s: Spans, b: Heights, m': Nodes, s': Spans, p: Ptr, d: bool, z: Ptr)
    requires Struct(m, s) && Distinct(m, s) && Shade(m, s, b, NULL) && Hang(m, s, m', s', p, d, z)
    ensures Struct(m', s') && Distinct(m', s') && Shade(m', s', b[z := 0], z)
  {
    forall x | x in s' ensures NodeOk(m', s', x) { HangNode(m, s, m', s', p, d, z, x); }
    forall x | x in s' && x != HEAD ensures ShadeOk(m', b[z := 0], x, z) { HangShade(m, s, b, m', s', p, d, z, x); }
    forall x | x in s ensures Data(m, x) != Data(m, z) { EmptySlot(m, s, p, d, x); }
  }

  /** rb_tree.c:108-109.  Outer red-red: one rotation at the grandparent, whose other kid is not red. */
  ghost predicate OuterRepair(m: Nodes, s: Spans, b: Heights, m': Nodes, s': Spans, b': Heights, g: Ptr, last: bool,
                              p: Ptr, n: Ptr) {
    && g in s && g != HEAD && p == Kid(m, g, last) && n == Kid(m, p, last)
    && Red(m, p) && Red(m, n) && !Red(m, g) && !Red(m, Kid(m, g, !last))
    && !Red(m, Kid(m, p, !last)) && !Red(m, Kid(m, n, last)) && !Red(m, Kid(m, n, !last))
    && Rotated(m, s, m', s', g, !last)
    && (forall y {:trigger Red(m', y)} :: Red(m', y) == (y == g || (y != p && Red(m, y))))
    && b' == b[p := Bh(b, g)][g := Bh(b, p)]
  }

  lemma RepairOuterIn(m: Nodes, s: Spans, b: Heights, m': Nodes, s': Spans, b': Heights, g: Ptr, last: bool, p: Ptr,
                      n: Ptr)
    requires Good(m, s, b, g, n) && Good(m, s, b, p, n) && Good(m, s, b, n, n)
    requires OuterRepair(m, s, b, m', s', b', g, last, p, n)
    ensures ShadeOk(m', b', g, NULL) && ShadeOk(m', b', p, NULL) && ShadeOk(m', b', n, NULL)
  {
  }

  lemma RepairOuter(m: Nodes, s: Spans, b: Heights, m': Nodes, s': Spans, b': Heights, g: Ptr, last: bool, p: Ptr,
                    n: Ptr)
    requires Struct(m, s) && Shade(m, s, b, n) && OuterRepair(m, s, b, m', s', b', g, last, p, n)
    ensures Shade(m', s', b', NULL)
  {
    IsGood(m, s, b, g, n);
    IsGood(m, s, b, p, n);
    IsGood(m, s, b, n, n);
    RepairOuterIn(m, s, b, m', s', b', g, last, p, n);
    var K := {g, p, n};
    forall x | x in s' && x != HEAD ensures ShadeOk(m', b', x, NULL) {
      if x !in K {
        IsGood(m, s, b, x, n);
        Outside(m, s, b, m', b', K, g, p, x, n);
      }
    }
  }

  /** rb_tree.c:110-113.  Inner red-red: the parent is rotated first, then the grandparent. */
  ghost predicate InnerRepair(m: Nodes, s: Spans, b: Heights, m': Nodes, b': Heights, g: Ptr, last: bool, p: Ptr,
                              n: Ptr) {
    && g in s && g != HEAD && p == Kid(m, g, last) && n == Kid(m, p, !last)
    && Red(m, p) && Red(m, n) && !Red(m, g) && !Red(m, Kid(m, g, !last))
    && !Red(m, Kid(m, p, last)) && !Red(m, Kid(m, n, last)) && !Red(m, Kid(m, n, !last))
    && Lifted(m, s, m', g, last)
    && (forall y {:trigger Red(m', y)} :: Red(m', y) == (y == g || y == p || (y != n && Red(m, y))))
    && b' == b[n := Bh(b, g)][g := Bh(b, p)]
  }

  lemma RepairInnerIn(m: Nodes, s: Spans, b: Heights, m': Nodes, b': Heights, g: Ptr, last: bool, p: Ptr, n: Ptr)
    requires Good(m, s, b, g, n) && Good(m, s, b, p, n) && Good(m, s, b, n, n)
    requires InnerRepair(m, s, b, m', b', g, last, p, n)
    ensures ShadeOk(m', b', g, NULL) && ShadeOk(m', b', p, NULL) && ShadeOk(m', b', n, NULL)
  {
  }

  lemma RepairInner(m: Nodes, s: Spans, b: Heights, m': Nodes, s': Spans, b': Heights, g: Ptr, last: bool, p: Ptr,
                    n: Ptr)
    requires Struct(m, s) && Shade(m, s, b, n) && InnerRepair(m, s, b, m', b', g, last, p, n) && s'.Keys == s.Keys
    ensures Shade(m', s', b', NULL)
  {
    IsGood(m, s, b, g, n);
    IsGood(m, s, b, p, n);
    IsGood(m, s, b, n, n);
    RepairInnerIn(m, s, b, m', b', g, last, p, n);
    var K := {g, p, n};
    forall x | x in s' && x != HEAD ensures ShadeOk(m', b', x, NULL) {
      if x !in K {
        IsGood(m, s, b, x, n);
        Outside(m, s, b, m', b', K, g, n, x, n);
      }
    }
  }

  // ---------------------------------------------------------------- removal

  /** rb_tree.c:187-188.  The red kid on the far side comes up, so n itself turns red. */
  lemma PushTurn(m: Nodes, s: Spans, b: Heights, m': Nodes, s': Spans, b': Heights, n: Ptr, d: bool)
    requires Struct(m, s) && Shade(m, s, b, NULL) && n in s && n != HEAD
    requires !Red(m, n) && !Red(m, Kid(m, n, d)) && Red(m, Kid(m, n, !d))
    requires Rotated(m, s, m', s', n, d)
    requires forall y {:trigger Red(m', y)} :: Red(m', y) == (y == n || (y != Kid(m, n, !d) && Red(m, y)))
    requires b' == b[Kid(m, n, !d) := Bh(b, n)][n := Bh(b, Kid(m, n, !d))]
    ensures Shade(m', s', b', NULL)
  {
    var c := Kid(m, n, !d);
    IsGood(m, s, b, n, NULL);
    IsGood(m, s, b, c, NULL);
    assert ShadeOk(m', b', n, NULL) && ShadeOk(m', b', c, NULL);
    forall x | x in s' && x != HEAD ensures ShadeOk(m', b', x, NULL) {
      if x != n && x != c {
        IsGood(m, s, b, x, NULL);
        Outside(m, s, b, m', b', {n, c}, n, c, x, NULL);
      }
    }
  }

  /** Either p is red, or it is the root, whose black height nobody compares. */
  ghost predicate Spare(m: Nodes, s: Spans, p: Ptr) {
    p in s && p != HEAD && (Red(m, p) || Par(s, p) == HEAD)
  }

  /** Where removal stands before it fixes p: both kids of p are black, and n has no red kid. */
  ghost predicate Push(m: Nodes, s: Spans, p: Ptr, last: bool, n: Ptr, z: Ptr) {
    && Spare(m, s, p) && n == Kid(m, p, last) && z == Kid(m, p, !last)
    && n != NULL && z != NULL && !Red(m, n) && !Red(m, z)
    && !Red(m, Kid(m, n, last)) && !Red(m, Kid(m, n, !last))
  }

  /** rb_tree.c:201-206.  Red moves from p down to n and its sibling. */
  ghost predicate FlipPush(m: Nodes, s: Spans, b: Heights, m': Nodes, b': Heights, p: Ptr, last: bool, n: Ptr, z: Ptr) {
    && Push(m, s, p, last, n, z) && !Red(m, Kid(m, z, last)) && !Red(m, Kid(m, z, !last))
    && SameData(m, m') && SameKids(m, m')
    && (forall y {:trigger Red(m', y)} :: Red(m', y) == (y == n || y == z || (y != p && Red(m, y))))
    && b' == b[p := Bh(b, n)][n := Bh(b, n) - 1][z := Bh(b, n) - 1]
  }

  lemma PushFlipIn(m: Nodes, s: Spans, b: Heights, m': Nodes, b': Heights, p: Ptr, last: bool, n: Ptr, z: Ptr)
    requires Good(m, s, b, p, NULL) && Good(m, s, b, n, NULL) && Good(m, s, b, z, NULL)
    requires FlipPush(m, s, b, m', b', p, last, n, z)
    ensures ShadeOk(m', b', p, NULL) && ShadeOk(m', b', n, NULL) && ShadeOk(m', b', z, NULL)
  {
  }

  lemma PushFlip(m: Nodes, s: Spans, b: Heights, m': Nodes, b': Heights, p: Ptr, last: bool, n: Ptr, z: Ptr)
    requires Struct(m, s) && Shade(m, s, b, NULL) && FlipPush(m, s, b, m', b', p, last, n, z)
    ensures Struct(m', s) && Shade(m', s, b', NULL)
  {
    StructFrame(m, m', s);
    IsGood(m, s, b, p, NULL);
    IsGood(m, s, b, n, NULL);
    IsGood(m, s, b, z, NULL);
    PushFlipIn(m, s, b, m', b', p, last, n, z);
    var K := {p, n, z};
    forall x | x in s && x != HEAD ensures ShadeOk(m', b', x, NULL) {
      if x !in K {
        IsGood(m, s, b, x, NULL);
        Outside(m, s, b, m', b', K, p, p, x, NULL);
      }
    }
  }

  /** rb_tree.c:210-222 with a red far nephew a. */
  ghost predicate OuterPush(m: Nodes, s: Spans, b: Heights, m': Nodes, s': Spans, b': Heights,
                            p: Ptr, last: bool, n: Ptr, z: Ptr, a: Ptr) {
    && Push(m, s, p, last, n, z) && a == Kid(m, z, !last) && Red(m, a)
    && Rotated(m, s, m', s', p, last)
    && (forall y {:trigger Red(m', y)} :: Red(m', y) == (y == n || y == z || (y != p && y != a && Red(m, y))))
    && b' == b[p := Bh(b, n)][n := Bh(b, n) - 1][a := Bh(b, n)]
  }

  lemma PushOuterIn(m: Nodes, s: Spans, b: Heights, m': Nodes, s': Spans, b': Heights,
                    p: Ptr, last: bool, n: Ptr, z: Ptr, a: Ptr)
    requires Good(m, s, b, p, NULL) && Good(m, s, b, n, NULL) && Good(m, s, b, z, NULL) && Good(m, s, b, a, NULL)
    requires OuterPush(m, s, b, m', s', b', p, last, n, z, a)
    ensures ShadeOk(m', b', p, NULL) && ShadeOk(m', b', n, NULL) && Bh(b', z) == Bh(b, n)
  {
  }

  lemma PushOuterTop(m: Nodes, s: Spans, b: Heights, m': Nodes, s': Spans, b': Heights,
                     p: Ptr, last: bool, n: Ptr, z: Ptr, a: Ptr)
    requires Good(m, s, b, p, NULL) && Good(m, s, b, n, NULL) && Good(m, s, b, z, NULL) && Good(m, s, b, a, NULL)
    requires OuterPush(m, s, b, m', s', b', p, last, n, z, a)
    ensures ShadeOk(m', b', z, NULL) && ShadeOk(m', b', a, NULL)
  {
  }

  lemma PushOuter(m: Nodes, s: Spans, b: Heights, m': Nodes, s': Spans, b': Heights,
                  p: Ptr, last: bool, n: Ptr, z: Ptr, a: Ptr)
    requires Struct(m, s) && Shade(m, s, b, NULL) && OuterPush(m, s, b, m', s', b', p, last, n, z, a)
    ensures Shade(m', s', b', NULL)
  {
    IsGood(m, s, b, p, NULL);
    IsGood(m, s, b, n, NULL);
    IsGood(m, s, b, z, NULL);
    IsGood(m, s, b, a, NULL);
    PushOuterIn(m, s, b, m', s', b', p, last, n, z, a);
    PushOuterTop(m, s, b, m', s', b', p, last, n, z, a);
    var K := {p, n, z, a};
    forall x | x in s' && x != HEAD ensures ShadeOk(m', b', x, NULL) {
      if x !in K {
        IsGood(m, s, b, x, NULL);
        Outside(m, s, b, m', b', K, p, z, x, NULL);
      }
    }
  }

  /** rb_tree.c:213-222 with only the near nephew a red. */
  ghost predicate InnerPush(m: Nodes, s: Spans, b: Heights, m': Nodes, b': Heights,
                            p: Ptr, last: bool, n: Ptr, z: Ptr, a: Ptr) {
    && Push(m, s, p, last, n, z) && a == Kid(m, z, last) && Red(m, a) && !Red(m, Kid(m, z, !last))
    && Lifted(m, s, m', p, !last)
    && (forall y {:trigger Red(m', y)} :: Red(m', y) == (y == n || y == a || (y != p && y != z && Red(m, y))))
    && b' == b[p := Bh(b, n)][n := Bh(b, n) - 1][a := Bh(b, n)]
  }

  lemma PushInnerIn(m: Nodes, s: Spans, b: Heights, m': Nodes, b': Heights, p: Ptr, last: bool, n: Ptr, z: Ptr, a: Ptr)
    requires Good(m, s, b, p, NULL) && Good(m, s, b, n, NULL) && Good(m, s, b, z, NULL) && Good(m, s, b, a, NULL)
    requires InnerPush(m, s, b, m', b', p, last, n, z, a)
    ensures ShadeOk(m', b', p, NULL) && ShadeOk(m', b', n, NULL)
  {
  }

  lemma PushInnerTop(m: Nodes, s: Spans, b: Heights, m': Nodes, b': Heights, p: Ptr, last: bool, n: Ptr, z: Ptr, a: Ptr)
    requires Good(m, s, b, p, NULL) && Good(m, s, b, n, NULL) && Good(m, s, b, z, NULL) && Good(m, s, b, a, NULL)
    requires InnerPush(m, s, b, m', b', p, last, n, z, a)
    ensures ShadeOk(m', b', z, NULL) && ShadeOk(m', b', a, NULL)
  {
  }

  lemma PushInner(m: Nodes, s: Spans, b: Heights, m': Nodes, s': Spans, b': Heights,
                  p: Ptr, last: bool, n: Ptr, z: Ptr, a: Ptr)
    requires Struct(m, s) && Shade(m, s, b, NULL) && InnerPush(m, s, b, m', b', p, last, n, z, a) && s'.Keys == s.Keys
    ensures Shade(m', s', b', NULL)
  {
    IsGood(m, s, b, p, NULL);
    IsGood(m, s, b, n, NULL);
    IsGood(m, s, b, z, NULL);
    IsGood(m, s, b, a, NULL);
    PushInnerIn(m, s, b, m', b', p, last, n, z, a);
    PushInnerTop(m, s, b, m', b', p, last, n, z, a);
    var K := {p, n, z, a};
    forall x | x in s' && x != HEAD ensures ShadeOk(m', b', x, NULL) {
      if x !in K {
        IsGood(m, s, b, x, NULL);
        Outside(m, s, b, m', b', K, p, a, x, NULL);
      }
    }
  }

  // ---------------------------------------------------------------- the end of both operations

  /** Painting the root black shifts every black height alike. */
  lemma BlackRoot(m: Nodes, s: Spans, b: Heights, m': Nodes, root: Ptr)
    requires Struct(m, s) && Shade(m, s, b, NULL) && root == Kid(m, HEAD, true) && root != NULL
    requires SameKids(m, m') && SameData(m, m') && RedSet(m, m', root, false)
    ensures Struct(m', s) && Shade(m', s, b[root := Bh(b, root) + 1 - Weight(m, root)], NULL)
  {
    StructFrame(m, m', s);
    assert NodeOk(m, s, HEAD);
    forall x | x in s && x != HEAD ensures ShadeOk(m', b[root := Bh(b, root) + 1 - Weight(m, root)], x, NULL) {
      IsGood(m, s, b, x, NULL);
    }
  }
}
