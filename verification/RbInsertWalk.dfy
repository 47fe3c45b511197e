/**
 The descent of insert_rbnode (kernel/rb_tree.c:85-136): what its four pointers mean from one round to
 the next.  After a rotation `t` (and after a double rotation `g` too) no longer names the true
 ancestor; the walk is set up so that no repair can be due before they are right again.
 */
module RbInsertWalk {
  import opened RbShape
  import opened RbColor

  /** The parent slot the walk is about to look into; the root hangs from the dummy. */
  function Up(p: Ptr): Ptr { if p == NULL then HEAD else p }
  function UpDir(p: Ptr, dir: bool): bool { p == NULL || dir }

  /** A red-red at n can be repaired: g and t are the true ancestors and the uncle is not red. */
  ghost predicate Ready(m: Nodes, s: Spans, t: Ptr, g: Ptr, last: bool) {
    g != NULL && Par(s, g) == t && !Red(m, Kid(m, g, !last))
  }

  ghost predicate Walk(m: Nodes, s: Spans, t: Ptr, g: Ptr, p: Ptr, n: Ptr, dir: bool, last: bool, skew: bool,
                       key: int) {
    && Up(p) in s && (p != NULL ==> p != HEAD)
    && Kid(m, Up(p), UpDir(p, dir)) == n
    && SLo(m, s, Up(p), UpDir(p, dir)) < key < SHi(m, s, Up(p), UpDir(p, dir))
    && (p == NULL ==> g == NULL && !skew && n != NULL && !Red(m, n))
    && (g == NULL ==> t == HEAD)
    && (!skew && p != NULL ==> Par(s, p) == Up(g) && Calm(m, p))
    && (!skew && g != NULL ==> g in s && g != HEAD && Kid(m, g, last) == p)
    && (!skew && Red(m, p) ==> Calm(m, n) || Ready(m, s, t, g, last))
    && (skew ==> n != NULL && Red(m, n) && !Red(m, p) && Data(m, n) != key && Calm(m, Kid(m, n, Data(m, n) < key)))
  }

  /** Every round brings the key into a smaller interval; a skewed round only gets back on track. */
  ghost function Left(m: Nodes, s: Spans, p: Ptr, n: Ptr, dir: bool, skew: bool, key: int): int {
    if skew then 2 * (SHi(m, s, n, Data(m, n) < key) - SLo(m, s, n, Data(m, n) < key)) + 1
    else 2 * (SHi(m, s, Up(p), UpDir(p, dir)) - SLo(m, s, Up(p), UpDir(p, dir)))
  }

  /** Nothing is due at n. */
  lemma NextPlain(m: Nodes, s: Spans, b: Heights, t: Ptr, g: Ptr, p: Ptr, n: Ptr, dir: bool, last: bool, skew: bool,
                  key: int)
    requires Struct(m, s) && Shade(m, s, b, NULL) && Walk(m, s, t, g, p, n, dir, last, skew, key)
    requires n != NULL && Calm(m, n) && Data(m, n) != key
    ensures var d := Data(m, n) < key;
            && Walk(m, s, if g != NULL then g else t, p, n, Kid(m, n, d), d, dir, false, key)
            && 0 <= Left(m, s, n, Kid(m, n, d), d, false, key) < Left(m, s, p, n, dir, skew, key)
  {
    var u := Up(p);
    assert NodeOk(m, s, u);
    IsGood(m, s, b, n, NULL);
    if p != NULL {
      IsGood(m, s, b, p, NULL);
      if g != NULL && !skew { IsGood(m, s, b, g, NULL); }
    }
    var k := Kid(m, n, Data(m, n) < key);
    if k != NULL { IsGood(m, s, b, k, NULL); }
  }

  /** A red exc whose parent is not red is no exception. */
  lemma NoException(m: Nodes, s: Spans, b: Heights, n: Ptr)
    requires Struct(m, s) && Shade(m, s, b, n) && n in s && n != HEAD && !Red(m, Par(s, n))
    ensures Shade(m, s, b, NULL)
  {
    forall x | x in s && x != HEAD ensures ShadeOk(m, b, x, NULL) { IsGood(m, s, b, x, n); }
  }

  /** n was flipped and its parent is not red. */
  lemma NextFlip(m: Nodes, s: Spans, b: Heights, m': Nodes, b': Heights,
                 t: Ptr, g: Ptr, p: Ptr, n: Ptr, dir: bool, last: bool, skew: bool, key: int)
    requires Struct(m, s) && Shade(m, s, b, NULL) && Walk(m, s, t, g, p, n, dir, last, skew, key)
    requires n != NULL && !Calm(m, n) && Data(m, n) != key && !Red(m, p)
    requires SameData(m, m') && SameKids(m, m') && Struct(m', s) && Shade(m', s, b', n)
    requires forall y {:trigger Red(m', y)} :: Red(m', y) ==
               (y == n || (y != Kid(m, n, false) && y != Kid(m, n, true) && Red(m, y)))
    requires Calm(m', Kid(m', n, false)) && Calm(m', Kid(m', n, true))
    ensures Shade(m', s, b', NULL)
    ensures var d := Data(m', n) < key;
            && Walk(m', s, if g != NULL then g else t, p, n, Kid(m', n, d), d, dir, false, key)
            && 0 <= Left(m', s, n, Kid(m', n, d), d, false, key) < Left(m, s, p, n, dir, skew, key)
  {
    var u := Up(p);
    assert NodeOk(m, s, u);
    IsGood(m, s, b, n, NULL);
    NoException(m', s, b', n);
    if p != NULL {
      IsGood(m, s, b, p, NULL);
      if g != NULL && !skew { IsGood(m, s, b, g, NULL); }
    }
  }

  /** The repair at n used one rotation; `t` is stale for one round. */
  lemma NextOuter(m: Nodes, s: Spans, b: Heights, m': Nodes, s': Spans, b': Heights,
                  t: Ptr, g: Ptr, p: Ptr, n: Ptr, last: bool, key: int)
    requires Struct(m, s) && Shade(m, s, b, n) && OuterRepair(m, s, b, m', s', b', g, last, p, n) && Struct(m', s')
    requires Calm(m, Kid(m, n, false)) && Calm(m, Kid(m, n, true))
    requires SLo(m, s, p, last) < key < SHi(m, s, p, last) && Data(m, n) != key
    ensures var d := Data(m', n) < key;
            && Walk(m', s', g, p, n, Kid(m', n, d), d, last, false, key)
            && 0 <= Left(m', s', n, Kid(m', n, d), d, false, key) < Left(m, s, p, n, last, false, key)
  {
    IsGood(m, s, b, g, n);
    IsGood(m, s, b, p, n);
    IsGood(m, s, b, n, n);
    var k := Kid(m, n, Data(m, n) < key);
    IsGood(m, s, b, k, n);
  }

  /** The repair at n used two rotations; the walk passes p or g once more before it is on track. */
  lemma NextInner(m: Nodes, s: Spans, b: Heights, m1: Nodes, s1: Spans, m': Nodes, s': Spans, b': Heights,
                  g: Ptr, p: Ptr, n: Ptr, last: bool, key: int)
    requires Struct(m, s) && Shade(m, s, b, n) && InnerRepair(m, s, b, m', b', g, last, p, n) && Struct(m', s')
    requires Rotated(m, s, m1, s1, p, last) && Rotated(m1, s1, m', s', g, !last)
    requires Calm(m, Kid(m, n, false)) && Calm(m, Kid(m, n, true))
    requires SLo(m, s, p, !last) < key < SHi(m, s, p, !last) && Data(m, n) != key
    ensures var d := Data(m', n) < key;
            && Walk(m', s', g, p, n, Kid(m', n, d), d, !last, true, key)
            && 0 <= Left(m', s', n, Kid(m', n, d), d, true, key) < Left(m, s, p, n, !last, false, key)
  {
    IsGood(m, s, b, g, n);
    IsGood(m, s, b, p, n);
    IsGood(m, s, b, n, n);
    var k := Kid(m, n, Data(m, n) < key);
    IsGood(m, s, b, k, n);
  }

  /** rb_tree.c:86-102: either the new node cur was hung under p, or n was flipped, or nothing was due. */
  ghost predicate Touched(m: Nodes, s: Spans, b: Heights, m': Nodes, s': Spans, b': Heights, p: Ptr, n: Ptr, cur: Ptr,
                          dir: bool) {
    && SameData(m, m')
    && if n == NULL then
         && cur !in s && cur != NULL && cur in m && Red(m, cur) && Kid(m, cur, false) == NULL
         && Kid(m, cur, true) == NULL
         && KidSet(m, m', p, dir, cur) && SameRed(m, m') && p != NULL
         && s' == s[cur := Span(SLo(m, s, p, dir), SHi(m, s, p, dir), p)]
       else
         && cur == n && s' == s && SameKids(m, m')
         && if Calm(m, n) then m' == m && b' == b else Flipped(m, m', n)
  }

  ghost predicate Flipped(m: Nodes, m': Nodes, n: Ptr) {
    && (forall y {:trigger Red(m', y)} :: Red(m', y) ==
         (y == n || (y != Kid(m, n, false) && y != Kid(m, n, true) && Red(m, y))))
    && Calm(m', Kid(m', n, false)) && Calm(m', Kid(m', n, true))
  }

  /** When n has turned red under a red p, everything the repair relies on is in place. */
  lemma RepairDue(m: Nodes, s: Spans, b: Heights, m': Nodes, s': Spans, b': Heights,
                  t: Ptr, g: Ptr, p: Ptr, n: Ptr, cur: Ptr, dir: bool, last: bool, skew: bool, key: int)
    requires Struct(m, s) && Shade(m, s, b, NULL) && Walk(m, s, t, g, p, n, dir, last, skew, key)
    requires Struct(m', s') && Shade(m', s', b', cur) && Red(m', cur) && Red(m', p)
    requires Touched(m, s, b, m', s', b', p, n, cur, dir)
    ensures n == NULL || !Calm(m, n)
    ensures !skew && g in s' && g != HEAD && Kid(m', g, last) == p && Par(s', g) == t && p != NULL
    ensures Kid(m', p, dir) == cur && !Red(m', g) && !Red(m', Kid(m', g, !last)) && !Red(m', Kid(m', p, !dir))
    ensures !Red(m', Kid(m', cur, last)) && !Red(m', Kid(m', cur, !last))
    ensures n != NULL ==> Calm(m', Kid(m', n, false)) && Calm(m', Kid(m', n, true))
    ensures n != NULL ==> SLo(m', s', p, dir) < key < SHi(m', s', p, dir)
    ensures n != NULL ==> Left(m', s', p, n, dir, false, key) == Left(m, s, p, n, dir, skew, key)
  {
    assert NodeOk(m, s, Up(p));
    IsGood(m, s, b, p, NULL);
    if n != NULL { IsGood(m, s, b, n, NULL); }
    if g != NULL && !skew { IsGood(m, s, b, g, NULL); }
  }

  /** After the comparison at n the walk goes on, and has less ahead of it than `more`. */
  ghost predicate Onward(m: Nodes, s: Spans, t: Ptr, g: Ptr, p: Ptr, n: Ptr, dir: bool, skew: bool, key: int,
                         more: int) {
    Data(m, n) != key ==>
      var d := Data(m, n) < key;
      && Walk(m, s, if g != NULL then g else t, p, n, Kid(m, n, d), d, dir, skew, key)
      && 0 <= Left(m, s, n, Kid(m, n, d), d, skew, key) < more
  }

  /** A repair was due and is done; (m1, s1) is the state between its two rotations. */
  lemma NextRepaired(m: Nodes, s: Spans, b: Heights, m1: Nodes, s1: Spans, m': Nodes, s': Spans, b': Heights,
                     t: Ptr, g: Ptr, p: Ptr, n: Ptr, dir: bool, last: bool, key: int)
    requires Struct(m, s) && Shade(m, s, b, n) && Struct(m', s') && Kid(m, p, dir) == n && n != NULL && g != NULL
    requires Calm(m, Kid(m, n, false)) && Calm(m, Kid(m, n, true))
    requires SLo(m, s, p, dir) < key < SHi(m, s, p, dir)
    requires Kid(m, p, last) == n ==> OuterRepair(m, s, b, m', s', b', g, last, p, n)
    requires Kid(m, p, last) != n ==>
               && InnerRepair(m, s, b, m', b', g, last, p, n) && SameData(m, m')
               && Rotated(m, s, m1, s1, p, last) && Rotated(m1, s1, m', s', g, !last)
    ensures Onward(m', s', t, g, p, n, dir, dir != last, key, Left(m, s, p, n, dir, false, key))
  {
    if Data(m, n) != key {
      IsGood(m, s, b, g, n);
      IsGood(m, s, b, p, n);
      if dir == last {
        NextOuter(m, s, b, m', s', b', t, g, p, n, last, key);
      } else {
        NextInner(m, s, b, m1, s1, m', s', b', g, p, n, last, key);
      }
    }
  }

  /** No repair was due. */
  lemma NextQuiet(m: Nodes, s: Spans, b: Heights, m': Nodes, s': Spans, b': Heights,
                  t: Ptr, g: Ptr, p: Ptr, n: Ptr, cur: Ptr, dir: bool, last: bool, skew: bool, key: int)
    requires Struct(m, s) && Shade(m, s, b, NULL) && Walk(m, s, t, g, p, n, dir, last, skew, key)
    requires Struct(m', s') && Shade(m', s', b', cur) && !(Red(m', cur) && Red(m', p))
    requires Touched(m, s, b, m', s', b', p, n, cur, dir)
    ensures Shade(m', s', b', NULL)
    ensures n != NULL ==> Onward(m', s', t, g, p, n, dir, false, key, Left(m, s, p, n, dir, skew, key))
  {
    assert NodeOk(m, s, Up(p));
    if n == NULL {
      NoException(m', s', b', cur);
    } else if Calm(m, n) {
      if Data(m, n) != key { NextPlain(m, s, b, t, g, p, n, dir, last, skew, key); }
    } else {
      IsGood(m, s, b, n, NULL);
      assert Red(m', n) && Red(m', p) == Red(m, p);
      NoException(m', s', b', n);
      if Data(m, n) != key { NextFlip(m, s, b, m', b', t, g, p, n, dir, last, skew, key); }
    }
  }
}
