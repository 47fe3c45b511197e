/**
 The descent of remove_rbnode (kernel/rb_tree.c:170-233): where the found node f and its parent fp
 stand while red is pushed down along the search path.
 */
module RbRemoveWalk {
  import opened RbShape
  import opened RbColor
  import opened RbUnlink
  import opened Queries

  /** The verdict of a search on a node at an address, with a size. */
  type Judge = (Ptr, int) -> int

  ghost predicate Judges(h: Judge, q: Query)
    requires Sensible(q)
  {
    forall x, d {:trigger h(x, d)} :: h(x, d) == Verdict(q, x, d)
  }

  lemma JudgeFor(q: Query) returns (h: Judge)
    requires Sensible(q)
    ensures Judges(h, q)
  {
    h := (x, d) => if q.Fit? && q.align < 1 then 0 else Verdict(q, x, d);
  }

  /** Searches whose verdict depends on the size alone, and grows with it. */
  ghost predicate BySize(q: Query) { q.Exact? || q.align == 1 }

  /**
   The search stands at n and will go on towards dir.  If a node was found, its size bounds the rest of
   the search from above and fp is its true parent; if none was, nothing bounds a best-fit search.
   */
  ghost predicate Trail(m: Nodes, s: Spans, q: Query, h: Judge, p: Ptr, n: Ptr, dir: bool, f: Ptr, fp: Ptr) {
    && Sensible(q) && n in s
    && (n == HEAD ==> dir && p == NULL && f == NULL)
    && (n != HEAD ==> p == Par(s, n))
    && (f != NULL ==>
          f in s && f != HEAD && Par(s, f) == fp && Data(m, f) == SHi(m, s, n, dir) && h(f, Data(m, f)) == 0)
    && (f == NULL && q.Fit? ==> dir && SHi(m, s, n, dir) == TOP && (n != HEAD ==> h(n, Data(m, n)) != 0))
    && (f == NULL && q.Exact? ==> q.size < SHi(m, s, n, dir))
    && (BySize(q) ==> SLo(m, s, n, dir) < q.size)
  }

  ghost function Width(m: Nodes, s: Spans, n: Ptr, dir: bool): int { SHi(m, s, n, dir) - SLo(m, s, n, dir) }

  lemma VerdictOne(q: Query, x: Ptr, data: int)
    requires Sensible(q) && 0 < data < TOP
    ensures BySize(q) ==> (Verdict(q, x, data) < 0 <==> data < q.size)
    ensures q.Fit? ==> Verdict(q, x, data) <= 0
    ensures q.Exact? ==> (Verdict(q, x, data) == 0 <==> data == q.size)
    ensures Verdict(q, x, data) >= 0 ==> data >= q.size
  {
    if q.Fit? && q.align == 1 {
      GapOne(x + 4);
    }
  }

  lemma GapOne(u: int)
    ensures Gap(u, 1) == 0
  {
    assert u % 1 == 0;
  }

  /** rb_tree.c:173-183: one step down, and the verdict on the node met. */
  lemma StepDown(m: Nodes, s: Spans, q: Query, h: Judge, p: Ptr, n: Ptr, dir: bool, f: Ptr, fp: Ptr)
    requires Struct(m, s) && Trail(m, s, q, h, p, n, dir, f, fp) && Judges(h, q) && Kid(m, n, dir) != NULL
    ensures var c := Kid(m, n, dir); var res := h(c, Data(m, c));
            && c in s && c != HEAD && Par(s, c) == n
            && Trail(m, s, q, h, n, c, res < 0, if res == 0 then c else f, if res == 0 then n else fp)
            && 0 <= Width(m, s, c, res < 0) < Width(m, s, n, dir)
  {
    var c := Kid(m, n, dir);
    assert NodeOk(m, s, n);
    assert NodeOk(m, s, c);
    Inside(m, s, c);
    VerdictOne(q, c, Data(m, c));
    if f != NULL {
      assert NodeOk(m, s, f);
      Inside(m, s, f);
      VerdictOne(q, f, Data(m, f));
    }
  }

  // ---------------------------------------------------------------- the pushes keep the trail

  lemma KeepTurn(m: Nodes, s: Spans, m': Nodes, s': Spans, q: Query, h: Judge, p: Ptr, n: Ptr, dir: bool, f: Ptr,
                 fp: Ptr)
    requires Struct(m, s) && Trail(m, s, q, h, p, n, dir, f, fp) && n != HEAD && Kid(m, n, !dir) != NULL
    requires Rotated(m, s, m', s', n, dir)
    ensures Trail(m', s', q, h, Kid(m, n, !dir), n, dir, f, if f == n then Kid(m, n, !dir) else fp)
    ensures Width(m', s', n, dir) == Width(m, s, n, dir)
  {
    var c := Kid(m, n, !dir);
    assert NodeOk(m, s, n) && NodeOk(m, s, c);
    if f != NULL { assert NodeOk(m, s, f); }
    var k := Kid(m, c, dir);
    if k != NULL { assert NodeOk(m, s, k); }
  }

  lemma KeepSame(m: Nodes, m': Nodes, s: Spans, q: Query, h: Judge, p: Ptr, n: Ptr, dir: bool, f: Ptr, fp: Ptr)
    requires Trail(m, s, q, h, p, n, dir, f, fp) && SameData(m, m')
    ensures Trail(m', s, q, h, p, n, dir, f, fp) && Width(m', s, n, dir) == Width(m, s, n, dir)
  {
  }

  lemma KeepOuter(m: Nodes, s: Spans, m': Nodes, s': Spans, q: Query, h: Judge, p: Ptr, last: bool, n: Ptr, dir: bool,
                  f: Ptr, fp: Ptr)
    requires Struct(m, s) && Trail(m, s, q, h, p, n, dir, f, fp) && n != HEAD && p != HEAD && p in s
    requires n == Kid(m, p, last) && Kid(m, p, !last) != NULL && Rotated(m, s, m', s', p, last)
    ensures Trail(m', s', q, h, p, n, dir, f, if f == p then Kid(m, p, !last) else fp)
    ensures Width(m', s', n, dir) == Width(m, s, n, dir)
  {
    var z := Kid(m, p, !last);
    assert NodeOk(m, s, p) && NodeOk(m, s, n) && NodeOk(m, s, z);
    if f != NULL { assert NodeOk(m, s, f); }
    var k := Kid(m, z, last);
    if k != NULL { assert NodeOk(m, s, k); }
  }

  /** The first half of the double rotation happens beside the path. */
  lemma KeepBeside(m: Nodes, s: Spans, m': Nodes, s': Spans, q: Query, h: Judge, p: Ptr, last: bool, n: Ptr, dir: bool,
                   f: Ptr, fp: Ptr)
    requires Struct(m, s) && Trail(m, s, q, h, p, n, dir, f, fp) && n != HEAD && p != HEAD && p in s
    requires n == Kid(m, p, last) && Kid(m, p, !last) != NULL && Kid(m, Kid(m, p, !last), last) != NULL
    requires Rotated(m, s, m', s', Kid(m, p, !last), !last)
    ensures Trail(m', s', q, h, p, n, dir, f, fp) && Width(m', s', n, dir) == Width(m, s, n, dir)
    ensures Kid(m', p, last) == n && Kid(m', p, !last) == Kid(m, Kid(m, p, !last), last)
  {
    var z := Kid(m, p, !last);
    var a := Kid(m, z, last);
    assert NodeOk(m, s, p) && NodeOk(m, s, n) && NodeOk(m, s, z) && NodeOk(m, s, a);
    if f != NULL { assert NodeOk(m, s, f); }
    var k := Kid(m, a, !last);
    if k != NULL { assert NodeOk(m, s, k); }
  }

  /** When n and its kids are black below a pushed p, the sibling is there and all is ready for a push. */
  lemma PushReady(m: Nodes, s: Spans, b: Heights, p: Ptr, last: bool, n: Ptr)
    requires Struct(m, s) && Shade(m, s, b, NULL) && p in s && Pushed(m, s, p, last)
    requires n == Kid(m, p, last) && n != NULL && !Red(m, n)
    requires !Red(m, Kid(m, n, false)) && !Red(m, Kid(m, n, true))
    ensures p == HEAD ==> Kid(m, p, !last) == NULL
    ensures p != HEAD ==> Push(m, s, p, last, n, Kid(m, p, !last))
  {
    assert NodeOk(m, s, p);
    if p != HEAD {
      IsGood(m, s, b, p, NULL);
      IsGood(m, s, b, n, NULL);
    }
  }

  lemma SwungOuter(m: Nodes, s: Spans, b: Heights, m': Nodes, s': Spans,
                   q: Query, h: Judge, p: Ptr, last: bool, n: Ptr, z: Ptr, a: Ptr, dir: bool, f: Ptr, fp: Ptr)
    returns (b': Heights)
    requires Struct(m, s) && Shade(m, s, b, NULL) && Trail(m, s, q, h, p, n, dir, f, fp)
    requires Push(m, s, p, last, n, z) && a == Kid(m, z, !last) && Red(m, a) && Rotated(m, s, m', s', p, last)
    requires forall y {:trigger Red(m', y)} :: Red(m', y) == (y == n || y == z || (y != p && y != a && Red(m, y)))
    ensures Shade(m', s', b', NULL) && Trail(m', s', q, h, p, n, dir, f, if f == p then z else fp)
    ensures Width(m', s', n, dir) == Width(m, s, n, dir)
  {
    b' := b[p := Bh(b, n)][n := Bh(b, n) - 1][a := Bh(b, n)];
    PushOuter(m, s, b, m', s', b', p, last, n, z, a);
    assert NodeOk(m, s, p);
    KeepOuter(m, s, m', s', q, h, p, last, n, dir, f, fp);
  }

  lemma SwungInner(m: Nodes, s: Spans, b: Heights, m1: Nodes, s1: Spans, m': Nodes, s': Spans,
                   q: Query, h: Judge, p: Ptr, last: bool, n: Ptr, z: Ptr, a: Ptr, dir: bool, f: Ptr, fp: Ptr)
    returns (b': Heights)
    requires Struct(m, s) && Shade(m, s, b, NULL) && Trail(m, s, q, h, p, n, dir, f, fp) && Struct(m1, s1)
    requires Push(m, s, p, last, n, z) && a == Kid(m, z, last) && Red(m, a) && !Red(m, Kid(m, z, !last))
    requires Rotated(m, s, m1, s1, z, !last) && Rotated(m1, s1, m', s', p, last)
    requires forall y {:trigger Red(m', y)} :: Red(m', y) == (y == n || y == a || (y != p && y != z && Red(m, y)))
    ensures Shade(m', s', b', NULL) && Trail(m', s', q, h, p, n, dir, f, if f == p then a else fp)
    ensures Width(m', s', n, dir) == Width(m, s, n, dir)
  {
    b' := b[p := Bh(b, n)][n := Bh(b, n) - 1][a := Bh(b, n)];
    assert NodeOk(m, s, p);
    RotTwice(m, s, m1, s1, m', s', p, !last);
    PushInner(m, s, b, m', s', b', p, last, n, z, a);
    KeepBeside(m, s, m1, s1, q, h, p, last, n, dir, f, fp);
    KeepOuter(m1, s1, m', s', q, h, p, last, n, dir, f, fp);
  }

  lemma FlippedDown(m: Nodes, s: Spans, b: Heights, m': Nodes,
                    q: Query, h: Judge, p: Ptr, last: bool, n: Ptr, z: Ptr, dir: bool, f: Ptr, fp: Ptr)
    returns (b': Heights)
    requires Struct(m, s) && Shade(m, s, b, NULL) && Trail(m, s, q, h, p, n, dir, f, fp)
    requires Push(m, s, p, last, n, z) && !Red(m, Kid(m, z, last)) && !Red(m, Kid(m, z, !last))
    requires SameData(m, m') && SameKids(m, m')
    requires forall y {:trigger Red(m', y)} :: Red(m', y) == (y == n || y == z || (y != p && Red(m, y)))
    ensures Struct(m', s) && Shade(m', s, b', NULL) && Trail(m', s, q, h, p, n, dir, f, fp)
    ensures Width(m', s, n, dir) == Width(m, s, n, dir)
  {
    b' := b[p := Bh(b, n)][n := Bh(b, n) - 1][z := Bh(b, n) - 1];
    PushFlip(m, s, b, m', b', p, last, n, z);
    KeepSame(m, m', s, q, h, p, n, dir, f, fp);
  }

  lemma TurnedDown(m: Nodes, s: Spans, b: Heights, m': Nodes, s': Spans, q: Query, h: Judge, p: Ptr, n: Ptr, dir: bool,
                   f: Ptr, fp: Ptr)
    returns (b': Heights)
    requires Struct(m, s) && Shade(m, s, b, NULL) && Trail(m, s, q, h, p, n, dir, f, fp) && n != HEAD
    requires !Red(m, n) && !Red(m, Kid(m, n, dir)) && Red(m, Kid(m, n, !dir)) && Rotated(m, s, m', s', n, dir)
    requires forall y {:trigger Red(m', y)} :: Red(m', y) == (y == n || (y != Kid(m, n, !dir) && Red(m, y)))
    ensures Shade(m', s', b', NULL)
    ensures Trail(m', s', q, h, Kid(m, n, !dir), n, dir, f, if f == n then Kid(m, n, !dir) else fp)
    ensures Width(m', s', n, dir) == Width(m, s, n, dir)
  {
    b' := b[Kid(m, n, !dir) := Bh(b, n)][n := Bh(b, Kid(m, n, !dir))];
    PushTurn(m, s, b, m', s', b', n, dir);
    KeepTurn(m, s, m', s', q, h, p, n, dir, f, fp);
  }

  // ---------------------------------------------------------------- what the search has found

  /** The verdict of the whole search: which tree node it settles on, or none. */
  ghost predicate Outcome(m: Nodes, s: Spans, q: Query, f: Ptr) {
    && Sensible(q)
    && (f != NULL ==> f in s && f != HEAD && Verdict(q, f, Data(m, f)) == 0)
    && (f != NULL && BySize(q) ==>
          forall x {:trigger Data(m, x)} :: x in s && Data(m, x) >= q.size ==> Data(m, f) <= Data(m, x))
    && (f == NULL && q.Exact? ==> forall x {:trigger Data(m, x)} :: x in s ==> Data(m, x) != q.size)
    && (f == NULL && q.Fit? && q.align == 1 ==> forall x {:trigger Data(m, x)} :: x in s ==> Data(m, x) < q.size)
    && (f == NULL && q.Fit? ==>
          exists n {:trigger n in s} :: n in s && n != HEAD && Verdict(q, n, Data(m, n)) < 0 && Largest(m, s, n))
  }

  ghost predicate Largest(m: Nodes, s: Spans, n: Ptr) {
    forall x {:trigger Data(m, x)} :: x in s ==> Data(m, x) <= Data(m, n)
  }

  lemma SearchEnds(m: Nodes, s: Spans, q: Query, h: Judge, p: Ptr, n: Ptr, dir: bool, f: Ptr, fp: Ptr)
    requires Struct(m, s) && Distinct(m, s) && Trail(m, s, q, h, p, n, dir, f, fp) && Judges(h, q)
    requires n != HEAD && Kid(m, n, dir) == NULL
    ensures Outcome(m, s, q, f)
  {
    assert NodeOk(m, s, n);
    Inside(m, s, n);
    VerdictOne(q, n, Data(m, n));
    forall x | x in s ensures !(SLo(m, s, n, dir) < Data(m, x) < SHi(m, s, n, dir)) && Data(m, x) < TOP {
      EmptySlot(m, s, n, dir, x);
      assert NodeOk(m, s, x);
    }
    if f != NULL {
      assert NodeOk(m, s, f);
      Inside(m, s, f);
      VerdictOne(q, f, Data(m, f));
    } else if q.Fit? {
      assert Largest(m, s, n);
    }
  }
}
