/**
 kernel/rb_tree.c: the red-black tree of free blocks, in place in word memory.
 */
module RbTree {
  import opened RbShape
  import opened RbColor
  import opened RbUnlink
  import opened RbInsertWalk
  import opened RbRemoveWalk
  import opened Words
  import opened RbChains
  import opened RbState
  import opened RbTakeOut
  import opened Queries

  class Tree {
    var w: Words
    var root: Ptr
    var numNodes: int
    var numDup: int

    /** The nodes as rb_node_t records, the dummy root included. */
    ghost var v: Nodes
    ghost var s: Spans
    ghost var b: Heights

    /** The duplicates behind each tree node, and the way back. */
    ghost var ch: Chaining
    ghost var own: Owners

    /** The memory when the running operation began, and the nodes it may write. */
    ghost var base: Words
    ghost var K: set<Ptr>

    ghost predicate Live()
      reads this
    {
      && v.Keys == K && Placed(K) && InSync(w, v) && SameBeyond(base, w, K)
    }

    /** init_rbtree (rb_tree.c:307-312): the counters keep whatever the memory held. */
    constructor (memory: Words, nodes: int, dups: int)
      ensures Valid() && w == memory && Contents() == map[]
    {
      w, root, numNodes, numDup := memory, NULL, nodes, dups;
      v := map[HEAD := Node(0, NULL, NULL, NULL, false)];
      s := map[HEAD := Span(-1, TOP, NULL)];
      b := map[HEAD := 0];
      ch, own := map[], map[];
      new;
      assert NodeOk(v, s, HEAD);
    }

    ghost predicate Shaped(exc: Ptr)
      reads this
    {
      Live() && Struct(v, s) && Distinct(v, s) && Shade(v, s, b, exc)
    }

    /** Between two operations. */
    ghost predicate Valid()
      reads this
    {
      Settled(w, root, numNodes, numDup, v, s, b, ch, own)
    }

    /** The nodes held, with their sizes. */
    ghost function Contents(): map<Ptr, int>
      reads this
    {
      Held(v)
    }

    // ---------------------------------------------------------------- the macros

    method GetKid(x: Ptr, d: bool) returns (c: Ptr)
      requires Live() && x in v
      ensures c == Kid(v, x, d)
    {
      c := LoadKid(w, v, x, d);
    }

    method GetDup(x: Ptr) returns (c: Ptr)
      requires Live() && x in v
      ensures c == Dup(v, x)
    {
      c := LoadDup(w, v, x);
    }

    method IsRed(x: Ptr) returns (r: bool)
      requires Live() && (x == NULL || x in v)
      ensures r == Red(v, x)
    {
      r := LoadRed(w, v, x);
    }

    method SetKid(x: Ptr, d: bool, c: Ptr)
      requires Live() && x in v && (c == NULL || c in v)
      modifies `w, `v
      ensures Live()
      ensures SameData(old(v), v) && SameRed(old(v), v) && SameDup(old(v), v) && KidSet(old(v), v, x, d, c)
    {
      w, v := StoreKid(w, v, x, d, c);
    }

    method SetDup(x: Ptr, c: Ptr)
      requires Live() && x in v && (c == NULL || c in v)
      modifies `w, `v
      ensures Live()
      ensures SameData(old(v), v) && SameRed(old(v), v) && SameKids(old(v), v) && DupSet(old(v), v, x, c)
    {
      w, v := StoreDup(w, v, x, c);
    }

    method Paint(x: Ptr, red: bool)
      requires Live() && x in v
      modifies `w, `v
      ensures Live()
      ensures SameData(old(v), v) && RedSet(old(v), v, x, red) && SameDup(old(v), v) && SameKids(old(v), v)
    {
      w, v := StoreRed(w, v, x, red);
    }

    /** rb_tree.c:41-51 */
    method Rotate(pivot: Ptr, d: bool) returns (save: Ptr)
      requires Live() && pivot in v && Kid(v, pivot, !d) in v && Kid(v, pivot, !d) != pivot
      requires Kid(v, Kid(v, pivot, !d), d) == NULL || Kid(v, Kid(v, pivot, !d), d) in v
      modifies `w, `v
      ensures Live()
      ensures save == Kid(old(v), pivot, !d) && RotWrites(old(v), v, pivot, d)
    {
      save := GetKid(pivot, !d);
      var c := GetKid(save, d);
      SetKid(pivot, !d, c);
      SetKid(save, d, pivot);
      Paint(pivot, true);
      Paint(save, false);
    }

    /** `set_link(t, side, rotate(pivot, d))` */
    method Turn(t: Ptr, side: bool, pivot: Ptr, d: bool)
      requires Live() && Struct(v, s) && Distinct(v, s)
      requires pivot in s && pivot != HEAD && Kid(v, pivot, !d) != NULL && Par(s, pivot) == t
      requires Kid(v, t, side) == pivot
      modifies `w, `v, `s
      ensures Live() && Struct(v, s) && Distinct(v, s)
      ensures Rotated(old(v), old(s), v, s, pivot, d) && SameDup(old(v), v) && SameOff(old(v), v, s.Keys)
      ensures forall y {:trigger Red(v, y)} ::
                Red(v, y) == (y == pivot || (y != Kid(old(v), pivot, !d) && Red(old(v), y)))
    {
      assert NodeOk(v, s, pivot) && NodeOk(v, s, t);
      ghost var c := Kid(v, pivot, !d);
      assert NodeOk(v, s, c);
      assert Kid(v, c, d) != NULL ==> NodeOk(v, s, Kid(v, c, d));
      ghost var v0, s0 := v, s;
      var save := Rotate(pivot, d);
      ghost var v1 := v;
      SetKid(t, side, save);
      RotMade(v0, s0, v1, v, pivot, d, side);
      s := RotSpans(v0, s0, pivot, d);
    }

    /** rb_tree.c:98-102 */
    method FlipColours(n: Ptr)
      requires Shaped(NULL) && n in s && n != HEAD && !Calm(v, n)
      modifies `w, `v, `b
      ensures Shaped(n)
      ensures SameData(old(v), v) && SameKids(old(v), v) && SameDup(old(v), v)
      ensures forall y {:trigger Red(v, y)} :: Red(v, y) ==
                (y == n || (y != Kid(old(v), n, false) && y != Kid(old(v), n, true) && Red(old(v), y)))
      ensures !Red(v, Kid(v, n, false)) && !Red(v, Kid(v, n, true))
      ensures Calm(v, Kid(v, n, false)) && Calm(v, Kid(v, n, true))
    {
      ghost var v0, b0 := v, b;
      assert NodeOk(v, s, n);
      Paint(n, true);
      var l := GetKid(n, false);
      assert NodeOk(v0, s, l);
      Paint(l, false);
      var r := GetKid(n, true);
      assert NodeOk(v0, s, r);
      Paint(r, false);
      b := b[l := Bh(b, n)][r := Bh(b, n)];
      FlipUp(v0, s, b0, v, b, n);
    }

    /** rb_tree.c:105-114 */
    method Repair(t: Ptr, g: Ptr, p: Ptr, n: Ptr, last: bool) returns (ghost m1: Nodes, ghost s1: Spans)
      requires Shaped(n) && g in s && g != HEAD && Kid(v, g, last) == p && Par(s, g) == t
      requires p != NULL && n != NULL && (Kid(v, p, last) == n || Kid(v, p, !last) == n)
      requires Red(v, p) && Red(v, n) && !Red(v, g) && !Red(v, Kid(v, g, !last))
      requires Kid(v, p, last) == n ==> !Red(v, Kid(v, p, !last))
      requires Kid(v, p, !last) == n ==> !Red(v, Kid(v, p, last))
      requires !Red(v, Kid(v, n, last)) && !Red(v, Kid(v, n, !last))
      modifies `w, `v, `s, `b
      ensures Shaped(NULL) && SameData(old(v), v) && SameDup(old(v), v) && s.Keys == old(s).Keys
      ensures SameOff(old(v), v, s.Keys)
      ensures Kid(old(v), p, last) == n ==> OuterRepair(old(v), old(s), old(b), v, s, b, g, last, p, n)
      ensures Kid(old(v), p, last) != n ==>
                && InnerRepair(old(v), old(s), old(b), v, b, g, last, p, n)
                && Rotated(old(v), old(s), m1, s1, p, last) && Rotated(m1, s1, v, s, g, !last)
    {
      ghost var v0, s0, b0 := v, s, b;
      assert NodeOk(v, s, g) && NodeOk(v, s, p) && NodeOk(v, s, n) && NodeOk(v, s, t);
      m1, s1 := v, s;
      var above := GetKid(t, true);
      var dir2 := above == g;
      var outer := GetKid(p, last);
      if n == outer {
        Turn(t, dir2, g, !last);
        b := b[p := Bh(b, g)][g := Bh(b, p)];
        RepairOuter(v0, s0, b0, v, s, b, g, last, p, n);
      } else {
        m1, s1 := RepairTwice(t, dir2, g, p, n, last);
      }
    }

    /** rb_tree.c:111-112 */
    method RepairTwice(t: Ptr, dir2: bool, g: Ptr, p: Ptr, n: Ptr, last: bool)
      returns (ghost m1: Nodes, ghost s1: Spans)
      requires Shaped(n) && g in s && g != HEAD && Kid(v, g, last) == p && Par(s, g) == t && t in s
      requires Kid(v, t, dir2) == g
      requires p != NULL && n != NULL && Kid(v, p, !last) == n && Kid(v, p, last) != n
      requires Red(v, p) && Red(v, n) && !Red(v, g) && !Red(v, Kid(v, g, !last)) && !Red(v, Kid(v, p, last))
      requires !Red(v, Kid(v, n, last)) && !Red(v, Kid(v, n, !last))
      modifies `w, `v, `s, `b
      ensures Shaped(NULL) && SameData(old(v), v) && SameDup(old(v), v) && s.Keys == old(s).Keys
      ensures SameOff(old(v), v, s.Keys) && InnerRepair(old(v), old(s), old(b), v, b, g, last, p, n)
      ensures Rotated(old(v), old(s), m1, s1, p, last) && Rotated(m1, s1, v, s, g, !last)
    {
      ghost var v0, s0, b0 := v, s, b;
      assert NodeOk(v, s, g) && NodeOk(v, s, p) && NodeOk(v, s, n) && NodeOk(v, s, t);
      var mid := GetKid(g, last);
      Turn(g, last, mid, last);
      m1, s1 := v, s;
      assert NodeOk(v, s, g) && NodeOk(v, s, n);
      Turn(t, dir2, g, !last);
      b := b[n := Bh(b, g)][g := Bh(b, p)];
      RotTwice(v0, s0, m1, s1, v, s, g, last);
      RepairInner(v0, s0, b0, v, s, b, g, last, p, n);
    }

    /** rb_tree.c:88-95 */
    method HangNew(p: Ptr, dir: bool, node: Ptr)
      requires Shaped(NULL) && p in s && p != HEAD && Kid(v, p, dir) == NULL
      requires node in v && node !in s && Kid(v, node, false) == NULL && Kid(v, node, true) == NULL && Red(v, node)
      requires SLo(v, s, p, dir) < Data(v, node) < SHi(v, s, p, dir)
      modifies `w, `v, `s, `b, `numNodes
      ensures Shaped(node) && SameData(old(v), v) && SameDup(old(v), v) && SameRed(old(v), v)
      ensures KidSet(old(v), v, p, dir, node)
      ensures s == old(s)[node := Span(SLo(old(v), old(s), p, dir), SHi(old(v), old(s), p, dir), p)]
      ensures numNodes == old(numNodes) + 1
    {
      ghost var v0, s0, b0 := v, s, b;
      assert NodeOk(v, s, p);
      SetKid(p, dir, node);
      numNodes := numNodes + 1;
      s := s[node := Span(SLo(v0, s0, p, dir), SHi(v0, s0, p, dir), p)];
      b := b[node := 0];
      HangLeaf(v0, s0, b0, v, s, p, dir, node);
    }

    /** rb_tree.c:86-102 */
    method Touch(node: Ptr, p: Ptr, n: Ptr, dir: bool)
      returns (cur: Ptr)
      requires Shaped(NULL)
      requires n == NULL ==>
                 && p in s && p != HEAD && Kid(v, p, dir) == NULL
                 && SLo(v, s, p, dir) < Data(v, node) < SHi(v, s, p, dir)
                 && node in v && node !in s && Kid(v, node, false) == NULL && Kid(v, node, true) == NULL && Red(v, node)
      requires n != NULL ==> n in s && n != HEAD
      modifies `w, `v, `s, `b, `numNodes
      ensures Shaped(cur) && SameDup(old(v), v) && Touched(old(v), old(s), old(b), v, s, b, p, n, cur, dir)
      ensures n == NULL ==> cur == node && numNodes == old(numNodes) + 1
      ensures n != NULL ==> numNodes == old(numNodes) && SameOff(old(v), v, s.Keys)
    {
      cur := n;
      if n == NULL {
        HangNew(p, dir, node);
        cur := node;
      } else {
        assert NodeOk(v, s, n);
        var l := GetKid(n, false);
        var r := GetKid(n, true);
        assert (l != NULL ==> NodeOk(v, s, l)) && (r != NULL ==> NodeOk(v, s, r));
        var lr := IsRed(l);
        var rr := IsRed(r);
        if lr && rr {
          FlipColours(n);
        } else {
          Excuse(v, s, b, n);
        }
      }
    }

    /** rb_tree.c:105-114: cur has turned red under the red p. */
    method Mend(t: Ptr, g: Ptr, p: Ptr, n: Ptr, cur: Ptr, dir: bool, last: bool, ghost key: int)
      requires Shaped(cur) && g in s && g != HEAD && Kid(v, g, last) == p && Par(s, g) == t && p != NULL
      requires Kid(v, p, dir) == cur && !Red(v, g) && !Red(v, Kid(v, g, !last)) && !Red(v, Kid(v, p, !dir))
      requires Red(v, p) && Red(v, cur) && !Red(v, Kid(v, cur, last)) && !Red(v, Kid(v, cur, !last)) && cur != NULL
      requires n != NULL ==> cur == n && Calm(v, Kid(v, n, false)) && Calm(v, Kid(v, n, true))
      requires n != NULL ==> SLo(v, s, p, dir) < key < SHi(v, s, p, dir)
      modifies `w, `v, `s, `b
      ensures Shaped(NULL) && SameData(old(v), v) && SameDup(old(v), v) && s.Keys == old(s).Keys
      ensures SameOff(old(v), v, s.Keys)
      ensures n != NULL ==> Onward(v, s, t, g, p, n, dir, dir != last, key, Left(old(v), old(s), p, n, dir, false, key))
    {
      ghost var v1, s1, b1 := v, s, b;
      ghost var v2, s2 := Repair(t, g, p, cur, last);
      if n != NULL {
        NextRepaired(v1, s1, b1, v2, s2, v, s, b, t, g, p, n, dir, last, key);
      }
    }

    /** rb_tree.c:86-114: one round of the descent at n, up to the comparison. */
    method Round(node: Ptr, t: Ptr, g: Ptr, p: Ptr, n: Ptr, dir: bool, last: bool, ghost skew: bool, ghost key: int)
      returns (cur: Ptr, ghost skew': bool)
      requires Shaped(NULL) && Walk(v, s, t, g, p, n, dir, last, skew, key)
      requires node in v && node !in s && Kid(v, node, false) == NULL && Kid(v, node, true) == NULL && Red(v, node)
      requires Data(v, node) == key
      modifies `w, `v, `s, `b, `numNodes
      ensures Shaped(NULL) && SameData(old(v), v) && SameDup(old(v), v)
      ensures n == NULL ==> cur == node && s.Keys == old(s).Keys + {node} && numNodes == old(numNodes) + 1
      ensures n != NULL ==> cur == n && s.Keys == old(s).Keys && numNodes == old(numNodes) && n in s && n != HEAD
      ensures n != NULL ==> SameOff(old(v), v, s.Keys)
      ensures n != NULL ==> Onward(v, s, t, g, p, n, dir, skew', key, Left(old(v), old(s), p, n, dir, skew, key))
    {
      ghost var v0, s0, b0 := v, s, b;
      assert NodeOk(v, s, Up(p));
      cur := Touch(node, p, n, dir);
      ghost var v1, s1 := v, s;
      assert cur in s && (p != NULL ==> p in s) by { assert NodeOk(v1, s1, cur) && NodeOk(v1, s1, Up(p)); }
      skew' := Settle(t, g, p, n, cur, dir, last, skew, key, v0, s0, b0);
      SameDataTrans(v0, v1, v);
    }

    /** rb_tree.c:104-114 */
    method Settle(t: Ptr, g: Ptr, p: Ptr, n: Ptr, cur: Ptr, dir: bool, last: bool, ghost skew: bool, ghost key: int,
                  ghost v0: Nodes, ghost s0: Spans, ghost b0: Heights)
      returns (ghost skew': bool)
      requires Struct(v0, s0) && Distinct(v0, s0) && Shade(v0, s0, b0, NULL)
      requires Walk(v0, s0, t, g, p, n, dir, last, skew, key)
      requires Shaped(cur) && Touched(v0, s0, b0, v, s, b, p, n, cur, dir) && cur in s && (p != NULL ==> p in s)
      modifies `w, `v, `s, `b
      ensures Shaped(NULL) && SameData(old(v), v) && SameDup(old(v), v) && s.Keys == old(s).Keys
      ensures SameOff(old(v), v, s.Keys)
      ensures n != NULL ==> Onward(v, s, t, g, p, n, dir, skew', key, Left(v0, s0, p, n, dir, skew, key))
    {
      skew' := false;
      ghost var v1, s1, b1 := v, s, b;
      assert NodeOk(v1, s1, cur) && (p != NULL ==> NodeOk(v1, s1, p));
      var redN := IsRed(cur);
      var redP := IsRed(p);
      if redN && redP {
        RepairDue(v0, s0, b0, v1, s1, b1, t, g, p, n, cur, dir, last, skew, key);
        Mend(t, g, p, n, cur, dir, last, key);
        skew' := n != NULL && dir != last;
      } else {
        NextQuiet(v0, s0, b0, v1, s1, b1, t, g, p, n, cur, dir, last, skew, key);
      }
    }

    /** mem_alloc.c:61-92 */
    method Compare(x: Ptr, q: Query) returns (res: int)
      requires Live() && x in v && Sensible(q)
      ensures res == Verdict(q, x, Data(v, x))
    {
      var data := LoadData(w, v, x);
      if data < q.size {
        return -1;
      }
      match q {
        case Fit(size, align) =>
          var offset := align - (x + 4) % align;
          offset := offset % align;
          while offset != 0 && offset < MIN_BLOCK_SIZE
            invariant Bump(offset, align) == Gap(x + 4, align)
            decreases MIN_BLOCK_SIZE - offset
          {
            offset := offset + align;
          }
          res := if Wrap32(data - offset) < size then -1 else 0;
        case Exact(size, _) =>
          res := if data > size then 1 else 0;
      }
    }

    /** Sets up the dummy root (rb_tree.c:71-81, 159-167); node is about to join the tree if it is not NULL. */
    method MakeHead(node: Ptr)
      requires HEAD in v && v[HEAD] == Node(0, NULL, root, NULL, false) && (root == NULL || root in v)
      requires Placed(v.Keys) && InSync(w, v - {HEAD}) && (node != NULL ==> node !in v && Placed(v.Keys + {node}))
      modifies `w, `v, `base, `K
      ensures Live() && base == old(w) && K == old(v).Keys + (if node == NULL then {} else {node})
      ensures forall x :: x in old(v) ==> v[x] == old(v)[x]
      ensures node == NULL ==> v == old(v)
      ensures node != NULL ==> Data(v, node) == Rd(old(w), node)
    {
      base := w;
      assert root % 2 == 0 by { assert root != NULL ==> Spot(root); }
      w := WriteHead(w, root);
      HeadInSync(base, w, v);
      AddNode(node);
    }

    /** The node joins the view. */
    ghost method AddNode(node: Ptr)
      requires HEAD in v && Placed(v.Keys) && InSync(w, v) && SameOffHead(base, w) && SameBeyond(base, w, v.Keys)
      requires node != NULL ==> node !in v && Placed(v.Keys + {node})
      modifies `v, `K
      ensures Live() && K == old(v).Keys + (if node == NULL then {} else {node})
      ensures forall x :: x in old(v) ==> v[x] == old(v)[x]
      ensures node == NULL ==> v == old(v)
      ensures node != NULL ==> Data(v, node) == Rd(base, node)
    {
      if node != NULL {
        assert Clear(node, HEAD);
        HeadKeeps(base, w, node);
        ghost var v0 := v;
        v := v[node := NodeAt(w, node)];
        assert v.Keys == v0.Keys + {node};
        forall a | Beyond(v.Keys, a) ensures Rd(w, a) == Rd(base, a) {
          assert Beyond(v0.Keys, a);
        }
      }
      K := v.Keys;
    }

    /** rb_tree.c:85-136: the descent, up to the comparison that ends it. */
    method Descend(node: Ptr) returns (n: Ptr, duplicate: bool)
      requires Shaped(NULL) && root != NULL && Kid(v, HEAD, true) == root && !Red(v, root)
      requires node in v && node !in s && Kid(v, node, false) == NULL && Kid(v, node, true) == NULL && Red(v, node)
      requires 0 < Data(v, node) < TOP
      modifies `w, `v, `s, `b, `numNodes
      ensures Shaped(NULL) && SameData(old(v), v) && SameDup(old(v), v)
      ensures n in s && n != HEAD && Data(v, n) == Data(v, node)
      ensures duplicate ==> n in old(s) && s.Keys == old(s).Keys && numNodes == old(numNodes)
      ensures !duplicate ==> n == node && s.Keys == old(s).Keys + {node} && numNodes == old(numNodes) + 1
    {
      ghost var v0, S0 := v, s.Keys;
      var key := LoadData(w, v, node);
      var t, g, p := HEAD, NULL, NULL;
      n := root;
      var dir, last := false, false;
      duplicate := true;
      ghost var skew := false;
      assert NodeOk(v, s, HEAD);
      while true
        invariant Shaped(NULL) && Walk(v, s, t, g, p, n, dir, last, skew, key) && duplicate
        invariant s.Keys == S0 && SameData(v0, v) && SameDup(v0, v) && SameOff(v0, v, S0)
        invariant numNodes == old(numNodes)
        decreases Left(v, s, p, n, dir, skew, key)
      {
        if n == NULL { duplicate := false; }
        n, skew := Round(node, t, g, p, n, dir, last, skew, key);
        assert NodeOk(v, s, n);
        var res := Compare(n, Exact(key, NULL));
        if res == 0 {
          break;
        }
        last := dir;
        dir := res < 0;
        t := if g != NULL then g else t;
        g, p := p, n;
        n := GetKid(n, dir);
      }
    }

    /** rb_tree.c:71-139 */
    method InsertBelow(node: Ptr)
      requires Live() && Ahead(v, s, b, ch, own, node) && Red(v, node)
      requires root != NULL && Kid(v, HEAD, true) == root && !Red(v, root)
      modifies `w, `v, `s, `b, `ch, `own, `numNodes, `numDup, `root
      ensures Live() && Sound(v, s, b, ch, own) && SameData(old(v), v) && Kid(v, HEAD, true) == root
      ensures |s| - numNodes == |old(s)| - old(numNodes) && |own| - numDup == |old(own)| - old(numDup)
      ensures node in own <==> Present(old(v), old(s), Data(old(v), node))
      ensures ChainsJoined(old(ch), ch, node)
    {
      ghost var v0, s0, b0 := v, s, b;
      assert AheadOf(v, s, ch, own, node, node);
      var n, duplicate := Descend(node);
      ghost var v1 := v;
      Attach(n, duplicate, node, v0, s0, b0);
      SameDataTrans(v0, v1, v);
      root := GetKid(HEAD, true);
    }

    /** rb_tree.c:118-124 */
    method Attach(n: Ptr, duplicate: bool, node: Ptr, ghost v0: Nodes, ghost s0: Spans, ghost b0: Heights)
      requires Ahead(v0, s0, b0, ch, own, node) && SameData(v0, v) && SameDup(v0, v) && node !in s0 && Shaped(NULL)
      requires duplicate ==> n in s0 && n != HEAD && n != node && s.Keys == s0.Keys && Data(v, n) == Data(v, node)
      requires !duplicate ==> s.Keys == s0.Keys + {node}
      modifies `w, `v, `ch, `own, `numDup
      ensures Live() && Sound(v, s, b, ch, own) && SameData(old(v), v)
      ensures |s| == |s0| + (if duplicate then 0 else 1) && |own| - numDup == |old(own)| - old(numDup)
      ensures (node in own <==> Present(v0, s0, Data(v0, node))) && ChainsJoined(old(ch), ch, node)
    {
      if duplicate && n != node {
        ChainBehind(n, node, v0, s0, b0);
      } else {
        StandAlone(node, v0, s0, b0);
      }
    }

    /** The node has become a tree node. */
    ghost method StandAlone(node: Ptr, v0: Nodes, s0: Spans, b0: Heights)
      requires Ahead(v0, s0, b0, ch, own, node) && SameData(v0, v) && SameDup(v0, v) && node !in s0
      requires Shaped(NULL) && s.Keys == s0.Keys + {node}
      modifies `ch
      ensures Sound(v, s, b, ch, own) && ch == old(ch)[node := []] && |s| == |s0| + 1
      ensures node !in own && !Present(v0, s0, Data(v0, node))
    {
      LoneSound(v0, s0, b0, v, s, b, ch, own, node);
      ch := ch[node := []];
    }

    method ChainBehind(n: Ptr, node: Ptr, ghost v0: Nodes, ghost s0: Spans, ghost b0: Heights)
      requires Ahead(v0, s0, b0, ch, own, node) && SameData(v0, v) && SameDup(v0, v) && n in s0 && n != HEAD
      requires n != node
      requires Shaped(NULL) && s.Keys == s0.Keys && Data(v, n) == Data(v, node)
      modifies `w, `v, `ch, `own, `numDup
      ensures Live() && Sound(v, s, b, ch, own) && SameData(old(v), v)
      ensures |own| == |old(own)| + 1 && |s| == |s0| && numDup == old(numDup) + 1 && node in own
      ensures Present(v0, s0, Data(v0, node)) && ChainsJoined(old(ch), ch, node)
    {
      ghost var v1 := v;
      assert NodeOk(v0, s0, n);
      assert AheadOf(v0, s0, ch, own, node, node);
      NextDup(v0, s0, b0, v1, ch, own, n, node);
      PushDup(n, node);
      DupSound(v0, s0, b0, v1, v, s, b, ch, own, n, node);
      ch, own := ch[n := [node] + ch[n]], own[node := n];
    }

    /** rb_tree.c:121-123 */
    method PushDup(n: Ptr, node: Ptr)
      requires Live() && n in v && node in v && n != node && (Dup(v, n) == NULL || Dup(v, n) in v)
      modifies `w, `v, `numDup
      ensures Live() && SameData(old(v), v) && SameKids(old(v), v) && SameRed(old(v), v)
      ensures forall y {:trigger Dup(v, y)} :: Dup(v, y) ==
                if y == node then Dup(old(v), n) else if y == n then node else Dup(old(v), y)
      ensures numDup == old(numDup) + 1
    {
      var c := GetDup(n);
      SetDup(node, c);
      SetDup(n, node);
      numDup := numDup + 1;
    }

    /** rb_tree.c:59-62 */
    method ClearNode(node: Ptr)
      requires Live() && node in v
      modifies `w, `v
      ensures Live() && SameBut(old(v), v, node) && Data(v, node) == Data(old(v), node)
      ensures Kid(v, node, false) == NULL && Kid(v, node, true) == NULL && Dup(v, node) == NULL && Red(v, node)
    {
      SetKid(node, false, NULL);
      SetKid(node, true, NULL);
      SetDup(node, NULL);
      Paint(node, true);
    }

    /** The node is laid out in front of the tree, whose dummy root is in place. */
    method EnterInsert(node: Ptr)
      requires Valid() && node != NULL && node !in v && Placed(v.Keys + {node}) && 0 < Rd(w, node) < TOP
      modifies `w, `v, `base, `K
      ensures Live() && Ahead(v, s, b, ch, own, node) && Red(v, node)
      ensures base == old(w) && K == old(v).Keys + {node}
      ensures Kid(v, HEAD, true) == root && !Red(v, root)
      ensures Data(v, node) == Rd(old(w), node)
      ensures forall y {:trigger Data(v, y)} :: y != node ==> Data(v, y) == Data(old(v), y)
    {
      ghost var v0 := v;
      HeadNode(v, s);
      assert NodeOk(v, s, HEAD) && (root != NULL ==> NodeOk(v, s, root));
      MakeHead(node);
      assert SameBut(v0, v, node);
      ClearNode(node);
      StepAhead(v0, v, s, b, ch, own, node);
    }

    /** rb_tree.c:142-143 and 278-281: paint the root black. */
    method Finish()
      requires Live() && Sound(v, s, b, ch, own) && Kid(v, HEAD, true) == root
      requires root != NULL ==> numNodes == |s| - 1 && numDup == |own|
      modifies `w, `v, `b
      ensures Valid() && SameData(old(v), v) && SameBeyond(base, w, K)
    {
      if root != NULL {
        PaintRoot();
      }
      SyncOffHead(w, v);
    }

    method PaintRoot()
      requires Live() && Sound(v, s, b, ch, own) && Kid(v, HEAD, true) == root && root != NULL
      modifies `w, `v, `b
      ensures Live() && Sound(v, s, b, ch, own) && Kid(v, HEAD, true) == root && !Red(v, root) && SameData(old(v), v)
    {
      assert NodeOk(v, s, HEAD) && NodeOk(v, s, root);
      ghost var v0, b0 := v, b;
      Paint(root, false);
      b := b[root := Bh(b, root) + 1 - Weight(v0, root)];
      SoundPainted(v0, v, s, b0, ch, own, root);
    }

    /** rb_tree.c:64-69 */
    method InsertFirst(node: Ptr)
      requires Live() && Ahead(v, s, b, ch, own, node) && root == NULL && Kid(v, HEAD, true) == NULL
      modifies `w, `v, `s, `b, `ch, `own, `root, `numNodes, `numDup
      ensures Valid() && SameData(old(v), v) && SameBeyond(base, w, K)
      ensures node !in own && !Present(old(v), old(s), Data(old(v), node)) && ChainsJoined(old(ch), ch, node)
    {
      root, numNodes, numDup := node, 1, 0;
      assert AheadOf(v, s, ch, own, node, node);
      Paint(node, false);
      RecordFirst(old(v), node);
    }

    ghost method RecordFirst(v0: Nodes, node: Ptr)
      requires Ahead(v0, s, b, ch, own, node) && Kid(v0, HEAD, true) == NULL
      requires SameData(v0, v) && SameKids(v0, v) && SameDup(v0, v) && RedSet(v0, v, node, false)
      requires Placed(v.Keys) && InSync(w, v) && root == node && numNodes == 1 && numDup == 0
      modifies `v, `s, `b, `ch, `own
      ensures Valid() && SameData(v0, v)
      ensures node !in own && !Present(v0, old(s), Data(v0, node)) && ChainsJoined(old(ch), ch, node)
    {
      InsertedFirst(w, v0, v, s, b, ch, own, node);
      Record(HeadTo(v, node), s[node := Span(0, TOP, HEAD)], map[HEAD := 0, node := 1], map[node := []], map[]);
    }

    /** One update of the ghost description. */
    ghost method Record(v': Nodes, s': Spans, b': Heights, ch': Chaining, own': Owners)
      modifies `v, `s, `b, `ch, `own
      ensures v == v' && s == s' && b == b' && ch == ch' && own == own'
    {
      v, s, b, ch, own := v', s', b', ch', own';
    }

    method InsertDeep(node: Ptr)
      requires Live() && Ahead(v, s, b, ch, own, node) && Red(v, node)
      requires root != NULL && Kid(v, HEAD, true) == root && !Red(v, root)
      requires numNodes == |s| - 1 && numDup == |own|
      modifies `w, `v, `s, `b, `ch, `own, `root, `numNodes, `numDup
      ensures Valid() && SameData(old(v), v) && SameBeyond(base, w, K)
      ensures node in own <==> Present(old(v), old(s), Data(old(v), node))
      ensures ChainsJoined(old(ch), ch, node)
    {
      InsertBelow(node);
      ghost var v1 := v;
      Finish();
      SameDataTrans(old(v), v1, v);
    }

    /** rb_tree.c:53-146 */
    method Insert(node: Ptr) returns (ok: bool)
      requires Valid()
      requires node != NULL ==> node !in v && Placed(v.Keys + {node}) && 0 < Rd(w, node) < TOP
      modifies this
      ensures Valid()
      ensures node == NULL ==> !ok && w == old(w) && Contents() == old(Contents())
      ensures node != NULL ==>
                && ok && Contents() == old(Contents())[node := Rd(old(w), node)]
                && SameBeyond(old(w), w, old(v).Keys + {node})
                && (node in own <==> Present(old(v), old(s), Rd(old(w), node)))
                && ChainsJoined(old(ch), ch, node)
    {
      if node == NULL {
        return false;
      }
      ghost var v0, size := v, Rd(w, node);
      HeadNode(v, s);
      assert Sorted(v, s, ch, own, node);
      EnterInsert(node);
      ghost var v1 := v;
      if root == NULL {
        InsertFirst(node);
      } else {
        InsertDeep(node);
      }
      InsertHolds(v0, v1, v, old(s), node, size);
      ok := true;
    }

    static lemma InsertHolds(v0: Nodes, v1: Nodes, v: Nodes, s: Spans, node: Ptr, size: int)
      requires node !in v0 && HEAD in v0 && v1.Keys == v0.Keys + {node} && Data(v1, node) == size && node !in s
      requires forall y {:trigger Data(v1, y)} :: y != node ==> Data(v1, y) == Data(v0, y)
      requires SameData(v1, v)
      ensures Held(v) == Held(v0)[node := size] && Present(v1, s, size) == Present(v0, s, size)
    {
      HeldPlus(v0, v1, s, node, size);
      HeldSame(v1, v);
    }

    // ---------------------------------------------------------------- removal

    /** rb_tree.c:201-206 */
    method FlipDown(ghost q: Query, ghost h: Judge, p: Ptr, n: Ptr, z: Ptr, ghost last: bool, ghost dir: bool,
                    ghost f: Ptr, ghost fp: Ptr)
      requires Shaped(NULL) && Trail(v, s, q, h, p, n, dir, f, fp)
      requires Push(v, s, p, last, n, z) && !Red(v, Kid(v, z, last)) && !Red(v, Kid(v, z, !last))
      modifies `w, `v, `b
      ensures Shaped(NULL) && Trail(v, s, q, h, p, n, dir, f, fp) && Red(v, n)
      ensures SameData(old(v), v) && SameDup(old(v), v) && Width(v, s, n, dir) == Width(old(v), s, n, dir)
    {
      ghost var v0, b0 := v, b;
      assert NodeOk(v, s, p) && NodeOk(v, s, n) && NodeOk(v, s, z);
      Paint(p, false);
      Paint(z, true);
      Paint(n, true);
      b := FlippedDown(v0, s, b0, v, q, h, p, last, n, z, dir, f, fp);
    }

    /** rb_tree.c:219-222: the colours after the rotations, with top in the place of p. */
    method ColourDown(g: Ptr, dir2: bool, n: Ptr) returns (top: Ptr)
      requires Live() && Struct(v, s) && Distinct(v, s) && g in s && n in s && Kid(v, g, dir2) != NULL
      requires Kid(v, Kid(v, g, dir2), false) != NULL && Kid(v, Kid(v, g, dir2), true) != NULL
      modifies `w, `v
      ensures Live() && Struct(v, s) && Distinct(v, s) && top == Kid(old(v), g, dir2)
      ensures SameData(old(v), v) && SameDup(old(v), v) && SameKids(old(v), v)
      ensures forall y {:trigger Red(v, y)} :: Red(v, y) ==
                (y != Kid(old(v), top, false) && y != Kid(old(v), top, true) && (y == n || y == top || Red(old(v), y)))
    {
      ghost var v0 := v;
      assert NodeOk(v, s, n) && NodeOk(v, s, g);
      top := GetKid(g, dir2);
      assert NodeOk(v, s, top);
      Paint(n, true);
      Paint(top, true);
      var l := GetKid(top, false);
      assert NodeOk(v0, s, l);
      Paint(l, false);
      var r := GetKid(top, true);
      assert NodeOk(v0, s, r);
      Paint(r, false);
      StructFrame(v0, v, s);
    }

    /** rb_tree.c:210-222 with the far nephew red */
    method SwingOuter(g: Ptr, dir2: bool, p: Ptr, n: Ptr, ghost z: Ptr, last: bool) returns (top: Ptr)
      requires Live() && Struct(v, s) && Distinct(v, s) && p in s && g == Par(s, p) && Kid(v, g, dir2) == p
      requires Push(v, s, p, last, n, z) && Red(v, Kid(v, z, !last))
      modifies `w, `v, `s
      ensures Live() && Struct(v, s) && Distinct(v, s) && SameDup(old(v), v) && top == z
      ensures Rotated(old(v), old(s), v, s, p, last)
      ensures forall y {:trigger Red(v, y)} :: Red(v, y) ==
                (y == n || y == z || (y != p && y != Kid(old(v), z, !last) && Red(old(v), y)))
    {
      ghost var v0, s0, a := v, s, Kid(v, z, !last);
      assert NodeOk(v, s, p) && NodeOk(v, s, n) && NodeOk(v, s, z) && NodeOk(v, s, a) && NodeOk(v, s, g);
      Turn(g, dir2, p, last);
      top := ColourDown(g, dir2, n);
    }

    /** rb_tree.c:213-222 with only the near nephew a red */
    method SwingInner(g: Ptr, dir2: bool, p: Ptr, n: Ptr, ghost z: Ptr, ghost a: Ptr, last: bool)
      returns (top: Ptr, ghost m1: Nodes, ghost s1: Spans)
      requires Live() && Struct(v, s) && Distinct(v, s) && p in s && g == Par(s, p) && Kid(v, g, dir2) == p
      requires Push(v, s, p, last, n, z) && a == Kid(v, z, last) && Red(v, a)
      modifies `w, `v, `s
      ensures Live() && Struct(v, s) && Distinct(v, s) && SameDup(old(v), v) && top == a
      ensures Rotated(old(v), old(s), m1, s1, z, !last) && Rotated(m1, s1, v, s, p, last) && Struct(m1, s1)
      ensures forall y {:trigger Red(v, y)} :: Red(v, y) == (y == n || y == a || (y != p && y != z && Red(old(v), y)))
    {
      ghost var v0, s0 := v, s;
      assert NodeOk(v, s, p) && NodeOk(v, s, n) && NodeOk(v, s, z) && NodeOk(v, s, a) && NodeOk(v, s, g);
      var mid := GetKid(p, !last);
      Turn(p, !last, mid, !last);
      m1, s1 := v, s;
      Turn(g, dir2, p, last);
      RotTwice(v0, s0, m1, s1, v, s, p, !last);
      top := ColourDown(g, dir2, n);
    }

    method OuterDown(ghost q: Query, ghost h: Judge, g: Ptr, dir2: bool, p: Ptr, n: Ptr, ghost z: Ptr, last: bool,
                     ghost dir: bool, ghost f: Ptr, ghost fp: Ptr) returns (top: Ptr)
      requires Shaped(NULL) && Trail(v, s, q, h, p, n, dir, f, fp) && g == Par(s, p) && Kid(v, g, dir2) == p
      requires Push(v, s, p, last, n, z) && Red(v, Kid(v, z, !last))
      modifies `w, `v, `s, `b
      ensures Shaped(NULL) && Trail(v, s, q, h, p, n, dir, f, if f == p then top else fp) && Red(v, n)
      ensures SameData(old(v), v) && SameDup(old(v), v) && s.Keys == old(s).Keys
      ensures Width(v, s, n, dir) == Width(old(v), old(s), n, dir)
    {
      ghost var v0, s0, b0 := v, s, b;
      top := SwingOuter(g, dir2, p, n, z, last);
      b := SwungOuter(v0, s0, b0, v, s, q, h, p, last, n, z, Kid(v0, z, !last), dir, f, fp);
    }

    method InnerDown(ghost q: Query, ghost h: Judge, g: Ptr, dir2: bool, p: Ptr, n: Ptr, ghost z: Ptr, ghost a: Ptr,
                     last: bool,
                     ghost dir: bool, ghost f: Ptr, ghost fp: Ptr) returns (top: Ptr)
      requires Shaped(NULL) && Trail(v, s, q, h, p, n, dir, f, fp) && g == Par(s, p) && Kid(v, g, dir2) == p
      requires Push(v, s, p, last, n, z) && a == Kid(v, z, last) && Red(v, a) && !Red(v, Kid(v, z, !last))
      modifies `w, `v, `s, `b
      ensures Shaped(NULL) && Trail(v, s, q, h, p, n, dir, f, if f == p then top else fp) && Red(v, n)
      ensures SameData(old(v), v) && SameDup(old(v), v) && s.Keys == old(s).Keys
      ensures Width(v, s, n, dir) == Width(old(v), old(s), n, dir)
    {
      ghost var v0, s0, b0 := v, s, b;
      ghost var m1, s1;
      top, m1, s1 := SwingInner(g, dir2, p, n, z, a, last);
      b := SwungInner(v0, s0, b0, m1, s1, v, s, q, h, p, last, n, z, a, dir, f, fp);
    }

    /** rb_tree.c:207-229 */
    method Swing(ghost q: Query, ghost h: Judge, g: Ptr, p: Ptr, n: Ptr, z: Ptr, last: bool, ghost dir: bool, f: Ptr,
                 fp: Ptr)
      returns (fp': Ptr)
      requires Shaped(NULL) && Trail(v, s, q, h, p, n, dir, f, fp) && g == Par(s, p)
      requires Push(v, s, p, last, n, z) && (Red(v, Kid(v, z, last)) || Red(v, Kid(v, z, !last)))
      modifies `w, `v, `s, `b
      ensures Shaped(NULL) && Trail(v, s, q, h, p, n, dir, f, fp') && Red(v, n)
      ensures SameData(old(v), v) && SameDup(old(v), v) && s.Keys == old(s).Keys
      ensures Width(v, s, n, dir) == Width(old(v), old(s), n, dir)
    {
      ghost var v0, s0, b0 := v, s, b;
      assert NodeOk(v, s, p) && NodeOk(v, s, z) && NodeOk(v, s, g);
      var g1 := GetKid(g, true);
      var dir2 := g1 == p;
      var far := GetKid(z, !last);
      var near := GetKid(z, last);
      assert (far != NULL ==> NodeOk(v, s, far)) && (near != NULL ==> NodeOk(v, s, near));
      var redFar := IsRed(far);
      var top;
      if redFar {
        top := OuterDown(q, h, g, dir2, p, n, z, last, dir, f, fp);
      } else {
        top := InnerDown(q, h, g, dir2, p, n, z, near, last, dir, f, fp);
      }
      fp' := if f == p then top else fp;
    }

    /** rb_tree.c:187-196 */
    method TurnDown(ghost q: Query, ghost h: Judge, p: Ptr, n: Ptr, last: bool, dir: bool, f: Ptr, fp: Ptr)
      returns (p': Ptr, fp': Ptr)
      requires Shaped(NULL) && Trail(v, s, q, h, p, n, dir, f, fp) && n != HEAD && Kid(v, p, last) == n
      requires !Red(v, n) && !Red(v, Kid(v, n, dir)) && Red(v, Kid(v, n, !dir))
      modifies `w, `v, `s, `b
      ensures Shaped(NULL) && Trail(v, s, q, h, p', n, dir, f, fp') && Red(v, n)
      ensures SameData(old(v), v) && SameDup(old(v), v) && s.Keys == old(s).Keys
      ensures Width(v, s, n, dir) == Width(old(v), old(s), n, dir)
    {
      ghost var v0, s0, b0 := v, s, b;
      assert NodeOk(v, s, n) && NodeOk(v, s, p);
      Turn(p, last, n, dir);
      b := TurnedDown(v0, s0, b0, v, s, q, h, p, n, dir, f, fp);
      p' := GetKid(p, last);
      fp' := if f == n then p' else fp;
    }

    /** rb_tree.c:185-232: n has been reached from p in direction last; red is pushed down to it. */
    method PushDown(ghost q: Query, ghost h: Judge, g: Ptr, p: Ptr, n: Ptr, last: bool, dir: bool, f: Ptr, fp: Ptr)
      returns (p': Ptr, fp': Ptr)
      requires Shaped(NULL) && Trail(v, s, q, h, p, n, dir, f, fp) && n != HEAD
      requires Kid(v, p, last) == n && Pushed(v, s, p, last) && (p != HEAD ==> g == Par(s, p))
      modifies `w, `v, `s, `b
      ensures Shaped(NULL) && Trail(v, s, q, h, p', n, dir, f, fp') && Pushed(v, s, n, dir)
      ensures SameData(old(v), v) && SameDup(old(v), v) && s.Keys == old(s).Keys
      ensures Width(v, s, n, dir) == Width(old(v), old(s), n, dir)
    {
      p', fp' := p, fp;
      assert NodeOk(v, s, n) && NodeOk(v, s, p);
      var redN := IsRed(n);
      var towards := GetKid(n, dir);
      var away := GetKid(n, !dir);
      assert (towards != NULL ==> NodeOk(v, s, towards)) && (away != NULL ==> NodeOk(v, s, away));
      var redTowards := IsRed(towards);
      if !redN && !redTowards {
        var redAway := IsRed(away);
        if redAway {
          p', fp' := TurnDown(q, h, p, n, last, dir, f, fp);
        } else {
          PushReady(v, s, b, p, last, n);
          var z := GetKid(p, !last);
          if z != NULL {
            fp' := FlipOrSwing(q, h, g, p, n, z, last, dir, f, fp);
          }
        }
      }
    }

    /** rb_tree.c:200-230 */
    method FlipOrSwing(ghost q: Query, ghost h: Judge, g: Ptr, p: Ptr, n: Ptr, z: Ptr, last: bool, ghost dir: bool,
                       f: Ptr, fp: Ptr)
      returns (fp': Ptr)
      requires Shaped(NULL) && Trail(v, s, q, h, p, n, dir, f, fp) && g == Par(s, p) && Push(v, s, p, last, n, z)
      modifies `w, `v, `s, `b
      ensures Shaped(NULL) && Trail(v, s, q, h, p, n, dir, f, fp') && Red(v, n)
      ensures SameData(old(v), v) && SameDup(old(v), v) && s.Keys == old(s).Keys
      ensures Width(v, s, n, dir) == Width(old(v), old(s), n, dir)
    {
      fp' := fp;
      assert NodeOk(v, s, p) && NodeOk(v, s, z);
      var l := GetKid(z, false);
      var r := GetKid(z, true);
      assert (l != NULL ==> NodeOk(v, s, l)) && (r != NULL ==> NodeOk(v, s, r));
      var redL := IsRed(l);
      var redR := IsRed(r);
      if !redL && !redR {
        FlipDown(q, h, p, n, z, last, dir, f, fp);
      } else {
        fp' := Swing(q, h, g, p, n, z, last, dir, f, fp);
      }
    }

    /** rb_tree.c:162-233: find the node, and push red down to where something can be cut off. */
    method Search(q: Query) returns (p: Ptr, n: Ptr, f: Ptr, fp: Ptr, ghost dir': bool)
      requires Shaped(NULL) && Kid(v, HEAD, true) != NULL && Sensible(q)
      modifies `w, `v, `s, `b
      ensures Shaped(NULL) && SameData(old(v), v) && SameDup(old(v), v) && s.Keys == old(s).Keys
      ensures Outcome(v, s, q, f) && n in s && n != HEAD && p == Par(s, n) && Kid(v, n, dir') == NULL
      ensures Pushed(v, s, n, dir')
      ensures f != NULL ==> fp == Par(s, f) && Data(v, f) == SHi(v, s, n, dir')
    {
      ghost var h := JudgeFor(q);
      ghost var v0, S0 := v, s.Keys;
      p, n, f, fp := NULL, HEAD, NULL, NULL;
      var dir := true;
      assert NodeOk(v, s, HEAD);
      var next := GetKid(n, dir);
      while next != NULL
        invariant Shaped(NULL) && Trail(v, s, q, h, p, n, dir, f, fp) && Pushed(v, s, n, dir) && next == Kid(v, n, dir)
        invariant SameData(v0, v) && SameDup(v0, v) && s.Keys == S0
        invariant n == HEAD ==> next != NULL
        decreases Width(v, s, n, dir)
      {
        StepDown(v, s, q, h, p, n, dir, f, fp);
        assert NodeOk(v, s, n);
        var last, g := dir, p;
        p, n := n, next;
        assert NodeOk(v, s, n);
        var res := Compare(n, q);
        dir := res < 0;
        if res == 0 {
          f, fp := n, p;
        }
        p, fp := PushDown(q, h, g, p, n, last, dir, f, fp);
        assert NodeOk(v, s, n);
        next := GetKid(n, dir);
      }
      SearchEnds(v, s, q, h, p, n, dir, f, fp);
      dir' := dir;
    }

    /** rb_tree.c:265: the leaf n is cut off below p. */
    method CutLeaf(p: Ptr, n: Ptr)
      requires Live() && Struct(v, s) && n in s && n != HEAD && p == Par(s, n) && Kid(v, n, false) == NULL
      requires Kid(v, n, true) == NULL
      modifies `w, `v
      ensures Live() && Unlinked(old(v), s, v, s - {n}, n) && SameDup(old(v), v)
    {
      ghost var v0 := v;
      assert NodeOk(v, s, n) && NodeOk(v, s, p);
      var right := GetKid(p, true);
      var left := GetKid(n, false);
      var rest := GetKid(n, left == NULL);
      SetKid(p, right == n, rest);
    }

    /** rb_tree.c:247-250 and 271-274: z takes over the place of f below fp. */
    method TakeOver(fp: Ptr, f: Ptr, z: Ptr, ghost s': Spans)
      requires Live() && Struct(v, s') && f in s' && f != HEAD && fp == Par(s', f) && z in v && z !in s'
      modifies `w, `v
      ensures Live() && Swapped(old(v), s', v, f, z) && SameDup(old(v), v)
    {
      ghost var v0 := v;
      assert NodeOk(v, s', f) && NodeOk(v, s', fp);
      var l := GetKid(f, false);
      assert l != NULL ==> NodeOk(v, s', l);
      SetKid(z, false, l);
      var r := GetKid(f, true);
      assert r != NULL ==> NodeOk(v0, s', r);
      SetKid(z, true, r);
      var right := GetKid(fp, true);
      SetKid(fp, right == f, z);
      var red := IsRed(f);
      Paint(z, red);
    }

    /** rb_tree.c:278-281, once r has left the tree. */
    method FinishWithout(ghost r: Ptr)
      requires Live() && SoundBut(v, s, b, ch, own, r)
      requires Kid(v, HEAD, true) != NULL ==> numNodes == |s| - 1 && numDup == |own|
      modifies `w, `v, `b, `root
      ensures Valid() && Held(v) == Held(old(v)) - {r} && SameBeyond(base, w, K)
    {
      ghost var v0 := v;
      assert NodeOk(v, s, HEAD);
      root := GetKid(HEAD, true);
      assert root != NULL ==> NodeOk(v, s, root);
      if root != NULL {
        Paint(root, false);
        b := SoundButPainted(v0, v, s, b, ch, own, r, root);
      }
      HeldSame(v0, v);
      DropSettled(w, root, numNodes, numDup, v, s, b, ch, own, r);
      v := v - {r};
    }

    /** rb_tree.c:263-276: the found node f has no duplicates; the descent ended at the leaf n below p. */
    method RemoveLone(p: Ptr, n: Ptr, f: Ptr, fp: Ptr)
      requires Live() && Sound(v, s, b, ch, own) && n in s && n != HEAD && p == Par(s, n)
      requires Kid(v, n, false) == NULL && Kid(v, n, true) == NULL && (Red(v, n) || Par(s, n) == HEAD)
      requires f in s && f != HEAD && fp == Par(s, f) && f in ch && ch[f] == []
      requires n != f ==> Data(v, n) < Data(v, f) && Lo(s, f) <= Lo(s, n)
      requires n != f ==>
                forall y {:trigger Data(v, y)} ::
                  y in s && y != f && y != n ==> !(Data(v, n) <= Data(v, y) < Data(v, f))
      modifies `w, `v, `s, `b, `ch, `own, `numNodes
      ensures Live() && SoundBut(v, s, b, ch, own, f) && SameData(old(v), v) && own == old(own)
      ensures |s| == |old(s)| - 1 && numNodes == old(numNodes) - 1 && ch == old(ch) - {f}
    {
      ghost var v0, s0, b0 := v, s, b;
      CutLeaf(p, n);
      numNodes := numNodes - 1;
      ghost var v1 := v;
      if n != f {
        UnlinkLeaf(v0, s0, b0, v1, s0 - {n}, n);
        assert NodeOk(v0, s0, n) && NodeOk(v0, s0, f);
        TakeOver(fp, f, n, s0 - {n});
        ghost var s', b' := TakeInner(v0, s0, b0, ch, own, v1, v, n, f);
        Record(v, s', b', ch - {f}, own);
      } else {
        TakeLeaf(v0, s0, b0, ch, own, v1, n);
        Record(v, s0 - {n}, b0 - {n}, ch - {n}, own);
      }
    }

    /** select_dup (mem_alloc.c:94-106), applied along the duplicates of f (rb_tree.c:237-242). */
    method FindDup(q: Query, f: Ptr) returns (tmp: Ptr, prev: Ptr, ghost i: int)
      requires Live() && Chains(v, ch, own) && f in ch && f in v && ch[f] != []
      ensures 0 <= i <= |ch[f]| && tmp == Nth(ch[f], i) && (tmp != NULL <==> i < |ch[f]|)
      ensures prev == if i == 0 then f else ch[f][i - 1]
      ensures prev in v && (tmp != NULL ==> tmp in v && Selects(q, tmp))
      ensures forall j :: 0 <= j < i ==> !Selects(q, ch[f][j])
    {
      ghost var c := ch[f];
      assert ChainOk(v, ch, own, f, c);
      tmp := GetDup(f);
      prev := f;
      i := 0;
      ChainAt(v, ch, own, f, 0);
      while tmp != NULL && !Selects(q, tmp)
        invariant 0 <= i <= |c| && tmp == Nth(c, i) && (tmp != NULL <==> i < |c|) && (tmp != NULL ==> tmp in v)
        invariant prev == (if i == 0 then f else c[i - 1]) && prev in v
        invariant forall j :: 0 <= j < i ==> !Selects(q, c[j])
        decreases |c| - i
      {
        ChainAt(v, ch, own, f, i);
        if i + 1 < |c| { ChainAt(v, ch, own, f, i + 1); }
        prev := tmp;
        tmp := GetDup(tmp);
        i := i + 1;
      }
    }

    /** rb_tree.c:246-251 */
    method Promote(f: Ptr, fp: Ptr)
      requires Live() && Sound(v, s, b, ch, own) && f in s && f != HEAD && fp == Par(s, f) && f in ch && ch[f] != []
      modifies `w, `v, `s, `b, `ch, `own, `numDup
      ensures Live() && SameData(old(v), v) && |s| == |old(s)|
      ensures SoundBut(v, s, b, ch, own, f) && |own| == |old(own)| - 1 && numDup == old(numDup) - 1
      ensures ChainsCut(old(ch), ch, f, f)
    {
      ghost var v0, s0, b0 := v, s, b;
      assert NodeOk(v, s, f);
      FirstDup(v, s, b, ch, own, f);
      ghost var z := ch[f][0];
      var tmp := GetDup(f);
      assert tmp == z;
      TakeOver(fp, f, tmp, s);
      assert Swapped(v0, s0, v, f, z) && Sound(v0, s0, b0, ch, own);
      ghost var s', b', ch', own' := TakeHead(v0, s0, b0, ch, own, v, f, z);
      numDup := numDup - 1;
      Record(v, s', b', ch', own');
    }

    /** rb_tree.c:257-259 */
    method Bypass(f: Ptr, prev: Ptr, tmp: Ptr, ghost i: int)
      requires Live() && Sound(v, s, b, ch, own) && f in ch && 0 <= i < |ch[f]| && tmp == ch[f][i] && prev in v
      requires prev == if i == 0 then f else ch[f][i - 1]
      modifies `w, `v, `s, `b, `ch, `own, `numDup
      ensures Live() && SameData(old(v), v) && s == old(s)
      ensures SoundBut(v, s, b, ch, own, tmp) && |own| == |old(own)| - 1 && numDup == old(numDup) - 1
      ensures ch == old(ch)[f := Without(old(ch)[f], i)]
    {
      ghost var v0, c := v, ch[f];
      ChainAt(v, ch, own, f, i);
      if i + 1 < |c| { ChainAt(v, ch, own, f, i + 1); }
      var rest := GetDup(tmp);
      SetDup(prev, rest);
      numDup := numDup - 1;
      TakeDup(v0, s, b, ch, own, v, f, i);
      Record(v, s, b, ch[f := Without(c, i)], own - {tmp});
    }

    /** rb_tree.c:235-261: the found node f has duplicates. */
    method RemoveChained(q: Query, f: Ptr, fp: Ptr) returns (r: Ptr)
      requires Live() && Sound(v, s, b, ch, own) && f in s && f != HEAD && fp == Par(s, f) && f in ch && ch[f] != []
      modifies `w, `v, `s, `b, `ch, `own, `numDup
      ensures Live() && SameData(old(v), v) && |s| == |old(s)| && Picked(q, f, old(ch)[f], r)
      ensures r != NULL ==> SoundBut(v, s, b, ch, own, r) && |own| == |old(own)| - 1 && numDup == old(numDup) - 1
      ensures r == NULL ==> Sound(v, s, b, ch, own) && own == old(own) && numDup == old(numDup)
      ensures ChainsCut(old(ch), ch, f, r)
    {
      assert NodeOk(v, s, f);
      var tmp, prev;
      ghost var i;
      tmp, prev, i := FindDup(q, f);
      if tmp == NULL {
        if Selects(q, f) {
          Promote(f, fp);
          r := f;
        } else {
          r := NULL;
        }
      } else {
        r := tmp;
        assert r != f by { ChainAt(v, ch, own, f, i); }
        Bypass(f, prev, tmp, i);
      }
    }

    /** rb_tree.c:159-233 from a tree at rest. */
    method SearchFromRest(q: Query) returns (p: Ptr, n: Ptr, f: Ptr, fp: Ptr, ghost dir: bool)
      requires Valid() && root != NULL && Sensible(q)
      modifies `w, `v, `s, `b, `base, `K
      ensures Live() && Sound(v, s, b, ch, own) && base == old(w) && K == old(v).Keys
      ensures Held(v) == Held(old(v)) && |s| == |old(s)|
      ensures Outcome(v, s, q, f) && n in s && n != HEAD && p == Par(s, n) && Kid(v, n, dir) == NULL
      ensures Pushed(v, s, n, dir)
      ensures f != NULL ==> fp == Par(s, f) && Data(v, f) == SHi(v, s, n, dir)
    {
      ghost var v0, s0, b0 := v, s, b;
      HeadNode(v, s);
      assert NodeOk(v, s, HEAD) && NodeOk(v, s, root);
      MakeHead(NULL);
      p, n, f, fp, dir := Search(q);
      SoundMoved(v0, s0, b0, v, s, b, ch, own);
    }

    /** rb_tree.c:154-287 */
    method Remove(q: Query) returns (r: Ptr, ghost found: Ptr)
      requires Valid() && Sensible(q)
      modifies this
      ensures Valid() && Answer(old(Contents()), q, r) && Chosen(old(Contents()), old(ch), q, found, r)
      ensures Contents() == old(Contents()) - {r} && ChainsCut(old(ch), ch, found, r)
      ensures old(root) != NULL ==> numNodes == |s| - 1 && numDup == |own|
      ensures SameBeyond(old(w), w, old(v).Keys)
    {
      if root == NULL {
        AnswersEmpty(v, s, b, ch, own, q);
        return NULL, NULL;
      }
      var p, n, f, fp;
      ghost var dir;
      p, n, f, fp, dir := SearchFromRest(q);
      r := RemoveFound(q, p, n, f, fp, dir);
      found := f;
    }

    /** rb_tree.c:234-276: the picked node is unlinked; it stays in the view. */
    method Unhook(q: Query, p: Ptr, n: Ptr, f: Ptr, fp: Ptr, ghost dir: bool) returns (r: Ptr)
      requires Live() && Sound(v, s, b, ch, own) && numNodes == |s| - 1 && numDup == |own|
      requires f in s && f != HEAD && n in s && n != HEAD && p == Par(s, n) && Kid(v, n, dir) == NULL
      requires Pushed(v, s, n, dir)
      requires fp == Par(s, f) && Data(v, f) == SHi(v, s, n, dir)
      modifies `w, `v, `s, `b, `ch, `own, `numNodes, `numDup
      ensures Live() && SameData(old(v), v) && f in old(ch) && Picked(q, f, old(ch)[f], r)
      ensures numNodes == |s| - 1 && numDup == |own| && ChainsCut(old(ch), ch, f, r)
      ensures if r == NULL then Sound(v, s, b, ch, own) else SoundBut(v, s, b, ch, own, r)
    {
      assert NodeOk(v, s, f) && Sorted(v, s, ch, own, f);
      assert ChainOk(v, ch, own, f, ch[f]);
      if |ch[f]| > 0 { ChainAt(v, ch, own, f, 0); }
      var dup := GetDup(f);
      r := f;
      if dup != NULL {
        r := RemoveChained(q, f, fp);
      } else {
        StopsAtLeaf(v, s, b, n, dir);
        StopsAtPredecessor(v, s, n, dir, f);
        RemoveLone(p, n, f, fp);
      }
    }

    /** rb_tree.c:234-283 */
    method RemoveFound(q: Query, p: Ptr, n: Ptr, f: Ptr, fp: Ptr, ghost dir: bool) returns (r: Ptr)
      requires Live() && Sound(v, s, b, ch, own) && numNodes == |s| - 1 && numDup == |own|
      requires Outcome(v, s, q, f) && n in s && n != HEAD && p == Par(s, n) && Kid(v, n, dir) == NULL
      requires Pushed(v, s, n, dir)
      requires f != NULL ==> fp == Par(s, f) && Data(v, f) == SHi(v, s, n, dir)
      modifies `w, `v, `s, `b, `ch, `own, `root, `numNodes, `numDup
      ensures Valid() && Answer(Held(old(v)), q, r) && Chosen(Held(old(v)), old(ch), q, f, r)
      ensures Held(v) == Held(old(v)) - {r} && SameBeyond(base, w, K) && ChainsCut(old(ch), ch, f, r)
      ensures numNodes == |s| - 1 && numDup == |own|
    {
      ghost var v0, s0, b0, ch0, own0 := v, s, b, ch, own;
      r := NULL;
      if f != NULL {
        r := Unhook(q, p, n, f, fp, dir);
      }
      Answers(v0, s0, b0, ch0, own0, q, f, r);
      HeldSame(v0, v);
      if r == NULL {
        FinishAll();
      } else {
        FinishWithout(r);
      }
    }

    /** rb_tree.c:277-281 when nothing was found. */
    method FinishAll()
      requires Live() && Sound(v, s, b, ch, own) && numNodes == |s| - 1 && numDup == |own|
      modifies `w, `v, `b, `root
      ensures Valid() && Held(v) == Held(old(v)) - {NULL} && SameBeyond(base, w, K)
    {
      ghost var v1 := v;
      assert NodeOk(v, s, HEAD);
      root := GetKid(HEAD, true);
      Finish();
      HeldSame(v1, v);
    }
  }

  /** With one node of 64 bytes at 124 in the tree, a search for the one at 324 takes it out instead of failing. */
  method WrongAddress() returns (r: Ptr)
    ensures r == 124
  {
    var tree := new Tree(map[124 := 64], 0, 0);
    ghost var v := tree.v;
    HeadNode(v, tree.s);
    NothingHeld(v);
    assert Spot(124) && Spot(HEAD) && Clear(124, HEAD) && Clear(HEAD, 124);
    var ok := tree.Insert(124);
    ghost var held := tree.Contents();
    assert held == map[124 := 64];
    ghost var found;
    r, found := tree.Remove(Exact(64, 324));
    assert Sole(held, 124);
  }
}
