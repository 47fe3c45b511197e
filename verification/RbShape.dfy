/**
 The shape of the tree that kernel/rb_tree.c keeps, described node by node.

 Every tree node carries three ghost facts: the open interval of keys its subtree may hold, its
 parent, and its black height.  All of the red-black and search-tree rules are then local: each one
 speaks about a node and its two kids, so a rotation or a recolouring is checked at the handful of
 nodes it touches.  What the rules mean for the whole tree is proved here from the local rules.
 */
module RbShape {
  type Ptr = int

  const NULL: Ptr := 0
  /** Where the dummy root that insert_rbnode and remove_rbnode keep on their stack lives. */
  const HEAD: Ptr := 16
  /** Keys are 32-bit sizes. */
  const TOP: int := 0x1_0000_0000

  /** An rb_node_t once its links are untagged; `red` is the tag bit of link[0]. */
  datatype Node = Node(data: int, left: Ptr, right: Ptr, dup: Ptr, red: bool)
  /** The keys strictly between lo and hi belong to the subtree of a node; `par` is its parent. */
  datatype Span = Span(lo: int, hi: int, par: Ptr)

  type Nodes = map<Ptr, Node>
  type Spans = map<Ptr, Span>
  type Heights = map<Ptr, int>

  // Directions are booleans: false is link[0] (smaller keys), true is link[1].

  function Data(m: Nodes, x: Ptr): int { if x in m then m[x].data else 0 }
  function Kid(m: Nodes, x: Ptr, d: bool): Ptr { if x in m then (if d then m[x].right else m[x].left) else NULL }
  function Dup(m: Nodes, x: Ptr): Ptr { if x in m then m[x].dup else NULL }
  predicate Red(m: Nodes, x: Ptr) { x != NULL && x in m && m[x].red }
  function Lo(s: Spans, x: Ptr): int { if x in s then s[x].lo else 0 }
  function Hi(s: Spans, x: Ptr): int { if x in s then s[x].hi else 0 }
  function Par(s: Spans, x: Ptr): Ptr { if x in s then s[x].par else NULL }
  function Bh(b: Heights, x: Ptr): int { if x != NULL && x in b then b[x] else 0 }

  /** The interval that belongs to the kid of x in direction d. */
  function SLo(m: Nodes, s: Spans, x: Ptr, d: bool): int { if d then Data(m, x) else Lo(s, x) }
  function SHi(m: Nodes, s: Spans, x: Ptr, d: bool): int { if d then Hi(s, x) else Data(m, x) }

  // ---------------------------------------------------------------- the local rules

  ghost predicate LinkOk(m: Nodes, s: Spans, x: Ptr, d: bool) {
    var c := Kid(m, x, d);
    || c == NULL
    || (c in s && c != HEAD && Par(s, c) == x && Lo(s, c) == SLo(m, s, x, d) && Hi(s, c) == SHi(m, s, x, d))
  }

  ghost predicate NodeOk(m: Nodes, s: Spans, x: Ptr) {
    && x in m
    && -1 <= Lo(s, x) < Data(m, x) < Hi(s, x) <= TOP
    && LinkOk(m, s, x, false)
    && LinkOk(m, s, x, true)
    && (x != HEAD ==> Par(s, x) in s && (Kid(m, Par(s, x), false) == x || Kid(m, Par(s, x), true) == x))
  }

  /** A search tree hangs from link[1] of the dummy root. */
  ghost predicate Struct(m: Nodes, s: Spans) {
    && HEAD in s && NULL !in s
    && Kid(m, HEAD, false) == NULL && Data(m, HEAD) == 0 && s[HEAD] == Span(-1, TOP, NULL)
    && (forall x {:trigger NodeOk(m, s, x)} :: x in s ==> NodeOk(m, s, x))
  }

  ghost predicate Distinct(m: Nodes, s: Spans) {
    forall x, y {:trigger Data(m, x), Data(m, y)} :: x in s && y in s && Data(m, x) == Data(m, y) ==> x == y
  }

  /** Seen from x towards e: black heights agree, and a red node has no red kid except possibly exc. */
  ghost predicate ShadeSide(m: Nodes, b: Heights, x: Ptr, e: bool, exc: Ptr) {
    && Bh(b, x) >= Weight(m, x)
    && Bh(b, x) == Bh(b, Kid(m, x, e)) + Weight(m, x)
    && (Red(m, x) ==> Kid(m, x, e) == exc || !Red(m, Kid(m, x, e)))
  }
  function Weight(m: Nodes, x: Ptr): int { if Red(m, x) then 0 else 1 }

  ghost predicate ShadeOk(m: Nodes, b: Heights, x: Ptr, exc: Ptr) {
    ShadeSide(m, b, x, false, exc) && ShadeSide(m, b, x, true, exc)
  }

  ghost predicate Shade(m: Nodes, s: Spans, b: Heights, exc: Ptr) {
    && !Red(m, HEAD)
    && b.Keys == s.Keys
    && (forall x {:trigger ShadeOk(m, b, x, exc)} :: x in s && x != HEAD ==> ShadeOk(m, b, x, exc))
  }

  // ---------------------------------------------------------------- how writes change the nodes

  ghost predicate SameData(m: Nodes, m': Nodes) {
    m'.Keys == m.Keys && forall y {:trigger Data(m', y)} :: Data(m', y) == Data(m, y)
  }
  ghost predicate SameKids(m: Nodes, m': Nodes) {
    forall y, e {:trigger Kid(m', y, e)} :: Kid(m', y, e) == Kid(m, y, e)
  }
  ghost predicate SameRed(m: Nodes, m': Nodes) {
    forall y {:trigger Red(m', y)} :: Red(m', y) == Red(m, y)
  }
  ghost predicate SameDup(m: Nodes, m': Nodes) {
    forall y {:trigger Dup(m', y)} :: Dup(m', y) == Dup(m, y)
  }
  ghost predicate KidSet(m: Nodes, m': Nodes, x: Ptr, d: bool, c: Ptr) {
    forall y, e {:trigger Kid(m', y, e)} :: Kid(m', y, e) == if y == x && e == d then c else Kid(m, y, e)
  }
  ghost predicate RedSet(m: Nodes, m': Nodes, x: Ptr, red: bool) {
    forall y {:trigger Red(m', y)} :: Red(m', y) == if y == x then red else Red(m, y)
  }
  ghost predicate DupSet(m: Nodes, m': Nodes, x: Ptr, c: Ptr) {
    forall y {:trigger Dup(m', y)} :: Dup(m', y) == if y == x then c else Dup(m, y)
  }

  /** Nodes that are not in S keep their links and colour. */
  ghost predicate SameOff(m: Nodes, m': Nodes, S: set<Ptr>) {
    && (forall y, e {:trigger Kid(m', y, e)} :: y !in S ==> Kid(m', y, e) == Kid(m, y, e))
    && (forall y {:trigger Red(m', y)} :: y !in S ==> Red(m', y) == Red(m, y))
  }

  lemma SameDataTrans(m: Nodes, m1: Nodes, m': Nodes)
    requires SameData(m, m1) && SameData(m1, m')
    ensures SameData(m, m')
  {
  }

  lemma StructFrame(m: Nodes, m': Nodes, s: Spans)
    requires Struct(m, s) && SameKids(m, m') && SameData(m, m')
    ensures Struct(m', s)
  {
    forall x | x in s ensures NodeOk(m', s, x) { assert NodeOk(m, s, x); }
  }

  lemma ShadeFrame(m: Nodes, m': Nodes, s: Spans, b: Heights, exc: Ptr)
    requires Shade(m, s, b, exc) && SameKids(m, m') && SameRed(m, m')
    ensures Shade(m', s, b, exc)
  {
    forall x | x in s && x != HEAD ensures ShadeOk(m', b, x, exc) { assert ShadeOk(m, b, x, exc); }
  }

  // ---------------------------------------------------------------- what the intervals mean

  ghost predicate Under(m: Nodes, s: Spans, x: Ptr, y: Ptr, d: bool) {
    SLo(m, s, y, d) <= Lo(s, x) && Hi(s, x) <= SHi(m, s, y, d)
  }

  ghost predicate Laminar(m: Nodes, s: Spans, x: Ptr, y: Ptr) {
    || x == y
    || Under(m, s, x, y, false) || Under(m, s, x, y, true)
    || Under(m, s, y, x, false) || Under(m, s, y, x, true)
    || Hi(s, x) <= Lo(s, y) || Hi(s, y) <= Lo(s, x)
  }

  /** Two subtrees are nested or apart, whatever the two nodes. */
  lemma {:induction false} Nest(m: Nodes, s: Spans, x: Ptr, y: Ptr)
    requires Struct(m, s) && Distinct(m, s) && x in s && y in s
    ensures Laminar(m, s, x, y)
    decreases (TOP + 1 - (Hi(s, x) - Lo(s, x))) + (TOP + 1 - (Hi(s, y) - Lo(s, y)))
  {
    assert NodeOk(m, s, x) && NodeOk(m, s, y);
    if x == y || x == HEAD || y == HEAD {
      assert NodeOk(m, s, HEAD);
      Inside(m, s, x);
      Inside(m, s, y);
    } else {
      var p, q := Par(s, x), Par(s, y);
      assert NodeOk(m, s, p) && NodeOk(m, s, q);
      Nest(m, s, p, y);
      Nest(m, s, x, q);
      Nest(m, s, p, q);
      NestStep(m, s, x, y, p, q);
    }
  }

  /** A kid's interval is one side of its parent's. */
  lemma NestStep(m: Nodes, s: Spans, x: Ptr, y: Ptr, p: Ptr, q: Ptr)
    requires Struct(m, s) && Distinct(m, s) && x in s && y in s && x != HEAD && y != HEAD && x != y
    requires p == Par(s, x) && q == Par(s, y) && p in s && q in s
    requires Laminar(m, s, p, y) && Laminar(m, s, x, q) && Laminar(m, s, p, q)
    ensures Laminar(m, s, x, y)
  {
    assert NodeOk(m, s, x) && NodeOk(m, s, y) && NodeOk(m, s, p) && NodeOk(m, s, q);
  }

  lemma {:induction false} Inside(m: Nodes, s: Spans, x: Ptr)
    requires Struct(m, s) && x in s
    ensures x != HEAD ==> 0 <= Lo(s, x)
    decreases TOP + 1 - (Hi(s, x) - Lo(s, x))
  {
    assert NodeOk(m, s, x);
    if x != HEAD {
      assert NodeOk(m, s, Par(s, x));
      Inside(m, s, Par(s, x));
    }
  }

  /** Where a kid is missing, no node of the whole tree has a key in the kid's interval. */
  lemma {:induction false} EmptySlot(m: Nodes, s: Spans, y: Ptr, d: bool, x: Ptr)
    requires Struct(m, s) && Distinct(m, s) && x in s && y in s && Kid(m, y, d) == NULL
    ensures !(SLo(m, s, y, d) < Data(m, x) < SHi(m, s, y, d))
    decreases TOP + 1 - (Hi(s, x) - Lo(s, x))
  {
    assert NodeOk(m, s, x) && NodeOk(m, s, y);
    if SLo(m, s, y, d) < Data(m, x) < SHi(m, s, y, d) {
      Nest(m, s, x, y);
      assert NodeOk(m, s, HEAD);
      if x == HEAD {
        Inside(m, s, y);
      } else {
        var p := Par(s, x);
        assert NodeOk(m, s, p);
        Nest(m, s, p, y);
        EmptySlot(m, s, y, d, p);
      }
    }
  }

  // ---------------------------------------------------------------- rotations

  /** `root` goes down on side d; its other kid comes up in its place under the parent of `root`. */
  ghost predicate Rotated(m: Nodes, s: Spans, m': Nodes, s': Spans, root: Ptr, d: bool) {
    var t := Par(s, root);
    var save := Kid(m, root, !d);
    var c := Kid(m, save, d);
    && SameData(m, m') && s'.Keys == s.Keys
    && (forall y, e {:trigger Kid(m', y, e)} :: Kid(m', y, e) ==
         if y == root && e == !d then c
         else if y == save && e == d then root
         else if y == t && Kid(m, y, e) == root then save
         else Kid(m, y, e))
    && (forall y {:trigger Par(s', y)} :: Par(s', y) ==
         if y == root then save else if y == save then t else if y == c && c != NULL then root else Par(s, y))
    && (forall y {:trigger Lo(s', y)} :: Lo(s', y) ==
         if y == save then Lo(s, root) else if y == root && d then Data(m, save) else Lo(s, y))
    && (forall y {:trigger Hi(s', y)} :: Hi(s', y) ==
         if y == save then Hi(s, root) else if y == root && !d then Data(m, save) else Hi(s, y))
  }

  ghost function RotSpans(m: Nodes, s: Spans, root: Ptr, d: bool): Spans
    requires root in s && Kid(m, root, !d) in s
  {
    var save := Kid(m, root, !d);
    var c := Kid(m, save, d);
    var sp := s[root];
    var s1 := if c in s then s[c := s[c].(par := root)] else s;
    s1[save := sp][root := if d then Span(Data(m, save), sp.hi, save) else Span(sp.lo, Data(m, save), save)]
  }

  lemma RotLink(m: Nodes, s: Spans, m': Nodes, s': Spans, root: Ptr, d: bool, x: Ptr, e: bool)
    requires Struct(m, s) && root in s && root != HEAD && Kid(m, root, !d) != NULL
    requires Rotated(m, s, m', s', root, d) && x in s
    ensures LinkOk(m', s', x, e)
  {
    var t := Par(s, root);
    var save := Kid(m, root, !d);
    assert NodeOk(m, s, root) && NodeOk(m, s, t) && NodeOk(m, s, save) && NodeOk(m, s, x);
    var k := Kid(m, x, e);
    if k != NULL { assert NodeOk(m, s, k); }
  }

  lemma RotNode(m: Nodes, s: Spans, m': Nodes, s': Spans, root: Ptr, d: bool, x: Ptr)
    requires Struct(m, s) && root in s && root != HEAD && Kid(m, root, !d) != NULL
    requires Rotated(m, s, m', s', root, d) && x in s
    ensures NodeOk(m', s', x)
  {
    var t := Par(s, root);
    var save := Kid(m, root, !d);
    assert NodeOk(m, s, root) && NodeOk(m, s, t) && NodeOk(m, s, save) && NodeOk(m, s, x);
    RotLink(m, s, m', s', root, d, x, false);
    RotLink(m, s, m', s', root, d, x, true);
  }

  /** A rotation keeps the search tree. */
  lemma RotStruct(m: Nodes, s: Spans, m': Nodes, s': Spans, root: Ptr, d: bool)
    requires Struct(m, s) && root in s && root != HEAD && Kid(m, root, !d) != NULL
    requires Rotated(m, s, m', s', root, d)
    ensures Struct(m', s')
  {
    forall x | x in s ensures NodeOk(m', s', x) { RotNode(m, s, m', s', root, d, x); }
    assert NodeOk(m, s, root) && NodeOk(m, s, HEAD);
    var save := Kid(m, root, !d);
    assert NodeOk(m, s, save);
    var h := s'[HEAD];
    assert Lo(s', HEAD) == h.lo && Hi(s', HEAD) == h.hi && Par(s', HEAD) == h.par;
  }

  /** The writes of rotate(root, d) followed by relinking the parent make a rotation. */
  lemma RotMade(m: Nodes, s: Spans, m1: Nodes, m': Nodes, root: Ptr, d: bool, side: bool)
    requires Struct(m, s) && root in s && root != HEAD && Kid(m, root, !d) != NULL
    requires Kid(m, Par(s, root), side) == root
    requires RotWrites(m, m1, root, d)
    requires SameData(m1, m') && KidSet(m1, m', Par(s, root), side, Kid(m, root, !d))
    ensures Kid(m, root, !d) in s
    ensures Rotated(m, s, m', RotSpans(m, s, root, d), root, d)
    ensures Struct(m', RotSpans(m, s, root, d))
  {
    var t := Par(s, root);
    var save := Kid(m, root, !d);
    assert NodeOk(m, s, root) && NodeOk(m, s, t) && NodeOk(m, s, save);
    var c := Kid(m, save, d);
    if c != NULL { assert NodeOk(m, s, c); }
    RotStruct(m, s, m', RotSpans(m, s, root, d), root, d);
  }

  /** What rotate(root, d) writes: two links and two colours. */
  ghost predicate RotWrites(m: Nodes, m': Nodes, root: Ptr, d: bool) {
    var save := Kid(m, root, !d);
    && SameData(m, m') && SameDup(m, m')
    && (forall y, e {:trigger Kid(m', y, e)} :: Kid(m', y, e) ==
         if y == root && e == !d then Kid(m, save, d)
         else if y == save && e == d then root
         else Kid(m, y, e))
    && (forall y {:trigger Red(m', y)} :: Red(m', y) == (y == root || (y != save && Red(m, y))))
  }

  /** Where the links end up after rotating mid and then top: low, the inner grandchild, has come up. */
  ghost predicate Lifted(m: Nodes, s: Spans, m': Nodes, top: Ptr, side: bool) {
    var mid := Kid(m, top, side);
    var low := Kid(m, mid, !side);
    forall y, e {:trigger Kid(m', y, e)} :: Kid(m', y, e) ==
      if y == top && e == side then Kid(m, low, !side)
      else if y == mid && e == !side then Kid(m, low, side)
      else if y == low then (if e == side then mid else top)
      else if y == Par(s, top) && Kid(m, y, e) == top then low
      else Kid(m, y, e)
  }

  lemma RotTwice(m: Nodes, s: Spans, m1: Nodes, s1: Spans, m': Nodes, s': Spans, top: Ptr, side: bool)
    requires Struct(m, s) && top in s && top != HEAD
    requires Kid(m, top, side) != NULL && Kid(m, Kid(m, top, side), !side) != NULL
    requires Rotated(m, s, m1, s1, Kid(m, top, side), side) && Rotated(m1, s1, m', s', top, !side)
    ensures Lifted(m, s, m', top, side)
  {
    var mid := Kid(m, top, side);
    var low := Kid(m, mid, !side);
    var t := Par(s, top);
    assert NodeOk(m, s, top) && NodeOk(m, s, mid) && NodeOk(m, s, low) && NodeOk(m, s, t);
    assert Par(s1, top) == t;
    assert Kid(m1, top, side) == low && Kid(m1, low, !side) == Kid(m, low, !side);
  }
}
