/**
 Word-addressed memory, and the tree nodes that lie in it.

 A node occupies four words: data, link[0], link[1], link[2].  Bit 0 of link[0] is the colour
 (kernel/rb_tree.h:6-8); the macros of kernel/rb_tree.c:8-19 mask it off when a link is read and keep
 it when a link is written.
 */
module Words {
  import opened RbShape

  /** Byte address of a word to its 32-bit value; a word nobody wrote reads as 0. */
  type Words = map<int, int>

  function Rd(w: Words, a: int): int { if a in w then w[a] else 0 }

  // get_link, set_link, paint_red, paint_black, copy_color on one link word
  function Untag(word: int): int { word - word % 2 }
  function Tagged(word: int): bool { word % 2 == 1 }
  function Relink(word: int, val: int): int { word % 2 + (val - val % 2) }
  function Retag(word: int, tag: bool): int { word - word % 2 + (if tag then 1 else 0) }

  /** The tag is lossless exactly when pointers are even. */
  lemma TagLossless(word: int, val: int, tag: bool)
    ensures Tagged(Relink(word, val)) == Tagged(word)
    ensures Untag(Relink(word, val)) == val <==> val % 2 == 0
    ensures Untag(Retag(word, tag)) == Untag(word) && Tagged(Retag(word, tag)) == tag
  {
  }

  function NodeAt(w: Words, x: Ptr): Node {
    Node(Rd(w, x), Untag(Rd(w, x + 4)), Untag(Rd(w, x + 8)), Untag(Rd(w, x + 12)), Tagged(Rd(w, x + 4)))
  }

  // ---------------------------------------------------------------- where nodes may lie

  ghost predicate Spot(x: Ptr) { x % 4 == 0 }
  ghost predicate Clear(x: Ptr, y: Ptr) { x + 16 <= y || y + 16 <= x }

  /** Nodes are word aligned and do not overlap. */
  ghost predicate Placed(K: set<Ptr>) {
    && NULL !in K
    && (forall x {:trigger Spot(x)} :: x in K ==> Spot(x))
    && (forall x, y {:trigger Clear(x, y)} :: x in K && y in K && x != y ==> Clear(x, y))
  }

  ghost predicate InSync(w: Words, v: Nodes) {
    forall x {:trigger NodeAt(w, x)} :: x in v ==> NodeAt(w, x) == v[x]
  }

  /** The word at a is neither a link of a node of K nor part of the dummy root. */
  ghost predicate Beyond(K: set<Ptr>, a: int) {
    && (a < HEAD || HEAD + 16 <= a)
    && (forall x {:trigger x in K} :: x in K ==> a < x + 4 || x + 16 <= a)
  }

  ghost predicate SameBeyond(w: Words, w': Words, K: set<Ptr>) {
    forall a {:trigger Rd(w', a)} :: Beyond(K, a) ==> Rd(w', a) == Rd(w, a)
  }

  /** A write to a word of node x leaves the other nodes alone. */
  lemma WriteOne(w: Words, v: Nodes, x: Ptr, i: int, val: int)
    requires Placed(v.Keys) && InSync(w, v) && x in v && i in {4, 8, 12}
    ensures var w' := w[x + i := val];
            && InSync(w', v[x := NodeAt(w', x)])
            && SameBeyond(w, w', v.Keys)
            && NodeAt(w, x) == v[x]
  {
    var w' := w[x + i := val];
    assert NodeAt(w, x) == v[x];
    forall y | y in v && y != x ensures NodeAt(w', y) == v[y] {
      assert Clear(x, y) && Spot(x) && Spot(y);
      assert NodeAt(w, y) == v[y];
    }
    forall a | Beyond(v.Keys, a) ensures Rd(w', a) == Rd(w, a) {
      assert x in v.Keys;
    }
  }

  lemma LeftLinked(w: Words, x: Ptr, c: Ptr)
    requires c % 2 == 0
    ensures NodeAt(w[x + 4 := Relink(Rd(w, x + 4), c)], x) == NodeAt(w, x).(left := c)
  {
  }

  lemma RightLinked(w: Words, x: Ptr, c: Ptr)
    requires c % 2 == 0
    ensures NodeAt(w[x + 8 := Relink(Rd(w, x + 8), c)], x) == NodeAt(w, x).(right := c)
  {
  }

  lemma KidWritten(v: Nodes, x: Ptr, d: bool, c: Ptr, n: Node)
    requires x in v && n == if d then v[x].(right := c) else v[x].(left := c)
    ensures SameData(v, v[x := n]) && SameRed(v, v[x := n]) && SameDup(v, v[x := n]) && KidSet(v, v[x := n], x, d, c)
  {
  }

  // ---------------------------------------------------------------- the macros

  method LoadKid(w: Words, ghost v: Nodes, x: Ptr, d: bool) returns (c: Ptr)
    requires InSync(w, v) && x in v
    ensures c == Kid(v, x, d)
  {
    assert NodeAt(w, x) == v[x];
    c := Untag(Rd(w, if d then x + 8 else x + 4));
  }

  method LoadDup(w: Words, ghost v: Nodes, x: Ptr) returns (c: Ptr)
    requires InSync(w, v) && x in v
    ensures c == Dup(v, x)
  {
    assert NodeAt(w, x) == v[x];
    c := Untag(Rd(w, x + 12));
  }

  method LoadRed(w: Words, ghost v: Nodes, x: Ptr) returns (r: bool)
    requires InSync(w, v) && (x == NULL || x in v)
    ensures r == Red(v, x)
  {
    assert x in v ==> NodeAt(w, x) == v[x];
    r := x != NULL && Tagged(Rd(w, x + 4));
  }

  method LoadData(w: Words, ghost v: Nodes, x: Ptr) returns (d: int)
    requires InSync(w, v) && x in v
    ensures d == Data(v, x) && d == Rd(w, x)
  {
    assert NodeAt(w, x) == v[x];
    d := Rd(w, x);
  }

  method StoreKid(w: Words, ghost v: Nodes, x: Ptr, d: bool, c: Ptr) returns (w': Words, ghost v': Nodes)
    requires Placed(v.Keys) && InSync(w, v) && x in v && (c == NULL || c in v)
    ensures InSync(w', v') && SameBeyond(w, w', v.Keys)
    ensures SameData(v, v') && SameRed(v, v') && SameDup(v, v') && KidSet(v, v', x, d, c)
  {
    EvenLink(v, c);
    if d {
      var val := Relink(Rd(w, x + 8), c);
      w' := w[x + 8 := val];
      RightLinked(w, x, c);
      v' := KidStored(w, v, x, d, c, 8, val, w');
    } else {
      var val := Relink(Rd(w, x + 4), c);
      w' := w[x + 4 := val];
      LeftLinked(w, x, c);
      v' := KidStored(w, v, x, d, c, 4, val, w');
    }
  }

  lemma EvenLink(v: Nodes, c: Ptr)
    requires Placed(v.Keys) && (c == NULL || c in v)
    ensures c % 2 == 0
  {
    if c != NULL { SpotEven(c); }
  }

  lemma SpotEven(c: Ptr)
    requires Spot(c)
    ensures c % 2 == 0
  {
    var q := c / 4;
    assert c == 2 * (2 * q);
  }

  lemma KidStored(w: Words, v: Nodes, x: Ptr, d: bool, c: Ptr, i: int, val: int, w': Words) returns (v': Nodes)
    requires Placed(v.Keys) && InSync(w, v) && x in v && i in {4, 8} && w' == w[x + i := val]
    requires NodeAt(w', x) == if d then NodeAt(w, x).(right := c) else NodeAt(w, x).(left := c)
    ensures InSync(w', v') && SameBeyond(w, w', v.Keys)
    ensures SameData(v, v') && SameRed(v, v') && SameDup(v, v') && KidSet(v, v', x, d, c)
  {
    WriteOne(w, v, x, i, val);
    var n := NodeAt(w', x);
    KidWritten(v, x, d, c, n);
    v' := v[x := n];
  }

  method StoreDup(w: Words, ghost v: Nodes, x: Ptr, c: Ptr) returns (w': Words, ghost v': Nodes)
    requires Placed(v.Keys) && InSync(w, v) && x in v && (c == NULL || c in v)
    ensures InSync(w', v') && SameBeyond(w, w', v.Keys)
    ensures SameData(v, v') && SameRed(v, v') && SameKids(v, v') && DupSet(v, v', x, c)
  {
    var val := Relink(Rd(w, x + 12), c);
    EvenLink(v, c);
    WriteOne(w, v, x, 12, val);
    w' := w[x + 12 := val];
    ghost var n := NodeAt(w', x);
    DupLinked(w, x, c);
    DupWritten(v, x, c, n);
    v' := v[x := n];
  }

  lemma DupLinked(w: Words, x: Ptr, c: Ptr)
    requires c % 2 == 0
    ensures NodeAt(w[x + 12 := Relink(Rd(w, x + 12), c)], x) == NodeAt(w, x).(dup := c)
  {
  }

  lemma DupWritten(v: Nodes, x: Ptr, c: Ptr, n: Node)
    requires x in v && n == v[x].(dup := c)
    ensures SameData(v, v[x := n]) && SameRed(v, v[x := n]) && SameKids(v, v[x := n]) && DupSet(v, v[x := n], x, c)
  {
  }

  method StoreRed(w: Words, ghost v: Nodes, x: Ptr, red: bool) returns (w': Words, ghost v': Nodes)
    requires Placed(v.Keys) && InSync(w, v) && x in v
    ensures InSync(w', v') && SameBeyond(w, w', v.Keys)
    ensures SameData(v, v') && RedSet(v, v', x, red) && SameDup(v, v') && SameKids(v, v')
  {
    assert NULL !in v.Keys;
    var val := Retag(Rd(w, x + 4), red);
    WriteOne(w, v, x, 4, val);
    w' := w[x + 4 := val];
    v' := v[x := NodeAt(w', x)];
  }

  // ---------------------------------------------------------------- the dummy root on the stack

  ghost predicate SameOffHead(w: Words, w': Words) {
    forall a {:trigger Rd(w', a)} :: a < HEAD || HEAD + 16 <= a ==> Rd(w', a) == Rd(w, a)
  }

  /** `rb_node_t head = { 0 }; set_link(&head, 1, root);` */
  method WriteHead(w: Words, root: Ptr) returns (w': Words)
    requires root % 2 == 0
    ensures NodeAt(w', HEAD) == Node(0, NULL, root, NULL, false) && SameOffHead(w, w')
  {
    w' := w[HEAD := 0][HEAD + 4 := 0][HEAD + 8 := Relink(0, root)][HEAD + 12 := 0];
  }

  lemma NodeKept(w: Words, w': Words, x: Ptr)
    requires Rd(w', x) == Rd(w, x) && Rd(w', x + 4) == Rd(w, x + 4)
    requires Rd(w', x + 8) == Rd(w, x + 8) && Rd(w', x + 12) == Rd(w, x + 12)
    ensures NodeAt(w', x) == NodeAt(w, x)
  {
  }

  lemma HeadKeeps(w: Words, w': Words, x: Ptr)
    requires SameOffHead(w, w') && Clear(x, HEAD)
    ensures NodeAt(w', x) == NodeAt(w, x)
  {
    assert Rd(w', x) == Rd(w, x) && Rd(w', x + 4) == Rd(w, x + 4);
    assert Rd(w', x + 8) == Rd(w, x + 8) && Rd(w', x + 12) == Rd(w, x + 12);
    NodeKept(w, w', x);
  }

  lemma HeadInSync(w: Words, w': Words, v: Nodes)
    requires SameOffHead(w, w') && HEAD in v && NodeAt(w', HEAD) == v[HEAD]
    requires InSync(w, v - {HEAD}) && Placed(v.Keys)
    ensures InSync(w', v) && SameBeyond(w, w', v.Keys)
  {
    forall x | x in v ensures NodeAt(w', x) == v[x] {
      if x != HEAD {
        assert Clear(x, HEAD);
        HeadKeeps(w, w', x);
        assert NodeAt(w, x) == (v - {HEAD})[x];
      }
    }
    forall a | Beyond(v.Keys, a) ensures Rd(w', a) == Rd(w, a) {
      assert HEAD in v.Keys;
    }
  }

  lemma SyncOffHead(w: Words, v: Nodes)
    requires InSync(w, v)
    ensures InSync(w, v - {HEAD})
  {
    forall x | x in v - {HEAD} ensures NodeAt(w, x) == (v - {HEAD})[x] { assert NodeAt(w, x) == v[x]; }
  }

  /** The nodes of the view, the dummy root apart, read the same in both memories. */
  ghost predicate SameNodes(w: Words, w': Words, v: Nodes) {
    forall x {:trigger x in v} :: x in v && x != HEAD ==>
      && Rd(w', x) == Rd(w, x) && Rd(w', x + 4) == Rd(w, x + 4)
      && Rd(w', x + 8) == Rd(w, x + 8) && Rd(w', x + 12) == Rd(w, x + 12)
  }

  lemma StoreApart(w: Words, w': Words, v: Nodes)
    requires InSync(w, v - {HEAD}) && SameNodes(w, w', v)
    ensures InSync(w', v - {HEAD})
  {
    forall x | x in v - {HEAD} ensures NodeAt(w', x) == (v - {HEAD})[x] {
      assert x in v;
      NodeKept(w, w', x);
      assert NodeAt(w, x) == (v - {HEAD})[x];
    }
  }
}
