/** The whole state of a tree, as one value. */
module RbState {
  import opened RbShape
  import opened RbColor
  import opened RbChains
  import opened Words

  /** x is a node iff it is in the tree or a duplicate; the tree nodes, the dummy apart, carry chains. */
  ghost predicate Sorted(v: Nodes, s: Spans, ch: Chaining, own: Owners, x: Ptr) {
    && (x in v <==> x in s || x in own)
    && (x in ch <==> x in s && x != HEAD)
    && !(x in s && x in own)
  }

  /** A red-black search tree under the dummy root, its duplicates, and nothing else. */
  ghost predicate Sound(v: Nodes, s: Spans, b: Heights, ch: Chaining, own: Owners) {
    && Struct(v, s) && Distinct(v, s) && Shade(v, s, b, NULL) && Chains(v, ch, own)
    && (forall x {:trigger Sorted(v, s, ch, own, x)} :: Sorted(v, s, ch, own, x))
    && Dup(v, HEAD) == NULL
  }

  /** The tree between two operations. */
  ghost predicate Settled(w: Words, root: Ptr, numNodes: int, numDup: int,
                          v: Nodes, s: Spans, b: Heights, ch: Chaining, own: Owners) {
    && Sound(v, s, b, ch, own) && Kid(v, HEAD, true) == root && !Red(v, root)
    && Placed(v.Keys) && InSync(w, v - {HEAD})
    && (root != NULL ==> numNodes == |s| - 1 && numDup == |own|)
  }

  lemma HeadNode(v: Nodes, s: Spans)
    requires Struct(v, s) && Dup(v, HEAD) == NULL && !Red(v, HEAD)
    ensures HEAD in v && v[HEAD] == Node(0, NULL, Kid(v, HEAD, true), NULL, false)
  {
    assert NodeOk(v, s, HEAD);
  }

  lemma SoundPainted(v: Nodes, v': Nodes, s: Spans, b: Heights, ch: Chaining, own: Owners, root: Ptr)
    requires Sound(v, s, b, ch, own) && root == Kid(v, HEAD, true) && root != NULL
    requires SameData(v, v') && SameKids(v, v') && SameDup(v, v') && RedSet(v, v', root, false)
    ensures Sound(v', s, b[root := Bh(b, root) + 1 - Weight(v, root)], ch, own)
  {
    BlackRoot(v, s, b, v', root);
    ChainsFrame(v, v', ch, own);
    forall x ensures Sorted(v', s, ch, own, x) { assert Sorted(v, s, ch, own, x); }
  }

  /** Rebalancing moves nodes about in the tree and touches nothing else. */
  lemma SoundMoved(v0: Nodes, s0: Spans, b0: Heights, v: Nodes, s: Spans, b: Heights, ch: Chaining, own: Owners)
    requires Sound(v0, s0, b0, ch, own) && SameData(v0, v) && SameDup(v0, v) && s.Keys == s0.Keys
    requires Struct(v, s) && Distinct(v, s) && Shade(v, s, b, NULL)
    ensures Sound(v, s, b, ch, own) && Held(v) == Held(v0) && |s| == |s0|
  {
    ChainsFrame(v0, v, ch, own);
    HeldSame(v0, v);
    forall x ensures Sorted(v, s, ch, own, x) {
      assert Sorted(v0, s0, ch, own, x);
      assert x in v <==> x in v0;
    }
    assert |s.Keys| == |s0.Keys|;
  }

  // ---------------------------------------------------------------- the first node

  lemma OnlyHead(v: Nodes, s: Spans)
    requires Struct(v, s) && Distinct(v, s) && Kid(v, HEAD, true) == NULL
    ensures s.Keys == {HEAD}
  {
    forall x | x in s ensures x == HEAD {
      assert NodeOk(v, s, HEAD) && NodeOk(v, s, x);
      Inside(v, s, x);
      EmptySlot(v, s, HEAD, true, x);
    }
  }

  lemma NoChains(v: Nodes, ch: Chaining, own: Owners)
    requires Chains(v, ch, own) && ch.Keys == {}
    ensures own == map[]
  {
    forall a ensures a !in own {
      if a in own { OwnerInTree(v, ch, own, a); }
    }
  }

  ghost function HeadTo(v: Nodes, node: Ptr): Nodes { v[HEAD := Node(0, NULL, node, NULL, false)] }

  lemma FirstSound(v: Nodes, s: Spans, b: Heights, ch: Chaining, node: Ptr)
    requires node != NULL && node != HEAD && node in v && HEAD in v && 0 < Data(v, node) < TOP
    requires Kid(v, node, false) == NULL && Kid(v, node, true) == NULL && Dup(v, node) == NULL && !Red(v, node)
    requires v.Keys == {HEAD, node}
    requires s == map[HEAD := Span(-1, TOP, NULL), node := Span(0, TOP, HEAD)]
    requires b == map[HEAD := 0, node := 1] && ch == map[node := []]
    ensures Sound(HeadTo(v, node), s, b, ch, map[])
  {
    var v' := HeadTo(v, node);
    assert NodeOk(v', s, HEAD) && NodeOk(v', s, node) && ShadeOk(v', b, node, NULL);
    assert ChainOk(v', ch, map[], node, ch[node]);
  }

  /** rb_tree.c:64-69: v is the view once the first node is painted black. */
  lemma FirstSettled(w: Words, v: Nodes, s: Spans, b: Heights, ch: Chaining, own: Owners, node: Ptr)
    requires Ahead(v, s, b, ch, own, node) && Kid(v, HEAD, true) == NULL && !Red(v, node)
    requires Placed(v.Keys) && InSync(w, v)
    ensures own == map[] && ch == map[] && s.Keys == {HEAD} && SameData(v, HeadTo(v, node))
    ensures Settled(w, node, 1, 0, HeadTo(v, node), s[node := Span(0, TOP, HEAD)],
                    map[HEAD := 0, node := 1], map[node := []], map[])
  {
    OnlyHead(v, s);
    assert ch.Keys == {} by {
      forall x ensures x !in ch { assert AheadOf(v, s, ch, own, node, x); }
    }
    NoChains(v, ch, own);
    assert v.Keys == {HEAD, node} by {
      forall x ensures x in v <==> x == HEAD || x == node { assert AheadOf(v, s, ch, own, node, x); }
    }
    var s' := s[node := Span(0, TOP, HEAD)];
    assert s' == map[HEAD := Span(-1, TOP, NULL), node := Span(0, TOP, HEAD)];
    FirstSound(v, s', map[HEAD := 0, node := 1], map[node := []], node);
    SyncOffHead(w, v);
    assert HeadTo(v, node) - {HEAD} == v - {HEAD};
    assert HeadTo(v, node).Keys == v.Keys;
    assert s'.Keys == {HEAD, node};
  }

  /** All of the first insertion at once, from the view v0 before the node is painted. */
  lemma InsertedFirst(w: Words, v0: Nodes, v: Nodes, s: Spans, b: Heights, ch: Chaining, own: Owners, node: Ptr)
    requires Ahead(v0, s, b, ch, own, node) && Kid(v0, HEAD, true) == NULL
    requires SameData(v0, v) && SameKids(v0, v) && SameDup(v0, v) && RedSet(v0, v, node, false)
    requires Placed(v.Keys) && InSync(w, v)
    ensures Settled(w, node, 1, 0, HeadTo(v, node), s[node := Span(0, TOP, HEAD)],
                    map[HEAD := 0, node := 1], map[node := []], map[])
    ensures SameData(v0, HeadTo(v, node)) && ChainsJoined(ch, map[node := []], node) && !Present(v0, s, Data(v0, node))
  {
    FirstPainted(v0, v, s, b, ch, own, node);
    assert AheadOf(v0, s, ch, own, node, node);
    FirstSettled(w, v, s, b, ch, own, node);
    SameDataTrans(v0, v, HeadTo(v, node));
    assert ch[node := []] == map[node := []];
  }

  lemma FirstPainted(v0: Nodes, v: Nodes, s: Spans, b: Heights, ch: Chaining, own: Owners, node: Ptr)
    requires Ahead(v0, s, b, ch, own, node) && Kid(v0, HEAD, true) == NULL
    requires SameData(v0, v) && SameKids(v0, v) && SameDup(v0, v) && RedSet(v0, v, node, false)
    ensures Ahead(v, s, b, ch, own, node) && !Present(v0, s, Data(v0, node))
  {
    assert AheadOf(v0, s, ch, own, node, node);
    StructFrame(v0, v, s);
    ChainsFrame(v0, v, ch, own);
    OnlyHead(v0, s);
    forall x ensures AheadOf(v, s, ch, own, node, x) {
      assert AheadOf(v0, s, ch, own, node, x);
      assert x in v <==> x in v0;
    }
  }

  // ---------------------------------------------------------------- a node in front of the tree

  ghost predicate AheadOf(v: Nodes, s: Spans, ch: Chaining, own: Owners, node: Ptr, x: Ptr) {
    if x == node then x in v && x !in s && x !in own && x !in ch else Sorted(v, s, ch, own, x)
  }

  /** The tree is sound and node, laid out as a lone leaf, is about to join it. */
  ghost predicate Ahead(v: Nodes, s: Spans, b: Heights, ch: Chaining, own: Owners, node: Ptr) {
    && Struct(v, s) && Distinct(v, s) && Shade(v, s, b, NULL) && Chains(v, ch, own)
    && (forall x {:trigger AheadOf(v, s, ch, own, node, x)} :: AheadOf(v, s, ch, own, node, x))
    && Dup(v, HEAD) == NULL && node != NULL && 0 < Data(v, node) < TOP
    && Kid(v, node, false) == NULL && Kid(v, node, true) == NULL && Dup(v, node) == NULL
  }

  lemma StepAhead(v0: Nodes, v: Nodes, s: Spans, b: Heights, ch: Chaining, own: Owners, node: Ptr)
    requires Sound(v0, s, b, ch, own) && node !in v0 && node != NULL && SameBut(v0, v, node)
    requires v.Keys == v0.Keys + {node}
    requires 0 < Data(v, node) < TOP && Kid(v, node, false) == NULL && Kid(v, node, true) == NULL
    requires Dup(v, node) == NULL
    ensures Ahead(v, s, b, ch, own, node)
  {
    assert Sorted(v0, s, ch, own, node) && Sorted(v0, s, ch, own, HEAD);
    forall x | x in s ensures x in v { assert Sorted(v0, s, ch, own, x); }
    forall x | x in own ensures x in v { assert Sorted(v0, s, ch, own, x); }
    CarryTree(v0, v, node, s, b);
    CarryChains(v0, v, node, ch, own);
    forall x ensures AheadOf(v, s, ch, own, node, x) { assert Sorted(v0, s, ch, own, x); }
  }

  /** The descent hung the node into the tree: its size was new. */
  lemma LoneSound(v0: Nodes, s0: Spans, b0: Heights, v: Nodes, s: Spans, b: Heights, ch: Chaining, own: Owners,
                  node: Ptr)
    requires Ahead(v0, s0, b0, ch, own, node) && SameData(v0, v) && SameDup(v0, v)
    requires Struct(v, s) && Distinct(v, s) && Shade(v, s, b, NULL) && s.Keys == s0.Keys + {node}
    ensures Sound(v, s, b, ch[node := []], own) && node !in own && |s| == |s0| + 1
    ensures !Present(v0, s0, Data(v0, node))
  {
    assert AheadOf(v0, s0, ch, own, node, node);
    ChainsFrame(v0, v, ch, own);
    ChainsAdd(v, ch, own, node);
    var ch' := ch[node := []];
    forall x ensures Sorted(v, s, ch', own, x) {
      assert AheadOf(v0, s0, ch, own, node, x);
      assert x in v <==> x in v0;
    }
    forall y | y in s0 ensures Data(v0, y) != Data(v0, node) { assert Data(v, y) != Data(v, node); }
    assert |s.Keys| == |s0.Keys| + 1;
  }

  lemma NextDup(v0: Nodes, s0: Spans, b0: Heights, v: Nodes, ch: Chaining, own: Owners, n: Ptr, node: Ptr)
    requires Ahead(v0, s0, b0, ch, own, node) && SameData(v0, v) && SameDup(v0, v) && n in s0 && n != HEAD
    ensures Dup(v, n) == NULL || Dup(v, n) in v
  {
    assert AheadOf(v0, s0, ch, own, node, n) && AheadOf(v0, s0, ch, own, node, node);
    assert ChainOk(v0, ch, own, n, ch[n]);
    if |ch[n]| > 0 { ChainAt(v0, ch, own, n, 0); }
  }

  /** The descent met a tree node of the same size, and the node was linked behind it. */
  lemma DupSound(v0: Nodes, s0: Spans, b0: Heights, v1: Nodes, v: Nodes, s: Spans, b: Heights, ch: Chaining,
                 own: Owners, n: Ptr, node: Ptr)
    requires Ahead(v0, s0, b0, ch, own, node) && SameData(v0, v1) && SameDup(v0, v1) && n in s0 && n != HEAD
    requires Struct(v1, s) && Distinct(v1, s) && Shade(v1, s, b, NULL) && s.Keys == s0.Keys
    requires Data(v1, n) == Data(v1, node)
    requires SameData(v1, v) && SameKids(v1, v) && SameRed(v1, v)
    requires forall y {:trigger Dup(v, y)} ::
               Dup(v, y) == if y == node then Dup(v1, n) else if y == n then node else Dup(v1, y)
    ensures n in ch && Sound(v, s, b, ch[n := [node] + ch[n]], own[node := n])
    ensures |own[node := n]| == |own| + 1 && |s| == |s0| && Present(v0, s0, Data(v0, node))
  {
    assert AheadOf(v0, s0, ch, own, node, node) && AheadOf(v0, s0, ch, own, node, n);
    assert AheadOf(v0, s0, ch, own, node, HEAD);
    StructFrame(v1, v, s);
    ShadeFrame(v1, v, s, b, NULL);
    ChainsFrame(v0, v1, ch, own);
    ChainsPush(v1, v, ch, own, n, node);
    assert NodeOk(v0, s0, HEAD);
    var ch', own' := ch[n := [node] + ch[n]], own[node := n];
    forall x ensures Sorted(v, s, ch', own', x) {
      assert AheadOf(v0, s0, ch, own, node, x);
      assert x in v <==> x in v0;
    }
    assert Data(v0, n) == Data(v0, node);
    assert own[node := n].Keys == own.Keys + {node};
    assert |s.Keys| == |s0.Keys|;
  }

  ghost predicate Present(m: Nodes, s: Spans, size: int) {
    exists y {:trigger Data(m, y)} :: y in s && Data(m, y) == size
  }

  // ---------------------------------------------------------------- what a tree holds

  ghost function Held(v: Nodes): map<Ptr, int> {
    map x | x in v && x != HEAD :: v[x].data
  }

  lemma NothingHeld(v: Nodes)
    requires HEAD in v && Held(v) == map[]
    ensures v.Keys == {HEAD}
  {
    var held := Held(v);
    assert forall x :: x in v && x != HEAD ==> x in held;
    assert v.Keys <= {HEAD};
  }

  lemma HeldPlus(v0: Nodes, v: Nodes, s: Spans, node: Ptr, size: int)
    requires node !in v0 && node != HEAD && v.Keys == v0.Keys + {node} && Data(v, node) == size && node !in s
    requires forall y {:trigger Data(v, y)} :: y != node ==> Data(v, y) == Data(v0, y)
    ensures Held(v) == Held(v0)[node := size]
    ensures Present(v, s, size) == Present(v0, s, size)
  {
    forall x | x in v && x != HEAD ensures Held(v)[x] == Held(v0)[node := size][x] { assert Data(v, x) == v[x].data; }
    if Present(v, s, size) {
      var y :| y in s && Data(v, y) == size;
      assert Data(v0, y) == size;
    }
    if Present(v0, s, size) {
      var y :| y in s && Data(v0, y) == size;
      assert Data(v, y) == size;
    }
  }

  /** How the chains change when node joins: it starts its own, or leads the one behind the node of its size. */
  ghost predicate ChainsJoined(ch: Chaining, ch': Chaining, node: Ptr) {
    ch' == ch[node := []] || exists n {:trigger ch[n]} :: n in ch && ch' == ch[n := [node] + ch[n]]
  }

  lemma HeldSame(v0: Nodes, v: Nodes)
    requires SameData(v0, v)
    ensures Held(v) == Held(v0)
  {
    forall x | x in v && x != HEAD ensures Held(v)[x] == Held(v0)[x] { assert Data(v, x) == Data(v0, x); }
  }
}
