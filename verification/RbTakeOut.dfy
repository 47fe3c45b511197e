/**
 The four ways remove_rbnode ends (kernel/rb_tree.c:234-276), each as a step on the whole state.
 In every one of them a single node leaves, and what stays is again a sound tree.
 */
module RbTakeOut {
  import opened RbShape
  import opened RbColor
  import opened RbChains
  import opened RbUnlink
  import opened RbState
  import opened Words
  import opened RbRemoveWalk
  import opened Queries

  /** Everything but r is as a tree should be; r itself is linked nowhere. */
  ghost predicate SoundBut(v: Nodes, s: Spans, b: Heights, ch: Chaining, own: Owners, r: Ptr) {
    && Struct(v, s) && Distinct(v, s) && Shade(v, s, b, NULL) && Chains(v, ch, own)
    && (forall x {:trigger AheadOf(v, s, ch, own, r, x)} :: AheadOf(v, s, ch, own, r, x))
    && Dup(v, HEAD) == NULL && r != NULL
  }

  lemma DropSound(v: Nodes, s: Spans, b: Heights, ch: Chaining, own: Owners, r: Ptr)
    requires SoundBut(v, s, b, ch, own, r)
    ensures Sound(v - {r}, s, b, ch, own)
  {
    var v' := v - {r};
    assert AheadOf(v, s, ch, own, r, r) && AheadOf(v, s, ch, own, r, HEAD);
    assert SameBut(v, v', r);
    forall x | x in s ensures x in v' { assert AheadOf(v, s, ch, own, r, x); }
    forall x | x in own ensures x in v' { assert AheadOf(v, s, ch, own, r, x); }
    CarryTree(v, v', r, s, b);
    CarryChains(v, v', r, ch, own);
    forall x ensures Sorted(v', s, ch, own, x) { assert AheadOf(v, s, ch, own, r, x); }
  }

  lemma SoundButPainted(v: Nodes, v': Nodes, s: Spans, b: Heights, ch: Chaining, own: Owners, r: Ptr, root: Ptr)
    returns (b': Heights)
    requires SoundBut(v, s, b, ch, own, r) && root == Kid(v, HEAD, true) && root != NULL
    requires SameData(v, v') && SameKids(v, v') && SameDup(v, v') && RedSet(v, v', root, false)
    ensures SoundBut(v', s, b', ch, own, r)
  {
    b' := b[root := Bh(b, root) + 1 - Weight(v, root)];
    BlackRoot(v, s, b, v', root);
    ChainsFrame(v, v', ch, own);
    forall x ensures AheadOf(v', s, ch, own, r, x) {
      assert AheadOf(v, s, ch, own, r, x);
      assert x in v' <==> x in v;
    }
  }

  lemma DropSettled(w: Words, root: Ptr, numNodes: int, numDup: int,
                    v: Nodes, s: Spans, b: Heights, ch: Chaining, own: Owners, r: Ptr)
    requires SoundBut(v, s, b, ch, own, r) && Kid(v, HEAD, true) == root && !Red(v, root) && Placed(v.Keys)
    requires InSync(w, v)
    requires root != NULL ==> numNodes == |s| - 1 && numDup == |own|
    ensures Settled(w, root, numNodes, numDup, v - {r}, s, b, ch, own)
    ensures Held(v - {r}) == Held(v) - {r}
  {
    var v' := v - {r};
    DropSound(v, s, b, ch, own, r);
    assert AheadOf(v, s, ch, own, r, HEAD) && AheadOf(v, s, ch, own, r, r);
    assert NodeOk(v, s, HEAD);
    assert Kid(v', HEAD, true) == root && !Red(v', root);
    forall x, y | x in v'.Keys && y in v'.Keys && x != y ensures Clear(x, y) { assert x in v.Keys && y in v.Keys; }
    forall x | x in v'.Keys ensures Spot(x) { assert x in v.Keys; }
    forall x | x in v' - {HEAD} ensures NodeAt(w, x) == (v' - {HEAD})[x] { assert NodeAt(w, x) == v[x]; }
    assert Held(v').Keys == (Held(v) - {r}).Keys;
  }

  // ---------------------------------------------------------------- a tree node without duplicates

  /** rb_tree.c:265-266, when the found node is itself the leaf that is cut off. */
  lemma TakeLeaf(m: Nodes, s: Spans, b: Heights, ch: Chaining, own: Owners, m': Nodes, n: Ptr)
    requires Sound(m, s, b, ch, own) && Unlinked(m, s, m', s - {n}, n) && SameDup(m, m')
    requires Red(m, n) || Par(s, n) == HEAD
    requires n in ch && ch[n] == []
    ensures SoundBut(m', s - {n}, b - {n}, ch - {n}, own, n) && |s - {n}| == |s| - 1
  {
    UnlinkLeaf(m, s, b, m', s - {n}, n);
    assert Sorted(m, s, ch, own, n) && Sorted(m, s, ch, own, HEAD);
    var ch' := ch - {n};
    ChainsFrame(m, m', ch, own);
    ChainsLess(m', ch, own, n);
    var s' := s - {n};
    forall x ensures AheadOf(m', s', ch', own, n, x) {
      assert Sorted(m, s, ch, own, x);
      assert x in m' <==> x in m;
    }
    assert (s - {n}).Keys == s.Keys - {n};
  }

  lemma ChainsLess(m: Nodes, ch: Chaining, own: Owners, f: Ptr)
    requires Chains(m, ch, own) && f in ch && ch[f] == []
    ensures Chains(m, ch - {f}, own)
  {
    var ch' := ch - {f};
    forall x | x in ch' ensures ChainOk(m, ch', own, x, ch'[x]) {
      assert ChainOk(m, ch, own, x, ch[x]);
      forall i | 0 <= i < |ch'[x]| ensures DupOk(m, ch', own, x, ch'[x], i) { ChainAt(m, ch, own, x, i); }
    }
    forall a | a in own ensures Owned(ch', own, a) { OwnerInTree(m, ch, own, a); }
  }

  /** rb_tree.c:265-275, when the leaf n is cut off and takes over the place of the found node f. */
  lemma TakeInner(m: Nodes, s: Spans, b: Heights, ch: Chaining, own: Owners, m1: Nodes, m': Nodes, n: Ptr, f: Ptr)
    returns (s': Spans, b': Heights)
    requires Sound(m, s, b, ch, own) && Unlinked(m, s, m1, s - {n}, n) && SameDup(m, m1)
    requires Red(m, n) || Par(s, n) == HEAD
    requires f in s && f != HEAD && f != n && f in ch && ch[f] == []
    requires Data(m, n) < Data(m, f) && Lo(s, f) <= Lo(s, n)
    requires forall y {:trigger Data(m, y)} :: y in s && y != f && y != n ==> !(Data(m, n) <= Data(m, y) < Data(m, f))
    requires Swapped(m1, s - {n}, m', f, n) && SameDup(m1, m')
    ensures SoundBut(m', s', b', ch - {f}, own, f) && |s'| == |s| - 1
  {
    var s1, b1 := s - {n}, b - {n};
    UnlinkLeaf(m, s, b, m1, s1, n);
    assert NodeOk(m, s, n) && NodeOk(m, s, f);
    assert Adjacent(m1, s1, f, n) by {
      forall y | y in s1 && y != f ensures !(Data(m1, n) <= Data(m1, y) < Data(m1, f)) {
        assert Data(m1, y) == Data(m, y);
      }
    }
    SwapIn(m1, s1, b1, m', f, n);
    s', b' := SwapSpans(m1, s1, f, n), SwapHeights(b1, f, n);
    ChainsFrame(m, m1, ch, own);
    ChainsFrame(m1, m', ch, own);
    ChainsLess(m', ch, own, f);
    assert Sorted(m, s, ch, own, f) && Sorted(m, s, ch, own, n) && Sorted(m, s, ch, own, HEAD);
    var ch' := ch - {f};
    forall x ensures AheadOf(m', s', ch', own, f, x) {
      assert Sorted(m, s, ch, own, x);
      assert (x in m' <==> x in m1) && (x in m1 <==> x in m);
    }
    assert s'.Keys == s.Keys - {f};
  }

  // ---------------------------------------------------------------- a duplicate

  ghost function Without(c: Chain, i: int): Chain
    requires 0 <= i < |c|
  {
    c[..i] + c[i + 1..]
  }

  /** rb_tree.c:257-259.  c[i] is unlinked from behind the node before it. */
  ghost predicate Bypassed(m: Nodes, m': Nodes, f: Ptr, c: Chain, i: int) {
    && 0 <= i < |c| && SameData(m, m') && SameKids(m, m') && SameRed(m, m')
    && DupSet(m, m', if i == 0 then f else c[i - 1], Nth(c, i + 1))
  }

  lemma ChainBypass(m: Nodes, ch: Chaining, own: Owners, m': Nodes, f: Ptr, i: int)
    requires Chains(m, ch, own) && f in ch && f !in own && Bypassed(m, m', f, ch[f], i)
    ensures ChainOk(m', ch[f := Without(ch[f], i)], own - {ch[f][i]}, f, Without(ch[f], i))
  {
    var c, ch', own' := ch[f], ch[f := Without(ch[f], i)], own - {ch[f][i]};
    var c' := Without(c, i);
    assert ChainOk(m, ch, own, f, c);
    if |c| > i + 1 { ChainAt(m, ch, own, f, i + 1); }
    forall j | 0 <= j < |c'| ensures DupOk(m', ch', own', f, c', j) {
      var j' := if j < i then j else j + 1;
      assert c'[j] == c[j'];
      ChainAt(m, ch, own, f, j');
      assert Nth(c', j + 1) == if j + 1 == i then Nth(c, i + 1) else Nth(c, j' + 1);
    }
    if i > 0 { ChainAt(m, ch, own, f, i - 1); }
    assert Nth(c', 0) == if i == 0 then Nth(c, 1) else Nth(c, 0);
  }

  lemma ChainsBypass(m: Nodes, ch: Chaining, own: Owners, m': Nodes, f: Ptr, i: int)
    requires Chains(m, ch, own) && f in ch && f !in own && Bypassed(m, m', f, ch[f], i)
    requires forall x :: x in ch ==> x !in own
    ensures Chains(m', ch[f := Without(ch[f], i)], own - {ch[f][i]})
  {
    var c, r := ch[f], ch[f][i];
    var ch', own' := ch[f := Without(c, i)], own - {r};
    ChainAt(m, ch, own, f, i);
    if i > 0 { ChainAt(m, ch, own, f, i - 1); }
    forall x | x in ch' ensures ChainOk(m', ch', own', x, ch'[x]) {
      if x == f {
        ChainBypass(m, ch, own, m', f, i);
      } else {
        assert ChainOk(m, ch, own, x, ch[x]);
        forall j | 0 <= j < |ch'[x]| ensures DupOk(m', ch', own', x, ch'[x], j) { ChainAt(m, ch, own, x, j); }
      }
    }
    forall a | a in own' ensures Owned(ch', own', a) {
      OwnerInTree(m, ch, own, a);
      if own[a] == f {
        var j :| 0 <= j < |c| && c[j] == a;
        assert Without(c, i)[if j < i then j else j - 1] == a;
      }
    }
  }

  lemma TakeDup(m: Nodes, s: Spans, b: Heights, ch: Chaining, own: Owners, m': Nodes, f: Ptr, i: int)
    requires Sound(m, s, b, ch, own) && f in ch && Bypassed(m, m', f, ch[f], i)
    ensures ch[f][i] in own
    ensures SoundBut(m', s, b, ch[f := Without(ch[f], i)], own - {ch[f][i]}, ch[f][i])
    ensures |own - {ch[f][i]}| == |own| - 1
  {
    var r := ch[f][i];
    var ch', own' := ch[f := Without(ch[f], i)], own - {r};
    ChainAt(m, ch, own, f, i);
    if i > 0 { ChainAt(m, ch, own, f, i - 1); }
    forall x | x in ch ensures x !in own { assert Sorted(m, s, ch, own, x); }
    StructFrame(m, m', s);
    ShadeFrame(m, m', s, b, NULL);
    ChainsBypass(m, ch, own, m', f, i);
    assert Sorted(m, s, ch, own, HEAD);
    forall x ensures AheadOf(m', s, ch', own', r, x) {
      assert Sorted(m, s, ch, own, x);
      assert x in m' <==> x in m;
    }
    assert own'.Keys == own.Keys - {r};
  }

  // ---------------------------------------------------------------- a tree node with duplicates

  ghost function Reowned(own: Owners, f: Ptr, z: Ptr): Owners {
    map a | a in own && a != z :: if own[a] == f then z else own[a]
  }

  lemma ChainsPromote(m: Nodes, ch: Chaining, own: Owners, f: Ptr)
    requires Chains(m, ch, own) && f in ch && ch[f] != []
    requires forall x :: x in ch ==> x !in own
    ensures var z := ch[f][0]; Chains(m, (ch - {f})[z := ch[f][1..]], Reowned(own, f, z))
  {
    var c, z := ch[f], ch[f][0];
    var ch', own' := (ch - {f})[z := c[1..]], Reowned(own, f, z);
    assert ChainOk(m, ch, own, f, c);
    ChainAt(m, ch, own, f, 0);
    forall x | x in ch' ensures ChainOk(m, ch', own', x, ch'[x]) {
      var o := if x == z then f else x;
      assert ChainOk(m, ch, own, o, ch[o]);
      forall j | 0 <= j < |ch'[x]| ensures DupOk(m, ch', own', x, ch'[x], j) {
        ChainAt(m, ch, own, o, if x == z then j + 1 else j);
      }
    }
    forall a | a in own' ensures Owned(ch', own', a) {
      OwnerInTree(m, ch, own, a);
      if own[a] == f {
        var j :| 0 <= j < |c| && c[j] == a;
        assert c[1..][j - 1] == a;
      }
    }
  }

  lemma FirstDup(v: Nodes, s: Spans, b: Heights, ch: Chaining, own: Owners, f: Ptr)
    requires Sound(v, s, b, ch, own) && f in ch && ch[f] != []
    ensures Dup(v, f) == ch[f][0] && ch[f][0] in v && ch[f][0] !in s
  {
    assert ChainOk(v, ch, own, f, ch[f]);
    ChainAt(v, ch, own, f, 0);
    assert Sorted(v, s, ch, own, ch[f][0]);
  }

  /** rb_tree.c:246-251.  The first duplicate takes over the place of its tree node f. */
  lemma TakeHead(m: Nodes, s: Spans, b: Heights, ch: Chaining, own: Owners, m': Nodes, f: Ptr, z: Ptr)
    returns (s': Spans, b': Heights, ch': Chaining, own': Owners)
    requires Sound(m, s, b, ch, own) && f in ch && ch[f] != [] && z == ch[f][0] && Swapped(m, s, m', f, z)
    requires SameDup(m, m')
    ensures SoundBut(m', s', b', ch', own', f) && |s'| == |s| && |own'| == |own| - 1
    ensures ch' == (ch - {f})[z := ch[f][1..]]
  {
    ChainAt(m, ch, own, f, 0);
    assert Sorted(m, s, ch, own, f) && Sorted(m, s, ch, own, z) && Sorted(m, s, ch, own, HEAD);
    assert NodeOk(m, s, f);
    SwapIn(m, s, b, m', f, z);
    s', b' := SwapSpans(m, s, f, z), SwapHeights(b, f, z);
    ch', own' := (ch - {f})[z := ch[f][1..]], Reowned(own, f, z);
    forall x | x in ch ensures x !in own { assert Sorted(m, s, ch, own, x); }
    ChainsFrame(m, m', ch, own);
    ChainsPromote(m', ch, own, f);
    forall x ensures AheadOf(m', s', ch', own', f, x) {
      assert Sorted(m, s, ch, own, x);
      assert x in m' <==> x in m;
    }
    assert s'.Keys == s.Keys - {f} + {z};
    assert own'.Keys == own.Keys - {z};
  }

  // ---------------------------------------------------------------- which node leaves

  /** rb_tree.c:234-263: among the found node f and its duplicates c, r is the one to leave (NULL: none). */
  ghost predicate Picked(q: Query, f: Ptr, c: Chain, r: Ptr) {
    if c == [] then r == f
    else
      || (exists i :: 0 <= i < |c| && r == c[i] && Selects(q, c[i]) && forall j :: 0 <= j < i ==> !Selects(q, c[j]))
      || ((forall j :: 0 <= j < |c| ==> !Selects(q, c[j])) && r == if Selects(q, f) then f else NULL)
  }

  /** How the duplicate chains change when r leaves: only that of f, which r shortens or hands on. */
  ghost predicate ChainsCut(ch: Chaining, ch': Chaining, f: Ptr, r: Ptr) {
    if r == NULL then ch' == ch
    else
      && f in ch
      && if r != f then exists i :: 0 <= i < |ch[f]| && ch[f][i] == r && ch' == ch[f := Without(ch[f], i)]
         else if ch[f] == [] then ch' == ch - {f}
         else ch' == (ch - {f})[ch[f][0] := ch[f][1..]]
  }

  /** The search found the tree node f, and r was picked from f and its duplicates. */
  ghost predicate Chosen(held: map<Ptr, int>, ch: Chaining, q: Query, f: Ptr, r: Ptr)
    requires Sensible(q)
  {
    if f == NULL then r == NULL
    else
      && f in ch && f in held && Verdict(q, f, held[f]) == 0 && Picked(q, f, ch[f], r)
      && (q.Fit? ==> r == if ch[f] == [] then f else ch[f][0])
  }

  /**
   With an alignment, the node that leaves need not pass compare itself: it does exactly when the found node
   has no duplicates, or when the first duplicate passes (rb_tree.c:234-263).
   */
  lemma PickedFits(q: Query, f: Ptr, c: Chain, r: Ptr, size: int)
    requires q.Fit? && Sensible(q) && f != NULL && Verdict(q, f, size) == 0 && Picked(q, f, c, r) && NULL !in c
    ensures Verdict(q, r, size) == 0 <==> c == [] || Verdict(q, c[0], size) == 0
  {
    if c != [] { assert Selects(q, c[0]); }
  }

  lemma DuplicateMisaligned()
    ensures exists q: Query, f, c: Chain, r, size ::
              q.Fit? && Sensible(q) && Verdict(q, f, size) == 0 && Picked(q, f, c, r) && Verdict(q, r, size) != 0
  {
    var q, f, c, r := Fit(64, 64), 124, [324], 324;
    assert Gap(128, 64) == 0 by { assert 128 % 64 == 0; }
    assert Gap(328, 64) == 56 by { assert 328 % 64 == 8; }
    assert Selects(q, c[0]);
    assert Verdict(q, f, 64) == 0 && Picked(q, f, c, r) && Verdict(q, r, 64) != 0;
  }

  /**
   A wanted address is respected, in that nothing else leaves, exactly when the found node has duplicates or
   is the wanted one (rb_tree.c:263 does not ask select_dup).
   */
  lemma PickedAddress(q: Query, f: Ptr, c: Chain, r: Ptr)
    requires q.Exact? && q.addr != NULL && f != NULL && Picked(q, f, c, r) && NULL !in c
    ensures r == NULL || r == q.addr <==> c != [] || f == q.addr
  {
  }

  /** All that remove_rbnode promises about the node it returns, in terms of the nodes held before. */
  ghost predicate Answer(held: map<Ptr, int>, q: Query, r: Ptr)
    requires Sensible(q)
  {
    && (r != NULL ==> r in held)
    && (q.Exact? ==> AnswerExact(held, q.size, q.addr, r))
    && (q.Fit? ==> AnswerFit(held, q, r))
    && (q.Fit? && q.align == 1 ==> AnswerBest(held, q.size, r))
  }

  ghost predicate AnswerExact(held: map<Ptr, int>, size: int, addr: Ptr, r: Ptr) {
    && (r != NULL ==> r in held && held[r] == size)
    && (addr in held && held[addr] == size && addr != NULL ==> r == addr)
    && (r == NULL ==> forall x :: x in held && held[x] == size ==> addr != NULL && !Sole(held, x))
    && (r != NULL && addr != NULL && r != addr ==> Sole(held, r))
  }

  /** No other node has the size of x. */
  ghost predicate Sole(held: map<Ptr, int>, x: Ptr) {
    x in held && forall y :: y in held && held[y] == held[x] ==> y == x
  }

  ghost predicate AnswerFit(held: map<Ptr, int>, q: Query, r: Ptr)
    requires Sensible(q) && q.Fit?
  {
    && (r != NULL ==> r in held && exists f :: f in held && held[f] == held[r] && Verdict(q, f, held[f]) == 0)
    && (r == NULL && held != map[] ==>
          exists n :: n in held && Verdict(q, n, held[n]) < 0 && forall x :: x in held ==> held[x] <= held[n])
  }

  ghost predicate AnswerBest(held: map<Ptr, int>, size: int, r: Ptr) {
    && (r == NULL ==> forall x :: x in held ==> held[x] < size)
    && (r != NULL ==> r in held && held[r] >= size && forall x :: x in held && held[x] >= size ==> held[r] <= held[x])
  }

  /** Every node held has the size of a tree node: its own, or the one it hangs behind. */
  lemma HeadOf(v: Nodes, s: Spans, b: Heights, ch: Chaining, own: Owners, x: Ptr) returns (t: Ptr)
    requires Sound(v, s, b, ch, own) && x in Held(v)
    ensures t in s && t != HEAD && t in ch && Data(v, t) == Held(v)[x]
    ensures t == x || (x in own && own[x] == t && x in ch[t])
  {
    assert Sorted(v, s, ch, own, x);
    if x in s {
      t := x;
    } else {
      t := own[x];
      OwnerInTree(v, ch, own, x);
      assert Sorted(v, s, ch, own, t);
      var i :| 0 <= i < |ch[t]| && ch[t][i] == x;
      ChainAt(v, ch, own, t, i);
    }
  }

  lemma PickedHeld(v: Nodes, s: Spans, b: Heights, ch: Chaining, own: Owners, q: Query, f: Ptr, r: Ptr)
    requires Sound(v, s, b, ch, own) && f in s && f != HEAD && f in ch && Picked(q, f, ch[f], r) && r != NULL
    ensures r in Held(v) && Held(v)[r] == Data(v, f) && f in Held(v) && Held(v)[f] == Data(v, f)
  {
    assert Sorted(v, s, ch, own, f) && NodeOk(v, s, f);
    if r != f {
      var i :| 0 <= i < |ch[f]| && r == ch[f][i];
      ChainAt(v, ch, own, f, i);
    }
  }

  lemma AnswersFit(v: Nodes, s: Spans, b: Heights, ch: Chaining, own: Owners, q: Query, f: Ptr, r: Ptr)
    requires Sound(v, s, b, ch, own) && Outcome(v, s, q, f) && q.Fit?
    requires if f == NULL then r == NULL else f in ch && Picked(q, f, ch[f], r)
    ensures AnswerFit(Held(v), q, r)
    ensures q.align == 1 ==> AnswerBest(Held(v), q.size, r)
  {
    var held := Held(v);
    if f != NULL {
      assert Sorted(v, s, ch, own, f) && NodeOk(v, s, f);
      if ch[f] != [] {
        ChainAt(v, ch, own, f, 0);
        assert Selects(q, ch[f][0]);
      }
      PickedHeld(v, s, b, ch, own, q, f, r);
    } else {
      var n :| n in s && n != HEAD && Verdict(q, n, Data(v, n)) < 0 && Largest(v, s, n);
      assert Sorted(v, s, ch, own, n) && NodeOk(v, s, n);
      assert n in held && held[n] == Data(v, n);
      forall x | x in held ensures held[x] <= held[n] { var t := HeadOf(v, s, b, ch, own, x); }
    }
    if q.align == 1 {
      forall x | x in held ensures exists t :: t in s && Data(v, t) == held[x] { var t := HeadOf(v, s, b, ch, own, x); }
      if f != NULL { VerdictOne(q, f, Data(v, f)) by { assert NodeOk(v, s, f); Inside(v, s, f); } }
    }
  }

  lemma AnswersExact(v: Nodes, s: Spans, b: Heights, ch: Chaining, own: Owners, q: Query, f: Ptr, r: Ptr)
    requires Sound(v, s, b, ch, own) && Outcome(v, s, q, f) && q.Exact?
    requires if f == NULL then r == NULL else f in ch && Picked(q, f, ch[f], r)
    ensures AnswerExact(Held(v), q.size, q.addr, r)
  {
    var held := Held(v);
    if f == NULL {
      forall x | x in held ensures held[x] != q.size { var t := HeadOf(v, s, b, ch, own, x); }
    } else {
      var c := ch[f];
      assert Sorted(v, s, ch, own, f) && NodeOk(v, s, f);
      assert f in held && held[f] == q.size;
      assert ChainOk(v, ch, own, f, c);
      forall i | 0 <= i < |c| ensures c[i] in held && held[c[i]] == q.size && c[i] != f && c[i] != NULL {
        ChainAt(v, ch, own, f, i);
        assert Sorted(v, s, ch, own, c[i]);
      }
      forall x | x in held && held[x] == q.size ensures x == f || x in c {
        var t := HeadOf(v, s, b, ch, own, x);
        assert Data(v, t) == Data(v, f);
      }
    }
  }

  lemma Answers(v: Nodes, s: Spans, b: Heights, ch: Chaining, own: Owners, q: Query, f: Ptr, r: Ptr)
    requires Sound(v, s, b, ch, own) && Outcome(v, s, q, f)
    requires if f == NULL then r == NULL else f in ch && Picked(q, f, ch[f], r)
    ensures Answer(Held(v), q, r) && Chosen(Held(v), ch, q, f, r)
  {
    if f != NULL {
      assert Sorted(v, s, ch, own, f) && NodeOk(v, s, f);
      if q.Fit? && ch[f] != [] {
        ChainAt(v, ch, own, f, 0);
        assert Selects(q, ch[f][0]);
      }
    }
    if q.Fit? {
      AnswersFit(v, s, b, ch, own, q, f, r);
    } else {
      AnswersExact(v, s, b, ch, own, q, f, r);
    }
  }

  lemma AnswersEmpty(v: Nodes, s: Spans, b: Heights, ch: Chaining, own: Owners, q: Query)
    requires Sound(v, s, b, ch, own) && Kid(v, HEAD, true) == NULL && Sensible(q)
    ensures Held(v) == map[] && Answer(Held(v), q, NULL)
  {
    OnlyHead(v, s);
    forall x ensures x !in Held(v) {
      if x in Held(v) { var t := HeadOf(v, s, b, ch, own, x); }
    }
  }
}
