/**
 Nodes of equal size: the tree holds one of them, and the others hang behind it on link[2].
 */
module RbChains {
  import opened RbShape

  /** Tree node to the duplicates behind it, in link order; and from a duplicate back to its tree node. */
  type Chain = seq<Ptr>
  type Chaining = map<Ptr, Chain>
  type Owners = map<Ptr, Ptr>

  function Nth(c: Chain, i: int): Ptr { if 0 <= i < |c| then c[i] else NULL }

  /** c[i] is a duplicate of x, itself not in the tree, linked to c[i + 1]. */
  ghost predicate DupOk(m: Nodes, ch: Chaining, own: Owners, x: Ptr, c: Chain, i: int) {
    0 <= i < |c| ==>
      && c[i] in own && own[c[i]] == x && c[i] !in ch && c[i] in m && c[i] != NULL && c[i] != HEAD
      && Data(m, c[i]) == Data(m, x)
      && Dup(m, c[i]) == Nth(c, i + 1)
  }

  ghost predicate ChainOk(m: Nodes, ch: Chaining, own: Owners, x: Ptr, c: Chain) {
    && Dup(m, x) == Nth(c, 0)
    && (forall i {:trigger DupOk(m, ch, own, x, c, i)} :: 0 <= i < |c| ==> DupOk(m, ch, own, x, c, i))
    && (forall i, j :: 0 <= i < j < |c| ==> c[i] != c[j])
  }

  ghost predicate Owned(ch: Chaining, own: Owners, a: Ptr) {
    a in own ==> own[a] in ch && a in ch[own[a]]
  }

  ghost predicate Chains(m: Nodes, ch: Chaining, own: Owners) {
    && (forall x {:trigger ch[x]} :: x in ch ==> ChainOk(m, ch, own, x, ch[x]))
    && (forall a {:trigger Owned(ch, own, a)} :: a in own ==> Owned(ch, own, a))
  }

  lemma ChainAt(m: Nodes, ch: Chaining, own: Owners, x: Ptr, i: int)
    requires Chains(m, ch, own) && x in ch && 0 <= i < |ch[x]|
    ensures DupOk(m, ch, own, x, ch[x], i)
  {
    assert ChainOk(m, ch, own, x, ch[x]);
    assert DupOk(m, ch, own, x, ch[x], i);
  }

  lemma OwnerInTree(m: Nodes, ch: Chaining, own: Owners, a: Ptr)
    requires Chains(m, ch, own) && a in own
    ensures own[a] in ch && a in ch[own[a]]
  {
    assert Owned(ch, own, a);
  }

  lemma ChainsFrame(m: Nodes, m': Nodes, ch: Chaining, own: Owners)
    requires Chains(m, ch, own) && SameData(m, m') && SameDup(m, m')
    ensures Chains(m', ch, own)
  {
    forall x | x in ch ensures ChainOk(m', ch, own, x, ch[x]) {
      forall i | 0 <= i < |ch[x]| ensures DupOk(m', ch, own, x, ch[x], i) { ChainAt(m, ch, own, x, i); }
    }
  }

  /** A new tree node starts without duplicates. */
  lemma ChainsAdd(m: Nodes, ch: Chaining, own: Owners, z: Ptr)
    requires Chains(m, ch, own) && z !in ch && z !in own && Dup(m, z) == NULL
    ensures Chains(m, ch[z := []], own)
  {
    var ch' := ch[z := []];
    forall x | x in ch' ensures ChainOk(m, ch', own, x, ch'[x]) {
      forall i | 0 <= i < |ch'[x]| ensures DupOk(m, ch', own, x, ch'[x], i) { ChainAt(m, ch, own, x, i); }
    }
    forall a | a in own ensures Owned(ch', own, a) { assert Owned(ch, own, a); }
  }

  /** rb_tree.c:119-123.  A duplicate goes right behind its tree node. */
  lemma ChainsPush(m: Nodes, m': Nodes, ch: Chaining, own: Owners, n: Ptr, z: Ptr)
    requires Chains(m, ch, own) && n in ch && z !in ch && z !in own && z != NULL && z != HEAD && z in m
    requires Data(m, z) == Data(m, n) && SameData(m, m')
    requires forall y {:trigger Dup(m', y)} ::
               Dup(m', y) == if y == z then Dup(m, n) else if y == n then z else Dup(m, y)
    ensures Chains(m', ch[n := [z] + ch[n]], own[z := n])
  {
    var ch' := ch[n := [z] + ch[n]];
    var own' := own[z := n];
    forall x | x in ch' ensures ChainOk(m', ch', own', x, ch'[x]) {
      var c := ch[x];
      assert ChainOk(m, ch, own, x, c);
      forall i | 0 <= i < |ch'[x]| ensures DupOk(m', ch', own', x, ch'[x], i) {
        if x == n && i > 0 {
          assert ch'[x][i] == c[i - 1];
          assert DupOk(m, ch, own, x, c, i - 1);
        } else if x != n {
          assert DupOk(m, ch, own, x, c, i);
        }
      }
      forall i, j | 0 <= i < j < |ch'[x]| ensures ch'[x][i] != ch'[x][j] {
        if x == n {
          assert ch'[x][j] == c[j - 1];
          assert DupOk(m, ch, own, x, c, j - 1);
          if i > 0 { assert ch'[x][i] == c[i - 1]; }
        }
      }
    }
    forall a | a in own' ensures Owned(ch', own', a) {
      if a != z {
        assert Owned(ch, own, a);
      } else {
        assert ch'[n][0] == z;
      }
    }
  }

  // ---------------------------------------------------------------- writes to a node outside of the tree

  ghost predicate SameBut(m: Nodes, m': Nodes, z: Ptr) {
    && (forall y {:trigger Data(m', y)} :: y != z ==> Data(m', y) == Data(m, y))
    && (forall y, e {:trigger Kid(m', y, e)} :: y != z ==> Kid(m', y, e) == Kid(m, y, e))
    && (forall y {:trigger Red(m', y)} :: y != z ==> Red(m', y) == Red(m, y))
    && (forall y {:trigger Dup(m', y)} :: y != z ==> Dup(m', y) == Dup(m, y))
  }

  lemma CarryTree(m: Nodes, m': Nodes, z: Ptr, s: Spans, b: Heights)
    requires Struct(m, s) && Distinct(m, s) && Shade(m, s, b, NULL)
    requires SameBut(m, m', z) && z !in s && z != NULL && forall x :: x in s ==> x in m'
    ensures Struct(m', s) && Distinct(m', s) && Shade(m', s, b, NULL)
  {
    forall x | x in s ensures NodeOk(m', s, x) { assert NodeOk(m, s, x); }
    forall x | x in s && x != HEAD ensures ShadeOk(m', b, x, NULL) {
      assert NodeOk(m, s, x) && ShadeOk(m, b, x, NULL);
    }
  }

  lemma CarryChains(m: Nodes, m': Nodes, z: Ptr, ch: Chaining, own: Owners)
    requires Chains(m, ch, own) && SameBut(m, m', z) && z !in ch && z !in own && forall a :: a in own ==> a in m'
    ensures Chains(m', ch, own)
  {
    forall x | x in ch ensures ChainOk(m', ch, own, x, ch[x]) {
      assert ChainOk(m, ch, own, x, ch[x]);
      forall i | 0 <= i < |ch[x]| ensures DupOk(m', ch, own, x, ch[x], i) { ChainAt(m, ch, own, x, i); }
    }
  }
}
