/**
 The heap of kernel/mem_alloc.c as a row of blocks with boundary tags.

 An operation works inside a gap [m1, m2) between a left row L and a right row R of finished blocks.
 `Gapped` is what holds of the memory around the gap; a heap at rest is one whose gap is empty.
 */
module Blocks {
  import opened RbShape
  import opened Words
  import opened Queries

  const MAGIC: int := 0xa1b2c3d4
  /** Everything below lies outside of any heap; the stack of the tree operations is there. */
  const FLOOR: int := 64

  datatype Block = Block(addr: int, size: int, free: bool)
  type Row = seq<Block>

  function End(b: Block): int { b.addr + b.size }
  /** Where the rb_node_t of a block lies (mem_alloc.c:22). */
  function NodeOf(b: Block): Ptr { b.addr + 4 }

  ghost predicate Fine(b: Block) {
    b.addr % 4 == 0 && b.size % 4 == 0 && b.size >= MIN_BLOCK_SIZE
  }

  // ---------------------------------------------------------------- rows of blocks

  /** The blocks of A lie end to end from lo to hi. */
  ghost predicate Tiles(A: Row, lo: int, hi: int) {
    if A == [] then lo == hi else A[0].addr == lo && Fine(A[0]) && Tiles(A[1..], End(A[0]), hi)
  }

  ghost predicate Coalesced(A: Row) {
    |A| >= 2 ==> !(A[0].free && A[1].free) && Coalesced(A[1..])
  }

  function Used(A: Row): int {
    if A == [] then 0 else (if A[0].free then 0 else A[0].size) + Used(A[1..])
  }
  function Unused(A: Row): int {
    if A == [] then 0 else (if A[0].free then A[0].size else 0) + Unused(A[1..])
  }

  lemma {:induction false} TilesIn(A: Row, lo: int, hi: int, b: Block)
    requires Tiles(A, lo, hi) && b in A
    ensures lo <= b.addr && End(b) <= hi && Fine(b)
  {
    TilesUp(A[1..], End(A[0]), hi);
    if b != A[0] {
      assert b in A[1..];
      TilesIn(A[1..], End(A[0]), hi, b);
    }
  }

  lemma {:induction false} TilesUp(A: Row, lo: int, hi: int)
    requires Tiles(A, lo, hi)
    ensures lo <= hi && (A != [] ==> lo + MIN_BLOCK_SIZE <= hi) && (lo % 4 == 0 ==> hi % 4 == 0)
    ensures A != [] ==> lo % 4 == 0
  {
    if A != [] { TilesUp(A[1..], End(A[0]), hi); }
  }

  lemma TilesCons(b: Block, R: Row, lo: int, hi: int)
    ensures Tiles([b] + R, lo, hi) <==> b.addr == lo && Fine(b) && Tiles(R, End(b), hi)
  {
    assert ([b] + R)[1..] == R;
  }

  lemma {:induction false} TilesCat(A: Row, C: Row, lo: int, mid: int, hi: int)
    requires Tiles(A, lo, mid) && Tiles(C, mid, hi)
    ensures Tiles(A + C, lo, hi)
  {
    if A == [] {
      assert A + C == C;
    } else {
      TilesCat(A[1..], C, End(A[0]), mid, hi);
      assert (A + C)[1..] == A[1..] + C;
    }
  }

  lemma {:induction false} TilesCut(A: Row, C: Row, lo: int, hi: int) returns (mid: int)
    requires Tiles(A + C, lo, hi)
    ensures Tiles(A, lo, mid) && Tiles(C, mid, hi)
  {
    if A == [] {
      assert A + C == C;
      mid := lo;
    } else {
      assert (A + C)[1..] == A[1..] + C;
      mid := TilesCut(A[1..], C, End(A[0]), hi);
    }
  }

  /** In a row that tiles, two different blocks do not overlap. */
  lemma {:induction false} TilesApart(A: Row, lo: int, hi: int, b: Block, c: Block)
    requires Tiles(A, lo, hi) && b in A && c in A && b != c
    ensures End(b) <= c.addr || End(c) <= b.addr
  {
    var T := A[1..];
    if b == A[0] {
      assert c in T;
      TilesIn(T, End(b), hi, c);
    } else if c == A[0] {
      assert b in T;
      TilesIn(T, End(c), hi, b);
    } else {
      assert b in T && c in T;
      TilesApart(T, End(A[0]), hi, b, c);
    }
  }

  lemma {:induction false} CoalescedCat(A: Row, C: Row)
    ensures Coalesced(A + C) <==>
              Coalesced(A) && Coalesced(C) && (A != [] && C != [] ==> !(A[|A| - 1].free && C[0].free))
  {
    if A == [] {
      assert A + C == C;
    } else if |A| == 1 {
      assert (A + C)[1..] == C;
    } else {
      assert (A + C)[1..] == A[1..] + C;
      CoalescedCat(A[1..], C);
    }
  }

  lemma CoalescedCons(b: Block, R: Row)
    requires Coalesced([b] + R)
    ensures Coalesced(R)
  {
    assert ([b] + R)[1..] == R;
  }

  lemma {:induction false} UsedCat(A: Row, C: Row)
    ensures Used(A + C) == Used(A) + Used(C) && Unused(A + C) == Unused(A) + Unused(C)
  {
    if A == [] {
      assert A + C == C;
    } else {
      assert (A + C)[1..] == A[1..] + C;
      UsedCat(A[1..], C);
    }
  }

  /** Used and free sizes add up to the whole row. */
  lemma {:induction false} UsedPlusUnused(A: Row, lo: int, hi: int)
    requires Tiles(A, lo, hi)
    ensures Used(A) + Unused(A) == hi - lo
  {
    if A != [] { UsedPlusUnused(A[1..], End(A[0]), hi); }
  }

  // ---------------------------------------------------------------- boundary tags

  /** mem_alloc.c:6-28: header, size, and a footer that leads back; a free block also has its header magic. */
  ghost predicate Stamped(w: Words, b: Block) {
    && Rd(w, b.addr + 4) == b.size
    && Tagged(Rd(w, b.addr)) == b.free
    && (b.free ==> Untag(Rd(w, b.addr)) == MAGIC)
    && Untag(Rd(w, End(b) - 8)) == MAGIC
    && Rd(w, End(b) - 4) == b.addr
  }

  ghost predicate AllStamped(w: Words, A: Row) {
    forall b {:trigger Stamped(w, b)} :: b in A ==> Stamped(w, b)
  }

  ghost predicate FreeIn(L: Row, R: Row, b: Block) { b.free && (b in L || b in R) }

  /** held lists the free blocks of the two rows, and nothing else. */
  ghost predicate Listed(held: map<Ptr, int>, L: Row, R: Row) {
    && (forall b {:trigger FreeIn(L, R, b)} :: FreeIn(L, R, b) ==> NodeOf(b) in held && held[NodeOf(b)] == b.size)
    && (forall x {:trigger x in held} :: x in held ==>
          exists b {:trigger FreeIn(L, R, b)} :: FreeIn(L, R, b) && NodeOf(b) == x)
  }

  ghost predicate Gapped(w: Words, held: map<Ptr, int>, L: Row, R: Row, lo: int, m1: int, m2: int, hi: int) {
    && FLOOR <= lo && lo % 4 == 0 && m1 <= m2 && m2 % 4 == 0 && hi < TOP
    && Tiles(L, lo, m1) && Tiles(R, m2, hi)
    && AllStamped(w, L) && AllStamped(w, R)
    && Coalesced(L) && Coalesced(R)
    && Listed(held, L, R)
    && Rd(w, lo - 4) < lo
  }

  /** A heap at rest. */
  ghost predicate Heap(w: Words, held: map<Ptr, int>, A: Row, lo: int, hi: int) {
    Gapped(w, held, A, [], lo, hi, hi, hi)
  }

  // ---------------------------------------------------------------- what may be written

  /** The word at a belongs to a block in use: its tags, or the data of its user. */
  ghost predicate InUser(b: Block, a: int) { !b.free && b.addr <= a < End(b) }

  ghost predicate SameUser(w: Words, w': Words, L: Row, R: Row) {
    forall b, a {:trigger InUser(b, a), Rd(w', a)} :: (b in L || b in R) && InUser(b, a) ==> Rd(w', a) == Rd(w, a)
  }

  /** Only words of the gap change. */
  ghost predicate SameOutside(w: Words, w': Words, m1: int, m2: int) {
    forall a {:trigger Rd(w', a)} :: a < m1 || m2 <= a ==> Rd(w', a) == Rd(w, a)
  }

  lemma StampKept(w: Words, w': Words, b: Block)
    requires Stamped(w, b)
    requires Rd(w', b.addr) == Rd(w, b.addr) && Rd(w', b.addr + 4) == Rd(w, b.addr + 4)
    requires Rd(w', End(b) - 8) == Rd(w, End(b) - 8) && Rd(w', End(b) - 4) == Rd(w, End(b) - 4)
    ensures Stamped(w', b)
  {
  }

  /** Writing inside the gap disturbs nothing. */
  lemma WriteInGap(w: Words, w': Words, held: map<Ptr, int>, L: Row, R: Row, lo: int, m1: int, m2: int, hi: int)
    requires Gapped(w, held, L, R, lo, m1, m2, hi) && SameOutside(w, w', m1, m2)
    ensures Gapped(w', held, L, R, lo, m1, m2, hi) && SameUser(w, w', L, R)
  {
    TilesUp(L, lo, m1);
    forall b | b in L ensures Stamped(w', b) {
      assert Stamped(w, b);
      TilesIn(L, lo, m1, b);
      StampKept(w, w', b);
    }
    forall b | b in R ensures Stamped(w', b) {
      assert Stamped(w, b);
      TilesIn(R, m2, hi, b);
      StampKept(w, w', b);
    }
    forall b, a | (b in L || b in R) && InUser(b, a) ensures Rd(w', a) == Rd(w, a) {
      if b in L { TilesIn(L, lo, m1, b); } else { TilesIn(R, m2, hi, b); }
    }
  }

  // ---------------------------------------------------------------- what the tree writes

  /** The nodes of K are the dummy root, nodes of listed blocks, and nodes inside the gap. */
  ghost predicate Nodal(K: set<Ptr>, held: map<Ptr, int>, m1: int, m2: int) {
    forall x {:trigger x in K} :: x in K ==> x == HEAD || x in held || (m1 + 4 <= x && x + 16 <= m2)
  }

  lemma ListedBlock(held: map<Ptr, int>, L: Row, R: Row, lo: int, m1: int, m2: int, hi: int, x: Ptr) returns (c: Block)
    requires Listed(held, L, R) && Tiles(L, lo, m1) && Tiles(R, m2, hi) && x in held
    ensures FreeIn(L, R, c) && NodeOf(c) == x && Fine(c) && held[x] == c.size
    ensures (c in L && lo <= c.addr && End(c) <= m1) || (c in R && m2 <= c.addr && End(c) <= hi)
  {
    c :| FreeIn(L, R, c) && NodeOf(c) == x;
    if c in L { TilesIn(L, lo, m1, c); } else { TilesIn(R, m2, hi, c); }
  }

  /** No tree link lies on the tags of a block, nor anywhere in a block in use. */
  lemma QuietWord(K: set<Ptr>, held: map<Ptr, int>, L: Row, R: Row, lo: int, m1: int, m2: int, hi: int, b: Block,
                  a: int)
    requires Nodal(K, held, m1, m2) && Listed(held, L, R) && Tiles(L, lo, m1) && Tiles(R, m2, hi) && FLOOR <= lo
    requires m1 <= m2
    requires b in L || b in R
    requires b.addr <= a < End(b) && (a < b.addr + 8 || End(b) - 8 <= a || !b.free)
    ensures Beyond(K, a)
  {
    if b in L { TilesIn(L, lo, m1, b); } else { TilesIn(R, m2, hi, b); TilesUp(L, lo, m1); }
    forall x | x in K ensures a < x + 4 || x + 16 <= a {
      if x in held {
        var c := ListedBlock(held, L, R, lo, m1, m2, hi, x);
        if c != b {
          if c in L && b in L {
            TilesApart(L, lo, m1, b, c);
          } else if c in R && b in R {
            TilesApart(R, m2, hi, b, c);
          }
        }
      }
    }
  }

  lemma TreeKeepsBlock(w: Words, w': Words, K: set<Ptr>, held: map<Ptr, int>, L: Row, R: Row, lo: int, m1: int,
                       m2: int, hi: int, b: Block)
    requires Gapped(w, held, L, R, lo, m1, m2, hi) && Nodal(K, held, m1, m2) && SameBeyond(w, w', K)
    requires b in L || b in R
    ensures Stamped(w', b)
    ensures forall a {:trigger Rd(w', a)} :: InUser(b, a) ==> Rd(w', a) == Rd(w, a)
  {
    assert Stamped(w, b);
    if b in L { TilesIn(L, lo, m1, b); } else { TilesIn(R, m2, hi, b); }
    QuietWord(K, held, L, R, lo, m1, m2, hi, b, b.addr);
    QuietWord(K, held, L, R, lo, m1, m2, hi, b, b.addr + 4);
    QuietWord(K, held, L, R, lo, m1, m2, hi, b, End(b) - 8);
    QuietWord(K, held, L, R, lo, m1, m2, hi, b, End(b) - 4);
    StampKept(w, w', b);
    forall a | InUser(b, a) ensures Rd(w', a) == Rd(w, a) { QuietWord(K, held, L, R, lo, m1, m2, hi, b, a); }
  }

  /** A tree operation leaves all tags and all user data as they were. */
  lemma TreeKeeps(w: Words, w': Words, K: set<Ptr>, held: map<Ptr, int>, L: Row, R: Row, lo: int, m1: int, m2: int,
                  hi: int)
    requires Gapped(w, held, L, R, lo, m1, m2, hi) && Nodal(K, held, m1, m2) && SameBeyond(w, w', K)
    ensures Gapped(w', held, L, R, lo, m1, m2, hi) && SameUser(w, w', L, R)
  {
    forall b | b in L ensures Stamped(w', b) { TreeKeepsBlock(w, w', K, held, L, R, lo, m1, m2, hi, b); }
    forall b | b in R ensures Stamped(w', b) { TreeKeepsBlock(w, w', K, held, L, R, lo, m1, m2, hi, b); }
    forall b, a | (b in L || b in R) && InUser(b, a) ensures Rd(w', a) == Rd(w, a) {
      TreeKeepsBlock(w, w', K, held, L, R, lo, m1, m2, hi, b);
    }
    TilesUp(L, lo, m1);
    assert Beyond(K, lo - 4) by {
      forall x | x in K ensures lo - 4 < x + 4 || x + 16 <= lo - 4 {
        if x in held { var c := ListedBlock(held, L, R, lo, m1, m2, hi, x); }
      }
    }
  }

  /** All nodes concerned are word aligned and apart, so the tree may take them. */
  lemma NodesPlaced(K: set<Ptr>, held: map<Ptr, int>, L: Row, R: Row, lo: int, m1: int, m2: int, hi: int, z: Ptr)
    requires Listed(held, L, R) && Tiles(L, lo, m1) && Tiles(R, m2, hi) && FLOOR <= lo && m1 <= m2
    requires forall x {:trigger x in K} :: x in K ==> x == HEAD || x in held || x == z
    requires m1 + 4 <= z && z + 16 <= m2 && z % 4 == 0
    ensures Placed(K) && z !in held && z != HEAD
  {
    TilesUp(L, lo, m1);
    if z in held { var c := ListedBlock(held, L, R, lo, m1, m2, hi, z); }
    forall x | x in K ensures Spot(x) && x != NULL {
      if x in held {
        var c := ListedBlock(held, L, R, lo, m1, m2, hi, x);
        NodeOnWord(c);
      }
    }
    forall x, y | x in K && y in K && x != y ensures Clear(x, y) {
      if x in held && y in held {
        NodesClear(held, L, R, lo, m1, m2, hi, x, y);
      } else if x in held {
        var b := ListedBlock(held, L, R, lo, m1, m2, hi, x);
      } else if y in held {
        var c := ListedBlock(held, L, R, lo, m1, m2, hi, y);
      }
    }
  }

  lemma NodeOnWord(b: Block)
    requires Fine(b)
    ensures Spot(NodeOf(b))
  {
  }

  /** Two listed nodes do not overlap. */
  lemma NodesClear(held: map<Ptr, int>, L: Row, R: Row, lo: int, m1: int, m2: int, hi: int, x: Ptr, y: Ptr)
    requires Listed(held, L, R) && Tiles(L, lo, m1) && Tiles(R, m2, hi) && m1 <= m2 && x in held && y in held && x != y
    ensures Clear(x, y)
  {
    var b := ListedBlock(held, L, R, lo, m1, m2, hi, x);
    var c := ListedBlock(held, L, R, lo, m1, m2, hi, y);
    if b in L && c in L {
      TilesApart(L, lo, m1, b, c);
    } else if b in R && c in R {
      TilesApart(R, m2, hi, b, c);
    }
  }

  // ---------------------------------------------------------------- opening and closing the gap

  lemma Split(w: Words, held: map<Ptr, int>, A: Row, C: Row, lo: int, hi: int) returns (mid: int)
    requires Heap(w, held, A + C, lo, hi)
    ensures Gapped(w, held, A, C, lo, mid, mid, hi)
  {
    mid := TilesCut(A, C, lo, hi);
    CoalescedCat(A, C);
    TilesUp(A, lo, mid);
    forall b | b in A ensures Stamped(w, b) { assert b in A + C && Stamped(w, b); }
    forall b | b in C ensures Stamped(w, b) { assert b in A + C && Stamped(w, b); }
    forall b | FreeIn(A, C, b) ensures NodeOf(b) in held && held[NodeOf(b)] == b.size { assert FreeIn(A + C, [], b); }
    forall x | x in held ensures exists b {:trigger FreeIn(A, C, b)} :: FreeIn(A, C, b) && NodeOf(b) == x {
      var b :| FreeIn(A + C, [], b) && NodeOf(b) == x;
      assert FreeIn(A, C, b);
    }
  }

  lemma Join(w: Words, held: map<Ptr, int>, L: Row, R: Row, lo: int, mid: int, hi: int)
    requires Gapped(w, held, L, R, lo, mid, mid, hi)
    requires L != [] && R != [] ==> !(L[|L| - 1].free && R[0].free)
    ensures Heap(w, held, L + R, lo, hi)
  {
    TilesCat(L, R, lo, mid, hi);
    CoalescedCat(L, R);
    TilesUp(L + R, lo, hi);
    forall b | b in L + R ensures Stamped(w, b) { assert Stamped(w, b); }
    forall b | FreeIn(L + R, [], b) ensures NodeOf(b) in held && held[NodeOf(b)] == b.size { assert FreeIn(L, R, b); }
    forall x | x in held ensures exists b {:trigger FreeIn(L + R, [], b)} :: FreeIn(L + R, [], b) && NodeOf(b) == x {
      var b :| FreeIn(L, R, b) && NodeOf(b) == x;
      assert FreeIn(L + R, [], b);
    }
  }

  ghost predicate Unlisted(held: map<Ptr, int>, held': map<Ptr, int>, x: Block) {
    held' == held - {NodeOf(x)}
  }

  /** The free block right of the gap leaves the tree and becomes part of the gap. */
  lemma TakeRight(w: Words, w': Words, K: set<Ptr>, held: map<Ptr, int>, held': map<Ptr, int>,
                  L: Row, x: Block, R: Row, lo: int, m1: int, m2: int, hi: int)
    requires Gapped(w, held, L, [x] + R, lo, m1, m2, hi) && x.free
    requires Nodal(K, held, m1, m2) && SameBeyond(w, w', K) && Unlisted(held, held', x)
    ensures x.addr == m2 && Gapped(w', held', L, R, lo, m1, End(x), hi) && SameUser(w, w', L, R) && Stamped(w', x)
    ensures Fine(x)
  {
    TreeKeeps(w, w', K, held, L, [x] + R, lo, m1, m2, hi);
    assert x in [x] + R && ([x] + R)[1..] == R;
    TilesIn([x] + R, m2, hi, x);
    assert Stamped(w', x);
    forall b | b in R ensures Stamped(w', b) { assert b in [x] + R && Stamped(w', b); }
    CoalescedCat([x], R);
    forall b | FreeIn(L, R, b) ensures NodeOf(b) in held' && held'[NodeOf(b)] == b.size {
      assert FreeIn(L, [x] + R, b);
      if b in L { TilesIn(L, lo, m1, b); } else { TilesIn(R, End(x), hi, b); }
    }
    forall y | y in held' ensures exists b {:trigger FreeIn(L, R, b)} :: FreeIn(L, R, b) && NodeOf(b) == y {
      var b :| FreeIn(L, [x] + R, b) && NodeOf(b) == y;
      assert FreeIn(L, R, b);
    }
  }

  /** The free block left of the gap leaves the tree and becomes part of the gap. */
  lemma TakeLeft(w: Words, w': Words, K: set<Ptr>, held: map<Ptr, int>, held': map<Ptr, int>,
                 L: Row, x: Block, R: Row, lo: int, m1: int, m2: int, hi: int)
    requires Gapped(w, held, L + [x], R, lo, m1, m2, hi) && x.free
    requires Nodal(K, held, m1, m2) && SameBeyond(w, w', K) && Unlisted(held, held', x)
    ensures End(x) == m1 && Gapped(w', held', L, R, lo, x.addr, m2, hi) && SameUser(w, w', L, R) && Stamped(w', x)
    ensures Fine(x)
  {
    TreeKeeps(w, w', K, held, L + [x], R, lo, m1, m2, hi);
    var mid := TilesCut(L, [x], lo, m1);
    assert x in L + [x];
    assert Stamped(w', x);
    forall b | b in L ensures Stamped(w', b) { assert b in L + [x] && Stamped(w', b); }
    CoalescedCat(L, [x]);
    forall b | FreeIn(L, R, b) ensures NodeOf(b) in held' && held'[NodeOf(b)] == b.size {
      assert FreeIn(L + [x], R, b);
      if b in L { TilesIn(L, lo, mid, b); } else { TilesIn(R, m2, hi, b); }
    }
    forall y | y in held' ensures exists b {:trigger FreeIn(L, R, b)} :: FreeIn(L, R, b) && NodeOf(b) == y {
      var b :| FreeIn(L + [x], R, b) && NodeOf(b) == y;
      assert FreeIn(L, R, b);
    }
  }

  /** A stamped free block at the left end of the gap joins the tree and the left row. */
  lemma PutLeft(w: Words, w': Words, K: set<Ptr>, held: map<Ptr, int>, held': map<Ptr, int>,
                L: Row, x: Block, R: Row, lo: int, m1: int, m2: int, hi: int)
    requires Gapped(w, held, L, R, lo, m1, m2, hi) && x.free && x.addr == m1 && End(x) <= m2 && Fine(x) && Stamped(w, x)
    requires L != [] ==> !L[|L| - 1].free
    requires Nodal(K, held, m1, End(x) - 8) && SameBeyond(w, w', K) && held' == held[NodeOf(x) := x.size]
    requires forall y {:trigger y in K} :: y in K && m1 <= y < End(x) ==> y == NodeOf(x)
    ensures Gapped(w', held', L + [x], R, lo, End(x), m2, hi) && SameUser(w, w', L + [x], R)
  {
    PutStamp(w, w', K, held, L, x, R, lo, m1, m2, hi);
    TreeKeeps(w, w', K, held, L, R, lo, m1, m2, hi);
    assert Tiles([x], x.addr, End(x));
    TilesCat(L, [x], lo, m1, End(x));
    TilesUp(L + [x], lo, End(x));
    forall b | b in L + [x] ensures Stamped(w', b) { if b != x { assert b in L && Stamped(w', b); } }
    CoalescedCat(L, [x]);
    PutListed(held, held', L, x, R, lo, m1, m2, hi);
    forall b | FreeIn(L + [x], R, b) ensures NodeOf(b) in held' && held'[NodeOf(b)] == b.size {
      assert b == x || FreeIn(L, R, b);
    }
    forall y | y in held' ensures exists b {:trigger FreeIn(L + [x], R, b)} :: FreeIn(L + [x], R, b) && NodeOf(b) == y {
      if y == NodeOf(x) {
        assert FreeIn(L + [x], R, x);
      } else {
        var b :| FreeIn(L, R, b) && NodeOf(b) == y;
        assert FreeIn(L + [x], R, b);
      }
    }
  }

  /** A stamped free block at the right end of the gap joins the tree and the right row. */
  lemma PutRight(w: Words, w': Words, K: set<Ptr>, held: map<Ptr, int>, held': map<Ptr, int>,
                 L: Row, x: Block, R: Row, lo: int, m1: int, m2: int, hi: int)
    requires Gapped(w, held, L, R, lo, m1, m2, hi) && x.free && m1 <= x.addr && End(x) == m2 && Fine(x) && Stamped(w, x)
    requires R != [] ==> !R[0].free
    requires Nodal(K, held, x.addr, End(x) - 8) && SameBeyond(w, w', K) && held' == held[NodeOf(x) := x.size]
    requires forall y {:trigger y in K} :: y in K && x.addr <= y < End(x) ==> y == NodeOf(x)
    ensures Gapped(w', held', L, [x] + R, lo, m1, x.addr, hi) && SameUser(w, w', L, [x] + R)
  {
    PutStamp(w, w', K, held, L, x, R, lo, m1, m2, hi);
    TreeKeeps(w, w', K, held, L, R, lo, m1, m2, hi);
    assert ([x] + R)[1..] == R;
    forall b | b in [x] + R ensures Stamped(w', b) { if b != x { assert b in R && Stamped(w', b); } }
    CoalescedCat([x], R);
    PutListed(held, held', L, x, R, lo, m1, m2, hi);
    forall b | FreeIn(L, [x] + R, b) ensures NodeOf(b) in held' && held'[NodeOf(b)] == b.size {
      assert b == x || FreeIn(L, R, b);
    }
    forall y | y in held' ensures exists b {:trigger FreeIn(L, [x] + R, b)} :: FreeIn(L, [x] + R, b) && NodeOf(b) == y {
      if y == NodeOf(x) {
        assert FreeIn(L, [x] + R, x);
      } else {
        var b :| FreeIn(L, R, b) && NodeOf(b) == y;
        assert FreeIn(L, [x] + R, b);
      }
    }
  }

  /** The tags of the block that joins survive the insertion too. */
  lemma PutStamp(w: Words, w': Words, K: set<Ptr>, held: map<Ptr, int>, L: Row, x: Block, R: Row, lo: int, m1: int,
                 m2: int, hi: int)
    requires Gapped(w, held, L, R, lo, m1, m2, hi) && m1 <= x.addr && End(x) <= m2 && Fine(x) && Stamped(w, x)
    requires Nodal(K, held, x.addr, End(x) - 8) && SameBeyond(w, w', K)
    requires forall y {:trigger y in K} :: y in K && x.addr <= y < End(x) ==> y == NodeOf(x)
    ensures Stamped(w', x) && Nodal(K, held, m1, m2)
  {
    TilesUp(L, lo, m1);
    forall a | a in {x.addr, x.addr + 4, End(x) - 8, End(x) - 4} ensures Beyond(K, a) {
      forall y | y in K ensures a < y + 4 || y + 16 <= a {
        if y in held { var c := ListedBlock(held, L, R, lo, m1, m2, hi, y); }
      }
    }
    StampKept(w, w', x);
  }

  lemma PutListed(held: map<Ptr, int>, held': map<Ptr, int>, L: Row, x: Block, R: Row, lo: int, m1: int, m2: int,
                  hi: int)
    requires Listed(held, L, R) && Tiles(L, lo, m1) && Tiles(R, m2, hi) && m1 <= x.addr && End(x) <= m2 && Fine(x)
    requires held' == held[NodeOf(x) := x.size]
    ensures forall b {:trigger FreeIn(L, R, b)} :: FreeIn(L, R, b) ==> NodeOf(b) in held' && held'[NodeOf(b)] == b.size
  {
    forall b | FreeIn(L, R, b) ensures NodeOf(b) in held' && held'[NodeOf(b)] == b.size {
      if b in L { TilesIn(L, lo, m1, b); } else { TilesIn(R, m2, hi, b); }
    }
  }

  /** A stamped block in use fills the gap. */
  lemma FillUsed(w: Words, held: map<Ptr, int>, L: Row, x: Block, R: Row, lo: int, hi: int)
    requires Gapped(w, held, L, R, lo, x.addr, End(x), hi) && !x.free && Fine(x) && Stamped(w, x)
    ensures Heap(w, held, L + [x] + R, lo, hi)
  {
    assert Tiles([x], x.addr, End(x));
    TilesCat(L, [x], lo, x.addr, End(x));
    TilesUp(L + [x], lo, End(x));
    forall b | b in L + [x] ensures Stamped(w, b) { if b != x { assert b in L && Stamped(w, b); } }
    CoalescedCat(L, [x]);
    forall b | FreeIn(L + [x], R, b) ensures NodeOf(b) in held && held[NodeOf(b)] == b.size { assert FreeIn(L, R, b); }
    forall y | y in held ensures exists b {:trigger FreeIn(L + [x], R, b)} :: FreeIn(L + [x], R, b) && NodeOf(b) == y {
      var b :| FreeIn(L, R, b) && NodeOf(b) == y;
      assert FreeIn(L + [x], R, b);
    }
    Join(w, held, L + [x], R, lo, End(x), hi);
  }

  // ---------------------------------------------------------------- words inside the gap

  ghost predicate SameWithin(w: Words, w': Words, from: int, to: int) {
    forall a {:trigger Rd(w', a)} :: from <= a < to ==> Rd(w', a) == Rd(w, a)
  }

  /** Taking a node out, or putting one in, leaves the rest of the gap alone. */
  lemma GapKept(w: Words, w': Words, K: set<Ptr>, held: map<Ptr, int>, L: Row, R: Row, lo: int, m1: int, m2: int,
                hi: int, from: int, to: int)
    requires Listed(held, L, R) && Tiles(L, lo, m1) && Tiles(R, m2, hi) && FLOOR <= lo && SameBeyond(w, w', K)
    requires m1 <= from && to <= m2
    requires forall x {:trigger x in K} :: x in K ==> x == HEAD || x in held || x + 16 <= from || to <= x + 4
    ensures SameWithin(w, w', from, to)
  {
    TilesUp(L, lo, m1);
    forall a | from <= a < to ensures Rd(w', a) == Rd(w, a) {
      forall x | x in K ensures a < x + 4 || x + 16 <= a {
        if x in held { var c := ListedBlock(held, L, R, lo, m1, m2, hi, x); }
      }
      assert Beyond(K, a);
    }
  }

  /** A store inside the gap changes no node of the tree. */
  lemma GapApart(w: Words, w': Words, v: Nodes, held: map<Ptr, int>, L: Row, R: Row, lo: int, m1: int, m2: int, hi: int)
    requires Listed(held, L, R) && Tiles(L, lo, m1) && Tiles(R, m2, hi) && SameOutside(w, w', m1, m2)
    requires forall x {:trigger x in v} :: x in v && x != HEAD ==> x in held
    ensures SameNodes(w, w', v)
  {
    forall x | x in v && x != HEAD
      ensures Rd(w', x) == Rd(w, x) && Rd(w', x + 4) == Rd(w, x + 4) && Rd(w', x + 8) == Rd(w, x + 8)
      ensures Rd(w', x + 12) == Rd(w, x + 12)
    {
      var c := ListedBlock(held, L, R, lo, m1, m2, hi, x);
    }
  }

  /** New pages at the end of the heap widen a gap there; giving pages back narrows it. */
  lemma MoveEnd(w: Words, held: map<Ptr, int>, L: Row, lo: int, m1: int, hi: int, hi': int)
    requires Gapped(w, held, L, [], lo, m1, hi, hi) && m1 <= hi' < TOP && hi' % 4 == 0
    ensures Gapped(w, held, L, [], lo, m1, hi', hi')
  {
  }

  lemma SameUserTrans(w: Words, w1: Words, w2: Words, L: Row, R: Row)
    requires SameUser(w, w1, L, R) && SameUser(w1, w2, L, R)
    ensures SameUser(w, w2, L, R)
  {
    forall b, a | (b in L || b in R) && InUser(b, a) ensures Rd(w2, a) == Rd(w, a) { assert Rd(w1, a) == Rd(w, a); }
  }

  /** A free block holds no user data. */
  lemma SameUserFree(w: Words, w': Words, L: Row, x: Block, R: Row)
    requires SameUser(w, w', L, R) && x.free
    ensures SameUser(w, w', L + [x] + R, [])
  {
    forall b, a | b in L + [x] + R && InUser(b, a) ensures Rd(w', a) == Rd(w, a) { assert b in L || b in R; }
  }

  /** The blocks in use. */
  ghost function Live(A: Row): set<Block> { set b | b in A && !b.free }

  /** A free block sits between blocks in use. */
  lemma FreeBetween(L: Row, x: Block, R: Row)
    requires Coalesced(L + [x] + R) && x.free
    ensures (L != [] ==> !L[|L| - 1].free) && (R != [] ==> !R[0].free)
  {
    var P := L + [x];
    assert P[|P| - 1] == x;
    CoalescedCat(P, R);
    CoalescedCat(L, [x]);
  }

  lemma FindBlock(A: Row, x: Block) returns (L: Row, R: Row)
    requires x in A
    ensures A == L + [x] + R
  {
    var i :| 0 <= i < |A| && A[i] == x;
    L, R := A[..i], A[i + 1..];
  }

  /** Between L and R, `was` made room for F, u and T; only u is in use. */
  lemma LiveAfter(L: Row, x: Block, R: Row, L': Row, u: Block, R': Row, lo: int, hi: int)
    requires x.free && !u.free
    requires L' == L || (exists f: Block :: f.free && L' == L + [f])
    requires R' == R || (exists r: Block :: r.free && R' == [r] + R)
    requires Tiles(L' + [u] + R', lo, hi) && Tiles(L + [x] + R, lo, hi) && x.addr <= u.addr && End(u) <= End(x)
    ensures Live(L' + [u] + R') == Live(L + [x] + R) + {u} && u !in Live(L + [x] + R)
    ensures Used(L' + [u] + R') == Used(L + [x] + R) + u.size
  {
    assert forall b :: b in Live(L' + [u] + R') <==> b == u || b in Live(L) || b in Live(R);
    assert forall b :: b in Live(L + [x] + R) <==> b in Live(L) || b in Live(R);
    if u in Live(L + [x] + R) {
      assert u in L + [x] + R && x in L + [x] + R;
      TilesApart(L + [x] + R, lo, hi, u, x);
      TilesIn(L + [x] + R, lo, hi, u);
    }
    UsedCat(L' + [u], R');
    UsedCat(L', [u]);
    UsedCat(L + [x], R);
    UsedCat(L, [x]);
    if L' != L {
      var f: Block :| f.free && L' == L + [f];
      UsedCat(L, [f]);
    }
    if R' != R {
      var r: Block :| r.free && R' == [r] + R;
      UsedCat([r], R);
    }
  }

  lemma SameUserRight(w: Words, w': Words, L: Row, x: Block, R: Row)
    requires SameUser(w, w', L, R) && x.free
    ensures SameUser(w, w', L, [x] + R)
  {
    forall b, a | (b in L || b in [x] + R) && InUser(b, a) ensures Rd(w', a) == Rd(w, a) { assert b in L || b in R; }
  }

  lemma SameUserLeft(w: Words, w': Words, L: Row, x: Block, R: Row)
    requires SameUser(w, w', L, R) && x.free
    ensures SameUser(w, w', L + [x], R)
  {
    forall b, a | (b in L + [x] || b in R) && InUser(b, a) ensures Rd(w', a) == Rd(w, a) { assert b in L || b in R; }
  }
}
