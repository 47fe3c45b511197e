/**
 What the users of the heap rely on, over every run of alloc, free and their own stores.

 `Session` keeps a ledger of the regions that have been handed out and not freed, with every word that
 their users stored.  Each operation keeps `Sound`, so it holds after every run.
 */
module HeapRuns {
  import opened RbState
  import opened RbTree
  import opened Words
  import opened Queries
  import opened Blocks
  import opened Stamps
  import opened Requests
  import opened MemAlloc
  import opened RbShape

  /**
   A region asked for with this size and alignment, its block, whether alloc left the block with its header
   magic, and the words stored since.
   */
  datatype Holding = Holding(size: int, align: int, block: Block, signed: bool, data: map<int, int>)
  type Ledger = map<int, Holding>

  /** The words that hold the size bytes behind p. */
  ghost predicate InRegion(p: int, h: Holding, a: int) { p <= a < p + h.size && a % 4 == 0 }

  ghost predicate Carried(w: Words, A: Row, p: int, h: Holding) {
    && h.block in A && !h.block.free && h.block.addr == p - 8
    && h.size >= 0 && h.block.size >= h.size + OVERHEAD && h.align >= 1 && p % h.align == 0
    && (h.signed <==> CheckMagic(w, p - 8)) && (h.align == 1 ==> h.signed)
    && (forall a {:trigger a in h.data} :: a in h.data ==> InRegion(p, h, a))
    && (forall a {:trigger Rd(w, a)} :: a in h.data ==> Rd(w, a) == h.data[a])
  }

  /** The ledger and the row tell the same story. */
  ghost predicate Booked(w: Words, A: Row, live: Ledger) {
    && (forall p {:trigger Carried(w, A, p, live[p])} :: p in live ==> Carried(w, A, p, live[p]))
    && (forall u {:trigger u in A} :: u in A && !u.free ==> u.addr + 8 in live && live[u.addr + 8].block == u)
  }

  ghost predicate Apart(p: int, m: int, q: int, n: int) { p + m <= q || q + n <= p }

  /** A live region lies inside the heap and its own block, is aligned, and still contains what was stored in it. */
  lemma RegionHolds(w: Words, A: Row, live: Ledger, lo: int, hi: int, p: int)
    requires Tiles(A, lo, hi) && Booked(w, A, live) && p in live
    ensures var h := live[p]; lo + 8 <= p && p + h.size + 8 <= hi && h.align >= 1 && p % h.align == 0
    ensures forall a :: a in live[p].data ==>
              p <= a && a + 4 <= End(live[p].block) - 8 && Rd(w, a) == live[p].data[a]
  {
    assert Carried(w, A, p, live[p]);
    TilesIn(A, lo, hi, live[p].block);
    forall a | a in live[p].data ensures p <= a && a + 4 <= End(live[p].block) - 8 && Rd(w, a) == live[p].data[a] {
      assert InRegion(p, live[p], a);
      WordFits(live[p].block, p + live[p].size, a);
    }
  }

  lemma WordFits(b: Block, e: int, a: int)
    requires Fine(b) && a % 4 == 0 && a < e <= End(b) - 8
    ensures a + 4 <= End(b) - 8
  {
    var q, r := a / 4, (End(b) - 8) / 4;
    assert a == 4 * q && End(b) - 8 == 4 * r;
  }

  /** Two live regions are apart, and not even the tags of one reach into the other. */
  lemma RegionsApart(w: Words, A: Row, live: Ledger, lo: int, hi: int, p: int, q: int)
    requires Tiles(A, lo, hi) && Booked(w, A, live) && p in live && q in live && p != q
    ensures Apart(p - 8, live[p].size + OVERHEAD, q - 8, live[q].size + OVERHEAD)
  {
    assert Carried(w, A, p, live[p]) && Carried(w, A, q, live[q]);
    TilesApart(A, lo, hi, live[p].block, live[q].block);
  }

  /** No free block, and so no node of the tree, reaches into a live region. */
  lemma RegionsOffTree(w: Words, A: Row, live: Ledger, lo: int, hi: int, p: int, b: Block)
    requires Tiles(A, lo, hi) && Booked(w, A, live) && p in live && b in A && b.free
    ensures Apart(p - 8, live[p].size + OVERHEAD, b.addr, b.size)
  {
    assert Carried(w, A, p, live[p]);
    TilesApart(A, lo, hi, live[p].block, b);
  }

  // ---------------------------------------------------------------- how the ledger changes

  lemma BookNew(w: Words, w': Words, A: Row, A': Row, live: Ledger, p: int, h: Holding)
    requires Booked(w, A, live) && Live(A') == Live(A) + {h.block} && h.block !in Live(A) && h.block in A'
    requires SameUser(w, w', A, []) && Carried(w', A', p, h) && h.data == map[]
    requires p !in live
    ensures Booked(w', A', live[p := h])
  {
    var live' := live[p := h];
    forall q | q in live' ensures Carried(w', A', q, live'[q]) {
      if q != p {
        assert Carried(w, A, q, live[q]);
        CarriedStill(w, w', A, A', q, live[q]) by {
          assert live[q].block in Live(A) && live[q].block in Live(A');
        }
      }
    }
    forall u | u in A' && !u.free ensures u.addr + 8 in live' && live'[u.addr + 8].block == u {
      assert u in Live(A');
      if u != h.block { assert u in Live(A) && u in A; }
    }
  }

  /** A holding whose block stays keeps its words. */
  lemma CarriedStill(w: Words, w': Words, A: Row, A': Row, p: int, h: Holding)
    requires Carried(w, A, p, h) && h.block in A'
    requires forall a {:trigger Rd(w', a)} :: InUser(h.block, a) ==> Rd(w', a) == Rd(w, a)
    ensures Carried(w', A', p, h)
  {
    assert InUser(h.block, p - 8);
    assert Rd(w', p - 8) == Rd(w, p - 8);
    forall a | a in h.data ensures Rd(w', a) == h.data[a] {
      assert InRegion(p, h, a);
      assert InUser(h.block, a);
      assert Rd(w, a) == h.data[a];
    }
  }

  lemma NotBooked(w: Words, A: Row, live: Ledger, A': Row, u: Block, lo: int, hi: int)
    requires Booked(w, A, live) && Tiles(A', lo, hi) && Live(A') == Live(A) + {u} && u !in Live(A) && u in A'
    ensures u.addr + 8 !in live
  {
    if u.addr + 8 in live {
      var h := live[u.addr + 8];
      assert Carried(w, A, u.addr + 8, h);
      assert h.block in Live(A) && h.block in Live(A');
      TilesApart(A', lo, hi, u, h.block);
      TilesIn(A', lo, hi, u);
      TilesIn(A', lo, hi, h.block);
    }
  }

  lemma BookAlloc(w: Words, w': Words, A: Row, A': Row, live: Ledger, p: int, h: Holding, lo: int, hi: int)
    requires Booked(w, A, live) && Tiles(A', lo, hi) && SameUser(w, w', A, []) && 0 <= h.size <= TOP - 20
    requires h.align >= 1
    requires Handed(A, A', h.block, p, BlockSize(h.size), h.align) && h.data == map[]
    requires (h.signed <==> CheckMagic(w', p - 8)) && (h.align == 1 ==> h.signed)
    ensures p !in live && Booked(w', A', live[p := h])
  {
    BlockSizeHolds(h.size);
    NotBooked(w, A, live, A', h.block, lo, hi);
    BookNew(w, w', A, A', live, p, h);
  }

  lemma BookGone(w: Words, w': Words, L: Row, b: Block, R: Row, A': Row, live: Ledger, lo: int, hi: int)
    requires Booked(w, L + [b] + R, live) && Tiles(L + [b] + R, lo, hi) && !b.free
    requires Live(A') == Live(L + [b] + R) - {b} && SameUser(w, w', L, R)
    ensures Booked(w', A', live - {b.addr + 8})
  {
    var A, live' := L + [b] + R, live - {b.addr + 8};
    assert b in A && live[b.addr + 8].block == b;
    forall q | q in live' ensures Carried(w', A', q, live'[q]) {
      assert Carried(w, A, q, live[q]);
      var u := live[q].block;
      assert u != b;
      assert u in Live(A) && u in Live(A') && (u in L || u in R);
      CarriedStill(w, w', A, A', q, live[q]);
    }
    forall u | u in A' && !u.free ensures u.addr + 8 in live' && live'[u.addr + 8].block == u {
      assert u in Live(A') && u in Live(A) && u in A;
      if u.addr == b.addr {
        TilesApart(A, lo, hi, u, b);
        TilesIn(A, lo, hi, u);
        TilesIn(A, lo, hi, b);
      }
    }
  }

  /** A user's store changes nobody else's region and no tag. */
  lemma BookStore(w: Words, A: Row, live: Ledger, lo: int, hi: int, p: int, a: int, val: int)
    requires Booked(w, A, live) && Tiles(A, lo, hi) && p in live && InRegion(p, live[p], a)
    ensures Booked(w[a := val], A, live[p := live[p].(data := live[p].data[a := val])])
  {
    var w', h := w[a := val], live[p];
    var live' := live[p := h.(data := h.data[a := val])];
    assert Carried(w, A, p, h);
    TilesIn(A, lo, hi, h.block);
    forall q | q in live' ensures Carried(w', A, q, live'[q]) {
      assert Carried(w, A, q, live[q]);
      if q != p {
        var u := live[q].block;
        TilesApart(A, lo, hi, u, h.block);
        assert forall c :: InUser(u, c) ==> Rd(w', c) == Rd(w, c);
        CarriedStill(w, w', A, A, q, live[q]);
      } else {
        forall c | c in live'[p].data ensures Rd(w', c) == live'[p].data[c] { assert c != a ==> Rd(w, c) == h.data[c]; }
      }
    }
  }

  datatype Op = Get(size: int) | Put(k: int) | Write(k: int, j: int, val: int)

  /** The client knows its regions and their sizes, each once; all were asked for without alignment. */
  ghost predicate Mine(live: Ledger, mine: seq<int>, sizes: seq<int>) {
    && |mine| == |sizes| && (forall p {:trigger p in live} :: p in live <==> p in mine)
    && (forall i, j :: 0 <= i < j < |mine| ==> mine[i] != mine[j])
    && (forall i {:trigger mine[i]} :: 0 <= i < |mine| ==>
          mine[i] in live && live[mine[i]].size == sizes[i] && live[mine[i]].align == 1)
  }

  lemma MineLess(live: Ledger, mine: seq<int>, sizes: seq<int>, k: int)
    requires Mine(live, mine, sizes) && 0 <= k < |mine|
    ensures Mine(live - {mine[k]}, mine[..k] + mine[k + 1..], sizes[..k] + sizes[k + 1..])
  {
    var mine', sizes' := mine[..k] + mine[k + 1..], sizes[..k] + sizes[k + 1..];
    assert forall i :: 0 <= i < |mine'| ==> mine'[i] == mine[if i < k then i else i + 1];
    assert forall i :: 0 <= i < |sizes'| ==> sizes'[i] == sizes[if i < k then i else i + 1];
    forall p | p in mine && p != mine[k] ensures p in mine' {
      var i :| 0 <= i < |mine| && mine[i] == p;
      assert mine'[if i < k then i else i - 1] == p;
    }
  }

  /** The block of a live region, in the row. */
  lemma Whereabouts(w: Words, A: Row, live: Ledger, p: int) returns (i: int)
    requires Booked(w, A, live) && p in live
    ensures 0 <= i < |A| && A[i] == live[p].block && !A[i].free && A[i].addr == p - 8
    ensures live[p].signed <==> CheckMagic(w, p - 8)
  {
    assert Carried(w, A, p, live[p]);
    i :| 0 <= i < |A| && A[i] == live[p].block;
  }

  lemma OnWords(w: Words, A: Row, live: Ledger, lo: int, hi: int, p: int)
    requires Tiles(A, lo, hi) && Booked(w, A, live) && p in live
    ensures p % 4 == 0
  {
    assert Carried(w, A, p, live[p]);
    var b := live[p].block;
    TilesIn(A, lo, hi, b);
    UserOnWord(b);
  }

  lemma UserOnWord(b: Block)
    requires Fine(b)
    ensures (b.addr + 8) % 4 == 0
  {
  }

  lemma OnlyPlace(A: Row, lo: int, hi: int, i: int)
    requires Tiles(A, lo, hi) && 0 <= i < |A|
    ensures forall j :: 0 <= j < |A| && A[j] == A[i] ==> j == i
  {
    assert A == A[..i] + [A[i]] + A[i + 1..];
    Once(A[..i], A[i], A[i + 1..], lo, hi);
    forall j | 0 <= j < i ensures A[j] != A[i] { assert A[j] == A[..i][j]; }
    forall j | i < j < |A| ensures A[j] != A[i] { assert A[j] == A[i + 1..][j - i - 1]; }
  }

  class Session {
    const heap: Allocator
    ghost var live: Ledger

    /** Bounds of the heap: it never outgrows max_size, and never shrinks a page below min_size. */
    ghost predicate Sound()
      reads this, heap, heap.tree
    {
      && heap.Valid() && Booked(heap.tree.w, heap.row, live)
      && heap.endAddr <= heap.startAddr + heap.maxSize && heap.endAddr - heap.startAddr > heap.minSize - FRAME_SIZE
    }

    constructor (memory: Words, nodes: int, dups: int, start: int, end: int, min: int, max: int)
      requires FLOOR <= start && start % 28 == 0 && end % FRAME_SIZE == 0 && start + MIN_BLOCK_SIZE <= end < TOP
      requires 0 <= min && start + max < TOP && Rd(memory, start - 4) < start
      requires end <= start + max && end - start > min - FRAME_SIZE
      ensures Sound() && live == map[]
    {
      heap := new Allocator(memory, nodes, dups, start, end, min, max);
      live := map[];
    }

    /** What the ledger needs to know about alloc. */
    method Obtain(size: int, alignment: int) returns (p: int, ghost u: Block)
      requires heap.Valid() && 0 <= size <= TOP - 20 && 0 <= alignment <= TOP - MIN_BLOCK_SIZE
      requires alignment <= 1 || alignment % 4 == 0
      requires Serviceable(heap.row, heap.startAddr, heap.endAddr, heap.maxSize, BlockSize(size), Effective(alignment))
      modifies heap`row, heap`memUsed, heap`endAddr, heap.tree
      ensures heap.Valid() && Handed(old(heap.row), heap.row, u, p, BlockSize(size), Effective(alignment))
      ensures SameUser(old(heap.tree.w), heap.tree.w, old(heap.row), [])
      ensures alignment <= 1 ==> CheckMagic(heap.tree.w, u.addr)
      ensures heap.endAddr == old(heap.endAddr) || old(heap.endAddr) < heap.endAddr <= heap.startAddr + heap.maxSize
    {
      ghost var x, B;
      p, u, x, B := heap.Alloc(size, alignment);
    }

    method Malloc(size: int, alignment: int) returns (p: int, ghost h: Holding)
      requires Sound() && 0 <= size <= TOP - 20 && 0 <= alignment <= TOP - MIN_BLOCK_SIZE
      requires alignment <= 1 || alignment % 4 == 0
      requires Serviceable(heap.row, heap.startAddr, heap.endAddr, heap.maxSize, BlockSize(size), Effective(alignment))
      modifies this, heap, heap.tree
      ensures Sound() && p !in old(live) && live == old(live)[p := h]
      ensures h.size == size && h.align == Effective(alignment) && h.data == map[] && (alignment <= 1 ==> h.signed)
    {
      ghost var A, w0 := heap.row, heap.tree.w;
      ghost var u;
      p, u := Obtain(size, alignment);
      h := Holding(size, Effective(alignment), u, CheckMagic(heap.tree.w, u.addr), map[]);
      BookAlloc(w0, heap.tree.w, A, heap.row, live, p, h, heap.startAddr, heap.endAddr);
      live := live[p := h];
    }

    /** Freeing the region at p leaves no splinter at the end of the heap. */
    ghost predicate Safe(p: int)
      requires p in live
      reads this, heap, heap.tree
    {
      forall i {:trigger heap.row[i]} :: 0 <= i < |heap.row| && heap.row[i] == live[p].block ==>
        CutsWell(heap.row[..i], heap.row[i], heap.row[i + 1..], heap.startAddr, heap.endAddr, heap.minSize)
    }

    method CanRelease(p: int) returns (ok: bool)
      requires Sound() && p in live
      ensures ok <==> Safe(p)
    {
      ghost var A, b := heap.row, live[p].block;
      assert Carried(heap.tree.w, A, p, live[p]);
      ghost var i :| 0 <= i < |A| && A[i] == b;
      assert A == A[..i] + [b] + A[i + 1..];
      OnlyPlace(A, heap.startAddr, heap.endAddr, i);
      ok := heap.CanFree(p, A[..i], b, A[i + 1..]);
    }

    /** What the ledger needs to know about free. */
    method GiveUp(p: int, ghost i: int, ghost L: Row, ghost b: Block, ghost R: Row)
      requires heap.Valid() && p != NULL && 0 <= i < |heap.row| && heap.row[i] == b && b.addr == p - 8 && !b.free
      requires heap.row == L + [b] + R && L == heap.row[..i] && R == heap.row[i + 1..]
      requires CheckMagic(heap.tree.w, b.addr)
      requires CutsWell(L, b, R, heap.startAddr, heap.endAddr, heap.minSize)
      requires heap.endAddr <= heap.startAddr + heap.maxSize
      requires heap.endAddr - heap.startAddr > heap.minSize - FRAME_SIZE
      modifies heap`row, heap`memUsed, heap`endAddr, heap.tree
      ensures heap.Valid() && Live(heap.row) == Live(old(heap.row)) - {b}
      ensures SameUser(old(heap.tree.w), heap.tree.w, L, R)
      ensures heap.endAddr <= heap.startAddr + heap.maxSize && heap.endAddr - heap.startAddr > heap.minSize - FRAME_SIZE
    {
      ghost var e := heap.endAddr;
      EndKept(L, b, R, heap.startAddr, e, heap.minSize, heap.maxSize);
      heap.Free(p, i);
    }

    method Release(p: int)
      requires Sound() && (p == NULL || p in live)
      requires p in live ==> live[p].signed && Safe(p)
      modifies this, heap, heap.tree
      ensures Sound() && live == old(live) - {p}
    {
      if p == NULL {
        assert live == live - {p} by { NullNotLive(heap.tree.w, heap.row, live, heap.startAddr, heap.endAddr); }
        return;
      }
      ghost var w0, A, e := heap.tree.w, heap.row, heap.endAddr;
      ghost var i := Whereabouts(w0, A, live, p);
      ghost var L, b, R := A[..i], A[i], A[i + 1..];
      assert A == L + [b] + R;
      GiveUp(p, i, L, b, R);
      BookGone(w0, heap.tree.w, L, b, R, heap.row, live, heap.startAddr, e);
      live := live - {p};
    }

    /**
     Any run of unaligned requests, frees in any order and stores by a client that only looks before it acts:
     at the limit of the heap before it allocates, and at the tags before it frees.
     */
    method Run(ops: seq<Op>) returns (mine: seq<int>, sizes: seq<int>)
      requires Sound() && live == map[]
      modifies this, heap, heap.tree
      ensures Sound() && Mine(live, mine, sizes)
    {
      mine, sizes := [], [];
      var i := 0;
      while i < |ops|
        invariant 0 <= i <= |ops| && Sound() && Mine(live, mine, sizes)
      {
        match ops[i] {
          case Get(size) =>
            if 0 <= size <= TOP - 20 && CeilPage(heap.endAddr + BlockSize(size)) <= heap.startAddr + heap.maxSize {
              mine, sizes := Take(size, mine, sizes);
            }
          case Put(k) =>
            if 0 <= k < |mine| {
              mine, sizes := Drop(k, mine, sizes);
            }
          case Write(k, j, val) =>
            if 0 <= k < |mine| && 0 <= 4 * j < sizes[k] {
              Fill(k, j, val, mine, sizes);
            }
        }
        i := i + 1;
      }
    }

    method Take(size: int, mine: seq<int>, sizes: seq<int>) returns (mine': seq<int>, sizes': seq<int>)
      requires Sound() && Mine(live, mine, sizes)
      requires 0 <= size <= TOP - 20 && CeilPage(heap.endAddr + BlockSize(size)) <= heap.startAddr + heap.maxSize
      modifies this, heap, heap.tree
      ensures Sound() && Mine(live, mine', sizes')
    {
      Servable(size);
      var p;
      ghost var h;
      p, h := Malloc(size, 0);
      mine', sizes' := mine + [p], sizes + [size];
    }

    lemma Servable(size: int)
      requires Sound() && 0 <= size <= TOP - 20
      requires CeilPage(heap.endAddr + BlockSize(size)) <= heap.startAddr + heap.maxSize
      ensures Serviceable(heap.row, heap.startAddr, heap.endAddr, heap.maxSize, BlockSize(size), 1)
    {
      BlockSizeHolds(size);
      SizesBounded(heap.row, heap.startAddr, heap.endAddr);
      ServiceableUnaligned(heap.row, heap.startAddr, heap.endAddr, heap.maxSize, BlockSize(size));
    }

    method Drop(k: int, mine: seq<int>, sizes: seq<int>) returns (mine': seq<int>, sizes': seq<int>)
      requires Sound() && Mine(live, mine, sizes) && 0 <= k < |mine|
      modifies this, heap, heap.tree
      ensures Sound() && Mine(live, mine', sizes')
    {
      mine', sizes' := mine, sizes;
      var ok := CanRelease(mine[k]);
      if ok {
        assert Carried(heap.tree.w, heap.row, mine[k], live[mine[k]]);
        MineLess(live, mine, sizes, k);
        Release(mine[k]);
        mine', sizes' := mine[..k] + mine[k + 1..], sizes[..k] + sizes[k + 1..];
      }
    }

    method Fill(k: int, j: int, val: int, mine: seq<int>, sizes: seq<int>)
      requires Sound() && Mine(live, mine, sizes) && 0 <= k < |mine| && 0 <= 4 * j < sizes[k]
      modifies this, heap.tree`w
      ensures Sound() && Mine(live, mine, sizes)
    {
      OnWords(heap.tree.w, heap.row, live, heap.startAddr, heap.endAddr, mine[k]);
      Store(mine[k], mine[k] + 4 * j, val);
    }

    /** A user stores val in the word at a of the region at p. */
    method Store(p: int, a: int, val: int)
      requires Sound() && p in live && InRegion(p, live[p], a)
      modifies this, heap.tree`w
      ensures Sound() && live == old(live)[p := old(live)[p].(data := old(live)[p].data[a := val])]
    {
      ghost var w0, A := heap.tree.w, heap.row;
      ghost var h := live[p];
      assert Carried(w0, A, p, h);
      ghost var L, R := FindBlock(A, h.block);
      heap.UserStore(a, val, L, h.block, R);
      BookStore(w0, A, live, heap.startAddr, heap.endAddr, p, a, val);
      live := live[p := h.(data := h.data[a := val])];
    }

    /** What was stored last is read back, whatever was allocated, freed and stored elsewhere in between. */
    method Load(p: int, a: int) returns (val: int)
      requires Sound() && p in live && a in live[p].data
      ensures val == live[p].data[a]
    {
      assert Carried(heap.tree.w, heap.row, p, live[p]);
      val := Rd(heap.tree.w, a);
    }
  }

  lemma NullNotLive(w: Words, A: Row, live: Ledger, lo: int, hi: int)
    requires Tiles(A, lo, hi) && Booked(w, A, live) && FLOOR <= lo
    ensures NULL !in live
  {
    if NULL in live { RegionHolds(w, A, live, lo, hi, NULL); }
  }

  /** Contraction never goes a page below min_size. */
  lemma EndKept(L: Row, b: Block, R: Row, lo: int, hi: int, min: int, max: int)
    requires Tiles(L + [b] + R, lo, hi) && hi % FRAME_SIZE == 0 && hi <= lo + max && hi - lo > min - FRAME_SIZE
    ensures var e := EndAfterFree(L, b, R, lo, hi, min); e <= lo + max && e - lo > min - FRAME_SIZE
  {
    MergedTiles(L, b, R, lo, hi);
    if Contracts(b, R, lo, hi, min) { ShrunkBounds(MergedStart(L, b), lo, hi, min); }
  }
}
