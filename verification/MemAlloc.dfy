/**
 kernel/mem_alloc.c: the boundary-tag allocator, on the same word memory as its tree of free blocks.
 */
module MemAlloc {
  import opened RbShape
  import opened RbState
  import opened RbTakeOut
  import opened RbTree
  import opened Words
  import opened Queries
  import opened Blocks
  import opened Stamps
  import opened Requests
  import opened RbRemoveWalk

  /** sizeof(allocator_t), which lies at the start of the heap's pages (mem_alloc.c:371-373). */
  const RECORD_SIZE: int := 48

  /** mem_alloc.c:373-378 */
  function HeapStart(start: int): int {
    var s := start + RECORD_SIZE;
    if s % MIN_BLOCK_SIZE != 0 then s - s % MIN_BLOCK_SIZE + MIN_BLOCK_SIZE else s
  }

  /** mem_alloc.c:363-401; memory, nodes and dups are what lay there before. */
  method CreateMemAllocator(memory: Words, nodes: int, dups: int, start: int, end: int, min: int, max: int)
    returns (a: Allocator?)
    requires 0 <= min && FLOOR <= start && end < TOP && start + RECORD_SIZE + 2 * MIN_BLOCK_SIZE <= end
    requires HeapStart(start) + max < TOP && Rd(memory, HeapStart(start) - 4) < HeapStart(start)
    ensures a == null <==> start % FRAME_SIZE != 0 || end % FRAME_SIZE != 0
    ensures a != null ==>
              && fresh(a) && fresh(a.tree) && a.Valid() && a.startAddr % MIN_BLOCK_SIZE == 0 && a.endAddr == end
              && a.minSize == min && a.maxSize == max
              && start + RECORD_SIZE <= a.startAddr < start + RECORD_SIZE + MIN_BLOCK_SIZE
              && a.row == [Block(a.startAddr, end - a.startAddr, true)]
  {
    if start % FRAME_SIZE != 0 || end % FRAME_SIZE != 0 {
      return null;
    }
    HeapStarts(start);
    a := new Allocator(memory, nodes, dups, HeapStart(start), end, min, max);
  }

  lemma HeapStarts(start: int)
    ensures HeapStart(start) % 28 == 0 && start + RECORD_SIZE <= HeapStart(start) < start + RECORD_SIZE + MIN_BLOCK_SIZE
  {
  }

  /** A request of req bytes was met: u is the one new block in use, and p the user's pointer into it. */
  ghost predicate Handed(A: Row, A': Row, u: Block, p: int, req: int, align: int)
    requires align >= 1
  {
    && u in A' && !u.free && Live(A') == Live(A) + {u} && u !in Live(A)
    && p == u.addr + 8 && p % align == 0 && u.size >= req
  }

  ghost predicate Within(u: Block, x: Block) { x.addr <= u.addr && End(u) <= End(x) }

  /** x is a smallest one of the free blocks with at least req bytes. */
  ghost predicate BestOf(A: Row, req: int, x: Block) {
    x in A && x.free && x.size >= req && forall b :: b in A && b.free && b.size >= req ==> x.size <= b.size
  }

  /** x in pieces: what lies in front of u, u, and what lies behind it. */
  function Pieces(x: Block, u: Block): Row {
    (if u.addr == x.addr then [] else [Block(x.addr, u.addr - x.addr, true)]) + [u]
    + (if End(u) == End(x) then [] else [Block(End(u), End(x) - End(u), true)])
  }

  ghost predicate CutAt(A: Row, A': Row, x: Block, u: Block, L: Row, R: Row) {
    A == L + [x] + R && A' == L + Pieces(x, u) + R
  }

  /** Where in x the block u lies, and how large it is. */
  ghost predicate CutFrom(x: Block, u: Block, req: int, align: int)
    requires align >= 1
  {
    && x.free && !u.free && Within(u, x) && u.addr == x.addr + Gap(x.addr + 8, align)
    && u.size == if End(x) - u.addr - req >= MIN_BLOCK_SIZE then req else End(x) - u.addr
  }

  /** The free block x of A was cut for a request of req bytes; u is the piece in use, and A' the row afterwards. */
  ghost predicate CutOut(A: Row, A': Row, x: Block, u: Block, req: int, align: int)
    requires align >= 1
  {
    CutFrom(x, u, req, align) && exists L, R {:trigger CutAt(A, A', x, u, L, R)} :: CutAt(A, A', x, u, L, R)
  }

  /**
   The heap grows only if no largest block fits.  Without alignment the block x to cut is a best fit, and one
   expansion is enough.  B is the row that x is cut from.
   */
  ghost predicate Planned(A: Row, e: int, B: Row, e': int, req: int, align: int, x: Block)
    requires align >= 1
  {
    && (Ample(A, req, align) ==> e' == e && B == A)
    && (align == 1 ==>
          if Ample(A, req, 1) then BestOf(A, req, x) else e' == CeilPage(e + req) && B == Grown(A, e, e'))
  }

  lemma PlannedNow(A: Row, e: int, req: int, align: int, x: Block)
    requires align >= 1 && req >= 1 && (align == 1 ==> BestOf(A, req, x))
    ensures Planned(A, e, A, e, req, align, x)
  {
    if align == 1 { UnalignedAmple(A, req); }
  }

  lemma PlannedLater(A: Row, e: int, A': Row, e': int, req: int, align: int)
    requires align >= 1 && !Ample(A, req, align) && e' == CeilPage(e + req) && A' == Grown(A, e, e')
    requires align == 1 ==> Ample(A', req, 1)
    ensures forall B, e2, x {:trigger Planned(A', e', B, e2, req, align, x)} ::
              Planned(A', e', B, e2, req, align, x) ==> Planned(A, e, B, e2, req, align, x)
  {
  }

  /**
   Whether the block in use has its header magic: it has if it starts its hole or is split behind.  Otherwise it
   keeps the word that lay there, known when the heap did not grow.
   */
  ghost predicate Signed(w': Words, w: Words, x: Block, u: Block, align: int, still: bool) {
    && (u.addr == x.addr || End(u) != End(x) || align == 1 ==> CheckMagic(w', u.addr))
    && (still ==> (CheckMagic(w', u.addr) <==> u.addr == x.addr || End(u) != End(x) || CheckMagic(w, u.addr)))
  }

  lemma SignedNow(w: Words, w1: Words, w': Words, x: Block, u: Block, req: int, align: int)
    requires align >= 1 && CutFrom(x, u, req, align) && SameWithin(w, w1, x.addr + 20, End(x))
    requires u.size >= MIN_BLOCK_SIZE
    requires CheckMagic(w', u.addr) <==> u.addr == x.addr || End(u) != End(x) || CheckMagic(w1, u.addr)
    ensures Signed(w', w, x, u, align, true)
  {
    CutIsGap(x.addr + 8, align);
    if align == 1 { GapOne(x.addr + 8); }
    assert u.addr != x.addr ==> Rd(w1, u.addr) == Rd(w, u.addr);
  }

  function Effective(alignment: int): int { if alignment == 0 then 1 else alignment }

  class Allocator {
    const tree: Tree
    var startAddr: int
    var endAddr: int
    var minSize: int
    var maxSize: int
    var memUsed: int

    /** The blocks of the heap, in address order. */
    ghost var row: Row

    /** mem_alloc.c:371-398 once the addresses are known: one hole from start to end. */
    constructor (memory: Words, nodes: int, dups: int, start: int, end: int, min: int, max: int)
      requires FLOOR <= start && start % 28 == 0 && end % FRAME_SIZE == 0 && start + MIN_BLOCK_SIZE <= end < TOP
      requires 0 <= min && start + max < TOP && Rd(memory, start - 4) < start
      ensures Valid() && fresh(tree) && row == [Block(start, end - start, true)] && startAddr == start && endAddr == end
      ensures minSize == min && maxSize == max && memUsed == 0
      ensures SameWithin(memory, tree.w, start + 20, end - 8)
    {
      startAddr, endAddr, minSize, maxSize, memUsed := start, end, min, max, 0;
      tree := new Tree(memory, nodes, dups);
      row := [];
      new;
      Pages(end);
      FirstHole();
    }

    /** mem_alloc.c:390-398 */
    method FirstHole()
      requires tree.Valid() && Held(tree.v) == map[] && Rd(tree.w, startAddr - 4) < startAddr
      requires FLOOR <= startAddr && startAddr % 4 == 0 && endAddr % 4 == 0
      requires startAddr + MIN_BLOCK_SIZE <= endAddr < TOP
      modifies `row, tree
      ensures tree.Valid() && row == [Block(startAddr, endAddr - startAddr, true)]
      ensures Heap(tree.w, Held(tree.v), row, startAddr, endAddr)
      ensures SameWithin(old(tree.w), tree.w, startAddr + 20, endAddr - 8)
    {
      ghost var w0 := tree.w;
      ghost var hole := Block(startAddr, endAddr - startAddr, true);
      NoBlocks(tree.w, Held(tree.v), startAddr, endAddr);
      var w := StampFree(tree.w, startAddr, endAddr - startAddr);
      Poke(w, [], [], startAddr, endAddr);
      var ok := PutAtLeft(startAddr + 4, [], hole, [], startAddr, endAddr);
      InnerWords(w0, w, tree.w, startAddr, endAddr);
      row := [] + [hole];
    }

    /** A store to memory outside of the tree's nodes. */
    method SetWords(w: Words)
      requires tree.Valid() && SameNodes(tree.w, w, tree.v)
      modifies tree`w
      ensures tree.Valid() && tree.w == w
    {
      StoreApart(tree.w, w, tree.v);
      tree.w := w;
    }

    /** The heap around a gap [m1, m2) that the running operation owns. */
    ghost predicate Open(L: Row, R: Row, m1: int, m2: int)
      reads this, tree
    {
      tree.Valid() && Gapped(tree.w, Held(tree.v), L, R, startAddr, m1, m2, endAddr)
    }

    ghost predicate Valid()
      reads this, tree
    {
      && tree.Valid() && Heap(tree.w, Held(tree.v), row, startAddr, endAddr)
      && memUsed == Used(row)
      && endAddr % FRAME_SIZE == 0 && 0 <= minSize && startAddr + maxSize < TOP
    }

    // ---------------------------------------------------------------- tree steps

    lemma OldNodes(K: set<Ptr>)
      requires K == tree.v.Keys
      ensures forall x {:trigger x in K} :: x in K ==> x == HEAD || x in Held(tree.v)
    {
    }

    /** remove_rbnode for the free block right of the gap: exact size and address. */
    method TakeFromRight(node: Ptr, size: int, ghost L: Row, ghost x: Block, ghost R: Row, ghost m1: int, ghost m2: int)
      returns (r: Ptr)
      requires Open(L, [x] + R, m1, m2) && x.free && node == NodeOf(x) && size == x.size
      modifies tree
      ensures r == node && x.addr == m2 && Fine(x) && Open(L, R, m1, End(x)) && Stamped(tree.w, x)
      ensures SameUser(old(tree.w), tree.w, L, R) && SameWithin(old(tree.w), tree.w, m1, m2)
    {
      ghost var w0, held, K := tree.w, Held(tree.v), tree.v.Keys;
      OldNodes(K);
      assert x in [x] + R && FreeIn(L, [x] + R, x);
      TilesIn([x] + R, m2, endAddr, x);
      TilesUp(L, startAddr, m1);
      ghost var found;
      r, found := tree.Remove(Exact(size, node));
      TakeRight(w0, tree.w, K, held, Held(tree.v), L, x, R, startAddr, m1, m2, endAddr);
      GapKept(w0, tree.w, K, held, L, [x] + R, startAddr, m1, m2, endAddr, m1, m2);
    }

    /** remove_rbnode for the free block left of the gap. */
    method TakeFromLeft(node: Ptr, size: int, ghost L: Row, ghost x: Block, ghost R: Row, ghost m1: int, ghost m2: int)
      returns (r: Ptr)
      requires Open(L + [x], R, m1, m2) && x.free && node == NodeOf(x) && size == x.size
      modifies tree
      ensures r == node && End(x) == m1 && Fine(x) && Open(L, R, x.addr, m2) && Stamped(tree.w, x)
      ensures SameUser(old(tree.w), tree.w, L, R) && SameWithin(old(tree.w), tree.w, m1, m2)
    {
      ghost var w0, held, K := tree.w, Held(tree.v), tree.v.Keys;
      OldNodes(K);
      assert x in L + [x] && FreeIn(L + [x], R, x);
      TilesIn(L + [x], startAddr, m1, x);
      TilesUp(R, m2, endAddr);
      ghost var found;
      r, found := tree.Remove(Exact(size, node));
      TakeLeft(w0, tree.w, K, held, Held(tree.v), L, x, R, startAddr, m1, m2, endAddr);
      GapKept(w0, tree.w, K, held, L + [x], R, startAddr, m1, m2, endAddr, m1, m2);
    }

    /** insert_rbnode for a stamped free block at the left end of the gap. */
    method PutAtLeft(node: Ptr, ghost L: Row, ghost x: Block, ghost R: Row, ghost m1: int, ghost m2: int)
      returns (ok: bool)
      requires Open(L, R, m1, m2) && x.free && x.addr == m1 && End(x) <= m2 && Fine(x) && Stamped(tree.w, x)
      requires node == NodeOf(x)
      requires L != [] ==> !L[|L| - 1].free
      modifies tree
      ensures ok && Open(L + [x], R, End(x), m2)
      ensures SameUser(old(tree.w), tree.w, L, R) && SameWithin(old(tree.w), tree.w, x.addr + 20, m2)
    {
      ghost var w0, held, K := tree.w, Held(tree.v), tree.v.Keys + {node};
      OldNodes(tree.v.Keys);
      TilesUp(L, startAddr, m1);
      TilesUp(R, m2, endAddr);
      NodesPlaced(K, held, L, R, startAddr, m1, m2, endAddr, node);
      assert HEAD in tree.v by { HeadNode(tree.v, tree.s); }
      ok := tree.Insert(node);
      ghost var held' := Held(tree.v);
      assert held' == held[node := x.size];
      PutLeft(w0, tree.w, K, held, held', L, x, R, startAddr, m1, m2, endAddr) by {
        NotInGap(held, L, R, startAddr, m1, m2, endAddr);
      }
      GapKept(w0, tree.w, K, held, L, R, startAddr, m1, m2, endAddr, x.addr + 20, m2);
    }

    /** insert_rbnode for a stamped free block at the right end of the gap. */
    method PutAtRight(node: Ptr, ghost L: Row, ghost x: Block, ghost R: Row, ghost m1: int, ghost m2: int)
      returns (ok: bool)
      requires Open(L, R, m1, m2) && x.free && m1 <= x.addr && End(x) == m2 && Fine(x) && Stamped(tree.w, x)
      requires node == NodeOf(x)
      requires R != [] ==> !R[0].free
      modifies tree
      ensures ok && Open(L, [x] + R, m1, x.addr)
      ensures SameUser(old(tree.w), tree.w, L, R) && SameWithin(old(tree.w), tree.w, m1, x.addr)
    {
      ghost var w0, held, K := tree.w, Held(tree.v), tree.v.Keys + {node};
      OldNodes(tree.v.Keys);
      TilesUp(L, startAddr, m1);
      TilesUp(R, m2, endAddr);
      NodesPlaced(K, held, L, R, startAddr, m1, m2, endAddr, node);
      assert HEAD in tree.v by { HeadNode(tree.v, tree.s); }
      ok := tree.Insert(node);
      ghost var held' := Held(tree.v);
      assert held' == held[node := x.size];
      PutRight(w0, tree.w, K, held, held', L, x, R, startAddr, m1, m2, endAddr) by {
        NotInGap(held, L, R, startAddr, m1, m2, endAddr);
      }
      GapKept(w0, tree.w, K, held, L, R, startAddr, m1, m2, endAddr, m1, x.addr);
    }

    /** A store inside the gap. */
    method Poke(w: Words, ghost L: Row, ghost R: Row, ghost m1: int, ghost m2: int)
      requires Open(L, R, m1, m2) && SameOutside(tree.w, w, m1, m2)
      modifies tree`w
      ensures Open(L, R, m1, m2) && tree.w == w && SameUser(old(tree.w), w, L, R)
    {
      OldNodes(tree.v.Keys);
      GapApart(tree.w, w, tree.v, Held(tree.v), L, R, startAddr, m1, m2, endAddr);
      WriteInGap(tree.w, w, Held(tree.v), L, R, startAddr, m1, m2, endAddr);
      SetWords(w);
    }

    // ---------------------------------------------------------------- pages

    /** mem_alloc.c:108-131; mapping the pages is left out. */
    method Expand(target: int)
      requires endAddr % FRAME_SIZE == 0
      modifies `endAddr
      ensures endAddr == if target <= old(endAddr) || CeilPage(target) > startAddr + maxSize then old(endAddr)
              else CeilPage(target)
    {
      if target <= endAddr {
        return;
      }
      var newEnd := target;
      if newEnd % FRAME_SIZE != 0 {
        newEnd := newEnd - newEnd % FRAME_SIZE;
        newEnd := newEnd + FRAME_SIZE;
      }
      Pages(target);
      if newEnd > startAddr + maxSize {
        return;
      }
      while endAddr < newEnd
        invariant endAddr % FRAME_SIZE == 0 && endAddr <= newEnd
      {
        endAddr := endAddr + FRAME_SIZE;
      }
    }

    /** mem_alloc.c:133-155; unmapping the pages is left out. */
    method Contract(target: int) returns (e: int)
      requires endAddr % FRAME_SIZE == 0
      modifies `endAddr
      ensures target >= old(endAddr) ==> e == 0 && endAddr == old(endAddr)
      ensures target < old(endAddr) ==> e == endAddr == Shrunk(target, startAddr, old(endAddr), minSize)
      ensures target < old(endAddr) ==>
                LastStop(endAddr, old(endAddr), Larger(CeilPage(target), startAddr + minSize))
    {
      if target >= endAddr {
        return 0;
      }
      var newEnd := target;
      if newEnd % FRAME_SIZE != 0 {
        newEnd := newEnd - newEnd % FRAME_SIZE;
        newEnd := newEnd + FRAME_SIZE;
      }
      if newEnd - startAddr < minSize {
        newEnd := startAddr + minSize;
      }
      assert newEnd == Larger(CeilPage(target), startAddr + minSize);
      DropPages(newEnd);
      ShrunkStops(target, startAddr, old(endAddr), minSize);
      OneStop(endAddr, Shrunk(target, startAddr, old(endAddr), minSize), old(endAddr), newEnd);
      e := endAddr;
    }

    /** mem_alloc.c:149-152 */
    method DropPages(newEnd: int)
      requires endAddr % FRAME_SIZE == 0
      modifies `endAddr
      ensures LastStop(endAddr, old(endAddr), newEnd)
    {
      while endAddr > newEnd
        invariant endAddr == old(endAddr) || (endAddr <= old(endAddr) && endAddr + FRAME_SIZE > newEnd)
        invariant endAddr % FRAME_SIZE == 0
        decreases endAddr - newEnd
      {
        endAddr := endAddr - FRAME_SIZE;
      }
    }

    // ---------------------------------------------------------------- growing the heap

    /** mem_alloc.c:188-205: the hole [m1, endAddr), whose footer is written, joins the free block left of it. */
    method MergeHole(header: int, holeSize: int, ghost L: Row, ghost x: Block, ghost m1: int)
      requires Open(L + [x], [], m1, endAddr) && x.free && header == x.addr && holeSize == endAddr - m1
      requires holeSize >= MIN_BLOCK_SIZE
      requires Sized(tree.w, m1, holeSize)
      modifies tree
      ensures Open(L + [Block(x.addr, x.size + holeSize, true)], [], endAddr, endAddr)
      ensures SameUser(old(tree.w), tree.w, L, [])
    {
      ghost var w0 := tree.w;
      assert x in L + [x] && Stamped(tree.w, x);
      TilesUp(L + [x], startAddr, m1);
      CoalescedEnd(L, x);
      var size := Rd(tree.w, header + 4);
      var leftNode := TakeFromLeft(header + 4, size, L, x, [], m1, endAddr);
      assert Rd(tree.w, endAddr - 8) == Rd(w0, endAddr - 8);
      ghost var w1 := tree.w;
      PutMerged(leftNode, holeSize, L, x);
      SameUserTrans(w0, w1, tree.w, L, []);
    }

    /** mem_alloc.c:198-205: the left block grows over the hole and goes back to the tree. */
    method PutMerged(leftNode: Ptr, holeSize: int, ghost L: Row, ghost x: Block)
      requires Open(L, [], x.addr, endAddr) && Fine(x) && Stamped(tree.w, x) && x.free && leftNode == NodeOf(x)
      requires endAddr == End(x) + holeSize && holeSize >= MIN_BLOCK_SIZE && CheckMagic(tree.w, endAddr - 8)
      requires L != [] ==> !L[|L| - 1].free
      modifies tree
      ensures Open(L + [Block(x.addr, x.size + holeSize, true)], [], endAddr, endAddr)
      ensures SameUser(old(tree.w), tree.w, L, [])
    {
      ghost var w0 := tree.w;
      ghost var y := Block(x.addr, x.size + holeSize, true);
      var w := Restamp(tree.w, leftNode - 4, Rd(tree.w, leftNode) + holeSize);
      TilesUp(L, startAddr, x.addr);
      Poke(w, L, [], x.addr, endAddr);
      ghost var w1 := tree.w;
      var ok := PutAtLeft(leftNode, L, y, [], x.addr, endAddr);
      SameUserTrans(w0, w1, tree.w, L, []);
    }

    /**
     mem_alloc.c:170-179: the heap grows by a hole.  When max_size refuses, alloc carries on with a hole of size 0,
     whose footer overwrites the one of the last block: the heap stays intact exactly when there is room.
     */
    method MakeHole(req: int) returns (oldEnd: int)
      requires Valid() && MIN_BLOCK_SIZE <= req
      modifies `endAddr, tree
      ensures oldEnd == old(endAddr) && endAddr % FRAME_SIZE == 0 && tree.Valid()
      ensures Open(row, [], oldEnd, endAddr) <==> CeilPage(oldEnd + req) <= startAddr + maxSize
      ensures CeilPage(oldEnd + req) <= startAddr + maxSize ==>
                && endAddr == CeilPage(oldEnd + req) && endAddr - oldEnd >= MIN_BLOCK_SIZE
                && Sized(tree.w, oldEnd, endAddr - oldEnd) && CheckMagic(tree.w, oldEnd)
                && SameUser(old(tree.w), tree.w, row, [])
      ensures CeilPage(oldEnd + req) > startAddr + maxSize ==>
                && endAddr == oldEnd && (row != [] ==> !Stamped(tree.w, row[|row| - 1]))
    {
      oldEnd := endAddr;
      Expand(endAddr + req);
      HoleSize(oldEnd, endAddr, req, startAddr + maxSize);
      TagHole(oldEnd);
    }

    /** mem_alloc.c:173-179 */
    method TagHole(oldEnd: int)
      requires tree.Valid() && Heap(tree.w, Held(tree.v), row, startAddr, oldEnd)
      requires endAddr % 4 == 0 && endAddr < TOP && (endAddr == oldEnd || oldEnd + MIN_BLOCK_SIZE <= endAddr)
      modifies tree`w
      ensures tree.Valid() && (Open(row, [], oldEnd, endAddr) <==> oldEnd < endAddr)
      ensures Sized(tree.w, oldEnd, endAddr - oldEnd) && CheckMagic(tree.w, oldEnd)
      ensures oldEnd < endAddr ==> SameUser(old(tree.w), tree.w, row, [])
      ensures oldEnd == endAddr && row != [] ==> !Stamped(tree.w, row[|row| - 1])
    {
      var w := WriteTagged(tree.w, oldEnd, endAddr - oldEnd);
      OldNodes(tree.v.Keys);
      HoleWritten(tree.w, w, tree.v, Held(tree.v), row, startAddr, oldEnd, endAddr);
      SetWords(w);
    }

    /** mem_alloc.c:170-209 */
    method Grow(req: int)
      requires Valid() && MIN_BLOCK_SIZE <= req && CeilPage(endAddr + req) <= startAddr + maxSize
      modifies `endAddr, `row, tree
      ensures Valid() && endAddr == CeilPage(old(endAddr) + req) && row == Grown(old(row), old(endAddr), endAddr)
      ensures SameUser(old(tree.w), tree.w, old(row), [])
    {
      ghost var A := row;
      var oldEnd := MakeHole(req);
      ghost var w1 := tree.w;
      FillHole(oldEnd, A);
      SameUserTrans(old(tree.w), w1, tree.w, A, []);
      UsedGrown(A, oldEnd, endAddr);
      row := Grown(A, oldEnd, endAddr);
    }

    /** mem_alloc.c:181-209: the hole at the end of the heap joins the tree, alone or with its left neighbour. */
    method FillHole(oldEnd: int, ghost A: Row)
      requires Open(A, [], oldEnd, endAddr) && Sized(tree.w, oldEnd, endAddr - oldEnd) && CheckMagic(tree.w, oldEnd)
      requires endAddr - oldEnd >= MIN_BLOCK_SIZE
      modifies tree
      ensures Open(Grown(A, oldEnd, endAddr), [], endAddr, endAddr) && SameUser(old(tree.w), tree.w, A, [])
    {
      LeftFooter(tree.w, Held(tree.v), A, [], startAddr, oldEnd, endAddr, endAddr);
      if FreeAtLeft(tree.w, startAddr, oldEnd) {
        ghost var L, x := A[..|A| - 1], A[|A| - 1];
        GrownMerged(A, L, x, oldEnd, endAddr);
        MergeHole(Rd(tree.w, oldEnd - 4), endAddr - oldEnd, L, x, oldEnd);
        SameUserLast(old(tree.w), tree.w, A, L, x);
      } else {
        KeepHole(oldEnd, A);
      }
    }

    /** mem_alloc.c:206-208 */
    method KeepHole(oldEnd: int, ghost A: Row)
      requires Open(A, [], oldEnd, endAddr) && Sized(tree.w, oldEnd, endAddr - oldEnd) && CheckMagic(tree.w, oldEnd)
      requires endAddr - oldEnd >= MIN_BLOCK_SIZE && (A != [] ==> !A[|A| - 1].free)
      modifies tree
      ensures Open(A + [Block(oldEnd, endAddr - oldEnd, true)], [], endAddr, endAddr)
      ensures SameUser(old(tree.w), tree.w, A, [])
    {
      TilesUp(A, startAddr, oldEnd);
      var w := MarkFree(tree.w, oldEnd);
      Poke(w, A, [], oldEnd, endAddr);
      var ok := PutAtLeft(oldEnd + 4, A, Block(oldEnd, endAddr - oldEnd, true), [], oldEnd, endAddr);
    }

    // ---------------------------------------------------------------- carving a block

    /** mem_alloc.c:219-243: the front [block, block + offset) goes back to the tree. */
    method CutFront(block: int, offset: int, ghost L: Row, ghost R: Row, ghost m2: int) returns (block': int)
      requires Open(L, R, block, m2) && Sized(tree.w, block, m2 - block)
      requires offset >= MIN_BLOCK_SIZE && offset % 4 == 0 && block + offset + MIN_BLOCK_SIZE <= m2
      requires L != [] ==> !L[|L| - 1].free
      modifies tree
      ensures block' == block + offset && Open(L + [Block(block, offset, true)], R, block', m2)
      ensures Sized(tree.w, block', m2 - block')
      ensures Rd(tree.w, block') == Rd(old(tree.w), block') && SameUser(old(tree.w), tree.w, L, R)
    {
      TilesUp(L, startAddr, block);
      block' := block + offset;
      var w := WriteSized(tree.w, block', Rd(tree.w, block + 4) - offset);
      w := StampFree(w, block, offset);
      Poke(w, L, R, block, m2);
      ghost var w1 := tree.w;
      var ok := PutAtLeft(block + 4, L, Block(block, offset, true), R, block, m2);
      SizedKept(w1, tree.w, block', m2 - block');
    }

    /** mem_alloc.c:217-244 */
    method AlignFront(block: int, align: int, ghost L: Row, ghost R: Row, ghost m2: int)
      returns (block': int, ghost L': Row)
      requires Open(L, R, block, m2) && Sized(tree.w, block, m2 - block) && align >= 1 && (align == 1 || align % 4 == 0)
      requires block + Gap(block + 8, align) + MIN_BLOCK_SIZE <= m2
      requires L != [] ==> !L[|L| - 1].free
      modifies tree
      ensures block' == block + Gap(block + 8, align) && (block' + 8) % align == 0
      ensures Open(L', R, block', m2) && Sized(tree.w, block', m2 - block')
      ensures L' == if block' == block then L else L + [Block(block, block' - block, true)]
      ensures Rd(tree.w, block') == Rd(old(tree.w), block') && SameUser(old(tree.w), tree.w, L, R)
    {
      block', L' := block, L;
      TilesUp(L, startAddr, block);
      CutIsGap(block + 8, align);
      GapWords(block + 8, align);
      if (block + 8) % align != 0 {
        var offset := align - (block + 8) % align;
        while offset < MIN_BLOCK_SIZE
          invariant offset > 0 && Bump(offset, align) == Gap(block + 8, align)
        {
          offset := offset + align;
        }
        block' := CutFront(block, offset, L, R, m2);
        L' := L + [Block(block, offset, true)];
      }
    }

    /** mem_alloc.c:251-267 */
    method CutTail(block: int, req: int, fragSize: int, ghost L: Row, ghost R: Row, ghost m2: int)
      requires Open(L, R, block, m2) && m2 == block + req + fragSize
      requires MIN_BLOCK_SIZE <= req && req % 4 == 0 && fragSize >= MIN_BLOCK_SIZE
      requires R != [] ==> !R[0].free
      modifies tree
      ensures Open(L, [Block(block + req, fragSize, true)] + R, block, block + req)
      ensures Sized(tree.w, block, req) && CheckMagic(tree.w, block) && SameUser(old(tree.w), tree.w, L, R)
    {
      TilesUp(L, startAddr, block);
      ghost var rest := Block(block + req, fragSize, true);
      var w := WriteTagged(tree.w, block, req);
      w := StampFree(w, block + req, fragSize);
      Poke(w, L, R, block, m2);
      ghost var w1 := tree.w;
      var ok := PutAtRight(block + req + 4, L, rest, R, block, m2);
      SizedKept(w1, tree.w, block, req);
    }

    /** mem_alloc.c:246-268: what is left over behind req bytes goes back to the tree, if it makes a block. */
    method SplitTail(block: int, req: int, ghost L: Row, ghost R: Row, ghost m2: int) returns (size: int, ghost R': Row)
      requires Open(L, R, block, m2) && Sized(tree.w, block, m2 - block)
      requires MIN_BLOCK_SIZE <= req && req % 4 == 0 && block + req <= m2
      requires R != [] ==> !R[0].free
      modifies tree
      ensures size == (if m2 - block - req >= MIN_BLOCK_SIZE then req else m2 - block) && size % 4 == 0
      ensures Open(L, R', block, block + size) && Sized(tree.w, block, size)
      ensures R' == if size == m2 - block then R else [Block(block + size, m2 - block - size, true)] + R
      ensures size == m2 - block ==> Rd(tree.w, block) == Rd(old(tree.w), block)
      ensures size != m2 - block ==> CheckMagic(tree.w, block)
      ensures SameUser(old(tree.w), tree.w, L, R)
    {
      TilesUp(L, startAddr, block);
      var blockSize := Rd(tree.w, block + 4);
      var fragSize := blockSize - req;
      size, R' := blockSize, R;
      if fragSize > 0 && fragSize >= MIN_BLOCK_SIZE {
        CutTail(block, req, fragSize, L, R, m2);
        size, R' := req, [Block(block + req, fragSize, true)] + R;
      }
    }

    /** mem_alloc.c:217-268; u is the block that is left in the gap. */
    method Trim(block: int, req: int, align: int, ghost L: Row, ghost x: Block, ghost R: Row)
      returns (block': int, size: int, ghost L': Row, ghost R': Row)
      requires Open(L, R, x.addr, End(x)) && Sized(tree.w, x.addr, x.size) && Fine(x) && block == x.addr
      requires (L != [] ==> !L[|L| - 1].free) && (R != [] ==> !R[0].free)
      requires align >= 1 && (align == 1 || align % 4 == 0) && MIN_BLOCK_SIZE <= req && req % 4 == 0
      requires Fits(x, req, align)
      modifies tree
      ensures Open(L', R', block', block' + size) && Sized(tree.w, block', size)
      ensures Trimmed(L, x, R, L', Block(block', size, false), R', req, align)
      ensures SameUser(old(tree.w), tree.w, L, R)
      ensures block' + size == End(x) ==> Rd(tree.w, block') == Rd(old(tree.w), block')
      ensures block' + size != End(x) ==> CheckMagic(tree.w, block')
    {
      CutIsGap(x.addr + 8, align);
      ghost var w0, g := tree.w, Gap(x.addr + 8, align);
      block', L' := AlignFront(block, align, L, R, End(x));
      ghost var w1 := tree.w;
      TrimFits(x, req, align, block');
      size, R' := SplitTail(block', req, L', R, End(x));
      TrimmedRows(L, x, R, L', block', size, R', req, align);
      CarvedUser(w0, w1, tree.w, tree.w, L, R, L', R);
    }

    /** mem_alloc.c:269-271: the block that fills the gap is marked used. */
    method HandOut(block: int, size: int, ghost L: Row, ghost R: Row) returns (p: int)
      requires Open(L, R, block, block + size) && Sized(tree.w, block, size) && size % 4 == 0 && size >= MIN_BLOCK_SIZE
      modifies `row, `memUsed, tree
      ensures tree.Valid() && Heap(tree.w, Held(tree.v), row, startAddr, endAddr) && p == block + 8
      ensures row == L + [Block(block, size, false)] + R && memUsed == old(memUsed) + size
      ensures SameUser(old(tree.w), tree.w, L, R) && (CheckMagic(tree.w, block) <==> CheckMagic(old(tree.w), block))
    {
      TilesUp(L, startAddr, block);
      var w := MarkUsed(tree.w, block);
      Poke(w, L, R, block, block + size);
      FillUsed(tree.w, Held(tree.v), L, Block(block, size, false), R, startAddr, endAddr);
      memUsed := memUsed + Rd(tree.w, block + 4);
      row := L + [Block(block, size, false)] + R;
      p := block + 8;
    }

    /** mem_alloc.c:215-271: the free block x, which has left the tree, is cut and handed out. */
    method Carve(node: Ptr, req: int, align: int, ghost L: Row, ghost x: Block, ghost R: Row, ghost A: Row)
      returns (p: int, ghost u: Block)
      requires Open(L, R, x.addr, End(x)) && Stamped(tree.w, x) && Fine(x) && node == NodeOf(x) && A == L + [x] + R
      requires Coalesced(A)
      requires Tiles(A, startAddr, endAddr)
      requires align >= 1 && (align == 1 || align % 4 == 0) && MIN_BLOCK_SIZE <= req && req % 4 == 0
      requires Fits(x, req, align)
      requires memUsed == Used(A)
      modifies `row, `memUsed, tree
      ensures tree.Valid() && Heap(tree.w, Held(tree.v), row, startAddr, endAddr) && memUsed == Used(row)
      ensures Handed(A, row, u, p, req, align) && SameUser(old(tree.w), tree.w, L, R)
      ensures CutOut(A, row, x, u, req, align)
      ensures CheckMagic(tree.w, u.addr) <==> u.addr == x.addr || End(u) != End(x) || CheckMagic(old(tree.w), u.addr)
    {
      FreeBetween(L, x, R);
      ghost var w0 := tree.w;
      var block, size;
      ghost var L', R';
      block, size, L', R' := Trim(node - 4, req, align, L, x, R);
      ghost var w1 := tree.w;
      u := Block(block, size, false);
      p := Deliver(block, size, L, x, R, A, L', u, R', req, align);
      CarvedUser(w0, w1, w1, tree.w, L, R, L', R');
    }

    /** mem_alloc.c:269-271 for the block u that was cut from x. */
    method Deliver(block: int, size: int, ghost L: Row, ghost x: Block, ghost R: Row, ghost A: Row,
                   ghost L': Row, ghost u: Block, ghost R': Row, ghost req: int, ghost align: int)
      returns (p: int)
      requires align >= 1 && req >= MIN_BLOCK_SIZE && A == L + [x] + R && Tiles(A, startAddr, endAddr)
      requires Trimmed(L, x, R, L', u, R', req, align) && u == Block(block, size, false) && memUsed == Used(A)
      requires Open(L', R', block, block + size) && Sized(tree.w, block, size)
      modifies `row, `memUsed, tree
      ensures tree.Valid() && Heap(tree.w, Held(tree.v), row, startAddr, endAddr) && memUsed == Used(row)
      ensures Handed(A, row, u, p, req, align) && CutOut(A, row, x, u, req, align)
      ensures SameUser(old(tree.w), tree.w, L', R') && (CheckMagic(tree.w, block) <==> CheckMagic(old(tree.w), block))
    {
      p := HandOut(block, size, L', R');
      CarvedRows(A, row, L, x, R, L', u, R', startAddr, endAddr);
    }

    // ---------------------------------------------------------------- alloc

    /** mem_alloc.c:162-165: the best fit leaves the tree. */
    method TakeBest(req: int, align: int) returns (node: Ptr, ghost L: Row, ghost x: Block, ghost R: Row)
      requires Valid() && MIN_BLOCK_SIZE <= req < TOP && 1 <= align <= TOP - MIN_BLOCK_SIZE && Clean(row, req, align)
      modifies tree
      ensures node == NULL ==>
                && tree.Valid() && Heap(tree.w, Held(tree.v), row, startAddr, endAddr)
                && SameUser(old(tree.w), tree.w, row, [])
                && !Ample(row, req, align)
      ensures node != NULL ==>
                && row == L + [x] + R && Fits(x, req, align) && node == NodeOf(x) && Fine(x)
                && Open(L, R, x.addr, End(x)) && Stamped(tree.w, x) && SameUser(old(tree.w), tree.w, L, R)
                && (align == 1 ==> BestOf(row, req, x)) && SameWithin(old(tree.w), tree.w, x.addr + 20, End(x))
    {
      ghost var w0, held, K := tree.w, Held(tree.v), tree.v.Keys;
      L, x, R := [], Block(0, 0, true), [];
      OldNodes(K);
      SizesBounded(row, startAddr, endAddr);
      ghost var found;
      node, found := tree.Remove(Fit(req, align));
      if node == NULL {
        TreeKeeps(w0, tree.w, K, held, row, [], startAddr, endAddr, endAddr, endAddr);
        NotFoundNotAmple(held, row, req, align);
        assert held - {NULL} == held by { NullNotHeld(held, row, startAddr, endAddr); }
      } else {
        x := ListedBlock(held, row, [], startAddr, endAddr, endAddr, endAddr, node);
        FoundFits(held, row, req, align, node, x);
        L, R := FindBlock(row, x);
        TakenOut(w0, tree.w, K, held, Held(tree.v), L, x, R, startAddr, endAddr);
        InsideKept(w0, tree.w, K, held, row, startAddr, endAddr, x);
        if align == 1 {
          BestIsLeast(held, row, req, node, x);
          GapOne(x.addr + 8);
        }
      }
    }

    /** mem_alloc.c:215-271 for the block that best fit has taken out; w0 is the memory before that. */
    method Serve(node: Ptr, req: int, align: int, ghost L: Row, ghost x: Block, ghost R: Row, ghost w0: Words)
      returns (p: int, ghost u: Block)
      requires Open(L, R, x.addr, End(x)) && Stamped(tree.w, x) && Fine(x) && node == NodeOf(x) && row == L + [x] + R
      requires Coalesced(row) && Tiles(row, startAddr, endAddr) && memUsed == Used(row) && SameUser(w0, tree.w, L, R)
      requires align >= 1 && (align == 1 || align % 4 == 0) && MIN_BLOCK_SIZE <= req && req % 4 == 0
      requires Fits(x, req, align)
      modifies `row, `memUsed, tree
      ensures tree.Valid() && Heap(tree.w, Held(tree.v), row, startAddr, endAddr) && memUsed == Used(row)
      ensures Handed(old(row), row, u, p, req, align) && SameUser(w0, tree.w, old(row), [])
      ensures CutOut(old(row), row, x, u, req, align)
      ensures CheckMagic(tree.w, u.addr) <==> u.addr == x.addr || End(u) != End(x) || CheckMagic(old(tree.w), u.addr)
    {
      ghost var w1 := tree.w;
      p, u := Carve(node, req, align, L, x, R, row);
      SameUserTrans(w0, w1, tree.w, L, R);
      SameUserFree(w0, tree.w, L, x, R);
    }

    /** mem_alloc.c:157-272 */
    method Alloc(size: int, alignment: int) returns (p: int, ghost u: Block, ghost x: Block, ghost B: Row)
      requires Valid() && 0 <= size <= TOP - 20 && 0 <= alignment <= TOP - MIN_BLOCK_SIZE
      requires alignment <= 1 || alignment % 4 == 0
      requires Serviceable(row, startAddr, endAddr, maxSize, BlockSize(size), Effective(alignment))
      modifies `row, `memUsed, `endAddr, tree
      ensures Valid()
      ensures Handed(old(row), row, u, p, BlockSize(size), Effective(alignment))
      ensures SameUser(old(tree.w), tree.w, old(row), [])
      ensures CutOut(B, row, x, u, BlockSize(size), Effective(alignment))
      ensures BlockSize(size) <= u.size < BlockSize(size) + MIN_BLOCK_SIZE
      ensures (u.size > BlockSize(size) ==> End(u) == End(x))
      ensures Planned(old(row), old(endAddr), B, endAddr, BlockSize(size), Effective(alignment), x)
      ensures Signed(tree.w, old(tree.w), x, u, Effective(alignment), endAddr == old(endAddr))
      ensures endAddr == old(endAddr) || old(endAddr) < endAddr <= startAddr + maxSize
    {
      BlockSizeHolds(size);
      var requested := BlockSize(size);
      var align := Effective(alignment);
      p, u, x, B := AllocBlock(requested, align);
    }

    /** mem_alloc.c:170-209 within alloc: the larger heap can still serve the request. */
    method GrowFor(req: int, align: int)
      requires Valid() && MIN_BLOCK_SIZE <= req && align >= 1
      requires Serviceable(row, startAddr, endAddr, maxSize, req, align) && !Ample(row, req, align)
      modifies `endAddr, `row, tree
      ensures Valid() && old(endAddr) < endAddr <= startAddr + maxSize && row == Grown(old(row), old(endAddr), endAddr)
      ensures Serviceable(row, startAddr, endAddr, maxSize, req, align)
      ensures forall B, e, x {:trigger Planned(row, endAddr, B, e, req, align, x)} ::
                Planned(row, endAddr, B, e, req, align, x) ==> Planned(old(row), old(endAddr), B, e, req, align, x)
      ensures SameUser(old(tree.w), tree.w, old(row), [])
    {
      ServiceableStep(row, startAddr, endAddr, maxSize, req, align);
      ghost var A, e := row, endAddr;
      Grow(req);
      assert row == Grown(A, e, CeilPage(e + req));
      if align == 1 { GrownAmple(A, startAddr, e, req); }
      PlannedLater(A, e, row, endAddr, req, align);
    }

    /** mem_alloc.c:162-272; the recursion of alloc finds the same requested size and alignment again. */
    method AllocBlock(requested: int, align: int) returns (p: int, ghost u: Block, ghost x: Block, ghost B: Row)
      requires Valid() && MIN_BLOCK_SIZE <= requested < TOP && requested % 4 == 0 && 1 <= align <= TOP - MIN_BLOCK_SIZE
      requires align == 1 || align % 4 == 0
      requires Serviceable(row, startAddr, endAddr, maxSize, requested, align)
      modifies `row, `memUsed, `endAddr, tree
      ensures Valid() && Handed(old(row), row, u, p, requested, align)
      ensures SameUser(old(tree.w), tree.w, old(row), [])
      ensures CutOut(B, row, x, u, requested, align)
      ensures Planned(old(row), old(endAddr), B, endAddr, requested, align, x)
      ensures Signed(tree.w, old(tree.w), x, u, align, endAddr == old(endAddr))
      ensures endAddr == old(endAddr) || old(endAddr) < endAddr <= startAddr + maxSize
      decreases startAddr + maxSize - endAddr, 1
    {
      ghost var A, e, w0 := row, endAddr, tree.w;
      var node;
      ghost var L, R;
      node, L, x, R := TakeBest(requested, align);
      if node == NULL {
        p, u, x, B := Retry(requested, align, w0);
      } else {
        PlannedNow(A, e, requested, align, x);
        B := A;
        ghost var w1 := tree.w;
        p, u := Serve(node, requested, align, L, x, R, w0);
        SignedNow(w0, w1, tree.w, x, u, requested, align);
      }
    }

    /** mem_alloc.c:167-213: the heap grows, and alloc starts again; w0 is the memory before the search. */
    method Retry(requested: int, align: int, ghost w0: Words)
      returns (p: int, ghost u: Block, ghost x: Block, ghost B: Row)
      requires Valid() && MIN_BLOCK_SIZE <= requested < TOP && requested % 4 == 0 && 1 <= align <= TOP - MIN_BLOCK_SIZE
      requires align == 1 || align % 4 == 0
      requires Serviceable(row, startAddr, endAddr, maxSize, requested, align) && !Ample(row, requested, align)
      requires SameUser(w0, tree.w, row, [])
      modifies `row, `memUsed, `endAddr, tree
      ensures Valid() && Handed(old(row), row, u, p, requested, align)
      ensures SameUser(w0, tree.w, old(row), [])
      ensures CutOut(B, row, x, u, requested, align)
      ensures Planned(old(row), old(endAddr), B, endAddr, requested, align, x)
      ensures Signed(tree.w, w0, x, u, align, false)
      ensures old(endAddr) < endAddr <= startAddr + maxSize
      decreases startAddr + maxSize - endAddr, 0
    {
      ghost var A, e, w1 := row, endAddr, tree.w;
      GrowFor(requested, align);
      ghost var w2, e2 := tree.w, endAddr;
      p, u, x, B := AllocBlock(requested, align);
      AfterGrowing(w0, w1, w2, tree.w, A, e, e2);
    }

    /**
     mem_alloc.c:162-179 without alignment: the search, and the hole if it fails.  The heap around the block taken,
     or around the new hole, is intact exactly when the request can be met (see `ServiceableUnaligned`).
     */
    method FirstPass(req: int) returns (node: Ptr, ghost L: Row, ghost x: Block, ghost R: Row)
      requires Valid() && MIN_BLOCK_SIZE <= req < TOP
      modifies `endAddr, tree
      ensures node != NULL <==> Ample(row, req, 1)
      ensures (if node != NULL then Open(L, R, x.addr, End(x)) else Open(row, [], old(endAddr), endAddr)) <==>
                Ample(row, req, 1) || CeilPage(old(endAddr) + req) <= startAddr + maxSize
      ensures !Ample(row, req, 1) && CeilPage(old(endAddr) + req) > startAddr + maxSize ==>
                tree.Valid() && endAddr == old(endAddr) && (row != [] ==> !Stamped(tree.w, row[|row| - 1]))
    {
      UnalignedClean(row, req);
      node, L, x, R := TakeBest(req, 1);
      if node == NULL {
        var oldEnd := MakeHole(req);
      } else {
        PlannedNow(row, endAddr, req, 1, x);
        UnalignedAmple(row, req);
      }
    }

    // ---------------------------------------------------------------- free

    /** mem_alloc.c:297-313 */
    method MergeRight(block: int, ghost L: Row, ghost R: Row, ghost m2: int) returns (ghost m2': int)
      requires Open(L, R, block, m2) && Stamped(tree.w, Block(block, m2 - block, true)) && m2 - block >= MIN_BLOCK_SIZE
      modifies tree
      ensures m2' == (if R != [] && R[0].free then End(R[0]) else m2) && m2 <= m2'
      ensures Open(L, RestRight(R), block, m2') && Stamped(tree.w, Block(block, m2' - block, true))
      ensures SameUser(old(tree.w), tree.w, L, R)
    {
      m2' := m2;
      RightHeader(tree.w, Held(tree.v), L, R, startAddr, block, m2, endAddr);
      var size := Rd(tree.w, block + 4);
      var neighbour := block + size;
      if neighbour < endAddr {
        var nsize := Rd(tree.w, neighbour + 4);
        if neighbour + nsize <= endAddr && CheckMagic(tree.w, neighbour)
           && CheckMagic(tree.w, neighbour + nsize - 8) && IsFree(tree.w, neighbour) {
          m2' := AbsorbRight(block, size, neighbour, nsize, L, R[0], R[1..], m2);
          SameUserRight(old(tree.w), tree.w, L, R[0], R[1..]);
        }
      }
    }

    /** mem_alloc.c:304-312 */
    method AbsorbRight(block: int, size: int, neighbour: int, nsize: int, ghost L: Row, ghost x: Block, ghost R: Row,
                       ghost m2: int)
      returns (ghost m2': int)
      requires Open(L, [x] + R, block, m2) && Stamped(tree.w, Block(block, m2 - block, true))
      requires m2 - block >= MIN_BLOCK_SIZE
      requires x.free && neighbour == x.addr && nsize == x.size && size == m2 - block
      modifies tree
      ensures m2' == End(x) && m2 <= m2' && Open(L, R, block, m2') && Stamped(tree.w, Block(block, m2' - block, true))
      ensures SameUser(old(tree.w), tree.w, L, R)
    {
      ghost var w0 := tree.w;
      var node := TakeFromRight(neighbour + 4, nsize, L, x, R, block, m2);
      SizedKept(w0, tree.w, block, size);
      m2' := End(x);
      var w := Restamp(tree.w, block, size + nsize);
      Poke(w, L, R, block, m2');
    }

    /** mem_alloc.c:315-333 */
    method MergeLeft(block: int, ghost L: Row, ghost R: Row, ghost m2: int) returns (block': int)
      requires Open(L, R, block, m2) && Stamped(tree.w, Block(block, m2 - block, true)) && m2 - block >= MIN_BLOCK_SIZE
      modifies tree
      ensures block' == (if L != [] && L[|L| - 1].free then L[|L| - 1].addr else block) && block' <= block
      ensures Open(RestLeft(L), R, block', m2) && Stamped(tree.w, Block(block', m2 - block', true))
      ensures SameUser(old(tree.w), tree.w, L, R)
    {
      block' := block;
      LeftFooter(tree.w, Held(tree.v), L, R, startAddr, block, m2, endAddr);
      if FreeAtLeft(tree.w, startAddr, block) {
        ghost var L0, x := L[..|L| - 1], L[|L| - 1];
        block' := AbsorbLeft(block, Rd(tree.w, block - 4), L0, x, R, m2);
        SameUserLeft(old(tree.w), tree.w, L0, x, R);
      }
    }

    /** mem_alloc.c:322-332 */
    method AbsorbLeft(block: int, neighbour: int, ghost L: Row, ghost x: Block, ghost R: Row, ghost m2: int)
      returns (block': int)
      requires Open(L + [x], R, block, m2) && Stamped(tree.w, Block(block, m2 - block, true))
      requires m2 - block >= MIN_BLOCK_SIZE
      requires x.free && neighbour == x.addr
      modifies tree
      ensures block' == x.addr && block' <= block && Open(L, R, block', m2)
      ensures Stamped(tree.w, Block(block', m2 - block', true))
      ensures SameUser(old(tree.w), tree.w, L, R)
    {
      ghost var w0 := tree.w;
      assert x in L + [x] && Stamped(tree.w, x);
      var node := TakeFromLeft(neighbour + 4, Rd(tree.w, neighbour + 4), L, x, R, block, m2);
      SizedKept(w0, tree.w, block, m2 - block);
      block' := neighbour;
      var w := Restamp(tree.w, neighbour, Rd(tree.w, neighbour + 4) + Rd(tree.w, block + 4));
      Poke(w, L, R, block', m2);
    }

    /** mem_alloc.c:339-355: the merged block reaches the end of the heap, which gives pages back. */
    method ContractBlock(block: int, ghost L: Row) returns (insert: bool)
      requires Open(L, [], block, endAddr) && Stamped(tree.w, Block(block, endAddr - block, true))
      requires endAddr - block >= MIN_BLOCK_SIZE
      requires endAddr % FRAME_SIZE == 0 && endAddr - startAddr > minSize
      requires var rest := Shrunk(block, startAddr, endAddr, minSize) - block; rest == 0 || rest >= MIN_BLOCK_SIZE
      modifies `endAddr, tree
      ensures endAddr == Shrunk(block, startAddr, old(endAddr), minSize) && endAddr % FRAME_SIZE == 0
      ensures block <= endAddr
      ensures insert <==> endAddr != block
      ensures Open(L, [], block, endAddr) && SameUser(old(tree.w), tree.w, L, [])
      ensures insert ==> endAddr - block >= MIN_BLOCK_SIZE && Stamped(tree.w, Block(block, endAddr - block, true))
    {
      TilesUp(L, startAddr, block);
      ShrunkBounds(block, startAddr, endAddr, minSize);
      var blockSize := Rd(tree.w, block + 4);
      var oldEnd := endAddr;
      ghost var held := Held(tree.v);
      var newEnd := Contract(block);
      Pages(endAddr);
      MoveEnd(tree.w, held, L, startAddr, block, oldEnd, endAddr);
      var removed := oldEnd - newEnd;
      insert := blockSize - removed > 0;
      if insert {
        var w := Shorten(tree.w, block, blockSize - removed);
        Poke(w, L, [], block, endAddr);
      }
    }

    /** mem_alloc.c:335-360 */
    method GiveBack(block: int, ghost L: Row, ghost R: Row, ghost m2: int) returns (ghost e: int)
      requires Open(L, R, block, m2) && Stamped(tree.w, Block(block, m2 - block, true)) && m2 - block >= MIN_BLOCK_SIZE
      requires (L != [] ==> !L[|L| - 1].free) && (R != [] ==> !R[0].free)
      requires endAddr % FRAME_SIZE == 0
      requires m2 == endAddr && endAddr - startAddr > minSize ==>
                 var rest := Shrunk(block, startAddr, endAddr, minSize) - block; rest == 0 || rest >= MIN_BLOCK_SIZE
      modifies `endAddr, `row, tree
      ensures endAddr == if m2 == old(endAddr) && old(endAddr) - startAddr > minSize
                         then Shrunk(block, startAddr, old(endAddr), minSize) else old(endAddr)
      ensures endAddr % FRAME_SIZE == 0
      ensures tree.Valid() && Heap(tree.w, Held(tree.v), row, startAddr, endAddr) && SameUser(old(tree.w), tree.w, L, R)
      ensures e == if m2 == old(endAddr) && old(endAddr) - startAddr > minSize then endAddr else m2
      ensures row == L + Hole(block, e) + R
    {
      ghost var w0 := tree.w;
      var insert;
      insert, e := ContractLast(block, L, R, m2);
      ghost var w1 := tree.w;
      CloseGap(insert, block, L, R, e);
      SameUserTrans(w0, w1, tree.w, L, R);
    }

    /** mem_alloc.c:358-360 */
    method CloseGap(insert: bool, block: int, ghost L: Row, ghost R: Row, ghost e: int)
      requires Open(L, R, block, e) && (L != [] ==> !L[|L| - 1].free) && (R != [] ==> !R[0].free)
      requires if insert then e - block >= MIN_BLOCK_SIZE && Stamped(tree.w, Block(block, e - block, true))
               else e == block
      modifies `row, tree
      ensures tree.Valid() && Heap(tree.w, Held(tree.v), row, startAddr, endAddr)
      ensures row == L + Hole(block, e) + R && SameUser(old(tree.w), tree.w, L, R)
    {
      if insert {
        PutBack(block, L, R, e);
      } else {
        Join(tree.w, Held(tree.v), L, R, startAddr, e, endAddr);
        assert L + R == L + [] + R;
        row := L + R;
      }
    }

    /** mem_alloc.c:335-356: a block that reaches the end of the heap gives pages back; e is its end afterwards. */
    method ContractLast(block: int, ghost L: Row, ghost R: Row, ghost m2: int) returns (insert: bool, ghost e: int)
      requires Open(L, R, block, m2) && Stamped(tree.w, Block(block, m2 - block, true)) && m2 - block >= MIN_BLOCK_SIZE
      requires endAddr % FRAME_SIZE == 0
      requires m2 == endAddr && endAddr - startAddr > minSize ==>
                 var rest := Shrunk(block, startAddr, endAddr, minSize) - block; rest == 0 || rest >= MIN_BLOCK_SIZE
      modifies `endAddr, tree
      ensures endAddr == if m2 == old(endAddr) && old(endAddr) - startAddr > minSize
                         then Shrunk(block, startAddr, old(endAddr), minSize) else old(endAddr)
      ensures e == if m2 == old(endAddr) && old(endAddr) - startAddr > minSize then endAddr else m2
      ensures endAddr % FRAME_SIZE == 0 && Open(L, R, block, e) && SameUser(old(tree.w), tree.w, L, R)
      ensures if insert then e - block >= MIN_BLOCK_SIZE && Stamped(tree.w, Block(block, e - block, true))
              else e == block
    {
      insert, e := true, m2;
      TilesUp(L, startAddr, block);
      var footer := block + Rd(tree.w, block + 4) - 8;
      if footer + 8 == endAddr && endAddr - startAddr > minSize {
        assert R == [] by { TilesUp(R, m2, endAddr); }
        insert := ContractBlock(block, L);
        e := endAddr;
      }
    }

    /** mem_alloc.c:358: the block that fills the gap joins the tree. */
    method PutBack(block: int, ghost L: Row, ghost R: Row, ghost m2: int)
      requires Open(L, R, block, m2) && Stamped(tree.w, Block(block, m2 - block, true)) && m2 - block >= MIN_BLOCK_SIZE
      requires (L != [] ==> !L[|L| - 1].free) && (R != [] ==> !R[0].free)
      modifies `row, tree
      ensures tree.Valid() && Heap(tree.w, Held(tree.v), row, startAddr, endAddr) && SameUser(old(tree.w), tree.w, L, R)
      ensures row == L + [Block(block, m2 - block, true)] + R
    {
      TilesUp(L, startAddr, block);
      ghost var x := Block(block, m2 - block, true);
      var ok := PutAtLeft(block + 4, L, x, R, block, m2);
      Join(tree.w, Held(tree.v), L + [x], R, startAddr, m2, endAddr);
      row := L + [x] + R;
    }

    /** mem_alloc.c:291-295: the block in use becomes a gap. */
    method Vacate(block: int, ghost L: Row, ghost b: Block, ghost R: Row)
      requires tree.Valid() && Heap(tree.w, Held(tree.v), L + [b] + R, startAddr, endAddr) && !b.free
      requires block == b.addr && CheckMagic(tree.w, block)
      modifies `memUsed, tree`w
      ensures memUsed == old(memUsed) - b.size && Fine(b)
      ensures Open(L, R, block, End(b)) && Stamped(tree.w, Block(block, b.size, true))
      ensures SameUser(old(tree.w), tree.w, L, R)
    {
      OpenUsed(tree.w, Held(tree.v), L, b, R, startAddr, endAddr);
      var w := MarkFree(tree.w, block);
      Poke(w, L, R, block, End(b));
      memUsed := memUsed - Rd(tree.w, block + 4);
    }

    /** mem_alloc.c:291-333: the gap takes in the free blocks on both sides. */
    method Merge(block: int, ghost L: Row, ghost b: Block, ghost R: Row) returns (block': int)
      requires tree.Valid() && Heap(tree.w, Held(tree.v), L + [b] + R, startAddr, endAddr) && !b.free
      requires block == b.addr && CheckMagic(tree.w, block)
      modifies `memUsed, tree
      ensures block' == MergedStart(L, b) && MergedEnd(b, R) - block' >= MIN_BLOCK_SIZE
      ensures memUsed == old(memUsed) - b.size
      ensures Open(RestLeft(L), RestRight(R), block', MergedEnd(b, R))
      ensures Stamped(tree.w, Block(block', MergedEnd(b, R) - block', true))
      ensures SameUser(old(tree.w), tree.w, L, R)
      ensures RestLeft(L) != [] ==> !RestLeft(L)[|RestLeft(L)| - 1].free
      ensures RestRight(R) != [] ==> !RestRight(R)[0].free
    {
      ghost var w0 := tree.w;
      Vacate(block, L, b, R);
      ghost var w1 := tree.w;
      MergedEnds(L, b, R);
      block' := MergeBoth(block, L, b, R);
      SameUserTrans(w0, w1, tree.w, L, R);
    }

    /** mem_alloc.c:297-333 */
    method MergeBoth(block: int, ghost L: Row, ghost b: Block, ghost R: Row) returns (block': int)
      requires Open(L, R, block, End(b)) && Fine(b) && block == b.addr && Stamped(tree.w, Block(block, b.size, true))
      modifies tree
      ensures block' == MergedStart(L, b) <= block && End(b) <= MergedEnd(b, R)
      ensures Open(RestLeft(L), RestRight(R), block', MergedEnd(b, R))
      ensures Stamped(tree.w, Block(block', MergedEnd(b, R) - block', true))
      ensures SameUser(old(tree.w), tree.w, L, R)
    {
      ghost var w1, e := tree.w, MergedEnd(b, R);
      ghost var m2 := MergeRight(block, L, R, End(b));
      assert m2 == e;
      ghost var w2 := tree.w;
      block' := MergeLeft(block, L, RestRight(R), e);
      MergedUser(w1, w2, w2, tree.w, L, R);
    }

    /** mem_alloc.c:274-361; i is the place of the block in the row. */
    method Free(p: int, ghost i: int)
      requires Valid()
      requires p != NULL ==> 0 <= i < |row| && row[i].addr == p - 8 && (row[i].free || CheckMagic(tree.w, row[i].addr))
      requires p != NULL && !row[i].free ==> CutsWell(row[..i], row[i], row[i + 1..], startAddr, endAddr, minSize)
      modifies `row, `memUsed, `endAddr, tree
      ensures Valid()
      ensures p == NULL || old(row)[i].free ==> row == old(row) && tree.w == old(tree.w) && endAddr == old(endAddr)
      ensures p != NULL && !old(row)[i].free ==>
                var L, b, R := old(row)[..i], old(row)[i], old(row)[i + 1..];
                && row == RowAfterFree(L, b, R, startAddr, old(endAddr), minSize)
                && endAddr == EndAfterFree(L, b, R, startAddr, old(endAddr), minSize)
                && (if MergedEnd(b, R) == old(endAddr) && old(endAddr) - startAddr > minSize
                    then LastStop(endAddr, old(endAddr), Larger(CeilPage(MergedStart(L, b)), startAddr + minSize))
                    else endAddr == old(endAddr))
                && Live(row) == Live(old(row)) - {b}
                && SameUser(old(tree.w), tree.w, L, R)
    {
      if p == NULL {
        return;
      }
      var block := p - 8;
      ghost var L, b, R := row[..i], row[i], row[i + 1..];
      assert row == L + [b] + R;
      assert b in row && Stamped(tree.w, b);
      if IsFree(tree.w, block) {
        return;
      }
      ShrunkStops(MergedStart(L, b), startAddr, endAddr, minSize);
      Release(block, L, b, R);
    }

    /** Before a call of free: whether the tags in memory say that contraction will leave no splinter. */
    method CanFree(p: int, ghost L: Row, ghost b: Block, ghost R: Row) returns (ok: bool)
      requires Valid() && row == L + [b] + R && !b.free && p == b.addr + 8
      ensures ok <==> CutsWell(L, b, R, startAddr, endAddr, minSize)
    {
      var block, end := MergedBounds(tree.w, startAddr, endAddr, p - 8, Held(tree.v), L, b, R);
      ok := true;
      if end == endAddr && endAddr - startAddr > minSize {
        var rest := Shrunk(block, startAddr, endAddr, minSize) - block;
        ok := rest == 0 || rest >= MIN_BLOCK_SIZE;
      }
    }

    /** The user of a block stores a word between its tags. */
    method UserStore(a: int, val: int, ghost L: Row, ghost b: Block, ghost R: Row)
      requires Valid() && row == L + [b] + R && !b.free && b.addr + 8 <= a < End(b) - 8 && a % 4 == 0
      modifies tree`w
      ensures Valid() && tree.w == old(tree.w)[a := val]
    {
      StoreInside(tree.w, Held(tree.v), L, b, R, startAddr, endAddr, a, val);
      OldNodes(tree.v.Keys);
      GapApart(tree.w, tree.w[a := val], tree.v, Held(tree.v), L, R, startAddr, b.addr, End(b), endAddr);
      SetWords(tree.w[a := val]);
    }

    /** mem_alloc.c:403-406 */
    method MemUsed() returns (n: int)
      requires Valid()
      ensures n == Used(row)
    {
      n := memUsed;
    }

    /** mem_alloc.c:408-411 */
    method MemFree() returns (n: int)
      requires Valid()
      ensures n == Unused(row)
    {
      UsedPlusUnused(row, startAddr, endAddr);
      n := endAddr - startAddr - memUsed;
    }

    /** mem_alloc.c:291-360 */
    method Release(block: int, ghost L: Row, ghost b: Block, ghost R: Row)
      requires Valid() && row == L + [b] + R && !b.free && block == b.addr && CheckMagic(tree.w, block)
      requires CutsWell(L, b, R, startAddr, endAddr, minSize)
      modifies `memUsed, `endAddr, `row, tree
      ensures Valid()
      ensures row == RowAfterFree(L, b, R, startAddr, old(endAddr), minSize)
      ensures endAddr == EndAfterFree(L, b, R, startAddr, old(endAddr), minSize)
      ensures Live(row) == Live(old(row)) - {b} && SameUser(old(tree.w), tree.w, L, R)
    {
      ghost var w0 := tree.w;
      var block' := Merge(block, L, b, R);
      ghost var w1 := tree.w;
      ghost var e := GiveBack(block', RestLeft(L), RestRight(R), MergedEnd(b, R));
      MergedUser(w0, w1, w1, tree.w, L, R);
      FreedRow(L, b, R, Hole(block', e), startAddr, old(endAddr));
      FreedIs(L, b, R, e, startAddr, old(endAddr), endAddr, minSize);
    }
  }

  /** The heap's own tags survive a user's store. */
  lemma StoreInside(w: Words, held: map<Ptr, int>, L: Row, b: Block, R: Row, lo: int, hi: int, a: int, val: int)
    requires Heap(w, held, L + [b] + R, lo, hi) && !b.free && b.addr + 8 <= a && a < End(b) - 8 && a % 4 == 0
    ensures Heap(w[a := val], held, L + [b] + R, lo, hi)
    ensures SameOutside(w, w[a := val], b.addr, End(b)) && Gapped(w, held, L, R, lo, b.addr, End(b), hi)
  {
    var w' := w[a := val];
    OpenUsed(w, held, L, b, R, lo, hi);
    WriteInGap(w, w', held, L, R, lo, b.addr, End(b), hi);
    StampKept(w, w', b);
    FillUsed(w', held, L, b, R, lo, hi);
  }

  /** Before the first hole there are no blocks, and the gap is the whole heap. */
  lemma NoBlocks(w: Words, held: map<Ptr, int>, lo: int, hi: int)
    requires held == map[] && Rd(w, lo - 4) < lo && FLOOR <= lo && lo % 4 == 0 && hi % 4 == 0 && lo <= hi < TOP
    ensures Gapped(w, held, [], [], lo, lo, hi, hi)
  {
  }

  /** From the tags: where the block would start and end once its free neighbours are merged into it. */
  method MergedBounds(w: Words, lo: int, hi: int, block: int, ghost held: map<Ptr, int>, ghost L: Row, ghost b: Block,
                      ghost R: Row)
    returns (start: int, end: int)
    requires Heap(w, held, L + [b] + R, lo, hi) && !b.free && block == b.addr
    ensures start == MergedStart(L, b) && end == MergedEnd(b, R)
  {
    OpenUsed(w, held, L, b, R, lo, hi);
    RightHeader(w, held, L, R, lo, b.addr, End(b), hi);
    LeftFooter(w, held, L, R, lo, b.addr, End(b), hi);
    start, end := block, block + Rd(w, block + 4);
    if end < hi {
      var size := Rd(w, end + 4);
      if CheckMagic(w, end) && CheckMagic(w, end + size - 8) && IsFree(w, end) {
        end := end + size;
      }
    }
    if FreeAtLeft(w, lo, block) {
      start := Rd(w, block - 4);
    }
  }

  lemma GrownMerged(A: Row, L: Row, x: Block, e: int, e': int)
    requires A != [] && L == A[..|A| - 1] && x == A[|A| - 1] && x.free
    ensures A == L + [x] && Grown(A, e, e') == L + [Block(x.addr, x.size + (e' - e), true)]
  {
  }

  lemma SameUserLast(w: Words, w': Words, A: Row, L: Row, x: Block)
    requires SameUser(w, w', L, []) && x.free && A == L + [x]
    ensures SameUser(w, w', A, [])
  {
    SameUserFree(w, w', L, x, []);
    assert L + [x] + [] == A;
  }

  lemma HoleSize(e: int, e': int, req: int, limit: int)
    requires e % FRAME_SIZE == 0 && MIN_BLOCK_SIZE <= req
    requires e' == if e + req <= e || CeilPage(e + req) > limit then e else CeilPage(e + req)
    ensures e' % FRAME_SIZE == 0 && e' % 4 == 0 && (e' == e || e + MIN_BLOCK_SIZE <= e')
    ensures e < e' <==> CeilPage(e + req) <= limit
  {
    Pages(e + req);
    Pages(e');
  }

  lemma InnerWords(w: Words, w1: Words, w2: Words, lo: int, hi: int)
    requires OnlyWords(w, w1, lo, lo + 4, hi - 8, hi - 4) && SameWithin(w1, w2, lo + 20, hi)
    ensures SameWithin(w, w2, lo + 20, hi - 8)
  {
    forall a | lo + 20 <= a < hi - 8 ensures Rd(w2, a) == Rd(w, a) { assert Rd(w1, a) == Rd(w, a); }
  }

  /** What the tags of the hole [hi, hi') do to a heap that ends at hi. */
  lemma HoleWritten(w: Words, w': Words, v: Nodes, held: map<Ptr, int>, A: Row, lo: int, hi: int, hi': int)
    requires Heap(w, held, A, lo, hi) && hi' % 4 == 0 && hi' < TOP && (hi' == hi || hi + MIN_BLOCK_SIZE <= hi')
    requires OnlyWords(w, w', hi, hi + 4, hi' - 8, hi' - 4) && Sized(w', hi, hi' - hi)
    requires forall x {:trigger x in v} :: x in v && x != HEAD ==> x in held
    ensures SameNodes(w, w', v)
    ensures Gapped(w', held, A, [], lo, hi, hi', hi') <==> hi < hi'
    ensures hi < hi' ==> SameUser(w, w', A, [])
    ensures hi == hi' && A != [] ==> !Stamped(w', A[|A| - 1])
  {
    if hi < hi' {
      MoveEnd(w, held, A, lo, hi, hi, hi');
      GapApart(w, w', v, held, A, [], lo, hi, hi', hi');
      WriteInGap(w, w', held, A, [], lo, hi, hi', hi');
    } else {
      forall x | x in v && x != HEAD
        ensures Rd(w', x) == Rd(w, x) && Rd(w', x + 4) == Rd(w, x + 4) && Rd(w', x + 8) == Rd(w, x + 8)
        ensures Rd(w', x + 12) == Rd(w, x + 12)
      {
        var c := ListedBlock(held, A, [], lo, hi, hi, hi, x);
      }
      FooterLost(w', A, lo, hi);
    }
  }

  /** A footer at the end of the heap that names the end itself belongs to no block. */
  lemma FooterLost(w: Words, A: Row, lo: int, hi: int)
    requires Tiles(A, lo, hi) && Rd(w, hi - 4) == hi
    ensures A != [] ==> !Stamped(w, A[|A| - 1])
    ensures A == [] ==> Rd(w, lo - 4) >= lo
  {
    if A != [] {
      var K, x := A[..|A| - 1], A[|A| - 1];
      assert A == K + [x];
      var k := TilesCut(K, [x], lo, hi);
    }
  }

  lemma NotInGap(held: map<Ptr, int>, L: Row, R: Row, lo: int, m1: int, m2: int, hi: int)
    requires Listed(held, L, R) && Tiles(L, lo, m1) && Tiles(R, m2, hi)
    ensures forall y {:trigger y in held} :: y in held ==> y < m1 || m2 <= y
  {
    forall y | y in held ensures y < m1 || m2 <= y { var c := ListedBlock(held, L, R, lo, m1, m2, hi, y); }
  }

  lemma CoalescedEnd(L: Row, x: Block)
    requires Coalesced(L + [x]) && x.free
    ensures L != [] ==> !L[|L| - 1].free
  {
    CoalescedCat(L, [x]);
  }

  lemma UsedGrown(A: Row, e: int, e': int)
    ensures Used(Grown(A, e, e')) == Used(A)
  {
    if A != [] && A[|A| - 1].free {
      var L, x := A[..|A| - 1], A[|A| - 1];
      var y := Block(x.addr, x.size + e' - e, true);
      assert A == L + [x];
      UsedCat(L, [x]);
      UsedCat(L, [y]);
    } else {
      UsedCat(A, [Block(e, e' - e, true)]);
    }
  }

  lemma TrimFits(x: Block, req: int, align: int, block': int)
    requires align >= 1 && Fits(x, req, align) && block' == x.addr + Gap(x.addr + 8, align) && req >= MIN_BLOCK_SIZE
    ensures x.addr <= block' && block' + req <= End(x)
  {
    CutIsGap(x.addr + 8, align);
  }

  /** The rows on both sides of the trimmed block u, and what u is. */
  ghost predicate Trimmed(L: Row, x: Block, R: Row, L': Row, u: Block, R': Row, req: int, align: int)
    requires align >= 1
  {
    && Around(L, x, R, L', u, R') && CutFrom(x, u, req, align)
    && (u.addr + 8) % align == 0 && u.size % 4 == 0 && req <= u.size
  }

  lemma TrimmedRows(L: Row, x: Block, R: Row, L': Row, block': int, size: int, R': Row, req: int, align: int)
    requires align >= 1 && x.free && block' == x.addr + Gap(x.addr + 8, align) && (block' + 8) % align == 0
    requires x.addr <= block' && block' + req <= End(x) && size % 4 == 0
    requires size == if End(x) - block' - req >= MIN_BLOCK_SIZE then req else End(x) - block'
    requires L' == if block' == x.addr then L else L + [Block(x.addr, block' - x.addr, true)]
    requires R' == if size == End(x) - block' then R else [Block(block' + size, End(x) - block' - size, true)] + R
    ensures Trimmed(L, x, R, L', Block(block', size, false), R', req, align)
  {
  }

  ghost predicate Around(L: Row, x: Block, R: Row, L': Row, u: Block, R': Row) {
    && L' == (if u.addr == x.addr then L else L + [Block(x.addr, u.addr - x.addr, true)])
    && R' == (if End(u) == End(x) then R else [Block(End(u), End(x) - End(u), true)] + R)
  }

  lemma CarvedRows(A: Row, A': Row, L: Row, x: Block, R: Row, L': Row, u: Block, R': Row, lo: int, hi: int)
    requires Around(L, x, R, L', u, R') && x.free && !u.free && x.addr <= u.addr && End(u) <= End(x)
    requires A == L + [x] + R && A' == L' + [u] + R' && Tiles(A, lo, hi) && Tiles(A', lo, hi)
    ensures Live(A') == Live(A) + {u} && u !in Live(A) && u in A' && Used(A') == Used(A) + u.size
    ensures CutAt(A, A', x, u, L, R)
  {
    LiveAfter(L, x, R, L', u, R', lo, hi);
    assert A' == L + Pieces(x, u) + R;
  }

  lemma CarvedUser(w0: Words, w1: Words, w2: Words, w3: Words, L: Row, R: Row, L': Row, R': Row)
    requires SameUser(w0, w1, L, R) && (w2 == w1 || SameUser(w1, w2, L', R)) && (w3 == w2 || SameUser(w2, w3, L', R'))
    requires (L' == L || (|L'| == |L| + 1 && L'[..|L|] == L)) && (R' == R || (|R'| == |R| + 1 && R'[1..] == R))
    ensures SameUser(w0, w3, L, R)
  {
    forall b, a | (b in L || b in R) && InUser(b, a) ensures Rd(w3, a) == Rd(w0, a) {
      assert b in L ==> b in L';
      assert b in R ==> b in R';
      assert Rd(w2, a) == Rd(w1, a) && Rd(w1, a) == Rd(w0, a);
    }
  }

  lemma SizesBounded(A: Row, lo: int, hi: int)
    requires Tiles(A, lo, hi) && 0 <= lo && hi < TOP
    ensures forall b :: b in A ==> 0 <= b.size < TOP
  {
    forall b | b in A ensures 0 <= b.size < TOP { TilesIn(A, lo, hi, b); }
  }

  lemma NullNotHeld(held: map<Ptr, int>, A: Row, lo: int, hi: int)
    requires Listed(held, A, []) && Tiles(A, lo, hi) && FLOOR <= lo
    ensures NULL !in held
  {
    if NULL in held { var c := ListedBlock(held, A, [], lo, hi, hi, hi, NULL); }
  }

  /** A block that leaves the tree of a heap at rest opens the gap that it fills. */
  lemma TakenOut(w: Words, w': Words, K: set<Ptr>, held: map<Ptr, int>, held': map<Ptr, int>, L: Row, x: Block, R: Row,
                 lo: int, hi: int)
    requires Heap(w, held, L + [x] + R, lo, hi) && x.free && Nodal(K, held, hi, hi) && SameBeyond(w, w', K)
    requires held' == held - {NodeOf(x)}
    ensures Gapped(w', held', L, R, lo, x.addr, End(x), hi) && Stamped(w', x) && SameUser(w, w', L, R)
  {
    assert L + [x] + R == L + ([x] + R);
    var mid := Split(w, held, L, [x] + R, lo, hi);
    assert Nodal(K, held, mid, mid);
    TakeRight(w, w', K, held, held', L, x, R, lo, mid, mid, hi);
  }

  /** The words of a free block behind its links are not the tree's. */
  lemma InsideKept(w: Words, w': Words, K: set<Ptr>, held: map<Ptr, int>, A: Row, lo: int, hi: int, x: Block)
    requires Listed(held, A, []) && Tiles(A, lo, hi) && FLOOR <= lo && x in A && SameBeyond(w, w', K)
    requires forall y {:trigger y in K} :: y in K ==> y == HEAD || y in held
    ensures SameWithin(w, w', x.addr + 20, End(x))
  {
    TilesIn(A, lo, hi, x);
    forall a | x.addr + 20 <= a < End(x) ensures Rd(w', a) == Rd(w, a) {
      forall y | y in K ensures a < y + 4 || y + 16 <= a {
        if y in held {
          var c := ListedBlock(held, A, [], lo, hi, hi, hi, y);
          if c != x { TilesApart(A, lo, hi, c, x); }
        }
      }
      assert Beyond(K, a);
    }
  }

  lemma BestIsLeast(held: map<Ptr, int>, A: Row, req: int, r: Ptr, x: Block)
    requires Listed(held, A, []) && AnswerBest(held, req, r) && r != NULL && x in A && x.free && NodeOf(x) == r
    ensures forall b :: b in A && b.free && b.size >= req ==> x.size <= b.size
  {
    assert FreeIn(A, [], x);
    forall b | b in A && b.free && b.size >= req ensures x.size <= b.size { assert FreeIn(A, [], b); }
  }

  lemma LiveGrown(A: Row, e: int, e': int)
    ensures Live(Grown(A, e, e')) == Live(A)
  {
    if A != [] && A[|A| - 1].free {
      var L, x := A[..|A| - 1], A[|A| - 1];
      assert A == L + [x];
    }
  }

  lemma SameUserGrown(w: Words, w1: Words, w2: Words, A: Row, e: int, e': int)
    requires SameUser(w, w1, A, []) && SameUser(w1, w2, Grown(A, e, e'), [])
    ensures SameUser(w, w2, A, [])
  {
    forall b, a | b in A && InUser(b, a) ensures Rd(w2, a) == Rd(w, a) {
      LiveGrown(A, e, e');
      assert b in Live(A);
      assert b in Grown(A, e, e');
      assert Rd(w1, a) == Rd(w, a);
    }
  }

  lemma AfterGrowing(w0: Words, w1: Words, w2: Words, w3: Words, A: Row, e: int, e': int)
    requires SameUser(w0, w1, A, []) && SameUser(w1, w2, A, []) && SameUser(w2, w3, Grown(A, e, e'), [])
    ensures SameUser(w0, w3, A, []) && Live(Grown(A, e, e')) == Live(A)
  {
    SameUserTrans(w0, w1, w2, A, []);
    SameUserGrown(w0, w2, w3, A, e, e');
    LiveGrown(A, e, e');
  }

  /** A block in use can be taken as the gap between its neighbours. */
  lemma OpenUsed(w: Words, held: map<Ptr, int>, L: Row, b: Block, R: Row, lo: int, hi: int)
    requires Heap(w, held, L + [b] + R, lo, hi) && !b.free
    ensures Gapped(w, held, L, R, lo, b.addr, End(b), hi) && Stamped(w, b) && Fine(b)
  {
    var Q := [b] + R;
    assert L + [b] + R == L + Q;
    var mid := Split(w, held, L, Q, lo, hi);
    OpenFirst(w, held, L, b, R, lo, mid, hi);
  }

  lemma OpenFirst(w: Words, held: map<Ptr, int>, L: Row, b: Block, R: Row, lo: int, mid: int, hi: int)
    requires Gapped(w, held, L, [b] + R, lo, mid, mid, hi) && !b.free
    ensures Gapped(w, held, L, R, lo, b.addr, End(b), hi) && Stamped(w, b) && Fine(b)
  {
    TilesCons(b, R, mid, hi);
    TilesUp(L, lo, mid);
    assert b in [b] + R && Stamped(w, b);
    forall c | c in R ensures Stamped(w, c) { assert c in [b] + R && Stamped(w, c); }
    CoalescedCons(b, R);
    ListedDrop(held, L, b, R);
  }

  lemma ListedDrop(held: map<Ptr, int>, L: Row, b: Block, R: Row)
    requires Listed(held, L, [b] + R) && !b.free
    ensures Listed(held, L, R)
  {
    forall c | FreeIn(L, R, c) ensures NodeOf(c) in held && held[NodeOf(c)] == c.size { assert FreeIn(L, [b] + R, c); }
    forall x | x in held ensures exists c {:trigger FreeIn(L, R, c)} :: FreeIn(L, R, c) && NodeOf(c) == x {
      var c :| FreeIn(L, [b] + R, c) && NodeOf(c) == x;
      assert FreeIn(L, R, c);
    }
  }

  /** After the merge the neighbours of the gap are in use. */
  lemma MergedEnds(L: Row, b: Block, R: Row)
    requires Coalesced(L) && Coalesced(R)
    ensures RestLeft(L) != [] ==> !RestLeft(L)[|RestLeft(L)| - 1].free
    ensures RestRight(R) != [] ==> !RestRight(R)[0].free
  {
    if L != [] && L[|L| - 1].free {
      CoalescedEnd(L[..|L| - 1], L[|L| - 1]) by { assert L == L[..|L| - 1] + [L[|L| - 1]]; }
    }
  }

  lemma MergedUser(w0: Words, w1: Words, w2: Words, w3: Words, L: Row, R: Row)
    requires SameUser(w0, w1, L, R) && (w2 == w1 || SameUser(w1, w2, L, R))
    requires SameUser(w2, w3, L, RestRight(R)) || SameUser(w2, w3, RestLeft(L), RestRight(R))
    ensures SameUser(w0, w3, L, R)
  {
    forall b, a | (b in L || b in R) && InUser(b, a) ensures Rd(w3, a) == Rd(w0, a) {
      assert Rd(w2, a) == Rd(w1, a) && Rd(w1, a) == Rd(w0, a);
      assert b in R ==> b in RestRight(R);
      assert b in L ==> b in RestLeft(L) by {
        if b in L && L[|L| - 1].free {
          var k :| 0 <= k < |L| && L[k] == b;
          assert L[..|L| - 1][k] == b;
        }
      }
    }
  }

  lemma FreedIs(L: Row, b: Block, R: Row, e: int, lo: int, hi: int, hi': int, min: int)
    requires hi' == if MergedEnd(b, R) == hi && hi - lo > min then Shrunk(MergedStart(L, b), lo, hi, min) else hi
    requires e == if MergedEnd(b, R) == hi && hi - lo > min then hi' else MergedEnd(b, R)
    ensures hi' == EndAfterFree(L, b, R, lo, hi, min)
    ensures RestLeft(L) + Hole(MergedStart(L, b), e) + RestRight(R) == RowAfterFree(L, b, R, lo, hi, min)
  {
  }

  lemma FreedRow(L: Row, b: Block, R: Row, M: Row, lo: int, hi: int)
    requires Tiles(L + [b] + R, lo, hi) && !b.free && forall c :: c in M ==> c.free
    ensures var A := RestLeft(L) + M + RestRight(R);
            Live(A) == Live(L + [b] + R) - {b} && Used(A) == Used(L + [b] + R) - b.size
  {
    var A := RestLeft(L) + M + RestRight(R);
    var K := RestLeft(L);
    UsedCat(K + M, RestRight(R));
    UsedCat(K, M);
    UsedFree(M);
    UsedCat(L + [b], R);
    UsedCat(L, [b]);
    RestUsed(L, R);
    assert forall c :: c in Live(A) <==> c in Live(K) || c in Live(RestRight(R));
    assert forall c :: c in Live(L + [b] + R) <==> c == b || c in Live(L) || c in Live(R);
    Once(L, b, R, lo, hi);
  }

  lemma {:induction false} UsedFree(M: Row)
    requires forall c :: c in M ==> c.free
    ensures Used(M) == 0
  {
    if M != [] {
      assert M[0] in M;
      forall c | c in M[1..] ensures c.free { assert c in M; }
      UsedFree(M[1..]);
    }
  }

  lemma RestUsed(L: Row, R: Row)
    ensures Live(RestLeft(L)) == Live(L) && Live(RestRight(R)) == Live(R) && Used(RestLeft(L)) == Used(L)
    ensures Used(RestRight(R)) == Used(R)
  {
    if L != [] && L[|L| - 1].free {
      var K, x := L[..|L| - 1], L[|L| - 1];
      assert L == K + [x];
      UsedCat(K, [x]);
    }
    if R != [] && R[0].free {
      assert R == [R[0]] + R[1..];
    }
  }

  /** A block occurs once in a row that tiles. */
  lemma Once(L: Row, b: Block, R: Row, lo: int, hi: int)
    requires Tiles(L + [b] + R, lo, hi)
    ensures b !in L && b !in R
  {
    var P := L + [b];
    var e := TilesCut(P, R, lo, hi);
    var m := TilesCut(L, [b], lo, e);
    if b in L { TilesIn(L, lo, m, b); }
    if b in R { TilesIn(R, e, hi, b); }
  }
}
