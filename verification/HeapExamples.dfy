/**
 Heaps on which kernel/mem_alloc.c does what its callers do not expect, each reached from creation.  The
 allocator's record lies at 4096, so the first block starts at 4144.
 */
module HeapExamples {
  import opened RbShape
  import opened RbState
  import opened RbRemoveWalk
  import opened Words
  import opened Queries
  import opened Blocks
  import opened Stamps
  import opened Requests
  import opened MemAlloc

  const FIRST: int := 4144

  lemma FirstStart()
    ensures HeapStart(4096) == FIRST && FIRST % 28 == 0
  {
  }

  lemma Sizes()
    ensures BlockSize(4024) == 4040 && BlockSize(4088) == 4104 && BlockSize(5000) == 5016 && BlockSize(16320) == 16336
  {
  }

  /** One free block that fits exactly serves an aligned request. */
  lemma LoneServes(x: Block, lo: int, hi: int, max: int, req: int, align: int)
    requires x.free && align >= 1 && req >= 1 && Fits(x, req, align)
    ensures Serviceable([x], lo, hi, max, req, align) && Ample([x], req, align)
  {
    assert Biggest([x], x);
    GapLeast(x.addr + 8, align);
  }

  lemma CutLone(x: Block, A': Row, y: Block, u: Block, req: int, align: int)
    requires align >= 1 && CutOut([x], A', y, u, req, align)
    ensures y == x && A' == Pieces(x, u)
  {
    var L, R :| CutAt([x], A', y, u, L, R);
    assert |L + [y] + R| == |[x]|;
    assert L == [] && R == [];
    assert (L + [y] + R)[0] == y;
    assert [] + Pieces(x, u) + [] == Pieces(x, u);
  }

  /**
   An expansion that max_size refuses: a heap of one page, and a request for 5000 bytes.  The footer of the
   only block is lost.
   */
  method RefusedExpansion() returns (a: Allocator)
    ensures a.tree.Valid() && a.row == [Block(FIRST, 4048, true)] && a.endAddr == 8192
    ensures !Stamped(a.tree.w, a.row[0]) && !a.Valid()
  {
    a := new Allocator(map[], 0, 0, FIRST, 8192, 0, 4048);
    Sizes();
    assert CeilPage(8192 + 5016) == 16384;
    UnalignedAmple(a.row, 5016);
    ghost var last := a.row[|a.row| - 1];
    assert last == a.row[0];
    var node;
    ghost var L, x, R;
    node, L, x, R := a.FirstPass(BlockSize(5000));
    assert a.row[0] in a.row;
  }

  /**
   A block without its header magic: on a fresh heap of two pages, a request for 4088 bytes on a page boundary
   gets the end of the hole, whose header word nobody wrote.  Freeing it trips the assertion of free.
   */
  method UnsignedBlock() returns (a: Allocator, p: int)
    ensures a.Valid() && p == 8192 && Block(8184, 4104, false) in a.row && !CheckMagic(a.tree.w, p - 8)
  {
    a := TwoPages();
    ghost var x := Block(FIRST, 8144, true);
    Sizes();
    PageGap();
    LoneServes(x, FIRST, 12288, 8144, 4104, 4096);
    ghost var u, y, B;
    p, u, y, B := a.Alloc(4088, 4096);
    CutLone(x, a.row, y, u, 4104, 4096);
    assert u == Block(8184, 4104, false);
  }

  lemma PageGap()
    ensures Gap(FIRST + 8, 4096) == 4040
  {
    assert (FIRST + 8) % 4096 == 56;
    assert (4096 - 56) % 4096 == 4040;
  }

  /**
   A splinter: on a fresh heap of two pages with min_size 0, requests for 4024 and 4088 bytes fill the heap with
   blocks of 4040 and 4104 bytes.  Freeing the second one contracts the heap to 8 bytes of it.
   */
  method Splinter() returns (a: Allocator, p: int)
    ensures a.Valid() && p == 8192 && CheckMagic(a.tree.w, p - 8)
    ensures a.row == [Block(FIRST, 4040, false), Block(8184, 4104, false)]
    ensures !CutsWell(a.row[..1], a.row[1], a.row[2..], a.startAddr, a.endAddr, a.minSize)
  {
    a := Halves();
    p := SecondHalf(a);
    SplinterExample();
  }

  method TwoPages() returns (a: Allocator)
    ensures fresh(a) && fresh(a.tree) && a.Valid() && a.row == [Block(FIRST, 8144, true)]
    ensures a.startAddr == FIRST && a.endAddr == 12288 && a.minSize == 0 && a.maxSize == 8144
    ensures Rd(a.tree.w, 8184) == 0
  {
    a := new Allocator(map[], 0, 0, FIRST, 12288, 0, 8144);
    assert Rd(a.tree.w, 8184) == Rd(map[], 8184);
  }

  method Halves() returns (a: Allocator)
    ensures fresh(a) && fresh(a.tree) && a.Valid() && a.row == [Block(FIRST, 4040, false), Block(8184, 4104, true)]
    ensures a.startAddr == FIRST && a.endAddr == 12288 && a.minSize == 0 && a.maxSize == 8144
  {
    a := TwoPages();
    ghost var x := Block(FIRST, 8144, true);
    Sizes();
    GapOne(FIRST + 8);
    LoneServes(x, FIRST, 12288, 8144, 4040, 1);
    ghost var u, y, B;
    var q;
    q, u, y, B := a.Alloc(4024, 0);
    CutLone(x, a.row, y, u, 4040, 1);
  }

  method SecondHalf(a: Allocator) returns (p: int)
    requires a.Valid() && a.row == [Block(FIRST, 4040, false), Block(8184, 4104, true)]
    requires a.startAddr == FIRST && a.endAddr == 12288 && a.maxSize == 8144
    modifies a`row, a`memUsed, a`endAddr, a.tree
    ensures a.Valid() && p == 8192 && CheckMagic(a.tree.w, p - 8) && a.endAddr == 12288
    ensures a.row == [Block(FIRST, 4040, false), Block(8184, 4104, false)]
  {
    ghost var b, c := a.row[0], a.row[1];
    Sizes();
    assert a.row == [b, c];
    SecondServes(b, c, FIRST, 12288, 8144, 4104);
    ghost var u, y, B;
    p, u, y, B := a.Alloc(4088, 0);
    CutSecond(b, c, a.row, y, u, 4104);
    GapOne(c.addr + 8);
  }

  /** Contraction over several pages: a heap of four pages filled by one block falls back to one when it is freed. */
  method FreeAll() returns (a: Allocator)
    ensures a.Valid() && a.endAddr == 8192 && a.row == [Block(FIRST, 4048, true)]
  {
    a := FullHeap();
    ghost var b := a.row[0];
    assert a.row[..0] == [] && a.row[1..] == [];
    assert Shrunk(FIRST, FIRST, 20480, 0) == 8192;
    a.Free(FIRST + 8, 0);
    OneStop(a.endAddr, 8192, 20480, 8192);
    assert [] + Hole(FIRST, 8192) + [] == [Block(FIRST, 4048, true)];
  }

  method FullHeap() returns (a: Allocator)
    ensures fresh(a) && fresh(a.tree) && a.Valid() && a.row == [Block(FIRST, 16336, false)]
    ensures CheckMagic(a.tree.w, FIRST)
    ensures a.startAddr == FIRST && a.endAddr == 20480 && a.minSize == 0 && a.maxSize == 16336
  {
    a := new Allocator(map[], 0, 0, FIRST, 20480, 0, 16336);
    ghost var x := Block(FIRST, 16336, true);
    Sizes();
    GapOne(FIRST + 8);
    LoneServes(x, FIRST, 20480, 16336, 16336, 1);
    ghost var u, y, B;
    var p;
    p, u, y, B := a.Alloc(16320, 0);
    CutLone(x, a.row, y, u, 16336, 1);
  }

  lemma SecondServes(b: Block, c: Block, lo: int, hi: int, max: int, req: int)
    requires !b.free && c.free && 1 <= req <= c.size
    ensures Serviceable([b, c], lo, hi, max, req, 1) && Ample([b, c], req, 1)
  {
    assert c in [b, c];
    UnalignedClean([b, c], req);
    UnalignedAmple([b, c], req);
  }

  lemma CutSecond(b: Block, c: Block, A': Row, y: Block, u: Block, req: int)
    requires !b.free && CutOut([b, c], A', y, u, req, 1)
    ensures y == c && A' == [b] + Pieces(c, u)
  {
    var L, R :| CutAt([b, c], A', y, u, L, R);
    var i := |L|;
    assert (L + [y] + R)[i] == y;
    assert i == 1;
    assert L == [b] && R == [] by { assert L == [b, c][..1] && R == [b, c][2..]; }
    assert [b] + Pieces(c, u) + [] == [b] + Pieces(c, u);
  }
}
