/**
 Sizes, alignments and pages: the arithmetic of kernel/mem_alloc.c, and when a request can be met.
 */
module Requests {
  import opened RbShape
  import opened Queries
  import opened Blocks
  import opened Arith
  import opened RbRemoveWalk
  import opened RbTakeOut

  const FRAME_SIZE: int := 4096
  /** Header words before the user pointer, and the footer behind the data (mem_alloc.c:19, 36-40). */
  const OVERHEAD: int := 16

  // ---------------------------------------------------------------- block sizes

  function RoundedSize(size: int): int { Wrap32(size + 3) / 4 * 4 }

  /** mem_alloc.c:51-55, in 32-bit arithmetic. */
  function BlockSize(size: int): int {
    var s := RoundedSize(Wrap32(size + OVERHEAD));
    if s < MIN_BLOCK_SIZE then MIN_BLOCK_SIZE else s
  }

  /** The block is the smallest one that is large enough, exactly when the additions did not wrap around. */
  lemma BlockSizeHolds(size: int)
    requires 0 <= size < TOP
    ensures BlockSize(size) % 4 == 0 && MIN_BLOCK_SIZE <= BlockSize(size) < TOP
    ensures BlockSize(size) >= size + OVERHEAD <==> size <= TOP - 20
    ensures size <= TOP - 20 ==>
              forall k :: k % 4 == 0 && k >= MIN_BLOCK_SIZE && k >= size + OVERHEAD ==> BlockSize(size) <= k
  {
  }

  // ---------------------------------------------------------------- pages

  function FloorPage(a: int): int { a - a % FRAME_SIZE }
  /** mem_alloc.c:115-118 and 140-143. */
  function CeilPage(a: int): int { if a % FRAME_SIZE != 0 then a - a % FRAME_SIZE + FRAME_SIZE else a }

  lemma Pages(a: int)
    ensures FloorPage(a) <= a <= CeilPage(a) && a - FloorPage(a) < FRAME_SIZE && CeilPage(a) - a < FRAME_SIZE
    ensures FloorPage(a) % FRAME_SIZE == 0 && CeilPage(a) % FRAME_SIZE == 0
    ensures a % FRAME_SIZE == 0 ==> a % 4 == 0
  {
  }

  /** Where contract(m1) leaves the end of the heap (mem_alloc.c:133-155). */
  function Shrunk(m1: int, lo: int, hi: int, min: int): int {
    var t := if CeilPage(m1) - lo < min then lo + min else CeilPage(m1);
    if hi <= t then hi else FloorPage(t)
  }

  /** Contraction stays on pages, keeps the block's start, and keeps the heap above min_size less a page. */
  lemma ShrunkBounds(m1: int, lo: int, hi: int, min: int)
    requires lo <= m1 < hi && hi % FRAME_SIZE == 0 && hi - lo > min
    ensures var e := Shrunk(m1, lo, hi, min);
            m1 <= e <= hi && e % FRAME_SIZE == 0 && e - lo > min - FRAME_SIZE
  {
    Pages(m1);
    Pages(lo + min);
    if CeilPage(m1) - lo < min {
      assert FloorPage(lo + min) >= CeilPage(m1) by { FloorAbove(CeilPage(m1), lo + min); }
    }
  }

  function Larger(a: int, b: int): int { if a < b then b else a }

  /**
   A heap that ends on a page at hi and gives back whole pages from its end, as long as it ends above t, comes to
   rest at e: at hi itself, or on the one page boundary that is at most t and less than a page below it.
   */
  ghost predicate LastStop(e: int, hi: int, t: int) {
    e % FRAME_SIZE == 0 && (if hi <= t then e == hi else e <= t < e + FRAME_SIZE)
  }

  /** Contraction gives back every page above the block and min_size, and not one more. */
  lemma ShrunkStops(m1: int, lo: int, hi: int, min: int)
    requires hi % FRAME_SIZE == 0
    ensures LastStop(Shrunk(m1, lo, hi, min), hi, Larger(CeilPage(m1), lo + min))
  {
    Pages(m1);
    Pages(lo + min);
    Pages(CeilPage(m1));
  }

  /** No other end would do. */
  lemma OneStop(e: int, e': int, hi: int, t: int)
    requires LastStop(e, hi, t) && LastStop(e', hi, t)
    ensures e == e'
  {
  }

  lemma FloorAbove(p: int, t: int)
    requires p % FRAME_SIZE == 0 && p <= t
    ensures p <= FloorPage(t)
  {
  }

  // ---------------------------------------------------------------- growing the row

  /** mem_alloc.c:173-209: the new pages join the last block if that is free, or become a block. */
  function Grown(A: Row, e: int, e': int): Row {
    if A != [] && A[|A| - 1].free then A[..|A| - 1] + [Block(A[|A| - 1].addr, A[|A| - 1].size + e' - e, true)]
    else A + [Block(e, e' - e, true)]
  }

  // ---------------------------------------------------------------- which blocks meet a request

  /** The block can be cut to the alignment and still hold req bytes. */
  ghost predicate Fits(b: Block, req: int, align: int)
    requires align >= 1
  {
    b.free && Gap(b.addr + 8, align) + req <= b.size
  }

  /**
   For every free block that is large enough the verdict of `compare` means what it should: no subtraction
   wraps (mem_alloc.c:79), and blocks of one size, which share a tree node, all fit or all do not
   (rb_tree.c:235-260).
   */
  ghost predicate Clean(A: Row, req: int, align: int)
    requires align >= 1
  {
    && (forall b :: b in A && b.free && b.size >= req ==> Gap(b.addr + 8, align) <= b.size)
    && (forall b, c :: b in A && c in A && b.free && c.free && b.size == c.size >= req ==>
          (Fits(b, req, align) <==> Fits(c, req, align)))
  }

  ghost predicate Biggest(A: Row, b: Block) {
    b in A && b.free && forall c :: c in A && c.free ==> c.size <= b.size
  }

  /** The first half of `Clean` needs no look at the heap when the request is at least as large as its alignment. */
  lemma LargeIsClean(A: Row, req: int, align: int)
    requires align >= 1 && req >= align + MIN_BLOCK_SIZE - 1
    ensures forall b :: b in A && b.free && b.size >= req ==> Gap(b.addr + 8, align) <= b.size
  {
    forall b | b in A && b.free && b.size >= req ensures Gap(b.addr + 8, align) <= b.size {
      GapBelow(b.addr + 8, align);
    }
  }

  /** A largest free block fits. */
  ghost predicate Ample(A: Row, req: int, align: int)
    requires align >= 1
  {
    exists b {:trigger Biggest(A, b)} :: Biggest(A, b) && Fits(b, req, align)
  }

  /** alloc meets the request, perhaps after growing the heap some times within its limit. */
  ghost predicate Serviceable(A: Row, lo: int, hi: int, max: int, req: int, align: int)
    requires align >= 1 && req >= 1
    decreases lo + max - hi
  {
    && Clean(A, req, align)
    && (|| Ample(A, req, align)
        || var e := CeilPage(hi + req);
           e <= lo + max && hi < e && Serviceable(Grown(A, hi, e), lo, e, max, req, align))
  }

  lemma ServiceableStep(A: Row, lo: int, hi: int, max: int, req: int, align: int)
    requires align >= 1 && req >= 1 && Serviceable(A, lo, hi, max, req, align) && !Ample(A, req, align)
    ensures var e := CeilPage(hi + req); e <= lo + max && hi < e && Serviceable(Grown(A, hi, e), lo, e, max, req, align)
  {
  }

  /** With alignment 1 that is: some free block is large enough, or the limit leaves room for one expansion. */
  lemma ServiceableUnaligned(A: Row, lo: int, hi: int, max: int, req: int)
    requires req >= 1
    requires forall b :: b in A && b.free ==> b.size >= 0
    ensures Serviceable(A, lo, hi, max, req, 1) <==>
              ((exists b :: b in A && b.free && b.size >= req) || CeilPage(hi + req) <= lo + max)
    ensures Ample(A, req, 1) <==> exists b :: b in A && b.free && b.size >= req
  {
    UnalignedClean(A, req);
    UnalignedAmple(A, req);
    Pages(hi + req);
    var e := CeilPage(hi + req);
    if A != [] { assert A[|A| - 1] in A; }
    GrownHolds(A, hi, e, req);
    UnalignedClean(Grown(A, hi, e), req);
    ServiceableNow(Grown(A, hi, e), lo, e, max, req, 1);
  }

  lemma ServiceableNow(A: Row, lo: int, hi: int, max: int, req: int, align: int)
    requires align >= 1 && req >= 1 && Clean(A, req, align) && Ample(A, req, align)
    ensures Serviceable(A, lo, hi, max, req, align)
  {
  }

  /** A hole as large as the request, alone or joined to a free last block, meets it. */
  lemma GrownHolds(A: Row, e: int, e': int, req: int)
    requires req >= 1 && e + req <= e' && (A != [] && A[|A| - 1].free ==> A[|A| - 1].size >= 0)
    ensures Ample(Grown(A, e, e'), req, 1)
  {
    var A' := Grown(A, e, e');
    var g := A'[|A'| - 1];
    assert g.free && g in A' && g.size >= req;
    UnalignedAmple(A', req);
  }

  /** Without alignment one expansion is enough. */
  lemma GrownAmple(A: Row, lo: int, hi: int, req: int)
    requires req >= 1 && Tiles(A, lo, hi)
    ensures Ample(Grown(A, hi, CeilPage(hi + req)), req, 1)
  {
    Pages(hi + req);
    if A != [] { TilesIn(A, lo, hi, A[|A| - 1]); }
    GrownHolds(A, hi, CeilPage(hi + req), req);
  }

  lemma UnalignedClean(A: Row, req: int)
    requires req >= 1
    ensures Clean(A, req, 1)
  {
    forall b | b in A ensures Gap(b.addr + 8, 1) == 0 { GapOne(b.addr + 8); }
  }

  lemma UnalignedAmple(A: Row, req: int)
    requires req >= 1
    ensures Ample(A, req, 1) <==> exists b :: b in A && b.free && b.size >= req
  {
    forall b | b in A ensures Gap(b.addr + 8, 1) == 0 { GapOne(b.addr + 8); }
    if b :| b in A && b.free && b.size >= req {
      var c := LargestFree(A, b);
      assert Biggest(A, c) && Fits(c, req, 1);
    }
  }

  lemma {:induction false} LargestFree(A: Row, b: Block) returns (c: Block)
    requires b in A && b.free
    ensures c in A && c.free && forall d :: d in A && d.free ==> d.size <= c.size
  {
    var T := A[1..];
    if exists d :: d in T && d.free {
      var d :| d in T && d.free;
      c := LargestFree(T, d);
      if A[0].free && A[0].size > c.size { c := A[0]; }
    } else {
      c := A[0];
    }
  }

  // ---------------------------------------------------------------- what the search answers

  /** The node that best fit returns belongs to a block that fits. */
  lemma FoundFits(held: map<Ptr, int>, A: Row, req: int, align: int, r: Ptr, x: Block)
    requires Listed(held, A, []) && Sensible(Fit(req, align)) && AnswerFit(held, Fit(req, align), r)
    requires Clean(A, req, align)
    requires r != NULL && x in A && x.free && NodeOf(x) == r
    requires forall b :: b in A ==> 0 <= b.size < TOP
    ensures Fits(x, req, align)
  {
    var q := Fit(req, align);
    var f :| f in held && held[f] == held[r] && Verdict(q, f, held[f]) == 0;
    var c :| FreeIn(A, [], c) && NodeOf(c) == f;
    assert FreeIn(A, [], x);
    VerdictFits(c, req, align);
  }

  lemma VerdictFits(c: Block, req: int, align: int)
    requires Sensible(Fit(req, align)) && c.free && 0 <= c.size < TOP
    requires c.size >= req ==> Gap(c.addr + 8, align) <= c.size
    ensures Verdict(Fit(req, align), NodeOf(c), c.size) == 0 <==> Fits(c, req, align)
    ensures Verdict(Fit(req, align), NodeOf(c), c.size) == 0 ==> c.size >= req
  {
    GapLeast(c.addr + 8, align);
  }

  /** compare tells truly whether a block fits exactly when its subtraction does not wrap (mem_alloc.c:79). */
  lemma VerdictTrue(c: Block, req: int, align: int)
    requires Sensible(Fit(req, align)) && c.free && 0 <= c.size < TOP
    ensures (Verdict(Fit(req, align), NodeOf(c), c.size) == 0 <==> Fits(c, req, align)) <==>
              c.size < req || Gap(c.addr + 8, align) <= c.size
  {
    GapBelow(c.addr + 8, align);
    Wraps(c.size, Gap(c.addr + 8, align));
  }

  lemma Wraps(size: int, gap: int)
    requires 0 <= size < TOP && 0 <= gap < TOP
    ensures Wrap32(size - gap) == if gap <= size then size - gap else TOP + size - gap
  {
  }

  /** A block of 64 bytes that is said to hold 64 bytes aligned to a page. */
  lemma WrapExample()
    ensures var c := Block(84, 64, true); Verdict(Fit(64, 4096), NodeOf(c), c.size) == 0 && !Fits(c, 64, 4096)
  {
    assert 92 % 4096 == 92;
    assert Gap(92, 4096) == 4004;
    assert Wrap32(64 - 4004) == TOP + 64 - 4004;
  }

  /** A search without result means that no largest block fits. */
  lemma NotFoundNotAmple(held: map<Ptr, int>, A: Row, req: int, align: int)
    requires Listed(held, A, []) && Sensible(Fit(req, align)) && AnswerFit(held, Fit(req, align), NULL)
    requires Clean(A, req, align)
    requires forall b :: b in A ==> 0 <= b.size < TOP
    ensures !Ample(A, req, align)
  {
    if Ample(A, req, align) {
      var q := Fit(req, align);
      var b :| Biggest(A, b) && Fits(b, req, align);
      assert FreeIn(A, [], b);
      var n :| n in held && Verdict(q, n, held[n]) < 0 && forall x :: x in held ==> held[x] <= held[n];
      var c :| FreeIn(A, [], c) && NodeOf(c) == n;
      GapLeast(b.addr + 8, align);
      VerdictFits(c, req, align);
    }
  }

  // ---------------------------------------------------------------- cutting a block to an alignment

  /** mem_alloc.c:218-223 computes the gap of compare. */
  lemma CutIsGap(u: int, align: int)
    requires align >= 1
    ensures u % align == 0 <==> Gap(u, align) == 0
    ensures u % align != 0 ==> Gap(u, align) == Bump(align - u % align, align) && align - u % align > 0
    ensures Gap(u, align) == 0 || Gap(u, align) >= MIN_BLOCK_SIZE
    ensures (u + Gap(u, align)) % align == 0
  {
    FirstOffset(u, align);
    GapLeast(u, align);
    if u % align != 0 {
      DivModUnique(align - u % align, align, 0, align - u % align);
    }
  }

  /** Cuts stay on words when the alignment is 1 or a multiple of 4. */
  lemma GapWords(u: int, align: int)
    requires align >= 1 && u % 4 == 0 && (align == 1 || align % 4 == 0)
    ensures Gap(u, align) % 4 == 0
  {
    if align == 1 {
      GapOne(u);
    } else {
      var g := GapOf(u, align);
      WordsApart(u, g, align);
    }
  }

  lemma WordsApart(u: int, g: int, align: int)
    requires align >= 4 && align % 4 == 0 && u % 4 == 0 && (u + g) % align == 0
    ensures g % 4 == 0
  {
    MultipleOfFour(u + g, align);
  }

  lemma GapOf(u: int, align: int) returns (g: int)
    requires align >= 1
    ensures g == Gap(u, align) && (u + g) % align == 0
  {
    GapLeast(u, align);
    g := Gap(u, align);
  }

  // ---------------------------------------------------------------- giving a block back

  // The rows on both sides of a freed block once free neighbours have been merged into it.
  function RestLeft(L: Row): Row { if L != [] && L[|L| - 1].free then L[..|L| - 1] else L }
  function RestRight(R: Row): Row { if R != [] && R[0].free then R[1..] else R }
  function MergedStart(L: Row, b: Block): int { if L != [] && L[|L| - 1].free then L[|L| - 1].addr else b.addr }
  function MergedEnd(b: Block, R: Row): int { if R != [] && R[0].free then End(R[0]) else End(b) }

  /** mem_alloc.c:337-338 */
  predicate Contracts(b: Block, R: Row, lo: int, hi: int, min: int) { MergedEnd(b, R) == hi && hi - lo > min }

  function EndAfterFree(L: Row, b: Block, R: Row, lo: int, hi: int, min: int): int {
    if Contracts(b, R, lo, hi, min) then Shrunk(MergedStart(L, b), lo, hi, min) else hi
  }

  /** The row that free leaves behind (mem_alloc.c:297-360). */
  function RowAfterFree(L: Row, b: Block, R: Row, lo: int, hi: int, min: int): Row {
    var m1 := MergedStart(L, b);
    var m2 := if Contracts(b, R, lo, hi, min) then EndAfterFree(L, b, R, lo, hi, min) else MergedEnd(b, R);
    RestLeft(L) + Hole(m1, m2) + RestRight(R)
  }

  function Hole(m1: int, m2: int): Row { if m2 - m1 > 0 then [Block(m1, m2 - m1, true)] else [] }

  /** The end of the heap does not cut the merged block down to a splinter that cannot hold its tags. */
  predicate CutsWell(L: Row, b: Block, R: Row, lo: int, hi: int, min: int) {
    Contracts(b, R, lo, hi, min) ==>
      var rest := EndAfterFree(L, b, R, lo, hi, min) - MergedStart(L, b);
      rest == 0 || rest >= MIN_BLOCK_SIZE
  }

  lemma RestLeftTiles(L: Row, b: Block, lo: int, m: int)
    requires Tiles(L, lo, m) && b.addr == m && m % 4 == 0
    ensures Tiles(RestLeft(L), lo, MergedStart(L, b)) && lo <= MergedStart(L, b) <= m && MergedStart(L, b) % 4 == 0
  {
    if L != [] && L[|L| - 1].free {
      var K, x := L[..|L| - 1], L[|L| - 1];
      assert L == K + [x];
      var k := TilesCut(K, [x], lo, m);
    }
    TilesUp(RestLeft(L), lo, MergedStart(L, b));
  }

  lemma RestRightTiles(b: Block, R: Row, e: int, hi: int)
    requires Tiles(R, e, hi) && e == End(b) && e % 4 == 0
    ensures Tiles(RestRight(R), MergedEnd(b, R), hi) && e <= MergedEnd(b, R) <= hi && MergedEnd(b, R) % 4 == 0
  {
    TilesUp(RestRight(R), MergedEnd(b, R), hi);
  }

  /** What the merged neighbourhood looks like in a row that tiles. */
  lemma MergedTiles(L: Row, b: Block, R: Row, lo: int, hi: int)
    requires Tiles(L + [b] + R, lo, hi)
    ensures Tiles(RestLeft(L), lo, MergedStart(L, b)) && Tiles(RestRight(R), MergedEnd(b, R), hi)
    ensures MergedStart(L, b) <= b.addr && End(b) <= MergedEnd(b, R) && Fine(b)
    ensures MergedStart(L, b) % 4 == 0 && MergedEnd(b, R) % 4 == 0 && lo <= MergedStart(L, b) && MergedEnd(b, R) <= hi
  {
    var P := L + [b];
    var e := TilesCut(P, R, lo, hi);
    var m := TilesCut(L, [b], lo, e);
    RestLeftTiles(L, b, lo, m);
    RestRightTiles(b, R, e, hi);
  }

  lemma LastBlockTiles(P: Row, lo: int, m1: int, e: int)
    requires Tiles(P, lo, m1) && m1 % 4 == 0 && e % 4 == 0 && m1 <= e
    ensures Tiles(P + Hole(m1, e), lo, e) <==> e == m1 || e - m1 >= MIN_BLOCK_SIZE
  {
    if e == m1 {
      assert P + [] == P;
    } else {
      var x := Block(m1, e - m1, true);
      if Fine(x) {
        assert Tiles([x], m1, e);
        TilesCat(P, [x], lo, m1, e);
      } else if Tiles(P + [x], lo, e) {
        TilesIn(P + [x], lo, e, x);
      }
    }
  }

  lemma MiddleBlockTiles(P: Row, Q: Row, lo: int, m1: int, m2: int, hi: int)
    requires Tiles(P, lo, m1) && Tiles(Q, m2, hi) && m1 % 4 == 0 && m2 % 4 == 0 && m1 + MIN_BLOCK_SIZE <= m2
    ensures Tiles(P + [Block(m1, m2 - m1, true)] + Q, lo, hi)
  {
    var x := Block(m1, m2 - m1, true);
    assert Fine(x) && Tiles([x], m1, m2);
    var C := P + [x];
    TilesCat(P, [x], lo, m1, m2);
    TilesCat(C, Q, lo, m2, hi);
  }

  /** Contraction leaves a proper row of blocks exactly when it leaves no splinter. */
  lemma FreeKeepsTiling(L: Row, b: Block, R: Row, lo: int, hi: int, min: int)
    requires Tiles(L + [b] + R, lo, hi) && hi % FRAME_SIZE == 0
    ensures Tiles(RowAfterFree(L, b, R, lo, hi, min), lo, EndAfterFree(L, b, R, lo, hi, min)) <==>
              CutsWell(L, b, R, lo, hi, min)
  {
    MergedTiles(L, b, R, lo, hi);
    var m1, m2 := MergedStart(L, b), MergedEnd(b, R);
    var P, Q := RestLeft(L), RestRight(R);
    if Contracts(b, R, lo, hi, min) {
      ShrunkBounds(m1, lo, hi, min);
      var e := Shrunk(m1, lo, hi, min);
      Pages(e);
      assert Q == [] by { TilesUp(Q, m2, hi); }
      var M := Hole(m1, e);
      assert P + M + Q == P + M;
      LastBlockTiles(P, lo, m1, e);
    } else {
      MiddleBlockTiles(P, Q, lo, m1, m2, hi);
    }
  }

  /** The splinter does happen: freeing the second of these two blocks leaves 8 bytes of it. */
  lemma SplinterExample()
    ensures var A := [Block(4144, 4040, false), Block(8184, 4104, false)];
            Tiles(A, 4144, 12288) && !CutsWell(A[..1], A[1], A[2..], 4144, 12288, 0)
  {
    var a, b := Block(4144, 4040, false), Block(8184, 4104, false);
    var A := [a, b];
    assert A[1..] == [b] && [b][1..] == [] && A[..1] == [a] && A[2..] == [];
    assert Tiles([b], 8184, 12288);
    assert Shrunk(8184, 4144, 12288, 0) == 8192;
  }
}
