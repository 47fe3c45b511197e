/**
 Writing boundary tags (the macros of kernel/mem_alloc.c:6-28) on word memory.
 */
module Stamps {
  import opened RbShape
  import opened Words
  import opened Queries
  import opened Blocks

  // set_magic, mark_free and mark_used on a magic word
  function WithMagic(word: int): int { MAGIC + word % 2 }

  /** The block's size and footer are in place; its header word is not looked at. */
  ghost predicate Sized(w: Words, addr: int, size: int) {
    && Rd(w, addr + 4) == size
    && Untag(Rd(w, addr + size - 8)) == MAGIC
    && Rd(w, addr + size - 4) == addr
  }

  ghost predicate OnlyWords(w: Words, w': Words, a1: int, a2: int, a3: int, a4: int) {
    forall a {:trigger Rd(w', a)} :: a != a1 && a != a2 && a != a3 && a != a4 ==> Rd(w', a) == Rd(w, a)
  }

  /** set_size, footer->header, set_magic(footer): the header word stays as it was. */
  method WriteSized(w: Words, addr: int, size: int) returns (w': Words)
    requires size >= MIN_BLOCK_SIZE
    ensures Sized(w', addr, size) && Rd(w', addr) == Rd(w, addr)
    ensures OnlyWords(w, w', addr + 4, addr + size - 8, addr + size - 4, addr + 4)
  {
    w' := w[addr + 4 := size];
    var footer := addr + size - 8;
    w' := w'[footer + 4 := addr];
    w' := w'[footer := WithMagic(Rd(w', footer))];
  }

  /** set_size, set_magic, footer->header, set_magic(footer); a size of 0 puts the footer in front of the header. */
  method WriteTagged(w: Words, addr: int, size: int) returns (w': Words)
    requires size >= MIN_BLOCK_SIZE || size == 0
    ensures Sized(w', addr, size) && Untag(Rd(w', addr)) == MAGIC
    ensures OnlyWords(w, w', addr, addr + 4, addr + size - 8, addr + size - 4)
  {
    w' := w[addr + 4 := size];
    w' := w'[addr := WithMagic(Rd(w', addr))];
    var footer := addr + size - 8;
    w' := w'[footer + 4 := addr];
    w' := w'[footer := WithMagic(Rd(w', footer))];
  }

  method MarkFree(w: Words, addr: int) returns (w': Words)
    ensures Tagged(Rd(w', addr)) && Untag(Rd(w', addr)) == Untag(Rd(w, addr))
    ensures OnlyWords(w, w', addr, addr, addr, addr)
  {
    w' := w[addr := Retag(Rd(w, addr), true)];
  }

  method MarkUsed(w: Words, addr: int) returns (w': Words)
    ensures !Tagged(Rd(w', addr)) && Untag(Rd(w', addr)) == Untag(Rd(w, addr))
    ensures OnlyWords(w, w', addr, addr, addr, addr)
  {
    w' := w[addr := Retag(Rd(w, addr), false)];
  }

  /** set_size, mark_free and footer->header on a tagged block: mem_alloc.c:200-204, 310-312, 329-331. */
  method Restamp(w: Words, addr: int, size: int) returns (w': Words)
    requires size >= MIN_BLOCK_SIZE && CheckMagic(w, addr) && CheckMagic(w, addr + size - 8)
    ensures Stamped(w', Block(addr, size, true))
    ensures OnlyWords(w, w', addr, addr + 4, addr + size - 4, addr)
  {
    w' := w[addr + 4 := size];
    w' := w'[addr + size - 4 := addr];
    w' := MarkFree(w', addr);
  }

  /** A block is made and marked free: mem_alloc.c:174-179 and 207, 234-240, 259-266, 390-396. */
  method StampFree(w: Words, addr: int, size: int) returns (w': Words)
    requires size >= MIN_BLOCK_SIZE
    ensures Stamped(w', Block(addr, size, true))
    ensures OnlyWords(w, w', addr, addr + 4, addr + size - 8, addr + size - 4)
  {
    w' := WriteTagged(w, addr, size);
    w' := MarkFree(w', addr);
  }

  predicate CheckMagic(w: Words, a: int) { Untag(Rd(w, a)) == MAGIC }
  predicate IsFree(w: Words, a: int) { Tagged(Rd(w, a)) }

  /** mem_alloc.c:183-186 and 317-320: the footer left of m1 leads to a free block of the heap. */
  predicate FreeAtLeft(w: Words, start: int, m1: int) {
    var header := Rd(w, m1 - 4);
    header >= start && CheckMagic(w, m1 - 8) && CheckMagic(w, header) && IsFree(w, header)
  }

  /** The test tells the truth: there is a free block on the left exactly when it succeeds. */
  lemma LeftFooter(w: Words, held: map<Ptr, int>, L: Row, R: Row, lo: int, m1: int, m2: int, hi: int)
    requires Gapped(w, held, L, R, lo, m1, m2, hi)
    ensures FreeAtLeft(w, lo, m1) <==> L != [] && L[|L| - 1].free
    ensures L != [] ==>
              && L == L[..|L| - 1] + [L[|L| - 1]] && Rd(w, m1 - 4) == L[|L| - 1].addr
              && Rd(w, L[|L| - 1].addr + 4) == L[|L| - 1].size
  {
    if L == [] {
    } else {
      var x := L[|L| - 1];
      assert L == L[..|L| - 1] + [x];
      var mid := TilesCut(L[..|L| - 1], [x], lo, m1);
      assert End(x) == m1;
      assert x in L && Stamped(w, x);
      TilesIn(L, lo, m1, x);
    }
  }

  /** mem_alloc.c:298-302 and 305: the block right of the gap, where there is one. */
  lemma RightHeader(w: Words, held: map<Ptr, int>, L: Row, R: Row, lo: int, m1: int, m2: int, hi: int)
    requires Gapped(w, held, L, R, lo, m1, m2, hi)
    ensures m2 < hi <==> R != []
    ensures R != [] ==>
              && R == [R[0]] + R[1..] && R[0].addr == m2 && Rd(w, m2 + 4) == R[0].size && m2 + R[0].size <= hi
              && (R[0].free <==> CheckMagic(w, m2) && CheckMagic(w, m2 + R[0].size - 8) && IsFree(w, m2))
  {
    TilesUp(R, m2, hi);
    if R != [] {
      assert R[0] in R && Stamped(w, R[0]);
      TilesIn(R, m2, hi, R[0]);
    }
  }

  lemma SizedKept(w: Words, w': Words, addr: int, size: int)
    requires Sized(w, addr, size) && size >= MIN_BLOCK_SIZE && SameWithin(w, w', addr, addr + size)
    ensures Sized(w', addr, size) && Rd(w', addr) == Rd(w, addr)
  {
  }

  /** mem_alloc.c:346-350: a free block gets a new end. */
  method Shorten(w: Words, addr: int, size: int) returns (w': Words)
    requires size >= MIN_BLOCK_SIZE && CheckMagic(w, addr)
    ensures Stamped(w', Block(addr, size, true))
    ensures OnlyWords(w, w', addr, addr + 4, addr + size - 8, addr + size - 4)
  {
    w' := w[addr + 4 := size];
    var footer := addr + size - 8;
    w' := w'[footer := WithMagic(Rd(w', footer))];
    w' := w'[footer + 4 := addr];
    w' := MarkFree(w', addr);
  }
}
