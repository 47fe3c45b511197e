/**
 How the tree is searched: `compare` and `select_dup` of kernel/mem_alloc.c:57-106.
 */
module Queries {
  import opened RbShape
  import opened Arith

  const MIN_BLOCK_SIZE := 28

  /**
   The arguments of a search.  `Exact` is `compare` without an alignment: an exact size, and the
   address of the wanted node when addr is not NULL.  `Fit` is best fit for an alignment of at least 1.
   */
  datatype Query = Exact(size: int, addr: Ptr) | Fit(size: int, align: int)

  /** Sizes are nonzero 32-bit numbers, and adding the alignment to an offset does not wrap (mem_alloc.c:75-77). */
  ghost predicate Sensible(q: Query) {
    0 < q.size < TOP && (q.Fit? ==> 1 <= q.align <= TOP - MIN_BLOCK_SIZE)
  }

  function Wrap32(z: int): int { z % TOP }

  /** mem_alloc.c:75-77 */
  function Bump(offset: int, align: int): int
    requires align >= 1
    decreases MIN_BLOCK_SIZE - offset
  {
    if offset != 0 && offset < MIN_BLOCK_SIZE then Bump(offset + align, align) else offset
  }

  /** How far a block must be cut at the front so that the user pointer u becomes aligned. */
  function Gap(u: int, align: int): int
    requires align >= 1
  {
    Bump((align - u % align) % align, align)
  }

  function Verdict(q: Query, x: Ptr, data: int): (res: int)
    requires q.Fit? ==> q.align >= 1
  {
    if data < q.size then -1
    else match q
      case Fit(size, align) => if Wrap32(data - Gap(x + 4, align)) < size then -1 else 0
      case Exact(size, _) => if data > size then 1 else 0
  }

  predicate Selects(q: Query, x: Ptr) {
    x != NULL && (q.Exact? && q.addr != NULL ==> x == q.addr)
  }

  // ---------------------------------------------------------------- what the gap means

  predicate Aligns(u: int, align: int, k: int)
    requires align >= 1
  {
    k >= 0 && (u + k) % align == 0 && (k == 0 || k >= MIN_BLOCK_SIZE)
  }

  lemma {:induction false} BumpLeast(u: int, align: int, offset: int)
    requires align >= 1 && offset > 0 && (u + offset) % align == 0
    ensures Aligns(u, align, Bump(offset, align))
    ensures forall k :: k >= offset && Aligns(u, align, k) ==> Bump(offset, align) <= k
    decreases MIN_BLOCK_SIZE - offset
  {
    if offset < MIN_BLOCK_SIZE {
      NextMultiple(u + offset, u + offset, align);
      BumpLeast(u, align, offset + align);
      forall k | k >= offset && Aligns(u, align, k) ensures k >= offset + align {
        NextMultiple(u + offset, u + k, align);
      }
    }
  }

  /** mem_alloc.c:72-73: the distance to the next aligned address. */
  lemma FirstOffset(u: int, align: int)
    requires align >= 1
    ensures var o := (align - u % align) % align;
            0 <= o < align && (u + o) % align == 0 && (o == 0 <==> u % align == 0)
  {
    var q, r := u / align, u % align;
    assert u == q * align + r;
    if r == 0 {
      DivModUnique(align, align, 1, 0);
    } else {
      DivModUnique(align - r, align, 0, align - r);
      Distribute(q, 1, align);
      MultipleMod(q + 1, align);
    }
  }

  lemma NoSooner(u: int, align: int, k: int)
    requires align >= 1 && k >= 0 && (u + k) % align == 0
    ensures k >= (align - u % align) % align
  {
    FirstOffset(u, align);
    var o := (align - u % align) % align;
    if k < o {
      NextMultiple(u + k, u + o, align);
    }
  }

  /** The gap is the smallest cut that aligns the pointer and is either nothing or a whole block. */
  lemma GapLeast(u: int, align: int)
    requires align >= 1
    ensures Aligns(u, align, Gap(u, align))
    ensures forall k :: Aligns(u, align, k) ==> Gap(u, align) <= k
  {
    FirstOffset(u, align);
    var o := (align - u % align) % align;
    if o != 0 {
      BumpLeast(u, align, o);
      forall k | Aligns(u, align, k) ensures k >= o { NoSooner(u, align, k); }
    }
  }

  lemma {:induction false} BumpBelow(offset: int, align: int)
    requires align >= 1 && 0 <= offset < align + MIN_BLOCK_SIZE
    ensures 0 <= Bump(offset, align) < align + MIN_BLOCK_SIZE
    decreases MIN_BLOCK_SIZE - offset
  {
    if offset != 0 && offset < MIN_BLOCK_SIZE { BumpBelow(offset + align, align); }
  }

  lemma GapBelow(u: int, align: int)
    requires align >= 1
    ensures 0 <= Gap(u, align) < align + MIN_BLOCK_SIZE
  {
    FirstOffset(u, align);
    BumpBelow((align - u % align) % align, align);
  }
}
