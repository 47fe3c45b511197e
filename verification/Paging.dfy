/**
 kernel/paging.c: the bitmap of physical frames and the page table entries that hold frames.

 A word of the bitmap is 32 booleans; the scans go over nframes words, as in the source, although the
 machine has only nframes frames.
 */
module Paging {
  const FRAME_SIZE := 0x1000
  /** The frame field of an entry has 20 bits. */
  const FIELD := 0x100000
  const WORD32 := 0x1_0000_0000

  /** present, read_write, user_supervisor and frame of a pte_t. */
  datatype Entry = Entry(present: bool, writable: bool, user: bool, frame: int)
  type Pages = map<int, Entry>

  // ---------------------------------------------------------------- counting bits

  function Count(s: seq<bool>): int {
    if s == [] then 0 else (if s[|s| - 1] then 1 else 0) + Count(s[..|s| - 1])
  }

  lemma {:induction false} CountFlip(s: seq<bool>, i: int, bit: bool)
    requires 0 <= i < |s| && s[i] != bit
    ensures Count(s[i := bit]) == Count(s) + if bit then 1 else -1
  {
    var n := |s| - 1;
    var s' := s[i := bit];
    if i == n {
      assert s'[..n] == s[..n];
    } else {
      assert s'[..n] == s[..n][i := bit];
      CountFlip(s[..n], i, bit);
    }
  }

  lemma {:induction false} CountNone(s: seq<bool>)
    requires forall i :: 0 <= i < |s| ==> !s[i]
    ensures Count(s) == 0
  {
    if s != [] { CountNone(s[..|s| - 1]); }
  }

  /** Frames start to start + num - 1 are free. */
  ghost predicate FreeRun(s: seq<bool>, start: int, num: int)
    requires 0 <= start && start + num <= |s|
  {
    forall k :: start <= k < start + num ==> !s[k]
  }

  /** The lowest free frame below n, or -1. */
  ghost function Lowest(s: seq<bool>, n: int): (r: int)
    requires 0 <= n <= |s|
    ensures r == -1 || (0 <= r < n && !s[r])
    ensures forall k :: 0 <= k < (if r == -1 then n else r) ==> s[k]
  {
    if n == 0 then -1
    else
      var r := Lowest(s, n - 1);
      if r != -1 then r else if s[n - 1] then -1 else n - 1
  }

  /** While fewer than n of the first n bits are set, one of them is free. */
  lemma {:induction false} CountFull(s: seq<bool>)
    requires forall k :: 0 <= k < |s| ==> s[k]
    ensures Count(s) == |s|
  {
    if s != [] { CountFull(s[..|s| - 1]); }
  }

  lemma LowestBelow(s: seq<bool>, n: int, m: int)
    requires 0 <= n <= m <= |s| && Count(s[..n]) < n
    ensures 0 <= Lowest(s, m) < n
  {
    var r := Lowest(s, m);
    if r == -1 || r >= n { CountFull(s[..n]); }
  }

  // ---------------------------------------------------------------- who holds which frame

  ghost predicate Holds(m: Pages, p: int, f: int) { p in m && f != 0 && m[p].frame == f }

  /** Every frame that an entry holds is marked, and no two entries hold the same one. */
  ghost predicate Exclusive(m: Pages, s: seq<bool>) {
    && (forall p, f {:trigger Holds(m, p, f)} :: Holds(m, p, f) ==> 0 <= f < |s| && s[f])
    && (forall p, q, f {:trigger Holds(m, p, f), Holds(m, q, f)} :: Holds(m, p, f) && Holds(m, q, f) ==> p == q)
  }

  lemma ExclusiveFresh(m: Pages, s: seq<bool>, p: int, e: Entry)
    requires Exclusive(m, s) && p in m && 0 < e.frame < |s| && !s[e.frame]
    ensures Exclusive(m[p := e], s[e.frame := true])
  {
    var m', s' := m[p := e], s[e.frame := true];
    forall q, f | Holds(m', q, f) ensures 0 <= f < |s'| && s'[f] && (q == p <==> f == e.frame) {
      if q != p { assert Holds(m, q, f); }
    }
    forall q, r, f | Holds(m', q, f) && Holds(m', r, f) ensures q == r {
      if q != p && r != p { assert Holds(m, q, f) && Holds(m, r, f); }
    }
  }

  lemma ExclusiveDropped(m: Pages, s: seq<bool>, s': seq<bool>, p: int, e: Entry)
    requires Exclusive(m, s) && p in m && e.frame == 0 && |s'| == |s|
    requires forall k :: 0 <= k < |s| && k != m[p].frame ==> s'[k] == s[k]
    ensures Exclusive(m[p := e], s')
  {
    var m' := m[p := e];
    assert m[p].frame != 0 ==> Holds(m, p, m[p].frame);
    forall q, f | Holds(m', q, f) ensures 0 <= f < |s'| && s'[f] { assert Holds(m, q, f); }
    forall q, r, f | Holds(m', q, f) && Holds(m', r, f) ensures q == r { assert Holds(m, q, f) && Holds(m, r, f); }
  }

  lemma DroppedStill(m: Pages, s: seq<bool>, p: int, e: Entry)
    requires p in m && e.frame == 0
    ensures Exclusive(m, s) ==> Exclusive(m[p := e], Released(s, m[p].frame))
  {
    if Exclusive(m, s) { ExclusiveDropped(m, s, Released(s, m[p].frame), p, e); }
  }

  /** The bitmap after map_page and free_page. */
  function Marked(s: seq<bool>, f: int,
                  nframes: int): seq<bool> { if 0 <= f < nframes && f < |s| then s[f := true] else s }
  function Released(s: seq<bool>, f: int): seq<bool> { if 0 < f < |s| && f % 32 == 0 then s[f := false] else s }

  /** map_page keeps frames exclusive exactly when it maps frame 0, or a marked frame without another holder. */
  lemma ExclusiveMapped(m: Pages, s: seq<bool>, p: int, e: Entry, nframes: int)
    requires Exclusive(m, s) && p in m && 0 <= e.frame && nframes <= |s|
    ensures Exclusive(m[p := e], Marked(s, e.frame, nframes)) <==>
              || e.frame == 0
              || ((e.frame < nframes || (e.frame < |s| && s[e.frame])) && forall q :: q != p ==> !Holds(m, q, e.frame))
  {
    var m', s' := m[p := e], Marked(s, e.frame, nframes);
    assert forall q, f {:trigger Holds(m', q, f)} :: q != p ==> (Holds(m', q, f) <==> Holds(m, q, f));
    assert e.frame != 0 ==> Holds(m', p, e.frame);
    if q :| q != p && Holds(m, q, e.frame) { assert Holds(m', q, e.frame); }
  }

  /**
   A frame number that does not fit its 20-bit field loses its top: frames stay exclusive exactly when nothing
   is lost, or the entry then names frame 0, or a frame that nobody else holds.
   */
  lemma ExclusiveTruncated(m: Pages, s: seq<bool>, p: int, e: Entry, f: int)
    requires Exclusive(m, s) && p in m && 0 < f < |s| && !s[f] && e.frame == f % FIELD
    requires forall k :: 0 <= k < f ==> s[k]
    ensures Exclusive(m[p := e], s[f := true]) <==>
              f < FIELD || e.frame == 0 || forall q :: q != p ==> !Holds(m, q, e.frame)
  {
    if f < FIELD {
      ExclusiveFresh(m, s, p, e);
    } else {
      var m', s' := m[p := e], s[f := true];
      assert forall q, g {:trigger Holds(m', q, g)} :: q != p ==> (Holds(m', q, g) <==> Holds(m, q, g));
      assert e.frame != 0 ==> Holds(m', p, e.frame);
      if q :| q != p && Holds(m, q, e.frame) { assert Holds(m', q, e.frame); }
    }
  }

  lemma ExclusiveSame(m: Pages, s: seq<bool>, p: int, e: Entry)
    requires p in m && e.frame == m[p].frame
    ensures Exclusive(m[p := e], s) <==> Exclusive(m, s)
  {
    var m' := m[p := e];
    assert forall q, f {:trigger Holds(m, q, f)} {:trigger Holds(m', q, f)} :: Holds(m, q, f) <==> Holds(m', q, f);
  }

  class Memory {
    var bits: array<bool>
    var nframes: int
    var usedFrames: int
    var pages: Pages

    /** The counter is right, and the bitmap covers every word that is scanned. */
    ghost predicate Valid()
      reads this, bits
    {
      && 0 <= nframes <= FIELD && 32 * nframes <= bits.Length && usedFrames == Count(bits[..])
      && (forall k :: 32 * nframes <= k < bits.Length ==> !bits[k])
    }

    /** paging_init, lines 183-192; spare words lie behind those that memory_used counts. */
    constructor (memSize: int, spare: int, entries: Pages)
      requires 0 <= memSize < WORD32 && spare >= 0
      ensures Valid() && fresh(bits) && nframes == memSize / FRAME_SIZE && bits.Length == 32 * (nframes + spare)
      ensures pages == entries && usedFrames == 0 && forall k :: 0 <= k < bits.Length ==> !bits[k]
    {
      nframes, usedFrames, pages := memSize / FRAME_SIZE, 0, entries;
      bits := new bool[32 * (memSize / FRAME_SIZE + spare)](i => false);
      new;
      CountNone(bits[..]);
    }

    /** Lines 27-30: not a truth value, but the masked word as an int. */
    function TestFrame(frame: int): int
      requires 0 <= frame < bits.Length
      reads this, bits
    {
      if bits[frame] then Mask(frame % 32) else 0
    }

    /** Lines 32-38 */
    method SetFrame(frame: int)
      requires Valid() && 0 <= frame < 32 * nframes
      modifies bits, `usedFrames
      ensures Valid() && bits[..] == old(bits[..])[frame := true]
      ensures usedFrames == old(usedFrames) + (if old(bits[frame]) then 0 else 1)
    {
      if TestFrame(frame) == 0 {
        CountFlip(bits[..], frame, true);
        bits[frame] := true;
        usedFrames := usedFrames + 1;
      }
    }

    /** Lines 40-46: the comparison with 1 lets only the frames at bit 0 of a word go. */
    method ClearFrame(frame: int)
      requires Valid() && 0 <= frame < 32 * nframes
      modifies bits, `usedFrames
      ensures Valid() && bits[..] == if frame % 32 == 0 then old(bits[..])[frame := false] else old(bits[..])
      ensures usedFrames == old(usedFrames) - (if frame % 32 == 0 && old(bits[frame]) then 1 else 0)
    {
      if TestFrame(frame) == 1 {
        CountFlip(bits[..], frame, false);
        bits[frame] := false;
        usedFrames := usedFrames - 1;
      }
    }

    predicate FullWord(i: int)
      requires 0 <= i && 32 * i + 32 <= bits.Length
      reads this, bits
    {
      forall k :: 32 * i <= k < 32 * i + 32 ==> bits[k]
    }

    /** Lines 60-65 */
    method RunAt(start: int, num: int) returns (free: bool)
      requires num >= 1 && 0 <= start && start + num <= bits.Length && !bits[start]
      ensures free <==> FreeRun(bits[..], start, num)
    {
      var count := 1;
      while count < num
        invariant 1 <= count <= num
        invariant forall k :: start <= k < start + count ==> !bits[k]
      {
        if TestFrame(start + count) != 0 {
          break;
        }
        count := count + 1;
      }
      free := count == num;
    }

    /** Lines 48-74: the lowest run of free frames. */
    method FirstFreeFrames(num: int) returns (r: int)
      requires Valid() && num >= 0 && 32 * nframes + num <= bits.Length + 1
      ensures num == 0 ==> r == -1
      ensures r != -1 ==> 0 <= r < 32 * nframes && FreeRun(bits[..], r, num)
      ensures num > 0 ==> forall k :: 0 <= k < (if r == -1 then 32 * nframes else r) ==> !FreeRun(bits[..], k, num)
    {
      if num == 0 {
        return -1;
      }
      var i := 0;
      while i < nframes
        invariant 0 <= i <= nframes
        invariant forall k :: 0 <= k < 32 * i ==> !FreeRun(bits[..], k, num)
      {
        if !FullWord(i) {
          var j := 0;
          while j < 32
            invariant 0 <= j <= 32
            invariant forall k :: 0 <= k < 32 * i + j ==> !FreeRun(bits[..], k, num)
          {
            var start := i * 32 + j;
            if TestFrame(start) == 0 {
              var free := RunAt(start, num);
              if free {
                return start;
              }
            } else {
              assert bits[..][start];
            }
            j := j + 1;
          }
        } else {
          forall k | 32 * i <= k < 32 * i + 32 ensures !FreeRun(bits[..], k, num) {
            assert bits[..][k];
          }
        }
        i := i + 1;
      }
      return -1;
    }

    /** Lines 76-79 */
    method FirstFreeFrame() returns (r: int)
      requires Valid()
      ensures r == Lowest(bits[..], 32 * nframes)
    {
      r := FirstFreeFrames(1);
      forall k | 0 <= k < (if r == -1 then 32 * nframes else r) ensures bits[..][k] {
        assert !FreeRun(bits[..], k, 1);
      }
      assert r != -1 ==> !bits[..][r];
    }

    /** Lines 81-93 */
    method MemoryUsed() returns (n: int)
      requires Valid()
      ensures n == usedFrames * FRAME_SIZE % WORD32
    {
      var i, count := 0, 0;
      while i < nframes
        invariant 0 <= i <= nframes && count == Count(bits[..32 * i])
      {
        var j := 0;
        while j < 32
          invariant 0 <= j <= 32 && count == Count(bits[..32 * i + j])
        {
          assert bits[..32 * i + j + 1][..32 * i + j] == bits[..32 * i + j];
          if TestFrame(32 * i + j) != 0 {
            count := count + 1;
          }
          j := j + 1;
        }
        i := i + 1;
      }
      CountTail(bits[..], 32 * nframes);
      assert bits[..][..32 * nframes] == bits[..32 * nframes];
      n := count * FRAME_SIZE % WORD32;
    }

    /** What the system remembers between two calls. */
    ghost function Now(): Tables
      reads this, bits
    {
      Tables(pages, bits[..])
    }

    /** Lines 100-103 */
    method MarkReserved(address: int)
      requires Valid() && 0 <= address && address / FRAME_SIZE < 32 * nframes
      modifies `usedFrames, bits
      ensures Valid() && Now() == Apply(old(Now()), Reserve(address), nframes) && usedFrames <= old(usedFrames) + 1
      ensures bits[..] == old(bits[..])[address / FRAME_SIZE := true]
    {
      SetFrame(address / FRAME_SIZE);
    }

    method MarkAll(reserved: seq<int>)
      requires Valid() && forall i :: 0 <= i < |reserved| ==> 0 <= reserved[i] && reserved[i] / FRAME_SIZE < nframes
      requires forall k :: nframes <= k < bits.Length ==> !bits[k]
      modifies `usedFrames, bits
      ensures Valid() && usedFrames <= old(usedFrames) + |reserved|
      ensures forall k :: nframes <= k < bits.Length ==> !bits[k]
      ensures forall j {:trigger reserved[j]} :: 0 <= j < |reserved| ==> bits[reserved[j] / FRAME_SIZE]
    {
      var i := 0;
      while i < |reserved|
        invariant 0 <= i <= |reserved| && Valid() && usedFrames <= old(usedFrames) + i
        invariant forall k :: nframes <= k < bits.Length ==> !bits[k]
        invariant forall j {:trigger reserved[j]} :: 0 <= j < i ==> bits[reserved[j] / FRAME_SIZE]
      {
        MarkReserved(reserved[i]);
        i := i + 1;
      }
    }

    /** Lines 105-128 */
    method AllocPage(page: int, isKernel: bool, isWriteable: bool)
      requires Valid() && page in pages
      modifies `pages, `usedFrames, bits
      ensures Valid() && Now() == Apply(old(Now()), Alloc(page, isKernel, isWriteable), nframes)
      ensures Exclusive(old(pages), old(bits[..])) && nframes > 0 && old(bits[0]) ==>
                bits[0] && (Exclusive(pages, bits[..]) <==> Untroubled(old(Now()), page, nframes))
      ensures pages.Keys == old(pages).Keys && forall q :: q in pages && q != page ==> pages[q] == old(pages)[q]
      ensures old(pages)[page].frame != 0 ==>
                bits[..] == old(bits[..]) && pages[page] == Entry(true, isWriteable, !isKernel, old(pages)[page].frame)
      ensures old(pages)[page].frame == 0 && (forall k :: 0 <= k < 32 * nframes ==> old(bits[..])[k]) ==>
                bits[..] == old(bits[..]) && pages == old(pages)
      ensures forall f {:trigger FirstFree(old(bits[..]), f, 32 * nframes)} ::
                old(pages)[page].frame == 0 && FirstFree(old(bits[..]), f, 32 * nframes) ==>
                bits[..] == old(bits[..])[f := true] && pages[page] == Entry(true, isWriteable, !isKernel, f % FIELD)
    {
      ghost var t := Now();
      if nframes > 0 && bits[0] && Exclusive(pages, bits[..]) {
        AllocExclusive(t, Alloc(page, isKernel, isWriteable), nframes);
      }
      AllocReads(t, Alloc(page, isKernel, isWriteable), nframes);
      if pages[page].frame != 0 {
        pages := pages[page := Entry(true, isWriteable, !isKernel, pages[page].frame)];
        return;
      }
      var f := FirstFreeFrame();
      if f == -1 {
        return;
      }
      SetFrame(f);
      pages := pages[page := Entry(true, isWriteable, !isKernel, f % FIELD)];
    }

    /** Lines 130-142 */
    method MapPage(page: int, isKernel: bool, isWriteable: bool, phys: int)
      requires Valid() && page in pages && 0 <= phys < WORD32
      modifies `pages, `usedFrames, bits
      ensures Valid() && Now() == Apply(old(Now()), Map(page, isKernel, isWriteable, phys), nframes)
      ensures usedFrames <= old(usedFrames) + 1
      ensures pages == old(pages)[page := Entry(true, isWriteable, !isKernel, phys / FRAME_SIZE)]
      ensures phys / FRAME_SIZE < nframes ==> bits[phys / FRAME_SIZE]
      ensures forall k :: 0 <= k < bits.Length && (k != phys / FRAME_SIZE || k >= nframes) ==>
                bits[k] == old(bits[..])[k]
    {
      var frame := phys / FRAME_SIZE;
      pages := pages[page := Entry(true, isWriteable, !isKernel, frame)];
      if frame < nframes {
        SetFrame(frame);
      }
    }

    /** Lines 144-151, for an entry whose frame is in the bitmap. */
    method FreePage(page: int)
      requires Valid() && page in pages && 0 <= pages[page].frame < 32 * nframes
      modifies `pages, `usedFrames, bits
      ensures Valid() && Now() == Apply(old(Now()), Free(page), nframes)
      ensures Exclusive(old(pages), old(bits[..])) ==> Exclusive(pages, bits[..])
      ensures var f := old(pages)[page].frame;
              && (!bits[f] <==> (f != 0 && f % 32 == 0) || !old(bits[..])[f])
              && (forall k :: 0 <= k < bits.Length && k != f ==> bits[k] == old(bits[..])[k])
              && usedFrames == old(usedFrames) - (if old(bits[..])[f] && f != 0 && f % 32 == 0 then 1 else 0)
      ensures pages.Keys == old(pages).Keys && pages[page] == old(pages)[page].(present := false, frame := 0)
      ensures forall q :: q in pages && q != page ==> pages[q] == old(pages)[q]
    {
      ghost var m, s := pages, bits[..];
      FreeReads(Now(), page, nframes);
      var f := pages[page].frame;
      if f != 0 {
        ClearFrame(f);
      }
      pages := pages[page := pages[page].(present := false).(frame := 0)];
      DroppedStill(m, s, page, m[page].(present := false, frame := 0));
    }

    /** Lines 194-222: frame 0 is set, and the kernel's first count pages are mapped to the frames from 0 on. */
    method Finalize(first: int, count: int)
      requires Valid() && nframes > 0 && 0 <= count && count * FRAME_SIZE <= WORD32
      requires forall k :: nframes <= k < bits.Length ==> !bits[k]
      requires forall p :: p in pages ==> pages[p].frame == 0
      requires forall i :: first <= i < first + count ==> i in pages
      modifies `pages, `usedFrames, bits
      ensures Valid() && bits[0] && pages.Keys == old(pages).Keys && usedFrames <= old(usedFrames) + 1 + count
      ensures forall k :: nframes <= k < bits.Length ==> !bits[k]
      ensures forall k :: 0 <= k < bits.Length && old(bits[..])[k] ==> bits[k]
      ensures Exclusive(pages, bits[..]) <==> count <= nframes
      ensures forall p :: p in pages ==>
                pages[p] == if first <= p < first + count then Entry(true, false, true, p - first) else old(pages)[p]
    {
      ghost var t0 := Now();
      SetFrame(0);
      var i, phys := 0, 0;
      while i < count
        invariant 0 <= i <= count && phys == i * FRAME_SIZE && Valid()
        invariant usedFrames <= old(usedFrames) + 1 + i && Booting(t0, Now(), first, i, nframes)
      {
        assert phys / FRAME_SIZE == i;
        BootStep(t0, Now(), first, i, nframes, phys);
        MapPage(first + i, false, false, phys);
        phys := phys + FRAME_SIZE;
        i := i + 1;
      }
      BootExclusive(t0, Now(), first, count, nframes);
      assert Now().bits[0];
      forall k | nframes <= k < bits.Length ensures !bits[k] { assert !Now().bits[k]; }
      forall k | 0 <= k < bits.Length && old(bits[..])[k] ensures bits[k] { assert t0.bits[k] && Now().bits[k]; }
    }
  }

  /**
   From the tables t0 of an empty machine: the first i pages are mapped to the frames from 0 on, and those that
   the machine has are marked.
   */
  ghost predicate Booting(t0: Tables, t: Tables, first: int, i: int, n: int) {
    && 0 < n <= |t.bits| == |t0.bits| && t.bits[0] && t.pages.Keys == t0.pages.Keys
    && (forall p {:trigger t.pages[p]} :: p in t.pages ==>
          t.pages[p] == if first <= p < first + i then Entry(true, false, true, p - first) else t0.pages[p])
    && (forall k {:trigger t.bits[k]} :: 0 <= k < |t.bits| ==> (t0.bits[k] || (k < i && k < n) ==> t.bits[k]))
    && (forall k {:trigger t.bits[k]} :: n <= k < |t.bits| ==> !t.bits[k])
  }

  lemma BootStep(t0: Tables, t: Tables, first: int, i: int, n: int, phys: int)
    requires Booting(t0, t, first, i, n) && 0 <= i && first + i in t.pages && phys / FRAME_SIZE == i
    requires 32 * n <= |t.bits|
    ensures Booting(t0, Apply(t, Map(first + i, false, false, phys), n), first, i + 1, n)
  {
  }

  lemma BootExclusive(t0: Tables, t: Tables, first: int, count: int, n: int)
    requires Booting(t0, t, first, count, n) && 0 <= count && (forall i :: first <= i < first + count ==> i in t.pages)
    requires forall p :: p in t0.pages ==> t0.pages[p].frame == 0
    ensures Exclusive(t.pages, t.bits) <==> count <= n
  {
    if count > n { assert Holds(t.pages, first + n, n); }
  }

  // ---------------------------------------------------------------- runs

  datatype Tables = Tables(pages: Pages, bits: seq<bool>)
  datatype PageOp =
    | Alloc(page: int, isKernel: bool, isWriteable: bool)
    | Map(page: int, isKernel: bool, isWriteable: bool, phys: int)
    | Free(page: int)
    | Reserve(address: int)

  /** What each call does to the entries and the bitmap of a machine with n frames. */
  ghost function Apply(t: Tables, op: PageOp, n: int): Tables
    requires 0 <= 32 * n <= |t.bits|
    requires !op.Reserve? ==> op.page in t.pages
  {
    var m, s := t.pages, t.bits;
    match op
    case Alloc(p, isKernel, isWriteable) =>
      if m[p].frame != 0 then t.(pages := m[p := Entry(true, isWriteable, !isKernel, m[p].frame)])
      else
        var f := Lowest(s, 32 * n);
        if f == -1 then t else Tables(m[p := Entry(true, isWriteable, !isKernel, f % FIELD)], s[f := true])
    case Map(p, isKernel, isWriteable, phys) =>
      var f := phys / FRAME_SIZE;
      Tables(m[p := Entry(true, isWriteable, !isKernel, f)], Marked(s, f, n))
    case Free(p) => Tables(m[p := m[p].(present := false, frame := 0)], Released(s, m[p].frame))
    case Reserve(address) => t.(bits := Marked(s, address / FRAME_SIZE, 32 * n))
  }

  /** The entry has a frame, or there is none to take, or the one taken survives the 20-bit field without a clash. */
  ghost predicate Untroubled(t: Tables, p: int, n: int)
    requires 0 <= 32 * n <= |t.bits| && p in t.pages
  {
    var f := Lowest(t.bits, 32 * n);
    t.pages[p].frame != 0 || f < FIELD || f % FIELD == 0 || forall q :: q != p ==> !Holds(t.pages, q, f % FIELD)
  }

  ghost predicate FirstFree(s: seq<bool>, f: int, n: int) {
    0 <= f < n <= |s| && !s[f] && forall k :: 0 <= k < f ==> s[k]
  }

  /** alloc_page, read off entry by entry and bit by bit. */
  lemma AllocReads(t: Tables, op: PageOp, n: int)
    requires 0 <= 32 * n <= |t.bits| && op.Alloc? && op.page in t.pages
    ensures var t', p := Apply(t, op, n), op.page;
            && t'.pages.Keys == t.pages.Keys && (forall q :: q in t.pages && q != p ==> t'.pages[q] == t.pages[q])
            && (t.pages[p].frame != 0 ==>
                  t'.bits == t.bits && t'.pages[p] == Entry(true, op.isWriteable, !op.isKernel, t.pages[p].frame))
            && (t.pages[p].frame == 0 && (forall k :: 0 <= k < 32 * n ==> t.bits[k]) ==> t' == t)
            && (forall f {:trigger FirstFree(t.bits, f, 32 * n)} ::
                  t.pages[p].frame == 0 && FirstFree(t.bits, f, 32 * n) ==>
                  t'.bits == t.bits[f := true] && t'.pages[p] == Entry(true, op.isWriteable, !op.isKernel, f % FIELD))
  {
    var r := Lowest(t.bits, 32 * n);
    assert forall f {:trigger FirstFree(t.bits, f, 32 * n)} :: FirstFree(t.bits, f, 32 * n) ==> f == r;
  }

  /** free_page likewise. */
  lemma FreeReads(t: Tables, p: int, n: int)
    requires 0 <= 32 * n <= |t.bits| && p in t.pages && 0 <= t.pages[p].frame < 32 * n
    ensures var t', f := Apply(t, Free(p), n), t.pages[p].frame;
            && |t'.bits| == |t.bits| && (!t'.bits[f] <==> (f != 0 && f % 32 == 0) || !t.bits[f])
            && (forall k :: 0 <= k < |t.bits| && k != f ==> t'.bits[k] == t.bits[k])
            && Count(t'.bits) == Count(t.bits) - (if t.bits[f] && f != 0 && f % 32 == 0 then 1 else 0)
            && t'.pages.Keys == t.pages.Keys && t'.pages[p] == t.pages[p].(present := false, frame := 0)
            && (forall q :: q in t.pages && q != p ==> t'.pages[q] == t.pages[q])
  {
    var f, s' := t.pages[p].frame, Apply(t, Free(p), n).bits;
    if f != 0 && f % 32 == 0 {
      if t.bits[f] { CountFlip(t.bits, f, false); } else { assert s' == t.bits; }
    }
  }

  /** alloc_page never hands out frame 0, and keeps frames exclusive exactly when the field does not make two of one. */
  lemma AllocExclusive(t: Tables, op: PageOp, n: int)
    requires 0 < 32 * n <= |t.bits| && t.bits[0] && Exclusive(t.pages, t.bits) && op.Alloc? && op.page in t.pages
    ensures var t' := Apply(t, op, n);
            t'.bits[0] && (Exclusive(t'.pages, t'.bits) <==> Untroubled(t, op.page, n))
  {
    var m, s, p := t.pages, t.bits, op.page;
    var f := Lowest(s, 32 * n);
    if m[p].frame != 0 {
      ExclusiveSame(m, s, p, Entry(true, op.isWriteable, !op.isKernel, m[p].frame));
    } else if f != -1 {
      ExclusiveTruncated(m, s, p, Entry(true, op.isWriteable, !op.isKernel, f % FIELD), f);
    }
  }

  /** Frame 0 is reserved, frames are exclusive, and nothing is marked behind the words that are scanned. */
  ghost predicate Orderly(t: Tables, n: int) {
    && 0 < n <= FIELD && 32 * n <= |t.bits| && t.bits[0] && Exclusive(t.pages, t.bits)
    && forall k :: 32 * n <= k < |t.bits| ==> !t.bits[k]
  }

  /**
   A call keeps to the machine: alloc_page finds one of its frames free, map_page maps frame 0 or a frame that
   can be marked and that nobody else holds, and a reserved frame exists.
   */
  ghost predicate Keeps(t: Tables, op: PageOp, n: int)
    requires Orderly(t, n)
  {
    match op
    case Alloc(p, _, _) => p in t.pages && (t.pages[p].frame == 0 ==> 0 <= Lowest(t.bits, 32 * n) < n)
    case Map(p, _, _, phys) =>
      && p in t.pages && 0 <= phys < WORD32
      && var f := phys / FRAME_SIZE;
         f == 0 || ((f < n || (f < |t.bits| && t.bits[f])) && forall q :: q != p ==> !Holds(t.pages, q, f))
    case Free(p) => p in t.pages
    case Reserve(address) => 0 <= address && address / FRAME_SIZE < n
  }

  /** Frames that clear_frame cannot give back stay marked, and no frame that the machine does not have gets marked. */
  ghost predicate Sticky(s: seq<bool>, s': seq<bool>, n: int) {
    && |s'| == |s|
    && (forall k :: 0 <= k < |s| && k % 32 != 0 && s[k] ==> s'[k])
    && (forall k :: 0 <= n <= k < |s| && s'[k] ==> s[k])
  }

  /** The frame is marked, and no entry holds it. */
  ghost predicate Withheld(t: Tables, f: int) {
    0 < f < |t.bits| && t.bits[f] && forall p :: !Holds(t.pages, p, f)
  }

  ghost predicate Unmapped(ops: seq<PageOp>, f: int) {
    forall i :: 0 <= i < |ops| && ops[i].Map? ==> ops[i].phys / FRAME_SIZE != f
  }

  /** A marked frame that nobody holds is never handed out; only map_page can give it to an entry. */
  lemma StepWithheld(t: Tables, op: PageOp, n: int, f: int)
    requires Orderly(t, n) && Keeps(t, op, n) && Withheld(t, f) && (op.Map? ==> op.phys / FRAME_SIZE != f)
    ensures Withheld(Apply(t, op, n), f)
  {
    var t' := Apply(t, op, n);
    forall p ensures !Holds(t'.pages, p, f) { assert !Holds(t.pages, p, f); }
    if op.Free? { assert !Holds(t.pages, op.page, f); }
  }

  lemma ReserveKeeps(t: Tables, f: int, n: int)
    requires Orderly(t, n) && 0 <= f < n
    ensures Orderly(t.(bits := t.bits[f := true]), n)
  {
    var s' := t.bits[f := true];
    forall p, g | Holds(t.pages, p, g) ensures 0 <= g < |s'| && s'[g] { }
  }

  lemma StepOrderly(t: Tables, op: PageOp, n: int)
    requires Orderly(t, n) && Keeps(t, op, n)
    ensures Orderly(Apply(t, op, n), n) && Apply(t, op, n).pages.Keys == t.pages.Keys
    ensures Sticky(t.bits, Apply(t, op, n).bits, n)
  {
    var m, s := t.pages, t.bits;
    match op
    case Alloc(p, isKernel, isWriteable) =>
      var f := Lowest(s, 32 * n);
      if m[p].frame != 0 {
        ExclusiveSame(m, s, p, Entry(true, isWriteable, !isKernel, m[p].frame));
      } else {
        ExclusiveFresh(m, s, p, Entry(true, isWriteable, !isKernel, f));
      }
    case Map(p, isKernel, isWriteable, phys) =>
      ExclusiveMapped(m, s, p, Entry(true, isWriteable, !isKernel, phys / FRAME_SIZE), n);
    case Free(p) =>
      ExclusiveDropped(m, s, Released(s, m[p].frame), p, m[p].(present := false, frame := 0));
    case Reserve(address) =>
      ReserveKeeps(t, address / FRAME_SIZE, n);
  }

  ghost predicate Allowed(t: Tables, ops: seq<PageOp>, n: int)
    requires Orderly(t, n)
    decreases |ops|
  {
    ops == [] || (Keeps(t, ops[0], n) && (StepOrderly(t, ops[0], n); Allowed(Apply(t, ops[0], n), ops[1..], n)))
  }

  /** How many frames the calls may take. */
  function Marks(ops: seq<PageOp>): nat {
    if ops == [] then 0 else (if ops[0].Free? then 0 else 1) + Marks(ops[1..])
  }

  /** Calls on known entries and frames; map_page is not among them. */
  ghost predicate Plain(t: Tables, op: PageOp, n: int) {
    && !op.Map? && (!op.Reserve? ==> op.page in t.pages)
    && (op.Reserve? ==> 0 <= op.address && op.address / FRAME_SIZE < n)
  }

  lemma MarksCounted(t: Tables, op: PageOp, n: int)
    requires Orderly(t, n) && Plain(t, op, n) && Keeps(t, op, n)
    ensures Count(Apply(t, op, n).bits[..n]) <= Count(t.bits[..n]) + Marks([op])
  {
    var s, s' := t.bits, Apply(t, op, n).bits;
    assert [op][1..] == [];
    if f :| 0 <= f < n && s'[..n][f] != s[..n][f] {
      assert s' == s[f := s'[f]];
      assert s'[..n] == s[..n][f := s'[f]];
      CountFlip(s[..n], f, s'[f]);
    } else {
      assert s'[..n] == s[..n];
    }
  }

  /** While the machine has enough frames, every run of alloc_page, free_page and paging_mark_reserved is allowed. */
  lemma {:induction false} EnoughFrames(t: Tables, ops: seq<PageOp>, n: int)
    requires Orderly(t, n) && (forall i :: 0 <= i < |ops| ==> Plain(t, ops[i], n))
    requires Count(t.bits[..n]) + Marks(ops) <= n
    ensures Allowed(t, ops, n)
    decreases |ops|
  {
    if ops != [] {
      var op := ops[0];
      if op.Alloc? { LowestBelow(t.bits, n, 32 * n); }
      StepOrderly(t, op, n);
      MarksCounted(t, op, n);
      assert [op][1..] == [];
      var t' := Apply(t, op, n);
      forall i | 0 <= i < |ops[1..]| ensures Plain(t', ops[1..][i], n) { assert Plain(t, ops[i + 1], n); }
      EnoughFrames(t', ops[1..], n);
    }
  }

  /**
   Every run that keeps to the machine: no two entries hold the same frame, held frames are marked, frame 0 is
   never handed out, the counter stays right, no frame beyond the machine is taken, and a frame once taken comes
   back only at bit 0 of its word.
   */
  method Run(mem: Memory, ops: seq<PageOp>)
    requires mem.Valid() && Orderly(mem.Now(), mem.nframes) && Allowed(mem.Now(), ops, mem.nframes)
    modifies mem`pages, mem`usedFrames, mem.bits
    ensures mem.Valid() && Orderly(mem.Now(), mem.nframes)
    ensures Sticky(old(mem.Now()).bits, mem.Now().bits, mem.nframes)
    ensures forall f {:trigger Withheld(mem.Now(), f)} ::
              Withheld(old(mem.Now()), f) && Unmapped(ops, f) ==> Withheld(mem.Now(), f)
  {
    var i := 0;
    assert ops[0..] == ops;
    while i < |ops|
      invariant 0 <= i <= |ops| && mem.Valid() && Orderly(mem.Now(), mem.nframes)
      invariant Allowed(mem.Now(), ops[i..], mem.nframes)
      invariant Sticky(old(mem.Now()).bits, mem.Now().bits, mem.nframes)
      invariant forall f {:trigger Withheld(mem.Now(), f)} ::
                  Withheld(old(mem.Now()), f) && Unmapped(ops, f) ==> Withheld(mem.Now(), f)
    {
      ghost var t := mem.Now();
      assert ops[i..][0] == ops[i] && ops[i..][1..] == ops[i + 1..];
      StepOrderly(t, ops[i], mem.nframes);
      forall f | Withheld(t, f) && Unmapped(ops, f) ensures Withheld(Apply(t, ops[i], mem.nframes), f) {
        StepWithheld(t, ops[i], mem.nframes, f);
      }
      match ops[i] {
        case Alloc(page, isKernel, isWriteable) => mem.AllocPage(page, isKernel, isWriteable);
        case Map(page, isKernel, isWriteable, phys) => mem.MapPage(page, isKernel, isWriteable, phys);
        case Free(page) =>
          assert mem.pages[page].frame != 0 ==> Holds(t.pages, page, t.pages[page].frame);
          mem.FreePage(page);
        case Reserve(address) => mem.MarkReserved(address);
      }
      i := i + 1;
    }
  }

  /**
   From paging_init on: reserved addresses, the boot mapping, and then any calls on the entries, as long as the
   machine has enough frames.
   */
  method Life(memSize: int, spare: int, entries: Pages, reserved: seq<int>, first: int, count: int, ops: seq<PageOp>)
    returns (mem: Memory)
    requires 0 <= memSize < WORD32 && spare >= 0 && 0 <= count
    requires forall p :: p in entries ==> entries[p].frame == 0
    requires forall i :: first <= i < first + count ==> i in entries
    requires forall i :: 0 <= i < |reserved| ==> 0 <= reserved[i] && reserved[i] / FRAME_SIZE < memSize / FRAME_SIZE
    requires var t := Tables(entries, []);
             forall i :: 0 <= i < |ops| ==> Plain(t, ops[i], memSize / FRAME_SIZE)
    requires |reserved| + 1 + count + Marks(ops) <= memSize / FRAME_SIZE
    ensures mem.Valid() && Orderly(mem.Now(), mem.nframes)
    ensures forall k :: mem.nframes <= k < mem.bits.Length ==> !mem.bits[k]
    ensures forall i {:trigger reserved[i]} :: 0 <= i < |reserved| && Spared(reserved[i] / FRAME_SIZE, count) ==>
              Withheld(mem.Now(), reserved[i] / FRAME_SIZE)
  {
    mem := new Memory(memSize, spare, entries);
    var n := mem.nframes;
    mem.MarkAll(reserved);
    mem.Finalize(first, count);
    ghost var t := mem.Now();
    forall j | 0 <= j < |ops| ensures Plain(t, ops[j], n) { assert Plain(Tables(entries, []), ops[j], n); }
    CountTail(t.bits, n);
    EnoughFrames(t, ops, n);
    forall j {:trigger reserved[j]} | 0 <= j < |reserved| && Spared(reserved[j] / FRAME_SIZE, count)
      ensures Withheld(t, reserved[j] / FRAME_SIZE) && Unmapped(ops, reserved[j] / FRAME_SIZE)
    {
      assert t.bits[reserved[j] / FRAME_SIZE];
    }
    Run(mem, ops);
  }

  /** A frame that neither boot nor the rule for frame 0 maps. */
  ghost predicate Spared(f: int, count: int) { f >= count && f != 0 }

  /** A frame at bit 0 of its word does come back: frame 32 is given up by one entry and taken by another. */
  method FrameReused() returns (mem: Memory)
    ensures mem.Valid() && mem.pages.Keys == {0, 1} && mem.pages[0].frame == 0 && mem.pages[1].frame == 32
  {
    mem := FirstWordTaken();
    ghost var s := mem.bits[..];
    assert FirstFree(s, 32, 2048);
    mem.AllocPage(0, true, true);
    mem.FreePage(0);
    assert mem.bits[..] == s;
    mem.AllocPage(1, true, true);
  }

  method FirstWordTaken() returns (mem: Memory)
    ensures fresh(mem) && fresh(mem.bits) && mem.Valid() && mem.nframes == 64 && mem.bits.Length == 2048
    ensures mem.pages == map[0 := Entry(false, false, false, 0), 1 := Entry(false, false, false, 0)]
    ensures forall k :: 0 <= k < 2048 ==> (mem.bits[k] <==> k < 32)
  {
    var none := Entry(false, false, false, 0);
    mem := new Memory(64 * FRAME_SIZE, 0, map[0 := none, 1 := none]);
    var i := 0;
    while i < 32
      invariant 0 <= i <= 32 && mem.Valid() && fresh(mem) && fresh(mem.bits) && mem.nframes == 64
      invariant mem.pages == map[0 := none, 1 := none] && mem.bits.Length == 2048
      invariant forall k :: 0 <= k < 2048 ==> (mem.bits[k] <==> k < i)
    {
      mem.SetFrame(i);
      i := i + 1;
    }
  }

  lemma FrameOneLost(t: Tables, n: int)
    requires 1 <= n && 32 * n <= |t.bits| && t.bits[0] && !t.bits[1] && 0 in t.pages && t.pages[0].frame == 0
    ensures var t1 := Apply(t, Alloc(0, true, true), n);
            var t2 := Apply(t1, Free(0), n);
            && t1.pages == t.pages[0 := Entry(true, true, false, 1)]
            && t2.pages == t.pages[0 := Entry(false, true, false, 0)] && t2.bits == t.bits[1 := true]
            && Count(t2.bits) == Count(t.bits) + 1
  {
    assert Lowest(t.bits, 32 * n) == 1;
    CountFlip(t.bits, 1, true);
  }

  /** After boot, an entry takes frame 1 and gives it back, but the frame stays marked. */
  method LostFrame() returns (mem: Memory)
    ensures mem.Valid() && mem.bits.Length > 1 && mem.bits[1] && mem.usedFrames == 2
    ensures forall p :: p in mem.pages ==> mem.pages[p].frame == 0
  {
    mem := new Memory(8 * FRAME_SIZE, 0, map[0 := Entry(false, false, false, 0)]);
    mem.SetFrame(0);
    assert mem.Now().bits[0] && !mem.Now().bits[1];
    FrameOneLost(mem.Now(), mem.nframes);
    mem.AllocPage(0, true, true);
    mem.FreePage(0);
    assert mem.Now().bits[1];
  }

  /** 1 << off as a signed int */
  function Mask(off: int): (m: int)
    requires 0 <= off < 32
    ensures m != 0 && (m == 1 <==> off == 0)
  {
    if off == 31 then -0x8000_0000 else Power(off)
  }

  function Power(k: int): (p: int)
    requires k >= 0
    ensures p >= 1 && (p == 1 <==> k == 0)
  {
    if k == 0 then 1 else 2 * Power(k - 1)
  }

  lemma {:induction false} CountTail(s: seq<bool>, n: int)
    requires 0 <= n <= |s| && forall k :: n <= k < |s| ==> !s[k]
    ensures Count(s) == Count(s[..n])
    decreases |s|
  {
    if n == |s| {
      assert s[..n] == s;
    } else {
      var t := s[..|s| - 1];
      CountTail(t, n);
      assert t[..n] == s[..n];
    }
  }
}
