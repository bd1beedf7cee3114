/**
 The dirty-page bitmap of include/exec/ram_addr.h: one bit per page, in blocks
 of a fixed number of pages.  Only the bitmap of DIRTY_MEMORY_CODE exists.
 */
module DirtyMemory {
  import opened Words
  import opened Bitmaps

  /** 1 << TARGET_PAGE_BITS */
  const PAGE_SIZE := 4096

  /** DIRTY_MEMORY_BLOCK_SIZE, in pages, and the words that hold them */
  const BLOCK_SIZE := 256 * 1024 * 8
  const BLOCK_WORDS := BLOCK_SIZE / 64

  // ----- pages and addresses

  /** The first page that a range of addresses is taken to touch. */
  function PageOf(start: nat): nat { start / PAGE_SIZE }

  /** TARGET_PAGE_ALIGN(addr) >> TARGET_PAGE_BITS */
  function PageEnd(addr: nat): nat { (addr + PAGE_SIZE - 1) / PAGE_SIZE }

  /** Some address of the range lies on the page. */
  ghost predicate Meets(page: nat, start: nat, length: nat) {
    exists addr: nat :: start <= addr < start + length && PageOf(addr) == page
  }

  predicate Covered(page: nat, start: nat, length: nat) { PageOf(start) <= page < PageEnd(start + length) }

  lemma {:induction false} MeetsCovered(page: nat, start: nat, length: nat)
    requires length > 0
    ensures Meets(page, start, length) <==> Covered(page, start, length)
  {
    if Covered(page, start, length) {
      var addr := if PageOf(start) == page then start else page * PAGE_SIZE;
      assert start <= addr < start + length && PageOf(addr) == page;
    }
  }

  /** The pages looked at are those that meet the range, unless the range is empty and not aligned. */
  lemma {:induction false} PagesExact(start: nat, length: nat)
    ensures (forall page: nat :: Covered(page, start, length) <==> Meets(page, start, length))
            <==> length > 0 || start % PAGE_SIZE == 0
  {
    if length > 0 {
      forall page: nat ensures Covered(page, start, length) <==> Meets(page, start, length) {
        MeetsCovered(page, start, length);
      }
    } else if start % PAGE_SIZE != 0 {
      assert Covered(PageOf(start), start, length) && !Meets(PageOf(start), start, length);
    }
  }

  ghost predicate SomeIn(pages: set<nat>, lo: nat, hi: nat) { exists page :: page in pages && lo <= page < hi }

  /** mask & (1 << DIRTY_MEMORY_CODE) */
  predicate HasCode(mask: nat) { BitAt(mask, 1) }

  /** bitmap_new for every block */
  method NewBlocks(count: nat) returns (blocks: seq<array<u64>>)
    ensures |blocks| == count && fresh(blocks)
    ensures forall i :: 0 <= i < count ==> blocks[i].Length == BLOCK_WORDS && Clear(blocks[i][..])
    ensures forall i, j :: 0 <= i < j < count ==> blocks[i] != blocks[j]
  {
    blocks := [];
    while |blocks| < count
      invariant |blocks| <= count && fresh(blocks)
      invariant forall i :: 0 <= i < |blocks| ==> blocks[i].Length == BLOCK_WORDS && Clear(blocks[i][..])
      invariant forall i, j :: 0 <= i < j < |blocks| ==> blocks[i] != blocks[j]
    {
      var block := new u64[BLOCK_WORDS](_ => 0);
      blocks := blocks + [block];
    }
  }

  ghost predicate Clear(s: seq<u64>) { forall i :: 0 <= i < |s| ==> s[i] == 0 }

  class Tracker {
    var blocks: seq<array<u64>>

    ghost predicate Valid()
      reads this
    {
      && (forall i :: 0 <= i < |blocks| ==> blocks[i].Length == BLOCK_WORDS)
      && (forall i, j :: 0 <= i < j < |blocks| ==> blocks[i] != blocks[j])
    }

    /** How many pages there are. */
    ghost function Pages(): nat
      reads this
    {
      |blocks| * BLOCK_SIZE
    }

    /** The state of one page in the flat view. */
    ghost predicate Dirty(page: nat)
      requires Valid() && page < Pages()
      reads this, blocks
    {
      Has(blocks[page / BLOCK_SIZE][..], page % BLOCK_SIZE)
    }

    /** Some page from lo to hi - 1 is in the given state. */
    ghost predicate SomePage(lo: nat, hi: nat, dirty: bool)
      requires Valid() && hi <= Pages()
      reads this, blocks
    {
      exists page: nat :: lo <= page < hi && Dirty(page) == dirty
    }

    /** bitmap_set_atomic on one block, seen as a change of pages. */
    method FillBlock(idx: nat, offset: nat, n: nat)
      requires Valid() && idx < |blocks| && offset + n <= BLOCK_SIZE
      modifies blocks
      ensures forall page: nat :: page < Pages() ==>
        Dirty(page) == (idx * BLOCK_SIZE + offset <= page < idx * BLOCK_SIZE + offset + n || old(Dirty(page)))
    {
      BitmapSet(blocks[idx], offset, n);
    }

    /** bitmap_test_and_clear_atomic on one block. */
    method ClearBlock(idx: nat, offset: nat, n: nat, ghost first: nat) returns (b: bool)
      requires Valid() && idx < |blocks| && offset + n <= BLOCK_SIZE && first == idx * BLOCK_SIZE + offset
      modifies blocks
      ensures b <==> old(Some(blocks[idx][..], offset, offset + n, true))
      ensures forall page: nat :: page < Pages() ==>
        Dirty(page) == (!(first <= page < first + n) && old(Dirty(page)))
    {
      b := BitmapTestAndClear(blocks[idx], offset, n);
    }

    /** The same, seen as a change of pages. */
    method TakeBlock(idx: nat, offset: nat, n: nat, ghost first: nat) returns (b: bool)
      requires Valid() && idx < |blocks| && offset + n <= BLOCK_SIZE && first == idx * BLOCK_SIZE + offset
      modifies blocks
      ensures b <==> old(SomePage(first, first + n, true))
      ensures forall page: nat :: page < Pages() ==>
        Dirty(page) == (!(first <= page < first + n) && old(Dirty(page)))
    {
      SomeInBlock(idx, offset, offset + n, true);
      b := ClearBlock(idx, offset, n, first);
    }

    /** A page of one block is a bit of that block. */
    lemma {:induction false} DirtyInBlock(idx: nat, i: nat)
      requires Valid() && idx < |blocks| && i < BLOCK_SIZE
      ensures idx * BLOCK_SIZE + i < Pages() && Dirty(idx * BLOCK_SIZE + i) == Has(blocks[idx][..], i)
    {
    }

    lemma {:induction false} SomeInBlock(idx: nat, lo: nat, hi: nat, b: bool)
      requires Valid() && idx < |blocks| && lo <= hi <= BLOCK_SIZE
      ensures SomePage(idx * BLOCK_SIZE + lo, idx * BLOCK_SIZE + hi, b) <==> Some(blocks[idx][..], lo, hi, b)
    {
      if Some(blocks[idx][..], lo, hi, b) {
        var i: nat :| lo <= i < hi && Has(blocks[idx][..], i) == b;
        DirtyInBlock(idx, i);
      } else {
        forall page: nat | idx * BLOCK_SIZE + lo <= page < idx * BLOCK_SIZE + hi ensures Dirty(page) != b {
          DirtyInBlock(idx, page - idx * BLOCK_SIZE);
        }
      }
    }

    lemma {:induction false} SplitPages(lo: nat, mid: nat, hi: nat, b: bool)
      requires Valid() && lo <= mid <= hi <= Pages()
      ensures SomePage(lo, hi, b) <==> SomePage(lo, mid, b) || SomePage(mid, hi, b)
    {
    }

    /** For a range with addresses in it, a page in some state is a page that meets the range. */
    lemma {:induction false} SomeMeets(start: nat, length: nat, b: bool)
      requires Valid() && InMemory(start, length) && length > 0
      ensures SomePage(PageOf(start), PageEnd(start + length), b)
              <==> exists page: nat :: page < Pages() && Meets(page, start, length) && Dirty(page) == b
    {
      forall page: nat ensures Meets(page, start, length) <==> Covered(page, start, length) {
        MeetsCovered(page, start, length);
      }
      if SomePage(PageOf(start), PageEnd(start + length), b) {
        var page: nat :| PageOf(start) <= page < PageEnd(start + length) && Dirty(page) == b;
        assert Meets(page, start, length);
      }
    }

    /** setup_dirty_memory: at first every page of the memory is dirty. */
    constructor (totalSize: nat)
      requires totalSize + PAGE_SIZE <= B64
      ensures Valid() && fresh(blocks) && InMemory(0, totalSize)
      ensures totalSize <= Pages() < totalSize + BLOCK_SIZE
      ensures forall page: nat :: page < Pages() ==> (Dirty(page) <==> page * PAGE_SIZE < totalSize)
    {
      blocks := [];
      new;
      blocks := NewBlocks((totalSize + BLOCK_SIZE - 1) / BLOCK_SIZE);
      forall page: nat | page < Pages() ensures !Dirty(page) {
        ZeroBits(page % BLOCK_SIZE % 64);
      }
      SetDirtyRange(0, totalSize, 2);
    }

    /** The addresses and the pages they touch lie in the memory, and no sum overflows. */
    ghost predicate InMemory(start: nat, length: nat)
      reads this
    {
      start + length + PAGE_SIZE <= B64 && PageEnd(start + length) <= Pages()
    }

    /** cpu_physical_memory_set_dirty_flag */
    method SetDirtyFlag(addr: nat)
      requires Valid() && PageOf(addr) < Pages()
      modifies blocks
      ensures forall page: nat :: page < Pages() ==> Dirty(page) == (page == PageOf(addr) || old(Dirty(page)))
    {
      var page := PageOf(addr);
      var idx, offset := page / BLOCK_SIZE, page % BLOCK_SIZE;
      SetBit(offset, blocks[idx]);
    }

    /** cpu_physical_memory_get_dirty */
    method GetDirty(start: nat, length: nat) returns (dirty: bool)
      requires Valid() && InMemory(start, length)
      ensures dirty <==> SomePage(PageOf(start), PageEnd(start + length), true)
    {
      var end, page := PageEnd(start + length), PageOf(start);
      var idx: nat, offset: nat := page / BLOCK_SIZE, page % BLOCK_SIZE;
      var base := page - offset;
      dirty := false;
      while page < end
        invariant base == idx * BLOCK_SIZE && PageOf(start) <= page <= end
        invariant page < end ==> page == base + offset && offset < BLOCK_SIZE
        invariant !SomePage(PageOf(start), page, true)
        decreases end - page
      {
        var next := if end < base + BLOCK_SIZE then end else base + BLOCK_SIZE;
        var num := next - base;
        SomeInBlock(idx, offset, num, true);
        SplitPages(PageOf(start), page, next, true);
        SplitPages(PageOf(start), next, end, true);
        var found := FindNextBit(blocks[idx], num, offset);
        if found < num {
          dirty := true;
          break;
        }
        page, idx, offset, base := next, idx + 1, 0, base + BLOCK_SIZE;
      }
    }

    /** cpu_physical_memory_all_dirty */
    method AllDirty(start: nat, length: nat) returns (dirty: bool)
      requires Valid() && InMemory(start, length)
      ensures dirty <==> !SomePage(PageOf(start), PageEnd(start + length), false)
    {
      var end, page := PageEnd(start + length), PageOf(start);
      var idx: nat, offset: nat := page / BLOCK_SIZE, page % BLOCK_SIZE;
      var base := page - offset;
      dirty := true;
      while page < end
        invariant base == idx * BLOCK_SIZE && PageOf(start) <= page <= end
        invariant page < end ==> page == base + offset && offset < BLOCK_SIZE
        invariant !SomePage(PageOf(start), page, false)
        decreases end - page
      {
        var next := if end < base + BLOCK_SIZE then end else base + BLOCK_SIZE;
        var num := next - base;
        SomeInBlock(idx, offset, num, false);
        SplitPages(PageOf(start), page, next, false);
        SplitPages(PageOf(start), next, end, false);
        var found := FindNextZeroBit(blocks[idx], num, offset);
        if found < num {
          dirty := false;
          break;
        }
        page, idx, offset, base := next, idx + 1, 0, base + BLOCK_SIZE;
      }
    }

    /** cpu_physical_memory_set_dirty_range: a mask without the CODE bit must not reach a page. */
    method SetDirtyRange(start: nat, length: nat, mask: nat)
      requires Valid() && InMemory(start, length)
      requires mask == 0 || HasCode(mask) || PageEnd(start + length) == PageOf(start)
      modifies blocks
      ensures forall page: nat :: page < Pages() ==>
        Dirty(page) == ((mask != 0 && Covered(page, start, length)) || old(Dirty(page)))
    {
      if mask == 0 {
        return;
      }
      var end, page := PageEnd(start + length), PageOf(start);
      var idx: nat, offset: nat := page / BLOCK_SIZE, page % BLOCK_SIZE;
      var base := page - offset;
      while page < end
        invariant base == idx * BLOCK_SIZE && PageOf(start) <= page <= end
        invariant page < end ==> page == base + offset && offset < BLOCK_SIZE
        invariant forall q: nat :: q < Pages() ==> Dirty(q) == (PageOf(start) <= q < page || old(Dirty(q)))
        decreases end - page
      {
        var next := if end < base + BLOCK_SIZE then end else base + BLOCK_SIZE;
        FillBlock(idx, offset, next - page);
        page, idx, offset, base := next, idx + 1, 0, base + BLOCK_SIZE;
      }
    }

    ghost function DirtyPages(): set<nat>
      requires Valid()
      reads this, blocks
    {
      set page: nat | page < Pages() && Dirty(page)
    }

    lemma {:induction false} SomeAsSet(lo: nat, hi: nat)
      requires Valid() && hi <= Pages()
      ensures SomePage(lo, hi, true) <==> SomeIn(DirtyPages(), lo, hi)
    {
      forall page: nat | page < Pages() ensures Dirty(page) <==> page in DirtyPages() {}
    }

    /** The dirty pages are those of `was` without lo, ..., hi - 1. */
    ghost predicate Left(was: set<nat>, lo: nat, hi: nat)
      requires Valid()
      reads this, blocks
    {
      forall page: nat :: page < Pages() ==> Dirty(page) == (!(lo <= page < hi) && page in was)
    }

    lemma {:induction false} SomeLeft(was: set<nat>, lo: nat, mid: nat, hi: nat)
      requires Valid() && lo <= mid <= hi <= Pages() && Left(was, lo, mid)
      ensures SomePage(mid, hi, true) <==> SomeIn(was, mid, hi)
    {
    }

    /** One turn of the loop: the pages up to the end of the block or of the range. */
    method TakePages(page: nat, end: nat, ghost first: nat, ghost was: set<nat>) returns (num: nat, hit: bool)
      requires Valid() && first <= page < end <= Pages() && Left(was, first, page)
      modifies blocks
      ensures 0 < num <= end - page && Left(was, first, page + num)
      ensures hit <==> SomeIn(was, page, page + num)
    {
      var idx, offset := page / BLOCK_SIZE, page % BLOCK_SIZE;
      num := if end - page < BLOCK_SIZE - offset then end - page else BLOCK_SIZE - offset;
      SomeLeft(was, first, page, page + num);
      hit := TakeBlock(idx, offset, num, page);
    }

    /** cpu_physical_memory_test_and_clear_dirty, without the TLB flush that follows a hit */
    method TestAndClearDirty(start: nat, length: nat) returns (dirty: bool)
      requires Valid() && InMemory(start, length)
      modifies blocks
      ensures length == 0 ==> !dirty && forall page: nat :: page < Pages() ==> Dirty(page) == old(Dirty(page))
      ensures length > 0 ==> (dirty <==> old(SomePage(PageOf(start), PageEnd(start + length), true)))
      ensures length > 0 ==> forall page: nat :: page < Pages() ==>
        Dirty(page) == (!Covered(page, start, length) && old(Dirty(page)))
    {
      if length == 0 {
        return false;
      }
      ghost var was := DirtyPages();
      var end, page := PageEnd(start + length), PageOf(start);
      SomeAsSet(page, end);
      dirty := false;
      while page < end
        invariant PageOf(start) <= page <= end
        invariant dirty <==> SomeIn(was, PageOf(start), page)
        invariant Left(was, PageOf(start), page)
        decreases end - page
      {
        var num, hit := TakePages(page, end, PageOf(start), was);
        dirty := dirty || hit;
        page := page + num;
      }
    }

    /** cpu_physical_memory_is_clean */
    method IsClean(addr: nat) returns (clean: bool)
      requires Valid() && InMemory(addr, 1)
      ensures clean == !Dirty(PageOf(addr))
    {
      var dirty := GetDirty(addr, 1);
      clean := !dirty;
    }

    /** cpu_physical_memory_range_includes_clean: the CODE bit if some page is clean */
    method RangeIncludesClean(start: nat, length: nat, mask: nat) returns (ret: nat)
      requires Valid() && InMemory(start, length) && HasCode(mask)
      ensures ret == if SomePage(PageOf(start), PageEnd(start + length), false) then 2 else 0
    {
      ret := 0;
      var all := AllDirty(start, length);
      if HasCode(mask) && !all {
        ret := Or(ret, 2);
      }
    }
  }
}
