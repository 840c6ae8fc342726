// paging_init as an operation on a value, and the first isolated state.
module BootModel {
  import opened PmmInit
  import opened PmmModel
  import opened Mmu
  import opened PagingModel
  import opened ProcModel
  import opened Kheap
  import opened Isolation

  const HEAP_PAGE := 0xD_0000 // KERNEL_HEAP_BASE_VIRT / 4096
  const HEAP_PAGES := 1024
  const VGA_PAGE := 0xC_FFFF // KERNEL_VGA_BASE_VIRT / 4096
  const VGA_FRAME := 0xB8 // VGA_MEMORY / 4096

  const BIG := Word(0, Flags(true, true, false, true, 0)) // 0x83: the first 4 MB

  // The directory the boot code leaves: the first 4 MB, twice.
  ghost predicate BootRow(row: Frame) {
    forall d | 0 <= d < 1024 :: row[d] == if d == 0 || d == KERNEL_ENTRY then BIG else ZERO
  }

  function Rooted(s: State): State {
    State(Put(Put(s.mem, s.dir, 1023, Created(s.dir, RW)), s.dir, 0, ZERO), s.dir, s.pool)
  }

  ghost function PagingInit(s: State): Ending
    requires Sized(s.pool)
  {
    AfterLow(MapPages(Rooted(s), 0, 0, 256, RW))
  }

  ghost function AfterLow(r: Ending): Ending
    requires r.Done? ==> Sized(r.s.pool)
  {
    if !r.Done? then r
    else
      if AllocPages(r.s.pool, HEAP_PAGES).block == 0 then OutOfFrames else AfterHeap(HeapPages(r.s))
  }

  ghost function HeapPages(s: State): (r: Ending)
    requires Sized(s.pool) && AllocPages(s.pool, HEAP_PAGES).block != 0
    ensures r.Done? ==> Sized(r.s.pool)
  {
    var a := AllocPages(s.pool, HEAP_PAGES);
    MapPages(WithPool(s, a.pool), HEAP_PAGE, a.block, HEAP_PAGES, RW)
  }

  ghost function AfterHeap(r: Ending): Ending
    requires r.Done? ==> Sized(r.s.pool)
  {
    if r.Done? then MapPage(r.s, VGA_PAGE, VGA_FRAME, RW) else r
  }

  // The kernel's address space: low memory, the kernel image, the VGA page and the heap.
  function KernelImage(p: nat, heap: nat): Mapping
    requires heap + HEAP_PAGES <= 0x10_0000
  {
    if p < 256 then Page(p, false, true)
    else if KERNEL_PAGE <= p < KERNEL_PAGE + 1024 then Page(p - KERNEL_PAGE, false, true)
    else if p == VGA_PAGE then Page(VGA_FRAME, false, true)
    else if HEAP_PAGE <= p < HEAP_PAGE + HEAP_PAGES then Page(heap + (p - HEAP_PAGE), false, true)
    else Absent
  }

  lemma RootedGood(s: State)
    requires Sized(s.pool) && 0 in s.pool.used && s.dir in s.pool.used && BootRow(s.mem[s.dir])
    ensures var t := Rooted(s);
      && KernelOnly(t) && t.dir == s.dir && t.pool == s.pool
      && (forall d | 0 <= d < 1023 && d != KERNEL_ENTRY :: t.mem[t.dir][d] == ZERO)
      && t.mem[t.dir][KERNEL_ENTRY] == BIG
      && (forall g: FrameNo | g != s.dir :: t.mem[g] == s.mem[g])
      && (forall p: nat | p < WINDOW :: Translate(t.mem, t.dir, p) ==
           (if KERNEL_PAGE <= p < KERNEL_PAGE + 1024 then Page(p - KERNEL_PAGE, false, true) else Absent))
  {
  }

  // The kernel's directory: no user pages, everything writable, one 4 MB page for the kernel image.
  ghost predicate KernelOnly(s: State) {
    && Good(s)
    && (forall d | 0 <= d < 1024 :: s.mem[s.dir][d].flags.present ==> KernelEntry(s.mem[s.dir][d], d))
  }

  predicate KernelEntry(w: Word, d: nat) {
    !w.flags.user && w.flags.rw && (w.flags.large ==> d == KERNEL_ENTRY)
  }

  // No directory entry serves the range yet.
  ghost predicate Unserved(s: State, vp: nat, num: nat) {
    forall d: nat | d < 1024 && Touches(d, vp, num) :: !s.mem[s.dir][d].flags.present
  }

  // A range of kernel pages mapped through new tables only: of the frames in use nothing but the
  // directory is written, and there only the range's entries.
  ghost predicate KernelRange(s: State, t: State, vp: nat, frame: nat, num: nat)
    requires frame + num <= 0x10_0000
  {
    && KernelOnly(t) && t.dir == s.dir && s.pool.used <= t.pool.used
    && (forall p: nat | p < WINDOW :: Translate(t.mem, s.dir, p) ==
         (if vp <= p < vp + num then Page(frame + (p - vp), false, true) else Translate(s.mem, s.dir, p)))
    && (forall g: FrameNo | g in s.pool.used && g != s.dir :: t.mem[g] == s.mem[g])
    && (forall d: nat | d < 1024 && !Touches(d, vp, num) :: t.mem[s.dir][d] == s.mem[s.dir][d])
    && (forall d: nat | d < 1024 && t.mem[s.dir][d] != s.mem[s.dir][d] :: t.mem[s.dir][d].frame !in s.pool.used)
  }

  lemma RangeAdded(s: State, t: State, vp: nat, frame: nat, num: nat)
    requires KernelOnly(s) && Unserved(s, vp, num) && vp + num <= WINDOW && frame + num <= 0x10_0000
    requires RangeMapped(s, t, vp, frame, num, RW)
    ensures KernelRange(s, t, vp, frame, num)
  {
    forall g: FrameNo | g in s.pool.used && g != s.dir ensures t.mem[g] == s.mem[g] {
      assert Untouched(s, vp, num, g);
    }
  }

  // The directory entries behind the three ranges.
  lemma LowEntries(d: nat)
    ensures d < 1024 && Touches(d, 0, 256) ==> d == 0
    ensures d < 1024 && Touches(d, HEAP_PAGE, HEAP_PAGES) ==> d == 832
    ensures d < 1024 && Touches(d, VGA_PAGE, 1) ==> d == 831
  {
  }

  lemma LowReady(s: State)
    requires KernelOnly(s) && !s.mem[s.dir][0].flags.present
    ensures Ready(s, 0, 256) && Unserved(s, 0, 256)
  {
  }

  lemma HeapReady(s: State)
    requires KernelOnly(s)
    ensures Ready(s, HEAP_PAGE, HEAP_PAGES)
    ensures !s.mem[s.dir][832].flags.present ==> Unserved(s, HEAP_PAGE, HEAP_PAGES)
  {
  }

  lemma LowMapped(s: State)
    requires KernelOnly(s) && !s.mem[s.dir][0].flags.present && MapPages(s, 0, 0, 256, RW).Done?
    ensures KernelRange(s, MapPages(s, 0, 0, 256, RW).s, 0, 0, 256)
  {
    LowReady(s);
    var t := MapPages(s, 0, 0, 256, RW).s;
    PagesMapped(s, t, 0, 0, 256, RW);
    RangeAdded(s, t, 0, 0, 256);
  }

  // The heap's own frames stay unused by the tables made for them.
  lemma HeapMapped(s: State) returns (heap: nat)
    requires KernelOnly(s) && !s.mem[s.dir][832].flags.present
    requires AllocPages(s.pool, HEAP_PAGES).block != 0 && HeapPages(s).Done?
    ensures heap == AllocPages(s.pool, HEAP_PAGES).block && heap + HEAP_PAGES <= 0x10_0000
    ensures KernelRange(s, HeapPages(s).s, HEAP_PAGE, heap, HEAP_PAGES)
    ensures Span(heap, HEAP_PAGES) !! s.pool.used && Span(heap, HEAP_PAGES) <= HeapPages(s).s.pool.used
  {
    AllocPagesFits(s.pool, HEAP_PAGES);
    var a := AllocPages(s.pool, HEAP_PAGES);
    heap := a.block;
    var u := WithPool(s, a.pool);
    assert KernelOnly(u);
    HeapReady(u);
    var t := HeapPages(s).s;
    PagesMapped(u, t, HEAP_PAGE, heap, HEAP_PAGES, RW);
    RangeAdded(u, t, HEAP_PAGE, heap, HEAP_PAGES);
  }

  lemma VgaMapped(s: State)
    requires KernelOnly(s) && !s.mem[s.dir][831].flags.present && MapPage(s, VGA_PAGE, VGA_FRAME, RW).Done?
    ensures KernelRange(s, MapPage(s, VGA_PAGE, VGA_FRAME, RW).s, VGA_PAGE, VGA_FRAME, 1)
  {
    assert forall d: nat | d < 1024 && Touches(d, VGA_PAGE, 1) :: d == 831;
    PageMapped(s, MapPage(s, VGA_PAGE, VGA_FRAME, RW).s, VGA_PAGE, VGA_FRAME, RW);
    RangeAdded(s, MapPage(s, VGA_PAGE, VGA_FRAME, RW).s, VGA_PAGE, VGA_FRAME, 1);
  }

  // Where paging_init starts: the boot directory, with block 0, the directory and the frames the
  // bitmap lies in marked used.
  ghost predicate BootReady(s: State, bitmap: set<nat>) {
    && Sized(s.pool) && 0 in s.pool.used && s.dir in s.pool.used && BootRow(s.mem[s.dir])
    && bitmap <= s.pool.used && s.dir !in bitmap
  }

  // No frame of `taken` but the directory was written, and none of them became a table.
  ghost predicate LeftAlone(s: State, t: State, taken: set<nat>) {
    && (forall g: FrameNo | g in taken && g != s.dir :: t.mem[g] == s.mem[g])
    && (forall d | 0 <= d < 1023 && IsTable(t.mem[s.dir][d]) :: t.mem[s.dir][d].frame !in taken)
  }

  lemma RangeLeavesAlone(s0: State, s: State, t: State, vp: nat, frame: nat, num: nat)
    requires frame + num <= 0x10_0000 && KernelRange(s, t, vp, frame, num)
    requires s.dir == s0.dir && s0.pool.used <= s.pool.used && LeftAlone(s0, s, s0.pool.used)
    ensures LeftAlone(s0, t, s0.pool.used)
  {
  }

  // Low memory and the heap, before the VGA page.
  lemma HeapReached(s: State) returns (u: State, heap: nat)
    requires BootReady(s, {}) && PagingInit(s).Done?
    ensures KernelOnly(u) && u.dir == s.dir && s.pool.used <= u.pool.used && heap + HEAP_PAGES <= 0x10_0000
    ensures !u.mem[u.dir][831].flags.present && PagingInit(s) == MapPage(u, VGA_PAGE, VGA_FRAME, RW)
    ensures LeftAlone(s, u, s.pool.used)
    ensures var low := MapPages(Rooted(s), 0, 0, 256, RW); low.Done? && low.s.pool.used <= u.pool.used
    ensures Span(heap, HEAP_PAGES) !! s.pool.used && Span(heap, HEAP_PAGES) <= u.pool.used
    ensures forall p: nat | p < WINDOW && p != VGA_PAGE :: Translate(u.mem, u.dir, p) == KernelImage(p, heap)
  {
    RootedGood(s);
    var s0 := Rooted(s);
    LowMapped(s0);
    var s1 := MapPages(s0, 0, 0, 256, RW).s;
    LowEntries(831);
    LowEntries(832);
    RangeLeavesAlone(s, s0, s1, 0, 0, 256);
    heap := HeapMapped(s1);
    u := HeapPages(s1).s;
    RangeLeavesAlone(s, s1, u, HEAP_PAGE, heap, HEAP_PAGES);
  }

  // The kernel's directory after booting walks to exactly four ranges: low memory, the kernel image,
  // the VGA page and the heap. The frames that were in use, the bitmap's among them, are unchanged.
  lemma KernelMapped(s: State, bitmap: set<nat>) returns (heap: nat)
    requires BootReady(s, bitmap) && PagingInit(s).Done?
    ensures heap + HEAP_PAGES <= 0x10_0000
    ensures Span(heap, HEAP_PAGES) !! s.pool.used && Span(heap, HEAP_PAGES) <= PagingInit(s).s.pool.used
    ensures var t := PagingInit(s).s;
      && KernelOnly(t) && t.dir == s.dir && s.pool.used <= t.pool.used
      && (forall p: nat | p < WINDOW :: Translate(t.mem, t.dir, p) == KernelImage(p, heap))
      && LeftAlone(s, t, s.pool.used)
      && (forall g: FrameNo | g in bitmap :: t.mem[g] == s.mem[g])
  {
    var u: State;
    u, heap := HeapReached(s);
    VgaMapped(u);
    RangeLeavesAlone(s, u, PagingInit(s).s, VGA_PAGE, VGA_FRAME, 1);
  }

  // The mapping of the heap: the frames are there, and the pages are absent.
  lemma HeapMapping(s: State) returns (u: State, rest: Rest)
    requires KernelOnly(s) && !s.mem[s.dir][832].flags.present && AllocPages(s.pool, HEAP_PAGES).block != 0
    ensures u == WithPool(s, AllocPages(s.pool, HEAP_PAGES).pool)
    ensures rest == Rest(HEAP_PAGE, AllocPages(s.pool, HEAP_PAGES).block, HEAP_PAGES)
    ensures OnTheWay(u, rest, RW, HeapPages(s)) && Unmapped(u, HEAP_PAGE, HEAP_PAGES)
  {
    AllocPagesFits(s.pool, HEAP_PAGES);
    var a := AllocPages(s.pool, HEAP_PAGES);
    u, rest := WithPool(s, a.pool), Rest(HEAP_PAGE, a.block, HEAP_PAGES);
    assert KernelOnly(u);
    HeapReady(u);
  }

  lemma HeapNotOccupied(s: State)
    requires KernelOnly(s) && !s.mem[s.dir][832].flags.present && AllocPages(s.pool, HEAP_PAGES).block != 0
    ensures !HeapPages(s).Occupied?
  {
    var u, rest := HeapMapping(s);
    NotOccupied(u, rest, RW, HeapPages(s));
  }

  lemma VgaReady(s: State)
    requires KernelOnly(s) && !s.mem[s.dir][831].flags.present
    ensures Ready(s, VGA_PAGE, 1) && Translate(s.mem, s.dir, VGA_PAGE) == Absent
  {
    assert forall d: nat | d < 1024 && Touches(d, VGA_PAGE, 1) :: d == 831;
  }

  lemma VgaNotOccupied(s: State)
    requires KernelOnly(s) && !s.mem[s.dir][831].flags.present
    ensures !MapPage(s, VGA_PAGE, VGA_FRAME, RW).Occupied?
  {
    VgaReady(s);
    PageNotOccupied(s, VGA_PAGE, VGA_FRAME, RW);
  }

  // Booting finds none of the pages it maps mapped already: it fails for want of frames only.
  lemma BootNotOccupied(s: State)
    requires BootReady(s, {})
    ensures !PagingInit(s).Occupied?
  {
    RootedGood(s);
    var s0 := Rooted(s);
    LowReady(s0);
    var low := MapPages(s0, 0, 0, 256, RW);
    assert Unmapped(s0, 0, 256);
    NotOccupied(s0, Rest(0, 0, 256), RW, low);
    if low.Done? {
      LowMapped(s0);
      LowEntries(831);
      LowEntries(832);
      if AllocPages(low.s.pool, HEAP_PAGES).block != 0 {
        HeapNotOccupied(low.s);
        if HeapPages(low.s).Done? {
          var heap := HeapMapped(low.s);
          VgaNotOccupied(HeapPages(low.s).s);
        }
      }
    }
  }

  // Booting ends in an isolated system without processes.
  lemma BootIsolated(s: State, bitmap: set<nat>)
    requires BootReady(s, bitmap) && PagingInit(s).Done?
    ensures var t := PagingInit(s).s; Isolated(System(t, HEAP_BASE, t.dir, t.pool.used, bitmap, []))
  {
    var heap := KernelMapped(s, bitmap);
  }

  // --- From the memory map to the first process ------------------------------------------------------------

  // The pool is what pmm_init made of this memory map, and the kernel and the bitmap lie in memory the
  // searches look at.
  ghost predicate FromMap(s: State, prior: set<nat>, max: nat, entries: seq<MapEntry>, kernelEnd: nat) {
    && max < MAX_BLOCKS && Below4GB(entries) && InitPool(prior, max, entries, kernelEnd) == Some(s.pool)
    && BLOCK_SIZE * (s.dir + 1) <= kernelEnd && BitmapEnd(kernelEnd, max) < WRAP
    && LastBlock(kernelEnd, max) < Scanned(max)
    && BootRow(s.mem[s.dir]) && Sized(s.pool)
  }

  // pmm_init comes to an end, and paging_init gets the frames it asks for.
  ghost predicate Boots(m: Memory, dir: FrameNo, prior: set<nat>, boot: BootInfo, kernelEnd: nat) {
    var r := InitPool(prior, boot.Blocks(), boot.Entries(), kernelEnd);
    r.Some? && Sized(r.value) && PagingInit(State(m, dir, r.value)).Done?
  }

  // When the bitmap ends well, booting from the map ends in an isolated system with the bitmap's frames
  // reserved and unchanged.
  lemma BootFromMap(s: State, prior: set<nat>, max: nat, entries: seq<MapEntry>, kernelEnd: nat)
    requires FromMap(s, prior, max, entries, kernelEnd) && EndsWell(prior, max, entries, kernelEnd)
    requires PagingInit(s).Done?
    ensures var t, bitmap := PagingInit(s).s, BitmapFrames(kernelEnd, max);
      && Isolated(System(t, HEAP_BASE, t.dir, t.pool.used, bitmap, []))
      && forall g: FrameNo | g in bitmap :: t.mem[g] == s.mem[g]
  {
    PoolForPaging(prior, max, entries, kernelEnd, s.dir);
    BootIsolated(s, BitmapFrames(kernelEnd, max));
    var heap := KernelMapped(s, BitmapFrames(kernelEnd, max));
  }

  // The first table paging_init makes.
  lemma FirstTable(s: State)
    requires BootReady(s, {}) && MakeTable(Rooted(s), 0, RW).Done?
    ensures var t := MakeTable(Rooted(s), 0, RW).s;
      && AllocPage(s.pool).Ret? && AllocPage(s.pool).block < 0x10_0000 && AllocPage(s.pool).block in t.pool.used
      && t.mem[AllocPage(s.pool).block] == Cleared()
  {
    RootedGood(s);
    TableMade(Rooted(s), 0, RW);
    AllocPageFits(s.pool);
  }

  lemma TableFirst(s: State, vp: nat, frame: FrameNo, flags: Flags)
    requires Sized(s.pool) && vp < PAGES && MapPage(s, vp, frame, flags).Done?
    ensures MakeTable(s, vp / 1024, flags).Done?
    ensures MapPage(s, vp, frame, flags).s.pool == MakeTable(s, vp / 1024, flags).s.pool
  {
  }

  lemma LowStartsWithTable(s: State)
    requires KernelOnly(s) && !s.mem[s.dir][0].flags.present && MapPages(s, 0, 0, 256, RW).Done?
    ensures MakeTable(s, 0, RW).Done?
    ensures MakeTable(s, 0, RW).s.pool.used <= MapPages(s, 0, 0, 256, RW).s.pool.used
  {
    LowReady(s);
    var goal := MapPages(s, 0, 0, 256, RW);
    var next := FirstPage(s, Rest(0, 0, 256), RW, goal);
    TableFirst(s, 0, 0, RW);
    PagesMapped(next.s, goal.s, 1, 1, 255, RW);
  }

  lemma FirstTableStays(s: State)
    requires BootReady(s, {}) && PagingInit(s).Done?
    ensures MakeTable(Rooted(s), 0, RW).Done?
    ensures MakeTable(Rooted(s), 0, RW).s.pool.used <= PagingInit(s).s.pool.used
  {
    RootedGood(s);
    LowStartsWithTable(Rooted(s));
    var u, heap := HeapReached(s);
    VgaMapped(u);
  }

  // paging_init leaves the bitmap's frames to the bitmap if and only if the bitmap ends well. When it
  // does not, the first page table is the bitmap's last block, and making it clears that block.
  lemma BitmapLeftAloneExactly(s: State, prior: set<nat>, max: nat, entries: seq<MapEntry>, kernelEnd: nat)
    requires FromMap(s, prior, max, entries, kernelEnd) && PagingInit(s).Done?
    ensures BitmapFrames(kernelEnd, max) !! PagingInit(s).s.pool.used - s.pool.used
      <==> EndsWell(prior, max, entries, kernelEnd)
    ensures !EndsWell(prior, max, entries, kernelEnd) ==>
      var last, r := LastBlock(kernelEnd, max), MakeTable(Rooted(s), 0, RW);
      last in BitmapFrames(kernelEnd, max) && last < 0x10_0000 && r.Done? && r.s.mem[last] == Cleared()
  {
    PoolForPaging(prior, max, entries, kernelEnd, s.dir);
    if !EndsWell(prior, max, entries, kernelEnd) {
      BitmapGivenAwayFirst(prior, max, entries, kernelEnd);
      LastBlockIsBitmap(kernelEnd, max);
      FirstTableStays(s);
      FirstTable(s);
      AllocPageFits(s.pool);
    }
  }
}
