// The kernel's part of every address space over every run from boot, and with it the kernel's heap.
module KernelHalf {
  import opened PmmModel
  import opened Mmu
  import opened PagingModel
  import opened ProcModel
  import opened Kheap
  import opened Isolation
  import opened BootModel

  // b is the system that paging_init leaves.
  ghost predicate Booted(s: State, bitmap: set<nat>, b: System) {
    && BootReady(s, bitmap) && PagingInit(s).Done?
    && (var t := PagingInit(s).s; b == System(t, HEAP_BASE, t.dir, t.pool.used, bitmap, []))
  }

  // From the kernel's base on, but for the temporary mapping's four megabytes, a directory leads where
  // paging_init had the kernel's lead.
  ghost predicate HasKernelHalf(m: Memory, dir: FrameNo, heap: nat)
    requires heap + HEAP_PAGES <= 0x10_0000
  {
    forall vp: nat | KERNEL_PAGE <= vp < WINDOW && !(0xD_0400 <= vp < 0xD_0800) ::
      Translate(m, dir, vp) == KernelImage(vp, heap)
  }

  // The kernel's own directory leads there below its base as well.
  ghost predicate LowAsBooted(m: Memory, dir: FrameNo, heap: nat)
    requires heap + HEAP_PAGES <= 0x10_0000
  {
    forall vp: nat | vp < KERNEL_PAGE :: Translate(m, dir, vp) == KernelImage(vp, heap)
  }

  lemma WalkAsBooted(s: State, bitmap: set<nat>, b: System, es: seq<Event>, sys: System) returns (heap: nat)
    requires Booted(s, bitmap, b) && Reaches(b, es, sys)
    ensures Isolated(sys) && s.pool.used <= sys.reserved
    ensures heap + HEAP_PAGES <= 0x10_0000 && Span(heap, HEAP_PAGES) <= sys.reserved
    ensures HasKernelHalf(sys.s.mem, sys.kernelDir, heap) && LowAsBooted(sys.s.mem, sys.kernelDir, heap)
  {
    BootIsolated(s, bitmap);
    heap := KernelMapped(s, bitmap);
    RunsKeepIsolation(b, es, sys);
    forall vp: nat | vp < WINDOW && !(0xD_0400 <= vp < 0xD_0800)
      ensures Translate(sys.s.mem, sys.kernelDir, vp) == KernelImage(vp, heap)
    {
      KernelWalkKept(b, sys, vp);
    }
  }

  lemma ProcHasKernelHalf(sys: System, p: Proc, heap: nat)
    requires ProcOk(sys, p) && heap + HEAP_PAGES <= 0x10_0000 && HasKernelHalf(sys.s.mem, sys.kernelDir, heap)
    ensures HasKernelHalf(sys.s.mem, p.dir, heap)
  {
    forall vp: nat | KERNEL_PAGE <= vp < WINDOW && !(0xD_0400 <= vp < 0xD_0800)
      ensures Translate(sys.s.mem, p.dir, vp) == KernelImage(vp, heap)
    {
      assert sys.s.mem[p.dir][vp / 1024] == sys.s.mem[sys.kernelDir][vp / 1024];
    }
  }

  // Over every run, every directory, the kernel's and each process's, has the same kernel half, and the
  // heap's frames are the kernel's.
  lemma KernelHalfEverywhere(s: State, bitmap: set<nat>, b: System, es: seq<Event>, sys: System)
    returns (heap: nat)
    requires Booted(s, bitmap, b) && Reaches(b, es, sys)
    ensures heap + HEAP_PAGES <= 0x10_0000 && Span(heap, HEAP_PAGES) <= sys.reserved
    ensures HasKernelHalf(sys.s.mem, sys.kernelDir, heap) && HasKernelHalf(sys.s.mem, sys.s.dir, heap)
    ensures forall i | 0 <= i < |sys.procs| :: HasKernelHalf(sys.s.mem, sys.procs[i].dir, heap)
  {
    heap := WalkAsBooted(s, bitmap, b, es, sys);
    forall i | 0 <= i < |sys.procs| ensures HasKernelHalf(sys.s.mem, sys.procs[i].dir, heap) {
      ProcHasKernelHalf(sys, sys.procs[i], heap);
    }
  }

  // --- The heap --------------------------------------------------------------------------------------

  // Address a is byte a % 4096 of the heap's frame for its page, writable for the kernel only.
  ghost predicate HeapByte(m: Memory, dir: FrameNo, heap: nat, a: nat)
    requires a < WRAP && heap + 1024 <= 0x10_0000
  {
    && 0xD_0000 <= a / 4096 < 0xD_0400
    && Translate(m, dir, a / 4096) == Page(heap + (a / 4096 - 0xD_0000), false, true)
  }

  ghost predicate HeapBytes(m: Memory, dir: FrameNo, heap: nat, first: nat, n: nat)
    requires first + n <= WRAP && heap + 1024 <= 0x10_0000
  {
    forall a: nat | first <= a < first + n :: HeapByte(m, dir, heap, a)
  }

  lemma HeapByteMapped(m: Memory, dir: FrameNo, heap: nat, a: nat)
    requires heap + HEAP_PAGES <= 0x10_0000 && HasKernelHalf(m, dir, heap) && HEAP_BASE <= a < HEAP_END
    ensures HeapByte(m, dir, heap, a)
  {
    assert 0xD_0000 <= a / 4096 < 0xD_0400 && a / 4096 / 1024 == 832;
  }

  lemma HeapBytesMapped(m: Memory, dir: FrameNo, heap: nat, first: nat, n: nat)
    requires heap + HEAP_PAGES <= 0x10_0000 && HasKernelHalf(m, dir, heap)
    requires HEAP_BASE <= first && first + n <= HEAP_END
    ensures HeapBytes(m, dir, heap, first, n)
  {
    forall a: nat | first <= a < first + n ensures HeapByte(m, dir, heap, a) {
      HeapByteMapped(m, dir, heap, a);
    }
  }

  // Every byte of every area that any run of requests is given after boot is mapped, in the kernel's
  // directory and in every process's, to the heap's frames, whatever else has happened since.
  lemma AreasMapped(s: State, bitmap: set<nat>, b: System, es: seq<Event>, sys: System, rs: seq<Request>)
    returns (heap: nat)
    requires Booted(s, bitmap, b) && Reaches(b, es, sys)
    ensures heap + 1024 <= 0x10_0000 && Span(heap, 1024) <= sys.reserved
    ensures forall k | 0 <= k < |Areas(b.heap, rs)| :: var area := Areas(b.heap, rs)[k];
      && area.addr + area.size <= WRAP
      && HeapBytes(sys.s.mem, sys.kernelDir, heap, area.addr, area.size)
      && forall i | 0 <= i < |sys.procs| :: HeapBytes(sys.s.mem, sys.procs[i].dir, heap, area.addr, area.size)
  {
    heap := KernelHalfEverywhere(s, bitmap, b, es, sys);
    AreasDisjoint(HEAP_BASE, rs);
    forall k | 0 <= k < |Areas(b.heap, rs)|
      ensures var area := Areas(b.heap, rs)[k];
        && area.addr + area.size <= WRAP
        && HeapBytes(sys.s.mem, sys.kernelDir, heap, area.addr, area.size)
        && forall i | 0 <= i < |sys.procs| :: HeapBytes(sys.s.mem, sys.procs[i].dir, heap, area.addr, area.size)
    {
      var area := Areas(b.heap, rs)[k];
      HeapBytesMapped(sys.s.mem, sys.kernelDir, heap, area.addr, area.size);
      forall i | 0 <= i < |sys.procs|
        ensures HeapBytes(sys.s.mem, sys.procs[i].dir, heap, area.addr, area.size)
      {
        HeapBytesMapped(sys.s.mem, sys.procs[i].dir, heap, area.addr, area.size);
      }
    }
  }

  // In particular each process's record of 100 bytes, and the 4096 bytes of its kernel stack that end at
  // its top, in every address space.
  lemma RecordsMapped(s: State, bitmap: set<nat>, b: System, es: seq<Event>, sys: System, dir: FrameNo, i: nat)
    returns (heap: nat)
    requires Booted(s, bitmap, b) && Reaches(b, es, sys) && i < |sys.procs|
    requires dir == sys.kernelDir || exists j :: 0 <= j < |sys.procs| && dir == sys.procs[j].dir
    ensures heap + 1024 <= 0x10_0000 && Span(heap, 1024) <= sys.reserved
    ensures var p := sys.procs[i];
      && 4095 <= p.kernelStack < WRAP && p.record + 100 <= WRAP
      && HeapBytes(sys.s.mem, dir, heap, p.record, 100)
      && HeapBytes(sys.s.mem, dir, heap, p.kernelStack - 4095, 4096)
  {
    heap := KernelHalfEverywhere(s, bitmap, b, es, sys);
    RunsKeepIsolated(s, bitmap, b, es, sys);
    var p := sys.procs[i];
    HeapBytesMapped(sys.s.mem, dir, heap, p.record, 100);
    HeapBytesMapped(sys.s.mem, dir, heap, p.kernelStack - 4095, 4096);
  }

  lemma RunsKeepIsolated(s: State, bitmap: set<nat>, b: System, es: seq<Event>, sys: System)
    requires Booted(s, bitmap, b) && Reaches(b, es, sys)
    ensures Isolated(sys)
  {
    BootIsolated(s, bitmap);
    RunsKeepIsolation(b, es, sys);
  }
}
