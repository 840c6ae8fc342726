// Where the terminal's buffer addresses lead, over every run from boot.
module TerminalMemory {
  import opened PmmModel
  import opened PmmInit
  import opened Mmu
  import opened PagingModel
  import opened ProcModel
  import opened Kheap
  import opened Isolation
  import opened BootModel
  import opened KernelHalf
  import TermModel

  // paging_init points the terminal at the VGA page of the kernel half. Over every run it leads to the
  // VGA memory, in the active directory and in every process's, and no user code can use it.
  lemma VgaPageShared(s: State, bitmap: set<nat>, b: System, es: seq<Event>, sys: System)
    requires Booted(s, bitmap, b) && Reaches(b, es, sys)
    ensures Translate(sys.s.mem, sys.s.dir, 0xC_FFFF) == Page(0xB8, false, true)
    ensures forall i | 0 <= i < |sys.procs| ::
      Translate(sys.s.mem, sys.procs[i].dir, 0xC_FFFF) == Page(0xB8, false, true)
  {
    var heap := KernelHalfEverywhere(s, bitmap, b, es, sys);
    assert VGA_PAGE / 1024 == 831;
  }

  // The physical address of the VGA memory, used as a virtual one, does not lead there from a process.
  lemma LostInProcess(sys: System, p: Proc)
    requires ProcOk(sys, p) && VGA_FRAME in sys.reserved
    ensures MmuPhys(sys.s.mem, p.dir, TermModel.VGA_MEMORY) != Some(TermModel.VGA_MEMORY)
  {
    assert TermModel.VGA_MEMORY / 4096 == VGA_FRAME;
    var page := Translate(sys.s.mem, p.dir, VGA_FRAME);
    assert page == Image(VGA_FRAME, p.code, p.pages, p.stack);
    if page.Page? {
      assert Owns(sys.s.mem, p, page.frame);
    }
  }

  // Over every run, that address leads to the VGA memory if and only if the kernel's own directory is
  // active.
  lemma PhysicalReachesExactly(s: State, bitmap: set<nat>, b: System, es: seq<Event>, sys: System)
    requires Booted(s, bitmap, b) && VGA_FRAME in s.pool.used && Reaches(b, es, sys)
    ensures MmuPhys(sys.s.mem, sys.s.dir, TermModel.VGA_MEMORY) == Some(TermModel.VGA_MEMORY)
      <==> sys.s.dir == sys.kernelDir
  {
    var heap := WalkAsBooted(s, bitmap, b, es, sys);
    assert TermModel.VGA_MEMORY == 4096 * VGA_FRAME;
    if sys.s.dir != sys.kernelDir {
      var i :| 0 <= i < |sys.procs| && sys.s.dir == sys.procs[i].dir;
      LostInProcess(sys, sys.procs[i]);
    }
  }

  // Clearing the screen by 2J points the terminal back at the physical address. The terminal still
  // reaches the VGA memory after it if and only if the kernel's own directory is active.
  lemma ClearKeepsVgaExactly(s: State, bitmap: set<nat>, b: System, es: seq<Event>, sys: System,
                             t: TermModel.Term, args: seq<nat>, count: nat)
    requires Booted(s, bitmap, b) && VGA_FRAME in s.pool.used && Reaches(b, es, sys)
    requires |t.cells| == TermModel.CELLS && |args| == 32 && count <= 32 && args[0] == 2
    ensures var u := TermModel.Obey(t, 'J', args, count);
      && u.address < WRAP
      && (MmuPhys(sys.s.mem, sys.s.dir, u.address) == Some(0xB_8000) <==> sys.s.dir == sys.kernelDir)
  {
    PhysicalReachesExactly(s, bitmap, b, es, sys);
    assert TermModel.VGA_MEMORY == 4096 * VGA_FRAME;
  }

  // pmm_init retains the VGA memory when the kernel ends behind it, whatever the memory map says.
  lemma VgaRetained(s: State, prior: set<nat>, max: nat, entries: seq<MapEntry>, kernelEnd: nat)
    requires FromMap(s, prior, max, entries, kernelEnd) && BLOCK_SIZE * (VGA_FRAME + 1) <= kernelEnd
    ensures VGA_FRAME in s.pool.used
  {
    PoolForPaging(prior, max, entries, kernelEnd, VGA_FRAME);
  }
}
