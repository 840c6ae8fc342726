// paging_init (kernel/src/mem/paging.c): the kernel's own directory, edited where the boot code's
// 4 MB page puts it, then extended through the recursive window.
module Boot {
  import opened PmmModel
  import opened Mmu
  import opened PagingModel
  import opened ProcModel
  import opened BootModel
  import opened Paging
  import Tty

  // kernel_directory[i], inside the kernel image.
  function KernelDirectory(dir: nat, i: nat): nat {
    0xC000_0000 + 4096 * dir + 4 * i
  }

  lemma KernelDirectoryAt(m: Memory, dir: FrameNo, i: nat)
    requires dir < 1024 && i < 1024 && m[dir][KERNEL_ENTRY] == BIG
    ensures KernelDirectory(dir, i) < WRAP && Locate(m, dir, KernelDirectory(dir, i)) == Some((dir, i))
  {
  }

  // `bitmap` is the set of frames the allocator's bitmap lies in. They must be marked used: otherwise
  // a page table made here could be one of them, and the bitmap beside the memory would be a fiction.
  // The terminal ends up with a buffer address that leads to the VGA memory.
  method PagingInit(machine: Machine, terminal: Tty.Terminal, ghost bitmap: set<nat>) returns (r: Outcome)
    requires machine.pmm.Valid() && machine.cr3 < 1024 && BootReady(machine.View(), bitmap)
    modifies machine`mem, machine.pmm`usedBlocks, machine.pmm`pool, machine.pmm.bitmap, terminal`address
    ensures machine.pmm.Valid()
    ensures Ends(r, BootModel.PagingInit(old(machine.View())), machine.View())
    ensures r == Finished ==> forall g: FrameNo | g in bitmap :: machine.mem[g] == old(machine.mem)[g]
    ensures terminal.address == if r == Finished then 0xCFFF_F000 else old(terminal.address)
    ensures r == Finished ==> MmuPhys(machine.mem, machine.cr3, 0xCFFF_F000) == Some(0xB_8000)
  {
    ghost var s := machine.View();
    r := MapKernel(machine);
    if r == Finished {
      ghost var heap := KernelMapped(s, bitmap);
      assert Translate(machine.mem, machine.cr3, VGA_PAGE) == KernelImage(VGA_PAGE, heap);
      terminal.SetBuffer(4096 * VGA_PAGE);
    }
  }

  method MapKernel(machine: Machine) returns (r: Outcome)
    requires machine.pmm.Valid() && machine.cr3 < 1024 && BootReady(machine.View(), {})
    modifies machine`mem, machine.pmm`usedBlocks, machine.pmm`pool, machine.pmm.bitmap
    ensures machine.pmm.Valid()
    ensures Ends(r, BootModel.PagingInit(old(machine.View())), machine.View())
  {
    ghost var s := machine.View();
    var dir := machine.cr3;
    KernelDirectoryAt(machine.mem, dir, 1023);
    machine.Write(KernelDirectory(dir, 1023), Created(dir, RW));
    KernelDirectoryAt(machine.mem, dir, 0);
    machine.Write(KernelDirectory(dir, 0), ZERO);
    RootedGood(s);
    assert machine.View() == Rooted(s);
    LowReady(Rooted(s));
    r := machine.MapPages(0, 0, 256, RW);
    if r != Finished {
      return;
    }
    LowMapped(Rooted(s));
    LowEntries(832);
    r := MapHeap(machine);
  }

  // The kernel heap and the VGA page.
  method MapHeap(machine: Machine) returns (r: Outcome)
    requires machine.Valid() && KernelOnly(machine.View()) && !machine.mem[machine.cr3][832].flags.present
    modifies machine`mem, machine.pmm`usedBlocks, machine.pmm`pool, machine.pmm.bitmap
    ensures machine.pmm.Valid()
    ensures Ends(r, AfterLow(Done(old(machine.View()))), machine.View())
  {
    ghost var s := machine.View();
    AllocPagesFits(s.pool, HEAP_PAGES);
    var heap := machine.pmm.AllocPages(HEAP_PAGES);
    if heap == 0 {
      return Unchecked;
    }
    assert machine.View() == WithPool(s, PmmModel.AllocPages(s.pool, HEAP_PAGES).pool);
    HeapReady(machine.View());
    r := machine.MapPages(4096 * HEAP_PAGE, heap, HEAP_PAGES, RW);
    if r != Finished {
      return;
    }
    ghost var frame := HeapMapped(s);
    r := machine.MapPage(4096 * VGA_PAGE, 4096 * VGA_FRAME, RW);
  }
}
