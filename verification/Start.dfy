// From the boot loader's memory map to a kernel that can create processes (kernel/src/kernel.c, lines
// 107 and 108).
module Start {
  import opened PmmModel
  import opened PmmInit
  import opened Mmu
  import opened PagingModel
  import opened BootModel
  import opened Kheap
  import opened Isolation
  import opened Pmm
  import opened Paging
  import Boot
  import Tty
  import Proc

  // pmm_init, then paging_init. With a map whose entries have a length, and a bitmap that ends well, the
  // start finishes exactly when the page tables and the heap's frames can be had, and then leaves a valid
  // kernel: an isolated system without processes, in which the bitmap's frames are reserved.
  method StartKernel(machine: Machine, heap: Heap, terminal: Tty.Terminal, boot: BootInfo, kernelEnd: nat)
    returns (r: Outcome, kernel: Proc.Kernel?)
    requires machine.pmm.FitsMap(boot, kernelEnd)
    requires forall i :: 0 <= i < |boot.Entries()| ==> boot.Entries()[i].len > 0
    requires Below4GB(boot.Entries()) && BitmapEnd(kernelEnd, boot.Blocks()) < WRAP
    requires EndsWell(UsedBits(machine.pmm.bitmap[..]), boot.Blocks(), boot.Entries(), kernelEnd)
    requires machine.cr3 < 1024 && BLOCK_SIZE * (machine.cr3 + 1) <= kernelEnd && BootRow(machine.mem[machine.cr3])
    requires heap.heapPointer == HEAP_BASE
    modifies machine`mem, machine.pmm, machine.pmm.bitmap, terminal`address
    ensures r == Finished <==>
      Boots(old(machine.mem), machine.cr3, old(UsedBits(machine.pmm.bitmap[..])), boot, kernelEnd)
    ensures r == Finished ==>
      && kernel != null && fresh(kernel) && kernel.Valid() && kernel.sys.procs == []
      && kernel.machine == machine && kernel.heap == heap && terminal.address == 0xCFFF_F000
      && kernel.sys.bitmap == BitmapFrames(kernelEnd, boot.Blocks())
  {
    ghost var prior, max, entries := UsedBits(machine.pmm.bitmap[..]), boot.Blocks(), boot.Entries();
    ghost var bitmap := BitmapFrames(kernelEnd, max);
    InitExact(prior, max, entries, kernelEnd);
    var done := machine.pmm.Init(boot, kernelEnd);
    PoolForPaging(prior, max, entries, kernelEnd, machine.cr3);
    ghost var s := machine.View();
    r := Boot.PagingInit(machine, terminal, bitmap);
    if r != Finished {
      return r, null;
    }
    BootIsolated(s, bitmap);
    kernel := new Proc.Kernel(machine, heap, bitmap);
  }
}
