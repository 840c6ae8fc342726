// The kernel's processes (kernel/src/sys/proc.c): creation, the timer switch and user stores on one
// machine, with the isolated system they step through.
module Proc {
  import opened PmmModel
  import opened Mmu
  import opened PagingModel
  import opened ProcModel
  import opened Kheap
  import opened Isolation
  import opened Paging
  import RingModel
  import opened Backing
  import opened Scheduler
  import AddressSpace

  const USER_CODE := 0x1B // GDT_SELECTOR_USER_CODE, privilege 3
  const USER_DATA := 0x23 // GDT_SELECTOR_USER_DATA, privilege 3
  const INITIAL := RingModel.Registers(0, 0xBFFF_FFFC, 0, USER_CODE, USER_DATA)

  class Kernel {
    const machine: Machine
    const heap: Heap
    const sched: Scheduler
    ghost var sys: System

    ghost predicate MemoryValid()
      reads this, machine, machine.pmm, machine.pmm.bitmap, heap
    {
      && machine.pmm.Valid() && sched.machine == machine
      && Isolated(sys) && sys.s == machine.View() && sys.heap == heap.heapPointer
    }

    ghost predicate RingValid()
      reads this, sched, sched.ring
    {
      sched.Linked() && RingBacked(sys, sched.View()) && sched.nextPid == |sys.procs| + 1
    }

    ghost predicate Valid()
      reads this, machine, machine.pmm, machine.pmm.bitmap, heap, sched, sched.ring
    {
      MemoryValid() && RingValid()
    }

    // After paging_init: no processes yet.
    constructor (machine: Machine, heap: Heap, ghost bitmap: set<nat>)
      requires machine.pmm.Valid() && heap.heapPointer == HEAP_BASE
      requires Isolated(System(machine.View(), HEAP_BASE, machine.cr3, machine.pmm.pool.used, bitmap, []))
      ensures Valid() && sys.procs == [] && sys.bitmap == bitmap && sched.ring == []
      ensures this.machine == machine && this.heap == heap && fresh(sched)
    {
      this.machine := machine;
      this.heap := heap;
      sched := new Scheduler(machine);
      sys := System(machine.View(), HEAP_BASE, machine.cr3, machine.pmm.pool.used, bitmap, []);
    }

    // Lines 28-71: the record, the kernel stack and the address space.
    method BuildProcess(code: Program) returns (r: Outcome, pd: nat, kernelStack: nat, ghost next: System)
      requires MemoryValid() && CodeFits(code)
      modifies heap, machine`mem, machine`cr3, machine.pmm`usedBlocks, machine.pmm`pool, machine.pmm.bitmap
      ensures machine.pmm.Valid() && pd < WRAP
      ensures r == Finished <==> |Isolation.Step(sys, Create(code)).procs| > |sys.procs|
      ensures r == Finished ==>
        && next == Isolation.Step(sys, Create(code)) && Grown(sys, next, pd, kernelStack)
        && Isolated(next) && next.s == machine.View() && next.heap == heap.heapPointer
    {
      pd, kernelStack, next := 0, 0, sys;
      var record := heap.Kmalloc(RECORD_SIZE);
      var stackArea := heap.Kmalloc(4096);
      if record == None || stackArea == None {
        NothingCreated(sys, code);
        return Unchecked, pd, kernelStack, sys;
      }
      kernelStack := stackArea.value + 4096 - 1;
      ActiveIsCaller(sys);
      r, pd := AddressSpace.BuildSpace(machine, code);
      if r != Finished {
        NothingCreated(sys, code);
        return r, 0, kernelStack, sys;
      }
      CreationGrows(sys, code);
      next := Isolation.Step(sys, Create(code));
    }

    // Lines 73-96: the process joins the ring after the current one.
    method Enqueue(pd: RingModel.Address, kernelStack: nat, codeLen: nat) returns (process: Process)
      requires sched.Linked()
      modifies sched`current, sched`ring, sched`tasks, sched`nextPid, sched.ring`next
      ensures fresh(process) && process !in old(sched.ring) && sched.Linked()
      ensures process.codeLen == codeLen && process.stackLen == STACK_PAGES
      ensures process.registers == RingModel.Registers(0, 0xBFFF_FFFC, 0, 0x1B, 0x23)
      ensures process.Task() == RingModel.Task(old(sched.nextPid), process.registers, pd, kernelStack)
      ensures sched.nextPid == RingModel.NextPid(process.Task().pid)
      ensures sched.View() == RingModel.Joined(old(sched.View()), process, process.Task())
    {
      process := new Process(sched.nextPid, codeLen, STACK_PAGES, pd, kernelStack, INITIAL);
      sched.nextPid := RingModel.NextPid(sched.nextPid);
      sched.Insert(process);
    }

    // The new process of the system joins the ring.
    method JoinRing(pd: RingModel.Address, kernelStack: nat, codeLen: nat, ghost was: System)
      returns (process: Process)
      requires Isolated(sys) && Grown(was, sys, pd, kernelStack)
      requires sched.Linked() && RingBacked(was, sched.View()) && sched.nextPid == |was.procs| + 1
      modifies sched`current, sched`ring, sched`tasks, sched`nextPid, sched.ring`next
      ensures RingValid() && fresh(process) && ReadyToStart(sys, |was.procs|, process.Task())
      ensures process.codeLen == codeLen && process.stackLen == STACK_PAGES
      ensures sched.View() == RingModel.Joined(old(sched.View()), process, process.Task())
    {
      ghost var v := sched.View();
      process := Enqueue(pd, kernelStack, codeLen);
      Joins(was, sys, v, process, process.Task(), sched.View(), sched.nextPid);
    }

    // And the kernel is valid again.
    method Adopt(pd: RingModel.Address, kernelStack: nat, codeLen: nat, ghost was: System) returns (process: Process)
      requires MemoryValid() && Grown(was, sys, pd, kernelStack)
      requires sched.Linked() && RingBacked(was, sched.View()) && sched.nextPid == |was.procs| + 1
      modifies sched`current, sched`ring, sched`tasks, sched`nextPid, sched.ring`next
      ensures Valid() && fresh(process) && ReadyToStart(sys, |was.procs|, process.Task())
      ensures process.codeLen == codeLen && process.stackLen == STACK_PAGES
      ensures sched.View() == RingModel.Joined(old(sched.View()), process, process.Task())
    {
      process := JoinRing(pd, kernelStack, codeLen, was);
      assert machine.pmm.Valid();
    }

    // Lines 28-71, with the isolated system taken along.
    method AddProcess(code: Program) returns (r: Outcome, pd: nat, kernelStack: nat)
      requires MemoryValid() && CodeFits(code)
      modifies this`sys, heap, machine`mem, machine`cr3
      modifies machine.pmm`usedBlocks, machine.pmm`pool, machine.pmm.bitmap
      ensures pd < WRAP
      ensures r == Finished <==> |Isolation.Step(old(sys), Create(code)).procs| > |old(sys).procs|
      ensures r == Finished ==>
        MemoryValid() && sys == Isolation.Step(old(sys), Create(code)) && Grown(old(sys), sys, pd, kernelStack)
    {
      ghost var next;
      r, pd, kernelStack, next := BuildProcess(code);
      sys := next;
    }

    // proc_run_code. The program is given as its bytes.
    method RunCode(code: Program) returns (r: Outcome, process: Process?)
      requires Valid() && CodeFits(code)
      modifies this`sys, heap, machine`mem, machine`cr3
      modifies machine.pmm`usedBlocks, machine.pmm`pool, machine.pmm.bitmap
      modifies sched`current, sched`ring, sched`tasks, sched`nextPid, sched.ring`next
      ensures r == Finished <==> |Isolation.Step(old(sys), Create(code)).procs| > |old(sys).procs|
      ensures r == Finished ==> Valid() && sys == Isolation.Step(old(sys), Create(code))
      ensures r == Finished ==>
        && process != null && fresh(process) && process.codeLen == CodePages(code) && process.stackLen == 10
        && sched.View() == RingModel.Joined(old(sched.View()), process, process.Task())
        && ReadyToStart(sys, |old(sys.procs)|, process.Task()) && sched.nextPid == old(sched.nextPid) + 1
      ensures r != Finished ==> process == null && sched.View() == old(sched.View())
    {
      ghost var was := sys;
      var pd, kernelStack;
      r, pd, kernelStack := AddProcess(code);
      assert sched.View() == old(sched.View());
      assert sched.Linked();
      process := null;
      if r == Finished {
        process := Adopt(pd, kernelStack, CodePages(code), was);
      }
    }

    // The ghost system catches up with the machine.
    ghost method Track(next: System)
      requires machine.pmm.Valid() && sched.machine == machine && sched.Linked()
      requires Isolated(next) && next.s == machine.View() && next.heap == heap.heapPointer
      requires RingBacked(next, sched.View()) && sched.nextPid == |next.procs| + 1
      modifies this`sys
      ensures sys == next && Valid()
    {
      sys := next;
    }

    // proc_timer_callback: the next process runs in its own address space, on its own kernel stack.
    method TimerCallback(regs: RingModel.Registers) returns (r: Option<RingModel.Resume>, ghost i: nat)
      requires Valid()
      modifies this`sys, sched`current, sched`ring, sched`tasks, sched`esp0, sched.ring`registers, machine`cr3
      ensures Valid() && sched.View() == RingModel.Ticked(old(sched.View()), regs)
      ensures r == RingModel.TickResume(old(sched.View())) && Handover(old(sys), sys, i, r)
    {
      ghost var next;
      i, next := TickTo(sys, sched.View(), regs);
      r := Tick(regs, i, next);
      Track(next);
    }

    // The switch itself, towards the system that `next` says.
    method Tick(regs: RingModel.Registers, ghost i: nat, ghost next: System) returns (r: Option<RingModel.Resume>)
      requires sched.machine == machine && RingValid() && sys.s == machine.View() && Sized(sys.s.pool)
      requires RingBacked(next, RingModel.Ticked(sched.View(), regs))
      requires next == WithState(sys, RingState(sys.s, sched.View()))
      requires Handover(sys, next, i, RingModel.TickResume(sched.View()))
      modifies sched`current, sched`ring, sched`tasks, sched`esp0, sched.ring`registers, machine`cr3
      ensures sched.Linked() && sched.View() == RingModel.Ticked(old(sched.View()), regs)
      ensures RingBacked(next, sched.View()) && next.s == machine.View() && Handover(sys, next, i, r)
      ensures r == RingModel.TickResume(old(sched.View())) && sched.nextPid == old(sched.nextPid)
    {
      r := sched.TimerCallback(regs);
    }

    // A store by user code.
    method UserStore(vp: nat, word: nat, value: Word)
      requires Valid() && vp < PAGES && word < 1024
      modifies this`sys, machine`mem
      ensures Valid() && sys == Isolation.Step(old(sys), Event.UserStore(vp, word, value))
    {
      ghost var next := StoreTo(sys, vp, word, value);
      machine.UserStore(vp, word, value);
      StoreRingBacked(sys, next, sched.View());
      Track(next);
    }
  }
}
