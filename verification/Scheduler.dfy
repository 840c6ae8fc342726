// The process ring and the switch (kernel/src/sys/proc.c, lines 87-225): records linked through
// `next`, proved against the operations of RingModel.
module Scheduler {
  import opened PmmModel
  import opened RingModel
  import opened Paging

  class Process {
    var next: Process?
    var pid: nat
    var codeLen: nat
    var stackLen: nat
    var directory: Address
    var kernelStack: nat
    var registers: Registers

    constructor (pid: nat, codeLen: nat, stackLen: nat, directory: Address, kernelStack: nat, registers: Registers)
      ensures next == null && this.pid == pid && this.codeLen == codeLen && this.stackLen == stackLen
      ensures Task() == RingModel.Task(pid, registers, directory, kernelStack)
    {
      next := null;
      this.pid := pid;
      this.codeLen := codeLen;
      this.stackLen := stackLen;
      this.directory := directory;
      this.kernelStack := kernelStack;
      this.registers := registers;
    }

    function Task(): Task
      reads this
    {
      RingModel.Task(pid, registers, directory, kernelStack)
    }
  }

  class Scheduler {
    var current: Process?
    var nextPid: nat
    var esp0: nat // the stack an interrupt from user mode gets
    const machine: Machine
    ghost var ring: seq<Process>
    ghost var tasks: map<Process, Task>

    constructor (machine: Machine)
      ensures Linked() && ring == [] && nextPid == 1 && this.machine == machine
    {
      current := null;
      nextPid := 1;
      esp0 := 0;
      this.machine := machine;
      ring := [];
      tasks := map[];
    }

    // `next` runs through the ring and back to the current process.
    ghost predicate Linked()
      reads this, ring
    {
      && (current == null <==> ring == [])
      && (ring != [] ==> current == ring[0])
      && Distinct(ring)
      && (forall i | 0 <= i < |ring| :: ring[i].next == Behind(ring, i))
      && (forall i | 0 <= i < |ring| :: ring[i] in tasks && tasks[ring[i]] == ring[i].Task())
    }

    ghost function View(): Sched<Process>
      reads this
    {
      Sched(ring, tasks)
    }

    // Following `next` k times from the current process.
    ghost function Follow(k: nat): (p: Process)
      requires Linked() && current != null
      reads this, ring
      ensures p == ring[k % |ring|]
    {
      PlaceIsRemainder(k, |ring|);
      FollowTo(k)
    }

    ghost function FollowTo(k: nat): (p: Process)
      requires Linked() && current != null
      reads this, ring
      ensures p == ring[Place(k, |ring|)]
    {
      if k == 0 then current
      else
        assert FollowTo(k - 1).next == Behind(ring, Place(k - 1, |ring|));
        FollowTo(k - 1).next
    }

    // The links visit every process of the ring exactly once and then are back.
    lemma FollowVisitsOnce(p: Process) returns (k: nat)
      requires Linked() && p in ring
      ensures k < |ring| && forall j: nat | j < |ring| :: (Follow(j) == p <==> j == k)
      ensures Follow(|ring|) == current
    {
      k :| 0 <= k < |ring| && ring[k] == p;
      forall j: nat | j < |ring| ensures Follow(j) == p <==> j == k {
        OnlyAt(ring, k, j);
      }
    }

    // Lines 87-96. The branch for a current process without a successor is not taken in a linked ring.
    method Insert(process: Process)
      requires Linked() && process !in ring && process.next == null
      modifies this`current, this`ring, this`tasks, ring`next, process`next
      ensures Linked() && View() == Joined(old(View()), process, process.Task())
    {
      StepOk(View(), Create(process, process.Task()));
      ghost var was := ring;
      assert was != [] ==> was[0].next == Behind(was, 0);
      if current != null && current.next != null {
        var p := current.next;
        current.next := process;
        process.next := p;
      } else if current == null {
        current := process;
        current.next := current;
      }
      ring := InsertNext(ring, process);
      tasks := tasks[process := process.Task()];
      forall i | 0 <= i < |ring| ensures ring[i].next == Behind(ring, i) && tasks[ring[i]] == ring[i].Task() {
        if i >= 2 {
          assert ring[i] == was[i - 1] && was[i - 1].next == Behind(was, i - 1);
        }
      }
    }

    // Line 180.
    method Save(regs: Registers)
      requires Linked() && current != null
      modifies this`tasks, current`registers
      ensures Linked() && tasks == old(tasks)[current := WithRegisters(old(tasks[current]), regs)]
    {
      current.registers := regs;
      tasks := tasks[current := WithRegisters(tasks[current], regs)];
    }

    // Line 183; the abort on line 187 cannot be reached from a linked ring.
    method Advance()
      requires Linked() && current != null
      modifies this`current, this`ring
      ensures Linked() && current != null && ring == Rotate(old(ring))
    {
      StepOk(View(), Dispatch);
      ghost var was := ring;
      assert was[0].next == Behind(was, 0);
      current := current.next;
      ring := Rotate(ring);
      forall i | 0 <= i < |ring| ensures ring[i].next == Behind(ring, i) {
        if i < |ring| - 1 {
          assert ring[i] == was[i + 1] && was[i + 1].next == Behind(was, i + 1);
        }
      }
    }

    // Lines 177-225, up to the interrupt return.
    method SwitchProcess(regs: Option<Registers>) returns (r: Resume)
      requires Linked() && current != null
      modifies this`current, this`ring, this`tasks, this`esp0, current`registers, machine`cr3
      ensures Linked() && View() == Switched(old(View()), regs)
      ensures current != null && r == ResumeOf(current.Task())
      ensures esp0 == current.kernelStack && machine.cr3 == current.directory / 4096
    {
      if regs.Some? {
        Save(regs.value);
      }
      Advance();
      esp0 := current.kernelStack;
      machine.SwitchDirectory(current.directory);
      var esp, eip, eflags := current.registers.esp, current.registers.eip, current.registers.eflags;
      return Resume(eip, 0x1B, WithInterrupts(eflags), esp, 0x23, current.directory, esp0);
    }

    // Lines 162-171. None: the interrupted process goes on.
    method TimerCallback(regs: Registers) returns (r: Option<Resume>)
      requires Linked()
      modifies this`current, this`ring, this`tasks, this`esp0, ring`registers, machine`cr3
      ensures Linked() && View() == Ticked(old(View()), regs)
      ensures r == TickResume(old(View()))
      ensures r.None? ==> machine.cr3 == old(machine.cr3)
      ensures r.Some? ==> machine.cr3 == r.value.directory / 4096 && esp0 == r.value.kernelStack
    {
      if current == null || current.next == current {
        return None;
      }
      if current.next != null {
        var resume := SwitchProcess(Some(regs));
        return Some(resume);
      }
      return None;
    }

    // Lines 103-114: what is printed.
    method PrintProcesses() returns (pids: seq<nat>)
      requires Linked() && current != null
      ensures |pids| == |ring| && forall i | 0 <= i < |ring| :: pids[i] == ring[i].pid
    {
      var p := current.next;
      pids := [current.pid];
      ghost var i := 0;
      assert ring[0].next == Behind(ring, 0);
      while p != current
        invariant i < |ring| && p == Behind(ring, i) && |pids| == i + 1
        invariant forall j | 0 <= j <= i :: pids[j] == ring[j].pid
        decreases |ring| - i
      {
        pids := pids + [p.pid];
        i := i + 1;
        assert ring[i].next == Behind(ring, i);
        p := p.next;
      }
    }

    // Lines 136-157, after the frames are freed. None: the last process is gone, and the kernel aborts.
    method ExitCurrent() returns (r: Option<Resume>)
      requires Linked() && current != null
      modifies this`current, this`ring, this`tasks, this`esp0, ring`next, ring`registers, machine`cr3
      ensures r.None? <==> |old(ring)| == 1
      ensures r.Some? ==> Linked() && View() == Next(old(View()), Exit)
      ensures r.Some? ==> current != null && r.value == ResumeOf(current.Task())
      ensures r.Some? ==> esp0 == current.kernelStack && machine.cr3 == current.directory / 4096
    {
      ghost var was := ring;
      assert was[0].next == Behind(was, 0);
      if current.next == current {
        return None;
      }
      var p := Predecessor();
      Remove(p);
      var pids := PrintProcesses();
      RotatedBack(was);
      var resume := SwitchProcess(None);
      return Some(resume);
    }

    // Lines 149-155: the predecessor skips the current process and takes its place.
    method Remove(p: Process)
      requires Linked() && |ring| >= 2 && p == ring[|ring| - 1]
      modifies this`current, this`ring, this`tasks, p`next
      ensures Linked() && ring == [p] + old(ring)[1..|old(ring)| - 1] && tasks == old(tasks) - {old(ring)[0]}
    {
      ghost var was := ring;
      assert was[0].next == Behind(was, 0);
      p.next := current.next;
      current := p;
      ring, tasks := [p] + was[1..|was| - 1], tasks - {was[0]};
      forall i | 0 <= i < |ring| ensures ring[i].next == Behind(ring, i) {
        if i >= 1 {
          assert ring[i] == was[i] && was[i].next == Behind(was, i);
        }
      }
    }

    // The walk on lines 144-147 ends at the process whose next is the current one.
    method Predecessor() returns (p: Process)
      requires Linked() && |ring| >= 2
      ensures p == ring[|ring| - 1]
    {
      assert ring[0].next == Behind(ring, 0);
      p := current.next;
      ghost var i := 1;
      assert ring[1].next == Behind(ring, 1);
      while p.next != current
        invariant i < |ring| && p == ring[i] && p.next == Behind(ring, i)
        decreases |ring| - i
      {
        p := p.next;
        i := i + 1;
        assert ring[i].next == Behind(ring, i);
      }
    }
  }
}
