// Which process of the isolated system each member of the ring stands for, step by step.
module Backing {
  import opened PmmModel
  import opened Mmu
  import opened PagingModel
  import opened ProcModel
  import opened Kheap
  import opened Isolation
  import opened RingModel

  // A ring member with this context is process i of the system.
  ghost predicate StandsFor(sys: System, i: nat, t: Task) {
    && i < |sys.procs| && t.pid == i + 1
    && t.directory == sys.procs[i].dir * 4096 && t.kernelStack == sys.procs[i].kernelStack
  }

  ghost predicate Backed(sys: System, t: Task) {
    exists i :: StandsFor(sys, i, t)
  }

  ghost predicate AllBacked<T>(sys: System, v: Sched<T>) {
    forall k | 0 <= k < |v.ring| :: v.ring[k] in v.tasks && Backed(sys, v.tasks[v.ring[k]])
  }

  ghost predicate DirectoriesDiffer<T>(v: Sched<T>)
    requires forall k | 0 <= k < |v.ring| :: v.ring[k] in v.tasks
  {
    forall j, k | 0 <= j < k < |v.ring| :: v.tasks[v.ring[j]].directory != v.tasks[v.ring[k]].directory
  }

  // Every ring member stands for a process of the system, no two for the same one, and the active
  // directory is the kernel's until the first switch and the current process's from then on.
  ghost predicate RingBacked<T>(sys: System, v: Sched<T>) {
    && AllBacked(sys, v) && DirectoriesDiffer(v)
    && (sys.s.dir == sys.kernelDir || (v.ring != [] && v.tasks[v.ring[0]].directory == sys.s.dir * 4096))
  }

  // The process that ring member k stands for.
  ghost function ProcessOf<T>(sys: System, v: Sched<T>, k: nat): (i: nat)
    requires RingBacked(sys, v) && k < |v.ring|
    ensures StandsFor(sys, i, v.tasks[v.ring[k]])
  {
    assert Backed(sys, v.tasks[v.ring[k]]);
    var i: nat :| StandsFor(sys, i, v.tasks[v.ring[k]]);
    i
  }

  // The ring is an injection into the system's processes, and it is the only one.
  lemma OneProcessEach<T>(sys: System, v: Sched<T>, j: nat, k: nat, i: nat)
    requires Isolated(sys) && RingBacked(sys, v) && j < |v.ring| && k < |v.ring|
    ensures ProcessOf(sys, v, j) == ProcessOf(sys, v, k) ==> j == k
    ensures StandsFor(sys, i, v.tasks[v.ring[k]]) ==> i == ProcessOf(sys, v, k)
  {
    if j != k {
      var lo, hi := if j < k then j else k, if j < k then k else j;
      assert v.tasks[v.ring[lo]].directory != v.tasks[v.ring[hi]].directory;
    }
  }

  // So the process numbers in the ring are all different.
  lemma PidsDiffer<T>(sys: System, v: Sched<T>, j: nat, k: nat)
    requires Isolated(sys) && RingBacked(sys, v) && j < k < |v.ring|
    ensures v.tasks[v.ring[j]].pid != v.tasks[v.ring[k]].pid
  {
    OneProcessEach(sys, v, j, k, ProcessOf(sys, v, j));
  }

  lemma DirsDiffer(sys: System, i: nat, j: nat)
    requires Isolated(sys) && i < j < |sys.procs|
    ensures sys.procs[i].dir != sys.procs[j].dir
  {
    assert Separate(sys.s.mem, sys.procs[i], sys.procs[j]);
    assert Owns(sys.s.mem, sys.procs[i], sys.procs[i].dir);
    assert Owns(sys.s.mem, sys.procs[j], sys.procs[j].dir);
  }

  // --- Creation ------------------------------------------------------------------------------------

  // The isolated system after one more process.
  ghost predicate Grown(sys: System, sys': System, directory: nat, kernelStack: nat) {
    var n := |sys.procs|;
    && sys'.kernelDir == sys.kernelDir && sys'.s.dir == sys.s.dir
    && |sys'.procs| == n + 1 && sys'.procs[..n] == sys.procs
    && sys'.procs[n].dir * 4096 == directory && sys'.procs[n].kernelStack == kernelStack
  }

  lemma CreationGrows(sys: System, code: Program)
    requires Isolated(sys) && CodeFits(code) && BuildSpace(sys.s, code).Process?
    requires Bump(sys.heap, RECORD_SIZE).addr.Some? && Bump(Bump(sys.heap, RECORD_SIZE).top, 4096).addr.Some?
    ensures var b, k := BuildSpace(sys.s, code), Bump(Bump(sys.heap, RECORD_SIZE).top, 4096);
      var sys' := Isolation.Step(sys, Isolation.Create(code));
      Isolated(sys') && sys'.s == b.s && sys'.heap == k.top && Grown(sys, sys', b.pd * 4096, k.addr.value + 4095)
  {
    StepKeeps(sys, Isolation.Create(code));
    ActiveIsCaller(sys);
    SpaceBuilt(sys.s, code);
  }

  lemma NothingCreated(sys: System, code: Program)
    requires Sized(sys.s.pool) && CodeFits(code)
    requires Bump(sys.heap, RECORD_SIZE).addr.Some? && Bump(Bump(sys.heap, RECORD_SIZE).top, 4096).addr.Some? ==>
      !BuildSpace(sys.s, code).Process?
    ensures Isolation.Step(sys, Isolation.Create(code)) == sys
  {
  }

  // A ring member from before still stands for its process, which is not the new one.
  lemma MemberStillBacked<T>(sys: System, sys': System, v: Sched<T>, k: nat, t: Task)
    requires RingBacked(sys, v) && Grown(sys, sys', t.directory, t.kernelStack) && Isolated(sys') && k < |v.ring|
    ensures Backed(sys', v.tasks[v.ring[k]]) && v.tasks[v.ring[k]].directory != t.directory
  {
    var i := ProcessOf(sys, v, k);
    assert sys'.procs[i] == sys.procs[i];
    assert StandsFor(sys', i, v.tasks[v.ring[k]]);
    DirsDiffer(sys', i, |sys.procs|);
  }

  // Where a member of the longer ring was before.
  lemma JoinedMember<T>(v: Sched<T>, x: T, t: Task, k: nat) returns (j: nat)
    requires k <= |v.ring| && x !in v.ring && forall i | 0 <= i < |v.ring| :: v.ring[i] in v.tasks
    ensures var u := RingModel.Joined(v, x, t);
      && |u.ring| == |v.ring| + 1 && u.ring[k] in u.tasks
      && (if u.ring[k] == x then u.tasks[u.ring[k]] == t
          else j < |v.ring| && u.ring[k] == v.ring[j] && u.tasks[u.ring[k]] == v.tasks[v.ring[j]])
  {
    j := if k == 0 then 0 else k - 1;
  }

  lemma StillAllBacked<T>(sys: System, sys': System, v: Sched<T>, x: T, t: Task)
    requires RingBacked(sys, v) && Grown(sys, sys', t.directory, t.kernelStack) && Isolated(sys') && x !in v.ring
    requires t.pid == |sys.procs| + 1
    ensures AllBacked(sys', RingModel.Joined(v, x, t))
  {
    var u := RingModel.Joined(v, x, t);
    assert StandsFor(sys', |sys.procs|, t);
    forall k | 0 <= k < |u.ring| ensures u.ring[k] in u.tasks && Backed(sys', u.tasks[u.ring[k]]) {
      var j := JoinedMember(v, x, t, k);
      if u.ring[k] != x {
        MemberStillBacked(sys, sys', v, j, t);
      }
    }
  }

  lemma DirectoriesStillDiffer<T>(v: Sched<T>, x: T, t: Task)
    requires x !in v.ring && (forall k | 0 <= k < |v.ring| :: v.ring[k] in v.tasks) && DirectoriesDiffer(v)
    requires forall k | 0 <= k < |v.ring| :: v.tasks[v.ring[k]].directory != t.directory
    ensures var u := RingModel.Joined(v, x, t);
      (forall k | 0 <= k < |u.ring| :: u.ring[k] in u.tasks) && DirectoriesDiffer(u)
  {
  }

  lemma StillBacked<T>(sys: System, sys': System, v: Sched<T>, x: T, t: Task)
    requires RingBacked(sys, v) && Grown(sys, sys', t.directory, t.kernelStack) && x !in v.ring
    requires Isolated(sys') && t.pid == |sys.procs| + 1
    ensures RingBacked(sys', RingModel.Joined(v, x, t))
  {
    forall k | 0 <= k < |v.ring| ensures v.tasks[v.ring[k]].directory != t.directory {
      MemberStillBacked(sys, sys', v, k, t);
    }
    StillAllBacked(sys, sys', v, x, t);
    DirectoriesStillDiffer(v, x, t);
  }

  // --- Switches ------------------------------------------------------------------------------------

  // Without a resume nothing happens; else the interrupt return goes to the address space and the
  // kernel stack of process i.
  ghost predicate Handover(sys: System, sys': System, i: nat, r: Option<Resume>)
    requires Sized(sys.s.pool)
  {
    match r
    case None => sys' == sys
    case Some(to) =>
      && i < |sys.procs| && sys' == Isolation.Step(sys, Switch(i))
      && to.directory == sys.procs[i].dir * 4096 && to.kernelStack == sys.procs[i].kernelStack
  }

  // The machine after a tick.
  ghost function RingState<T>(s: State, v: Sched<T>): State
    requires |v.ring| >= 2 ==> v.ring[1] in v.tasks
  {
    if |v.ring| < 2 then s else WithDir(s, NextTask(v).directory / 4096)
  }

  // A tick that switches goes to the process the next ring member stands for.
  lemma TickTo<T>(sys: System, v: Sched<T>, regs: Registers) returns (i: nat, next: System)
    requires Isolated(sys) && RingBacked(sys, v)
    ensures Isolated(next) && RingBacked(next, Ticked(v, regs)) && Handover(sys, next, i, TickResume(v))
    ensures next == WithState(sys, RingState(sys.s, v)) && |next.procs| == |sys.procs|
  {
    i, next := 0, sys;
    if |v.ring| >= 2 {
      i, next := SwitchTo(sys, v, regs);
    }
  }

  lemma SwitchTo<T>(sys: System, v: Sched<T>, regs: Registers) returns (i: nat, next: System)
    requires Isolated(sys) && RingBacked(sys, v) && |v.ring| >= 2
    ensures Isolated(next) && RingBacked(next, Ticked(v, regs))
    ensures Handover(sys, next, i, Some(ResumeOf(NextTask(v))))
    ensures next == WithState(sys, WithDir(sys.s, NextTask(v).directory / 4096))
  {
    i := ProcessOf(sys, v, 1);
    SwitchKeeps(sys, i);
    next := Isolation.Step(sys, Switch(i));
    TurnBacked(sys, next, v, regs);
  }

  lemma TurnBacked<T>(sys: System, next: System, v: Sched<T>, regs: Registers)
    requires RingBacked(sys, v) && |v.ring| >= 2
    requires next.procs == sys.procs && NextTask(v).directory == next.s.dir * 4096
    ensures RingBacked(next, Ticked(v, regs))
  {
    var u := Ticked(v, regs);
    forall k | 0 <= k < |u.ring|
      ensures u.ring[k] in u.tasks && Backed(next, u.tasks[u.ring[k]])
      ensures u.tasks[u.ring[k]].directory == v.tasks[Behind(v.ring, k)].directory
    {
      var j := if k + 1 < |v.ring| then k + 1 else 0;
      assert u.ring[k] == v.ring[j] == Behind(v.ring, k);
      var i := ProcessOf(sys, v, j);
      assert StandsFor(next, i, u.tasks[u.ring[k]]);
    }
  }

  // --- Stores --------------------------------------------------------------------------------------

  lemma StoreTo(sys: System, vp: nat, word: nat, value: Word) returns (next: System)
    requires Isolated(sys)
    ensures next == Isolation.Step(sys, UserStore(vp, word, value)) && Isolated(next)
    ensures next == WithState(sys, Stored(sys.s, vp, word, value))
  {
    next := Isolation.Step(sys, UserStore(vp, word, value));
    StoreKeeps(sys, vp, word, value);
  }

  lemma StoreRingBacked<T>(sys: System, next: System, v: Sched<T>)
    requires RingBacked(sys, v) && next == WithState(sys, next.s) && next.s.dir == sys.s.dir
    ensures RingBacked(next, v)
  {
    forall k | 0 <= k < |v.ring| ensures Backed(next, v.tasks[v.ring[k]]) {
      var i := ProcessOf(sys, v, k);
      assert StandsFor(next, i, v.tasks[v.ring[k]]);
    }
  }

  // --- Starting ------------------------------------------------------------------------------------

  // The instruction pointer is the first byte of the process's code, which user code may read but not
  // write, and the stack pointer the last word of its stack, which it may write.
  ghost predicate InOwnImage(m: Memory, p: Proc, eip: nat, esp: nat) {
    && p.code < 0x10_0000 && p.stack + 9 < 0x10_0000
    && eip == 0 && Translate(m, p.dir, eip / 4096) == Page(p.code, true, false)
    && esp + 4 == 0xC000_0000 && Translate(m, p.dir, esp / 4096) == Page(p.stack + 9, true, true)
  }

  // A ring member that stands for process i and has the registers to start it: in its own image, with no
  // flag set, and with the selectors of user code and data.
  ghost predicate ReadyToStart(sys: System, i: nat, t: Task) {
    && StandsFor(sys, i, t)
    && InOwnImage(sys.s.mem, sys.procs[i], t.registers.eip, t.registers.esp)
    && t.registers.eflags == 0 && t.registers.cs == 0x1B && t.registers.ds == 0x23
  }

  // Whatever happens, a process's image begins and ends there.
  lemma ImageEnds(sys: System, i: nat)
    requires Isolated(sys) && i < |sys.procs|
    ensures InOwnImage(sys.s.mem, sys.procs[i], 0, 0xBFFF_FFFC)
  {
    var p := sys.procs[i];
    assert ProcOk(sys, p);
    PagesOfWords(p.text);
    assert Translate(sys.s.mem, p.dir, 0) == Image(0, p.code, p.pages, p.stack);
    assert Translate(sys.s.mem, p.dir, 0xB_FFFF) == Image(0xB_FFFF, p.code, p.pages, p.stack);
  }

  // What the ring and the new process are after it has joined.
  lemma Joins<T>(was: System, sys: System, v: Sched<T>, x: T, t: Task, u: Sched<T>,
                 nextPid: nat)
    requires RingBacked(was, v) && Grown(was, sys, t.directory, t.kernelStack) && Isolated(sys) && x !in v.ring
    requires t.pid == |was.procs| + 1 && t.registers == Registers(0, 0xBFFF_FFFC, 0, 0x1B, 0x23)
    requires u == RingModel.Joined(v, x, t) && nextPid == NextPid(t.pid)
    ensures RingBacked(sys, u) && ReadyToStart(sys, |was.procs|, t)
    ensures nextPid == |sys.procs| + 1
  {
    StillBacked(was, sys, v, x, t);
    ImageEnds(sys, |was.procs|);
    FewProcs(sys);
  }

  // The first word the process runs is the first of its program.
  lemma FirstWord(sys: System, i: nat)
    requires Isolated(sys) && i < |sys.procs| && sys.procs[i].text.words != []
    ensures sys.procs[i].code < 0x10_0000 && sys.s.mem[sys.procs[i].code][0] == sys.procs[i].text.words[0]
  {
    assert ProcOk(sys, sys.procs[i]);
    PagesOfWords(sys.procs[i].text);
  }

  // The interrupt return goes to the start of process i in user mode: eip at its first byte, esp at its
  // last stack word, interrupts on and nothing else in the flags, the selectors of user code and data, and
  // its own address space and kernel stack.
  ghost predicate EntersProcess(sys: System, i: nat, to: Resume) {
    && i < |sys.procs| && InOwnImage(sys.s.mem, sys.procs[i], to.eip, to.esp)
    && to.eflags == 0x200 && to.cs == 0x1B && to.ss == 0x23
    && to.directory == sys.procs[i].dir * 4096 && to.kernelStack == sys.procs[i].kernelStack
  }

  lemma StillEnters(sys: System, es: seq<Isolation.Event>, sys': System, i: nat, t: Task)
    requires Isolated(sys) && Reaches(sys, es, sys') && ReadyToStart(sys, i, t)
    ensures EntersProcess(sys', i, ResumeOf(t))
  {
    ImageStays(sys, es, sys', i);
    EntersImage(sys, sys', i, t);
  }

  lemma EntersImage(sys: System, sys': System, i: nat, t: Task)
    requires ReadyToStart(sys, i, t) && i < |sys'.procs| && sys'.procs[i] == sys.procs[i]
    requires InOwnImage(sys'.s.mem, sys'.procs[i], 0, 0xBFFF_FFFC)
    ensures EntersProcess(sys', i, ResumeOf(t))
  {
  }

  lemma ImageStays(sys: System, es: seq<Isolation.Event>, sys': System, i: nat)
    requires Isolated(sys) && Reaches(sys, es, sys') && i < |sys.procs|
    ensures i < |sys'.procs| && sys'.procs[i] == sys.procs[i]
    ensures InOwnImage(sys'.s.mem, sys'.procs[i], 0, 0xBFFF_FFFC)
  {
    StaysIsolated(sys, es, sys');
    ImageEnds(sys', i);
  }

  lemma StaysIsolated(sys: System, es: seq<Isolation.Event>, sys': System)
    requires Isolated(sys) && Reaches(sys, es, sys')
    ensures Isolated(sys') && sys.procs <= sys'.procs
  {
    RunsKeepIsolation(sys, es, sys');
    ProcsStay(sys, es, sys');
  }

  // From its creation on, through any run of the system and any run of the scheduler that neither saves
  // nor removes it, a process's resume is its start.
  lemma FirstResume<T>(sys: System, es: seq<Isolation.Event>, sys': System, i: nat,
                       v: Sched<T>, x: T, t: Task, evs: seq<RingModel.Event<T>>)
    requires Isolated(sys) && Reaches(sys, es, sys') && ReadyToStart(sys, i, t)
    requires RingModel.Ok(v) && x !in v.ring
    requires (StepOk(v, RingModel.Create(x, t)); var u := Next(v, RingModel.Create(x, t));
      AllAllowed(u, evs) && Unsaved(u, evs, x))
    ensures (StepOk(v, RingModel.Create(x, t)); var w := RingModel.After(Next(v, RingModel.Create(x, t)), evs);
      x in w.tasks && EntersProcess(sys', i, ResumeOf(w.tasks[x])))
  {
    StillEnters(sys, es, sys', i, t);
    StartsAsCreated(v, x, t, evs);
  }
}
