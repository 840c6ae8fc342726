// Isolation between processes over runs of the system: process creation, address-space switches and
// stores by user code, in any order.
module Isolation {
  import opened PmmModel
  import opened Mmu
  import opened PagingModel
  import opened ProcModel
  import opened Kheap

  const RECORD_SIZE := 100 // sizeof(process_t)

  // `text` is the program it was created with, which takes `pages` frames from `code` on.
  datatype Proc = Proc(dir: FrameNo, text: Program, code: nat, pages: nat, stack: nat, record: nat, kernelStack: nat)

  // `reserved` is what was in use when the first process was created, and `bitmap` the frames among it
  // that the allocator's bitmap lies in.
  datatype System =
    System(s: State, heap: nat, kernelDir: FrameNo, reserved: set<nat>, bitmap: set<nat>, procs: seq<Proc>)

  // --- What a process owns -------------------------------------------------------------------------

  ghost predicate OwnsTable(m: Memory, p: Proc, g: nat) {
    exists d :: 0 <= d < KERNEL_ENTRY && m[p.dir][d].flags.present && m[p.dir][d].frame == g
  }

  ghost predicate Owns(m: Memory, p: Proc, g: nat) {
    g == p.dir || g in Span(p.code, p.pages) || g in Span(p.stack, STACK_PAGES) || OwnsTable(m, p, g)
  }

  // The directory, its tables, the code and the stack are four disjoint things.
  ghost predicate PartsApart(m: Memory, p: Proc) {
    && p.dir !in Span(p.code, p.pages) && p.dir !in Span(p.stack, STACK_PAGES)
    && Span(p.code, p.pages) !! Span(p.stack, STACK_PAGES)
    && (forall d | 0 <= d < KERNEL_ENTRY && m[p.dir][d].flags.present ::
         && IsTable(m[p.dir][d]) && m[p.dir][d].frame != p.dir
         && m[p.dir][d].frame !in Span(p.code, p.pages) && m[p.dir][d].frame !in Span(p.stack, STACK_PAGES))
  }

  ghost predicate HasImage(m: Memory, p: Proc) {
    && p.code + p.pages <= 0x10_0000 && p.stack + STACK_PAGES <= 0x10_0000
    && forall vp: nat | vp < KERNEL_PAGE :: Translate(m, p.dir, vp) == Image(vp, p.code, p.pages, p.stack)
  }

  ghost predicate HasText(m: Memory, p: Proc) {
    CodeFits(p.text) && p.pages == CodePages(p.text) && p.code + p.pages <= 0x10_0000 && Holds(m, p.code, p.text)
  }

  ghost predicate SharesKernel(m: Memory, kernelDir: FrameNo, p: Proc) {
    && (forall d | KERNEL_ENTRY <= d < 1023 :: m[p.dir][d] == m[kernelDir][d])
    && m[p.dir][1023] == Created(p.dir, RW)
  }

  // Nothing a process owns is reserved, free, or the table every directory shares.
  ghost predicate Exclusive(sys: System, p: Proc) {
    forall g: nat | Owns(sys.s.mem, p, g) ::
      g in sys.s.pool.used && g !in sys.reserved && g != sys.s.mem[sys.kernelDir][TEMP_ENTRY].frame
  }

  ghost predicate ProcOk(sys: System, p: Proc) {
    && Wired(sys.s.mem, sys.s.pool.used, p.dir)
    && HasImage(sys.s.mem, p) && HasText(sys.s.mem, p) && PartsApart(sys.s.mem, p)
    && SharesKernel(sys.s.mem, sys.kernelDir, p)
    && Exclusive(sys, p)
  }

  // The kernel's own directory: reserved, without user pages, its tables reserved but for the shared
  // one, the page of the temporary mapping absent, and neither it nor its tables in the bitmap's frames,
  // which are reserved.
  ghost predicate KernelOk(sys: System) {
    var m, k := sys.s.mem, sys.kernelDir;
    && Sized(sys.s.pool) && 0 in sys.s.pool.used && sys.reserved <= sys.s.pool.used
    && k in sys.reserved && Wired(m, sys.s.pool.used, k)
    && !IsLarge(m[k][TEMP_ENTRY]) && Translate(m, k, TEMP_PAGE) == Absent
    && (sys.procs != [] ==> m[k][TEMP_ENTRY].flags.present)
    && (forall d | 0 <= d < 1024 :: m[k][d].flags.present ==> !m[k][d].flags.user)
    && (forall d | 0 <= d < 1023 && d != TEMP_ENTRY && IsTable(m[k][d]) :: m[k][d].frame in sys.reserved)
    && sys.bitmap <= sys.reserved && k !in sys.bitmap
    && (forall d | 0 <= d < 1023 && IsTable(m[k][d]) :: m[k][d].frame !in sys.bitmap)
  }

  ghost predicate SameKernel(sys: System, sys': System) {
    sys'.kernelDir == sys.kernelDir && sys'.reserved == sys.reserved && sys'.bitmap == sys.bitmap
  }

  ghost predicate ActiveKnown(sys: System) {
    sys.s.dir == sys.kernelDir || exists i :: 0 <= i < |sys.procs| && sys.s.dir == sys.procs[i].dir
  }

  ghost predicate Separate(m: Memory, p: Proc, q: Proc) {
    forall g: nat :: !(Owns(m, p, g) && Owns(m, q, g))
  }

  // Kernel memory: each process's record, then its kernel stack, after those of the one before.
  ghost predicate HeapOk(sys: System) {
    && HEAP_BASE <= sys.heap < HEAP_END
    && (forall i | 0 <= i < |sys.procs| ::
         && HEAP_BASE <= sys.procs[i].record
         && sys.procs[i].record + RECORD_SIZE <= sys.procs[i].kernelStack - 4095
         && sys.procs[i].kernelStack < sys.heap)
    && (forall i, j | 0 <= i < j < |sys.procs| :: sys.procs[i].kernelStack < sys.procs[j].record)
  }

  ghost predicate Isolated(sys: System) {
    && KernelOk(sys) && ActiveKnown(sys) && HeapOk(sys)
    && (forall i | 0 <= i < |sys.procs| :: ProcOk(sys, sys.procs[i]))
    && (forall i, j | 0 <= i < j < |sys.procs| :: Separate(sys.s.mem, sys.procs[i], sys.procs[j]))
  }

  // --- Steps ---------------------------------------------------------------------------------------

  // Create: proc_run_code. Switch: the scheduler loads a process's directory. UserStore: the running
  // process writes a word of its own address space.
  datatype Event = Create(code: Program) | Switch(i: nat) | UserStore(vp: nat, word: nat, value: Word)

  // A creation with a failed allocation is no step: what the source does then is not modelled.
  ghost function CreateProcess(sys: System, code: Program): System
    requires Sized(sys.s.pool)
  {
    if !CodeFits(code) then sys
    else
      var record := Bump(sys.heap, RECORD_SIZE);
      var kstack := Bump(record.top, 4096);
      if record.addr.None? || kstack.addr.None? then sys
      else Joined(sys, BuildSpace(sys.s, code), code, record.addr.value, kstack.addr.value + 4095, kstack.top)
  }

  function Joined(sys: System, b: Build, text: Program, record: nat, kstack: nat, heap: nat): System {
    if b.Process? then
      System(b.s, heap, sys.kernelDir, sys.reserved, sys.bitmap,
        sys.procs + [Proc(b.pd, text, b.code, CodePages(text), b.stack, record, kstack)])
    else sys
  }

  function WithState(sys: System, s: State): System {
    System(s, sys.heap, sys.kernelDir, sys.reserved, sys.bitmap, sys.procs)
  }

  ghost function Step(sys: System, e: Event): System
    requires Sized(sys.s.pool)
  {
    match e
    case Create(code) => CreateProcess(sys, code)
    case Switch(i) => if i < |sys.procs| then WithState(sys, WithDir(sys.s, sys.procs[i].dir)) else sys
    case UserStore(vp, word, value) => WithState(sys, Stored(sys.s, vp, word, value))
  }

  // --- What user code can reach ----------------------------------------------------------------------

  // A page of process i that user code may access is a page of its own code or stack, and it is
  // writable only on the stack.
  lemma UserReach(sys: System, i: nat, vp: nat)
    requires Isolated(sys) && i < |sys.procs| && vp < PAGES
    requires Translate(sys.s.mem, sys.procs[i].dir, vp).Page? && Translate(sys.s.mem, sys.procs[i].dir, vp).user
    ensures var p, t := sys.procs[i], Translate(sys.s.mem, sys.procs[i].dir, vp);
      && vp < KERNEL_PAGE && t == Image(vp, p.code, p.pages, p.stack)
      && (if t.rw then t.frame in Span(p.stack, STACK_PAGES) else t.frame in Span(p.code, p.pages))
  {
  }

  // So it is no other process's frame, no reserved frame, and no page table or directory of anyone.
  lemma UserReachIsOwn(sys: System, i: nat, vp: nat)
    requires Isolated(sys) && i < |sys.procs| && vp < PAGES
    requires Translate(sys.s.mem, sys.procs[i].dir, vp).Page? && Translate(sys.s.mem, sys.procs[i].dir, vp).user
    ensures var p, f := sys.procs[i], Translate(sys.s.mem, sys.procs[i].dir, vp).frame;
      && f !in sys.reserved && f != sys.kernelDir && f != p.dir && !OwnsTable(sys.s.mem, p, f)
      && (forall d | 0 <= d < 1023 && IsTable(sys.s.mem[sys.kernelDir][d]) ::
           f != sys.s.mem[sys.kernelDir][d].frame)
      && (forall j | 0 <= j < |sys.procs| && j != i :: !Owns(sys.s.mem, sys.procs[j], f))
  {
  }

  // --- Every step keeps isolation ------------------------------------------------------------------

  // A process whose directory and tables were not written is as it was.
  lemma ProcKept(sys: System, sys': System, p: Proc)
    requires ProcOk(sys, p)
    requires SameKernel(sys, sys')
    requires sys.s.pool.used <= sys'.s.pool.used
    requires sys'.s.mem[p.dir] == sys.s.mem[p.dir] && sys'.s.mem[sys.kernelDir] == sys.s.mem[sys.kernelDir]
    requires forall d | 0 <= d < KERNEL_ENTRY && sys.s.mem[p.dir][d].flags.present ::
      sys'.s.mem[sys.s.mem[p.dir][d].frame] == sys.s.mem[sys.s.mem[p.dir][d].frame]
    requires forall g: FrameNo | g in Span(p.code, p.pages) :: sys'.s.mem[g] == sys.s.mem[g]
    ensures ProcOk(sys', p)
    ensures forall g: nat :: Owns(sys'.s.mem, p, g) <==> Owns(sys.s.mem, p, g)
  {
    forall d, e | 0 <= d < e < 1023 ensures TablesDiffer(sys'.s.mem, p.dir, d, e) {
      assert TablesDiffer(sys.s.mem, p.dir, d, e);
    }
    forall vp: nat | vp < KERNEL_PAGE
      ensures Translate(sys'.s.mem, p.dir, vp) == Image(vp, p.code, p.pages, p.stack)
    {
      assert Translate(sys.s.mem, p.dir, vp) == Image(vp, p.code, p.pages, p.stack);
    }
    CodeStays(sys.s, sys'.s, p.code, p.text);
  }

  lemma KernelKept(sys: System, sys': System)
    requires KernelOk(sys)
    requires SameKernel(sys, sys') && Sized(sys'.s.pool)
    requires sys.s.pool.used <= sys'.s.pool.used
    requires sys'.s.mem[sys.kernelDir] == sys.s.mem[sys.kernelDir]
    requires sys'.procs != [] ==> sys.s.mem[sys.kernelDir][TEMP_ENTRY].flags.present
    requires Translate(sys'.s.mem, sys.kernelDir, TEMP_PAGE) == Absent
    ensures KernelOk(sys')
  {
    forall d, e | 0 <= d < e < 1023 ensures TablesDiffer(sys'.s.mem, sys.kernelDir, d, e) {
      assert TablesDiffer(sys.s.mem, sys.kernelDir, d, e);
    }
  }

  lemma SwitchKeeps(sys: System, i: nat)
    requires Isolated(sys)
    ensures Isolated(Step(sys, Switch(i)))
  {
    var sys' := Step(sys, Switch(i));
    KernelKept(sys, sys');
    forall j | 0 <= j < |sys.procs| ensures ProcOk(sys', sys'.procs[j]) {
      ProcKept(sys, sys', sys.procs[j]);
    }
    forall j, k | 0 <= j < k < |sys.procs| ensures Separate(sys'.s.mem, sys'.procs[j], sys'.procs[k]) {
      assert Separate(sys.s.mem, sys.procs[j], sys.procs[k]);
    }
  }

  // The running process is the one whose directory is active.
  lemma Running(sys: System, vp: nat) returns (i: nat)
    requires Isolated(sys) && vp < PAGES
    requires Translate(sys.s.mem, sys.s.dir, vp).Page? && Translate(sys.s.mem, sys.s.dir, vp).user
    ensures i < |sys.procs| && sys.s.dir == sys.procs[i].dir
  {
    assert sys.s.mem[sys.s.dir][vp / 1024].flags.user;
    assert sys.s.dir != sys.kernelDir;
    i :| 0 <= i < |sys.procs| && sys.s.dir == sys.procs[i].dir;
  }

  // A store that succeeds writes one frame of the running process's own stack, and nothing else.
  lemma StoreHitsOwnStack(sys: System, vp: nat, word: nat, value: Word)
    returns (i: nat, f: FrameNo)
    requires Isolated(sys) && Stored(sys.s, vp, word, value) != sys.s
    ensures i < |sys.procs| && sys.s.dir == sys.procs[i].dir && f in Span(sys.procs[i].stack, STACK_PAGES)
    ensures forall g: FrameNo | g != f :: Stored(sys.s, vp, word, value).mem[g] == sys.s.mem[g]
    ensures f !in sys.reserved && Translate(Stored(sys.s, vp, word, value).mem, sys.kernelDir, TEMP_PAGE) == Absent
    ensures forall j | 0 <= j < |sys.procs| ::
      && sys.procs[j].dir != f && !OwnsTable(sys.s.mem, sys.procs[j], f)
      && f !in Span(sys.procs[j].code, sys.procs[j].pages)
  {
    i := Running(sys, vp);
    UserReach(sys, i, vp);
    UserReachIsOwn(sys, i, vp);
    f := Translate(sys.s.mem, sys.s.dir, vp).frame;
    assert ProcOk(sys, sys.procs[i]);
  }

  lemma ProcsAfterStore(sys: System, sys': System, f: FrameNo)
    requires Isolated(sys) && sys' == WithState(sys, sys'.s) && sys'.s.pool == sys.s.pool
    requires forall g: FrameNo | g != f :: sys'.s.mem[g] == sys.s.mem[g]
    requires f !in sys.reserved
    requires forall j | 0 <= j < |sys.procs| ::
      && sys.procs[j].dir != f && !OwnsTable(sys.s.mem, sys.procs[j], f)
      && f !in Span(sys.procs[j].code, sys.procs[j].pages)
    ensures forall j | 0 <= j < |sys.procs| :: ProcOk(sys', sys.procs[j])
    ensures forall j, k | 0 <= j < k < |sys.procs| :: Separate(sys'.s.mem, sys.procs[j], sys.procs[k])
  {
    forall j | 0 <= j < |sys.procs| ensures ProcOk(sys', sys.procs[j])
      && forall g: nat :: Owns(sys'.s.mem, sys.procs[j], g) <==> Owns(sys.s.mem, sys.procs[j], g)
    {
      assert ProcOk(sys, sys.procs[j]);
      ProcKept(sys, sys', sys.procs[j]);
    }
    forall j, k | 0 <= j < k < |sys.procs| ensures Separate(sys'.s.mem, sys.procs[j], sys.procs[k]) {
      assert Separate(sys.s.mem, sys.procs[j], sys.procs[k]);
    }
  }

  lemma StoreKeeps(sys: System, vp: nat, word: nat, value: Word)
    requires Isolated(sys)
    ensures Isolated(Step(sys, UserStore(vp, word, value)))
  {
    var sys' := Step(sys, UserStore(vp, word, value));
    if Stored(sys.s, vp, word, value) != sys.s {
      var i, f := StoreHitsOwnStack(sys, vp, word, value);
      KernelKept(sys, sys');
      ProcsAfterStore(sys, sys', f);
    }
  }

  lemma ActiveIsCaller(sys: System)
    requires Isolated(sys)
    ensures Caller(sys.s) && Translate(sys.s.mem, sys.s.dir, TEMP_PAGE) == Absent
    ensures forall d | KERNEL_ENTRY <= d < 1023 :: sys.s.mem[sys.s.dir][d] == sys.s.mem[sys.kernelDir][d]
  {
  }

  // Creation with the shared table already there writes no directory and no table in use but that one.
  lemma OldFramesKept(sys: System, t: State, pd: FrameNo, g: FrameNo)
    requires Isolated(sys) && CallerKept(sys.s, t, pd) && g in sys.s.pool.used
    requires sys.s.mem[sys.kernelDir][TEMP_ENTRY].flags.present
    requires g != sys.s.mem[sys.kernelDir][TEMP_ENTRY].frame
    ensures t.mem[g] == sys.s.mem[g]
  {
  }

  lemma KernelAfterCreate(sys: System, sys': System, pd: FrameNo)
    requires Isolated(sys) && CallerKept(sys.s, sys'.s, pd) && Good(sys'.s) && sys'.s.dir == sys.s.dir
    requires SameKernel(sys, sys')
    requires sys.s.pool.used <= sys'.s.pool.used
    ensures KernelOk(sys')
    ensures sys'.s.mem[sys.kernelDir][TEMP_ENTRY] == sys'.s.mem[sys.s.dir][TEMP_ENTRY]
    ensures forall d | KERNEL_ENTRY <= d < 1023 :: sys'.s.mem[sys.s.dir][d] == sys'.s.mem[sys.kernelDir][d]
  {
    ActiveIsCaller(sys);
    if sys.s.mem[sys.kernelDir][TEMP_ENTRY].flags.present {
      assert sys.s.mem[sys.kernelDir][TEMP_ENTRY].frame != sys.kernelDir;
      OldFramesKept(sys, sys'.s, pd, sys.kernelDir);
      KernelKept(sys, sys');
    } else {
      assert sys.s.dir == sys.kernelDir;
    }
  }

  lemma OldProcsKept(sys: System, sys': System, pd: FrameNo, i: nat)
    requires Isolated(sys) && CallerKept(sys.s, sys'.s, pd) && i < |sys.procs|
    requires SameKernel(sys, sys')
    requires sys.s.pool.used <= sys'.s.pool.used
    ensures ProcOk(sys', sys.procs[i])
    ensures forall g: nat :: Owns(sys'.s.mem, sys.procs[i], g) <==> Owns(sys.s.mem, sys.procs[i], g)
  {
    var p := sys.procs[i];
    assert ProcOk(sys, p);
    assert sys.s.mem[sys.kernelDir][TEMP_ENTRY].frame != sys.kernelDir;
    OldFramesKept(sys, sys'.s, pd, sys.kernelDir);
    assert Owns(sys.s.mem, p, p.dir);
    OldFramesKept(sys, sys'.s, pd, p.dir);
    forall d | 0 <= d < KERNEL_ENTRY && sys.s.mem[p.dir][d].flags.present
      ensures sys'.s.mem[sys.s.mem[p.dir][d].frame] == sys.s.mem[sys.s.mem[p.dir][d].frame]
    {
      assert Owns(sys.s.mem, p, sys.s.mem[p.dir][d].frame);
      OldFramesKept(sys, sys'.s, pd, sys.s.mem[p.dir][d].frame);
    }
    forall g: FrameNo | g in Span(p.code, p.pages) ensures sys'.s.mem[g] == sys.s.mem[g] {
      assert Owns(sys.s.mem, p, g);
      OldFramesKept(sys, sys'.s, pd, g);
    }
    ProcKept(sys, sys', p);
  }

  lemma NewProcOk(sys: System, sys': System, p: Proc)
    requires HasText(sys'.s.mem, p)
    requires Isolated(sys) && Built(sys.s, sys'.s, p.dir, p.code, p.pages, p.stack)
    requires SameKernel(sys, sys')
    requires sys'.s.mem[sys.kernelDir][TEMP_ENTRY] == sys'.s.mem[sys.s.dir][TEMP_ENTRY]
    requires forall d | KERNEL_ENTRY <= d < 1023 :: sys'.s.mem[sys.s.dir][d] == sys'.s.mem[sys.kernelDir][d]
    ensures ProcOk(sys', p)
    ensures forall g: nat | Owns(sys'.s.mem, p, g) :: g !in sys.s.pool.used
  {
  }

  lemma HeapAfterCreate(sys: System, sys': System, p: Proc)
    requires HeapOk(sys) && sys'.procs == sys.procs + [p]
    requires Bump(sys.heap, RECORD_SIZE).addr == Some(p.record)
    requires var k := Bump(Bump(sys.heap, RECORD_SIZE).top, 4096);
      k.addr.Some? && p.kernelStack == k.addr.value + 4095 && sys'.heap == k.top
    ensures HeapOk(sys')
  {
  }

  // What one successful creation adds.
  lemma ProcessCreated(sys: System, code: Program) returns (p: Proc)
    requires Isolated(sys) && Step(sys, Create(code)) != sys
    ensures var sys' := Step(sys, Create(code));
      && sys' == System(sys'.s, sys'.heap, sys.kernelDir, sys.reserved, sys.bitmap, sys.procs + [p])
      && p.text == code && HasText(sys'.s.mem, p) && HeapOk(sys')
      && Built(sys.s, sys'.s, p.dir, p.code, p.pages, p.stack) && CallerKept(sys.s, sys'.s, p.dir)
  {
    ActiveIsCaller(sys);
    SpaceBuilt(sys.s, code);
    var sys' := Step(sys, Create(code));
    p := sys'.procs[|sys.procs|];
    HeapAfterCreate(sys, sys', p);
  }

  // Every request that a creation makes of the heap and of the frame allocator succeeds.
  ghost predicate Served(sys: System, code: Program)
    requires Sized(sys.s.pool)
  {
    && CodeFits(code)
    && Bump(sys.heap, RECORD_SIZE).addr.Some? && Bump(Bump(sys.heap, RECORD_SIZE).top, 4096).addr.Some?
    && BuildSpace(sys.s, code) != NotBuilt(NoFrame)
  }

  // A creation is a step if and only if its requests succeed: no page it maps is mapped already.
  lemma CreatedExactly(sys: System, code: Program)
    requires Isolated(sys) && CodeFits(code)
    ensures Step(sys, Create(code)) != sys <==> Served(sys, code)
    ensures Step(sys, Create(code)) != sys <==> |Step(sys, Create(code)).procs| > |sys.procs|
  {
    ActiveIsCaller(sys);
    NotTaken(sys.s, code);
  }

  lemma ProcsAfterCreate(sys: System, sys': System, p: Proc)
    requires Isolated(sys) && CallerKept(sys.s, sys'.s, p.dir) && sys.s.pool.used <= sys'.s.pool.used
    requires SameKernel(sys, sys') && sys'.procs == sys.procs + [p]
    requires ProcOk(sys', p) && forall g: nat | Owns(sys'.s.mem, p, g) :: g !in sys.s.pool.used
    ensures forall i | 0 <= i < |sys'.procs| :: ProcOk(sys', sys'.procs[i])
    ensures forall i, j | 0 <= i < j < |sys'.procs| :: Separate(sys'.s.mem, sys'.procs[i], sys'.procs[j])
  {
    forall i | 0 <= i < |sys.procs| ensures ProcOk(sys', sys.procs[i])
      && forall g: nat :: Owns(sys'.s.mem, sys.procs[i], g) <==> Owns(sys.s.mem, sys.procs[i], g)
    {
      OldProcsKept(sys, sys', p.dir, i);
    }
    SeparateAfterCreate(sys, sys', p);
  }

  lemma ActiveAfterCreate(sys: System, sys': System, p: Proc)
    requires ActiveKnown(sys) && sys'.s.dir == sys.s.dir
    requires sys'.kernelDir == sys.kernelDir && sys'.procs == sys.procs + [p]
    ensures ActiveKnown(sys')
  {
    if sys.s.dir != sys.kernelDir {
      var i :| 0 <= i < |sys.procs| && sys.s.dir == sys.procs[i].dir;
      assert sys'.procs[i] == sys.procs[i];
    }
  }

  lemma CreateKeeps(sys: System, code: Program)
    requires Isolated(sys)
    ensures Isolated(Step(sys, Create(code)))
  {
    var sys' := Step(sys, Create(code));
    if sys' != sys {
      var p := ProcessCreated(sys, code);
      KernelAfterCreate(sys, sys', p.dir);
      NewProcOk(sys, sys', p);
      ProcsAfterCreate(sys, sys', p);
      ActiveAfterCreate(sys, sys', p);
    }
  }

  lemma SeparateAfterCreate(sys: System, sys': System, p: Proc)
    requires Isolated(sys) && sys'.procs == sys.procs + [p]
    requires forall i | 0 <= i < |sys.procs| ::
      forall g: nat :: Owns(sys'.s.mem, sys.procs[i], g) <==> Owns(sys.s.mem, sys.procs[i], g)
    requires forall g: nat | Owns(sys'.s.mem, p, g) :: g !in sys.s.pool.used
    ensures forall i, j | 0 <= i < j < |sys'.procs| :: Separate(sys'.s.mem, sys'.procs[i], sys'.procs[j])
  {
  }

  lemma StepKeeps(sys: System, e: Event)
    requires Isolated(sys)
    ensures Isolated(Step(sys, e))
  {
    match e
    case Create(code) => CreateKeeps(sys, code);
    case Switch(i) => SwitchKeeps(sys, i);
    case UserStore(vp, word, value) => StoreKeeps(sys, vp, word, value);
  }

  // --- The kernel's own memory ---------------------------------------------------------------------

  ghost predicate IsShared(sys: System, g: nat) {
    IsTable(sys.s.mem[sys.kernelDir][TEMP_ENTRY]) && sys.s.mem[sys.kernelDir][TEMP_ENTRY].frame == g
  }

  // No reserved frame is written but the kernel's directory and the table every directory shares; in
  // the directory, only the entry for that table is, and only to create it.
  ghost predicate KernelMemoryKept(sys: System, sys': System) {
    var m, m', k := sys.s.mem, sys'.s.mem, sys.kernelDir;
    && SameKernel(sys, sys')
    && (forall d | 0 <= d < 1024 && (d != TEMP_ENTRY || m[k][d].flags.present) :: m'[k][d] == m[k][d])
    && (forall g: FrameNo | g in sys.reserved && g != k && !IsShared(sys', g) :: m'[g] == m[g])
  }

  lemma CallerKeepsKernel(sys: System, sys': System, pd: FrameNo)
    requires Isolated(sys) && CallerKept(sys.s, sys'.s, pd) && SameKernel(sys, sys')
    ensures KernelMemoryKept(sys, sys')
  {
    var k := sys.kernelDir;
    ActiveIsCaller(sys);
    if sys.s.mem[k][TEMP_ENTRY].flags.present {
      forall g: FrameNo | g in sys.reserved && g != sys.s.mem[k][TEMP_ENTRY].frame
        ensures sys'.s.mem[g] == sys.s.mem[g]
      {
        OldFramesKept(sys, sys'.s, pd, g);
      }
    }
  }

  lemma CreateKeepsKernel(sys: System, code: Program)
    requires Isolated(sys) && Step(sys, Create(code)) != sys
    ensures KernelMemoryKept(sys, Step(sys, Create(code)))
  {
    var p := ProcessCreated(sys, code);
    CallerKeepsKernel(sys, Step(sys, Create(code)), p.dir);
  }

  lemma StepKeepsKernel(sys: System, e: Event)
    requires Isolated(sys)
    ensures KernelMemoryKept(sys, Step(sys, e))
  {
    if Step(sys, e).s.mem != sys.s.mem {
      match e
      case Create(code) => CreateKeepsKernel(sys, code);
      case UserStore(vp, word, value) => var i, f := StoreHitsOwnStack(sys, vp, word, value);
    }
  }

  lemma KernelKeptTwice(a: System, b: System, c: System)
    requires KernelOk(a) && KernelOk(b) && KernelMemoryKept(a, b) && KernelMemoryKept(b, c)
    ensures KernelMemoryKept(a, c)
  {
  }

  // So the kernel's directory leads where it did, but for the temporary mapping's four megabytes.
  lemma KernelWalkKept(sys: System, sys': System, vp: nat)
    requires KernelOk(sys) && KernelOk(sys') && KernelMemoryKept(sys, sys')
    requires vp < WINDOW && !(0xD_0400 <= vp < 0xD_0800)
    ensures Translate(sys'.s.mem, sys.kernelDir, vp) == Translate(sys.s.mem, sys.kernelDir, vp)
  {
    var m', k, d := sys'.s.mem, sys.kernelDir, vp / 1024;
    assert m'[k][d] == sys.s.mem[k][d];
    if IsTable(m'[k][d]) {
      assert TablesDiffer(m', k, if d < TEMP_ENTRY then d else TEMP_ENTRY, if d < TEMP_ENTRY then TEMP_ENTRY else d);
      assert sys.s.mem[k][d].frame in sys.reserved && sys.s.mem[k][d].frame != k;
    }
  }

  // sys' is reached from sys by these events.
  ghost predicate Reaches(sys: System, es: seq<Event>, sys': System)
    decreases |es|
  {
    if es == [] then sys' == sys
    else Sized(sys.s.pool) && Reaches(Step(sys, es[0]), es[1..], sys')
  }

  // A process once created is never changed or removed.
  lemma {:induction false} ProcsStay(sys: System, es: seq<Event>, sys': System)
    requires Isolated(sys) && Reaches(sys, es, sys')
    ensures sys.procs <= sys'.procs
    decreases |es|
  {
    if es != [] {
      StepKeeps(sys, es[0]);
      ProcsStay(Step(sys, es[0]), es[1..], sys');
    }
  }

  lemma {:induction false} StacksClimb(sys: System, i: nat)
    requires HeapOk(sys) && i < |sys.procs|
    ensures sys.procs[i].kernelStack >= 0xD000_0000 + 4195 * (i + 1)
    decreases i
  {
    if i > 0 {
      StacksClimb(sys, i - 1);
    }
  }

  // The heap has room for the records and kernel stacks of 999 processes.
  lemma FewProcs(sys: System)
    requires HeapOk(sys)
    ensures |sys.procs| < 1000
  {
    if sys.procs != [] {
      StacksClimb(sys, |sys.procs| - 1);
    }
  }

  // Over every run of creations, switches and user stores: each process walks to exactly its own
  // program and stack, its program is as it was loaded, what one process owns no other process, and
  // not the kernel, shares, and the kernel's own memory is as it was.
  lemma {:induction false} RunsKeepIsolation(sys: System, es: seq<Event>, sys': System)
    requires Isolated(sys) && Reaches(sys, es, sys')
    ensures Isolated(sys') && KernelMemoryKept(sys, sys')
    decreases |es|
  {
    if es != [] {
      StepKeeps(sys, es[0]);
      StepKeepsKernel(sys, es[0]);
      RunsKeepIsolation(Step(sys, es[0]), es[1..], sys');
      KernelKeptTwice(sys, Step(sys, es[0]), sys');
    }
  }

  // In particular the bitmap is changed by the allocator alone: no store, copy, clearing or table edit
  // of any run reaches the frames it lies in.
  lemma RunsKeepBitmap(sys: System, es: seq<Event>, sys': System)
    requires Isolated(sys) && Reaches(sys, es, sys')
    ensures forall g: FrameNo | g in sys.bitmap :: sys'.s.mem[g] == sys.s.mem[g]
  {
    RunsKeepIsolation(sys, es, sys');
  }
}
