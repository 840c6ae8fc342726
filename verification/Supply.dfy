// When a creation succeeds: how many frames it takes, and that a free run of that many is enough.
module Supply {
  import opened PmmModel
  import opened Mmu
  import opened PagingModel
  import opened ProcModel
  import opened Kheap
  import opened Isolation
  import opened BootModel

  // The counter is exact, and somewhere the searches look there are k free blocks in a row.
  ghost predicate Plenty(p: Pool, k: nat) {
    && Sized(p) && 0 in p.used && Drift(p) == 0
    && exists b: nat :: b + k <= Scanned(p.max) && ClearRun(p.used, b, k)
  }

  // A granted run leaves what the free run has more.
  lemma TakenFrom(p: Pool, first: nat, n: nat, k: nat)
    requires Plenty(p, k) && 1 <= n <= k && IsFirstFit(p.used, Scanned(p.max), n, first)
    ensures Plenty(Take(p, first, n), k - n)
  {
    var b: nat :| b + k <= Scanned(p.max) && ClearRun(p.used, b, k);
    assert ClearRun(p.used, b, n);
    var q, rest := Take(p, first, n), if first + n <= b then b else b + n;
    TakeKeepsDrift(p, first, n);
    assert rest + (k - n) <= Scanned(q.max) && ClearRun(q.used, rest, k - n);
  }

  lemma PagesGranted(p: Pool, n: nat, k: nat)
    requires Plenty(p, k) && 1 <= n <= k
    ensures var a := AllocPages(p, n); a.block != 0 && Plenty(a.pool, k - n)
  {
    var b: nat :| b + k <= Scanned(p.max) && ClearRun(p.used, b, k);
    assert ClearRun(p.used, b, n);
    AllocPagesComplete(p, n);
    AllocPagesFits(p, n);
    TakenFrom(p, AllocPages(p, n).block, n, k);
  }

  lemma PageGranted(p: Pool, k: nat)
    requires Plenty(p, k) && k >= 1
    ensures var a := AllocPage(p); a.Ret? && a.block != 0 && Plenty(a.pool, k - 1)
  {
    var b: nat :| b + k <= Scanned(p.max) && ClearRun(p.used, b, k);
    assert ClearRun(p.used, b, 1);
    AllocPagePanics(p);
    AllocPageFits(p);
    TakenFrom(p, AllocPage(p).block, 1, k);
  }

  lemma Fewer(p: Pool, k: nat, less: nat)
    requires Plenty(p, k) && less <= k
    ensures Plenty(p, less)
  {
    var b: nat :| b + k <= Scanned(p.max) && ClearRun(p.used, b, k);
    assert ClearRun(p.used, b, less);
  }

  // --- Mapping -------------------------------------------------------------------------------------

  // 1 for a directory entry that has no table yet.
  function Absence(s: State, d: nat): nat
    requires d < 1024
  {
    if s.mem[s.dir][d].flags.present then 0 else 1
  }

  // At most so many tables are made: one for each directory entry of the range, the first only if absent.
  function TablesFor(s: State, rest: Rest): nat
    requires rest.vp + rest.num <= WINDOW
  {
    if rest.num == 0 then 0
    else (rest.vp + rest.num - 1) / 1024 - rest.vp / 1024 + Absence(s, rest.vp / 1024)
  }

  lemma PageMappable(s: State, vp: nat, frame: FrameNo, flags: Flags, k: nat)
    requires Ready(s, vp, 1) && !flags.large && Translate(s.mem, s.dir, vp) == Absent
    requires Plenty(s.pool, k) && Absence(s, vp / 1024) <= k
    ensures var r := MapPage(s, vp, frame, flags);
      && r.Done? && r.s.dir == s.dir && r.s.mem[s.dir][vp / 1024].flags.present
      && Plenty(r.s.pool, k - Absence(s, vp / 1024))
  {
    if Absence(s, vp / 1024) == 1 {
      PageGranted(s.pool, k);
    }
    TableMade(s, vp / 1024, flags);
    PageNotOccupied(s, vp, frame, flags);
    PageMapped(s, MapPage(s, vp, frame, flags).s, vp, frame, flags);
  }

  lemma FewerTables(s: State, next: State, rest: Rest)
    requires rest.vp + rest.num <= WINDOW && rest.num >= 1
    requires next.mem[next.dir][rest.vp / 1024].flags.present
    ensures TablesFor(next, After(rest)) + Absence(s, rest.vp / 1024) <= TablesFor(s, rest)
  {
  }

  lemma FirstMappable(s: State, rest: Rest, flags: Flags, goal: Ending, k: nat) returns (next: State, left: nat)
    requires OnTheWay(s, rest, flags, goal) && rest.num >= 1 && Unmapped(s, rest.vp, rest.num)
    requires Plenty(s.pool, k) && TablesFor(s, rest) <= k
    ensures OnTheWay(next, After(rest), flags, goal) && Unmapped(next, rest.vp + 1, rest.num - 1)
    ensures left <= k && Plenty(next.pool, left) && TablesFor(next, After(rest)) <= left
    ensures left - TablesFor(next, After(rest)) >= k - TablesFor(s, rest)
  {
    var r := FirstUnmapped(s, rest, flags, goal);
    PageMappable(s, rest.vp, rest.frame, flags, k);
    next, left := r.s, k - Absence(s, rest.vp / 1024);
    FewerTables(s, next, rest);
  }

  // A range of absent pages can be mapped when the free run has a frame for each table it may need.
  lemma {:induction false} Mappable(s: State, rest: Rest, flags: Flags, goal: Ending, k: nat)
    requires OnTheWay(s, rest, flags, goal) && Unmapped(s, rest.vp, rest.num)
    requires Plenty(s.pool, k) && TablesFor(s, rest) <= k
    ensures goal.Done? && Plenty(goal.s.pool, k - TablesFor(s, rest))
    decreases rest.num
  {
    if rest.num > 0 {
      var next, left := FirstMappable(s, rest, flags, goal, k);
      Mappable(next, After(rest), flags, goal, left);
      Fewer(goal.s.pool, left - TablesFor(next, After(rest)), k - TablesFor(s, rest));
    }
  }

  // --- Building a process ----------------------------------------------------------------------------

  lemma DirectorySupplied(s: State, k: nat)
    requires Caller(s) && Translate(s.mem, s.dir, TEMP_PAGE) == Absent && Plenty(s.pool, k) && k >= 2
    ensures var r := NewDirectory(s); r.Placed? && Plenty(r.s.pool, k - 2)
  {
    AllocPageFits(s.pool);
    PageGranted(s.pool, k);
    var a := AllocPage(s.pool);
    var s1 := WithPool(s, a.pool);
    assert Good(s1) && SmallPages(s1, TEMP_PAGE, 1);
    PageMappable(s1, TEMP_PAGE, a.block, RW, k - 1);
    Fewer(MapPage(s1, TEMP_PAGE, a.block, RW).s.pool, k - 1 - Absence(s1, TEMP_ENTRY), k - 2);
  }

  // The tables for the program's pages.
  function CodeTables(code: Program): nat {
    (CodePages(code) - 1) / 1024 + 1
  }

  lemma CodeSupplied(u: State, code: Program, k: nat)
    requires Good(u) && UserEmpty(u) && CodeFits(code)
    requires Plenty(u.pool, k) && CodePages(code) + CodeTables(code) <= k
    ensures var r := LoadCode(u, code); r.Placed? && Plenty(r.s.pool, k - CodePages(code) - CodeTables(code))
  {
    var n := CodePages(code);
    PagesGranted(u.pool, n, k);
    var s, rest, goal := CodeMapping(u, n);
    assert TablesFor(s, rest) == CodeTables(code);
    Mappable(s, rest, USER_RW, goal, k - n);
  }

  lemma StackSupplied(v: State, k: nat)
    requires Good(v) && v.mem[v.dir][767] == ZERO && Plenty(v.pool, k) && STACK_PAGES + 1 <= k
    ensures AddStack(v).Placed?
  {
    AllocPagesFits(v.pool, STACK_PAGES);
    PagesGranted(v.pool, STACK_PAGES, k);
    var a := AllocPages(v.pool, STACK_PAGES);
    var s := WithPool(v, a.pool);
    assert Ready(s, STACK_PAGE, STACK_PAGES) && Unmapped(s, STACK_PAGE, STACK_PAGES);
    Mappable(s, Rest(STACK_PAGE, a.block, STACK_PAGES), USER_RW,
      MapPages(s, STACK_PAGE, a.block, STACK_PAGES, USER_RW), k - STACK_PAGES);
  }

  // The directory, the program and its tables, the stack and its table, and at most one table for the
  // temporary mapping.
  function FramesFor(code: Program): nat {
    2 + CodePages(code) + CodeTables(code) + STACK_PAGES + 1
  }

  lemma StackEntryEmpty(u: State, code: Program)
    requires Good(u) && UserEmpty(u) && CodeFits(code) && LoadCode(u, code).Placed?
    ensures var v := LoadCode(u, code).s; Good(v) && v.dir == u.dir && v.mem[v.dir][767] == ZERO
  {
    CodeLoaded(u, code);
  }

  lemma UserSupplied(u: State, code: Program, previous: FrameNo, k: nat)
    requires Good(u) && UserEmpty(u) && CodeFits(code) && Plenty(u.pool, k) && FramesFor(code) <= k + 2
    ensures BuildUser(u, code, previous).Process?
  {
    CodeSupplied(u, code, k);
    StackEntryEmpty(u, code);
    StackSupplied(LoadCode(u, code).s, k - CodePages(code) - CodeTables(code));
  }

  lemma SpaceSupplied(s: State, code: Program)
    requires Caller(s) && CodeFits(code) && Translate(s.mem, s.dir, TEMP_PAGE) == Absent
    requires Plenty(s.pool, FramesFor(code))
    ensures BuildSpace(s, code).Process?
  {
    DirectorySupplied(s, FramesFor(code));
    DirectoryOpened(s);
    var t, pd := NewDirectory(s).s, NewDirectory(s).block;
    Opens(s, t, pd);
    UserSupplied(WithDir(t, pd), code, s.dir, FramesFor(code) - 2);
  }

  // In every isolated state with an exact counter, a free run of FramesFor frames and room for a record
  // and a kernel stack in the heap, creating the process succeeds.
  lemma CreationSupplied(sys: System, code: Program)
    requires Isolated(sys) && CodeFits(code) && Plenty(sys.s.pool, FramesFor(code))
    requires sys.heap + RECORD_SIZE + 4096 < HEAP_END
    ensures |Isolation.Step(sys, Create(code)).procs| == |sys.procs| + 1
  {
    ActiveIsCaller(sys);
    SpaceSupplied(sys.s, code);
  }

  // --- Booting -----------------------------------------------------------------------------------------

  lemma LowSupplied(s: State, k: nat)
    requires KernelOnly(s) && !s.mem[s.dir][0].flags.present && Plenty(s.pool, k) && k >= 1
    ensures var r := MapPages(s, 0, 0, 256, RW); r.Done? && Plenty(r.s.pool, k - 1)
  {
    LowReady(s);
    assert Unmapped(s, 0, 256);
    Mappable(s, Rest(0, 0, 256), RW, MapPages(s, 0, 0, 256, RW), k);
  }

  lemma HeapSupplied(s: State, k: nat)
    requires KernelOnly(s) && !s.mem[s.dir][832].flags.present && Plenty(s.pool, k) && k >= HEAP_PAGES + 1
    ensures AllocPages(s.pool, HEAP_PAGES).block != 0
    ensures HeapPages(s).Done? && Plenty(HeapPages(s).s.pool, k - HEAP_PAGES - 1)
  {
    PagesGranted(s.pool, HEAP_PAGES, k);
    var u, rest := HeapMapping(s);
    Mappable(u, rest, RW, HeapPages(s), k - HEAP_PAGES);
  }

  // Booting succeeds when the counter is exact and there is a free run for the heap and three tables.
  lemma BootSupplied(s: State)
    requires BootReady(s, {}) && Plenty(s.pool, HEAP_PAGES + 3)
    ensures PagingInit(s).Done?
  {
    RootedGood(s);
    LowSupplied(Rooted(s), HEAP_PAGES + 3);
    LowMapped(Rooted(s));
    var s1 := MapPages(Rooted(s), 0, 0, 256, RW).s;
    LowEntries(831);
    LowEntries(832);
    HeapSupplied(s1, HEAP_PAGES + 2);
    var heap := HeapMapped(s1);
    var s2 := HeapPages(s1).s;
    VgaReady(s2);
    PageMappable(s2, VGA_PAGE, VGA_FRAME, RW, 1);
  }
}
