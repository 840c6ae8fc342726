// The memory half of proc_run_code (kernel/src/sys/proc.c, lines 30-71): every directory and table
// is reached at the virtual address the source computes.
module AddressSpace {
  import opened PmmModel
  import opened Mmu
  import opened PagingModel
  import opened ProcModel
  import opened Words
  import opened Paging

  const TEMP := 0xD040_0000 // KERNEL_HEAP_END_VIRT
  const SELF := 0xFFFF_F000 // the active directory, through its own last entry

  ghost predicate Places(r: Outcome, block: nat, p: Placed, now: State) {
    match p
    case Placed(t, b) => r == Finished && block == b && now == t
    case Failed(_) => r != Finished
  }

  // The directory frame pd stands at TEMP.
  ghost predicate AtTemp(m: Memory, dir: FrameNo, pd: FrameNo) {
    && Recursive(m, dir) && pd != dir
    && IsTable(m[dir][TEMP_ENTRY]) && m[dir][TEMP_ENTRY].frame != pd
    && m[m[dir][TEMP_ENTRY].frame][0].flags.present && m[m[dir][TEMP_ENTRY].frame][0].frame == pd
  }

  // A directory being written word by word.
  ghost function Filled(m: Memory, pd: FrameNo, row: Frame): Memory {
    m[pd := row]
  }

  ghost function Copied(from: Frame, was: Frame, n: nat): Frame
    requires n <= 1024
  {
    from[..n] + was[n..]
  }

  ghost function Emptied(row: Frame, n: nat): Frame
    requires n <= 1024
  {
    seq(n, _ => ZERO) + row[n..]
  }

  lemma CopiedMore(from: Frame, was: Frame, n: nat)
    requires n < 1024
    ensures Copied(from, was, n)[n := from[n]] == Copied(from, was, n + 1)
  {
  }

  lemma EmptiedMore(row: Frame, n: nat)
    requires n < 1024
    ensures Emptied(row, n)[n := ZERO] == Emptied(row, n + 1)
  {
  }

  lemma FillWord(m: Memory, dir: FrameNo, pd: FrameNo, row: Frame, i: nat, w: Word)
    requires AtTemp(m, dir, pd) && i < 1024
    ensures Filled(m, pd, row)[dir] == m[dir] && Recursive(Filled(m, pd, row), dir)
    ensures Locate(Filled(m, pd, row), dir, TEMP + 4 * i) == Some((pd, i))
    ensures Put(Filled(m, pd, row), pd, i, w) == Filled(m, pd, row[i := w])
  {
  }

  // Line 34: memcpy from the active directory.
  method CopyDirectory(machine: Machine, pd: FrameNo)
    requires AtTemp(machine.mem, machine.cr3, pd)
    modifies machine`mem
    ensures machine.mem == Filled(old(machine.mem), pd, old(machine.mem[machine.cr3]))
  {
    ghost var m, from, was := machine.mem, machine.mem[machine.cr3], machine.mem[pd];
    assert Copied(from, was, 0) == was;
    for i := 0 to 1024
      invariant machine.mem == Filled(m, pd, Copied(from, was, i))
    {
      FillWord(m, machine.cr3, pd, Copied(from, was, i), i, from[i]);
      DirectoryWindow(machine.mem, machine.cr3, i);
      var w := machine.Read(SELF + 4 * i);
      machine.Write(TEMP + 4 * i, w);
      CopiedMore(from, was, i);
    }
    assert Copied(from, was, 1024) == from;
  }

  // Lines 40-42: everything below the kernel.
  method ClearUserHalf(machine: Machine, pd: FrameNo)
    requires AtTemp(machine.mem, machine.cr3, pd)
    modifies machine`mem
    ensures machine.mem == Filled(old(machine.mem), pd, Emptied(old(machine.mem[pd]), KERNEL_ENTRY))
  {
    ghost var m, row := machine.mem, machine.mem[pd];
    assert Emptied(row, 0) == row;
    for i := 0 to KERNEL_ENTRY
      invariant machine.mem == Filled(m, pd, Emptied(row, i))
    {
      FillWord(m, machine.cr3, pd, Emptied(row, i), i, ZERO);
      machine.Write(TEMP + 4 * i, ZERO);
      EmptiedMore(row, i);
    }
  }

  // Lines 34-42: the active directory's words, then the new directory's own entry, then the empty half.
  method FillDirectory(machine: Machine, pd: FrameNo)
    requires AtTemp(machine.mem, machine.cr3, pd)
    modifies machine`mem
    ensures machine.mem == Filled(old(machine.mem), pd, NewRow(old(machine.mem[machine.cr3]), pd))
  {
    ghost var m, from := machine.mem, machine.mem[machine.cr3];
    CopyDirectory(machine, pd);
    FillWord(m, machine.cr3, pd, from, 1023, Created(pd, RW));
    machine.Write(TEMP + 4 * 1023, Created(pd, RW));
    ClearUserHalf(machine, pd);
    assert Emptied(from[1023 := Created(pd, RW)], KERNEL_ENTRY) == NewRow(from, pd);
  }

  lemma TempReady(s: State)
    requires Caller(s) && PmmModel.AllocPage(s.pool).Ret? && PmmModel.AllocPage(s.pool).block != 0
    ensures var a := PmmModel.AllocPage(s.pool);
      && 0 < a.block < 0x10_0000 && a.block != s.dir && a.block * BLOCK_SIZE % WRAP == a.block * BLOCK_SIZE
      && Ready(WithPool(s, a.pool), TEMP_PAGE, 1)
  {
    AllocPageFits(s.pool);
    var a := PmmModel.AllocPage(s.pool);
    assert Span(a.block, 1) == {a.block};
    assert Good(WithPool(s, a.pool));
  }

  // With the new directory mapped at TEMP, filling it keeps the caller's walk.
  lemma TempMapped(s: State, t: State)
    requires Caller(s) && PmmModel.AllocPage(s.pool).Ret? && PmmModel.AllocPage(s.pool).block != 0
    requires var a := PmmModel.AllocPage(s.pool);
      a.block < 0x10_0000 && PagingModel.MapPage(WithPool(s, a.pool), TEMP_PAGE, a.block, RW) == Done(t)
    ensures var pd := PmmModel.AllocPage(s.pool).block;
      && AtTemp(t.mem, t.dir, pd)
      && Ready(WithRow(t, pd, NewRow(t.mem[t.dir], pd)), TEMP_PAGE, 1)
  {
    TempReady(s);
    var a := PmmModel.AllocPage(s.pool);
    AllocPageFits(s.pool);
    assert Span(a.block, 1) == {a.block};
    PageMapped(WithPool(s, a.pool), t, TEMP_PAGE, a.block, RW);
    assert forall d | 0 <= d < 1023 && IsTable(t.mem[t.dir][d]) :: t.mem[t.dir][d].frame != a.block;
    FillFrame(t, a.block, NewRow(t.mem[t.dir], a.block));
    assert Translate(t.mem, t.dir, TEMP_PAGE).Page?;
  }

  method NewDirectory(machine: Machine) returns (r: Outcome, pd: nat)
    requires machine.pmm.Valid() && Caller(machine.View())
    modifies machine`mem, machine.pmm`usedBlocks, machine.pmm`pool, machine.pmm.bitmap
    ensures machine.pmm.Valid()
    ensures pd % 4096 == 0 && pd < WRAP
    ensures Places(r, pd / 4096, ProcModel.NewDirectory(old(machine.View())), machine.View())
  {
    ghost var s := machine.View();
    var newPage := machine.pmm.AllocPage();
    if newPage == None {
      return Aborted, 0;
    }
    FrameAddress(s.pool);
    pd := newPage.value;
    if pd == 0 {
      return Unchecked, 0;
    }
    TempReady(s);
    r := machine.MapPage(TEMP, pd, RW);
    if r != Finished {
      return;
    }
    TempMapped(s, machine.View());
    FillDirectory(machine, pd / 4096);
    machine.UnmapPage(TEMP);
  }

  lemma FrameAddress(p: Pool)
    requires Sized(p) && 0 in p.used && PmmModel.AllocPage(p).Ret?
    ensures var b := PmmModel.AllocPage(p).block;
      b * BLOCK_SIZE % WRAP == b * BLOCK_SIZE && b * BLOCK_SIZE / 4096 == b && b < 0x10_0000
  {
  }

  // --- Code ------------------------------------------------------------------------------------------

  // The new directory is active, user-empty, and the program has been mapped writable at its frames.
  ghost predicate CodeMapped(u: State, t: State, base: nat, n: nat) {
    && Good(u) && n <= 0x4_0000 && Placing(u, t, base, n, true)
    && forall vp: nat | vp < n :: IsTable(t.mem[t.dir][vp / 1024])
  }

  lemma CodeReady(u: State, n: nat)
    requires Good(u) && UserEmpty(u) && 0 < n <= 0x4_0000 && PmmModel.AllocPages(u.pool, n).block != 0
    ensures var a := PmmModel.AllocPages(u.pool, n);
      && a.block + n <= 0x10_0000 && a.block * BLOCK_SIZE % WRAP == a.block * BLOCK_SIZE
      && Ready(WithPool(u, a.pool), 0, n)
  {
  }

  lemma MappedCode(u: State, t: State, n: nat)
    requires Good(u) && UserEmpty(u) && 0 < n <= 0x4_0000 && PmmModel.AllocPages(u.pool, n).block != 0
    requires var a := PmmModel.AllocPages(u.pool, n);
      a.block + n <= 0x10_0000 && PagingModel.MapPages(WithPool(u, a.pool), 0, a.block, n, USER_RW) == Done(t)
    ensures CodeMapped(u, t, PmmModel.AllocPages(u.pool, n).block, n)
  {
    CodeReady(u, n);
    AllocPagesFits(u.pool, n);
    var a := PmmModel.AllocPages(u.pool, n);
    PagesMapped(WithPool(u, a.pool), t, 0, a.block, n, USER_RW);
    CodePlaced(u, WithPool(u, a.pool), t, a.block, n);
  }

  // Copying part of the program keeps the walk, so word i goes where the page mapping says.
  lemma CopyWord(u: State, t: State, base: nat, code: Program, i: nat)
    requires base + CodePages(code) <= 0x10_0000 && CodeMapped(u, t, base, CodePages(code)) && i <= |code.words|
    ensures 4 * i < WRAP && base + i / 1024 < 0x10_0000 && base + WordPages(code.words[..i]) <= 0x10_0000
    ensures Locate(CopyWords(t.mem, base, code.words[..i]), t.dir, 4 * i) == Some((base + i / 1024, i % 1024))
  {
    var part := code.words[..i];
    PagesOfWords(code);
    assert WordPages(part) <= CodePages(code);
    TablesClearOf(u, t, base, CodePages(code));
    WordsCopied(t.mem, base, part);
    FramesRewritten(t, State(CopyWords(t.mem, base, part), t.dir, t.pool));
    assert 4 * i / 4096 == i / 1024 && 4 * i % 4096 / 4 == i % 1024;
    assert Translate(t.mem, t.dir, i / 1024) == Page(base + i / 1024, true, true);
  }

  lemma CopyStep(m: Memory, base: nat, words: seq<Word>, i: nat)
    requires base + WordPages(words) <= 0x10_0000 && i < |words|
    ensures base + WordPages(words[..i]) <= 0x10_0000 && base + WordPages(words[..i + 1]) <= 0x10_0000
    ensures base + i / 1024 < 0x10_0000
    ensures Put(CopyWords(m, base, words[..i]), base + i / 1024, i % 1024, words[i])
      == CopyWords(m, base, words[..i + 1])
  {
    assert words[..i + 1][..i] == words[..i];
  }

  // Line 57: memcpy of the program to virtual address 0, its last bytes into a word whose others stay.
  method CopyCode(machine: Machine, ghost base: nat, code: Program, ghost u: State)
    requires base + CodePages(code) <= 0x10_0000
    requires CodeMapped(u, machine.View(), base, CodePages(code))
    modifies machine`mem
    ensures machine.mem == CopyProgram(old(machine.mem), base, code)
  {
    ghost var t, words := machine.View(), code.words;
    PagesOfWords(code);
    for i := 0 to |code.words|
      invariant base + WordPages(words[..i]) <= 0x10_0000
      invariant machine.mem == CopyWords(t.mem, base, words[..i])
    {
      CopyWord(u, t, base, code, i);
      CopyStep(t.mem, base, words, i);
      machine.Write(4 * i, code.words[i]);
    }
    assert words[..|words|] == words;
    CopyWord(u, t, base, code, |words|);
    var end := 4 * |code.words|;
    var w := machine.Read(end);
    machine.Write(end, Blend(w, code.last, code.extra));
  }

  ghost predicate TablesThere(s: State, n: nat)
    requires n <= WINDOW
  {
    forall vp: nat | vp < n :: IsTable(s.mem[s.dir][vp / 1024])
  }

  // One page's write flag.
  method ProtectPage(machine: Machine, virt: nat)
    requires machine.Valid() && virt % 4096 == 0 && virt / 4096 < WINDOW
    requires IsTable(machine.mem[machine.cr3][virt / 4096 / 1024])
    modifies machine`mem
    ensures machine.View() == Protect(old(machine.View()), virt / 4096)
  {
    var ref := machine.FindPage(virt);
    TableWindow(machine.mem, machine.cr3, virt / 4096 / 1024, virt / 4096 % 1024);
    var e := machine.Read(ref.va);
    machine.Write(ref.va, Protected(e));
  }

  lemma ProtectStep(s: State, n: nat, i: nat) returns (next: State)
    requires Good(s) && i < n <= WINDOW && TablesThere(s, n)
    ensures var t := ProtectPages(s, i); Good(t) && IsTable(t.mem[t.dir][i / 1024]) && next == Protect(t, i)
    ensures next == ProtectPages(s, i + 1)
  {
    next := ProtectPages(s, i + 1);
    PagesProtected(s, i);
  }

  // One round of the loop.
  method ProtectNext(machine: Machine, i: nat, n: nat, ghost s: State)
    requires machine.pmm.Valid() && Good(s) && i < n <= WINDOW && TablesThere(s, n)
    requires machine.View() == ProtectPages(s, i)
    modifies machine`mem
    ensures machine.View() == ProtectPages(s, i + 1)
  {
    ghost var next := ProtectStep(s, n, i);
    ProtectPage(machine, 4096 * i);
  }

  // Lines 60-63: the write flag off, page by page.
  method ProtectCode(machine: Machine, n: nat)
    requires machine.Valid() && n <= WINDOW && TablesThere(machine.View(), n)
    modifies machine`mem
    ensures machine.View() == ProtectPages(old(machine.View()), n)
  {
    ghost var s := machine.View();
    for i := 0 to n
      invariant machine.View() == ProtectPages(s, i)
    {
      ProtectNext(machine, i, n, s);
    }
  }

  method LoadCode(machine: Machine, code: Program) returns (r: Outcome, ghost base: nat)
    requires machine.Valid() && UserEmpty(machine.View()) && CodeFits(code)
    modifies machine`mem, machine.pmm`usedBlocks, machine.pmm`pool, machine.pmm.bitmap
    ensures machine.pmm.Valid()
    ensures Places(r, base, ProcModel.LoadCode(old(machine.View()), code), machine.View())
  {
    ghost var u := machine.View();
    var n := CodePages(code);
    var phys := machine.pmm.AllocPages(n);
    base := PmmModel.AllocPages(u.pool, n).block;
    CodeAddress(u.pool, n);
    if phys == 0 {
      return Unchecked, base;
    }
    CodeReady(u, n);
    r := machine.MapPages(0, phys, n, USER_RW);
    if r != Finished {
      return;
    }
    MappedCode(u, machine.View(), n);
    ghost var t := machine.View();
    CopyCode(machine, base, code, u);
    CodeCopied(u, t, base, code);
    assert machine.View() == WithCode(t, base, code);
    ProtectCode(machine, n);
  }

  lemma CodeAddress(p: Pool, n: nat)
    requires Sized(p) && 0 in p.used && n > 0
    ensures var b := PmmModel.AllocPages(p, n).block;
      b * BLOCK_SIZE % WRAP == b * BLOCK_SIZE && b * BLOCK_SIZE / 4096 == b && b * BLOCK_SIZE % 4096 == 0
  {
  }

  // --- Stack -----------------------------------------------------------------------------------------

  method AddStack(machine: Machine) returns (r: Outcome, ghost stack: nat)
    requires machine.Valid() && machine.mem[machine.cr3][767] == ZERO
    modifies machine`mem, machine.pmm`usedBlocks, machine.pmm`pool, machine.pmm.bitmap
    ensures machine.pmm.Valid()
    ensures Places(r, stack, ProcModel.AddStack(old(machine.View())), machine.View())
  {
    ghost var v := machine.View();
    var phys := machine.pmm.AllocPages(STACK_PAGES);
    stack := PmmModel.AllocPages(v.pool, STACK_PAGES).block;
    CodeAddress(v.pool, STACK_PAGES);
    if phys == 0 {
      return Unchecked, stack;
    }
    StackReady(v);
    r := machine.MapPages(4096 * STACK_PAGE, phys, STACK_PAGES, USER_RW);
  }

  lemma StackReady(v: State)
    requires Good(v) && v.mem[v.dir][767] == ZERO && PmmModel.AllocPages(v.pool, STACK_PAGES).block != 0
    ensures var a := PmmModel.AllocPages(v.pool, STACK_PAGES);
      a.block + STACK_PAGES <= 0x10_0000 && Ready(WithPool(v, a.pool), STACK_PAGE, STACK_PAGES)
  {
  }

  // --- The whole --------------------------------------------------------------------------------------

  ghost predicate Builds(r: Outcome, pd: nat, b: Build, now: State) {
    match b
    case Process(t, d, _, _) => r == Finished && now == t && pd == d
    case NotBuilt(_) => r != Finished
  }

  // Lines 51-71, in the new directory.
  method BuildUser(machine: Machine, code: Program, previous: nat) returns (r: Outcome)
    requires machine.Valid() && UserEmpty(machine.View()) && CodeFits(code) && previous < WRAP
    modifies machine`mem, machine`cr3, machine.pmm`usedBlocks, machine.pmm`pool, machine.pmm.bitmap
    ensures machine.pmm.Valid()
    ensures Builds(r, old(machine.cr3), ProcModel.BuildUser(old(machine.View()), code, previous / 4096), machine.View())
  {
    ghost var u, base: nat, stack: nat := machine.View(), 0, 0;
    r, base := LoadCode(machine, code);
    if r != Finished {
      return;
    }
    CodeLoaded(u, code);
    r, stack := AddStack(machine);
    if r != Finished {
      return;
    }
    machine.SwitchDirectory(previous);
  }

  lemma Handover(s: State, t: State, pd: FrameNo)
    requires Caller(s) && ProcModel.NewDirectory(s) == Placed(t, pd)
    ensures Good(t) && t.dir == s.dir && Good(WithDir(t, pd)) && UserEmpty(WithDir(t, pd))
  {
    DirectoryOpened(s);
    Opens(s, t, pd);
  }

  // Lines 30-71. The caller's directory, read back through the window, is active again at the end.
  method BuildSpace(machine: Machine, code: Program) returns (r: Outcome, pd: nat)
    requires machine.pmm.Valid() && Caller(machine.View()) && CodeFits(code)
    modifies machine`mem, machine`cr3, machine.pmm`usedBlocks, machine.pmm`pool, machine.pmm.bitmap
    ensures machine.pmm.Valid()
    ensures Builds(r, pd / 4096, ProcModel.BuildSpace(old(machine.View()), code), machine.View())
    ensures pd % 4096 == 0
  {
    ghost var s := machine.View();
    r, pd := NewDirectory(machine);
    if r != Finished {
      return;
    }
    Handover(s, machine.View(), pd / 4096);
    var previous := ActiveDirectory(machine);
    machine.SwitchDirectory(pd);
    r := BuildUser(machine, code, previous);
  }

  // Line 47: the entry that maps SELF names the active directory.
  method ActiveDirectory(machine: Machine) returns (phys: nat)
    requires machine.Valid()
    ensures phys == machine.cr3 * 4096
  {
    var ref := machine.FindPage(SELF);
    TableWindow(machine.mem, machine.cr3, 1023, 1023);
    var e := machine.Read(ref.va);
    return e.frame * 4096;
  }
}
