// Building a process's address space (the memory half of proc_run_code), as operations on a value.
module ProcModel {
  import opened PmmModel
  import opened Mmu
  import opened PagingModel
  import opened Words

  const KERNEL_PAGE := 0xC_0000 // KERNEL_BASE_VIRT / 4096
  const KERNEL_ENTRY := 768 // its directory index
  const TEMP_PAGE := 0xD_0400 // KERNEL_HEAP_END_VIRT / 4096
  const TEMP_ENTRY := 833 // its directory index
  const STACK_PAGES := 10
  const STACK_PAGE := 0xB_FFF6 // KERNEL_PAGE - STACK_PAGES

  // A program's bytes: whole words, then the low `extra` bytes of one more.
  datatype Program = Program(words: seq<Word>, last: Word, extra: Extra)

  // The pages it takes, always one more than its whole pages.
  function CodePages(code: Program): nat {
    (4 * |code.words| + code.extra) / 4096 + 1
  }

  function WordPages(words: seq<Word>): nat {
    4 * |words| / 4096 + 1
  }

  lemma PagesOfWords(code: Program)
    ensures CodePages(code) == WordPages(code.words) == |code.words| / 1024 + 1
  {
  }

  // NoFrame: a request to the frame allocator failed, so the source aborts or goes on with an unchecked
  // failure value. Taken: a page was mapped already, which aborts.
  datatype Why = NoFrame | Taken

  // A step that also allocates.
  datatype Placed = Placed(s: State, block: nat) | Failed(why: Why)

  function Reason(r: Ending): Why {
    if r.Occupied? then Taken else NoFrame
  }

  // The copied directory: nothing below the kernel, the kernel's entries, and itself at the end.
  function NewRow(row: Frame, pd: FrameNo): Frame {
    seq(KERNEL_ENTRY, _ => ZERO) + row[KERNEL_ENTRY..1023] + [Created(pd, RW)]
  }

  function WithRow(s: State, f: FrameNo, row: Frame): State {
    State(s.mem[f := row], s.dir, s.pool)
  }

  function WithPool(s: State, p: Pool): State {
    State(s.mem, s.dir, p)
  }

  function WithDir(s: State, d: FrameNo): State {
    State(s.mem, d, s.pool)
  }

  // Lines 30-44: a new directory, filled through a temporary mapping after the kernel heap.
  ghost function NewDirectory(s: State): (r: Placed)
    requires Sized(s.pool)
    ensures r.Placed? ==> Sized(r.s.pool) && r.block < 0x10_0000
  {
    var a := AllocPage(s.pool);
    if a.Panic? || a.block == 0 then Failed(NoFrame)
    else FillDirectory(MapPage(WithPool(s, a.pool), TEMP_PAGE, a.block, RW), a.block)
  }

  ghost function FillDirectory(r: Ending, pd: FrameNo): Placed {
    if r.Done? then
      Placed(UnmapPage(WithRow(r.s, pd, NewRow(r.s.mem[r.s.dir], pd)), TEMP_PAGE), pd)
    else Failed(Reason(r))
  }

  // --- The new directory ---------------------------------------------------------------------------

  // A caller's directory a process can be created from: 4 MB pages only where the kernel image is.
  ghost predicate Caller(s: State) {
    Good(s) && !IsLarge(s.mem[s.dir][TEMP_ENTRY])
  }

  // t has the new directory pd, and the caller's own translations as they were.
  ghost predicate Opened(s: State, t: State, pd: FrameNo) {
    && Good(t) && t.dir == s.dir && s.pool.used <= t.pool.used && t.pool.max == s.pool.max
    && pd !in s.pool.used && Wired(t.mem, t.pool.used, pd)
    && t.mem[pd] == NewRow(t.mem[s.dir], pd)
    && SameWalk(s.mem, t.mem, s.dir)
    && IsTable(t.mem[s.dir][TEMP_ENTRY])
    && t.mem[s.dir][TEMP_ENTRY].frame != pd
    && (s.mem[s.dir][TEMP_ENTRY].flags.present ==> t.mem[s.dir] == s.mem[s.dir])
    && (!s.mem[s.dir][TEMP_ENTRY].flags.present ==>
         && t.mem[s.dir] == s.mem[s.dir][TEMP_ENTRY := t.mem[s.dir][TEMP_ENTRY]]
         && t.mem[s.dir][TEMP_ENTRY] == Created(t.mem[s.dir][TEMP_ENTRY].frame, RW)
         && t.mem[s.dir][TEMP_ENTRY].frame !in s.pool.used)
    && (forall g: FrameNo | g in s.pool.used && g != s.dir && g != t.mem[s.dir][TEMP_ENTRY].frame ::
         t.mem[g] == s.mem[g])
  }

  // Filling an unrelated frame keeps a directory's walk.
  lemma FillFrame(s: State, f: FrameNo, row: Frame)
    requires Good(s) && f != s.dir
    requires forall d | 0 <= d < 1023 && IsTable(s.mem[s.dir][d]) :: s.mem[s.dir][d].frame != f
    ensures Good(WithRow(s, f, row)) && SameWalk(s.mem, WithRow(s, f, row).mem, s.dir)
  {
    var t := WithRow(s, f, row);
    forall d, e | 0 <= d < e < 1023 ensures TablesDiffer(t.mem, t.dir, d, e) {
      assert TablesDiffer(s.mem, s.dir, d, e);
    }
  }

  // The copied directory is wired when the one it is copied from is.
  lemma NewRowWired(s: State, pd: FrameNo)
    requires Good(s) && pd in s.pool.used && pd != s.dir
    requires s.mem[pd] == NewRow(s.mem[s.dir], pd)
    requires forall d | 0 <= d < 1023 && IsTable(s.mem[s.dir][d]) :: s.mem[s.dir][d].frame != pd
    ensures Wired(s.mem, s.pool.used, pd)
  {
    assert forall d | KERNEL_ENTRY <= d < 1023 :: s.mem[pd][d] == s.mem[s.dir][d];
    assert forall d | 0 <= d < KERNEL_ENTRY :: s.mem[pd][d] == ZERO;
    forall d, e | 0 <= d < e < 1023 ensures TablesDiffer(s.mem, pd, d, e) {
      assert TablesDiffer(s.mem, s.dir, d, e);
    }
  }

  lemma DirectoryOpened(s: State)
    requires Caller(s) && NewDirectory(s).Placed?
    ensures var r := NewDirectory(s); Opened(s, r.s, r.block)
  {
    AllocPageFits(s.pool);
    var a := AllocPage(s.pool);
    var pd: FrameNo := a.block;
    assert Span(pd, 1) == {pd};
    var s1 := WithPool(s, a.pool);
    assert Good(s1);
    assert SmallPages(s1, TEMP_PAGE, 1);
    var s2 := MapPage(s1, TEMP_PAGE, pd, RW).s;
    PageMapped(s1, s2, TEMP_PAGE, pd, RW);
    assert forall d | 0 <= d < 1023 && IsTable(s2.mem[s2.dir][d]) :: s2.mem[s2.dir][d].frame != pd;
    var s3 := WithRow(s2, pd, NewRow(s2.mem[s2.dir], pd));
    FillFrame(s2, pd, NewRow(s2.mem[s2.dir], pd));
    PageUnmapped(s3, TEMP_PAGE);
    var t := UnmapPage(s3, TEMP_PAGE);
    NewRowWired(t, pd);
  }

  // --- Code and stack --------------------------------------------------------------------------------

  // memcpy of the program's words into consecutive frames.
  function CopyWords(m: Memory, base: nat, words: seq<Word>): Memory
    requires base + WordPages(words) <= 0x10_0000
    decreases |words|
  {
    if words == [] then m
    else
      Put(CopyWords(m, base, words[..|words| - 1]), base + (|words| - 1) / 1024, (|words| - 1) % 1024, words[|words| - 1])
  }

  // And of its last bytes, which leave the rest of their word as it is.
  function CopyProgram(m: Memory, base: nat, code: Program): Memory
    requires base + CodePages(code) <= 0x10_0000
  {
    PagesOfWords(code);
    var n, m' := |code.words|, CopyWords(m, base, code.words);
    Put(m', base + n / 1024, n % 1024, Blend(m'[base + n / 1024][n % 1024], code.last, code.extra))
  }

  function Protected(w: Word): Word {
    Word(w.frame, w.flags.(rw := false))
  }

  function Protect(s: State, vp: nat): State
    requires vp < PAGES
  {
    State(Put(s.mem, TableOf(s, vp), vp % 1024, Protected(s.mem[TableOf(s, vp)][vp % 1024])), s.dir, s.pool)
  }

  // The loop that removes the write flag from the first n pages.
  function ProtectPages(s: State, n: nat): (t: State)
    requires n <= PAGES
    ensures t.pool == s.pool
  {
    if n == 0 then s else Protect(ProtectPages(s, n - 1), n - 1)
  }

  // Lines 51-63, with the new directory active.
  ghost function LoadCode(s: State, code: Program): (r: Placed)
    requires Sized(s.pool) && CodePages(code) <= KERNEL_PAGE
    ensures r.Placed? ==> Sized(r.s.pool)
  {
    var a := AllocPages(s.pool, CodePages(code));
    if a.block == 0 then Failed(NoFrame)
    else FinishCode(MapPages(WithPool(s, a.pool), 0, a.block, CodePages(code), USER_RW), a.block, code)
  }

  ghost function FinishCode(r: Ending, base: nat, code: Program): Placed
    requires base + CodePages(code) <= 0x10_0000 && CodePages(code) <= KERNEL_PAGE
  {
    if r.Done? then Placed(ProtectPages(WithCode(r.s, base, code), CodePages(code)), base) else Failed(Reason(r))
  }

  function WithCode(s: State, base: nat, code: Program): State
    requires base + CodePages(code) <= 0x10_0000
  {
    State(CopyProgram(s.mem, base, code), s.dir, s.pool)
  }

  // Lines 65-68.
  ghost function AddStack(s: State): Placed
    requires Sized(s.pool)
  {
    var a := AllocPages(s.pool, STACK_PAGES);
    if a.block == 0 then Failed(NoFrame)
    else Finish(MapPages(WithPool(s, a.pool), STACK_PAGE, a.block, STACK_PAGES, USER_RW), a.block)
  }

  ghost function Finish(r: Ending, block: nat): Placed {
    if r.Done? then Placed(r.s, block) else Failed(Reason(r))
  }

  lemma {:induction false} WordsCopied(m: Memory, base: nat, words: seq<Word>)
    requires base + WordPages(words) <= 0x10_0000
    ensures var m' := CopyWords(m, base, words);
      && (forall g: FrameNo | !(base <= g < base + WordPages(words)) :: m'[g] == m[g])
      && (forall k | 0 <= k < |words| :: m'[base + k / 1024][k % 1024] == words[k])
    decreases |words|
  {
    if words != [] {
      var n := |words| - 1;
      WordsCopied(m, base, words[..n]);
      var before, after := CopyWords(m, base, words[..n]), CopyWords(m, base, words);
      forall k | 0 <= k < |words| ensures after[base + k / 1024][k % 1024] == words[k] {
        if k < n {
          assert before[base + k / 1024][k % 1024] == words[..n][k];
          assert k / 1024 != n / 1024 || k % 1024 != n % 1024;
        }
      }
    }
  }

  lemma ProgramCopied(m: Memory, base: nat, code: Program)
    requires base + CodePages(code) <= 0x10_0000
    ensures var m' := CopyProgram(m, base, code);
      && (forall g: FrameNo | !(base <= g < base + CodePages(code)) :: m'[g] == m[g])
      && Holds(m', base, code)
  {
    PagesOfWords(code);
    WordsCopied(m, base, code.words);
    var n, before := |code.words|, CopyWords(m, base, code.words);
    forall k | 0 <= k < n ensures CopyProgram(m, base, code)[base + k / 1024][k % 1024] == code.words[k] {
      assert k / 1024 != n / 1024 || k % 1024 != n % 1024;
    }
    BlendTwice(before[base + n / 1024][n % 1024], code.last, code.extra);
  }

  // Frames no walk from s.dir goes through can be rewritten.
  lemma FramesRewritten(s: State, t: State)
    requires Good(s) && t.dir == s.dir && t.pool == s.pool && t.mem[s.dir] == s.mem[s.dir]
    requires forall d | 0 <= d < 1023 && IsTable(s.mem[s.dir][d]) ::
      t.mem[s.mem[s.dir][d].frame] == s.mem[s.mem[s.dir][d].frame]
    ensures Good(t) && SameWalk(s.mem, t.mem, s.dir)
  {
    forall d, e | 0 <= d < e < 1023 ensures TablesDiffer(t.mem, t.dir, d, e) {
      assert TablesDiffer(s.mem, s.dir, d, e);
    }
  }

  function Fix(m: Mapping, vp: nat, n: nat): Mapping {
    if m.Page? && vp < n then Page(m.frame, m.user, false) else m
  }

  // Only the tables of the first n pages are written, and only those pages lose the write right.
  lemma {:induction false} PagesProtected(s: State, n: nat)
    requires Good(s) && n <= WINDOW
    requires forall vp: nat | vp < n :: IsTable(s.mem[s.dir][vp / 1024])
    ensures var t := ProtectPages(s, n);
      && Good(t) && t.dir == s.dir && t.pool == s.pool && t.mem[s.dir] == s.mem[s.dir]
      && (forall vp: nat | vp < WINDOW :: Translate(t.mem, s.dir, vp) == Fix(Translate(s.mem, s.dir, vp), vp, n))
      && (forall g: FrameNo | (forall vp: nat | vp < n :: s.mem[s.dir][vp / 1024].frame != g) :: t.mem[g] == s.mem[g])
  {
    if n > 0 {
      PagesProtected(s, n - 1);
      var u := ProtectPages(s, n - 1);
      assert IsTable(s.mem[s.dir][(n - 1) / 1024]);
      PutEntry(u.mem, u.pool.used, u.dir, n - 1, Protected(u.mem[TableOf(u, n - 1)][(n - 1) % 1024]));
    }
  }

  // The source text lies in the kernel's gigabyte.
  ghost predicate CodeFits(code: Program) {
    |code.words| < 0x1000_0000
  }

  ghost predicate UserEmpty(s: State) {
    forall d | 0 <= d < KERNEL_ENTRY :: s.mem[s.dir][d] == ZERO
  }

  // t from u by mapping the user pages from 0 on to the n frames from `base`, taken since u.
  ghost predicate Placing(u: State, t: State, base: nat, n: nat, writable: bool) {
    && Good(t) && t.dir == u.dir && t.pool.max == u.pool.max && base + n <= 0x10_0000
    && u.pool.used + Span(base, n) <= t.pool.used && Span(base, n) !! u.pool.used
    && (forall vp: nat | vp < WINDOW :: Translate(t.mem, t.dir, vp) ==
         if vp < n then Page(base + vp, true, writable) else Translate(u.mem, t.dir, vp))
    && (forall g: FrameNo | g in u.pool.used && g != t.dir :: t.mem[g] == u.mem[g])
    && (forall d | 256 <= d < 1024 :: t.mem[t.dir][d] == u.mem[t.dir][d])
    && (forall d | 0 <= d < 256 :: OwnTable(u, t, d, Span(base, n)))
  }

  // The program's bytes are in memory from frame `base` on.
  ghost predicate Holds(m: Memory, base: nat, code: Program)
    requires base + CodePages(code) <= 0x10_0000
  {
    PagesOfWords(code);
    var n := |code.words|;
    && (forall k | 0 <= k < n :: m[base + k / 1024][k % 1024] == code.words[k])
    && Blend(m[base + n / 1024][n % 1024], code.last, code.extra) == m[base + n / 1024][n % 1024]
  }

  // t from u by mapping, filling and write-protecting the program at `base`.
  ghost predicate Loaded(u: State, t: State, base: nat, code: Program) {
    Placing(u, t, base, CodePages(code), false) && Holds(t.mem, base, code)
  }

  // Directory entry d is empty or names a table allocated since u, outside the given frames.
  ghost predicate OwnTable(u: State, t: State, d: nat, others: set<nat>)
    requires d < 1024
  {
    var w := t.mem[t.dir][d];
    w == ZERO || (w == Created(w.frame, USER_RW) && w.frame in t.pool.used - u.pool.used - others)
  }

  lemma CodePlaced(u: State, s: State, t: State, base: nat, n: nat)
    requires Good(u) && UserEmpty(u) && 0 < n <= 0x4_0000 && Good(s)
    requires s == WithPool(u, s.pool) && s.pool.max == u.pool.max && base + n <= 0x10_0000
    requires Span(base, n) !! u.pool.used && s.pool.used == u.pool.used + Span(base, n)
    requires RangeMapped(s, t, 0, base, n, USER_RW)
    ensures Placing(u, t, base, n, true)
    ensures forall vp: nat | vp < n :: IsTable(t.mem[t.dir][vp / 1024])
  {
    forall vp: nat | vp < n ensures IsTable(t.mem[t.dir][vp / 1024]) {
      assert Translate(t.mem, s.dir, vp).Page?;
      assert s.mem[s.dir][vp / 1024] == ZERO;
    }
    forall d | 256 <= d < 1024 ensures !Touches(d, 0, n) {
    }
  }

  // The directory and its tables are none of the n frames from base on.
  ghost predicate ClearOf(s: State, base: nat, n: nat) {
    && s.dir !in Span(base, n)
    && forall d | 0 <= d < 1023 && IsTable(s.mem[s.dir][d]) :: s.mem[s.dir][d].frame !in Span(base, n)
  }

  lemma TablesClearOf(u: State, t: State, base: nat, n: nat)
    requires Good(u) && Placing(u, t, base, n, true)
    ensures ClearOf(t, base, n)
  {
    forall d | 0 <= d < 1023 && IsTable(t.mem[t.dir][d]) ensures t.mem[t.dir][d].frame !in Span(base, n) {
      if d < 256 {
        assert OwnTable(u, t, d, Span(base, n));
      } else {
        assert t.mem[t.dir][d] == u.mem[u.dir][d];
      }
    }
  }

  lemma CodeCopied(u: State, t: State, base: nat, code: Program)
    requires Good(u) && base + CodePages(code) <= 0x10_0000 && Placing(u, t, base, CodePages(code), true)
    ensures var v := WithCode(t, base, code);
      Placing(u, v, base, CodePages(code), true) && Holds(v.mem, base, code) && v.mem[t.dir] == t.mem[t.dir]
  {
    var v := WithCode(t, base, code);
    TablesClearOf(u, t, base, CodePages(code));
    ProgramCopied(t.mem, base, code);
    FramesRewritten(t, v);
    forall d | 0 <= d < 256 ensures OwnTable(u, v, d, Span(base, CodePages(code))) {
      assert OwnTable(u, t, d, Span(base, CodePages(code)));
    }
  }

  lemma ProtectedFrames(u: State, v: State, base: nat, n: nat, g: FrameNo)
    requires Good(u) && n <= 0x4_0000 && Placing(u, v, base, n, true)
    requires forall vp: nat | vp < n :: IsTable(v.mem[v.dir][vp / 1024])
    requires (g in u.pool.used && g != u.dir) || g in Span(base, n)
    ensures ProtectPages(v, n).mem[g] == v.mem[g]
  {
    PagesProtected(v, n);
    forall vp: nat | vp < n ensures v.mem[v.dir][vp / 1024].frame != g {
      assert OwnTable(u, v, vp / 1024, Span(base, n));
      assert IsTable(v.mem[v.dir][vp / 1024]);
    }
  }

  lemma PlacingProtected(u: State, v: State, base: nat, n: nat)
    requires Good(u) && n <= 0x4_0000 && Placing(u, v, base, n, true)
    requires forall vp: nat | vp < n :: IsTable(v.mem[v.dir][vp / 1024])
    ensures Placing(u, ProtectPages(v, n), base, n, false)
  {
    var w := ProtectPages(v, n);
    PagesProtected(v, n);
    forall d | 0 <= d < 256 ensures OwnTable(u, w, d, Span(base, n)) {
      assert OwnTable(u, v, d, Span(base, n));
    }
    forall g: FrameNo | g in u.pool.used && g != w.dir ensures w.mem[g] == u.mem[g] {
      ProtectedFrames(u, v, base, n, g);
    }
  }

  lemma CodeProtected(u: State, v: State, base: nat, code: Program)
    requires Good(u) && base + CodePages(code) <= 0x10_0000 && CodePages(code) <= 0x4_0000
    requires Placing(u, v, base, CodePages(code), true) && Holds(v.mem, base, code)
    requires forall vp: nat | vp < CodePages(code) :: IsTable(v.mem[v.dir][vp / 1024])
    ensures Loaded(u, ProtectPages(v, CodePages(code)), base, code)
  {
    var n := CodePages(code);
    PlacingProtected(u, v, base, n);
    forall g: FrameNo | g in Span(base, n) ensures ProtectPages(v, n).mem[g] == v.mem[g] {
      ProtectedFrames(u, v, base, n, g);
    }
    CodeStays(v, ProtectPages(v, n), base, code);
  }

  lemma CodeLoaded(u: State, code: Program)
    requires Good(u) && UserEmpty(u) && CodeFits(code) && LoadCode(u, code).Placed?
    ensures var r := LoadCode(u, code); r.block != 0 && Loaded(u, r.s, r.block, code)
  {
    var n := CodePages(code);
    AllocPagesFits(u.pool, n);
    var a := AllocPages(u.pool, n);
    var base := a.block;
    var s := WithPool(u, a.pool);
    assert Good(s) && SmallPages(s, 0, n);
    var t := MapPages(s, 0, base, n, USER_RW).s;
    PagesMapped(s, t, 0, base, n, USER_RW);
    CodePlaced(u, s, t, base, n);
    CodeCopied(u, t, base, code);
    CodeProtected(u, WithCode(t, base, code), base, code);
  }

  // t from v by mapping the stack below the kernel to the frames from `stack`.
  ghost predicate Stacked(v: State, t: State, stack: nat) {
    && Good(t) && t.dir == v.dir && t.pool.max == v.pool.max && stack + STACK_PAGES <= 0x10_0000
    && v.pool.used + Span(stack, STACK_PAGES) <= t.pool.used && Span(stack, STACK_PAGES) !! v.pool.used
    && (forall p: nat | p < WINDOW :: Translate(t.mem, t.dir, p) ==
         if STACK_PAGE <= p < KERNEL_PAGE then Page(stack + (p - STACK_PAGE), true, true)
         else Translate(v.mem, t.dir, p))
    && (forall g: FrameNo | g in v.pool.used && g != t.dir :: t.mem[g] == v.mem[g])
    && (forall d | 0 <= d < 1024 && d != 767 :: t.mem[t.dir][d] == v.mem[t.dir][d])
    && OwnTable(v, t, 767, Span(stack, STACK_PAGES))
  }

  lemma StackPlaced(v: State, s: State, t: State, stack: nat)
    requires Good(v) && v.mem[v.dir][767] == ZERO && stack + STACK_PAGES <= 0x10_0000
    requires s == WithPool(v, s.pool) && s.pool.max == v.pool.max
    requires Span(stack, STACK_PAGES) !! v.pool.used && s.pool.used == v.pool.used + Span(stack, STACK_PAGES)
    requires RangeMapped(s, t, STACK_PAGE, stack, STACK_PAGES, USER_RW)
    ensures Stacked(v, t, stack)
  {
  }

  lemma StackAdded(v: State)
    requires Good(v) && v.mem[v.dir][767] == ZERO && AddStack(v).Placed?
    ensures var r := AddStack(v); r.block != 0 && Stacked(v, r.s, r.block)
  {
    AllocPagesFits(v.pool, STACK_PAGES);
    var a := AllocPages(v.pool, STACK_PAGES);
    var s := WithPool(v, a.pool);
    var t := AddStack(v).s;
    assert Ready(s, STACK_PAGE, STACK_PAGES);
    PagesMapped(s, t, STACK_PAGE, a.block, STACK_PAGES, USER_RW);
    StackPlaced(v, s, t, a.block);
  }

  // --- The whole address space -----------------------------------------------------------------------

  datatype Build = Process(s: State, pd: FrameNo, code: nat, stack: nat) | NotBuilt(why: Why)

  // Lines 30-71. The caller's directory, read back through the window, is active again at the end.
  ghost function BuildSpace(s: State, code: Program): Build
    requires Sized(s.pool) && CodePages(code) <= KERNEL_PAGE
  {
    var r := NewDirectory(s);
    if r.Placed? then BuildUser(WithDir(r.s, r.block), code, s.dir) else NotBuilt(r.why)
  }

  ghost function BuildUser(u: State, code: Program, previous: FrameNo): Build
    requires Sized(u.pool) && CodePages(code) <= KERNEL_PAGE
  {
    var r := LoadCode(u, code);
    if r.Placed? then FinishBuild(u.dir, r.block, AddStack(r.s), previous) else NotBuilt(r.why)
  }

  function FinishBuild(pd: FrameNo, code: nat, r: Placed, previous: FrameNo): Build {
    if r.Placed? then Process(WithDir(r.s, previous), pd, code, r.block) else NotBuilt(r.why)
  }

  // The user half of a process: code read-only, stack writable, nothing else.
  function Image(p: nat, code: nat, n: nat, stack: nat): Mapping
    requires code + n <= 0x10_0000 && stack + STACK_PAGES <= 0x10_0000
  {
    if p < n then Page(code + p, true, false)
    else if STACK_PAGE <= p < KERNEL_PAGE then Page(stack + (p - STACK_PAGE), true, true)
    else Absent
  }

  // What each directory entry below the kernel can be: nothing, or a table of the process's own.
  ghost predicate UserEntry(w: Word, taken: set<nat>, others: set<nat>) {
    w == ZERO || (w == Created(w.frame, USER_RW) && w.frame in taken && w.frame !in others)
  }

  // The table of the temporary mapping, which every directory shares.
  function Scratch(t: State): nat {
    t.mem[t.dir][TEMP_ENTRY].frame
  }

  ghost predicate Built(s: State, t: State, pd: FrameNo, code: nat, n: nat, stack: nat) {
    && Good(t) && t.dir == s.dir && t.pool.max == s.pool.max && s.pool.used <= t.pool.used
    && code + n <= 0x10_0000 && stack + STACK_PAGES <= 0x10_0000
    // the image, and the kernel half shared with the caller
    && Wired(t.mem, t.pool.used, pd)
    && (forall p: nat | p < KERNEL_PAGE :: Translate(t.mem, pd, p) == Image(p, code, n, stack))
    && (forall d | KERNEL_ENTRY <= d < 1023 :: t.mem[pd][d] == t.mem[t.dir][d])
    && t.mem[pd][1023] == Created(pd, RW)
    // everything the process owns was free before, and its parts do not overlap
    && {pd} + Span(code, n) + Span(stack, STACK_PAGES) <= t.pool.used - s.pool.used - {Scratch(t)}
    && pd !in Span(code, n) && pd !in Span(stack, STACK_PAGES) && Span(code, n) !! Span(stack, STACK_PAGES)
    && (forall d | 0 <= d < KERNEL_ENTRY ::
         UserEntry(t.mem[pd][d], t.pool.used - s.pool.used,
           {pd, Scratch(t)} + Span(code, n) + Span(stack, STACK_PAGES)))
  }

  // What the caller's side sees of it.
  ghost predicate CallerKept(s: State, t: State, pd: FrameNo) {
    && SameWalk(s.mem, t.mem, s.dir)
    && IsTable(t.mem[s.dir][TEMP_ENTRY])
    && (s.mem[s.dir][TEMP_ENTRY].flags.present ==> t.mem[s.dir] == s.mem[s.dir])
    && (!s.mem[s.dir][TEMP_ENTRY].flags.present ==>
         && t.mem[s.dir] == s.mem[s.dir][TEMP_ENTRY := t.mem[s.dir][TEMP_ENTRY]]
         && t.mem[s.dir][TEMP_ENTRY] == Created(t.mem[s.dir][TEMP_ENTRY].frame, RW)
         && t.mem[s.dir][TEMP_ENTRY].frame in t.pool.used - s.pool.used - {pd})
    && (forall g: FrameNo | g in s.pool.used && g != s.dir && g != t.mem[s.dir][TEMP_ENTRY].frame ::
         t.mem[g] == s.mem[g])
  }

  lemma Opens(s: State, t: State, pd: FrameNo)
    requires Caller(s) && Opened(s, t, pd)
    ensures var u := WithDir(t, pd);
      && Good(u) && UserEmpty(u)
      && (forall p: nat | p < KERNEL_PAGE :: Translate(u.mem, pd, p) == Absent)
      && u.mem[pd][1023] == Created(pd, RW)
      && (forall d | KERNEL_ENTRY <= d < 1023 :: u.mem[pd][d] == t.mem[t.dir][d])
  {
  }

  lemma UserHalf(u: State, v: State, w: State, code: nat, n: nat, stack: nat)
    requires Good(u) && UserEmpty(u) && 0 < n <= 0x4_0000
    requires forall p: nat | p < KERNEL_PAGE :: Translate(u.mem, u.dir, p) == Absent
    requires Placing(u, v, code, n, false) && Stacked(v, w, stack)
    ensures forall p: nat | p < KERNEL_PAGE :: Translate(w.mem, u.dir, p) == Image(p, code, n, stack)
    ensures forall d | 0 <= d < KERNEL_ENTRY ::
      UserEntry(w.mem[u.dir][d], w.pool.used - u.pool.used, Span(code, n) + Span(stack, STACK_PAGES))
    ensures forall d | KERNEL_ENTRY <= d < 1024 :: w.mem[u.dir][d] == u.mem[u.dir][d]
    ensures forall g: FrameNo | g in u.pool.used && g != u.dir :: w.mem[g] == u.mem[g]
    ensures Span(code, n) !! Span(stack, STACK_PAGES)
    ensures u.pool.used + Span(code, n) + Span(stack, STACK_PAGES) <= w.pool.used
    ensures Span(stack, STACK_PAGES) !! u.pool.used
  {
    forall d | 0 <= d < KERNEL_ENTRY
      ensures UserEntry(w.mem[u.dir][d], w.pool.used - u.pool.used, Span(code, n) + Span(stack, STACK_PAGES))
    {
      if d < 256 {
        assert OwnTable(u, v, d, Span(code, n));
      }
    }
  }

  // Frames of the caller's side are not touched by filling the user half of the new directory.
  lemma CallerSide(s: State, t: State, w: State, pd: FrameNo)
    requires Caller(s) && Opened(s, t, pd) && Good(WithDir(w, pd)) && w.dir == s.dir
    requires t.pool.used <= w.pool.used && w.pool.max == t.pool.max
    requires forall g: FrameNo | g in t.pool.used && g != pd :: w.mem[g] == t.mem[g]
    ensures Good(w) && CallerKept(s, w, pd)
  {
    forall d, e | 0 <= d < e < 1023 ensures TablesDiffer(w.mem, w.dir, d, e) {
      assert TablesDiffer(t.mem, t.dir, d, e);
    }
    assert forall d | 0 <= d < 1023 && IsTable(t.mem[t.dir][d]) :: t.mem[t.dir][d].frame != pd;
    assert SameWalk(t.mem, w.mem, s.dir);
  }

  lemma BuiltParts(s: State, t: State, u: State, w: State, pd: FrameNo, code: nat, n: nat, stack: nat)
    requires Caller(s) && Opened(s, t, pd) && u == WithDir(t, pd) && 0 < n <= 0x4_0000
    requires w.dir == s.dir && Good(w) && Good(WithDir(w, pd)) && w.pool.max == s.pool.max
    requires code + n <= 0x10_0000 && stack + STACK_PAGES <= 0x10_0000
    requires forall p: nat | p < KERNEL_PAGE :: Translate(w.mem, pd, p) == Image(p, code, n, stack)
    requires forall d | 0 <= d < KERNEL_ENTRY ::
      UserEntry(w.mem[pd][d], w.pool.used - u.pool.used, Span(code, n) + Span(stack, STACK_PAGES))
    requires forall d | KERNEL_ENTRY <= d < 1024 :: w.mem[pd][d] == u.mem[pd][d]
    requires forall g: FrameNo | g in u.pool.used && g != pd :: w.mem[g] == u.mem[g]
    requires u.mem[pd][1023] == Created(pd, RW)
    requires forall d | KERNEL_ENTRY <= d < 1023 :: u.mem[pd][d] == t.mem[t.dir][d]
    requires Span(code, n) !! Span(stack, STACK_PAGES)
    requires u.pool.used + Span(code, n) + Span(stack, STACK_PAGES) <= w.pool.used
    requires Span(stack, STACK_PAGES) !! u.pool.used && Span(code, n) !! u.pool.used
    ensures Built(s, w, pd, code, n, stack)
  {
  }

  // Everything proc_run_code does to memory: the new directory walks to exactly the program and the
  // stack, shares the kernel half with the caller, owns only frames that were free, and the caller's
  // directory is active again with every translation below the recursive window unchanged.
  lemma SpaceBuilt(s: State, code: Program)
    requires Caller(s) && CodeFits(code) && BuildSpace(s, code).Process?
    ensures var b := BuildSpace(s, code);
      && Built(s, b.s, b.pd, b.code, CodePages(code), b.stack)
      && CallerKept(s, b.s, b.pd)
      && Holds(b.s.mem, b.code, code)
  {
    var b := BuildSpace(s, code);
    DirectoryOpened(s);
    var t, pd := NewDirectory(s).s, NewDirectory(s).block;
    Opens(s, t, pd);
    var u := WithDir(t, pd);
    CodeLoaded(u, code);
    var v, base := LoadCode(u, code).s, LoadCode(u, code).block;
    StackAdded(v);
    var w, stack := AddStack(v).s, AddStack(v).block;
    UserHalf(u, v, w, base, CodePages(code), stack);
    CallerSide(s, t, WithDir(w, s.dir), pd);
    assert b == Process(WithDir(w, s.dir), pd, base, stack);
    BuiltParts(s, t, u, WithDir(w, s.dir), pd, base, CodePages(code), stack);
    CodeStays(v, w, base, code);
  }

  // --- When a process is not built -------------------------------------------------------------------

  lemma DirectoryNotTaken(s: State)
    requires Caller(s) && Translate(s.mem, s.dir, TEMP_PAGE) == Absent
    ensures NewDirectory(s) != Failed(Taken)
  {
    AllocPageFits(s.pool);
    var a := AllocPage(s.pool);
    if a.Ret? && a.block != 0 {
      var s1 := WithPool(s, a.pool);
      assert Good(s1) && SmallPages(s1, TEMP_PAGE, 1);
      PageNotOccupied(s1, TEMP_PAGE, a.block, RW);
    }
  }

  // The mapping of n pages of code: the frames are there, and the pages are absent.
  lemma CodeMapping(u: State, n: nat) returns (s: State, rest: Rest, goal: Ending)
    requires Good(u) && UserEmpty(u) && 0 < n <= 0x4_0000 && AllocPages(u.pool, n).block != 0
    ensures var a := AllocPages(u.pool, n);
      && a.block + n <= 0x10_0000 && s == WithPool(u, a.pool) && rest == Rest(0, a.block, n)
      && goal == MapPages(s, 0, a.block, n, USER_RW)
    ensures OnTheWay(s, rest, USER_RW, goal) && Unmapped(s, 0, n) && !s.mem[s.dir][0].flags.present
  {
    AllocPagesFits(u.pool, n);
    var a := AllocPages(u.pool, n);
    s, rest := WithPool(u, a.pool), Rest(0, a.block, n);
    goal := MapPages(s, 0, a.block, n, USER_RW);
  }

  lemma CodeNotTaken(u: State, code: Program)
    requires Good(u) && UserEmpty(u) && CodeFits(code)
    ensures LoadCode(u, code) != Failed(Taken)
  {
    var n := CodePages(code);
    if AllocPages(u.pool, n).block != 0 {
      var s, rest, goal := CodeMapping(u, n);
      NotOccupied(s, rest, USER_RW, goal);
    }
  }

  lemma StackNotTaken(v: State)
    requires Good(v) && v.mem[v.dir][767] == ZERO
    ensures AddStack(v) != Failed(Taken)
  {
    AllocPagesFits(v.pool, STACK_PAGES);
    var a := AllocPages(v.pool, STACK_PAGES);
    if a.block != 0 {
      var s := WithPool(v, a.pool);
      assert Ready(s, STACK_PAGE, STACK_PAGES) && Unmapped(s, STACK_PAGE, STACK_PAGES);
      NotOccupied(s, Rest(STACK_PAGE, a.block, STACK_PAGES), USER_RW,
        MapPages(s, STACK_PAGE, a.block, STACK_PAGES, USER_RW));
    }
  }

  // A process that is not built lacked frames: no page it maps can be mapped already, if the page of the
  // temporary mapping is not.
  lemma NotTaken(s: State, code: Program)
    requires Caller(s) && CodeFits(code) && Translate(s.mem, s.dir, TEMP_PAGE) == Absent
    ensures BuildSpace(s, code) != NotBuilt(Taken)
  {
    DirectoryNotTaken(s);
    if NewDirectory(s).Placed? {
      DirectoryOpened(s);
      var t, pd := NewDirectory(s).s, NewDirectory(s).block;
      Opens(s, t, pd);
      UserNotTaken(WithDir(t, pd), code, s.dir);
    }
  }

  lemma UserNotTaken(u: State, code: Program, previous: FrameNo)
    requires Good(u) && UserEmpty(u) && CodeFits(code)
    ensures BuildUser(u, code, previous) != NotBuilt(Taken)
  {
    CodeNotTaken(u, code);
    if LoadCode(u, code).Placed? {
      CodeLoaded(u, code);
      StackNotTaken(LoadCode(u, code).s);
    }
  }

  lemma CodeStays(v: State, w: State, base: nat, code: Program)
    requires base + CodePages(code) <= 0x10_0000 && Holds(v.mem, base, code)
    requires forall g: FrameNo | g in Span(base, CodePages(code)) :: w.mem[g] == v.mem[g]
    ensures Holds(w.mem, base, code)
  {
    PagesOfWords(code);
    forall k | 0 <= k <= |code.words| ensures w.mem[base + k / 1024] == v.mem[base + k / 1024] {
      assert base + k / 1024 in Span(base, CodePages(code));
    }
  }
}
