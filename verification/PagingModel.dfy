// Page-table edits as operations on a value: memory, the active directory and the frame pool. The
// class in Paging.dfy, which reaches every entry through the recursive window, is proved against these.
module PagingModel {
  import opened PmmModel
  import opened Mmu

  datatype State = State(mem: Memory, dir: FrameNo, pool: Pool)

  // Panicked: the frame allocator aborted. Occupied: the page was mapped already, which aborts too.
  // OutOfFrames: the allocator returned its failure value 0, which the source does not check. What it
  // goes on to do with frame 0 is not modelled.
  datatype Ending = Done(s: State) | Panicked | Occupied | OutOfFrames

  ghost predicate Good(s: State) {
    Sized(s.pool) && 0 in s.pool.used && Wired(s.mem, s.pool.used, s.dir)
  }

  function Created(frame: FrameNo, flags: Flags): Word {
    Word(frame, flags.(present := true, rw := true))
  }

  function Entry(frame: FrameNo, flags: Flags): Word {
    Word(frame, flags.(present := true))
  }

  function Unpresent(w: Word): Word {
    Word(w.frame, w.flags.(present := false))
  }

  // paging_get_page with `create`: the table for directory entry d, made if absent.
  ghost function MakeTable(s: State, d: nat, flags: Flags): Ending
    requires Sized(s.pool) && d < 1024
  {
    if s.mem[s.dir][d].flags.present then Done(s)
    else if AllocPage(s.pool).Panic? then Panicked
    else if AllocPage(s.pool).block == 0 then OutOfFrames
    else Done(AddTable(s, d, AllocPage(s.pool).block, AllocPage(s.pool).pool, flags))
  }

  function AddTable(s: State, d: nat, frame: FrameNo, pool: Pool, flags: Flags): State
    requires d < 1024
  {
    State(Clear(Put(s.mem, s.dir, d, Created(frame, flags)), frame), s.dir, pool)
  }

  function Clear(m: Memory, f: FrameNo): Memory {
    m[f := Cleared()]
  }

  // Writing a page table entry, which must be absent, once its table exists.
  ghost function SetPage(s: State, vp: nat, w: Word): Ending
    requires vp < PAGES
  {
    if s.mem[TableOf(s, vp)][vp % 1024].flags.present then Occupied
    else Done(State(Put(s.mem, TableOf(s, vp), vp % 1024, w), s.dir, s.pool))
  }

  function TableOf(s: State, vp: nat): FrameNo
    requires vp < PAGES
  {
    s.mem[s.dir][vp / 1024].frame
  }

  ghost function Then(r: Ending, vp: nat, w: Word): Ending
    requires vp < PAGES
  {
    if r.Done? then SetPage(r.s, vp, w) else r
  }

  ghost function MapPage(s: State, vp: nat, frame: FrameNo, flags: Flags): Ending
    requires Sized(s.pool) && vp < PAGES
  {
    Then(MakeTable(s, vp / 1024, flags), vp, Entry(frame, flags))
  }

  ghost function MapPages(s: State, vp: nat, frame: nat, num: nat, flags: Flags): (r: Ending)
    requires Sized(s.pool) && vp + num <= PAGES && frame + num <= 0x10_0000
    ensures r.Done? ==> Sized(r.s.pool)
    decreases num, s.mem
  {
    if num == 0 then Done(s)
    else if MapPage(s, vp, frame, flags).Done? then
      MapPages(MapPage(s, vp, frame, flags).s, vp + 1, frame + 1, num - 1, flags)
    else MapPage(s, vp, frame, flags)
  }

  // Clears the present bit only, and only when the table exists.
  function UnmapPage(s: State, vp: nat): State
    requires vp < PAGES
  {
    if s.mem[s.dir][vp / 1024].flags.present then
      State(Put(s.mem, TableOf(s, vp), vp % 1024, Unpresent(s.mem[TableOf(s, vp)][vp % 1024])), s.dir, s.pool)
    else s
  }

  function UnmapPages(s: State, vp: nat, num: nat): State
    requires vp + num <= PAGES
    decreases num
  {
    if num == 0 then s else UnmapPages(UnmapPage(s, vp), vp + 1, num - 1)
  }

  // --- What a mapping does -------------------------------------------------------------------------

  ghost predicate SameWalk(m: Memory, m': Memory, dir: FrameNo) {
    forall p: nat | p < WINDOW :: Translate(m', dir, p) == Translate(m, dir, p)
  }

  lemma TableMade(s: State, d: nat, flags: Flags)
    requires Good(s) && d < 1023 && !IsLarge(s.mem[s.dir][d]) && !flags.large
    requires MakeTable(s, d, flags).Done?
    ensures var t := MakeTable(s, d, flags).s;
      && Good(t) && t.dir == s.dir && s.pool.used <= t.pool.used
      && t.mem[t.dir][d] ==
         (if s.mem[s.dir][d].flags.present then s.mem[s.dir][d] else Created(t.mem[t.dir][d].frame, flags))
      && (!s.mem[s.dir][d].flags.present ==>
           t.mem[t.dir][d].frame !in s.pool.used && t.mem[t.mem[t.dir][d].frame] == Cleared())
      && (s.mem[s.dir][d].flags.present ==> t == s)
      && (forall e | 0 <= e < 1024 && e != d :: t.mem[t.dir][e] == s.mem[s.dir][e])
      && (forall g: FrameNo | g in s.pool.used && g != s.dir :: t.mem[g] == s.mem[g])
      && SameWalk(s.mem, t.mem, s.dir)
  {
    AllocPageFits(s.pool);
    var t := MakeTable(s, d, flags).s;
    if !s.mem[s.dir][d].flags.present {
      assert Span(AllocPage(s.pool).block, 1) == {AllocPage(s.pool).block};
      forall e, f | 0 <= e < f < 1023 ensures TablesDiffer(t.mem, t.dir, e, f) {
        assert TablesDiffer(s.mem, s.dir, e, f);
      }
      forall p: nat | p < WINDOW ensures Translate(t.mem, s.dir, p) == Translate(s.mem, s.dir, p) {
        if p / 1024 == d {
          assert t.mem[t.mem[t.dir][d].frame][p % 1024] == ZERO;
        }
      }
    }
  }

  // The rights a page mapped with `flags` ends up with: those of a new table entry are the same, an
  // existing one may lack some.
  function UserRight(s: State, vp: nat, flags: Flags): bool
    requires vp < PAGES
  {
    flags.user && (s.mem[s.dir][vp / 1024].flags.present ==> s.mem[s.dir][vp / 1024].flags.user)
  }

  function WriteRight(s: State, vp: nat, flags: Flags): bool
    requires vp < PAGES
  {
    flags.rw && (s.mem[s.dir][vp / 1024].flags.present ==> s.mem[s.dir][vp / 1024].flags.rw)
  }

  // Directory entry d serves one of the `num` pages from vp on.
  predicate Touches(d: nat, vp: nat, num: nat) {
    num > 0 && vp / 1024 <= d <= (vp + num - 1) / 1024
  }

  // Frames a mapping of the range does not write: used, not the directory, and not one of its tables.
  ghost predicate Untouched(s: State, vp: nat, num: nat, g: nat) {
    && g in s.pool.used && g != s.dir
    && forall d: nat | d < 1024 && Touches(d, vp, num) :: IsTable(s.mem[s.dir][d]) ==> s.mem[s.dir][d].frame != g
  }

  // No page of the range lies under a 4 MB directory entry, which the paging code does not handle.
  ghost predicate SmallPages(s: State, vp: nat, num: nat) {
    forall d: nat | d < 1024 && Touches(d, vp, num) :: !IsLarge(s.mem[s.dir][d])
  }

  ghost predicate Mapped(s: State, t: State, vp: nat, frame: nat, num: nat, flags: Flags) {
    && (forall p: nat | vp <= p < vp + num && p < WINDOW ::
         && frame + (p - vp) < 0x10_0000
         && Translate(t.mem, s.dir, p) == Page(frame + (p - vp), UserRight(s, p, flags), WriteRight(s, p, flags)))
    && (forall p: nat | vp <= p < vp + num && p < WINDOW :: Translate(s.mem, s.dir, p) == Absent)
    && (forall p: nat | p < WINDOW && !(vp <= p < vp + num) ::
         Translate(t.mem, s.dir, p) == Translate(s.mem, s.dir, p))
  }

  // What else holds between the states: the frame and directory-entry footprint.
  ghost predicate Confined(s: State, t: State, vp: nat, num: nat, flags: Flags) {
    && t.dir == s.dir && t.pool.max == s.pool.max && s.pool.used <= t.pool.used
    && (forall g: FrameNo | Untouched(s, vp, num, g) :: t.mem[g] == s.mem[g])
    && (forall d: nat | d < 1024 && (s.mem[s.dir][d].flags.present || !Touches(d, vp, num)) ::
         t.mem[s.dir][d] == s.mem[s.dir][d])
    && (forall d: nat | d < 1024 && !s.mem[s.dir][d].flags.present && t.mem[s.dir][d] != s.mem[s.dir][d] ::
         t.mem[s.dir][d] == Created(t.mem[s.dir][d].frame, flags)
         && t.mem[s.dir][d].frame in t.pool.used - s.pool.used)
  }

  // The whole effect of mapping a range: t from s.
  ghost predicate RangeMapped(s: State, t: State, vp: nat, frame: nat, num: nat, flags: Flags) {
    Good(t) && Mapped(s, t, vp, frame, num, flags) && Confined(s, t, vp, num, flags)
  }

  lemma PageMapped(s: State, t: State, vp: nat, frame: FrameNo, flags: Flags)
    requires Good(s) && vp < WINDOW && SmallPages(s, vp, 1) && !flags.large
    requires MapPage(s, vp, frame, flags) == Done(t)
    ensures RangeMapped(s, t, vp, frame, 1, flags)
  {
    var d := vp / 1024;
    TableMade(s, d, flags);
    var u := MakeTable(s, d, flags).s;
    PutEntry(u.mem, u.pool.used, u.dir, vp, Entry(frame, flags));
    assert Touches(d, vp, 1);
  }

  lemma MappedCompose(s: State, t: State, u: State, vp: nat, frame: nat, num: nat, flags: Flags)
    requires num >= 1 && vp + num <= WINDOW && frame + num <= 0x10_0000
    requires t.dir == s.dir
    requires Mapped(s, t, vp, frame, 1, flags) && Confined(s, t, vp, 1, flags)
    requires Mapped(t, u, vp + 1, frame + 1, num - 1, flags)
    ensures Mapped(s, u, vp, frame, num, flags)
  {
  }

  lemma ConfinedCompose(s: State, t: State, u: State, vp: nat, num: nat, flags: Flags)
    requires num >= 1 && vp + num <= WINDOW
    requires Confined(s, t, vp, 1, flags) && Confined(t, u, vp + 1, num - 1, flags)
    ensures Confined(s, u, vp, num, flags)
  {
    forall g: FrameNo | Untouched(s, vp, num, g) ensures u.mem[g] == s.mem[g] {
      assert Untouched(s, vp, 1, g);
      assert Untouched(t, vp + 1, num - 1, g);
    }
  }

  lemma MappingCompose(s: State, t: State, u: State, vp: nat, frame: nat, num: nat, flags: Flags)
    requires num >= 1 && vp + num <= WINDOW && frame + num <= 0x10_0000
    requires RangeMapped(s, t, vp, frame, 1, flags) && RangeMapped(t, u, vp + 1, frame + 1, num - 1, flags)
    ensures RangeMapped(s, u, vp, frame, num, flags)
  {
    MappedCompose(s, t, u, vp, frame, num, flags);
    ConfinedCompose(s, t, u, vp, num, flags);
  }

  lemma NothingMapped(s: State, vp: nat, frame: nat, flags: Flags)
    requires Good(s)
    ensures RangeMapped(s, s, vp, frame, 0, flags)
  {
  }

  // A mapping can start or go on: the range is below the recursive window and of small pages.
  ghost predicate Ready(s: State, vp: nat, num: nat) {
    Good(s) && vp + num <= WINDOW && SmallPages(s, vp, num)
  }

  // What a mapping has left to do: `num` pages from `vp` on to frames from `frame` on.
  datatype Rest = Rest(vp: nat, frame: nat, num: nat)

  function After(rest: Rest): Rest
    requires rest.num >= 1
  {
    Rest(rest.vp + 1, rest.frame + 1, rest.num - 1)
  }

  // A mapping on its way to `goal`.
  ghost predicate OnTheWay(s: State, rest: Rest, flags: Flags, goal: Ending) {
    && Ready(s, rest.vp, rest.num) && rest.frame + rest.num <= 0x10_0000 && !flags.large
    && MapPages(s, rest.vp, rest.frame, rest.num, flags) == goal
  }

  // The first page of a mapping, and what is left to do after it.
  lemma FirstPage(s: State, rest: Rest, flags: Flags, goal: Ending) returns (next: Ending)
    requires OnTheWay(s, rest, flags, goal) && rest.num >= 1
    ensures Ready(s, rest.vp, 1) && next == MapPage(s, rest.vp, rest.frame, flags)
    ensures if next.Done? then OnTheWay(next.s, After(rest), flags, goal) else next == goal
  {
    next := MapPage(s, rest.vp, rest.frame, flags);
    assert SmallPages(s, rest.vp, 1);
    if next.Done? {
      PageMapped(s, next.s, rest.vp, rest.frame, flags);
    }
  }

  lemma FirstMapping(s: State, vp: nat, frame: nat, num: nat, flags: Flags) returns (next: Ending)
    requires Ready(s, vp, num) && num >= 1 && frame + num <= 0x10_0000 && !flags.large
    ensures next.Done? ==> Ready(next.s, vp + 1, num - 1) && RangeMapped(s, next.s, vp, frame, 1, flags)
    ensures MapPages(s, vp, frame, num, flags)
      == if next.Done? then MapPages(next.s, vp + 1, frame + 1, num - 1, flags) else next
  {
    next := FirstPage(s, Rest(vp, frame, num), flags, MapPages(s, vp, frame, num, flags));
    if next.Done? {
      PageMapped(s, next.s, vp, frame, flags);
    }
  }

  // Mapping a range is a map update on the walk: the pages of the range, all of them absent before,
  // go to consecutive frames, every other page below the recursive window keeps its translation, and
  // only the directory, the range's tables and newly allocated frames are written.
  lemma {:induction false} PagesMapped(s: State, t: State, vp: nat, frame: nat, num: nat, flags: Flags)
    requires Ready(s, vp, num) && frame + num <= 0x10_0000 && !flags.large
    requires MapPages(s, vp, frame, num, flags) == Done(t)
    ensures RangeMapped(s, t, vp, frame, num, flags)
    decreases num, 1
  {
    if num == 0 {
      NothingMapped(s, vp, frame, flags);
    } else {
      var next := FirstMapping(s, vp, frame, num, flags);
      RestMapped(s, next.s, t, vp, frame, num, flags);
    }
  }

  lemma {:induction false} RestMapped(s: State, next: State, t: State, vp: nat, frame: nat, num: nat, flags: Flags)
    requires num >= 1 && vp + num <= WINDOW && frame + num <= 0x10_0000 && !flags.large
    requires RangeMapped(s, next, vp, frame, 1, flags) && Ready(next, vp + 1, num - 1)
    requires MapPages(next, vp + 1, frame + 1, num - 1, flags) == Done(t)
    ensures RangeMapped(s, t, vp, frame, num, flags)
    decreases num, 0
  {
    PagesMapped(next, t, vp + 1, frame + 1, num - 1, flags);
    MappingCompose(s, next, t, vp, frame, num, flags);
  }

  ghost predicate Unmapped(s: State, vp: nat, num: nat) {
    forall p: nat | vp <= p < vp + num && p < WINDOW :: Translate(s.mem, s.dir, p) == Absent
  }

  lemma StillUnmapped(s: State, t: State, vp: nat, frame: nat, num: nat, flags: Flags)
    requires num >= 1 && t.dir == s.dir && Unmapped(s, vp, num) && Mapped(s, t, vp, frame, 1, flags)
    ensures Unmapped(t, vp + 1, num - 1)
  {
  }

  lemma PageNotOccupied(s: State, vp: nat, frame: FrameNo, flags: Flags)
    requires Ready(s, vp, 1) && !flags.large && Translate(s.mem, s.dir, vp) == Absent
    ensures !MapPage(s, vp, frame, flags).Occupied?
  {
    if MakeTable(s, vp / 1024, flags).Done? {
      TableMade(s, vp / 1024, flags);
    }
  }

  lemma FirstUnmapped(s: State, rest: Rest, flags: Flags, goal: Ending) returns (next: Ending)
    requires OnTheWay(s, rest, flags, goal) && rest.num >= 1 && Unmapped(s, rest.vp, rest.num)
    ensures Ready(s, rest.vp, 1) && next == MapPage(s, rest.vp, rest.frame, flags)
    ensures if next.Done?
      then OnTheWay(next.s, After(rest), flags, goal) && Unmapped(next.s, rest.vp + 1, rest.num - 1)
      else !goal.Occupied?
  {
    next := FirstPage(s, rest, flags, goal);
    PageNotOccupied(s, rest.vp, rest.frame, flags);
    if next.Done? {
      PageMapped(s, next.s, rest.vp, rest.frame, flags);
      StillUnmapped(s, next.s, rest.vp, rest.frame, rest.num, flags);
    }
  }

  // Mapping pages none of which is mapped does not end in "already mapped".
  lemma {:induction false} NotOccupied(s: State, rest: Rest, flags: Flags, goal: Ending)
    requires OnTheWay(s, rest, flags, goal) && Unmapped(s, rest.vp, rest.num)
    ensures !goal.Occupied?
    decreases rest.num
  {
    if rest.num > 0 {
      var next := FirstUnmapped(s, rest, flags, goal);
      if next.Done? {
        NotOccupied(next.s, After(rest), flags, goal);
      }
    }
  }

  lemma PageUnmapped(s: State, vp: nat)
    requires Good(s) && vp < WINDOW && SmallPages(s, vp, 1)
    ensures var t := UnmapPage(s, vp);
      && Good(t) && t.dir == s.dir && t.pool == s.pool && t.mem[t.dir] == s.mem[s.dir]
      && Translate(t.mem, s.dir, vp) == Absent
      && (forall p: nat | p < WINDOW && p != vp :: Translate(t.mem, s.dir, p) == Translate(s.mem, s.dir, p))
      && (forall g: FrameNo | g != s.mem[s.dir][vp / 1024].frame :: t.mem[g] == s.mem[g])
  {
    if s.mem[s.dir][vp / 1024].flags.present {
      PutEntry(s.mem, s.pool.used, s.dir, vp, Unpresent(s.mem[TableOf(s, vp)][vp % 1024]));
    }
  }

  lemma {:induction false} PagesUnmapped(s: State, vp: nat, num: nat)
    requires Good(s) && vp + num <= WINDOW && SmallPages(s, vp, num)
    ensures var t := UnmapPages(s, vp, num);
      && Good(t) && t.dir == s.dir && t.pool == s.pool
      && (forall p: nat | p < WINDOW :: Translate(t.mem, s.dir, p)
           == if vp <= p < vp + num then Absent else Translate(s.mem, s.dir, p))
    decreases num
  {
    if num > 0 {
      PageUnmapped(s, vp);
      PagesUnmapped(UnmapPage(s, vp), vp + 1, num - 1);
    }
  }

  ghost predicate LeftToUnmap(s: State, rest: Rest, goal: State) {
    Ready(s, rest.vp, rest.num) && UnmapPages(s, rest.vp, rest.num) == goal
  }

  lemma UnmapFirst(s: State, rest: Rest, goal: State)
    requires LeftToUnmap(s, rest, goal) && rest.num >= 1
    ensures Ready(s, rest.vp, 1) && LeftToUnmap(UnmapPage(s, rest.vp), After(rest), goal)
  {
    assert SmallPages(s, rest.vp, 1);
    PageUnmapped(s, rest.vp);
  }

  // Unmapping what was just mapped restores every translation below the recursive window, although
  // tables created on the way remain.
  lemma MapThenUnmap(s: State, vp: nat, frame: nat, num: nat, flags: Flags)
    requires Ready(s, vp, num) && frame + num <= 0x10_0000 && !flags.large
    requires MapPages(s, vp, frame, num, flags).Done?
    ensures var t := UnmapPages(MapPages(s, vp, frame, num, flags).s, vp, num);
      Good(t) && SameWalk(s.mem, t.mem, s.dir)
  {
    var t := MapPages(s, vp, frame, num, flags).s;
    PagesMapped(s, t, vp, frame, num, flags);
    assert SmallPages(t, vp, num);
    PagesUnmapped(t, vp, num);
  }

  // --- paging_virt_to_phys ---------------------------------------------------------------------------

  function VirtToPhys(s: State, va: nat): nat
    requires va < WRAP
  {
    if !s.mem[s.dir][va / 4096 / 1024].flags.present then 0
    else s.mem[TableOf(s, va / 4096)][va / 4096 % 1024].frame * 4096 + va % 4096
  }

  function MmuPhys(m: Memory, dir: FrameNo, va: nat): Option<nat>
    requires va < WRAP
  {
    match Translate(m, dir, va / 4096)
    case Absent => None
    case Page(f, _, _) => Some(f * 4096 + va % 4096)
  }

  // Below 4 MB entries the lookup gives the physical address exactly when the page is mapped. For an
  // unmapped page it gives 0 exactly when the table is missing or the stale entry and offset are 0,
  // because the present bit of the table entry is not looked at.
  lemma VirtToPhysExact(s: State, va: nat)
    requires va < WRAP && !IsLarge(s.mem[s.dir][va / 4096 / 1024])
    ensures MmuPhys(s.mem, s.dir, va).Some? ==> MmuPhys(s.mem, s.dir, va) == Some(VirtToPhys(s, va))
    ensures MmuPhys(s.mem, s.dir, va).None? ==>
      (VirtToPhys(s, va) == 0 <==>
        || !s.mem[s.dir][va / 4096 / 1024].flags.present
        || (s.mem[TableOf(s, va / 4096)][va / 4096 % 1024].frame == 0 && va % 4096 == 0))
  {
  }

  // A page that was mapped and then unmapped still has its old answer.
  lemma VirtToPhysStale(s: State, vp: nat, frame: FrameNo, flags: Flags, off: nat)
    requires Ready(s, vp, 1) && !flags.large && off < 4096
    requires MapPage(s, vp, frame, flags).Done?
    ensures var t := MapPage(s, vp, frame, flags).s;
      && MmuPhys(t.mem, t.dir, vp * 4096 + off) == Some(frame * 4096 + off)
      && VirtToPhys(t, vp * 4096 + off) == frame * 4096 + off
      && MmuPhys(UnmapPage(t, vp).mem, t.dir, vp * 4096 + off) == None
      && VirtToPhys(UnmapPage(t, vp), vp * 4096 + off) == frame * 4096 + off
  {
    var t := MapPage(s, vp, frame, flags).s;
    PageMapped(s, t, vp, frame, flags);
    assert (vp * 4096 + off) / 4096 == vp && (vp * 4096 + off) % 4096 == off;
    VirtToPhysExact(t, vp * 4096 + off);
    PageUnmapped(t, vp);
  }

  // --- The words written ---------------------------------------------------------------------------------

  // The entry of a mapped page: its frame, present, and every other flag as given. The entry of a table
  // made for it is present and writable, and has the other flags as well.
  lemma EntriesWritten(s: State, vp: nat, frame: FrameNo, flags: Flags)
    requires Ready(s, vp, 1) && !flags.large && MapPage(s, vp, frame, flags).Done?
    ensures var t := MapPage(s, vp, frame, flags).s; var de := t.mem[s.dir][vp / 1024];
      && t.mem[de.frame][vp % 1024] == Word(frame, Flags(true, flags.rw, flags.user, false, flags.other))
      && (!s.mem[s.dir][vp / 1024].flags.present ==> de.flags == Flags(true, true, flags.user, false, flags.other))
  {
    TableMade(s, vp / 1024, flags);
  }

  // Unmapping clears the present bit and nothing else of the entry.
  lemma EntryCleared(s: State, vp: nat)
    requires Ready(s, vp, 1) && s.mem[s.dir][vp / 1024].flags.present
    ensures var f := s.mem[s.dir][vp / 1024].frame; var was := s.mem[f][vp % 1024];
      UnmapPage(s, vp).mem[f][vp % 1024] ==
        Word(was.frame, Flags(false, was.flags.rw, was.flags.user, was.flags.large, was.flags.other))
  {
  }

  // --- User mode -------------------------------------------------------------------------------------

  // A user-mode store: the page must be present, user and writable, else it faults.
  function Stored(s: State, vp: nat, word: nat, value: Word): State {
    if vp < PAGES && word < 1024 && Translate(s.mem, s.dir, vp).Page?
      && Translate(s.mem, s.dir, vp).user && Translate(s.mem, s.dir, vp).rw
    then State(Put(s.mem, Translate(s.mem, s.dir, vp).frame, word, value), s.dir, s.pool)
    else s
  }

  // A store that is allowed writes that one word of the page's frame, and one that is not writes nothing.
  lemma StoreExact(s: State, vp: nat, word: nat, value: Word)
    requires vp < PAGES && word < 1024
    ensures var t, at := Stored(s, vp, word, value), Translate(s.mem, s.dir, vp);
      && t.dir == s.dir && t.pool == s.pool
      && forall f: FrameNo, i: nat | i < 1024 :: t.mem[f][i] ==
           if at.Page? && at.user && at.rw && f == at.frame && i == word then value else s.mem[f][i]
  {
  }
}
