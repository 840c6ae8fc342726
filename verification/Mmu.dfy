// The i386 two-level address translation (Intel SDM volume 3A, section 4.3) as the specification the
// paging code is measured against, and the self-referencing directory window it edits tables through.
module Mmu {
  import opened PmmModel

  type FrameNo = f: nat | f < 0x10_0000
  type LowBits = r: nat | r < 256

  // The twelve low bits of an entry: bits 0, 1, 2 and 7 by name, and the others together, bits 3 to 6 in
  // the low half of `other` and 8 to 11 in the high half. Bit 7 means a 4 MB page in a directory entry only.
  datatype Flags = Flags(present: bool, rw: bool, user: bool, large: bool, other: LowBits)

  const NONE := Flags(false, false, false, false, 0)
  const RW := NONE.(rw := true) // PAGE_RW
  const USER_RW := RW.(user := true) // PAGE_USER | PAGE_RW

  // A 32-bit word of memory, split where paging splits it.
  datatype Word = Word(frame: FrameNo, flags: Flags)

  const ZERO := Word(0, NONE)

  type Frame = s: seq<Word> | |s| == 1024 witness seq(1024, _ => ZERO)
  type Memory = m: seq<Frame> | |m| == 0x10_0000 witness seq(0x10_0000, _ => Cleared())

  function Cleared(): Frame {
    seq(1024, _ => ZERO)
  }

  const PAGES := 0x10_0000 // virtual pages
  const WINDOW := 0xF_FC00 // the first page of the recursive window, 0xFFC00000 / 4096

  datatype Mapping = Absent | Page(frame: FrameNo, user: bool, rw: bool)

  predicate IsTable(w: Word) {
    w.flags.present && !w.flags.large
  }

  predicate IsLarge(w: Word) {
    w.flags.present && w.flags.large
  }

  // The walk from a directory for one virtual page. Access needs the right at both levels.
  function Translate(m: Memory, dir: FrameNo, vp: nat): Mapping
    requires vp < PAGES
  {
    var de := m[dir][vp / 1024];
    if !de.flags.present then Absent
    else if de.flags.large then
      Page(de.frame / 1024 * 1024 + vp % 1024, de.flags.user, de.flags.rw)
    else
      var pe := m[de.frame][vp % 1024];
      if !pe.flags.present then Absent
      else Page(pe.frame, de.flags.user && pe.flags.user, de.flags.rw && pe.flags.rw)
  }

  // The word of physical memory a virtual address reaches: frame and index.
  function Locate(m: Memory, dir: FrameNo, va: nat): Option<(FrameNo, nat)>
    requires va < 0x1_0000_0000
  {
    match Translate(m, dir, va / 4096)
    case Absent => None
    case Page(f, _, _) => Some((f, va % 4096 / 4))
  }

  // Entry 1023 names the directory itself.
  predicate Recursive(m: Memory, dir: FrameNo) {
    IsTable(m[dir][1023]) && m[dir][1023].frame == dir
  }

  // 0xFFFFF000 + 4 * d is entry d of the active directory.
  lemma DirectoryWindow(m: Memory, dir: FrameNo, d: nat)
    requires Recursive(m, dir) && d < 1024
    ensures Locate(m, dir, 0xFFFF_F000 + 4 * d) == Some((dir, d))
  {
  }

  // 0xFFC00000 + 4096 * d + 4 * t is the very word the walk uses for virtual page 1024 * d + t.
  lemma TableWindow(m: Memory, dir: FrameNo, d: nat, t: nat)
    requires Recursive(m, dir) && d < 1024 && t < 1024 && m[dir][d].flags.present
    ensures Locate(m, dir, 0xFFC0_0000 + 4096 * d + 4 * t) == Some((m[dir][d].frame, t))
    ensures IsTable(m[dir][d]) ==>
      var pe := m[m[dir][d].frame][t];
      Translate(m, dir, 1024 * d + t) ==
        if pe.flags.present
        then Page(pe.frame, m[dir][d].flags.user && pe.flags.user, m[dir][d].flags.rw && pe.flags.rw)
        else Absent
  {
  }

  function Put(m: Memory, f: FrameNo, i: nat, w: Word): Memory
    requires i < 1024
  {
    var row: Frame := m[f][i := w];
    m[f := row]
  }

  // A directory whose tables the walk keeps apart: it names itself, and its page tables are used
  // frames other than the directory and other than each other.
  ghost predicate Wired(m: Memory, used: set<nat>, dir: FrameNo) {
    && dir in used && Recursive(m, dir)
    && (forall d | 0 <= d < 1023 && IsTable(m[dir][d]) :: m[dir][d].frame in used && m[dir][d].frame != dir)
    && (forall d, e | 0 <= d < e < 1023 :: TablesDiffer(m, dir, d, e))
  }

  ghost predicate TablesDiffer(m: Memory, dir: FrameNo, d: nat, e: nat)
    requires d < 1023 && e < 1023
  {
    IsTable(m[dir][d]) && IsTable(m[dir][e]) ==> m[dir][d].frame != m[dir][e].frame
  }

  // Writing one page table entry changes the walk of that one page.
  lemma PutEntry(m: Memory, used: set<nat>, dir: FrameNo, vp: nat, w: Word)
    requires Wired(m, used, dir) && vp < WINDOW && IsTable(m[dir][vp / 1024])
    ensures var m' := Put(m, m[dir][vp / 1024].frame, vp % 1024, w);
      && Wired(m', used, dir)
      && m'[dir] == m[dir]
      && (forall p: nat | p < WINDOW && p != vp :: Translate(m', dir, p) == Translate(m, dir, p))
      && Translate(m', dir, vp) ==
         if w.flags.present
         then Page(w.frame, m[dir][vp / 1024].flags.user && w.flags.user, m[dir][vp / 1024].flags.rw && w.flags.rw)
         else Absent
  {
    var m' := Put(m, m[dir][vp / 1024].frame, vp % 1024, w);
    forall p: nat | p < WINDOW && p != vp ensures Translate(m', dir, p) == Translate(m, dir, p) {
      var d, e := p / 1024, vp / 1024;
      if d != e {
        assert TablesDiffer(m, dir, if d < e then d else e, if d < e then e else d);
      }
    }
    forall d, e | 0 <= d < e < 1023 ensures TablesDiffer(m', dir, d, e) {
      assert TablesDiffer(m, dir, d, e);
    }
  }
}
