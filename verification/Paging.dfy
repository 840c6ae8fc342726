// The paging code (kernel/src/mem/paging.c). Every table access goes to a computed virtual address,
// which the MMU translates through the active directory's own last entry.
module Paging {
  import opened PmmModel
  import opened Mmu
  import opened PagingModel
  import opened Pmm

  // EntryAt: the virtual address of a page table entry. Unbacked: the unchecked allocation failure.
  datatype PageRef = EntryAt(va: nat) | Null | Fatal | Unbacked

  datatype Outcome = Finished | Aborted | Unchecked

  ghost predicate Ends(r: Outcome, e: Ending, now: State) {
    match e
    case Done(t) => r == Finished && now == t
    case OutOfFrames => r == Unchecked
    case _ => r == Aborted
  }

  function EntryAddress(virt: nat): nat {
    0xFFC0_0000 + 4096 * (virt / 0x40_0000) + 4 * (virt / 4096 % 1024)
  }

  lemma FreshFrame(s: State, d: nat, flags: Flags)
    requires Good(s) && d < 1023 && !s.mem[s.dir][d].flags.present
    ensures var a := AllocPage(s.pool);
      a.Ret? ==>
        && (a.block * BLOCK_SIZE % WRAP == 0 <==> a.block == 0)
        && (a.block != 0 ==>
             && a.block < 0x10_0000 && a.block != s.dir && a.block * BLOCK_SIZE % WRAP / 4096 == a.block
             && MakeTable(s, d, flags) == Done(AddTable(s, d, a.block, a.pool, flags)))
  {
    AllocPageFits(s.pool);
  }

  class Machine {
    var mem: Memory
    var cr3: FrameNo
    const pmm: Allocator

    constructor (mem: Memory, cr3: FrameNo, pmm: Allocator)
      ensures this.mem == mem && this.cr3 == cr3 && this.pmm == pmm
    {
      this.mem := mem;
      this.cr3 := cr3;
      this.pmm := pmm;
    }

    ghost predicate Valid()
      reads this, pmm, pmm.bitmap
    {
      pmm.Valid() && Good(View())
    }

    ghost function View(): State
      reads this, pmm
    {
      State(mem, cr3, pmm.pool)
    }

    // A kernel-mode load. The address must be mapped: a page fault ends in abort().
    method Read(va: nat) returns (w: Word)
      requires va < WRAP && Locate(mem, cr3, va).Some?
      ensures var at := Locate(mem, cr3, va).value; w == mem[at.0][at.1]
    {
      var at := Locate(mem, cr3, va);
      return mem[at.value.0][at.value.1];
    }

    // A kernel-mode store. The kernel runs with CR0.WP clear, so the rw bits do not restrain it.
    method Write(va: nat, w: Word)
      requires va < WRAP && Locate(mem, cr3, va).Some?
      modifies this`mem
      ensures var at := old(Locate(mem, cr3, va)).value; mem == Put(old(mem), at.0, at.1, w)
    {
      var at := Locate(mem, cr3, va);
      mem := Put(mem, at.value.0, at.value.1, w);
    }

    // memset(table, 0, 4096) through the window of directory entry d.
    method ClearTable(d: nat)
      requires Recursive(mem, cr3) && d < 1023
      requires mem[cr3][d].flags.present && mem[cr3][d].frame != cr3
      modifies this`mem
      ensures mem == Clear(old(mem), old(mem[cr3][d].frame))
    {
      ghost var m, f := mem, mem[cr3][d].frame;
      assert Cleared()[..0] + m[f][0..] == m[f];
      for i := 0 to 1024
        invariant mem == m[f := Cleared()[..i] + m[f][i..]]
      {
        TableWindow(mem, cr3, d, i);
        Write(0xFFC0_0000 + 4096 * d + 4 * i, ZERO);
        assert (Cleared()[..i] + m[f][i..])[i := ZERO] == Cleared()[..i + 1] + m[f][i + 1..];
      }
      assert Cleared()[..1024] + m[f][1024..] == Cleared();
    }

    // A fresh, cleared table for the absent directory entry d.
    method CreateTable(d: nat, flags: Flags) returns (r: Outcome)
      requires Valid() && d < 1023 && !mem[cr3][d].flags.present
      modifies this`mem, pmm`usedBlocks, pmm`pool, pmm.bitmap
      ensures pmm.Valid() && Ends(r, MakeTable(old(View()), d, flags), View())
      ensures r == Finished ==> Recursive(mem, cr3) && mem[cr3][d].flags.present
    {
      ghost var s := View();
      FreshFrame(s, d, flags);
      var newTable := pmm.AllocPage();
      if newTable == None {
        return Aborted;
      }
      if newTable == Some(0) {
        return Unchecked;
      }
      var frame: FrameNo := newTable.value / 4096;
      DirectoryWindow(mem, cr3, d);
      Write(0xFFFF_F000 + 4 * d, Created(frame, flags));
      ClearTable(d);
      return Finished;
    }

    // paging_get_page without `create`: an unaligned address aborts.
    method FindPage(virt: nat) returns (r: PageRef)
      requires Valid() && virt < WRAP
      ensures r == if virt % 4096 != 0 then Fatal
        else if mem[cr3][virt / 0x40_0000].flags.present then EntryAt(EntryAddress(virt))
        else Null
    {
      if virt % 4096 != 0 {
        return Fatal;
      }
      var dirIndex, tableIndex := virt / 0x40_0000, virt / 4096 % 1024;
      var dir, table := 0xFFFF_F000, 0xFFC0_0000 + 4096 * dirIndex;
      DirectoryWindow(mem, cr3, dirIndex);
      var e := Read(dir + 4 * dirIndex);
      if e.flags.present {
        return EntryAt(table + 4 * tableIndex);
      }
      return Null;
    }

    // paging_get_page with `create`.
    method GetPage(virt: nat, flags: Flags) returns (r: PageRef)
      requires Valid() && virt / 0x40_0000 < 1023
      requires !IsLarge(mem[cr3][virt / 0x40_0000]) && !flags.large
      modifies this`mem, pmm`usedBlocks, pmm`pool, pmm.bitmap
      ensures pmm.Valid()
      ensures virt % 4096 != 0 ==> r == Fatal && View() == old(View())
      ensures virt % 4096 == 0 ==>
        match MakeTable(old(View()), virt / 0x40_0000, flags)
        case Done(t) => Valid() && View() == t && r == EntryAt(EntryAddress(virt))
        case OutOfFrames => r == Unbacked
        case _ => r == Fatal
    {
      ghost var s := View();
      r := FindPage(virt);
      if r == Null {
        var made := CreateTable(virt / 0x40_0000, flags);
        if made == Aborted {
          return Fatal;
        } else if made == Unchecked {
          return Unbacked;
        }
        TableMade(s, virt / 0x40_0000, flags);
        r := FindPage(virt);
      }
    }

    // Maps one absent page. `phys` is page-aligned, so `phys | flags` splits as frame and flags.
    method MapPage(virt: nat, phys: nat, flags: Flags) returns (r: Outcome)
      requires virt % 4096 == 0 && phys < WRAP && phys % 4096 == 0
      requires pmm.Valid() && Ready(View(), virt / 4096, 1) && !flags.large
      modifies this`mem, pmm`usedBlocks, pmm`pool, pmm.bitmap
      ensures pmm.Valid()
      ensures Ends(r, PagingModel.MapPage(old(View()), virt / 4096, phys / 4096, flags), View())
    {
      ghost var s := View();
      assert !IsLarge(mem[cr3][virt / 4096 / 1024]) && virt / 4096 / 1024 == virt / 0x40_0000;
      var ref := GetPage(virt, flags);
      if ref == Fatal {
        return Aborted;
      } else if ref == Unbacked {
        return Unchecked;
      }
      TableMade(s, virt / 4096 / 1024, flags);
      TableWindow(mem, cr3, virt / 4096 / 1024, virt / 4096 % 1024);
      var e := Read(ref.va);
      if e.flags.present {
        return Aborted;
      }
      Write(ref.va, Entry(phys / 4096, flags));
      return Finished;
    }

    // One round of the mapping loop, on the way to `goal`.
    method MapNext(virt: nat, phys: nat, flags: Flags, ghost rest: Rest, ghost goal: Ending)
      returns (r: Outcome, ghost next: Rest)
      requires virt == 4096 * rest.vp && phys == 4096 * rest.frame && pmm.Valid() && rest.num >= 1
      requires OnTheWay(View(), rest, flags, goal)
      modifies this`mem, pmm`usedBlocks, pmm`pool, pmm.bitmap
      ensures pmm.Valid()
      ensures next == After(rest)
      ensures r == Finished ==> OnTheWay(View(), next, flags, goal)
      ensures r != Finished ==> Ends(r, goal, View())
    {
      ghost var mapped := FirstPage(View(), rest, flags, goal);
      assert virt / 4096 == rest.vp && phys / 4096 == rest.frame && virt % 4096 == 0 && phys % 4096 == 0;
      r := MapPage(virt, phys, flags);
      next := After(rest);
    }

    method MapPages(virt: nat, phys: nat, num: nat, flags: Flags) returns (r: Outcome)
      requires virt % 4096 == 0 && phys % 4096 == 0 && phys / 4096 + num <= 0x10_0000
      requires pmm.Valid() && Ready(View(), virt / 4096, num) && !flags.large
      modifies this`mem, pmm`usedBlocks, pmm`pool, pmm.bitmap
      ensures pmm.Valid()
      ensures Ends(r, PagingModel.MapPages(old(View()), virt / 4096, phys / 4096, num, flags), View())
    {
      ghost var goal := PagingModel.MapPages(View(), virt / 4096, phys / 4096, num, flags);
      ghost var rest := Rest(virt / 4096, phys / 4096, num);
      var v, p := virt, phys;
      for i := 0 to num
        invariant pmm.Valid() && v == 4096 * rest.vp && p == 4096 * rest.frame && rest.num == num - i
        invariant OnTheWay(View(), rest, flags, goal)
      {
        r, rest := MapNext(v, p, flags, rest, goal);
        if r != Finished {
          return r;
        }
        v, p := v + 4096, p + 4096;
      }
      return Finished;
    }

    // Clears the present bit when the table exists; otherwise only prints.
    method UnmapPage(virt: nat)
      requires virt % 4096 == 0 && pmm.Valid() && Ready(View(), virt / 4096, 1)
      modifies this`mem
      ensures View() == PagingModel.UnmapPage(old(View()), virt / 4096)
    {
      var ref := FindPage(virt);
      if ref != Null {
        TableWindow(mem, cr3, virt / 4096 / 1024, virt / 4096 % 1024);
        var e := Read(ref.va);
        Write(ref.va, Unpresent(e));
      }
    }

    // One round of the unmapping loop.
    method UnmapNext(virt: nat, ghost rest: Rest, ghost goal: State) returns (ghost next: Rest)
      requires virt == 4096 * rest.vp && pmm.Valid() && rest.num >= 1 && LeftToUnmap(View(), rest, goal)
      modifies this`mem
      ensures next == After(rest) && LeftToUnmap(View(), next, goal)
    {
      UnmapFirst(View(), rest, goal);
      assert virt / 4096 == rest.vp && virt % 4096 == 0;
      UnmapPage(virt);
      next := After(rest);
    }

    method UnmapPages(virt: nat, num: nat)
      requires virt % 4096 == 0 && pmm.Valid() && Ready(View(), virt / 4096, num)
      modifies this`mem
      ensures View() == PagingModel.UnmapPages(old(View()), virt / 4096, num)
    {
      ghost var goal := PagingModel.UnmapPages(View(), virt / 4096, num);
      ghost var rest := Rest(virt / 4096, 0, num);
      var v := virt;
      for i := 0 to num
        invariant pmm.Valid() && v == 4096 * rest.vp && rest.num == num - i
        invariant LeftToUnmap(View(), rest, goal)
      {
        rest := UnmapNext(v, rest, goal);
        v := v + 4096;
      }
    }

    method VirtToPhys(virt: nat) returns (r: nat)
      requires Valid() && virt < WRAP
      ensures r == PagingModel.VirtToPhys(View(), virt)
    {
      var page := virt / 4096 * 4096;
      var ref := FindPage(page);
      if ref == Null {
        return 0;
      }
      TableWindow(mem, cr3, page / 0x40_0000, page / 4096 % 1024);
      var e := Read(ref.va);
      return e.frame * 4096 + virt % 4096;
    }

    // A store by user code; a page that is not present, user and writable faults instead.
    method UserStore(vp: nat, word: nat, value: Word)
      requires vp < PAGES && word < 1024
      modifies this`mem
      ensures View() == Stored(old(View()), vp, word, value)
    {
      var page := Translate(mem, cr3, vp);
      if page.Page? && page.user && page.rw {
        mem := Put(mem, page.frame, word, value);
      }
    }

    // Loads CR3; its low bits are not part of the address. The directory window shows the new directory
    // from then on, if that names itself.
    method SwitchDirectory(phys: nat)
      requires phys < WRAP
      modifies this`cr3
      ensures cr3 == phys / 4096
      ensures Recursive(mem, phys / 4096) ==> Locate(mem, cr3, 0xFFFF_F000) == Some((phys / 4096, 0))
    {
      cr3 := phys / 4096;
      if Recursive(mem, cr3) {
        DirectoryWindow(mem, cr3, 0);
      }
    }
  }
}
