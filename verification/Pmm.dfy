// The physical memory manager over its word-packed bitmap (kernel/src/mem/pmm.c). A 32-bit word is
// the sequence of its bits, bit 0 first, so `|= 1 << j` sets element j and `&= ~(1 << j)` clears it.
module Pmm {
  import opened PmmInit
  import opened PmmModel

  type Bits32 = w: seq<bool> | |w| == 32 witness seq(32, _ => false)

  const FULL: Bits32 := seq(32, _ => true) // 0xFFFFFFFF

  function UsedBits(words: seq<Bits32>): set<nat> {
    set b: nat | b < 32 * |words| && words[b / 32][b % 32]
  }

  lemma UsedBitsUpdate(words: seq<Bits32>, b: nat, v: bool)
    requires b < 32 * |words|
    ensures UsedBits(words[b / 32 := words[b / 32][b % 32 := v]])
      == if v then UsedBits(words) + {b} else UsedBits(words) - {b}
  {
  }

  // The run search after `pos` bits: the last `count` of them are clear, no run has been completed.
  ghost predicate Scanning(used: set<nat>, n: nat, pos: nat, first: nat, count: nat) {
    && count <= pos
    && ClearRun(used, pos - count, count)
    && (count < pos ==> pos - count - 1 in used)
    && first == (if count == 0 then 0 else if count == pos then (if count == 1 then 0 else 1) else pos - count)
    && (n > 0 ==> count < n)
    && (n > 0 ==> forall s: nat | s + n <= pos :: !ClearRun(used, s, n))
  }

  lemma ScanClear(used: set<nat>, limit: nat, n: nat, pos: nat, first: nat, count: nat)
    requires Scanning(used, n, pos, first, count) && pos !in used && pos < limit
    ensures count + 1 != n ==>
      Scanning(used, n, pos + 1, if first == 0 then pos else first, count + 1)
    ensures count + 1 == n ==>
      FindFrame(used, limit, n) == if first == 0 then pos else first
  {
    var start := pos - count;
    assert ClearRun(used, start, count + 1);
    if n > 0 {
      forall s: nat | s + n <= pos + 1 && s != start ensures !ClearRun(used, s, n) {
        if s + n == pos + 1 && s < start {
          assert s <= start - 1 < s + n;
        }
      }
    }
    if count + 1 == n {
      FirstFitExact(used, limit, n, 0);
      assert FirstFit(used, limit, n, 0) == Some(start);
    }
  }

  lemma ScanSet(used: set<nat>, n: nat, pos: nat, first: nat, count: nat)
    requires Scanning(used, n, pos, first, count) && pos in used
    ensures Scanning(used, n, pos + 1, 0, 0)
  {
  }

  lemma {:induction false} ScanFullWord(used: set<nat>, n: nat, pos: nat, first: nat, count: nat, k: nat)
    requires Scanning(used, n, pos, first, count) && k > 0
    requires forall b: nat | pos <= b < pos + k :: b in used
    ensures Scanning(used, n, pos + k, 0, 0)
    decreases k
  {
    ScanSet(used, n, pos, first, count);
    if k > 1 {
      ScanFullWord(used, n, pos + 1, 0, 0, k - 1);
    }
  }

  // One bit of the scan: either the run is complete or the scan goes on, with these counters.
  lemma ScanBit(words: seq<Bits32>, limit: nat, n: nat, i: nat, j: nat, first: nat, count: nat)
    returns (c: nat, f: nat, next: nat)
    requires i < |words| && j < 32 && i * 32 + j < limit
    requires Scanning(UsedBits(words), n, i * 32 + j, first, count)
    ensures c == if words[i][j] then 0 else count + 1
    ensures f == if words[i][j] then 0 else if first == 0 then i * 32 + j else first
    ensures if c == n then FindFrame(UsedBits(words), limit, n) == f
      else Scanning(UsedBits(words), n, next, f, c)
    ensures next == i * 32 + j + 1
  {
    next := i * 32 + j + 1;
    if words[i][j] {
      c, f := 0, 0;
      UsedBit(words, i, j);
      ScanSet(UsedBits(words), n, i * 32 + j, first, count);
    } else {
      c, f := count + 1, if first == 0 then i * 32 + j else first;
      FreeBit(words, i, j);
      ScanClear(UsedBits(words), limit, n, i * 32 + j, first, count);
    }
  }

  lemma ScanFull(words: seq<Bits32>, n: nat, i: nat, first: nat, count: nat)
    requires i < |words| && words[i] == FULL
    requires Scanning(UsedBits(words), n, i * 32, first, count)
    ensures Scanning(UsedBits(words), n, (i + 1) * 32, 0, 0)
  {
    forall b: nat | i * 32 <= b < i * 32 + 32 ensures b in UsedBits(words) {
      UsedBit(words, i, b - i * 32);
    }
    ScanFullWord(UsedBits(words), n, i * 32, first, count, 32);
  }

  lemma ScanEnd(used: set<nat>, limit: nat, n: nat, first: nat, count: nat)
    requires Scanning(used, n, limit, first, count)
    ensures FindFrame(used, limit, n) == 0
  {
    FirstFitExact(used, limit, n, 0);
  }

  lemma NoSingleFit(used: set<nat>, pos: nat)
    requires forall b: nat | b < pos :: b in used
    ensures forall s: nat | s < pos :: !ClearRun(used, s, 1)
  {
    forall s: nat | s < pos ensures !ClearRun(used, s, 1) {
      assert s in used;
    }
  }

  lemma TakeMore(p: Pool, first: nat, n: nat)
    ensures Take(Take(p, first, n), first + n, 1) == Take(p, first, n + 1)
  {
  }

  lemma GiveMore(p: Pool, first: nat, n: nat)
    ensures Give(Give(p, first, n), first + n, 1) == Give(p, first, n + 1)
  {
  }

  class Allocator {
    var bitmap: array<Bits32>
    var usedBlocks: nat // uint32_t
    var maxBlocks: nat // uint32_t

    ghost var pool: Pool // the abstract state, tied to the fields by Valid

    ghost predicate Valid()
      reads this, bitmap
    {
      && maxBlocks < MAX_BLOCKS && usedBlocks < WRAP
      && Scanned(maxBlocks) < 32 * bitmap.Length // the memory after the kernel goes on past the map
      && pool == Pool(UsedBits(bitmap[..]), usedBlocks, maxBlocks)
    }

    constructor (backing: array<Bits32>)
      requires backing.Length > 0
      ensures bitmap == backing && Valid() && pool == Pool(UsedBits(backing[..]), 0, 0)
    {
      bitmap := backing;
      usedBlocks := 0;
      maxBlocks := 0;
      pool := Pool(UsedBits(backing[..]), 0, 0);
    }

    method MmapSet(bit: nat)
      requires Valid() && bit < 32 * bitmap.Length
      modifies this`usedBlocks, this`pool, bitmap
      ensures Valid() && pool == Take(old(pool), bit, 1)
    {
      UsedBitsUpdate(bitmap[..], bit, true);
      ghost var words := bitmap[..];
      bitmap[bit / 32] := bitmap[bit / 32][bit % 32 := true];
      assert bitmap[..] == words[bit / 32 := words[bit / 32][bit % 32 := true]];
      usedBlocks := (usedBlocks + 1) % WRAP;
      pool := Take(pool, bit, 1);
      assert Span(bit, 1) == {bit};
    }

    method MmapUnset(bit: nat)
      requires Valid() && bit < 32 * bitmap.Length
      modifies this`usedBlocks, this`pool, bitmap
      ensures Valid() && pool == Give(old(pool), bit, 1)
    {
      UsedBitsUpdate(bitmap[..], bit, false);
      ghost var words := bitmap[..];
      bitmap[bit / 32] := bitmap[bit / 32][bit % 32 := false];
      assert bitmap[..] == words[bit / 32 := words[bit / 32][bit % 32 := false]];
      usedBlocks := (usedBlocks - 1) % WRAP;
      pool := Give(pool, bit, 1);
      assert Span(bit, 1) == {bit};
    }

    // Returns the first free bit, or 0.
    method MmapFindFree() returns (r: nat)
      requires Valid()
      ensures r == FindFrame(pool.used, Scanned(maxBlocks), 1)
    {
      ghost var used := pool.used;
      for i := 0 to maxBlocks / 32
        invariant forall b: nat | b < i * 32 :: b in used
      {
        if bitmap[i] != FULL {
          for j := 0 to 32
            invariant forall b: nat | b < i * 32 + j :: b in used
            invariant forall k | 0 <= k < j :: bitmap[i][k]
          {
            if !bitmap[i][j] {
              FreeBit(bitmap[..], i, j);
              FirstFitExact(used, Scanned(maxBlocks), 1, 0);
              assert ClearRun(used, i * 32 + j, 1);
              NoSingleFit(used, i * 32 + j);
              assert FirstFit(used, Scanned(maxBlocks), 1, 0) == Some(i * 32 + j);
              return i * 32 + j;
            }
            UsedBit(bitmap[..], i, j);
          }
        }
        forall b: nat | b < (i + 1) * 32 ensures b in used {
          if b >= i * 32 {
            UsedBit(bitmap[..], i, b - i * 32);
          }
        }
      }
      NoSingleFit(used, Scanned(maxBlocks));
      FirstFitExact(used, Scanned(maxBlocks), 1, 0);
      return 0;
    }

    // Returns the first block of a run of frameSize free bits, or 0.
    method MmapFindFreeFrame(frameSize: nat) returns (r: nat)
      requires Valid()
      ensures r == FindFrame(pool.used, Scanned(maxBlocks), frameSize)
    {
      ghost var words, used, limit, pos := bitmap[..], pool.used, Scanned(maxBlocks), 0;
      var first: nat, count: nat := 0, 0;
      for i := 0 to maxBlocks / 32
        invariant pos == i * 32 && Scanning(used, frameSize, pos, first, count)
      {
        if bitmap[i] != FULL {
          for j := 0 to 32
            invariant pos == i * 32 + j && Scanning(used, frameSize, pos, first, count)
          {
            ghost var c, f := 0, 0;
            c, f, pos := ScanBit(words, limit, frameSize, i, j, first, count);
            if !bitmap[i][j] {
              if first == 0 {
                first := i * 32 + j;
              }
              count := count + 1;
            } else {
              first, count := 0, 0;
            }
            assert first == f && count == c;
            if count == frameSize {
              return first;
            }
          }
        } else {
          ScanFull(words, frameSize, i, first, count);
          first, count, pos := 0, 0, pos + 32;
        }
      }
      ScanEnd(used, limit, frameSize, first, count);
      return 0;
    }

    // The address of a newly taken page, 0 when none was found, or None for the out-of-memory abort.
    method AllocPage() returns (addr: Option<nat>)
      requires Valid()
      modifies this`usedBlocks, this`pool, bitmap
      ensures Valid()
      ensures var r := PmmModel.AllocPage(old(pool));
        if r.Panic? then addr == None && pool == old(pool)
        else addr == Some(r.block * BLOCK_SIZE % WRAP) && pool == r.pool
    {
      if (maxBlocks - usedBlocks) % WRAP <= 0 {
        return None;
      }
      var block := MmapFindFree();
      if block == 0 {
        return Some(0);
      }
      MmapSet(block);
      return Some(block * BLOCK_SIZE % WRAP);
    }

    method SetRun(first: nat, n: nat)
      requires Valid() && first + n <= 32 * bitmap.Length
      modifies this`usedBlocks, this`pool, bitmap
      ensures Valid() && pool == Take(old(pool), first, n)
    {
      assert Span(first, 0) == {};
      for i := 0 to n
        invariant Valid() && pool == Take(old(pool), first, i)
      {
        MmapSet(first + i);
        TakeMore(old(pool), first, i);
      }
    }

    method UnsetRun(first: nat, n: nat)
      requires Valid() && first + n <= 32 * bitmap.Length
      modifies this`usedBlocks, this`pool, bitmap
      ensures Valid() && pool == Give(old(pool), first, n)
    {
      assert Span(first, 0) == {};
      for i := 0 to n
        invariant Valid() && pool == Give(old(pool), first, i)
      {
        MmapUnset(first + i);
        GiveMore(old(pool), first, i);
      }
    }

    // 4 MB of memory at a multiple of 4 MB, or 0.
    method AllocAlignedLargePage() returns (addr: nat)
      requires Valid()
      modifies this`usedBlocks, this`pool, bitmap
      ensures Valid()
      ensures var r := AllocLarge(old(pool));
        addr == r.block * BLOCK_SIZE % WRAP && pool == r.pool
    {
      if (maxBlocks - usedBlocks) % WRAP < 2 * 1024 {
        return 0;
      }
      var freeBlock := MmapFindFreeFrame(2 * 1024);
      if freeBlock == 0 {
        return 0;
      }
      var alignedBlock := (freeBlock / 1024 + 1) * 1024;
      SetRun(alignedBlock, 1024);
      return alignedBlock * BLOCK_SIZE % WRAP;
    }

    // `num` contiguous pages, or 0.
    method AllocPages(num: nat) returns (addr: nat)
      requires Valid()
      modifies this`usedBlocks, this`pool, bitmap
      ensures Valid()
      ensures var r := PmmModel.AllocPages(old(pool), num);
        addr == r.block * BLOCK_SIZE % WRAP && pool == r.pool
    {
      if (maxBlocks - usedBlocks) % WRAP < num {
        return 0;
      }
      var firstBlock := MmapFindFreeFrame(num);
      if firstBlock == 0 {
        return 0;
      }
      SetRun(firstBlock, num);
      return firstBlock * BLOCK_SIZE % WRAP;
    }

    method FreePage(addr: nat)
      requires Valid() && addr / BLOCK_SIZE < 32 * bitmap.Length
      modifies this`usedBlocks, this`pool, bitmap
      ensures Valid() && pool == Give(old(pool), addr / BLOCK_SIZE, 1)
    {
      MmapUnset(addr / BLOCK_SIZE);
    }

    method FreePages(addr: nat, num: nat)
      requires Valid() && addr / BLOCK_SIZE + num <= 32 * bitmap.Length
      modifies this`usedBlocks, this`pool, bitmap
      ensures Valid() && pool == Give(old(pool), addr / BLOCK_SIZE, num)
    {
      UnsetRun(addr / BLOCK_SIZE, num);
    }

    // memset(bitmap, 0xFF, bytes), with four bytes to the word.
    method FillBytes(bytes: nat)
      requires Valid() && bytes * 8 <= 32 * bitmap.Length
      modifies this`pool, bitmap
      ensures Valid() && pool == old(pool).(used := old(pool).used + Span(0, bytes * 8))
    {
      assert Span(0, 0) == {};
      for k := 0 to bytes
        invariant Valid() && pool == old(pool).(used := old(pool).used + Span(0, k * 8))
      {
        for b := k * 8 to k * 8 + 8
          invariant Valid() && pool == old(pool).(used := old(pool).used + Span(0, b))
        {
          UsedBitsUpdate(bitmap[..], b, true);
          ghost var words := bitmap[..];
          bitmap[b / 32] := bitmap[b / 32][b % 32 := true];
          assert bitmap[..] == words[b / 32 := words[b / 32][b % 32 := true]];
          pool := pool.(used := pool.used + {b});
          assert Span(0, b + 1) == Span(0, b) + {b};
        }
      }
    }

    // pmm_init_region.
    method InitRegion(addr: nat, size: nat)
      requires Valid() && addr / BLOCK_SIZE + size / BLOCK_SIZE <= 32 * bitmap.Length
      modifies this`usedBlocks, this`pool, bitmap
      ensures Valid() && pool == Give(old(pool), addr / BLOCK_SIZE, size / BLOCK_SIZE)
    {
      UnsetRun(addr / BLOCK_SIZE, size / BLOCK_SIZE);
    }

    // The loop of pmm_init over the memory map, `length` bytes of headers from `start` on. The result is
    // false when it meets an entry of length zero, which the source never gets past.
    method ReadMap(headers: nat -> Header, start: nat, length: nat) returns (done: bool)
      requires Valid() && RegionsFit(Walk(headers, start, start + length), 32 * bitmap.Length)
      modifies this`usedBlocks, this`pool, bitmap
      ensures Valid()
      ensures var r := FreeRegions(old(pool), Walk(headers, start, start + length));
        if done then r == Some(pool) else r == None
    {
      var mmap, end := start, start + length;
      while mmap < end
        invariant Valid() && RegionsFit(Walk(headers, mmap, end), 32 * bitmap.Length)
        invariant FreeRegions(old(pool), Walk(headers, start, end)) == FreeRegions(pool, Walk(headers, mmap, end))
        decreases end - mmap
      {
        var h := headers(mmap);
        WalkFirst(headers, mmap, end, pool, 32 * bitmap.Length);
        if h.entry.len == 0 {
          return false;
        }
        if h.entry.kind == 1 {
          InitRegion(h.entry.addr % WRAP, h.entry.len % WRAP);
        }
        mmap := mmap + h.size + 4;
      }
      return true;
    }

    // The memory behind the kernel holds every bit that pmm_init writes.
    ghost predicate FitsMap(boot: BootInfo, kernelEnd: nat)
      reads this
    {
      && boot.Blocks() < 32 * bitmap.Length && RegionsFit(boot.Entries(), 32 * bitmap.Length)
      && Retained(kernelEnd, boot.Blocks()) <= 32 * bitmap.Length
    }

    // pmm_init: builds the bitmap from the memory map, or is found not to end.
    method Init(boot: BootInfo, kernelEnd: nat) returns (done: bool)
      requires FitsMap(boot, kernelEnd)
      modifies this`usedBlocks, this`maxBlocks, this`pool, bitmap
      ensures Valid()
      ensures var r := InitPool(old(UsedBits(bitmap[..])), boot.Blocks(), boot.Entries(), kernelEnd);
        if done then r == Some(pool) else r == None
    {
      var memSize := (boot.memLower + boot.memUpper) % WRAP;
      maxBlocks := memSize * 1024 % WRAP / BLOCK_SIZE;
      usedBlocks := maxBlocks;
      pool := Pool(UsedBits(bitmap[..]), usedBlocks, maxBlocks);
      FillBytes(maxBlocks / 8);
      assert pool == StartPool(old(UsedBits(bitmap[..])), maxBlocks);
      done := ReadMap(boot.headers, boot.mapAddr, boot.mapLength);
      if done {
        SetRun(0, (kernelEnd + maxBlocks / 8) % WRAP / BLOCK_SIZE);
      }
    }
  }

  lemma FreeBit(words: seq<Bits32>, i: nat, j: nat)
    requires i < |words| && j < 32 && !words[i][j]
    ensures i * 32 + j !in UsedBits(words)
  {
  }

  lemma UsedBit(words: seq<Bits32>, i: nat, j: nat)
    requires i < |words| && j < 32 && words[i][j]
    ensures i * 32 + j in UsedBits(words)
  {
  }
}
