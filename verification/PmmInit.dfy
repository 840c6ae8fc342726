// pmm_init as an operation on a value: what the boot loader's memory map and the kernel's end make of
// the pool, and which of the memory the bitmap itself lies in comes out protected.
module PmmInit {
  import opened PmmModel

  // A Multiboot memory-map entry (Multiboot Specification, section 3.3): 64-bit address and length.
  datatype MapEntry = MapEntry(addr: nat, len: nat, kind: nat)

  // As it lies in memory: the size field in front of the entry counts the bytes to the next size field,
  // less its own four.
  datatype Header = Header(size: nat, entry: MapEntry)

  function Stride(h: Header): nat {
    h.size + 4
  }

  // The entries that the loop comes to from address `at` on, below `end`.
  function Walk(headers: nat -> Header, at: nat, end: nat): seq<MapEntry>
    decreases end - at
  {
    if at >= end then []
    else [headers(at).entry] + Walk(headers, at + Stride(headers(at)), end)
  }

  // One header after another, whatever their sizes.
  ghost predicate LaidOut(headers: nat -> Header, at: nat, hs: seq<Header>)
    decreases |hs|
  {
    hs != [] ==> headers(at) == hs[0] && LaidOut(headers, at + hs[0].size + 4, hs[1..])
  }

  function Length(hs: seq<Header>): nat {
    if hs == [] then 0 else hs[0].size + 4 + Length(hs[1..])
  }

  // A map laid out like that is read entry by entry, in order and with nothing left out.
  lemma {:induction false} WalkReads(headers: nat -> Header, at: nat, hs: seq<Header>)
    requires LaidOut(headers, at, hs)
    ensures var entries := Walk(headers, at, at + Length(hs));
      |entries| == |hs| && forall i | 0 <= i < |hs| :: entries[i] == hs[i].entry
    decreases |hs|
  {
    if hs != [] {
      WalkReads(headers, at + Stride(hs[0]), hs[1..]);
    }
  }

  // What the boot loader hands over: kilobytes below and above 1 MB, and `mapLength` bytes of headers from
  // `mapAddr` on.
  datatype BootInfo =
    BootInfo(memLower: nat, memUpper: nat, headers: nat -> Header, mapAddr: nat, mapLength: nat)
  {
    // max_blocks
    function Blocks(): nat {
      (memLower + memUpper) % WRAP * 1024 % WRAP / BLOCK_SIZE
    }

    function Entries(): seq<MapEntry> {
      Walk(headers, mapAddr, mapAddr + mapLength)
    }
  }

  // A block is below the limit exactly when it lies in the memory of the size reported, taken modulo 4 GB.
  lemma BlocksExact(boot: BootInfo, b: nat)
    ensures b < boot.Blocks() <==> (b + 1) * 4096 <= (boot.memLower + boot.memUpper) * 1024 % WRAP
    ensures (boot.memLower + boot.memUpper) * 1024 < WRAP ==>
      (b < boot.Blocks() <==> (b + 1) * 4096 <= (boot.memLower + boot.memUpper) * 1024)
  {
    KilobytesWrap(boot.memLower + boot.memUpper);
  }

  lemma KilobytesWrap(kb: nat)
    ensures kb % WRAP * 1024 % WRAP == kb * 1024 % WRAP
  {
  }

  function FirstBlock(e: MapEntry): nat {
    e.addr % WRAP / BLOCK_SIZE
  }

  function BlockCount(e: MapEntry): nat {
    e.len % WRAP / BLOCK_SIZE
  }

  // The bits of every available region are in the memory behind the bitmap.
  ghost predicate RegionsFit(entries: seq<MapEntry>, bits: nat) {
    forall i :: 0 <= i < |entries| && entries[i].kind == 1 ==> FirstBlock(entries[i]) + BlockCount(entries[i]) <= bits
  }

  function AfterEntry(p: Pool, e: MapEntry): Pool {
    if e.kind == 1 then Give(p, FirstBlock(e), BlockCount(e)) else p
  }

  // None: the loop never moves past an entry of length zero.
  function FreeRegions(p: Pool, entries: seq<MapEntry>): Option<Pool>
    decreases |entries|
  {
    if entries == [] then Some(p)
    else if entries[0].len == 0 then None
    else FreeRegions(AfterEntry(p, entries[0]), entries[1..])
  }

  lemma WalkFirst(headers: nat -> Header, at: nat, end: nat, p: Pool, bits: nat)
    requires at < end && RegionsFit(Walk(headers, at, end), bits)
    ensures var h := headers(at);
      && (h.entry.kind == 1 ==> FirstBlock(h.entry) + BlockCount(h.entry) <= bits)
      && RegionsFit(Walk(headers, at + Stride(h), end), bits)
      && FreeRegions(p, Walk(headers, at, end))
        == if h.entry.len == 0 then None else FreeRegions(AfterEntry(p, h.entry), Walk(headers, at + Stride(h), end))
  {
    assert Walk(headers, at, end)[0] == headers(at).entry;
    assert Walk(headers, at, end)[1..] == Walk(headers, at + Stride(headers(at)), end);
  }

  // Only whole bytes of the bitmap are overwritten.
  function Filled(max: nat): nat {
    max / 8 * 8
  }

  // `prior` is what the bitmap's memory held before.
  function StartPool(prior: set<nat>, max: nat): Pool {
    Pool(prior + Span(0, Filled(max)), max, max)
  }

  function Retained(kernelEnd: nat, max: nat): nat {
    (kernelEnd + max / 8) % WRAP / BLOCK_SIZE
  }

  function InitPool(prior: set<nat>, max: nat, entries: seq<MapEntry>, kernelEnd: nat): Option<Pool> {
    match FreeRegions(StartPool(prior, max), entries)
    case None => None
    case Some(p) => Some(Take(p, 0, Retained(kernelEnd, max)))
  }

  // --- Which blocks are free afterwards ----------------------------------------------------------------

  // The block range of an available region.
  ghost predicate Listed(entries: seq<MapEntry>, b: nat) {
    exists i :: 0 <= i < |entries| && entries[i].kind == 1
      && entries[i].addr / BLOCK_SIZE <= b < entries[i].addr / BLOCK_SIZE + entries[i].len / BLOCK_SIZE
  }

  ghost predicate Below4GB(entries: seq<MapEntry>) {
    forall i :: 0 <= i < |entries| && entries[i].kind == 1 ==> entries[i].addr + entries[i].len < WRAP
  }

  function Region(e: MapEntry): set<nat> {
    if e.kind == 1 then Span(FirstBlock(e), BlockCount(e)) else {}
  }

  function ListedBlocks(entries: seq<MapEntry>): set<nat> {
    if entries == [] then {} else Region(entries[0]) + ListedBlocks(entries[1..])
  }

  lemma ListedHead(entries: seq<MapEntry>, b: nat)
    requires entries != [] && Below4GB(entries)
    ensures Listed(entries, b) <==> b in Region(entries[0]) || Listed(entries[1..], b)
  {
  }

  lemma {:induction false} ListedBlocksExact(entries: seq<MapEntry>, b: nat)
    requires Below4GB(entries)
    ensures b in ListedBlocks(entries) <==> Listed(entries, b)
    decreases |entries|
  {
    if entries != [] {
      ListedHead(entries, b);
      ListedBlocksExact(entries[1..], b);
    }
  }

  lemma {:induction false} RegionsFreed(p: Pool, entries: seq<MapEntry>)
    ensures FreeRegions(p, entries).None? <==> exists i :: 0 <= i < |entries| && entries[i].len == 0
    ensures FreeRegions(p, entries).Some? ==>
      FreeRegions(p, entries).value.max == p.max
      && FreeRegions(p, entries).value.used == p.used - ListedBlocks(entries)
    decreases |entries|
  {
    if entries != [] && entries[0].len != 0 {
      RegionsFreed(AfterEntry(p, entries[0]), entries[1..]);
      assert forall i :: 0 < i < |entries| ==> entries[i] == entries[1..][i - 1];
    }
  }

  // For maps below 4 GB the loop ends exactly when no entry has length zero, and then a block is used
  // exactly when it is retained, or was used before the map was read and no available region lists it.
  // Before that, every block whose bit is in a whole byte below the limit is used, and the up to seven
  // bits after the last whole byte, like all later ones, are whatever the memory held.
  lemma InitExact(prior: set<nat>, max: nat, entries: seq<MapEntry>, kernelEnd: nat)
    requires Below4GB(entries)
    ensures var r := InitPool(prior, max, entries, kernelEnd);
      && (r.None? <==> exists i :: 0 <= i < |entries| && entries[i].len == 0)
      && (r.Some? ==> r.value.max == max)
      && (r.Some? ==> forall b: nat ::
           b in r.value.used <==>
             || b < (kernelEnd + max / 8) % WRAP / 4096
             || ((b < max / 8 * 8 || b in prior) && !Listed(entries, b)))
  {
    var p, r := StartPool(prior, max), Retained(kernelEnd, max);
    RegionsFreed(p, entries);
    if FreeRegions(p, entries).Some? {
      var q := FreeRegions(p, entries).value;
      forall b: nat
        ensures b in Take(q, 0, r).used <==> b < r || ((b < Filled(max) || b in prior) && !Listed(entries, b))
      {
        ListedBlocksExact(entries, b);
        assert b in Span(0, r) <==> b < r;
        assert b in Span(0, Filled(max)) <==> b < Filled(max);
      }
    }
  }

  // --- The memory the bitmap lies in ---------------------------------------------------------------------

  // The bitmap starts right after the kernel; this is where it ends.
  function BitmapEnd(kernelEnd: nat, max: nat): nat {
    kernelEnd + max / 8
  }

  // The frames from the kernel's end to the bitmap's.
  function BitmapFrames(kernelEnd: nat, max: nat): set<nat> {
    Span(kernelEnd / BLOCK_SIZE, (BitmapEnd(kernelEnd, max) + BLOCK_SIZE - 1) / BLOCK_SIZE - kernelEnd / BLOCK_SIZE)
  }

  // The block the bitmap ends in, when it does not end with it.
  function LastBlock(kernelEnd: nat, max: nat): nat {
    BitmapEnd(kernelEnd, max) / BLOCK_SIZE
  }

  // The bitmap ends with a block, or the map does not make the block it ends in available.
  ghost predicate EndsWell(prior: set<nat>, max: nat, entries: seq<MapEntry>, kernelEnd: nat) {
    var last := LastBlock(kernelEnd, max);
    || BitmapEnd(kernelEnd, max) % BLOCK_SIZE == 0
    || ((last < Filled(max) || last in prior) && !Listed(entries, last))
  }

  // The retained range is rounded down, so the memory it is meant to protect, low memory, the kernel
  // and the bitmap itself, is all used exactly when the bitmap ends well; and so are the frames the
  // bitmap lies in.
  lemma BitmapProtectedExactly(prior: set<nat>, max: nat, entries: seq<MapEntry>, kernelEnd: nat)
    requires Below4GB(entries) && BitmapEnd(kernelEnd, max) < WRAP
    requires InitPool(prior, max, entries, kernelEnd).Some?
    ensures var q := InitPool(prior, max, entries, kernelEnd).value;
      && ((forall b: nat | b * BLOCK_SIZE < BitmapEnd(kernelEnd, max) :: b in q.used)
          <==> EndsWell(prior, max, entries, kernelEnd))
      && (BitmapFrames(kernelEnd, max) <= q.used <==> EndsWell(prior, max, entries, kernelEnd))
  {
    InitExact(prior, max, entries, kernelEnd);
    var end, q := BitmapEnd(kernelEnd, max), InitPool(prior, max, entries, kernelEnd).value;
    var last := LastBlock(kernelEnd, max);
    assert last in q.used <==> (last < Filled(max) || last in prior) && !Listed(entries, last);
    if end % BLOCK_SIZE != 0 {
      assert last * BLOCK_SIZE < end && last in BitmapFrames(kernelEnd, max);
    }
    forall b: nat | b * BLOCK_SIZE < end || b in BitmapFrames(kernelEnd, max)
      ensures b in q.used || (b == last && end % BLOCK_SIZE != 0)
    {
    }
  }

  // What paging_init needs of the pool: block 0 and every frame of the kernel are used whatever the map
  // says, the bitmap's frames exactly when the bitmap ends well.
  lemma PoolForPaging(prior: set<nat>, max: nat, entries: seq<MapEntry>, kernelEnd: nat, dir: nat)
    requires Below4GB(entries) && BitmapEnd(kernelEnd, max) < WRAP && max < MAX_BLOCKS
    requires BLOCK_SIZE * (dir + 1) <= kernelEnd // the kernel's directory is part of its image
    requires InitPool(prior, max, entries, kernelEnd).Some?
    ensures var q := InitPool(prior, max, entries, kernelEnd).value;
      && Sized(q) && 0 in q.used && dir in q.used && dir !in BitmapFrames(kernelEnd, max)
      && (BitmapFrames(kernelEnd, max) <= q.used <==> EndsWell(prior, max, entries, kernelEnd))
  {
    InitExact(prior, max, entries, kernelEnd);
    BitmapProtectedExactly(prior, max, entries, kernelEnd);
  }

  lemma LastBlockIsBitmap(kernelEnd: nat, max: nat)
    requires BitmapEnd(kernelEnd, max) % BLOCK_SIZE != 0
    ensures LastBlock(kernelEnd, max) in BitmapFrames(kernelEnd, max)
  {
  }

  // When it does not end well, the very first page allocated is the bitmap's own last block.
  lemma BitmapGivenAwayFirst(prior: set<nat>, max: nat, entries: seq<MapEntry>, kernelEnd: nat)
    requires Below4GB(entries) && BitmapEnd(kernelEnd, max) < WRAP
    requires BLOCK_SIZE <= kernelEnd && LastBlock(kernelEnd, max) < Scanned(max)
    requires InitPool(prior, max, entries, kernelEnd).Some? && !EndsWell(prior, max, entries, kernelEnd)
    ensures var a := AllocPage(InitPool(prior, max, entries, kernelEnd).value);
      a.Ret? ==> a.block == LastBlock(kernelEnd, max)
  {
    InitExact(prior, max, entries, kernelEnd);
    var q, last := InitPool(prior, max, entries, kernelEnd).value, LastBlock(kernelEnd, max);
    FirstFitExact(q.used, Scanned(max), 1, 0);
    assert ClearRun(q.used, last, 1);
    forall s: nat | s < last ensures !ClearRun(q.used, s, 1) {
      assert s in q.used;
    }
  }

  // uint32_t arithmetic.
  function Word32(n: int): nat {
    n % WRAP
  }

  // --- The counter ---------------------------------------------------------------------------------------

  // Available regions whose block ranges do not overlap.
  ghost predicate Tidy(entries: seq<MapEntry>) {
    forall i, j :: 0 <= i < j < |entries| ==> Region(entries[i]) !! Region(entries[j])
  }

  lemma {:induction false} HeadApart(entries: seq<MapEntry>, e: MapEntry)
    requires forall i :: 0 <= i < |entries| ==> Region(e) !! Region(entries[i])
    ensures Region(e) !! ListedBlocks(entries)
    decreases |entries|
  {
    if entries != [] {
      assert Region(e) !! Region(entries[0]);
      HeadApart(entries[1..], e);
    }
  }

  lemma RegionSize(e: MapEntry)
    ensures |Region(e)| == if e.kind == 1 then BlockCount(e) else 0
  {
    SpanSize(FirstBlock(e), BlockCount(e));
  }

  // q's counter is n less than p's.
  ghost predicate Less(p: Pool, q: Pool, n: nat) {
    q.count == Word32(p.count - n)
  }

  lemma LessTwice(p: Pool, q: Pool, r: Pool, a: nat, b: nat)
    requires Less(p, q, a) && Less(q, r, b)
    ensures Less(p, r, a + b)
  {
    var k := (p.count - a) / WRAP;
    assert q.count == p.count - a - k * WRAP;
    WordShift(p.count - (a + b), k);
  }

  lemma WordShift(n: int, k: int)
    ensures Word32(n - k * WRAP) == Word32(n)
  {
  }

  lemma ListedSize(entries: seq<MapEntry>)
    requires Tidy(entries) && entries != []
    ensures Tidy(entries[1..])
    ensures |ListedBlocks(entries)| == |Region(entries[0])| + |ListedBlocks(entries[1..])|
  {
    var e, rest := entries[0], entries[1..];
    assert forall i :: 0 <= i < |rest| ==> rest[i] == entries[i + 1];
    HeadApart(rest, e);
  }

  lemma RegionFreed(p: Pool, e: MapEntry)
    requires p.count < WRAP
    ensures Less(p, AfterEntry(p, e), |Region(e)|) && AfterEntry(p, e).count < WRAP
  {
    RegionSize(e);
  }

  // Each listed block is counted as freed once, whether it was used, or below the limit, or not.
  lemma {:induction false} RegionsCounted(p: Pool, entries: seq<MapEntry>)
    requires Tidy(entries) && FreeRegions(p, entries).Some? && p.count < WRAP
    ensures Less(p, FreeRegions(p, entries).value, |ListedBlocks(entries)|)
    decreases |entries|
  {
    if entries != [] {
      var e, rest, q := entries[0], entries[1..], AfterEntry(p, entries[0]);
      ListedSize(entries);
      RegionFreed(p, e);
      RegionsCounted(q, rest);
      LessTwice(p, q, FreeRegions(q, rest).value, |Region(e)|, |ListedBlocks(rest)|);
      assert FreeRegions(p, entries) == FreeRegions(q, rest);
    }
  }

  // Retained blocks no available region listed: counted as used twice.
  function Twice(max: nat, entries: seq<MapEntry>, kernelEnd: nat): set<nat> {
    Span(0, Retained(kernelEnd, max)) - ListedBlocks(entries)
  }

  // Listed blocks at or above the limit: counted as freed although they were never counted as used.
  function Beyond(max: nat, entries: seq<MapEntry>, kernelEnd: nat): set<nat> {
    ListedBlocks(entries) - Span(0, max) - Span(0, Retained(kernelEnd, max))
  }

  // Blocks below the limit that nothing marked or listed, and whose bits happened to be clear: counted
  // as used although they are free. There are at most seven.
  function Unmarked(prior: set<nat>, max: nat, entries: seq<MapEntry>, kernelEnd: nat): set<nat> {
    Span(Filled(max), max - Filled(max)) - prior - ListedBlocks(entries) - Span(0, Retained(kernelEnd, max))
  }

  lemma FreeSplit(l: set<nat>, s: set<nat>, r: set<nat>, u: set<nat>, free: set<nat>, n: nat)
    requires free == (l * s - r) + u && u !! l && |r| == n
    ensures |free| == |l| - |l - s - r| + |u| - n + |r - l|
  {
    assert |free| == |l * s - r| + |u| by {
      assert (l * s - r) !! u;
    }
    assert l == (l * s - r) + (l - s - r) + (l * r);
    assert |l| == |l * s - r| + |l - s - r| + |l * r|;
    assert r == (r - l) + (l * r);
    assert |r| == |r - l| + |l * r|;
  }

  lemma FreeAfterInit(prior: set<nat>, max: nat, entries: seq<MapEntry>, kernelEnd: nat)
    requires InitPool(prior, max, entries, kernelEnd).Some?
    ensures var l, r := ListedBlocks(entries), Span(0, Retained(kernelEnd, max));
      Span(0, max) - InitPool(prior, max, entries, kernelEnd).value.used
        == (l * Span(0, max) - r) + Unmarked(prior, max, entries, kernelEnd)
  {
    RegionsFreed(StartPool(prior, max), entries);
  }

  lemma UsedBelow(used: set<nat>, max: nat)
    ensures |Below(used, max)| == max - |Span(0, max) - used|
  {
    SpanSize(0, max);
    assert Span(0, max) == Below(used, max) + (Span(0, max) - used);
  }

  lemma InitCount(prior: set<nat>, max: nat, entries: seq<MapEntry>, kernelEnd: nat)
    requires max < WRAP && Tidy(entries) && InitPool(prior, max, entries, kernelEnd).Some?
    ensures InitPool(prior, max, entries, kernelEnd).value.count
      == Word32(Word32(max - |ListedBlocks(entries)|) + Retained(kernelEnd, max))
    ensures InitPool(prior, max, entries, kernelEnd).value.max == max
  {
    RegionsFreed(StartPool(prior, max), entries);
    RegionsCounted(StartPool(prior, max), entries);
  }

  // How far the counter is ahead: by the retained blocks no region listed and the unmarked ones, less
  // the listed blocks beyond the limit.
  function Ahead(prior: set<nat>, max: nat, entries: seq<MapEntry>, kernelEnd: nat): int {
    |Twice(max, entries, kernelEnd)| + |Unmarked(prior, max, entries, kernelEnd)| - |Beyond(max, entries, kernelEnd)|
  }

  lemma InitBelow(prior: set<nat>, max: nat, entries: seq<MapEntry>, kernelEnd: nat)
    requires InitPool(prior, max, entries, kernelEnd).Some?
    ensures |Below(InitPool(prior, max, entries, kernelEnd).value.used, max)|
      == max - (|ListedBlocks(entries)| - Retained(kernelEnd, max) + Ahead(prior, max, entries, kernelEnd))
  {
    var n, q := Retained(kernelEnd, max), InitPool(prior, max, entries, kernelEnd).value;
    FreeAfterInit(prior, max, entries, kernelEnd);
    SpanSize(0, n);
    FreeSplit(ListedBlocks(entries), Span(0, max), Span(0, n), Unmarked(prior, max, entries, kernelEnd),
      Span(0, max) - q.used, n);
    UsedBelow(q.used, max);
  }

  // l blocks freed from a counter at the limit, n taken, and that much more used than free ones account for.
  ghost predicate Counted(q: Pool, max: nat, l: nat, n: nat, ahead: int) {
    && q.max == max && q.count == Word32(Word32(max - l) + n)
    && |Below(q.used, max)| == max - (l - n + ahead)
  }

  lemma InitCounted(prior: set<nat>, max: nat, entries: seq<MapEntry>, kernelEnd: nat)
    requires max < WRAP && Tidy(entries) && InitPool(prior, max, entries, kernelEnd).Some?
    ensures Counted(InitPool(prior, max, entries, kernelEnd).value, max, |ListedBlocks(entries)|,
      Retained(kernelEnd, max), Ahead(prior, max, entries, kernelEnd))
  {
    InitCount(prior, max, entries, kernelEnd);
    InitBelow(prior, max, entries, kernelEnd);
  }

  lemma DriftIs(q: Pool, max: nat, l: nat, n: nat, ahead: int)
    requires Counted(q, max, l, n, ahead)
    ensures Drift(q) == Word32(ahead)
  {
    CountArithmetic(max, l, n, ahead, q.count, |Below(q.used, max)|);
  }

  // The counter after boot, against the used blocks below the limit.
  lemma InitDrift(prior: set<nat>, max: nat, entries: seq<MapEntry>, kernelEnd: nat)
    requires max < WRAP && Tidy(entries) && InitPool(prior, max, entries, kernelEnd).Some?
    ensures Drift(InitPool(prior, max, entries, kernelEnd).value) == Word32(Ahead(prior, max, entries, kernelEnd))
  {
    InitCounted(prior, max, entries, kernelEnd);
    DriftIs(InitPool(prior, max, entries, kernelEnd).value, max, |ListedBlocks(entries)|, Retained(kernelEnd, max),
      Ahead(prior, max, entries, kernelEnd));
  }

  lemma CountArithmetic(max: nat, l: nat, n: nat, ahead: int, count: nat, below: nat)
    requires count == Word32(Word32(max - l) + n) && below == max - (l - n + ahead)
    ensures Word32(count - below) == Word32(ahead)
  {
  }

  lemma {:induction false} ListedBelow(entries: seq<MapEntry>)
    requires Below4GB(entries)
    ensures ListedBlocks(entries) <= Span(0, MAX_BLOCKS)
    decreases |entries|
  {
    if entries != [] {
      ListedBelow(entries[1..]);
    }
  }

  lemma AheadBounded(prior: set<nat>, max: nat, entries: seq<MapEntry>, kernelEnd: nat)
    requires max < MAX_BLOCKS && Below4GB(entries)
    ensures -MAX_BLOCKS <= Ahead(prior, max, entries, kernelEnd) <= 2 * MAX_BLOCKS
  {
    var n := Retained(kernelEnd, max);
    SpanSize(0, n);
    SpanSize(0, MAX_BLOCKS);
    SpanSize(Filled(max), max - Filled(max));
    ListedBelow(entries);
    Subset(Twice(max, entries, kernelEnd), Span(0, n));
    Subset(Beyond(max, entries, kernelEnd), Span(0, MAX_BLOCKS));
    Subset(Unmarked(prior, max, entries, kernelEnd), Span(Filled(max), max - Filled(max)));
  }

  lemma SmallWord(n: int)
    requires -WRAP < n < WRAP
    ensures Word32(n) == 0 <==> n == 0
    ensures n >= 0 ==> Word32(n) == n
  {
  }

  // So the allocators' guards start out exact if and only if the errors cancel.
  lemma CounterExactAfterInit(prior: set<nat>, max: nat, entries: seq<MapEntry>, kernelEnd: nat)
    requires max < MAX_BLOCKS && Below4GB(entries) && Tidy(entries)
    requires InitPool(prior, max, entries, kernelEnd).Some?
    ensures Drift(InitPool(prior, max, entries, kernelEnd).value) == 0 <==> Ahead(prior, max, entries, kernelEnd) == 0
  {
    InitDrift(prior, max, entries, kernelEnd);
    AheadBounded(prior, max, entries, kernelEnd);
    SmallWord(Ahead(prior, max, entries, kernelEnd));
  }

  lemma PcTwice(l: set<nat>, low: nat, high: nat, n: nat)
    requires l == Span(0, low) + Span(256, high) && low <= 256 <= n <= 256 + high
    ensures |Span(0, n) - l| == 256 - low
  {
    assert Span(0, n) - l == Span(low, 256 - low);
    SpanSize(low, 256 - low);
  }

  lemma PcBeyond(l: set<nat>, low: nat, high: nat, n: nat, max: nat)
    requires l == Span(0, low) + Span(256, high) && low <= 256 <= n <= max <= 256 + high
    ensures |l - Span(0, max) - Span(0, n)| == 256 + high - max
  {
    assert l - Span(0, max) - Span(0, n) == Span(max, 256 + high - max);
    SpanSize(max, 256 + high - max);
  }

  // The usual PC: available below `memLower` KB and for `memUpper` KB from 1 MB on, the kernel and the
  // bitmap in the upper part.
  ghost predicate UsualPc(boot: BootInfo, kernelEnd: nat) {
    && boot.memLower <= 640 && 0x10_0000 + boot.memUpper * 1024 < WRAP
    && Below4GB(boot.Entries()) && Tidy(boot.Entries())
    && ListedBlocks(boot.Entries()) == Span(0, boot.memLower / 4) + Span(256, boot.memUpper / 4)
    && 256 <= Retained(kernelEnd, boot.Blocks()) <= boot.Blocks()
  }

  lemma PcBlocks(boot: BootInfo, kernelEnd: nat)
    requires UsualPc(boot, kernelEnd)
    ensures boot.Blocks() == (boot.memLower + boot.memUpper) / 4
    ensures boot.Blocks() < MAX_BLOCKS
  {
    KilobytesWrap(boot.memLower + boot.memUpper);
  }

  // The hole below 1 MB and the blocks beyond the limit cancel, so the counter of the pool that pmm_init
  // makes is exact, unless rounding the two parts to blocks separately loses one block.
  lemma PcCounter(prior: set<nat>, boot: BootInfo, kernelEnd: nat)
    requires UsualPc(boot, kernelEnd) && InitPool(prior, boot.Blocks(), boot.Entries(), kernelEnd).Some?
    ensures Drift(InitPool(prior, boot.Blocks(), boot.Entries(), kernelEnd).value)
      == if boot.memLower % 4 + boot.memUpper % 4 < 4 then 0 else 1
  {
    PcBlocks(boot, kernelEnd);
    PcAhead(prior, boot.Blocks(), boot.Entries(), kernelEnd, boot.memLower / 4, boot.memUpper / 4);
    InitDrift(prior, boot.Blocks(), boot.Entries(), kernelEnd);
    SmallWord(boot.Blocks() - boot.memLower / 4 - boot.memUpper / 4);
  }

  lemma PcAhead(prior: set<nat>, max: nat, entries: seq<MapEntry>, kernelEnd: nat, low: nat, high: nat)
    requires ListedBlocks(entries) == Span(0, low) + Span(256, high)
    requires low <= 256 <= Retained(kernelEnd, max) <= max <= 256 + high
    ensures Ahead(prior, max, entries, kernelEnd) == max - low - high
  {
    PcTwice(ListedBlocks(entries), low, high, Retained(kernelEnd, max));
    PcBeyond(ListedBlocks(entries), low, high, Retained(kernelEnd, max), max);
    assert Unmarked(prior, max, entries, kernelEnd) == {};
  }

  // On such a machine the contiguous allocator fails only when it has to.
  lemma PcRequestsComplete(prior: set<nat>, boot: BootInfo, kernelEnd: nat, n: nat)
    requires UsualPc(boot, kernelEnd) && InitPool(prior, boot.Blocks(), boot.Entries(), kernelEnd).Some?
    requires boot.memLower % 4 + boot.memUpper % 4 < 4 && n >= 1
    ensures var q := InitPool(prior, boot.Blocks(), boot.Entries(), kernelEnd).value;
      AllocPages(q, n).block == 0 <==> NoFit(q.used, q.max / 32 * 32, n)
  {
    PcBlocks(boot, kernelEnd);
    PcCounter(prior, boot, kernelEnd);
    InitExact(prior, boot.Blocks(), boot.Entries(), kernelEnd);
    AllocPagesComplete(InitPool(prior, boot.Blocks(), boot.Entries(), kernelEnd).value, n);
  }

  // A PC with 640 KB and 126.5 MB: the map leaves the bitmap's last block free, and it is the first
  // page handed out.
  function OrdinaryMap(): seq<MapEntry> {
    [MapEntry(0, 0x9_FC00, 1), MapEntry(0x9_FC00, 0x400, 2), MapEntry(0x10_0000, 129536 * 1024, 1)]
  }

  lemma OrdinaryMapLosesBitmap()
    ensures InitPool({}, 32544, OrdinaryMap(), 0x11_2345).Some?
    ensures !EndsWell({}, 32544, OrdinaryMap(), 0x11_2345)
    ensures var a := AllocPage(InitPool({}, 32544, OrdinaryMap(), 0x11_2345).value);
      a.Ret? && a.block in BitmapFrames(0x11_2345, 32544)
  {
    var m := OrdinaryMap();
    assert m[2].kind == 1 && m[2].addr / BLOCK_SIZE <= 275 < m[2].addr / BLOCK_SIZE + m[2].len / BLOCK_SIZE;
    assert Listed(m, 275) && LastBlock(0x11_2345, 32544) == 275;
    InitExact({}, 32544, m, 0x11_2345);
    OrdinaryCount();
    BitmapGivenAwayFirst({}, 32544, m, 0x11_2345);
    LastBlockIsBitmap(0x11_2345, 32544);
  }

  lemma OrdinaryCount()
    ensures var q := InitPool({}, 32544, OrdinaryMap(), 0x11_2345);
      q.Some? && q.value.count == 276 && q.value.max == 32544
  {
    var m, p := OrdinaryMap(), StartPool({}, 32544);
    var p1 := AfterEntry(p, m[0]);
    assert FreeRegions(p, m) == FreeRegions(p1, m[1..]);
    assert m[1..] == [m[1], m[2]] && FreeRegions(p1, m[1..]) == FreeRegions(p1, m[1..][1..]);
    assert m[1..][1..] == [m[2]];
    assert FreeRegions(p1, [m[2]]) == FreeRegions(AfterEntry(p1, m[2]), []);
  }
}
