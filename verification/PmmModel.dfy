// The physical allocator as operations on a value: the set of used blocks, the running counter and
// the block limit. The class in Pmm.dfy, which works on the packed bitmap, is proved against these.
module PmmModel {

  const WRAP := 0x1_0000_0000 // uint32_t arithmetic is modulo this
  const BLOCK_SIZE := 4096
  const MAX_BLOCKS := 0x10_0000 // memory sizes are byte counts below 2^32

  datatype Option<+T> = None | Some(value: T)

  // `count` is the source's used_blocks, which can differ from the number of used blocks.
  datatype Pool = Pool(used: set<nat>, count: nat, max: nat)

  ghost predicate Sized(p: Pool) {
    p.max < MAX_BLOCKS && p.count < WRAP
  }

  // The searches look at whole 32-bit words only.
  function Scanned(max: nat): nat {
    max / 32 * 32
  }

  predicate Within(b: nat, first: nat, n: nat) {
    first <= b < first + n
  }

  // The blocks first .. first + n - 1.
  function Span(first: nat, n: nat): set<nat> {
    set b: nat | b < first + n && Within(b, first, n)
  }

  lemma {:induction false} SpanSize(first: nat, n: nat)
    ensures |Span(first, n)| == n
  {
    if n == 0 {
      assert Span(first, 0) == {};
    } else {
      SpanSize(first, n - 1);
      assert Span(first, n) == Span(first, n - 1) + {first + n - 1};
    }
  }

  ghost predicate ClearRun(used: set<nat>, first: nat, n: nat) {
    forall b: nat | first <= b < first + n :: b !in used
  }

  ghost predicate NoFit(used: set<nat>, limit: nat, n: nat) {
    forall s: nat | s + n <= limit :: !ClearRun(used, s, n)
  }

  ghost predicate IsFirstFit(used: set<nat>, limit: nat, n: nat, r: nat) {
    r + n <= limit && ClearRun(used, r, n) && forall s: nat | s < r :: !ClearRun(used, s, n)
  }

  // The least start of n clear blocks below the limit, searched from a given block on.
  ghost function FirstFit(used: set<nat>, limit: nat, n: nat, from: nat): Option<nat>
    decreases limit + 1 - from
  {
    if from + n > limit then None
    else if ClearRun(used, from, n) then Some(from)
    else FirstFit(used, limit, n, from + 1)
  }

  lemma {:induction false} FirstFitExact(used: set<nat>, limit: nat, n: nat, from: nat)
    ensures match FirstFit(used, limit, n, from)
      case Some(r) => from <= r && r + n <= limit && ClearRun(used, r, n)
        && forall s: nat | from <= s < r :: !ClearRun(used, s, n)
      case None => forall s: nat | from <= s && s + n <= limit :: !ClearRun(used, s, n)
    decreases limit + 1 - from
  {
    if from + n <= limit && !ClearRun(used, from, n) {
      FirstFitExact(used, limit, n, from + 1);
    }
  }

  // What the run search returns. Its variable `first` is 0 both for "no run yet" and for a run that
  // starts at block 0, so a run starting there is reported as 0 or 1.
  ghost function FindFrame(used: set<nat>, limit: nat, n: nat): (r: nat)
    ensures r != 0 ==> r + n <= limit + 1
  {
    FirstFitExact(used, limit, n, 0);
    if n == 0 then 0
    else match FirstFit(used, limit, n, 0)
      case None => 0
      case Some(s) => if s == 0 then (if n == 1 then 0 else 1) else s
  }

  ghost predicate LeftmostAndComplete(used: set<nat>, limit: nat, n: nat, r: nat) {
    if r == 0 then NoFit(used, limit, n) else IsFirstFit(used, limit, n, r)
  }

  // The search is leftmost and complete exactly when the first n blocks are not all free.
  lemma SearchExact(used: set<nat>, limit: nat, n: nat)
    requires n >= 1
    ensures LeftmostAndComplete(used, limit, n, FindFrame(used, limit, n))
      <==> !(n <= limit && ClearRun(used, 0, n))
  {
    var fit := FirstFit(used, limit, n, 0);
    FirstFitExact(used, limit, n, 0);
    if n <= limit && ClearRun(used, 0, n) {
      assert fit == Some(0);
    }
  }

  // With block 0 free the run it returns need not be free: here block 2 is used, and [1, 3) is returned.
  lemma SearchFailsWithBlockZeroFree()
    ensures FindFrame({2}, 32, 2) == 1
    ensures !ClearRun({2}, 1, 2)
    ensures !LeftmostAndComplete({2}, 32, 2, FindFrame({2}, 32, 2))
  {
  }

  // --- Allocation and release --------------------------------------------------------------------

  function Take(p: Pool, first: nat, n: nat): Pool {
    Pool(p.used + Span(first, n), (p.count + n) % WRAP, p.max)
  }

  function Give(p: Pool, first: nat, n: nat): Pool {
    Pool(p.used - Span(first, n), (p.count - n) % WRAP, p.max)
  }

  // Panic: the out-of-memory abort. Ret(0, _): the failure value.
  datatype Result = Panic | Ret(block: nat, pool: Pool)

  ghost function AllocPage(p: Pool): Result {
    if (p.max - p.count) % WRAP <= 0 then Panic
    else
      var b := FindFrame(p.used, Scanned(p.max), 1);
      Ret(b, if b == 0 then p else Take(p, b, 1))
  }

  ghost function AllocPages(p: Pool, n: nat): Result {
    if (p.max - p.count) % WRAP < n then Ret(0, p)
    else
      var b := FindFrame(p.used, Scanned(p.max), n);
      Ret(b, if b == 0 then p else Take(p, b, n))
  }

  ghost function AllocLarge(p: Pool): Result {
    if (p.max - p.count) % WRAP < 2 * 1024 then Ret(0, p)
    else
      var f := FindFrame(p.used, Scanned(p.max), 2 * 1024);
      if f == 0 then Ret(0, p)
      else
        var aligned := (f / 1024 + 1) * 1024;
        Ret(aligned, Take(p, aligned, 1024))
  }

  // A successful request, with block 0 reserved, gets the leftmost free run and nothing else.
  lemma AllocPagesFits(p: Pool, n: nat)
    requires Sized(p) && 0 in p.used
    ensures var r := AllocPages(p, n);
      && r.Ret?
      && (r.block != 0 ==>
        && n >= 1
        && IsFirstFit(p.used, Scanned(p.max), n, r.block)
        && Span(r.block, n) !! p.used
        && r.pool == Take(p, r.block, n))
      && (r.block == 0 ==> r.pool == p)
  {
    if n >= 1 {
      assert !ClearRun(p.used, 0, n);
      SearchExact(p.used, Scanned(p.max), n);
    }
  }

  lemma AllocPageFits(p: Pool)
    requires Sized(p) && 0 in p.used
    ensures var r := AllocPage(p);
      r.Ret? ==>
        && (r.block != 0 ==>
          && IsFirstFit(p.used, Scanned(p.max), 1, r.block)
          && r.block < p.max && r.block !in p.used
          && r.pool == Take(p, r.block, 1))
        && (r.block == 0 ==> r.pool == p && NoFit(p.used, Scanned(p.max), 1))
  {
    assert !ClearRun(p.used, 0, 1);
    SearchExact(p.used, Scanned(p.max), 1);
  }

  // The aligned large page is a multiple of 4 MB, inside the 2048-block run the search found.
  lemma AllocLargeFits(p: Pool)
    requires Sized(p) && 0 in p.used
    ensures var r := AllocLarge(p);
      && r.Ret?
      && (r.block != 0 ==>
        && r.block * BLOCK_SIZE % 0x40_0000 == 0
        && r.block + 1024 <= Scanned(p.max)
        && (exists f: nat :: IsFirstFit(p.used, Scanned(p.max), 2048, f) && f < r.block <= f + 1024)
        && Span(r.block, 1024) !! p.used
        && r.pool == Take(p, r.block, 1024))
      && (r.block == 0 ==> r.pool == p)
  {
    var f := FindFrame(p.used, Scanned(p.max), 2048);
    assert !ClearRun(p.used, 0, 2048);
    SearchExact(p.used, Scanned(p.max), 2048);
    if f != 0 {
      assert IsFirstFit(p.used, Scanned(p.max), 2048, f);
      var aligned := (f / 1024 + 1) * 1024;
      assert f < aligned <= f + 1024;
    }
  }

  // --- Accounting --------------------------------------------------------------------------------

  function Below(used: set<nat>, max: nat): set<nat> {
    set b | b in used && b < max
  }

  // How far the running counter is ahead of the number of used blocks.
  function Drift(p: Pool): nat {
    (p.count - |Below(p.used, p.max)|) % WRAP
  }

  lemma BelowCount(used: set<nat>, max: nat, free: set<nat>)
    requires free <= Span(0, max) && free !! used
    ensures |Below(used, max)| + |free| <= max
    ensures free + Below(used, max) == Span(0, max) ==> |Below(used, max)| + |free| == max
  {
    SpanSize(0, max);
    var both := free + Below(used, max);
    assert |both| == |free| + |Below(used, max)|;
    Subset(both, Span(0, max));
  }

  lemma {:induction false} Subset(a: set<nat>, b: set<nat>)
    requires a <= b
    ensures |a| <= |b|
  {
    if a != {} {
      var x :| x in a;
      Subset(a - {x}, b - {x});
    }
  }

  lemma TakeKeepsDrift(p: Pool, first: nat, n: nat)
    requires first + n <= p.max && Span(first, n) !! p.used
    ensures Drift(Take(p, first, n)) == Drift(p)
  {
    assert Below(p.used + Span(first, n), p.max) == Below(p.used, p.max) + Span(first, n);
    SpanSize(first, n);
    ModShift(p.count, n, |Below(p.used, p.max)|);
  }

  lemma GiveKeepsDrift(p: Pool, first: nat, n: nat)
    requires first + n <= p.max && Span(first, n) <= p.used
    ensures Drift(Give(p, first, n)) == Drift(p)
  {
    assert Below(p.used, p.max) == Below(p.used - Span(first, n), p.max) + Span(first, n);
    SpanSize(first, n);
    ModShift(Give(p, first, n).count, n, |Below(Give(p, first, n).used, p.max)|);
  }

  lemma ModShift(c: int, n: int, k: int)
    ensures ((c + n) % WRAP - (k + n)) % WRAP == (c - k) % WRAP
  {
  }

  lemma FreeFitsGuard(p: Pool, s: nat, n: nat)
    requires Sized(p) && Drift(p) == 0 && s + n <= p.max && ClearRun(p.used, s, n)
    ensures n <= (p.max - p.count) % WRAP
  {
    SpanSize(s, n);
    BelowCount(p.used, p.max, Span(s, n));
  }

  // With an exact counter the guards refuse nothing the bitmap could satisfy: a request for one or
  // more blocks fails exactly when no free run of that length exists.
  lemma AllocPagesComplete(p: Pool, n: nat)
    requires Sized(p) && 0 in p.used && Drift(p) == 0 && n >= 1
    ensures AllocPages(p, n).block == 0 <==> NoFit(p.used, p.max / 32 * 32, n)
  {
    AllocPagesFits(p, n);
    if s: nat :| s + n <= Scanned(p.max) && ClearRun(p.used, s, n) {
      FreeFitsGuard(p, s, n);
    }
    assert !ClearRun(p.used, 0, n);
    SearchExact(p.used, Scanned(p.max), n);
  }

  // So does the large page: it is refused exactly when no 2048 free blocks are in a row.
  lemma AllocLargeComplete(p: Pool)
    requires Sized(p) && 0 in p.used && Drift(p) == 0
    ensures AllocLarge(p).block == 0 <==> NoFit(p.used, p.max / 32 * 32, 2048)
  {
    AllocLargeFits(p);
    if s: nat :| s + 2048 <= Scanned(p.max) && ClearRun(p.used, s, 2048) {
      FreeFitsGuard(p, s, 2048);
    }
    assert !ClearRun(p.used, 0, 2048);
    SearchExact(p.used, Scanned(p.max), 2048);
  }

  // The single-page allocator aborts exactly when the counter says full; with an exact counter that is
  // exactly when every block is used. Short of that it fails exactly when no block of the whole words
  // below the limit is free.
  lemma AllocPagePanics(p: Pool)
    requires Sized(p) && 0 in p.used && Drift(p) == 0
    ensures AllocPage(p).Panic? <==> NoFit(p.used, p.max, 1)
    ensures AllocPage(p).Ret? ==> (AllocPage(p).block == 0 <==> NoFit(p.used, p.max / 32 * 32, 1))
  {
    AllocPageFits(p);
    if s: nat :| s + 1 <= p.max && ClearRun(p.used, s, 1) {
      FreeFitsGuard(p, s, 1);
    } else {
      forall b: nat | b < p.max ensures b in p.used {
        assert !ClearRun(p.used, b, 1);
      }
      SpanSize(0, p.max);
      assert Below(p.used, p.max) == Span(0, p.max);
    }
  }

  // --- Ownership over runs -----------------------------------------------------------------------

  datatype Run = Run(first: nat, len: nat)

  // Requests, and the release of the i-th live allocation.
  datatype Op = OnePage | LargePage | Pages(n: nat) | Release(i: nat)

  datatype Ledger = Ledger(pool: Pool, live: seq<Run>)

  function Grant(s: Ledger, r: Result, len: nat): Ledger {
    if r.Panic? || r.block == 0 then s else Ledger(r.pool, s.live + [Run(r.block, len)])
  }

  ghost function Step(s: Ledger, op: Op): Ledger {
    match op
    case OnePage => Grant(s, AllocPage(s.pool), 1)
    case LargePage => Grant(s, AllocLarge(s.pool), 1024)
    case Pages(n) => Grant(s, AllocPages(s.pool, n), n)
    case Release(i) =>
      if i < |s.live| then
        Ledger(Give(s.pool, s.live[i].first, s.live[i].len), Without(s.live, i))
      else s
  }

  ghost function Steps(s: Ledger, ops: seq<Op>): Ledger
    decreases |ops|
  {
    if ops == [] then s else Steps(Step(s, ops[0]), ops[1..])
  }

  function Total(live: seq<Run>): nat {
    if live == [] then 0 else live[0].len + Total(live[1..])
  }

  function Blocks(r: Run): set<nat> {
    Span(r.first, r.len)
  }

  // Live ranges are inside the limit, pairwise disjoint, and clear of the initially used blocks.
  ghost predicate Apart(base: set<nat>, max: nat, live: seq<Run>) {
    && (forall i :: 0 <= i < |live| ==>
         live[i].first > 0 && live[i].len > 0 && live[i].first + live[i].len <= max)
    && (forall i, j :: 0 <= i < j < |live| ==> Blocks(live[i]) !! Blocks(live[j]))
    && (forall i :: 0 <= i < |live| ==> Blocks(live[i]) !! base)
  }

  ghost predicate Held(live: seq<Run>, b: nat) {
    exists i :: 0 <= i < |live| && b in Blocks(live[i])
  }

  ghost predicate Covers(base: set<nat>, used: set<nat>, live: seq<Run>) {
    forall b: nat :: b in used <==> b in base || Held(live, b)
  }

  ghost predicate Owned(init: Pool, s: Ledger) {
    && Sized(s.pool) && s.pool.max == init.max && 0 in init.used
    && Apart(init.used, init.max, s.live)
    && Covers(init.used, s.pool.used, s.live)
    && s.pool.count == (init.count + Total(s.live)) % WRAP
  }

  lemma {:induction false} TotalAppend(a: seq<Run>, b: seq<Run>)
    ensures Total(a + b) == Total(a) + Total(b)
  {
    if a == [] {
      assert a + b == b;
    } else {
      TotalAppend(a[1..], b);
      assert (a + b)[1..] == a[1..] + b;
    }
  }

  lemma GrantCovers(base: set<nat>, used: set<nat>, live: seq<Run>, r: Run)
    requires Covers(base, used, live)
    ensures Covers(base, used + Blocks(r), live + [r])
  {
    var more := live + [r];
    forall b: nat ensures Held(more, b) <==> Held(live, b) || b in Blocks(r) {
      if Held(live, b) {
        var i :| 0 <= i < |live| && b in Blocks(live[i]);
        assert more[i] == live[i];
      }
      if b in Blocks(r) {
        assert more[|live|] == r;
      }
    }
  }

  lemma GrantApart(base: set<nat>, max: nat, used: set<nat>, live: seq<Run>, r: Run)
    requires Apart(base, max, live) && Covers(base, used, live)
    requires r.first > 0 && r.len > 0 && r.first + r.len <= max && Blocks(r) !! used
    ensures Apart(base, max, live + [r])
  {
  }

  lemma GrantKeepsOwned(init: Pool, s: Ledger, r: Result, len: nat)
    requires Owned(init, s) && r.Ret? && r.block != 0 && len > 0
    requires r.block + len <= init.max && Span(r.block, len) !! s.pool.used
    requires r.pool == Take(s.pool, r.block, len)
    ensures Owned(init, Grant(s, r, len))
  {
    var run := Run(r.block, len);
    GrantCovers(init.used, s.pool.used, s.live, run);
    GrantApart(init.used, init.max, s.pool.used, s.live, run);
    TotalAppend(s.live, [run]);
    GrantCount(init.count, Total(s.live), len);
  }

  lemma GrantCount(c: nat, total: nat, len: nat)
    ensures ((c + total) % WRAP + len) % WRAP == (c + (total + len)) % WRAP
  {
  }

  function Without(live: seq<Run>, i: nat): seq<Run>
    requires i < |live|
  {
    live[..i] + live[i + 1..]
  }

  lemma HeldWithout(base: set<nat>, max: nat, live: seq<Run>, i: nat, b: nat)
    requires i < |live| && Apart(base, max, live)
    ensures Held(Without(live, i), b) <==> Held(live, b) && b !in Blocks(live[i])
  {
    var less := Without(live, i);
    if Held(less, b) {
      var k :| 0 <= k < |less| && b in Blocks(less[k]);
      assert less[k] == live[if k < i then k else k + 1];
      assert Blocks(live[if k < i then k else i]) !! Blocks(live[if k < i then i else k + 1]);
    }
    if Held(live, b) && b !in Blocks(live[i]) {
      var k :| 0 <= k < |live| && b in Blocks(live[k]);
      assert less[if k < i then k else k - 1] == live[k];
    }
  }

  lemma ReleaseCovers(base: set<nat>, max: nat, used: set<nat>, live: seq<Run>, i: nat)
    requires i < |live| && Apart(base, max, live) && Covers(base, used, live)
    ensures Covers(base, used - Blocks(live[i]), Without(live, i))
  {
    forall b: nat
      ensures b in used - Blocks(live[i]) <==> b in base || Held(Without(live, i), b)
    {
      HeldWithout(base, max, live, i, b);
      assert Blocks(live[i]) !! base;
    }
  }

  lemma ReleaseApart(base: set<nat>, max: nat, live: seq<Run>, i: nat)
    requires i < |live| && Apart(base, max, live)
    ensures Apart(base, max, Without(live, i))
  {
  }

  lemma ReleaseTotal(live: seq<Run>, i: nat)
    requires i < |live|
    ensures Total(live) == Total(Without(live, i)) + live[i].len
  {
    TotalAppend(live[..i], live[i..]);
    assert live == live[..i] + live[i..];
    TotalAppend(live[..i], live[i + 1..]);
  }

  lemma ReleaseKeepsOwned(init: Pool, s: Ledger, i: nat)
    requires Owned(init, s) && i < |s.live|
    ensures Owned(init, Step(s, Release(i)))
  {
    ReleaseCovers(init.used, init.max, s.pool.used, s.live, i);
    ReleaseApart(init.used, init.max, s.live, i);
    ReleaseTotal(s.live, i);
    ReleaseCount(init.count, Total(Without(s.live, i)), s.live[i].len);
  }

  lemma ReleaseCount(c: nat, rest: nat, len: nat)
    ensures ((c + (rest + len)) % WRAP - len) % WRAP == (c + rest) % WRAP
  {
    ModShift(c + rest, len, len);
  }

  lemma StepKeepsOwned(init: Pool, s: Ledger, op: Op)
    requires Owned(init, s)
    ensures Owned(init, Step(s, op))
  {
    match op
    case OnePage =>
      AllocPageFits(s.pool);
      var r := AllocPage(s.pool);
      if r.Ret? && r.block != 0 {
        GrantKeepsOwned(init, s, r, 1);
      }
    case LargePage =>
      AllocLargeFits(s.pool);
      var r := AllocLarge(s.pool);
      if r.block != 0 {
        GrantKeepsOwned(init, s, r, 1024);
      }
    case Pages(n) =>
      AllocPagesFits(s.pool, n);
      var r := AllocPages(s.pool, n);
      if r.block != 0 {
        GrantKeepsOwned(init, s, r, n);
      }
    case Release(i) =>
      if i < |s.live| {
        ReleaseKeepsOwned(init, s, i);
      }
  }

  // Over every run of the three allocators and of releases of live allocations: the live ranges are
  // pairwise disjoint, the bitmap is the initial one plus the live ranges, and addresses give the
  // block back without wrapping.
  lemma {:induction false} RunsKeepOwned(init: Pool, s: Ledger, ops: seq<Op>)
    requires Owned(init, s)
    ensures Owned(init, Steps(s, ops))
    ensures forall r :: r in Steps(s, ops).live ==>
      r.first * BLOCK_SIZE % WRAP / BLOCK_SIZE == r.first
    decreases |ops|
  {
    if ops != [] {
      StepKeepsOwned(init, s, ops[0]);
      RunsKeepOwned(init, Step(s, ops[0]), ops[1..]);
    }
  }

  // The address handed out for a live range does not wrap, so dividing it gives the range back when it
  // is freed.
  lemma AddressRecovers(init: Pool, s: Ledger, i: nat)
    requires Sized(init) && Owned(init, s) && i < |s.live|
    ensures var addr := s.live[i].first * BLOCK_SIZE % WRAP;
      addr != 0 && addr % BLOCK_SIZE == 0 && addr / BLOCK_SIZE == s.live[i].first
  {
  }

  // Once everything allocated has been freed, in whatever order, the bitmap and the counter are back.
  lemma FreeingAllRestores(init: Pool, ops: seq<Op>)
    requires Sized(init) && 0 in init.used
    ensures var end := Steps(Ledger(init, []), ops);
      end.live == [] ==> end.pool == init
  {
    NothingLive(init, Ledger(init, []));
    RunsKeepOwned(init, Ledger(init, []), ops);
    var end := Steps(Ledger(init, []), ops);
    if end.live == [] {
      NothingLive(init, end);
    }
  }

  // With nothing allocated, owning nothing is being the initial pool.
  lemma NothingLive(init: Pool, s: Ledger)
    requires s.live == [] && Sized(init) && 0 in init.used
    ensures Owned(init, s) <==> s.pool == init
  {
  }
}
