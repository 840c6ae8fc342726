// The kernel's bump allocator (kernel/src/mem/kheap.c).
module Kheap {
  import opened Arithmetic
  import opened PmmModel

  const HEAP_BASE := 0xD000_0000
  const HEAP_END := 0xD040_0000

  datatype Grant = Grant(addr: Option<nat>, top: nat)

  // Sizes for which the pointer arithmetic wraps 32 bits are outside the model.
  function Bump(top: nat, size: nat): Grant {
    if top + size >= HEAP_END then Grant(None, top) else Grant(Some(top), top + size)
  }

  function BumpAligned(top: nat, size: nat, align: nat): Grant
    requires align > 0
  {
    var next := (top / align + 1) * align;
    if next + size >= HEAP_END then Grant(None, top) else Grant(Some(next), next + size)
  }

  datatype Request = Plain(size: nat) | Aligned(size: nat, align: nat)

  datatype Area = Area(addr: nat, size: nat)

  function Serve(top: nat, r: Request): Grant {
    match r
    case Plain(size) => Bump(top, size)
    case Aligned(size, align) => if align == 0 then Grant(None, top) else BumpAligned(top, size, align)
  }

  // The areas a run of requests hands out, from the given heap pointer on.
  function Areas(top: nat, rs: seq<Request>): seq<Area>
    decreases |rs|
  {
    if rs == [] then []
    else
      var g := Serve(top, rs[0]);
      (if g.addr.Some? then [Area(g.addr.value, rs[0].size)] else []) + Areas(g.top, rs[1..])
  }

  ghost predicate Ascending(top: nat, areas: seq<Area>) {
    && (forall i | 0 <= i < |areas| :: top <= areas[i].addr && areas[i].addr + areas[i].size < HEAP_END)
    && (forall i, j | 0 <= i < j < |areas| :: areas[i].addr + areas[i].size <= areas[j].addr)
  }

  lemma AlignedAbove(top: nat, align: nat)
    requires align > 0
    ensures var next := (top / align + 1) * align; next % align == 0 && top < next
  {
    var q := top / align;
    assert top == q * align + top % align;
    assert (q + 1) * align == q * align + align;
    Remainder(q + 1, 0, align);
  }

  // m is the least multiple of `align` above the heap pointer.
  ghost predicate LeastMultiple(top: nat, align: nat, m: nat)
    requires align > 0
  {
    m % align == 0 && top < m <= top + align
  }

  lemma AlignedLeast(top: nat, align: nat)
    requires align > 0
    ensures forall m: nat :: LeastMultiple(top, align, m) <==> m == (top / align + 1) * align
  {
    var next := (top / align + 1) * align;
    AlignedAbove(top, align);
    assert next == top / align * align + align <= top + align;
    forall m: nat | LeastMultiple(top, align, m) ensures m == next {
      OneMultiple(top / align, top % align, m, align);
    }
  }

  lemma OneMultiple(q: nat, r: nat, m: nat, align: nat)
    requires r < align && m % align == 0 && q * align + r < m <= q * align + r + align
    ensures m == (q + 1) * align
  {
    var k := m / align;
    assert m == k * align;
    Times(k, q, align);
    Times(q + 2, k, align);
    assert (q + 1) * align == q * align + align && (q + 2) * align == q * align + 2 * align;
  }

  lemma Times(a: nat, b: nat, n: nat)
    ensures a <= b ==> a * n <= b * n
  {
  }

  // Over every run of requests the areas handed out are inside the heap and never overlap.
  lemma {:induction false} AreasDisjoint(top: nat, rs: seq<Request>)
    ensures Ascending(top, Areas(top, rs))
    decreases |rs|
  {
    if rs != [] {
      var g := Serve(top, rs[0]);
      if rs[0].Aligned? && rs[0].align > 0 {
        AlignedAbove(top, rs[0].align);
      }
      AreasDisjoint(g.top, rs[1..]);
    }
  }

  class Heap {
    var heapPointer: nat

    constructor ()
      ensures heapPointer == HEAP_BASE == 0xD000_0000
    {
      heapPointer := HEAP_BASE;
    }

    method Kmalloc(size: nat) returns (r: Option<nat>)
      requires heapPointer + size < WRAP
      modifies this
      ensures Grant(r, heapPointer) == Bump(old(heapPointer), size)
      ensures r == if old(heapPointer) + size < 0xD040_0000 then Some(old(heapPointer)) else None
      ensures heapPointer == if r.Some? then old(heapPointer) + size else old(heapPointer)
    {
      if heapPointer + size >= HEAP_END {
        return None;
      }
      var previousHeap := heapPointer;
      heapPointer := heapPointer + size;
      return Some(previousHeap);
    }

    method Kamalloc(size: nat, align: nat) returns (r: Option<nat>)
      requires align > 0 && (heapPointer / align + 1) * align + size < WRAP
      modifies this
      ensures Grant(r, heapPointer) == BumpAligned(old(heapPointer), size, align)
      ensures r.Some? ==> LeastMultiple(old(heapPointer), align, r.value) && heapPointer == r.value + size
      ensures r.None? ==> heapPointer == old(heapPointer)
      ensures r.None? <==>
        exists m: nat :: LeastMultiple(old(heapPointer), align, m) && m + size >= 0xD040_0000
    {
      AlignedLeast(heapPointer, align);
      var next := (heapPointer / align + 1) * align;
      assert LeastMultiple(heapPointer, align, next);
      if next + size >= HEAP_END {
        return None;
      }
      heapPointer := next + size;
      return Some(next);
    }
  }
}
