/** What single calls of the SLOB allocator do to the heap, the page source below it, the orders of big blocks and
    their list (lab4/kern/mm/kmalloc.c). Addresses count units of 16 bytes, the size of a block header; a page is 256
    units, and address 0 is NULL. */
module KmallocTheory {
  import opened Bits
  import opened Cycle
  import opened SlobRing
  import opened SlobHeap
  import opened Wrappers

  const PAGE_SIZE: nat := 4096
  const SLOB_UNIT: nat := 16
  const BIGBLOCK_SIZE: nat := 24

  /** SLOB_UNITS */
  function Units(size: nat): (n: nat)
    ensures 16 * n >= size && (n > 0 ==> 16 * (n - 1) < size)
  {
    (size + SLOB_UNIT - 1) / SLOB_UNIT
  }

  /** A run of 2^order pages. */
  function Run(p: nat, order: nat): set<nat> {
    set x: nat | x < p + Pow2(order) && InBlock(p, Pow2(order), x)
  }

  /** A run of 2^order pages was asked for. */
  datatype Request = Request(order: nat, granted: bool)

  /** The page allocator below the heap: it hands out runs nobody else holds, or fails. */
  class PageSource {
    var taken: set<nat>
    ghost var log: seq<Request>            // what it was asked for, the latest last

    method Alloc(order: nat, arena: nat) returns (r: Option<nat>)
      modifies this
      ensures log == old(log) + [Request(order, r.Some?)]
      ensures r.None? ==> taken == old(taken)
      ensures r.Some? ==> r.value >= 1 && Run(r.value, order) !! old(taken) && taken == old(taken) + Run(r.value, order)
      ensures r.Some? ==> ArenaClear(arena, Run(r.value, order))
    {
      if * {
        log := log + [Request(order, false)];
        return None;
      }
      ghost var bound := Above(taken + {arena / PAGE_UNITS + 1});
      assert bound >= 1 && Run(bound, order) !! taken && ArenaClear(arena, Run(bound, order)) by {
        assert arena / PAGE_UNITS + 1 < bound;
      }
      var p: nat :| p >= 1 && Run(p, order) !! taken && ArenaClear(arena, Run(p, order));
      taken := taken + Run(p, order);
      log := log + [Request(order, true)];
      return Some(p);
    }

    method Free(p: nat, order: nat)
      modifies this`taken
      ensures taken == old(taken) - Run(p, order)
    {
      taken := taken - Run(p, order);
    }
  }

  lemma {:induction false} Above(s: set<nat>) returns (bound: nat)
    ensures forall x | x in s :: x < bound
    decreases |s|
  {
    if s == {} {
      bound := 0;
    } else {
      var y :| y in s;
      bound := Above(s - {y});
      bound := if bound <= y then y + 1 else bound;
      assert forall x | x in s :: x == y || x in s - {y};
    }
  }

  // ---------- Walking the list ----------

  lemma DistanceStep(i: nat, j: nat, n: nat)
    requires i < n && j < n && i != j
    ensures Distance(After(i, n), j, n) + 1 == Distance(i, j, n)
  {
  }

  /** Writing a header outside the list changes nothing on it. */
  lemma HeaderElsewhere(units: Words, next: Words, ring: seq<nat>, arena: nat, b: nat, v: nat)
    requires ListOk(units, next, ring, arena) && b !in ring
    ensures ListOk(units[b := v], next, ring, arena)
    ensures FreeSet(units[b := v], ring) == FreeSet(units, ring)
    ensures FreeTotal(units[b := v], ring) == FreeTotal(units, ring)
  {
    var units' := units[b := v];
    assert forall i | 0 <= i < |ring| :: ring[i] in ring;
    TotalSame(units, units', ring);
    forall x: nat ensures FreeUnit(units', ring, x) <==> FreeUnit(units, ring, x) {
      if FreeUnit(units', ring, x) {
        var i :| 0 <= i < |ring| && ring[i] in units' && InBlock(ring[i], units'[ring[i]], x);
        assert InBlock(ring[i], units[ring[i]], x);
      }
      if FreeUnit(units, ring, x) {
        var i :| 0 <= i < |ring| && ring[i] in units && InBlock(ring[i], units[ring[i]], x);
        assert InBlock(ring[i], units'[ring[i]], x);
      }
    }
  }

  lemma HeadIsFree(units: Words, next: Words, ring: seq<nat>, i: nat)
    requires RingOk(units, next, ring) && i < |ring|
    ensures ring[i] in FreeSet(units, ring)
  {
    assert InBlock(ring[i], units[ring[i]], ring[i]);
  }

  /** Words of addresses that were neither free nor the block itself are as before. */
  ghost predicate Untouched(m: Words, m': Words, free: iset<nat>, b: nat) {
    forall a | a in m && a !in free && a != b :: a in m' && m'[a] == m[a]
  }

  /** What returning the block of n units at b does: exactly its units become free. */
  ghost predicate AfterReturn(units: Words, next: Words, ring: seq<nat>,
                              units': Words, next': Words, ring': seq<nat>, arena: nat, b: nat, n: nat) {
    && ListOk(units', next', ring', arena)
    && FreeSet(units', ring') == FreeSet(units, ring) + Block(b, n)
    && FreeTotal(units', ring') == FreeTotal(units, ring) + n
    && Fits(units', ring', n)
    && Untouched(units, units', FreeSet(units, ring), b) && Untouched(next, next', FreeSet(units, ring), b)
  }

  /** Some listed block has n units. */
  ghost predicate Fits(units: Words, ring: seq<nat>, n: nat) {
    exists w :: 0 <= w < |ring| && ring[w] in units && units[ring[w]] >= n
  }

  lemma LinkInEffect(units: Words, next: Words, ring: seq<nat>, arena: nat, b: nat, n: nat, cur: nat)
    requires ListOk(units, next, ring, arena) && n >= 1 && Block(b, n) !! FreeSet(units, ring)
    requires b in units && units[b] == n && b + n != arena && b != arena + 1
    requires Predecessor(ring, b) < |ring| && cur == ring[Predecessor(ring, b)]
    ensures cur in units && cur in next && cur != b && next[cur] in units && next[cur] in next
    ensures AfterReturn(units, next, ring, CoalescedUnits(units, next, cur, b), CoalescedNext(units, next, cur, b),
                        Returned(units, ring, Position(ring, b), b, n), arena, b, n)
    ensures cur in Returned(units, ring, Position(ring, b), b, n)
  {
    var c := Predecessor(ring, b);
    ReturnEffect(units, next, ring, arena, b, n, c);
    HeadIsFree(units, next, ring, c);
    CoalesceSteps(units, next, ring, cur);
    hide *;
    CoalesceElsewhere(units, next, FreeSet(units, ring), cur, b);
    ReturnWhole(units, next, ring, CoalescedUnits(units, next, cur, b), CoalescedNext(units, next, cur, b),
                Returned(units, ring, Position(ring, b), b, n), arena, b, n,
                First(units, ring, Position(ring, b), b));
  }

  lemma ReturnWhole(units: Words, next: Words, ring: seq<nat>,
                    units': Words, next': Words, ring': seq<nat>, arena: nat, b: nat, n: nat, w: nat)
    requires ListOk(units', next', ring', arena)
    requires FreeSet(units', ring') == FreeSet(units, ring) + Block(b, n)
    requires FreeTotal(units', ring') == FreeTotal(units, ring) + n
    requires w < |ring'| && ring'[w] in units' && units'[ring'[w]] >= n
    requires Untouched(units, units', FreeSet(units, ring), b) && Untouched(next, next', FreeSet(units, ring), b)
    ensures AfterReturn(units, next, ring, units', next', ring', arena, b, n)
  {
  }

  lemma CoalesceElsewhere(units: Words, next: Words, free: iset<nat>, cur: nat, b: nat)
    requires b in units && cur in units && cur in next && cur != b && cur in free
    ensures Untouched(units, CoalescedUnits(units, next, cur, b), free, b)
    ensures Untouched(next, CoalescedNext(units, next, cur, b), free, b)
  {
  }

  /** The words read while coalescing exist. */
  lemma CoalesceSteps(units: Words, next: Words, ring: seq<nat>, cur: nat)
    requires RingOk(units, next, ring) && cur in ring
    ensures cur in units && cur in next && next[cur] in units && next[cur] in next
  {
    var i :| 0 <= i < |ring| && ring[i] == cur;
    LinkAt(next, ring, i);
    LinkAt(next, ring, After(i, |ring|));
  }

  /** Writing the size header first changes nothing about the effect. */
  lemma AfterHeader(units: Words, next: Words, ring: seq<nat>,
                    units': Words, next': Words, ring': seq<nat>, arena: nat, b: nat, n: nat)
    requires ListOk(units, next, ring, arena) && b !in ring
    requires AfterReturn(units[b := n], next, ring, units', next', ring', arena, b, n)
    ensures AfterReturn(units, next, ring, units', next', ring', arena, b, n)
  {
    HeaderElsewhere(units, next, ring, arena, b, n);
    hide ListOk, FreeSet, FreeTotal, Block, Fits;
  }

  // ---------- Orders of big blocks ----------

  /** find_order as a function. */
  function OrderFor(size: nat): nat {
    if size <= PAGE_SIZE then 0 else 1 + OrderFor(size / 2)
  }

  /** find_order */
  method FindOrder(size: nat) returns (order: nat)
    ensures order == OrderFor(size)
  {
    order := 0;
    var sz: nat := size;
    while sz > PAGE_SIZE
      invariant order + OrderFor(sz) == OrderFor(size)
    {
      sz := sz / 2;
      order := order + 1;
    }
  }

  /** It is the least order whose shifted size is within a page. */
  lemma {:induction false} OrderForIsLeast(size: nat)
    ensures size / Pow2(OrderFor(size)) <= PAGE_SIZE
    ensures OrderFor(size) > 0 ==> size / Pow2(OrderFor(size) - 1) > PAGE_SIZE
  {
    if size > PAGE_SIZE {
      OrderForIsLeast(size / 2);
      HalveMod(size, Pow2(OrderFor(size / 2)));
      if OrderFor(size / 2) > 0 {
        HalveMod(size, Pow2(OrderFor(size / 2) - 1));
      }
    }
  }

  /** The pages of that order hold size bytes exactly when size is not just above a power-of-two number of
      pages: within one part in 4096 of it, from 8 KiB on. */
  lemma {:induction false} OrderIsEnough(size: nat)
    ensures size <= PAGE_SIZE * Pow2(OrderFor(size)) <==>
              forall j: nat | j >= 1 :: !(PAGE_SIZE * Pow2(j) < size < (PAGE_SIZE + 1) * Pow2(j))
  {
    var k := OrderFor(size);
    OrderForIsLeast(size);
    QuotientBound(size, Pow2(k), PAGE_SIZE);
    if size > PAGE_SIZE * Pow2(k) {
      if k == 0 {
        assert false;
      }
    } else {
      forall j: nat | j >= 1 ensures !(PAGE_SIZE * Pow2(j) < size < (PAGE_SIZE + 1) * Pow2(j)) {
        if PAGE_SIZE * Pow2(j) < size {
          if j < k {
            Pow2Mono(j, k - 1);
            QuotientMono(size, Pow2(j), Pow2(k - 1));
            QuotientBound(size, Pow2(j), PAGE_SIZE);
          } else {
            Pow2Mono(k, j);
          }
        }
      }
    }
  }

  lemma QuotientBound(x: nat, m: nat, q: nat)
    requires m >= 1
    ensures x / m <= q <==> x < (q + 1) * m
  {
    var d, r := x / m, x % m;
    assert x == d * m + r;
    if d <= q {
      MulMono(d, q, m);
    } else {
      MulMono(q + 1, d, m);
    }
    assert (q + 1) * m == q * m + m;
  }

  lemma MulMono(a: nat, b: nat, m: nat)
    requires a <= b
    ensures a * m <= b * m
  {
  }

  lemma QuotientMono(x: nat, m: nat, n: nat)
    requires 1 <= m <= n
    ensures x / n <= x / m
  {
    QuotientBound(x, n, x / m);
    QuotientBound(x, m, x / m);
    MulMono(m, n, x / m + 1);
  }

  /** One size for which too few pages are taken: 8193 bytes get two pages. */
  lemma OrderNotEnough()
    ensures OrderFor(8193) == 1 && PAGE_SIZE * Pow2(OrderFor(8193)) == 8192
  {
  }

  // ---------- What the heap gains and loses ----------

  lemma LiveCanReturn(units: Words, next: Words, ring: seq<nat>, arena: nat, live: map<nat, nat>, pages: set<nat>,
                      a: nat)
    requires HeapOk(units, next, ring, arena, live, pages) && a in live
    ensures a != 0 && live[a] >= 2 && Block(a, live[a]) !! FreeSet(units, ring)
    ensures a + live[a] != arena && a != arena + 1
  {
    var free := FreeSet(units, ring);
    assert forall x | InBlock(a, live[a], x) :: Owned(arena, pages, x) && x !in free;
    assert InBlock(a, live[a], a) && InBlock(a, live[a], a + live[a] - 1);
    PageOf(a);
    PageOf(a + live[a] - 1);
  }

  lemma PageOf(x: nat)
    ensures (x / PAGE_UNITS) * PAGE_UNITS <= x < (x / PAGE_UNITS + 1) * PAGE_UNITS
  {
  }

  lemma LiveReturned(units: Words, next: Words, ring: seq<nat>, units': Words, next': Words, ring': seq<nat>,
                     arena: nat, live: map<nat, nat>, pages: set<nat>, a: nat)
    requires HeapOk(units, next, ring, arena, live, pages) && a in live
    requires AfterReturn(units, next, ring, units', next', ring', arena, a, live[a])
    ensures HeapOk(units', next', ring', arena, live - {a}, pages)
    ensures WordsKept(units, next, units', next', live - {a})
  {
    ReturnTiled(FreeSet(units, ring), FreeSet(units', ring'), live, arena, pages, a);
    LiveTotalRemove(live, a);
    LiveNotFree(FreeSet(units, ring), live, arena, pages);
    OthersElsewhere(live, a);
    KeptOutside(units, next, units', next', FreeSet(units, ring), live - {a}, a);
    hide *;
    HeapParts(units, next, ring, arena, live, pages);
    AfterParts(units, next, ring, units', next', ring', arena, a, live[a]);
    HeapWhole(units', next', ring', arena, live - {a}, pages);
  }

  lemma LiveNotFree(free: iset<nat>, live: map<nat, nat>, arena: nat, pages: set<nat>)
    requires Tiled(free, live, arena, pages)
    ensures forall x | LiveUnit(live, x) :: x !in free
  {
    forall x | LiveUnit(live, x) ensures x !in free {
      var a :| a in live && InBlock(a, live[a], x);
    }
  }

  /** The units of the other blocks do not include the start of this one. */
  lemma OthersElsewhere(live: map<nat, nat>, d: nat)
    requires LiveApart(live) && d in live && live[d] >= 1
    ensures forall x | LiveUnit(live - {d}, x) :: LiveUnit(live, x) && x != d
  {
    forall x | LiveUnit(live - {d}, x) ensures LiveUnit(live, x) && x != d {
      var a :| a in live - {d} && InBlock(a, (live - {d})[a], x);
      assert a in live && InBlock(a, live[a], x);
    }
  }

  /** No word anywhere inside a block of live was written. */
  ghost predicate WordsKept(units: Words, next: Words, units': Words, next': Words, live: map<nat, nat>) {
    forall x | LiveUnit(live, x) ::
      && (x in units ==> x in units' && units'[x] == units[x])
      && (x in next ==> x in next' && next'[x] == next[x])
  }

  lemma KeptAt(units: Words, next: Words, units': Words, next': Words, live: map<nat, nat>, a: nat)
    requires WordsKept(units, next, units', next', live) && a in live && live[a] >= 1
    ensures a in units ==> a in units' && units'[a] == units[a]
    ensures a in next ==> a in next' && next'[a] == next[a]
  {
    assert InBlock(a, live[a], a);
    assert LiveUnit(live, a);
  }

  lemma KeptOutside(units: Words, next: Words, units': Words, next': Words, free: iset<nat>, live: map<nat, nat>,
                    b: nat)
    requires Untouched(units, units', free, b) && Untouched(next, next', free, b)
    requires forall x | LiveUnit(live, x) :: x !in free && x != b
    ensures WordsKept(units, next, units', next', live)
  {
  }

  lemma HeapParts(units: Words, next: Words, ring: seq<nat>, arena: nat, live: map<nat, nat>, pages: set<nat>)
    requires HeapOk(units, next, ring, arena, live, pages)
    ensures ListOk(units, next, ring, arena) && ArenaClear(arena, pages) && 0 !in pages && arena >= 1
    ensures Tiled(FreeSet(units, ring), live, arena, pages)
    ensures FreeTotal(units, ring) + LiveTotal(live) == PAGE_UNITS * |pages| + 1
  {
  }

  lemma HeapWhole(units: Words, next: Words, ring: seq<nat>, arena: nat, live: map<nat, nat>, pages: set<nat>)
    requires ListOk(units, next, ring, arena) && ArenaClear(arena, pages) && 0 !in pages && arena >= 1
    requires Tiled(FreeSet(units, ring), live, arena, pages)
    requires FreeTotal(units, ring) + LiveTotal(live) == PAGE_UNITS * |pages| + 1
    ensures HeapOk(units, next, ring, arena, live, pages)
  {
  }

  lemma AfterParts(units: Words, next: Words, ring: seq<nat>,
                   units': Words, next': Words, ring': seq<nat>, arena: nat, b: nat, n: nat)
    requires AfterReturn(units, next, ring, units', next', ring', arena, b, n)
    ensures ListOk(units', next', ring', arena)
    ensures FreeSet(units', ring') == FreeSet(units, ring) + Block(b, n)
    ensures FreeTotal(units', ring') == FreeTotal(units, ring) + n
    ensures Fits(units', ring', n)
    ensures Untouched(units, units', FreeSet(units, ring), b) && Untouched(next, next', FreeSet(units, ring), b)
  {
  }

  lemma PageCanReturn(units: Words, next: Words, ring: seq<nat>, arena: nat, live: map<nat, nat>, pages: set<nat>,
                      p: nat)
    requires HeapOk(units, next, ring, arena, live, pages) && p !in pages && ArenaClear(arena, {p})
    ensures arena / PAGE_UNITS != p && (p >= 1 ==> p * PAGE_UNITS != 0)
    ensures var b := p * PAGE_UNITS;
            Block(b, PAGE_UNITS) !! FreeSet(units, ring) && b + PAGE_UNITS != arena && b != arena + 1
  {
    var b, free := p * PAGE_UNITS, FreeSet(units, ring);
    PageOf(arena);
    forall x: nat | x in Block(b, PAGE_UNITS) ensures x !in free {
      PageBlock(p, x);
      assert x in free ==> Owned(arena, pages, x);
    }
  }

  lemma PageAdded(units: Words, next: Words, ring: seq<nat>, units': Words, next': Words, ring': seq<nat>,
                  arena: nat, live: map<nat, nat>, pages: set<nat>, p: nat)
    requires HeapOk(units, next, ring, arena, live, pages) && p !in pages && p >= 1 && ArenaClear(arena, {p})
    requires AfterReturn(units, next, ring, units', next', ring', arena, p * PAGE_UNITS, PAGE_UNITS)
    ensures HeapOk(units', next', ring', arena, live, pages + {p})
    ensures WordsKept(units, next, units', next', live)
  {
    PageCanReturn(units, next, ring, arena, live, pages, p);
    GrowTiled(FreeSet(units, ring), FreeSet(units', ring'), live, arena, pages, p);
    LiveNotFree(FreeSet(units, ring), live, arena, pages);
    PageNotLive(FreeSet(units, ring), live, arena, pages, p);
    KeptOutside(units, next, units', next', FreeSet(units, ring), live, p * PAGE_UNITS);
    hide *;
    HeapParts(units, next, ring, arena, live, pages);
    AfterParts(units, next, ring, units', next', ring', arena, p * PAGE_UNITS, PAGE_UNITS);
    ClearBoth(arena, pages, p);
    assert PAGE_UNITS * (|pages| + 1) == PAGE_UNITS * |pages| + PAGE_UNITS;
    HeapWhole(units', next', ring', arena, live, pages + {p});
  }

  lemma ClearBoth(arena: nat, pages: set<nat>, p: nat)
    requires ArenaClear(arena, pages) && ArenaClear(arena, {p}) && p !in pages
    ensures ArenaClear(arena, pages + {p}) && |pages + {p}| == |pages| + 1
  {
  }

  lemma PageNotLive(free: iset<nat>, live: map<nat, nat>, arena: nat, pages: set<nat>, p: nat)
    requires Tiled(free, live, arena, pages) && p !in pages && arena / PAGE_UNITS != p
    ensures forall x | LiveUnit(live, x) :: x != p * PAGE_UNITS
  {
    forall x | LiveUnit(live, x) ensures x != p * PAGE_UNITS {
      var a :| a in live && InBlock(a, live[a], x);
      assert Owned(arena, pages, x) && x !in free && arena in free;
      PageBlock(p, x);
    }
  }

  lemma BlockTaken(units: Words, next: Words, ring: seq<nat>, arena: nat, live: map<nat, nat>, pages: set<nat>,
                   k: nat, u: nat)
    requires HeapOk(units, next, ring, arena, live, pages) && k < |ring| && ring[k] in units && ring[k] in next
    requires units[ring[k]] >= u >= 2
    ensures var units' := TakenUnits(units, ring[k], u);
            var next' := TakenNext(units, next, ring[Before(k, |ring|)], ring[k], u);
            var ring' := TakenRing(units, ring, k, u);
            && HeapOk(units', next', ring', arena, live[ring[k] := u], pages)
            && ring[Before(k, |ring|)] in ring' && ring[k] in units' && units'[ring[k]] == u
            && WordsKept(units, next, units', next', live)
    ensures ring[k] !in live && ring[k] != 0 && ring[Before(k, |ring|)] != ring[k]
  {
    assert Before(k, |ring|) < |ring|;
    hide *;
    HeapParts(units, next, ring, arena, live, pages);
    TakeOthers(units, next, ring, arena, k, u);
    TakeEffect(units, next, ring, arena, k, u);
    var units', next' := TakenUnits(units, ring[k], u), TakenNext(units, next, ring[Before(k, |ring|)], ring[k], u);
    var ring' := TakenRing(units, ring, k, u);
    TakeTiled(FreeSet(units, ring), FreeSet(units', ring'), live, arena, pages, ring[k], u);
    LiveTotalAdd(live, ring[k], u);
    TakenKept(units, next, ring, live, arena, pages, k, u);
    FreeNotNull(units, next, ring, arena, live, pages, k);
    HeapWhole(units', next', ring', arena, live[ring[k] := u], pages);
  }

  lemma FreeNotNull(units: Words, next: Words, ring: seq<nat>, arena: nat, live: map<nat, nat>, pages: set<nat>, k: nat)
    requires HeapOk(units, next, ring, arena, live, pages) && k < |ring|
    ensures ring[k] != 0
  {
    HeadIsFree(units, next, ring, k);
    assert Owned(arena, pages, ring[k]);
  }

  lemma TakenElsewhere(units: Words, next: Words, free: iset<nat>, prev: nat, cur: nat, u: nat)
    requires cur in units && cur in next && u <= units[cur] && cur in free && prev in free
    requires u < units[cur] ==> cur + u in free
    ensures Untouched(units, TakenUnits(units, cur, u), free, cur)
    ensures Untouched(next, TakenNext(units, next, prev, cur, u), free, cur)
  {
  }

  lemma TakenKept(units: Words, next: Words, ring: seq<nat>, live: map<nat, nat>, arena: nat, pages: set<nat>,
                  k: nat, u: nat)
    requires ListOk(units, next, ring, arena) && k < |ring| && ring[k] in units && ring[k] in next
    requires 2 <= u <= units[ring[k]]
    requires Tiled(FreeSet(units, ring), live, arena, pages)
    ensures WordsKept(units, next, TakenUnits(units, ring[k], u),
                      TakenNext(units, next, ring[Before(k, |ring|)], ring[k], u), live)
  {
    var free := FreeSet(units, ring);
    HeadIsFree(units, next, ring, k);
    HeadIsFree(units, next, ring, Before(k, |ring|));
    if u < units[ring[k]] {
      assert InBlock(ring[k], units[ring[k]], ring[k] + u);
      assert ring[k] + u in free;
    }
    LiveNotFree(free, live, arena, pages);
    TakenElsewhere(units, next, free, ring[Before(k, |ring|)], ring[k], u);
    hide *;
    KeptOutside(units, next, TakenUnits(units, ring[k], u),
                TakenNext(units, next, ring[Before(k, |ring|)], ring[k], u), free, live, ring[k]);
  }

  /** Exactly one page, new to everybody, went to the free list. */
  ghost predicate TookOnePage(pages: set<nat>, pages': set<nat>, taken: set<nat>, taken': set<nat>) {
    exists p :: p in pages' && p !in taken && pages' == pages + {p} && taken' == taken + {p}
  }

  lemma KeptSelf(units: Words, next: Words, live: map<nat, nat>)
    ensures WordsKept(units, next, units, next, live)
  {
  }

  lemma KeptTwice(units: Words, next: Words, units1: Words, next1: Words, units2: Words, next2: Words, live: map<nat,
                  nat>)
    requires WordsKept(units, next, units1, next1, live) && WordsKept(units1, next1, units2, next2, live)
    ensures WordsKept(units, next, units2, next2, live)
  {
  }

  lemma UnitsBounds(size: nat)
    requires SLOB_UNIT < size && size + SLOB_UNIT < PAGE_SIZE
    ensures 2 <= Units(size) < PAGE_UNITS
    ensures SLOB_UNIT * Units(size) >= size
  {
  }

  lemma RunOfOne(p: nat)
    ensures Run(p, 0) == {p}
  {
    assert InBlock(p, Pow2(0), p);
  }

  // ---------- Big blocks ----------

  /** A descriptor's words hold the order and the address of its pages. */
  ghost predicate Describes(arena: nat, units: Words, next: Words, live: map<nat, nat>, pages: set<nat>,
                            taken: set<nat>, d: nat) {
    && d in live && live[d] == 2 && d in units && d in next
    && next[d] % PAGE_UNITS == 0 && next[d] > 0
    && Run(next[d] / PAGE_UNITS, units[d]) <= taken && Run(next[d] / PAGE_UNITS, units[d]) !! pages
    && ArenaClear(arena, Run(next[d] / PAGE_UNITS, units[d]))
  }

  /** Descriptors on the list have pages of their own; every other live block still has its length in its header. */
  ghost predicate BigOk(arena: nat, units: Words, next: Words, live: map<nat, nat>, pages: set<nat>, taken: set<nat>,
                        big: seq<nat>) {
    && (forall i | 0 <= i < |big| :: Describes(arena, units, next, live, pages, taken, big[i]))
    && (forall i, j | 0 <= i < j < |big| :: big[i] != big[j]
          && Run(next[big[i]] / PAGE_UNITS, units[big[i]]) !! Run(next[big[j]] / PAGE_UNITS, units[big[j]]))
    && (forall a | a in live && a !in big :: a in units && units[a] == live[a])
  }

  ghost predicate IsBig(next: Words, big: seq<nat>, p: nat, i: nat) {
    i < |big| && big[i] in next && next[big[i]] == p
  }

  predicate IsSmall(live: map<nat, nat>, big: seq<nat>, p: nat) {
    p >= 1 && p - 1 in live && p - 1 !in big
  }

  /** A small pointer that happens to start a page is not mistaken for a big block. */
  lemma SmallIsNotBig(units: Words, next: Words, ring: seq<nat>, arena: nat, live: map<nat, nat>, pages: set<nat>,
                      taken: set<nat>, big: seq<nat>, p: nat, i: nat)
    requires HeapOk(units, next, ring, arena, live, pages) && BigOk(arena, units, next, live, pages, taken, big)
    requires IsSmall(live, big, p)
    ensures !IsBig(next, big, p, i)
  {
    assert InBlock(p - 1, live[p - 1], p);
    assert Owned(arena, pages, p) && p !in FreeSet(units, ring) && arena in FreeSet(units, ring);
    if IsBig(next, big, p, i) {
      assert Describes(arena, units, next, live, pages, taken, big[i]);
      RunStart(p / PAGE_UNITS, units[big[i]]);
    }
  }

  /** The units of a run of pages. */
  ghost function RunUnits(run: set<nat>): iset<nat> {
    iset x: nat | x / PAGE_UNITS in run
  }

  /** The pages of big block i meet no free block, no live block and no other big block's pages. */
  ghost predicate PagesApart(units: Words, next: Words, ring: seq<nat>, live: map<nat, nat>, big: seq<nat>, i: nat) {
    && i < |big| && big[i] in units && big[i] in next
    && var run := Run(next[big[i]] / PAGE_UNITS, units[big[i]]);
       && RunUnits(run) !! FreeSet(units, ring)
       && (forall a | a in live :: RunUnits(run) !! Block(a, live[a]))
       && (forall j | 0 <= j < |big| && j != i && big[j] in units && big[j] in next ::
             Run(next[big[j]] / PAGE_UNITS, units[big[j]]) !! run)
  }

  /** Free blocks, live blocks (descriptors among them) and the pages of big blocks are pairwise disjoint. */
  lemma AllDisjoint(units: Words, next: Words, ring: seq<nat>, arena: nat, live: map<nat, nat>, pages: set<nat>,
                    taken: set<nat>, big: seq<nat>)
    requires HeapOk(units, next, ring, arena, live, pages) && BigOk(arena, units, next, live, pages, taken, big)
    ensures forall a | a in live :: Block(a, live[a]) !! FreeSet(units, ring)
    ensures forall a, b | a in live && b in live && a != b :: Block(a, live[a]) !! Block(b, live[b])
    ensures forall i | 0 <= i < |big| :: PagesApart(units, next, ring, live, big, i)
  {
    forall a, b | a in live && b in live
      ensures Block(a, live[a]) !! FreeSet(units, ring) && (a != b ==> Block(a, live[a]) !! Block(b, live[b]))
    {
      LiveDisjoint(units, next, ring, arena, live, pages, a, b);
    }
    forall i | 0 <= i < |big| ensures PagesApart(units, next, ring, live, big, i) {
      PagesDisjoint(units, next, ring, arena, live, pages, taken, big, i);
    }
  }

  lemma LiveDisjoint(units: Words, next: Words, ring: seq<nat>, arena: nat, live: map<nat, nat>, pages: set<nat>,
                     a: nat, b: nat)
    requires HeapOk(units, next, ring, arena, live, pages) && a in live && b in live
    ensures Block(a, live[a]) !! FreeSet(units, ring) && (a != b ==> Block(a, live[a]) !! Block(b, live[b]))
  {
    assert forall x | InBlock(a, live[a], x) :: x !in FreeSet(units, ring);
    assert a != b ==> forall x | InBlock(a, live[a], x) && InBlock(b, live[b], x) :: a + live[a] > b && b + live[b] > a;
  }

  lemma PagesDisjoint(units: Words, next: Words, ring: seq<nat>, arena: nat, live: map<nat, nat>, pages: set<nat>,
                      taken: set<nat>, big: seq<nat>, i: nat)
    requires HeapOk(units, next, ring, arena, live, pages) && BigOk(arena, units, next, live, pages, taken, big)
    requires i < |big|
    ensures PagesApart(units, next, ring, live, big, i)
  {
    assert Describes(arena, units, next, live, pages, taken, big[i]);
    var run := Run(next[big[i]] / PAGE_UNITS, units[big[i]]);
    forall x | x in RunUnits(run) ensures !Owned(arena, pages, x) {
      PageOf(x);
    }
    assert forall x | x in FreeSet(units, ring) :: Owned(arena, pages, x);
    forall a | a in live ensures RunUnits(run) !! Block(a, live[a]) {
      assert forall x | InBlock(a, live[a], x) :: Owned(arena, pages, x);
    }
  }

  lemma RunStart(p: nat, order: nat)
    ensures p in Run(p, order)
  {
    assert InBlock(p, Pow2(order), p);
  }

  /** No two listed big blocks have the same address. */
  lemma BigIsUnique(arena: nat, units: Words, next: Words, live: map<nat, nat>, pages: set<nat>, taken: set<nat>,
                    big: seq<nat>, p: nat, i: nat, j: nat)
    requires BigOk(arena, units, next, live, pages, taken, big) && IsBig(next, big, p, i) && IsBig(next, big, p, j)
    ensures i == j
  {
    assert Describes(arena, units, next, live, pages, taken, big[i]);
    assert Describes(arena, units, next, live, pages, taken, big[j]);
    RunStart(p / PAGE_UNITS, units[big[i]]);
    RunStart(p / PAGE_UNITS, units[big[j]]);
  }

  ghost predicate NoneEmpty(live: map<nat, nat>) {
    forall a | a in live :: live[a] >= 1
  }

  /** Live headers that stay the same keep the descriptors meaningful. */
  lemma BigKept(arena: nat, units: Words, next: Words, live: map<nat, nat>, pages: set<nat>, taken: set<nat>,
                big: seq<nat>, units': Words, next': Words, live': map<nat, nat>, pages': set<nat>, taken': set<nat>)
    requires BigOk(arena, units, next, live, pages, taken, big) && NoneEmpty(live)
    requires forall i | 0 <= i < |big| :: big[i] in live' && live'[big[i]] == 2
    requires WordsKept(units, next, units', next', live)
    requires forall i | 0 <= i < |big| ::
               Run(next[big[i]] / PAGE_UNITS, units[big[i]]) <= taken'
               && Run(next[big[i]] / PAGE_UNITS, units[big[i]]) !! pages'
    requires forall a | a in live' && a !in big :: a in units' && units'[a] == live'[a]
    ensures BigOk(arena, units', next', live', pages', taken', big)
  {
    forall i | 0 <= i < |big| ensures Describes(arena, units', next', live', pages', taken', big[i])
      && units'[big[i]] == units[big[i]] && next'[big[i]] == next[big[i]]
    {
      assert Describes(arena, units, next, live, pages, taken, big[i]);
      KeptAt(units, next, units', next', live, big[i]);
    }
  }

  lemma BigAfterAlloc(arena: nat, units: Words, next: Words, live: map<nat, nat>, pages: set<nat>, taken: set<nat>,
                      big: seq<nat>, units': Words, next': Words, pages': set<nat>, taken': set<nat>, r: nat, u: nat)
    requires BigOk(arena, units, next, live, pages, taken, big) && NoneEmpty(live) && r !in live
    requires WordsKept(units, next, units', next', live) && r in units' && units'[r] == u
    requires SamePages(pages, pages', taken, taken') || TookOnePage(pages, pages', taken, taken')
    ensures BigOk(arena, units', next', live[r := u], pages', taken', big)
  {
    forall i | 0 <= i < |big|
      ensures big[i] in live[r := u] && live[r := u][big[i]] == 2
      ensures Run(next[big[i]] / PAGE_UNITS, units[big[i]]) <= taken'
              && Run(next[big[i]] / PAGE_UNITS, units[big[i]]) !! pages'
    {
      assert Describes(arena, units, next, live, pages, taken, big[i]);
    }
    forall a | a in live[r := u] && a !in big ensures a in units' && units'[a] == live[r := u][a] {
      if a != r {
        KeptAt(units, next, units', next', live, a);
      }
    }
    BigKept(arena, units, next, live, pages, taken, big, units', next', live[r := u], pages', taken');
  }

  /** A block leaves the live set while its header may hold anything. */
  lemma BigWithout(arena: nat, units: Words, next: Words, live: map<nat, nat>, pages: set<nat>, taken: set<nat>,
                   big: seq<nat>, units': Words, next': Words, taken': set<nat>, d: nat)
    requires BigOk(arena, units, next, live, pages, taken, big) && NoneEmpty(live) && d !in big && taken <= taken'
    requires WordsKept(units, next, units', next', live - {d})
    ensures BigOk(arena, units', next', live - {d}, pages, taken', big)
  {
    forall i | 0 <= i < |big|
      ensures Describes(arena, units, next, live - {d}, pages, taken, big[i])
    {
      assert Describes(arena, units, next, live, pages, taken, big[i]);
    }
    forall a | a in live - {d} && a !in big ensures a in units' && units'[a] == live[a] {
      KeptAt(units, next, units', next', live - {d}, a);
    }
    BigKept(arena, units, next, live - {d}, pages, taken, big, units', next', live - {d}, pages, taken');
  }

  lemma BigRegistered(arena: nat, units: Words, next: Words, live: map<nat, nat>, pages: set<nat>, taken: set<nat>,
                      big: seq<nat>, taken': set<nat>, d: nat)
    requires BigOk(arena, units, next, live - {d}, pages, taken, big) && d !in big && taken <= taken'
    requires Describes(arena, units, next, live, pages, taken', d) && Run(next[d] / PAGE_UNITS, units[d]) !! taken
    ensures BigOk(arena, units, next, live, pages, taken', [d] + big)
  {
    var big' := [d] + big;
    forall i | 0 <= i < |big'| ensures Describes(arena, units, next, live, pages, taken', big'[i]) {
      if i > 0 {
        assert Describes(arena, units, next, live - {d}, pages, taken, big[i - 1]);
      }
    }
    forall i, j | 0 <= i < j < |big'| ensures big'[i] != big'[j]
      && Run(next[big'[i]] / PAGE_UNITS, units[big'[i]]) !! Run(next[big'[j]] / PAGE_UNITS, units[big'[j]])
    {
      assert Describes(arena, units, next, live - {d}, pages, taken, big[j - 1]);
    }
  }

  /** The place of entry j of a list before its entry i was dropped. */
  function WasAt(i: nat, j: nat): nat {
    if j < i then j else j + 1
  }

  lemma Dropped(big: seq<nat>, i: nat)
    requires i < |big|
    ensures var big' := big[..i] + big[i + 1..];
            && |big'| == |big| - 1 && (forall j | 0 <= j < |big'| :: big'[j] == big[WasAt(i, j)])
            && (forall a | a in big :: a == big[i] || a in big')
  {
    var big' := big[..i] + big[i + 1..];
    forall j | 0 <= j < |big| && j != i ensures big[j] in big' {
      assert big'[if j < i then j else j - 1] == big[j];
    }
  }

  lemma DropDescribes(arena: nat, units: Words, next: Words, live: map<nat, nat>, pages: set<nat>, taken: set<nat>,
                      d: nat, e: nat)
    requires Describes(arena, units, next, live, pages, taken, d)
    requires Describes(arena, units, next, live, pages, taken, e)
    requires d != e && Run(next[d] / PAGE_UNITS, units[d]) !! Run(next[e] / PAGE_UNITS, units[e])
    ensures Describes(arena, units, next, live - {d}, pages, taken - Run(next[d] / PAGE_UNITS, units[d]), e)
    ensures e in units && e in next
  {
  }

  lemma BigDropped(arena: nat, units: Words, next: Words, live: map<nat, nat>, pages: set<nat>, taken: set<nat>,
                   big: seq<nat>, i: nat)
    requires BigOk(arena, units, next, live, pages, taken, big) && i < |big| && big[i] in units && big[i] in next
    ensures Describes(arena, units, next, live, pages, taken, big[i])
    ensures BigOk(arena, units, next, live - {big[i]}, pages, taken - Run(next[big[i]] / PAGE_UNITS, units[big[i]]),
                  big[..i] + big[i + 1..])
    ensures big[i] !in big[..i] + big[i + 1..]
  {
    hide Run, Describes, Pow2;
    var d, big' := big[i], big[..i] + big[i + 1..];
    var taken' := taken - Run(next[d] / PAGE_UNITS, units[d]);
    Dropped(big, i);
    assert Describes(arena, units, next, live, pages, taken, big[i]);
    forall j | 0 <= j < |big'|
      ensures big'[j] != d && big'[j] in units && big'[j] in next
              && Describes(arena, units, next, live - {d}, pages, taken', big'[j])
    {
      var j' := WasAt(i, j);
      assert big'[j] == big[j'] && Describes(arena, units, next, live, pages, taken, big[j']);
      assert if j' < i then big[j'] != big[i] else big[i] != big[j'];
      DropDescribes(arena, units, next, live, pages, taken, d, big[j']);
    }
    forall j, k | 0 <= j < k < |big'| ensures big'[j] != big'[k]
      && Run(next[big'[j]] / PAGE_UNITS, units[big'[j]]) !! Run(next[big'[k]] / PAGE_UNITS, units[big'[k]])
    {
      assert big'[j] == big[WasAt(i, j)] && big'[k] == big[WasAt(i, k)];
    }
  }

  /** The same pages as before. */
  ghost predicate SamePages(pages: set<nat>, pages': set<nat>, taken: set<nat>, taken': set<nat>) {
    pages' == pages && taken' == taken
  }

  lemma BigIsLive(arena: nat, units: Words, next: Words, live: map<nat, nat>, pages: set<nat>, taken: set<nat>,
                  big: seq<nat>)
    requires BigOk(arena, units, next, live, pages, taken, big)
    ensures forall d | d in big :: d in live
  {
    forall d | d in big ensures d in live {
      var i :| 0 <= i < |big| && big[i] == d;
      assert Describes(arena, units, next, live, pages, taken, big[i]);
    }
  }

  lemma BigHeader(arena: nat, units: Words, next: Words, live: map<nat, nat>, pages: set<nat>, taken: set<nat>,
                  big: seq<nat>, d: nat)
    requires BigOk(arena, units, next, live, pages, taken, big) && d in live && d !in big
    ensures d in units && units[d] == live[d]
  {
  }

  lemma BigSameLive(arena: nat, units: Words, next: Words, live: map<nat, nat>, pages: set<nat>, taken: set<nat>,
                    big: seq<nat>, units': Words, next': Words)
    requires BigOk(arena, units, next, live, pages, taken, big) && NoneEmpty(live)
    requires WordsKept(units, next, units', next', live)
    ensures BigOk(arena, units', next', live, pages, taken, big)
  {
    forall a | a in live && a !in big ensures a in units' && units'[a] == live[a] {
      KeptAt(units, next, units', next', live, a);
    }
    forall i | 0 <= i < |big|
      ensures big[i] in live && live[big[i]] == 2 && Run(next[big[i]] / PAGE_UNITS, units[big[i]]) <= taken
              && Run(next[big[i]] / PAGE_UNITS, units[big[i]]) !! pages
    {
      assert Describes(arena, units, next, live, pages, taken, big[i]);
    }
    BigKept(arena, units, next, live, pages, taken, big, units', next', live, pages, taken);
  }

  lemma KeptAgain(units: Words, next: Words, units': Words, next': Words, live: map<nat, nat>, d: nat)
    requires WordsKept(units, next, units', next', live - {d})
    ensures WordsKept(units, next, units', next', live - {d} - {d})
  {
    assert live - {d} - {d} == live - {d};
  }

  lemma LentSame(pages: set<nat>, pages': set<nat>, taken: set<nat>, taken': set<nat>)
    requires pages <= taken && (SamePages(pages, pages', taken, taken') || TookOnePage(pages, pages', taken, taken'))
    ensures taken' - pages' == taken - pages && |pages'| <= |pages| + 1 && taken <= taken'
  {
    if TookOnePage(pages, pages', taken, taken') {
      var p :| p in pages' && p !in taken && pages' == pages + {p} && taken' == taken + {p};
      assert p !in pages;
    }
  }

  /** A run at p, nobody's before, has been taken. */
  ghost predicate HoldsRun(arena: nat, pages: set<nat>, taken: set<nat>, taken': set<nat>, p: nat, order: nat) {
    && p % PAGE_UNITS == 0 && p > 0
    && Run(p / PAGE_UNITS, order) !! taken && taken' == taken + Run(p / PAGE_UNITS, order) && pages <= taken
    && ArenaClear(arena, Run(p / PAGE_UNITS, order))
  }

  lemma RunHeld(arena: nat, pages: set<nat>, taken: set<nat>, taken': set<nat>, q: nat, order: nat)
    requires q >= 1 && Run(q, order) !! taken && taken' == taken + Run(q, order) && pages <= taken
    requires ArenaClear(arena, Run(q, order))
    ensures HoldsRun(arena, pages, taken, taken', q * PAGE_UNITS, order) && taken <= taken' && pages <= taken'
    ensures q * PAGE_UNITS != 0
  {
    MulMod(q, PAGE_UNITS);
    assert q * PAGE_UNITS / PAGE_UNITS == q;
  }

  lemma RunLent(arena: nat, pages0: set<nat>, taken0: set<nat>, pages: set<nat>, taken: set<nat>, taken': set<nat>,
                p: nat, order: nat)
    requires HoldsRun(arena, pages, taken, taken', p, order) && taken0 <= taken && taken - pages == taken0 - pages0
    ensures taken' - pages == taken0 - pages0 + Run(p / PAGE_UNITS, order) && p % PAGE_UNITS == 0
    ensures Run(p / PAGE_UNITS, order) !! taken0 && taken <= taken'
  {
  }

  lemma DescribesWhole(arena: nat, units: Words, next: Words, live: map<nat, nat>, pages: set<nat>, taken: set<nat>,
                       taken': set<nat>,
                       d: nat, p: nat, order: nat)
    requires HoldsRun(arena, pages, taken, taken', p, order) && d in live && live[d] == 2
    requires d in units && d in next && units[d] == order && next[d] == p
    ensures Describes(arena, units, next, live, pages, taken', d) && Run(next[d] / PAGE_UNITS, units[d]) !! taken
  {
  }

  lemma BigFirst(next: Words, big: seq<nat>, d: nat)
    requires d in next
    ensures IsBig(next, [d] + big, next[d], 0)
  {
  }

  lemma NoneEmptyLess(live: map<nat, nat>, d: nat)
    requires NoneEmpty(live)
    ensures NoneEmpty(live - {d})
  {
  }

  lemma DescriptorFits()
    ensures Units(BIGBLOCK_SIZE) == 2 && BIGBLOCK_SIZE > 0
    ensures BIGBLOCK_SIZE + SLOB_UNIT < PAGE_SIZE && SLOB_UNIT < BIGBLOCK_SIZE
  {
  }

  /** What kfree does to big block i: its pages and its descriptor go back, the others stay. */
  ghost predicate BigTaken(units: Words, big: seq<nat>, big': seq<nat>, live: map<nat, nat>, live': map<nat, nat>,
                           taken: set<nat>, taken': set<nat>, p: nat, i: nat) {
    && i < |big| && big[i] in units && big' == big[..i] + big[i + 1..] && live' == live - {big[i]}
    && Run(p / PAGE_UNITS, units[big[i]]) <= taken && taken' == taken - Run(p / PAGE_UNITS, units[big[i]])
  }

  lemma BigTakenWhole(units: Words, big: seq<nat>, big': seq<nat>, live: map<nat, nat>, live': map<nat, nat>,
                      taken: set<nat>, taken': set<nat>, p: nat, i: nat)
    requires i < |big| && big[i] in units && big' == big[..i] + big[i + 1..] && live' == live - {big[i]}
    requires Run(p / PAGE_UNITS, units[big[i]]) <= taken && taken' == taken - Run(p / PAGE_UNITS, units[big[i]])
    ensures BigTaken(units, big, big', live, live', taken, taken', p, i)
  {
  }

  lemma BigTakenParts(units: Words, big: seq<nat>, big': seq<nat>, live: map<nat, nat>, live': map<nat, nat>,
                      taken: set<nat>, taken': set<nat>, p: nat, i: nat)
    requires BigTaken(units, big, big', live, live', taken, taken', p, i)
    ensures i < |big| && big[i] in units && big' == big[..i] + big[i + 1..] && live' == live - {big[i]}
    ensures taken' == taken - Run(p / PAGE_UNITS, units[big[i]])
  {
  }

  lemma BigParts(arena: nat, units: Words, next: Words, live: map<nat, nat>, pages: set<nat>, taken: set<nat>,
                 big: seq<nat>, p: nat, i: nat)
    requires BigOk(arena, units, next, live, pages, taken, big) && IsBig(next, big, p, i)
    ensures i < |big| && big[i] in units && big[i] in next && next[big[i]] == p && p % PAGE_UNITS == 0 && p > 0
    ensures big[i] in live && live[big[i]] == 2
    ensures Run(p / PAGE_UNITS, units[big[i]]) <= taken && Run(p / PAGE_UNITS, units[big[i]]) !! pages
  {
    assert Describes(arena, units, next, live, pages, taken, big[i]);
  }

  lemma SmallParts(live: map<nat, nat>, big: seq<nat>, p: nat)
    ensures IsSmall(live, big, p) <==> p >= 1 && p - 1 in live && p - 1 !in big
  {
  }

  lemma Sizes()
    ensures PAGE_SIZE == 4096 && PAGE_UNITS == 256 && SLOB_UNIT == 16
  {
  }

  lemma SmallFits(size: nat)
    requires 1 <= size && size + SLOB_UNIT + SLOB_UNIT < PAGE_SIZE
    ensures SLOB_UNIT < size + SLOB_UNIT
    ensures Units(size + SLOB_UNIT) >= 1 && SLOB_UNIT * (Units(size + SLOB_UNIT) - 1) >= size
  {
  }

  lemma SmallIs(live: map<nat, nat>, big: seq<nat>, m: nat)
    ensures m in live && m !in big ==> IsSmall(live, big, m + 1)
  {
  }

  lemma PageAligned(p: nat)
    ensures And(p * SLOB_UNIT, PAGE_SIZE - 1) == 0 <==> p % PAGE_UNITS == 0
  {
    AndMask(p * SLOB_UNIT, 12);
    assert Pow2(12) == PAGE_SIZE by {
      assert Pow2(4) == 16 && Pow2(8) == 256;
      Pow2Add(4, 8);
    }
    var q, r := p / PAGE_UNITS, p % PAGE_UNITS;
    DivModUnique(p * SLOB_UNIT, PAGE_SIZE, q, r * SLOB_UNIT);
  }

  lemma WritesElsewhere(units: Words, next: Words, ring: seq<nat>, arena: nat, live: map<nat, nat>, pages: set<nat>,
                        d: nat, v: nat, w: nat)
    requires HeapOk(units, next, ring, arena, live, pages) && d in live
    ensures HeapOk(units[d := v], next[d := w], ring, arena, live, pages)
    ensures WordsKept(units, next, units[d := v], next[d := w], live - {d})
  {
    LiveCanReturn(units, next, ring, arena, live, pages, d);
    DisjointIsOutside(units, ring, d, live[d]);
    HeaderElsewhere(units, next, ring, arena, d, v);
    OthersElsewhere(live, d);
    var next' := next[d := w];
    forall i | 0 <= i < |ring| ensures LinkOk(next', ring, i) {
      LinkAt(next, ring, i);
      assert ring[i] in ring;
    }
  }

  lemma AfterIsOk(units: Words, next: Words, ring: seq<nat>,
                  units': Words, next': Words, ring': seq<nat>, arena: nat, b: nat, n: nat)
    requires AfterReturn(units, next, ring, units', next', ring', arena, b, n)
    ensures ListOk(units', next', ring', arena)
  {
  }

  /** The arena alone is a heap, with nothing handed out. */
  lemma StartOk(arena: nat, units: Words, next: Words)
    requires arena >= 1 && units == map[arena := 1] && next == map[arena := arena]
    ensures HeapOk(units, next, [arena], arena, map[], {})
    ensures forall taken :: BigOk(arena, units, next, map[], {}, taken, [])
  {
    var ring := [arena];
    assert LinkOk(next, ring, 0);
    assert FreeTotal(units, ring) == 1 + FreeTotal(units, ring[1..]);
    forall x: nat ensures x in FreeSet(units, ring) <==> x == arena {
      assert InBlock(arena, 1, x) <==> x == arena;
    }
  }
}
