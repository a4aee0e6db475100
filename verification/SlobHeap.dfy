/** Which units of memory belong to whom: the free list, the live blocks and the pages behind them. */
module SlobHeap {
  import opened Cycle
  import opened SlobRing

  const PAGE_UNITS: nat := 256

  ghost function Block(a: nat, n: nat): iset<nat> {
    iset x: nat | InBlock(a, n, x)
  }

  ghost function FreeSet(units: Words, ring: seq<nat>): iset<nat> {
    iset x: nat | FreeUnit(units, ring, x)
  }

  /** The arena's one unit and the units of the pages taken for the list. */
  ghost predicate Owned(arena: nat, pages: set<nat>, x: nat) {
    x == arena || x / PAGE_UNITS in pages
  }

  ghost predicate LiveUnit(live: map<nat, nat>, x: nat) {
    exists a :: a in live && InBlock(a, live[a], x)
  }

  ghost predicate LiveApart(live: map<nat, nat>) {
    forall a, b | a in live && b in live && a < b :: a + live[a] <= b
  }

  /** Free units and live blocks partition the owned units; the arena itself is never live. */
  ghost predicate Tiled(free: iset<nat>, live: map<nat, nat>, arena: nat, pages: set<nat>) {
    && arena in free
    && (forall x | x in free :: Owned(arena, pages, x))
    && (forall a | a in live :: live[a] >= 2)
    && (forall a, x | a in live && InBlock(a, live[a], x) :: Owned(arena, pages, x) && x !in free)
    && LiveApart(live)
    && (forall x: nat | Owned(arena, pages, x) :: x in free || LiveUnit(live, x))
  }

  /** No page of the set holds the arena or a unit next to it. */
  predicate ArenaClear(arena: nat, s: set<nat>) {
    forall p | p in s :: (p + 1) * PAGE_UNITS < arena || arena + 1 < p * PAGE_UNITS
  }

  /** The state of the heap between calls: the list, the live blocks and the pages behind them. */
  ghost predicate HeapOk(units: Words, next: Words, ring: seq<nat>, arena: nat, live: map<nat, nat>, pages: set<nat>) {
    && ListOk(units, next, ring, arena) && ArenaClear(arena, pages) && 0 !in pages && arena >= 1
    && Tiled(FreeSet(units, ring), live, arena, pages)
    && FreeTotal(units, ring) + LiveTotal(live) == PAGE_UNITS * |pages| + 1
  }

  lemma TakeApart(free: iset<nat>, live: map<nat, nat>, a: nat, u: nat)
    requires LiveApart(live) && u >= 1 && Block(a, u) <= free && a !in live
    requires forall b | b in live :: live[b] >= 1
    requires forall b, x | b in live && InBlock(b, live[b], x) :: x !in free
    ensures LiveApart(live[a := u])
  {
    var live' := live[a := u];
    assert a in Block(a, u);
    forall b, c | b in live' && c in live' && b < c ensures b + live'[b] <= c {
      if b == a {
        assert InBlock(c, live[c], c);
        assert c !in Block(a, u);
      } else if c == a {
        assert InBlock(b, live[b], a) ==> a !in free;
      }
    }
  }

  lemma TakeTiled(free: iset<nat>, free': iset<nat>, live: map<nat, nat>, arena: nat, pages: set<nat>, a: nat, u: nat)
    requires Tiled(free, live, arena, pages) && u >= 2
    requires Block(a, u) <= free && arena !in Block(a, u) && free' == free - Block(a, u)
    ensures a !in live && Tiled(free', live[a := u], arena, pages)
  {
    assert a in Block(a, u);
    if a in live {
      assert InBlock(a, live[a], a);
    }
    var live' := live[a := u];
    TakeApart(free, live, a, u);
    forall x: nat | Owned(arena, pages, x) ensures x in free' || LiveUnit(live', x) {
      if x in Block(a, u) {
        assert a in live' && InBlock(a, live'[a], x);
      } else if x !in free {
        var b :| b in live && InBlock(b, live[b], x);
        assert b in live' && InBlock(b, live'[b], x);
      }
    }
  }

  lemma ReturnTiled(free: iset<nat>, free': iset<nat>, live: map<nat, nat>, arena: nat, pages: set<nat>, a: nat)
    requires Tiled(free, live, arena, pages) && a in live && free' == free + Block(a, live[a])
    ensures Tiled(free', live - {a}, arena, pages)
  {
    var live' := live - {a};
    forall b, x | b in live' && InBlock(b, live'[b], x) ensures Owned(arena, pages, x) && x !in free' {
      assert b in live && b != a && InBlock(b, live[b], x);
    }
    forall x: nat | Owned(arena, pages, x) ensures x in free' || LiveUnit(live', x) {
      if x !in free && x !in Block(a, live[a]) {
        var b :| b in live && InBlock(b, live[b], x);
        assert b in live' && InBlock(b, live'[b], x);
      }
    }
  }

  lemma PageBlock(p: nat, x: nat)
    ensures x in Block(p * PAGE_UNITS, PAGE_UNITS) <==> x / PAGE_UNITS == p
  {
  }

  lemma GrowTiled(free: iset<nat>, free': iset<nat>, live: map<nat, nat>, arena: nat, pages: set<nat>, p: nat)
    requires Tiled(free, live, arena, pages) && p !in pages && arena / PAGE_UNITS != p
    requires free' == free + Block(p * PAGE_UNITS, PAGE_UNITS)
    ensures Tiled(free', live, arena, pages + {p})
  {
    forall x: nat ensures x in Block(p * PAGE_UNITS, PAGE_UNITS) <==> x / PAGE_UNITS == p {
      PageBlock(p, x);
    }
  }

  // ---------- Counting units ----------

  ghost function FreeTotal(units: Words, ring: seq<nat>): nat {
    if ring == [] then 0 else (if ring[0] in units then units[ring[0]] else 0) + FreeTotal(units, ring[1..])
  }

  lemma {:induction false} TotalConcat(units: Words, s: seq<nat>, t: seq<nat>)
    ensures FreeTotal(units, s + t) == FreeTotal(units, s) + FreeTotal(units, t)
  {
    if s == [] {
      assert s + t == t;
    } else {
      assert (s + t)[1..] == s[1..] + t;
      TotalConcat(units, s[1..], t);
    }
  }

  lemma {:induction false} TotalSame(units: Words, units': Words, s: seq<nat>)
    requires forall i | 0 <= i < |s| :: s[i] in units && s[i] in units' && units'[s[i]] == units[s[i]]
    ensures FreeTotal(units', s) == FreeTotal(units, s)
  {
    if s != [] {
      TotalSame(units, units', s[1..]);
    }
  }

  /** Exchanging a stretch of the list for one block changes the total by the difference. */
  lemma SpliceTotal(units: Words, units': Words, ring: seq<nat>, k: nat, m: nat, s: nat, len: nat)
    requires k <= m <= |ring| && SameHeaders(units, units', ring, k, m) && s in units' && units'[s] == len
    ensures FreeTotal(units', Spliced(ring, k, m, s)) + FreeTotal(units, ring[k..m]) == FreeTotal(units, ring) + len
  {
    TotalSame(units, units', ring[..k]);
    TotalSame(units, units', ring[m..]);
    TotalConcat(units', ring[..k] + [s], ring[m..]);
    TotalConcat(units', ring[..k], [s]);
    assert ring == ring[..k] + ring[k..m] + ring[m..];
    TotalConcat(units, ring[..k] + ring[k..m], ring[m..]);
    TotalConcat(units, ring[..k], ring[k..m]);
  }

  lemma UnlinkTotal(units: Words, ring: seq<nat>, k: nat)
    requires k < |ring| && ring[k] in units
    ensures FreeTotal(units, Unlinked(ring, k)) + units[ring[k]] == FreeTotal(units, ring)
  {
    TotalConcat(units, ring[..k], ring[k + 1..]);
    assert ring == ring[..k] + ([ring[k]] + ring[k + 1..]);
    TotalConcat(units, ring[..k], [ring[k]] + ring[k + 1..]);
    TotalConcat(units, [ring[k]], ring[k + 1..]);
  }

  ghost function LiveTotal(live: map<nat, nat>): nat {
    if live == map[] then 0
    else
      var a :| a in live;
      live[a] + LiveTotal(live - {a})
  }

  lemma {:induction false} LiveTotalRemove(live: map<nat, nat>, a: nat)
    requires a in live
    ensures LiveTotal(live) == live[a] + LiveTotal(live - {a})
    decreases |live|
  {
    var b :| b in live && LiveTotal(live) == live[b] + LiveTotal(live - {b});
    if a != b {
      LiveTotalRemove(live - {b}, a);
      LiveTotalRemove(live - {a}, b);
      assert live - {b} - {a} == live - {a} - {b};
    }
  }

  lemma LiveTotalAdd(live: map<nat, nat>, a: nat, n: nat)
    requires a !in live
    ensures LiveTotal(live[a := n]) == LiveTotal(live) + n
  {
    LiveTotalRemove(live[a := n], a);
    assert live[a := n] - {a} == live;
  }

  // ---------- The free list around the arena ----------

  /** A well-formed list that holds the arena as a block of one unit. */
  ghost predicate ListOk(units: Words, next: Words, ring: seq<nat>, arena: nat) {
    RingOk(units, next, ring) && arena in ring && arena in units && units[arena] == 1
  }

  lemma DisjointIsOutside(units: Words, ring: seq<nat>, b: nat, n: nat)
    requires Ascending(units, ring) && n >= 1 && Block(b, n) !! FreeSet(units, ring)
    ensures Outside(units, ring, b, n) && b !in ring
  {
    forall i | 0 <= i < |ring|
      ensures ring[i] in units && (b + n <= ring[i] || ring[i] + units[ring[i]] <= b) && ring[i] != b
    {
      var x := if b <= ring[i] then ring[i] else b;
      if x in Block(b, n) {
        assert x !in FreeSet(units, ring);
        assert !InBlock(ring[i], units[ring[i]], x);
      }
    }
  }

  /** Every block that was not joined away is still listed. */
  lemma ReturnedKeeps(units: Words, ring: seq<nat>, p: nat, b: nat, n: nat, i: nat)
    requires p <= |ring| && i < |ring|
    requires (Last(ring, p, b, n) > p ==> i != p)
    ensures ring[i] in Returned(units, ring, p, b, n)
    ensures var k := First(units, ring, p, b);
            k < |Returned(units, ring, p, b, n)| && Returned(units, ring, p, b, n)[k] == Start(units, ring, p, b)
  {
    var k, m := First(units, ring, p, b), Last(ring, p, b, n);
    var r := Returned(units, ring, p, b, n);
    assert r[k] == Start(units, ring, p, b);
    if i < k {
      assert r[i] == ring[i];
    } else if i >= m {
      assert r[i - m + k + 1] == ring[i];
    }
  }

  /** The whole effect of slob_free on the list. */
  lemma ReturnEffect(units: Words, next: Words, ring: seq<nat>, arena: nat, b: nat, n: nat, c: nat)
    requires ListOk(units, next, ring, arena) && n >= 1 && Block(b, n) !! FreeSet(units, ring)
    requires b in units && units[b] == n && b + n != arena && b != arena + 1
    requires c == Predecessor(ring, b)
    ensures c < |ring| && ring[c] in units && ring[c] in next && ring[c] != b
    ensures var units', next' := CoalescedUnits(units, next, ring[c], b), CoalescedNext(units, next, ring[c], b);
            var p := Position(ring, b);
            var ring' := Returned(units, ring, p, b, n);
            && ListOk(units', next', ring', arena) && ring[c] in ring'
            && FreeSet(units', ring') == FreeSet(units, ring) + Block(b, n)
            && FreeTotal(units', ring') == FreeTotal(units, ring) + n
            && First(units, ring, p, b) < |ring'| && ring'[First(units, ring, p, b)] in units'
            && units'[ring'[First(units, ring, p, b)]] >= n
  {
    hide *;
    var p := Position(ring, b);
    var j := ReturnGap(units, next, ring, arena, b, n, c);
    CoalesceKeeps(units, next, ring, p, c, b, n);
    var units', next' := CoalescedUnits(units, next, ring[c], b), CoalescedNext(units, next, ring[c], b);
    CoalesceHeaders(units, next, ring, p, c, b, n);
    ReturnedKeeps(units, ring, p, b, n, j);
    ReturnedKeeps(units, ring, p, b, n, c);
    ReturnTotal(units, units', ring, p, b, n);
    ReturnLength(units, ring, p, b, n);
    ArenaHeader(units, units', ring, p, b, n, arena, j);
    ListWhole(units', next', Returned(units, ring, p, b, n), arena);
    ReturnFree(units, units', ring, p, b, n);
  }

  lemma ReturnGap(units: Words, next: Words, ring: seq<nat>, arena: nat, b: nat, n: nat, c: nat) returns (j: nat)
    requires ListOk(units, next, ring, arena) && n >= 1 && Block(b, n) !! FreeSet(units, ring)
    requires b in units && units[b] == n && b + n != arena && b != arena + 1
    requires c == Predecessor(ring, b)
    ensures var p := Position(ring, b);
            && p <= |ring| && c < |ring| && Returnable(units, ring, p, b, n) && AtGap(units, next, ring, p, c, b, n)
            && j < |ring| && ring[j] == arena && arena in units && units[arena] == 1
            && (First(units, ring, p, b) < p ==> j != p - 1)
            && (Last(ring, p, b, n) > p ==> j != p && c != p)
  {
    var p := Position(ring, b);
    DisjointIsOutside(units, ring, b, n);
    PositionSplits(units, ring, b, n);
    j :| 0 <= j < |ring| && ring[j] == arena;
    ArenaUntouched(units, ring, arena, p, b, n, j);
  }

  lemma ReturnLength(units: Words, ring: seq<nat>, p: nat, b: nat, n: nat)
    requires p <= |ring|
    ensures Length(units, ring, p, b, n) >= n
  {
  }

  lemma ArenaHeader(units: Words, units': Words, ring: seq<nat>, p: nat, b: nat, n: nat, arena: nat, j: nat)
    requires p <= |ring| && SameHeaders(units, units', ring, First(units, ring, p, b), Last(ring, p, b, n))
    requires j < |ring| && ring[j] == arena && arena in units && units[arena] == 1
    requires (First(units, ring, p, b) < p ==> j != p - 1) && (Last(ring, p, b, n) > p ==> j != p)
    ensures arena in units' && units'[arena] == 1
  {
  }

  lemma ListWhole(units: Words, next: Words, ring: seq<nat>, arena: nat)
    requires RingOk(units, next, ring) && arena in ring && arena in units && units[arena] == 1
    ensures ListOk(units, next, ring, arena)
  {
  }

  lemma ReturnFree(units: Words, units': Words, ring: seq<nat>, p: nat, b: nat, n: nat)
    requires Returnable(units, ring, p, b, n)
    requires SameHeaders(units, units', ring, First(units, ring, p, b), Last(ring, p, b, n))
    requires var s := Start(units, ring, p, b); s in units' && units'[s] == Length(units, ring, p, b, n)
    ensures FreeSet(units', Returned(units, ring, p, b, n)) == FreeSet(units, ring) + Block(b, n)
  {
    forall x: nat
      ensures x in FreeSet(units', Returned(units, ring, p, b, n)) <==> x in FreeSet(units, ring) + Block(b, n)
    {
      ReturnUnits(units, units', ring, p, b, n, x);
    }
  }

  lemma ArenaUntouched(units: Words, ring: seq<nat>, arena: nat, p: nat, b: nat, n: nat, j: nat)
    requires Returnable(units, ring, p, b, n) && j < |ring| && ring[j] == arena
    requires arena in units && units[arena] == 1 && b + n != arena && b != arena + 1
    ensures First(units, ring, p, b) < p ==> j != p - 1
    ensures Last(ring, p, b, n) > p ==> j != p && |ring| >= 2
  {
  }

  lemma ReturnTotal(units: Words, units': Words, ring: seq<nat>, p: nat, b: nat, n: nat)
    requires Returnable(units, ring, p, b, n)
    requires SameHeaders(units, units', ring, First(units, ring, p, b), Last(ring, p, b, n))
    requires var s := Start(units, ring, p, b); s in units' && units'[s] == Length(units, ring, p, b, n)
    ensures FreeTotal(units', Returned(units, ring, p, b, n)) == FreeTotal(units, ring) + n
  {
    var k, m := First(units, ring, p, b), Last(ring, p, b, n);
    SpliceTotal(units, units', ring, k, m, Start(units, ring, p, b), Length(units, ring, p, b, n));
    assert ring[k..m] == (if k < p then [ring[p - 1]] else []) + (if m > p then [ring[p]] else []);
    ReturnBounds(units, ring, p, b, n);
    TotalConcat(units, if k < p then [ring[p - 1]] else [], if m > p then [ring[p]] else []);
    if p > 0 { assert FreeTotal(units, [ring[p - 1]]) == units[ring[p - 1]]; }
    if p < |ring| { assert FreeTotal(units, [ring[p]]) == units[ring[p]]; }
  }

  /** The words and the list after u units are cut from the front of block k, or all of it is unlinked. */
  function TakenUnits(units: Words, cur: nat, u: nat): Words
    requires cur in units && u <= units[cur]
  {
    if units[cur] == u then units else units[cur + u := units[cur] - u][cur := u]
  }

  function TakenNext(units: Words, next: Words, prev: nat, cur: nat, u: nat): Words
    requires cur in units && cur in next
  {
    if units[cur] == u then next[prev := next[cur]] else next[prev := cur + u][cur + u := next[cur]]
  }

  function TakenRing(units: Words, ring: seq<nat>, k: nat, u: nat): seq<nat>
    requires k < |ring| && ring[k] in units
  {
    if units[ring[k]] == u then Unlinked(ring, k) else Spliced(ring, k, k + 1, ring[k] + u)
  }

  /** The block that serves u units is not the arena, so it has a predecessor of its own that stays listed. */
  lemma TakeOthers(units: Words, next: Words, ring: seq<nat>, arena: nat, k: nat, u: nat)
    requires ListOk(units, next, ring, arena) && k < |ring| && ring[k] in units && units[ring[k]] >= u >= 2
    ensures |ring| >= 2 && ring[k] != arena && Before(k, |ring|) != k && ring[Before(k, |ring|)] != ring[k]
    ensures arena in TakenRing(units, ring, k, u) && ring[Before(k, |ring|)] in TakenRing(units, ring, k, u)
    ensures arena in TakenUnits(units, ring[k], u) && TakenUnits(units, ring[k], u)[arena] == 1
  {
    var j :| 0 <= j < |ring| && ring[j] == arena;
    assert j != k;
    var c := Before(k, |ring|);
    Different(units, ring, c, k);
    StillListed(ring, k, j, ring[k] + u);
    StillListed(ring, k, c, ring[k] + u);
    ArenaNotCut(units, ring, arena, k, u, j);
  }

  /** With another block on the list, taking one unit of a block takes the arena off it only if the block is the
      arena. */
  lemma ArenaStaysUnlessTaken(units: Words, next: Words, ring: seq<nat>, arena: nat, k: nat)
    requires ListOk(units, next, ring, arena) && |ring| >= 2 && k < |ring| && ring[k] in units
    ensures arena in TakenRing(units, ring, k, 1) <==> ring[k] != arena
  {
    var j :| 0 <= j < |ring| && ring[j] == arena;
    if j != k {
      Different(units, ring, j, k);
      StillListed(ring, k, j, ring[k] + 1);
    } else {
      forall i | 0 <= i < |Unlinked(ring, k)| ensures Unlinked(ring, k)[i] != arena {
        Different(units, ring, if i < k then i else i + 1, k);
      }
    }
  }

  lemma ArenaNotCut(units: Words, ring: seq<nat>, arena: nat, k: nat, u: nat, j: nat)
    requires Ascending(units, ring) && j < |ring| && ring[j] == arena && k < |ring| && j != k
    requires 2 <= u <= units[ring[k]] && units[arena] == 1
    ensures arena in TakenUnits(units, ring[k], u) && TakenUnits(units, ring[k], u)[arena] == 1
  {
    Different(units, ring, j, k);
    if units[ring[k]] > u {
      FragmentHeaders(units, ring, k, u);
    }
  }

  lemma StillListed(ring: seq<nat>, k: nat, i: nat, s: nat)
    requires k < |ring| && i < |ring| && i != k
    ensures ring[i] in Unlinked(ring, k) && ring[i] in Spliced(ring, k, k + 1, s)
  {
    assert Unlinked(ring, k)[if i < k then i else i - 1] == ring[i];
    assert Spliced(ring, k, k + 1, s)[i] == ring[i];
  }

  /** The whole effect of a successful search on the list. */
  lemma TakeEffect(units: Words, next: Words, ring: seq<nat>, arena: nat, k: nat, u: nat)
    requires ListOk(units, next, ring, arena) && k < |ring| && ring[k] in units && ring[k] in next
    requires units[ring[k]] >= u >= 2
    ensures var units' := TakenUnits(units, ring[k], u);
            var next' := TakenNext(units, next, ring[Before(k, |ring|)], ring[k], u);
            var ring' := TakenRing(units, ring, k, u);
            && ListOk(units', next', ring', arena) && ring[Before(k, |ring|)] in ring'
            && FreeSet(units', ring') == FreeSet(units, ring) - Block(ring[k], u)
            && FreeTotal(units', ring') + u == FreeTotal(units, ring)
            && ring[k] in units' && units'[ring[k]] == u
    ensures Block(ring[k], u) <= FreeSet(units, ring) && arena !in Block(ring[k], u)
  {
    TakeOthers(units, next, ring, arena, k, u);
    TakeWithin(units, ring, arena, k, u);
    var units', next' := TakenUnits(units, ring[k], u), TakenNext(units, next, ring[Before(k, |ring|)], ring[k], u);
    var ring' := TakenRing(units, ring, k, u);
    if units[ring[k]] == u {
      UnlinkKeeps(units, next, next', ring, k);
      UnlinkTotal(units, ring, k);
    } else {
      FragmentKeeps(units, next, ring, k, u, units', next');
      FragmentTotal(units, ring, k, u);
    }
    TakeFree(units, ring, k, u);
    ListWhole(units', next', ring', arena);
  }

  lemma TakeWithin(units: Words, ring: seq<nat>, arena: nat, k: nat, u: nat)
    requires Ascending(units, ring) && arena in ring && k < |ring| && 1 <= u <= units[ring[k]] && ring[k] != arena
    ensures Block(ring[k], u) <= FreeSet(units, ring) && arena !in Block(ring[k], u)
  {
    forall x | x in Block(ring[k], u) ensures x in FreeSet(units, ring) {
      assert InBlock(ring[k], units[ring[k]], x);
    }
    var j :| 0 <= j < |ring| && ring[j] == arena;
    BlocksDisjoint(units, ring, j, k, arena);
  }

  lemma FragmentTotal(units: Words, ring: seq<nat>, k: nat, u: nat)
    requires Ascending(units, ring) && k < |ring| && 1 <= u < units[ring[k]]
    ensures FreeTotal(TakenUnits(units, ring[k], u), Spliced(ring, k, k + 1, ring[k] + u)) + u == FreeTotal(units, ring)
  {
    FragmentHeaders(units, ring, k, u);
    SpliceTotal(units, TakenUnits(units, ring[k], u), ring, k, k + 1, ring[k] + u, units[ring[k]] - u);
    assert ring[k..k + 1] == [ring[k]];
    assert FreeTotal(units, [ring[k]]) == units[ring[k]];
  }

  lemma TakeFree(units: Words, ring: seq<nat>, k: nat, u: nat)
    requires Ascending(units, ring) && k < |ring| && 1 <= u <= units[ring[k]]
    ensures FreeSet(TakenUnits(units, ring[k], u), TakenRing(units, ring, k, u))
         == FreeSet(units, ring) - Block(ring[k], u)
  {
    forall x: nat
      ensures x in FreeSet(TakenUnits(units, ring[k], u), TakenRing(units, ring, k, u))
         <==> x in FreeSet(units, ring) - Block(ring[k], u)
    {
      if units[ring[k]] == u {
        UnlinkUnits(units, ring, k, x);
      } else {
        FragmentUnits(units, ring, k, u, x);
      }
    }
  }
}
