/** Which block a search of the SLOB free list finds, and where the next search starts (lab4/kern/mm/kmalloc.c). */
module KmallocSearch {
  import opened Cycle
  import opened SlobRing
  import opened SlobHeap
  import opened KmallocTheory

  // ---------- The search for room ----------

  lemma FitsAt(units: Words, ring: seq<nat>, i: nat, u: nat)
    requires i < |ring| && ring[i] in units && units[ring[i]] >= u
    ensures Fits(units, ring, u)
  {
  }

  lemma FitsLess(units: Words, ring: seq<nat>, n: nat, u: nat)
    requires Fits(units, ring, n) && u <= n
    ensures Fits(units, ring, u)
  {
  }

  /** The blocks from index start up to but excluding i, going round, have fewer than u units. */
  ghost predicate Scanned(units: Words, ring: seq<nat>, start: nat, i: nat, u: nat) {
    start < |ring| && i < |ring| &&
    forall j | 0 <= j < |ring| && Distance(start, j, |ring|) < Distance(start, i, |ring|) ::
      ring[j] in units && units[ring[j]] < u
  }

  /** r is the first block with u units behind the one the search starts from, going round. */
  ghost predicate NextFit(units: Words, ring: seq<nat>, from: nat, r: nat, u: nat) {
    exists s, i :: NextFitAt(units, ring, from, r, u, s, i)
  }

  ghost predicate NextFitAt(units: Words, ring: seq<nat>, from: nat, r: nat, u: nat, s: nat, i: nat) {
    && s < |ring| && ring[s] == from && i < |ring| && ring[i] == r && r in units && units[r] >= u
    && Scanned(units, ring, After(s, |ring|), i, u)
  }

  lemma FoundNext(units: Words, ring: seq<nat>, from: nat, r: nat, u: nat, s: nat, i: nat)
    requires s < |ring| && ring[s] == from && i < |ring| && ring[i] == r && r in units && units[r] >= u
    requires After(s, |ring|) < |ring| && Scanned(units, ring, After(s, |ring|), i, u)
    ensures NextFit(units, ring, from, r, u)
  {
    assert NextFitAt(units, ring, from, r, u, s, i);
  }

  /** Every block has a unit, so a search for one stops at the block behind the one it starts from. */
  lemma OneUnitIsNext(units: Words, next: Words, ring: seq<nat>, from: nat, r: nat)
    requires RingOk(units, next, ring) && from in ring
    ensures from in next && (NextFit(units, ring, from, r, 1) <==> r == next[from])
  {
    var s: nat :| s < |ring| && ring[s] == from;
    LinkAt(next, ring, s);
    var j := After(s, |ring|);
    if NextFit(units, ring, from, r, 1) {
      var s', i :| NextFitAt(units, ring, from, r, 1, s', i);
      if s' != s {
        Different(units, ring, s, s');
      }
      assert Distance(j, j, |ring|) == 0;
      assert i == j;
    }
    assert ring[j] in units && units[ring[j]] >= 1;
    assert NextFitAt(units, ring, from, ring[j], 1, s, j);
  }

  // ---------- Where searches start ----------

  /** The block the next search starts behind is the last one below address b, going round. */
  ghost predicate StartsAt(ring: seq<nat>, from: nat, b: nat) {
    && from in ring && from != b
    && forall x | x in ring :: if from < b then x <= from || b <= x else b <= x <= from
  }

  /** After a call that served r the next search starts there; after one that failed it starts where it did. */
  ghost predicate LeftAt(from: nat, ring': seq<nat>, from': nat, r: nat) {
    if r == 0 then from' == from else StartsAt(ring', from', r)
  }

  /** As after a call that took back the block of descriptor i of the list. */
  ghost predicate StartsAtDescriptor(ring: seq<nat>, from: nat, big: seq<nat>, i: nat) {
    i < |big| && StartsAt(ring, from, big[i])
  }

  lemma StartsWhole(ring: seq<nat>, from: nat, big: seq<nat>, i: nat)
    requires i < |big| && StartsAt(ring, from, big[i])
    ensures StartsAtDescriptor(ring, from, big, i)
  {
  }

  lemma LeftAlone(from: nat, ring: seq<nat>)
    ensures LeftAt(from, ring, from, 0)
  {
  }

  lemma LeftWhole(from: nat, ring': seq<nat>, from': nat, r: nat)
    requires r != 0 && StartsAt(ring', from', r)
    ensures LeftAt(from, ring', from', r)
  {
  }

  /** From a up to b, going round; all addresses but a if they are the same. */
  predicate Between(a: nat, x: nat, b: nat) {
    if a < b then a < x < b else a < x || x < b
  }

  /** The same with a, but nothing if they are the same. */
  predicate Onward(a: nat, x: nat, b: nat) {
    if a <= b then a <= x < b else a <= x || x < b
  }

  lemma BetweenIndices(units: Words, ring: seq<nat>, s: nat, j: nat, i: nat)
    requires Ascending(units, ring) && s < |ring| && j < |ring| && i < |ring|
    ensures Between(ring[s], ring[j], ring[i])
       <==> Distance(After(s, |ring|), j, |ring|) < Distance(After(s, |ring|), i, |ring|)
  {
    AddressOrder(units, ring, s, j);
    AddressOrder(units, ring, j, i);
    AddressOrder(units, ring, s, i);
  }

  lemma AddressOrder(units: Words, ring: seq<nat>, i: nat, j: nat)
    requires Ascending(units, ring) && i < |ring| && j < |ring|
    ensures (ring[i] < ring[j] <==> i < j) && (ring[i] == ring[j] <==> i == j)
  {
  }

  /** The search by addresses: r is large enough, and no block met on the way to it is. */
  ghost predicate FirstOnward(units: Words, ring: seq<nat>, b: nat, r: nat, u: nat) {
    && r in ring && r in units && units[r] >= u
    && forall x | x in ring && Onward(b, x, r) :: x in units && units[x] < u
  }

  lemma NextFitByAddress(units: Words, next: Words, ring: seq<nat>, from: nat, r: nat, u: nat)
    requires RingOk(units, next, ring) && from in ring
    ensures NextFit(units, ring, from, r, u) <==>
              && r in ring && r in units && units[r] >= u
              && forall x | x in ring && Between(from, x, r) :: x in units && units[x] < u
  {
    hide Distance, Between;
    var s: nat :| s < |ring| && ring[s] == from;
    if NextFit(units, ring, from, r, u) {
      var s', i :| NextFitAt(units, ring, from, r, u, s', i);
      AddressOrder(units, ring, s, s');
      forall x | x in ring && Between(from, x, r) ensures x in units && units[x] < u {
        var j: nat :| j < |ring| && ring[j] == x;
        BetweenIndices(units, ring, s, j, i);
      }
    }
    if r in ring && r in units && units[r] >= u
       && forall x | x in ring && Between(from, x, r) :: x in units && units[x] < u {
      var i: nat :| i < |ring| && ring[i] == r;
      forall j: nat | j < |ring| && Distance(After(s, |ring|), j, |ring|) < Distance(After(s, |ring|), i, |ring|)
        ensures ring[j] in units && units[ring[j]] < u
      {
        BetweenIndices(units, ring, s, j, i);
      }
      assert NextFitAt(units, ring, from, r, u, s, i);
    }
  }

  /** After a call that served or took back the block at b, the next search looks at the blocks from address b on,
      going round, and takes the first that is large enough. */
  lemma SearchGoesOn(units: Words, next: Words, ring: seq<nat>, from: nat, b: nat, r: nat, u: nat)
    requires RingOk(units, next, ring) && StartsAt(ring, from, b)
    ensures NextFit(units, ring, from, r, u) <==> FirstOnward(units, ring, b, r, u)
  {
    hide RingOk, NextFit;
    NextFitByAddress(units, next, ring, from, r, u);
  }

  lemma TakenFrom(units: Words, ring: seq<nat>, k: nat, u: nat, x: nat) returns (i: nat)
    requires k < |ring| && ring[k] in units && units[ring[k]] >= u && x in TakenRing(units, ring, k, u)
    ensures i < |ring| && (x == ring[i] || (x == ring[k] + u && i == k && u < units[ring[k]]))
    ensures i == k ==> x == ring[k] + u && u < units[ring[k]]
  {
    var j: nat :| j < |TakenRing(units, ring, k, u)| && TakenRing(units, ring, k, u)[j] == x;
    i := if units[ring[k]] == u && j >= k then j + 1 else j;
  }

  lemma TakenStarts(units: Words, next: Words, ring: seq<nat>, arena: nat, k: nat, u: nat)
    requires ListOk(units, next, ring, arena) && k < |ring| && ring[k] in units && units[ring[k]] >= u >= 2
    ensures StartsAt(TakenRing(units, ring, k, u), ring[Before(k, |ring|)], ring[k])
  {
    hide TakenRing, TakenUnits, Linked;
    TakeOthers(units, next, ring, arena, k, u);
    var c := Before(k, |ring|);
    AddressOrder(units, ring, k, c);
    forall x | x in TakenRing(units, ring, k, u)
      ensures if ring[c] < ring[k] then x <= ring[c] || ring[k] <= x else ring[k] <= x <= ring[c]
    {
      var i := TakenFrom(units, ring, k, u, x);
      AddressOrder(units, ring, i, k);
      AddressOrder(units, ring, i, c);
      assert k != c && (k < c ==> ring[k] + units[ring[k]] < ring[c]);
    }
  }

  lemma ReturnedFrom(units: Words, ring: seq<nat>, p: nat, b: nat, n: nat, x: nat)
    requires p <= |ring| && x in Returned(units, ring, p, b, n)
    ensures x == b || x in ring
  {
    hide Ascending;
  }

  lemma ReturnedStarts(units: Words, ring: seq<nat>, p: nat, b: nat, n: nat, from: nat)
    requires ring != [] && Returnable(units, ring, p, b, n)
    requires from == if p == 0 then ring[|ring| - 1] else ring[p - 1]
    requires from in Returned(units, ring, p, b, n)
    ensures StartsAt(Returned(units, ring, p, b, n), from, b)
  {
    hide Returned, Outside;
    forall x | x in Returned(units, ring, p, b, n)
      ensures if from < b then x <= from || b <= x else b <= x <= from
    {
      ReturnedFrom(units, ring, p, b, n, x);
    }
  }

  // ---------- What determines the list ----------

  lemma HeadsAre(units: Words, ring: seq<nat>, x: nat)
    requires Ascending(units, ring)
    ensures x in ring <==> FreeUnit(units, ring, x) && (x == 0 || !FreeUnit(units, ring, x - 1))
  {
    if x in ring {
      var i: nat :| i < |ring| && ring[i] == x;
      assert InBlock(ring[i], units[ring[i]], x);
    }
    if FreeUnit(units, ring, x) {
      var i: nat :| i < |ring| && InBlock(ring[i], units[ring[i]], x);
      assert x > ring[i] ==> InBlock(ring[i], units[ring[i]], x - 1);
    }
  }

  lemma {:induction false} SameAscending(a: seq<nat>, b: seq<nat>)
    requires forall i, j | 0 <= i < j < |a| :: a[i] < a[j]
    requires forall i, j | 0 <= i < j < |b| :: b[i] < b[j]
    requires forall x :: x in a <==> x in b
    ensures a == b
    decreases |a|
  {
    EmptyTogether(a, b);
    if a != [] {
      assert a[0] in b && b[0] in a;
      forall x ensures x in a[1..] <==> x in b[1..] {
        assert x in a[1..] <==> x in a && x != a[0];
        assert x in b[1..] <==> x in b && x != b[0];
      }
      SameAscending(a[1..], b[1..]);
    }
  }

  lemma EmptyTogether(a: seq<nat>, b: seq<nat>)
    requires forall x :: x in a <==> x in b
    ensures a == [] <==> b == []
  {
    if a != [] {
      assert a[0] in b;
    }
    if b != [] {
      assert b[0] in a;
    }
  }

  lemma EndNotFree(units: Words, ring: seq<nat>, i: nat)
    requires Ascending(units, ring) && i < |ring|
    ensures !FreeUnit(units, ring, ring[i] + units[ring[i]])
    ensures forall x | InBlock(ring[i], units[ring[i]], x) :: FreeUnit(units, ring, x)
  {
  }

  /** The free units determine the blocks of the list, their lengths and their links. */
  lemma ListDetermined(units: Words, next: Words, ring: seq<nat>, units': Words, next': Words, ring': seq<nat>)
    requires RingOk(units, next, ring) && RingOk(units', next', ring')
    requires forall x: nat :: FreeUnit(units, ring, x) <==> FreeUnit(units', ring', x)
    ensures SameList(units, next, ring, units', next', ring')
  {
    hide FreeUnit, Linked;
    forall x: nat ensures x in ring <==> x in ring' {
      HeadsAre(units, ring, x);
      HeadsAre(units', ring', x);
    }
    forall i, j | 0 <= i < j < |ring| ensures ring[i] < ring[j] {
      AddressOrder(units, ring, i, j);
    }
    forall i, j | 0 <= i < j < |ring'| ensures ring'[i] < ring'[j] {
      AddressOrder(units', ring', i, j);
    }
    SameAscending(ring, ring');
    forall i | 0 <= i < |ring| ensures SameBlock(units, next, units', next', ring[i]) {
      EndNotFree(units, ring, i);
      EndNotFree(units', ring', i);
      assert InBlock(ring[i], units[ring[i]], ring[i] + units'[ring[i]]) <==> units'[ring[i]] < units[ring[i]];
      assert InBlock(ring[i], units'[ring[i]], ring[i] + units[ring[i]]) <==> units[ring[i]] < units'[ring[i]];
      LinkAt(next, ring, i);
      LinkAt(next', ring', i);
    }
  }

  ghost predicate SameList(units: Words, next: Words, ring: seq<nat>, units': Words, next': Words, ring': seq<nat>) {
    ring' == ring && forall i | 0 <= i < |ring| :: SameBlock(units, next, units', next', ring[i])
  }

  predicate SameBlock(units: Words, next: Words, units': Words, next': Words, b: nat) {
    b in units && b in next && b in units' && b in next' && units'[b] == units[b] && next'[b] == next[b]
  }

  /** So what is handed out and the pages taken determine the whole list. */
  lemma HeapDetermined(units: Words, next: Words, ring: seq<nat>, units': Words, next': Words, ring': seq<nat>,
                       arena: nat, live: map<nat, nat>, pages: set<nat>)
    requires HeapOk(units, next, ring, arena, live, pages) && HeapOk(units', next', ring', arena, live, pages)
    ensures SameList(units, next, ring, units', next', ring')
  {
    hide SameList;
    FreeIsTheRest(units, next, ring, arena, live, pages);
    FreeIsTheRest(units', next', ring', arena, live, pages);
    hide FreeUnit, Owned, LiveUnit;
    ListDetermined(units, next, ring, units', next', ring');
  }

  lemma FreeIsTheRest(units: Words, next: Words, ring: seq<nat>, arena: nat, live: map<nat, nat>, pages: set<nat>)
    requires HeapOk(units, next, ring, arena, live, pages)
    ensures forall x: nat :: FreeUnit(units, ring, x) <==> Owned(arena, pages, x) && !LiveUnit(live, x)
  {
    hide FreeUnit, Owned;
    forall x: nat ensures FreeUnit(units, ring, x) <==> Owned(arena, pages, x) && !LiveUnit(live, x) {
      assert x in FreeSet(units, ring) <==> FreeUnit(units, ring, x);
    }
  }

  /** The links lead from one block round to the other. */
  ghost predicate OnList(next: Words, from: nat, x: nat) {
    exists ring :: OnRing(next, ring, from, x)
  }

  ghost predicate OnRing(next: Words, ring: seq<nat>, from: nat, x: nat) {
    Linked(next, ring) && from in ring && x in ring
  }

  /** All that the links lead to is on any one cycle they form. */
  lemma {:induction false} WalkStays(next: Words, a: seq<nat>, b: seq<nat>, i: nat, j: nat, t: nat)
    requires Linked(next, a) && Linked(next, b) && i < |a| && j < |b| && t < |b| && a[i] == b[j]
    ensures b[t] in a
    decreases Distance(j, t, |b|)
  {
    if j != t {
      LinkAt(next, a, i);
      LinkAt(next, b, j);
      DistanceStep(j, t, |b|);
      WalkStays(next, a, b, After(i, |a|), After(j, |b|), t);
    }
  }

  lemma OneRing(next: Words, ring: seq<nat>, from: nat, x: nat)
    requires Linked(next, ring) && from in ring
    ensures OnList(next, from, x) <==> x in ring
  {
    if OnList(next, from, x) {
      var other :| OnRing(next, other, from, x);
      var i: nat :| i < |ring| && ring[i] == from;
      var j: nat :| j < |other| && other[j] == from;
      var t: nat :| t < |other| && other[t] == x;
      WalkStays(next, ring, other, i, j, t);
    }
    if x in ring {
      assert OnRing(next, ring, from, x);
    }
  }

  /** A request for no bytes, which amounts to one unit. The block handed out is the arena if and only if the
      arena is the block behind slobfree; it leaves the list if and only if slobfree is another block besides. */
  lemma NoBytesTakeArena(units: Words, next: Words, ring: seq<nat>, arena: nat, from: nat, r: nat)
    requires ListOk(units, next, ring, arena) && from in ring && NextFit(units, ring, from, r, Units(0 + SLOB_UNIT))
    ensures from in next && r in next && r in units && units[r] >= 1
    ensures r == arena <==> next[from] == arena
    ensures var next' := TakenNext(units, next, from, r, Units(0 + SLOB_UNIT));
            !OnList(next', from, arena) <==> next[from] == arena && from != arena
  {
    OneUnitIsNext(units, next, ring, from, r);
    var s: nat :| s < |ring| && ring[s] == from;
    var k := After(s, |ring|);
    LinkAt(next, ring, s);
    LinkAt(next, ring, k);
    assert units[ring[k]] >= 1;
    if |ring| == 1 {
      assert ring == [arena];
      assert TakenNext(units, next, from, r, 1) == next;
      OneRing(next, ring, from, arena);
    } else {
      OneUnitLeaves(units, next, ring, arena, s, k);
      Different(units, ring, s, k);
    }
  }

  /** What is left on the list of two blocks or more. */
  lemma OneUnitLeaves(units: Words, next: Words, ring: seq<nat>, arena: nat, s: nat, k: nat)
    requires ListOk(units, next, ring, arena) && |ring| >= 2 && s < |ring| && k == After(s, |ring|)
    requires ring[k] in units && units[ring[k]] >= 1 && ring[k] in next
    ensures var next' := TakenNext(units, next, ring[s], ring[k], 1);
            OnList(next', ring[s], arena) <==> ring[k] != arena
  {
    var ring', next' := TakenRing(units, ring, k, 1), TakenNext(units, next, ring[s], ring[k], 1);
    assert s == Before(k, |ring|);
    if units[ring[k]] == 1 {
      UnlinkKeeps(units, next, next', ring, k);
    } else {
      FragmentKeeps(units, next, ring, k, 1, TakenUnits(units, ring[k], 1), next');
    }
    StillListed(ring, k, s, ring[k] + 1);
    ArenaStaysUnlessTaken(units, next, ring, arena, k);
    OneRing(next', ring', ring[s], arena);
  }

  /** With the arena alone on the list, as in the beginning, no word changes: the arena is handed out, stays on the
      list, and the next request for no bytes is given it again. */
  lemma ArenaHandedOutTwice(units: Words, next: Words, ring: seq<nat>, arena: nat, r: nat)
    requires ListOk(units, next, ring, arena) && arena in next && next[arena] == arena
    requires NextFit(units, ring, arena, r, Units(0 + SLOB_UNIT))
    ensures r == arena && ring == [arena]
    ensures TakenUnits(units, r, Units(0 + SLOB_UNIT)) == units && TakenNext(units, next, arena, r, 1) == next
  {
    OneUnitIsNext(units, next, ring, arena, r);
    var s: nat :| s < |ring| && ring[s] == arena;
    LinkAt(next, ring, s);
    assert ring[After(s, |ring|)] == ring[s];
    assert After(s, |ring|) == s;
  }

  // ---------- Which block is served ----------

  /** The list after the block of n units at b has been joined in; the next search starts at the block before it. */
  ghost predicate JoinedIn(units: Words, next: Words, ring: seq<nat>, units': Words, ring': seq<nat>, from': nat,
                           b: nat, n: nat) {
    && ring != [] && Predecessor(ring, b) < |ring| && from' == ring[Predecessor(ring, b)] && from' != b
    && var written := units[b := n];
    && from' in written && from' in next
    && units' == CoalescedUnits(written, next, from', b) && ring' == Returned(written, ring, Position(ring, b), b, n)
  }

  lemma JoinedWhole(units: Words, next: Words, ring: seq<nat>, units': Words, ring': seq<nat>, from': nat,
                    b: nat, n: nat)
    requires ring != [] && Predecessor(ring, b) < |ring| && from' == ring[Predecessor(ring, b)] && from' != b
    requires from' in units[b := n] && from' in next && units' == CoalescedUnits(units[b := n], next, from', b)
    requires ring' == Returned(units[b := n], ring, Position(ring, b), b, n)
    ensures JoinedIn(units, next, ring, units', ring', from', b, n)
  {
  }

  /** Page p is new to everybody, and r is the first block with u units once it is on the list. */
  ghost predicate FromPage(units: Words, next: Words, ring: seq<nat>, pages: set<nat>, taken: set<nat>,
                           pages': set<nat>, taken': set<nat>, r: nat, u: nat, p: nat) {
    && p !in taken && pages' == pages + {p} && taken' == taken + {p}
    && exists units1, ring1, from1 :: FitsJoined(units, next, ring, units1, ring1, from1, r, u, p)
  }

  ghost predicate FitsJoined(units: Words, next: Words, ring: seq<nat>, units1: Words, ring1: seq<nat>, from1: nat,
                             r: nat, u: nat, p: nat) {
    && JoinedIn(units, next, ring, units1, ring1, from1, p * PAGE_UNITS, PAGE_UNITS)
    && NextFit(units1, ring1, from1, r, u)
  }

  /** A search for u units that ended with block r, or 0: a block that was listed is served from where the search
      starts; if there is none, one page is asked for, and only if it is refused nothing is served. */
  ghost predicate Searched(units: Words, next: Words, ring: seq<nat>, from: nat, pages: set<nat>, taken: set<nat>,
                           log: seq<Request>, pages': set<nat>, taken': set<nat>, log': seq<Request>, r: nat, u: nat) {
    if Fits(units, ring, u) then
      && r != 0 && NextFit(units, ring, from, r, u)
      && pages' == pages && taken' == taken && log' == log
    else
      && log' == log + [Request(0, r != 0)]
      && (r == 0 ==> pages' == pages && taken' == taken)
      && (r != 0 ==> exists p :: FromPage(units, next, ring, pages, taken, pages', taken', r, u, p))
  }

  lemma SearchedListed(units: Words, next: Words, ring: seq<nat>, from: nat, pages: set<nat>, taken: set<nat>,
                       log: seq<Request>, r: nat, u: nat)
    requires Fits(units, ring, u) && r != 0 && NextFit(units, ring, from, r, u)
    ensures Searched(units, next, ring, from, pages, taken, log, pages, taken, log, r, u)
  {
  }

  lemma SearchedInVain(units: Words, next: Words, ring: seq<nat>, from: nat, pages: set<nat>, taken: set<nat>,
                       log: seq<Request>, u: nat)
    requires !Fits(units, ring, u)
    ensures Searched(units, next, ring, from, pages, taken, log, pages, taken, log + [Request(0, false)], 0, u)
  {
  }

  lemma SearchedPage(units: Words, next: Words, ring: seq<nat>, from: nat, pages: set<nat>, taken: set<nat>,
                     log: seq<Request>, units1: Words, ring1: seq<nat>, from1: nat, pages': set<nat>,
                     taken': set<nat>, log': seq<Request>, r: nat, u: nat, p: nat)
    requires !Fits(units, ring, u) && r != 0 && p !in taken && pages' == pages + {p} && taken' == taken + {p}
    requires JoinedIn(units, next, ring, units1, ring1, from1, p * PAGE_UNITS, PAGE_UNITS)
    requires NextFit(units1, ring1, from1, r, u) && log' == log + [Request(0, true)]
    ensures Searched(units, next, ring, from, pages, taken, log, pages', taken', log', r, u)
  {
    hide JoinedIn, NextFit;
    assert FitsJoined(units, next, ring, units1, ring1, from1, r, u, p);
    assert FromPage(units, next, ring, pages, taken, pages', taken', r, u, p);
  }

  lemma SearchedParts(units: Words, next: Words, ring: seq<nat>, from: nat, pages: set<nat>, taken: set<nat>,
                      log: seq<Request>, pages': set<nat>, taken': set<nat>, log': seq<Request>, r: nat, u: nat)
    requires Searched(units, next, ring, from, pages, taken, log, pages', taken', log', r, u)
    ensures SamePages(pages, pages', taken, taken') || TookOnePage(pages, pages', taken, taken')
    ensures r == 0 ==> pages' == pages && taken' == taken
    ensures log' == log + if Fits(units, ring, u) then [] else [Request(0, r != 0)]
    ensures Fits(units, ring, u) ==> r != 0
  {
    hide NextFit, FitsJoined, Fits;
    if r != 0 && !Fits(units, ring, u) {
      var p :| FromPage(units, next, ring, pages, taken, pages', taken', r, u, p);
      assert p in pages';
    }
  }

  /** The search for a descriptor ended with bb, or 0. */
  ghost predicate DescriptorServed(units: Words, next: Words, ring: seq<nat>, from: nat, pages: set<nat>,
                                   taken: set<nat>, log: seq<Request>, pages': set<nat>, bb: nat) {
    exists taken', log' :: Searched(units, next, ring, from, pages, taken, log, pages', taken', log', bb, 2)
  }

  lemma DescriptorFound(units: Words, next: Words, ring: seq<nat>, from: nat, pages: set<nat>, taken: set<nat>,
                        log: seq<Request>, pages': set<nat>, taken': set<nat>, log': seq<Request>, bb: nat)
    requires Searched(units, next, ring, from, pages, taken, log, pages', taken', log', bb, Units(BIGBLOCK_SIZE))
    ensures DescriptorServed(units, next, ring, from, pages, taken, log, pages', bb)
  {
    hide Searched;
  }

  /** A request for a big block: its descriptor's search, then one for its pages, and nothing else makes it fail. */
  ghost predicate BigAsked(fits: bool, order: nat, log: seq<Request>, log': seq<Request>, p: nat) {
    var run := Request(order, p != 0);
    if fits then log' == log + [run]
    else log' == log + [Request(0, true), run] || (log' == log + [Request(0, false)] && p == 0)
  }

  lemma BigAskedWhole(fits: bool, order: nat, log: seq<Request>, log1: seq<Request>, log2: seq<Request>, bb: nat,
                      p: nat)
    requires log1 == log + (if fits then [] else [Request(0, bb != 0)]) && (fits ==> bb != 0)
    requires if bb == 0 then log2 == log1 && p == 0 else log2 == log1 + [Request(order, p != 0)]
    ensures BigAsked(fits, order, log, log2, p)
  {
    if !fits && bb != 0 {
      assert log + [Request(0, true)] + [Request(order, p != 0)] == log + [Request(0, true), Request(order, p != 0)];
    }
  }

  lemma ScannedOne(units: Words, ring: seq<nat>, s: nat, i: nat, u: nat)
    requires s < |ring| && i < |ring| && Scanned(units, ring, After(s, |ring|), i, u)
    requires ring[i] in units && units[ring[i]] < u && i != s
    ensures Scanned(units, ring, After(s, |ring|), After(i, |ring|), u)
    ensures Distance(After(s, |ring|), After(i, |ring|), |ring|) == Distance(After(s, |ring|), i, |ring|) + 1
  {
    var start := After(s, |ring|);
    forall j | 0 <= j < |ring| && Distance(start, j, |ring|) < Distance(start, After(i, |ring|), |ring|)
      ensures ring[j] in units && units[ring[j]] < u
    {
      assert j == i || Distance(start, j, |ring|) < Distance(start, i, |ring|);
    }
  }

  lemma ScannedAll(units: Words, ring: seq<nat>, s: nat, u: nat)
    requires s < |ring| && Scanned(units, ring, After(s, |ring|), s, u)
    requires ring[s] in units && units[ring[s]] < u
    ensures !Fits(units, ring, u)
  {
    forall w | 0 <= w < |ring| ensures ring[w] in units && units[ring[w]] < u {
      assert w == s || Distance(After(s, |ring|), w, |ring|) < Distance(After(s, |ring|), s, |ring|);
    }
  }
}
