/** The SLOB heap and the kmalloc layer above it (lab4/kern/mm/kmalloc.c). */
module Kmalloc {
  import opened Bits
  import opened Cycle
  import opened SlobRing
  import opened SlobHeap
  import opened KmallocTheory
  import opened KmallocSearch
  import opened Wrappers

  class Slob {
    const arena: nat            // address of the statically allocated block
    const source: PageSource
    var units: Words            // first word of each block header
    var next: Words             // second word of each block header
    var slobfree: nat           // where the next search starts
    var bigblocks: seq<nat>             // descriptors of big blocks, first on the list first
    ghost var ring: seq<nat>            // the free list in address order
    ghost var live: map<nat, nat>       // blocks handed out, with their units
    ghost var pages: set<nat>           // pages taken for the list

    /** The static initialisers: a list of one block, the arena, linked to itself. */
    constructor (arena: nat, source: PageSource)
      requires arena >= 1
      ensures this.arena == arena && this.source == source
      ensures Valid() && ring == [arena] && live == map[] && pages == {} && bigblocks == []
    {
      this.arena, this.source := arena, source;
      units, next := map[arena := 1], map[arena := arena];
      slobfree := arena;
      ring, live, pages, bigblocks := [arena], map[], {}, [];
      new;
      StartOk(arena, units, next);
    }

    ghost predicate FreeListOk()
      reads this
    {
      ListOk(units, next, ring, arena) && slobfree in ring
    }

    /** b units-sized n can be returned: it overlaps no free block and does not touch the arena. */
    ghost predicate CanReturn(b: nat, n: nat)
      reads this
    {
      n >= 1 && Block(b, n) !! FreeSet(units, ring) && b + n != arena && b != arena + 1
    }

    /** slob_free: the block's units, and nothing else, become free again; the search ends at the gap the block
        belongs in, wherever it starts, and touching neighbours are joined. */
    method SlobFree(b: nat, size: nat)
      requires FreeListOk()
      requires b != 0 && size == 0 ==> b in units
      requires b != 0 ==> CanReturn(b, if size > 0 then Units(size) else units[b])
      modifies this`units, this`next, this`slobfree, this`ring
      ensures FreeListOk()
      ensures b == 0 ==> units == old(units) && next == old(next) && ring == old(ring) && slobfree == old(slobfree)
      ensures b != 0 ==> AfterReturn(old(units), old(next), old(ring), units, next, ring, arena, b,
                                     if size > 0 then Units(size) else old(units[b]))
      ensures b != 0 ==> JoinedIn(old(units), old(next), old(ring), units, ring, slobfree, b,
                                  if size > 0 then Units(size) else old(units[b]))
      ensures b != 0 ==> StartsAt(ring, slobfree, b)
    {
      if b == 0 {
        return;
      }
      ghost var n, units0, next0, ring0 := if size > 0 then Units(size) else units[b], units, next, ring;
      DisjointIsOutside(units, ring, b, n);
      if size > 0 {
        HeaderElsewhere(units, next, ring, arena, b, n);
        units := units[b := Units(size)];
        DisjointIsOutside(units, ring, b, n);
      }
      assert units == units0[b := n];
      var cur := FindGap(b, n);
      hide AfterReturn, StartsAt;
      LinkIn(b, cur, n);
      hide *;
      AfterHeader(units0, next0, ring0, units, next, ring, arena, b, n);
      JoinedWhole(units0, next0, ring0, units, ring, slobfree, b, n);
    }

    /** The reinsertion search: from wherever slobfree points, it ends at the one block after which b belongs. */
    method FindGap(b: nat, ghost n: nat) returns (cur: nat)
      requires FreeListOk() && n >= 1 && Outside(units, ring, b, n)
      ensures Predecessor(ring, b) < |ring| && cur == ring[Predecessor(ring, b)]
    {
      cur := slobfree;
      ghost var i: nat :| i < |ring| && ring[i] == cur;
      ghost var c := Predecessor(ring, b);
      PositionSplits(units, ring, b, n);
      LinkAt(next, ring, i);
      while !(b > cur && b < next[cur])
        invariant i < |ring| && ring[i] == cur && cur in next
        decreases Distance(i, c, |ring|)
      {
        GapIsUnique(units, next, ring, b, n, i);
        if cur >= next[cur] && (b > cur || b < next[cur]) {
          break;
        }
        DistanceStep(i, c, |ring|);
        LinkAt(next, ring, i);
        cur := next[cur];
        i := After(i, |ring|);
        LinkAt(next, ring, i);
      }
      GapIsUnique(units, next, ring, b, n, i);
    }

    /** Links b in after cur, joining it with the neighbours it touches. */
    method LinkIn(b: nat, cur: nat, ghost n: nat)
      requires FreeListOk() && b in units && units[b] == n && CanReturn(b, n)
      requires Predecessor(ring, b) < |ring| && cur == ring[Predecessor(ring, b)]
      modifies this`units, this`next, this`slobfree, this`ring
      ensures FreeListOk()
      ensures AfterReturn(old(units), old(next), old(ring), units, next, ring, arena, b, n)
      ensures slobfree == cur && cur in old(units) && cur in old(next) && cur != b
      ensures units == CoalescedUnits(old(units), old(next), cur, b)
      ensures Position(old(ring), b) <= |old(ring)|
      ensures ring == Returned(old(units), old(ring), Position(old(ring), b), b, n)
      ensures StartsAt(ring, slobfree, b)
    {
      hide *;
      LinkInReady(b, cur, n);
      LinkInStarts(b, cur, n);
      ghost var units0, next0, ring0 := units, next, ring;
      Join(b, cur);
      slobfree := cur;
      ring := Returned(units0, ring, Position(ring, b), b, n);
      AfterIsOk(units0, next0, ring0, units, next, ring, arena, b, n);
      FreeListWhole();
    }

    /** The two contact tests and the words they write. */
    method Join(b: nat, cur: nat)
      requires b in units && cur in units && cur in next && cur != b && next[cur] in units && next[cur] in next
      modifies this`units, this`next
      ensures units == CoalescedUnits(old(units), old(next), cur, b)
      ensures next == CoalescedNext(old(units), old(next), cur, b)
    {
      if b + units[b] == next[cur] {
        units := units[b := units[b] + units[next[cur]]];
        next := next[b := next[next[cur]]];
      } else {
        next := next[b := next[cur]];
      }
      if cur + units[cur] == b {
        units := units[cur := units[cur] + units[b]];
        next := next[cur := next[b]];
      } else {
        next := next[cur := b];
      }
    }

    /** The heap is consistent and its pages are held from the page source. */
    ghost predicate HeapValid()
      reads this, source
    {
      HeapOk(units, next, ring, arena, live, pages) && slobfree in ring && pages <= source.taken
    }

    lemma HeapValidParts()
      requires HeapValid()
      ensures HeapOk(units, next, ring, arena, live, pages) && slobfree in ring && pages <= source.taken
    {
    }

    lemma HeapValidWhole()
      requires HeapOk(units, next, ring, arena, live, pages) && slobfree in ring && pages <= source.taken
      ensures HeapValid()
    {
    }

    /** The search stands at block i of the list, having come from prev; slobfree is block s. */
    ghost predicate At(s: nat, i: nat, prev: nat, cur: nat)
      reads this
    {
      && s < |ring| && ring[s] == slobfree
      && i < |ring| && ring[i] == cur && ring[Before(i, |ring|)] == prev
      && cur in next && next[cur] == ring[After(i, |ring|)] && cur in units
    }

    lemma AtFacts(s: nat, i: nat, prev: nat, cur: nat)
      requires HeapValid() && At(s, i, prev, cur)
      ensures s < |ring| && ring[s] == slobfree && i < |ring| && ring[i] == cur && cur in next && cur in units
      ensures Before(i, |ring|) < |ring| && ring[Before(i, |ring|)] == prev
      ensures cur == slobfree <==> i == s
      ensures After(s, |ring|) < |ring| && 0 <= Distance(After(s, |ring|), i, |ring|) < |ring|
      ensures After(i, |ring|) < |ring| && At(s, After(i, |ring|), cur, next[cur])
    {
      if i != s {
        Different(units, ring, i, s);
      }
      LinkAt(next, ring, After(i, |ring|));
    }

    lemma Start(u: nat) returns (s: nat)
      requires HeapValid()
      ensures s < |ring| && slobfree in next && After(s, |ring|) < |ring|
      ensures At(s, s, ring[Before(s, |ring|)], slobfree)
      ensures At(s, After(s, |ring|), slobfree, next[slobfree])
      ensures Scanned(units, ring, After(s, |ring|), After(s, |ring|), u)
    {
      s :| 0 <= s < |ring| && ring[s] == slobfree;
      LinkAt(next, ring, s);
      LinkAt(next, ring, After(s, |ring|));
    }

    /** Unlinks or cuts the block found and moves the start of the next search in front of it. */
    method Take(prev: nat, cur: nat, u: nat, ghost i: nat)
      requires HeapValid() && i < |ring| && ring[i] == cur && Before(i, |ring|) < |ring|
      requires ring[Before(i, |ring|)] == prev
      requires cur in next && cur in units && units[cur] >= u >= 2
      modifies this`units, this`next, this`slobfree, this`ring, this`live
      ensures HeapValid() && slobfree == prev && StartsAt(ring, slobfree, cur)
      ensures cur != 0 && cur !in old(live) && live == old(live)[cur := u] && cur in units && units[cur] == u
      ensures WordsKept(old(units), old(next), units, next, old(live))
    {
      hide *;
      HeapValidParts();
      BlockTaken(units, next, ring, arena, live, pages, i, u);
      HeapParts(units, next, ring, arena, live, pages);
      TakenStarts(units, next, ring, arena, i, u);
      ghost var ring' := TakenRing(units, ring, i, u);
      Cut(prev, cur, u);
      slobfree := prev;
      ring, live := ring', live[cur := u];
      HeapValidWhole();
    }

    method Cut(prev: nat, cur: nat, u: nat)
      requires cur in next && cur in units && units[cur] >= u >= 1 && prev != cur
      modifies this`units, this`next
      ensures units == TakenUnits(old(units), cur, u)
      ensures next == TakenNext(old(units), old(next), prev, cur, u)
    {
      if units[cur] == u {
        next := next[prev := next[cur]];
      } else {
        next := next[prev := cur + u];
        units := units[next[prev] := units[cur] - u];
        next := next[next[prev] := next[cur]];
        units := units[cur := u];
      }
    }

    /** Frees a fresh page into the list. */
    method AddPage(p: nat)
      requires HeapValid() && p !in pages && p in source.taken && p >= 1 && ArenaClear(arena, {p})
      modifies this`units, this`next, this`slobfree, this`ring, this`pages
      ensures HeapValid() && pages == old(pages) + {p} && Fits(units, ring, PAGE_UNITS)
      ensures JoinedIn(old(units), old(next), old(ring), units, ring, slobfree, p * PAGE_UNITS, PAGE_UNITS)
      ensures WordsKept(old(units), old(next), units, next, live)
    {
      hide *;
      HeapValidParts();
      PageCanReturn(units, next, ring, arena, live, pages, p);
      ghost var units0, next0, ring0 := units, next, ring;
      FreeListFromHeap(p * PAGE_UNITS, PAGE_UNITS);
      SlobFree(p * PAGE_UNITS, PAGE_SIZE);
      PageAdded(units0, next0, ring0, units, next, ring, arena, live, pages, p);
      AfterParts(units0, next0, ring0, units, next, ring, arena, p * PAGE_UNITS, PAGE_UNITS);
      FreeListParts();
      pages := pages + {p};
      HeapValidWhole();
    }

    lemma FreeListParts()
      requires FreeListOk()
      ensures ListOk(units, next, ring, arena) && slobfree in ring
    {
    }

    lemma FreeListFromHeap(b: nat, n: nat)
      requires HeapValid()
      ensures FreeListOk() && Units(PAGE_SIZE) == PAGE_UNITS && Units(BIGBLOCK_SIZE) == 2 && BIGBLOCK_SIZE > 0
      ensures PAGE_SIZE > 0
      ensures n >= 1 && Block(b, n) !! FreeSet(units, ring) && b + n != arena && b != arena + 1 ==> CanReturn(b, n)
    {
    }

    /** slob_alloc: the first block that is large enough, from slobfree on. It asks for at most one page, exactly when
        no free block is large enough, serves the first that is once the page is on the list, and fails only when the
        page is refused. */
    method SlobAlloc(size: nat) returns (r: nat)
      requires HeapValid() && size + SLOB_UNIT < PAGE_SIZE && SLOB_UNIT < size
      modifies this`units, this`next, this`slobfree, this`ring, this`live, this`pages, source
      ensures HeapValid()
      ensures Searched(old(units), old(next), old(ring), old(slobfree), old(pages), old(source.taken), old(source.log),
                       pages, source.taken, source.log, r, Units(size))
      ensures LeftAt(old(slobfree), ring, slobfree, r)
      ensures r == 0 ==> live == old(live)
      ensures r != 0 ==> r !in old(live) && live == old(live)[r := Units(size)] && r in units && units[r] == Units(size)
      ensures WordsKept(old(units), old(next), units, next, old(live))
    {
      hide *;
      var u := Units(size);
      UnitsBounds(size);
      ghost var asked, units0, next0, ring0, from0 := false, units, next, ring, slobfree;
      ghost var pages0, taken0, log0 := pages, source.taken, source.log;
      var prev := slobfree;
      ghost var s: nat := Start(u);
      var cur := next[prev];
      ghost var i: nat, p: nat := After(s, |ring|), 0;
      KeptSelf(units, next, live);
      while true
        invariant HeapValid() && live == old(live)
        invariant s < |ring| && After(s, |ring|) < |ring| && i < |ring| && At(s, i, prev, cur)
        invariant Scanned(units, ring, After(s, |ring|), i, u)
        invariant !asked ==> units == units0 && next == next0 && ring == ring0 && slobfree == from0 && pages == pages0
                             && source.taken == taken0 && source.log == log0
        invariant asked ==> Fits(units, ring, u) && !Fits(units0, ring0, u) && p !in taken0 && pages == pages0 + {p}
                            && source.taken == taken0 + {p} && source.log == log0 + [Request(0, true)]
                            && JoinedIn(units0, next0, ring0, units, ring, slobfree, p * PAGE_UNITS, PAGE_UNITS)
        invariant WordsKept(units0, next0, units, next, live)
        decreases !asked, |ring| - Distance(After(s, |ring|), i, |ring|)
      {
        AtFacts(s, i, prev, cur);
        if units[cur] >= u {
          FitsAt(units, ring, i, u);
          FoundNext(units, ring, slobfree, cur, u, s, i);
          ghost var units1, next1, ring1, from1 := units, next, ring, slobfree;
          Take(prev, cur, u, i);
          KeptTwice(units0, next0, units1, next1, units, next, old(live));
          LeftWhole(from0, ring, slobfree, cur);
          if asked {
            SearchedPage(units0, next0, ring0, from0, pages0, taken0, log0, units1, ring1, from1, pages, source.taken,
                         source.log, cur, u, p);
          } else {
            SearchedListed(units0, next0, ring0, from0, pages0, taken0, log0, cur, u);
          }
          return cur;
        }
        if cur == slobfree {
          ScannedAll(units, ring, s, u);
          HeapValidParts();
          var page := source.Alloc(0, arena);
          HeapValidWhole();
          if page.None? {
            SearchedInVain(units0, next0, ring0, from0, pages0, taken0, log0, u);
            LeftAlone(slobfree, ring);
            return 0;
          }
          p := page.value;
          RunOfOne(page.value);
          ghost var units1, next1 := units, next;
          AddPage(page.value);
          KeptTwice(units0, next0, units1, next1, units, next, live);
          asked := true;
          FitsLess(units, ring, PAGE_UNITS, u);
          cur := slobfree;
          s := Start(u);
          i := s;
        } else {
          ScannedOne(units, ring, s, i, u);
        }
        prev := cur;
        cur := next[cur];
        i := After(i, |ring|);
      }
    }

    // ---------- kmalloc and kfree ----------

    /** The state between calls of kmalloc and kfree. */
    ghost predicate Valid()
      reads this, source
    {
      HeapValid() && BigOk(arena, units, next, live, pages, source.taken, bigblocks)
    }

    /** As Valid, but block d may hold anything in its header: it is being filled in or about to be returned. */
    ghost predicate Open(d: nat)
      reads this, source
    {
      && HeapValid() && d in live && d !in bigblocks
      && BigOk(arena, units, next, live - {d}, pages, source.taken, bigblocks)
    }

    lemma HeapIsNoneEmpty()
      requires HeapValid()
      ensures NoneEmpty(live)
    {
    }

    lemma ValidParts()
      requires Valid()
      ensures HeapValid() && BigOk(arena, units, next, live, pages, source.taken, bigblocks) && NoneEmpty(live)
    {
      HeapIsNoneEmpty();
    }

    /** In every state between calls: free blocks, live blocks (descriptors among them) and the pages of big blocks
        are pairwise disjoint, and free and live units add up to the arena's one and those of the list's pages. */
    lemma NothingOverlaps()
      requires Valid()
      ensures forall a | a in live :: Block(a, live[a]) !! FreeSet(units, ring)
      ensures forall a, b | a in live && b in live && a != b :: Block(a, live[a]) !! Block(b, live[b])
      ensures forall i | 0 <= i < |bigblocks| :: PagesApart(units, next, ring, live, bigblocks, i)
      ensures FreeTotal(units, ring) + LiveTotal(live) == PAGE_UNITS * |pages| + 1
    {
      hide *;
      ValidParts();
      HeapValidParts();
      HeapParts(units, next, ring, arena, live, pages);
      AllDisjoint(units, next, ring, arena, live, pages, source.taken, bigblocks);
    }

    lemma ValidWhole()
      requires HeapValid() && BigOk(arena, units, next, live, pages, source.taken, bigblocks)
      ensures Valid()
    {
    }

    lemma OpenParts(d: nat)
      requires Open(d)
      ensures HeapValid() && d in live && d !in bigblocks && NoneEmpty(live)
      ensures BigOk(arena, units, next, live - {d}, pages, source.taken, bigblocks)
    {
      HeapIsNoneEmpty();
    }

    lemma OpenWhole(d: nat)
      requires HeapValid() && d in live && d !in bigblocks
      requires BigOk(arena, units, next, live - {d}, pages, source.taken, bigblocks)
      ensures Open(d)
    {
    }

    /** A block that is not on the big-block list has its length in its header. */
    lemma BecomesOpen(d: nat)
      requires Valid() && d in live && d !in bigblocks
      ensures Open(d) && d in units && units[d] == live[d]
    {
      hide *;
      ValidParts();
      KeptSelf(units, next, live - {d});
      BigWithout(arena, units, next, live, pages, source.taken, bigblocks, units, next, source.taken, d);
      BigHeader(arena, units, next, live, pages, source.taken, bigblocks, d);
      OpenWhole(d);
    }

    /** slob_alloc under the big-block list. */
    method AllocBlock(size: nat) returns (r: nat)
      requires Valid() && size + SLOB_UNIT < PAGE_SIZE && SLOB_UNIT < size
      modifies this`units, this`next, this`slobfree, this`ring, this`live, this`pages, source
      ensures Valid()
      ensures Searched(old(units), old(next), old(ring), old(slobfree), old(pages), old(source.taken), old(source.log),
                       pages, source.taken, source.log, r, Units(size))
      ensures LeftAt(old(slobfree), ring, slobfree, r)
      ensures r == 0 ==> live == old(live)
      ensures r != 0 ==> r !in old(live) && live == old(live)[r := Units(size)] && r !in bigblocks
      ensures WordsKept(old(units), old(next), units, next, old(live))
    {
      hide *;
      ValidParts();
      ghost var units0, next0, live0, pages0, taken0 := units, next, live, pages, source.taken;
      ghost var big0, ring0, from0, log0 := bigblocks, ring, slobfree, source.log;
      BigIsLive(arena, units, next, live, pages, source.taken, bigblocks);
      r := SlobAlloc(size);
      SearchedParts(units0, next0, ring0, from0, pages0, taken0, log0, pages, source.taken, source.log, r, Units(size));
      if r == 0 {
        BigSameLive(arena, units0, next0, live0, pages0, taken0, big0, units, next);
      } else {
        assert r !in bigblocks;
        BigAfterAlloc(arena, units0, next0, live0, pages0, taken0, big0, units, next, pages, source.taken, r,
                      Units(size));
      }
      ValidWhole();
    }

    /** slob_free of a live block: with a size it is written to the header first, without one the header holds it. */
    method ReturnBlock(d: nat, size: nat)
      requires Open(d) && (if size > 0 then Units(size) == live[d] else d in units && units[d] == live[d])
      modifies this`units, this`next, this`slobfree, this`ring, this`live
      ensures Valid() && live == old(live) - {d}
      ensures FreeSet(units, ring) == old(FreeSet(units, ring)) + Block(d, old(live)[d])
      ensures WordsKept(old(units), old(next), units, next, live) && StartsAt(ring, slobfree, d)
    {
      hide *;
      OpenParts(d);
      HeapValidParts();
      ghost var n: nat, units0, next0, ring0, live0 := live[d], units, next, ring, live;
      LiveCanReturn(units, next, ring, arena, live, pages, d);
      FreeListFromHeap(d, n);
      SlobFree(d, size);
      LiveReturned(units0, next0, ring0, units, next, ring, arena, live, pages, d);
      AfterParts(units0, next0, ring0, units, next, ring, arena, d, n);
      FreeListParts();
      live := live - {d};
      HeapValidWhole();
      assert live0 - {d} - {d} == live0 - {d};
      HeapIsNoneEmpty();
      KeptAgain(units0, next0, units, next, live0, d);
      BigWithout(arena, units0, next0, live, pages, source.taken, bigblocks, units, next, source.taken, d);
      ValidWhole();
    }

    /** The pages held for big blocks. */
    ghost function Lent(): set<nat>
      reads this, source
    {
      source.taken - pages
    }

    lemma LentIs()
      ensures Lent() == source.taken - pages
    {
    }

    /** Fills in a descriptor: its order, and the pages of that order or NULL. */
    method GetPages(bb: nat, size: nat) returns (p: nat)
      requires Open(bb)
      modifies this`units, this`next, source
      ensures Open(bb) && bb in units && bb in next && next[bb] == p && units[bb] == OrderFor(size)
      ensures source.log == old(source.log) + [Request(OrderFor(size), p != 0)]
      ensures p == 0 ==> source.taken == old(source.taken)
      ensures p != 0 ==> HoldsRun(arena, pages, old(source.taken), source.taken, p, OrderFor(size))
      ensures BigOk(arena, units, next, live - {bb}, pages, old(source.taken), bigblocks)
      ensures WordsKept(old(units), old(next), units, next, live - {bb})
    {
      hide *;
      OpenParts(bb);
      HeapValidParts();
      ghost var units0, next0, taken0 := units, next, source.taken;
      var order := FindOrder(size);
      units := units[bb := order];
      var run := source.Alloc(order, arena);
      p := if run.Some? then run.value * PAGE_UNITS else 0;
      next := next[bb := p];
      if run.Some? {
        RunHeld(arena, pages, taken0, source.taken, run.value, order);
      }
      WritesElsewhere(units0, next0, ring, arena, live, pages, bb, order, p);
      HeapValidWhole();
      KeptAgain(units0, next0, units, next, live, bb);
      NoneEmptyLess(live, bb);
      assert live - {bb} - {bb} == live - {bb};
      BigWithout(arena, units0, next0, live - {bb}, pages, taken0, bigblocks, units, next, taken0, bb);
      BigWithout(arena, units0, next0, live - {bb}, pages, taken0, bigblocks, units, next, source.taken, bb);
      OpenWhole(bb);
    }

    /** kmalloc for sizes from PAGE_SIZE - SLOB_UNIT on: pages of their own and a descriptor on the big-block list. */
    method AllocBig(size: nat) returns (p: nat)
      requires Valid()
      modifies this`units, this`next, this`slobfree, this`ring, this`live, this`pages, this`bigblocks, source
      ensures Valid()
      ensures WordsKept(old(units), old(next), units, next, old(live))
      ensures |pages| <= |old(pages)| + 1
      ensures BigAsked(old(Fits(units, ring, Units(BIGBLOCK_SIZE))), OrderFor(size), old(source.log), source.log, p)
      ensures exists bb ::
                && DescriptorServed(old(units), old(next), old(ring), old(slobfree), old(pages), old(source.taken),
                                    old(source.log), pages, bb)
                && LeftAt(old(slobfree), ring, slobfree, bb) && (p != 0 ==> bigblocks != [] && bb == bigblocks[0])
      ensures p == 0 ==> live == old(live) && bigblocks == old(bigblocks) && Lent() == old(Lent())
      ensures p != 0 ==>
                && IsBig(next, bigblocks, p, 0) && |bigblocks| > 0 && bigblocks[1..] == old(bigblocks)
                && bigblocks[0] !in old(live) && live == old(live)[bigblocks[0] := 2]
                && bigblocks[0] in units && units[bigblocks[0]] == OrderFor(size) && p % PAGE_UNITS == 0
                && Run(p / PAGE_UNITS, OrderFor(size)) !! old(source.taken)
                && Lent() == old(Lent()) + Run(p / PAGE_UNITS, OrderFor(size))
    {
      hide *;
      DescriptorFits();
      ValidParts();
      HeapValidParts();
      ghost var units0, next0, live0, pages0, taken0, big0 := units, next, live, pages, source.taken, bigblocks;
      ghost var ring0, from0, log0, u := ring, slobfree, source.log, Units(BIGBLOCK_SIZE);
      LentIs();
      var bb := AllocBlock(BIGBLOCK_SIZE);
      SearchedParts(units0, next0, ring0, from0, pages0, taken0, log0, pages, source.taken, source.log, bb, u);
      DescriptorFound(units0, next0, ring0, from0, pages0, taken0, log0, pages, source.taken, source.log, bb);
      ghost var log1 := source.log;
      LentSame(pages0, pages, taken0, source.taken);
      LentIs();
      if bb == 0 {
        BigAskedWhole(Fits(units0, ring0, u), OrderFor(size), log0, log1, log1, bb, 0);
        return 0;
      }
      ghost var units1, next1, taken1 := units, next, source.taken;
      assert live - {bb} == live0;
      BecomesOpen(bb);
      p := GetPages(bb, size);
      BigAskedWhole(Fits(units0, ring0, u), OrderFor(size), log0, log1, source.log, bb, p);
      KeptTwice(units0, next0, units1, next1, units, next, live0);
      OpenParts(bb);
      HeapValidParts();
      if p != 0 {
        RunLent(arena, pages0, taken0, pages, taken1, source.taken, p, OrderFor(size));
        DescribesWhole(arena, units, next, live, pages, taken1, source.taken, bb, p, OrderFor(size));
        BigRegistered(arena, units, next, live, pages, taken1, bigblocks, source.taken, bb);
        bigblocks := [bb] + bigblocks;
        ValidWhole();
        LentIs();
        BigFirst(next, big0, bb);
        assert bigblocks[0] == bb && bigblocks[1..] == big0;
        return;
      }
      ghost var units2, next2 := units, next;
      ReturnBlock(bb, BIGBLOCK_SIZE);
      LeftWhole(from0, ring, slobfree, bb);
      KeptTwice(units0, next0, units2, next2, units, next, live0);
      LentIs();
    }

    /** kmalloc. A small block is live at the unit before the address returned; a big one has pages of its own and a
        descriptor. On failure nothing is handed out. No word of any block handed out before is written. */
    method Kmalloc(size: nat) returns (p: nat)
      requires Valid() && size >= 1 && (size < PAGE_SIZE - SLOB_UNIT ==> size + SLOB_UNIT + SLOB_UNIT < PAGE_SIZE)
      modifies this`units, this`next, this`slobfree, this`ring, this`live, this`pages, this`bigblocks, source
      ensures Valid()
      ensures WordsKept(old(units), old(next), units, next, old(live))
      ensures |pages| <= |old(pages)| + 1
      ensures size < PAGE_SIZE - SLOB_UNIT ==>
                Searched(old(units), old(next), old(ring), old(slobfree), old(pages), old(source.taken),
                         old(source.log), pages, source.taken, source.log, if p == 0 then 0 else p - 1,
                         Units(size + SLOB_UNIT))
                && LeftAt(old(slobfree), ring, slobfree, if p == 0 then 0 else p - 1)
      ensures size >= PAGE_SIZE - SLOB_UNIT ==>
                BigAsked(old(Fits(units, ring, Units(BIGBLOCK_SIZE))), OrderFor(size), old(source.log), source.log, p)
      ensures size >= PAGE_SIZE - SLOB_UNIT ==>
                exists bb ::
                  && DescriptorServed(old(units), old(next), old(ring), old(slobfree), old(pages), old(source.taken),
                                      old(source.log), pages, bb)
                  && LeftAt(old(slobfree), ring, slobfree, bb) && (p != 0 ==> bigblocks != [] && bb == bigblocks[0])
      ensures p == 0 ==> live == old(live) && bigblocks == old(bigblocks) && Lent() == old(Lent())
      ensures p != 0 && size < PAGE_SIZE - SLOB_UNIT ==>
                && IsSmall(live, bigblocks, p) && bigblocks == old(bigblocks) && Lent() == old(Lent())
                && p >= 1 && p - 1 !in old(live) && live == old(live)[p - 1 := Units(size + SLOB_UNIT)]
                && SLOB_UNIT * (live[p - 1] - 1) >= size
      ensures p != 0 && size >= PAGE_SIZE - SLOB_UNIT ==>
                && IsBig(next, bigblocks, p, 0) && |bigblocks| > 0 && bigblocks[1..] == old(bigblocks)
                && bigblocks[0] !in old(live) && live == old(live)[bigblocks[0] := 2]
                && bigblocks[0] in units && units[bigblocks[0]] == OrderFor(size) && p % PAGE_UNITS == 0
                && Run(p / PAGE_UNITS, OrderFor(size)) !! old(source.taken)
                && Lent() == old(Lent()) + Run(p / PAGE_UNITS, OrderFor(size))
    {
      hide *;
      if size < PAGE_SIZE - SLOB_UNIT {
        SmallFits(size);
        ValidParts();
        HeapValidParts();
        ghost var units0, next0, ring0, from0, pages0 := units, next, ring, slobfree, pages;
        ghost var taken0, log0 := source.taken, source.log;
        LentIs();
        var m := AllocBlock(size + SLOB_UNIT);
        SearchedParts(units0, next0, ring0, from0, pages0, taken0, log0, pages, source.taken, source.log, m,
                      Units(size + SLOB_UNIT));
        LentSame(pages0, pages, taken0, source.taken);
        LentIs();
        SmallIs(live, bigblocks, m);
        return if m != 0 then m + 1 else 0;
      }
      p := AllocBig(size);
    }

    /** Unlinks big block i and gives back its pages and its descriptor. */
    method FreeBig(p: nat, i: nat)
      requires Valid() && IsBig(next, bigblocks, p, i)
      modifies this`units, this`next, this`slobfree, this`ring, this`live, this`bigblocks, source
      ensures Valid() && WordsKept(old(units), old(next), units, next, live)
      ensures BigTaken(old(units), old(bigblocks), bigblocks, old(live), live, old(source.taken), source.taken, p, i)
      ensures StartsAtDescriptor(ring, slobfree, old(bigblocks), i)
    {
      hide *;
      ghost var big0, units0, next0, live0, taken0 := bigblocks, units, next, live, source.taken;
      ValidParts();
      HeapValidParts();
      BigParts(arena, units, next, live, pages, source.taken, bigblocks, p, i);
      BigDropped(arena, units, next, live, pages, source.taken, bigblocks, i);
      Sizes();
      var d := bigblocks[i];
      bigblocks := bigblocks[..i] + bigblocks[i + 1..];
      source.Free(p / PAGE_UNITS, units[d]);
      HeapValidWhole();
      OpenWhole(d);
      DescriptorFits();
      ReturnBlock(d, BIGBLOCK_SIZE);
      StartsWhole(ring, slobfree, big0, i);
      BigTakenWhole(units0, big0, bigblocks, live0, live, taken0, source.taken, p, i);
    }

    method FreeSmall(p: nat)
      requires Valid() && IsSmall(live, bigblocks, p)
      modifies this`units, this`next, this`slobfree, this`ring, this`live
      ensures Valid() && live == old(live) - {p - 1} && WordsKept(old(units), old(next), units, next, live)
      ensures FreeSet(units, ring) == old(FreeSet(units, ring)) + Block(p - 1, old(live)[p - 1])
      ensures StartsAt(ring, slobfree, p - 1)
    {
      hide Valid, Open, FreeSet, Block, WordsKept, StartsAt;
      BecomesOpen(p - 1);
      ReturnBlock(p - 1, 0);
    }

    /** kfree takes back exactly what kmalloc handed out: the small block in front of the address, or the pages
        that start there together with their descriptor. */
    method Kfree(p: nat)
      requires Valid() && (p == 0 || IsSmall(live, bigblocks, p) || exists i :: IsBig(next, bigblocks, p, i))
      modifies this`units, this`next, this`slobfree, this`ring, this`live, this`bigblocks, source
      ensures Valid() && WordsKept(old(units), old(next), units, next, live)
      ensures p == 0 ==> live == old(live) && bigblocks == old(bigblocks) && source.taken == old(source.taken)
                         && units == old(units) && next == old(next) && slobfree == old(slobfree)
      ensures old(IsSmall(live, bigblocks, p)) ==>
                && p - 1 in old(live) && live == old(live) - {p - 1}
                && bigblocks == old(bigblocks) && source.taken == old(source.taken)
                && FreeSet(units, ring) == old(FreeSet(units, ring)) + Block(p - 1, old(live)[p - 1])
                && StartsAt(ring, slobfree, p - 1)
      ensures forall i :: old(IsBig(next, bigblocks, p, i)) ==>
                BigTaken(old(units), old(bigblocks), bigblocks, old(live), live, old(source.taken), source.taken, p, i)
      ensures forall i :: old(IsBig(next, bigblocks, p, i)) ==> StartsAtDescriptor(ring, slobfree, old(bigblocks), i)
    {
      hide *;
      Sizes();
      SmallParts(live, bigblocks, p);
      ghost var big: nat :| p == 0 || IsSmall(live, bigblocks, p) || IsBig(next, bigblocks, p, big);
      if p == 0 {
        BigOnlyIf(p, 0);
        KeptSelf(units, next, live);
        return;
      }
      if And(p * SLOB_UNIT, PAGE_SIZE - 1) == 0 {
        var i := 0;
        while i < |bigblocks|
          invariant i <= |bigblocks| && Valid() && forall j: nat | j < i :: !IsBig(next, bigblocks, p, j)
          modifies {}
        {
          BigWords(p, i);
          if next[bigblocks[i]] == p {
            break;
          }
          i := i + 1;
        }
        if i < |bigblocks| {
          BigWords(p, i);
          BigAlone(p, i);
          FreeBig(p, i);
          return;
        }
        BigOnlyIf(p, i);
      } else {
        BigOnlyIf(p, 0);
      }
      assert !IsBig(next, bigblocks, p, big);
      FreeSmall(p);
    }

    /** What kmalloc hands out, kfree can take back at once, and then nobody holds anything they did not hold before.
        Unless a page was added to it, the list is the same, too. */
    method AllocFree(size: nat)
      requires Valid() && size >= 1 && (size < PAGE_SIZE - SLOB_UNIT ==> size + SLOB_UNIT + SLOB_UNIT < PAGE_SIZE)
      modifies this`units, this`next, this`slobfree, this`ring, this`live, this`pages, this`bigblocks, source
      ensures Valid() && live == old(live) && bigblocks == old(bigblocks) && Lent() == old(Lent())
      ensures pages == old(pages) ==> SameList(old(units), old(next), old(ring), units, next, ring)
    {
      hide *;
      ghost var units0, next0, ring0, pages0 := units, next, ring, pages;
      ValidParts();
      HeapValidParts();
      AllocThenFree(size);
      ValidParts();
      HeapValidParts();
      if pages == pages0 {
        HeapDetermined(units0, next0, ring0, units, next, ring, arena, live, pages);
      }
    }

    method AllocThenFree(size: nat)
      requires Valid() && size >= 1 && (size < PAGE_SIZE - SLOB_UNIT ==> size + SLOB_UNIT + SLOB_UNIT < PAGE_SIZE)
      modifies this`units, this`next, this`slobfree, this`ring, this`live, this`pages, this`bigblocks, source
      ensures Valid() && live == old(live) && bigblocks == old(bigblocks) && Lent() == old(Lent())
    {
      hide *;
      Sizes();
      LentIs();
      ghost var live0, big0 := live, bigblocks;
      var p := Kmalloc(size);
      SmallParts(live, bigblocks, p);
      LentIs();
      ghost var units1, big1, live1, taken1, lent1 := units, bigblocks, live, source.taken, Lent();
      ValidParts();
      HeapValidParts();
      if p != 0 && size >= PAGE_SIZE - SLOB_UNIT {
        BigParts(arena, units, next, live, pages, source.taken, bigblocks, p, 0);
        BigAlone(p, 0);
      }
      Kfree(p);
      LentIs();
      if p != 0 && size >= PAGE_SIZE - SLOB_UNIT {
        BigTakenParts(units1, big1, bigblocks, live1, live, taken1, source.taken, p, 0);
        assert [] + big1[1..] == big0;
      }
    }

    /** Only listed descriptors of page-aligned addresses can be found. */
    lemma BigOnlyIf(p: nat, n: nat)
      requires Valid() && forall j: nat | j < n :: !IsBig(next, bigblocks, p, j)
      ensures n >= |bigblocks| || p == 0 || And(p * SLOB_UNIT, PAGE_SIZE - 1) != 0 ==>
                forall i :: !IsBig(next, bigblocks, p, i)
    {
      PageAligned(p);
      forall i | IsBig(next, bigblocks, p, i)
        ensures p != 0 && n < |bigblocks| && And(p * SLOB_UNIT, PAGE_SIZE - 1) == 0
      {
        BigParts(arena, units, next, live, pages, source.taken, bigblocks, p, i);
      }
    }

    lemma BigWords(p: nat, i: nat)
      requires Valid() && i < |bigblocks|
      ensures bigblocks[i] in next && (IsBig(next, bigblocks, p, i) <==> next[bigblocks[i]] == p)
    {
      assert Describes(arena, units, next, live, pages, source.taken, bigblocks[i]);
    }

    lemma BigAlone(p: nat, i: nat)
      requires Valid() && IsBig(next, bigblocks, p, i)
      ensures !IsSmall(live, bigblocks, p) && forall j | IsBig(next, bigblocks, p, j) :: j == i
    {
      hide *;
      ValidParts();
      HeapValidParts();
      if IsSmall(live, bigblocks, p) {
        SmallIsNotBig(units, next, ring, arena, live, pages, source.taken, bigblocks, p, i);
      }
      forall j | IsBig(next, bigblocks, p, j) ensures j == i {
        BigIsUnique(arena, units, next, live, pages, source.taken, bigblocks, p, i, j);
      }
    }

    lemma LinkInReady(b: nat, cur: nat, n: nat)
      requires FreeListOk() && b in units && units[b] == n && CanReturn(b, n)
      requires Predecessor(ring, b) < |ring| && cur == ring[Predecessor(ring, b)]
      ensures cur in units && cur in next && cur != b && next[cur] in units && next[cur] in next
      ensures Position(ring, b) <= |ring|
      ensures AfterReturn(units, next, ring, CoalescedUnits(units, next, cur, b), CoalescedNext(units, next, cur, b),
                          Returned(units, ring, Position(ring, b), b, n), arena, b, n)
      ensures cur in Returned(units, ring, Position(ring, b), b, n)
    {
      LinkInEffect(units, next, ring, arena, b, n, cur);
    }

    lemma LinkInStarts(b: nat, cur: nat, n: nat)
      requires FreeListOk() && b in units && units[b] == n && CanReturn(b, n)
      requires Predecessor(ring, b) < |ring| && cur == ring[Predecessor(ring, b)]
      ensures StartsAt(Returned(units, ring, Position(ring, b), b, n), cur, b)
    {
      hide *;
      LinkInReady(b, cur, n);
      LinkInFits(b, n);
      ReturnedStarts(units, ring, Position(ring, b), b, n, cur);
    }

    lemma LinkInFits(b: nat, n: nat)
      requires FreeListOk() && CanReturn(b, n)
      ensures ring != [] && Returnable(units, ring, Position(ring, b), b, n)
      ensures ring[Predecessor(ring, b)]
           == if Position(ring, b) == 0 then ring[|ring| - 1] else ring[Position(ring, b) - 1]
    {
      DisjointIsOutside(units, ring, b, n);
      PositionSplits(units, ring, b, n);
    }

    lemma FreeListWhole()
      requires ListOk(units, next, ring, arena) && slobfree in ring
      ensures FreeListOk()
    {
    }
  }
}
