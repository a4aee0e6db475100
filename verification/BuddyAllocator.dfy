/** The buddy page allocator of lab2/kern/mm/buddy_pmm.c. Pages are indices from the managed base. */
module BuddyAllocator {
  import opened Bits
  import opened BuddyLayout
  import opened BuddyTheory
  import opened FreeLists
  import opened Wrappers

  const MAX_BUDDY_PAGES: nat := Pow2(MAX_ORDER)

  /** Each order's counter is the number of pages on its list. */
  ghost predicate Counted(nr: seq<nat>, free: seq<seq<nat>>) {
    |nr| == |free| == MAX_ORDER + 1 && forall o | 0 <= o <= MAX_ORDER :: nr[o] == BlockPages(o, |free[o]|)
  }

  /** s' is s with the entries from a to a + c overwritten by v. */
  ghost predicate Overwritten(s: seq<nat>, s': seq<nat>, a: nat, c: nat, v: nat) {
    |s'| == |s| && forall p | 0 <= p < |s| :: s'[p] == if a <= p < a + c then v else s[p]
  }

  /** The invariant between calls, and within a call while one block (order o) is in transit. */
  ghost predicate Sound(L: Layout, flag: seq<bool>, order: seq<nat>, nr: seq<nat>, o: Option<nat>) {
    && Consistent(L) && Coalesced(L)
    && Marks(L, flag, order) && GuardPastEnd(L.k, flag, order)
    && Counted(nr, L.free)
    && FreePages(L.free) + LivePages(L.live) + (if o.Some? then Pow2(o.value) else 0) == Pow2(L.k)
  }

  ghost predicate InTransit(L: Layout, flag: seq<bool>, order: seq<nat>, nr: seq<nat>, i: nat, o: nat) {
    Sound(L, flag, order, nr, Some(o)) && L.held == {i} && i in L.blk && L.blk[i] == o
  }

  // ---------- How the steps carry the whole invariant ----------

  lemma CountLonger(nr: seq<nat>, free: seq<seq<nat>>, o: nat, s: seq<nat>)
    requires Counted(nr, free) && o <= MAX_ORDER && |s| == |free[o]| + 1
    ensures Counted(nr[o := nr[o] + Pow2(o)], free[o := s])
  {
  }

  lemma CountShorter(nr: seq<nat>, free: seq<seq<nat>>, o: nat, s: seq<nat>)
    requires Counted(nr, free) && o <= MAX_ORDER && |s| + 1 == |free[o]|
    ensures nr[o] >= Pow2(o)
    ensures Counted(nr[o := nr[o] - Pow2(o)], free[o := s])
  {
  }

  lemma InRangeOf(L: Layout, i: nat)
    requires Consistent(L) && i in L.blk
    ensures InRange(L.k, i, L.blk[i]) && |L.free| == MAX_ORDER + 1 && L.k <= MAX_ORDER
  {
  }

  lemma TransitParts(L: Layout, flag: seq<bool>, order: seq<nat>, nr: seq<nat>, i: nat, o: nat)
    requires InTransit(L, flag, order, nr, i, o)
    ensures Consistent(L) && Coalesced(L) && Marks(L, flag, order) && GuardPastEnd(L.k, flag, order)
    ensures Counted(nr, L.free) && FreePages(L.free) + LivePages(L.live) + Pow2(o) == Pow2(L.k)
    ensures i in L.blk && L.blk[i] == o && i in L.held && L.held == {i} && |L.free| == |nr| == MAX_ORDER + 1
    ensures L.k <= MAX_ORDER && o <= L.k && i + Pow2(o) <= Pow2(L.k) && InRange(L.k, i, o)
  {
  }

  lemma TransitBounds(L: Layout, flag: seq<bool>, order: seq<nat>, nr: seq<nat>, i: nat, o: nat)
    requires InTransit(L, flag, order, nr, i, o)
    ensures o <= L.k <= MAX_ORDER && |L.free| == |nr| == MAX_ORDER + 1
    ensures i in L.blk && L.blk[i] == o && L.held == {i}
    ensures i + Pow2(o) <= Pow2(L.k) <= Pow2(MAX_ORDER) && i < Pow2(MAX_ORDER)
    ensures Pow2(L.k) <= |flag| && i < |flag|
  {
    assert InRange(L.k, i, o);
    Pow2Mono(L.k, MAX_ORDER);
  }

  lemma TransitWhole(L: Layout, flag: seq<bool>, order: seq<nat>, nr: seq<nat>, i: nat, o: nat)
    requires Consistent(L) && Coalesced(L) && Marks(L, flag, order) && GuardPastEnd(L.k, flag, order)
    requires Counted(nr, L.free) && FreePages(L.free) + LivePages(L.live) + Pow2(o) == Pow2(L.k)
    requires i in L.blk && L.blk[i] == o && L.held == {i}
    ensures InTransit(L, flag, order, nr, i, o)
  {
  }

  lemma ConsistentParts(L: Layout)
    requires Consistent(L)
    ensures ListsOk(L) && L.live.Keys <= L.blk.Keys
    ensures forall i | i in L.blk :: InRange(L.k, i, L.blk[i]) && L.blk[i] <= L.k <= MAX_ORDER
  {
  }

  /** Marking pages of the managed region leaves the page behind it alone. */
  lemma GuardKept(k: nat, flag: seq<bool>, order: seq<nat>, i: nat, b: bool, order': seq<nat>, a: nat, c: nat, v: nat)
    requires GuardPastEnd(k, flag, order) && i < |flag| && i < Pow2(k) && a + c <= Pow2(k)
    requires Overwritten(order, order', a, c, v)
    ensures GuardPastEnd(k, flag[i := b], order')
  {
  }

  lemma TakeMarks(L: Layout, flag: seq<bool>, order: seq<nat>, i: nat, o: nat)
    requires ListsOk(L) && Marks(L, flag, order) && IsFree(L, i, o)
    ensures Marks(Take(L, i, o), flag, order)
  {
    WithoutFacts(L.free[o], i);
    assert forall c: nat, j: nat :: IsFree(Take(L, i, o), j, c) ==> IsFree(L, j, c);
  }

  lemma TakeCounts(L: Layout, nr: seq<nat>, i: nat, o: nat)
    requires ListsOk(L) && Counted(nr, L.free) && IsFree(L, i, o)
    ensures nr[o] >= Pow2(o)
    ensures Counted(nr[o := nr[o] - Pow2(o)], Take(L, i, o).free)
    ensures FreePages(Take(L, i, o).free) + Pow2(o) == FreePages(L.free)
  {
    WithoutFacts(L.free[o], i);
    CountShorter(nr, L.free, o, Without(L.free[o], i));
    RelistShorter(L.free, o, Without(L.free[o], i));
  }

  lemma TakeStep(L: Layout, flag: seq<bool>, order: seq<nat>, nr: seq<nat>, i: nat, o: nat)
    requires Sound(L, flag, order, nr, None) && L.held == {} && IsFree(L, i, o)
    ensures nr[o] >= Pow2(o)
    ensures InTransit(Take(L, i, o), flag, order, nr[o := nr[o] - Pow2(o)], i, o)
  {
    hide Coalesced, Marks, Counted, GuardPastEnd, Tiling, LiveOk, NoneLost;
    TakeKeeps(L, i, o);
    TakeMarks(L, flag, order, i, o);
    TakeCounts(L, nr, i, o);
  }

  lemma SplitListing(L: Layout, i: nat)
    requires Consistent(L) && i in L.held && L.blk[i] > 0
    ensures i + Pow2(L.blk[i] - 1) !in L.blk
    ensures SplitListed(L, Split(L, i), i)
  {
    assert InRange(L.k, i, L.blk[i]);
    HalveApart(L.blk, i);
    SplitLists(L, i);
  }

  /** The facts about the other blocks that marking one block's pages relies on. */
  ghost predicate OthersOutside(L: Layout, i: nat) {
    i in L.blk &&
    (forall o: nat, j: nat :: IsFree(L, j, o) && j != i ==> j < i || i + Pow2(L.blk[i]) <= j) &&
    (forall j :: j in L.live ==> j in L.blk)
  }

  lemma HeadsOutside(L: Layout, i: nat)
    requires Consistent(L) && i in L.blk
    ensures OthersOutside(L, i)
  {
  }

  /** Listing one block u and giving its pages its order keeps every listed head marked, as the other
      listed heads lie elsewhere. */
  lemma MarksWithNew(L: Layout, L': Layout, flag: seq<bool>, order: seq<nat>, order': seq<nat>, u: nat, o: nat)
    requires Marks(L, flag, order) && u < |flag| && Overwritten(order, order', u, Pow2(o), o)
    requires forall c: nat, j: nat ::
               IsFree(L', j, c) ==> (j == u && c == o) || (IsFree(L, j, c) && (j < u || u + Pow2(o) <= j))
    requires L'.k == L.k && L'.live == L.live && u !in L.live
    ensures Marks(L', flag[u := true], order')
  {
    hide Pow2, IsFree, Described;
  }

  lemma SplitMarks(L: Layout, flag: seq<bool>, order: seq<nat>, order': seq<nat>, i: nat, c: nat)
    requires Consistent(L) && Marks(L, flag, order) && i in L.held && i in L.blk && L.blk[i] == c + 1
    requires var u := i + Pow2(c); u < |flag| && Overwritten(order, order', u, Pow2(c), c)
    ensures Marks(Split(L, i), flag[i + Pow2(c) := true], order')
  {
    hide *;
    ConsistentParts(L);
    InRangeOf(L, i);
    SplitFields(L, i);
    SplitListing(L, i);
    HeadsOutside(L, i);
    SplitHeads(L, i, c);
    MarksWithNew(L, Split(L, i), flag, order, order', i + Pow2(c), c);
  }

  lemma SplitHeads(L: Layout, i: nat, c: nat)
    requires ListsOk(L) && OthersOutside(L, i) && L.blk[i] == c + 1 && i in L.held && c <= MAX_ORDER
    requires SplitListed(L, Split(L, i), i)
    ensures forall o: nat, j: nat :: IsFree(Split(L, i), j, o) ==>
              (j == i + Pow2(c) && o == c) || (IsFree(L, j, o) && (j < i + Pow2(c) || i + Pow2(c) + Pow2(c) <= j))
  {
    Doubling(c);
    hide Pow2;
  }

  lemma SplitCounts(L: Layout, nr: seq<nat>, i: nat, c: nat)
    requires Counted(nr, L.free) && i in L.blk && L.blk[i] == c + 1 && c <= MAX_ORDER
    ensures Counted(nr[c := nr[c] + Pow2(c)], Split(L, i).free)
    ensures FreePages(Split(L, i).free) == FreePages(L.free) + Pow2(c)
  {
    CountedSizes(nr, L.free);
    hide Counted, FreePages, Halve;
    var list := [i + Pow2(c)] + L.free[c];
    assert Split(L, i).free == L.free[c := list];
    hide *;
    CountLonger(nr, L.free, c, list);
    RelistLonger(L.free, c, list);
  }

  lemma CountedSizes(nr: seq<nat>, free: seq<seq<nat>>)
    requires Counted(nr, free)
    ensures |nr| == |free| == MAX_ORDER + 1
  {
  }

  lemma SplitFields(L: Layout, i: nat)
    requires i in L.blk && 0 < L.blk[i] <= |L.free|
    ensures Split(L, i).k == L.k && Split(L, i).live == L.live && Split(L, i).held == L.held
  {
  }

  lemma SplitStep(L: Layout, flag: seq<bool>, order: seq<nat>, nr: seq<nat>, order': seq<nat>, i: nat, c: nat)
    requires InTransit(L, flag, order, nr, i, c + 1) && c < MAX_ORDER
    requires var u := i + Pow2(c); u < |flag| && Overwritten(order, order', u, Pow2(c), c)
    ensures InTransit(Split(L, i), flag[i + Pow2(c) := true], order', nr[c := nr[c] + Pow2(c)], i, c)
  {
    hide *;
    TransitParts(L, flag, order, nr, i, c + 1);
    Doubling(c);
    GuardKept(L.k, flag, order, i + Pow2(c), true, order', i + Pow2(c), Pow2(c), c);
    SplitFields(L, i);
    SplitKeeps(L, i);
    SplitMarks(L, flag, order, order', i, c);
    SplitCounts(L, nr, i, c);
    TransitWhole(Split(L, i), flag[i + Pow2(c) := true], order', nr[c := nr[c] + Pow2(c)], i, c);
  }

  lemma Doubling(c: nat)
    ensures Pow2(c + 1) == 2 * Pow2(c)
  {
  }

  lemma CommitMarks(L: Layout, flag: seq<bool>, order: seq<nat>, i: nat, n: nat)
    requires ListsOk(L) && Marks(L, flag, order) && i in L.held && i < |flag|
    ensures Marks(Commit(L, i, n), flag[i := false], order)
  {
    assert forall o: nat, j: nat :: IsFree(Commit(L, i, n), j, o) ==> IsFree(L, j, o);
  }

  lemma CommitStep(L: Layout, flag: seq<bool>, order: seq<nat>, nr: seq<nat>, i: nat, n: nat)
    requires n >= 1 && InTransit(L, flag, order, nr, i, OrderOf(n)) && i < |flag|
    ensures Sound(Commit(L, i, n), flag[i := false], order, nr, None) && Commit(L, i, n).held == {}
    ensures i !in L.live
  {
    CommitMarks(L, flag, order, i, n);
    InRangeOf(L, i);
    hide Coalesced, Marks, Counted, Tiling, ListsOk, NoneLost;
    CommitKeeps(L, i, n);
    LivePagesAdd(L.live, i, n);
    GuardKept(L.k, flag, order, i, false, order, 0, 0, 0);
  }

  lemma ReleaseMarks(L: Layout, flag: seq<bool>, order: seq<nat>, order': seq<nat>, i: nat, o: nat)
    requires ListsOk(L) && Marks(L, flag, order) && OthersOutside(L, i) && i in L.live && i < |flag|
    requires L.blk[i] == o && Overwritten(order, order', i, Pow2(o), o)
    ensures Marks(Release(L, i), flag[i := true], order')
  {
    assert forall c: nat, j: nat :: IsFree(Release(L, i), j, c) ==> IsFree(L, j, c);
  }

  lemma SoundParts(L: Layout, flag: seq<bool>, order: seq<nat>, nr: seq<nat>)
    requires Sound(L, flag, order, nr, None)
    ensures Consistent(L) && Coalesced(L) && Marks(L, flag, order) && GuardPastEnd(L.k, flag, order)
    ensures Counted(nr, L.free) && FreePages(L.free) + LivePages(L.live) == Pow2(L.k)
  {
  }

  lemma LiveBlock(L: Layout, i: nat)
    requires Consistent(L) && i in L.live
    ensures ListsOk(L) && i in L.blk && L.blk[i] == OrderOf(L.live[i]) && i + Pow2(L.blk[i]) <= Pow2(L.k)
    ensures i < Pow2(L.k)
  {
    hide NoneLost, Tiling;
    assert InRange(L.k, i, L.blk[i]) by {
      InRangeOf(L, i);
    }
  }

  lemma ReleaseFields(L: Layout, i: nat)
    ensures var R := Release(L, i);
            && R.k == L.k && R.blk == L.blk && R.free == L.free && R.live == L.live - {i}
            && (L.held == {} ==> R.held == {i})
  {
  }

  lemma ReleaseStep(L: Layout, flag: seq<bool>, order: seq<nat>, nr: seq<nat>, order': seq<nat>, i: nat, o: nat)
    requires Sound(L, flag, order, nr, None) && L.held == {} && i in L.live && i < |flag| && i < |order|
    requires o == OrderOf(L.live[i]) && Overwritten(order, order', i, Pow2(o), o)
    ensures InTransit(Release(L, i), flag[i := true], order', nr, i, o)
  {
    hide *;
    SoundParts(L, flag, order, nr);
    LiveBlock(L, i);
    HeadsOutside(L, i);
    ReleaseMarks(L, flag, order, order', i, o);
    ReleaseKeeps(L, i);
    ReleaseFields(L, i);
    LivePagesRemove(L.live, i);
    GuardKept(L.k, flag, order, i, true, order', i, Pow2(o), o);
    TransitWhole(Release(L, i), flag[i := true], order', nr, i, o);
  }

  /** What the fused block's pages are marked with; the marked block covers both old ones. */
  lemma JoinMarks(L: Layout, flag: seq<bool>, order: seq<nat>, order': seq<nat>, i: nat, o: nat, h: nat)
    requires ListsOk(L) && Marks(L, flag, order) && Fusable(L, i, o, h)
    requires OthersOutside(L, i) && OthersOutside(L, Buddy(i, o)) && L.blk[Buddy(i, o)] == o
    requires JoinListed(L, Join(L, i), Buddy(i, o))
    requires Overwritten(order, order', h, Pow2(o + 1), o + 1)
    ensures Marks(Join(L, i), flag, order')
  {
    var L' := Join(L, i);
    forall c: nat, j: nat | IsFree(L', j, c) && j < |flag| && j < |order'| ensures flag[j] && order'[j] == c {
      assert IsFree(L, j, c) && j != Buddy(i, o) && j != i;
    }
  }

  lemma JoinCounts(L: Layout, nr: seq<nat>, i: nat, o: nat)
    requires ListsOk(L) && Counted(nr, L.free) && i in L.blk && L.blk[i] == o && IsFree(L, Buddy(i, o), o)
    ensures nr[o] >= Pow2(o)
    ensures Counted(nr[o := nr[o] - Pow2(o)], Join(L, i).free)
    ensures FreePages(Join(L, i).free) + Pow2(o) == FreePages(L.free)
  {
    WithoutFacts(L.free[o], Buddy(i, o));
    CountShorter(nr, L.free, o, Without(L.free[o], Buddy(i, o)));
    RelistShorter(L.free, o, Without(L.free[o], Buddy(i, o)));
  }

  /** What the merge test establishes when it succeeds. */
  lemma MergeTestFusable(L: Layout, flag: seq<bool>, order: seq<nat>, nr: seq<nat>, i: nat, o: nat)
    requires InTransit(L, flag, order, nr, i, o) && o < MAX_ORDER && MergeTest(flag, order, i, o)
    ensures Fusable(L, i, o, Lower(i, o)) && L.blk[Buddy(i, o)] == o
    ensures OthersOutside(L, i) && OthersOutside(L, Buddy(i, o))
    ensures JoinListed(L, Join(L, i), Buddy(i, o))
  {
    InRangeOf(L, i);
    MergeTestIsExact(L, flag, order, i);
    Halves(L.k, i, o);
    JoinLists(L, i, o, Lower(i, o));
    HeadsOutside(L, i);
    HeadsOutside(L, Buddy(i, o));
  }

  lemma JoinFields(L: Layout, i: nat)
    requires i in L.blk && L.blk[i] < |L.free| && L.held == {i}
    ensures var L', h := Join(L, i), Lower(i, L.blk[i]);
            L'.k == L.k && L'.live == L.live && L'.held == {h} && h in L'.blk && L'.blk[h] == L.blk[i] + 1
  {
  }

  lemma JoinStep(L: Layout, flag: seq<bool>, order: seq<nat>, nr: seq<nat>, order': seq<nat>, i: nat, o: nat)
    requires InTransit(L, flag, order, nr, i, o) && o < MAX_ORDER && MergeTest(flag, order, i, o)
    requires Overwritten(order, order', Lower(i, o), Pow2(o + 1), o + 1)
    ensures nr[o] >= Pow2(o)
    ensures InTransit(Join(L, i), flag, order', nr[o := nr[o] - Pow2(o)], Lower(i, o), o + 1)
  {
    hide *;
    TransitParts(L, flag, order, nr, i, o);
    Doubling(o);
    MergeTestFusable(L, flag, order, nr, i, o);
    FusableParts(L, i, o);
    JoinMarks(L, flag, order, order', i, o, Lower(i, o));
    JoinCounts(L, nr, i, o);
    JoinGuard(L, flag, order, order', i, o);
    JoinFields(L, i);
    JoinKeeps(L, i);
    TransitWhole(Join(L, i), flag, order', nr[o := nr[o] - Pow2(o)], Lower(i, o), o + 1);
  }

  lemma FusableParts(L: Layout, i: nat, o: nat)
    requires Consistent(L) && Fusable(L, i, o, Lower(i, o))
    ensures ListsOk(L) && o < L.k && IsFree(L, Buddy(i, o), o)
  {
  }

  lemma JoinGuard(L: Layout, flag: seq<bool>, order: seq<nat>, order': seq<nat>, i: nat, o: nat)
    requires Fusable(L, i, o, Lower(i, o)) && GuardPastEnd(L.k, flag, order)
    requires Overwritten(order, order', Lower(i, o), Pow2(o + 1), o + 1)
    ensures GuardPastEnd(L.k, flag, order')
  {
  }

  lemma PutMarks(L: Layout, flag: seq<bool>, order: seq<nat>, i: nat)
    requires Consistent(L) && Marks(L, flag, order) && i in L.held && i < |flag| && i < |order|
    requires flag[i] && order[i] == L.blk[i]
    ensures Marks(Put(L, i), flag, order)
  {
    PutLists(L, i);
  }

  lemma PutStep(L: Layout, flag: seq<bool>, order: seq<nat>, nr: seq<nat>, i: nat, o: nat)
    requires InTransit(L, flag, order, nr, i, o) && i < |flag| && i < |order| && flag[i] && order[i] == o
    requires o < MAX_ORDER ==> !MergeTest(flag, order, i, o)
    ensures o <= MAX_ORDER
    ensures Sound(Put(L, i), flag, order, nr[o := nr[o] + Pow2(o)], None) && Put(L, i).held == {}
  {
    InRangeOf(L, i);
    PutMarks(L, flag, order, i);
    if o < MAX_ORDER {
      MergeTestIsExact(L, flag, order, i);
    }
    PutKeeps(L, i);
    CountLonger(nr, L.free, o, [i] + L.free[o]);
    RelistLonger(L.free, o, [i] + L.free[o]);
  }

  // ---------- The lists while merging ----------

  lemma NotHalvedYet(free: seq<seq<nat>>, page: nat, c: nat)
    ensures Halved(free, free, page, c, c)
  {
  }

  lemma NoneUnlisted(free: seq<seq<nat>>, p: nat, o: nat)
    ensures Unlisted(free, free, p, o, o)
  {
  }

  lemma LiveAligned(L: Layout, flag: seq<bool>, order: seq<nat>, nr: seq<nat>, p: nat, o: nat)
    requires InTransit(L, flag, order, nr, p, o)
    ensures p == Down(p, o)
  {
    hide *;
    TransitParts(L, flag, order, nr, p, o);
    RangeAligned(L.k, p, o);
  }

  lemma RangeAligned(k: nat, p: nat, o: nat)
    requires InRange(k, p, o)
    ensures p == Down(p, o)
  {
    hide Down, Divides;
    DownIs(p, o, p);
  }

  lemma JoinUnlists(L: Layout, flag: seq<bool>, order: seq<nat>, nr: seq<nat>, free: seq<seq<nat>>, p: nat, r: nat,
                    o: nat)
    requires InTransit(L, flag, order, nr, Down(p, o), o) && r <= o < MAX_ORDER && MergeTest(flag, order, Down(p, o), o)
    requires Unlisted(free, L.free, p, r, o)
    ensures var i := Down(p, o);
            && i in L.blk && L.blk[i] == o && o < |L.free| && L.held == {i} && Lower(i, o) == Down(p, o + 1)
            && Unlisted(free, Join(L, i).free, p, r, o + 1)
  {
    var i := Down(p, o);
    hide *;
    TransitParts(L, flag, order, nr, i, o);
    MergedBounds(L, flag, order, nr, i, o);
    MergeTestFusable(L, flag, order, nr, i, o);
    FusableParts(L, i, o);
    Around(L.k, p, o);
    SameLength(free, L.free, p, r, o);
    UnlistedFurther(free, L.free, p, r, o, Buddy(i, o));
    JoinedList(L, i, o);
  }

  lemma SameLength(free: seq<seq<nat>>, free': seq<seq<nat>>, p: nat, r: nat, o: nat)
    requires Unlisted(free, free', p, r, o)
    ensures |free| == |free'|
  {
  }

  lemma JoinedList(L: Layout, i: nat, o: nat)
    requires i in L.blk && L.blk[i] == o && o < |L.free|
    ensures Join(L, i).free == L.free[o := Without(L.free[o], Buddy(i, o))]
  {
  }

  lemma MergeEnds(L: Layout, flag: seq<bool>, order: seq<nat>, nr: seq<nat>, p: nat, i: nat, o: nat)
    requires InTransit(L, flag, order, nr, i, o) && i == Down(p, o)
    requires o < MAX_ORDER ==> !MergeTest(flag, order, i, o)
    ensures |L.free| == MAX_ORDER + 1 && o <= MAX_ORDER && (o + 1 < |L.free| ==> OtherHalf(p, o) !in L.free[o])
  {
    hide *;
    TransitParts(L, flag, order, nr, i, o);
    if o < MAX_ORDER {
      MergeStops(L, flag, order, p, o);
    }
  }

  // ---------- The allocator ----------

  class Allocator {
    const flag: array<bool>     // PG_property of each page descriptor
    const size: array<nat>      // the property field of each page descriptor
    const order: array<nat>     // buddy_order
    const nr: array<nat>        // nr_free of each free area
    const lists: Lists          // free_list of each free area, through the page descriptors
    ghost var k: nat
    ghost var blk: map<nat, nat>
    ghost var live: map<nat, nat>

    ghost function View(): Layout
      reads this, lists
    {
      Layout(k, blk, lists.free, live, {})
    }

    /** The descriptors and tables belong together; the lists may hold anything. */
    ghost predicate Bare()
      reads this, lists
    {
      && flag.Length == size.Length == |lists.links| && lists.Apart() && |lists.free| == MAX_ORDER + 1
      && order.Length == MAX_BUDDY_PAGES && nr.Length == MAX_ORDER + 1
      && order != nr && order != size && nr != size
    }

    ghost predicate Shape()
      reads this, lists, lists.Entries()
    {
      Bare() && lists.Valid()
    }

    ghost predicate Valid()
      reads this, lists, lists.Entries(), flag, order, nr
    {
      Shape() && Sound(View(), flag[..], order[..], nr[..], None)
    }

    /** The page descriptors and the heads of the lists come from the machine, with arbitrary contents. */
    constructor (flag: array<bool>, size: array<nat>, lists: Lists)
      requires flag.Length == size.Length == |lists.links| && lists.Apart() && |lists.free| == MAX_ORDER + 1
      ensures Bare() && this.flag == flag && this.size == size && this.lists == lists && fresh(order) && fresh(nr)
    {
      this.flag, this.size, this.lists := flag, size, lists;
      order := new nat[MAX_BUDDY_PAGES];
      nr := new nat[MAX_ORDER + 1];
    }

    /** get_order */
    static method GetOrder(n: nat) returns (o: nat)
      ensures o == OrderOf(n)
    {
      o := 0;
      var sz := 1;
      while sz < n
        invariant sz == Pow2(o)
        invariant o > 0 ==> Pow2(o - 1) < n
        decreases n - sz
      {
        o := o + 1;
        sz := sz * 2;
      }
      OrderOfUnique(n, o);
    }

    /** buddy_nr_free_pages: everything that is not in a live block. */
    method NrFreePages() returns (total: nat)
      requires Valid()
      ensures total + LivePages(live) == Pow2(k)
    {
      total := 0;
      for i := 0 to MAX_ORDER + 1
        invariant total == FreeUpTo(lists.free, i)
      {
        total := total + nr[i];
      }
    }

    /** buddy_init */
    method Init()
      requires Bare()
      modifies lists`free, lists.Entries(), nr, order
      ensures Shape() && lists.free == NoLists()
      ensures forall o | 0 <= o <= MAX_ORDER :: nr[o] == 0
      ensures forall p | 0 <= p < order.Length :: order[p] == 0
    {
      for i := 0 to MAX_ORDER + 1
        invariant Bare()
        invariant forall o: nat | o < i :: lists.free[o] == [] && nr[o] == 0 && lists.Links(o, [])
      {
        lists.InitHead(i);
        nr[i] := 0;
      }
      forall p | 0 <= p < order.Length {
        order[p] := 0;
      }
      assert lists.free == NoLists();
    }

    /** buddy_init_memmap, right after buddy_init, on n page descriptors: the largest power-of-two prefix
        becomes one listed block. The allocator is then sound unless the region is a single page whose
        successor carries the free flag. A region that is a power of two below the highest order must have one more
        descriptor behind it, which freeing looks at. */
    method InitMemmap(n: nat)
      requires Shape() && 1 <= n <= flag.Length && lists.free == NoLists()
      requires n < flag.Length || forall m | 0 <= m < MAX_ORDER :: Pow2(m) != n
      requires forall o | 0 <= o <= MAX_ORDER :: nr[o] == 0
      requires forall p | 0 <= p < order.Length :: order[p] == 0
      modifies this, flag, size, order, nr, lists`free, lists.Entries()
      ensures Shape() && k <= MAX_ORDER && Pow2(k) <= n && (k < MAX_ORDER ==> n < Pow2(k + 1))
      ensures live == map[] && lists.free == NoLists()[k := [0]]
      ensures 1 < flag.Length && (Valid() <==> (k == 0 ==> !flag[1]))
    {
      hide Lists.Valid;
      for p := 0 to n
        invariant forall q | 0 <= q < p :: flag[q]
        modifies flag
      {
        flag[p] := true;
      }
      var m: nat := MAX_ORDER;
      while m > 0 && Pow2(m) > n
        invariant m <= MAX_ORDER && (m < MAX_ORDER ==> n < Pow2(m + 1))
      {
        m := m - 1;
      }
      PrefixDescribed(m, n, flag.Length);
      MakeBlock(m);
    }

    /** Turns the first 2^m pages into one listed block. */
    method MakeBlock(m: nat)
      requires Shape() && m <= MAX_ORDER && Described(m, flag.Length) && lists.free == NoLists() && flag[0]
      requires forall o | 0 <= o <= MAX_ORDER :: nr[o] == 0
      requires forall p | 0 <= p < order.Length :: order[p] == 0
      modifies this, size, order, nr, lists`free, lists.Entries()
      ensures Shape() && View() == Initial(m) && 1 < flag.Length && (Valid() <==> (m == 0 ==> !flag[1]))
    {
      hide Lists.Valid, Sound, Overwritten, Initial, NoLists, Pow2;
      InitialIs(m);
      ghost var order0, nr0 := order[..], nr[..];
      WriteBlock(m);
      InitialSound(m, flag[..], order0, order[..], nr0);
    }

    /** The assignments that do so. */
    method WriteBlock(m: nat)
      requires Shape() && m <= MAX_ORDER && 1 <= flag.Length && lists.free == NoLists()
      modifies this, size, order, nr, lists`free, lists.Entries()
      ensures Shape() && k == m && blk == map[0 := m] && lists.free == old(lists.free)[m := [0]] && live == map[]
      ensures Overwritten(old(order[..]), order[..], 0, Pow2(m), m)
      ensures nr[..] == old(nr[..])[m := old(nr[m]) + Pow2(m)]
    {
      hide Lists.Valid, Overwritten, Pow2;
      Pow2Mono(m, MAX_ORDER);
      ghost var nr0, count := nr[..], Pow2(m);
      assert count <= MAX_BUDDY_PAGES && 1 <= MAX_BUDDY_PAGES;
      size[0] := Pow2(m);
      SetOrders(0, Pow2(m), m);
      assert NoLists()[m] == [] && [0] + [] == [0];
      lists.Add(m, 0);
      nr[m] := nr[m] + Pow2(m);
      assert nr[..] == nr0[m := nr0[m] + count];
      k, blk, live := m, map[0 := m], map[];
    }

    /** The inner loops that give every page of a block its order. */
    method SetOrders(from: nat, count: nat, o: nat)
      requires from + count <= order.Length
      modifies order
      ensures Overwritten(old(order[..]), order[..], from, count, o)
    {
      for i := 0 to count
        invariant forall p | 0 <= p < order.Length ::
                    order[p] == if from <= p < from + i then o else old(order[p])
      {
        order[from + i] := o;
      }
    }

    /** One round of the splitting loop: page's block of order c + 1 keeps its lower half. */
    method HalveOnce(page: nat, c: nat, ghost L: Layout)
      requires Shape() && L.free == lists.free && InTransit(L, flag[..], order[..], nr[..], page, c + 1)
      modifies lists`free, lists.Entries(), flag, size, order, nr
      ensures Shape() && c < |old(lists.free)| && page in L.blk && L.blk[page] == c + 1
      ensures lists.free == old(lists.free)[c := [page + Pow2(c)] + old(lists.free)[c]] == Split(L, page).free
      ensures InTransit(Split(L, page), flag[..], order[..], nr[..], page, c)
    {
      hide Lists.Valid, InTransit, Overwritten, Pow2;
      TransitBounds(L, flag[..], order[..], nr[..], page, c + 1);
      Doubling(c);
      UpperHalfUnlisted(L, flag[..], order[..], nr[..], page, c);
      var split := Pow2(c);
      var buddy := page + split;
      ghost var flag0, order0, nr0 := flag[..], order[..], nr[..];
      size[buddy] := split;
      flag[buddy] := true;
      SetOrders(buddy, split, c);
      lists.Add(c, buddy);
      nr[c] := nr[c] + split;
      assert flag[..] == flag0[buddy := true];
      assert nr[..] == nr0[c := nr0[c] + split];
      SplitStep(L, flag0, order0, nr0, order[..], page, c);
    }

    /** The splitting loop of an allocation: halves page's block down to order r, listing each upper half. */
    method Carve(page: nat, c: nat, r: nat, ghost L0: Layout) returns (ghost L: Layout)
      requires Shape() && L0.free == lists.free && r <= c
      requires InTransit(L0, flag[..], order[..], nr[..], page, c)
      modifies lists`free, lists.Entries(), flag, size, order, nr
      ensures Shape() && L.free == lists.free && L.k == L0.k && L.live == L0.live
      ensures InTransit(L, flag[..], order[..], nr[..], page, r)
      ensures Halved(old(lists.free), lists.free, page, c, r)
    {
      hide Lists.Valid, InTransit, Halved, Pow2;
      var current := c;
      L := L0;
      TransitBounds(L, flag[..], order[..], nr[..], page, c);
      NotHalvedYet(lists.free, page, c);
      while current > r
        invariant r <= current <= c <= MAX_ORDER
        invariant Shape() && L.free == lists.free && L.k == L0.k && L.live == L0.live
        invariant InTransit(L, flag[..], order[..], nr[..], page, current)
        invariant Halved(old(lists.free), lists.free, page, c, current)
      {
        current := current - 1;
        HalvedFurther(old(lists.free), lists.free, page, c, current);
        HalveOnce(page, current, L);
        L := Split(L, page);
      }
    }

    /** The successful branch of an allocation: unlists the first block of order c and carves n pages out of it. */
    method Serve(c: nat, r: nat, n: nat) returns (page: nat)
      requires Valid() && n >= 1 && r == OrderOf(n) && r <= c <= MAX_ORDER && lists.free[c] != []
      modifies this, flag, size, order, nr, lists`free, lists.Entries()
      ensures Valid() && k == old(k)
      ensures page == old(lists.free[c][0]) && page !in old(live) && live == old(live)[page := n]
      ensures page < size.Length && size[page] == n
      ensures Halved(old(lists.free)[c := old(lists.free[c])[1..]], lists.free, page, c, r)
    {
      hide Lists.Valid, Sound, InTransit, Halved, Pow2;
      page := lists.First(c);
      ghost var L0, flag0, order0, nr0 := View(), flag[..], order[..], nr[..];
      TakeStep(L0, flag0, order0, nr0, page, c);
      WithoutFirst(lists.free[c]);
      lists.Del(c, page);
      nr[c] := nr[c] - Pow2(c);
      assert nr[..] == nr0[c := nr0[c] - Pow2(c)];
      ghost var L := Carve(page, c, r, Take(L0, page, c));
      TransitBounds(L, flag[..], order[..], nr[..], page, r);
      ghost var flag1 := flag[..];
      flag[page] := false;
      size[page] := n;
      assert flag[..] == flag1[page := false];
      CommitStep(L, flag1, order[..], nr[..], page, n);
      blk, live := L.blk, live[page := n];
      assert View() == Commit(L, page, n);
    }

    /** buddy_alloc_pages: fails exactly when no naturally aligned run of the rounded-up size is free, and otherwise
        takes the first block of the lowest order that has one. */
    method AllocPages(n: nat) returns (r: Option<nat>)
      requires Valid() && n >= 1
      modifies this, flag, size, order, nr, lists`free, lists.Entries()
      ensures Valid() && k == old(k)
      ensures r.None? <==> forall a: nat :: !FreeRun(k, old(live), a, OrderOf(n))
      ensures r.None? ==> live == old(live) && lists.free == old(lists.free)
      ensures r.Some? ==>
                && FreeRun(k, old(live), r.value, OrderOf(n))
                && r.value !in old(live) && live == old(live)[r.value := n]
                && r.value < size.Length && size[r.value] == n
      ensures r.Some? ==> exists o :: ServedAt(old(lists.free), lists.free, r.value, OrderOf(n), o)
    {
      hide Lists.Valid, Sound, Halved, ServedAt, FreeRun, OrderOf, Pow2;
      ghost var L0 := View();
      if n > MAX_BUDDY_PAGES {
        TooLarge(n);
        NothingFits(L0, flag[..], order[..], nr[..], OrderOf(n));
        return None;
      }
      var req := GetOrder(n);
      var current := req;
      while current <= MAX_ORDER
        invariant req <= current && Valid() && View() == L0 && lists.free == old(lists.free)
        invariant forall o | req <= o < current && o <= MAX_ORDER :: lists.free[o] == []
      {
        var empty := lists.IsEmpty(current);
        if !empty {
          SomethingFits(L0, flag[..], order[..], nr[..], lists.free[current][0], current, req);
          var page := Serve(current, req, n);
          HalvedServes(L0.free, lists.free, page, req, current);
          return Some(page);
        }
        current := current + 1;
      }
      NothingFits(L0, flag[..], order[..], nr[..], req);
      return None;
    }

    /** One round of the merging loop, with the merge test passed: i's block and its sibling become one. */
    method MergeOnce(i: nat, o: nat, ghost L: Layout) returns (h: nat)
      requires Shape() && L.free == lists.free && InTransit(L, flag[..], order[..], nr[..], i, o)
      requires o < MAX_ORDER && MergeTest(flag[..], order[..], i, o) && i < flag.Length && flag[i]
      modifies lists`free, lists.Entries(), size, order, nr
      ensures Shape() && i in L.blk && L.blk[i] == o && lists.free == Join(L, i).free
      ensures h == Lower(i, o) < MAX_BUDDY_PAGES && h < flag.Length && flag[h] && order[h] == o + 1
      ensures InTransit(Join(L, i), flag[..], order[..], nr[..], h, o + 1)
    {
      hide Lists.Valid, InTransit, Overwritten, Pow2, Buddy;
      ghost var order0, nr0 := order[..], nr[..];
      TransitBounds(L, flag[..], order[..], nr[..], i, o);
      MergedBounds(L, flag[..], order[..], nr[..], i, o);
      var b := Buddy(i, o);
      h := i;
      if i > b {
        h := b;
      }
      assert h == Lower(i, o);
      size[h] := Pow2(o + 1);
      assert order[..] == order0;
      SetOrders(h, Pow2(o + 1), o + 1);
      JoinStep(L, flag[..], order0, nr0, order[..], i, o);
      lists.Del(o, b);
      nr[o] := nr[o] - Pow2(o);
      assert nr[..] == nr0[o := nr0[o] - Pow2(o)];
      OverwrittenAt(order0, order[..], h, Pow2(o + 1), o + 1, h);
    }

    /** Allocating and freeing leaves the same blocks free as before. */
    method AllocFree(n: nat)
      requires Valid() && n >= 1
      modifies this, flag, size, order, nr, lists`free, lists.Entries()
      ensures Valid() && live == old(live)
      ensures forall h: nat, o: nat :: IsFree(View(), h, o) <==> old(IsFree(View(), h, o))
    {
      hide *;
      ghost var L := View();
      ValidLayout();
      var r := AllocPages(n);
      if r.Some? {
        FreePages(r.value, n);
      }
      ValidLayout();
      SameFree(L, View());
    }

    lemma ValidLayout()
      requires Valid()
      ensures Consistent(View()) && Coalesced(View())
      ensures View().held == {} && View().k == k && View().live == live
    {
      hide Consistent, Coalesced, Marks, GuardPastEnd, Counted;
    }

    /** The merging loop of buddy_free_pages: it stops at the top order or at a buddy that is not one free block. */
    method MergeUp(i0: nat, o0: nat, ghost L0: Layout) returns (i: nat, o: nat, ghost L: Layout)
      requires Shape() && L0.free == lists.free && L0.k == k && InTransit(L0, flag[..], order[..], nr[..], i0, o0)
      requires o0 <= MAX_ORDER && i0 < MAX_BUDDY_PAGES && i0 < flag.Length && flag[i0] && order[i0] == o0
      requires i0 == Down(i0, o0)
      modifies lists`free, lists.Entries(), size, order, nr
      ensures Shape() && L.free == lists.free && L.k == k && L.live == L0.live
      ensures InTransit(L, flag[..], order[..], nr[..], i, o) && o <= MAX_ORDER && i < MAX_BUDDY_PAGES
      ensures i < flag.Length && flag[i] && order[i] == o
      ensures o < MAX_ORDER ==> !MergeTest(flag[..], order[..], i, o)
      ensures i == Down(i0, o) && o0 <= o && Unlisted(old(lists.free), lists.free, i0, o0, o)
    {
      hide Lists.Valid, Sound, InTransit, Overwritten, Pow2, Buddy, Down, Unlisted, Join;
      i, o, L := i0, o0, L0;
      NoneUnlisted(lists.free, i0, o0);
      while o < MAX_ORDER
        invariant Shape() && L.free == lists.free && L.k == k && L.live == L0.live
        invariant InTransit(L, flag[..], order[..], nr[..], i, o) && o <= MAX_ORDER
        invariant i < MAX_BUDDY_PAGES && i < flag.Length && flag[i] && order[i] == o
        invariant i == Down(i0, o) && o0 <= o && Unlisted(old(lists.free), lists.free, i0, o0, o)
      {
        TransitBounds(L, flag[..], order[..], nr[..], i, o);
        BuddyBound(L, flag[..], order[..], nr[..], i, o);
        var b := Buddy(i, o);
        if flag[b] && order[b] == o {
          ghost var M := Join(L, i);
          JoinUnlists(L, flag[..], order[..], nr[..], old(lists.free), i0, o0, o);
          JoinFields(L, i);
          i := MergeOnce(i, o, L);
          L := M;
          o := o + 1;
        } else {
          break;
        }
      }
    }

    /** The merged block goes to the front of its list. */
    method PutFree(i: nat, o: nat, ghost L: Layout)
      requires Shape() && L.free == lists.free && L.k == k && InTransit(L, flag[..], order[..], nr[..], i, o)
      requires o <= MAX_ORDER && i < MAX_BUDDY_PAGES && i < flag.Length && flag[i] && order[i] == o
      requires o < MAX_ORDER ==> !MergeTest(flag[..], order[..], i, o)
      modifies lists`free, lists.Entries(), this`blk, this`live, nr
      ensures Valid() && live == L.live && o < |old(lists.free)|
      ensures lists.free == old(lists.free)[o := [i] + old(lists.free)[o]]
    {
      hide Lists.Valid, Sound, InTransit, Overwritten, Pow2, Buddy;
      TransitBounds(L, flag[..], order[..], nr[..], i, o);
      HeldUnlisted(L, flag[..], order[..], nr[..], i, o);
      PutStep(L, flag[..], order[..], nr[..], i, o);
      ghost var nr0 := nr[..];
      lists.Add(o, i);
      nr[o] := nr[o] + Pow2(o);
      assert nr[..] == nr0[o := nr0[o] + Pow2(o)];
      blk, live := L.blk, L.live;
      assert L.held - {i} == {};
      assert View() == Put(L, i);
    }

    /** buddy_free_pages, for a live block and the page count it was requested for (or any count of the same
        order): afterwards exactly that block is no longer live, and it has been joined with what was free around it as
        far as its order and those of the blocks so made allow. */
    method FreePages(base: nat, n: nat)
      requires Valid() && n >= 1 && base in live && OrderOf(live[base]) == OrderOf(n)
      modifies this, flag, size, order, nr, lists`free, lists.Entries()
      ensures Valid() && k == old(k) && live == old(live) - {base}
      ensures exists o :: MergedAt(old(lists.free), lists.free, base, OrderOf(n), o)
    {
      hide Lists.Valid, Sound, InTransit, Overwritten, Pow2, Buddy, Down, OtherHalf, Unlisted, MergedAt, MergeTest;
      ghost var L, flag0, order0 := View(), flag[..], order[..];
      LiveBounds(L, flag0, order0, nr[..], base);
      var i: nat := base;
      var o: nat := GetOrder(n);
      flag[base] := true;
      size[base] := Pow2(o);
      SetOrders(i, Pow2(o), o);
      ReleaseStep(L, flag0, order0, nr[..], order[..], base, o);
      OverwrittenAt(order0, order[..], i, Pow2(o), o, i);
      assert flag[..] == flag0[base := true];
      L := Release(L, base);
      LiveAligned(L, flag[..], order[..], nr[..], base, o);
      i, o, L := MergeUp(i, o, L);
      MergeEnds(L, flag[..], order[..], nr[..], base, i, o);
      UnlistedMerges(old(lists.free), lists.free, base, OrderOf(n), o);
      PutFree(i, o, L);
    }
  }

  lemma SameFree(L1: Layout, L2: Layout)
    requires Consistent(L1) && Coalesced(L1) && L1.held == {}
    requires Consistent(L2) && Coalesced(L2) && L2.held == {}
    requires L1.k == L2.k && L1.live == L2.live
    ensures forall h: nat, o: nat :: IsFree(L2, h, o) <==> IsFree(L1, h, o)
  {
    hide Consistent, Coalesced, IsFree;
    forall h: nat, o: nat ensures IsFree(L2, h, o) <==> IsFree(L1, h, o) {
      if IsFree(L1, h, o) {
        Canonical(L1, L2, h, o);
      }
      if IsFree(L2, h, o) {
        Canonical(L2, L1, h, o);
      }
    }
  }

  /** Live blocks are aligned, lie in the region and do not overlap; nor does a free block overlap a live one. */
  lemma BlocksApart(L: Layout, i: nat, j: nat)
    requires Consistent(L) && i in L.live && j in L.blk && i != j
    ensures Divides(OrderOf(L.live[i]), i) && L.live[i] <= Pow2(OrderOf(L.live[i]))
    ensures i + Pow2(OrderOf(L.live[i])) <= Pow2(L.k)
    ensures i + Pow2(OrderOf(L.live[i])) <= j || j + Pow2(L.blk[j]) <= i
  {
    LiveBlock(L, i);
    OrderOfIsLeast(L.live[i]);
    InRangeOf(L, i);
    hide NoneLost, OrderOf;
  }

  lemma OverwrittenAt(s: seq<nat>, s': seq<nat>, a: nat, c: nat, v: nat, p: nat)
    requires Overwritten(s, s', a, c, v) && a <= p < a + c && p < |s|
    ensures |s'| == |s| && s'[p] == v
  {
  }

  lemma LiveBounds(L: Layout, flag: seq<bool>, order: seq<nat>, nr: seq<nat>, i: nat)
    requires Sound(L, flag, order, nr, None) && i in L.live
    ensures OrderOf(L.live[i]) <= MAX_ORDER && Pow2(OrderOf(L.live[i])) >= 1 && i < |flag|
    ensures i + Pow2(OrderOf(L.live[i])) <= MAX_BUDDY_PAGES
  {
    assert InRange(L.k, i, L.blk[i]);
    Pow2Mono(L.k, MAX_ORDER);
  }

  /** The merge test never looks past the order table or the descriptors. */
  lemma BuddyBound(L: Layout, flag: seq<bool>, order: seq<nat>, nr: seq<nat>, i: nat, o: nat)
    requires InTransit(L, flag, order, nr, i, o) && o < MAX_ORDER
    ensures Buddy(i, o) < MAX_BUDDY_PAGES && Buddy(i, o) < |flag|
  {
    hide InTransit;
    TransitParts(L, flag, order, nr, i, o);
    BuddyInReach(L.k, i, o, |flag|);
  }

  lemma BuddyInReach(k: nat, i: nat, o: nat, descriptors: nat)
    requires InRange(k, i, o) && o <= k <= MAX_ORDER && o < MAX_ORDER && Described(k, descriptors)
    ensures Buddy(i, o) < MAX_BUDDY_PAGES && Buddy(i, o) < descriptors
  {
    hide Buddy;
    Pow2Mono(k, MAX_ORDER);
    if o < k {
      BuddyFacts(k, i, o);
    } else {
      BuddyAtTop(k, i);
    }
  }

  /** The block in transit is on no list. */
  lemma HeldUnlisted(L: Layout, flag: seq<bool>, order: seq<nat>, nr: seq<nat>, i: nat, o: nat)
    requires InTransit(L, flag, order, nr, i, o)
    ensures forall c | 0 <= c < |L.free| :: i !in L.free[c]
  {
    hide *;
    TransitParts(L, flag, order, nr, i, o);
    ConsistentParts(L);
    NotListed(L, i);
  }

  /** Neither is the upper half that splitting it sets free. */
  lemma UpperHalfUnlisted(L: Layout, flag: seq<bool>, order: seq<nat>, nr: seq<nat>, i: nat, c: nat)
    requires InTransit(L, flag, order, nr, i, c + 1)
    ensures forall o | 0 <= o < |L.free| :: i + Pow2(c) !in L.free[o]
  {
    hide *;
    TransitParts(L, flag, order, nr, i, c + 1);
    ConsistentParts(L);
    SplitListing(L, i);
    NotListed(L, i + Pow2(c));
  }

  lemma NotListed(L: Layout, u: nat)
    requires ListsOk(L) && (u !in L.blk || u in L.held)
    ensures forall o | 0 <= o < |L.free| :: u !in L.free[o]
  {
    forall o: nat | o < |L.free| ensures u !in L.free[o] {
      assert u in L.free[o] ==> IsFree(L, u, o);
    }
  }

  lemma WithoutFirst(s: seq<nat>)
    requires s != []
    ensures Without(s, s[0]) == s[1..]
  {
  }

  lemma MergedBounds(L: Layout, flag: seq<bool>, order: seq<nat>, nr: seq<nat>, i: nat, o: nat)
    requires InTransit(L, flag, order, nr, i, o) && o < MAX_ORDER && MergeTest(flag, order, i, o)
    ensures Pow2(o + 1) >= 1 && Lower(i, o) + Pow2(o + 1) <= MAX_BUDDY_PAGES
    ensures Buddy(i, o) < |flag| && flag[Buddy(i, o)] && Buddy(i, o) != i
    ensures o < |L.free| && Buddy(i, o) in L.free[o]
  {
    InRangeOf(L, i);
    MergeTestIsExact(L, flag, order, i);
    Halves(L.k, i, o);
    Pow2Mono(L.k, MAX_ORDER);
  }

  lemma {:induction false} EmptyLists(free: seq<seq<nat>>, m: nat)
    requires m <= |free| && forall o | 0 <= o < |free| :: free[o] == []
    ensures FreeUpTo(free, m) == 0
  {
    if m > 0 {
      EmptyLists(free, m - 1);
    }
  }

  function NoLists(): seq<seq<nat>> {
    seq(MAX_ORDER + 1, _ => [])
  }

  /** The whole region as one listed block. */
  function Initial(m: nat): Layout
    requires m <= MAX_ORDER
  {
    Layout(m, map[0 := m], NoLists()[m := [0]], map[], {})
  }

  lemma InitialLayout(m: nat)
    requires m <= MAX_ORDER
    ensures Consistent(Initial(m)) && Coalesced(Initial(m))
  {
    var L := Initial(m);
    ZeroDivides(L.k);
    assert forall o: nat, i: nat :: IsFree(L, i, o) <==> o == L.k && i == 0;
    forall p: nat | p < Pow2(L.k) ensures Covered(L.blk, p) {
      assert Covers(L.blk, 0, p);
    }
  }

  lemma InitialIs(m: nat)
    requires m <= MAX_ORDER
    ensures |NoLists()| == MAX_ORDER + 1 && Initial(m) == Layout(m, map[0 := m], NoLists()[m := [0]], map[], {})
    ensures MAX_BUDDY_PAGES >= 2
  {
    LastPages(m);
  }

  lemma SoundButGuard(L: Layout, flag: seq<bool>, order: seq<nat>, nr: seq<nat>)
    requires Consistent(L) && Coalesced(L) && Marks(L, flag, order) && Counted(nr, L.free)
    requires FreePages(L.free) + LivePages(L.live) == Pow2(L.k)
    ensures Sound(L, flag, order, nr, None) <==> GuardPastEnd(L.k, flag, order)
  {
  }

  lemma InitialSound(m: nat, flag: seq<bool>, order0: seq<nat>, order: seq<nat>, nr0: seq<nat>)
    requires m <= MAX_ORDER && Described(m, |flag|) && |order0| == MAX_BUDDY_PAGES && |nr0| == MAX_ORDER + 1
    requires MAX_BUDDY_PAGES >= 2 && 1 < |flag| && flag[0] && Overwritten(order0, order, 0, Pow2(m), m)
    requires forall p | 0 <= p < |order0| :: order0[p] == 0
    requires forall o | 0 <= o <= MAX_ORDER :: nr0[o] == 0
    ensures Sound(Initial(m), flag, order, nr0[m := nr0[m] + Pow2(m)], None) <==> (m == 0 ==> !flag[1])
  {
    hide *;
    InitialLayout(m);
    InitialCounts(m, nr0);
    InitialMarks(m, flag, order0, order);
    InitialGuard(m, flag, order0, order);
    SoundButGuard(Initial(m), flag, order, nr0[m := nr0[m] + Pow2(m)]);
  }

  lemma InitialCounts(m: nat, nr0: seq<nat>)
    requires m <= MAX_ORDER && |nr0| == MAX_ORDER + 1
    requires forall o | 0 <= o <= MAX_ORDER :: nr0[o] == 0
    ensures Counted(nr0[m := nr0[m] + Pow2(m)], Initial(m).free)
    ensures FreePages(Initial(m).free) + LivePages(Initial(m).live) == Pow2(Initial(m).k)
    ensures Initial(m).k == m
  {
    EmptyLists(NoLists(), MAX_ORDER + 1);
    CountLonger(nr0, NoLists(), m, [0]);
    RelistLonger(NoLists(), m, [0]);
  }

  lemma InitialMarks(m: nat, flag: seq<bool>, order0: seq<nat>, order: seq<nat>)
    requires m <= MAX_ORDER && Described(m, |flag|) && |order0| == MAX_BUDDY_PAGES
    requires 0 < |flag| && flag[0] && Overwritten(order0, order, 0, Pow2(m), m)
    ensures Marks(Initial(m), flag, order)
  {
    assert forall o: nat, i: nat :: IsFree(Initial(m), i, o) ==> o == m && i == 0;
  }

  lemma InitialGuard(m: nat, flag: seq<bool>, order0: seq<nat>, order: seq<nat>)
    requires m <= MAX_ORDER && Described(m, |flag|) && |order0| == MAX_BUDDY_PAGES
    requires Overwritten(order0, order, 0, Pow2(m), m)
    requires forall p | 0 <= p < |order0| :: order0[p] == 0
    ensures 1 < |flag| && (GuardPastEnd(m, flag, order) <==> (m == 0 ==> !flag[1]))
  {
    LastPages(m);
    assert |order| == |order0|;
    if m < MAX_ORDER {
      assert order[Pow2(m)] == order0[Pow2(m)];
    }
    hide Overwritten;
  }

  lemma PrefixDescribed(m: nat, n: nat, descriptors: nat)
    requires m <= MAX_ORDER && Pow2(m) <= n <= descriptors
    requires n < descriptors || forall m' | 0 <= m' < MAX_ORDER :: Pow2(m') != n
    ensures Described(m, descriptors)
  {
  }

  lemma LastPages(m: nat)
    requires m <= MAX_ORDER
    ensures MAX_BUDDY_PAGES >= 2 && (m < MAX_ORDER ==> Pow2(m) < MAX_BUDDY_PAGES) && (m == 0 ==> Pow2(m) == 1)
  {
    Pow2Mono(m, MAX_ORDER);
    Pow2Mono(0, MAX_ORDER);
  }

  lemma TooLarge(n: nat)
    requires n > Pow2(MAX_ORDER)
    ensures OrderOf(n) > MAX_ORDER
  {
    OrderOfIsLeast(n);
    if OrderOf(n) <= MAX_ORDER {
      Pow2Mono(OrderOf(n), MAX_ORDER);
    }
  }

  lemma NothingFits(L: Layout, flag: seq<bool>, order: seq<nat>, nr: seq<nat>, r: nat)
    requires Sound(L, flag, order, nr, None) && L.held == {}
    requires forall o | r <= o < |L.free| :: L.free[o] == []
    ensures forall a: nat :: !FreeRun(L.k, L.live, a, r)
  {
    forall a: nat ensures !FreeRun(L.k, L.live, a, r) {
      if FreeRun(L.k, L.live, a, r) {
        var h, o := RunIsInOneBlock(L, a, r);
      }
    }
  }

  lemma SomethingFits(L: Layout, flag: seq<bool>, order: seq<nat>, nr: seq<nat>, h: nat, o: nat, r: nat)
    requires Sound(L, flag, order, nr, None) && IsFree(L, h, o) && r <= o
    ensures FreeRun(L.k, L.live, h, r)
  {
    ListedBlockIsFree(L, h, o);
    DividesIsMod(o, h);
    WeakerPower(r, o, h);
    DividesIsMod(r, h);
    Pow2Mono(r, o);
  }
}
