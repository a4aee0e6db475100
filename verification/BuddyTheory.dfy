/** What a consistent, fully coalesced buddy arrangement means to its users: which runs of pages it can
    serve, that its free blocks are determined by what is allocated, and how many pages are free. */
module BuddyTheory {
  import opened Bits
  import opened BuddyLayout

  /** A managed page outside every allocated block. */
  ghost predicate FreePage(k: nat, live: map<nat, nat>, p: nat) {
    p < Pow2(k) && forall i | i in live :: p < i || i + Pow2(OrderOf(live[i])) <= p
  }

  /** A naturally aligned run of 2^r free pages. */
  ghost predicate FreeRun(k: nat, live: map<nat, nat>, a: nat, r: nat) {
    && a % Pow2(r) == 0 && a + Pow2(r) <= Pow2(k)
    && forall p: nat | a <= p < a + Pow2(r) :: FreePage(k, live, p)
  }

  predicate Within(a: nat, r: nat, h: nat, o: nat) {
    h <= a && a + Pow2(r) <= h + Pow2(o)
  }

  lemma FreePageIsListed(L: Layout, p: nat) returns (h: nat, o: nat)
    requires Consistent(L) && L.held == {} && FreePage(L.k, L.live, p)
    ensures IsFree(L, h, o) && h <= p < h + Pow2(o)
  {
    assert Covered(L.blk, p);
    h :| Covers(L.blk, h, p);
    o := L.blk[h];
  }

  lemma ListedBlockIsFree(L: Layout, h: nat, o: nat)
    requires Consistent(L) && IsFree(L, h, o)
    ensures FreeRun(L.k, L.live, h, o)
  {
    DividesIsMod(o, h);
    forall p: nat | h <= p < h + Pow2(o) ensures FreePage(L.k, L.live, p) {
      forall i | i in L.live ensures p < i || i + Pow2(OrderOf(L.live[i])) <= p {
        assert i != h && i in L.blk && h in L.blk;
        if i < h {
          assert i + Pow2(L.blk[i]) <= h;
        } else {
          assert h + Pow2(L.blk[h]) <= i;
        }
      }
    }
  }

  /** Full coalescing: every aligned run of free pages lies inside one listed block. */
  lemma {:induction false} RunIsInOneBlock(L: Layout, a: nat, r: nat) returns (h: nat, o: nat)
    requires Consistent(L) && Coalesced(L) && L.held == {}
    requires FreeRun(L.k, L.live, a, r)
    ensures IsFree(L, h, o) && o >= r && Within(a, r, h, o)
    decreases r
  {
    hide Consistent, Coalesced;
    if r == 0 {
      h, o := FreePageIsListed(L, a);
    } else {
      HalfRun(L.k, L.live, a, r - 1);
      DividesIsMod(r, a);
      h, o := RunIsInOneBlock(L, a, r - 1);
      var h', o' := RunIsInOneBlock(L, a + Pow2(r - 1), r - 1);
      TwoHalves(L, a, r - 1, h, o, h', o');
      if o < r {
        h, o := h', o';
      }
    }
  }

  lemma TwoHalves(L: Layout, a: nat, c: nat, h: nat, o: nat, h': nat, o': nat)
    requires Consistent(L) && Coalesced(L) && Divides(c + 1, a) && a + Pow2(c + 1) <= Pow2(L.k)
    requires IsFree(L, h, o) && o >= c && Within(a, c, h, o)
    requires IsFree(L, h', o') && o' >= c && Within(a + Pow2(c), c, h', o')
    ensures if o > c then Within(a, c + 1, h, o) else o' > c && Within(a, c + 1, h', o')
  {
    hide Consistent, Coalesced;
    WeakerPower(c, c + 1, a);
    if o > c {
      GrownBlock(L, a, c + 1, h, o);
    } else if o' > c {
      GrownBlock(L, a, c + 1, h', o');
    } else {
      SiblingsListed(L, a, c);
    }
  }

  lemma HalfRun(k: nat, live: map<nat, nat>, a: nat, c: nat)
    requires FreeRun(k, live, a, c + 1)
    ensures FreeRun(k, live, a, c) && FreeRun(k, live, a + Pow2(c), c)
  {
    DividesIsMod(c + 1, a);
    WeakerPower(c, c + 1, a);
    PowerValuation(c);
    AddMultiples(c, a, Pow2(c));
    DividesIsMod(c, a);
    DividesIsMod(c, a + Pow2(c));
  }

  /** A listed block of order at least r that meets an aligned run of order r contains it. */
  lemma GrownBlock(L: Layout, a: nat, r: nat, h: nat, o: nat)
    requires Consistent(L) && IsFree(L, h, o) && o >= r && Divides(r, a)
    requires a < h + Pow2(o) && h < a + Pow2(r)
    ensures Within(a, r, h, o)
  {
    assert InRange(L.k, h, L.blk[h]);
    Laminar(a, r, h, o);
  }

  /** Both halves of an aligned run cannot be listed blocks. */
  lemma SiblingsListed(L: Layout, a: nat, c: nat)
    requires Consistent(L) && Coalesced(L) && Divides(c + 1, a) && a + Pow2(c + 1) <= Pow2(L.k)
    ensures !(IsFree(L, a, c) && IsFree(L, a + Pow2(c), c))
  {
    if IsFree(L, a, c) && c < L.k {
      assert InRange(L.k, a, L.blk[a]);
      BuddyFacts(L.k, a, c);
    }
    if IsFree(L, a, c) && c >= L.k {
      Pow2Mono(L.k, c);
    }
  }

  /** The free blocks are a function of the live allocations alone. */
  lemma Canonical(L1: Layout, L2: Layout, h: nat, o: nat)
    requires Consistent(L1) && Coalesced(L1) && L1.held == {}
    requires Consistent(L2) && Coalesced(L2) && L2.held == {}
    requires L1.k == L2.k && L1.live == L2.live
    requires IsFree(L1, h, o)
    ensures IsFree(L2, h, o)
  {
    ListedBlockIsFree(L1, h, o);
    var h2, o2 := RunIsInOneBlock(L2, h, o);
    ListedBlockIsFree(L2, h2, o2);
    var h1: nat, o1 := RunIsInOneBlock(L1, h2, o2);
    SameBlock(L1, h, o, h1, o1);
    if o < o2 {
      Pow2Mono(o, o2);
    }
  }

  /** Listed blocks that meet are equal. */
  lemma SameBlock(L: Layout, h: nat, o: nat, h1: nat, o1: nat)
    requires Apart(L.blk) && ListsOk(L) && IsFree(L, h, o) && IsFree(L, h1, o1)
    requires h1 <= h < h1 + Pow2(o1)
    ensures h == h1 && o == o1
  {
    assert L.blk[h1] == o1 && L.blk[h] == o;
  }

  /** With nothing allocated, the whole region is one listed block and no other block is listed. */
  lemma AllFreedIsOneBlock(L: Layout)
    requires Consistent(L) && Coalesced(L) && L.held == {} && L.live == map[]
    ensures forall h: nat, o: nat :: IsFree(L, h, o) <==> h == 0 && o == L.k
  {
    ZeroDivides(L.k);
    DividesIsMod(L.k, 0);
    var h, o := RunIsInOneBlock(L, 0, L.k);
    assert InRange(L.k, h, L.blk[h]);
    assert h == 0 && o == L.k;
    forall h': nat, o': nat | IsFree(L, h', o') ensures h' == 0 && o' == L.k {
      assert InRange(L.k, h', L.blk[h']);
    }
  }

  // ---------- The merge test ----------

  /** The condition under which freeing goes on merging: the sibling page carries the free flag and the
      order being merged. */
  predicate MergeTest(flag: seq<bool>, order: seq<nat>, i: nat, o: nat) {
    var b := Buddy(i, o);
    b < |flag| && b < |order| && flag[b] && order[b] == o
  }

  /** There are descriptors for the region, and below the highest order for the page behind it. */
  predicate Described(k: nat, descriptors: nat) {
    Pow2(k) <= descriptors && (k < MAX_ORDER ==> Pow2(k) < descriptors)
  }

  /** What the page flags and the order table are relied on for: heads of blocks only. */
  ghost predicate Marks(L: Layout, flag: seq<bool>, order: seq<nat>) {
    && Described(L.k, |flag|) && Pow2(MAX_ORDER) <= |order|
    && (forall o: nat, i: nat :: IsFree(L, i, o) && i < |flag| && i < |order| ==> flag[i] && order[i] == o)
    && (forall i :: i in L.live && i < |flag| ==> !flag[i])
  }

  /** What is relied on about the first page past the managed region. */
  predicate GuardPastEnd(k: nat, flag: seq<bool>, order: seq<nat>) {
    k < MAX_ORDER && Pow2(k) < |flag| && Pow2(k) < |order| ==>
      order[Pow2(k)] == 0 && (k == 0 ==> !flag[1])
  }

  /** Although pages inside blocks keep outdated flags and orders, the test is exact. */
  lemma MergeTestIsExact(L: Layout, flag: seq<bool>, order: seq<nat>, i: nat)
    requires Consistent(L) && Marks(L, flag, order) && GuardPastEnd(L.k, flag, order)
    requires i in L.blk && L.held == {i} && L.blk[i] < MAX_ORDER
    ensures MergeTest(flag, order, i, L.blk[i]) <==> L.blk[i] < L.k && IsFree(L, Buddy(i, L.blk[i]), L.blk[i])
  {
    hide *;
    MergeTestReady(L, flag, order, i);
    if L.blk[i] < L.k {
      SiblingBlock(L, i);
      MergeTestBelowTop(L, flag, order, i, L.blk[i]);
    } else {
      TopMergeTest(L.k, flag, order, i);
    }
  }

  lemma MergeTestReady(L: Layout, flag: seq<bool>, order: seq<nat>, i: nat)
    requires Consistent(L) && Marks(L, flag, order) && GuardPastEnd(L.k, flag, order)
    requires i in L.blk && L.held == {i} && L.blk[i] < MAX_ORDER
    ensures InRange(L.k, i, L.blk[i]) && L.blk[i] <= L.k && Tiling(L.k, L.blk) && Sorted(L)
    ensures Pow2(L.k) <= |flag| && Pow2(L.k) <= |order|
    ensures L.blk[i] == L.k ==>
              && L.k < MAX_ORDER && Pow2(L.k) < |flag| && Pow2(L.k) < |order| && order[Pow2(L.k)] == 0
              && (L.k == 0 ==> 1 < |flag| && !flag[1])
  {
    assert InRange(L.k, i, L.blk[i]);
    Pow2Mono(L.k, MAX_ORDER);
    if L.k < MAX_ORDER {
      Pow2Mono(L.k, MAX_ORDER - 1);
    }
  }

  lemma SiblingBlock(L: Layout, i: nat)
    requires Tiling(L.k, L.blk) && i in L.blk && L.blk[i] < L.k
    ensures var b := Buddy(i, L.blk[i]); b in L.blk && b != i && b < Pow2(L.k)
  {
    SiblingIsHead(L.k, L.blk, i);
    BuddyFacts(L.k, i, L.blk[i]);
  }

  lemma MergeTestBelowTop(L: Layout, flag: seq<bool>, order: seq<nat>, i: nat, o: nat)
    requires Sorted(L) && Marks(L, flag, order)
    requires var b := Buddy(i, o); b in L.blk && b !in L.held && b < |flag| && b < |order|
    ensures MergeTest(flag, order, i, o) <==> IsFree(L, Buddy(i, o), o)
  {
    hide Buddy, Described;
  }

  /** At the top order the test looks one page past the region; it misfires exactly on a one-page region
      whose successor page carries the flag. */
  lemma TopMergeTest(k: nat, flag: seq<bool>, order: seq<nat>, i: nat)
    requires k < MAX_ORDER && InRange(k, i, k)
    requires Pow2(k) < |flag| && Pow2(k) < |order| && order[Pow2(k)] == 0
    ensures MergeTest(flag, order, i, k) <==> k == 0 && flag[1]
  {
    BuddyAtTop(k, i);
  }

  // ---------- What a call does to the lists ----------

  /** The block of order c at page has been halved down to order r: each upper half is in front of its list. */
  ghost predicate Halved(free: seq<seq<nat>>, free': seq<seq<nat>>, page: nat, c: nat, r: nat) {
    && |free'| == |free|
    && forall o | 0 <= o < |free| :: free'[o] == if r <= o < c then [page + Pow2(o)] + free[o] else free[o]
  }

  lemma HalvedFurther(free: seq<seq<nat>>, free': seq<seq<nat>>, page: nat, c: nat, r: nat)
    requires Halved(free, free', page, c, r + 1) && r < c && r < |free|
    ensures Halved(free, free'[r := [page + Pow2(r)] + free'[r]], page, c, r)
  {
    hide Pow2;
  }

  /** Serving order r from the list of order o, the first from r on that is not empty. Its first block is the page
      served, and each list in between gets the upper half it had none of. */
  ghost predicate ServedAt(free: seq<seq<nat>>, free': seq<seq<nat>>, page: nat, r: nat, o: nat) {
    && r <= o < |free| && |free'| == |free|
    && free[o] != [] && page == free[o][0] && free'[o] == free[o][1..]
    && (forall c | r <= c < o :: free[c] == [] && free'[c] == [page + Pow2(c)])
    && (forall c | 0 <= c < r || o < c < |free| :: free'[c] == free[c])
  }

  lemma HalvedServes(free: seq<seq<nat>>, free': seq<seq<nat>>, page: nat, r: nat, o: nat)
    requires r <= o < |free| && free[o] != [] && page == free[o][0] && forall c | r <= c < o :: free[c] == []
    requires Halved(free[o := free[o][1..]], free', page, o, r)
    ensures ServedAt(free, free', page, r, o)
  {
    hide Pow2;
    forall c | r <= c < o ensures free'[c] == [page + Pow2(c)] {
      assert [page + Pow2(c)] + [] == [page + Pow2(c)];
    }
  }

  function Floor(p: nat, w: nat): nat
    requires w > 0
  {
    p / w * w
  }

  /** The first page of the block of order o around page p. */
  function Down(p: nat, o: nat): nat {
    Floor(p, Pow2(o))
  }

  /** The other half of the block of order o + 1 around page p. */
  function OtherHalf(p: nat, o: nat): nat {
    if Down(p, o) == Down(p, o + 1) then Down(p, o) + Pow2(o) else Down(p, o + 1)
  }

  lemma DownIs(p: nat, o: nat, h: nat)
    requires Divides(o, h) && h <= p < h + Pow2(o)
    ensures Down(p, o) == h
  {
    hide Pow2, Divides;
    DividesIsMod(o, h);
    DivModUnique(p, Pow2(o), h / Pow2(o), p - h);
  }

  lemma DownBelow(p: nat, o: nat)
    ensures Down(p, o) <= p < Down(p, o) + Pow2(o)
  {
    hide Pow2;
  }

  lemma Around(k: nat, p: nat, o: nat)
    requires InRange(k, Down(p, o), o) && o < k
    ensures Buddy(Down(p, o), o) == OtherHalf(p, o) && Lower(Down(p, o), o) == Down(p, o + 1)
  {
    var i := Down(p, o);
    Halves(k, i, o);
    DownBelow(p, o);
    hide Down, Buddy, Lower;
    assert Pow2(o + 1) == 2 * Pow2(o);
    DownIs(p, o + 1, Lower(i, o));
  }

  /** Blocks of the orders from r up to o around page p have been joined with their other halves. */
  ghost predicate Unlisted(free: seq<seq<nat>>, free': seq<seq<nat>>, p: nat, r: nat, o: nat) {
    && |free'| == |free|
    && (forall c | r <= c < o && c < |free| ::
          OtherHalf(p, c) in free[c] && free'[c] == Without(free[c], OtherHalf(p, c)))
    && (forall c | 0 <= c < |free| && (c < r || o <= c) :: free'[c] == free[c])
  }

  lemma UnlistedFurther(free: seq<seq<nat>>, free': seq<seq<nat>>, p: nat, r: nat, o: nat, b: nat)
    requires Unlisted(free, free', p, r, o) && r <= o < |free| && b == OtherHalf(p, o) && b in free'[o]
    ensures Unlisted(free, free'[o := Without(free'[o], b)], p, r, o + 1)
  {
    hide OtherHalf, Without;
  }

  /** Freeing the block of order r at page p: it is joined with its other half as long as that is free, and what
      comes of it, of order o, goes to the front of its list. */
  ghost predicate MergedAt(free: seq<seq<nat>>, free': seq<seq<nat>>, p: nat, r: nat, o: nat) {
    && r <= o < |free| && |free'| == |free|
    && (forall c | r <= c < o :: OtherHalf(p, c) in free[c] && free'[c] == Without(free[c], OtherHalf(p, c)))
    && free'[o] == [Down(p, o)] + free[o] && (o + 1 < |free| ==> OtherHalf(p, o) !in free[o])
    && (forall c | 0 <= c < r || o < c < |free| :: free'[c] == free[c])
  }

  lemma UnlistedMerges(free: seq<seq<nat>>, free': seq<seq<nat>>, p: nat, r: nat, o: nat)
    requires Unlisted(free, free', p, r, o) && r <= o < |free| && (o + 1 < |free| ==> OtherHalf(p, o) !in free'[o])
    ensures MergedAt(free, free'[o := [Down(p, o)] + free'[o]], p, r, o)
  {
    hide OtherHalf, Without, Down;
  }

  /** When the merge test fails, the other half is on no list of its order. */
  lemma MergeStops(L: Layout, flag: seq<bool>, order: seq<nat>, p: nat, o: nat)
    requires Consistent(L) && Marks(L, flag, order) && GuardPastEnd(L.k, flag, order)
    requires var i := Down(p, o); i in L.blk && L.held == {i} && L.blk[i] == o && o < MAX_ORDER
    requires !MergeTest(flag, order, Down(p, o), o)
    ensures o < |L.free| && OtherHalf(p, o) !in L.free[o]
  {
    var i := Down(p, o);
    hide Down, Lower, Buddy, Marks, GuardPastEnd, MergeTest, Coalesced;
    MergeTestIsExact(L, flag, order, i);
    assert InRange(L.k, i, o);
    if o < L.k {
      Around(L.k, p, o);
    } else {
      OtherHalfAtTop(L.k, p);
    }
    assert OtherHalf(p, o) in L.free[o] ==> IsFree(L, OtherHalf(p, o), o);
  }

  lemma OtherHalfAtTop(k: nat, p: nat)
    requires InRange(k, Down(p, k), k)
    ensures OtherHalf(p, k) == Pow2(k)
  {
    DownBelow(p, k);
    BuddyAtTop(k, Down(p, k));
    ZeroDivides(k + 1);
    DownIs(p, k + 1, 0);
  }

  // ---------- Accounting ----------

  /** Pages in n blocks of order o. */
  function BlockPages(o: nat, n: nat): nat {
    if n == 0 then 0 else BlockPages(o, n - 1) + Pow2(o)
  }

  lemma {:induction false} BlockPagesIsProduct(o: nat, n: nat)
    ensures BlockPages(o, n) == Pow2(o) * n
  {
    if n > 0 {
      BlockPagesIsProduct(o, n - 1);
      assert Pow2(o) * n == Pow2(o) * (n - 1) + Pow2(o);
    }
  }

  /** Pages on the lists of the first m orders. */
  function FreeUpTo(free: seq<seq<nat>>, m: nat): nat
    requires m <= |free|
  {
    if m == 0 then 0 else FreeUpTo(free, m - 1) + BlockPages(m - 1, |free[m - 1]|)
  }

  function FreePages(free: seq<seq<nat>>): nat {
    FreeUpTo(free, |free|)
  }

  lemma {:induction false} Relist(free: seq<seq<nat>>, o: nat, s: seq<nat>, m: nat)
    requires o < |free| && m <= |free|
    ensures FreeUpTo(free[o := s], m)
         == FreeUpTo(free, m) + (if o < m then BlockPages(o, |s|) - BlockPages(o, |free[o]|) else 0)
  {
    if m > 0 {
      Relist(free, o, s, m - 1);
    }
  }

  lemma RelistShorter(free: seq<seq<nat>>, o: nat, s: seq<nat>)
    requires o < |free| && |s| + 1 == |free[o]|
    ensures FreePages(free[o := s]) + Pow2(o) == FreePages(free)
  {
    Relist(free, o, s, |free|);
  }

  lemma RelistLonger(free: seq<seq<nat>>, o: nat, s: seq<nat>)
    requires o < |free| && |s| == |free[o]| + 1
    ensures FreePages(free[o := s]) == FreePages(free) + Pow2(o)
  {
    Relist(free, o, s, |free|);
  }

  /** Pages in live blocks, each counted at its full power-of-two size. */
  ghost function LivePages(live: map<nat, nat>): nat {
    if live == map[] then 0
    else
      var i :| i in live;
      Pow2(OrderOf(live[i])) + LivePages(live - {i})
  }

  lemma {:induction false} LivePagesRemove(live: map<nat, nat>, i: nat)
    requires i in live
    ensures LivePages(live) == Pow2(OrderOf(live[i])) + LivePages(live - {i})
    decreases |live|
  {
    var j :| j in live && LivePages(live) == Pow2(OrderOf(live[j])) + LivePages(live - {j});
    if i != j {
      LivePagesRemove(live - {j}, i);
      LivePagesRemove(live - {i}, j);
      assert live - {j} - {i} == live - {i} - {j};
    }
  }

  lemma LivePagesAdd(live: map<nat, nat>, i: nat, n: nat)
    requires i !in live
    ensures LivePages(live[i := n]) == LivePages(live) + Pow2(OrderOf(n))
  {
    LivePagesRemove(live[i := n], i);
    assert live[i := n] - {i} == live;
  }
}
