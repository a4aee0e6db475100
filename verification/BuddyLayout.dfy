/** The arrangement of blocks behind the buddy allocator of lab2/kern/mm/buddy_pmm.c: what a consistent
    arrangement is, how one splitting, merging or listing step changes it, and what it implies. */
module BuddyLayout {
  import opened Bits
  import opened Wrappers

  const MAX_ORDER: nat := 15

  /** The order of the block that serves n pages: the least r with 2^r >= n. */
  function OrderOf(n: nat): nat {
    if n <= 1 then 0 else 1 + OrderOf((n + 1) / 2)
  }

  lemma {:induction false} OrderOfIsLeast(n: nat)
    ensures n <= Pow2(OrderOf(n))
    ensures OrderOf(n) > 0 ==> Pow2(OrderOf(n) - 1) < n
  {
    if n > 1 {
      OrderOfIsLeast((n + 1) / 2);
      if OrderOf((n + 1) / 2) > 0 {
        assert Pow2(OrderOf(n) - 1) == 2 * Pow2(OrderOf(n) - 2);
      }
    }
  }

  /** Only one order is least. */
  lemma OrderOfUnique(n: nat, r: nat)
    requires n <= Pow2(r) && (r > 0 ==> Pow2(r - 1) < n)
    ensures r == OrderOf(n)
  {
    OrderOfIsLeast(n);
    if r < OrderOf(n) {
      Pow2Mono(r, OrderOf(n) - 1);
    } else if OrderOf(n) < r {
      Pow2Mono(OrderOf(n), r - 1);
    }
  }

  /** Index of the sibling of the block at i of order o. */
  function Buddy(i: nat, o: nat): nat {
    Xor(i, Pow2(o))
  }

  /** An arrangement of the 2^k managed pages.
      blk   order of each block, by its first page
      free  the free lists, by order
      live  allocated blocks with the page count they were requested for
      held  blocks in transit during a call, neither listed nor allocated */
  datatype Layout = Layout(k: nat, blk: map<nat, nat>, free: seq<seq<nat>>, live: map<nat, nat>, held: set<nat>)

  predicate InRange(k: nat, i: nat, o: nat) {
    o <= k && Divides(o, i) && i + Pow2(o) <= Pow2(k)
  }

  predicate Covers(blk: map<nat, nat>, i: nat, p: nat) {
    i in blk && i <= p < i + Pow2(blk[i])
  }

  ghost predicate Covered(blk: map<nat, nat>, p: nat) {
    exists i: nat :: Covers(blk, i, p)
  }

  ghost predicate AllInRange(k: nat, blk: map<nat, nat>) {
    forall i | i in blk :: InRange(k, i, blk[i])
  }

  ghost predicate Apart(blk: map<nat, nat>) {
    forall i, j | i in blk && j in blk && i < j :: i + Pow2(blk[i]) <= j
  }

  ghost predicate Covering(k: nat, blk: map<nat, nat>) {
    forall p: nat | p < Pow2(k) :: Covered(blk, p)
  }

  /** The blocks are naturally aligned powers of two that partition the managed pages. */
  ghost predicate Tiling(k: nat, blk: map<nat, nat>) {
    AllInRange(k, blk) && Apart(blk) && Covering(k, blk)
  }

  predicate IsFree(L: Layout, i: nat, o: nat) {
    o < |L.free| && i in L.free[o]
  }

  ghost predicate ListsOk(L: Layout) {
    && |L.free| == MAX_ORDER + 1
    && (forall o | 0 <= o <= MAX_ORDER :: NoDuplicates(L.free[o]))
    && (forall o: nat, i: nat :: IsFree(L, i, o) ==> i in L.blk && L.blk[i] == o && i !in L.live && i !in L.held)
  }

  ghost predicate LiveOk(L: Layout) {
    && (forall i :: i in L.live ==> i in L.blk && i !in L.held)
    && (forall i :: i in L.live ==> L.live[i] >= 1 && L.blk[i] == OrderOf(L.live[i]))
  }

  ghost predicate NoneLost(L: Layout) {
    && L.held <= L.blk.Keys
    && (forall i :: i in L.blk ==> i in L.live || i in L.held || IsFree(L, i, L.blk[i]))
  }

  /** Every block is either on the list of its order, or allocated, or in transit; nothing else is listed. */
  ghost predicate Sorted(L: Layout) {
    ListsOk(L) && LiveOk(L) && NoneLost(L)
  }

  ghost predicate Consistent(L: Layout) {
    L.k <= MAX_ORDER && Tiling(L.k, L.blk) && Sorted(L)
  }

  /** No two siblings are both free. */
  ghost predicate Coalesced(L: Layout) {
    forall o: nat, i: nat :: IsFree(L, i, o) && o < L.k ==> !IsFree(L, Buddy(i, o), o)
  }

  // ---------- Aligned intervals ----------

  /** Aligned blocks of growing size nest or are disjoint. */
  lemma Laminar(i: nat, a: nat, j: nat, b: nat)
    requires a <= b && Divides(a, i) && Divides(b, j)
    ensures i + Pow2(a) <= j || j + Pow2(b) <= i || (j <= i && i + Pow2(a) <= j + Pow2(b))
  {
    WeakerPower(a, b, j);
    PowerValuation(b);
    WeakerPower(a, b, Pow2(b));
    AddMultiples(a, j, Pow2(b));
    if i < j {
      MultiplesApart(a, i, j);
    } else if i < j + Pow2(b) {
      MultiplesApart(a, i, j + Pow2(b));
    }
  }

  lemma LowerHalf(k: nat, i: nat, o: nat)
    requires InRange(k, i, o) && o < k && Divides(o + 1, i)
    ensures Buddy(i, o) == i + Pow2(o) && Divides(o, i + Pow2(o)) && !Divides(o + 1, i + Pow2(o))
    ensures Buddy(i + Pow2(o), o) == i
    ensures i + 2 * Pow2(o) <= Pow2(k)
  {
    XorAligned(i, o);
    PowerValuation(o);
    AddMultiples(o, i, Pow2(o));
    if Divides(o + 1, i + Pow2(o)) {
      SubMultiples(o + 1, i + Pow2(o), i);
    }
    XorAligned(i + Pow2(o), o);
    PowerValuation(k);
    WeakerPower(o + 1, k, Pow2(k));
    MultiplesApart(o + 1, i, Pow2(k));
  }

  lemma UpperHalf(k: nat, i: nat, o: nat)
    requires InRange(k, i, o) && o < k && !Divides(o + 1, i)
    ensures Buddy(i, o) == i - Pow2(o) && i >= Pow2(o) && Divides(o, i - Pow2(o)) && Divides(o + 1, i - Pow2(o))
    ensures Buddy(i - Pow2(o), o) == i
  {
    XorAligned(i, o);
    WeakerPower(o, o + 1, i - Pow2(o));
    XorAligned(i - Pow2(o), o);
  }

  /** The sibling of an in-range block below the top order, and the block both halve. */
  lemma BuddyFacts(k: nat, i: nat, o: nat)
    requires InRange(k, i, o) && o < k
    ensures InRange(k, Buddy(i, o), o) && Buddy(Buddy(i, o), o) == i
    ensures Divides(o + 1, i) <==> Buddy(i, o) == i + Pow2(o)
    ensures !Divides(o + 1, i) <==> Buddy(i, o) == i - Pow2(o)
    ensures var h := if i < Buddy(i, o) then i else Buddy(i, o); InRange(k, h, o + 1)
  {
    if Divides(o + 1, i) {
      LowerHalf(k, i, o);
    } else {
      UpperHalf(k, i, o);
    }
  }

  /** At the top order the only block is at 0 and its sibling index is one past the managed pages. */
  lemma BuddyAtTop(k: nat, i: nat)
    requires InRange(k, i, k)
    ensures i == 0 && Buddy(i, k) == Pow2(k)
  {
    if i > 0 {
      ZeroDivides(k);
      MultiplesApart(k, 0, i);
    }
    ZeroDivides(k + 1);
    XorAligned(0, k);
  }

  lemma {:induction false} ZeroDivides(k: nat)
    ensures Divides(k, 0)
  {
    if k > 0 {
      ZeroDivides(k - 1);
    }
  }

  /** The page at a block's sibling index always starts a block, and one of at most the same order. */
  lemma SiblingIsHead(k: nat, blk: map<nat, nat>, i: nat)
    requires Tiling(k, blk) && i in blk && blk[i] < k
    ensures var b := Buddy(i, blk[i]); b in blk && blk[b] <= blk[i]
  {
    var o := blk[i];
    var b := Buddy(i, o);
    BuddyFacts(k, i, o);
    assert Covered(blk, b);
    var c: nat :| Covers(blk, c, b);
    if blk[c] > o {
      var h := if i < b then i else b;
      Laminar(h, o + 1, c, blk[c]);
      assert false;
    }
    Laminar(c, blk[c], b, o);
  }

  // ---------- Steps ----------

  /** list_del: s without its entry x. */
  function Without(s: seq<nat>, x: nat): seq<nat> {
    if s == [] then [] else if s[0] == x then s[1..] else [s[0]] + Without(s[1..], x)
  }

  lemma {:induction false} WithoutElements(s: seq<nat>, x: nat)
    requires NoDuplicates(s) && x in s
    ensures |Without(s, x)| == |s| - 1
    ensures forall y :: y in Without(s, x) <==> y in s && y != x
  {
    assert s == [s[0]] + s[1..];
    if s[0] != x {
      WithoutElements(s[1..], x);
    }
  }

  lemma {:induction false} WithoutFacts(s: seq<nat>, x: nat)
    requires NoDuplicates(s) && x in s
    ensures NoDuplicates(Without(s, x)) && |Without(s, x)| == |s| - 1
    ensures forall y :: y in Without(s, x) <==> y in s && y != x
  {
    WithoutElements(s, x);
    if s[0] != x {
      WithoutFacts(s[1..], x);
      FrontFacts(Without(s[1..], x), s[0]);
    }
  }

  lemma FrontFacts(s: seq<nat>, x: nat)
    requires NoDuplicates(s) && x !in s
    ensures NoDuplicates([x] + s)
    ensures forall y :: y in [x] + s <==> y in s || y == x
  {
  }

  /** Unlists the free block i of order o. */
  function Take(L: Layout, i: nat, o: nat): Layout
    requires IsFree(L, i, o)
  {
    L.(free := L.free[o := Without(L.free[o], i)], held := L.held + {i})
  }

  function Halve(blk: map<nat, nat>, i: nat): map<nat, nat>
    requires i in blk && blk[i] > 0
  {
    var c := blk[i] - 1;
    blk[i := c][i + Pow2(c) := c]
  }

  /** Halves the block i and lists its upper half first. */
  function Split(L: Layout, i: nat): Layout
    requires i in L.blk && 0 < L.blk[i] <= |L.free|
  {
    var c := L.blk[i] - 1;
    L.(blk := Halve(L.blk, i), free := L.free[c := [i + Pow2(c)] + L.free[c]])
  }

  function Commit(L: Layout, i: nat, n: nat): Layout {
    L.(live := L.live[i := n], held := L.held - {i})
  }

  function Release(L: Layout, i: nat): Layout {
    L.(live := L.live - {i}, held := L.held + {i})
  }

  function Lower(i: nat, o: nat): nat {
    if i < Buddy(i, o) then i else Buddy(i, o)
  }

  /** The two halves starting at h, each of order o, become one block. */
  function Fuse(blk: map<nat, nat>, h: nat, o: nat): map<nat, nat> {
    (blk - {h, h + Pow2(o)})[h := o + 1]
  }

  /** Unlists the sibling of i and fuses the two. */
  function Join(L: Layout, i: nat): Layout
    requires i in L.blk && L.blk[i] < |L.free|
  {
    var o := L.blk[i];
    L.(blk := Fuse(L.blk, Lower(i, o), o),
       free := L.free[o := Without(L.free[o], Buddy(i, o))],
       held := L.held - {i} + {Lower(i, o)})
  }

  /** Lists the block i first. */
  function Put(L: Layout, i: nat): Layout
    requires i in L.blk && L.blk[i] < |L.free|
  {
    var o := L.blk[i];
    L.(free := L.free[o := [i] + L.free[o]], held := L.held - {i})
  }

  lemma TakeKeeps(L: Layout, i: nat, o: nat)
    requires Consistent(L) && IsFree(L, i, o)
    ensures Consistent(Take(L, i, o)) && i in Take(L, i, o).blk
    ensures Coalesced(L) ==> Coalesced(Take(L, i, o))
  {
    WithoutFacts(L.free[o], i);
    var L' := Take(L, i, o);
    assert forall c: nat, j: nat :: IsFree(L', j, c) <==> IsFree(L, j, c) && j != i;
  }

  lemma HalfRanges(k: nat, i: nat, c: nat)
    requires InRange(k, i, c + 1)
    ensures InRange(k, i, c) && InRange(k, i + Pow2(c), c)
    ensures Buddy(i, c) == i + Pow2(c)
  {
    PowerValuation(c);
    WeakerPower(c, c + 1, i);
    AddMultiples(c, i, Pow2(c));
    XorAligned(i, c);
  }

  lemma HalveApart(blk: map<nat, nat>, i: nat)
    requires Apart(blk) && i in blk && blk[i] > 0
    ensures Apart(Halve(blk, i))
    ensures i + Pow2(blk[i] - 1) !in blk
  {
    var c := blk[i] - 1;
    var u := i + Pow2(c);
    forall x, y | x in Halve(blk, i) && y in Halve(blk, i) && x < y
      ensures x + Pow2(Halve(blk, i)[x]) <= y
    {
      if x == u {
        assert i + Pow2(blk[i]) <= y;
      } else if y == u && x != i {
        assert x + Pow2(blk[x]) <= i;
      }
    }
  }

  lemma HalveCovering(k: nat, blk: map<nat, nat>, i: nat)
    requires Covering(k, blk) && i in blk && blk[i] > 0 && i + Pow2(blk[i] - 1) !in blk
    ensures Covering(k, Halve(blk, i))
  {
    var u, blk' := i + Pow2(blk[i] - 1), Halve(blk, i);
    forall p: nat | p < Pow2(k) ensures Covered(blk', p) {
      assert Covered(blk, p);
      var j: nat :| Covers(blk, j, p);
      var j' := if j == i && p >= u then u else j;
      assert Covers(blk', j', p);
    }
  }

  lemma HalveInRange(k: nat, blk: map<nat, nat>, i: nat)
    requires AllInRange(k, blk) && i in blk && blk[i] > 0
    ensures AllInRange(k, Halve(blk, i))
  {
    HalfRanges(k, i, blk[i] - 1);
  }

  lemma HalveKeepsTiling(k: nat, blk: map<nat, nat>, i: nat)
    requires Tiling(k, blk) && i in blk && blk[i] > 0
    ensures Tiling(k, Halve(blk, i))
    ensures i + Pow2(blk[i] - 1) !in blk
  {
    HalveApart(blk, i);
    HalveInRange(k, blk, i);
    HalveCovering(k, blk, i);
  }

  /** The lists after i is halved, in terms of membership. */
  ghost predicate SplitListed(L: Layout, L': Layout, i: nat)
    requires i in L.blk && L.blk[i] > 0
  {
    && |L'.free| == MAX_ORDER + 1
    && (forall o | 0 <= o <= MAX_ORDER :: NoDuplicates(L'.free[o]))
    && (forall o: nat, j: nat ::
          IsFree(L', j, o) <==> IsFree(L, j, o) || (j == i + Pow2(L.blk[i] - 1) && o == L.blk[i] - 1))
  }

  lemma SplitLists(L: Layout, i: nat)
    requires ListsOk(L) && i in L.blk && 0 < L.blk[i] <= MAX_ORDER && i + Pow2(L.blk[i] - 1) !in L.blk
    ensures SplitListed(L, Split(L, i), i)
  {
    var c := L.blk[i] - 1;
    assert !IsFree(L, i + Pow2(c), c);
    FrontFacts(L.free[c], i + Pow2(c));
  }

  lemma SplitSorted(L: Layout, i: nat)
    requires Sorted(L) && i in L.held && i in L.blk && 0 < L.blk[i] <= MAX_ORDER
    requires i + Pow2(L.blk[i] - 1) !in L.blk && SplitListed(L, Split(L, i), i)
    ensures Sorted(Split(L, i))
  {
  }

  lemma SplitKeeps(L: Layout, i: nat)
    requires Consistent(L) && Coalesced(L) && i in L.held && L.blk[i] > 0
    ensures Consistent(Split(L, i)) && Coalesced(Split(L, i))
    ensures i in Split(L, i).held && i in Split(L, i).blk && Split(L, i).blk[i] == L.blk[i] - 1
  {
    assert L.blk[i] <= MAX_ORDER by { assert InRange(L.k, i, L.blk[i]); }
    HalveKeepsTiling(L.k, L.blk, i);
    SplitLists(L, i);
    SplitSorted(L, i);
    SplitCoalesced(L, i);
  }

  lemma SplitCoalesced(L: Layout, i: nat)
    requires Coalesced(L) && ListsOk(L) && i in L.held && i in L.blk && 0 < L.blk[i] <= MAX_ORDER
    requires InRange(L.k, i, L.blk[i]) && SplitListed(L, Split(L, i), i)
    requires AllInRange(L.k, Split(L, i).blk) && ListsOk(Split(L, i))
    ensures Coalesced(Split(L, i))
  {
    var c := L.blk[i] - 1;
    HalfRanges(L.k, i, c);
    BuddyFacts(L.k, i, c);
    Listing(L, Split(L, i), i + Pow2(c), c);
  }

  /** Listing one block keeps the free blocks coalesced when its sibling is not listed. */
  lemma Listing(L: Layout, L': Layout, i: nat, o: nat)
    requires Coalesced(L) && L'.k == L.k && AllInRange(L'.k, L'.blk) && ListsOk(L')
    requires forall c: nat, j: nat :: IsFree(L', j, c) <==> IsFree(L, j, c) || (j == i && c == o)
    requires o < L.k ==> !IsFree(L, Buddy(i, o), o)
    ensures Coalesced(L')
  {
    forall c: nat, j: nat | IsFree(L', j, c) && c < L'.k ensures !IsFree(L', Buddy(j, c), c) {
      BuddyFacts(L'.k, j, c);
    }
  }

  lemma CommitKeeps(L: Layout, i: nat, n: nat)
    requires Consistent(L) && i in L.held && n >= 1 && L.blk[i] == OrderOf(n)
    ensures Consistent(Commit(L, i, n))
    ensures Coalesced(L) ==> Coalesced(Commit(L, i, n))
  {
    assert forall o: nat, j: nat :: IsFree(Commit(L, i, n), j, o) <==> IsFree(L, j, o);
  }

  lemma ReleaseKeeps(L: Layout, i: nat)
    requires Consistent(L) && i in L.live
    ensures Consistent(Release(L, i))
    ensures Coalesced(L) ==> Coalesced(Release(L, i))
  {
    assert forall o: nat, j: nat :: IsFree(Release(L, i), j, o) <==> IsFree(L, j, o);
  }

  /** A block and its sibling are the two halves starting at the lower of them. */
  lemma Halves(k: nat, i: nat, o: nat)
    requires InRange(k, i, o) && o < k
    ensures var b, h := Buddy(i, o), Lower(i, o);
            && InRange(k, h, o + 1)
            && ((i == h && b == h + Pow2(o)) || (b == h && i == h + Pow2(o)))
  {
    BuddyFacts(k, i, o);
  }

  lemma FuseApart(blk: map<nat, nat>, h: nat, o: nat)
    requires Apart(blk) && h in blk && h + Pow2(o) in blk && blk[h] == o && blk[h + Pow2(o)] == o
    ensures Apart(Fuse(blk, h, o))
  {
    var u: nat, blk' := h + Pow2(o), Fuse(blk, h, o);
    forall x, y | x in blk' && y in blk' && x < y ensures x + Pow2(blk'[x]) <= y {
      if x == h {
        assert y >= u;
        assert u + Pow2(blk[u]) <= y;
      } else {
        assert x + Pow2(blk[x]) <= y;
      }
    }
  }

  lemma FuseCovering(k: nat, blk: map<nat, nat>, h: nat, o: nat)
    requires Covering(k, blk) && h in blk && h + Pow2(o) in blk && blk[h] == o && blk[h + Pow2(o)] == o
    ensures Covering(k, Fuse(blk, h, o))
  {
    var u: nat, blk' := h + Pow2(o), Fuse(blk, h, o);
    forall p: nat | p < Pow2(k) ensures Covered(blk', p) {
      assert Covered(blk, p);
      var j: nat :| Covers(blk, j, p);
      var j' := if j == u then h else j;
      assert Covers(blk', j', p);
    }
  }

  lemma FuseKeepsTiling(k: nat, blk: map<nat, nat>, h: nat, o: nat)
    requires Tiling(k, blk) && InRange(k, h, o + 1)
    requires h in blk && h + Pow2(o) in blk && blk[h] == o && blk[h + Pow2(o)] == o
    ensures Tiling(k, Fuse(blk, h, o))
  {
    FuseApart(blk, h, o);
    FuseCovering(k, blk, h, o);
  }

  /** The two blocks of a fusion: i in transit, its sibling listed, h the lower of them. */
  ghost predicate Fusable(L: Layout, i: nat, o: nat, h: nat) {
    && i in L.blk && L.blk[i] == o && i in L.held && o < L.k && h == Lower(i, o)
    && IsFree(L, Buddy(i, o), o)
    && InRange(L.k, h, o + 1)
    && ((i == h && Buddy(i, o) == h + Pow2(o)) || (Buddy(i, o) == h && i == h + Pow2(o)))
  }

  ghost predicate JoinListed(L: Layout, L': Layout, b: nat) {
    && |L'.free| == MAX_ORDER + 1
    && (forall o | 0 <= o <= MAX_ORDER :: NoDuplicates(L'.free[o]))
    && (forall c: nat, j: nat :: IsFree(L', j, c) <==> IsFree(L, j, c) && j != b)
  }

  lemma JoinLists(L: Layout, i: nat, o: nat, h: nat)
    requires ListsOk(L) && Fusable(L, i, o, h)
    ensures JoinListed(L, Join(L, i), Buddy(i, o))
  {
    WithoutFacts(L.free[o], Buddy(i, o));
  }

  lemma JoinSorted(L: Layout, i: nat, o: nat, h: nat)
    requires Sorted(L) && Fusable(L, i, o, h) && JoinListed(L, Join(L, i), Buddy(i, o))
    ensures Sorted(Join(L, i))
  {
    var L', b := Join(L, i), Buddy(i, o);
    assert L'.blk.Keys == L.blk.Keys - {i, b} + {h};
    assert forall j :: j in L'.blk && j != h ==> j in L.blk && L'.blk[j] == L.blk[j];
    assert L'.held == L.held - {i} + {h};
  }

  lemma JoinCoalesced(L: Layout, L': Layout, b: nat)
    requires Coalesced(L) && JoinListed(L, L', b) && L'.k == L.k
    ensures Coalesced(L')
  {
  }

  lemma JoinTiling(L: Layout, i: nat, o: nat, h: nat)
    requires Tiling(L.k, L.blk) && ListsOk(L) && Fusable(L, i, o, h)
    ensures Tiling(L.k, Join(L, i).blk)
  {
    FuseKeepsTiling(L.k, L.blk, h, o);
  }

  lemma JoinKeeps(L: Layout, i: nat)
    requires Consistent(L) && Coalesced(L) && i in L.held && L.blk[i] < L.k
    requires IsFree(L, Buddy(i, L.blk[i]), L.blk[i])
    ensures Consistent(Join(L, i)) && Coalesced(Join(L, i))
  {
    var o := L.blk[i];
    var h := Lower(i, o);
    Halves(L.k, i, o);
    JoinLists(L, i, o, h);
    JoinSorted(L, i, o, h);
    JoinTiling(L, i, o, h);
    JoinCoalesced(L, Join(L, i), Buddy(i, o));
  }

  lemma PutLists(L: Layout, i: nat)
    requires Consistent(L) && i in L.held
    ensures |Put(L, i).free| == MAX_ORDER + 1
    ensures forall o | 0 <= o <= MAX_ORDER :: NoDuplicates(Put(L, i).free[o])
    ensures forall c: nat, j: nat :: IsFree(Put(L, i), j, c) <==> IsFree(L, j, c) || (j == i && c == L.blk[i])
  {
    assert !IsFree(L, i, L.blk[i]);
    FrontFacts(L.free[L.blk[i]], i);
  }

  lemma PutKeeps(L: Layout, i: nat)
    requires Consistent(L) && i in L.held
    ensures Consistent(Put(L, i))
    ensures Coalesced(L) && (L.blk[i] < L.k ==> !IsFree(L, Buddy(i, L.blk[i]), L.blk[i])) ==> Coalesced(Put(L, i))
  {
    PutLists(L, i);
    if Coalesced(L) && (L.blk[i] < L.k ==> !IsFree(L, Buddy(i, L.blk[i]), L.blk[i])) {
      Listing(L, Put(L, i), i, L.blk[i]);
    }
  }
}
