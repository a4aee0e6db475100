/** The free list of the SLOB allocator (lab4/kern/mm/kmalloc.c) as a value: block headers in unit-addressed
    memory that form one address-ordered cycle of separated blocks. */
module SlobRing {
  import opened Cycle

  /** Headers by unit address: block length in units, and the address the header links to. */
  type Words = map<nat, nat>

  /** Blocks in address order, each nonempty and none touching the next. */
  ghost predicate Ascending(units: Words, ring: seq<nat>) {
    && (forall i | 0 <= i < |ring| :: ring[i] in units && units[ring[i]] >= 1)
    && (forall i, j | 0 <= i < j < |ring| :: ring[i] + units[ring[i]] < ring[j])
  }

  /** Each header links to the next block, and the last one back to the first. */
  ghost predicate Linked(next: Words, ring: seq<nat>) {
    forall i | 0 <= i < |ring| :: LinkOk(next, ring, i)
  }

  predicate LinkOk(next: Words, ring: seq<nat>, i: nat)
    requires i < |ring|
  {
    ring[i] in next && next[ring[i]] == ring[After(i, |ring|)]
  }

  ghost predicate RingOk(units: Words, next: Words, ring: seq<nat>) {
    |ring| >= 1 && Ascending(units, ring) && Linked(next, ring)
  }

  predicate InBlock(a: nat, n: nat, x: nat) {
    a <= x < a + n
  }

  lemma LinkAt(next: Words, ring: seq<nat>, i: nat)
    requires Linked(next, ring) && i < |ring|
    ensures ring[i] in next && next[ring[i]] == ring[After(i, |ring|)]
  {
    assert LinkOk(next, ring, i);
  }

  lemma Different(units: Words, ring: seq<nat>, i: nat, j: nat)
    requires Ascending(units, ring) && i < |ring| && j < |ring| && i != j
    ensures ring[i] != ring[j]
  {
  }

  /** The units held by the blocks of the free list. */
  ghost predicate FreeUnit(units: Words, ring: seq<nat>, x: nat) {
    exists i :: 0 <= i < |ring| && ring[i] in units && InBlock(ring[i], units[ring[i]], x)
  }

  /** Walking the list, the address drops exactly once, from the last block to the first. */
  lemma OneDescent(units: Words, next: Words, ring: seq<nat>, i: nat)
    requires RingOk(units, next, ring) && i < |ring|
    ensures ring[i] in next && (next[ring[i]] <= ring[i] <==> i == |ring| - 1)
  {
    LinkAt(next, ring, i);
  }

  // ---------- Where a returned block belongs ----------

  /** b lies in none of the blocks. */
  ghost predicate Outside(units: Words, ring: seq<nat>, b: nat, n: nat) {
    forall i | 0 <= i < |ring| :: ring[i] in units && (b + n <= ring[i] || ring[i] + units[ring[i]] <= b)
  }

  /** The number of blocks below address b. */
  function Position(ring: seq<nat>, b: nat): (p: nat)
    ensures p <= |ring|
  {
    if ring == [] || ring[0] > b then 0 else 1 + Position(ring[1..], b)
  }

  ghost predicate Splits(ring: seq<nat>, p: nat, b: nat) {
    p <= |ring| && (forall i | 0 <= i < p :: ring[i] < b) && (forall i | p <= i < |ring| :: b < ring[i])
  }

  lemma {:induction false} PositionSplits(units: Words, ring: seq<nat>, b: nat, n: nat)
    requires Ascending(units, ring) && Outside(units, ring, b, n) && n >= 1
    ensures Splits(ring, Position(ring, b), b)
  {
    if ring != [] && ring[0] <= b {
      assert ring == [ring[0]] + ring[1..];
      PositionSplits(units, ring[1..], b, n);
    }
  }

  /** Index of the block after which b is inserted: the one below it, or the last one when b is lowest. */
  function Predecessor(ring: seq<nat>, b: nat): nat
    requires ring != []
  {
    if Position(ring, b) == 0 then |ring| - 1 else Position(ring, b) - 1
  }

  /** The exit condition of the reinsertion search. */
  predicate GapFound(cur: nat, after: nat, b: nat) {
    (b > cur && b < after) || (cur >= after && (b > cur || b < after))
  }

  /** The search stops at exactly one block of the list. */
  lemma GapIsUnique(units: Words, next: Words, ring: seq<nat>, b: nat, n: nat, i: nat)
    requires RingOk(units, next, ring) && Outside(units, ring, b, n) && n >= 1 && i < |ring|
    ensures ring[i] in next
    ensures GapFound(ring[i], next[ring[i]], b) <==> i == Predecessor(ring, b)
  {
    PositionSplits(units, ring, b, n);
    OneDescent(units, next, ring, i);
    LinkAt(next, ring, i);
  }

  // ---------- Exchanging a stretch of blocks for one ----------

  /** The list with the blocks from index k up to m replaced by the one block at s. */
  function Spliced(ring: seq<nat>, k: nat, m: nat, s: nat): seq<nat>
    requires k <= m <= |ring|
  {
    ring[..k] + [s] + ring[m..]
  }

  ghost predicate SameHeaders(units: Words, units': Words, ring: seq<nat>, k: nat, m: nat) {
    forall i | 0 <= i < |ring| && (i < k || m <= i) ::
      ring[i] in units && ring[i] in units' && units'[ring[i]] == units[ring[i]]
  }

  /** s with len units fits strictly between block k - 1 and block m. */
  ghost predicate FitsBetween(units: Words, ring: seq<nat>, k: nat, m: nat, s: nat, len: nat) {
    && k <= m <= |ring| && len >= 1
    && (k > 0 ==> ring[k - 1] in units && ring[k - 1] + units[ring[k - 1]] < s)
    && (m < |ring| ==> s + len < ring[m])
  }

  lemma SpliceAscending(units: Words, units': Words, ring: seq<nat>, k: nat, m: nat, s: nat, len: nat)
    requires Ascending(units, ring) && FitsBetween(units, ring, k, m, s, len)
    requires SameHeaders(units, units', ring, k, m) && s in units' && units'[s] == len
    ensures Ascending(units', Spliced(ring, k, m, s))
  {
    SplicedHeaders(units, units', ring, k, m, s, len);
    var r := Spliced(ring, k, m, s);
    forall i, j | 0 <= i < j < |r| ensures r[i] + units'[r[i]] < r[j] {
      var i' := if i <= k then i else i - k - 1 + m;
      var j' := if j <= k then j else j - k - 1 + m;
      assert i != k ==> r[i] == ring[i'];
      assert j != k ==> r[j] == ring[j'];
      if i == k && j' > m {
        assert ring[m] + units[ring[m]] < ring[j'];
      } else if j == k && i' + 1 < k {
        assert ring[i'] + units[ring[i']] < ring[k - 1];
      }
    }
  }

  lemma SplicedHeaders(units: Words, units': Words, ring: seq<nat>, k: nat, m: nat, s: nat, len: nat)
    requires Ascending(units, ring) && k <= m <= |ring| && len >= 1
    requires SameHeaders(units, units', ring, k, m) && s in units' && units'[s] == len
    ensures var r := Spliced(ring, k, m, s); forall i | 0 <= i < |r| :: r[i] in units' && units'[r[i]] >= 1
  {
    var r := Spliced(ring, k, m, s);
    forall i | 0 <= i < |r| ensures r[i] in units' && units'[r[i]] >= 1 {
      var i' := if i <= k then i else i - k - 1 + m;
      assert i != k ==> r[i] == ring[i'];
    }
  }

  /** What the links must be for the list to close around s. */
  ghost predicate LinksAround(next: Words, ring: seq<nat>, k: nat, m: nat, s: nat) {
    && k <= m <= |ring|
    && s in next && next[s] == (if m < |ring| then ring[m] else if k > 0 then ring[0] else s)
    && (k > 0 ==> ring[k - 1] in next && next[ring[k - 1]] == s)
    && (m < |ring| ==> ring[|ring| - 1] in next && next[ring[|ring| - 1]] == if k > 0 then ring[0] else s)
    && (forall i | 0 <= i < |ring| - 1 && (i < k - 1 || m <= i) :: ring[i] in next && next[ring[i]] == ring[i + 1])
  }

  lemma SpliceLinked(next: Words, ring: seq<nat>, k: nat, m: nat, s: nat)
    requires LinksAround(next, ring, k, m, s)
    ensures Linked(next, Spliced(ring, k, m, s))
  {
    var r := Spliced(ring, k, m, s);
    forall i | 0 <= i < |r| ensures LinkOk(next, r, i) {
      var i' := if i <= k then i else i - k - 1 + m;
      assert i != k ==> r[i] == ring[i'];
      if i < k - 1 {
        assert r[i + 1] == ring[i + 1];
      } else if i > k && i + 1 < |r| {
        assert r[i + 1] == ring[i' + 1];
      }
    }
  }

  lemma SpliceUnits(units: Words, units': Words, ring: seq<nat>, k: nat, m: nat, s: nat, len: nat, x: nat)
    requires k <= m <= |ring| && SameHeaders(units, units', ring, k, m) && s in units' && units'[s] == len
    ensures FreeUnit(units', Spliced(ring, k, m, s), x) <==>
              InBlock(s, len, x) || FreeUnit(units, ring[..k], x) || FreeUnit(units, ring[m..], x)
  {
    var r := Spliced(ring, k, m, s);
    assert r[k] == s;
    if FreeUnit(units', r, x) {
      var i :| 0 <= i < |r| && r[i] in units' && InBlock(r[i], units'[r[i]], x);
      if i < k {
        assert r[i] == ring[i] == ring[..k][i];
      } else if i > k {
        assert r[i] == ring[i - k - 1 + m] == ring[m..][i - k - 1];
      }
    }
    if FreeUnit(units, ring[..k], x) {
      var i :| 0 <= i < k && ring[..k][i] in units && InBlock(ring[..k][i], units[ring[..k][i]], x);
      assert r[i] == ring[i];
    }
    if FreeUnit(units, ring[m..], x) {
      var i :| 0 <= i < |ring[m..]| && ring[m..][i] in units && InBlock(ring[m..][i], units[ring[m..][i]], x);
      assert r[k + 1 + i] == ring[m + i];
    }
  }

  lemma UnitsSplit(units: Words, ring: seq<nat>, k: nat, x: nat)
    requires k <= |ring|
    ensures FreeUnit(units, ring, x) <==> FreeUnit(units, ring[..k], x) || FreeUnit(units, ring[k..], x)
  {
    if FreeUnit(units, ring, x) {
      var i :| 0 <= i < |ring| && ring[i] in units && InBlock(ring[i], units[ring[i]], x);
      if i < k {
        assert ring[..k][i] == ring[i];
      } else {
        assert ring[k..][i - k] == ring[i];
      }
    }
    if FreeUnit(units, ring[..k], x) {
      var i :| 0 <= i < k && ring[..k][i] in units && InBlock(ring[..k][i], units[ring[..k][i]], x);
      assert ring[..k][i] == ring[i];
    }
    if FreeUnit(units, ring[k..], x) {
      var i :| 0 <= i < |ring[k..]| && ring[k..][i] in units && InBlock(ring[k..][i], units[ring[k..][i]], x);
      assert ring[k..][i] == ring[k + i];
    }
  }

  /** The units of one block. */
  lemma UnitsOfOne(units: Words, a: nat, x: nat)
    requires a in units
    ensures FreeUnit(units, [a], x) <==> InBlock(a, units[a], x)
  {
    if InBlock(a, units[a], x) {
      assert [a][0] == a;
    }
  }

  // ---------- Taking a block out ----------

  function Unlinked(ring: seq<nat>, k: nat): seq<nat>
    requires k < |ring|
  {
    ring[..k] + ring[k + 1..]
  }

  lemma UnlinkAscending(units: Words, ring: seq<nat>, k: nat)
    requires Ascending(units, ring) && k < |ring|
    ensures Ascending(units, Unlinked(ring, k))
  {
    var r := Unlinked(ring, k);
    assert forall i {:trigger r[i]} | 0 <= i < |r| :: r[i] == if i < k then ring[i] else ring[i + 1];
  }

  lemma UnlinkLinked(next: Words, ring: seq<nat>, k: nat)
    requires k < |ring| && |ring| >= 2
    requires LinkedBut(next, ring, Before(k, |ring|))
    requires var c := ring[Before(k, |ring|)]; c in next && next[c] == ring[After(k, |ring|)]
    ensures Linked(next, Unlinked(ring, k))
  {
    var r := Unlinked(ring, k);
    forall i | 0 <= i < |r| ensures LinkOk(next, r, i) {
      var i' := if i < k then i else i + 1;
      assert r[i] == ring[i'] && (i' != Before(k, |ring|) ==> LinkOk(next, ring, i'));
    }
  }

  ghost predicate LinkedBut(next: Words, ring: seq<nat>, k: nat) {
    forall i | 0 <= i < |ring| && i != k :: LinkOk(next, ring, i)
  }

  /** Redirecting one link leaves the others. */
  lemma Relinked(units: Words, next: Words, next': Words, ring: seq<nat>, k: nat, v: nat)
    requires RingOk(units, next, ring) && k < |ring| && next' == next[ring[k] := v]
    ensures LinkedBut(next', ring, k)
  {
    forall i | 0 <= i < |ring| && i != k ensures LinkOk(next', ring, i) {
      LinkAt(next, ring, i);
      Different(units, ring, i, k);
    }
  }

  lemma UnlinkKeeps(units: Words, next: Words, next': Words, ring: seq<nat>, k: nat)
    requires RingOk(units, next, ring) && k < |ring| && |ring| >= 2
    requires ring[k] in next && next' == next[ring[Before(k, |ring|)] := next[ring[k]]]
    ensures RingOk(units, next', Unlinked(ring, k))
  {
    UnlinkAscending(units, ring, k);
    LinkAt(next, ring, k);
    Relinked(units, next, next', ring, Before(k, |ring|), next[ring[k]]);
    UnlinkLinked(next', ring, k);
  }

  lemma BlocksDisjoint(units: Words, ring: seq<nat>, i: nat, k: nat, x: nat)
    requires Ascending(units, ring) && i < |ring| && k < |ring| && i != k
    ensures ring[i] in units && ring[k] in units
    ensures InBlock(ring[i], units[ring[i]], x) ==> !InBlock(ring[k], units[ring[k]], x)
  {
  }

  lemma SidesDisjoint(units: Words, ring: seq<nat>, k: nat, x: nat)
    requires Ascending(units, ring) && k < |ring|
    ensures ring[k] in units
    ensures FreeUnit(units, ring[..k], x) || FreeUnit(units, ring[k + 1..], x) ==> !InBlock(ring[k], units[ring[k]], x)
  {
    if FreeUnit(units, ring[..k], x) {
      var i :| 0 <= i < k && ring[..k][i] in units && InBlock(ring[..k][i], units[ring[..k][i]], x);
      BlocksDisjoint(units, ring, i, k, x);
    } else if FreeUnit(units, ring[k + 1..], x) {
      var i :| 0 <= i < |ring| - k - 1 && ring[k + 1..][i] in units
               && InBlock(ring[k + 1..][i], units[ring[k + 1..][i]], x);
      BlocksDisjoint(units, ring, k + 1 + i, k, x);
    }
  }

  lemma UnlinkUnits(units: Words, ring: seq<nat>, k: nat, x: nat)
    requires Ascending(units, ring) && k < |ring|
    ensures FreeUnit(units, Unlinked(ring, k), x) <==> FreeUnit(units, ring, x) && !InBlock(ring[k], units[ring[k]], x)
  {
    SidesDisjoint(units, ring, k, x);
    UnitsSplit(units, ring, k, x);
    UnitsSplit(units, ring[k..], 1, x);
    assert ring[k..][..1] == [ring[k]] && ring[k..][1..] == ring[k + 1..];
    UnitsOfOne(units, ring[k], x);
    UnitsSplit(units, Unlinked(ring, k), k, x);
    assert Unlinked(ring, k)[..k] == ring[..k] && Unlinked(ring, k)[k..] == ring[k + 1..];
    hide FreeUnit, InBlock, Ascending;
  }

  /** Cutting u units off the front of block k leaves the rest of it on the list. */
  lemma FragmentKeeps(units: Words, next: Words, ring: seq<nat>, k: nat, u: nat, units': Words, next': Words)
    requires RingOk(units, next, ring) && k < |ring| && |ring| >= 2 && 1 <= u < units[ring[k]]
    requires var f := ring[k] + u;
             && units' == units[f := units[ring[k]] - u][ring[k] := u]
             && ring[k] in next && next' == next[ring[Before(k, |ring|)] := f][f := next[ring[k]]]
    ensures RingOk(units', next', Spliced(ring, k, k + 1, ring[k] + u))
  {
    var f := ring[k] + u;
    LinkAt(next, ring, k);
    FragmentHeaders(units, ring, k, u);
    Relinked(units, next, next[ring[Before(k, |ring|)] := f], ring, Before(k, |ring|), f);
    forall i | 0 <= i < |ring| && i != Before(k, |ring|) ensures LinkOk(next', ring, i) {
      assert LinkOk(next[ring[Before(k, |ring|)] := f], ring, i);
    }
    FragmentLinks(next', ring, k, f);
    SpliceLinked(next', ring, k, k + 1, f);
    SpliceAscending(units, units', ring, k, k + 1, f, units[ring[k]] - u);
  }

  lemma FragmentHeaders(units: Words, ring: seq<nat>, k: nat, u: nat)
    requires Ascending(units, ring) && k < |ring| && 1 <= u < units[ring[k]]
    ensures forall i | 0 <= i < |ring| :: ring[i] != ring[k] + u
    ensures SameHeaders(units, units[ring[k] + u := units[ring[k]] - u][ring[k] := u], ring, k, k + 1)
    ensures FitsBetween(units, ring, k, k + 1, ring[k] + u, units[ring[k]] - u)
  {
  }

  lemma FragmentLinks(next: Words, ring: seq<nat>, k: nat, f: nat)
    requires k < |ring| && |ring| >= 2
    requires LinkedBut(next, ring, Before(k, |ring|))
    requires var c := ring[Before(k, |ring|)]; c in next && next[c] == f
    requires f in next && next[f] == ring[After(k, |ring|)]
    ensures LinksAround(next, ring, k, k + 1, f)
  {
    forall i | 0 <= i < |ring| - 1 && (i < k - 1 || k + 1 <= i)
      ensures ring[i] in next && next[ring[i]] == ring[i + 1]
    {
      assert LinkOk(next, ring, i);
    }
    assert k < |ring| - 1 && k > 0 ==> LinkOk(next, ring, |ring| - 1);
  }

  lemma FragmentUnits(units: Words, ring: seq<nat>, k: nat, u: nat, x: nat)
    requires Ascending(units, ring) && k < |ring| && 1 <= u < units[ring[k]]
    ensures var units' := units[ring[k] + u := units[ring[k]] - u][ring[k] := u];
            FreeUnit(units', Spliced(ring, k, k + 1, ring[k] + u), x)
            <==> FreeUnit(units, ring, x) && !InBlock(ring[k], u, x)
  {
    var units' := units[ring[k] + u := units[ring[k]] - u][ring[k] := u];
    FragmentHeaders(units, ring, k, u);
    SpliceUnits(units, units', ring, k, k + 1, ring[k] + u, units[ring[k]] - u, x);
    UnlinkUnits(units, ring, k, x);
    UnitsSplit(units, Unlinked(ring, k), k, x);
    assert Unlinked(ring, k)[..k] == ring[..k] && Unlinked(ring, k)[k..] == ring[k + 1..];
    if InBlock(ring[k], units[ring[k]], x) {
      assert FreeUnit(units, ring, x);
    }
  }

  // ---------- Returning a block ----------

  /** The stretch of the list that a returned block of n units at b replaces: nothing, a touching neighbour on
      either side, or both. */
  function First(units: Words, ring: seq<nat>, p: nat, b: nat): nat
    requires p <= |ring|
  {
    if p > 0 && ring[p - 1] in units && ring[p - 1] + units[ring[p - 1]] == b then p - 1 else p
  }

  function Last(ring: seq<nat>, p: nat, b: nat, n: nat): nat
    requires p <= |ring|
  {
    if p < |ring| && b + n == ring[p] then p + 1 else p
  }

  /** Start and length of the block the returned one ends up in. */
  function Start(units: Words, ring: seq<nat>, p: nat, b: nat): nat
    requires p <= |ring|
  {
    if First(units, ring, p, b) < p then ring[p - 1] else b
  }

  function Length(units: Words, ring: seq<nat>, p: nat, b: nat, n: nat): nat
    requires p <= |ring|
  {
    (if First(units, ring, p, b) < p then units[ring[p - 1]] else 0)
    + n
    + (if Last(ring, p, b, n) > p && ring[p] in units then units[ring[p]] else 0)
  }

  function Returned(units: Words, ring: seq<nat>, p: nat, b: nat, n: nat): seq<nat>
    requires p <= |ring|
  {
    Spliced(ring, First(units, ring, p, b), Last(ring, p, b, n), Start(units, ring, p, b))
  }

  /** What reinsertion may rely on. */
  ghost predicate Returnable(units: Words, ring: seq<nat>, p: nat, b: nat, n: nat) {
    Ascending(units, ring) && Outside(units, ring, b, n) && n >= 1 && p <= |ring| && Splits(ring, p, b)
  }

  lemma ReturnFits(units: Words, ring: seq<nat>, p: nat, b: nat, n: nat)
    requires Returnable(units, ring, p, b, n)
    ensures FitsBetween(units, ring, First(units, ring, p, b), Last(ring, p, b, n),
                        Start(units, ring, p, b), Length(units, ring, p, b, n))
  {
    if p > 0 {
      assert ring[p - 1] + units[ring[p - 1]] <= b;
    }
    if p < |ring| {
      assert b + n <= ring[p];
    }
  }

  lemma ReturnUnits(units: Words, units': Words, ring: seq<nat>, p: nat, b: nat, n: nat, x: nat)
    requires Returnable(units, ring, p, b, n)
    requires SameHeaders(units, units', ring, First(units, ring, p, b), Last(ring, p, b, n))
    requires var s := Start(units, ring, p, b); s in units' && units'[s] == Length(units, ring, p, b, n)
    ensures FreeUnit(units', Returned(units, ring, p, b, n), x) <==> FreeUnit(units, ring, x) || InBlock(b, n, x)
  {
    var k, m := First(units, ring, p, b), Last(ring, p, b, n);
    hide *;
    ReturnBounds(units, ring, p, b, n);
    SpliceUnits(units, units', ring, k, m, Start(units, ring, p, b), Length(units, ring, p, b, n), x);
    UnitsInThree(units, ring, k, m, x);
    MiddleUnits(units, ring, p, b, n, x);
    ReturnedIsSpliced(units, ring, p, b, n);
  }

  lemma ReturnBounds(units: Words, ring: seq<nat>, p: nat, b: nat, n: nat)
    requires p <= |ring|
    ensures First(units, ring, p, b) <= p <= Last(ring, p, b, n) <= |ring|
  {
  }

  lemma ReturnedIsSpliced(units: Words, ring: seq<nat>, p: nat, b: nat, n: nat)
    requires p <= |ring|
    ensures First(units, ring, p, b) <= Last(ring, p, b, n) <= |ring|
    ensures Returned(units, ring, p, b, n)
         == Spliced(ring, First(units, ring, p, b), Last(ring, p, b, n), Start(units, ring, p, b))
  {
  }

  lemma UnitsInThree(units: Words, ring: seq<nat>, k: nat, m: nat, x: nat)
    requires k <= m <= |ring|
    ensures FreeUnit(units, ring, x) <==>
              FreeUnit(units, ring[..k], x) || FreeUnit(units, ring[k..m], x) || FreeUnit(units, ring[m..], x)
  {
    UnitsSplit(units, ring, k, x);
    UnitsSplit(units, ring[k..], m - k, x);
    assert ring[k..][m - k..] == ring[m..] && ring[k..][..m - k] == ring[k..m];
  }

  lemma MiddleUnits(units: Words, ring: seq<nat>, p: nat, b: nat, n: nat, x: nat)
    requires Returnable(units, ring, p, b, n)
    ensures First(units, ring, p, b) <= Last(ring, p, b, n) <= |ring|
    ensures InBlock(Start(units, ring, p, b), Length(units, ring, p, b, n), x)
            <==> InBlock(b, n, x) || FreeUnit(units, ring[First(units, ring, p, b)..Last(ring, p, b, n)], x)
  {
    var k, m := First(units, ring, p, b), Last(ring, p, b, n);
    var mid := ring[k..m];
    UnitsSplit(units, mid, p - k, x);
    if k < p {
      assert mid[..p - k] == [ring[p - 1]];
      UnitsOfOne(units, ring[p - 1], x);
    } else {
      assert mid[..p - k] == [];
    }
    if m > p {
      assert mid[p - k..] == [ring[p]];
      UnitsOfOne(units, ring[p], x);
    } else {
      assert mid[p - k..] == [];
    }
  }

  /** The words after the two coalescing steps of slob_free, b being linked in after cur. */
  function CoalescedUnits(units: Words, next: Words, cur: nat, b: nat): Words
    requires b in units && cur in units && cur in next && cur != b
  {
    var units1 := if b + units[b] == next[cur] && next[cur] in units
                  then units[b := units[b] + units[next[cur]]] else units;
    if cur + units1[cur] == b then units1[cur := units1[cur] + units1[b]] else units1
  }

  function CoalescedNext(units: Words, next: Words, cur: nat, b: nat): Words
    requires b in units && cur in units && cur in next && cur != b
  {
    var next1 := if b + units[b] == next[cur] && next[cur] in next
                 then next[b := next[next[cur]]] else next[b := next[cur]];
    if cur + units[cur] == b then next1[cur := next1[b]] else next1[cur := b]
  }

  /** What slob_free starts from once the gap is found. */
  ghost predicate AtGap(units: Words, next: Words, ring: seq<nat>, p: nat, c: nat, b: nat, n: nat) {
    && RingOk(units, next, ring) && Returnable(units, ring, p, b, n)
    && c == (if p == 0 then |ring| - 1 else p - 1)
    && b in units && units[b] == n && b !in ring
    && (Last(ring, p, b, n) > p ==> |ring| >= 2)
  }

  /** Testing the cyclic neighbours for contact is testing the neighbours in address order. */
  lemma TouchTests(units: Words, next: Words, ring: seq<nat>, p: nat, c: nat, b: nat, n: nat)
    requires AtGap(units, next, ring, p, c, b, n)
    ensures c < |ring| && ring[c] in units && ring[c] in next && ring[c] != b
    ensures next[ring[c]] == ring[After(c, |ring|)] && next[ring[c]] in units && next[ring[c]] in next
    ensures b + n == next[ring[c]] <==> Last(ring, p, b, n) > p
    ensures b + n == next[ring[c]] ==> next[ring[c]] == ring[p]
    ensures ring[c] + units[ring[c]] == b <==> First(units, ring, p, b) < p
  {
    LinkAt(next, ring, c);
    LinkAt(next, ring, After(c, |ring|));
    assert ring[c] in ring;
  }

  lemma CoalesceHeaders(units: Words, next: Words, ring: seq<nat>, p: nat, c: nat, b: nat, n: nat)
    requires AtGap(units, next, ring, p, c, b, n)
    requires c < |ring| && ring[c] in units && ring[c] in next && ring[c] != b
    ensures var units' := CoalescedUnits(units, next, ring[c], b);
            && SameHeaders(units, units', ring, First(units, ring, p, b), Last(ring, p, b, n))
            && Start(units, ring, p, b) in units'
            && units'[Start(units, ring, p, b)] == Length(units, ring, p, b, n)
  {
    TouchTests(units, next, ring, p, c, b, n);
    var units' := CoalescedUnits(units, next, ring[c], b);
    var k, m := First(units, ring, p, b), Last(ring, p, b, n);
    forall i | 0 <= i < |ring| && (i < k || m <= i)
      ensures ring[i] in units && ring[i] in units' && units'[ring[i]] == units[ring[i]]
    {
      assert ring[i] in ring && ring[i] != b;
      if k < p {
        Different(units, ring, i, c);
      }
    }
  }

  lemma CoalesceLinks(units: Words, next: Words, ring: seq<nat>, p: nat, c: nat, b: nat, n: nat)
    requires AtGap(units, next, ring, p, c, b, n)
    requires c < |ring| && ring[c] in units && ring[c] in next && ring[c] != b
    ensures LinksAround(CoalescedNext(units, next, ring[c], b), ring,
                        First(units, ring, p, b), Last(ring, p, b, n), Start(units, ring, p, b))
  {
    TouchTests(units, next, ring, p, c, b, n);
    var next' := CoalescedNext(units, next, ring[c], b);
    var left, right := First(units, ring, p, b) < p, Last(ring, p, b, n) > p;
    var after := if right then After(p, |ring|) else After(c, |ring|);
    if right {
      LinkAt(next, ring, p);
    }
    forall i | 0 <= i < |ring| && i != c ensures LinkOk(next', ring, i) {
      LinkAt(next, ring, i);
      Different(units, ring, i, c);
      assert ring[i] in ring;
    }
    Around(next', ring, p, c, left, right, Start(units, ring, p, b), after);
  }

  lemma Around(next: Words, ring: seq<nat>, p: nat, c: nat, left: bool, right: bool, s: nat, after: nat)
    requires 1 <= |ring| && p <= |ring| && c == (if p == 0 then |ring| - 1 else p - 1)
    requires (left ==> p > 0) && (right ==> p < |ring| && |ring| >= 2)
    requires after == if right then After(p, |ring|) else After(c, |ring|)
    requires LinkedBut(next, ring, c)
    requires s in next && next[s] == ring[after]
    requires if left then s == ring[c] else ring[c] in next && next[ring[c]] == s
    ensures LinksAround(next, ring, if left then p - 1 else p, if right then p + 1 else p, s)
  {
    var k, m := if left then p - 1 else p, if right then p + 1 else p;
    if k > 0 && left {
      assert LinkOk(next, ring, k - 1);
    }
    if m < |ring| && |ring| - 1 != c {
      assert LinkOk(next, ring, |ring| - 1);
    }
    forall i | 0 <= i < |ring| - 1 && (i < k - 1 || m <= i) ensures ring[i] in next && next[ring[i]] == ring[i + 1] {
      assert LinkOk(next, ring, i);
    }
  }

  /** Linking a block back in keeps the list well formed, with the searched block still on it. */
  lemma CoalesceKeeps(units: Words, next: Words, ring: seq<nat>, p: nat, c: nat, b: nat, n: nat)
    requires AtGap(units, next, ring, p, c, b, n)
    ensures c < |ring| && ring[c] in units && ring[c] in next && ring[c] != b
    ensures RingOk(CoalescedUnits(units, next, ring[c], b), CoalescedNext(units, next, ring[c], b),
                   Returned(units, ring, p, b, n))
  {
    TouchTests(units, next, ring, p, c, b, n);
    CoalesceHeaders(units, next, ring, p, c, b, n);
    CoalesceLinks(units, next, ring, p, c, b, n);
    ReturnFits(units, ring, p, b, n);
    var units', next' := CoalescedUnits(units, next, ring[c], b), CoalescedNext(units, next, ring[c], b);
    var k, m, s := First(units, ring, p, b), Last(ring, p, b, n), Start(units, ring, p, b);
    hide *;
    GapParts(units, next, ring, p, c, b, n);
    ReturnedIsSpliced(units, ring, p, b, n);
    SpliceAscending(units, units', ring, k, m, s, Length(units, ring, p, b, n));
    SpliceLinked(next', ring, k, m, s);
    RingWhole(units', next', Returned(units, ring, p, b, n));
  }

  lemma GapParts(units: Words, next: Words, ring: seq<nat>, p: nat, c: nat, b: nat, n: nat)
    requires AtGap(units, next, ring, p, c, b, n)
    ensures Ascending(units, ring) && p <= |ring| && |Returned(units, ring, p, b, n)| >= 1
  {
  }

  lemma RingWhole(units: Words, next: Words, ring: seq<nat>)
    requires |ring| >= 1 && Ascending(units, ring) && Linked(next, ring)
    ensures RingOk(units, next, ring)
  {
  }
}
