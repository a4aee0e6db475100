/** The comparator the scheduler keeps its skew heap by (lab6/kern/schedule/default_sched_stride.c). Strides are
    32-bit counters that wrap around, and are compared by the sign of their difference. */
module Stride {
  import opened SkewTree

  const WRAP: nat := 0x1_0000_0000
  const HALF: nat := 0x8000_0000
  const BIG_STRIDE: nat := 0x10_0000
  const WIDEST: nat := HALF - 1

  datatype Proc = Proc(pid: nat, stride: nat, priority: nat)

  /** The difference of two strides as a signed 32-bit number. */
  function Difference(x: nat, y: nat): int {
    var d := (x as int - y) % WRAP;
    if d < HALF then d else d - WRAP
  }

  /** proc_stride_comp_f */
  function CompareStrides(p: Proc, q: Proc): int {
    var c := Difference(p.stride, q.stride);
    if c > 0 then 1 else if c == 0 then 0 else -1
  }

  /** How far a stride is ahead of the base, going round. */
  function Ahead(base: nat, p: Proc): nat {
    (p.stride as int - base) % WRAP
  }

  /** All strides lie within less than half the range from the base on. */
  ghost predicate InWindow(base: nat, s: set<Proc>, width: nat) {
    width < HALF && forall p | p in s :: p.stride < WRAP && Ahead(base, p) <= width
  }

  /** Within such a window the signed difference is the true one. */
  lemma DifferenceIsTrue(base: nat, p: Proc, q: Proc)
    requires Ahead(base, p) < HALF && Ahead(base, q) < HALF
    ensures Difference(p.stride, q.stride) == Ahead(base, p) - Ahead(base, q)
  {
    var a, b := Ahead(base, p), Ahead(base, q);
    var k := (p.stride as int - base) / WRAP - (q.stride as int - base) / WRAP;
    assert p.stride as int - q.stride == a - b + k * WRAP;
    Shifted(a - b, k);
  }

  lemma Shifted(d: int, k: int)
    requires -(HALF as int) < d < HALF
    ensures (d + k * WRAP) % WRAP == if d >= 0 then d else d + WRAP
  {
    var x := d + k * WRAP;
    var q := if d >= 0 then k else k - 1;
    var r := if d >= 0 then d else d + WRAP;
    assert x == q * WRAP + r;
    assert x / WRAP == q && x % WRAP == r by {
      assert 0 <= r < WRAP;
    }
  }

  /** So the comparator orders the processes as the heap needs it, by the distance from the base. */
  lemma WindowIsOrdered(base: nat, s: set<Proc>, width: nat)
    requires InWindow(base, s, width)
    ensures TotalPreorder(CompareStrides, s)
    ensures forall p, q | p in s && q in s :: AtMost(CompareStrides, p, q) <==> Ahead(base, p) <= Ahead(base, q)
  {
    forall p, q | p in s && q in s
      ensures AtMost(CompareStrides, p, q) <==> Ahead(base, p) <= Ahead(base, q)
    {
      DifferenceIsTrue(base, q, p);
    }
    hide AtMost, Ahead;
  }

  /** Strides that some base has within less than half the range are the only ones the comparator orders. */
  lemma OrderedExactly(s: set<Proc>)
    requires forall p | p in s :: p.stride < WRAP
    ensures TotalPreorder(CompareStrides, s) <==> exists base: nat :: InWindow(base, s, WIDEST)
  {
    if base: nat :| InWindow(base, s, WIDEST) {
      WindowIsOrdered(base, s, WIDEST);
    }
    if TotalPreorder(CompareStrides, s) {
      OrderedHasWindow(s);
    }
  }

  lemma OrderedHasWindow(s: set<Proc>)
    requires TotalPreorder(CompareStrides, s) && forall p | p in s :: p.stride < WRAP
    ensures exists base: nat :: InWindow(base, s, WIDEST)
  {
    if s == {} {
      assert InWindow(0, s, WIDEST);
    } else {
      var m := Least(s, s);
      forall p | p in s ensures Ahead(m.stride, p) <= HALF - 1 {
        assert AtMost(CompareStrides, m, p);
        NotBehind(m, p);
      }
      assert InWindow(m.stride, s, WIDEST);
    }
  }

  lemma NotBehind(m: Proc, p: Proc)
    requires AtMost(CompareStrides, m, p)
    ensures Ahead(m.stride, p) < HALF
  {
  }

  /** A nonempty part of an ordered set has a least process. */
  lemma {:induction false} Least(s: set<Proc>, all: set<Proc>) returns (m: Proc)
    requires s != {} && s <= all && TotalPreorder(CompareStrides, all)
    ensures m in s && LowerBound(CompareStrides, m, s)
    decreases |s|
  {
    hide CompareStrides;
    m :| m in s;
    var rest := s - {m};
    assert s == {m} + rest;
    assert AtMost(CompareStrides, m, m);
    if rest != {} {
      var n := Least(rest, all);
      hide *;
      WinnerIsLeast(CompareStrides, m, n, {m}, rest, all);
      m := if CompareStrides(m, n) == -1 then m else n;
    }
  }

  /** Three strides a third of the range apart, for one, beat each other in turn. */
  lemma ApartIsCyclic()
    ensures var a, b, c := Proc(1, 0, 1), Proc(2, 0x6000_0000, 1), Proc(3, 0xc000_0000, 1);
            CompareStrides(a, b) == -1 && CompareStrides(b, c) == -1 && CompareStrides(c, a) == -1
            && !TotalPreorder(CompareStrides, {a, b, c})
  {
    var a, b, c := Proc(1, 0, 1), Proc(2, 0x6000_0000, 1), Proc(3, 0xc000_0000, 1);
    assert AtMost(CompareStrides, a, b) && AtMost(CompareStrides, b, c) && !AtMost(CompareStrides, a, c);
  }

  /** The pass of a process, at least one. */
  function Pass(priority: nat): (inc: nat)
    requires priority >= 1
    ensures 1 <= inc <= BIG_STRIDE
    ensures inc == 1 || inc * priority <= BIG_STRIDE
    ensures BIG_STRIDE < (inc + 1) * priority
  {
    if BIG_STRIDE / priority == 0 then 1 else BIG_STRIDE / priority
  }

  /** The higher the priority, the shorter the pass. */
  lemma PassesFall(a: nat, b: nat)
    requires 1 <= a <= b
    ensures Pass(b) <= Pass(a)
  {
    if Pass(b) >= Pass(a) + 1 {
      Products(Pass(a) + 1, Pass(b), a, b);
    }
  }

  lemma Products(x: nat, y: nat, a: nat, b: nat)
    requires x <= y && a <= b
    ensures x * a <= y * b
  {
    assert x * a <= y * a;
    assert y * a <= y * b;
  }

  /** stride_pick_next: the root of the heap goes on by its pass. */
  function Picked(p: Proc): Proc
    requires p.priority >= 1
  {
    p.(stride := (p.stride + Pass(p.priority)) % WRAP)
  }

  /** When a process with the least stride of a window of BIG_STRIDE is picked, all strides lie in such a window
      again, from its old stride on: the heap stays ordered by a preorder over any number of rounds and wraps. */
  lemma PickKeepsWindow(base: nat, s: set<Proc>, p: Proc)
    requires InWindow(base, s, BIG_STRIDE) && p in s && p.priority >= 1 && LowerBound(CompareStrides, p, s)
    ensures InWindow(p.stride, s - {p} + {Picked(p)}, BIG_STRIDE)
  {
    WindowIsOrdered(base, s, BIG_STRIDE);
    forall q | q in s ensures Ahead(p.stride, q) <= BIG_STRIDE {
      assert AtMost(CompareStrides, p, q);
      DifferenceIsTrue(base, q, p);
      NearDifference(q.stride, p.stride);
    }
    PickedAhead(p.stride, Pass(p.priority));
  }

  lemma NearDifference(x: nat, y: nat)
    requires 0 <= Difference(x, y) <= BIG_STRIDE
    ensures (x as int - y) % WRAP == Difference(x, y)
  {
  }

  lemma PickedAhead(x: nat, inc: nat)
    requires x < WRAP && inc <= BIG_STRIDE
    ensures ((x + inc) % WRAP - x) % WRAP == inc
  {
    if x + inc < WRAP {
      assert (x + inc) % WRAP == x + inc;
    } else {
      assert (x + inc) % WRAP == x + inc - WRAP;
    }
  }

  // ---------- Rounds ----------

  /** Every process is in the heap once, and has a priority: stride_enqueue gives it one. */
  ghost predicate Queued(s: set<Proc>) {
    && (forall p, q | p in s && q in s :: p.pid == q.pid ==> p == q)
    && forall p | p in s :: p.priority >= 1
  }

  ghost predicate Ready(base: nat, t: Tree<Proc>) {
    Distinct(t) && HeapOrdered(t, CompareStrides) && Queued(Nodes(t)) && InWindow(base, Nodes(t), BIG_STRIDE)
  }

  /** stride_pick_next advances the root where it lies in the heap. */
  function Advanced(t: Tree<Proc>): Tree<Proc>
    requires t.Node? && t.root.priority >= 1
  {
    t.(root := Picked(t.root))
  }

  /** stride_pick_next, stride_dequeue of what it picked, and stride_enqueue after it has run. */
  function Round(t: Tree<Proc>): Tree<Proc>
    requires t.Node? && t.root.priority >= 1
  {
    var picked := Picked(t.root);
    Merge(Remove(Advanced(t), picked, CompareStrides), Single(picked), CompareStrides)
  }

  /** A round picks a process with the least stride, advances it and nothing else, and leaves a heap again although
      the order did not hold between the two calls. */
  lemma RoundKeeps(base: nat, t: Tree<Proc>)
    requires t.Node? && Ready(base, t)
    ensures t.root.priority >= 1 && LowerBound(CompareStrides, t.root, Nodes(t))
    ensures Ready(t.root.stride, Round(t)) && Nodes(Round(t)) == Nodes(t) - {t.root} + {Picked(t.root)}
  {
    hide *;
    ReadyParts(base, t);
    var picked := Picked(t.root);
    WindowIsOrdered(base, Nodes(t), BIG_STRIDE);
    RootIsLeast(t, CompareStrides, Nodes(t));
    PickKeepsWindow(base, Nodes(t), t.root);
    var after := Nodes(t) - {t.root} + {picked};
    WindowIsOrdered(t.root.stride, after, BIG_STRIDE);
    AdvancedIs(t);
    PreorderPart(Nodes(t) - {t.root}, after);
    RemoveRootCorrect(Advanced(t), CompareStrides);
    var rest := Remove(Advanced(t), picked, CompareStrides);
    SingleIs(picked);
    MergeNodes(rest, Single(picked), CompareStrides);
    MergeOrdered(rest, Single(picked), CompareStrides, after);
    RoundIs(t);
    QueuedKept(Nodes(t), t.root);
    ReadyWhole(t.root.stride, Round(t));
  }

  lemma ReadyParts(base: nat, t: Tree<Proc>)
    requires t.Node? && Ready(base, t)
    ensures Distinct(t) && HeapOrdered(t, CompareStrides) && Queued(Nodes(t)) && InWindow(base, Nodes(t), BIG_STRIDE)
    ensures t.root in Nodes(t) && t.root.priority >= 1
  {
  }

  lemma ReadyWhole(base: nat, t: Tree<Proc>)
    requires Distinct(t) && HeapOrdered(t, CompareStrides) && Queued(Nodes(t)) && InWindow(base, Nodes(t), BIG_STRIDE)
    ensures Ready(base, t)
  {
  }

  lemma AdvancedIs(t: Tree<Proc>)
    requires t.Node? && t.root.priority >= 1 && Distinct(t) && HeapOrdered(t, CompareStrides) && Queued(Nodes(t))
    ensures Advanced(t).Node? && Advanced(t).root == Picked(t.root) && Picked(t.root) in Nodes(Advanced(t))
    ensures HeapOrdered(Advanced(t).left, CompareStrides) && HeapOrdered(Advanced(t).right, CompareStrides)
    ensures Distinct(Advanced(t)) && Nodes(Advanced(t)) - {Picked(t.root)} == Nodes(t) - {t.root}
  {
    hide Pass;
    assert t.root in Nodes(t) && Nodes(t.left) <= Nodes(t) && Nodes(t.right) <= Nodes(t);
    forall q | q in Nodes(t.left) + Nodes(t.right) ensures q.pid != t.root.pid {
    }
    assert Nodes(Advanced(t)) == Nodes(t.left) + Nodes(t.right) + {Picked(t.root)};
    assert Nodes(t) == Nodes(t.left) + Nodes(t.right) + {t.root};
  }

  lemma PreorderPart(s: set<Proc>, all: set<Proc>)
    requires s <= all && TotalPreorder(CompareStrides, all)
    ensures TotalPreorder(CompareStrides, s)
  {
    hide AtMost;
  }

  lemma SingleIs(p: Proc)
    ensures Nodes(Single(p)) == {p} && Distinct(Single(p)) && HeapOrdered(Single(p), CompareStrides)
  {
  }

  lemma RoundIs(t: Tree<Proc>)
    requires t.Node? && t.root.priority >= 1
    ensures var picked := Picked(t.root);
            && picked in Nodes(Advanced(t))
            && Round(t) == Merge(Remove(Advanced(t), picked, CompareStrides), Single(picked), CompareStrides)
  {
  }

  lemma QueuedKept(s: set<Proc>, p: Proc)
    requires Queued(s) && p in s && p.priority >= 1
    ensures Queued(s - {p} + {Picked(p)}) && Picked(p) !in s - {p}
  {
    hide Pass;
    assert Picked(p).pid == p.pid && Picked(p).priority == p.priority;
  }

  // ---------- Shares ----------

  /** A heap, and a stride that none of its processes is behind. */
  datatype Moment = Moment(base: nat, heap: Tree<Proc>)

  /** After n rounds. */
  ghost function Running(base: nat, t: Tree<Proc>, n: nat): (m: Moment)
    requires t.Node? && Ready(base, t)
    ensures m.heap.Node? && Ready(m.base, m.heap)
  {
    if n == 0 then Moment(base, t)
    else
      var m := Running(base, t, n - 1);
      RoundGoesOn(m.base, m.heap);
      Moment(m.heap.root.stride, Round(m.heap))
  }

  lemma RoundGoesOn(base: nat, t: Tree<Proc>)
    requires t.Node? && Ready(base, t)
    ensures t.root.priority >= 1 && Round(t).Node? && Ready(t.root.stride, Round(t))
  {
    hide *;
    RoundKeeps(base, t);
    NotEmpty(Round(t), Picked(t.root));
  }

  lemma NotEmpty(t: Tree<Proc>, p: Proc)
    requires p in Nodes(t)
    ensures t.Node?
  {
  }

  /** How often a process is picked in n rounds. */
  ghost function Picks(base: nat, t: Tree<Proc>, n: nat, pid: nat): nat
    requires t.Node? && Ready(base, t)
  {
    if n == 0 then 0
    else Picks(base, t, n - 1, pid) + if Running(base, t, n - 1).heap.root.pid == pid then 1 else 0
  }

  /** How far the least stride has gone in n rounds. */
  ghost function Gone(base: nat, t: Tree<Proc>, n: nat): nat
    requires t.Node? && Ready(base, t)
  {
    if n == 0 then 0
    else Gone(base, t, n - 1) + Ahead(Running(base, t, n - 1).base, Running(base, t, n - 1).heap.root)
  }

  /** What becomes of a process in one round, and how far ahead of the new base it is. */
  lemma RoundMoves(base: nat, t: Tree<Proc>, q: Proc) returns (q': Proc)
    requires t.Node? && Ready(base, t) && q in Nodes(t)
    ensures q.priority >= 1 && t.root.priority >= 1 && q' in Nodes(Round(t))
    ensures q'.pid == q.pid && q'.priority == q.priority
    ensures Ahead(base, q) + (if t.root.pid == q.pid then Pass(q.priority) else 0)
         == Ahead(base, t.root) + Ahead(t.root.stride, q')
  {
    hide *;
    ReadyParts(base, t);
    RoundKeeps(base, t);
    q' := if t.root.pid == q.pid then Picked(t.root) else q;
    MovedOn(base, Nodes(t), t.root, q);
  }

  lemma MovedOn(base: nat, s: set<Proc>, r: Proc, q: Proc)
    requires InWindow(base, s, BIG_STRIDE) && Queued(s) && r in s && q in s && LowerBound(CompareStrides, r, s)
    ensures q.priority >= 1 && (r.pid == q.pid <==> q == r) && r.priority >= 1
    ensures q != r ==> q in s - {r} + {Picked(r)} && Ahead(base, q) == Ahead(base, r) + Ahead(r.stride, q)
    ensures Picked(r) in s - {r} + {Picked(r)} && Picked(r).pid == r.pid && Picked(r).priority == r.priority
    ensures Ahead(r.stride, Picked(r)) == Pass(r.priority)
  {
    WindowIsOrdered(base, s, BIG_STRIDE);
    assert AtMost(CompareStrides, r, q);
    AheadInSteps(base, r, q);
    hide Pass;
    PickedAhead(r.stride, Pass(r.priority));
  }

  lemma AheadInSteps(base: nat, r: Proc, q: Proc)
    requires Ahead(base, r) <= Ahead(base, q) < HALF
    ensures Ahead(base, q) == Ahead(base, r) + Ahead(r.stride, q)
  {
    DifferenceIsTrue(base, q, r);
    var d := Ahead(base, q) - Ahead(base, r);
    assert Difference(q.stride, r.stride) == d;
  }

  /** Where a process stands after n rounds. */
  lemma {:induction false} StandsAt(base: nat, t: Tree<Proc>, n: nat, p: Proc) returns (q: Proc)
    requires t.Node? && Ready(base, t) && p in Nodes(t)
    ensures p.priority >= 1 && q in Nodes(Running(base, t, n).heap) && q.pid == p.pid && q.priority == p.priority
    ensures Ahead(base, p) + Picks(base, t, n, p.pid) * Pass(p.priority)
         == Gone(base, t, n) + Ahead(Running(base, t, n).base, q)
  {
    hide Pass, Ready, Ahead, Nodes, Round, Queued;
    HasPriority(base, t, p);
    if n == 0 {
      q := p;
    } else {
      var m := Running(base, t, n - 1);
      var r := StandsAt(base, t, n - 1, p);
      q := RoundMoves(m.base, m.heap, r);
      OneMore(Picks(base, t, n - 1, p.pid), Pass(p.priority));
    }
  }

  lemma HasPriority(base: nat, t: Tree<Proc>, p: Proc)
    requires t.Node? && Ready(base, t) && p in Nodes(t)
    ensures p.priority >= 1
  {
  }

  lemma OneMore(k: nat, x: nat)
    ensures (k + 1) * x == k * x + x
  {
  }

  /** Every process gets its share: over any number of rounds, and however often the strides wrap, the passes two
      processes have gone stay within one longest pass of each other. */
  lemma FairShare(base: nat, t: Tree<Proc>, n: nat, p: Proc, q: Proc)
    requires t.Node? && Ready(base, t) && p in Nodes(t) && q in Nodes(t)
    ensures p.priority >= 1 && q.priority >= 1
    ensures var gone := Ahead(base, p) + Picks(base, t, n, p.pid) * Pass(p.priority);
            var gone' := Ahead(base, q) + Picks(base, t, n, q.pid) * Pass(q.priority);
            gone <= gone' + BIG_STRIDE && gone' <= gone + BIG_STRIDE
  {
    var p' := StandsAt(base, t, n, p);
    var q' := StandsAt(base, t, n, q);
    var m := Running(base, t, n);
    hide *;
    ReadyParts(m.base, m.heap);
    WithinWindow(m.base, Nodes(m.heap), p');
    WithinWindow(m.base, Nodes(m.heap), q');
  }

  lemma WithinWindow(base: nat, s: set<Proc>, p: Proc)
    requires InWindow(base, s, BIG_STRIDE) && p in s
    ensures Ahead(base, p) <= BIG_STRIDE
  {
  }
}
