/** Skew heaps as values: the meaning of the pointer operations in lab6/libs/skew_heap.h, heap order,
    and the amortised number of merge calls. */
module SkewTree {
  import opened Bits

  datatype Tree<T> = Leaf | Node(left: Tree<T>, root: T, right: Tree<T>)

  function Size<T>(t: Tree<T>): nat {
    if t.Leaf? then 0 else Size(t.left) + 1 + Size(t.right)
  }

  function Nodes<T>(t: Tree<T>): set<T> {
    if t.Leaf? then {} else Nodes(t.left) + {t.root} + Nodes(t.right)
  }

  /** No node occurs twice. */
  predicate Distinct<T(==)>(t: Tree<T>) {
    t.Node? ==>
      && Distinct(t.left) && Distinct(t.right)
      && t.root !in Nodes(t.left) && t.root !in Nodes(t.right)
      && Nodes(t.left) !! Nodes(t.right)
  }

  // ---------- Order ----------

  type Compare<!T> = (T, T) -> int

  /** y does not compare below x. */
  predicate AtMost<T>(comp: Compare<T>, x: T, y: T) {
    comp(y, x) != -1
  }

  /** What the callers' comparator must be on the nodes at hand: total and transitive. */
  ghost predicate TotalPreorder<T>(comp: Compare<T>, s: set<T>) {
    && (forall x, y {:trigger AtMost(comp, x, y)} | x in s && y in s :: AtMost(comp, x, y) || AtMost(comp, y, x))
    && (forall x, y, z {:trigger AtMost(comp, x, y), AtMost(comp, y, z)} | x in s && y in s && z in s ::
          AtMost(comp, x, y) && AtMost(comp, y, z) ==> AtMost(comp, x, z))
  }

  ghost predicate LowerBound<T>(comp: Compare<T>, x: T, s: set<T>) {
    forall y | y in s :: AtMost(comp, x, y)
  }

  /** Every node compares at most as high as the whole subtree below it. */
  ghost predicate HeapOrdered<T>(t: Tree<T>, comp: Compare<T>) {
    t.Node? ==>
      && LowerBound(comp, t.root, Nodes(t.left) + Nodes(t.right))
      && HeapOrdered(t.left, comp) && HeapOrdered(t.right, comp)
  }

  // ---------- Operations ----------

  function Merge<T>(a: Tree<T>, b: Tree<T>, comp: Compare<T>): Tree<T>
    decreases Size(a) + Size(b)
  {
    if a.Leaf? then b
    else if b.Leaf? then a
    else if comp(a.root, b.root) == -1 then Node(Merge(a.right, b, comp), a.root, a.left)
    else Node(Merge(a, b.right, comp), b.root, b.left)
  }

  /** Number of calls of the merge procedure, the outermost one included. */
  function MergeCalls<T>(a: Tree<T>, b: Tree<T>, comp: Compare<T>): nat
    decreases Size(a) + Size(b)
  {
    if a.Leaf? || b.Leaf? then 1
    else if comp(a.root, b.root) == -1 then 1 + MergeCalls(a.right, b, comp)
    else 1 + MergeCalls(a, b.right, comp)
  }

  function Single<T>(x: T): Tree<T> {
    Node(Leaf, x, Leaf)
  }

  /** The subtree hanging from node x. */
  function Subtree<T(==)>(t: Tree<T>, x: T): (s: Tree<T>)
    requires x in Nodes(t)
    ensures s.Node? && s.root == x
  {
    if t.root == x then t
    else if x in Nodes(t.left) then Subtree(t.left, x)
    else Subtree(t.right, x)
  }

  /** t with the subtree hanging from x exchanged for s. */
  function Replace<T(==)>(t: Tree<T>, x: T, s: Tree<T>): Tree<T>
    requires x in Nodes(t)
  {
    if t.root == x then s
    else if x in Nodes(t.left) then Node(Replace(t.left, x, s), t.root, t.right)
    else Node(t.left, t.root, Replace(t.right, x, s))
  }

  function Remove<T(==)>(t: Tree<T>, x: T, comp: Compare<T>): Tree<T>
    requires x in Nodes(t)
  {
    var s := Subtree(t, x);
    Replace(t, x, Merge(s.left, s.right, comp))
  }

  // ---------- Functional correctness ----------

  /** The root of the first heap comes out on top only if it compares below that of the second; on a tie the second
      one's does, so a node that is inserted goes above its equals. */
  lemma MergeTop<T>(a: Tree<T>, b: Tree<T>, comp: Compare<T>)
    requires a.Node? && b.Node?
    ensures Merge(a, b, comp).Node?
    ensures Merge(a, b, comp).root == if comp(a.root, b.root) == -1 then a.root else b.root
  {
  }

  lemma {:induction false} SubtreeNodes<T>(t: Tree<T>, x: T)
    requires x in Nodes(t)
    ensures Nodes(Subtree(t, x)) <= Nodes(t) && Size(Subtree(t, x)) <= Size(t)
    ensures Distinct(t) ==> Distinct(Subtree(t, x))
  {
    if t.root == x {
    } else if x in Nodes(t.left) {
      SubtreeNodes(t.left, x);
    } else {
      SubtreeNodes(t.right, x);
    }
  }

  lemma {:induction false} MergeNodes<T>(a: Tree<T>, b: Tree<T>, comp: Compare<T>)
    ensures Nodes(Merge(a, b, comp)) == Nodes(a) + Nodes(b)
    ensures Size(Merge(a, b, comp)) == Size(a) + Size(b)
    ensures Distinct(a) && Distinct(b) && Nodes(a) !! Nodes(b) ==> Distinct(Merge(a, b, comp))
    decreases Size(a) + Size(b)
  {
    if a.Leaf? || b.Leaf? {
    } else if comp(a.root, b.root) == -1 {
      MergeNodes(a.right, b, comp);
    } else {
      MergeNodes(a, b.right, comp);
    }
  }

  /** Merging keeps heap order, so the root of the result is a minimum of both heaps. */
  lemma {:induction false} MergeOrdered<T>(a: Tree<T>, b: Tree<T>, comp: Compare<T>, all: set<T>)
    requires TotalPreorder(comp, all) && Nodes(a) <= all && Nodes(b) <= all
    requires HeapOrdered(a, comp) && HeapOrdered(b, comp)
    ensures HeapOrdered(Merge(a, b, comp), comp)
    ensures a.Node? || b.Node? ==>
              Merge(a, b, comp).Node? && LowerBound(comp, Merge(a, b, comp).root, Nodes(a) + Nodes(b))
    decreases Size(a) + Size(b)
  {
    if a.Leaf? {
      if b.Node? { RootIsLeast(b, comp, all); }
    } else if b.Leaf? {
      RootIsLeast(a, comp, all);
    } else {
      RootIsLeast(a, comp, all);
      RootIsLeast(b, comp, all);
      WinnerIsLeast(comp, a.root, b.root, Nodes(a), Nodes(b), all);
      if comp(a.root, b.root) == -1 {
        MergeOrdered(a.right, b, comp, all);
        MergeNodes(a.right, b, comp);
        Assemble(Merge(a.right, b, comp), a.root, a.left, comp, Nodes(a) + Nodes(b));
      } else {
        MergeOrdered(a, b.right, comp, all);
        MergeNodes(a, b.right, comp);
        Assemble(Merge(a, b.right, comp), b.root, b.left, comp, Nodes(a) + Nodes(b));
      }
    }
  }

  /** The root that merge keeps on top bounds both heaps. */
  lemma WinnerIsLeast<T>(comp: Compare<T>, x: T, y: T, s: set<T>, t: set<T>, all: set<T>)
    requires TotalPreorder(comp, all) && s <= all && t <= all && x in s && y in t
    requires LowerBound(comp, x, s) && LowerBound(comp, y, t)
    ensures LowerBound(comp, if comp(x, y) == -1 then x else y, s + t)
  {
    assert AtMost(comp, x, y) || AtMost(comp, y, x);
    if comp(x, y) == -1 {
      forall z | z in t ensures AtMost(comp, x, z) {
        assert AtMost(comp, y, z);
      }
    } else {
      assert AtMost(comp, y, x);
      forall z | z in s ensures AtMost(comp, y, z) {
        assert AtMost(comp, x, z);
      }
    }
  }

  lemma Assemble<T>(l: Tree<T>, x: T, r: Tree<T>, comp: Compare<T>, below: set<T>)
    requires HeapOrdered(l, comp) && HeapOrdered(r, comp)
    requires LowerBound(comp, x, below) && Nodes(l) + Nodes(r) <= below
    ensures HeapOrdered(Node(l, x, r), comp)
  {
  }

  lemma RootIsLeast<T>(t: Tree<T>, comp: Compare<T>, all: set<T>)
    requires t.Node? && HeapOrdered(t, comp) && TotalPreorder(comp, all) && Nodes(t) <= all
    ensures LowerBound(comp, t.root, Nodes(t))
  {
    assert AtMost(comp, t.root, t.root);
  }

  lemma {:induction false} ReplaceNodes<T>(t: Tree<T>, x: T, s: Tree<T>)
    requires Distinct(t) && x in Nodes(t)
    requires Nodes(s) <= Nodes(Subtree(t, x))
    ensures Nodes(Subtree(t, x)) <= Nodes(t)
    ensures Nodes(Replace(t, x, s)) == Nodes(t) - Nodes(Subtree(t, x)) + Nodes(s)
  {
    if t.root == x {
    } else if x in Nodes(t.left) {
      ReplaceNodes(t.left, x, s);
      ExchangePart(Nodes(t.left), {t.root}, Nodes(t.right), Nodes(Subtree(t, x)), Nodes(s));
    } else {
      ReplaceNodes(t.right, x, s);
      ExchangePart(Nodes(t.right), {t.root}, Nodes(t.left), Nodes(Subtree(t, x)), Nodes(s));
    }
  }

  lemma {:induction false} ReplaceDistinct<T>(t: Tree<T>, x: T, s: Tree<T>)
    requires Distinct(t) && x in Nodes(t)
    requires Distinct(s) && Nodes(s) <= Nodes(Subtree(t, x))
    ensures Size(Replace(t, x, s)) == Size(t) - Size(Subtree(t, x)) + Size(s)
    ensures Nodes(Replace(t, x, s)) <= Nodes(t)
    ensures Distinct(Replace(t, x, s))
  {
    if t.root == x {
      SubtreeNodes(t, x);
    } else if x in Nodes(t.left) {
      ReplaceDistinct(t.left, x, s);
    } else {
      ReplaceDistinct(t.right, x, s);
    }
  }

  lemma ExchangePart<T>(whole: set<T>, r1: set<T>, r2: set<T>, part: set<T>, other: set<T>)
    requires part <= whole && other <= part && whole !! r1 && whole !! r2
    ensures (whole - part + other) + r1 + r2 == (whole + r1 + r2) - part + other
    ensures r2 + r1 + (whole - part + other) == (r2 + r1 + whole) - part + other
  {
  }

  lemma {:induction false} ReplaceOrdered<T>(t: Tree<T>, x: T, s: Tree<T>, comp: Compare<T>)
    requires Distinct(t) && x in Nodes(t) && HeapOrdered(t, comp)
    requires Distinct(s) && HeapOrdered(s, comp) && Nodes(s) <= Nodes(Subtree(t, x))
    ensures HeapOrdered(Replace(t, x, s), comp)
  {
    if t.root == x {
    } else if x in Nodes(t.left) {
      ReplaceOrdered(t.left, x, s, comp);
      ReplaceDistinct(t.left, x, s);
    } else {
      ReplaceOrdered(t.right, x, s, comp);
      ReplaceDistinct(t.right, x, s);
    }
  }

  lemma {:induction false} SubtreeOrdered<T>(t: Tree<T>, x: T, comp: Compare<T>)
    requires x in Nodes(t) && HeapOrdered(t, comp)
    ensures HeapOrdered(Subtree(t, x), comp)
  {
    if t.root == x {
    } else if x in Nodes(t.left) {
      SubtreeOrdered(t.left, x, comp);
    } else {
      SubtreeOrdered(t.right, x, comp);
    }
  }

  /** What takes the place of a removed node: its two subtrees, merged. */
  lemma MergedChildren<T>(t: Tree<T>, x: T, comp: Compare<T>) returns (m: Tree<T>)
    requires Distinct(t) && x in Nodes(t)
    ensures m == Merge(Subtree(t, x).left, Subtree(t, x).right, comp)
    ensures Remove(t, x, comp) == Replace(t, x, m)
    ensures Distinct(m) && Nodes(m) == Nodes(Subtree(t, x)) - {x} && Size(m) + 1 == Size(Subtree(t, x))
  {
    var s := Subtree(t, x);
    m := Merge(s.left, s.right, comp);
    SubtreeNodes(t, x);
    MergeNodes(s.left, s.right, comp);
  }

  lemma RemoveNodes<T>(t: Tree<T>, x: T, comp: Compare<T>)
    requires Distinct(t) && x in Nodes(t)
    ensures Nodes(Remove(t, x, comp)) == Nodes(t) - {x}
    ensures Size(Remove(t, x, comp)) == Size(t) - 1
    ensures Distinct(Remove(t, x, comp))
  {
    var m := MergedChildren(t, x, comp);
    SubtreeNodes(t, x);
    ReplaceNodes(t, x, m);
    ReplaceDistinct(t, x, m);
  }

  /** Removing any node leaves a heap of exactly the other nodes. */
  lemma RemoveCorrect<T>(t: Tree<T>, x: T, comp: Compare<T>)
    requires Distinct(t) && x in Nodes(t) && HeapOrdered(t, comp)
    requires TotalPreorder(comp, Nodes(t))
    ensures Nodes(Remove(t, x, comp)) == Nodes(t) - {x}
    ensures Distinct(Remove(t, x, comp)) && HeapOrdered(Remove(t, x, comp), comp)
  {
    var s := Subtree(t, x);
    SubtreeNodes(t, x);
    SubtreeOrdered(t, x, comp);
    MergeNodes(s.left, s.right, comp);
    MergeOrdered(s.left, s.right, comp, Nodes(t));
    ReplaceOrdered(t, x, Merge(s.left, s.right, comp), comp);
    RemoveNodes(t, x, comp);
  }

  /** The root may be removed whatever it compares to: only what lies below it has to be ordered. */
  lemma RemoveRootCorrect<T>(t: Tree<T>, comp: Compare<T>)
    requires t.Node? && Distinct(t) && HeapOrdered(t.left, comp) && HeapOrdered(t.right, comp)
    requires TotalPreorder(comp, Nodes(t) - {t.root})
    ensures Nodes(Remove(t, t.root, comp)) == Nodes(t) - {t.root}
    ensures Distinct(Remove(t, t.root, comp)) && HeapOrdered(Remove(t, t.root, comp), comp)
  {
    assert Subtree(t, t.root) == t && Remove(t, t.root, comp) == Merge(t.left, t.right, comp);
    MergeNodes(t.left, t.right, comp);
    MergeOrdered(t.left, t.right, comp, Nodes(t) - {t.root});
  }

  // ---------- Amortised cost ----------

  /** floor(log2(n)) for n >= 1 */
  function Log(n: nat): nat
    requires n >= 1
  {
    if n == 1 then 0 else 1 + Log(n / 2)
  }

  lemma {:induction false} LogMono(m: nat, n: nat)
    requires 1 <= m <= n
    ensures Log(m) <= Log(n)
  {
    if m > 1 {
      LogMono(m / 2, n / 2);
    }
  }

  /** Log is the integer logarithm. */
  lemma {:induction false} LogBounds(n: nat)
    requires n >= 1
    ensures Pow2(Log(n)) <= n < Pow2(Log(n) + 1)
  {
    if n > 1 {
      LogBounds(n / 2);
    }
  }

  function Weight<T>(t: Tree<T>): nat {
    Log(Size(t) + 1)
  }

  /** The potential: nodes whose right subtree is larger than their left one. */
  function Potential<T>(t: Tree<T>): nat {
    if t.Leaf? then 0
    else Potential(t.left) + Potential(t.right) + (if Size(t.right) > Size(t.left) then 1 else 0)
  }

  lemma LogHalf(l: nat, n: nat)
    requires 1 <= l && 2 * l <= n
    ensures Log(l) + 1 <= Log(n)
  {
    LogMono(l, n / 2);
  }

  lemma Sides<T>(t: Tree<T>)
    requires t.Node?
    ensures Weight(t.left) <= Weight(t) && Weight(t.right) <= Weight(t)
    ensures Size(t.right) <= Size(t.left) ==> Weight(t.right) + 1 <= Weight(t)
    ensures Size(t.left) <= Size(t.right) ==> Weight(t.left) + 1 <= Weight(t)
  {
    var l, r := Size(t.left), Size(t.right);
    LogMono(l + 1, l + r + 2);
    LogMono(r + 1, l + r + 2);
    if r <= l { LogHalf(r + 1, l + r + 2); }
    if l <= r { LogHalf(l + 1, l + r + 2); }
  }

  /** Merge calls plus the rise in potential are logarithmic. */
  lemma {:induction false} MergeAmortised<T>(a: Tree<T>, b: Tree<T>, comp: Compare<T>)
    ensures MergeCalls(a, b, comp) + Potential(Merge(a, b, comp))
         <= 1 + 2 * Weight(a) + 2 * Weight(b) + Potential(a) + Potential(b)
    decreases Size(a) + Size(b)
  {
    if a.Leaf? || b.Leaf? {
    } else if comp(a.root, b.root) == -1 {
      MergeAmortised(a.right, b, comp);
      MergeNodes(a.right, b, comp);
      Sides(a);
    } else {
      MergeAmortised(a, b.right, comp);
      MergeNodes(a, b.right, comp);
      Sides(b);
    }
  }

  /** Shrinking one subtree makes at most logarithmically many ancestors right-heavy. */
  lemma {:induction false} ReplacePotential<T>(t: Tree<T>, x: T, s: Tree<T>)
    requires Distinct(t) && x in Nodes(t)
    requires Distinct(s) && Nodes(s) <= Nodes(Subtree(t, x)) && Size(s) + 1 == Size(Subtree(t, x))
    ensures Potential(Replace(t, x, s)) + Potential(Subtree(t, x)) <= Potential(t) + Potential(s) + Weight(t)
  {
    if t.root == x {
    } else if x in Nodes(t.left) {
      ReplacePotential(t.left, x, s);
      ReplaceDistinct(t.left, x, s);
      Sides(t);
    } else {
      ReplacePotential(t.right, x, s);
      ReplaceDistinct(t.right, x, s);
      Sides(t);
    }
  }

  /** Calls of the merge procedure made by one removal. */
  function RemoveCalls<T(==)>(t: Tree<T>, x: T, comp: Compare<T>): nat
    requires x in Nodes(t)
  {
    var s := Subtree(t, x);
    MergeCalls(s.left, s.right, comp)
  }

  lemma RemoveAmortised<T>(t: Tree<T>, x: T, comp: Compare<T>)
    requires Distinct(t) && x in Nodes(t)
    ensures RemoveCalls(t, x, comp) + Potential(Remove(t, x, comp)) <= 1 + 5 * Weight(t) + Potential(t)
  {
    var s := Subtree(t, x);
    var m := MergedChildren(t, x, comp);
    ReplacePotential(t, x, m);
    MergeAmortised(s.left, s.right, comp);
    SubtreeWeights(t, x);
  }

  lemma SubtreeWeights<T>(t: Tree<T>, x: T)
    requires x in Nodes(t)
    ensures Weight(Subtree(t, x).left) <= Weight(t) && Weight(Subtree(t, x).right) <= Weight(t)
  {
    SubtreeNodes(t, x);
    Sides(Subtree(t, x));
    LogMono(Size(Subtree(t, x)) + 1, Size(t) + 1);
  }

  lemma InsertAmortised<T>(t: Tree<T>, x: T, comp: Compare<T>)
    ensures MergeCalls(t, Single(x), comp) + Potential(Merge(t, Single(x), comp))
         <= 3 + 2 * Weight(t) + Potential(t)
  {
    MergeAmortised(t, Single(x), comp);
    SingleFacts(x);
  }

  lemma SingleFacts<T>(x: T)
    ensures Nodes(Single(x)) == {x} && Size(Single(x)) == 1 && Distinct(Single(x))
    ensures Weight(Single(x)) == 1 && Potential(Single(x)) == 0
  {
  }

  // ---------- Runs ----------

  datatype Op<T> = Insert(x: T) | Delete(x: T)

  function Apply<T(==)>(t: Tree<T>, op: Op<T>, comp: Compare<T>): Tree<T>
    requires op.Delete? ==> op.x in Nodes(t)
  {
    match op
    case Insert(x) => Merge(t, Single(x), comp)
    case Delete(x) => Remove(t, x, comp)
  }

  function OpCalls<T(==)>(t: Tree<T>, op: Op<T>, comp: Compare<T>): nat
    requires op.Delete? ==> op.x in Nodes(t)
  {
    match op
    case Insert(x) => MergeCalls(t, Single(x), comp)
    case Delete(x) => RemoveCalls(t, x, comp)
  }

  /** Every operation inserts an absent node or deletes a present one. */
  predicate ValidRun<T(==)>(t: Tree<T>, ops: seq<Op<T>>, comp: Compare<T>)
    decreases |ops|
  {
    ops == [] ||
    ((if ops[0].Insert? then ops[0].x !in Nodes(t) else ops[0].x in Nodes(t)) &&
     ValidRun(Apply(t, ops[0], comp), ops[1..], comp))
  }

  function RunCalls<T(==)>(t: Tree<T>, ops: seq<Op<T>>, comp: Compare<T>): nat
    requires ValidRun(t, ops, comp)
    decreases |ops|
  {
    if ops == [] then 0
    else OpCalls(t, ops[0], comp) + RunCalls(Apply(t, ops[0], comp), ops[1..], comp)
  }

  lemma InsertCost<T>(t: Tree<T>, x: T, comp: Compare<T>, bound: nat)
    requires Distinct(t) && Size(t) + 1 <= bound && x !in Nodes(t)
    ensures MergeCalls(t, Single(x), comp) + Potential(Merge(t, Single(x), comp)) <= 3 + 5 * Log(bound) + Potential(t)
    ensures Distinct(Merge(t, Single(x), comp)) && Size(Merge(t, Single(x), comp)) == Size(t) + 1
  {
    hide Merge, MergeCalls, Potential, Distinct, Nodes, Size, Log;
    LogMono(Size(t) + 1, bound);
    InsertAmortised(t, x, comp);
    SingleFacts(x);
    MergeNodes(t, Single(x), comp);
  }

  lemma DeleteCost<T>(t: Tree<T>, x: T, comp: Compare<T>, bound: nat)
    requires Distinct(t) && Size(t) + 1 <= bound && x in Nodes(t)
    ensures RemoveCalls(t, x, comp) + Potential(Remove(t, x, comp)) <= 3 + 5 * Log(bound) + Potential(t)
    ensures Distinct(Remove(t, x, comp)) && Size(Remove(t, x, comp)) == Size(t) - 1
  {
    hide Remove, RemoveCalls, Potential, Distinct, Nodes, Size, Log;
    LogMono(Size(t) + 1, bound);
    RemoveAmortised(t, x, comp);
    RemoveNodes(t, x, comp);
  }

  lemma {:induction false} RunCost<T>(t: Tree<T>, ops: seq<Op<T>>, comp: Compare<T>, bound: nat)
    requires Distinct(t) && ValidRun(t, ops, comp) && 1 <= bound && Size(t) + |ops| <= bound
    ensures RunCalls(t, ops, comp) <= Potential(t) + |ops| * (3 + 5 * Log(bound))
    decreases |ops|
  {
    if ops != [] {
      if ops[0].Insert? {
        InsertCost(t, ops[0].x, comp, bound);
      } else {
        DeleteCost(t, ops[0].x, comp, bound);
      }
      RunCost(Apply(t, ops[0], comp), ops[1..], comp, bound);
      var c := 3 + 5 * Log(bound);
      assert |ops| * c == c + (|ops| - 1) * c;
    }
  }

  /** Any m operations starting from the empty heap make O(m log m) merge calls. */
  lemma RunsAreLogarithmic<T>(ops: seq<Op<T>>, comp: Compare<T>)
    requires ops != [] && ValidRun(Leaf, ops, comp)
    ensures RunCalls(Leaf, ops, comp) <= |ops| * (3 + 5 * Log(|ops|))
  {
    RunCost(Leaf, ops, comp, |ops|);
  }
}
