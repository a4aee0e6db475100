/** The pointer operations of lab6/libs/skew_heap.h, proved against the value-level skew heap. */
module SkewHeap {
  import opened SkewTree

  class Entry {
    var parent: Entry?
    var left: Entry?
    var right: Entry?

    constructor ()
      ensures parent == null && left == null && right == null
    {
      parent, left, right := null, null, null;
    }
  }

  /** The three links of an entry, and the links of a set of entries at one moment. */
  datatype Cell = Cell(parent: Entry?, left: Entry?, right: Entry?)

  type Store = map<Entry, Cell>

  ghost function Snapshot(s: set<Entry>): Store
    reads s
  {
    map x | x in s :: Cell(x.parent, x.left, x.right)
  }

  /** e is the root of a linked structure of shape t: child links follow t, and every node other than
      the root points back to its parent. The root's own parent link is not constrained. */
  ghost predicate Linked(m: Store, e: Entry?, t: Tree<Entry>) {
    match t
    case Leaf => e == null
    case Node(l, n, r) =>
      && e == n && n in m
      && Linked(m, m[n].left, l) && Linked(m, m[n].right, r)
      && Below(m, l, n) && Below(m, r, n)
  }

  ghost predicate Below(m: Store, t: Tree<Entry>, p: Entry) {
    t.Node? ==> t.root in m && m[t.root].parent == p
  }

  /** A heap as its users hold it: properly linked, no sharing, no parent above the root. */
  ghost predicate Heap(m: Store, e: Entry?, t: Tree<Entry>) {
    Linked(m, e, t) && Distinct(t) && (e != null ==> e in m && m[e].parent == null)
  }

  ghost predicate Agree(m: Store, m': Store, s: set<Entry>) {
    forall x | x in s :: x in m && x in m' && m[x] == m'[x]
  }

  /** A linked structure stays linked while none of its nodes changes. */
  lemma {:induction false} Frame(m: Store, m': Store, e: Entry?, t: Tree<Entry>)
    requires Linked(m, e, t) && Agree(m, m', Nodes(t))
    ensures Linked(m', e, t)
  {
    if t.Node? {
      Frame(m, m', m[e].left, t.left);
      Frame(m, m', m[e].right, t.right);
      Covered(m, m[e].left, t.left);
      Covered(m, m[e].right, t.right);
    }
  }

  lemma {:induction false} Covered(m: Store, e: Entry?, t: Tree<Entry>)
    requires Linked(m, e, t)
    ensures Nodes(t) <= m.Keys
    ensures if t.Node? then e == t.root && e in Nodes(t) else e == null
  {
    if t.Node? {
      Covered(m, m[e].left, t.left);
      Covered(m, m[e].right, t.right);
    }
  }

  /** Nor does changing the parent link of the root matter. */
  lemma Reparent(m: Store, m': Store, e: Entry?, t: Tree<Entry>)
    requires Linked(m, e, t) && Distinct(t)
    requires e != null ==> Agree(m, m', Nodes(t) - {e})
    requires e != null ==> e in m' && m'[e].left == m[e].left && m'[e].right == m[e].right
    ensures Linked(m', e, t)
  {
    if t.Node? {
      Frame(m, m', m[e].left, t.left);
      Frame(m, m', m[e].right, t.right);
      Covered(m, m[e].left, t.left);
      Covered(m, m[e].right, t.right);
    }
  }

  method Init(a: Entry)
    modifies a
    ensures a.left == null && a.right == null && a.parent == null
  {
    a.left, a.right, a.parent := null, null, null;
  }

  /** Gives n the children l and r, as both branches of the merge do. */
  method Adopt(n: Entry, l: Entry?, r: Entry?,
               ghost tl: Tree<Entry>, ghost tr: Tree<Entry>, ghost all: set<Entry>)
    requires Linked(Snapshot(all), l, tl) && Linked(Snapshot(all), r, tr) && Distinct(Node(tl, n, tr))
    requires n in all && Below(Snapshot(all), tr, n)
    modifies n, l
    ensures Linked(Snapshot(all), n, Node(tl, n, tr))
    ensures n.parent == old(n.parent)
  {
    ghost var before := Snapshot(all);
    Covered(before, l, tl);
    Covered(before, r, tr);
    n.left := l;
    n.right := r;
    if l != null {
      l.parent := n;
    }
    Reparent(before, Snapshot(all), l, tl);
    Frame(before, Snapshot(all), r, tr);
  }

  /** Merging relinks both heaps into the shape the value-level merge describes, with the stated number
      of calls, and leaves the parent link of the node that ends up on top as it was. */
  method Merge(a: Entry?, b: Entry?, comp: Compare<Entry>,
               ghost ta: Tree<Entry>, ghost tb: Tree<Entry>, ghost all: set<Entry>)
    returns (top: Entry?, ghost calls: nat)
    requires Linked(Snapshot(all), a, ta) && Linked(Snapshot(all), b, tb)
    requires Distinct(ta) && Distinct(tb) && Nodes(ta) !! Nodes(tb)
    modifies Nodes(ta) + Nodes(tb)
    ensures Linked(Snapshot(all), top, SkewTree.Merge(ta, tb, comp))
    ensures top != null ==> top.parent == old(top.parent)
    ensures calls == MergeCalls(ta, tb, comp)
    decreases Size(ta) + Size(tb)
  {
    ghost var before := Snapshot(all);
    Covered(before, a, ta);
    Covered(before, b, tb);
    if a == null {
      return b, 1;
    } else if b == null {
      return a, 1;
    }
    if comp(a, b) == -1 {
      MergeNodes(ta.right, tb, comp);
      Covered(before, a.left, ta.left);
      var r := a.left;
      var l;
      l, calls := Merge(a.right, b, comp, ta.right, tb, all);
      Frame(before, Snapshot(all), r, ta.left);
      Adopt(a, l, r, SkewTree.Merge(ta.right, tb, comp), ta.left, all);
      return a, calls + 1;
    } else {
      MergeNodes(ta, tb.right, comp);
      Covered(before, b.left, tb.left);
      var r := b.left;
      var l;
      l, calls := Merge(a, b.right, comp, ta, tb.right, all);
      Frame(before, Snapshot(all), r, tb.left);
      Adopt(b, l, r, SkewTree.Merge(ta, tb.right, comp), tb.left, all);
      return b, calls + 1;
    }
  }

  /** Inserting b into the heap a. */
  method Insert(a: Entry?, b: Entry, comp: Compare<Entry>, ghost t: Tree<Entry>, ghost all: set<Entry>)
    returns (top: Entry?, ghost calls: nat)
    requires Heap(Snapshot(all), a, t) && b in all && b !in Nodes(t)
    modifies Nodes(t), b
    ensures Heap(Snapshot(all), top, SkewTree.Merge(t, Single(b), comp))
    ensures calls == MergeCalls(t, Single(b), comp)
  {
    ghost var before := Snapshot(all);
    Covered(before, a, t);
    Init(b);
    Frame(before, Snapshot(all), a, t);
    SingleFacts(b);
    MergeNodes(t, Single(b), comp);
    top, calls := Merge(a, b, comp, t, Single(b), all);
    Covered(Snapshot(all), top, SkewTree.Merge(t, Single(b), comp));
  }

  /** Where node x hangs: its subtree is linked, and its parent link leads to the node that holds it. */
  lemma {:induction false} LinkedSubtree(m: Store, e: Entry?, t: Tree<Entry>, x: Entry)
    requires Linked(m, e, t) && Distinct(t) && x in Nodes(t)
    ensures Linked(m, x, Subtree(t, x))
    ensures x != t.root ==>
              && t.root !in Nodes(Subtree(t, x))
              && x in m && m[x].parent != null && m[x].parent in Nodes(t) && m[x].parent in m
              && m[x].parent !in Nodes(Subtree(t, x))
              && (m[m[x].parent].left == x || m[m[x].parent].right == x)
  {
    if t.root == x {
    } else if x in Nodes(t.left) {
      LinkedSubtree(m, m[e].left, t.left, x);
      SubtreeNodes(t.left, x);
    } else {
      LinkedSubtree(m, m[e].right, t.right, x);
      SubtreeNodes(t.right, x);
    }
  }

  /** If only the link that led to x was redirected, to a structure of shape s, then e has the old shape
      with s in place of x's subtree. */
  lemma {:induction false} Redirected(m: Store, m': Store, e: Entry?, t: Tree<Entry>, x: Entry, p: Entry,
                                      s: Tree<Entry>, rep: Entry?)
    requires Linked(m, e, t) && Distinct(t) && x in Nodes(t) && x != t.root
    requires x in m && p == m[x].parent && p in m && p in m'
    requires Linked(m', rep, s) && Nodes(s) <= Nodes(Subtree(t, x)) && Below(m', s, p)
    requires m'[p] == if m[p].left == x then m[p].(left := rep) else m[p].(right := rep)
    requires Agree(m, m', Nodes(t) - Nodes(Subtree(t, x)) - {p})
    ensures Linked(m', e, Replace(t, x, s))
    ensures Replace(t, x, s).Node? && Replace(t, x, s).root == t.root
  {
    Covered(m, e, t);
    Covered(m, m[e].left, t.left);
    Covered(m, m[e].right, t.right);
    if x in Nodes(t.left) {
      SubtreeNodes(t.left, x);
      if x == t.left.root {
        assert p == e;
      } else {
        LinkedSubtree(m, m[e].left, t.left, x);
        Redirected(m, m', m[e].left, t.left, x, p, s, rep);
      }
      assert p !in Nodes(t.right);
      Frame(m, m', m[e].right, t.right);
    } else {
      SubtreeNodes(t.right, x);
      if x == t.right.root {
        assert p == e;
      } else {
        LinkedSubtree(m, m[e].right, t.right, x);
        Redirected(m, m', m[e].right, t.right, x, p, s, rep);
      }
      assert p !in Nodes(t.left);
      Frame(m, m', m[e].left, t.left);
    }
  }

  /** Merges the children of b and hangs the result below b's parent, one way only. */
  method MergeChildren(b: Entry, comp: Compare<Entry>, ghost s: Tree<Entry>, ghost all: set<Entry>)
    returns (rep: Entry?, ghost calls: nat)
    requires Linked(Snapshot(all), b, s) && Distinct(s) && s.Node?
    modifies Nodes(s.left) + Nodes(s.right)
    ensures var m := SkewTree.Merge(s.left, s.right, comp);
            Linked(Snapshot(all), rep, m) && (m.Node? ==> m.root in all && m.root.parent == b.parent)
    ensures calls == MergeCalls(s.left, s.right, comp)
  {
    rep, calls := Merge(b.left, b.right, comp, s.left, s.right, all);
    ghost var merged := Snapshot(all);
    ghost var m := SkewTree.Merge(s.left, s.right, comp);
    MergeNodes(s.left, s.right, comp);
    Covered(merged, rep, m);
    if rep != null {
      rep.parent := b.parent;
    }
    Reparent(merged, Snapshot(all), rep, m);
  }

  /** Removing any node b of the heap a. */
  method Remove(a: Entry, b: Entry, comp: Compare<Entry>, ghost t: Tree<Entry>, ghost all: set<Entry>)
    returns (top: Entry?, ghost calls: nat)
    requires Heap(Snapshot(all), a, t) && b in Nodes(t)
    modifies Nodes(t)
    ensures Heap(Snapshot(all), top, SkewTree.Remove(t, b, comp))
    ensures calls == RemoveCalls(t, b, comp)
  {
    ghost var before := Snapshot(all);
    LinkedSubtree(before, a, t, b);
    SubtreeNodes(t, b);
    Covered(before, a, t);
    ghost var m := MergedChildren(t, b, comp);
    var p := b.parent;
    var rep;
    rep, calls := MergeChildren(b, comp, Subtree(t, b), all);
    RemoveNodes(t, b, comp);
    if p != null {
      ghost var merged := Snapshot(all);
      Covered(merged, rep, m);
      if p.left == b {
        p.left := rep;
      } else {
        p.right := rep;
      }
      Frame(merged, Snapshot(all), rep, m);
      Redirected(before, Snapshot(all), a, t, b, p, m, rep);
      top := a;
    } else {
      top := rep;
    }
  }
}
