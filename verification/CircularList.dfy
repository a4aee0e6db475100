/** The circular doubly linked list of lab2/libs/list.h. */
module CircularList {
  import opened Cycle
  import opened Wrappers

  class ListEntry {
    var prev: ListEntry?
    var next: ListEntry?

    constructor ()
      ensures prev == null && next == null
    {
      prev, next := null, null;
    }
  }

  /** s lists the entries of one cycle in next order: next and prev are inverse walks around it. A list is a
      cycle whose first entry is the list head. */
  ghost predicate Ring(s: seq<ListEntry>)
    reads s
  {
    && |s| >= 1 && NoDuplicates(s)
    && (forall i {:trigger After(i, |s|)} | 0 <= i < |s| ::
          s[i].next == s[After(i, |s|)] && s[After(i, |s|)].prev == s[i])
  }

  /** list_init */
  method Init(elm: ListEntry)
    modifies elm
    ensures Ring([elm])
  {
    elm.prev, elm.next := elm, elm;
  }

  /** list_add and list_add_after: elm follows the i-th entry. */
  method AddAfter(listelm: ListEntry, elm: ListEntry, ghost s: seq<ListEntry>, ghost i: nat)
    requires Ring(s) && i < |s| && s[i] == listelm && elm !in s
    modifies s, elm
    ensures Ring(s[..i + 1] + [elm] + s[i + 1..])
  {
    assert listelm.next == s[After(i, |s|)];
    Link(elm, listelm, listelm.next, s, i);
  }

  /** list_add_before: elm precedes the entry that follows the i-th. */
  method AddBefore(listelm: ListEntry, elm: ListEntry, ghost s: seq<ListEntry>, ghost i: nat)
    requires Ring(s) && i < |s| && s[After(i, |s|)] == listelm && elm !in s
    modifies s, elm
    ensures Ring(s[..i + 1] + [elm] + s[i + 1..])
  {
    assert listelm.prev == s[i];
    Link(elm, listelm.prev, listelm, s, i);
  }

  /** __list_add */
  method Link(elm: ListEntry, prev: ListEntry, next: ListEntry, ghost s: seq<ListEntry>, ghost i: nat)
    requires Ring(s) && i < |s| && s[i] == prev && s[After(i, |s|)] == next && elm !in s
    modifies s, elm
    ensures Ring(s[..i + 1] + [elm] + s[i + 1..])
  {
    ghost var t := s[..i + 1] + [elm] + s[i + 1..];
    Inserted(s, elm, i, t);
    prev.next, next.prev := elm, elm;
    elm.next := next;
    elm.prev := prev;
    forall j | 0 <= j < |t| ensures t[j].next == t[After(j, |t|)] && t[After(j, |t|)].prev == t[j] {
      if j < i || j > i + 1 {
        var m := if j < i then j else j - 1;
        assert old(s[m].next == s[After(m, |s|)] && s[After(m, |s|)].prev == s[m]);
        assert s[m] != s[i] && s[After(m, |s|)] != s[After(i, |s|)];
      }
    }
  }

  /** Where the neighbours of the lengthened cycle come from. */
  lemma Inserted(s: seq<ListEntry>, elm: ListEntry, i: nat, t: seq<ListEntry>)
    requires i < |s| && t == s[..i + 1] + [elm] + s[i + 1..] && elm !in s
    requires forall a, b | 0 <= a < b < |s| :: s[a] != s[b]
    ensures forall a, b | 0 <= a < b < |t| :: t[a] != t[b]
    ensures forall j {:trigger After(j, |t|)} | 0 <= j < |t| ::
              && t[j] == (if j <= i then s[j] else if j == i + 1 then elm else s[j - 1])
              && t[After(j, |t|)] == (if j < i then s[After(j, |s|)] else if j == i then elm
                                      else s[After(j - 1, |s|)])
  {
  }

  /** list_del of any entry but the last remaining one: the others keep their order, and the removed entry
      keeps its own two links. */
  method Del(listelm: ListEntry, ghost s: seq<ListEntry>, ghost i: nat)
    requires Ring(s) && 1 <= i < |s| && s[i] == listelm
    modifies s
    ensures Ring(s[..i] + s[i + 1..])
    ensures listelm.next == old(listelm.next) && listelm.prev == old(listelm.prev)
  {
    ghost var t := s[..i] + s[i + 1..];
    assert forall j | 0 <= j < |t| :: t[j] == if j < i then s[j] else s[j + 1];
    assert s[i - 1].next == s[After(i - 1, |s|)] && s[i].prev == s[i - 1] && s[i].next == s[After(i, |s|)];
    var prev, next := listelm.prev, listelm.next;
    prev.next := next;
    next.prev := prev;
    forall j | 0 <= j < |t| ensures t[j].next == t[After(j, |t|)] && t[After(j, |t|)].prev == t[j] {
      if j < i - 1 {
        assert s[j].next == s[After(j, |s|)];
      } else if j >= i {
        assert s[j + 1].next == s[After(j + 1, |s|)];
      }
    }
  }

  /** list_del_init: the removed entry becomes a list of its own. */
  method DelInit(listelm: ListEntry, ghost s: seq<ListEntry>, ghost i: nat)
    requires Ring(s) && 1 <= i < |s| && s[i] == listelm
    modifies s
    ensures Ring(s[..i] + s[i + 1..]) && Ring([listelm])
  {
    Del(listelm, s, i);
    assert listelm !in s[..i] + s[i + 1..];
    Init(listelm);
  }

  /** list_empty: only the head is left. */
  method Empty(list: ListEntry, ghost s: seq<ListEntry>) returns (empty: bool)
    requires Ring(s) && s[0] == list
    ensures empty <==> s == [list]
  {
    empty := list.next == list;
    assert s[0].next == s[After(0, |s|)];
    if |s| > 1 {
      assert s[0] != s[1];
    }
  }

  /** list_next of a list head is the first entry of a nonempty list. */
  method Next(list: ListEntry, ghost s: seq<ListEntry>) returns (first: ListEntry)
    requires Ring(s) && s[0] == list
    ensures first == if |s| > 1 then s[1] else list
  {
    assert s[0].next == s[After(0, |s|)];
    first := list.next;
  }
}
