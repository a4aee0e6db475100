/** The free lists of the buddy allocator (lab2/kern/mm/buddy_pmm.c) as they lie in memory: circular lists through the
    page descriptors. */
module FreeLists {
  import opened BuddyLayout
  import opened CircularList
  import opened Wrappers

  class Lists {
    const heads: seq<ListEntry>            // free_list of each free area
    const links: seq<ListEntry>            // page_link of each page descriptor
    ghost var free: seq<seq<nat>>          // the pages on each list, first one first

    constructor (heads: seq<ListEntry>, links: seq<ListEntry>)
      requires |heads| == MAX_ORDER + 1 && NoDuplicates(heads + links)
      ensures this.heads == heads && this.links == links && Apart() && |free| == MAX_ORDER + 1
    {
      this.heads, this.links := heads, links;
      free := seq(MAX_ORDER + 1, _ => []);
      new;
      assert forall i | 0 <= i < |heads| :: (heads + links)[i] == heads[i];
      assert forall p | 0 <= p < |links| :: (heads + links)[|heads| + p] == links[p];
    }

    ghost function Entries(): set<ListEntry> {
      (set e | e in heads) + (set e | e in links)
    }

    ghost predicate Apart() {
      && |heads| == MAX_ORDER + 1 && NoDuplicates(heads) && NoDuplicates(links)
      && forall i, p | 0 <= i < |heads| && 0 <= p < |links| :: heads[i] != links[p]
    }

    /** Entry j of the list of order o that holds the pages s: its head, and then their links. */
    ghost function EntryAt(o: nat, s: seq<nat>, j: nat): ListEntry
      requires o < |heads|
    {
      if 0 < j <= |s| && s[j - 1] < |links| then links[s[j - 1]] else heads[o]
    }

    ghost function Chain(o: nat, s: seq<nat>): (c: seq<ListEntry>)
      requires o < |heads|
      ensures |c| == |s| + 1 && forall j | 0 <= j < |c| :: c[j] == EntryAt(o, s, j)
      ensures forall e | e in c :: e in Entries()
    {
      seq(|s| + 1, j requires 0 <= j => EntryAt(o, s, j))
    }

    /** List o links the pages s in this order. */
    ghost predicate Links(o: nat, s: seq<nat>)
      reads Entries()
    {
      && o < |heads| && NoDuplicates(s) && (forall p | p in s :: p < |links|)
      && Ring(Chain(o, s))
    }

    /** No page is on two lists. */
    ghost predicate Disjoint(free: seq<seq<nat>>) {
      forall o, o', p | 0 <= o < |free| && 0 <= o' < |free| && p in free[o] && p in free[o'] :: o == o'
    }

    ghost predicate Valid()
      reads this, Entries()
    {
      && Apart() && |free| == MAX_ORDER + 1 && Disjoint(free)
      && forall o: nat | o <= MAX_ORDER :: Links(o, free[o])
    }

    lemma EntriesDiffer(o: nat, s: seq<nat>, j: nat, o': nat, s': seq<nat>, j': nat)
      requires Apart() && o < |heads| && o' < |heads| && o != o' && j <= |s| && j' <= |s'|
      requires (forall p | p in s :: p < |links|) && (forall p | p in s' :: p < |links|)
      requires forall p | p in s :: p !in s'
      ensures EntryAt(o, s, j) != EntryAt(o', s', j')
    {
      if j > 0 {
        assert s[j - 1] in s;
      }
      if j' > 0 {
        assert s'[j' - 1] in s';
      }
    }

    /** Entries of different lists are different. */
    lemma ChainsApart(o: nat, s: seq<nat>, o': nat, s': seq<nat>)
      requires Apart() && o < |heads| && o' < |heads| && o != o'
      requires (forall p | p in s :: p < |links|) && (forall p | p in s' :: p < |links|)
      requires forall p | p in s :: p !in s'
      ensures forall e | e in Chain(o, s) :: e !in Chain(o', s')
    {
      var c, c' := Chain(o, s), Chain(o', s');
      forall j, j' | 0 <= j < |c| && 0 <= j' < |c'| ensures c[j] != c'[j'] {
        EntriesDiffer(o, s, j, o', s', j');
      }
    }

    /** A page that is not on the list does not have its link there. */
    lemma LinkOutside(o: nat, s: seq<nat>, p: nat)
      requires Apart() && o < |heads| && p < |links| && p !in s && forall q | q in s :: q < |links|
      ensures links[p] !in Chain(o, s)
    {
      forall j | 0 <= j < |Chain(o, s)| ensures Chain(o, s)[j] != links[p] {
        if j > 0 {
          assert s[j - 1] in s;
        }
      }
    }

    lemma ValidParts(o: nat)
      requires Valid() && o <= MAX_ORDER
      ensures Apart() && |free| == MAX_ORDER + 1 && Disjoint(free) && Links(o, free[o])
      ensures NoDuplicates(free[o]) && Ring(Chain(o, free[o])) && forall p | p in free[o] :: p < |links|
    {
    }

    lemma LinksWhole(o: nat, s: seq<nat>)
      requires o < |heads| && NoDuplicates(s) && (forall p | p in s :: p < |links|) && Ring(Chain(o, s))
      ensures Links(o, s)
    {
    }

    /** list_init of the head of list o */
    method InitHead(o: nat)
      requires Apart() && o <= MAX_ORDER && |free| == MAX_ORDER + 1
      modifies this`free, heads[o]
      ensures free == old(free)[o := []] && Links(o, [])
      ensures forall o': nat | o' <= MAX_ORDER && o' != o :: old(Links(o', [])) ==> Links(o', [])
    {
      Init(heads[o]);
      free := free[o := []];
      assert Chain(o, []) == [heads[o]];
      forall o': nat | o' <= MAX_ORDER && o' != o && old(Links(o', [])) ensures Links(o', []) {
        assert Chain(o', []) == [heads[o']];
      }
    }

    /** list_add behind the head of list o */
    method Add(o: nat, p: nat)
      requires Valid() && o <= MAX_ORDER && p < |links| && forall o' | 0 <= o' <= MAX_ORDER :: p !in free[o']
      modifies this`free, Entries()
      ensures Valid() && free == old(free)[o := [p] + old(free)[o]]
    {
      hide NoDuplicates, Chain;
      ghost var s, c := free[o], Chain(o, free[o]);
      ValidParts(o);
      LinkOutside(o, s, p);
      forall o': nat | o' <= MAX_ORDER && o' != o
        ensures Ring(Chain(o', free[o'])) && links[p] !in Chain(o', free[o'])
        ensures NoDuplicates(free[o']) && forall q | q in free[o'] :: q < |links|
        ensures forall e | e in Chain(o', free[o']) :: e !in c
      {
        ValidParts(o');
        LinkOutside(o', free[o'], p);
        ChainsApart(o', free[o'], o, s);
      }
      AddAfter(heads[o], links[p], c, 0);
      ChainAdded(o, s, p);
      forall o': nat | o' <= MAX_ORDER && o' != o ensures Links(o', free[o']) {
        ghost var c' := Chain(o', free[o']);
        assert old(Ring(c'));
        assert forall e | e in c' :: e.next == old(e.next) && e.prev == old(e.prev);
        assert Ring(c');
        LinksWhole(o', free[o']);
      }
      free := free[o := [p] + s];
      FrontFacts(s, p);
      LinksWhole(o, [p] + s);
    }

    lemma ChainAdded(o: nat, s: seq<nat>, p: nat)
      requires o < |heads| && p < |links|
      ensures Chain(o, [p] + s) == Chain(o, s)[..0 + 1] + [links[p]] + Chain(o, s)[0 + 1..]
    {
    }

    /** list_del of the link of page p, which is on list o */
    method Del(o: nat, p: nat)
      requires Valid() && o <= MAX_ORDER && p in free[o]
      modifies this`free, Entries()
      ensures Valid() && free == old(free)[o := Without(old(free)[o], p)]
    {
      hide NoDuplicates, Chain, Without;
      ghost var s, c := free[o], Chain(o, free[o]);
      ghost var i: nat :| i < |s| && s[i] == p;
      ValidParts(o);
      forall o': nat | o' <= MAX_ORDER && o' != o
        ensures Ring(Chain(o', free[o']))
        ensures NoDuplicates(free[o']) && forall q | q in free[o'] :: q < |links|
        ensures forall e | e in Chain(o', free[o']) :: e !in c
      {
        ValidParts(o');
        ChainsApart(o', free[o'], o, s);
      }
      ChainWithout(o, s, i);
      CircularList.Del(links[p], c, i + 1);
      forall o': nat | o' <= MAX_ORDER && o' != o ensures Links(o', free[o']) {
        ghost var c' := Chain(o', free[o']);
        assert old(Ring(c'));
        assert forall e | e in c' :: e.next == old(e.next) && e.prev == old(e.prev);
        assert Ring(c');
        LinksWhole(o', free[o']);
      }
      free := free[o := Without(s, p)];
      WithoutFacts(s, p);
      LinksWhole(o, Without(s, p));
    }

    lemma ChainWithout(o: nat, s: seq<nat>, i: nat)
      requires o < |heads| && i < |s| && s[i] < |links| && NoDuplicates(s)
      ensures |Chain(o, s)| == |s| + 1 && Chain(o, s)[i + 1] == links[s[i]]
      ensures Chain(o, Without(s, s[i])) == Chain(o, s)[..i + 1] + Chain(o, s)[i + 1 + 1..]
    {
      WithoutAt(s, i);
    }

    /** list_empty */
    method IsEmpty(o: nat) returns (empty: bool)
      requires Valid() && o <= MAX_ORDER
      ensures empty <==> free[o] == []
    {
      assert Links(o, free[o]);
      empty := Empty(heads[o], Chain(o, free[o]));
    }

    /** list_next of the head, and the page the link belongs to (le2page) */
    method First(o: nat) returns (p: nat)
      requires Valid() && o <= MAX_ORDER && free[o] != []
      ensures p == free[o][0]
    {
      assert Links(o, free[o]);
      var le := Next(heads[o], Chain(o, free[o]));
      assert free[o][0] in free[o];
      p :| p < |links| && links[p] == le;
    }
  }

  lemma {:induction false} WithoutAt(s: seq<nat>, i: nat)
    requires NoDuplicates(s) && i < |s|
    ensures Without(s, s[i]) == s[..i] + s[i + 1..]
  {
    if i > 0 {
      assert s == [s[0]] + s[1..];
      WithoutAt(s[1..], i - 1);
    }
  }
}
