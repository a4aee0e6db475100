/** A finished image as a reader finds it (the layout lab8/tools/mksfs.c writes): nothing but its blocks, and the
    number each inode had on the host. */
module SfsReader {
  import opened SfsBlockMap
  import opened SfsImage
  import opened SfsTree
  import opened Wrappers

  type HostNumbers = map<nat, nat>

  predicate IsInode(image: Image, i: nat, kind: Kind) {
    i in image && image[i].InodeBlock? && image[i].inode.kind == kind
  }

  /** Block j of inode i. */
  function BlockOf(image: Image, i: nat, j: nat): nat {
    if i in image && image[i].InodeBlock? then Lookup(image[i].inode, TablesOf(image), j) else 0
  }

  /** Entry k of directory d names inode i. */
  predicate Lists(image: Image, d: nat, k: nat, i: nat, name: string) {
    && IsInode(image, d, DirKind) && k < image[d].inode.blocks
    && BlockOf(image, d, k) in image && NamedAs(image[BlockOf(image, d, k)], i, name)
  }

  function DataAt(image: Image, b: nat): seq<bv8> {
    if b in image && image[b].DataBlock? then image[b].data else []
  }

  /** The first n blocks of inode i, one after the other. */
  function Joined(image: Image, i: nat, n: nat): seq<bv8> {
    if n == 0 then [] else Joined(image, i, n - 1) + DataAt(image, BlockOf(image, i, n - 1))
  }

  /** The data is n blocks, first the bytes and then zeros. */
  predicate FilledUp(data: seq<bv8>, bytes: seq<bv8>, n: nat) {
    && |data| == 4096 * n && |bytes| <= |data|
    && forall j | 0 <= j < |data| :: data[j] == if j < |bytes| then bytes[j] else 0
  }

  /** What inode i holds: as many bytes of its blocks as its size says, and behind them zeros. */
  predicate HoldsBytes(image: Image, i: nat, bytes: seq<bv8>) {
    && i in image && image[i].InodeBlock? && image[i].inode.size == |bytes|
    && FilledUp(Joined(image, i, image[i].inode.blocks), bytes, image[i].inode.blocks)
  }

  // ---------- The tree the image holds ----------

  /** Directory d of the image, whose parent is the given one, is the host directory with entries es. */
  ghost predicate TreeReads(image: Image, host: HostNumbers, content: HostFiles, d: nat, parent: nat, es: seq<Entry>)
    decreases es, 3
  {
    && IsInode(image, d, DirKind) && image[d].inode.blocks == 2 + |Keep(es)|
    && image[d].inode.size == ENTRY_SIZE * image[d].inode.blocks
    && Lists(image, d, 0, d, ".") && Lists(image, d, 1, parent, "..") && EntriesRead(image, host, content, d, es)
  }

  ghost predicate EntriesRead(image: Image, host: HostNumbers, content: HostFiles, d: nat, es: seq<Entry>)
    decreases es, 0
  {
    es == [] ||
    (EntriesRead(image, host, content, d, es[..|es| - 1]) &&
     (Keeps(es[|es| - 1]) ==> EntryReads(image, host, content, d, 2 + |Keep(es[..|es| - 1])|, es[|es| - 1])))
  }

  ghost predicate EntryReads(image: Image, host: HostNumbers, content: HostFiles, d: nat, k: nat, e: Entry)
    decreases e, 2
  {
    exists i :: EntryReadsAs(image, host, content, d, k, i, e)
  }

  ghost predicate EntryReadsAs(image: Image, host: HostNumbers, content: HostFiles, d: nat, k: nat, i: nat, e: Entry)
    decreases e, 1
  {
    Lists(image, d, k, i, e.name) && NodeReads(image, host, content, d, i, e.node)
  }

  ghost predicate NodeReads(image: Image, host: HostNumbers, content: HostFiles, d: nat, i: nat, node: Host)
    decreases node, 4
  {
    i in host && !node.HostOther? && host[i] == node.ino &&
    match node
    case HostDir(_, es) => TreeReads(image, host, content, i, d, es)
    case HostFile(r) => IsInode(image, i, FileKind) && r in content && HoldsBytes(image, i, Flat(content[r]))
    case HostLink(_, target) => IsInode(image, i, LinkKind) && target.Some? && HoldsBytes(image, i, target.value)
  }

  // ---------- The names in a directory ----------

  /** What ls shows of a host directory, as far as an image knows the kind. */
  predicate Visible(e: Entry) {
    (e.name == "" || e.name[0] != '.') && !e.node.HostOther?
  }

  /** Where entry j of the host directory goes. */
  function Place(es: seq<Entry>, j: nat): nat
    requires j < |es|
  {
    2 + |Keep(es[..j])|
  }

  /** Some visible entry goes to place k. */
  ghost predicate PlaceUsed(es: seq<Entry>, k: nat) {
    exists j :: 0 <= j < |es| && Visible(es[j]) && Place(es, j) == k
  }

  lemma PlaceBound(es: seq<Entry>, j: nat)
    requires j < |es|
    ensures Keeps(es[j]) <==> Visible(es[j])
    ensures 2 <= Place(es, j) && (Visible(es[j]) ==> Place(es, j) < 2 + |Keep(es)|)
  {
    hide Keep;
    KeepPrefix(es, j);
  }

  lemma PlacesGrow(es: seq<Entry>, j: nat, j': nat)
    requires j < j' < |es| && Visible(es[j])
    ensures Place(es, j) < Place(es, j')
  {
    hide Keep;
    assert es[..j'][..j] == es[..j];
    KeepPrefix(es[..j'], j);
  }

  lemma {:induction false} PlaceTaken(es: seq<Entry>, k: nat) returns (j: nat)
    requires 2 <= k < 2 + |Keep(es)|
    ensures j < |es| && Visible(es[j]) && Place(es, j) == k
    decreases |es|
  {
    var n := |es| - 1;
    if k < 2 + |Keep(es[..n])| {
      j := PlaceTaken(es[..n], k);
      assert es[..n][..j] == es[..j];
    } else {
      j := n;
    }
  }

  lemma {:induction false} EntryAt(image: Image, host: HostNumbers, content: HostFiles, d: nat, es: seq<Entry>, j: nat)
    requires EntriesRead(image, host, content, d, es) && j < |es| && Visible(es[j])
    ensures EntryReads(image, host, content, d, Place(es, j), es[j])
    decreases |es|
  {
    hide EntryReads, Keep;
    if j < |es| - 1 {
      EntryAt(image, host, content, d, es[..|es| - 1], j);
      assert es[..|es| - 1][..j] == es[..j];
    }
  }

  /** What is visible on the host stands in the image under its name, in the order of the host; and behind the
      references to itself and its parent a directory has no other entries. */
  lemma DirectoryEntries(image: Image, host: HostNumbers, content: HostFiles, d: nat, parent: nat, es: seq<Entry>)
    requires TreeReads(image, host, content, d, parent, es)
    ensures forall j | 0 <= j < |es| && Visible(es[j]) ::
              2 <= Place(es, j) < image[d].inode.blocks && EntryReads(image, host, content, d, Place(es, j), es[j])
    ensures forall j, j' | 0 <= j < j' < |es| && Visible(es[j]) :: Place(es, j) < Place(es, j')
    ensures forall k | 2 <= k < image[d].inode.blocks :: PlaceUsed(es, k)
  {
    hide EntryReads, EntriesRead, Keep, Place, Lists, Visible;
    forall j | 0 <= j < |es| && Visible(es[j])
      ensures 2 <= Place(es, j) < image[d].inode.blocks && EntryReads(image, host, content, d, Place(es, j), es[j])
    {
      PlaceBound(es, j);
      EntryAt(image, host, content, d, es, j);
    }
    forall j, j' | 0 <= j < j' < |es| && Visible(es[j]) ensures Place(es, j) < Place(es, j') {
      PlacesGrow(es, j, j');
    }
    forall k | 2 <= k < image[d].inode.blocks ensures PlaceUsed(es, k) {
      var j := PlaceTaken(es, k);
    }
  }

  /** Two entries with different names, short enough to have room, have different names in the image. */
  lemma NamesStayApart(image: Image, host: HostNumbers, content: HostFiles, d: nat, parent: nat, es: seq<Entry>,
                       j: nat, j': nat)
    requires TreeReads(image, host, content, d, parent, es)
    requires j < |es| && Visible(es[j]) && |es[j].name| <= 252
    requires j' < |es| && Visible(es[j']) && |es[j'].name| <= 252
    ensures var b, b' := BlockOf(image, d, Place(es, j)), BlockOf(image, d, Place(es, j'));
            && b in image && image[b].EntryBlock? && image[b].name == es[j].name
            && b' in image && image[b'].EntryBlock? && image[b'].name == es[j'].name
            && (es[j].name != es[j'].name ==> b != b' && image[b].name != image[b'].name)
  {
    hide NodeReads, EntriesRead, Keep, Place, BlockOf, Visible, IsInode;
    DirectoryEntries(image, host, content, d, parent, es);
    assert EntryReads(image, host, content, d, Place(es, j), es[j]);
    assert EntryReads(image, host, content, d, Place(es, j'), es[j']);
    var i :| EntryReadsAs(image, host, content, d, Place(es, j), i, es[j]);
    var i' :| EntryReadsAs(image, host, content, d, Place(es, j'), i', es[j']);
  }

  /** The inodes of the image. */
  ghost function Objects(image: Image, host: HostNumbers): map<nat, Obj> {
    map i | i in image && image[i].InodeBlock? && i in host :: Obj(image[i].inode.kind, host[i], image[i].inode.nlinks)
  }

  /** Every inode of the image has a number on the host. */
  ghost predicate Numbered(image: Image, host: HostNumbers) {
    forall i :: i in host <==> i in image && image[i].InodeBlock?
  }

  // ---------- What the builder knows is what a reader finds ----------

  function HostsOf(s: State): HostNumbers {
    map i | i in s.inodes :: s.inodes[i].hostIno
  }

  lemma ObjectsWritten(s: State)
    requires Closed(s)
    ensures Objects(s.image, HostsOf(s)) == Written(s) && Numbered(s.image, HostsOf(s))
  {
    hide Reads;
  }

  lemma BlockFound(s: State, i: nat, j: nat)
    requires Closed(s) && i in s.files && j < |s.files[i]|
    ensures i in s.inodes && i in s.image && s.image[i] == InodeBlock(s.inodes[i].inode)
    ensures s.image[i].inode.blocks == |s.files[i]| && BlockOf(s.image, i, j) == s.files[i][j]
  {
    assert Reads(s.image, i, s.files[i]);
    hide Lookup, TablesOf;
  }

  lemma InodeFound(s: State, i: nat)
    requires Closed(s) && i in s.files
    ensures i in s.inodes && i in s.image && s.image[i] == InodeBlock(s.inodes[i].inode)
    ensures s.image[i].inode.blocks == |s.files[i]|
    ensures i in HostsOf(s) && HostsOf(s)[i] == s.inodes[i].hostIno
  {
    assert Reads(s.image, i, s.files[i]);
    hide Lookup, TablesOf, Found;
  }

  lemma ListedReads(s: State, d: nat, k: nat, i: nat, name: string)
    requires Closed(s) && Listed(s, d, k, i, name) && d in s.inodes && s.inodes[d].inode.kind.DirKind?
    ensures Lists(s.image, d, k, i, name)
  {
    hide Closed, BlockOf, NamedAs, Stored;
    BlockFound(s, d, k);
    StoredNamed(i, name);
  }

  lemma BlockReads(s: State, i: nat, j: nat, data: seq<bv8>)
    requires Closed(s) && BlockHolds(s, i, j, data)
    ensures DataAt(s.image, BlockOf(s.image, i, j)) == Padded(data)
  {
    hide Closed, BlockOf, Padded;
    BlockFound(s, i, j);
  }

  lemma FullBlock(data: seq<bv8>)
    requires |data| <= SFS_BLKSIZE
    ensures FilledUp(Padded(data), data, 1) && (|data| == SFS_BLKSIZE ==> Padded(data) == data)
  {
  }

  /** All blocks but the last are full, so the padding is behind the size. */
  lemma {:induction false} ChunksRead(s: State, i: nat, chunks: seq<Read>, n: nat)
    requires Closed(s) && Holds(s, i, chunks) && n <= |chunks|
    ensures FilledUp(Joined(s.image, i, n), Flat(chunks[..n]), n)
    ensures n < |chunks| ==> Flat(chunks[..n]) == Joined(s.image, i, n)
  {
    hide Closed, BlockOf, DataAt, Padded, FilledUp;
    if n == 0 {
      NothingFilled(Joined(s.image, i, 0), Flat(chunks[..0]));
    } else {
      var c := chunks[n - 1];
      ChunksRead(s, i, chunks, n - 1);
      assert chunks[..n][..n - 1] == chunks[..n - 1] && chunks[..n][n - 1] == c;
      assert BlockHolds(s, i, n - 1, c.data);
      BlockReads(s, i, n - 1, c.data);
      FullBlock(c.data);
      hide *;
      JoinedIs(s.image, i, n);
      FlatIs(chunks[..n]);
      FilledFurther(Joined(s.image, i, n - 1), c.data, Padded(c.data), n);
    }
  }

  lemma NothingFilled(data: seq<bv8>, bytes: seq<bv8>)
    requires data == [] && bytes == []
    ensures FilledUp(data, bytes, 0)
  {
  }

  lemma JoinedIs(image: Image, i: nat, n: nat)
    requires n > 0
    ensures Joined(image, i, n) == Joined(image, i, n - 1) + DataAt(image, BlockOf(image, i, n - 1))
  {
  }

  lemma FlatIs(chunks: seq<Read>)
    requires chunks != [] && chunks[|chunks| - 1].Chunk?
    ensures Flat(chunks) == Flat(chunks[..|chunks| - 1]) + chunks[|chunks| - 1].data
  {
  }

  lemma FilledFurther(a: seq<bv8>, b: seq<bv8>, c: seq<bv8>, n: nat)
    requires n > 0 && FilledUp(a, a, n - 1) && FilledUp(c, b, 1)
    ensures FilledUp(a + c, a + b, n)
  {
  }

  lemma FileRead(s: State, i: nat, chunks: seq<Read>)
    requires Closed(s) && Holds(s, i, chunks)
    ensures HoldsBytes(s.image, i, Flat(chunks))
  {
    InodeFound(s, i);
    ChunksRead(s, i, chunks, |chunks|);
    assert chunks[..|chunks|] == chunks;
    hide Joined, Flat, Closed, FilledUp;
  }

  lemma TargetRead(s: State, i: nat, target: seq<bv8>)
    requires Closed(s) && HoldsTarget(s, i, target)
    ensures HoldsBytes(s.image, i, target)
  {
    hide Closed, Padded, BlockOf, DataAt, FilledUp;
    InodeFound(s, i);
    BlockReads(s, i, 0, target);
    FullBlock(target);
    assert Joined(s.image, i, 1) == Padded(target);
  }

  lemma {:induction false} DenotesReads(s: State, content: HostFiles, d: nat, es: seq<Entry>)
    requires Closed(s) && Denotes(s, content, d, es) && d in s.inodes && s.inodes[d].inode.kind.DirKind?
    ensures EntriesRead(s.image, HostsOf(s), content, d, es)
    decreases es, 0
  {
    hide Closed, Listed, Lists, Represents, NodeReads, HostsOf;
    if es != [] {
      var p, e := es[..|es| - 1], es[|es| - 1];
      DenotesReads(s, content, d, p);
      if Keeps(e) {
        var k := 2 + |Keep(p)|;
        assert HasEntry(s, content, d, k, e);
        var i :| ListedAs(s, content, d, k, i, e);
        ListedReads(s, d, k, i, e.name);
        RepresentsReads(s, content, d, i, e.node);
        assert EntryReadsAs(s.image, HostsOf(s), content, d, k, i, e);
      }
    }
  }

  lemma {:induction false} RepresentsReads(s: State, content: HostFiles, d: nat, i: nat, node: Host)
    requires Closed(s) && Represents(s, content, d, i, node)
    ensures NodeReads(s.image, HostsOf(s), content, d, i, node)
    decreases node, 1
  {
    hide Closed, Listed, Lists, Denotes, EntriesRead, Holds, HoldsTarget, HoldsBytes, HostsOf, Keep, Flat;
    InodeFound(s, i);
    match node
    case HostDir(r, es) =>
      DirReads(s, content, i, d, es);
    case HostFile(r) =>
      FileRead(s, i, content[r]);
    case HostLink(r, target) =>
      TargetRead(s, i, target.value);
  }

  /** A directory as the builder knows it is what a reader finds. */
  lemma {:induction false} DirReads(s: State, content: HostFiles, d: nat, parent: nat, es: seq<Entry>)
    requires Closed(s) && HasEntries(s, d, 2 + |Keep(es)|) && s.inodes[d].inode.kind.DirKind?
    requires Listed(s, d, 0, d, ".") && Listed(s, d, 1, parent, "..") && Denotes(s, content, d, es)
    ensures TreeReads(s.image, HostsOf(s), content, d, parent, es)
    decreases es, 1
  {
    hide Closed, Listed, Lists, Denotes, EntriesRead, HostsOf, Keep;
    InodeFound(s, d);
    ListedReads(s, d, 0, d, ".");
    ListedReads(s, d, 1, parent, "..");
    DenotesReads(s, content, d, es);
  }

  /** The finished image holds the tree that was built, with the links of all its inodes. */
  lemma TreeFinished(ninos: nat, s0: State, s: State, s': State, blocks: seq<seq<bv32>>, content: HostFiles,
                     es: seq<Entry>)
    requires DirBuilt(s0, s, content, SFS_BLKN_ROOT, SFS_BLKN_ROOT, es)
    requires LinkCounts(Written(s), es) && NamesCounted(s.image, Written(s), es)
    requires Finished(ninos, s', blocks) && s' == s.(image := s'.image)
    requires forall b | b in s.image :: b in s'.image && s'.image[b] == s.image[b]
    requires forall b | b in s'.image && s'.image[b].EntryBlock? :: b in s.image
    ensures Numbered(s'.image, HostsOf(s')) && LinkCounts(Objects(s'.image, HostsOf(s')), es)
    ensures NamesCounted(s'.image, Objects(s'.image, HostsOf(s')), es)
    ensures TreeReads(s'.image, HostsOf(s'), content, SFS_BLKN_ROOT, SFS_BLKN_ROOT, es)
  {
    hide Closed, Listed, Denotes, Keep, Grew, Effect, Sorted, Filled, TreeReads, LinkCounts, View, MapBlockIs, FirstIno,
         NamesCounted;
    FinishedKeys(ninos, s', blocks);
    ClosedDenotes(s, s', content, SFS_BLKN_ROOT, es);
    SameWritten(s, s');
    SameNamings(s.image, s'.image, Written(s), es);
    ObjectsWritten(s');
    DirReads(s', content, SFS_BLKN_ROOT, SFS_BLKN_ROOT, es);
  }

  lemma FinishedKeys(ninos: nat, s: State, blocks: seq<seq<bv32>>)
    requires Finished(ninos, s, blocks)
    ensures Closed(s) && s.files.Keys == s.inodes.Keys
  {
    hide Reads, MapBlockIs, FirstIno;
  }

  lemma SameWritten(s: State, s': State)
    requires s' == s.(image := s'.image)
    ensures Written(s') == Written(s)
  {
  }

  lemma SameNamings(image: Image, image': Image, v: map<nat, Obj>, es: seq<Entry>)
    requires NamesCounted(image, v, es) && forall b | b in image :: b in image' && image'[b] == image[b]
    requires forall b | b in image' && image'[b].EntryBlock? :: b in image
    ensures NamesCounted(image', v, es)
  {
    hide Expected;
    forall i ensures Namings(image', i) == Namings(image, i) {
    }
  }

  /** No two entries of the image, wherever they are, share a symbolic link. */
  lemma LinksApart(image: Image, host: HostNumbers, es: seq<Entry>, i: nat, d: nat, k: nat, name: string, d': nat,
                   k': nat, name': string)
    requires Numbered(image, host) && NamesCounted(image, Objects(image, host), es) && IsInode(image, i, LinkKind)
    requires Lists(image, d, k, i, name) && Lists(image, d', k', i, name')
    ensures BlockOf(image, d, k) == BlockOf(image, d', k')
  {
    hide BlockOf;
    var b, b' := BlockOf(image, d, k), BlockOf(image, d', k');
    assert i in Objects(image, host) && |Namings(image, i)| == 1;
    assert b in Namings(image, i) && b' in Namings(image, i);
    assert |Namings(image, i) - {b}| == 0;
  }
}
