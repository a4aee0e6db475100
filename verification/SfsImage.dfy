/** The state of the image under construction (lab8/tools/mksfs.c): which blocks have been handed out, what for,
    and what has been written to them. */
module SfsImage {
  import opened SfsBlockMap
  import opened Wrappers

  const SFS_BLKSIZE: nat := 4096
  const SFS_MAX_NBLKS: nat := 524288
  const SFS_BLKBITS: nat := 32768
  const SFS_MAX_FNAME_LEN: nat := 255
  const SFS_BLKN_SUPER: nat := 0
  const SFS_BLKN_ROOT: nat := 1
  const SFS_BLKN_FREEMAP: nat := 2
  const HASH_LIST_SIZE: nat := 1024
  const NLINKS_RANGE: nat := 65536         // nlinks is sixteen bits wide
  const ENTRY_SIZE: nat := 256             // what a directory grows by with every entry

  /** How an operation ends; all but the first stop the program. */
  datatype Outcome = Done | OutOfSpace | FileTooBig | NameTooLong | BadRead | BadLink | SeenTwice

  /** What is written to a block. */
  datatype Contents =
    | SuperBlock(blocks: nat, unused: nat)
    | FreeMap(words: seq<bv32>)
    | InodeBlock(inode: Inode)
    | TableBlock(entries: seq<nat>)
    | EntryBlock(ino: nat, name: string)
    | DataBlock(data: seq<bv8>)          // a whole block

  type Image = map<nat, Contents>

  /** write_block fills a block up with zeros. */
  function Padded(data: seq<bv8>): seq<bv8> {
    data + seq(if |data| < SFS_BLKSIZE then SFS_BLKSIZE - |data| else 0, _ => 0)
  }

  function FreeMapBlocks(ninos: nat): (n: nat)
    ensures ninos <= 32768 * n < ninos + 32768
  {
    (ninos + SFS_BLKBITS - 1) / SFS_BLKBITS
  }

  /** The first block behind the free map. */
  function FirstIno(ninos: nat): nat {
    SFS_BLKN_FREEMAP + FreeMapBlocks(ninos)
  }

  /** hash32 */
  function Hash32(val: nat): (h: nat)
    ensures h < HASH_LIST_SIZE
  {
    ((val * 0x9e370001) % 0x1_0000_0000) / 0x40_0000
  }

  /** hash64 */
  function Hash64(val: nat): (h: nat)
    ensures h < HASH_LIST_SIZE
  {
    Hash32(val % 0x1_0000_0000)
  }

  /** The builder's fields at one moment, with what each block was handed out for, the blocks appended to each inode
      and how often it was entered in a directory. */
  datatype State = State(nextIno: nat, unused: nat, inodes: map<nat, CacheInode>, tables: Tables,
                         inodeChains: seq<seq<nat>>, blockChains: seq<seq<nat>>, image: Image,
                         role: Roles, files: map<nat, seq<nat>>, links: map<nat, nat>)

  /** Every block number handed out is used for exactly what its role says. */
  ghost predicate RoleOk(b: nat, s: State) {
    if b in s.role then
      && (b in s.inodes <==> s.role[b].Itself?)
      && (b in s.tables <==> IsTable(s.role[b]))
      && (b in s.image ==> (s.role[b].Data? || s.role[b].Fresh?) && IsPlain(s.image[b]))
      && (s.role[b].Data? ==> b in s.image && IsBlock(b, s.role[b].file, s.role[b].index, s.files))
    else
      b !in s.inodes && b !in s.tables && b !in s.image
  }

  /** What is written before the image is closed. */
  predicate IsPlain(c: Contents) {
    c.EntryBlock? || c.DataBlock?
  }

  ghost predicate IsBlock(b: nat, f: nat, j: nat, files: map<nat, seq<nat>>) {
    f in files && j < |files[f]| && files[f][j] == b
  }

  ghost predicate RolesOk(s: State) {
    forall b :: RoleOk(b, s)
  }

  /** The numbers handed out are the root's and those from the first free block to the next one. */
  ghost predicate Handed(ninos: nat, nextIno: nat, role: Roles) {
    forall b :: b in role <==> b == SFS_BLKN_ROOT || FirstIno(ninos) <= b < nextIno
  }

  /** Block j of file f is known as such. */
  ghost predicate DataOk(f: nat, blocks: seq<nat>, role: Roles) {
    forall j | 0 <= j < |blocks| :: blocks[j] in role && role[blocks[j]] == Data(f, j)
  }

  ghost predicate FileOk(f: nat, s: State) {
    && f in s.inodes && f in s.files && f in s.links
    && MapOk(f, s.inodes[f], s.tables, s.role, s.files[f]) && DataOk(f, s.files[f], s.role)
    && s.inodes[f].inode.nlinks == s.links[f] % NLINKS_RANGE
  }

  ghost predicate FilesOk(s: State) {
    && s.files.Keys == s.inodes.Keys == s.links.Keys && 0 !in s.tables
    && forall f | f in s.inodes :: FileOk(f, s)
  }

  ghost predicate SpaceOk(ninos: nat, s: State) {
    FirstIno(ninos) <= s.nextIno <= ninos <= SFS_MAX_NBLKS && s.nextIno + s.unused == ninos
  }

  /** What every step of the builder keeps. */
  ghost predicate StateOk(ninos: nat, s: State) {
    && SpaceOk(ninos, s) && Handed(ninos, s.nextIno, s.role) && RolesOk(s) && FilesOk(s)
    && InodeChainsOk(s.inodeChains, s.inodes) && BlockChainsOk(s.blockChains, s.tables)
  }

  // ---------- Hash chains ----------

  /** An inode is on the chain its host number selects, once, and on no other. */
  ghost predicate InodeChainsOk(chains: seq<seq<nat>>, inodes: map<nat, CacheInode>) {
    && |chains| == HASH_LIST_SIZE
    && (forall h | 0 <= h < HASH_LIST_SIZE :: NoDuplicates(chains[h]))
    && (forall h, f | 0 <= h < HASH_LIST_SIZE && f in chains[h] :: f in inodes && Hash64(inodes[f].hostIno) == h)
    && (forall f | f in inodes :: f in chains[Hash64(inodes[f].hostIno)])
  }

  /** Every table is on the chain of number 0, whatever its own number is. */
  ghost predicate BlockChainsOk(chains: seq<seq<nat>>, tables: Tables) {
    && |chains| == HASH_LIST_SIZE && NoDuplicates(chains[Hash32(0)])
    && (forall t :: t in chains[Hash32(0)] <==> t in tables)
    && (forall h | 0 <= h < HASH_LIST_SIZE && h != Hash32(0) :: chains[h] == [])
  }

  lemma InodePushed(chains: seq<seq<nat>>, inodes: map<nat, CacheInode>, f: nat, ci: CacheInode)
    requires InodeChainsOk(chains, inodes) && f !in inodes
    ensures var h := Hash64(ci.hostIno); InodeChainsOk(chains[h := [f] + chains[h]], inodes[f := ci])
  {
  }

  lemma BlockPushed(chains: seq<seq<nat>>, tables: Tables, t: nat, entries: seq<nat>)
    requires BlockChainsOk(chains, tables) && t !in tables
    ensures BlockChainsOk(chains[Hash32(0) := [t] + chains[Hash32(0)]], tables[t := entries])
  {
  }

  // ---------- What one step leaves alone ----------

  predicate HasFile(r: Role) {
    IsTable(r) || r.Data?
  }

  /** Tables and data blocks of files other than f are the same. */
  ghost predicate OthersSame(f: nat, tables: Tables, role: Roles, tables': Tables, role': Roles) {
    && 0 !in tables'
    && forall b | b in role && HasFile(role[b]) && role[b].file != f ::
         b in role' && role'[b] == role[b] && (b in tables ==> b in tables' && tables'[b] == tables[b])
  }

  lemma FileKept(g: nat, f: nat, s: State, s': State)
    requires FileOk(g, s) && 0 !in s.tables && g != f && OthersSame(f, s.tables, s.role, s'.tables, s'.role)
    requires g in s'.inodes && g in s'.files && g in s'.links
    requires s'.inodes[g] == s.inodes[g] && s'.files[g] == s.files[g] && s'.links[g] == s.links[g]
    ensures FileOk(g, s')
  {
    MapKept(g, s.inodes[g], s.tables, s.role, s'.tables, s'.role, s.files[g]);
    hide MapOk;
  }

  /** Only file f has changed; it is checked on its own. */
  lemma FilesKept(f: nat, s: State, s': State)
    requires FilesOk(s) && OthersSame(f, s.tables, s.role, s'.tables, s'.role)
    requires s'.files.Keys == s'.inodes.Keys == s'.links.Keys
    requires forall g | g in s'.inodes && g != f ::
               g in s.inodes && s'.inodes[g] == s.inodes[g] && s'.files[g] == s.files[g] && s'.links[g] == s.links[g]
    requires f in s'.inodes ==> FileOk(f, s')
    ensures FilesOk(s')
  {
    assert 0 !in s'.tables;
    hide FileOk, OthersSame;
    forall g | g in s'.inodes ensures FileOk(g, s') {
      if g != f {
        FileKept(g, f, s, s');
      }
    }
  }

  // ---------- The state after each step ----------

  function Handing(s: State): State
    requires s.unused > 0
  {
    s.(nextIno := s.nextIno + 1, unused := s.unused - 1, role := s.role[s.nextIno := Fresh])
  }

  lemma HandingKeeps(ninos: nat, s: State)
    requires StateOk(ninos, s) && s.nextIno < ninos
    ensures s.unused > 0 && s.nextIno !in s.role && StateOk(ninos, Handing(s))
  {
    hide InodeChainsOk, BlockChainsOk, FileOk, MapOk, FreeMapBlocks;
    var s' := Handing(s);
    forall b ensures RoleOk(b, s') {
      assert RoleOk(b, s);
    }
    assert RoleOk(0, s);
    FilesKept(0, s, s');
  }

  lemma WritingKeeps(ninos: nat, s: State, b: nat, c: Contents)
    requires StateOk(ninos, s) && b in s.role && s.role[b] == Fresh && b !in s.image && IsPlain(c)
    ensures StateOk(ninos, s.(image := s.image[b := c]))
  {
    hide InodeChainsOk, BlockChainsOk, FileOk, MapOk, FreeMapBlocks;
    var s' := s.(image := s.image[b := c]);
    forall x ensures RoleOk(x, s') {
      assert RoleOk(x, s);
    }
    assert RoleOk(0, s);
    FilesKept(0, s, s');
  }

  function Registering(s: State, f: nat, kind: Kind, hostIno: nat): State {
    var h := Hash64(hostIno);
    s.(inodes := s.inodes[f := EmptyInode(kind, hostIno)],
       inodeChains := if h < |s.inodeChains| then s.inodeChains[h := [f] + s.inodeChains[h]] else s.inodeChains,
       role := s.role[f := Itself], files := s.files[f := []], links := s.links[f := 0])
  }

  lemma RegisteringRoles(s: State, f: nat, kind: Kind, hostIno: nat)
    requires RolesOk(s) && FilesOk(s) && f in s.role && s.role[f] == Fresh && f !in s.image
    ensures f !in s.inodes && RolesOk(Registering(s, f, kind, hostIno))
  {
    hide Hash64, FileOk, EmptyInode;
    var s' := Registering(s, f, kind, hostIno);
    assert RoleOk(f, s);
    forall b ensures RoleOk(b, s') {
      assert RoleOk(b, s);
    }
  }

  lemma RegisteringFiles(s: State, f: nat, kind: Kind, hostIno: nat)
    requires FilesOk(s) && f in s.role && s.role[f] == Fresh && f !in s.inodes
    ensures FilesOk(Registering(s, f, kind, hostIno))
  {
    RegisteringFile(s, f, kind, hostIno);
    hide Hash64, MapOk, EmptyInode, DataOk;
    FilesKept(f, s, Registering(s, f, kind, hostIno));
  }

  lemma RegisteringFile(s: State, f: nat, kind: Kind, hostIno: nat)
    requires 0 !in s.tables
    ensures FileOk(f, Registering(s, f, kind, hostIno))
  {
    hide Hash64;
    EmptyMap(f, kind, hostIno, s.tables, Registering(s, f, kind, hostIno).role);
    hide MapOk;
  }

  lemma BlockChainsLength(chains: seq<seq<nat>>, tables: Tables)
    requires BlockChainsOk(chains, tables)
    ensures |chains| == HASH_LIST_SIZE
  {
  }

  lemma RegisteringKeeps(ninos: nat, s: State, f: nat, kind: Kind, hostIno: nat)
    requires StateOk(ninos, s) && f in s.role && s.role[f] == Fresh && f !in s.image
    ensures f !in s.inodes && StateOk(ninos, Registering(s, f, kind, hostIno))
  {
    hide RolesOk, FilesOk, InodeChainsOk, BlockChainsOk, FirstIno;
    RegisteringRoles(s, f, kind, hostIno);
    RegisteringFiles(s, f, kind, hostIno);
    InodePushed(s.inodeChains, s.inodes, f, EmptyInode(kind, hostIno));
    ChainsLength(s.inodeChains, s.inodes);
  }

  lemma ChainsLength(chains: seq<seq<nat>>, inodes: map<nat, CacheInode>)
    requires InodeChainsOk(chains, inodes)
    ensures |chains| == HASH_LIST_SIZE
  {
  }

  function Tabling(s: State, t: nat, use: Role): State {
    s.(tables := s.tables[t := Zeros()], role := s.role[t := use],
       blockChains := if |s.blockChains| == HASH_LIST_SIZE
                      then s.blockChains[Hash32(0) := [t] + s.blockChains[Hash32(0)]] else s.blockChains)
  }

  lemma TablingKeeps(ninos: nat, s: State, t: nat, use: Role)
    requires StateOk(ninos, s) && t in s.role && s.role[t] == Fresh && t !in s.image && IsTable(use)
    ensures t != 0 && t !in s.tables && StateOk(ninos, Tabling(s, t, use))
  {
    hide InodeChainsOk, FreeMapBlocks, Hash32, MapOk;
    var s' := Tabling(s, t, use);
    assert RoleOk(t, s);
    BlockPushed(s.blockChains, s.tables, t, Zeros());
    hide BlockChainsOk, FileOk, Zeros;
    forall b ensures RoleOk(b, s') {
      assert RoleOk(b, s);
    }
    assert RoleOk(0, s);
    FilesKept(0, s, s');
  }

  /** Block b becomes the next block of file f, whose inode and tables now say so. */
  function Appending(s: State, f: nat, ci: CacheInode, tables: Tables, b: nat): State
    requires f in s.files
  {
    s.(inodes := s.inodes[f := ci], tables := tables, role := s.role[b := Data(f, |s.files[f]|)],
       files := s.files[f := s.files[f] + [b]])
  }

  /** Only tables of file f were written. */
  ghost predicate OwnTables(f: nat, s: State, tables: Tables) {
    && tables.Keys == s.tables.Keys
    && forall t | t in tables && t in s.role && IsTable(s.role[t]) && s.role[t].file != f :: tables[t] == s.tables[t]
  }

  lemma AppendingFile(s: State, f: nat, ci: CacheInode, tables: Tables, b: nat)
    requires FileOk(f, s) && b in s.role && s.role[b] == Fresh && 0 !in tables
    requires MapOk(f, ci, tables, s.role, s.files[f] + [b])
    requires ci.inode.nlinks == s.inodes[f].inode.nlinks
    ensures FileOk(f, Appending(s, f, ci, tables, b))
  {
    var s' := Appending(s, f, ci, tables, b);
    MapKept(f, ci, tables, s.role, tables, s'.role, s.files[f] + [b]);
    hide MapOk;
  }

  lemma AppendingRoles(s: State, f: nat, ci: CacheInode, tables: Tables, b: nat)
    requires RolesOk(s) && f in s.files && f in s.inodes && b in s.role && s.role[b] == Fresh && b in s.image
    requires tables.Keys == s.tables.Keys && DataOk(f, s.files[f], s.role)
    ensures RolesOk(Appending(s, f, ci, tables, b))
  {
    var s' := Appending(s, f, ci, tables, b);
    assert RoleOk(b, s) && RoleOk(f, s);
    forall x ensures RoleOk(x, s') {
      assert RoleOk(x, s);
    }
  }

  lemma AppendingOthers(s: State, f: nat, ci: CacheInode, tables: Tables, b: nat)
    requires RolesOk(s) && OwnTables(f, s, tables) && f in s.files && b in s.role && s.role[b] == Fresh && 0 !in tables
    ensures var s' := Appending(s, f, ci, tables, b); OthersSame(f, s.tables, s.role, s'.tables, s'.role)
  {
    hide IsBlock;
    forall x | x in s.role ensures x in s.tables ==> IsTable(s.role[x]) {
      assert RoleOk(x, s);
    }
  }

  lemma AppendingKeeps(ninos: nat, s: State, f: nat, ci: CacheInode, tables: Tables, b: nat)
    requires StateOk(ninos, s) && f in s.inodes && b in s.role && s.role[b] == Fresh && b in s.image
    requires OwnTables(f, s, tables) && f in s.files && MapOk(f, ci, tables, s.role, s.files[f] + [b])
    requires ci.inode.nlinks == s.inodes[f].inode.nlinks && ci.hostIno == s.inodes[f].hostIno
    ensures StateOk(ninos, Appending(s, f, ci, tables, b))
  {
    hide MapOk, RoleOk, RolesOk, FileOk, FilesOk, DataOk, InodeChainsOk, BlockChainsOk, FirstIno, OthersSame;
    var s' := Appending(s, f, ci, tables, b);
    FilesParts(s, f);
    assert tables.Keys == s.tables.Keys;
    AppendingFile(s, f, ci, tables, b);
    AppendingRoles(s, f, ci, tables, b);
    AppendingOthers(s, f, ci, tables, b);
    ChainsAppending(s.inodeChains, s.inodes, s.blockChains, s.tables, f, ci, tables);
    FilesKept(f, s, s');
    assert SpaceOk(ninos, s') && Handed(ninos, s'.nextIno, s'.role);
  }

  lemma FilesParts(s: State, f: nat)
    requires FilesOk(s) && f in s.inodes
    ensures s.files.Keys == s.inodes.Keys == s.links.Keys && 0 !in s.tables
    ensures FileOk(f, s) && f in s.files && f in s.links && DataOk(f, s.files[f], s.role)
    ensures MapOk(f, s.inodes[f], s.tables, s.role, s.files[f]) && s.inodes[f].nblks == |s.files[f]|
  {
    hide DataOk;
    assert FileOk(f, s);
  }

  lemma ChainsAppending(inodeChains: seq<seq<nat>>, inodes: map<nat, CacheInode>, blockChains: seq<seq<nat>>,
                        tables: Tables, f: nat, ci: CacheInode, tables': Tables)
    requires InodeChainsOk(inodeChains, inodes) && BlockChainsOk(blockChains, tables)
    requires f in inodes && ci.hostIno == inodes[f].hostIno && tables'.Keys == tables.Keys
    ensures InodeChainsOk(inodeChains, inodes[f := ci]) && BlockChainsOk(blockChains, tables')
  {
  }

  /** One more name for inode f. */
  function Linking(s: State, f: nat): State
    requires f in s.inodes && f in s.links
  {
    var inode := s.inodes[f].inode;
    s.(inodes := s.inodes[f := s.inodes[f].(inode := inode.(nlinks := (inode.nlinks + 1) % NLINKS_RANGE))],
       links := s.links[f := s.links[f] + 1])
  }

  lemma LinkingKeeps(ninos: nat, s: State, f: nat)
    requires StateOk(ninos, s) && f in s.inodes
    ensures f in s.links && StateOk(ninos, Linking(s, f))
  {
    hide MapOk, RoleOk, RolesOk, FileOk, FilesOk, DataOk, InodeChainsOk, BlockChainsOk, FirstIno, Handed;
    FilesParts(s, f);
    var s' := Linking(s, f);
    LinkingFile(s, f);
    ChainsAppending(s.inodeChains, s.inodes, s.blockChains, s.tables, f, s'.inodes[f], s.tables);
    LinkingRoles(s, f);
    FilesKept(f, s, s');
  }

  lemma LinkingFile(s: State, f: nat)
    requires FileOk(f, s)
    ensures FileOk(f, Linking(s, f))
  {
    var node, node' := s.inodes[f], Linking(s, f).inodes[f];
    forall q | 0 <= q < NENTRY ensures InnerOk(f, node', s.tables, s.role, q) {
      assert InnerOk(f, node, s.tables, s.role, q);
    }
    forall j | 0 <= j < |s.files[f]| ensures Lookup(node'.inode, s.tables, j) == s.files[f][j] {
      assert Lookup(node.inode, s.tables, j) == s.files[f][j];
    }
  }

  lemma LinkingRoles(s: State, f: nat)
    requires RolesOk(s) && f in s.inodes && f in s.links
    ensures RolesOk(Linking(s, f))
  {
    forall b ensures RoleOk(b, Linking(s, f)) {
      assert RoleOk(b, s);
    }
  }

  /** What appending does, apart from the tables. */
  ghost predicate Appended(s: State, s': State, f: nat, b: nat, size: nat) {
    && f in s.inodes && f in s.files && f in s'.inodes
    && s'.files == s.files[f := s.files[f] + [b]] && s'.links == s.links && s'.image == s.image
    && s'.inodeChains == s.inodeChains && s'.inodes == s.inodes[f := s'.inodes[f]]
    && SameButMap(s.inodes[f], s'.inodes[f], size)
    && RoleGiven(s.role, s'.role, b, Data(f, |s.files[f]|))
  }

  ghost predicate SameButMap(node: CacheInode, node': CacheInode, size: nat) {
    && node'.hostIno == node.hostIno && node'.inode.kind == node.inode.kind && node'.inode.nlinks == node.inode.nlinks
    && node'.inode.size == node.inode.size + size && node'.inode.blocks == node.inode.blocks + 1
  }

  /** Block b has got role r, new blocks have become tables, and all others are as before. */
  ghost predicate RoleGiven(role: Roles, role': Roles, b: nat, r: Role) {
    && b in role && b in role' && role'[b] == r
    && (forall x | x in role && x != b :: x in role' && role'[x] == role[x])
    && (forall x | x in role' && x !in role :: IsTable(role'[x]))
  }

  /** The tables got new empty ones for file f before the block was appended. */
  lemma AppendedAfter(s0: State, s1: State, s2: State, f: nat, b: nat, size: nat)
    requires Appended(s1, s2, f, b, size)
    requires s1.inodes == s0.inodes && s1.files == s0.files && s1.links == s0.links && s1.image == s0.image
    requires s1.inodeChains == s0.inodeChains && b in s0.role
    requires forall x | x in s0.role :: x in s1.role && s1.role[x] == s0.role[x]
    requires forall x | x in s1.role && x !in s0.role :: IsTable(s1.role[x])
    ensures Appended(s0, s2, f, b, size)
  {
  }

  lemma PutOwn(s: State, f: nat, t: nat, k: nat, v: nat, use: Role)
    requires TableIs(s.tables, s.role, t, use) && IsTable(use) && use.file == f && k < NENTRY
    ensures OwnTables(f, s, Put(s.tables, t, k, v))
  {
  }

  lemma EnteredOwn(s: State, f: nat, t2: nat, q: nat, t1: nat, r: nat, b: nat)
    requires TableIs(s.tables, s.role, t2, Double(f)) && TableIs(s.tables, s.role, t1, Inner(f, q))
    requires q < NENTRY && r < NENTRY
    ensures OwnTables(f, s, Entered(s.tables, t2, q, t1, r, b))
  {
  }

  // ---------- What a caller sees of a step ----------

  /** The name as it reaches the image: the block holds 256 bytes of the record, and the first four are the number. */
  function Stored(name: string): string {
    if |name| <= 252 then name else name[..252]
  }

  /** A directory entry for inode i under the name, of which 252 characters have room. */
  predicate NamedAs(c: Contents, i: nat, name: string) {
    && c.EntryBlock? && c.ino == i
    && if |name| <= 252 then c.name == name else |c.name| == 252 && forall j | 0 <= j < 252 :: c.name[j] == name[j]
  }

  lemma StoredNamed(i: nat, name: string)
    ensures NamedAs(EntryBlock(i, Stored(name)), i, name)
  {
  }

  /** An inode as far as directories are concerned. */
  datatype Obj = Obj(kind: Kind, hostIno: nat, links: nat)

  ghost function View(s: State): map<nat, Obj> {
    map f | f in s.inodes && f in s.links :: Obj(s.inodes[f].inode.kind, s.inodes[f].hostIno, s.links[f])
  }

  /** Nothing that was there is lost or rewritten, except that file f may have grown, and every new block is in use. */
  ghost predicate Grew(s: State, s': State, f: nat) {
    && s.nextIno <= s'.nextIno
    && s.inodes.Keys <= s'.inodes.Keys
    && (forall g | g in s.inodes :: SameThing(s.inodes[g], s'.inodes[g]))
    && (forall g | g in s.files && g != f :: g in s'.files && s'.files[g] == s.files[g])
    && (f in s.files ==> f in s'.files && s.files[f] <= s'.files[f])
    && (forall g | g in s.inodes && g != f :: s'.inodes[g].inode.size == s.inodes[g].inode.size)
    && (forall b | b in s.image :: b in s'.image && s'.image[b] == s.image[b])
    && (forall b | b in s'.role && s'.role[b].Fresh? :: b in s.role && s.role[b].Fresh?)
  }

  predicate SameThing(a: CacheInode, b: CacheInode) {
    a.hostIno == b.hostIno && a.inode.kind == b.inode.kind
  }

  lemma GrewSelf(s: State, f: nat)
    ensures Grew(s, s, f)
  {
  }

  lemma GrewTwice(s0: State, s1: State, s2: State, f: nat)
    requires Grew(s0, s1, f) && Grew(s1, s2, f)
    ensures Grew(s0, s2, f)
  {
  }

  /** Growth of an inode that was not there before is growth of nothing that was. */
  lemma GrewNew(s0: State, s1: State, s2: State, f: nat, g: nat)
    requires Grew(s0, s1, f) && Grew(s1, s2, g) && g !in s0.files && g !in s0.inodes
    ensures Grew(s0, s2, f)
  {
  }

  /** A block is handed out, written and appended to file f. */
  lemma AppendedGrew(s: State, s': State, f: nat, b: nat, c: Contents, size: nat)
    requires s.unused > 0 && b == s.nextIno && b !in s.role && b !in s.image
    requires var s1 := Handing(s); Appended(s1.(image := s1.image[b := c]), s', f, b, size) && s'.nextIno > s.nextIno
    ensures Grew(s, s', f) && View(s') == View(s) && s'.inodes.Keys == s.inodes.Keys
    ensures s'.files == s.files[f := s.files[f] + [b]] && s'.image == s.image[b := c] && f in s'.inodes
    ensures s'.inodeChains == s.inodeChains && s'.links == s.links
    ensures f in s.inodes && s'.inodes[f].inode.size == s.inodes[f].inode.size + size
  {
    assert View(s').Keys == View(s).Keys;
  }

  /** One more link to object f. */
  ghost function Linked(v: map<nat, Obj>, f: nat): map<nat, Obj>
    requires f in v
  {
    v[f := v[f].(links := v[f].links + 1)]
  }

  /** What is written to the next block, which is now the next one of file f. */
  ghost predicate BlockAdded(s: State, s': State, f: nat, c: Contents, size: nat) {
    && f in s.files && f in s.inodes && f in s'.inodes && Grew(s, s', f) && View(s') == View(s)
    && s'.files == s.files[f := s.files[f] + [s.nextIno]] && s'.image == s.image[s.nextIno := c]
    && s'.inodes.Keys == s.inodes.Keys && s'.inodes[f].inode.size == s.inodes[f].inode.size + size
    && s'.nextIno == s.nextIno + 1 + NewTables(|s.files[f]|) && s'.links == s.links && s.nextIno !in s.image
  }

  lemma StoredGrew(s: State, s1: State, s': State, f: nat, b: nat, c: Contents, size: nat)
    requires s.unused > 0 && b == s.nextIno && b !in s.role && b !in s.image && f in s.files
    requires s1 == Handing(s).(image := Handing(s).image[b := c]) && Appended(s1, s', f, b, size)
    requires s'.nextIno == s.nextIno + 1 + NewTables(|s.files[f]|)
    ensures BlockAdded(s, s', f, c, size)
  {
    hide Grew, View, Handing, Appended, NewTables;
    AppendedGrew(s, s', f, b, c, size);
  }

  lemma LinkedGrew(s: State, s': State, f: nat, file: nat)
    requires Grew(s, s', f) && file in s'.inodes && file in s'.links
    ensures Grew(s, Linking(s', file), f)
    ensures file in View(s') && View(Linking(s', file)) == Linked(View(s'), file)
    ensures Linking(s', file).inodes.Keys == s'.inodes.Keys
    ensures f in s'.inodes ==> Linking(s', file).inodes[f].inode.size == s'.inodes[f].inode.size
  {
  }

  lemma RegisteredGrew(s: State, f: nat, g: nat, kind: Kind, hostIno: nat)
    requires s.unused > 0 && g == s.nextIno && g !in s.role && g !in s.inodes && s.files.Keys == s.inodes.Keys
    ensures var s' := Registering(Handing(s), g, kind, hostIno);
            Grew(s, s', f) && View(s') == View(s)[g := Obj(kind, hostIno, 0)]
  {
    RegisteredAlone(s, f, g, kind, hostIno);
    hide Grew, Hash64;
  }

  lemma RegisteredAlone(s: State, f: nat, g: nat, kind: Kind, hostIno: nat)
    requires s.unused > 0 && g == s.nextIno && g !in s.role && g !in s.inodes && s.files.Keys == s.inodes.Keys
    ensures Grew(s, Registering(Handing(s), g, kind, hostIno), f)
  {
    hide Hash64, EmptyInode;
  }

  // ---------- Names and links ----------

  /** The entry blocks that name inode i. */
  ghost function Namings(image: Image, i: nat): set<nat> {
    set b | b in image && image[b].EntryBlock? && image[b].ino == i
  }

  /** Every inode has been given a link for each entry block that names it. */
  ghost predicate Tallied(s: State) {
    && (forall i | i in s.links :: |Namings(s.image, i)| == s.links[i])
    && (forall b | b in s.image && s.image[b].EntryBlock? :: s.image[b].ino in s.links)
  }

  lemma NamingsAdded(image: Image, b: nat, c: Contents, i: nat)
    requires b !in image
    ensures Namings(image[b := c], i) == Namings(image, i) + if c.EntryBlock? && c.ino == i then {b} else {}
    ensures b !in Namings(image, i)
  {
  }

  lemma TalliedData(s: State, s': State, f: nat, c: Contents, size: nat)
    requires Tallied(s) && BlockAdded(s, s', f, c, size) && !c.EntryBlock?
    ensures Tallied(s')
  {
    hide Grew, View, Namings;
    forall i | i in s'.links ensures |Namings(s'.image, i)| == s'.links[i] {
      NamingsAdded(s.image, s.nextIno, c, i);
    }
  }

  /** A new entry block, and the link that goes with it. */
  lemma TalliedNamed(s: State, s1: State, dir: nat, file: nat, name: string, size: nat)
    requires Tallied(s) && BlockAdded(s, s1, dir, EntryBlock(file, name), size) && file in s1.inodes && file in s1.links
    ensures Tallied(Linking(s1, file))
  {
    hide Grew, View, Namings;
    var s2 := Linking(s1, file);
    forall i | i in s2.links ensures |Namings(s2.image, i)| == s2.links[i] {
      NamingsAdded(s.image, s.nextIno, EntryBlock(file, name), i);
    }
  }

  lemma TalliedRegistered(s: State, f: nat, kind: Kind, hostIno: nat)
    requires Tallied(s) && s.unused > 0 && f !in s.links
    ensures Tallied(Registering(Handing(s), f, kind, hostIno))
  {
    hide Hash64;
    assert Namings(s.image, f) == {};
  }

  // ---------- Closing the image ----------

  /** The blocks of the list have been written, each for the first time, and nothing else. */
  ghost predicate Wrote(image: Image, image': Image, list: seq<nat>) {
    && (forall b :: b in image' <==> b in image || b in list)
    && (forall b | b in image :: b in image' && image'[b] == image[b])
  }

  ghost predicate Unwritten(list: seq<nat>, keys: set<nat>, image: Image, ninos: nat) {
    NoDuplicates(list) && forall b | b in list :: b in keys && b !in image && b < ninos
  }

  /** Which cached objects are written once the first n chains have been gone through. */
  ghost predicate TableDone(t: nat, tables: Tables, n: nat) {
    t in tables && Hash32(0) < n
  }

  ghost predicate InodeDone(f: nat, inodes: map<nat, CacheInode>, n: nat) {
    f in inodes && Hash64(inodes[f].hostIno) < n
  }

  /** Block b holds what it held before the flushing began, or the cached object of that number, if its turn has
      come. */
  ghost predicate CachedAt(image0: Image, image: Image, s: State, n: nat, b: nat) {
    && (b in image <==> b in image0 || TableDone(b, s.tables, n) || InodeDone(b, s.inodes, n))
    && (b in image0 ==> image[b] == image0[b])
    && (TableDone(b, s.tables, n) ==> image[b] == TableBlock(s.tables[b]))
    && (InodeDone(b, s.inodes, n) ==> image[b] == InodeBlock(s.inodes[b].inode))
  }

  ghost predicate CachedUpTo(image0: Image, image: Image, s: State, n: nat) {
    forall b :: CachedAt(image0, image, s, n, b)
  }

  ghost predicate MapBlockIs(image: Image, k: nat, words: seq<bv32>) {
    SFS_BLKN_FREEMAP + k in image && image[SFS_BLKN_FREEMAP + k] == FreeMap(words)
  }

  lemma MapBlocksLeft(ninos: nat, i: nat, k: nat)
    requires i == SFS_BLKBITS * k
    ensures i < ninos ==> k < FreeMapBlocks(ninos)
    ensures ninos <= i < ninos + SFS_BLKBITS ==> k == FreeMapBlocks(ninos)
  {
  }

  /** The cached objects have blocks of their own that nothing was written to. */
  ghost predicate CachedApart(ninos: nat, s: State, image: Image) {
    && (forall t | t in s.tables :: t !in image && t !in s.inodes && t < ninos)
    && (forall f | f in s.inodes :: f !in image && f < ninos)
  }

  lemma ChainMembers(s: State, n: nat)
    requires InodeChainsOk(s.inodeChains, s.inodes) && BlockChainsOk(s.blockChains, s.tables) && n < HASH_LIST_SIZE
    ensures NoDuplicates(s.inodeChains[n]) && NoDuplicates(s.blockChains[n])
    ensures forall t :: t in s.blockChains[n] <==> t in s.tables && Hash32(0) == n
    ensures forall f :: f in s.inodeChains[n] <==> f in s.inodes && Hash64(s.inodes[f].hostIno) == n
  {
    hide Hash32, Hash64;
  }

  lemma ChainUnwritten(ninos: nat, s: State, image0: Image, image: Image, n: nat)
    requires InodeChainsOk(s.inodeChains, s.inodes) && BlockChainsOk(s.blockChains, s.tables) && n < HASH_LIST_SIZE
    requires CachedApart(ninos, s, image0) && CachedUpTo(image0, image, s, n)
    ensures Unwritten(s.blockChains[n], s.tables.Keys, image, ninos)
    ensures Unwritten(s.inodeChains[n], s.inodes.Keys, image, ninos)
    ensures forall b | b in s.inodeChains[n] :: b !in s.blockChains[n]
  {
    ChainMembers(s, n);
    hide InodeChainsOk, BlockChainsOk, Hash32, Hash64;
    forall b: nat
      ensures b in s.blockChains[n] ==> b in s.tables && b !in image && b < ninos && b !in s.inodes
      ensures b in s.inodeChains[n] ==> b in s.inodes && b !in image && b < ninos
    {
      assert CachedAt(image0, image, s, n, b);
    }
  }

  lemma DoneStep(s: State, n: nat, b: nat)
    requires InodeChainsOk(s.inodeChains, s.inodes) && BlockChainsOk(s.blockChains, s.tables) && n < HASH_LIST_SIZE
    ensures TableDone(b, s.tables, n + 1) <==> TableDone(b, s.tables, n) || b in s.blockChains[n]
    ensures InodeDone(b, s.inodes, n + 1) <==> InodeDone(b, s.inodes, n) || b in s.inodeChains[n]
  {
    ChainMembers(s, n);
    hide InodeChainsOk, BlockChainsOk, Hash32, Hash64;
  }

  lemma ChainWritten(s: State, image0: Image, image: Image, image1: Image, image2: Image, n: nat)
    requires InodeChainsOk(s.inodeChains, s.inodes) && BlockChainsOk(s.blockChains, s.tables) && n < HASH_LIST_SIZE
    requires CachedUpTo(image0, image, s, n)
    requires Wrote(image, image1, s.blockChains[n]) && Wrote(image1, image2, s.inodeChains[n])
    requires forall t | t in s.blockChains[n] :: t in s.tables && t in image1 && image1[t] == TableBlock(s.tables[t])
    requires forall f | f in s.inodeChains[n] ::
               f in s.inodes && f in image2 && image2[f] == InodeBlock(s.inodes[f].inode)
    ensures CachedUpTo(image0, image2, s, n + 1)
  {
    hide InodeChainsOk, BlockChainsOk, TableDone, InodeDone;
    var m: nat := n + 1;
    forall b ensures CachedAt(image0, image2, s, m, b) {
      DoneStep(s, n, b);
      assert CachedAt(image0, image, s, n, b);
    }
  }

  /** Blocks without a role are outside; those with one are the root and the ones behind the free map. */
  lemma OutsideRoles(ninos: nat, s: State)
    requires StateOk(ninos, s)
    ensures forall b | b !in s.role :: b !in s.image && b !in s.tables && b !in s.inodes
    ensures forall b :: b in s.role <==> b == SFS_BLKN_ROOT || FirstIno(ninos) <= b < s.nextIno
    ensures CachedApart(ninos, s, s.image) && FirstIno(ninos) >= SFS_BLKN_FREEMAP
    ensures forall b | b in s.role && !s.role[b].Fresh? :: b in s.image || b in s.tables || b in s.inodes
    ensures forall b | b in s.image :: IsPlain(s.image[b])
  {
    hide InodeChainsOk, BlockChainsOk, FilesOk, FreeMapBlocks;
    forall b
      ensures b !in s.role ==> b !in s.image && b !in s.tables && b !in s.inodes
      ensures b in s.tables ==> b in s.role && b !in s.image && b !in s.inodes
      ensures b in s.inodes ==> b in s.role && b !in s.image
      ensures b in s.role && !s.role[b].Fresh? ==> b in s.image || b in s.tables || b in s.inodes
      ensures b in s.image ==> IsPlain(s.image[b])
    {
      assert RoleOk(b, s);
    }
  }

  lemma NoneCached(ninos: nat, s: State, image0: Image, image: Image)
    requires CachedApart(ninos, s, image0)
    requires forall b | b in image && b !in image0 :: b !in s.tables && b !in s.inodes
    ensures CachedApart(ninos, s, image) && CachedUpTo(image, image, s, 0)
  {
  }

  lemma StillUnwritten(s: State, image: Image, image': Image, n: nat, ninos: nat)
    requires n < |s.blockChains| && n < |s.inodeChains| && Wrote(image, image', s.blockChains[n])
    requires Unwritten(s.inodeChains[n], s.inodes.Keys, image, ninos)
    requires forall b | b in s.inodeChains[n] :: b !in s.blockChains[n]
    ensures Unwritten(s.inodeChains[n], s.inodes.Keys, image', ninos)
  {
  }

  lemma AllCached(image0: Image, image: Image, s: State)
    requires CachedUpTo(image0, image, s, HASH_LIST_SIZE)
    ensures forall b :: b in image <==> b in image0 || b in s.tables || b in s.inodes
    ensures forall b | b in image0 :: b in image && image[b] == image0[b]
    ensures forall t | t in s.tables :: t in image && image[t] == TableBlock(s.tables[t])
    ensures forall f | f in s.inodes :: f in image && image[f] == InodeBlock(s.inodes[f].inode)
  {
    hide Hash32, Hash64;
    forall b
      ensures b in image <==> b in image0 || b in s.tables || b in s.inodes
      ensures b in image0 ==> image[b] == image0[b]
      ensures b in s.tables ==> image[b] == TableBlock(s.tables[b])
      ensures b in s.inodes ==> image[b] == InodeBlock(s.inodes[b].inode)
    {
      assert CachedAt(image0, image, s, HASH_LIST_SIZE, b);
    }
  }

  /** With the free map, the super block and the cached objects written, every block below the next one is. */
  lemma AllWritten(ninos: nat, s: State, image1: Image, image: Image)
    requires StateOk(ninos, s) && forall b | b in s.role :: !s.role[b].Fresh?
    requires forall b :: b in image1 <==> b in s.image || b == SFS_BLKN_SUPER || SFS_BLKN_FREEMAP <= b < FirstIno(ninos)
    requires forall b :: b in image <==> b in image1 || b in s.tables || b in s.inodes
    ensures forall b: nat :: b in image <==> b < s.nextIno
  {
    OutsideRoles(ninos, s);
    assert s.nextIno >= FirstIno(ninos);
    forall b: nat ensures b in image <==> b < s.nextIno {
      NumberKinds(ninos, s, b);
    }
  }

  lemma NumberKinds(ninos: nat, s: State, b: nat)
    requires StateOk(ninos, s) && forall b | b in s.role :: !s.role[b].Fresh?
    ensures b < s.nextIno <==> b in s.image || b in s.tables || b in s.inodes
                               || b == SFS_BLKN_SUPER || SFS_BLKN_FREEMAP <= b < FirstIno(ninos)
  {
    assert s.nextIno >= FirstIno(ninos) >= SFS_BLKN_FREEMAP;
    hide InodeChainsOk, BlockChainsOk, FilesOk, FreeMapBlocks;
    assert RoleOk(b, s);
  }

  /** What the image holds once everything has been written. */
  lemma ClosedImage(ninos: nat, s: State, image1: Image, image: Image)
    requires StateOk(ninos, s) && forall b | b in s.role :: !s.role[b].Fresh?
    requires forall b :: b in image1 <==> b in s.image || b == SFS_BLKN_SUPER || SFS_BLKN_FREEMAP <= b < FirstIno(ninos)
    requires forall b | b in s.image :: b in image1 && image1[b] == s.image[b]
    requires forall b | b in image1 && b !in s.image :: image1[b].SuperBlock? || image1[b].FreeMap?
    requires CachedUpTo(image1, image, s, HASH_LIST_SIZE)
    ensures forall b: nat :: b in image <==> b < s.nextIno
    ensures forall b | b in image1 :: b in image && image[b] == image1[b]
    ensures forall t | t in s.tables :: t in image && image[t] == TableBlock(s.tables[t])
    ensures forall f | f in s.inodes :: f in image && image[f] == InodeBlock(s.inodes[f].inode)
    ensures forall b | b in image && image[b].InodeBlock? :: b in s.inodes
    ensures forall b | b in image && image[b].EntryBlock? :: b in s.image
  {
    hide StateOk, CachedUpTo, FirstIno;
    AllCached(image1, image, s);
    AllWritten(ninos, s, image1, image);
    OutsideRoles(ninos, s);
  }

  // ---------- Reading a closed image ----------

  function TablesOf(image: Image): Tables {
    map t | t in image && image[t].TableBlock? :: image[t].entries
  }

  /** From the image alone, the inode f leads to exactly these blocks. */
  ghost predicate Reads(image: Image, f: nat, blocks: seq<nat>) {
    && f in image && image[f].InodeBlock? && image[f].inode.blocks == |blocks|
    && Found(image[f].inode, TablesOf(image), blocks)
  }

  lemma ClosedReads(ninos: nat, s: State, image: Image, f: nat)
    requires StateOk(ninos, s) && f in s.inodes && f in s.files
    requires forall t | t in s.tables :: t in image && image[t] == TableBlock(s.tables[t])
    requires f in image && image[f] == InodeBlock(s.inodes[f].inode)
    requires SFS_BLKN_SUPER in image ==> !image[SFS_BLKN_SUPER].TableBlock?
    ensures Reads(image, f, s.files[f])
  {
    hide SpaceOk, Handed, RolesOk, InodeChainsOk, BlockChainsOk;
    assert FileOk(f, s);
    MapKept(f, s.inodes[f], s.tables, s.role, TablesOf(image), s.role, s.files[f]);
    hide Shape, Found;
  }

  /** No block belongs to two files, or twice to one. */
  lemma OneOwner(ninos: nat, s: State, f: nat, j: nat, g: nat, k: nat)
    requires StateOk(ninos, s) && f in s.files && g in s.files && j < |s.files[f]| && k < |s.files[g]|
    requires s.files[f][j] == s.files[g][k]
    ensures f == g && j == k
  {
    hide SpaceOk, Handed, RolesOk, InodeChainsOk, BlockChainsOk, MapOk;
    assert FileOk(f, s) && FileOk(g, s);
  }

  /** Data blocks, tables and inodes are different blocks, all of them behind the free map except the root's inode. */
  lemma ClearOfReserved(ninos: nat, s: State, f: nat, j: nat)
    requires StateOk(ninos, s) && SFS_BLKN_ROOT in s.inodes && f in s.files && j < |s.files[f]|
    ensures var b := s.files[f][j];
            FirstIno(ninos) <= b < s.nextIno && b !in s.inodes && b !in s.tables && b in s.image
    ensures f == SFS_BLKN_ROOT || FirstIno(ninos) <= f < s.nextIno
  {
    hide SpaceOk, InodeChainsOk, BlockChainsOk, MapOk, FirstIno;
    assert FileOk(f, s) && RoleOk(s.files[f][j], s) && RoleOk(f, s);
    assert RoleOk(SFS_BLKN_ROOT, s);
  }

  /** The state create_sfs begins with. */
  lemma StartOk(ninos: nat, s: State)
    requires FirstIno(ninos) < ninos <= SFS_MAX_NBLKS
    requires s.nextIno == FirstIno(ninos) && s.unused == ninos - FirstIno(ninos)
    requires s.inodes == map[] && s.tables == map[] && s.image == map[] && s.files == map[] && s.links == map[]
    requires |s.inodeChains| == |s.blockChains| == HASH_LIST_SIZE
    requires forall h | 0 <= h < HASH_LIST_SIZE :: s.inodeChains[h] == [] && s.blockChains[h] == []
    requires s.role == map[SFS_BLKN_ROOT := Fresh]
    ensures StateOk(ninos, s)
  {
    hide Hash32, Hash64, FreeMapBlocks;
    assert RolesOk(s);
    assert FilesOk(s);
  }

  lemma NewIsNew(ninos: nat, s: State)
    requires StateOk(ninos, s)
    ensures s.nextIno !in s.role && s.nextIno !in s.image && s.nextIno > SFS_BLKN_ROOT
  {
    assert RoleOk(s.nextIno, s);
  }
}
