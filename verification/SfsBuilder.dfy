/** The builder of SFS images (lab8/tools/mksfs.c), without the host file system it copies from. */
module SfsBuilder {
  import opened SfsBlockMap
  import opened SfsImage
  import opened SfsNeed
  import opened SfsReader
  import opened SfsTree
  import FreeMap = SfsFreeMap
  import opened Wrappers

  /** How update_cache came by its table. */
  datatype Access = Hit | Allocated | Searched | Missing | NoSpace

  class Sfs {
    const ninos: nat                       // blocks in the image
    var nextIno: nat                       // the next block to hand out
    var unused: nat                        // super.unused_blocks
    var inodes: map<nat, CacheInode>       // cached inodes by number
    var tables: Tables                     // cached blocks by number
    var inodeChains: seq<seq<nat>>
    var blockChains: seq<seq<nat>>
    var image: Image                       // what has been written
    ghost var role: Roles                  // what every block handed out is for
    ghost var files: map<nat, seq<nat>>    // the blocks appended to every inode
    ghost var links: map<nat, nat>         // how often every inode was entered in a directory

    /** create_sfs, once the image is known to be large enough: an empty root directory. */
    constructor (ninos: nat)
      requires FirstIno(ninos) < ninos <= SFS_MAX_NBLKS
      ensures this.ninos == ninos && nextIno == FirstIno(ninos) && image == map[] && Valid() && JustRoot(Now())
    {
      this.ninos, nextIno, unused := ninos, FirstIno(ninos), ninos - FirstIno(ninos);
      inodes, tables, image := map[], map[], map[];
      inodeChains, blockChains := seq(HASH_LIST_SIZE, _ => []), seq(HASH_LIST_SIZE, _ => []);
      role, files, links := map[SFS_BLKN_ROOT := Fresh], map[], map[];
      new;
      StartOk(ninos, Now());
      Register(SFS_BLKN_ROOT, DirKind, 0);
    }

    ghost function Now(): State
      reads this
    {
      State(nextIno, unused, inodes, tables, inodeChains, blockChains, image, role, files, links)
    }

    ghost predicate Valid()
      reads this
    {
      StateOk(ninos, Now())
    }

    /** A block that was handed out and is not in use for anything. */
    ghost predicate IsFresh(b: nat)
      reads this
    {
      b in role && role[b] == Fresh
    }

    /** sfs_alloc_ino: the next block in order, until there is none. */
    method AllocIno() returns (r: Option<nat>)
      requires Valid()
      modifies this`nextIno, this`unused, this`role
      ensures r.None? <==> old(nextIno) == ninos
      ensures r.None? ==> Now() == old(Now())
      ensures r.Some? ==> Valid() && r.value == old(nextIno) && r.value !in old(role)
      ensures r.Some? ==> old(unused) > 0 && Now() == Handing(old(Now())) && nextIno == old(nextIno) + 1
    {
      hide Handed, RolesOk, FilesOk, InodeChainsOk, BlockChainsOk;
      if nextIno < ninos {
        HandingKeeps(ninos, Now());
        unused := unused - 1;
        role := role[nextIno := Fresh];
        nextIno := nextIno + 1;
        return Some(nextIno - 1);
      }
      return None;
    }

    /** write_block, into the image and never twice into the same block */
    method WriteBlock(b: nat, c: Contents)
      requires b < ninos && b !in image
      modifies this`image
      ensures image == old(image)[b := c]
    {
      image := image[b := c];
    }

    /** The part of alloc_cache_inode after the number is known. */
    method Register(f: nat, kind: Kind, hostIno: nat)
      requires Valid() && IsFresh(f) && f !in image
      modifies this`inodes, this`inodeChains, this`role, this`files, this`links
      ensures Valid() && f !in old(inodes) && Now() == Registering(old(Now()), f, kind, hostIno)
    {
      hide StateOk;
      RegisteringKeeps(ninos, Now(), f, kind, hostIno);
      ChainsShape();
      var ci := EmptyInode(kind, hostIno);
      var h := Hash64(hostIno);
      inodeChains := inodeChains[h := [f] + inodeChains[h]];
      inodes := inodes[f := ci];
      role, files, links := role[f := Itself], files[f := []], links[f := 0];
    }

    lemma ChainsShape()
      requires Valid()
      ensures |inodeChains| == HASH_LIST_SIZE && |blockChains| == HASH_LIST_SIZE
    {
    }

    lemma NextIsNew()
      requires Valid()
      ensures nextIno !in role && nextIno !in image && nextIno !in inodes && nextIno !in tables && nextIno > 1
    {
      assert RoleOk(nextIno, Now());
    }

    /** alloc_cache_inode without a given number */
    method AllocCacheInode(kind: Kind, hostIno: nat) returns (r: Option<nat>)
      requires Valid()
      modifies this`nextIno, this`unused, this`role, this`inodes, this`inodeChains, this`files, this`links
      ensures r.None? ==> nextIno == old(nextIno) == ninos
      ensures r.Some? ==> Valid() && Made(old(Now()), Now(), r.value, kind, hostIno)
    {
      hide StateOk, Tallied, Registering;
      NextIsNew();
      SameKeys();
      r := AllocIno();
      if r.Some? {
        Register(r.value, kind, hostIno);
      }
    }

    /** alloc_cache_block: a table of zeros under a new number, on the chain of number 0. */
    method AllocCacheBlock(ghost use: Role) returns (r: Option<nat>)
      requires Valid() && IsTable(use)
      modifies this`nextIno, this`unused, this`role, this`tables, this`blockChains
      ensures r.None? ==> nextIno == old(nextIno) == ninos
      ensures r.Some? ==> Valid() && r.value !in old(role) && old(unused) > 0
                          && Now() == Tabling(Handing(old(Now())), r.value, use) && nextIno == old(nextIno) + 1
                          && Ready(old(tables), old(role), tables, role, 0, r.value, use)
    {
      hide StateOk;
      NextIsNew();
      r := AllocIno();
      if r.Some? {
        var t := r.value;
        TablingKeeps(ninos, Now(), t, use);
        ChainsShape();
        blockChains := blockChains[Hash32(0) := [t] + blockChains[Hash32(0)]];
        tables, role := tables[t := Zeros()], role[t := use];
        assert role == old(role)[t := use];
      }
    }

    /** search_cache_block: 0 stands for NULL. */
    method SearchCacheBlock(ino: nat) returns (cb: nat)
      requires Valid()
      ensures cb == if ino in blockChains[Hash32(ino)] then ino else 0
    {
      var chain := blockChains[Hash32(ino)];
      var i := 0;
      while i < |chain| && chain[i] != ino
        invariant i <= |chain| && ino !in chain[..i]
      {
        i := i + 1;
      }
      return if i < |chain| then chain[i] else 0;
    }

    /** update_cache: a search would find the table only if its number happened to hash to the chain of 0. */
    method UpdateCache(cb: nat, ino: nat, ghost use: Role) returns (cb': nat, ino': nat, access: Access)
      requires Valid() && IsTable(use)
      modifies this`nextIno, this`unused, this`role, this`tables, this`blockChains
      ensures access.NoSpace? ==> nextIno == ninos
      ensures nextIno == old(nextIno) + if access.Allocated? then 1 else 0
      ensures ino == 0 ==> access.Allocated? || access.NoSpace?
      ensures ino != 0 ==> Now() == old(Now()) && (cb == ino ==> access.Hit?)
                           && (cb != ino ==>
                                 access == if ino in tables && Hash32(ino) == Hash32(0) then Searched else Missing)
      ensures access.Allocated? || access.Hit? || access.Searched? ==>
                && Valid() && cb' == ino' && Ready(old(tables), old(role), tables, role, ino, ino', use)
      ensures access.Allocated? ==> old(unused) > 0 && Now() == Tabling(Handing(old(Now())), ino', use)
    {
      hide StateOk, Tallied, Tabling, Handing;
      if ino == 0 {
        var r := AllocCacheBlock(use);
        return if r.Some? then r.value else 0, if r.Some? then r.value else 0, if r.Some? then Allocated else NoSpace;
      } else if cb == 0 || cb != ino {
        var found := SearchCacheBlock(ino);
        OnlyChainZero(ino);
        return found, ino, if found == ino then Searched else Missing;
      }
      return cb, ino, Hit;
    }

    lemma OnlyChainZero(ino: nat)
      requires Valid()
      ensures |blockChains| == HASH_LIST_SIZE
      ensures ino in blockChains[Hash32(ino)] <==> ino in tables && Hash32(ino) == Hash32(0)
    {
    }

    lemma FileParts(f: nat)
      requires Valid() && f in inodes
      ensures f in files && MapOk(f, inodes[f], tables, role, files[f]) && 0 !in tables
    {
      assert FileOk(f, Now());
    }

    /** The end of append_block: the inode and the tables of file f now lead to block b as well. */
    method Commit(f: nat, ci: CacheInode, tables': Tables, b: nat, size: nat)
      requires Valid() && f in inodes && f in files && IsFresh(b) && b in image
      requires OwnTables(f, Now(), tables') && MapOk(f, ci, tables', role, files[f] + [b])
      requires SameButMap(inodes[f], ci, size)
      modifies this`inodes, this`tables, this`role, this`files
      ensures Valid() && Appended(old(Now()), Now(), f, b, size)
    {
      hide StateOk, Tallied, MapOk, OwnTables;
      AppendingKeeps(ninos, Now(), f, ci, tables', b);
      inodes, tables := inodes[f := ci], tables';
      role := role[b := Data(f, |files[f]|)];
      files := files[f := files[f] + [b]];
    }

    /** append_block for the twelve direct entries */
    method AppendDirect(f: nat, size: nat, b: nat)
      requires Valid() && f in inodes && IsFresh(b) && b in image && inodes[f].nblks < NDIRECT
      modifies this`inodes, this`tables, this`role, this`files
      ensures Valid() && Appended(old(Now()), Now(), f, b, size)
    {
      hide StateOk, Tallied, MapOk, Appended;
      FileParts(f);
      var ci := inodes[f];
      MapShape(f, ci, tables, role, files[f]);
      DirectKeeps(f, ci, tables, role, files[f], b, size);
      Commit(f, Counted(WithDirect(ci, ci.nblks, b), size), tables, b, size);
    }

    /** append_block for the blocks the single table holds */
    method AppendIndirect(f: nat, size: nat, b: nat) returns (r: Outcome)
      requires Valid() && f in inodes && IsFresh(b) && b in image && NDIRECT <= inodes[f].nblks < L1_NBLKS
      modifies this`nextIno, this`unused, this`inodes, this`tables, this`blockChains, this`role, this`files
      ensures r.Done? || r.OutOfSpace?
      ensures r.Done? ==> nextIno == old(nextIno) + NewTables(old(inodes)[f].nblks)
      ensures r.OutOfSpace? ==> old(nextIno) + NewTables(old(inodes)[f].nblks) > ninos
      ensures r.Done? ==> Valid() && Appended(old(Now()), Now(), f, b, size)
    {
      hide StateOk, Tallied, MapOk, Ready, Handing, Tabling, Shape, OwnTables, Appended;
      FileParts(f);
      ghost var s0 := Now();
      var ci := inodes[f];
      MapShape(f, ci, tables, role, files[f]);
      CachedOrMissing(f, ci, tables, role);
      MissingTables(f, ci, tables, role);
      var cb, ino, access := UpdateCache(ci.l1, ci.inode.indirect, Indirect(f));
      if access.NoSpace? {
        return OutOfSpace;
      }
      assert !access.Searched? && !access.Missing?;
      ReadyRoles(s0.tables, s0.role, tables, role, ci.inode.indirect, cb, Indirect(f));
      IndirectKeeps(f, ci, s0.tables, s0.role, tables, role, files[f], cb, b, size);
      PutOwn(Now(), f, cb, ci.nblks - NDIRECT, b, Indirect(f));
      ghost var s1 := Now();
      Commit(f, Counted(WithIndirect(ci, ino), size), Put(tables, cb, ci.nblks - NDIRECT, b), b, size);
      AppendedAfter(s0, s1, Now(), f, b, size);
      return Done;
    }

    /** append_block for the blocks below the table of tables */
    method AppendDouble(f: nat, size: nat, b: nat) returns (r: Outcome)
      requires Valid() && f in inodes && IsFresh(b) && b in image && L1_NBLKS <= inodes[f].nblks < LN_NBLKS
      modifies this`nextIno, this`unused, this`inodes, this`tables, this`blockChains, this`role, this`files
      ensures r.Done? || r.OutOfSpace?
      ensures r.Done? ==> nextIno == old(nextIno) + NewTables(old(inodes)[f].nblks)
      ensures r.OutOfSpace? ==> old(nextIno) + NewTables(old(inodes)[f].nblks) > ninos
      ensures r.Done? ==> Valid() && Appended(old(Now()), Now(), f, b, size)
    {
      hide StateOk, Tallied, MapOk, Ready, Handing, Tabling, Shape, OwnTables, Appended, TableIs;
      FileParts(f);
      ghost var s0 := Now();
      var ci := inodes[f];
      MapShape(f, ci, tables, role, files[f]);
      CachedOrMissing(f, ci, tables, role);
      MissingTables(f, ci, tables, role);
      var q, k := (ci.nblks - L1_NBLKS) / NENTRY, (ci.nblks - L1_NBLKS) % NENTRY;
      var cb2, ino2, access2 := UpdateCache(ci.l2, ci.inode.double, Double(f));
      if access2.NoSpace? {
        return OutOfSpace;
      }
      assert !access2.Searched? && !access2.Missing?;
      ghost var s1 := Now();
      ReadyRoles(s0.tables, s0.role, tables, role, ci.inode.double, cb2, Double(f));
      DoubleTable(f, ci, s0.tables, s0.role, tables, role, cb2, q);
      var cb1, ino1, access1 := UpdateCache(ci.l1, tables[cb2][q], Inner(f, q));
      if access1.NoSpace? {
        return OutOfSpace;
      }
      assert !access1.Searched? && !access1.Missing?;
      ReadyRoles(s1.tables, s1.role, tables, role, At(s1.tables, cb2, q), cb1, Inner(f, q));
      assert Opened(f, ci, s0.tables, s0.role, s1.tables, s1.role, tables, role, cb2, cb1);
      DoubleKeeps(f, ci, s0.tables, s0.role, s1.tables, s1.role, tables, role, files[f], cb2, cb1, b, size);
      EnteredOwn(Now(), f, cb2, q, cb1, k, b);
      IsEntered(tables, role, f, cb2, q, cb1);
      ghost var s2 := Now();
      Commit(f, Counted(WithDouble(ci, ino2, ino1), size), Entered(tables, cb2, q, cb1, k, b), b, size);
      AppendedAfter(s0, s2, Now(), f, b, size);
      return Done;
    }

    /** append_block: the block becomes the next one of the file. It fails when the file has 32768 blocks already,
        or when a table is needed and there is no block for it. */
    method AppendBlock(f: nat, size: nat, b: nat) returns (r: Outcome)
      requires Valid() && f in inodes && IsFresh(b) && b in image && size <= SFS_BLKSIZE
      modifies this`nextIno, this`unused, this`inodes, this`tables, this`blockChains, this`role, this`files
      ensures r.FileTooBig? <==> old(inodes)[f].nblks >= LN_NBLKS
      ensures r.Done? || r.FileTooBig? || r.OutOfSpace?
      ensures r.Done? ==> nextIno == old(nextIno) + NewTables(old(inodes)[f].nblks)
      ensures r.OutOfSpace? ==> old(nextIno) + NewTables(old(inodes)[f].nblks) > ninos
      ensures r.Done? ==> Valid() && Appended(old(Now()), Now(), f, b, size)
    {
      hide StateOk, Tallied, Appended;
      var n := inodes[f].nblks;
      if n >= LN_NBLKS {
        return FileTooBig;
      }
      if n < NDIRECT {
        AppendDirect(f, size, b);
        return Done;
      } else if n < L1_NBLKS {
        r := AppendIndirect(f, size, b);
      } else {
        r := AppendDouble(f, size, b);
      }
    }

    lemma NextIsWithin()
      requires Valid()
      ensures FirstIno(ninos) <= nextIno <= ninos && nextIno + unused == ninos
    {
    }

    lemma KeptByHanding(s: State)
      requires s.unused > 0
      ensures Handing(s).inodes == s.inodes && Handing(s).files == s.files
    {
    }

    lemma HandedOut(s0: State, b: nat, f: nat)
      requires Valid() && StateOk(ninos, s0) && s0.unused > 0 && b == s0.nextIno && Now() == Handing(s0)
      requires f in inodes
      ensures b !in s0.role && b !in image && b < ninos && IsFresh(b) && nextIno == s0.nextIno + 1
      ensures inodes == s0.inodes && files == s0.files && image == s0.image
      ensures f in files && inodes[f].nblks == |files[f]|
    {
      NewIsNew(ninos, s0);
      NextIsWithin();
      FileParts(f);
      MapShape(f, inodes[f], tables, role, files[f]);
    }

    /** A block that has just been handed out is written and appended to a file. */
    method StoreBlock(f: nat, b: nat, c: Contents, size: nat, ghost s0: State) returns (r: Outcome)
      requires Valid() && StateOk(ninos, s0) && s0.unused > 0 && b == s0.nextIno && Now() == Handing(s0)
      requires f in inodes && size <= SFS_BLKSIZE && IsPlain(c)
      modifies this`nextIno, this`unused, this`inodes, this`tables, this`blockChains, this`role, this`files, this`image
      ensures r.Done? || r.OutOfSpace? || r.FileTooBig?
      ensures f in s0.files && (r.FileTooBig? ==> |s0.files[f]| >= LN_NBLKS)
      ensures r.OutOfSpace? ==> s0.nextIno + 1 + NewTables(|s0.files[f]|) > ninos
      ensures r.Done? ==> Valid() && BlockAdded(s0, Now(), f, c, size)
    {
      HandedOut(s0, b, f);
      hide StateOk, Tallied, Appended, Grew, View, MapOk, Handing, NewTables, IsPlain, BlockAdded;
      WritingKeeps(ninos, Now(), b, c);
      WriteBlock(b, c);
      ghost var s1 := Now();
      r := AppendBlock(f, size, b);
      if r.Done? {
        StoredGrew(s0, s1, Now(), f, b, c, size);
      }
    }

    /** The three steps every block of a file goes through: it is handed out, written and appended. */
    method AddBlock(f: nat, c: Contents, size: nat) returns (r: Outcome)
      requires Valid() && f in inodes && size <= SFS_BLKSIZE && IsPlain(c)
      modifies this`nextIno, this`unused, this`inodes, this`tables, this`blockChains, this`role, this`files, this`image
      ensures r.Done? || r.OutOfSpace? || r.FileTooBig?
      ensures f in old(files) && (r.FileTooBig? ==> |old(files)[f]| >= LN_NBLKS)
      ensures r.OutOfSpace? ==> old(nextIno) + 1 + NewTables(|old(files)[f]|) > ninos
      ensures r.Done? ==> Valid() && BlockAdded(old(Now()), Now(), f, c, size)
    {
      hide StateOk, Tallied, BlockAdded, MapOk, Handing, NewTables, IsPlain;
      ghost var s0 := Now();
      FileParts(f);
      var b := AllocIno();
      if b.None? {
        return OutOfSpace;
      }
      r := StoreBlock(f, b.value, c, size, s0);
    }

    /** add_entry: directory dir lists the inode under the name, and the inode counts one more link. */
    method AddEntry(dir: nat, file: nat, name: string) returns (r: Outcome)
      requires Valid() && dir in inodes && inodes[dir].inode.kind.DirKind? && file in inodes
      requires |name| <= SFS_MAX_FNAME_LEN && Tallied(Now())
      modifies this`nextIno, this`unused, this`inodes, this`tables, this`blockChains, this`role, this`files, this`image,
               this`links
      ensures r.Done? || r.OutOfSpace? || r.FileTooBig?
      ensures dir in old(files) && (r.FileTooBig? ==> |old(files)[dir]| >= LN_NBLKS)
      ensures r.OutOfSpace? ==> old(nextIno) + 1 + NewTables(|old(files)[dir]|) > ninos
      ensures r.Done? ==> nextIno == old(nextIno) + 1 + NewTables(|old(files)[dir]|)
      ensures r.Done? ==> Valid() && Tallied(Now()) && Grew(old(Now()), Now(), dir)
      ensures r.Done? ==> files == old(files)[dir := old(files)[dir] + [old(nextIno)]]
      ensures r.Done? ==> image == old(image)[old(nextIno) := EntryBlock(file, Stored(name))]
      ensures r.Done? ==> NamedAs(image[old(nextIno)], file, name)
      ensures r.Done? ==> Sized(Now(), dir, old(inodes)[dir].inode.size + ENTRY_SIZE)
      ensures r.Done? ==> file in View(old(Now())) && inodes.Keys == old(inodes).Keys
                          && View(Now()) == Linked(View(old(Now())), file)
    {
      hide StateOk, Tallied, Grew, View;
      ghost var s0 := Now();
      StoredNamed(file, name);
      r := AddBlock(dir, EntryBlock(file, Stored(name)), ENTRY_SIZE);
      if r.Done? {
        LinkingKeeps(ninos, Now(), file);
        LinkedGrew(s0, Now(), dir, file);
        TalliedNamed(s0, Now(), dir, file, Stored(name), ENTRY_SIZE);
        var inode := inodes[file].inode;
        inodes := inodes[file := inodes[file].(inode := inode.(nlinks := (inode.nlinks + 1) % NLINKS_RANGE))];
        links := links[file := links[file] + 1];
      }
    }

    // ---------- Copying the host's tree ----------

    /** search_cache_inode: 0 stands for NULL. */
    method SearchCacheInode(hostIno: nat) returns (f: nat)
      requires Valid()
      ensures f != 0 ==> f in inodes && inodes[f].hostIno == hostIno
      ensures f == 0 ==> forall i | i in inodes :: inodes[i].hostIno != hostIno
    {
      hide StateOk, Tallied, Hash64;
      ChainsShape();
      var chain := inodeChains[Hash64(hostIno)];
      var i := 0;
      while i < |chain|
        invariant i <= |chain| && forall j | 0 <= j < i :: chain[j] in inodes && inodes[chain[j]].hostIno != hostIno
      {
        OnChain(hostIno, i);
        if inodes[chain[i]].hostIno == hostIno {
          return chain[i];
        }
        i := i + 1;
      }
      NotOnChain(hostIno);
      return 0;
    }

    lemma OnChain(hostIno: nat, k: nat)
      requires Valid() && Hash64(hostIno) < |inodeChains| && k < |inodeChains[Hash64(hostIno)]|
      ensures inodeChains[Hash64(hostIno)][k] in inodes && inodeChains[Hash64(hostIno)][k] != 0
    {
      var f := inodeChains[Hash64(hostIno)][k];
      assert f in inodeChains[Hash64(hostIno)];
      assert RoleOk(f, Now());
    }

    lemma NotOnChain(hostIno: nat)
      requires Valid() && |inodeChains| == HASH_LIST_SIZE
      requires forall j | 0 <= j < |inodeChains[Hash64(hostIno)]| ::
                 var f := inodeChains[Hash64(hostIno)][j]; f in inodes && inodes[f].hostIno != hostIno
      ensures forall i | i in inodes :: inodes[i].hostIno != hostIno
    {
      hide Hash64;
      forall i | i in inodes ensures inodes[i].hostIno != hostIno {
        assert i in inodeChains[Hash64(inodes[i].hostIno)];
      }
    }

    /** One turn of the loop of open_file: what one read gave becomes the next block. */
    method CopyChunk(f: nat, chunk: Read, ghost before: seq<Read>) returns (r: Outcome)
      requires Valid() && Tallied(Now()) && f in inodes && Holds(Now(), f, before)
      requires before != [] ==> before[|before| - 1].Chunk? && |before[|before| - 1].data| == SFS_BLKSIZE
      modifies this`nextIno, this`unused, this`inodes, this`tables, this`blockChains, this`role, this`files, this`image
      ensures r.Done? || r.OutOfSpace? || r.FileTooBig? || r.BadRead?
      ensures r.FileTooBig? ==> |before| >= LN_NBLKS
      ensures r.BadRead? ==> chunk.Error? || |chunk.data| > SFS_BLKSIZE
      ensures r.OutOfSpace? ==> old(nextIno) + 1 + NewTables(|before|) > ninos
      ensures r.Done? ==> nextIno == old(nextIno) + 1 + NewTables(|before|)
      ensures r.Done? ==> Valid() && Grew(old(Now()), Now(), f) && View(Now()) == View(old(Now()))
      ensures r.Done? ==> chunk.Chunk? && Holds(Now(), f, before + [chunk]) && Tallied(Now())
      ensures r.Done? ==> inodes.Keys == old(inodes).Keys && files.Keys == old(files).Keys
      ensures r.Done? ==> forall g | g in old(files) && g != f :: files[g] == old(files)[g]
    {
      hide StateOk, Tallied, Grew, View, MapOk, Holds, Handing;
      ghost var s0 := Now();
      HoldsSize(s0, f, before);
      FileParts(f);
      MapShape(f, inodes[f], tables, role, files[f]);
      var b := AllocIno();
      if b.None? {
        return OutOfSpace;
      }
      if chunk.Error? || |chunk.data| > SFS_BLKSIZE {
        return BadRead;
      }
      KeptByHanding(s0);
      r := StoreBlock(f, b.value, DataBlock(Padded(chunk.data)), |chunk.data|, s0);
      if r.Done? {
        HoldsMore(s0, Now(), f, before, chunk);
        TalliedData(s0, Now(), f, DataBlock(Padded(chunk.data)), |chunk.data|);
      }
    }

    /** open_file: block after block, each but the last whole. */
    method OpenFile(f: nat, chunks: seq<Read>) returns (r: Outcome)
      requires Valid() && Tallied(Now()) && f in inodes && f in files && files[f] == [] && inodes[f].inode.size == 0
      modifies this`nextIno, this`unused, this`inodes, this`tables, this`blockChains, this`role, this`files, this`image
      ensures r.Done? || r.OutOfSpace? || r.FileTooBig? || r.BadRead?
      ensures r.FileTooBig? ==> |chunks| > LN_NBLKS
      ensures r.BadRead? ==> !Readable(chunks)
      ensures r.OutOfSpace? ==> old(nextIno) + Occupied(|chunks|) > ninos
      ensures r.Done? ==> nextIno == old(nextIno) + Occupied(|chunks|) && |chunks| <= LN_NBLKS
      ensures r.Done? ==> Valid() && Grew(old(Now()), Now(), f) && View(Now()) == View(old(Now()))
      ensures r.Done? ==> Holds(Now(), f, chunks) && Tallied(Now())
      ensures r.Done? ==> inodes.Keys == old(inodes).Keys && files.Keys == old(files).Keys
      ensures r.Done? ==> forall g | g in old(files) && g != f :: files[g] == old(files)[g]
    {
      hide StateOk, Tallied, Grew, View, MapOk, Holds, Readable, Occupied, NewTables;
      ghost var s0 := Now();
      GrewSelf(s0, f);
      HoldsNone(s0, f);
      NoneOccupied();
      var last := SFS_BLKSIZE;
      var i := 0;
      while i < |chunks|
        invariant i <= |chunks| && Valid() && Grew(s0, Now(), f) && View(Now()) == View(s0)
        invariant nextIno == s0.nextIno + Occupied(i)
        invariant inodes.Keys == s0.inodes.Keys && files.Keys == s0.files.Keys
        invariant forall g | g in s0.files && g != f :: files[g] == s0.files[g]
        invariant Holds(Now(), f, chunks[..i]) && Tallied(Now())
        invariant i > 0 ==> chunks[i - 1].Chunk? && last == |chunks[i - 1].data|
        invariant i == 0 ==> last == SFS_BLKSIZE
      {
        if last != SFS_BLKSIZE {
          NotReadable(chunks, i);
          return BadRead;
        }
        ghost var s1 := Now();
        OccupiedStep(i);
        OccupiedMore(i + 1, |chunks|);
        r := CopyChunk(f, chunks[i], chunks[..i]);
        if !r.Done? {
          if r.BadRead? {
            NotReadable(chunks, i);
          }
          return;
        }
        GrewTwice(s0, s1, Now(), f);
        assert chunks[..i] + [chunks[i]] == chunks[..i + 1];
        last := |chunks[i].data|;
        i := i + 1;
      }
      assert chunks[..i] == chunks;
      HoldsSize(Now(), f, chunks);
      FileParts(f);
      MapShape(f, inodes[f], tables, role, files[f]);
      return Done;
    }

    /** What the steps of one entry keep besides Valid. */
    ghost predicate ReadyFor(content: HostFiles, cur: nat)
      reads this
    {
      && cur in inodes && inodes[cur].inode.kind.DirKind?
      && Sorted(View(Now()), content) && Filled(Now(), content) && Tallied(Now())
    }

    lemma SameKeys()
      requires Valid()
      ensures files.Keys == inodes.Keys == links.Keys
      ensures forall f | f in inodes :: f in role && 0 < f < nextIno
    {
      hide FilesOk, InodeChainsOk, BlockChainsOk;
      assert FilesOk(Now());
      forall f | f in inodes ensures f in role && 0 < f < nextIno {
        assert RoleOk(f, Now());
      }
      KeysOfFiles(Now());
    }

    /** add_entry for the object f of entry e, which has just been prepared. */
    method NameIt(cur: nat, f: nat, e: Entry, content: HostFiles, ghost s0: State) returns (r: Outcome)
      requires Valid() && Prepared(s0, Now(), cur, f, e, content) && |e.name| <= SFS_MAX_FNAME_LEN
      requires Keeps(e) && Paid(s0, Now(), content, e) && Tallied(Now())
      modifies this`nextIno, this`unused, this`inodes, this`tables, this`blockChains, this`role, this`files, this`image,
               this`links
      ensures r.Done? || r.OutOfSpace? || r.FileTooBig?
      ensures cur in s0.files && (r.FileTooBig? ==> |s0.files[cur]| >= LN_NBLKS)
      ensures r.OutOfSpace? ==> Lacks(ninos, s0, content, e, |s0.files[cur]|)
      ensures r.Done? ==> Spent(s0, Now(), content, e, |s0.files[cur]|)
      ensures r.Done? ==> Valid() && ReadyFor(content, cur) && AddedEntry(s0, Now(), content, cur, e)
      ensures r.Done? ==> Listed(Now(), cur, |s0.files[cur]|, f, e.name)
    {
      hide StateOk, Tallied, Grew, View, MapOk, EffectIn, Sorted, Filled, Represents, HasEntry, Paid, Spent, Lacks,
           NewTables, KnownHosts, Keeps;
      ghost var s := Now();
      SameKeys();
      FileParts(cur);
      MapShape(cur, inodes[cur], tables, role, files[cur]);
      GrewSelf(s, cur);
      r := AddEntry(cur, f, e.name);
      if r.Done? {
        SameKeys();
        NamedEntry(s0, s, Now(), cur, f, e, content);
        GrewAt(s, Now(), cur, cur);
        SameKnown(s, Now(), cur);
        Named(s0, s, Now(), content, e, |s0.files[cur]|);
      } else if r.OutOfSpace? {
        NotNamed(ninos, s0, s, content, e, |s0.files[cur]|);
      }
    }

    /** add_file: the first name of a regular file makes its inode and copies it, later ones only link to it. */
    method AddFile(cur: nat, e: Entry, content: HostFiles) returns (r: Outcome)
      requires Valid() && ReadyFor(content, cur) && cur in files
      requires Keeps(e) && e.node.HostFile? && e.node.ino in content
      requires |e.name| <= SFS_MAX_FNAME_LEN
      modifies this
      ensures r.FileTooBig? ==> TroubleIn(e, content, KnownHosts(old(Now())), r) || |old(files)[cur]| >= LN_NBLKS
      ensures !r.Done? && !r.FileTooBig? && !r.OutOfSpace? ==> TroubleIn(e, content, KnownHosts(old(Now())), r)
      ensures r.OutOfSpace? ==> Lacks(ninos, old(Now()), content, e, |old(files)[cur]|)
      ensures r.Done? ==> Spent(old(Now()), Now(), content, e, |old(files)[cur]|)
      ensures r.Done? ==> Valid() && ReadyFor(content, cur) && AddedEntry(old(Now()), Now(), content, cur, e)
    {
      hide StateOk, Tallied, Grew, View, Sorted, Filled, Holds, AddedEntry, Readable, Made, Prepared, Paid, Spent,
           Lacks, KnownHosts, Keeps, Occupied;
      ghost var s0 := Now();
      SameKeys();
      var f := SearchCacheInode(e.node.ino);
      if f == 0 {
        NextIsNew();
        NotAmong(s0, e.node.ino);
        var made := AllocCacheInode(FileKind, e.node.ino);
        if made.None? {
          NoneLeft(ninos, s0, content, e, |s0.files[cur]|);
          return OutOfSpace;
        }
        f := made.value;
        ghost var s1 := Now();
        MadeParts(s0, s1, cur, f, FileKind, e.node.ino);
        TalliedMade(s0, s1, f, FileKind, e.node.ino);
        r := OpenFile(f, content[e.node.ino]);
        if r.OutOfSpace? {
          FileLacks(ninos, s0, s1, content, e, f, |s0.files[cur]|);
        }
        if !r.Done? {
          FileStopped(e, content, KnownHosts(s0), r);
          return;
        }
        HoldsSize(Now(), f, content[e.node.ino]);
        NewFile(s0, s1, Now(), cur, f, e, content);
        SameKnown(s1, Now(), f);
        FilePaid(s0, s1, Now(), content, e, f);
      } else {
        OldFile(s0, cur, f, e, content);
        FileFits(f, content);
        KnownPaid(s0, content, e, f);
      }
      r := NameIt(cur, f, e, content, s0);
    }

    lemma FileFits(f: nat, content: HostFiles)
      requires Valid() && Sorted(View(Now()), content) && Filled(Now(), content)
      requires f in inodes && inodes[f].hostIno in content
      ensures var chunks := content[inodes[f].hostIno]; Readable(chunks) && |chunks| <= LN_NBLKS
    {
      hide StateOk, Tallied, View, Sorted, Filled, MapOk, Readable;
      SameKeys();
      ViewAt(Now(), f);
      FileAt(Now(), content, f);
      FileParts(f);
      MapShape(f, inodes[f], tables, role, files[f]);
    }

    /** open_link: the target is the one block of the link. */
    method OpenLink(f: nat, target: Option<seq<bv8>>) returns (r: Outcome)
      requires Valid() && Tallied(Now()) && f in inodes && f in files && files[f] == [] && inodes[f].inode.size == 0
      modifies this`nextIno, this`unused, this`inodes, this`tables, this`blockChains, this`role, this`files, this`image
      ensures r.Done? || r.OutOfSpace? || r.BadLink?
      ensures r.BadLink? ==> target.None? || |target.value| >= SFS_BLKSIZE
      ensures r.OutOfSpace? ==> old(nextIno) + 1 > ninos
      ensures r.Done? ==> nextIno == old(nextIno) + 1 && target.Some? && |target.value| < SFS_BLKSIZE
      ensures r.Done? ==> Valid() && Grew(old(Now()), Now(), f) && View(Now()) == View(old(Now()))
      ensures r.Done? ==> inodes.Keys == old(inodes).Keys && target.Some? && HoldsTarget(Now(), f, target.value)
      ensures r.Done? ==> Tallied(Now())
    {
      hide StateOk, Tallied, Grew, View, MapOk;
      FileParts(f);
      MapShape(f, inodes[f], tables, role, files[f]);
      ghost var s0 := Now();
      var b := AllocIno();
      if b.None? {
        return OutOfSpace;
      }
      if target.None? || |target.value| >= SFS_BLKSIZE {
        return BadLink;
      }
      r := StoreBlock(f, b.value, DataBlock(Padded(target.value)), |target.value|, s0);
      if r.Done? {
        TalliedData(s0, Now(), f, DataBlock(Padded(target.value)), |target.value|);
      }
    }

    /** add_link: every name of a symbolic link gets an inode of its own. */
    method AddLink(cur: nat, e: Entry, content: HostFiles) returns (r: Outcome)
      requires Valid() && ReadyFor(content, cur) && cur in files
      requires Keeps(e) && e.node.HostLink? && e.node.ino !in content
      requires |e.name| <= SFS_MAX_FNAME_LEN
      modifies this
      ensures r.FileTooBig? ==> |old(files)[cur]| >= LN_NBLKS
      ensures !r.Done? && !r.FileTooBig? && !r.OutOfSpace? ==> TroubleIn(e, content, KnownHosts(old(Now())), r)
      ensures r.OutOfSpace? ==> Lacks(ninos, old(Now()), content, e, |old(files)[cur]|)
      ensures r.Done? ==> Spent(old(Now()), Now(), content, e, |old(files)[cur]|)
      ensures r.Done? ==> old(nextIno) !in old(inodes)
                          && Listed(Now(), cur, |old(files)[cur]|, old(nextIno), e.name)
      ensures r.Done? ==> Valid() && ReadyFor(content, cur) && AddedEntry(old(Now()), Now(), content, cur, e)
    {
      hide StateOk, Tallied, Grew, View, Sorted, Filled, Holds, AddedEntry, HoldsTarget, Made, Prepared, Paid, Spent,
           Lacks, Listed, KnownHosts, Keeps;
      ghost var s0 := Now();
      SameKeys();
      NextIsNew();
      var made := AllocCacheInode(LinkKind, e.node.ino);
      if made.None? {
        NoLinkLeft(ninos, s0, content, e, |s0.files[cur]|);
        return OutOfSpace;
      }
      var f := made.value;
      ghost var s1 := Now();
      MadeParts(s0, s1, cur, f, LinkKind, e.node.ino);
      TalliedMade(s0, s1, f, LinkKind, e.node.ino);
      MadeIs(s0, s1, f, LinkKind, e.node.ino);
      r := OpenLink(f, e.node.target);
      if r.OutOfSpace? {
        LinkLacks(ninos, s0, s1, content, e, f, |s0.files[cur]|);
      }
      if !r.Done? {
        LinkStopped(e, content, KnownHosts(s0), r);
        return;
      }
      NewLink(s0, s1, Now(), cur, f, e, content);
      SameKnown(s1, Now(), f);
      LinkPaid(s0, s1, Now(), content, e, f);
      r := NameIt(cur, f, e, content, s0);
    }

    /** add_dir: a directory is filled before it is entered in its parent; meeting one twice stops the program. */
    method AddDir(cur: nat, e: Entry, content: HostFiles) returns (r: Outcome)
      requires Valid() && ReadyFor(content, cur) && cur in files
      requires Keeps(e) && e.node.HostDir? && MatchesIn(e, content)
      requires |e.name| <= SFS_MAX_FNAME_LEN
      modifies this
      decreases e, 0
      ensures r.FileTooBig? ==> TroubleIn(e, content, KnownHosts(old(Now())), r) || |old(files)[cur]| >= LN_NBLKS
      ensures !r.Done? && !r.FileTooBig? && !r.OutOfSpace? ==> TroubleIn(e, content, KnownHosts(old(Now())), r)
      ensures r.OutOfSpace? ==> Lacks(ninos, old(Now()), content, e, |old(files)[cur]|)
      ensures r.Done? ==> Spent(old(Now()), Now(), content, e, |old(files)[cur]|)
      ensures r.Done? ==> Valid() && ReadyFor(content, cur) && AddedEntry(old(Now()), Now(), content, cur, e)
    {
      hide StateOk, Tallied, Grew, View, Sorted, Filled, AddedEntry, Made, Prepared, DirBuilt, Paid, Spent, Lacks,
           KnownHosts, Keeps, DirSpent, DirNeed, DirTrouble, CleanDir;
      ghost var s0 := Now();
      SameKeys();
      var f := SearchCacheInode(e.node.ino);
      if f != 0 {
        Among(s0, f);
        DirSeen(e, content, KnownHosts(s0));
        return SeenTwice;
      }
      NextIsNew();
      NotAmong(s0, e.node.ino);
      var made := AllocCacheInode(DirKind, e.node.ino);
      if made.None? {
        NoneLeft(ninos, s0, content, e, |s0.files[cur]|);
        return OutOfSpace;
      }
      var c := made.value;
      ghost var s1 := Now();
      MadeParts(s0, s1, cur, c, DirKind, e.node.ino);
      TalliedMade(s0, s1, c, DirKind, e.node.ino);
      MadeReady(s0, s1, cur, c, e.node.ino, content);
      r := OpenDir(c, cur, e.node.entries, content);
      if r.OutOfSpace? {
        DirLacksIn(ninos, s0, s1, content, e, c, |s0.files[cur]|);
        return;
      }
      if !r.Done? {
        DirStoppedIn(s0, s1, content, e, c, r);
        return;
      }
      SameKeys();
      NewDir(s0, s1, Now(), cur, c, e, content);
      DirPaid(s0, s1, Now(), content, e, c);
      r := NameIt(cur, c, e, content, s0);
    }

    /** One turn of the loop of open_dir */
    method AddOne(cur: nat, e: Entry, content: HostFiles) returns (r: Outcome)
      requires Valid() && ReadyFor(content, cur) && cur in files && MatchesIn(e, content)
      modifies this
      decreases e, 1
      ensures r.FileTooBig? ==>
                TroubleIn(e, content, KnownHosts(old(Now())), r) || (Keeps(e) && |old(files)[cur]| >= LN_NBLKS)
      ensures !r.Done? && !r.FileTooBig? && !r.OutOfSpace? ==> TroubleIn(e, content, KnownHosts(old(Now())), r)
      ensures r.OutOfSpace? ==> Lacks(ninos, old(Now()), content, e, |old(files)[cur]|)
      ensures r.Done? ==> Spent(old(Now()), Now(), content, e, |old(files)[cur]|)
      ensures r.Done? ==> Valid() && ReadyFor(content, cur)
      ensures r.Done? ==> if Keeps(e) then AddedEntry(old(Now()), Now(), content, cur, e) else Now() == old(Now())
    {
      hide StateOk, Tallied, View, Sorted, Filled, AddedEntry, Spent, Lacks, KnownHosts;
      if Hidden(e.name) {
        Skipped(Now(), content, e, |files[cur]|);
        return Done;
      } else if |e.name| > SFS_MAX_FNAME_LEN {
        return NameTooLong;
      }
      match e.node {
        case HostLink(_, _) =>
          r := AddLink(cur, e, content);
        case HostDir(_, _) =>
          r := AddDir(cur, e, content);
        case HostFile(_) =>
          r := AddFile(cur, e, content);
        case HostOther =>
          Skipped(Now(), content, e, |files[cur]|);
          r := Done;
      }
    }

    /** open_dir */
    method OpenDir(cur: nat, parent: nat, es: seq<Entry>, content: HostFiles) returns (r: Outcome)
      requires Valid() && ReadyFor(content, cur) && cur in files && files[cur] == [] && parent in inodes
      requires inodes[cur].inode.size == 0
      requires Matches(es, content)
      modifies this
      decreases es, 1
      ensures !r.Done? && !r.OutOfSpace? ==> DirTrouble(es, content, KnownHosts(old(Now())), r)
      ensures r.OutOfSpace? ==> old(nextIno) + DirNeed(es, content, KnownHosts(old(Now()))) > ninos
      ensures r.Done? ==> DirSpent(old(Now()), Now(), content, es) && CleanDir(es, content, KnownHosts(old(Now())))
      ensures r.Done? ==> Valid() && ReadyFor(content, cur) && DirBuilt(old(Now()), Now(), content, cur, parent, es)
    {
      hide StateOk, Tallied, ReadyFor, Grew, View, AddedEntry, DirState, DirBuilt, Listed, Denotes, Effect, Sorted,
           Filled, Matches, MatchesIn, TroubleIn, DirTrouble, Keep, Keeps, Hidden, DirSpent, CleanDir, DirNeed, Spent,
           Lacks, KnownHosts;
      ghost var s0 := Now();
      r := OpenSelf(cur, parent, content);
      if !r.Done? {
        NoSelf(es, content, KnownHosts(s0));
        return;
      }
      ghost var s2 := Now();
      var k := 0;
      assert es[..k] == [];
      while k < |es|
        invariant k <= |es| && Valid() && ReadyFor(content, cur) && DirState(s2, Now(), content, cur, es[..k])
        invariant DirSpent(s0, Now(), content, es[..k])
      {
        var e := es[k];
        ghost var s := Now();
        SameKeys();
        MatchesAt(es, content, k);
        KeepPrefix(es, k);
        DirCount(s2, s, content, cur, es[..k]);
        assert es[..k] + [e] == es[..k + 1];
        r := AddOne(cur, e, content);
        if r.OutOfSpace? {
          DirLacks(ninos, s0, s, content, es, k);
          return;
        }
        if !r.Done? {
          if TroubleIn(e, content, KnownHosts(s), r) {
            DirStopped(s0, s, content, es, r, k);
          } else {
            DirTooBig(es, content, KnownHosts(s0), r);
          }
          return;
        }
        DirSpentStep(s0, s, Now(), content, es[..k], e);
        if Keeps(e) {
          SameKeys();
          DirStep(s2, s, Now(), content, cur, es[..k], e);
        } else {
          DirSkip(s2, s, content, cur, es[..k], e);
        }
        k := k + 1;
      }
      assert es[..k] == es;
      DirFits(s2, content, cur, es);
      DirClean(s0, Now(), content, es);
      DirFinished(s0, s2, Now(), content, cur, parent, es);
      return Done;
    }

    lemma DirFits(s0: State, content: HostFiles, cur: nat, es: seq<Entry>)
      requires Valid() && DirState(s0, Now(), content, cur, es)
      ensures 2 + |Keep(es)| <= LN_NBLKS
    {
      hide StateOk, Tallied, DirState, Keep, MapOk;
      DirCount(s0, Now(), content, cur, es);
      SameKeys();
      FileParts(cur);
      MapShape(cur, inodes[cur], tables, role, files[cur]);
    }

    /** The first two entries of every directory. */
    method OpenSelf(cur: nat, parent: nat, content: HostFiles) returns (r: Outcome)
      requires Valid() && ReadyFor(content, cur) && cur in files && files[cur] == [] && parent in inodes
      requires inodes[cur].inode.size == 0
      modifies this`nextIno, this`unused, this`inodes, this`tables, this`blockChains, this`role, this`files, this`image,
               this`links
      ensures r.Done? || (r.OutOfSpace? && old(nextIno) + 2 > ninos)
      ensures r.Done? ==> DirSpent(old(Now()), Now(), content, [])
      ensures r.Done? ==> && Valid() && ReadyFor(content, cur) && DirState(Now(), Now(), content, cur, [])
                          && Grew(old(Now()), Now(), cur) && cur in View(old(Now())) && parent in View(old(Now()))
                          && Listed(Now(), cur, 0, cur, ".") && Listed(Now(), cur, 1, parent, "..")
                          && View(Now()) == Linked(Linked(View(old(Now())), cur), parent) && cur in View(Now())
    {
      hide StateOk, Tallied, Grew, View, Sorted, Filled, Effect, MapOk, Listed, KnownHosts, DirSpent;
      ghost var s0 := Now();
      SameKeys();
      ViewAt(s0, cur);
      ViewAt(s0, parent);
      FileParts(cur);
      MapShape(cur, inodes[cur], tables, role, files[cur]);
      GrewSelf(s0, cur);
      r := AddEntry(cur, cur, ".");
      if !r.Done? {
        return;
      }
      ghost var s1 := Now();
      GrewAt(s0, s1, cur, cur);
      FileParts(cur);
      MapShape(cur, inodes[cur], tables, role, files[cur]);
      r := AddEntry(cur, parent, "..");
      if !r.Done? {
        return;
      }
      assert s0.files[cur] + [s0.nextIno] == [s0.nextIno];
      DirStarted(s0, s1, Now(), content, cur, parent);
      SameKnown(s0, Now(), cur);
      DirSpentNone(s0, Now(), content);
      GrewAt(s1, Now(), cur, cur);
    }

    // ---------- Writing what is cached ----------

    /** flush_cache_block along one chain */
    method FlushTables(chain: seq<nat>)
      requires Unwritten(chain, tables.Keys, image, ninos)
      modifies this`image
      ensures Wrote(old(image), image, chain)
      ensures forall t | t in chain :: t in tables && t in image && image[t] == TableBlock(tables[t])
    {
      var i := 0;
      while i < |chain|
        invariant i <= |chain| && Wrote(old(image), image, chain[..i])
        invariant forall t | t in chain[..i] :: t in tables && t in image && image[t] == TableBlock(tables[t])
      {
        assert chain[..i + 1] == chain[..i] + [chain[i]];
        assert chain[i] in chain && chain[i] !in chain[..i];
        WriteBlock(chain[i], TableBlock(tables[chain[i]]));
        i := i + 1;
      }
      assert chain[..i] == chain;
    }

    /** flush_cache_inode along one chain */
    method FlushInodes(chain: seq<nat>)
      requires Unwritten(chain, inodes.Keys, image, ninos)
      modifies this`image
      ensures Wrote(old(image), image, chain)
      ensures forall f | f in chain :: f in inodes && f in image && image[f] == InodeBlock(inodes[f].inode)
    {
      var i := 0;
      while i < |chain|
        invariant i <= |chain| && Wrote(old(image), image, chain[..i])
        invariant forall f | f in chain[..i] :: f in inodes && f in image && image[f] == InodeBlock(inodes[f].inode)
      {
        assert chain[..i + 1] == chain[..i] + [chain[i]];
        assert chain[i] in chain && chain[i] !in chain[..i];
        WriteBlock(chain[i], InodeBlock(inodes[chain[i]].inode));
        i := i + 1;
      }
      assert chain[..i] == chain;
    }

    /** The free map, block after block behind the root inode. */
    method WriteFreeMap() returns (ghost blocks: seq<seq<bv32>>)
      requires nextIno <= ninos && FirstIno(ninos) <= ninos
      requires forall b | SFS_BLKN_FREEMAP <= b < FirstIno(ninos) :: b !in image
      modifies this`image
      ensures |blocks| == FreeMapBlocks(ninos) && FreeMap.MapOk(blocks, nextIno, ninos)
      ensures forall b :: b in image <==> b in old(image) || SFS_BLKN_FREEMAP <= b < FirstIno(ninos)
      ensures forall b | b in old(image) :: image[b] == old(image)[b]
      ensures forall b | b in image && b !in old(image) :: image[b].FreeMap?
      ensures forall k | 0 <= k < |blocks| :: MapBlockIs(image, k, blocks[k])
    {
      blocks := [];
      var i, ino := 0, SFS_BLKN_FREEMAP;
      while i < ninos
        invariant i == SFS_BLKBITS * |blocks| && ino == SFS_BLKN_FREEMAP + |blocks|
        invariant FreeMap.MapOk(blocks, nextIno, ninos)
        invariant i < ninos + SFS_BLKBITS
        invariant forall b :: b in image <==> b in old(image) || SFS_BLKN_FREEMAP <= b < ino
        invariant forall b | b in old(image) :: image[b] == old(image)[b]
        invariant forall b | b in image && b !in old(image) :: image[b].FreeMap?
        invariant forall k | 0 <= k < |blocks| :: MapBlockIs(image, k, blocks[k])
      {
        var words := FreeMap.MapBlock(i, ninos, nextIno);
        FreeMap.MapMore(blocks, words, nextIno, ninos);
        MapBlocksLeft(ninos, i, |blocks|);
        WriteBlock(ino, Contents.FreeMap(words));
        blocks := blocks + [words];
        i, ino := i + SFS_BLKBITS, ino + 1;
      }
      MapBlocksLeft(ninos, i, |blocks|);
    }

    /** The chains of both hash tables, one after the other. */
    method FlushAll(ghost s: State)
      requires InodeChainsOk(inodeChains, inodes) && BlockChainsOk(blockChains, tables) && CachedApart(ninos, s, image)
      requires Now() == s.(image := image)
      modifies this`image
      ensures CachedUpTo(old(image), image, s, HASH_LIST_SIZE)
    {
      hide InodeChainsOk, BlockChainsOk, Wrote, Unwritten, CachedUpTo, CachedApart;
      ghost var image0 := image;
      ChainsLength(inodeChains, inodes);
      BlockChainsLength(blockChains, tables);
      NoneCached(ninos, s, image0, image0);
      var i := 0;
      while i < HASH_LIST_SIZE
        invariant i <= HASH_LIST_SIZE && CachedUpTo(image0, image, s, i)
      {
        ghost var before := image;
        ChainUnwritten(ninos, s, image0, before, i);
        FlushTables(blockChains[i]);
        ghost var between := image;
        StillUnwritten(s, before, between, i, ninos);
        FlushInodes(inodeChains[i]);
        ChainWritten(s, image0, before, between, image, i);
        i := i + 1;
      }
    }

    /** close_sfs: the free map, the super block, and every cached table and inode, each in its block. */
    method CloseSfs() returns (ghost blocks: seq<seq<bv32>>)
      requires Valid() && forall b | b in role :: !role[b].Fresh?
      modifies this`image
      ensures forall b: nat :: b in image <==> b < nextIno
      ensures forall b | b in old(image) :: b in image && image[b] == old(image)[b]
      ensures SFS_BLKN_SUPER in image && image[SFS_BLKN_SUPER] == SuperBlock(ninos, unused)
      ensures |blocks| == FreeMapBlocks(ninos) && FreeMap.MapOk(blocks, nextIno, ninos)
      ensures forall k | 0 <= k < |blocks| :: MapBlockIs(image, k, blocks[k])
      ensures forall t | t in tables :: t in image && image[t] == TableBlock(tables[t])
      ensures forall f | f in inodes :: f in image && image[f] == InodeBlock(inodes[f].inode)
      ensures forall b | b in image && image[b].InodeBlock? :: b in inodes
      ensures forall b | b in image && image[b].EntryBlock? :: b in old(image)
    {
      hide StateOk, Tallied, FirstIno, InodeChainsOk, BlockChainsOk, Wrote, Unwritten, CachedUpTo, CachedApart;
      NextIsWithin();
      ChainsOk();
      OutsideRoles(ninos, Now());
      ghost var s := Now();
      blocks := WriteFreeMap();
      WriteBlock(SFS_BLKN_SUPER, SuperBlock(ninos, unused));
      ghost var image1 := image;
      NoneCached(ninos, s, s.image, image1);
      FlushAll(s);
      ClosedImage(ninos, s, image1, image);
    }

    /** create_img: what the image holds in the end, read from the image alone, is the tree. */
    method CreateImg(es: seq<Entry>, content: HostFiles)
      returns (r: Outcome, ghost blocks: seq<seq<bv32>>, ghost host: HostNumbers)
      requires Valid() && JustRoot(Now()) && image == map[] && Matches(es, content) && 0 !in content
      modifies this
      ensures !r.Done? && !r.OutOfSpace? ==> DirTrouble(es, content, {0}, r)
      ensures r.Done? <==> CleanDir(es, content, {0}) && old(nextIno) + DirNeed(es, content, {0}) <= ninos
      ensures r.Done? ==> nextIno == old(nextIno) + DirNeed(es, content, {0})
      ensures r.Done? ==> Finished(ninos, Now(), blocks)
      ensures r.Done? ==> Numbered(image, host) && LinkCounts(Objects(image, host), es)
      ensures r.Done? ==> NamesCounted(image, Objects(image, host), es)
      ensures r.Done? ==> TreeReads(image, host, content, SFS_BLKN_ROOT, SFS_BLKN_ROOT, es)
    {
      hide StateOk, Tallied, Grew, View, Sorted, Filled, Effect, Denotes, Listed, LinkCounts, JustRoot, FirstIno,
           KnownHosts, DirTrouble, DirNeed, TreeReads, Finished, Written, Numbered, Objects, HostsOf, NamesCounted,
           Expected;
      ghost var s0 := Now();
      RootOnly(s0);
      RootKnown(s0);
      FreshReady(s0, content);
      FreshTallied(s0);
      blocks, host := [], map[];
      r := OpenDir(SFS_BLKN_ROOT, SFS_BLKN_ROOT, es, content);
      if !r.Done? {
        return;
      }
      ghost var s := Now();
      AllLinks();
      FinalCounts(s0, s, content, es);
      NamesAreLinks(s, es);
      NothingLoose(s0, s, SFS_BLKN_ROOT);
      NextIsWithin();
      blocks := CloseSfs();
      host := HostsOf(Now());
      FinishedWhole(ninos, s, Now(), blocks);
      TreeFinished(ninos, s0, s, Now(), blocks, content, es);
    }

    lemma AllLinks()
      requires Valid()
      ensures links.Keys == inodes.Keys
      ensures forall i | i in inodes :: inodes[i].inode.nlinks == links[i] % NLINKS_RANGE
    {
      hide MapOk, DataOk;
      assert FilesOk(Now());
      forall i | i in inodes ensures i in links && inodes[i].inode.nlinks == links[i] % NLINKS_RANGE {
        assert FileOk(i, Now());
      }
    }

    lemma ChainsOk()
      requires Valid()
      ensures InodeChainsOk(inodeChains, inodes) && BlockChainsOk(blockChains, tables)
    {
    }
  }

  /** create_sfs: the free map and the two blocks before it must leave room for more. */
  method CreateSfs(bytes: nat) returns (r: Option<Sfs>)
    ensures var n := bytes / SFS_BLKSIZE;
            var ninos := if n > SFS_MAX_NBLKS then SFS_MAX_NBLKS else n;
            if FirstIno(ninos) >= ninos then r.None? else r.Some? && r.value.ninos == ninos
    ensures r.Some? ==> r.value.nextIno == FirstIno(r.value.ninos)
    ensures r.Some? ==> fresh(r.value) && r.value.Valid() && JustRoot(r.value.Now()) && r.value.image == map[]
    ensures r.Some? ==> r.value.ninos <= SFS_MAX_NBLKS && r.value.ninos * SFS_BLKSIZE <= bytes
  {
    var ninos := bytes / SFS_BLKSIZE;
    if ninos > SFS_MAX_NBLKS {
      ninos := SFS_MAX_NBLKS;
    }
    if FirstIno(ninos) >= ninos {
      return None;
    }
    var sfs := new Sfs(ninos);
    return Some(sfs);
  }

  lemma KeysOfFiles(s: State)
    requires FilesOk(s)
    ensures s.files.Keys == s.inodes.Keys == s.links.Keys
  {
  }
}
