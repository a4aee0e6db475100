/** How an inode of the image finds its blocks: twelve direct entries, one table, and a table of tables
    (lab8/tools/mksfs.c). Blocks are named by their numbers; 0 stands for no block. */
module SfsBlockMap {
  const NDIRECT: nat := 12                 // SFS_L0_NBLKS
  const NENTRY: nat := 1024                // SFS_BLK_NENTRY
  const L1_NBLKS: nat := 1036
  const LN_NBLKS: nat := 32768             // SFS_MAX_FILE_SIZE / SFS_BLKSIZE

  datatype Kind = FileKind | DirKind | LinkKind

  /** An inode as it is written to the image. */
  datatype Inode = Inode(size: nat, kind: Kind, nlinks: nat, blocks: nat,
                         direct: seq<nat>, indirect: nat, double: nat)

  /** What the builder keeps about an inode: its number on the host, the blocks appended, the tables in use. */
  datatype CacheInode = CacheInode(inode: Inode, hostIno: nat, nblks: nat, l1: nat, l2: nat)

  type Tables = map<nat, seq<nat>>

  /** What a block number was handed out for. */
  datatype Role =
    | Itself                               // the inode of that number
    | Indirect(file: nat)
    | Double(file: nat)
    | Inner(file: nat, q: nat)             // table q below the double-indirect one
    | Data(file: nat, index: nat)          // block index of the file
    | Fresh                                // allocated, not yet linked to anything

  type Roles = map<nat, Role>

  predicate IsTable(r: Role) {
    r.Indirect? || r.Double? || r.Inner?
  }

  function Zeros(): seq<nat> {
    seq(NENTRY, _ => 0)
  }

  function EmptyInode(kind: Kind, hostIno: nat): CacheInode {
    CacheInode(Inode(0, kind, 0, 0, seq(NDIRECT, _ => 0), 0, 0), hostIno, 0, 0, 0)
  }

  /** Entry k of table t; 0 if there is none. */
  function At(tables: Tables, t: nat, k: nat): nat {
    if t in tables && k < |tables[t]| then tables[t][k] else 0
  }

  /** Block j of a file, as a reader of the image finds it. */
  function Lookup(inode: Inode, tables: Tables, j: nat): nat {
    if j < NDIRECT then (if j < |inode.direct| then inode.direct[j] else 0)
    else if j < L1_NBLKS then At(tables, inode.indirect, j - NDIRECT)
    else At(tables, At(tables, inode.double, (j - L1_NBLKS) / NENTRY), (j - L1_NBLKS) % NENTRY)
  }

  /** Blocks appended and looked up agree. */
  ghost predicate Found(inode: Inode, tables: Tables, blocks: seq<nat>) {
    forall j | 0 <= j < |blocks| :: Lookup(inode, tables, j) == blocks[j]
  }

  ghost predicate TableIs(tables: Tables, role: Roles, t: nat, r: Role) {
    t != 0 && t in tables && |tables[t]| == NENTRY && t in role && role[t] == r
  }

  /** Slot q of the double-indirect table is in use exactly when some block needs it. */
  ghost predicate InnerOk(f: nat, node: CacheInode, tables: Tables, role: Roles, q: nat) {
    if node.nblks > L1_NBLKS + NENTRY * q then TableIs(tables, role, At(tables, node.inode.double, q), Inner(f, q))
    else At(tables, node.inode.double, q) == 0
  }

  /** The tables of the file exist exactly as far as they are needed, and the cached ones are those in use. */
  ghost predicate Shape(f: nat, node: CacheInode, tables: Tables, role: Roles) {
    && |node.inode.direct| == NDIRECT
    && (if node.nblks > NDIRECT then TableIs(tables, role, node.inode.indirect, Indirect(f))
        else node.inode.indirect == 0)
    && (if node.nblks > L1_NBLKS then TableIs(tables, role, node.inode.double, Double(f)) else node.inode.double == 0)
    && (forall q | 0 <= q < NENTRY :: InnerOk(f, node, tables, role, q))
    && (NDIRECT < node.nblks <= L1_NBLKS ==> node.l1 == node.inode.indirect)
    && (node.nblks > L1_NBLKS ==>
          && node.l2 == node.inode.double
          && node.l1 == At(tables, node.inode.double, (node.nblks - 1 - L1_NBLKS) / NENTRY))
  }

  ghost predicate MapOk(f: nat, node: CacheInode, tables: Tables, role: Roles, blocks: seq<nat>) {
    && node.nblks == node.inode.blocks == |blocks| <= LN_NBLKS
    && Shape(f, node, tables, role) && Found(node.inode, tables, blocks)
  }

  lemma MapShape(f: nat, node: CacheInode, tables: Tables, role: Roles, blocks: seq<nat>)
    requires MapOk(f, node, tables, role, blocks)
    ensures Shape(f, node, tables, role) && |node.inode.direct| == NDIRECT && node.nblks == |blocks| <= LN_NBLKS
  {
  }

  lemma EmptyMap(f: nat, kind: Kind, hostIno: nat, tables: Tables, role: Roles)
    requires 0 !in tables
    ensures MapOk(f, EmptyInode(kind, hostIno), tables, role, [])
  {
  }

  // ---------- Appending ----------

  /** The inode after one more block of the given size. */
  function Counted(node: CacheInode, size: nat): CacheInode {
    node.(nblks := node.nblks + 1,
          inode := node.inode.(size := node.inode.size + size, blocks := node.inode.blocks + 1))
  }

  function WithDirect(node: CacheInode, k: nat, b: nat): CacheInode
    requires k < |node.inode.direct|
  {
    var direct: seq<nat> := node.inode.direct[k := b];
    node.(inode := node.inode.(direct := direct))
  }

  function WithIndirect(node: CacheInode, t: nat): CacheInode {
    node.(inode := node.inode.(indirect := t), l1 := t)
  }

  function WithDouble(node: CacheInode, t2: nat, t1: nat): CacheInode {
    node.(inode := node.inode.(double := t2), l2 := t2, l1 := t1)
  }

  lemma DirectKeeps(f: nat, node: CacheInode, tables: Tables, role: Roles, blocks: seq<nat>, b: nat, size: nat)
    requires MapOk(f, node, tables, role, blocks) && node.nblks < NDIRECT && 0 !in tables
    ensures MapOk(f, Counted(WithDirect(node, node.nblks, b), size), tables, role, blocks + [b])
  {
    var node' := Counted(WithDirect(node, node.nblks, b), size);
    forall q | 0 <= q < NENTRY ensures InnerOk(f, node', tables, role, q) {
      assert InnerOk(f, node, tables, role, q);
    }
  }

  /** Table t of the file is the one to write to: new and empty, or already linked. */
  ghost predicate Ready(tables: Tables, role: Roles, tables': Tables, role': Roles, old_t: nat, t: nat, r: Role) {
    if old_t == 0 then t != 0 && t !in tables && t !in role && tables' == tables[t := Zeros()] && role' == role[t := r]
    else t == old_t && tables' == tables && role' == role
  }

  lemma ReadyRoles(tables: Tables, role: Roles, tables': Tables, role': Roles, old_t: nat, t: nat, r: Role)
    requires Ready(tables, role, tables', role', old_t, t, r) && IsTable(r)
    ensures forall x | x in role :: x in role' && role'[x] == role[x]
    ensures forall x | x in role' && x !in role :: IsTable(role'[x])
    ensures old_t == 0 || (tables' == tables && role' == role && t == old_t)
  {
  }

  function Put(tables: Tables, t: nat, k: nat, v: nat): Tables
    requires t in tables && k < |tables[t]|
  {
    var entries: seq<nat> := tables[t][k := v];
    tables[t := entries]
  }

  lemma AtPut(tables: Tables, t: nat, k: nat, v: nat, x: nat, i: nat)
    requires t in tables && k < |tables[t]|
    ensures At(Put(tables, t, k, v), x, i) == if x == t && i == k then v else At(tables, x, i)
  {
  }

  lemma AtReady(tables: Tables, role: Roles, tables': Tables, role': Roles, old_t: nat, t: nat, r: Role, x: nat, i: nat)
    requires Ready(tables, role, tables', role', old_t, t, r)
    ensures At(tables', x, i) == At(tables, x, i)
  {
  }

  lemma IndirectKeeps(f: nat, node: CacheInode, tables: Tables, role: Roles, tables1: Tables, role1: Roles,
                      blocks: seq<nat>, t: nat, b: nat, size: nat)
    requires MapOk(f, node, tables, role, blocks) && NDIRECT <= node.nblks < L1_NBLKS && 0 !in tables
    requires Ready(tables, role, tables1, role1, node.inode.indirect, t, Indirect(f))
    ensures TableIs(tables1, role1, t, Indirect(f))
    ensures MapOk(f, Counted(WithIndirect(node, t), size), Put(tables1, t, node.nblks - NDIRECT, b), role1,
                  blocks + [b])
  {
    var node', tables' := Counted(WithIndirect(node, t), size), Put(tables1, t, node.nblks - NDIRECT, b);
    forall q | 0 <= q < NENTRY ensures InnerOk(f, node', tables', role1, q) {
      assert InnerOk(f, node, tables, role, q);
    }
    forall j | 0 <= j < |blocks + [b]| ensures Lookup(node'.inode, tables', j) == (blocks + [b])[j] {
      if j < |blocks| {
        assert Lookup(node.inode, tables, j) == blocks[j];
      }
    }
  }

  /** Where block n of the double-indirect range goes. */
  lemma Slots(n: nat, q: nat, r: nat, q': nat)
    requires L1_NBLKS <= n < LN_NBLKS && q == (n - L1_NBLKS) / NENTRY && r == (n - L1_NBLKS) % NENTRY
    ensures q < NENTRY && r < NENTRY && n == L1_NBLKS + NENTRY * q + r
    ensures n + 1 > L1_NBLKS + NENTRY * q' <==> q' <= q
    ensures n > L1_NBLKS + NENTRY * q' <==> q' < q || (q' == q && r > 0)
  {
  }

  /** The state of the two levels when block n of the file is written: t2 is the table of tables, t1 the table
      below it, and nothing else has changed. */
  ghost predicate Opened(f: nat, node: CacheInode, tables: Tables, role: Roles, tables1: Tables, role1: Roles,
                         tables2: Tables, role2: Roles, t2: nat, t1: nat) {
    && L1_NBLKS <= node.nblks < LN_NBLKS && 0 !in tables
    && Ready(tables, role, tables1, role1, node.inode.double, t2, Double(f))
    && Ready(tables1, role1, tables2, role2, At(tables1, t2, (node.nblks - L1_NBLKS) / NENTRY), t1,
             Inner(f, (node.nblks - L1_NBLKS) / NENTRY))
  }

  lemma OpenedTables(f: nat, node: CacheInode, tables: Tables, role: Roles, tables1: Tables, role1: Roles,
                     tables2: Tables, role2: Roles, t2: nat, t1: nat)
    requires Shape(f, node, tables, role)
    requires Opened(f, node, tables, role, tables1, role1, tables2, role2, t2, t1)
    ensures var q := (node.nblks - L1_NBLKS) / NENTRY;
            && TableIs(tables2, role2, t2, Double(f)) && TableIs(tables2, role2, t1, Inner(f, q))
            && (forall x, i :: At(tables2, x, i) == At(tables, x, i))
            && (forall x, r | TableIs(tables, role, x, r) :: TableIs(tables2, role2, x, r))
  {
    var q := (node.nblks - L1_NBLKS) / NENTRY;
    Slots(node.nblks, q, (node.nblks - L1_NBLKS) % NENTRY, q);
    assert InnerOk(f, node, tables, role, q);
    assert At(tables1, t2, q) == At(tables, node.inode.double, q);
    forall x, i ensures At(tables2, x, i) == At(tables, x, i) {
      AtReady(tables, role, tables1, role1, node.inode.double, t2, Double(f), x, i);
      AtReady(tables1, role1, tables2, role2, At(tables1, t2, q), t1, Inner(f, q), x, i);
    }
  }

  /** Which tables exist when block n is appended: those needed are missing exactly at the boundaries, and otherwise
      are the cached ones, so nothing has to be searched for. */
  lemma CachedOrMissing(f: nat, node: CacheInode, tables: Tables, role: Roles)
    requires Shape(f, node, tables, role) && 0 !in tables
    ensures var n := node.nblks;
            && (NDIRECT <= n < L1_NBLKS ==> node.inode.indirect == 0 || node.l1 == node.inode.indirect)
            && (L1_NBLKS <= n < LN_NBLKS ==>
                  && (node.inode.double == 0 || node.l2 == node.inode.double)
                  && (At(tables, node.inode.double, (n - L1_NBLKS) / NENTRY) == 0
                      || node.l1 == At(tables, node.inode.double, (n - L1_NBLKS) / NENTRY)))
  {
    var n := node.nblks;
    if L1_NBLKS <= n < LN_NBLKS {
      var q, r := (n - L1_NBLKS) / NENTRY, (n - L1_NBLKS) % NENTRY;
      Slots(n, q, r, q);
      assert InnerOk(f, node, tables, role, q);
    }
  }

  /** Which tables come into being with block n of a file. */
  function NewTables(n: nat): nat {
    if n == NDIRECT then 1
    else if n < L1_NBLKS then 0
    else if n == L1_NBLKS then 2
    else if (n - L1_NBLKS) % NENTRY == 0 then 1
    else 0
  }

  /** What n blocks of a file take up with the tables that lead to them. */
  function Occupied(n: nat): nat {
    n + if n <= NDIRECT then 0 else if n <= L1_NBLKS then 1 else 2 + (n - L1_NBLKS + NENTRY - 1) / NENTRY
  }

  lemma NoneOccupied()
    ensures Occupied(0) == 0
  {
  }

  lemma OccupiedStep(n: nat)
    ensures Occupied(n + 1) == Occupied(n) + 1 + NewTables(n)
  {
    if n > L1_NBLKS {
      var m := n - L1_NBLKS;
      var q, r := m / NENTRY, m % NENTRY;
      assert m == q * NENTRY + r;
      if r == 0 {
        assert (m + NENTRY - 1) / NENTRY == q && (m + NENTRY) / NENTRY == q + 1;
      } else {
        assert (m + NENTRY - 1) / NENTRY == q + 1 && (m + NENTRY) / NENTRY == q + 1;
      }
    }
  }

  lemma OccupiedMore(m: nat, n: nat)
    requires m <= n
    ensures Occupied(m) <= Occupied(n)
  {
  }

  /** A table is missing exactly when the next block is the first one below it. */
  lemma MissingTables(f: nat, node: CacheInode, tables: Tables, role: Roles)
    requires Shape(f, node, tables, role) && 0 !in tables
    ensures var n := node.nblks;
            && (NDIRECT <= n < L1_NBLKS ==> (node.inode.indirect == 0 <==> n == NDIRECT))
            && (L1_NBLKS <= n < LN_NBLKS ==>
                  && (node.inode.double == 0 <==> n == L1_NBLKS)
                  && (At(tables, node.inode.double, (n - L1_NBLKS) / NENTRY) == 0 <==> (n - L1_NBLKS) % NENTRY == 0))
  {
    var n := node.nblks;
    if L1_NBLKS <= n < LN_NBLKS {
      var q, r := (n - L1_NBLKS) / NENTRY, (n - L1_NBLKS) % NENTRY;
      Slots(n, q, r, q);
      assert InnerOk(f, node, tables, role, q);
    }
  }

  /** The table of tables, just made or as before, has the entries it had. */
  lemma DoubleTable(f: nat, node: CacheInode, tables: Tables, role: Roles, tables': Tables, role': Roles, t2: nat,
                    q: nat)
    requires Shape(f, node, tables, role) && L1_NBLKS <= node.nblks && q < NENTRY && 0 !in tables
    requires Ready(tables, role, tables', role', node.inode.double, t2, Double(f))
    ensures t2 in tables' && |tables'[t2]| == NENTRY && 0 !in tables'
    ensures tables'[t2][q] == At(tables', t2, q) == At(tables, node.inode.double, q)
  {
  }

  lemma IsEntered(tables: Tables, role: Roles, f: nat, t2: nat, q: nat, t1: nat)
    requires TableIs(tables, role, t2, Double(f)) && TableIs(tables, role, t1, Inner(f, q))
    ensures t2 in tables && |tables[t2]| == NENTRY && t1 in tables && |tables[t1]| == NENTRY
  {
  }

  /** The tables once the new inner table is linked and the block is entered. */
  function Entered(tables: Tables, t2: nat, q: nat, t1: nat, r: nat, b: nat): Tables
    requires t2 in tables && q < |tables[t2]| && t1 in tables && r < |tables[t1]|
  {
    Put(Put(tables, t2, q, t1), t1, r, b)
  }

  lemma EnteredAt(tables: Tables, role: Roles, f: nat, t2: nat, q: nat, t1: nat, r: nat, b: nat)
    requires TableIs(tables, role, t2, Double(f)) && TableIs(tables, role, t1, Inner(f, q)) && q < NENTRY && r < NENTRY
    ensures forall x, i :: At(Entered(tables, t2, q, t1, r, b), x, i)
                        == if x == t1 && i == r then b else if x == t2 && i == q then t1 else At(tables, x, i)
    ensures forall x, k | TableIs(tables, role, x, k) :: TableIs(Entered(tables, t2, q, t1, r, b), role, x, k)
  {
    forall x, i ensures At(Entered(tables, t2, q, t1, r, b), x, i)
                     == if x == t1 && i == r then b else if x == t2 && i == q then t1 else At(tables, x, i)
    {
      AtPut(tables, t2, q, t1, x, i);
      AtPut(Put(tables, t2, q, t1), t1, r, b, x, i);
    }
  }

  /** Block b, entry r of table t1 below entry q of table t2, has become block n of the file. */
  ghost predicate Grown(f: nat, node: CacheInode, node': CacheInode, tables: Tables, role: Roles, tables': Tables,
                        role': Roles,
                        t2: nat, q: nat, t1: nat, r: nat, b: nat) {
    && L1_NBLKS <= node.nblks < LN_NBLKS
    && q == (node.nblks - L1_NBLKS) / NENTRY && r == (node.nblks - L1_NBLKS) % NENTRY
    && node'.nblks == node.nblks + 1 && node'.inode.direct == node.inode.direct
    && node'.inode.indirect == node.inode.indirect
    && node'.inode.double == node'.l2 == t2 && node'.l1 == t1
    && (if node.nblks > L1_NBLKS then t2 == node.inode.double else t2 !in tables)
    && (if r > 0 then t1 == At(tables, t2, q) else t1 !in tables)
    && TableIs(tables', role', t2, Double(f)) && TableIs(tables', role', t1, Inner(f, q))
    && (forall x, k | TableIs(tables, role, x, k) :: TableIs(tables', role', x, k))
    && (forall x, i :: At(tables', x, i)
                    == if x == t1 && i == r then b else if x == t2 && i == q then t1 else At(tables, x, i))
  }

  lemma GrownShape(f: nat, node: CacheInode, node': CacheInode, tables: Tables, role: Roles, tables': Tables,
                   role': Roles,
                   t2: nat, q: nat, t1: nat, r: nat, b: nat)
    requires Shape(f, node, tables, role)
    requires Grown(f, node, node', tables, role, tables', role', t2, q, t1, r, b)
    ensures Shape(f, node', tables', role')
  {
    assert t1 != t2;
    hide TableIs;
    Slots(node.nblks, q, r, q);
    assert At(tables', t2, q) == t1;
    forall q' | 0 <= q' < NENTRY ensures InnerOk(f, node', tables', role', q') {
      Slots(node.nblks, q, r, q');
      assert InnerOk(f, node, tables, role, q');
      assert q' != q ==> At(tables', t2, q') == At(tables, t2, q');
    }
  }

  lemma GrownFound(f: nat, node: CacheInode, node': CacheInode, tables: Tables, role: Roles, tables': Tables,
                   role': Roles,
                   blocks: seq<nat>, t2: nat, q: nat, t1: nat, r: nat, b: nat)
    requires Shape(f, node, tables, role) && Found(node.inode, tables, blocks) && |blocks| == node.nblks && 0 !in tables
    requires Grown(f, node, node', tables, role, tables', role', t2, q, t1, r, b)
    ensures Found(node'.inode, tables', blocks + [b])
  {
    Slots(node.nblks, q, r, q);
    forall j | 0 <= j < |blocks + [b]| ensures Lookup(node'.inode, tables', j) == (blocks + [b])[j] {
      if j < |blocks| {
        assert Lookup(node.inode, tables, j) == blocks[j];
        if j >= L1_NBLKS {
          var q', r' := (j - L1_NBLKS) / NENTRY, (j - L1_NBLKS) % NENTRY;
          GrownInner(f, node, node', tables, role, tables', role', t2, q, t1, r, b, j, q', r');
        }
      }
    }
  }

  /** A block below the table of tables is found where it was. */
  lemma GrownInner(f: nat, node: CacheInode, node': CacheInode, tables: Tables, role: Roles, tables': Tables,
                   role': Roles,
                   t2: nat, q: nat, t1: nat, r: nat, b: nat, j: nat, q': nat, r': nat)
    requires Shape(f, node, tables, role) && 0 !in tables
    requires Grown(f, node, node', tables, role, tables', role', t2, q, t1, r, b)
    requires L1_NBLKS <= j < node.nblks && q' == (j - L1_NBLKS) / NENTRY && r' == (j - L1_NBLKS) % NENTRY
    ensures At(tables', At(tables', node'.inode.double, q'), r') == At(tables, At(tables, node.inode.double, q'), r')
  {
    Slots(node.nblks, q, r, q');
    Slots(j, q', r', q');
    assert InnerOk(f, node, tables, role, q');
    assert q' < q || (q' == q && r' < r);
  }

  lemma DoubleKeeps(f: nat, node: CacheInode, tables: Tables, role: Roles, tables1: Tables, role1: Roles,
                    tables2: Tables, role2: Roles, blocks: seq<nat>, t2: nat, t1: nat, b: nat, size: nat)
    requires MapOk(f, node, tables, role, blocks)
    requires Opened(f, node, tables, role, tables1, role1, tables2, role2, t2, t1)
    ensures var q, r := (node.nblks - L1_NBLKS) / NENTRY, (node.nblks - L1_NBLKS) % NENTRY;
            && TableIs(tables2, role2, t2, Double(f)) && TableIs(tables2, role2, t1, Inner(f, q)) && q < NENTRY
            && r < NENTRY
            && MapOk(f, Counted(WithDouble(node, t2, t1), size), Entered(tables2, t2, q, t1, r, b), role2,
                     blocks + [b])
  {
    var n := node.nblks;
    var q, r := (n - L1_NBLKS) / NENTRY, (n - L1_NBLKS) % NENTRY;
    Slots(n, q, r, q);
    OpenedTables(f, node, tables, role, tables1, role1, tables2, role2, t2, t1);
    var tables3, node' := Entered(tables2, t2, q, t1, r, b), Counted(WithDouble(node, t2, t1), size);
    EnteredAt(tables2, role2, f, t2, q, t1, r, b);
    assert Grown(f, node, node', tables, role, tables3, role2, t2, q, t1, r, b) by {
      assert InnerOk(f, node, tables, role, q);
    }
    hide Entered, Ready, Opened, Grown;
    GrownShape(f, node, node', tables, role, tables3, role2, t2, q, t1, r, b);
    GrownFound(f, node, node', tables, role, tables3, role2, blocks, t2, q, t1, r, b);
  }

  // ---------- Other files ----------

  /** The tables of file g are the same. */
  ghost predicate SameTables(g: nat, tables: Tables, role: Roles, tables': Tables, role': Roles) {
    && 0 !in tables'
    && forall x, k | TableIs(tables, role, x, k) && IsTable(k) && k.file == g ::
         TableIs(tables', role', x, k) && tables'[x] == tables[x]
  }

  lemma MapKept(g: nat, node: CacheInode, tables: Tables, role: Roles, tables': Tables, role': Roles, blocks: seq<nat>)
    requires MapOk(g, node, tables, role, blocks) && 0 !in tables && SameTables(g, tables, role, tables', role')
    ensures MapOk(g, node, tables', role', blocks)
  {
    forall q | 0 <= q < NENTRY ensures InnerOk(g, node, tables', role', q) {
      assert InnerOk(g, node, tables, role, q);
      assert At(tables', node.inode.double, q) == At(tables, node.inode.double, q);
    }
    forall j | 0 <= j < |blocks| ensures Lookup(node.inode, tables', j) == blocks[j] {
      assert Lookup(node.inode, tables, j) == blocks[j];
      if j >= L1_NBLKS {
        var q, r := (j - L1_NBLKS) / NENTRY, (j - L1_NBLKS) % NENTRY;
        Slots(j, q, r, q);
        assert InnerOk(g, node, tables, role, q);
      }
    }
  }
}
