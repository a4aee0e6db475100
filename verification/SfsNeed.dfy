/** What building an image takes (lab8/tools/mksfs.c): how many blocks a tree needs, and what in it stops the
    builder. Both depend on the host numbers that are known already. */
module SfsNeed {
  import opened SfsBlockMap
  import opened SfsImage
  import opened SfsTree
  import opened Wrappers

  /** The host numbers of what is kept of the entries, wherever below. */
  function Numbers(es: seq<Entry>): set<nat>
    decreases es
  {
    if es == [] then {} else Numbers(es[..|es| - 1]) + NumbersIn(es[|es| - 1])
  }

  function NumbersIn(e: Entry): set<nat>
    decreases e
  {
    if !Keeps(e) then {}
    else match e.node
      case HostDir(r, es) => {r} + Numbers(es)
      case HostFile(r) => {r}
      case HostLink(r, _) => {r}
      case HostOther => {}
  }

  // ---------- Blocks ----------

  /** The blocks everything below the entries needs, but not the directory they are entries of. */
  function Need(es: seq<Entry>, content: HostFiles, known: set<nat>): nat
    decreases es, 0
  {
    if es == [] then 0
    else
      var before := es[..|es| - 1];
      Need(before, content, known) + NeedIn(es[|es| - 1], content, known + Numbers(before))
  }

  /** Files are stored once for all their names, symbolic links once for each. */
  function NeedIn(e: Entry, content: HostFiles, known: set<nat>): nat
    decreases e, 0
  {
    if !Keeps(e) then 0
    else match e.node
      case HostDir(r, es) => 1 + DirNeed(es, content, known + {r})
      case HostFile(r) => if r in known || r !in content then 0 else 1 + Occupied(|content[r]|)
      case HostLink(_, _) => 2
      case HostOther => 0
  }

  /** A directory has a block for each entry, the two self references included. */
  function DirNeed(es: seq<Entry>, content: HostFiles, known: set<nat>): nat
    decreases es, 1
  {
    Occupied(2 + |Keep(es)|) + Need(es, content, known)
  }

  // ---------- Trouble ----------

  /** Something below stops the builder in the given way. */
  predicate Trouble(es: seq<Entry>, content: HostFiles, known: set<nat>, o: Outcome)
    decreases es, 0
  {
    es != [] &&
    var before := es[..|es| - 1];
    Trouble(before, content, known, o) || TroubleIn(es[|es| - 1], content, known + Numbers(before), o)
  }

  /** A directory must not have a number that was seen before; it is known below itself. */
  predicate TroubleIn(e: Entry, content: HostFiles, known: set<nat>, o: Outcome)
    decreases e, 0
  {
    !Hidden(e.name) &&
    ((o.NameTooLong? && |e.name| > SFS_MAX_FNAME_LEN) ||
     match e.node
     case HostDir(r, es) => (o.SeenTwice? && r in known) || DirTrouble(es, content, known + {r}, o)
     case HostFile(r) =>
       r in content && ((o.BadRead? && !Readable(content[r])) || (o.FileTooBig? && |content[r]| > LN_NBLKS))
     case HostLink(_, target) => o.BadLink? && (target.None? || |target.value| >= SFS_BLKSIZE)
     case HostOther => false)
  }

  predicate DirTrouble(es: seq<Entry>, content: HostFiles, known: set<nat>, o: Outcome)
    decreases es, 1
  {
    Trouble(es, content, known, o) || (o.FileTooBig? && 2 + |Keep(es)| > LN_NBLKS)
  }

  ghost predicate CleanIn(e: Entry, content: HostFiles, known: set<nat>) {
    forall o :: !TroubleIn(e, content, known, o)
  }

  /** Nothing stops the builder but want of space. */
  ghost predicate CleanDir(es: seq<Entry>, content: HostFiles, known: set<nat>) {
    forall o :: !DirTrouble(es, content, known, o)
  }

  // ---------- Prefixes ----------

  lemma {:induction false} TroubleAt(es: seq<Entry>, content: HostFiles, known: set<nat>, o: Outcome, k: nat)
    requires k < |es| && TroubleIn(es[k], content, known + Numbers(es[..k]), o)
    ensures Trouble(es, content, known, o)
    decreases |es|
  {
    hide TroubleIn, Numbers;
    if k < |es| - 1 {
      assert es[..|es| - 1][..k] == es[..k];
      TroubleAt(es[..|es| - 1], content, known, o, k);
    }
  }

  lemma {:induction false} NeedPrefix(es: seq<Entry>, content: HostFiles, known: set<nat>, k: nat)
    requires k <= |es|
    ensures Need(es[..k], content, known) <= Need(es, content, known)
    decreases |es|
  {
    hide NeedIn, Numbers;
    if k == |es| {
      assert es[..k] == es;
    } else {
      assert es[..|es| - 1][..k] == es[..k];
      NeedPrefix(es[..|es| - 1], content, known, k);
    }
  }

  lemma DirNeedPrefix(es: seq<Entry>, content: HostFiles, known: set<nat>, k: nat)
    requires k <= |es|
    ensures DirNeed(es[..k], content, known) <= DirNeed(es, content, known)
  {
    hide Need, Occupied, Keep;
    NeedPrefix(es, content, known, k);
    KeepPrefix(es, k);
    OccupiedMore(2 + |Keep(es[..k])|, 2 + |Keep(es)|);
  }

  lemma NeedSnoc(p: seq<Entry>, e: Entry, content: HostFiles, known: set<nat>)
    ensures Numbers(p + [e]) == Numbers(p) + NumbersIn(e)
    ensures Keep(p + [e]) == Keep(p) + if Keeps(e) then [e] else []
    ensures Need(p + [e], content, known) == Need(p, content, known) + NeedIn(e, content, known + Numbers(p))
    ensures forall o :: Trouble(p + [e], content, known, o)
                   <==> Trouble(p, content, known, o) || TroubleIn(e, content, known + Numbers(p), o)
  {
    Snoc(p, e);
    hide NeedIn, TroubleIn, NumbersIn, Keeps;
  }

  // ---------- What a step has used ----------

  ghost function KnownHosts(s: State): set<nat> {
    set i | i in s.inodes :: s.inodes[i].hostIno
  }

  lemma NotAmong(s: State, r: nat)
    requires forall i | i in s.inodes :: s.inodes[i].hostIno != r
    ensures r !in KnownHosts(s)
  {
  }

  lemma Among(s: State, i: nat)
    requires i in s.inodes
    ensures s.inodes[i].hostIno in KnownHosts(s)
  {
  }

  lemma SameKnown(s: State, s': State, f: nat)
    requires Grew(s, s', f) && s'.inodes.Keys == s.inodes.Keys
    ensures KnownHosts(s') == KnownHosts(s)
  {
    var a, b := s.inodes, s'.inodes;
    assert forall i | i in a :: i in b && SameThing(a[i], b[i]);
    hide Grew;
  }

  lemma MadeKnown(s0: State, s1: State, f: nat, kind: Kind, r: nat)
    requires Made(s0, s1, f, kind, r)
    ensures KnownHosts(s1) == KnownHosts(s0) + {r} && s1.nextIno == s0.nextIno + 1
  {
    var a, b := s0.inodes, s1.inodes;
    assert b == a[f := EmptyInode(kind, r)];
    hide *;
    OneMoreHost(s0, s1, f, EmptyInode(kind, r));
    EmptyHost(kind, r);
  }

  lemma EmptyHost(kind: Kind, r: nat)
    ensures EmptyInode(kind, r).hostIno == r
  {
  }

  lemma OneMoreHost(s0: State, s1: State, f: nat, ci: CacheInode)
    requires s1.inodes == s0.inodes[f := ci] && f !in s0.inodes
    ensures KnownHosts(s1) == KnownHosts(s0) + {ci.hostIno}
  {
    assert s1.inodes[f].hostIno == ci.hostIno;
    forall i | i in s0.inodes ensures s1.inodes[i] == s0.inodes[i] {
    }
  }

  /** What an entry takes besides its object: a block of the directory, which has n already. */
  function EntryNeed(e: Entry, n: nat): nat {
    if Keeps(e) then 1 + NewTables(n) else 0
  }

  /** The object of entry e has been made, at its price. */
  ghost predicate Paid(s0: State, s: State, content: HostFiles, e: Entry) {
    && KnownHosts(s) == KnownHosts(s0) + NumbersIn(e)
    && s.nextIno == s0.nextIno + NeedIn(e, content, KnownHosts(s0)) && CleanIn(e, content, KnownHosts(s0))
  }

  /** Entry e has been added to a directory of n entries. */
  ghost predicate Spent(s0: State, s: State, content: HostFiles, e: Entry, n: nat) {
    && KnownHosts(s) == KnownHosts(s0) + NumbersIn(e)
    && s.nextIno == s0.nextIno + NeedIn(e, content, KnownHosts(s0)) + EntryNeed(e, n)
    && CleanIn(e, content, KnownHosts(s0))
  }

  /** There is not enough left for entry e. */
  ghost predicate Lacks(ninos: nat, s: State, content: HostFiles, e: Entry, n: nat) {
    s.nextIno + NeedIn(e, content, KnownHosts(s)) + EntryNeed(e, n) > ninos
  }

  /** All of the entries have been added to an empty directory. */
  ghost predicate DirSpent(s0: State, s: State, content: HostFiles, es: seq<Entry>) {
    && KnownHosts(s) == KnownHosts(s0) + Numbers(es)
    && s.nextIno == s0.nextIno + DirNeed(es, content, KnownHosts(s0))
    && forall o :: !Trouble(es, content, KnownHosts(s0), o)
  }

  lemma DirSpentNone(s0: State, s: State, content: HostFiles)
    requires KnownHosts(s) == KnownHosts(s0) && s.nextIno == s0.nextIno + 2
    ensures DirSpent(s0, s, content, [])
  {
  }

  lemma DirSpentStep(s0: State, s: State, s': State, content: HostFiles, p: seq<Entry>, e: Entry)
    requires DirSpent(s0, s, content, p) && Spent(s, s', content, e, 2 + |Keep(p)|)
    ensures DirSpent(s0, s', content, p + [e])
  {
    hide KnownHosts, NeedIn, Need, Trouble, TroubleIn, NumbersIn, Numbers, Keep, Keeps, Occupied, NewTables;
    var known, n := KnownHosts(s0), 2 + |Keep(p)|;
    NeedSnoc(p, e, content, known);
    OccupiedStep(n);
    forall o ensures !Trouble(p + [e], content, known, o) {
      assert !TroubleIn(e, content, KnownHosts(s), o);
    }
  }

  lemma Skipped(s: State, content: HostFiles, e: Entry, n: nat)
    requires !Keeps(e) && (!Hidden(e.name) ==> |e.name| <= SFS_MAX_FNAME_LEN)
    ensures Spent(s, s, content, e, n)
  {
    hide KnownHosts;
  }

  lemma DirLacks(ninos: nat, s0: State, s: State, content: HostFiles, es: seq<Entry>, k: nat)
    requires k < |es| && DirSpent(s0, s, content, es[..k]) && Lacks(ninos, s, content, es[k], 2 + |Keep(es[..k])|)
    ensures s0.nextIno + DirNeed(es, content, KnownHosts(s0)) > ninos
  {
    hide KnownHosts, NeedIn, Need, Trouble, TroubleIn, NumbersIn, Numbers, Keep, Keeps, Occupied, NewTables;
    var known, p, e := KnownHosts(s0), es[..k], es[k];
    NeedSnoc(p, e, content, known);
    OccupiedStep(2 + |Keep(p)|);
    assert p + [e] == es[..k + 1];
    DirNeedPrefix(es, content, known, k + 1);
  }

  lemma DirStopped(s0: State, s: State, content: HostFiles, es: seq<Entry>, o: Outcome, k: nat)
    requires k < |es| && DirSpent(s0, s, content, es[..k]) && TroubleIn(es[k], content, KnownHosts(s), o)
    ensures DirTrouble(es, content, KnownHosts(s0), o)
  {
    hide KnownHosts, Need, Trouble, TroubleIn, Numbers, Keep;
    TroubleAt(es, content, KnownHosts(s0), o, k);
  }

  lemma DirTooBig(es: seq<Entry>, content: HostFiles, known: set<nat>, o: Outcome)
    requires o.FileTooBig? && 2 + |Keep(es)| > LN_NBLKS
    ensures DirTrouble(es, content, known, o)
  {
    hide Trouble, Keep;
  }

  lemma DirClean(s0: State, s: State, content: HostFiles, es: seq<Entry>)
    requires DirSpent(s0, s, content, es) && 2 + |Keep(es)| <= LN_NBLKS
    ensures CleanDir(es, content, KnownHosts(s0))
  {
    hide KnownHosts, DirNeed, Trouble, Keep;
    forall o ensures !DirTrouble(es, content, KnownHosts(s0), o) {
      assert !Trouble(es, content, KnownHosts(s0), o);
    }
  }

  lemma NoSelf(es: seq<Entry>, content: HostFiles, known: set<nat>)
    ensures DirNeed(es, content, known) >= 2
  {
    hide Need, Keep;
  }

  lemma RootKnown(s: State)
    requires JustRoot(s)
    ensures KnownHosts(s) == {0}
  {
    assert s.inodes[SFS_BLKN_ROOT].hostIno == 0;
  }

  // ---------- The objects of the entries ----------

  lemma FileStopped(e: Entry, content: HostFiles, known: set<nat>, o: Outcome)
    requires Keeps(e) && e.node.HostFile? && e.node.ino in content
    ensures o.BadRead? && !Readable(content[e.node.ino]) ==> TroubleIn(e, content, known, o)
    ensures o.FileTooBig? && |content[e.node.ino]| > LN_NBLKS ==> TroubleIn(e, content, known, o)
  {
    hide Readable;
  }

  lemma LinkStopped(e: Entry, content: HostFiles, known: set<nat>, o: Outcome)
    requires Keeps(e) && e.node.HostLink?
    ensures o.BadLink? && (e.node.target.None? || |e.node.target.value| >= SFS_BLKSIZE) ==>
              TroubleIn(e, content, known, o)
  {
  }

  lemma DirSeen(e: Entry, content: HostFiles, known: set<nat>)
    requires Keeps(e) && e.node.HostDir? && e.node.ino in known
    ensures TroubleIn(e, content, known, SeenTwice)
  {
    hide DirTrouble;
  }

  lemma Named(s0: State, s: State, s': State, content: HostFiles, e: Entry, n: nat)
    requires Paid(s0, s, content, e) && Keeps(e) && KnownHosts(s') == KnownHosts(s)
    requires s'.nextIno == s.nextIno + 1 + NewTables(n)
    ensures Spent(s0, s', content, e, n)
  {
    hide KnownHosts, NeedIn, CleanIn, NumbersIn, NewTables;
  }

  lemma NotNamed(ninos: nat, s0: State, s: State, content: HostFiles, e: Entry, n: nat)
    requires Paid(s0, s, content, e) && Keeps(e) && s.nextIno + 1 + NewTables(n) > ninos
    ensures Lacks(ninos, s0, content, e, n)
  {
    hide KnownHosts, NeedIn, CleanIn, NumbersIn, NewTables;
  }

  /** A file that is known already is not stored again. */
  lemma KnownPaid(s: State, content: HostFiles, e: Entry, f: nat)
    requires Keeps(e) && e.node.HostFile? && |e.name| <= SFS_MAX_FNAME_LEN
    requires f in s.inodes && s.inodes[f].hostIno == e.node.ino
    requires e.node.ino in content && Readable(content[e.node.ino]) && |content[e.node.ino]| <= LN_NBLKS
    ensures Paid(s, s, content, e)
  {
    Among(s, f);
    hide KnownHosts, Readable;
  }

  lemma FilePaid(s0: State, s1: State, s: State, content: HostFiles, e: Entry, f: nat)
    requires Keeps(e) && e.node.HostFile? && |e.name| <= SFS_MAX_FNAME_LEN
    requires Made(s0, s1, f, FileKind, e.node.ino) && e.node.ino !in KnownHosts(s0)
    requires e.node.ino in content && Readable(content[e.node.ino]) && |content[e.node.ino]| <= LN_NBLKS
    requires KnownHosts(s) == KnownHosts(s1) && s.nextIno == s1.nextIno + Occupied(|content[e.node.ino]|)
    ensures Paid(s0, s, content, e)
  {
    hide KnownHosts, Readable, Occupied, Made;
    MadeKnown(s0, s1, f, FileKind, e.node.ino);
  }

  lemma FileLacks(ninos: nat, s0: State, s1: State, content: HostFiles, e: Entry, f: nat, n: nat)
    requires Keeps(e) && e.node.HostFile? && Made(s0, s1, f, FileKind, e.node.ino) && e.node.ino !in KnownHosts(s0)
    requires e.node.ino in content && s1.nextIno + Occupied(|content[e.node.ino]|) > ninos
    ensures Lacks(ninos, s0, content, e, n)
  {
    hide KnownHosts, Occupied, Made, NewTables;
    MadeKnown(s0, s1, f, FileKind, e.node.ino);
  }

  lemma LinkPaid(s0: State, s1: State, s: State, content: HostFiles, e: Entry, f: nat)
    requires Keeps(e) && e.node.HostLink? && |e.name| <= SFS_MAX_FNAME_LEN
    requires Made(s0, s1, f, LinkKind, e.node.ino)
    requires e.node.target.Some? && |e.node.target.value| < SFS_BLKSIZE
    requires KnownHosts(s) == KnownHosts(s1) && s.nextIno == s1.nextIno + 1
    ensures Paid(s0, s, content, e)
  {
    hide KnownHosts, Made;
    MadeKnown(s0, s1, f, LinkKind, e.node.ino);
  }

  lemma LinkLacks(ninos: nat, s0: State, s1: State, content: HostFiles, e: Entry, f: nat, n: nat)
    requires Keeps(e) && e.node.HostLink? && Made(s0, s1, f, LinkKind, e.node.ino) && s1.nextIno + 1 > ninos
    ensures Lacks(ninos, s0, content, e, n)
  {
    hide KnownHosts, Made, NewTables;
    MadeKnown(s0, s1, f, LinkKind, e.node.ino);
  }

  lemma DirPaid(s0: State, s1: State, s: State, content: HostFiles, e: Entry, c: nat)
    requires Keeps(e) && e.node.HostDir? && |e.name| <= SFS_MAX_FNAME_LEN
    requires Made(s0, s1, c, DirKind, e.node.ino) && e.node.ino !in KnownHosts(s0)
    requires DirSpent(s1, s, content, e.node.entries) && CleanDir(e.node.entries, content, KnownHosts(s1))
    ensures Paid(s0, s, content, e)
  {
    hide KnownHosts, Made, Numbers, DirNeed, Trouble, DirTrouble;
    MadeKnown(s0, s1, c, DirKind, e.node.ino);
    forall o ensures !TroubleIn(e, content, KnownHosts(s0), o) {
      assert !DirTrouble(e.node.entries, content, KnownHosts(s1), o);
    }
  }

  lemma DirLacksIn(ninos: nat, s0: State, s1: State, content: HostFiles, e: Entry, c: nat, n: nat)
    requires Keeps(e) && e.node.HostDir? && Made(s0, s1, c, DirKind, e.node.ino)
    requires s1.nextIno + DirNeed(e.node.entries, content, KnownHosts(s1)) > ninos
    ensures Lacks(ninos, s0, content, e, n)
  {
    hide KnownHosts, Made, DirNeed, NewTables;
    MadeKnown(s0, s1, c, DirKind, e.node.ino);
  }

  lemma DirStoppedIn(s0: State, s1: State, content: HostFiles, e: Entry, c: nat, o: Outcome)
    requires Keeps(e) && e.node.HostDir? && Made(s0, s1, c, DirKind, e.node.ino)
    requires DirTrouble(e.node.entries, content, KnownHosts(s1), o)
    ensures TroubleIn(e, content, KnownHosts(s0), o)
  {
    hide KnownHosts, Made, DirTrouble;
    MadeKnown(s0, s1, c, DirKind, e.node.ino);
  }

  /** No block is left for a new inode. */
  lemma NoneLeft(ninos: nat, s: State, content: HostFiles, e: Entry, n: nat)
    requires Keeps(e) && s.nextIno == ninos && e.node.ino !in KnownHosts(s)
    ensures Lacks(ninos, s, content, e, n)
  {
    hide KnownHosts, DirNeed, Occupied, NewTables;
  }

  lemma NoLinkLeft(ninos: nat, s: State, content: HostFiles, e: Entry, n: nat)
    requires Keeps(e) && e.node.HostLink? && s.nextIno == ninos
    ensures Lacks(ninos, s, content, e, n)
  {
    hide KnownHosts, NewTables;
  }
}
