/** The directory tree an image is built from, and what the image must say about it (lab8/tools/mksfs.c). */
module SfsTree {
  import opened SfsBlockMap
  import opened SfsImage
  import SfsFreeMap
  import opened Wrappers

  /** What a read gives before the end of the file: at least one byte. */
  type Bytes = s: seq<bv8> | |s| >= 1 witness [0]

  /** One read of a host file that does not find its end: up to a block of data, or an error. */
  datatype Read = Chunk(data: Bytes) | Error

  /** An object of the host file system. What a file holds is found under its inode number, which hard links share. */
  datatype Host =
    | HostDir(ino: nat, entries: seq<Entry>)
    | HostFile(ino: nat)
    | HostLink(ino: nat, target: Option<seq<bv8>>)
    | HostOther                            // a kind the image does not know

  datatype Entry = Entry(name: string, node: Host)

  type HostFiles = map<nat, seq<Read>>

  /** Dot files, the two self references among them. */
  predicate Hidden(name: string) {
    |name| > 0 && name[0] == '.'
  }

  predicate Keeps(e: Entry) {
    !Hidden(e.name) && !e.node.HostOther?
  }

  function Keep(es: seq<Entry>): seq<Entry> {
    if es == [] then [] else Keep(es[..|es| - 1]) + if Keeps(es[|es| - 1]) then [es[|es| - 1]] else []
  }

  // ---------- Counting names ----------

  /** The directories among the entries. */
  function Subdirs(es: seq<Entry>): nat {
    if es == [] then 0
    else Subdirs(es[..|es| - 1]) + if Keeps(es[|es| - 1]) && es[|es| - 1].node.HostDir? then 1 else 0
  }

  /** How many names regular file r has anywhere below. */
  function Names(es: seq<Entry>, r: nat): nat
    decreases es
  {
    if es == [] then 0 else Names(es[..|es| - 1], r) + NamesIn(es[|es| - 1], r)
  }

  function NamesIn(e: Entry, r: nat): nat
    decreases e
  {
    if !Keeps(e) then 0
    else match e.node
      case HostFile(q) => if q == r then 1 else 0
      case HostDir(_, es) => Names(es, r)
      case _ => 0
  }

  predicate HasDir(es: seq<Entry>, r: nat)
    decreases es
  {
    es != [] && (HasDir(es[..|es| - 1], r) || HasDirIn(es[|es| - 1], r))
  }

  predicate HasDirIn(e: Entry, r: nat)
    decreases e
  {
    Keeps(e) && e.node.HostDir? && (e.node.ino == r || HasDir(e.node.entries, r))
  }

  /** How many directories directory r has, wherever below it is. */
  function SubdirsOf(es: seq<Entry>, r: nat): nat
    decreases es
  {
    if es == [] then 0 else SubdirsOf(es[..|es| - 1], r) + SubdirsOfIn(es[|es| - 1], r)
  }

  function SubdirsOfIn(e: Entry, r: nat): nat
    decreases e
  {
    if Keeps(e) && e.node.HostDir?
    then (if e.node.ino == r then Subdirs(e.node.entries) else 0) + SubdirsOf(e.node.entries, r)
    else 0
  }

  lemma {:induction false} NoDirNoSubdirs(es: seq<Entry>, r: nat)
    requires !HasDir(es, r)
    ensures SubdirsOf(es, r) == 0
    decreases es
  {
    if es != [] {
      NoDirNoSubdirs(es[..|es| - 1], r);
      NoDirNoSubdirsIn(es[|es| - 1], r);
    }
  }

  lemma {:induction false} NoDirNoSubdirsIn(e: Entry, r: nat)
    requires !HasDirIn(e, r)
    ensures SubdirsOfIn(e, r) == 0
    decreases e
  {
    if Keeps(e) && e.node.HostDir? {
      NoDirNoSubdirs(e.node.entries, r);
    }
  }

  // ---------- Link counts ----------

  ghost predicate Known(v: map<nat, Obj>, kind: Kind, r: nat) {
    exists i :: i in v && v[i].kind == kind && v[i].hostIno == r
  }

  /** Links an object that was there gains while the entries of directory cur are added. */
  function Gain(o: Obj, isCur: bool, es: seq<Entry>): nat {
    (if isCur then Subdirs(es) else 0) + (if o.kind.FileKind? then Names(es, o.hostIno) else 0)
  }

  /** The link count of an object that was not there. */
  ghost predicate NewOk(o: Obj, es: seq<Entry>) {
    match o.kind
    case FileKind => o.links == Names(es, o.hostIno) > 0
    case DirKind => HasDir(es, o.hostIno) && o.links == 2 + SubdirsOf(es, o.hostIno)
    case LinkKind => o.links == 1
  }

  ghost predicate OldOk(v: map<nat, Obj>, v': map<nat, Obj>, cur: nat, es: seq<Entry>, i: nat) {
    i in v ==> i in v' && v'[i].kind == v[i].kind && v'[i].hostIno == v[i].hostIno
               && v'[i].links == v[i].links + Gain(v[i], i == cur, es)
  }

  /** A directory below appears once, and was not known before in any form. */
  ghost predicate DirOnce(v: map<nat, Obj>, v': map<nat, Obj>, es: seq<Entry>, r: nat) {
    HasDir(es, r) ==> Known(v', DirKind, r) && forall i | i in v :: v[i].hostIno != r
  }

  ghost predicate OneDir(v: map<nat, Obj>, v': map<nat, Obj>) {
    forall i, j | i in v' && j in v' && i !in v && j !in v && v'[i].kind.DirKind? && v'[j].kind.DirKind?
                  && v'[i].hostIno == v'[j].hostIno :: i == j
  }

  /** What adding the entries of directory cur does to the objects. */
  ghost predicate Effect(v: map<nat, Obj>, v': map<nat, Obj>, cur: nat, es: seq<Entry>) {
    && (forall i :: OldOk(v, v', cur, es, i))
    && (forall i | i in v' && i !in v :: NewOk(v'[i], es))
    && (forall r :: DirOnce(v, v', es, r)) && OneDir(v, v')
    && (forall r | Names(es, r) > 0 :: Known(v', FileKind, r))
  }

  /** Regular files are the objects whose host number has contents, one object for each. */
  ghost predicate Sorted(v: map<nat, Obj>, content: HostFiles) {
    && (forall i | i in v :: v[i].kind.FileKind? <==> v[i].hostIno in content)
    && (forall i, j | i in v && j in v && v[i].kind.FileKind? && v[j].kind.FileKind?
                      && v[i].hostIno == v[j].hostIno :: i == j)
  }

  lemma EffectNone(v: map<nat, Obj>, cur: nat)
    ensures Effect(v, v, cur, [])
  {
  }

  lemma Snoc(es: seq<Entry>, e: Entry)
    ensures (es + [e])[..|es + [e]| - 1] == es && (es + [e])[|es + [e]| - 1] == e
  {
  }

  /** Objects and kinds are kept; links aside, v' is v with perhaps one more object. */
  ghost predicate Extends(v: map<nat, Obj>, v': map<nat, Obj>) {
    forall i | i in v :: i in v' && v'[i].kind == v[i].kind && v'[i].hostIno == v[i].hostIno
  }

  lemma KnownKept(v: map<nat, Obj>, v': map<nat, Obj>, kind: Kind, r: nat)
    requires Known(v, kind, r) && Extends(v, v')
    ensures Known(v', kind, r)
  {
    var i :| i in v && v[i].kind == kind && v[i].hostIno == r;
    assert i in v' && v'[i].kind == kind && v'[i].hostIno == r;
  }

  lemma EffectExtends(v: map<nat, Obj>, v': map<nat, Obj>, cur: nat, es: seq<Entry>)
    requires Effect(v, v', cur, es)
    ensures Extends(v, v')
  {
    forall i | i in v ensures i in v' && v'[i].kind == v[i].kind && v'[i].hostIno == v[i].hostIno {
      assert OldOk(v, v', cur, es, i);
    }
  }

  /** What adding one entry of directory cur does to the objects. */
  function GainIn(o: Obj, isCur: bool, e: Entry): nat {
    (if isCur && Keeps(e) && e.node.HostDir? then 1 else 0) + (if o.kind.FileKind? then NamesIn(e, o.hostIno) else 0)
  }

  ghost predicate NewOkIn(o: Obj, e: Entry) {
    match o.kind
    case FileKind => o.links == NamesIn(e, o.hostIno) > 0
    case DirKind => HasDirIn(e, o.hostIno) && o.links == 2 + SubdirsOfIn(e, o.hostIno)
    case LinkKind => o.links == 1
  }

  ghost predicate OldOkIn(v: map<nat, Obj>, v': map<nat, Obj>, cur: nat, e: Entry, i: nat) {
    i in v ==> i in v' && v'[i].kind == v[i].kind && v'[i].hostIno == v[i].hostIno
               && v'[i].links == v[i].links + GainIn(v[i], i == cur, e)
  }

  ghost predicate DirOnceIn(v: map<nat, Obj>, v': map<nat, Obj>, e: Entry, r: nat) {
    HasDirIn(e, r) ==> Known(v', DirKind, r) && forall i | i in v :: v[i].hostIno != r
  }

  ghost predicate EffectIn(v: map<nat, Obj>, v': map<nat, Obj>, cur: nat, e: Entry) {
    && (forall i :: OldOkIn(v, v', cur, e, i))
    && (forall i | i in v' && i !in v :: NewOkIn(v'[i], e))
    && (forall r :: DirOnceIn(v, v', e, r)) && OneDir(v, v')
    && (forall r | NamesIn(e, r) > 0 :: Known(v', FileKind, r))
  }

  lemma ExtendsIn(v: map<nat, Obj>, v': map<nat, Obj>, cur: nat, e: Entry)
    requires EffectIn(v, v', cur, e)
    ensures Extends(v, v')
  {
    forall i | i in v ensures i in v' && v'[i].kind == v[i].kind && v'[i].hostIno == v[i].hostIno {
      assert OldOkIn(v, v', cur, e, i);
    }
  }

  lemma NewStays(v0: map<nat, Obj>, v: map<nat, Obj>, v': map<nat, Obj>, cur: nat, es: seq<Entry>, e: Entry, i: nat)
    requires Effect(v0, v, cur, es) && EffectIn(v, v', cur, e) && cur in v0
    requires i in v && i !in v0
    ensures i in v' && NewOk(v'[i], es + [e])
  {
    var q := v[i].hostIno;
    assert NewOk(v[i], es) && OldOkIn(v, v', cur, e, i);
    SnocAt(es, e, q);
    if v[i].kind.DirKind? {
      assert DirOnceIn(v, v', e, q);
      assert !HasDirIn(e, q);
      NoDirNoSubdirsIn(e, q);
    }
  }

  lemma NewComes(v0: map<nat, Obj>, v: map<nat, Obj>, v': map<nat, Obj>, cur: nat, es: seq<Entry>, e: Entry,
                 content: HostFiles, i: nat)
    requires Effect(v0, v, cur, es) && EffectIn(v, v', cur, e) && Sorted(v', content)
    requires i in v' && i !in v
    ensures NewOk(v'[i], es + [e])
  {
    var q := v'[i].hostIno;
    assert NewOkIn(v'[i], e);
    SnocAt(es, e, q);
    if v'[i].kind.FileKind? {
      FileWasThere(v, v', cur, e, content, i);
    } else if v'[i].kind.DirKind? {
      assert DirOnceIn(v, v', e, q) && DirOnce(v0, v, es, q);
      NoDirNoSubdirs(es, q);
    }
  }

  lemma FileWasThere(v: map<nat, Obj>, v': map<nat, Obj>, cur: nat, e: Entry, content: HostFiles, i: nat)
    requires EffectIn(v, v', cur, e) && Sorted(v', content) && i in v' && v'[i].kind.FileKind?
    ensures Known(v, FileKind, v'[i].hostIno) ==> i in v
  {
    if Known(v, FileKind, v'[i].hostIno) {
      var j :| j in v && v[j].kind == FileKind && v[j].hostIno == v'[i].hostIno;
      assert OldOkIn(v, v', cur, e, j);
    }
  }

  lemma SnocAt(es: seq<Entry>, e: Entry, r: nat)
    ensures Subdirs(es + [e]) == Subdirs(es) + if Keeps(e) && e.node.HostDir? then 1 else 0
    ensures Names(es + [e], r) == Names(es, r) + NamesIn(e, r)
    ensures HasDir(es + [e], r) <==> HasDir(es, r) || HasDirIn(e, r)
    ensures SubdirsOf(es + [e], r) == SubdirsOf(es, r) + SubdirsOfIn(e, r)
  {
    Snoc(es, e);
  }

  lemma OneDirTwice(v0: map<nat, Obj>, v: map<nat, Obj>, v': map<nat, Obj>, cur: nat, es: seq<Entry>, e: Entry)
    requires Effect(v0, v, cur, es) && EffectIn(v, v', cur, e)
    ensures OneDir(v0, v')
  {
    hide HasDir, HasDirIn, SubdirsOf, SubdirsOfIn, Names, NamesIn, Subdirs;
    EffectExtends(v0, v, cur, es);
    ExtendsIn(v, v', cur, e);
    forall i, j | i in v' && j in v' && i !in v0 && j !in v0 && v'[i].kind.DirKind? && v'[j].kind.DirKind?
                  && v'[i].hostIno == v'[j].hostIno ensures i == j
    {
      assert i !in v ==> NewOkIn(v'[i], e) && DirOnceIn(v, v', e, v'[i].hostIno);
      assert j !in v ==> NewOkIn(v'[j], e) && DirOnceIn(v, v', e, v'[j].hostIno);
      assert i in v ==> v[i].hostIno == v'[i].hostIno && v[i].kind == v'[i].kind;
      assert j in v ==> v[j].hostIno == v'[j].hostIno && v[j].kind == v'[j].kind;
    }
  }

  /** Entry after entry the effects add up. */
  lemma EffectSnoc(v0: map<nat, Obj>, v: map<nat, Obj>, v': map<nat, Obj>, cur: nat, es: seq<Entry>, e: Entry,
                   content: HostFiles)
    requires Effect(v0, v, cur, es) && EffectIn(v, v', cur, e) && cur in v0 && Sorted(v', content)
    ensures Effect(v0, v', cur, es + [e])
  {
    hide HasDir, HasDirIn, SubdirsOf, SubdirsOfIn, Names, NamesIn, Subdirs, NewOk, NewOkIn, Sorted, Keeps;
    var es' := es + [e];
    EffectExtends(v0, v, cur, es);
    ExtendsIn(v, v', cur, e);
    OneDirTwice(v0, v, v', cur, es, e);
    forall i ensures OldOk(v0, v', cur, es', i) {
      assert OldOk(v0, v, cur, es, i) && OldOkIn(v, v', cur, e, i);
      if i in v0 {
        SnocAt(es, e, v0[i].hostIno);
      }
    }
    forall i | i in v' && i !in v0 ensures NewOk(v'[i], es') {
      if i in v {
        NewStays(v0, v, v', cur, es, e, i);
      } else {
        NewComes(v0, v, v', cur, es, e, content, i);
      }
    }
    forall r ensures DirOnce(v0, v', es', r) {
      assert DirOnce(v0, v, es, r) && DirOnceIn(v, v', e, r);
      SnocAt(es, e, r);
      if HasDir(es, r) {
        KnownKept(v, v', DirKind, r);
      }
    }
    forall r | Names(es', r) > 0 ensures Known(v', FileKind, r) {
      SnocAt(es, e, r);
      if Names(es, r) > 0 {
        KnownKept(v, v', FileKind, r);
      }
    }
  }

  lemma SkipEffect(v: map<nat, Obj>, cur: nat, e: Entry)
    requires !Keeps(e)
    ensures EffectIn(v, v, cur, e)
  {
  }

  /** One more name for the regular file e, whose object f is there or has just been made. */
  lemma FileEffect(v: map<nat, Obj>, cur: nat, e: Entry, f: nat, content: HostFiles)
    requires Keeps(e) && e.node.HostFile? && Sorted(v, content) && e.node.ino in content
    requires if f in v then v[f].kind.FileKind? && v[f].hostIno == e.node.ino else !Known(v, FileKind, e.node.ino)
    ensures var v1 := if f in v then v else v[f := Obj(FileKind, e.node.ino, 0)];
            EffectIn(v, Linked(v1, f), cur, e) && Sorted(Linked(v1, f), content)
  {
    var v' := Linked(if f in v then v else v[f := Obj(FileKind, e.node.ino, 0)], f);
    assert f in v' && v'[f].kind == FileKind && v'[f].hostIno == e.node.ino;
  }

  /** A symbolic link gets an object of its own. */
  lemma LinkEffect(v: map<nat, Obj>, cur: nat, e: Entry, f: nat, content: HostFiles)
    requires Keeps(e) && e.node.HostLink? && Sorted(v, content) && e.node.ino !in content && f !in v
    ensures var v' := Linked(v[f := Obj(LinkKind, e.node.ino, 0)], f);
            EffectIn(v, v', cur, e) && Sorted(v', content)
  {
  }

  /** A directory c gets an object of its own, is listed in itself, lists cur as its parent, is filled, and is then
      listed in cur. */
  ghost function DirStart(v: map<nat, Obj>, cur: nat, c: nat, r: nat): map<nat, Obj>
    requires cur in v
  {
    Linked(Linked(v[c := Obj(DirKind, r, 0)], c), cur)
  }

  lemma InDir(e: Entry, q: nat)
    requires Keeps(e) && e.node.HostDir?
    ensures NamesIn(e, q) == Names(e.node.entries, q)
    ensures HasDirIn(e, q) <==> q == e.node.ino || HasDir(e.node.entries, q)
    ensures SubdirsOfIn(e, q) == (if q == e.node.ino then Subdirs(e.node.entries) else 0) + SubdirsOf(e.node.entries, q)
  {
  }

  /** The new directory itself, and that nothing below it is the same directory. */
  lemma DirItself(v: map<nat, Obj>, v3: map<nat, Obj>, cur: nat, c: nat, e: Entry)
    requires Keeps(e) && e.node.HostDir? && cur in v && c !in v
    requires Effect(DirStart(v, cur, c, e.node.ino), v3, c, e.node.entries)
    ensures c in v3 && v3[c].kind.DirKind? && v3[c].hostIno == e.node.ino && !HasDir(e.node.entries, e.node.ino)
    ensures NewOkIn(Linked(v3, c)[c], e)
  {
    var r, v2 := e.node.ino, DirStart(v, cur, c, e.node.ino);
    assert OldOk(v2, v3, c, e.node.entries, c) && v2[c] == Obj(DirKind, r, 1);
    assert DirOnce(v2, v3, e.node.entries, r);
    NoDirNoSubdirs(e.node.entries, r);
    InDir(e, r);
  }

  lemma DirOld(v: map<nat, Obj>, v3: map<nat, Obj>, cur: nat, c: nat, e: Entry, i: nat)
    requires Keeps(e) && e.node.HostDir? && cur in v && v[cur].kind.DirKind? && c !in v && c in v3
    requires Effect(DirStart(v, cur, c, e.node.ino), v3, c, e.node.entries)
    ensures OldOkIn(v, Linked(v3, c), cur, e, i)
  {
    assert OldOk(DirStart(v, cur, c, e.node.ino), v3, c, e.node.entries, i);
    if i in v {
      InDir(e, v[i].hostIno);
    }
  }

  lemma DirNew(v: map<nat, Obj>, v3: map<nat, Obj>, cur: nat, c: nat, e: Entry, i: nat)
    requires Keeps(e) && e.node.HostDir? && cur in v && c !in v && !HasDir(e.node.entries, e.node.ino)
    requires Effect(DirStart(v, cur, c, e.node.ino), v3, c, e.node.entries) && i in v3 && i !in v && i != c
    ensures NewOkIn(v3[i], e) && (v3[i].kind.DirKind? ==> v3[i].hostIno != e.node.ino)
  {
    assert i !in DirStart(v, cur, c, e.node.ino) && NewOk(v3[i], e.node.entries);
    InDir(e, v3[i].hostIno);
  }

  lemma DirKnown(v: map<nat, Obj>, v3: map<nat, Obj>, cur: nat, c: nat, e: Entry, q: nat)
    requires Keeps(e) && e.node.HostDir? && cur in v && c !in v && forall i | i in v :: v[i].hostIno != e.node.ino
    requires Effect(DirStart(v, cur, c, e.node.ino), v3, c, e.node.entries)
    requires c in v3 && v3[c].kind.DirKind? && v3[c].hostIno == e.node.ino
    ensures DirOnceIn(v, Linked(v3, c), e, q)
  {
    hide Subdirs, Names, HasDir, SubdirsOf, NewOk, OldOk, OneDir, NamesIn, HasDirIn, SubdirsOfIn;
    var v2, v' := DirStart(v, cur, c, e.node.ino), Linked(v3, c);
    InDir(e, q);
    assert DirOnce(v2, v3, e.node.entries, q);
    if q == e.node.ino {
      assert c in v' && v'[c].kind == DirKind && v'[c].hostIno == q;
    } else if HasDir(e.node.entries, q) {
      KnownKept(v3, v', DirKind, q);
      forall i | i in v ensures v[i].hostIno != q {
        assert i in v2 && v2[i].hostIno == v[i].hostIno;
      }
    }
  }

  lemma DirOneDir(v: map<nat, Obj>, v3: map<nat, Obj>, cur: nat, c: nat, e: Entry)
    requires Keeps(e) && e.node.HostDir? && cur in v && c in v3 && v3[c].hostIno == e.node.ino
    requires Effect(DirStart(v, cur, c, e.node.ino), v3, c, e.node.entries)
    requires forall i | i in v3 && i !in v && i != c && v3[i].kind.DirKind? :: v3[i].hostIno != e.node.ino
    ensures OneDir(v, Linked(v3, c))
  {
    hide Subdirs, Names, HasDir, SubdirsOf, NewOk, OldOk, Known;
    var v2 := DirStart(v, cur, c, e.node.ino);
    assert OneDir(v2, v3);
    hide Effect;
  }

  lemma DirEffect(v: map<nat, Obj>, v3: map<nat, Obj>, cur: nat, c: nat, e: Entry, content: HostFiles)
    requires Keeps(e) && e.node.HostDir? && Sorted(v, content)
    requires cur in v && v[cur].kind.DirKind? && c !in v && forall i | i in v :: v[i].hostIno != e.node.ino
    requires Effect(DirStart(v, cur, c, e.node.ino), v3, c, e.node.entries) && Sorted(v3, content)
    ensures c in v3 && EffectIn(v, Linked(v3, c), cur, e) && Sorted(Linked(v3, c), content)
  {
    hide Effect, Sorted, Subdirs, Names, HasDir, SubdirsOf, NewOk, NewOkIn, OldOkIn, OldOk, Gain, NamesIn, HasDirIn,
         SubdirsOfIn, OneDir, DirOnceIn, Known;
    DirItself(v, v3, cur, c, e);
    var v' := Linked(v3, c);
    SortedLinked(v3, content, c);
    forall i ensures OldOkIn(v, v', cur, e, i) {
      DirOld(v, v3, cur, c, e, i);
    }
    forall i | i in v' && i !in v
      ensures NewOkIn(v'[i], e) && (i != c && v'[i].kind.DirKind? ==> v'[i].hostIno != e.node.ino)
    {
      if i != c {
        DirNew(v, v3, cur, c, e, i);
      }
    }
    DirOneDir(v, v3, cur, c, e);
    forall q ensures DirOnceIn(v, v', e, q) {
      DirKnown(v, v3, cur, c, e, q);
    }
    forall q | NamesIn(e, q) > 0 ensures Known(v', FileKind, q) {
      DirFiles(v, v3, cur, c, e, q);
    }
  }

  lemma DirFiles(v: map<nat, Obj>, v3: map<nat, Obj>, cur: nat, c: nat, e: Entry, q: nat)
    requires Keeps(e) && e.node.HostDir? && cur in v && c in v3 && NamesIn(e, q) > 0
    requires Effect(DirStart(v, cur, c, e.node.ino), v3, c, e.node.entries)
    ensures Known(Linked(v3, c), FileKind, q)
  {
    InDir(e, q);
    KnownKept(v3, Linked(v3, c), FileKind, q);
  }

  // ---------- What the image says ----------

  /** Entry k of directory d names inode i. */
  ghost predicate Listed(s: State, d: nat, k: nat, i: nat, name: string) {
    && d in s.files && k < |s.files[d]|
    && s.files[d][k] in s.image && s.image[s.files[d][k]] == EntryBlock(i, Stored(name))
  }

  ghost predicate IsA(s: State, i: nat, kind: Kind, r: nat) {
    i in s.inodes && i in s.files && s.inodes[i].inode.kind == kind && s.inodes[i].hostIno == r
  }

  ghost predicate Sized(s: State, i: nat, size: nat) {
    i in s.inodes && s.inodes[i].inode.size == size
  }

  /** Inode i is a directory of n entries. */
  ghost predicate HasEntries(s: State, i: nat, n: nat) {
    i in s.files && |s.files[i]| == n && Sized(s, i, ENTRY_SIZE * n)
  }

  /** Block j of inode i holds the data. */
  ghost predicate BlockHolds(s: State, i: nat, j: nat, data: seq<bv8>) {
    i in s.files && j < |s.files[i]| && s.files[i][j] in s.image && s.image[s.files[i][j]] == DataBlock(Padded(data))
  }

  /** The reads gave whole blocks, the last one perhaps less, and no error. */
  predicate Readable(chunks: seq<Read>) {
    && (forall j | 0 <= j < |chunks| :: chunks[j].Chunk? && |chunks[j].data| <= SFS_BLKSIZE)
    && (forall j | 0 <= j < |chunks| - 1 :: chunks[j].Chunk? && |chunks[j].data| == SFS_BLKSIZE)
  }

  /** The bytes of the reads, one after the other. */
  function Flat(chunks: seq<Read>): seq<bv8> {
    if chunks == [] then []
    else Flat(chunks[..|chunks| - 1]) + if chunks[|chunks| - 1].Chunk? then chunks[|chunks| - 1].data else []
  }

  ghost predicate Holds(s: State, i: nat, chunks: seq<Read>) {
    && i in s.files && |s.files[i]| == |chunks| && Readable(chunks) && Sized(s, i, |Flat(chunks)|)
    && forall j | 0 <= j < |chunks| :: BlockHolds(s, i, j, chunks[j].data)
  }

  ghost predicate HoldsTarget(s: State, i: nat, target: seq<bv8>) {
    && i in s.files && |s.files[i]| == 1 && Sized(s, i, |target|) && |target| <= SFS_BLKSIZE
    && BlockHolds(s, i, 0, target)
  }

  /** The entries of directory d after its references to itself and its parent are those kept of es, and what they
      name is what they name on the host. */
  ghost predicate Denotes(s: State, content: HostFiles, d: nat, es: seq<Entry>)
    decreases es
  {
    es == [] ||
    (Denotes(s, content, d, es[..|es| - 1]) &&
     (Keeps(es[|es| - 1]) ==> HasEntry(s, content, d, 2 + |Keep(es[..|es| - 1])|, es[|es| - 1])))
  }

  ghost predicate HasEntry(s: State, content: HostFiles, d: nat, k: nat, e: Entry)
    decreases e, 2
  {
    exists i :: ListedAs(s, content, d, k, i, e)
  }

  ghost predicate ListedAs(s: State, content: HostFiles, d: nat, k: nat, i: nat, e: Entry)
    decreases e, 1
  {
    Listed(s, d, k, i, e.name) && Represents(s, content, d, i, e.node)
  }

  ghost predicate Represents(s: State, content: HostFiles, d: nat, i: nat, node: Host)
    decreases node, 0
  {
    match node
    case HostDir(r, es) =>
      && i > d && IsA(s, i, DirKind, r) && HasEntries(s, i, 2 + |Keep(es)|)
      && Listed(s, i, 0, i, ".") && Listed(s, i, 1, d, "..") && Denotes(s, content, i, es)
    case HostFile(r) => IsA(s, i, FileKind, r) && r in content && Holds(s, i, content[r])
    case HostLink(r, target) =>
      IsA(s, i, LinkKind, r) && target.Some? && HoldsTarget(s, i, target.value)
    case HostOther => false
  }

  /** Inode f, the only one that grows, is a directory on the way to d or d itself. */
  ghost predicate GrowsAbove(s: State, s': State, f: nat, d: nat) {
    Grew(s, s', f) && f <= d && (f in s.inodes ==> s.inodes[f].inode.kind.DirKind?)
    && s.files.Keys == s.inodes.Keys && s'.files.Keys == s'.inodes.Keys
  }

  lemma ListedKept(s: State, s': State, f: nat, d: nat, k: nat, i: nat, name: string)
    requires Listed(s, d, k, i, name) && Grew(s, s', f)
    ensures Listed(s', d, k, i, name)
  {
  }

  lemma {:induction false} DenotesKept(s: State, s': State, content: HostFiles, f: nat, d: nat, es: seq<Entry>)
    requires Denotes(s, content, d, es) && GrowsAbove(s, s', f, d)
    ensures Denotes(s', content, d, es)
    decreases es
  {
    if es != [] {
      var p, e := es[..|es| - 1], es[|es| - 1];
      DenotesKept(s, s', content, f, d, p);
      if Keeps(e) {
        var k := 2 + |Keep(p)|;
        assert HasEntry(s, content, d, k, e);
        var i :| ListedAs(s, content, d, k, i, e);
        ListedKept(s, s', f, d, k, i, e.name);
        RepresentsKept(s, s', content, f, d, i, e.node);
        assert ListedAs(s', content, d, k, i, e);
      }
    }
  }

  lemma {:induction false} RepresentsKept(s: State, s': State, content: HostFiles, f: nat, d: nat, i: nat, node: Host)
    requires Represents(s, content, d, i, node) && GrowsAbove(s, s', f, d)
    ensures Represents(s', content, d, i, node)
    decreases node
  {
    match node
    case HostDir(r, es) =>
      ListedKept(s, s', f, i, 0, i, ".");
      ListedKept(s, s', f, i, 1, d, "..");
      DenotesKept(s, s', content, f, i, es);
    case HostFile(r) =>
      HoldsKept(s, s', f, i, content[r]);
    case HostLink(r, target) =>
    case HostOther =>
  }

  lemma HoldsKept(s: State, s': State, f: nat, i: nat, chunks: seq<Read>)
    requires Holds(s, i, chunks) && Grew(s, s', f) && i != f
    ensures Holds(s', i, chunks)
  {
    forall j | 0 <= j < |chunks| ensures BlockHolds(s', i, j, chunks[j].data) {
      assert BlockHolds(s, i, j, chunks[j].data);
    }
  }

  // ---------- Adding entries ----------

  /** Regular files have their numbers among the contents, the others do not. */
  predicate Matches(es: seq<Entry>, content: HostFiles)
    decreases es
  {
    es == [] || (Matches(es[..|es| - 1], content) && MatchesIn(es[|es| - 1], content))
  }

  predicate MatchesIn(e: Entry, content: HostFiles)
    decreases e
  {
    Keeps(e) ==>
      match e.node
      case HostDir(r, es) => r !in content && Matches(es, content)
      case HostFile(r) => r in content
      case HostLink(r, _) => r !in content
      case HostOther => true
  }

  lemma {:induction false} MatchesAt(es: seq<Entry>, content: HostFiles, k: nat)
    requires Matches(es, content) && k < |es|
    ensures MatchesIn(es[k], content)
    decreases |es|
  {
    if k < |es| - 1 {
      MatchesAt(es[..|es| - 1], content, k);
    }
  }

  lemma {:induction false} KeepPrefix(es: seq<Entry>, k: nat)
    requires k <= |es|
    ensures |Keep(es[..k])| <= |Keep(es)|
    ensures k < |es| && Keeps(es[k]) ==> |Keep(es[..k])| < |Keep(es)|
    decreases |es| - k
  {
    if k < |es| {
      assert es[..k + 1][..|es[..k + 1]| - 1] == es[..k];
      KeepPrefix(es, k + 1);
    } else {
      assert es[..k] == es;
    }
  }

  /** Every regular file known holds what the host file holds. */
  ghost predicate Filled(s: State, content: HostFiles) {
    forall i | i in s.inodes && s.inodes[i].inode.kind.FileKind? ::
      s.inodes[i].hostIno in content && Holds(s, i, content[s.inodes[i].hostIno])
  }

  ghost predicate OneMore(s: State, s': State, cur: nat) {
    && cur in s.files && cur in s'.files && |s'.files[cur]| == |s.files[cur]| + 1
    && cur in s.inodes && Sized(s', cur, s.inodes[cur].inode.size + ENTRY_SIZE)
  }

  /** Entry e has been added to directory cur. */
  ghost predicate AddedEntry(s: State, s': State, content: HostFiles, cur: nat, e: Entry) {
    && cur in s.files && OneMore(s, s', cur) && Grew(s, s', cur)
    && HasEntry(s', content, cur, |s.files[cur]|, e)
    && EffectIn(View(s), View(s'), cur, e) && Sorted(View(s'), content) && Filled(s', content)
  }

  /** The entries p have been added to directory cur since s0, when it listed itself and its parent. */
  ghost predicate DirState(s0: State, s: State, content: HostFiles, cur: nat, p: seq<Entry>) {
    && cur in s.inodes && IsA(s, cur, DirKind, s.inodes[cur].hostIno) && Grew(s0, s, cur)
    && HasEntries(s, cur, 2 + |Keep(p)|)
    && Denotes(s, content, cur, p) && Effect(View(s0), View(s), cur, p)
    && Sorted(View(s), content) && Filled(s, content)
  }

  lemma DirCount(s0: State, s: State, content: HostFiles, cur: nat, p: seq<Entry>)
    requires DirState(s0, s, content, cur, p)
    ensures cur in s.files && |s.files[cur]| == 2 + |Keep(p)|
  {
  }

  lemma DirSkip(s0: State, s: State, content: HostFiles, cur: nat, p: seq<Entry>, e: Entry)
    requires DirState(s0, s, content, cur, p) && !Keeps(e) && cur in View(s0)
    ensures DirState(s0, s, content, cur, p + [e])
  {
    hide Effect, EffectIn, Sorted, Filled, Grew;
    Snoc(p, e);
    SkipEffect(View(s), cur, e);
    EffectSnoc(View(s0), View(s), View(s), cur, p, e, content);
  }

  lemma DirStep(s0: State, s: State, s': State, content: HostFiles, cur: nat, p: seq<Entry>, e: Entry)
    requires DirState(s0, s, content, cur, p) && AddedEntry(s, s', content, cur, e) && Keeps(e) && cur in View(s0)
    requires s.files.Keys == s.inodes.Keys && s'.files.Keys == s'.inodes.Keys
    ensures DirState(s0, s', content, cur, p + [e])
  {
    Snoc(p, e);
    GrewTwice(s0, s, s', cur);
    EffectSnoc(View(s0), View(s), View(s'), cur, p, e, content);
    assert GrowsAbove(s, s', cur, cur);
    DenotesKept(s, s', content, cur, cur, p);
    hide Effect, EffectIn, Sorted, Filled, HasEntry, View;
  }

  lemma HoldsNone(s: State, f: nat)
    requires f in s.files && s.files[f] == [] && Sized(s, f, 0)
    ensures Holds(s, f, [])
  {
  }

  lemma HoldsSize(s: State, f: nat, chunks: seq<Read>)
    requires Holds(s, f, chunks)
    ensures f in s.files && |s.files[f]| == |chunks| && Sized(s, f, |Flat(chunks)|) && Readable(chunks)
  {
  }

  lemma NotReadable(chunks: seq<Read>, i: nat)
    requires i < |chunks|
    requires chunks[i].Error? || |chunks[i].data| > SFS_BLKSIZE
             || (i > 0 && chunks[i - 1].Chunk? && |chunks[i - 1].data| != SFS_BLKSIZE)
    ensures !Readable(chunks)
  {
  }

  lemma HoldsMore(s: State, s': State, f: nat, chunks: seq<Read>, c: Read)
    requires Holds(s, f, chunks) && Grew(s, s', f) && c.Chunk? && |c.data| <= SFS_BLKSIZE
    requires chunks != [] ==> chunks[|chunks| - 1].Chunk? && |chunks[|chunks| - 1].data| == SFS_BLKSIZE
    requires f in s'.files && s'.files[f] == s.files[f] + [s.nextIno]
    requires s.nextIno in s'.image && s'.image[s.nextIno] == DataBlock(Padded(c.data))
    requires f in s.inodes && Sized(s', f, s.inodes[f].inode.size + |c.data|)
    ensures Holds(s', f, chunks + [c])
  {
    hide Padded;
    assert (chunks + [c])[..|chunks|] == chunks;
    forall j | 0 <= j < |chunks + [c]| ensures BlockHolds(s', f, j, (chunks + [c])[j].data) {
      if j < |chunks| {
        assert BlockHolds(s, f, j, chunks[j].data);
      }
    }
  }

  lemma FilledKept(s: State, s': State, content: HostFiles, f: nat)
    requires Filled(s, content) && Grew(s, s', f) && s'.inodes.Keys == s.inodes.Keys
    requires f in s.inodes ==> !s.inodes[f].inode.kind.FileKind?
    ensures Filled(s', content)
  {
    forall i | i in s'.inodes && s'.inodes[i].inode.kind.FileKind?
      ensures s'.inodes[i].hostIno in content && Holds(s', i, content[s'.inodes[i].hostIno])
    {
      assert i in s.inodes && SameThing(s.inodes[i], s'.inodes[i]);
      HoldsKept(s, s', f, i, content[s.inodes[i].hostIno]);
    }
  }

  /** The object of entry e exists and is as it must be; only its name in directory cur is missing. */
  ghost predicate Prepared(s0: State, s: State, cur: nat, f: nat, e: Entry, content: HostFiles) {
    && cur in s0.files && cur in s.files && s.files[cur] == s0.files[cur] && Grew(s0, s, cur)
    && cur in s0.inodes && Sized(s, cur, s0.inodes[cur].inode.size) && s.inodes[cur].inode.kind.DirKind?
    && Filled(s, content) && Represents(s, content, cur, f, e.node)
    && f in View(s) && f in s.inodes
    && EffectIn(View(s0), Linked(View(s), f), cur, e) && Sorted(Linked(View(s), f), content)
  }

  lemma GrewAt(s: State, s': State, f: nat, g: nat)
    requires Grew(s, s', f) && g in s.inodes && g in s.files
    ensures g in s'.inodes && g in s'.files && SameThing(s.inodes[g], s'.inodes[g])
    ensures g != f ==> s'.files[g] == s.files[g] && Sized(s', g, s.inodes[g].inode.size)
  {
  }

  lemma ViewAt(s: State, f: nat)
    ensures f in View(s) <==> f in s.inodes && f in s.links
    ensures f in View(s) ==> View(s)[f] == Obj(s.inodes[f].inode.kind, s.inodes[f].hostIno, s.links[f])
  {
  }

  lemma PreparedWhole(s0: State, s: State, cur: nat, f: nat, e: Entry, content: HostFiles)
    requires cur in s0.files && cur in s.files && s.files[cur] == s0.files[cur] && Grew(s0, s, cur)
    requires cur in s0.inodes && Sized(s, cur, s0.inodes[cur].inode.size)
    requires cur in s.inodes && s.inodes[cur].inode.kind.DirKind?
    requires Filled(s, content) && Represents(s, content, cur, f, e.node) && f in View(s) && f in s.inodes
    requires EffectIn(View(s0), Linked(View(s), f), cur, e) && Sorted(Linked(View(s), f), content)
    ensures Prepared(s0, s, cur, f, e, content)
  {
    hide Grew, Sized, Filled, Represents, View, EffectIn, Linked, Sorted;
  }

  lemma FileRepresents(s: State, content: HostFiles, d: nat, i: nat, node: Host)
    requires node.HostFile? && IsA(s, i, FileKind, node.ino) && node.ino in content && Holds(s, i, content[node.ino])
    ensures Represents(s, content, d, i, node)
  {
    hide Holds, IsA;
  }

  lemma LinkRepresents(s: State, content: HostFiles, d: nat, i: nat, node: Host)
    requires node.HostLink? && IsA(s, i, LinkKind, node.ino) && node.target.Some?
    requires HoldsTarget(s, i, node.target.value)
    ensures Represents(s, content, d, i, node)
  {
    hide HoldsTarget, IsA;
  }

  lemma SizedSelf(s: State, i: nat)
    requires i in s.inodes
    ensures Sized(s, i, s.inodes[i].inode.size)
  {
  }

  lemma IsAIs(s: State, i: nat)
    requires i in s.inodes && i in s.files
    ensures IsA(s, i, s.inodes[i].inode.kind, s.inodes[i].hostIno)
  {
  }

  /** While the new inode f is filled, directory cur stays as it is. */
  lemma GrownAround(s0: State, s1: State, s: State, cur: nat, f: nat, kind: Kind, r: nat)
    requires Made(s0, s1, f, kind, r) && Grew(s1, s, f)
    requires cur in s0.files && cur in s0.inodes && s0.inodes[cur].inode.kind.DirKind?
    ensures Grew(s0, s, cur) && cur in s.files && s.files[cur] == s0.files[cur]
    ensures Sized(s, cur, s0.inodes[cur].inode.size) && cur in s.inodes && s.inodes[cur].inode.kind.DirKind?
    ensures f in s.inodes && IsA(s, f, kind, r)
  {
    hide Grew, View, Made;
    MadeParts(s0, s1, cur, f, kind, r);
    GrewNew(s0, s1, s, cur, f);
    GrewAt(s1, s, f, f);
    GrewAt(s1, s, f, cur);
  }

  lemma NamedEntry(s0: State, s: State, s': State, cur: nat, f: nat, e: Entry, content: HostFiles)
    requires Prepared(s0, s, cur, f, e, content) && Grew(s, s', cur)
    requires s.files.Keys == s.inodes.Keys && s'.files.Keys == s'.inodes.Keys == s.inodes.Keys
    requires s'.files == s.files[cur := s.files[cur] + [s.nextIno]]
    requires s'.image == s.image[s.nextIno := EntryBlock(f, Stored(e.name))] && View(s') == Linked(View(s), f)
    requires Sized(s', cur, s.inodes[cur].inode.size + ENTRY_SIZE)
    ensures AddedEntry(s0, s', content, cur, e)
  {
    hide EffectIn, Sorted, Filled, Represents, View, Grew, Stored;
    GrewTwice(s0, s, s', cur);
    FilledKept(s, s', content, cur);
    RepresentsKept(s, s', content, cur, cur, f, e.node);
    assert ListedAs(s', content, cur, |s0.files[cur]|, f, e);
  }

  lemma FileAt(s: State, content: HostFiles, f: nat)
    requires Sorted(View(s), content) && Filled(s, content) && f in View(s) && s.inodes[f].hostIno in content
    ensures s.inodes[f].inode.kind.FileKind? && Holds(s, f, content[s.inodes[f].hostIno])
  {
    ViewAt(s, f);
  }

  lemma OldFile(s: State, cur: nat, f: nat, e: Entry, content: HostFiles)
    requires Keeps(e) && e.node.HostFile? && e.node.ino in content && Sorted(View(s), content) && Filled(s, content)
    requires cur in s.files && cur in s.inodes && s.inodes[cur].inode.kind.DirKind?
    requires f in s.inodes && f in s.files && f in s.links && s.inodes[f].hostIno == e.node.ino
    ensures Prepared(s, s, cur, f, e, content)
  {
    hide *;
    GrewSelf(s, cur);
    ViewAt(s, f);
    FileAt(s, content, f);
    FileEffect(View(s), cur, e, f, content);
    SizedSelf(s, cur);
    IsAIs(s, f);
    FileRepresents(s, content, cur, f, e.node);
    PreparedWhole(s, s, cur, f, e, content);
  }

  /** Inode f, number r on the host, has been made. */
  ghost predicate Made(s0: State, s1: State, f: nat, kind: Kind, r: nat) {
    && s0.unused > 0 && f == s0.nextIno && s1 == Registering(Handing(s0), f, kind, r)
    && f !in s0.role && f !in s0.inodes && f !in s0.links && s0.files.Keys == s0.inodes.Keys
  }

  lemma MadeParts(s0: State, s1: State, cur: nat, f: nat, kind: Kind, r: nat)
    requires Made(s0, s1, f, kind, r)
    ensures Grew(s0, s1, cur) && View(s1) == View(s0)[f := Obj(kind, r, 0)] && f !in View(s0)
    ensures f !in s0.files && f !in s0.inodes && Sized(s1, f, 0)
    ensures s1.inodes.Keys == s0.inodes.Keys + {f} && s1.files == s0.files[f := []] && IsA(s1, f, kind, r)
    ensures f in s1.links && s1.files.Keys == s1.inodes.Keys
    ensures forall i | i in s0.inodes :: s1.inodes[i] == s0.inodes[i]
  {
    RegisteredGrew(s0, cur, f, kind, r);
    hide Grew, View, Hash64;
    RegisteredParts(s0, f, kind, r);
  }

  lemma RegisteredParts(s0: State, f: nat, kind: Kind, r: nat)
    requires s0.unused > 0 && f !in s0.inodes && s0.files.Keys == s0.inodes.Keys
    ensures var s1 := Registering(Handing(s0), f, kind, r);
            && f !in View(s0) && Sized(s1, f, 0) && s1.inodes.Keys == s0.inodes.Keys + {f}
            && s1.files == s0.files[f := []] && IsA(s1, f, kind, r) && f in s1.links
            && forall i | i in s0.inodes :: s1.inodes[i] == s0.inodes[i]
  {
    hide Hash64;
  }

  lemma FilledMade(s0: State, s1: State, s: State, f: nat, kind: Kind, r: nat, content: HostFiles)
    requires Filled(s0, content) && Made(s0, s1, f, kind, r) && Grew(s1, s, f) && s.inodes.Keys == s1.inodes.Keys
    requires kind.FileKind? ==> r in content && Holds(s, f, content[r])
    ensures Filled(s, content)
  {
    MadeParts(s0, s1, f, f, kind, r);
    forall i | i in s.inodes && s.inodes[i].inode.kind.FileKind?
      ensures s.inodes[i].hostIno in content && Holds(s, i, content[s.inodes[i].hostIno])
    {
      assert i in s1.inodes && SameThing(s1.inodes[i], s.inodes[i]);
      if i != f {
        HoldsKept(s0, s1, f, i, content[s0.inodes[i].hostIno]);
        HoldsKept(s1, s, f, i, content[s0.inodes[i].hostIno]);
      }
    }
  }

  lemma NotKnown(s: State, kind: Kind, r: nat)
    requires forall i | i in s.inodes :: s.inodes[i].hostIno != r
    ensures !Known(View(s), kind, r) && forall i | i in View(s) :: View(s)[i].hostIno != r
  {
  }

  lemma NewFile(s0: State, s1: State, s: State, cur: nat, f: nat, e: Entry, content: HostFiles)
    requires Keeps(e) && e.node.HostFile? && e.node.ino in content && Sorted(View(s0), content) && Filled(s0, content)
    requires cur in s0.files && cur in s0.inodes && s0.inodes[cur].inode.kind.DirKind?
    requires Made(s0, s1, f, FileKind, e.node.ino) && forall i | i in s0.inodes :: s0.inodes[i].hostIno != e.node.ino
    requires Grew(s1, s, f) && View(s) == View(s1) && s.inodes.Keys == s1.inodes.Keys
    requires Holds(s, f, content[e.node.ino])
    ensures Prepared(s0, s, cur, f, e, content)
  {
    hide *;
    MadeParts(s0, s1, cur, f, FileKind, e.node.ino);
    FilledMade(s0, s1, s, f, FileKind, e.node.ino, content);
    GrownAround(s0, s1, s, cur, f, FileKind, e.node.ino);
    NotKnown(s0, FileKind, e.node.ino);
    FileEffect(View(s0), cur, e, f, content);
    FileRepresents(s, content, cur, f, e.node);
    PreparedWhole(s0, s, cur, f, e, content);
  }

  lemma NewLink(s0: State, s1: State, s: State, cur: nat, f: nat, e: Entry, content: HostFiles)
    requires Keeps(e) && e.node.HostLink? && e.node.ino !in content && Sorted(View(s0), content) && Filled(s0, content)
    requires cur in s0.files && cur in s0.inodes && s0.inodes[cur].inode.kind.DirKind?
    requires Made(s0, s1, f, LinkKind, e.node.ino)
    requires Grew(s1, s, f) && View(s) == View(s1) && s.inodes.Keys == s1.inodes.Keys
    requires e.node.target.Some? && HoldsTarget(s, f, e.node.target.value)
    ensures Prepared(s0, s, cur, f, e, content)
  {
    hide *;
    MadeParts(s0, s1, cur, f, LinkKind, e.node.ino);
    FilledMade(s0, s1, s, f, LinkKind, e.node.ino, content);
    GrownAround(s0, s1, s, cur, f, LinkKind, e.node.ino);
    LinkEffect(View(s0), cur, e, f, content);
    LinkRepresents(s, content, cur, f, e.node);
    PreparedWhole(s0, s, cur, f, e, content);
  }

  // ---------- Directories ----------

  /** Directory cur holds the entries es, after itself and its parent. */
  ghost predicate DirBuilt(s0: State, s: State, content: HostFiles, cur: nat, parent: nat, es: seq<Entry>) {
    && cur in View(s0) && parent in View(s0) && cur in s.files && cur in s.inodes && s.inodes[cur].inode.kind.DirKind?
    && Grew(s0, s, cur) && HasEntries(s, cur, 2 + |Keep(es)|)
    && Listed(s, cur, 0, cur, ".") && Listed(s, cur, 1, parent, "..") && Denotes(s, content, cur, es)
    && Effect(Linked(Linked(View(s0), cur), parent), View(s), cur, es)
    && Sorted(View(s), content) && Filled(s, content)
  }

  lemma NewDir(s0: State, s1: State, s: State, cur: nat, c: nat, e: Entry, content: HostFiles)
    requires Keeps(e) && e.node.HostDir? && e.node.ino !in content && Sorted(View(s0), content)
    requires cur in s0.files && cur in s0.inodes && s0.inodes[cur].inode.kind.DirKind? && cur in s0.links
    requires cur < s0.nextIno && s.files.Keys == s.inodes.Keys
    requires Made(s0, s1, c, DirKind, e.node.ino) && forall i | i in s0.inodes :: s0.inodes[i].hostIno != e.node.ino
    requires DirBuilt(s1, s, content, c, cur, e.node.entries)
    ensures Prepared(s0, s, cur, c, e, content)
  {
    hide EffectIn, Effect, Sorted, Filled, Holds, Grew, View, NamesIn, Known, Made, Denotes, Listed, Registering,
         Handing;
    MadeParts(s0, s1, cur, c, DirKind, e.node.ino);
    MadeIs(s0, s1, c, DirKind, e.node.ino);
    NotKnown(s0, DirKind, e.node.ino);
    ViewAt(s0, cur);
    GrewNew(s0, s1, s, cur, c);
    DirEffect(View(s0), View(s), cur, c, e, content);
    GrewAt(s1, s, c, c);
    GrewAt(s1, s, c, cur);
    ViewAt(s, c);
    assert Represents(s, content, cur, c, e.node);
  }

  lemma MadeIs(s0: State, s1: State, f: nat, kind: Kind, r: nat)
    requires Made(s0, s1, f, kind, r)
    ensures f == s0.nextIno
  {
  }

  /** Both self references are entered; no entries yet. */
  lemma DirStarted(s0: State, s1: State, s2: State, content: HostFiles, cur: nat, parent: nat)
    requires cur in s0.files && s0.files[cur] == [] && cur in s0.inodes && s0.inodes[cur].inode.kind.DirKind?
    requires Sorted(View(s0), content) && Filled(s0, content) && s0.nextIno < s1.nextIno
    requires cur in View(s0) && parent in View(s0)
    requires Grew(s0, s1, cur) && s1.files == s0.files[cur := [s0.nextIno]] && s1.inodes.Keys == s0.inodes.Keys
    requires s1.image == s0.image[s0.nextIno := EntryBlock(cur, Stored("."))] && View(s1) == Linked(View(s0), cur)
    requires Grew(s1, s2, cur) && s2.files == s1.files[cur := [s0.nextIno] + [s1.nextIno]]
    requires s2.inodes.Keys == s1.inodes.Keys && parent in View(s1)
    requires s2.image == s1.image[s1.nextIno := EntryBlock(parent, Stored(".."))]
    requires View(s2) == Linked(View(s1), parent)
    requires s0.inodes[cur].inode.size == 0 && Sized(s1, cur, ENTRY_SIZE) && Sized(s2, cur, 2 * ENTRY_SIZE)
    ensures DirState(s2, s2, content, cur, []) && Grew(s0, s2, cur)
    ensures Listed(s2, cur, 0, cur, ".") && Listed(s2, cur, 1, parent, "..")
    ensures View(s2) == Linked(Linked(View(s0), cur), parent)
  {
    hide Effect, Filled, Grew, View, Sorted, Stored;
    GrewTwice(s0, s1, s2, cur);
    GrewSelf(s2, cur);
    SortedLinked(View(s0), content, cur);
    SortedLinked(View(s1), content, parent);
    FilledKept(s0, s1, content, cur);
    GrewAt(s0, s1, cur, cur);
    FilledKept(s1, s2, content, cur);
    GrewAt(s1, s2, cur, cur);
    EffectNone(View(s2), cur);
  }

  lemma SortedLinked(v: map<nat, Obj>, content: HostFiles, f: nat)
    requires Sorted(v, content) && f in v
    ensures Sorted(Linked(v, f), content)
  {
  }

  lemma DirFinished(s0: State, s2: State, s: State, content: HostFiles, cur: nat, parent: nat, es: seq<Entry>)
    requires DirState(s2, s, content, cur, es) && Grew(s0, s2, cur) && cur in View(s0) && parent in View(s0)
    requires Listed(s2, cur, 0, cur, ".") && Listed(s2, cur, 1, parent, "..")
    requires View(s2) == Linked(Linked(View(s0), cur), parent)
    ensures DirBuilt(s0, s, content, cur, parent, es)
  {
    hide Effect, Sorted, Filled, View, Denotes, Listed, Grew;
    GrewTwice(s0, s2, s, cur);
    ListedKept(s2, s, cur, cur, 0, cur, ".");
    ListedKept(s2, s, cur, cur, 1, parent, "..");
  }

  /** With the inode of a new directory made, the state is ready for its entries. */
  lemma MadeReady(s0: State, s1: State, cur: nat, c: nat, r: nat, content: HostFiles)
    requires Made(s0, s1, c, DirKind, r) && Sorted(View(s0), content) && Filled(s0, content) && r !in content
    ensures c in s1.inodes && s1.inodes[c].inode.kind.DirKind? && Sorted(View(s1), content) && Filled(s1, content)
  {
    hide Grew, View, Holds, Made;
    MadeParts(s0, s1, cur, c, DirKind, r);
    GrewSelf(s1, c);
    FilledMade(s0, s1, s1, c, DirKind, r, content);
  }

  // ---------- The finished tree ----------

  /** The state in which the root directory is all there is. */
  ghost predicate JustRoot(s: State) {
    && s.inodes == map[SFS_BLKN_ROOT := EmptyInode(DirKind, 0)]
    && s.files == map[SFS_BLKN_ROOT := []] && s.links == map[SFS_BLKN_ROOT := 0]
    && forall b | b in s.role :: !s.role[b].Fresh?
  }

  lemma FreshReady(s: State, content: HostFiles)
    requires JustRoot(s) && 0 !in content
    ensures Sorted(View(s), content) && Filled(s, content)
    ensures View(s) == map[SFS_BLKN_ROOT := Obj(DirKind, 0, 0)]
  {
  }

  /** The inodes as they are written, with their numbers on the host. */
  ghost function Written(s: State): map<nat, Obj> {
    map f | f in s.inodes :: Obj(s.inodes[f].inode.kind, s.inodes[f].hostIno, s.inodes[f].inode.nlinks)
  }

  /** The links inode i should have: two and its subdirectories for a directory, its names for a regular file. */
  function Expected(i: nat, o: Obj, es: seq<Entry>): nat {
    match o.kind
    case DirKind => 2 + (if i == SFS_BLKN_ROOT then Subdirs(es) else SubdirsOf(es, o.hostIno))
    case FileKind => Names(es, o.hostIno)
    case LinkKind => 1
  }

  ghost predicate LinksOk(v: map<nat, Obj>, es: seq<Entry>, i: nat) {
    i in v ==> v[i].links == Expected(i, v[i], es) % NLINKS_RANGE
  }

  /** Every directory and every regular file kept has one inode, and the inodes are of directories and files of the
      tree. */
  ghost predicate Peopled(v: map<nat, Obj>, es: seq<Entry>) {
    && (forall r | HasDir(es, r) :: Known(v, DirKind, r))
    && (forall r | Names(es, r) > 0 :: Known(v, FileKind, r))
    && (forall i | i in v && i != SFS_BLKN_ROOT && v[i].kind.DirKind? :: HasDir(es, v[i].hostIno))
    && (forall i | i in v && v[i].kind.FileKind? :: Names(es, v[i].hostIno) > 0)
    && (forall i, j | i in v && j in v && i != SFS_BLKN_ROOT && j != SFS_BLKN_ROOT && v[i].kind.DirKind?
                      && v[j].kind.DirKind? && v[i].hostIno == v[j].hostIno :: i == j)
    && (forall i, j | i in v && j in v && v[i].kind.FileKind? && v[j].kind.FileKind?
                      && v[i].hostIno == v[j].hostIno :: i == j)
  }

  /** Besides, every inode has the links it should have. */
  ghost predicate LinkCounts(v: map<nat, Obj>, es: seq<Entry>) {
    Peopled(v, es) && forall i :: LinksOk(v, es, i)
  }

  /** Every inode is named by as many entries as it should have links, and that is its count. */
  ghost predicate NamesCounted(image: Image, v: map<nat, Obj>, es: seq<Entry>) {
    forall i | i in v ::
      |Namings(image, i)| == Expected(i, v[i], es) && v[i].links == |Namings(image, i)| % NLINKS_RANGE
  }

  lemma SameExpected(i: nat, v: map<nat, Obj>, w: map<nat, Obj>, es: seq<Entry>)
    requires i in v && i in w ==> w[i].kind == v[i].kind && w[i].hostIno == v[i].hostIno
    ensures i in v && i in w ==> Expected(i, w[i], es) == Expected(i, v[i], es)
  {
  }

  lemma FinalLinks(s0: State, s: State, content: HostFiles, es: seq<Entry>)
    requires JustRoot(s0) && DirBuilt(s0, s, content, SFS_BLKN_ROOT, SFS_BLKN_ROOT, es)
    ensures forall i | i in View(s) :: View(s)[i].links == Expected(i, View(s)[i], es)
  {
    hide Names, Subdirs, SubdirsOf, HasDir, Denotes, Grew, Filled, View, Listed;
    FreshView(s0);
    var v0, v := Linked(Linked(View(s0), SFS_BLKN_ROOT), SFS_BLKN_ROOT), View(s);
    assert OldOk(v0, v, SFS_BLKN_ROOT, es, SFS_BLKN_ROOT);
    assert v0.Keys == {SFS_BLKN_ROOT};
    forall i | i in v ensures v[i].links == Expected(i, v[i], es) {
      if i != SFS_BLKN_ROOT {
        assert NewOk(v[i], es);
      }
    }
  }

  lemma FinalPeople(s0: State, s: State, content: HostFiles, es: seq<Entry>)
    requires JustRoot(s0) && DirBuilt(s0, s, content, SFS_BLKN_ROOT, SFS_BLKN_ROOT, es)
    ensures Peopled(View(s), es)
  {
    hide Names, Subdirs, SubdirsOf, HasDir, Denotes, Grew, Filled, View, Listed;
    FreshView(s0);
    var v0, v := Linked(Linked(View(s0), SFS_BLKN_ROOT), SFS_BLKN_ROOT), View(s);
    assert OldOk(v0, v, SFS_BLKN_ROOT, es, SFS_BLKN_ROOT);
    assert v0.Keys == {SFS_BLKN_ROOT};
    forall r | HasDir(es, r) ensures Known(v, DirKind, r) {
      assert DirOnce(v0, v, es, r);
    }
    forall i | i in v && i != SFS_BLKN_ROOT
      ensures v[i].kind.DirKind? ==> HasDir(es, v[i].hostIno)
      ensures v[i].kind.FileKind? ==> Names(es, v[i].hostIno) > 0
    {
      assert NewOk(v[i], es);
    }
  }

  lemma SamePeople(v: map<nat, Obj>, w: map<nat, Obj>, es: seq<Entry>)
    requires Peopled(v, es) && w.Keys == v.Keys
    requires forall i | i in v :: w[i].kind == v[i].kind && w[i].hostIno == v[i].hostIno
    ensures Peopled(w, es)
  {
    hide Names, HasDir, Known;
    forall r | HasDir(es, r) ensures Known(w, DirKind, r) {
      KnownKept(v, w, DirKind, r);
    }
    forall r | Names(es, r) > 0 ensures Known(w, FileKind, r) {
      KnownKept(v, w, FileKind, r);
    }
  }

  lemma FinalCounts(s0: State, s: State, content: HostFiles, es: seq<Entry>)
    requires JustRoot(s0) && DirBuilt(s0, s, content, SFS_BLKN_ROOT, SFS_BLKN_ROOT, es)
    requires s.links.Keys == s.inodes.Keys
    requires forall i | i in s.inodes :: s.inodes[i].inode.nlinks == s.links[i] % NLINKS_RANGE
    ensures LinkCounts(Written(s), es)
    ensures forall i | i in s.links :: i in Written(s) && s.links[i] == Expected(i, Written(s)[i], es)
  {
    hide JustRoot, DirBuilt, View, Written, Expected, Peopled;
    var v, w := View(s), Written(s);
    WrittenView(s);
    FinalLinks(s0, s, content, es);
    FinalPeople(s0, s, content, es);
    SamePeople(v, w, es);
    forall i
      ensures LinksOk(w, es, i)
      ensures i in s.links ==> i in w && s.links[i] == Expected(i, w[i], es)
    {
      ViewAt(s, i);
      SameExpected(i, v, w, es);
    }
  }

  /** What is written differs from what is known only where a count has wrapped. */
  lemma WrittenView(s: State)
    requires s.links.Keys == s.inodes.Keys
    requires forall i | i in s.inodes :: s.inodes[i].inode.nlinks == s.links[i] % NLINKS_RANGE
    ensures Written(s).Keys == View(s).Keys
    ensures forall i | i in View(s) :: Written(s)[i] == View(s)[i].(links := View(s)[i].links % NLINKS_RANGE)
  {
  }

  /** The tally of a finished tree. */
  lemma NamesAreLinks(s: State, es: seq<Entry>)
    requires Tallied(s) && s.links.Keys == s.inodes.Keys
    requires forall i | i in s.inodes :: s.inodes[i].inode.nlinks == s.links[i] % NLINKS_RANGE
    requires forall i | i in s.links :: i in Written(s) && s.links[i] == Expected(i, Written(s)[i], es)
    ensures NamesCounted(s.image, Written(s), es)
  {
    hide Expected, Namings;
  }

  lemma TalliedMade(s0: State, s1: State, f: nat, kind: Kind, r: nat)
    requires Tallied(s0) && Made(s0, s1, f, kind, r)
    ensures Tallied(s1)
  {
    hide Tallied, Registering, Handing;
    TalliedRegistered(s0, f, kind, r);
  }

  lemma FreshTallied(s: State)
    requires JustRoot(s) && s.image == map[]
    ensures Tallied(s)
  {
    assert Namings(s.image, SFS_BLKN_ROOT) == {};
  }

  lemma FreshView(s: State)
    requires JustRoot(s)
    ensures View(s) == map[SFS_BLKN_ROOT := Obj(DirKind, 0, 0)]
  {
  }

  /** A finished image: every block below the next one has been written, the map has a bit for each free block, and
      the inodes are in their blocks and lead to theirs. */
  ghost predicate Finished(ninos: nat, s: State, blocks: seq<seq<bv32>>) {
    && FirstIno(ninos) <= s.nextIno <= ninos && s.nextIno + s.unused == ninos
    && (forall b: nat :: b in s.image <==> b < s.nextIno)
    && SFS_BLKN_SUPER in s.image && s.image[SFS_BLKN_SUPER] == SuperBlock(ninos, s.unused)
    && |blocks| == FreeMapBlocks(ninos) && (forall k | 0 <= k < |blocks| :: MapBlockIs(s.image, k, blocks[k]))
    && SfsFreeMap.MapOk(blocks, s.nextIno, ninos)
    && SfsFreeMap.Popcount(blocks, SFS_BLKBITS * |blocks|) == s.unused
    && Closed(s)
  }

  /** The inode blocks are those of the inodes, and lead to the blocks that were appended. */
  ghost predicate Closed(s: State) {
    && s.files.Keys == s.inodes.Keys
    && (forall f | f in s.inodes :: f in s.image && s.image[f] == InodeBlock(s.inodes[f].inode))
    && (forall b | b in s.image && s.image[b].InodeBlock? :: b in s.inodes)
    && (forall f | f in s.files :: Reads(s.image, f, s.files[f]))
  }

  lemma FinishedWhole(ninos: nat, s: State, s': State, blocks: seq<seq<bv32>>)
    requires StateOk(ninos, s) && s' == s.(image := s'.image)
    requires forall b: nat :: b in s'.image <==> b < s.nextIno
    requires SFS_BLKN_SUPER in s'.image && s'.image[SFS_BLKN_SUPER] == SuperBlock(ninos, s.unused)
    requires |blocks| == FreeMapBlocks(ninos) && forall k | 0 <= k < |blocks| :: MapBlockIs(s'.image, k, blocks[k])
    requires SfsFreeMap.MapOk(blocks, s.nextIno, ninos)
    requires forall t | t in s.tables :: t in s'.image && s'.image[t] == TableBlock(s.tables[t])
    requires forall f | f in s.inodes :: f in s'.image && s'.image[f] == InodeBlock(s.inodes[f].inode)
    requires forall b | b in s'.image && s'.image[b].InodeBlock? :: b in s.inodes
    ensures Finished(ninos, s', blocks)
  {
    assert SpaceOk(ninos, s) && s.files.Keys == s.inodes.Keys;
    MapCovers(ninos, |blocks|);
    SfsFreeMap.PopcountIsUnused(blocks, s.nextIno, ninos, SFS_BLKBITS * |blocks|);
    hide StateOk, FreeMapBlocks;
    forall f | f in s.files ensures Reads(s'.image, f, s.files[f]) {
      ClosedReads(ninos, s, s'.image, f);
    }
  }

  lemma MapCovers(ninos: nat, k: nat)
    requires k == FreeMapBlocks(ninos)
    ensures SFS_BLKBITS * k >= ninos
  {
  }

  lemma RootOnly(s: State)
    requires JustRoot(s)
    ensures SFS_BLKN_ROOT in s.inodes && s.inodes[SFS_BLKN_ROOT].inode.kind.DirKind?
    ensures SFS_BLKN_ROOT in s.files && s.files[SFS_BLKN_ROOT] == [] && Sized(s, SFS_BLKN_ROOT, 0)
    ensures forall b | b in s.role :: !s.role[b].Fresh?
  {
  }

  lemma NothingLoose(s0: State, s: State, f: nat)
    requires Grew(s0, s, f) && forall b | b in s0.role :: !s0.role[b].Fresh?
    ensures forall b | b in s.role :: !s.role[b].Fresh?
  {
  }

  /** Writing the cached objects does not change what the directories say. */
  lemma ClosedDenotes(s: State, s': State, content: HostFiles, d: nat, es: seq<Entry>)
    requires Denotes(s, content, d, es) && s' == s.(image := s'.image) && s.files.Keys == s.inodes.Keys
    requires forall b | b in s.image :: b in s'.image && s'.image[b] == s.image[b]
    requires d in s.inodes && s.inodes[d].inode.kind.DirKind? && Listed(s, d, 0, d, ".") && Listed(s, d, 1, d, "..")
    ensures Denotes(s', content, d, es) && Listed(s', d, 0, d, ".") && Listed(s', d, 1, d, "..")
  {
    hide Padded;
    assert Grew(s, s', d);
    DenotesKept(s, s', content, d, d, es);
  }
}
