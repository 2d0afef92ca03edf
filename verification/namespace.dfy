/** The namespace over the byte-level store: what the operations do to the tree, for every run. */
module Namespace {
  import opened Wrappers
  import opened Bytes
  import opened Layout
  import opened DirCodec
  import opened StoreSpec
  import opened StoreLaws
  import opened ExtentLayer
  import opened ClientSpec
  import T = Tree

  // ---- From bytes to the tree ----------------------------------------------------------------------

  function EntriesOf(bytes: seq<Byte>): seq<Dirent> {
    if Parse(bytes).Some? then Parse(bytes).value else []
  }

  function DirsOf(files: map<nat, File>): map<nat, seq<Dirent>> {
    map i | i in files && files[i].typ == T_DIR :: EntriesOf(files[i].bytes)
  }

  function TreeOf(a: Store): T.Tree {
    T.Tree(a.files.Keys, DirsOf(a.files))
  }

  /** A directory's bytes parse, and are what printing its entries gives. */
  predicate Canonical(bytes: seq<Byte>) {
    Parse(bytes).Some? && Print(Parse(bytes).value) == bytes
  }

  predicate DirsCanonical(files: map<nat, File>) {
    forall i :: i in files && files[i].typ == T_DIR ==> Canonical(files[i].bytes)
  }

  /** The invariant of every reachable file system. */
  ghost predicate NsInv(a: Store) {
    StoreOk(a) && DirsCanonical(a.files) && T.TreeInv(TreeOf(a))
  }

  function Bound(a: Store, dir: U64): map<seq<Byte>, U64> {
    T.Bindings(EntriesOf(Get(a, Mask(dir))))
  }

  lemma InitialInv()
    ensures NsInv(INITIAL)
  {
    InitialOk();
    var t := TreeOf(INITIAL);
    assert Parse([]) == Some([]);
    assert t.dirs[ROOT] == [];
    assert T.Path(t, [ROOT]) && [ROOT][|[ROOT]| - 1] == ROOT;
  }

  lemma {:induction false} PrintAppend(es: seq<Dirent>, e: Dirent)
    ensures Print(es + [e]) == Print(es) + PrintEntry(e)
  {
    if es == [] {
      assert [e][1..] == [];
      assert [] + [e] == [e];
      assert PrintEntry(e) + Print([]) == PrintEntry(e) == [] + PrintEntry(e);
    } else {
      assert (es + [e])[1..] == es[1..] + [e];
      PrintAppend(es[1..], e);
      assert PrintEntry(es[0]) + (Print(es[1..]) + PrintEntry(e)) == PrintEntry(es[0]) + Print(es[1..]) + PrintEntry(e);
    }
  }

  lemma CanonicalAppend(bytes: seq<Byte>, e: Dirent)
    requires Canonical(bytes) && SlashFree(e.name)
    ensures Canonical(bytes + PrintEntry(e)) && EntriesOf(bytes + PrintEntry(e)) == EntriesOf(bytes) + [e]
  {
    ParseAppend(bytes, e);
    PrintAppend(Parse(bytes).value, e);
  }

  lemma CanonicalPrint(es: seq<Dirent>)
    requires Printable(es)
    ensures Canonical(Print(es)) && EntriesOf(Print(es)) == es
  {
    ParsePrint(es);
  }

  /** `lookup` on a canonical directory is the finite map of its bindings. */
  lemma LookupAgrees(a: Store, parent: U64, name: seq<Byte>)
    requires DirsCanonical(a.files)
    ensures Lookup(a, parent, name) ==
      if TypeOf(a, Mask(parent)) != T_DIR then Outcome(IOERR, None)
      else Outcome(OK, if name in Bound(a, parent) then Some(Bound(a, parent)[name]) else None)
  {
    if TypeOf(a, Mask(parent)) == T_DIR {
      assert Canonical(a.files[Mask(parent)].bytes);
      T.BindingsDomain(EntriesOf(Get(a, Mask(parent))), name);
    }
  }

  // ---- Creating ----------------------------------------------------------------------------------------

  /** The first content of what is created. */
  function FirstContent(content: Option<seq<Byte>>): seq<Byte> {
    if content.Some? then content.value else []
  }

  /** Only files and links get content; types are those of the protocol. */
  predicate Sensible(typ: nat, content: Option<seq<Byte>>) {
    (typ == T_DIR || typ == T_FILE || typ == T_SYMBOLIC) && (content.Some? ==> typ != T_DIR)
  }

  lemma InodesLeft(a: Store)
    requires NsInv(a)
    ensures InodeLeft(a) <==> NextInode(a) != 0
    ensures NextInode(a) !in a.files
  {
    hide HeldUpTo, NextInode, T.TreeInv, DirsCanonical;
    AllocComplete(a);
    RootLive(a);
  }

  /** Exactly which files a creation changes, and to what. */
  lemma MakeFiles(a: Store, parent: U64, name: seq<Byte>, typ: nat, content: Option<seq<Byte>>)
    requires MakeOutcome(a, parent, name).status == OK && NextInode(a) != 0 && Mask(parent) in a.files
    requires Sensible(typ, content)
    ensures var ino, a' := NextInode(a), Make(a, parent, name, typ, content);
      && ino !in a.files && ino != Mask(parent)
      && a'.files.Keys == a.files.Keys + {ino}
      && (forall i :: i in a.files && i != Mask(parent) ==> a'.files[i] == a.files[i])
      && a'.files[ino].typ == typ && a'.files[ino].bytes == FirstContent(content)
      && a'.files[Mask(parent)].typ == a.files[Mask(parent)].typ
      && a'.files[Mask(parent)].bytes == a.files[Mask(parent)].bytes + PrintEntry(Dirent(ino, name))
  {
    hide PrintEntry, FirstFree, Held, Parse;
  }

  /** Without an inode left only the parent changes: it gets an entry for inode 0. */
  lemma MakeFilesNoInode(a: Store, parent: U64, name: seq<Byte>, typ: nat, content: Option<seq<Byte>>)
    requires MakeOutcome(a, parent, name).status == OK && NextInode(a) == 0 && Mask(parent) in a.files && 0 !in a.files
    ensures var a' := Make(a, parent, name, typ, content);
      && a'.files.Keys == a.files.Keys
      && (forall i :: i in a.files && i != Mask(parent) ==> a'.files[i] == a.files[i])
      && a'.files[Mask(parent)].typ == a.files[Mask(parent)].typ
      && a'.files[Mask(parent)].bytes == a.files[Mask(parent)].bytes + PrintEntry(Dirent(0, name))
  {
    hide PrintEntry, FirstFree, Held, Parse;
    assert WithInode(a, typ, content) == a;
  }

  lemma MakeStoreOk(a: Store, parent: U64, name: seq<Byte>, typ: nat, content: Option<seq<Byte>>)
    requires StoreOk(a) && MakeFits(a, parent, name, typ, content)
    ensures StoreOk(Make(a, parent, name, typ, content))
  {
    hide StoreOk, NextInode, Put, Alloc, Fits, Extended;
    if MakeOutcome(a, parent, name).status == OK {
      AllocOk(a, typ);
      if content.Some? {
        PutOk(Alloc(a, typ), Mask(NextInode(a)), content.value);
      }
      PutOk(WithInode(a, typ, content), Mask(parent), Extended(a, parent, name));
    }
  }

  /** On the tree, a successful creation adds one leaf. */
  lemma MakeTree(a: Store, parent: U64, name: seq<Byte>, typ: nat, content: Option<seq<Byte>>)
    requires NsInv(a) && SlashFree(name) && Sensible(typ, content)
    requires MakeOutcome(a, parent, name).status == OK && NextInode(a) != 0
    ensures var e, a' := Dirent(NextInode(a), name), Make(a, parent, name, typ, content);
      && T.CanAdd(TreeOf(a), Mask(parent), e)
      && TreeOf(a') == T.AddLeaf(TreeOf(a), Mask(parent), e, typ == T_DIR)
      && DirsCanonical(a'.files)
  {
    hide PrintEntry, FirstFree, Parse, Print, T.TreeInv, StoreOk, NextInode, Make, SlashFree;
    var dir := Mask(parent);
    LookupAgrees(a, parent, name);
    MakeFiles(a, parent, name, typ, content);
    var e, a' := Dirent(NextInode(a), name), Make(a, parent, name, typ, content);
    CanonicalAppend(a.files[dir].bytes, e);
    EmptyCanonical();
    forall i | i in a'.files && a'.files[i].typ == T_DIR
      ensures Canonical(a'.files[i].bytes) && i in T.AddLeaf(TreeOf(a), dir, e, typ == T_DIR).dirs
      ensures T.AddLeaf(TreeOf(a), dir, e, typ == T_DIR).dirs[i] == EntriesOf(a'.files[i].bytes)
    {
    }
    assert TreeOf(a').dirs == T.AddLeaf(TreeOf(a), dir, e, typ == T_DIR).dirs;
  }

  lemma EmptyCanonical()
    ensures Canonical([]) && EntriesOf([]) == []
  {
  }

  /** What a caller can look up beforehand: the creation is refused, or an inode is left for it. */
  predicate InodeFor(a: Store, parent: U64, name: seq<Byte>) {
    TypeOf(a, Mask(parent)) != T_DIR || name in Bound(a, parent) || InodeLeft(a)
  }

  lemma InodeForMeaning(a: Store, parent: U64, name: seq<Byte>)
    requires NsInv(a)
    ensures InodeFor(a, parent, name) <==> (MakeOutcome(a, parent, name).status == OK ==> NextInode(a) != 0)
  {
    hide Bound, NextInode, InodeLeft, HeldUpTo;
    LookupAgrees(a, parent, name);
    AllocComplete(a);
  }

  /** With an inode left a creation keeps the invariant; without one it enters inode 0 and breaks it. */
  lemma MakeKeepsInv(a: Store, parent: U64, name: seq<Byte>, typ: nat, content: Option<seq<Byte>>)
    requires NsInv(a) && SlashFree(name) && Sensible(typ, content) && MakeFits(a, parent, name, typ, content)
    ensures NsInv(Make(a, parent, name, typ, content)) <==> InodeFor(a, parent, name)
  {
    hide PrintEntry, FirstFree, Parse, Print, T.TreeInv, StoreOk, NextInode, DirsCanonical, DirsOf, Put, Bound;
    hide InodeLeft;
    InodeForMeaning(a, parent, name);
    if MakeOutcome(a, parent, name).status == OK {
      if NextInode(a) != 0 {
        MakeTree(a, parent, name, typ, content);
        RootLive(a);
        T.AddLeafInv(TreeOf(a), Mask(parent), Dirent(NextInode(a), name), typ == T_DIR);
        MakeStoreOk(a, parent, name, typ, content);
      } else {
        MakeBreaks(a, parent, name, typ, content);
      }
    }
  }

  lemma RootLive(a: Store)
    requires NsInv(a)
    ensures ROOT in a.files && 0 !in a.files
  {
  }

  /** No inode left: the parent gets an entry for inode 0, which is not a node of the tree. */
  lemma MakeBreaks(a: Store, parent: U64, name: seq<Byte>, typ: nat, content: Option<seq<Byte>>)
    requires NsInv(a) && SlashFree(name)
    requires MakeOutcome(a, parent, name).status == OK && NextInode(a) == 0
    ensures !NsInv(Make(a, parent, name, typ, content))
  {
    hide PrintEntry, FirstFree, Print, StoreOk, NextInode, Parse, Make, T.OneName, T.Reachable;
    var dir := Mask(parent);
    var e := Dirent(0, name);
    RootLive(a);
    var a' := Make(a, parent, name, typ, content);
    MakeFilesNoInode(a, parent, name, typ, content);
    CanonicalAppend(a.files[dir].bytes, e);
    var t := TreeOf(a');
    var es := t.dirs[dir];
    assert es == EntriesOf(a.files[dir].bytes) + [e];
    assert es[|es| - 1].inum == 0 && 0 !in t.nodes;
    assert !T.DirOk(t, es);
  }

  /** From `a`, with answer `o`, a new inode with content is entered in the parent, as in a finite map. */
  ghost predicate Enters(a: Store, parent: U64, name: seq<Byte>, typ: nat, bytes: seq<Byte>, o: Outcome, a': Store) {
    && (o.status == IOERR <==> TypeOf(a, Mask(parent)) != T_DIR)
    && (o.status == EXIST <==> TypeOf(a, Mask(parent)) == T_DIR && name in Bound(a, parent))
    && o.status != NOENT
    && (o.status == EXIST ==> o.ino == Some(Bound(a, parent)[name]))
    && (o.status != OK ==> a' == a)
    && (o.status == OK ==>
      && o.ino == Some(NextInode(a)) && NextInode(a) !in a.files
      && Bound(a', parent) == Bound(a, parent)[name := NextInode(a)]
      && EntriesOf(Get(a', Mask(parent))) == EntriesOf(Get(a, Mask(parent))) + [Dirent(NextInode(a), name)]
      && (forall i :: i in a.files && i != Mask(parent) ==> i in a'.files && a'.files[i] == a.files[i])
      && if InodeLeft(a) then
           && a'.files.Keys == a.files.Keys + {NextInode(a)}
           && TypeOf(a', NextInode(a)) == typ && Get(a', NextInode(a)) == bytes
         else NextInode(a) == 0 && a'.files.Keys == a.files.Keys)
  }

  /**
   * `create`, `mkdir` and `create_symbolic_link` act as insertion into a finite map: EXIST iff the name is
   * bound; otherwise the name is bound to a fresh inode and nothing else changes. If no inode is left the
   * name is bound to 0, and the answer is still OK.
   */
  lemma MakeBinds(a: Store, parent: U64, name: seq<Byte>, typ: nat, content: Option<seq<Byte>>)
    requires NsInv(a) && SlashFree(name) && Sensible(typ, content)
    ensures Enters(a, parent, name, typ, FirstContent(content), MakeOutcome(a, parent, name),
                   Make(a, parent, name, typ, content))
  {
    hide PrintEntry, FirstFree, Parse, Print, T.TreeInv, StoreOk, NextInode, Make, SlashFree, EntriesOf, T.Bindings;
    hide InodeLeft;
    LookupAgrees(a, parent, name);
    if MakeOutcome(a, parent, name).status != OK {
      MakeRefused(a, parent, name, typ, content);
    }
    if MakeOutcome(a, parent, name).status == OK {
      InodesLeft(a);
      if InodeLeft(a) {
        MakeFiles(a, parent, name, typ, content);
      } else {
        MakeFilesNoInode(a, parent, name, typ, content);
      }
      CanonicalAppend(a.files[Mask(parent)].bytes, Dirent(NextInode(a), name));
      T.BindingsAppend(EntriesOf(a.files[Mask(parent)].bytes), Dirent(NextInode(a), name));
    }
  }

  lemma MakeRefused(a: Store, parent: U64, name: seq<Byte>, typ: nat, content: Option<seq<Byte>>)
    requires MakeOutcome(a, parent, name).status != OK
    ensures Make(a, parent, name, typ, content) == a
  {
  }

  /** Reading a new symbolic link gives the path it was created with, exactly if it got an inode. */
  lemma LinkRoundTrip(a: Store, parent: U64, name: seq<Byte>, path: seq<Byte>)
    requires NsInv(a) && SlashFree(name) && MakeOutcome(a, parent, name).status == OK
    ensures Readlink(Make(a, parent, name, T_SYMBOLIC, Some(path)), NextInode(a)) == Some(path) <==> InodeLeft(a)
  {
    hide NsInv, MakeOutcome, Make, EntriesOf, Bound, NextInode, InodeLeft;
    MakeBinds(a, parent, name, T_SYMBOLIC, Some(path));
  }

  // ---- Unlinking -----------------------------------------------------------------------------------------

  /** What the invariant says about one directory. */
  lemma DirFacts(a: Store, parent: U64)
    requires NsInv(a) && TypeOf(a, Mask(parent)) == T_DIR
    ensures var es := EntriesOf(Get(a, Mask(parent)));
      && Mask(parent) in TreeOf(a).dirs && TreeOf(a).dirs[Mask(parent)] == es
      && Readdir(a, parent) == Some(es) && Print(es) == Get(a, Mask(parent))
      && T.NamesDistinct(es) && Printable(es)
      && forall k :: 0 <= k < |es| ==> es[k].inum in a.files && Mask(es[k].inum) == es[k].inum
  {
    hide HeldUpTo, Print, Parse, T.OneName, T.Reachable;
    var es := EntriesOf(Get(a, Mask(parent)));
    assert Canonical(a.files[Mask(parent)].bytes);
    assert T.DirOk(TreeOf(a), TreeOf(a).dirs[Mask(parent)]);
    forall k | 0 <= k < |es| ensures es[k].inum in a.files && Mask(es[k].inum) == es[k].inum {
      assert PlainFile(es[k].inum, a.files[es[k].inum]);
    }
  }

  /** Where the name stands, and what it leads to. */
  lemma UnlinkTarget(a: Store, parent: U64, name: seq<Byte>) returns (k: nat)
    requires NsInv(a) && UnlinkStatus(a, parent, name) == OK
    ensures Lookup(a, parent, name).ino.Some?
    ensures var es, ino := EntriesOf(Get(a, Mask(parent))), Lookup(a, parent, name).ino.value;
      && Mask(parent) in TreeOf(a).dirs && TreeOf(a).dirs[Mask(parent)] == es
      && k < |es| && es[k].name == name && es[k].inum == ino
      && Mask(ino) == ino && ino in a.files && a.files[ino].typ == T_FILE && ino != Mask(parent)
      && Readdir(a, parent) == Some(es) && Print(es) == Get(a, Mask(parent))
      && T.NamesDistinct(es) && Printable(es)
  {
    hide NsInv, EntriesOf, TreeOf, Print, Parse, Printable, T.NamesDistinct;
    DirFacts(a, parent);
    var es := EntriesOf(Get(a, Mask(parent)));
    T.BindingsDomain(es, name);
    k :| 0 <= k < |es| && es[k].name == name && es[k].inum == Lookup(a, parent, name).ino.value;
  }

  /** Exactly which files a successful unlink changes, and to what. */
  lemma UnlinkFiles(a: Store, parent: U64, name: seq<Byte>, ino: nat)
    requires UnlinkStatus(a, parent, name) == OK && ino == Mask(Lookup(a, parent, name).ino.value) != Mask(parent)
    ensures Readdir(a, parent).Some?
    ensures var a' := Unlink(a, parent, name);
      && a'.files.Keys == a.files.Keys - {ino}
      && (forall i :: i in a.files && i != ino && i != Mask(parent) ==> a'.files[i] == a.files[i])
      && Mask(parent) in a'.files && Mask(parent) in a.files
      && a'.files[Mask(parent)].typ == a.files[Mask(parent)].typ == T_DIR
      && a'.files[Mask(parent)].bytes == Reprinted(a, parent, name)
  {
  }

  /** On the tree, a successful unlink removes one leaf. */
  lemma UnlinkTree(a: Store, parent: U64, name: seq<Byte>, k: nat)
    requires NsInv(a) && UnlinkStatus(a, parent, name) == OK && Mask(parent) in TreeOf(a).dirs
    requires k < |TreeOf(a).dirs[Mask(parent)]| && TreeOf(a).dirs[Mask(parent)][k].name == name
    ensures var a', t := Unlink(a, parent, name), TreeOf(a);
      && t.dirs[Mask(parent)][k].inum !in t.dirs
      && TreeOf(a') == T.RemoveLeaf(t, Mask(parent), k) && DirsCanonical(a'.files)
      && EntriesOf(Get(a', Mask(parent))) == Without(t.dirs[Mask(parent)], name)
  {
    hide Print, Parse, T.TreeInv, StoreOk, SlashFree, Unlink, UnlinkStatus, Lookup, Without;
    var dir, t, a' := Mask(parent), TreeOf(a), Unlink(a, parent, name);
    var k' := UnlinkTarget(a, parent, name);
    var es := t.dirs[dir];
    assert k == k';
    UnlinkFiles(a, parent, name, es[k].inum);
    T.WithoutAt(es, k);
    var rest := es[..k] + es[k + 1..];
    assert Printable(rest);
    CanonicalPrint(rest);
    var t' := T.RemoveLeaf(t, dir, k);
    forall i | i in a'.files && a'.files[i].typ == T_DIR
      ensures Canonical(a'.files[i].bytes) && i in t'.dirs && t'.dirs[i] == EntriesOf(a'.files[i].bytes)
    {
    }
    assert TreeOf(a').dirs == t'.dirs;
  }

  lemma UnlinkKeepsInv(a: Store, parent: U64, name: seq<Byte>)
    requires NsInv(a)
    ensures UnlinkFits(a, parent, name) && NsInv(Unlink(a, parent, name))
  {
    if UnlinkStatus(a, parent, name) == OK {
      hide Print, Parse, T.TreeInv, StoreOk, UnlinkStatus, DirsCanonical, DirsOf, Put, Remove, Reprinted;
      var k := UnlinkTarget(a, parent, name);
      UnlinkTree(a, parent, name, k);
      T.RemoveLeafInv(TreeOf(a), Mask(parent), k);
      UnlinkRoom(a, parent, name);
      RemoveOk(a, Mask(Lookup(a, parent, name).ino.value));
      PutOk(Remove(a, Mask(Lookup(a, parent, name).ino.value)), Mask(parent), Reprinted(a, parent, name));
    }
  }

  lemma {:induction false} PrintShrinks(es: seq<Dirent>, name: seq<Byte>)
    ensures |Print(Without(es, name))| <= |Print(es)|
  {
    if es != [] {
      PrintShrinks(es[1..], name);
      if es[0].name != name {
        assert Without(es, name)[1..] == Without(es[1..], name);
      } else {
        assert Without(es, name) == Without(es[1..], name);
      }
    }
  }

  /** A shorter content never needs more blocks. */
  lemma ShrinkFits(f: File, bytes: seq<Byte>)
    requires |bytes| <= |f.bytes| && (f.pinned ==> f.bytes == [])
    ensures Held(Rewritten(f, bytes)) <= Held(f)
  {
  }

  /** Unlinking needs no space, whatever the disk looks like. */
  lemma UnlinkRoom(a: Store, parent: U64, name: seq<Byte>)
    requires NsInv(a)
    ensures UnlinkFits(a, parent, name)
  {
    hide T.TreeInv, Print, Parse, UnlinkStatus, Held, HeldUpTo;
    if UnlinkStatus(a, parent, name) == OK {
      var k := UnlinkTarget(a, parent, name);
      var ino, dir := Lookup(a, parent, name).ino.value, Mask(parent);
      PrintShrinks(EntriesOf(Get(a, dir)), name);
      RemoveOk(a, Mask(ino));
      assert PlainFile(dir, a.files[dir]);
      ShrinkFits(a.files[dir], Reprinted(a, parent, name));
    }
  }

  /**
   * `unlink` acts as removal from a finite map: NOENT iff the name is unbound, IOERR for anything but
   * a regular file; otherwise the binding and the file go, and all other entries keep their order.
   */
  lemma UnlinkUnbinds(a: Store, parent: U64, name: seq<Byte>)
    requires NsInv(a)
    ensures var s, a', b := UnlinkStatus(a, parent, name), Unlink(a, parent, name), Bound(a, parent);
      && (s == NOENT <==> TypeOf(a, Mask(parent)) == T_DIR && name !in b)
      && (s == OK <==> TypeOf(a, Mask(parent)) == T_DIR && name in b && TypeOf(a, b[name]) == T_FILE)
      && s != EXIST
      && (s != OK ==> a' == a)
      && (s == OK ==>
        && Bound(a', parent) == b - {name}
        && a'.files.Keys == a.files.Keys - {b[name] as nat}
        && (forall i :: i in a'.files && i != Mask(parent) ==> a'.files[i] == a.files[i])
        && exists k :: 0 <= k < |EntriesOf(Get(a, Mask(parent)))| &&
             EntriesOf(Get(a', Mask(parent))) ==
               EntriesOf(Get(a, Mask(parent)))[..k] + EntriesOf(Get(a, Mask(parent)))[k + 1..])
  {
    LookupAgrees(a, parent, name);
    if TypeOf(a, Mask(parent)) == T_DIR && name in Bound(a, parent) {
      BoundSmall(a, parent, name);
    }
    if UnlinkStatus(a, parent, name) == OK {
      hide Print, Parse, T.TreeInv, StoreOk, Without, EntriesOf, Unlink, T.Bindings, NsInv, UnlinkStatus, Lookup;
      var k := UnlinkTarget(a, parent, name);
      UnlinkTree(a, parent, name, k);
      var es := EntriesOf(Get(a, Mask(parent)));
      T.WithoutAt(es, k);
      T.WithoutUnbinds(es, name);
      UnlinkFiles(a, parent, name, es[k].inum);
    }
  }

  /**
   * An unlinked file should free its extent. All its blocks come back exactly when it fits the direct
   * blocks and is not an empty file that still holds one.
   */
  lemma UnlinkReclaims(a: Store, parent: U64, name: seq<Byte>)
    requires NsInv(a) && UnlinkStatus(a, parent, name) == OK
    ensures name in Bound(a, parent) && Bound(a, parent)[name] in a.files
    ensures var f := a.files[Bound(a, parent)[name]];
      Unlink(a, parent, name).leaked == a.leaked <==>
        |f.bytes| <= NDIRECT * BLOCK_SIZE && !(f.bytes == [] && f.pinned)
  {
    hide NsInv, EntriesOf, TreeOf, Print, Parse, Held, Reclaimed, T.Bindings, T.NamesDistinct, Printable;
    var k := UnlinkTarget(a, parent, name);
    T.BindingsDomain(EntriesOf(Get(a, Mask(parent))), name);
    RemoveReclaims(a, Bound(a, parent)[name]);
  }

  /** Bound names lead to inode numbers that the mask leaves alone. */
  lemma BoundSmall(a: Store, parent: U64, name: seq<Byte>)
    requires NsInv(a) && TypeOf(a, Mask(parent)) == T_DIR && name in Bound(a, parent)
    ensures Mask(Bound(a, parent)[name]) == Bound(a, parent)[name]
  {
    hide NsInv, EntriesOf, TreeOf, Print, Printable, T.NamesDistinct;
    DirFacts(a, parent);
    var es := EntriesOf(Get(a, Mask(parent)));
    T.BindingsDomain(es, name);
  }
}
