/** What a caller of the client sees: names, kinds and room, without the terms of the specification. */
module ClientLaws {
  import opened Wrappers
  import opened Bytes
  import opened Layout
  import opened DirCodec
  import opened StoreSpec
  import opened StoreLaws
  import opened ExtentLayer
  import opened Namespace
  import opened NamespaceRuns
  import C = ClientSpec
  import T = Tree

  // ---- Creating ----------------------------------------------------------------------------------------

  /** `create` makes an empty file, of type 2. */
  lemma CreateExactly(a: Store, parent: U64, name: seq<Byte>)
    requires NsInv(a) && SlashFree(name)
    ensures var r := Answer(a, Create(parent, name));
      r.Entry? && Enters(a, parent, name, 2, [], r.outcome, After(a, Create(parent, name)))
  {
    hide NsInv, Enters, C.Make, C.MakeOutcome, SlashFree;
    MakeBinds(a, parent, name, T_FILE, None);
  }

  /** `create_symbolic_link` makes a link, of type 3, that holds the path. */
  lemma SymlinkExactly(a: Store, parent: U64, path: seq<Byte>, name: seq<Byte>)
    requires NsInv(a) && SlashFree(name)
    ensures var r := Answer(a, Symlink(parent, path, name));
      r.Entry? && Enters(a, parent, name, 3, path, r.outcome, After(a, Symlink(parent, path, name)))
  {
    hide NsInv, Enters, C.Make, C.MakeOutcome, SlashFree;
    MakeBinds(a, parent, name, T_SYMBOLIC, Some(path));
  }

  /** `mkdir` makes an empty directory, of type 1. Two names it refuses, and no other for its looks. */
  lemma MkdirExactly(a: Store, parent: U64, name: seq<Byte>)
    requires NsInv(a) && SlashFree(name)
    ensures var r, a' := Answer(a, Mkdir(parent, name)), After(a, Mkdir(parent, name));
      && r.Entry?
      && (r.outcome.status == C.IOERR <==>
           TypeOf(a, Mask(parent)) != 1 || name == ['.' as int] || name == ['.' as int, '.' as int])
      && (r.outcome.status == C.IOERR ==> a' == a && r.outcome.ino == None)
      && (name != ['.' as int] && name != ['.' as int, '.' as int] ==> Enters(a, parent, name, 1, [], r.outcome, a'))
  {
    hide NsInv, SlashFree, Bound, InodeLeft, NextInode, EntriesOf;
    MakeBinds(a, parent, name, T_DIR, None);
  }

  // ---- Kinds of inodes -----------------------------------------------------------------------------------

  /** The name just made leads to the inode just made. */
  lemma MadeThenFound(a: Store, parent: U64, name: seq<Byte>, typ: nat, content: Option<seq<Byte>>)
    requires NsInv(a) && SlashFree(name) && Sensible(typ, content) && InodeLeft(a)
    requires C.MakeOutcome(a, parent, name).status == C.OK
    ensures var a' := C.Make(a, parent, name, typ, content);
      && C.Lookup(a', parent, name) == C.Outcome(C.OK, Some(NextInode(a)))
      && TypeOf(a', NextInode(a)) == typ && Mask(NextInode(a)) == NextInode(a)
  {
    hide NsInv, SlashFree, C.MakeOutcome, C.Make, Bound, EntriesOf, DirsCanonical, InodeLeft, NextInode, C.Lookup;
    MakeBinds(a, parent, name, typ, content);
    InodesLeft(a);
    MakeTree(a, parent, name, typ, content);
    assert TypeOf(C.Make(a, parent, name, typ, content), Mask(parent)) == T_DIR by {
      MakeFiles(a, parent, name, typ, content);
    }
    LookupAgrees(C.Make(a, parent, name, typ, content), parent, name);
  }

  /**
   * `unlink` tells the kinds apart: it takes a regular file just made, and refuses a symbolic link and a directory,
   * which then stay. Only the link can be read as one.
   */
  lemma KindsApart(a: Store, parent: U64, name: seq<Byte>, path: seq<Byte>)
    requires NsInv(a) && SlashFree(name) && InodeLeft(a)
    requires TypeOf(a, Mask(parent)) == 1 && name !in Bound(a, parent)
    ensures var a', i := After(a, Create(parent, name)), NextInode(a);
      && TypeOf(a', i) == 2 && Answer(a', Unlink(parent, name)) == Unlinked(C.OK)
      && Answer(a', Readlink(i)) == Link(None)
    ensures var a', i := After(a, Symlink(parent, path, name)), NextInode(a);
      && TypeOf(a', i) == 3 && Answer(a', Unlink(parent, name)) == Unlinked(C.IOERR)
      && After(a', Unlink(parent, name)) == a' && Answer(a', Readlink(i)) == Link(Some(path))
    ensures var a', i := After(a, Mkdir(parent, name)), NextInode(a);
      name != ['.' as int] && name != ['.' as int, '.' as int] ==>
        && TypeOf(a', i) == 1 && Answer(a', Unlink(parent, name)) == Unlinked(C.IOERR)
        && After(a', Unlink(parent, name)) == a' && Answer(a', Readlink(i)) == Link(None)
  {
    hide NsInv, SlashFree, C.MakeOutcome, C.Make, Bound, InodeLeft, NextInode, C.Lookup;
    assert C.MakeOutcome(a, parent, name).status == C.OK by {
      NotRefused(a, parent, name);
    }
    MadeThenFound(a, parent, name, T_FILE, None);
    MadeThenFound(a, parent, name, T_SYMBOLIC, Some(path));
    MadeThenFound(a, parent, name, T_DIR, None);
    LinkRoundTrip(a, parent, name, path);
  }

  lemma NotRefused(a: Store, parent: U64, name: seq<Byte>)
    requires NsInv(a) && TypeOf(a, Mask(parent)) == T_DIR && name !in Bound(a, parent)
    ensures C.MakeOutcome(a, parent, name).status == C.OK
  {
    hide Bound, C.Lookup;
    LookupAgrees(a, parent, name);
  }

  // ---- Undoing -------------------------------------------------------------------------------------------

  /** Unlinking what was just created restores every file: types, bytes, and which inodes there are. */
  lemma CreateThenUnlink(a: Store, parent: U64, name: seq<Byte>)
    requires NsInv(a) && Permitted(a, Create(parent, name))
    requires TypeOf(a, Mask(parent)) == 1 && name !in Bound(a, parent)
    ensures var a1 := After(a, Create(parent, name)); var a2 := After(a1, Unlink(parent, name));
      && Answer(a1, Unlink(parent, name)) == Unlinked(C.OK)
      && a2.files.Keys == a.files.Keys
      && forall i :: i in a.files ==> TypeOf(a2, i) == TypeOf(a, i) && Get(a2, i) == Get(a, i)
  {
    hide NsInv, SlashFree, C.Make, C.MakeFits, C.MakeOutcome, C.Unlink, C.UnlinkStatus, InodeLeft, NextInode, C.Lookup;
    hide Bound, EntriesOf, Print, Parse, TreeOf, T.NamesDistinct, Printable;
    var a1, ino, dir := After(a, Create(parent, name)), NextInode(a), Mask(parent);
    NotRefused(a, parent, name);
    InodesLeft(a);
    StepKeepsInv(a, Create(parent, name));
    MakeBinds(a, parent, name, T_FILE, None);
    MadeThenFound(a, parent, name, T_FILE, None);
    KindsApart(a, parent, name, []);
    MakeFiles(a, parent, name, T_FILE, None);
    UnlinkUnbinds(a1, parent, name);
    UnlinkFiles(a1, parent, name, ino);
    ParentRestored(a, a1, parent, name);
  }

  /** A directory that gained one entry and lost it again holds the bytes it held before. */
  lemma ParentRestored(a: Store, a1: Store, parent: U64, name: seq<Byte>)
    requires NsInv(a) && NsInv(a1) && C.UnlinkStatus(a1, parent, name) == C.OK
    requires TypeOf(a, Mask(parent)) == T_DIR && TypeOf(a1, Mask(parent)) == T_DIR
    requires exists e: Dirent ::
      e.name == name && EntriesOf(Get(a1, Mask(parent))) == EntriesOf(Get(a, Mask(parent))) + [e]
    ensures Get(C.Unlink(a1, parent, name), Mask(parent)) == Get(a, Mask(parent))
    ensures TypeOf(C.Unlink(a1, parent, name), Mask(parent)) == T_DIR
  {
    hide NsInv, C.Unlink, C.UnlinkStatus, C.Lookup, EntriesOf, Print, Parse, Printable, T.NamesDistinct, C.Without;
    var es, es1, dir := EntriesOf(Get(a, Mask(parent))), EntriesOf(Get(a1, Mask(parent))), Mask(parent);
    var k := UnlinkTarget(a1, parent, name);
    UnlinkTree(a1, parent, name, k);
    UnlinkKeepsInv(a1, parent, name);
    UnlinkFiles(a1, parent, name, es1[k].inum);
    DirFacts(a, parent);
    DirFacts(C.Unlink(a1, parent, name), parent);
    T.WithoutAt(es1, |es|);
    assert es1[..|es|] + es1[|es| + 1..] == es;
  }

  // ---- Room ----------------------------------------------------------------------------------------------

  /** The files fit the disk, and each fits one indirect block. */
  predicate OnDisk(a: Store) {
    a.inUse <= 31732 && forall i :: i in a.files ==> |a.files[i].bytes| <= 116736
  }

  lemma PutOnDisk(a: Store, i: nat, bytes: seq<Byte>)
    requires OnDisk(a)
    ensures Fits(a, i, bytes) <==> OnDisk(Put(a, i, bytes))
  {
    hide Held;
    if i in a.files {
      var b := Put(a, i, bytes);
      assert b.files[i].bytes == bytes;
      assert forall j :: j in a.files && j != i ==> b.files[j] == a.files[j];
    }
  }

  /** A longer content never needs fewer blocks. */
  lemma LongerHoldsMore(f: File, bytes: seq<Byte>)
    requires |f.bytes| <= |bytes| && bytes != []
    ensures Held(f) <= Held(Rewritten(f, bytes))
  {
  }

  /** Room that lacks for one file is not there after another one has grown. */
  lemma NotOnDisk(a: Store, i: nat, bytes: seq<Byte>, j: nat, longer: seq<Byte>)
    requires OnDisk(a) && j in a.files && j != i && !OnDisk(Put(a, i, bytes))
    requires |a.files[j].bytes| <= |longer| && longer != []
    ensures !OnDisk(Put(Put(a, i, bytes), j, longer))
  {
    hide Held;
    LongerHoldsMore(a.files[j], longer);
    PutOnDisk(a, i, bytes);
    if i in a.files && |bytes| > 116736 {
      assert Put(Put(a, i, bytes), j, longer).files[i].bytes == bytes;
    }
  }

  lemma MakeOnDisk(a: Store, parent: U64, name: seq<Byte>, typ: nat, content: Option<seq<Byte>>)
    requires NsInv(a) && Sensible(typ, content)
    ensures C.MakeFits(a, parent, name, typ, content) <==> OnDisk(C.Make(a, parent, name, typ, content))
  {
    hide PrintEntry, HeldUpTo, Held, NextInode, T.TreeInv, C.Lookup, DirsCanonical;
    if C.MakeOutcome(a, parent, name).status == C.OK {
      var a1, a2, dir := Alloc(a, typ), C.WithInode(a, typ, content), Mask(parent);
      var bytes := C.Extended(a, parent, name);
      AllocOk(a, typ);
      ParentIsThere(a, parent, name);
      assert OnDisk(a1);
      if content.Some? {
        PutOnDisk(a1, Mask(NextInode(a)), content.value);
      }
      if OnDisk(a2) {
        PutOnDisk(a2, dir, bytes);
      } else {
        NotOnDisk(a1, NextInode(a), content.value, dir, bytes);
      }
    }
  }

  lemma ParentIsThere(a: Store, parent: U64, name: seq<Byte>)
    requires C.MakeOutcome(a, parent, name).status == C.OK
    ensures Mask(parent) in a.files
    ensures |Get(a, Mask(parent))| < |C.Extended(a, parent, name)|
  {
    hide Filename;
  }

  /**
   * The only room a call needs is for its result: it is feasible exactly when the files after it fit the disk and
   * each of them fits one indirect block.
   */
  lemma FeasibleExactly(a: Store, c: Call)
    requires NsInv(a)
    ensures Feasible(a, c) <==> OnDisk(After(a, c))
  {
    hide NsInv, C.Make, C.MakeFits, C.MakeOutcome, C.Unlink, C.UnlinkFits, OnDisk, Put, Fits, C.Written, C.Sized;
    InvOnDisk(a);
    match c
    case Create(parent, name) => MakeOnDisk(a, parent, name, T_FILE, None);
    case Mkdir(parent, name) => MakeOnDisk(a, parent, name, T_DIR, None);
    case Symlink(parent, path, name) => MakeOnDisk(a, parent, name, T_SYMBOLIC, Some(path));
    case Unlink(parent, name) =>
      UnlinkKeepsInv(a, parent, name);
      InvOnDisk(C.Unlink(a, parent, name));
    case Write(ino, off, data) => PutOnDisk(a, Mask(ino), C.Written(Get(a, Mask(ino)), off, data));
    case SetAttr(ino, size) => PutOnDisk(a, Mask(ino), C.Sized(Get(a, Mask(ino)), size));
    case _ =>
  }

  lemma InvOnDisk(a: Store)
    requires NsInv(a)
    ensures OnDisk(a)
  {
    hide HeldUpTo, T.TreeInv, DirsCanonical;
    forall i | i in a.files ensures |a.files[i].bytes| <= 116736 {
      assert PlainFile(i, a.files[i]);
    }
  }

  // ---- Inodes that are not there ---------------------------------------------------------------------------

  /** A write to an inode that is not allocated is counted as done, and is lost. */
  lemma WriteNowhere(a: Store, ino: U64, off: nat, data: seq<Byte>, size: U64)
    requires Mask(ino) !in a.files
    ensures Feasible(a, Write(ino, off, data)) && After(a, Write(ino, off, data)) == a
    ensures Answer(a, Write(ino, off, data)) == Count(|data|)
    ensures After(a, SetAttr(ino, size)) == a && Answer(a, Read(ino, size, off)) == Data([])
  {
  }
}
