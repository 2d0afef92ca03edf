/** Arbitrary runs of the client on a fresh file system. */
module NamespaceRuns {
  import opened Wrappers
  import opened Bytes
  import opened DirCodec
  import opened StoreSpec
  import opened StoreLaws
  import opened ExtentLayer
  import opened ChfsLayer
  import opened Namespace
  import C = ClientSpec
  import opened ByteRange
  import opened Runs
  import T = Tree

  datatype Call =
    | Create(parent: U64, name: seq<Byte>)
    | Mkdir(parent: U64, name: seq<Byte>)
    | Symlink(parent: U64, path: seq<Byte>, name: seq<Byte>)
    | Readlink(ino: U64)
    | Lookup(parent: U64, name: seq<Byte>)
    | Readdir(dir: U64)
    | Unlink(parent: U64, name: seq<Byte>)
    | Read(ino: U64, size: U64, off: nat)
    | Write(ino: U64, off: nat, data: seq<Byte>)
    | SetAttr(ino: U64, size: U64)

  datatype Result =
    | Entry(outcome: C.Outcome)
    | Link(path: Option<seq<Byte>>)
    | Listing(entries: Option<seq<Dirent>>)
    | Unlinked(status: C.Status)
    | Data(bytes: seq<Byte>)
    | Count(n: nat)
    | Done

  /** There is room for what the call writes. */
  predicate Feasible(a: Store, c: Call) {
    match c
    case Create(parent, name) => C.MakeFits(a, parent, name, T_FILE, None)
    case Mkdir(parent, name) => !C.IsDots(name) ==> C.MakeFits(a, parent, name, T_DIR, None)
    case Symlink(parent, path, name) => C.MakeFits(a, parent, name, T_SYMBOLIC, Some(path))
    case Unlink(parent, name) => C.UnlinkFits(a, parent, name)
    case Write(ino, off, data) => C.WriteFits(a, ino, off, data)
    case SetAttr(ino, size) => C.SetAttrFits(a, ino, size)
    case _ => true
  }

  /** What the kernel guarantees: no slash in a name, no write to a directory. And an inode is left. */
  predicate Permitted(a: Store, c: Call) {
    Feasible(a, c) &&
    match c
    case Create(parent, name) => SlashFree(name) && InodeFor(a, parent, name)
    case Mkdir(parent, name) => SlashFree(name) && InodeFor(a, parent, name)
    case Symlink(parent, path, name) => SlashFree(name) && InodeFor(a, parent, name)
    case Write(ino, off, data) => TypeOf(a, Mask(ino)) != T_DIR
    case SetAttr(ino, size) => TypeOf(a, Mask(ino)) != T_DIR
    case _ => true
  }

  function After(a: Store, c: Call): Store {
    match c
    case Create(parent, name) => C.Make(a, parent, name, T_FILE, None)
    case Mkdir(parent, name) => if C.IsDots(name) then a else C.Make(a, parent, name, T_DIR, None)
    case Symlink(parent, path, name) => C.Make(a, parent, name, T_SYMBOLIC, Some(path))
    case Unlink(parent, name) => C.Unlink(a, parent, name)
    case Write(ino, off, data) => C.Write(a, ino, off, data)
    case SetAttr(ino, size) => C.SetAttr(a, ino, size)
    case _ => a
  }

  function Answer(a: Store, c: Call): Result {
    match c
    case Create(parent, name) => Entry(C.MakeOutcome(a, parent, name))
    case Mkdir(parent, name) =>
      Entry(if C.IsDots(name) then C.Outcome(C.IOERR, None) else C.MakeOutcome(a, parent, name))
    case Symlink(parent, path, name) => Entry(C.MakeOutcome(a, parent, name))
    case Readlink(ino) => Link(C.Readlink(a, ino))
    case Lookup(parent, name) => Entry(C.Lookup(a, parent, name))
    case Readdir(dir) => Listing(C.Readdir(a, dir))
    case Unlink(parent, name) => Unlinked(C.UnlinkStatus(a, parent, name))
    case Read(ino, size, off) => Data(C.ReadRange(Get(a, Mask(ino)), size, off))
    case Write(ino, off, data) => Count(|data|)
    case SetAttr(_, _) => Done
  }

  method Perform(fs: ChfsClient, c: Call) returns (r: Result)
    requires fs.Valid() && Feasible(fs.Abs(), c)
    modifies fs.ec.Repr
    ensures fs.Valid() && fs.Abs() == After(old(fs.Abs()), c) && r == Answer(old(fs.Abs()), c)
  {
    hide C.Make, C.MakeFits, C.MakeOutcome, C.Unlink, C.UnlinkFits, C.UnlinkStatus, C.Write, C.WriteFits, C.SetAttr;
    hide C.SetAttrFits, C.Lookup, C.Readdir, C.Readlink, C.ReadRange, ChfsClient.Valid, ChfsClient.Abs;
    match c
    case Create(parent, name) =>
      var o := fs.Create(parent, name);
      return Entry(o);
    case Mkdir(parent, name) =>
      var o := fs.Mkdir(parent, name);
      return Entry(o);
    case Symlink(parent, path, name) =>
      var o := fs.CreateSymbolicLink(parent, path, name);
      return Entry(o);
    case Readlink(ino) =>
      var p := fs.ParseSymbolicLink(ino);
      return Link(p);
    case Lookup(parent, name) =>
      var o := fs.Lookup(parent, name);
      return Entry(o);
    case Readdir(dir) =>
      var status, list := fs.Readdir(dir);
      return Listing(if status == C.OK then Some(list) else None);
    case Unlink(parent, name) =>
      var s := fs.Unlink(parent, name);
      return Unlinked(s);
    case Read(ino, size, off) =>
      var d := fs.Read(ino, size, off);
      return Data(d);
    case Write(ino, off, data) =>
      var n := fs.Write(ino, off, data);
      return Count(n);
    case SetAttr(ino, size) =>
      fs.SetAttr(ino, size);
      return Done;
  }

  /** The client as a service to anybody, and to a caller that keeps to what is permitted. */
  const CLIENT: Service<Store, Call, Result> := Service(Feasible, After, Answer)
  const KERNEL: Service<Store, Call, Result> := Service(Permitted, After, Answer)

  /** What is permitted is feasible, and both services do the same. */
  lemma {:induction false} KernelIsClient(a: Store, cs: seq<Call>)
    ensures KERNEL.AllAllowed(a, cs) ==> CLIENT.AllAllowed(a, cs)
    ensures KERNEL.Final(a, cs) == CLIENT.Final(a, cs)
    decreases |cs|
  {
    if cs != [] {
      hide Feasible, After;
      KernelIsClient(After(a, cs[0]), cs[1..]);
    }
  }

  /** Every run of the client on the block store answers, and ends, as the specification on the map of files does. */
  method RunOn(fs: ChfsClient, cs: seq<Call>) returns (results: seq<Result>)
    requires fs.Valid() && CLIENT.AllAllowed(fs.Abs(), cs)
    modifies fs.ec.Repr
    ensures fs.Valid() && fs.Abs() == CLIENT.Final(old(fs.Abs()), cs)
    ensures results == CLIENT.Answers(old(fs.Abs()), cs)
    ensures old(NsInv(fs.Abs())) && KERNEL.AllAllowed(old(fs.Abs()), cs) ==> NsInv(fs.Abs())
  {
    ghost var a := fs.Abs();
    results := [];
    for i := 0 to |cs|
      invariant fs.Valid()
      invariant CLIENT.AllAllowed(fs.Abs(), cs[i..])
      invariant CLIENT.Final(a, cs) == CLIENT.Final(fs.Abs(), cs[i..])
      invariant CLIENT.Answers(a, cs) == results + CLIENT.Answers(fs.Abs(), cs[i..])
    {
      hide ChfsClient.Valid, ChfsClient.Abs, Feasible, After, Answer, NsInv, Permitted;
      CLIENT.Turn(fs.Abs(), cs, i, results);
      var r := Perform(fs, cs[i]);
      results := results + [r];
    }
    hide NsInv, ChfsClient.Valid, ChfsClient.Abs;
    if NsInv(a) && KERNEL.AllAllowed(a, cs) {
      KernelIsClient(a, cs);
      RunKeepsInv(a, cs);
    }
  }

  /** From the fresh disk: the client's own disk holds one tree after every permitted run. */
  method Run(cs: seq<Call>) returns (fs: ChfsClient, results: seq<Result>)
    requires CLIENT.AllAllowed(INITIAL, cs)
    ensures fs.Valid() && fresh(fs.ec.Repr) && fs.Abs() == CLIENT.Final(INITIAL, cs)
    ensures results == CLIENT.Answers(INITIAL, cs)
    ensures KERNEL.AllAllowed(INITIAL, cs) ==> NsInv(fs.Abs())
  {
    hide NsInv, ChfsClient.Valid, ChfsClient.Abs;
    fs := new ChfsClient();
    InitialInv();
    results := RunOn(fs, cs);
  }

  // ---- The tree over runs ----------------------------------------------------------------------------

  /** Rewriting a file that is not a directory does not touch the tree. */
  lemma PutKeepsInv(a: Store, i: nat, bytes: seq<Byte>)
    requires NsInv(a) && TypeOf(a, i) != T_DIR && Fits(a, i, bytes)
    ensures NsInv(Put(a, i, bytes)) && TreeOf(Put(a, i, bytes)) == TreeOf(a)
  {
    hide StoreOk, T.TreeInv, Held, DirsCanonical, DirsOf;
    PutOk(a, i, bytes);
    if i in a.files {
      NotADirectory(a.files, i, Rewritten(a.files[i], bytes));
    }
  }

  lemma NotADirectory(files: map<nat, File>, i: nat, f: File)
    requires i in files && files[i].typ != T_DIR && f.typ != T_DIR
    ensures DirsOf(files[i := f]) == DirsOf(files) && (DirsCanonical(files) ==> DirsCanonical(files[i := f]))
    ensures files[i := f].Keys == files.Keys
  {
  }

  lemma StepKeepsInv(a: Store, c: Call)
    requires NsInv(a) && Permitted(a, c)
    ensures NsInv(After(a, c))
  {
    hide NsInv, C.Make, C.MakeFits, C.MakeOutcome, C.Unlink, C.UnlinkFits, Put, Fits, NextInode, SlashFree;
    match c {
      case Create(parent, name) => MakeKeepsInv(a, parent, name, T_FILE, None);
      case Mkdir(parent, name) =>
        if !C.IsDots(name) {
          MakeKeepsInv(a, parent, name, T_DIR, None);
        }
      case Symlink(parent, path, name) => MakeKeepsInv(a, parent, name, T_SYMBOLIC, Some(path));
      case Unlink(parent, name) => UnlinkKeepsInv(a, parent, name);
      case Write(ino, off, data) => PutKeepsInv(a, Mask(ino), C.Written(Get(a, Mask(ino)), off, data));
      case SetAttr(ino, size) =>
        if |Get(a, Mask(ino))| != size {
          PutKeepsInv(a, Mask(ino), C.Sized(Get(a, Mask(ino)), size));
        }
      case _ =>
    }
  }

  /** In every state a permitted run reaches, the directories form one tree over the allocated inodes. */
  lemma {:induction false} RunKeepsInv(a: Store, cs: seq<Call>)
    requires NsInv(a) && KERNEL.AllAllowed(a, cs)
    ensures NsInv(KERNEL.Final(a, cs))
    decreases |cs|
  {
    if cs != [] {
      hide NsInv, Permitted, After;
      StepKeepsInv(a, cs[0]);
      RunKeepsInv(After(a, cs[0]), cs[1..]);
    }
  }

  /** From the fresh disk: names lead only to live inodes, and each but the root has exactly one name. */
  lemma TreeAfterRun(cs: seq<Call>)
    requires KERNEL.AllAllowed(INITIAL, cs)
    ensures var a := KERNEL.Final(INITIAL, cs); var t := TreeOf(a);
      && DirsCanonical(a.files)
      && (forall i :: i in t.dirs ==> T.NamesDistinct(t.dirs[i]))
      && (forall i, n :: T.Edge(t, i, n) ==> n in a.files && n != ROOT)
      && (forall n :: n in a.files && n != ROOT ==> exists i :: T.Edge(t, i, n))
      && T.OneName(t)
      && (forall n :: n in a.files ==> T.Reachable(t, n))
  {
    InitialInv();
    RunKeepsInv(INITIAL, cs);
    var a := KERNEL.Final(INITIAL, cs);
    var t := TreeOf(a);
    hide StoreOk, DirsCanonical, DirsOf, T.OneName, T.Reachable;
    forall i, n | T.Edge(t, i, n) ensures n in a.files && n != ROOT {
      assert T.DirOk(t, t.dirs[i]);
    }
    forall n | n in a.files && n != ROOT ensures exists i :: T.Edge(t, i, n) {
      T.EveryNodeNamed(t, n);
    }
    forall i | i in t.dirs ensures T.NamesDistinct(t.dirs[i]) {
      assert T.DirOk(t, t.dirs[i]);
    }
  }

  // ---- File contents over runs -----------------------------------------------------------------------

  /** The call writes file `i`, sets its size, or unlinks a name that leads to it. */
  predicate Touches(a: Store, c: Call, i: nat) {
    match c
    case Write(ino, _, _) => Mask(ino) == i
    case SetAttr(ino, _) => Mask(ino) == i
    case Unlink(parent, name) => name in Bound(a, parent) && Bound(a, parent)[name] == i
    case _ => false
  }

  predicate Untouched(a: Store, cs: seq<Call>, i: nat)
    decreases |cs|
  {
    cs == [] || (!Touches(a, cs[0], i) && Untouched(After(a, cs[0]), cs[1..], i))
  }

  lemma StepKeepsFile(a: Store, c: Call, i: nat)
    requires NsInv(a) && Permitted(a, c) && !Touches(a, c, i)
    requires i in a.files && a.files[i].typ != T_DIR
    ensures i in After(a, c).files && After(a, c).files[i] == a.files[i]
  {
    hide NsInv, C.Make, C.MakeFits, C.MakeOutcome, C.Unlink, C.UnlinkFits, NextInode, SlashFree, Bound, EntriesOf, Held;
    hide C.UnlinkStatus;
    match c {
      case Create(parent, name) => MakeKeepsFile(a, parent, name, T_FILE, None, i);
      case Mkdir(parent, name) => MakeKeepsFile(a, parent, name, T_DIR, None, i);
      case Symlink(parent, path, name) => MakeKeepsFile(a, parent, name, T_SYMBOLIC, Some(path), i);
      case Unlink(parent, name) => UnlinkUnbinds(a, parent, name);
      case _ =>
    }
  }

  lemma MakeKeepsFile(a: Store, parent: U64, name: seq<Byte>, typ: nat, content: Option<seq<Byte>>, i: nat)
    requires NsInv(a) && SlashFree(name) && Sensible(typ, content)
    requires i in a.files && a.files[i].typ != T_DIR
    ensures var a' := C.Make(a, parent, name, typ, content); i in a'.files && a'.files[i] == a.files[i]
  {
    hide NsInv, C.Make, C.MakeOutcome, NextInode, SlashFree, Bound, EntriesOf;
    if C.MakeOutcome(a, parent, name).status != C.OK {
      MakeRefused(a, parent, name, typ, content);
    } else {
      MakeBinds(a, parent, name, typ, content);
    }
  }

  /** A file that a run neither writes nor unlinks is the same file after it. */
  lemma {:induction false} RunKeepsFile(a: Store, cs: seq<Call>, i: nat)
    requires NsInv(a) && KERNEL.AllAllowed(a, cs) && Untouched(a, cs, i)
    requires i in a.files && a.files[i].typ != T_DIR
    ensures i in KERNEL.Final(a, cs).files && KERNEL.Final(a, cs).files[i] == a.files[i]
    decreases |cs|
  {
    if cs != [] {
      hide NsInv, Permitted, After, Touches;
      StepKeepsInv(a, cs[0]);
      StepKeepsFile(a, cs[0], i);
      RunKeepsFile(After(a, cs[0]), cs[1..], i);
    }
  }

  /**
   * What is written is read back later: after a write to a file and any run that leaves the file alone,
   * creating, writing and unlinking others, each range reads as the data, the old bytes, and zeros in a hole.
   */
  lemma ReadBack(a: Store, ino: U64, off: nat, data: seq<Byte>, cs: seq<Call>, size: U64, from: nat)
    requires NsInv(a) && Mask(ino) in a.files && Permitted(a, Write(ino, off, data))
    requires var a1 := After(a, Write(ino, off, data));
      KERNEL.AllAllowed(a1, cs) && Untouched(a1, cs, Mask(ino))
    ensures var prev := Get(a, Mask(ino));
      var r := Answer(KERNEL.Final(After(a, Write(ino, off, data)), cs), Read(ino, size, from));
      && r.Data? && |r.bytes| == Max(0, Min(size, Max(|prev|, off + |data|) - from))
      && forall k :: 0 <= k < |r.bytes| ==> r.bytes[k] == ByteAfter(prev, off, data, from + k)
  {
    hide NsInv, C.ReadRange, C.Written, Held, ByteAfter;
    WriteThenRead(a, ino, off, data, size, from);
    StepKeepsInv(a, Write(ino, off, data));
    RunKeepsFile(After(a, Write(ino, off, data)), cs, Mask(ino));
  }
}
