/** Arbitrary runs of the extent service from a fresh disk. */
module ExtentRuns {
  import opened Bytes
  import opened Layout
  import opened ExtentLayer
  import S = StoreSpec
  import L = StoreLaws
  import opened Runs

  datatype Request =
    | Create(typ: Word)
    | Put(id: U64, bytes: seq<Byte>)
    | Get(id: U64)
    | GetAttr(id: U64)
    | Remove(id: U64)

  datatype Reply = Id(id: nat) | Done | Data(bytes: seq<Byte>) | Attr(typ: nat, size: nat)

  /** What the code demands of its callers and does not check: room for what is put. */
  predicate Allowed(a: S.Store, r: Request) {
    match r
    case Put(id, bytes) => S.Fits(a, Mask(id), bytes)
    case _ => true
  }

  function After(a: S.Store, r: Request): S.Store {
    match r
    case Create(typ) => S.Alloc(a, typ)
    case Put(id, bytes) => S.Put(a, Mask(id), bytes)
    case Remove(id) => S.Remove(a, Mask(id))
    case _ => a
  }

  function Answer(a: S.Store, r: Request): Reply {
    match r
    case Create(_) => Id(S.NextInode(a))
    case Get(id) => Data(S.Get(a, Mask(id)))
    case GetAttr(id) => Attr(S.TypeOf(a, Mask(id)), |S.Get(a, Mask(id))|)
    case _ => Done
  }

  const SERVICE: Service<S.Store, Request, Reply> := Service(Allowed, After, Answer)

  method Serve(s: ExtentServer, r: Request) returns (reply: Reply)
    requires s.Valid() && Allowed(s.Abs(), r)
    modifies s.Repr
    ensures s.Valid() && s.Abs() == After(old(s.Abs()), r) && reply == Answer(old(s.Abs()), r)
    ensures old(s.Leaked()) <= s.Leaked()
  {
    match r
    case Create(typ) =>
      var id := s.Create(typ);
      return Id(id);
    case Put(id, bytes) =>
      s.Put(id, bytes);
      return Done;
    case Get(id) =>
      var bytes := s.Get(id);
      return Data(bytes);
    case GetAttr(id) =>
      var a := s.GetAttr(id);
      return Attr(a.typ, a.size);
    case Remove(id) =>
      s.Remove(id);
      return Done;
  }

  /**
   * Every run, from every state: the disk, the free map and the inode table answer as the map from inode
   * numbers to typed byte strings would, and end up as its picture. A block that once leaked stays in use.
   */
  method RunOn(s: ExtentServer, rs: seq<Request>) returns (replies: seq<Reply>)
    requires s.Valid() && SERVICE.AllAllowed(s.Abs(), rs)
    modifies s.Repr
    ensures s.Valid() && s.Abs() == SERVICE.Final(old(s.Abs()), rs)
    ensures replies == SERVICE.Answers(old(s.Abs()), rs)
    ensures old(s.Leaked()) <= s.Leaked() <= s.InUse()
  {
    replies := [];
    for i := 0 to |rs|
      invariant s.Valid() && old(s.Leaked()) <= s.Leaked()
      invariant SERVICE.AllAllowed(s.Abs(), rs[i..])
      invariant SERVICE.Final(old(s.Abs()), rs) == SERVICE.Final(s.Abs(), rs[i..])
      invariant SERVICE.Answers(old(s.Abs()), rs) == replies + SERVICE.Answers(s.Abs(), rs[i..])
    {
      hide ExtentServer.Valid, ExtentServer.Abs, ExtentServer.Leaked, Allowed, After, Answer;
      SERVICE.Turn(s.Abs(), rs, i, replies);
      var reply := Serve(s, rs[i]);
      replies := replies + [reply];
    }
    s.SpaceShown();
  }

  /** From the fresh disk, with nothing but the requests. */
  method Run(rs: seq<Request>) returns (s: ExtentServer, replies: seq<Reply>)
    requires SERVICE.AllAllowed(S.INITIAL, rs)
    ensures s.Valid() && fresh(s.Repr) && s.Abs() == SERVICE.Final(S.INITIAL, rs)
    ensures replies == SERVICE.Answers(S.INITIAL, rs)
  {
    s := new ExtentServer();
    replies := RunOn(s, rs);
  }

  /** Only the lower 31 bits of a number count: two numbers that agree in them name the same file. */
  lemma MaskExactly(a: S.Store, id: U64, bytes: seq<Byte>)
    ensures 0 <= Mask(id) < 2147483648 && (id - Mask(id)) % 2147483648 == 0
    ensures id < 2147483648 ==> Mask(id) == id
    ensures forall id2: U64 :: (id - id2) % 2147483648 == 0 ==>
      Answer(After(a, Put(id, bytes)), Get(id2)) == Data(if Mask(id) in a.files then bytes else [])
  {
  }

  predicate Touches(r: Request, i: nat) {
    match r
    case Put(id, _) => Mask(id) == i
    case Remove(id) => Mask(id) == i
    case _ => false
  }

  /** Whatever other files go through, a file keeps its type and its bytes until it is put or removed. */
  lemma {:induction false} Undisturbed(a: S.Store, rs: seq<Request>, i: nat)
    requires i in a.files && forall r :: r in rs ==> !Touches(r, i)
    ensures i in SERVICE.Final(a, rs).files && SERVICE.Final(a, rs).files[i] == a.files[i]
    decreases |rs|
  {
    if rs != [] {
      hide S.FirstFree;
      assert !Touches(rs[0], i);
      var b := After(a, rs[0]);
      assert i in b.files && b.files[i] == a.files[i];
      Undisturbed(b, rs[1..], i);
    }
  }

  /** A get returns precisely the bytes last put, whatever else was served in between. */
  lemma ReadsLastWrite(a: S.Store, id: U64, bytes: seq<Byte>, rs: seq<Request>)
    requires Mask(id) in a.files && forall r :: r in rs ==> !Touches(r, Mask(id))
    ensures Answer(SERVICE.Final(After(a, Put(id, bytes)), rs), Get(id)) == Data(bytes)
    ensures Answer(SERVICE.Final(After(a, Put(id, bytes)), rs), GetAttr(id)) == Attr(S.TypeOf(a, Mask(id)), |bytes|)
  {
    Undisturbed(After(a, Put(id, bytes)), rs, Mask(id));
  }

  /** The last inode number handed out; `start` if there was none. */
  function LastGiven(replies: seq<Reply>, start: nat): nat {
    if replies == [] then start
    else LastGiven(replies[1..], if replies[0].Id? && replies[0].id != 0 then replies[0].id else start)
  }

  /** The search for a free inode always starts from the last one handed out, whatever was put or removed since. */
  lemma {:induction false} RotorAfterRun(a: S.Store, rs: seq<Request>)
    ensures SERVICE.Final(a, rs).rotor == LastGiven(SERVICE.Answers(a, rs), a.rotor)
    decreases |rs|
  {
    if rs != [] {
      hide S.FirstFree;
      assert SERVICE.Answers(a, rs)[1..] == SERVICE.Answers(After(a, rs[0]), rs[1..]);
      RotorAfterRun(After(a, rs[0]), rs[1..]);
    }
  }

  predicate Fills(r: Request, i: nat) {
    r.Put? && Mask(r.id) == i && r.bytes != []
  }

  predicate Drops(r: Request, i: nat) {
    r.Remove? && Mask(r.id) == i
  }

  /** A file holds a block for good as soon as it was given content once. */
  lemma {:induction false} HoldsOnceFilled(a: S.Store, rs: seq<Request>, i: nat)
    requires i in a.files && forall r :: r in rs ==> !Drops(r, i)
    ensures i in SERVICE.Final(a, rs).files
    ensures S.DataBlocks(SERVICE.Final(a, rs).files[i]) > 0 <==>
      S.DataBlocks(a.files[i]) > 0 || exists r :: r in rs && Fills(r, i)
    decreases |rs|
  {
    if rs != [] {
      hide S.FirstFree;
      assert !Drops(rs[0], i);
      var b := After(a, rs[0]);
      assert i in b.files;
      assert S.DataBlocks(b.files[i]) > 0 <==> S.DataBlocks(a.files[i]) > 0 || Fills(rs[0], i);
      HoldsOnceFilled(b, rs[1..], i);
      assert forall r :: r in rs <==> r == rs[0] || r in rs[1..];
    }
  }

  /**
   * Removal in terms of what callers did: a file created and served in any way gives all its blocks back
   * exactly when it fits the direct blocks and is not an emptied one that had content at some time.
   */
  lemma RemovalAfterRun(a: S.Store, typ: Word, rs: seq<Request>)
    requires S.NextInode(a) != 0 && typ % 0x1_0000 != 0
    requires forall r :: r in rs ==> !Drops(r, S.NextInode(a))
    ensures var i, b := S.NextInode(a), SERVICE.Final(After(a, Create(typ)), rs);
      && i in b.files
      && (S.Remove(b, i).leaked == b.leaked <==>
           |S.Get(b, i)| <= NDIRECT * BLOCK_SIZE && (S.Get(b, i) == [] ==> forall r :: r in rs ==> !Fills(r, i)))
  {
    hide S.NextInode, S.Held, S.Reclaimed;
    var i, a1 := S.NextInode(a), After(a, Create(typ));
    HoldsOnceFilled(a1, rs, i);
    L.RemoveReclaims(SERVICE.Final(a1, rs), i);
  }

  /** Over every run the blocks in use are those the live files hold and those that leaked. */
  lemma {:induction false} AlwaysBalanced(a: S.Store, rs: seq<Request>)
    requires L.StoreOk(a) && SERVICE.AllAllowed(a, rs)
    ensures L.StoreOk(SERVICE.Final(a, rs)) && SERVICE.Final(a, rs).leaked >= a.leaked
    decreases |rs|
  {
    if rs != [] {
      hide L.StoreOk, S.Put, S.Remove, S.Alloc, S.NextInode;
      match rs[0] {
        case Create(typ) => L.AllocOk(a, typ);
        case Put(id, bytes) => L.PutOk(a, Mask(id), bytes);
        case Remove(id) => L.RemoveOk(a, Mask(id));
        case _ =>
      }
      AlwaysBalanced(After(a, rs[0]), rs[1..]);
    }
  }
}
