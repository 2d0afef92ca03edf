/** The extent service: inode numbers of the namespace layer meet the inode layer. */
module ExtentLayer {
  import opened Bytes
  import opened Layout
  import opened StoreSpec
  import opened StoreModel
  import opened InodeLayer

  /** `id &= 0x7fffffff`. */
  function Mask(id: U64): Word {
    id % 0x8000_0000
  }

  class ExtentServer {
    const im: InodeManager

    ghost const Repr: set<object>

    ghost predicate Valid()
      reads Repr
    {
      && im in Repr && im.bm in Repr && im.bm.d.blocks in Repr
      && im.Valid()
    }

    ghost function Abs(): Store
      requires Valid()
      reads Repr
    {
      im.Abs()
    }

    ghost function Leaked(): set<nat>
      requires Valid()
      reads Repr
    {
      im.Leaked()
    }

    ghost function InUse(): set<nat>
      requires Valid()
      reads Repr
    {
      im.bm.Used()
    }

    /** The store counts what the server holds: leaked blocks stay in use. */
    lemma SpaceShown()
      requires Valid()
      ensures Leaked() <= InUse() && |Leaked()| == Abs().leaked && |InUse()| == Abs().inUse
    {
      hide FileOk;
      forall b | b in Leaked() ensures b in InUse() {
        InvFacts(im.Image(), im.bm.Used(), im.owner);
      }
    }

    constructor ()
      ensures Valid() && fresh(Repr) && Abs() == INITIAL
    {
      var now: Word := *;
      var manager := new InodeManager(now);
      im := manager;
      Repr := {manager, manager.bm, manager.bm.d.blocks};
    }

    method Create(typ: Word) returns (id: U64)
      requires Valid()
      modifies Repr
      ensures Valid() && id == NextInode(old(Abs())) && Abs() == Alloc(old(Abs()), typ)
      ensures Leaked() == old(Leaked())
    {
      var now: Word := *;
      id := im.AllocInode(typ, now);
    }

    /** The bytes behind the string's buffer are whatever the memory holds there. */
    method Put(id: U64, buf: seq<Byte>)
      requires Valid() && Fits(Abs(), Mask(id), buf)
      modifies Repr
      ensures Valid() && Abs() == StoreSpec.Put(old(Abs()), Mask(id), buf)
      ensures Leaked() == old(Leaked())
    {
      var beyond := new Byte[BLOCK_SIZE];
      var atime: Word, ctime: Word, mtime: Word := *, *, *;
      assert (buf + beyond[..])[..|buf|] == buf;
      im.WriteFile(Mask(id), buf + beyond[..], |buf|, atime, ctime, mtime);
    }

    /** An inode that is not allocated reads as the empty string: `size` starts at 0. */
    method Get(id: U64) returns (buf: seq<Byte>)
      requires Valid()
      modifies Repr
      ensures Valid() && Abs() == old(Abs()) && buf == StoreSpec.Get(old(Abs()), Mask(id))
      ensures Leaked() == old(Leaked())
    {
      var now: Word := *;
      var cbuf, size := im.ReadFile(Mask(id), 0, now);
      if size == 0 {
        return [];
      }
      return cbuf[..size];
    }

    /** The record is zeroed first, so an inode that is not allocated has type 0. */
    method GetAttr(id: U64) returns (a: Attr)
      requires Valid()
      ensures a.typ == TypeOf(Abs(), Mask(id)) && a.size == |StoreSpec.Get(Abs(), Mask(id))|
      ensures if Mask(id) in Abs().files then
                var n := Node(im.Image(), Mask(id)); a.atime == n.atime && a.mtime == n.mtime && a.ctime == n.ctime
              else a == Attr(0, 0, 0, 0, 0)
    {
      a := im.GetAttr(Mask(id), Attr(0, 0, 0, 0, 0));
    }

    method Remove(id: U64)
      requires Valid()
      modifies Repr
      ensures Valid() && Abs() == StoreSpec.Remove(old(Abs()), Mask(id))
      ensures old(Leaked()) <= Leaked()
    {
      im.RemoveFile(Mask(id));
    }
  }
}
