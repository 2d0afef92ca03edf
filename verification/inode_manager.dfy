/** The inode layer: `inode_manager`, over the block layer. */
module InodeLayer {
  import opened Wrappers
  import opened Bytes
  import opened Layout
  import opened BlockLayer
  import opened StoreModel
  import Spec = StoreSpec

  /** `memcpy(dst + at, src, |src|)`. */
  method MemCpy(dst: array<Byte>, at: nat, src: seq<Byte>)
    requires at + |src| <= dst.Length
    modifies dst
    ensures dst[..] == old(dst[..at]) + src + old(dst[at + |src|..])
  {
    forall k | 0 <= k < |src| {
      dst[at + k] := src[k];
    }
  }

  /** A zeroed disk holds no file and no owned block. */
  lemma EmptyDisk(disk: seq<Block>)
    requires |disk| == BLOCK_NUM && forall i :: 0 <= i < BLOCK_NUM ==> disk[i] == ZeroBlock()
    ensures StoreInv(disk, {}, map[]) && AbsFiles(disk) == map[]
  {
  }

  lemma ZeroSlots(blocks: seq<Word>)
    requires |blocks| == NDIRECT + 1 && forall j :: 0 <= j < NDIRECT + 1 ==> blocks[j] == 0
    ensures forall k :: 0 <= k < SLOTS ==> Slots(blocks, ZeroBlock())[k] == 0
  {
  }

  /** An inode without blocks can replace one that is not allocated. */
  lemma FreshInode(disk: seq<Block>, owner: Owners, inum: nat, nd: Inode)
    requires StoreInv(disk, owner.Keys, owner) && 1 <= inum <= INODE_NUM && Node(disk, inum).typ == 0
    requires nd.size == 0 && |nd.blocks| == NDIRECT + 1 && forall j :: 0 <= j < NDIRECT + 1 ==> nd.blocks[j] == 0
    ensures Ready(disk, owner, inum, nd) && FileOf(disk, nd) == Spec.File(nd.typ, [], false)
  {
    ZeroSlots(nd.blocks);
    assert FileOk(disk, owner, inum);
    var sl := FileSlots(disk, inum);
    forall k | 0 <= k < SLOTS ensures sl[k] == 0 {
    }
    assert sl == Slots(nd.blocks, ZeroBlock());
  }

  /** The first `m` blocks of `c` have arrived in the buffer. */
  ghost predicate Copied(buf: array<Byte>, c: seq<Byte>, m: nat)
    reads buf
  {
    forall p :: 0 <= p < |c| && p < m * BLOCK_SIZE && p < buf.Length ==> buf[p] == c[p]
  }

  lemma NothingCopied(buf: array<Byte>, c: seq<Byte>)
    ensures Copied(buf, c, 0)
  {
  }

  lemma PieceEmpty(buf: array<Byte>, c: seq<Byte>, k: nat)
    requires Copied(buf, c, k) && k * BLOCK_SIZE >= |c|
    ensures Copied(buf, c, k + 1)
  {
  }

  lemma AllCopied(buf: array<Byte>, c: seq<Byte>, m: nat)
    requires Copied(buf, c, m) && m * BLOCK_SIZE >= |c| && buf.Length >= |c|
    ensures buf[..|c|] == c
  {
  }

  /** The last block of the buffer: how much of it is the file's. */
  lemma LastPiece(node: Inode, blockCount: nat)
    requires |node.blocks| == NDIRECT + 1 && node.size <= MAX_SIZE
    requires blockCount == Max(1, (node.size + BLOCK_SIZE - 1) / BLOCK_SIZE)
    ensures blockCount <= MAXFILE && (blockCount > NDIRECT ==> NodeBlocks(node) == blockCount)
    ensures node.size % BLOCK_SIZE != 0 ==> (blockCount - 1) * BLOCK_SIZE + node.size % BLOCK_SIZE == node.size
  {
  }

  /** `memcpy` of block `k`; the precondition on `src` is the bound of the buffer. */
  method CopyPiece(buf: array<Byte>, ghost c: seq<Byte>, k: nat, src: seq<Byte>)
    requires Copied(buf, c, k) && k * BLOCK_SIZE + |src| <= buf.Length
    requires forall p :: k * BLOCK_SIZE <= p < |c| && p < k * BLOCK_SIZE + BLOCK_SIZE ==>
      p - k * BLOCK_SIZE < |src| && c[p] == src[p - k * BLOCK_SIZE]
    modifies buf
    ensures Copied(buf, c, k + 1)
  {
    assert (k + 1) * BLOCK_SIZE == k * BLOCK_SIZE + BLOCK_SIZE;
    MemCpy(buf, k * BLOCK_SIZE, src);
    assert forall p :: 0 <= p < buf.Length ==> buf[p] == buf[..][p];
  }

  /** `extent_protocol::attr` */
  datatype Attr = Attr(typ: Word, atime: Word, mtime: Word, ctime: Word, size: Word)

  /** An operation on one inode, its own table block rewritten last, leaves all other inodes as they are. */
  lemma OtherNodes(o: Origin, disk: seq<Block>, owner: Owners, blk: Block)
    requires 1 <= o.inum <= INODE_NUM && Others(o, disk, owner)
    ensures forall j :: 1 <= j <= INODE_NUM && j != o.inum ==>
      Node(disk[IBlock(o.inum) := blk], j) == Node(o.disk, j)
  {
    hide DecodeInode;
  }

  /** Data being written, and how many of its blocks are in place. */
  datatype Part = Part(buf: seq<Byte>, size: nat, m: nat)

  const NO_DATA: Part := Part(ZeroBlock(), 0, 0)

  class InodeManager {
    const bm: BlockManager
    var lastAlloced: nat
    ghost var owner: Owners

    ghost function Image(): (s: seq<Block>)
      reads this, bm, bm.d.blocks
    {
      bm.d.Contents()
    }

    ghost predicate Valid()
      reads this, bm, bm.d.blocks
    {
      bm.Valid() && StoreInv(Image(), bm.Used(), owner) && lastAlloced <= INODE_NUM
    }

    /** The abstract store this object represents. */
    ghost function Abs(): Spec.Store
      reads this, bm, bm.d.blocks
    {
      Spec.Store(AbsFiles(Image()), lastAlloced, |bm.Used()|, |LeakedSet(owner)|)
    }

    /** The blocks that are lost for good: in use, and held by no file. */
    ghost function Leaked(): set<nat>
      reads this
    {
      LeakedSet(owner)
    }

    constructor (now: Word)
      ensures Valid() && fresh(bm) && fresh(bm.d) && fresh(bm.d.blocks)
      ensures Abs() == Spec.INITIAL
    {
      bm := new BlockManager();
      lastAlloced := 0;
      owner := map[];
      new;
      EmptyDisk(Image());
      assert AbsFiles(Image()) == map[];
      Spec.FirstAlloc();
      hide StoreInv, AbsFiles, Spec.NextInode, Spec.Alloc, BlockManager.Valid, Disk.Contents;
      var rootDir := AllocInode(Spec.T_DIR, now);
      lastAlloced := 0;
      assert rootDir == 1;
    }

    // ---- Inodes ----------------------------------------------------------------------------

    method GetInode(inum: Word) returns (r: Option<Inode>)
      requires bm.Valid()
      ensures r == if inum > INODE_NUM || Node(Image(), inum).typ == 0 then None else Some(Node(Image(), inum))
    {
      if inum > INODE_NUM {
        return None;
      }
      var buf := bm.d.ReadBlock(IBlock(inum), ZeroBlock());
      var ino := DecodeInode(buf);
      if ino.typ == 0 {
        return None;
      }
      return Some(ino);
    }

    method PutInode(inum: Word, ino: Inode)
      requires bm.Valid() && inum <= INODE_NUM && ino.typ < 0x1_0000 && |ino.blocks| == NDIRECT + 1
      modifies bm.d.blocks
      ensures exists blk: Block :: DecodeInode(blk) == ino && Image() == old(Image())[IBlock(inum) := blk]
    {
      var buf := bm.d.ReadBlock(IBlock(inum), ZeroBlock());
      InodeRoundTrip(ino, buf);
      bm.d.WriteBlock(IBlock(inum), EncodeInode(ino, buf));
    }

    method AllocInode(typ: Word, now: Word) returns (inum: nat)
      requires Valid()
      modifies `lastAlloced, bm.d.blocks
      ensures Valid()
      ensures inum == Spec.NextInode(old(Abs())) && Abs() == Spec.Alloc(old(Abs()), typ)
      ensures inum != 0 ==>
        var n := Node(Image(), inum); n.atime == now && n.mtime == now && n.ctime == now
      ensures forall j :: 1 <= j <= INODE_NUM && j != inum ==> Node(Image(), j) == old(Node(Image(), j))
    {
      hide StoreInv, AbsFiles, Node, Spec.FirstFree, BlockManager.Used, BlockManager.Valid, Disk.Contents;
      var newNode := Inode(typ % 0x1_0000, 0, now, now, now, seq(NDIRECT + 1, _ => 0));
      ghost var files := AbsFiles(Image());
      inum := 0;
      var i := 1;
      while i <= INODE_NUM
        invariant 1 <= i <= INODE_NUM + 1
        invariant inum == 0
        invariant Spec.FirstFree(files, lastAlloced, 1) == Spec.FirstFree(files, lastAlloced, i)
        modifies {}
      {
        var toAlloc := if i + lastAlloced >= INODE_NUM then (i + lastAlloced) % INODE_NUM + 1 else i + lastAlloced;
        Spec.FirstFreeStep(files, lastAlloced, i);
        LiveFiles(Image(), toAlloc);
        var node := GetInode(toAlloc);
        if node.None? {
          inum := toAlloc;
          break;
        }
        i := i + 1;
      }
      if inum != 0 {
        InitInode(inum, newNode);
        lastAlloced := inum;
      } else {
        Spec.FirstFreeEnd(files, lastAlloced);
      }
    }

    /** `put_inode` of an inode without blocks where there was none. */
    method InitInode(inum: nat, ino: Inode)
      requires Valid() && 1 <= inum <= INODE_NUM && inum !in AbsFiles(Image())
      requires ino.typ < 0x1_0000 && ino.size == 0 && |ino.blocks| == NDIRECT + 1
      requires forall j :: 0 <= j < NDIRECT + 1 ==> ino.blocks[j] == 0
      modifies bm.d.blocks
      ensures Valid() && Node(Image(), inum) == ino
      ensures AbsFiles(Image()) == if ino.typ == 0 then old(AbsFiles(Image()))
                                   else old(AbsFiles(Image()))[inum := Spec.File(ino.typ, [], false)]
      ensures forall j :: 1 <= j <= INODE_NUM && j != inum ==> Node(Image(), j) == old(Node(Image(), j))
    {
      hide StoreInv, AbsFiles, Node, Ready, Others, InDataRange, FileOf;
      LiveFiles(Image(), inum);
      InvFacts(Image(), bm.Used(), owner);
      FreshInode(Image(), owner, inum, ino);
      OthersRefl(Image(), owner, inum);
      assert AbsFiles(Image()) - {inum} == AbsFiles(Image());
      CommitInode(inum, ino, Origin(Image(), owner, inum));
    }

    /** `put_inode` as the last step of the operation that began at `o`. */
    method CommitInode(inum: nat, ino: Inode, ghost o: Origin)
      requires bm.Valid() && 1 <= inum == o.inum <= INODE_NUM && ino.typ < 0x1_0000
      requires StoreInv(o.disk, o.owner.Keys, o.owner) && InDataRange(owner) && bm.Used() == owner.Keys
      requires Others(o, Image(), owner) && Ready(Image(), owner, inum, ino)
      modifies bm.d.blocks
      ensures bm.Valid() && StoreInv(Image(), bm.Used(), owner) && Node(Image(), inum) == ino
      ensures AbsFiles(Image()) == if ino.typ == 0 then AbsFiles(o.disk) - {inum}
                                   else AbsFiles(o.disk)[inum := old(FileOf(Image(), ino))]
      ensures forall j :: 1 <= j <= INODE_NUM && j != inum ==> Node(Image(), j) == Node(o.disk, j)
    {
      hide StoreInv, Others, Tracks, Shape, AbsFiles, FileOf, DecodeInode;
      ghost var disk := Image();
      PutInode(inum, ino);
      ghost var blk :| DecodeInode(blk) == ino && Image() == disk[IBlock(inum) := blk];
      Commit(o, disk, owner, ino, blk);
      OtherNodes(o, disk, owner, blk);
    }

    // ---- read_file, get_attr --------------------------------------------------------------------

    /** The attributes of an inode; `a` is what the caller's record held before. */
    method GetAttr(inum: Word, a: Attr) returns (r: Attr)
      requires Valid()
      ensures inum !in Abs().files ==> r == a
      ensures inum in Abs().files ==> r.typ == Spec.TypeOf(Abs(), inum) && r.size == |Abs().files[inum].bytes|
      ensures inum in Abs().files ==>
        var n := Node(Image(), inum); r.atime == n.atime && r.mtime == n.mtime && r.ctime == n.ctime
    {
      hide StoreInv, AbsFiles, Node, Work, Shape, Slots, Indirect, InDataRange, AbsFile;
      if inum > INODE_NUM {
        LiveFiles(Image(), inum);
        return a;
      }
      InvFacts(Image(), bm.Used(), owner);
      LiveFiles(Image(), inum);
      var node := GetInode(inum);
      if node.None? {
        return a;
      }
      BeginWork(Image(), bm.Used(), owner, inum);
      var n := node.value;
      return Attr(Spec.Widened(n.typ), n.atime, n.mtime, n.ctime, n.size);
    }

    /**
     * The content of a file, in a buffer of `block_count` blocks of its own. `size0` is what the
     * caller's `size` held before: the code leaves it alone for an inode that is not allocated.
     */
    method ReadFile(inum: Word, size0: nat, now: Word) returns (out: array?<Byte>, size: nat)
      requires Valid()
      modifies bm.d.blocks
      ensures Valid() && Abs() == old(Abs())
      ensures out != null ==> fresh(out)
      ensures inum !in old(Abs()).files ==> out == null && size == if inum > INODE_NUM then 0 else size0
      ensures inum in old(Abs()).files ==>
        && out != null && size == |old(Abs()).files[inum].bytes| <= out.Length
        && out[..size] == old(Abs()).files[inum].bytes
      ensures inum in old(Abs()).files ==> Node(Image(), inum) == old(Node(Image(), inum)).(atime := now)
      ensures forall j :: 1 <= j <= INODE_NUM && j != inum ==> Node(Image(), j) == old(Node(Image(), j))
    {
      hide StoreInv, AbsFiles, Node, Work, Shape, Slots, Indirect, Ready, Others, InDataRange, FileOf, AbsFile;
      hide BlockManager.Used, BlockManager.Valid, Disk.Contents;
      LiveFiles(Image(), inum);
      InvFacts(Image(), bm.Used(), owner);
      if inum > INODE_NUM {
        return null, 0;
      }
      var node := GetInode(inum);
      if node.None? {
        return null, size0;
      }
      BeginWork(Image(), bm.Used(), owner, inum);
      var buf := ReadBlocks(inum, node.value);
      ReadyTouch(inum, now);
      OthersRefl(Image(), owner, inum);
      CommitInode(inum, node.value.(atime := now), Origin(Image(), owner, inum));
      return buf, node.value.size;
    }

    /** An inode whose access time alone changed describes the same file. */
    lemma ReadyTouch(inum: nat, now: Word)
      requires Valid() && 1 <= inum <= INODE_NUM
      ensures var nd := Node(Image(), inum).(atime := now);
        Ready(Image(), owner, inum, nd) && FileOf(Image(), nd) == AbsFile(Image(), inum)
    {
      assert FileOk(Image(), owner, inum);
    }

    /** `read_file` is at work on file `inum`, whose content is `c`; its buffer has `blockCount` blocks. */
    ghost predicate Reading(inum: nat, node: Inode, blockCount: nat, c: seq<Byte>)
      reads this, bm, bm.d.blocks
    {
      && Valid() && 1 <= inum <= INODE_NUM && node == Node(Image(), inum) && node.size <= MAX_SIZE
      && c == Content(Image(), FileSlots(Image(), inum), node.size)
      && blockCount == Max(1, (node.size + BLOCK_SIZE - 1) / BLOCK_SIZE)
    }

    /** `is_valid_block` tells which slots lie below the file's end. */
    lemma SlotRead(inum: nat, node: Inode, blockCount: nat, c: seq<Byte>, k: nat)
      requires Reading(inum, node, blockCount, c) && k < SLOTS
      ensures |node.blocks| == NDIRECT + 1 && bm.Valid() && |Image()| == BLOCK_NUM
      ensures |c| == node.size && NodeBlocks(node) <= blockCount
      ensures |c| <= NodeBlocks(node) * BLOCK_SIZE
      ensures var id := FileSlots(Image(), inum)[k];
        && (k < NDIRECT ==> id == node.blocks[k])
        && (k == INDIRECT ==> id == node.blocks[NDIRECT])
        && ((id < BLOCK_NUM && id in bm.Used()) <==>
            if k < MAXFILE then k < NodeBlocks(node) else NodeBlocks(node) > NDIRECT)
    {
      BeginWork(Image(), bm.Used(), owner, inum);
      WorkValid(Origin(Image(), owner, inum), Image(), bm.Used(), owner, FileSlots(Image(), inum), k);
    }

    /** The buffer of `read_file`, filled by its two loops. */
    method ReadBlocks(ghost inum: nat, node: Inode) returns (buf: array<Byte>)
      requires Valid() && 1 <= inum <= INODE_NUM && node == Node(Image(), inum)
      ensures fresh(buf) && buf.Length >= node.size
      ensures buf[..node.size] == AbsFile(Image(), inum).bytes
    {
      hide StoreInv, Node, Work, Shape, Slots, Indirect, Content, BlockManager.Used, Disk.Contents, Copied;
      BeginWork(Image(), bm.Used(), owner, inum);
      var blockCount := node.size / BLOCK_SIZE;
      if node.size % BLOCK_SIZE != 0 || blockCount == 0 {
        blockCount := blockCount + 1;
      }
      buf := new Byte[blockCount * BLOCK_SIZE];
      ghost var c := Content(Image(), FileSlots(Image(), inum), node.size);
      NothingCopied(buf, c);
      FillBuffer(inum, node, buf, blockCount, c);
    }

    method FillBuffer(ghost inum: nat, node: Inode, buf: array<Byte>, blockCount: nat, ghost c: seq<Byte>)
      requires Reading(inum, node, blockCount, c) && buf != bm.d.blocks as object
      requires buf.Length == blockCount * BLOCK_SIZE && Copied(buf, c, 0)
      modifies buf
      ensures |c| <= buf.Length && buf[..|c|] == c
    {
      hide Reading, Copied, BlockManager.Used, FileSlots;
      var i;
      ghost var m;
      SlotRead(inum, node, blockCount, c, INDIRECT);
      i, m := ReadDirect(inum, node, buf, blockCount, c);
      SlotRead(inum, node, blockCount, c, INDIRECT);
      if i == NDIRECT && bm.IsValidBlock(node.blocks[NDIRECT]) {
        ReadIndirect(inum, node, buf, blockCount, c);
        m := blockCount;
      }
      AllCopied(buf, c, m);
    }

    /**
     * The first loop. When the size is a multiple of the block size it runs on to slot 99; only
     * because no slot past the file's end is in use does it stay inside the buffer.
     */
    method ReadDirect(ghost inum: nat, node: Inode, buf: array<Byte>, blockCount: nat, ghost c: seq<Byte>)
      returns (i: nat, ghost m: nat)
      requires Reading(inum, node, blockCount, c) && buf != bm.d.blocks as object
      requires |node.blocks| == NDIRECT + 1
      requires buf.Length == blockCount * BLOCK_SIZE && Copied(buf, c, 0)
      modifies buf
      ensures i <= NDIRECT && Copied(buf, c, m)
      ensures if i == NDIRECT then m == NDIRECT else m * BLOCK_SIZE >= |c|
    {
      var remainSize := node.size % BLOCK_SIZE;
      LastPiece(node, blockCount);
      hide Reading, Copied, BlockManager.Used, FileSlots;
      i := 0;
      while i < NDIRECT
        invariant i <= NDIRECT && Copied(buf, c, i)
      {
        var blockId := node.blocks[i];
        SlotRead(inum, node, blockCount, c, i);
        if bm.IsValidBlock(blockId) {
          if i == blockCount - 1 && remainSize != 0 {
            CopySlot(inum, node, blockCount, buf, i, blockId, remainSize, c);
            return i, i + 1;
          }
          CopySlot(inum, node, blockCount, buf, i, blockId, BLOCK_SIZE, c);
        } else {
          PieceEmpty(buf, c, i);
        }
        i := i + 1;
      }
      m := i;
    }

    /** The second loop, behind the indirect block. */
    method ReadIndirect(ghost inum: nat, node: Inode, buf: array<Byte>, blockCount: nat, ghost c: seq<Byte>)
      requires Reading(inum, node, blockCount, c) && buf != bm.d.blocks as object
      requires |node.blocks| == NDIRECT + 1 && NodeBlocks(node) > NDIRECT
      requires buf.Length == blockCount * BLOCK_SIZE && Copied(buf, c, NDIRECT)
      modifies buf
      ensures Copied(buf, c, blockCount)
    {
      var remainSize := node.size % BLOCK_SIZE;
      LastPiece(node, blockCount);
      SlotRead(inum, node, blockCount, c, INDIRECT);
      var indirectBlocks := bm.d.ReadBlock(node.blocks[NDIRECT], ZeroBlock());
      assert indirectBlocks == Indirect(Image(), node.blocks);
      hide Reading, Copied, BlockManager.Used, FileSlots, WordAt, NodeBlocks, Indirect, Disk.Contents;
      var i := 0;
      while i < blockCount - NDIRECT
        invariant 0 <= i <= blockCount - NDIRECT && Copied(buf, c, NDIRECT + i)
        invariant indirectBlocks == Indirect(Image(), node.blocks)
      {
        SlotRead(inum, node, blockCount, c, NDIRECT + i);
        EntryRead(inum, node, blockCount, c, indirectBlocks, i);
        if bm.IsValidBlock(WordAt(indirectBlocks, i)) {
          if i + NDIRECT == blockCount - 1 && remainSize != 0 {
            CopySlot(inum, node, blockCount, buf, i + NDIRECT, WordAt(indirectBlocks, i), remainSize, c);
            break;
          }
          CopySlot(inum, node, blockCount, buf, i + NDIRECT, WordAt(indirectBlocks, i), BLOCK_SIZE, c);
        } else {
          assert false;
        }
        i := i + 1;
      }
    }

    lemma EntryRead(inum: nat, node: Inode, blockCount: nat, c: seq<Byte>, ind: Block, i: nat)
      requires Reading(inum, node, blockCount, c) && |node.blocks| == NDIRECT + 1 && i < NINDIRECT
      requires ind == Indirect(Image(), node.blocks)
      ensures FileSlots(Image(), inum)[NDIRECT + i] == WordAt(ind, i)
    {
    }

    /** Copy the first `len` bytes of block `id`, slot `k` of the file, to their place in the buffer. */
    method CopySlot(ghost inum: nat, ghost node: Inode, ghost blockCount: nat, buf: array<Byte>, k: nat, id: Word,
                    len: nat, ghost c: seq<Byte>)
      requires Reading(inum, node, blockCount, c) && buf != bm.d.blocks as object
      requires k < MAXFILE && id < BLOCK_NUM && id == FileSlots(Image(), inum)[k]
      requires len <= BLOCK_SIZE && (len == BLOCK_SIZE || k * BLOCK_SIZE + len >= |c|)
      requires k * BLOCK_SIZE + len <= buf.Length && Copied(buf, c, k)
      modifies buf
      ensures Copied(buf, c, k + 1)
    {
      hide StoreInv, FileSlots, Content, Copied, Node;
      InvFacts(Image(), bm.Used(), owner);
      var blk := bm.d.ReadBlock(id, ZeroBlock());
      ContentPiece(Image(), FileSlots(Image(), inum), node.size, k);
      CopyPiece(buf, c, k, blk[..len]);
    }

    // ---- remove_file --------------------------------------------------------------------------

    method FreeInode(inum: Word)
      requires bm.Valid()
      modifies bm.d.blocks
      ensures Image() == if inum <= INODE_NUM && Node(old(Image()), inum).typ != 0
                         then old(Image())[IBlock(inum) := ZeroBlock()] else old(Image())
    {
      if inum > INODE_NUM {
        return;
      }
      var node := GetInode(inum);
      if node.None? {
        return;
      }
      bm.d.WriteBlock(IBlock(inum), ZeroBlock());
    }

    method RemoveFile(inum: Word)
      requires Valid()
      modifies this`owner, bm, bm.d.blocks
      ensures Valid()
      ensures Abs() == Spec.Remove(old(Abs()), inum)
      ensures old(Leaked()) <= Leaked()
    {
      hide StoreInv, AbsFiles, Node, Work, Shape, Slots, Indirect, Ready, Others, InDataRange, FileOf, AbsFile;
      hide Stored, MineSet, LeakedSet, Abandon, BlockManager.Used, BlockManager.Valid, Disk.Contents;
      if inum > INODE_NUM {
        LiveFiles(Image(), inum);
        return;
      }
      InvFacts(Image(), bm.Used(), owner);
      LiveFiles(Image(), inum);
      var node := GetInode(inum);
      if node.None? {
        return;
      }
      BeginWork(Image(), bm.Used(), owner, inum);
      StartRemoving(inum);
      ghost var o := Origin(Image(), owner, inum);
      ghost var sl := RemoveBlocks(node.value, o);
      ghost var n := NodeBlocks(node.value);
      FinishRemove(inum, o, sl, if node.value.size == 0 then 0 else Min(n, NDIRECT), n);
    }

    lemma StartRemoving(inum: nat)
      requires Valid() && 1 <= inum <= INODE_NUM
      ensures var nd := Node(Image(), inum);
        Stored(Origin(Image(), owner, inum), Slots(nd.blocks, Indirect(Image(), nd.blocks)), NO_DATA)
    {
      BeginWork(Image(), bm.Used(), owner, inum);
    }

    /** The two freeing loops of `remove_file`. `sl` is what stays in use: the blocks it never finds. */
    method RemoveBlocks(node: Inode, ghost o: Origin)
      returns (ghost sl: seq<Word>)
      requires |node.blocks| == NDIRECT + 1 && node.size <= MAX_SIZE && NodeBlocks(node) <= MAXFILE
      requires Stored(o, Slots(node.blocks, Indirect(Image(), node.blocks)), NO_DATA)
      requires Shape(Slots(node.blocks, Indirect(Image(), node.blocks)), NodeBlocks(node), NodeBlocks(node) > NDIRECT)
      modifies bm, bm.d.blocks, `owner
      ensures Stored(o, sl, NO_DATA) && |sl| == SLOTS
      ensures var n := NodeBlocks(node);
        var lo := if node.size == 0 then 0 else Min(n, NDIRECT);
        && (forall k :: 0 <= k < SLOTS ==> (sl[k] != 0 <==> lo <= k < n))
        && |bm.Used()| == |old(bm.Used())| - (Spec.HeldFor(n) - (n - lo))
    {
      hide Stored, Slots, Indirect, BlockManager.Used;
      ghost var ind := Indirect(Image(), node.blocks);
      ghost var sl0 := Slots(node.blocks, ind);
      var freeSize;
      freeSize := RemoveDirect(node, o, ind);
      sl := Cleared(sl0, 0, if node.size == 0 then 0 else Min(NodeBlocks(node), NDIRECT));
      if freeSize < node.size {
        RemoveIndirect(node, o, sl, freeSize);
        sl := sl[INDIRECT := 0];
      }
    }

    method RemoveDirect(node: Inode, ghost o: Origin, ghost ind: Block)
      returns (freeSize: nat)
      requires |node.blocks| == NDIRECT + 1 && node.size <= MAX_SIZE
      requires Stored(o, Slots(node.blocks, ind), NO_DATA)
      requires Indirect(Image(), node.blocks) == ind
      requires Shape(Slots(node.blocks, ind), NodeBlocks(node), NodeBlocks(node) > NDIRECT)
      modifies bm, bm.d.blocks, `owner
      ensures Indirect(Image(), node.blocks) == ind
      ensures var m := if node.size == 0 then 0 else Min(NodeBlocks(node), NDIRECT);
        && freeSize == m * BLOCK_SIZE
        && Stored(o, Cleared(Slots(node.blocks, ind), 0, m), NO_DATA)
        && |bm.Used()| == |old(bm.Used())| - m
    {
      hide Stored, Slots, Indirect, BlockManager.Used;
      freeSize := 0;
      ghost var sl0 := Slots(node.blocks, ind);
      ghost var sl := sl0;
      assert sl0 == Cleared(sl0, 0, 0);
      var i := 0;
      while i < NDIRECT && freeSize < node.size
        invariant 0 <= i <= NDIRECT && freeSize == i * BLOCK_SIZE && freeSize < node.size + BLOCK_SIZE
        invariant sl == Cleared(sl0, 0, i) && (node.size == 0 ==> i == 0)
        invariant Stored(o, sl, NO_DATA)
        invariant |bm.Used()| == |old(bm.Used())| - i
        invariant Indirect(Image(), node.blocks) == ind
      {
        assert i < NodeBlocks(node);
        StoredValid(o, sl, NO_DATA, i);
        if bm.IsValidBlock(node.blocks[i]) {
          FreeDirectSlot(node.blocks, i, ind, o, sl);
          sl := sl[i := 0];
          freeSize := freeSize + BLOCK_SIZE;
        } else {
          break;
        }
        i := i + 1;
      }
    }

    /** Freeing a direct block does not touch the indirect block. */
    method FreeDirectSlot(blocks: seq<Word>, i: nat, ghost ind: Block, ghost o: Origin, ghost sl: seq<Word>)
      requires |blocks| == NDIRECT + 1 && i < NDIRECT && |sl| == SLOTS
      requires blocks[i] == sl[i] != 0 && sl[INDIRECT] == blocks[NDIRECT]
      requires Stored(o, sl, NO_DATA) && Indirect(Image(), blocks) == ind
      modifies bm, bm.d.blocks, `owner
      ensures Stored(o, sl[i := 0], NO_DATA) && Indirect(Image(), blocks) == ind
      ensures |bm.Used()| == |old(bm.Used())| - 1
    {
      hide Stored, BlockManager.Used, Disk.Contents;
      FreeStored(blocks[i], o, sl, i, NO_DATA);
    }

    /** `get_indirect_blocks`: the raw block, and the entry count it takes from `strlen`. */
    method GetIndirectBlocks(node: Inode) returns (blocks: Block, blockCount: nat)
      requires bm.Valid() && |node.blocks| == NDIRECT + 1
      ensures blockCount == StrLen(blocks) / 4
      ensures node.blocks[NDIRECT] != 0 && node.blocks[NDIRECT] < |Image()| ==> blocks == Indirect(Image(), node.blocks)
    {
      blocks := bm.d.ReadBlock(node.blocks[NDIRECT], ZeroBlock());
      blockCount := StrLen(blocks) / 4;
    }

    /**
     * The part of `remove_file` behind the indirect block. The loop is as the code has it; since the
     * count is 0 for every indirect block that can occur, only the indirect block itself is freed.
     */
    method RemoveIndirect(node: Inode, ghost o: Origin, ghost sl0: seq<Word>, freeSize0: nat)
      requires |node.blocks| == NDIRECT + 1 && |sl0| == SLOTS
      requires sl0[NDIRECT] != 0 && sl0[INDIRECT] == node.blocks[NDIRECT] != 0
      requires forall k :: 0 <= k < NINDIRECT ==> sl0[NDIRECT + k] == WordAt(Indirect(Image(), node.blocks), k)
      requires Stored(o, sl0, NO_DATA)
      modifies bm, bm.d.blocks, `owner
      ensures Stored(o, sl0[INDIRECT := 0], NO_DATA)
      ensures |bm.Used()| == |old(bm.Used())| - 1
    {
      hide Stored, WordAt, StrLen, BlockManager.Used;
      EntriesInRange(o, sl0);
      var indirectBlocks, indirectBlockNum := GetIndirectBlocks(node);
      ghost var sl := sl0;
      var i, freeSize := 0, freeSize0;
      while i < indirectBlockNum && freeSize < node.size
        invariant 0 <= i <= indirectBlockNum <= NINDIRECT
        invariant |sl| == SLOTS && (forall k :: NDIRECT + i <= k < SLOTS ==> sl[k] == sl0[k])
        invariant i == 0 ==> sl == sl0
        invariant Stored(o, sl, NO_DATA)
        invariant |bm.Used()| == |old(bm.Used())| - i
      {
        ghost var k := NDIRECT + i;
        StoredValid(o, sl, NO_DATA, k);
        if bm.IsValidBlock(WordAt(indirectBlocks, i)) {
          FreeStored(WordAt(indirectBlocks, i), o, sl, k, NO_DATA);
          sl := sl[k := 0];
          freeSize := freeSize + BLOCK_SIZE;
        } else {
          break;
        }
        i := i + 1;
      }
      FreeStored(node.blocks[NDIRECT], o, sl, INDIRECT, NO_DATA);
      SmallWordStopsStrLen(indirectBlocks);
    }

    lemma EntriesInRange(o: Origin, sl: seq<Word>)
      requires Stored(o, sl, NO_DATA)
      ensures |sl| == SLOTS && forall k :: 0 <= k < SLOTS ==> sl[k] < BLOCK_NUM
      ensures bm.Valid() && |Image()| == BLOCK_NUM
    {
    }

    /** The blocks left over leak; the inode is zeroed. */
    method FinishRemove(inum: nat, ghost o: Origin, ghost sl: seq<Word>, ghost lo: nat, ghost hi: nat)
      requires StoreInv(o.disk, o.owner.Keys, o.owner) && 1 <= inum == o.inum <= INODE_NUM
      requires Stored(o, sl, NO_DATA) && lo <= hi <= SLOTS
      requires Node(o.disk, inum).typ != 0
      requires forall k :: 0 <= k < SLOTS ==> (sl[k] != 0 <==> lo <= k < hi)
      modifies bm.d.blocks, `owner
      ensures bm.Valid() && StoreInv(Image(), bm.Used(), owner)
      ensures AbsFiles(Image()) == AbsFiles(o.disk) - {inum}
      ensures LeakedSet(o.owner) <= LeakedSet(owner) && |LeakedSet(owner)| == |LeakedSet(o.owner)| + (hi - lo)
    {
      hide StoreInv, AbsFiles, Node, Work, Ready, Others, InDataRange, MineSet, LeakedSet, Abandon, DecodeInode;
      hide BlockManager.Used, Disk.Contents;
      AbandonRest(o, Image(), bm.Used(), owner, sl, lo, hi);
      owner := Abandon(owner, inum);
      ghost var disk := Image();
      ReadyZero(disk, owner, inum);
      FreeInode(inum);
      Commit(o, disk, owner, DecodeInode(ZeroBlock()), ZeroBlock());
    }

    // ---- write_file ---------------------------------------------------------------------------

    /**
     * `buf` is the memory the caller's pointer leads to: `size` bytes of data and whatever follows.
     * The code copies up to 511 of those foreign bytes to disk; `Abs` shows that none is ever seen.
     */
    method WriteFile(inum: Word, buf: seq<Byte>, size: nat, atime: Word, ctime: Word, mtime: Word)
      requires Valid() && |buf| >= size + BLOCK_SIZE
      requires Spec.Fits(Abs(), inum, buf[..size])
      modifies this`owner, bm, bm.d.blocks
      ensures Valid() && Leaked() == old(Leaked())
      ensures Abs() == Spec.Put(old(Abs()), inum, buf[..size])
      ensures inum in old(Abs()).files ==>
        var n := Node(Image(), inum); n.atime == atime && n.ctime == ctime && n.mtime == mtime
      ensures forall j :: 1 <= j <= INODE_NUM && j != inum ==> Node(Image(), j) == old(Node(Image(), j))
    {
      hide StoreInv, AbsFiles, Node, Work, Shape, Slots, Indirect, Ready, Others, InDataRange, FileOf, AbsFile;
      hide Writing, BlockManager.Used, BlockManager.Valid, Disk.Contents;
      InvFacts(Image(), bm.Used(), owner);
      LiveFiles(Image(), inum);
      var node := GetInode(inum);
      if node.None? {
        return;
      }
      BeginWork(Image(), bm.Used(), owner, inum);
      StartWriting(inum, buf, size);
      ghost var o := Origin(Image(), owner, inum);
      ghost var n0 := NodeBlocks(node.value);
      var blocks := WriteBlocks(node.value.blocks, buf, size, o, n0);
      blocks := TrimBlocks(node.value.size, blocks, size, o, buf, n0);
      var ino := node.value.(size := size, atime := atime, ctime := ctime, mtime := mtime, blocks := blocks);
      FinishWrite(ino, o, buf, n0);
      CommitInode(inum, ino, o);
    }

    lemma StartWriting(inum: nat, buf: seq<Byte>, size: nat)
      requires Valid() && 1 <= inum <= INODE_NUM && size + BLOCK_SIZE <= |buf|
      ensures var nd := Node(Image(), inum);
        Writing(Origin(Image(), owner, inum), nd.blocks, Indirect(Image(), nd.blocks), NodeBlocks(nd),
                NodeBlocks(nd) > NDIRECT, buf, size, 0)
    {
      BeginWork(Image(), bm.Used(), owner, inum);
    }

    /** The new content is in place and the inode describes it. */
    lemma FinishWrite(ino: Inode, o: Origin, buf: seq<Byte>, n0: nat)
      requires |ino.blocks| == NDIRECT + 1 && ino.typ != 0 && ino.size <= MAX_SIZE
      requires var sl := Slots(ino.blocks, Indirect(Image(), ino.blocks));
        && Stored(o, sl, Part(buf, ino.size, if ino.size == 0 then 0 else BlocksFor(ino.size)))
        && Shape(sl, KeptBlocks(n0, ino.size), KeptBlocks(n0, ino.size) > NDIRECT)
      ensures bm.Valid() && Ready(Image(), owner, o.inum, ino) && bm.Used() == owner.Keys
      ensures InDataRange(owner) && Others(o, Image(), owner)
      ensures LeakedSet(owner) == LeakedSet(o.owner)
      ensures FileOf(Image(), ino) == Spec.File(ino.typ, buf[..ino.size], ino.size == 0 && n0 > 0)
    {
      var sl := Slots(ino.blocks, Indirect(Image(), ino.blocks));
      forall k | 0 <= k < MAXFILE && k * BLOCK_SIZE < ino.size
        ensures Holds(BlockAt(Image(), sl[k]), buf, ino.size, k)
      {
        assert k < BlocksFor(ino.size);
      }
      HoldsContent(Image(), sl, buf, ino.size);
      assert sl[0] == ino.blocks[0];
    }

    /** The first two phases of `write_file`. */
    method WriteBlocks(blocks0: seq<Word>, buf: seq<Byte>, size: nat, ghost o: Origin, ghost n0: nat)
      returns (blocks: seq<Word>)
      requires |blocks0| == NDIRECT + 1 && size <= MAX_SIZE && n0 <= MAXFILE
      requires Writing(o, blocks0, Indirect(Image(), blocks0), n0, n0 > NDIRECT, buf, size, 0)
      requires |bm.Used()| <= DATA_NUM
      requires |bm.Used()| - Spec.HeldFor(n0) + Spec.HeldFor(KeptBlocks(n0, size)) <= DATA_NUM
      modifies bm, bm.d.blocks, `owner
      ensures |blocks| == NDIRECT + 1
      ensures var need := if size == 0 then 0 else BlocksFor(size);
        && Writing(o, blocks, Indirect(Image(), blocks), Max(n0, need),
                   n0 > NDIRECT || need > NDIRECT, buf, size, need)
        && |bm.Used()| == |old(bm.Used())| - Spec.HeldFor(n0) + Spec.HeldFor(Max(n0, need))
    {
      hide Writing, Indirect, BlockManager.Used;
      var pos, i;
      blocks, pos, i := WriteDirect(blocks0, buf, size, o, n0);
      if pos < size && i == NDIRECT {
        blocks := WriteIndirect(blocks, buf, size, pos, o, n0);
      }
    }

    /** The two freeing phases of `write_file`. */
    method TrimBlocks(size0: Word, blocks0: seq<Word>, size: nat, ghost o: Origin, ghost buf: seq<Byte>, ghost n0: nat)
      returns (blocks: seq<Word>)
      requires |blocks0| == NDIRECT + 1 && size <= MAX_SIZE && size0 <= MAX_SIZE
      requires if size0 == 0 then n0 <= 1 else n0 == BlocksFor(size0)
      requires var need := if size == 0 then 0 else BlocksFor(size);
        Writing(o, blocks0, Indirect(Image(), blocks0), Max(n0, need),
                n0 > NDIRECT || need > NDIRECT, buf, size, need)
      modifies bm, bm.d.blocks, `owner
      ensures |blocks| == NDIRECT + 1
      ensures var sl := Slots(blocks, Indirect(Image(), blocks));
        && Stored(o, sl, Part(buf, size, if size == 0 then 0 else BlocksFor(size)))
        && Shape(sl, KeptBlocks(n0, size), KeptBlocks(n0, size) > NDIRECT)
      ensures |bm.Used()| == |old(bm.Used())| - Spec.HeldFor(Max(n0, if size == 0 then 0 else BlocksFor(size)))
                             + Spec.HeldFor(KeptBlocks(n0, size))
    {
      hide Stored, Slots, Shape, Indirect, BlockManager.Used, Trimmable;
      ghost var m := if size == 0 then 0 else BlocksFor(size);
      ghost var sl := Slots(blocks0, Indirect(Image(), blocks0));
      FinalShape(sl, n0, size0, size);
      var preBlockNum := if size0 == 0 then 1 else (size0 - 1) / BLOCK_SIZE + 1;
      var usedBlockNum := TruncDiv(size - 1, BLOCK_SIZE) + 1;
      var i;
      blocks, i := FreeDirect(blocks0, usedBlockNum, preBlockNum, Indirect(Image(), blocks0), o, Part(buf, size, m));
      if i >= NDIRECT && preBlockNum > NDIRECT {
        blocks := FreeIndirectBlocks(size0, blocks, i - NDIRECT, o, Part(buf, size, m));
        if i - NDIRECT == 0 {
          assert blocks[NDIRECT := 0] == blocks;
          blocks := blocks[NDIRECT := 0];
        }
      }
    }

    // ---- Blocks, with their owners ------------------------------------------------------------

    /** A free block for slot `k` of the file with slots `sl`. */
    method AllocSlot(ghost o: Origin, ghost sl: seq<Word>, ghost k: nat)
      returns (id: Word)
      requires bm.Valid() && Work(o, Image(), bm.Used(), owner, sl)
      requires k < SLOTS && sl[k] == 0 && |bm.Used()| < DATA_NUM
      modifies bm, `owner
      ensures bm.Valid() && IsDataBlock(id)
      ensures Work(o, Image(), bm.Used(), owner, sl[k := id])
      ensures |bm.Used()| == |old(bm.Used())| + 1
    {
      SomeBlockFree(bm.Used());
      id := bm.AllocBlock();
      WorkAlloc(o, Image(), owner, sl, k, id);
      owner := owner[id := Slot(o.inum, k)];
    }

    method FreeSlot(id: Word, ghost o: Origin, ghost sl: seq<Word>, ghost k: nat)
      requires bm.Valid() && Work(o, Image(), bm.Used(), owner, sl)
      requires k < SLOTS && sl[k] == id != 0
      modifies bm, bm.d.blocks, `owner
      ensures bm.Valid()
      ensures Work(o, Image(), bm.Used(), owner, sl[k := 0])
      ensures id < BLOCK_NUM && Image() == old(Image())[id := ZeroBlock()]
      ensures |bm.Used()| == |old(bm.Used())| - 1
    {
      WorkFree(o, Image(), owner, sl, k);
      bm.FreeBlock(id);
      owner := owner - {id as nat};
    }

    method WriteSlot(id: Word, blk: Block, ghost o: Origin, ghost sl: seq<Word>, ghost k: nat)
      requires bm.Valid() && Work(o, Image(), bm.Used(), owner, sl)
      requires k < SLOTS && sl[k] == id != 0
      modifies bm.d.blocks
      ensures bm.Valid() && Work(o, Image(), bm.Used(), owner, sl)
      ensures BlockAt(Image(), id) == blk
      ensures forall j :: 0 <= j < SLOTS && j != k ==> BlockAt(Image(), sl[j]) == old(BlockAt(Image(), sl[j]))
    {
      WorkWrite(o, Image(), owner, sl, k, blk);
      bm.d.WriteBlock(id, blk);
    }

    /** In the middle of an operation: the file's slots are `sl`, and the first blocks of `d` are in place. */
    ghost predicate Stored(o: Origin, sl: seq<Word>, d: Part)
      reads this, bm, bm.d.blocks
    {
      && bm.Valid() && d.size + BLOCK_SIZE <= |d.buf| && d.m <= MAXFILE
      && Work(o, Image(), bm.Used(), owner, sl)
      && forall k :: 0 <= k < d.m ==> Holds(BlockAt(Image(), sl[k]), d.buf, d.size, k)
    }

    /** So far nothing was freed: the file holds its first `n` data slots, and an indirect block iff `p`. */
    ghost predicate Writing(o: Origin, blocks: seq<Word>, ind: Block, n: nat, p: bool,
                            buf: seq<Byte>, size: nat, i: nat)
      reads this, bm, bm.d.blocks
    {
      && |blocks| == NDIRECT + 1
      && Stored(o, Slots(blocks, ind), Part(buf, size, i))
      && Shape(Slots(blocks, ind), n, p)
    }

    /** First loop of `write_file`: the direct blocks. */
    method WriteDirect(blocks0: seq<Word>, buf: seq<Byte>, size: nat, ghost o: Origin, ghost n0: nat)
      returns (blocks: seq<Word>, pos: nat, i: nat)
      requires |blocks0| == NDIRECT + 1
      requires Writing(o, blocks0, Indirect(Image(), blocks0), n0, n0 > NDIRECT, buf, size, 0)
      requires size > 0 ==> |bm.Used()| + Max(n0, Min(BlocksFor(size), NDIRECT)) - n0 <= DATA_NUM
      modifies bm, bm.d.blocks, `owner
      ensures i == (if size == 0 then 0 else Min(BlocksFor(size), NDIRECT)) && pos == i * BLOCK_SIZE
      ensures |blocks| == NDIRECT + 1 && Indirect(Image(), blocks) == old(Indirect(Image(), blocks0))
      ensures Writing(o, blocks, Indirect(Image(), blocks), Max(n0, i), n0 > NDIRECT, buf, size, i)
      ensures |bm.Used()| == |old(bm.Used())| + Max(n0, i) - n0
    {
      hide Writing, Indirect, BlockManager.Used;
      blocks := blocks0;
      i, pos := 0, 0;
      ghost var ind := Indirect(Image(), blocks0);
      while pos < size && i < NDIRECT
        invariant |blocks| == NDIRECT + 1 && Indirect(Image(), blocks) == ind
        invariant i <= NDIRECT && pos == i * BLOCK_SIZE && (i > 0 ==> pos < size + BLOCK_SIZE)
        invariant Writing(o, blocks, ind, Max(n0, i), n0 > NDIRECT, buf, size, i)
        invariant |bm.Used()| == |old(bm.Used())| + Max(n0, i) - n0
      {
        assert i < BlocksFor(size);
        blocks := WriteDirectBlock(blocks, buf, size, i, pos, o, n0, ind);
        pos := pos + BLOCK_SIZE;
        i := i + 1;
      }
    }

    /** One turn of that loop. */
    method WriteDirectBlock(blocks0: seq<Word>, buf: seq<Byte>, size: nat, i: nat, pos: nat,
                            ghost o: Origin, ghost n0: nat, ghost ind: Block)
      returns (blocks: seq<Word>)
      requires Writing(o, blocks0, ind, Max(n0, i), n0 > NDIRECT, buf, size, i)
      requires pos == i * BLOCK_SIZE < size && i < NDIRECT
      requires n0 <= i ==> |bm.Used()| < DATA_NUM
      requires Indirect(Image(), blocks0) == ind
      modifies bm, bm.d.blocks, `owner
      ensures Writing(o, blocks, ind, Max(n0, i + 1), n0 > NDIRECT, buf, size, i + 1)
      ensures |blocks| == NDIRECT + 1 && Indirect(Image(), blocks) == ind
      ensures |bm.Used()| == |old(bm.Used())| + Max(n0, i + 1) - Max(n0, i)
    {
      hide Work, Slots, Holds, Shape, BlockManager.Used, BlockManager.Valid, Disk.Contents;
      blocks := blocks0;
      var arrForRemain := ZeroBlock();
      ghost var sl := Slots(blocks, ind);
      WorkValid(o, Image(), bm.Used(), owner, sl, i);
      ShapeStep(sl, n0, i, n0 > NDIRECT);
      if !bm.IsValidBlock(blocks[i]) {
        var newBlockId := AllocSlot(o, sl, i);
        SlotsSet(blocks, ind, i, newBlockId);
        ShapeGrow(sl, i, n0 > NDIRECT, newBlockId);
        blocks := blocks[i := newBlockId];
      }
      sl := Slots(blocks, ind);
      if pos + BLOCK_SIZE > size {
        arrForRemain := buf[pos..size] + arrForRemain[size - pos..];
        WriteSlot(blocks[i], arrForRemain, o, sl, i);
      }
      WriteSlot(blocks[i], buf[pos..pos + BLOCK_SIZE], o, sl, i);
      HoldsWritten(buf, size, i);
    }

    /** Second part of `write_file`: the blocks behind the indirect block. */
    method WriteIndirect(blocks0: seq<Word>, buf: seq<Byte>, size: nat, pos0: nat, ghost o: Origin, ghost n0: nat)
      returns (blocks: seq<Word>)
      requires |blocks0| == NDIRECT + 1 && pos0 == NDIRECT * BLOCK_SIZE < size <= MAX_SIZE
      requires Writing(o, blocks0, Indirect(Image(), blocks0), Max(n0, NDIRECT), n0 > NDIRECT,
                       buf, size, NDIRECT)
      requires |bm.Used()| + (if n0 > NDIRECT then 0 else 1) + Max(n0, BlocksFor(size)) - Max(n0, NDIRECT) <= DATA_NUM
      modifies bm, bm.d.blocks, `owner
      ensures |blocks| == NDIRECT + 1
      ensures Writing(o, blocks, Indirect(Image(), blocks), Max(n0, BlocksFor(size)), true,
                      buf, size, BlocksFor(size))
      ensures |bm.Used()| ==
        |old(bm.Used())| + (if n0 > NDIRECT then 0 else 1) + Max(n0, BlocksFor(size)) - Max(n0, NDIRECT)
    {
      hide Writing, Indirect, BlockManager.Used;
      var ind;
      blocks, ind := OpenIndirect(blocks0, o, Max(n0, NDIRECT), n0 > NDIRECT, buf, size);
      ghost var used1 := |bm.Used()|;
      var pos, i := pos0, 0;
      ghost var m := 0;
      while pos < size && i < NINDIRECT
        invariant |blocks| == NDIRECT + 1 && m == i <= NINDIRECT
        invariant pos == (NDIRECT + i) * BLOCK_SIZE < size + BLOCK_SIZE
        invariant Writing(o, blocks, ind, Max(n0, NDIRECT + m), true, buf, size, NDIRECT + m)
        invariant |bm.Used()| == used1 + Max(n0, NDIRECT + m) - Max(n0, NDIRECT)
      {
        assert NDIRECT + i < BlocksFor(size);
        ind := WriteIndirectBlock(blocks, ind, buf, size, i, pos, o, n0);
        m := m + 1;
        if pos + BLOCK_SIZE > size {
          break;
        }
        pos := pos + BLOCK_SIZE;
        i := i + 1;
      }
      assert NDIRECT + m == BlocksFor(size);
      CloseIndirect(blocks, ind, o, Max(n0, BlocksFor(size)), buf, size, BlocksFor(size));
    }

    /** Read the indirect block, or allocate one and start with no entries. */
    method OpenIndirect(blocks0: seq<Word>, ghost o: Origin, ghost n: nat,
                        ghost p: bool, ghost buf: seq<Byte>, ghost size: nat)
      returns (blocks: seq<Word>, indirectBlocks: Block)
      requires |blocks0| == NDIRECT + 1
      requires Writing(o, blocks0, Indirect(Image(), blocks0), n, p, buf, size, NDIRECT)
      requires !p ==> |bm.Used()| < DATA_NUM
      modifies bm, `owner
      ensures |blocks| == NDIRECT + 1
      ensures Writing(o, blocks, indirectBlocks, n, true, buf, size, NDIRECT)
      ensures |bm.Used()| == |old(bm.Used())| + if p then 0 else 1
    {
      hide Work, Slots, Holds, BlockManager.Used;
      blocks, indirectBlocks := blocks0, ZeroBlock();
      ghost var ind := Indirect(Image(), blocks0);
      ghost var sl := Slots(blocks0, ind);
      WorkValid(o, Image(), bm.Used(), owner, sl, INDIRECT);
      if bm.IsValidBlock(blocks[NDIRECT]) {
        indirectBlocks := bm.d.ReadBlock(blocks[NDIRECT], indirectBlocks);
      } else {
        var newBlockId := AllocSlot(o, sl, INDIRECT);
        SlotsSet(blocks, ind, INDIRECT, newBlockId);
        blocks := blocks[NDIRECT := newBlockId];
      }
    }

    /** One turn of the second loop of `write_file`. */
    method WriteIndirectBlock(blocks: seq<Word>, ind0: Block, buf: seq<Byte>, size: nat, i: nat, pos: nat,
                              ghost o: Origin, ghost n0: nat)
      returns (ind: Block)
      requires i < NINDIRECT && pos == (NDIRECT + i) * BLOCK_SIZE < size
      requires Writing(o, blocks, ind0, Max(n0, NDIRECT + i), true, buf, size, NDIRECT + i)
      requires n0 <= NDIRECT + i ==> |bm.Used()| < DATA_NUM
      modifies bm, bm.d.blocks, `owner
      ensures Writing(o, blocks, ind, Max(n0, NDIRECT + i + 1), true, buf, size, NDIRECT + i + 1)
      ensures |bm.Used()| == |old(bm.Used())| + Max(n0, NDIRECT + i + 1) - Max(n0, NDIRECT + i)
    {
      hide Work, Slots, Holds, Shape, WordAt, BlockManager.Used, BlockManager.Valid, Disk.Contents;
      ind := ind0;
      ghost var sl := Slots(blocks, ind);
      ghost var k := NDIRECT + i;
      WorkValid(o, Image(), bm.Used(), owner, sl, k);
      ShapeStep(sl, n0, k, true);
      if !bm.IsValidBlock(WordAt(ind, i)) {
        var newBlockId := AllocSlot(o, sl, k);
        SlotsSet(blocks, ind, k, newBlockId);
        ShapeGrow(sl, k, true, newBlockId);
        ind := PutWord(ind, i, newBlockId);
      }
      sl := Slots(blocks, ind);
      assert sl[k] == WordAt(ind, i);
      if pos + BLOCK_SIZE > size {
        var arrForRemain := buf[pos..size] + ZeroBlock()[size - pos..];
        WriteSlot(WordAt(ind, i), arrForRemain, o, sl, k);
        HoldsPadded(buf, size, k);
      } else {
        WriteSlot(WordAt(ind, i), buf[pos..pos + BLOCK_SIZE], o, sl, k);
        HoldsWritten(buf, size, k);
      }
    }

    /** Write the indirect block back. */
    method CloseIndirect(blocks: seq<Word>, ind: Block, ghost o: Origin,
                         ghost n: nat, ghost buf: seq<Byte>, ghost size: nat, ghost m: nat)
      requires Writing(o, blocks, ind, n, true, buf, size, m)
      modifies bm.d.blocks
      ensures |blocks| == NDIRECT + 1 && Indirect(Image(), blocks) == ind
      ensures Writing(o, blocks, ind, n, true, buf, size, m)
    {
      hide Work, Slots, Holds, BlockManager.Valid, Disk.Contents;
      WriteSlot(blocks[NDIRECT], ind, o, Slots(blocks, ind), INDIRECT);
    }

    // ---- The blocks write_file gives back -------------------------------------------------------

    /** Third loop of `write_file`: the direct blocks from `start` on that the old content used. */
    method FreeDirect(blocks0: seq<Word>, start: nat, pre: nat, ghost ind: Block, ghost o: Origin, ghost d: Part)
      returns (blocks: seq<Word>, i: nat)
      requires |blocks0| == NDIRECT + 1 && d.m <= start <= MAXFILE
      requires Stored(o, Slots(blocks0, ind), d)
      requires Indirect(Image(), blocks0) == ind
      requires forall k :: start <= k < pre && k < NDIRECT ==> blocks0[k] != 0
      modifies bm, bm.d.blocks, `owner
      ensures |blocks| == NDIRECT + 1 && i == Max(start, Min(NDIRECT, pre))
      ensures Stored(o, Slots(blocks, ind), d)
      ensures Slots(blocks, ind) == Cleared(Slots(blocks0, ind), start, i)
      ensures Indirect(Image(), blocks) == ind
      ensures |bm.Used()| == |old(bm.Used())| - (i - start)
    {
      hide Stored, Slots, Indirect, BlockManager.Used, BlockManager.Valid;
      blocks, i := blocks0, start;
      assert Slots(blocks0, ind) == Cleared(Slots(blocks0, ind), start, start);
      while i < NDIRECT && i < pre
        invariant |blocks| == NDIRECT + 1 && start <= i <= Max(start, Min(NDIRECT, pre))
        invariant Stored(o, Slots(blocks, ind), d)
        invariant Slots(blocks, ind) == Cleared(Slots(blocks0, ind), start, i)
        invariant Indirect(Image(), blocks) == ind
        invariant |bm.Used()| == |old(bm.Used())| - (i - start)
      {
        StoredValid(o, Slots(blocks, ind), d, i);
        if bm.IsValidBlock(blocks[i]) {
          blocks := FreeDirectBlock(blocks, i, ind, o, d);
          assert Cleared(Slots(blocks0, ind), start, i)[i := 0] == Cleared(Slots(blocks0, ind), start, i + 1);
          i := i + 1;
        } else {
          break;
        }
      }
    }

    lemma StoredValid(o: Origin, sl: seq<Word>, d: Part, k: nat)
      requires Stored(o, sl, d) && k < SLOTS
      ensures |sl| == SLOTS && bm.Valid()
      ensures sl[k] < BLOCK_NUM && sl[k] in bm.Used() <==> sl[k] != 0
    {
    }

    method FreeDirectBlock(blocks0: seq<Word>, i: nat, ghost ind: Block, ghost o: Origin, ghost d: Part)
      returns (blocks: seq<Word>)
      requires |blocks0| == NDIRECT + 1 && d.m <= i < NDIRECT && blocks0[i] != 0
      requires Stored(o, Slots(blocks0, ind), d)
      requires Indirect(Image(), blocks0) == ind
      modifies bm, bm.d.blocks, `owner
      ensures |blocks| == NDIRECT + 1 && Slots(blocks, ind) == Slots(blocks0, ind)[i := 0]
      ensures Stored(o, Slots(blocks, ind), d)
      ensures Indirect(Image(), blocks) == ind
      ensures |bm.Used()| == |old(bm.Used())| - 1
    {
      hide Work, Slots, Holds, BlockManager.Used, BlockManager.Valid, Disk.Contents;
      FreeStored(blocks0[i], o, Slots(blocks0, ind), i, d);
      SlotsSet(blocks0, ind, i, 0);
      blocks := blocks0[i := 0];
    }

    /** Freeing a slot past the first `m` leaves the stored part alone. */
    method FreeStored(id: Word, ghost o: Origin, ghost sl: seq<Word>, ghost k: nat, ghost d: Part)
      requires Stored(o, sl, d)
      requires d.m <= k < SLOTS == |sl| && sl[k] == id != 0
      modifies bm, bm.d.blocks, `owner
      ensures Stored(o, sl[k := 0], d)
      ensures forall j :: 0 <= j < SLOTS && j != k ==> BlockAt(Image(), sl[j]) == old(BlockAt(Image(), sl[j]))
      ensures |bm.Used()| == |old(bm.Used())| - 1
    {
      hide Work, Holds, BlockManager.Used, BlockManager.Valid, Disk.Contents;
      WorkDistinct(o, Image(), bm.Used(), owner, sl, k);
      FreeSlot(id, o, sl, k);
    }

    method FreeIndirectBlocks(size0: Word, blocks0: seq<Word>, begin: nat, ghost o: Origin, ghost d: Part)
      returns (blocks: seq<Word>)
      requires |blocks0| == NDIRECT + 1 && blocks0[NDIRECT] != 0 && begin <= NINDIRECT && size0 <= MAX_SIZE
      requires d.m <= NDIRECT + begin
      requires Stored(o, Slots(blocks0, Indirect(Image(), blocks0)), d)
      requires Trimmable(Slots(blocks0, Indirect(Image(), blocks0)), begin, IndirectCount(size0))
      modifies bm, bm.d.blocks, `owner
      ensures |blocks| == NDIRECT + 1
      ensures Stored(o, Slots(blocks, Indirect(Image(), blocks)), d)
      ensures Slots(blocks, Indirect(Image(), blocks)) ==
        Trimmed(old(Slots(blocks0, Indirect(Image(), blocks0))), begin, IndirectCount(size0))
      ensures |bm.Used()| ==
        |old(bm.Used())| - Max(0, IndirectCount(size0) - begin) - if begin == 0 then 1 else 0
    {
      hide Stored, Slots, BlockManager.Used, Disk.Contents;
      var blockCount := IndirectCount(size0);
      assert blockCount <= NINDIRECT by {
        if size0 > 0 { assert BlocksFor(size0) <= MAXFILE; }
      }
      StoredValid(o, Slots(blocks0, Indirect(Image(), blocks0)), d, INDIRECT);
      var ind := bm.d.ReadBlock(blocks0[NDIRECT], ZeroBlock());
      assert ind == Indirect(Image(), blocks0);
      ghost var sl := Slots(blocks0, ind);
      var i := begin;
      ghost var e := NDIRECT + begin;
      assert Cleared(sl, e, e) == sl;
      blocks := blocks0;
      while i < blockCount
        invariant begin <= i <= Max(begin, blockCount) && e == NDIRECT + i
        invariant Stored(o, Slots(blocks0, ind), d)
        invariant Slots(blocks0, ind) == Cleared(sl, NDIRECT + begin, e)
        invariant |bm.Used()| == |old(bm.Used())| - (i - begin)
      {
        ind := FreeEntry(blocks0, ind, i, o, d);
        assert Cleared(sl, NDIRECT + begin, e)[e := 0] == Cleared(sl, NDIRECT + begin, e + 1);
        i := i + 1;
        e := e + 1;
      }
      if begin == 0 {
        FreePointer(blocks0, ind, o, d);
        blocks := blocks[NDIRECT := 0];
      } else {
        WriteStored(blocks[NDIRECT], ind, o, Slots(blocks, ind), INDIRECT, d);
        assert Indirect(Image(), blocks) == ind;
      }
    }

    /** Free the block behind entry `i` of the indirect block and reset the entry in the buffer. */
    method FreeEntry(ghost blocks: seq<Word>, ind0: Block, i: nat, ghost o: Origin, ghost d: Part)
      returns (ind: Block)
      requires |blocks| == NDIRECT + 1 && i < NINDIRECT && d.m <= NDIRECT + i
      requires Slots(blocks, ind0)[NDIRECT + i] != 0
      requires Stored(o, Slots(blocks, ind0), d)
      modifies bm, bm.d.blocks, `owner
      ensures Stored(o, Slots(blocks, ind), d)
      ensures Slots(blocks, ind) == Slots(blocks, ind0)[NDIRECT + i := 0]
      ensures |bm.Used()| == |old(bm.Used())| - 1
    {
      hide Stored, Slots, BlockManager.Used, WordAt, PutWord;
      ghost var k := NDIRECT + i;
      assert Slots(blocks, ind0)[k] == WordAt(ind0, i);
      FreeStored(WordAt(ind0, i), o, Slots(blocks, ind0), k, d);
      SlotsSet(blocks, ind0, k, 0);
      ind := PutWord(ind0, i, 0);
    }

    /** Free the indirect block itself, once it has no entries left. */
    method FreePointer(blocks: seq<Word>, ghost ind: Block, ghost o: Origin, ghost d: Part)
      requires |blocks| == NDIRECT + 1 && blocks[NDIRECT] != 0 && d.m <= INDIRECT
      requires forall k :: NDIRECT <= k < MAXFILE ==> Slots(blocks, ind)[k] == 0
      requires Stored(o, Slots(blocks, ind), d)
      modifies bm, bm.d.blocks, `owner
      ensures Slots(blocks[NDIRECT := 0], Indirect(Image(), blocks[NDIRECT := 0])) == Slots(blocks, ind)[INDIRECT := 0]
      ensures Stored(o, Slots(blocks, ind)[INDIRECT := 0], d)
      ensures |bm.Used()| == |old(bm.Used())| - 1
    {
      hide Stored, Slots, BlockManager.Used;
      FreeStored(blocks[NDIRECT], o, Slots(blocks, ind), INDIRECT, d);
      SlotsDropPointer(blocks, ind);
    }

    method WriteStored(id: Word, blk: Block, ghost o: Origin, ghost sl: seq<Word>, ghost k: nat, ghost d: Part)
      requires Stored(o, sl, d)
      requires d.m <= k < SLOTS == |sl| && sl[k] == id != 0
      modifies bm.d.blocks
      ensures Stored(o, sl, d)
      ensures BlockAt(Image(), id) == blk
    {
      hide Work, Holds, BlockManager.Used, BlockManager.Valid, Disk.Contents;
      WriteSlot(id, blk, o, sl, k);
    }
  }

  /**
   * The times of a file, from the write that sets them to what its attributes report: each under its own name.
   * A read in between moves the access time and nothing else.
   */
  method WriteReadAttr(im: InodeManager, inum: Word, buf: seq<Byte>, size: nat, atime: Word, ctime: Word, mtime: Word,
                       now: Word) returns (written: Attr, read: Attr)
    requires im.Valid() && inum in im.Abs().files && |buf| >= size + BLOCK_SIZE
    requires Spec.Fits(im.Abs(), inum, buf[..size])
    modifies im`owner, im.bm, im.bm.d.blocks
    ensures im.Valid() && im.Abs() == Spec.Put(old(im.Abs()), inum, buf[..size])
    ensures written.atime == atime && written.mtime == mtime && written.ctime == ctime && written.size == size
    ensures read.atime == now && read.mtime == mtime && read.ctime == ctime && read.size == size
    ensures written.typ == read.typ == Spec.TypeOf(old(im.Abs()), inum)
  {
    hide InodeManager.Valid, InodeManager.Abs, InodeManager.Image;
    im.WriteFile(inum, buf, size, atime, ctime, mtime);
    written := im.GetAttr(inum, Attr(0, 0, 0, 0, 0));
    var out, n := im.ReadFile(inum, 0, now);
    read := im.GetAttr(inum, Attr(0, 0, 0, 0, 0));
  }
}
