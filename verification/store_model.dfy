/**
 * How a disk image represents files. The code asks only whether a block is in use by somebody;
 * the ghost map from blocks to owners below is what makes that question the right one.
 */
module StoreModel {
  import opened Bytes
  import opened Layout
  import opened BlockLayer
  import opened StoreSpec
  import opened Wrappers

  /** `struct inode`. */
  datatype Inode = Inode(typ: nat, size: Word, atime: Word, mtime: Word, ctime: Word, blocks: seq<Word>)

  // ---- The inode on disk -----------------------------------------------------------------

  /** The byte layout of `struct inode`: a 16-bit type, padding, four words, 101 block numbers. */
  function DecodeInode(b: Block): (n: Inode)
    ensures |n.blocks| == NDIRECT + 1 && n.typ < 0x1_0000
  {
    Inode(b[0] as int + 0x100 * b[1] as int, WordAt(b, 1), WordAt(b, 2), WordAt(b, 3), WordAt(b, 4),
      seq(NDIRECT + 1, j requires 0 <= j < NDIRECT + 1 => WordAt(b, 5 + j)))
  }

  /** The struct written over the front of block `b`. */
  function EncodeInode(n: Inode, b: Block): Block
    requires n.typ < 0x1_0000 && |n.blocks| == NDIRECT + 1
  {
    PutWords([n.typ % 0x100, n.typ / 0x100] + b[2..], 1, [n.size, n.atime, n.mtime, n.ctime] + n.blocks)
  }

  lemma EncodedWords(n: Inode, b: Block)
    requires n.typ < 0x1_0000 && |n.blocks| == NDIRECT + 1
    ensures var r, ws := EncodeInode(n, b), [n.size, n.atime, n.mtime, n.ctime] + n.blocks;
      forall j: nat :: 1 <= j <= |ws| ==> WordAt(r, j) == ws[j - 1]
    ensures EncodeInode(n, b)[0] == n.typ % 0x100 && EncodeInode(n, b)[1] == n.typ / 0x100
  {
    hide PutWords, WordAt;
    var ws := [n.size, n.atime, n.mtime, n.ctime] + n.blocks;
    var base := [n.typ % 0x100, n.typ / 0x100] + b[2..];
    var r := EncodeInode(n, b);
    forall j: nat | 1 <= j <= |ws| ensures WordAt(r, j) == ws[j - 1] {
      PutWordsAt(base, 1, ws, j);
    }
    PutWordsPrefix(base, 1, ws);
    assert r[0] == r[..4][0] && r[1] == r[..4][1];
    assert base[0] == base[..4][0] && base[1] == base[..4][1];
  }

  lemma InodeRoundTrip(n: Inode, b: Block)
    requires n.typ < 0x1_0000 && |n.blocks| == NDIRECT + 1
    ensures DecodeInode(EncodeInode(n, b)) == n
  {
    hide EncodeInode, WordAt;
    EncodedWords(n, b);
    var r, ws := EncodeInode(n, b), [n.size, n.atime, n.mtime, n.ctime] + n.blocks;
    var d := DecodeInode(r);
    forall j | 0 <= j < NDIRECT + 1 ensures d.blocks[j] == n.blocks[j] {
      assert d.blocks[j] == WordAt(r, 5 + j) == ws[4 + j];
    }
    assert WordAt(r, 1) == ws[0] && WordAt(r, 2) == ws[1] && WordAt(r, 3) == ws[2] && WordAt(r, 4) == ws[3];
    assert d.blocks == n.blocks;
  }

  // ---- Slots -----------------------------------------------------------------------------

  const SLOTS: nat := MAXFILE + 1
  const INDIRECT: nat := MAXFILE

  /** Every block number of a file: 100 direct, 128 from the indirect block, the indirect block itself. */
  function Slots(blocks: seq<Word>, ind: Block): (sl: seq<Word>)
    requires |blocks| == NDIRECT + 1
    ensures |sl| == SLOTS
    ensures forall k :: 0 <= k < NDIRECT ==> sl[k] == blocks[k]
    ensures forall k :: NDIRECT <= k < MAXFILE ==> sl[k] == WordAt(ind, k - NDIRECT)
    ensures sl[INDIRECT] == blocks[NDIRECT]
  {
    blocks[..NDIRECT] + Words(ind) + [blocks[NDIRECT]]
  }

  lemma SlotsSet(blocks: seq<Word>, ind: Block, k: nat, w: Word)
    requires |blocks| == NDIRECT + 1 && k < SLOTS
    ensures k < NDIRECT ==> Slots(blocks[k := w], ind) == Slots(blocks, ind)[k := w]
    ensures k == INDIRECT ==> Slots(blocks[NDIRECT := w], ind) == Slots(blocks, ind)[k := w]
    ensures NDIRECT <= k < MAXFILE ==>
      Slots(blocks, PutWord(ind, k - NDIRECT, w)) == Slots(blocks, ind)[k := w]
  {
  }

  function BlockAt(disk: seq<Block>, id: Word): Block {
    if id < |disk| then disk[id] else ZeroBlock()
  }

  function Indirect(disk: seq<Block>, blocks: seq<Word>): Block
    requires |blocks| == NDIRECT + 1
  {
    if blocks[NDIRECT] == 0 then ZeroBlock() else BlockAt(disk, blocks[NDIRECT])
  }

  function Node(disk: seq<Block>, i: nat): (n: Inode)
    ensures |n.blocks| == NDIRECT + 1 && n.typ < 0x1_0000
  {
    DecodeInode(if IBlock(i) < |disk| then disk[IBlock(i)] else ZeroBlock())
  }

  function FileSlots(disk: seq<Block>, i: nat): (sl: seq<Word>)
    ensures |sl| == SLOTS
  {
    Slots(Node(disk, i).blocks, Indirect(disk, Node(disk, i).blocks))
  }

  // ---- Ownership -------------------------------------------------------------------------

  datatype Owner = Slot(inum: nat, slot: nat) | Leaked

  type Owners = map<nat, Owner>

  predicate Mine(o: Owner, i: nat) {
    o.Slot? && o.inum == i
  }

  /** The slots of file `i` and the owner map name the same blocks. */
  ghost predicate Tracks(owner: Owners, i: nat, sl: seq<Word>) {
    |sl| == SLOTS &&
    (forall k :: 0 <= k < SLOTS && sl[k] != 0 ==> sl[k] in owner && owner[sl[k]] == Slot(i, k)) &&
    (forall b :: b in owner && Mine(owner[b], i) ==> owner[b].slot < SLOTS && sl[owner[b].slot] == b)
  }

  /** Exactly the first `n` data slots are held, and the indirect block iff `p`. */
  ghost predicate Shape(sl: seq<Word>, n: nat, p: bool) {
    |sl| == SLOTS && n <= MAXFILE &&
    (forall k :: 0 <= k < MAXFILE ==> (sl[k] != 0 <==> k < n)) &&
    (sl[INDIRECT] != 0 <==> p)
  }

  /** Growing a file by its next data slot. */
  lemma ShapeStep(sl: seq<Word>, n0: nat, i: nat, p: bool)
    requires Shape(sl, Max(n0, i), p) && i < MAXFILE
    ensures if sl[i] == 0 then n0 <= i else i < n0 && Shape(sl, Max(n0, i + 1), p)
  {
  }

  lemma ShapeGrow(sl: seq<Word>, n: nat, p: bool, id: Word)
    requires Shape(sl, n, p) && n < MAXFILE && id != 0
    ensures Shape(sl[n := id], n + 1, p)
  {
  }

  /** The slot vector with the entries from `lo` up to `hi` reset. */
  function Cleared(sl: seq<Word>, lo: nat, hi: nat): (r: seq<Word>)
    ensures |r| == |sl|
    ensures forall k :: 0 <= k < |sl| ==> r[k] == if lo <= k < hi then 0 else sl[k]
  {
    seq(|sl|, k requires 0 <= k < |sl| => if lo <= k < hi then 0 else sl[k])
  }

  /** The number of indirect entries `free_indirect_blocks` computes from the old size. */
  function IndirectCount(size: nat): (n: nat)
    ensures size > 0 ==> n == Max(0, BlocksFor(size) - NDIRECT)
  {
    if size >= BLOCK_SIZE * NDIRECT then (size - 1) / BLOCK_SIZE + 1 - NDIRECT else 0
  }

  /** The entries to free are held; when all are, none is left behind them. */
  ghost predicate Trimmable(sl: seq<Word>, begin: nat, count: nat) {
    && |sl| == SLOTS && count <= NINDIRECT
    && (forall k :: NDIRECT + begin <= k < NDIRECT + count ==> sl[k] != 0)
    && (begin == 0 ==> forall k :: NDIRECT + count <= k < MAXFILE ==> sl[k] == 0)
  }

  /** The slots `free_indirect_blocks` leaves. */
  function Trimmed(sl: seq<Word>, begin: nat, count: nat): (r: seq<Word>)
    requires |sl| == SLOTS
    ensures |r| == SLOTS
  {
    var c := Cleared(sl, NDIRECT + begin, Max(NDIRECT + begin, NDIRECT + count));
    if begin == 0 then c[INDIRECT := 0] else c
  }

  /** Dropping the indirect block of a file whose indirect entries are all gone. */
  lemma SlotsDropPointer(blocks: seq<Word>, ind: Block)
    requires |blocks| == NDIRECT + 1
    requires forall k :: NDIRECT <= k < MAXFILE ==> Slots(blocks, ind)[k] == 0
    ensures Slots(blocks[NDIRECT := 0], ZeroBlock()) == Slots(blocks, ind)[INDIRECT := 0]
  {
  }

  function NodeBlocks(n: Inode): nat
    requires |n.blocks| == NDIRECT + 1
  {
    if n.size == 0 then (if n.blocks[0] == 0 then 0 else 1) else BlocksFor(n.size)
  }

  ghost predicate FileOk(disk: seq<Block>, owner: Owners, i: nat) {
    var n := Node(disk, i);
    && n.size <= MAX_SIZE
    && (n.typ == 0 ==> NodeBlocks(n) == 0)
    && Tracks(owner, i, FileSlots(disk, i))
    && Shape(FileSlots(disk, i), NodeBlocks(n), NodeBlocks(n) > NDIRECT)
  }

  ghost predicate InDataRange(owner: Owners) {
    forall b :: b in owner ==> IsDataBlock(b)
  }

  /** The ownership invariant. */
  ghost predicate StoreInv(disk: seq<Block>, used: set<nat>, owner: Owners) {
    && |disk| == BLOCK_NUM
    && used == owner.Keys
    && InDataRange(owner)
    && Node(disk, 0).typ == 0
    && (forall b :: b in owner && owner[b].Slot? ==> 1 <= owner[b].inum <= INODE_NUM)
    && (forall i :: 1 <= i <= INODE_NUM ==> FileOk(disk, owner, i))
  }

  lemma InvFacts(disk: seq<Block>, used: set<nat>, owner: Owners)
    requires StoreInv(disk, used, owner)
    ensures |disk| == BLOCK_NUM && used == owner.Keys && InDataRange(owner) && Node(disk, 0).typ == 0
    ensures |used| <= DATA_NUM
  {
    UsedBound(used);
  }

  ghost function MineSet(owner: Owners, i: nat): set<nat> {
    set b | b in owner && Mine(owner[b], i)
  }

  ghost function LeakedSet(owner: Owners): set<nat> {
    set b | b in owner && owner[b] == Leaked
  }

  // ---- Contents --------------------------------------------------------------------------

  /** The bytes of a file. Whatever its last block holds past `size` is not looked at. */
  function Content(disk: seq<Block>, sl: seq<Word>, size: nat): (s: seq<Byte>)
    requires |sl| == SLOTS && size <= MAX_SIZE
    ensures |s| == size
  {
    seq(size, p requires 0 <= p < size => BlockAt(disk, sl[p / BLOCK_SIZE])[p % BLOCK_SIZE])
  }

  function AbsFile(disk: seq<Block>, i: nat): File {
    var n := Node(disk, i);
    File(n.typ, if n.size <= MAX_SIZE then Content(disk, FileSlots(disk, i), n.size) else [],
      n.size == 0 && n.blocks[0] != 0)
  }

  function AbsFiles(disk: seq<Block>): map<nat, File> {
    map i: nat | 1 <= i <= INODE_NUM && Node(disk, i).typ != 0 :: AbsFile(disk, i)
  }

  lemma ContentPiece(disk: seq<Block>, sl: seq<Word>, size: nat, k: nat)
    requires |sl| == SLOTS && size <= MAX_SIZE && k < MAXFILE
    ensures forall p :: k * BLOCK_SIZE <= p < size && p < k * BLOCK_SIZE + BLOCK_SIZE ==>
      Content(disk, sl, size)[p] == BlockAt(disk, sl[k])[p - k * BLOCK_SIZE]
  {
  }

  // ---- What one operation on file `inum` may change ---------------------------------------

  /** Where an operation on file `inum` began. */
  datatype Origin = Origin(disk: seq<Block>, owner: Owners, inum: nat)

  ghost predicate Others(o: Origin, disk: seq<Block>, owner: Owners) {
    && |disk| == |o.disk| == BLOCK_NUM
    && (forall b :: 0 <= b < FIRST_DATA && b != IBlock(o.inum) ==> disk[b] == o.disk[b])
    && (forall b :: b in o.owner && !Mine(o.owner[b], o.inum) && b < BLOCK_NUM ==>
          b in owner && owner[b] == o.owner[b] && disk[b] == o.disk[b])
    && (forall b :: b in owner && owner[b].Slot? && !Mine(owner[b], o.inum) ==> b in o.owner && o.owner[b] == owner[b])
  }

  /** A file's content depends on the blocks it holds only. */
  lemma ContentFrame(disk: seq<Block>, disk': seq<Block>, owner: Owners, inum: nat, sl: seq<Word>, size: nat)
    requires size <= MAX_SIZE && Tracks(owner, inum, sl) && InDataRange(owner)
    requires forall k :: 0 <= k < MAXFILE && k * BLOCK_SIZE < size ==> sl[k] != 0
    requires forall b: Word :: b in owner && Mine(owner[b], inum) ==> BlockAt(disk', b) == BlockAt(disk, b)
    ensures Content(disk', sl, size) == Content(disk, sl, size)
  {
  }

  lemma OtherSlotsSame(o: Origin, disk: seq<Block>, owner: Owners, j: nat)
    requires j != o.inum && j <= INODE_NUM
    requires InDataRange(o.owner) && FileOk(o.disk, o.owner, j) && Others(o, disk, owner)
    ensures Node(disk, j) == Node(o.disk, j) && FileSlots(disk, j) == FileSlots(o.disk, j)
    ensures Tracks(owner, j, FileSlots(disk, j))
  {
    hide DecodeInode;
    assert IBlock(j) < FIRST_DATA && IBlock(j) != IBlock(o.inum);
    assert Node(disk, j) == Node(o.disk, j);
    var sl := FileSlots(o.disk, j);
    if sl[INDIRECT] != 0 {
      assert sl[INDIRECT] in o.owner;
    }
  }

  /** A file other than the one operated on keeps its blocks and its content. */
  lemma OtherFileSame(o: Origin, disk: seq<Block>, owner: Owners, j: nat)
    requires j != o.inum && j <= INODE_NUM
    requires InDataRange(o.owner) && FileOk(o.disk, o.owner, j)
    requires Others(o, disk, owner)
    ensures FileOk(disk, owner, j)
    ensures AbsFile(disk, j) == AbsFile(o.disk, j)
    ensures Node(disk, j) == Node(o.disk, j) && FileSlots(disk, j) == FileSlots(o.disk, j)
  {
    hide FileSlots, Node, Tracks;
    OtherSlotsSame(o, disk, owner, j);
    var n, sl := Node(o.disk, j), FileSlots(o.disk, j);
    forall k | 0 <= k < MAXFILE && k * BLOCK_SIZE < n.size ensures sl[k] != 0 {
      assert k < BlocksFor(n.size);
    }
    ContentFrame(o.disk, disk, o.owner, j, sl, n.size);
  }

  /** The data blocks a file holds after `size` bytes were written over one that held `n0`. */
  function KeptBlocks(n0: nat, size: nat): nat {
    if size == 0 then Min(n0, 1) else BlocksFor(size)
  }

  /** What the two freeing phases of `write_file` leave of the slots `sl`. */
  ghost function Remaining(sl: seq<Word>, size0: nat, size: nat): (r: seq<Word>)
    requires |sl| == SLOTS
    ensures |r| == SLOTS
  {
    var pre := if size0 == 0 then 1 else BlocksFor(size0);
    var start := if size == 0 then 1 else BlocksFor(size);
    var i := Max(start, Min(NDIRECT, pre));
    var c := Cleared(sl, start, i);
    if pre > NDIRECT then Trimmed(c, i - NDIRECT, IndirectCount(size0)) else c
  }

  /** All grow and shrink cases of `write_file` end with exactly the blocks the new size needs. */
  lemma FinalShape(sl: seq<Word>, n0: nat, size0: nat, size: nat)
    requires size0 <= MAX_SIZE && size <= MAX_SIZE
    requires if size0 == 0 then n0 <= 1 else n0 == BlocksFor(size0)
    requires var need := if size == 0 then 0 else BlocksFor(size);
      Shape(sl, Max(n0, need), n0 > NDIRECT || need > NDIRECT)
    ensures var pre := if size0 == 0 then 1 else BlocksFor(size0);
      var start := if size == 0 then 1 else BlocksFor(size);
      var i := Max(start, Min(NDIRECT, pre));
      && (forall k :: start <= k < pre && k < NDIRECT ==> sl[k] != 0)
      && (pre > NDIRECT ==> Trimmable(Cleared(sl, start, i), i - NDIRECT, IndirectCount(size0)) && sl[INDIRECT] != 0)
    ensures Shape(Remaining(sl, size0, size), KeptBlocks(n0, size), KeptBlocks(n0, size) > NDIRECT)
  {
  }

  /** An operation on file `inum` begins. */
  lemma BeginWork(disk: seq<Block>, used: set<nat>, owner: Owners, inum: nat)
    requires StoreInv(disk, used, owner) && 1 <= inum <= INODE_NUM
    ensures var nd := Node(disk, inum);
      && Work(Origin(disk, owner, inum), disk, used, owner, Slots(nd.blocks, Indirect(disk, nd.blocks)))
      && Shape(Slots(nd.blocks, Indirect(disk, nd.blocks)), NodeBlocks(nd), NodeBlocks(nd) > NDIRECT)
      && nd.size <= MAX_SIZE
      && NodeBlocks(nd) <= MAXFILE
    ensures var f := AbsFile(disk, inum);
      DataBlocks(f) == NodeBlocks(Node(disk, inum)) && |f.bytes| == Node(disk, inum).size
    ensures used == owner.Keys && InDataRange(owner) && |disk| == BLOCK_NUM
  {
    assert FileOk(disk, owner, inum);
  }

  lemma FreeTracks(owner: Owners, i: nat, sl: seq<Word>, k: nat)
    requires Tracks(owner, i, sl) && k < SLOTS && sl[k] != 0
    ensures Tracks(owner - {sl[k] as nat}, i, sl[k := 0])
  {
  }

  /** The state in the middle of an operation on file `inum`, whose slots are `sl` by now. */
  ghost predicate Work(o: Origin, disk: seq<Block>, used: set<nat>, owner: Owners, sl: seq<Word>) {
    && used == owner.Keys
    && 1 <= o.inum <= INODE_NUM
    && InDataRange(owner)
    && Tracks(owner, o.inum, sl)
    && LeakedSet(owner) == LeakedSet(o.owner)
    && Others(o, disk, owner)
    && disk[IBlock(o.inum)] == o.disk[IBlock(o.inum)]
  }

  lemma WorkAlloc(o: Origin, disk: seq<Block>, owner: Owners, sl: seq<Word>, k: nat, id: Word)
    requires Work(o, disk, owner.Keys, owner, sl)
    requires k < SLOTS && sl[k] == 0 && IsDataBlock(id) && id !in owner
    ensures var owner' := owner[id := Slot(o.inum, k)];
      Work(o, disk, owner'.Keys, owner', sl[k := id])
  {
  }

  /** `is_valid_block` on a slot of the file tells whether the file holds that slot. */
  lemma WorkValid(o: Origin, disk: seq<Block>, used: set<nat>, owner: Owners, sl: seq<Word>, k: nat)
    requires Work(o, disk, used, owner, sl) && k < SLOTS
    ensures sl[k] < BLOCK_NUM && sl[k] in used <==> sl[k] != 0
  {
  }

  lemma WorkDistinct(o: Origin, disk: seq<Block>, used: set<nat>, owner: Owners, sl: seq<Word>, k: nat)
    requires Work(o, disk, used, owner, sl) && k < SLOTS && sl[k] != 0
    ensures forall j :: 0 <= j < SLOTS && j != k ==> sl[j] != sl[k]
  {
  }

  lemma WorkFree(o: Origin, disk: seq<Block>, owner: Owners, sl: seq<Word>, k: nat)
    requires Work(o, disk, owner.Keys, owner, sl)
    requires k < SLOTS && sl[k] != 0
    ensures sl[k] in owner && sl[k] < |disk| && Mine(owner[sl[k]], o.inum)
    ensures var owner' := owner - {sl[k] as nat};
      Work(o, disk[sl[k] := ZeroBlock()], owner'.Keys, owner', sl[k := 0])
  {
  }

  lemma WorkWrite(o: Origin, disk: seq<Block>, owner: Owners, sl: seq<Word>, k: nat, blk: Block)
    requires Work(o, disk, owner.Keys, owner, sl)
    requires k < SLOTS && sl[k] != 0
    ensures sl[k] in owner && IsDataBlock(sl[k])
    ensures Work(o, disk[sl[k] := blk], owner.Keys, owner, sl)
    ensures forall j :: 0 <= j < SLOTS && j != k ==> sl[j] != sl[k]
  {
  }

  /** The file as its inode in memory and the data blocks describe it. */
  function FileOf(disk: seq<Block>, nd: Inode): File
    requires |nd.blocks| == NDIRECT + 1 && nd.size <= MAX_SIZE
  {
    File(nd.typ, Content(disk, Slots(nd.blocks, Indirect(disk, nd.blocks)), nd.size), nd.size == 0 && nd.blocks[0] != 0)
  }

  /** The inode `nd` in memory is ready to be written back. */
  ghost predicate Ready(disk: seq<Block>, owner: Owners, inum: nat, nd: Inode) {
    && |nd.blocks| == NDIRECT + 1
    && nd.size <= MAX_SIZE
    && (nd.typ == 0 ==> NodeBlocks(nd) == 0)
    && var sl := Slots(nd.blocks, Indirect(disk, nd.blocks));
       Tracks(owner, inum, sl) && Shape(sl, NodeBlocks(nd), NodeBlocks(nd) > NDIRECT)
  }

  lemma CommitFile(disk: seq<Block>, owner: Owners, inum: nat, nd: Inode, blk: Block)
    requires |disk| == BLOCK_NUM && 1 <= inum <= INODE_NUM && InDataRange(owner)
    requires Ready(disk, owner, inum, nd) && DecodeInode(blk) == nd
    ensures var disk' := disk[IBlock(inum) := blk];
      Node(disk', inum) == nd && FileOk(disk', owner, inum) && AbsFile(disk', inum) == FileOf(disk, nd)
  {
    var disk' := disk[IBlock(inum) := blk];
    var sl := Slots(nd.blocks, Indirect(disk, nd.blocks));
    assert Node(disk', inum) == nd;
    assert sl[INDIRECT] != 0 ==> sl[INDIRECT] in owner;
    assert FileSlots(disk', inum) == sl;
    forall k | 0 <= k < MAXFILE && k * BLOCK_SIZE < nd.size ensures sl[k] != 0 {
      assert k < BlocksFor(nd.size);
    }
    ContentFrame(disk, disk', owner, inum, sl, nd.size);
  }

  lemma OthersRefl(disk: seq<Block>, owner: Owners, inum: nat)
    requires |disk| == BLOCK_NUM
    ensures Others(Origin(disk, owner, inum), disk, owner)
  {
  }

  lemma LiveFiles(disk: seq<Block>, i: nat)
    ensures i in AbsFiles(disk) <==> 1 <= i <= INODE_NUM && Node(disk, i).typ != 0
    ensures i in AbsFiles(disk) ==> AbsFiles(disk)[i] == AbsFile(disk, i)
    ensures AbsFile(disk, i).typ == Node(disk, i).typ
  {
  }

  lemma OthersCommit(o: Origin, disk: seq<Block>, owner: Owners, blk: Block)
    requires Others(o, disk, owner) && 1 <= o.inum <= INODE_NUM
    requires InDataRange(o.owner)
    ensures |disk| == BLOCK_NUM && Others(o, disk[IBlock(o.inum) := blk], owner)
    ensures Node(disk[IBlock(o.inum) := blk], 0) == Node(o.disk, 0)
  {
  }

  lemma OtherFilesSame(o: Origin, disk: seq<Block>, owner: Owners)
    requires StoreInv(o.disk, o.owner.Keys, o.owner) && Others(o, disk, owner)
    ensures forall j :: 1 <= j <= INODE_NUM && j != o.inum ==> FileOk(disk, owner, j)
    ensures forall j: nat :: 1 <= j <= INODE_NUM && j != o.inum ==>
      Node(disk, j) == Node(o.disk, j) && AbsFile(disk, j) == AbsFile(o.disk, j)
  {
    hide FileOk, AbsFile, Node, Others;
    forall j: nat | 1 <= j <= INODE_NUM && j != o.inum
      ensures FileOk(disk, owner, j) && AbsFile(disk, j) == AbsFile(o.disk, j) && Node(disk, j) == Node(o.disk, j)
    {
      OtherFileSame(o, disk, owner, j);
    }
  }

  /** A file whose held slots are those from `lo` up to `hi` owns that many blocks. */
  lemma {:induction false} CountMine(owner: Owners, i: nat, sl: seq<Word>, lo: nat, hi: nat)
    requires Tracks(owner, i, sl) && lo <= hi <= SLOTS && 0 !in owner
    requires forall k :: 0 <= k < SLOTS ==> (sl[k] != 0 <==> lo <= k < hi)
    ensures |MineSet(owner, i)| == hi - lo
    decreases hi
  {
    if lo == hi {
      assert MineSet(owner, i) == {};
    } else {
      var b: nat := sl[hi - 1];
      FreeTracks(owner, i, sl, hi - 1);
      CountMine(owner - {b}, i, sl[hi - 1 := 0], lo, hi - 1);
      assert MineSet(owner, i) == MineSet(owner - {b}, i) + {b};
    }
  }

  /** The blocks of file `i` stay in use without an owner. */
  ghost function Abandon(owner: Owners, i: nat): Owners {
    map b | b in owner :: if Mine(owner[b], i) then Leaked else owner[b]
  }

  /** The inode on disk is still the old one. */
  lemma WorkNode(o: Origin, disk: seq<Block>, used: set<nat>, owner: Owners, sl: seq<Word>)
    requires Work(o, disk, used, owner, sl)
    ensures Node(disk, o.inum) == Node(o.disk, o.inum)
  {
  }

  lemma AbandonRest(o: Origin, disk: seq<Block>, used: set<nat>, owner: Owners, sl: seq<Word>, lo: nat, hi: nat)
    requires Work(o, disk, used, owner, sl) && lo <= hi <= SLOTS
    requires forall k :: 0 <= k < SLOTS ==> (sl[k] != 0 <==> lo <= k < hi)
    ensures var owner' := Abandon(owner, o.inum);
      && used == owner'.Keys && InDataRange(owner') && Others(o, disk, owner')
      && Node(disk, o.inum) == Node(o.disk, o.inum)
      && MineSet(owner', o.inum) == {}
      && LeakedSet(o.owner) <= LeakedSet(owner') && |LeakedSet(owner')| == |LeakedSet(o.owner)| + (hi - lo)
  {
    hide DecodeInode, Node, IBlock, LeakedSet, MineSet;
    WorkNode(o, disk, used, owner, sl);
    var owner' := Abandon(owner, o.inum);
    CountMine(owner, o.inum, sl, lo, hi);
    AbandonSets(owner, o.inum);
  }

  lemma AbandonSets(owner: Owners, inum: nat)
    ensures LeakedSet(Abandon(owner, inum)) == LeakedSet(owner) + MineSet(owner, inum)
    ensures |LeakedSet(Abandon(owner, inum))| == |LeakedSet(owner)| + |MineSet(owner, inum)|
    ensures MineSet(Abandon(owner, inum), inum) == {}
  {
  }

  /** A zeroed inode is ready when no block belongs to its file. */
  lemma ReadyZero(disk: seq<Block>, owner: Owners, inum: nat)
    requires MineSet(owner, inum) == {}
    ensures Ready(disk, owner, inum, DecodeInode(ZeroBlock())) && DecodeInode(ZeroBlock()).typ == 0
  {
    var n := DecodeInode(ZeroBlock());
    forall j | 0 <= j < NDIRECT + 1 ensures n.blocks[j] == 0 {
      assert n.blocks[j] == WordAt(ZeroBlock(), 5 + j);
    }
    var sl := Slots(n.blocks, ZeroBlock());
    forall k | 0 <= k < SLOTS ensures sl[k] == 0 {
    }
    assert forall b :: b in owner && Mine(owner[b], inum) ==> b in MineSet(owner, inum);
  }

  /** Writing the inode back ends the operation: the invariant holds and only file `inum` changed. */
  lemma Commit(o: Origin, disk: seq<Block>, owner: Owners, nd: Inode, blk: Block)
    requires StoreInv(o.disk, o.owner.Keys, o.owner) && 1 <= o.inum <= INODE_NUM
    requires InDataRange(owner) && Others(o, disk, owner)
    requires Ready(disk, owner, o.inum, nd) && DecodeInode(blk) == nd
    ensures var disk' := disk[IBlock(o.inum) := blk];
      && StoreInv(disk', owner.Keys, owner)
      && Node(disk', o.inum) == nd
      && AbsFiles(disk') ==
         if nd.typ == 0 then AbsFiles(o.disk) - {o.inum} else AbsFiles(o.disk)[o.inum := FileOf(disk, nd)]
  {
    hide StoreInv, FileOk, AbsFile, AbsFiles, Node, Others, Ready, FileOf, DecodeInode, InDataRange;
    InvFacts(o.disk, o.owner.Keys, o.owner);
    OthersCommit(o, disk, owner, blk);
    var disk' := disk[IBlock(o.inum) := blk];
    CommitFile(disk, owner, o.inum, nd, blk);
    OtherFilesSame(o, disk', owner);
    AbsFilesUpdate(o.disk, disk', o.inum);
    CommitInv(o, disk', owner);
  }

  lemma CommitInv(o: Origin, disk: seq<Block>, owner: Owners)
    requires StoreInv(o.disk, o.owner.Keys, o.owner) && 1 <= o.inum <= INODE_NUM
    requires InDataRange(owner) && Others(o, disk, owner) && Node(disk, 0) == Node(o.disk, 0)
    requires FileOk(disk, owner, o.inum)
    requires forall j :: 1 <= j <= INODE_NUM && j != o.inum ==> FileOk(disk, owner, j)
    ensures StoreInv(disk, owner.Keys, owner)
  {
  }

  lemma AbsFilesUpdate(disk0: seq<Block>, disk: seq<Block>, inum: nat)
    requires 1 <= inum <= INODE_NUM
    requires forall j: nat :: 1 <= j <= INODE_NUM && j != inum ==>
      Node(disk, j) == Node(disk0, j) && AbsFile(disk, j) == AbsFile(disk0, j)
    ensures AbsFiles(disk) == if Node(disk, inum).typ == 0 then AbsFiles(disk0) - {inum}
                              else AbsFiles(disk0)[inum := AbsFile(disk, inum)]
  {
    hide AbsFile, Node;
  }

  // ---- Data written so far ----------------------------------------------------------------

  /** Block `k` of the file's new content is in `blk`; the tail of the last block is free. */
  predicate Holds(blk: Block, buf: seq<Byte>, size: nat, k: nat)
    requires size <= |buf|
  {
    k * BLOCK_SIZE < size &&
    var len := Min(BLOCK_SIZE, size - k * BLOCK_SIZE);
    blk[..len] == buf[k * BLOCK_SIZE..k * BLOCK_SIZE + len]
  }

  lemma HoldsWritten(buf: seq<Byte>, size: nat, k: nat)
    requires k * BLOCK_SIZE < size && size + BLOCK_SIZE <= |buf|
    ensures Holds(buf[k * BLOCK_SIZE..k * BLOCK_SIZE + BLOCK_SIZE], buf, size, k)
  {
  }

  lemma HoldsPadded(buf: seq<Byte>, size: nat, k: nat)
    requires k * BLOCK_SIZE < size <= |buf| && k * BLOCK_SIZE + BLOCK_SIZE > size
    ensures Holds(buf[k * BLOCK_SIZE..size] + ZeroBlock()[size - k * BLOCK_SIZE..], buf, size, k)
  {
  }

  lemma HoldsContent(disk: seq<Block>, sl: seq<Word>, buf: seq<Byte>, size: nat)
    requires size <= |buf| && size <= MAX_SIZE && |sl| == SLOTS
    requires forall k :: 0 <= k < MAXFILE && k * BLOCK_SIZE < size ==> Holds(BlockAt(disk, sl[k]), buf, size, k)
    ensures Content(disk, sl, size) == buf[..size]
  {
  }
}
