/** The disk and the block allocator: `disk` and `block_manager`. */
module BlockLayer {
  import opened Bytes
  import opened Layout

  type Block = b: seq<Byte> | |b| == BLOCK_SIZE witness seq(BLOCK_SIZE, _ => 0)

  function ZeroBlock(): (b: Block)
    ensures forall p :: 0 <= p < BLOCK_SIZE ==> b[p] == 0
  {
    seq(BLOCK_SIZE, _ => 0)
  }

  class Disk {
    const blocks: array<Block>

    ghost function Contents(): (s: seq<Block>)
      reads blocks
      ensures |s| == blocks.Length
    {
      blocks[..]
    }

    constructor ()
      ensures fresh(blocks) && blocks.Length == BLOCK_NUM
      ensures forall i :: 0 <= i < BLOCK_NUM ==> Contents()[i] == ZeroBlock()
    {
      blocks := new Block[BLOCK_NUM](_ => ZeroBlock());
    }

    method ReadBlock(id: Word, buf: Block) returns (r: Block)
      requires blocks.Length == BLOCK_NUM
      ensures r == if id < BLOCK_NUM then Contents()[id] else buf
    {
      if id >= BLOCK_NUM {
        return buf;
      }
      r := blocks[id];
    }

    method WriteBlock(id: Word, buf: Block)
      requires blocks.Length == BLOCK_NUM
      modifies blocks
      ensures Contents() == if id < BLOCK_NUM then old(Contents())[id := buf] else old(Contents())
    {
      if id >= BLOCK_NUM {
        return;
      }
      blocks[id] := buf;
    }
  }

  /** The blocks from `lo` up to but excluding `hi`. */
  ghost function Range(lo: nat, hi: nat): (s: set<nat>)
    requires lo <= hi
    ensures |s| == hi - lo
    ensures forall b: nat :: b in s <==> lo <= b < hi
    decreases hi - lo
  {
    if lo == hi then {} else Range(lo, hi - 1) + {hi - 1}
  }

  lemma SubsetSize(a: set<nat>, b: set<nat>)
    requires a <= b
    ensures |a| <= |b|
  {
    assert b == a + (b - a);
  }

  lemma UsedBound(used: set<nat>)
    requires forall b :: b in used ==> IsDataBlock(b)
    ensures |used| <= DATA_NUM
  {
    hide Range;
    SubsetSize(used, Range(FIRST_DATA, BLOCK_NUM));
  }

  /** Fewer used blocks than data blocks leave one data block free. */
  lemma SomeBlockFree(used: set<nat>)
    requires |used| < DATA_NUM
    ensures exists b: nat :: IsDataBlock(b) && b !in used
  {
    hide Range;
    var all := Range(FIRST_DATA, BLOCK_NUM);
    if all <= used {
      SubsetSize(all, used);
      assert false;
    }
    var b :| b in all && b !in used;
    assert IsDataBlock(b);
  }

  class BlockManager {
    const d: Disk
    var usingBlocks: map<nat, int>

    /** The blocks marked in use: an absent entry and a 0 both mean free. */
    ghost function Used(): set<nat>
      reads this
    {
      set b | b in usingBlocks && usingBlocks[b] == 1
    }

    ghost predicate Valid()
      reads this
    {
      d.blocks.Length == BLOCK_NUM && forall b :: b in usingBlocks ==> usingBlocks[b] == 0 || usingBlocks[b] == 1
    }

    constructor ()
      ensures Valid() && fresh(d.blocks) && Used() == {}
      ensures forall i :: 0 <= i < BLOCK_NUM ==> d.Contents()[i] == ZeroBlock()
    {
      d := new Disk();
      usingBlocks := map[];
    }

    predicate IsValidBlock(id: Word)
      reads this
      ensures IsValidBlock(id) <==> id < BLOCK_NUM && id in Used()
    {
      id < BLOCK_NUM && id in usingBlocks && usingBlocks[id] == 1
    }

    /** First fit: the lowest free data block, or 0 when none is left. */
    method AllocBlock() returns (id: Word)
      requires Valid()
      modifies this
      ensures Valid()
      ensures id == 0 ==> Used() == old(Used()) && forall b :: IsDataBlock(b) ==> b in old(Used())
      ensures id != 0 ==> IsDataBlock(id) && id !in old(Used()) && Used() == old(Used()) + {id}
      ensures id != 0 ==> forall b :: FIRST_DATA <= b < id ==> b in old(Used())
    {
      var i := FIRST_DATA;
      while i < BLOCK_NUM
        invariant FIRST_DATA <= i <= BLOCK_NUM
        invariant usingBlocks == old(usingBlocks)
        invariant forall b :: FIRST_DATA <= b < i ==> b in Used()
      {
        if i !in usingBlocks || usingBlocks[i] == 0 {
          usingBlocks := usingBlocks[i := 1];
          return i;
        }
        i := i + 1;
      }
      return 0;
    }

    /** The precondition is the assertion the source makes. */
    method FreeBlock(id: Word)
      requires Valid()
      requires id < BLOCK_NUM ==> id in Used()
      modifies this, d.blocks
      ensures Valid()
      ensures id < BLOCK_NUM ==> d.Contents() == old(d.Contents())[id := ZeroBlock()] && Used() == old(Used()) - {id}
      ensures id >= BLOCK_NUM ==> d.Contents() == old(d.Contents()) && Used() == old(Used())
    {
      if id >= BLOCK_NUM {
        return;
      }
      d.WriteBlock(id, ZeroBlock());
      assert usingBlocks[id] == 1;
      usingBlocks := usingBlocks[id := 0];
    }
  }
}
