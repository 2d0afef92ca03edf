/**
 * What the inode layer promises, without disk, bitmap or indirect blocks: a map from inode
 * numbers to typed byte strings, plus the two facts about its memory that a caller can feel,
 * the rotor of `alloc_inode` and the number of data blocks in use.
 */
module StoreSpec {
  import opened Bytes
  import opened Layout

  const T_DIR: nat := 1
  const T_FILE: nat := 2
  const T_SYMBOLIC: nat := 3

  /** `typ` holds 16 bits. `pinned`: an empty file that still holds direct block 0. */
  datatype File = File(typ: nat, bytes: seq<Byte>, pinned: bool)

  /** `inUse` counts the data blocks in use; `leaked` those of them that no file owns. */
  datatype Store = Store(files: map<nat, File>, rotor: nat, inUse: int, leaked: nat)

  const ROOT: nat := 1
  const INITIAL: Store := Store(map[ROOT := File(T_DIR, [], false)], 0, 0, 0)

  // ---- Space -----------------------------------------------------------------------------

  function DataBlocks(f: File): nat {
    if f.bytes == [] then (if f.pinned then 1 else 0) else BlocksFor(|f.bytes|)
  }

  /** `n` data blocks and the indirect block that more than 100 of them need. */
  function HeldFor(n: nat): nat {
    n + if n > NDIRECT then 1 else 0
  }

  /** The data blocks of a file and its indirect block. */
  function Held(f: File): nat {
    HeldFor(DataBlocks(f))
  }

  /** The blocks `remove_file` gives back: it never follows the indirect block. */
  function Reclaimed(f: File): nat {
    if f.bytes == [] then 0
    else if DataBlocks(f) > NDIRECT then NDIRECT + 1
    else DataBlocks(f)
  }

  /** The file after its content is replaced. Emptying a file keeps block 0 if it was held. */
  function Rewritten(f: File, bytes: seq<Byte>): File {
    File(f.typ, bytes, bytes == [] && (f.bytes != [] || f.pinned))
  }

  /** The disk has room for the new content, and one indirect block can describe it. */
  predicate Fits(a: Store, i: nat, bytes: seq<Byte>) {
    i in a.files ==>
      |bytes| <= MAX_SIZE && a.inUse - Held(a.files[i]) + Held(Rewritten(a.files[i], bytes)) <= DATA_NUM
  }

  // ---- Operations ------------------------------------------------------------------------

  function Get(a: Store, i: nat): seq<Byte> {
    if i in a.files then a.files[i].bytes else []
  }

  /** A 16-bit type, assigned to 32 bits unsigned: it is a signed `short`. */
  function Widened(typ: nat): nat {
    if typ < 0x8000 then typ else typ + 0xFFFF_0000
  }

  /** The type `getattr` reports: 0 for an inode that is not allocated. */
  function TypeOf(a: Store, i: nat): nat {
    if i in a.files then Widened(a.files[i].typ) else 0
  }

  function Put(a: Store, i: nat, bytes: seq<Byte>): Store {
    if i !in a.files then a else
      var f := Rewritten(a.files[i], bytes);
      a.(files := a.files[i := f], inUse := a.inUse - Held(a.files[i]) + Held(f))
  }

  function Remove(a: Store, i: nat): Store {
    if i !in a.files then a else
      var f := a.files[i];
      a.(files := a.files - {i}, inUse := a.inUse - Reclaimed(f), leaked := a.leaked + (Held(f) - Reclaimed(f)))
  }

  /** The inode number that probe `i` of `alloc_inode` looks at. */
  function Probe(rotor: nat, i: nat): nat {
    if i + rotor >= INODE_NUM then (i + rotor) % INODE_NUM + 1 else i + rotor
  }

  /** The first free inode among the probes from `i` on; 0 when they find none. */
  function FirstFree(files: map<nat, File>, rotor: nat, i: nat): (r: nat)
    requires 1 <= i <= INODE_NUM + 1
    ensures r <= INODE_NUM
    ensures r != 0 ==> r !in files
    decreases INODE_NUM + 1 - i
  {
    if i > INODE_NUM then 0
    else if Probe(rotor, i) !in files then Probe(rotor, i)
    else FirstFree(files, rotor, i + 1)
  }

  lemma FirstFreeStep(files: map<nat, File>, rotor: nat, i: nat)
    requires 1 <= i <= INODE_NUM && rotor <= INODE_NUM
    ensures 1 <= Probe(rotor, i) <= INODE_NUM
    ensures FirstFree(files, rotor, i) ==
      if Probe(rotor, i) !in files then Probe(rotor, i) else FirstFree(files, rotor, i + 1)
  {
  }

  lemma FirstFreeEnd(files: map<nat, File>, rotor: nat)
    ensures FirstFree(files, rotor, INODE_NUM + 1) == 0
  {
  }

  function NextInode(a: Store): (r: nat)
    ensures r <= INODE_NUM
    ensures r != 0 ==> r !in a.files
  {
    FirstFree(a.files, a.rotor, 1)
  }

  /** The type is cut to 16 bits; if nothing is left of it the inode stays free, and the rotor moves all the same. */
  function Alloc(a: Store, typ: nat): Store {
    var i, t := NextInode(a), typ % 0x1_0000;
    if i == 0 then a
    else if t == 0 then a.(rotor := i)
    else a.(files := a.files[i := File(t, [], false)], rotor := i)
  }

  /** The first inode allocated is the root. */
  lemma FirstAlloc()
    ensures NextInode(Store(map[], 0, 0, 0)) == ROOT
    ensures Alloc(Store(map[], 0, 0, 0), T_DIR) == INITIAL.(rotor := ROOT)
  {
    FirstFreeStep(map[], 0, 1);
  }
}
