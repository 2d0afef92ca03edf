/** Laws of the abstract store, and what the concrete invariant says about ownership and space. */
module StoreLaws {
  import opened Wrappers
  import opened Bytes
  import opened Layout
  import opened BlockLayer
  import opened StoreSpec
  import opened StoreModel

  // ---- alloc_inode -------------------------------------------------------------------------

  /** One call of `alloc_inode` looks at inode `n`. */
  ghost predicate Probed(rotor: nat, n: nat) {
    exists i :: 1 <= i <= INODE_NUM && Probe(rotor, i) == n
  }

  /** The probes of one call stay in the inode table and cover 1..1023; 1024 only late in a lap. */
  lemma ProbeCoverage(rotor: nat, n: nat)
    requires rotor <= INODE_NUM
    ensures Probed(rotor, n) <==> (1 <= n < INODE_NUM || (n == INODE_NUM && rotor >= INODE_NUM - 1))
  {
    if rotor < n < INODE_NUM {
      assert Probe(rotor, n - rotor) == n;
    } else if 1 < n <= rotor || (n == 1 && rotor < INODE_NUM) {
      assert Probe(rotor, INODE_NUM + n - 1 - rotor) == n;
    } else if n == 1 {
      assert Probe(rotor, INODE_NUM) == n;
    }
  }

  /** The probe that ends the search: it finds `r`, and all before it found inodes in use. */
  ghost predicate FoundAt(files: map<nat, File>, rotor: nat, i: nat, j: nat, r: nat) {
    i <= j <= INODE_NUM && Probe(rotor, j) == r && forall k :: i <= k < j ==> Probe(rotor, k) in files
  }

  lemma {:induction false} FirstFreeFinds(files: map<nat, File>, rotor: nat, i: nat)
    requires 1 <= i <= INODE_NUM + 1 && rotor <= INODE_NUM
    ensures var r := FirstFree(files, rotor, i);
      if r == 0 then forall j :: i <= j <= INODE_NUM ==> Probe(rotor, j) in files
      else 1 <= r <= INODE_NUM && r !in files && exists j :: FoundAt(files, rotor, i, j, r)
    decreases INODE_NUM + 1 - i
  {
    if i <= INODE_NUM {
      FirstFreeStep(files, rotor, i);
      FirstFreeFinds(files, rotor, i + 1);
      var r := FirstFree(files, rotor, i);
      if Probe(rotor, i) !in files {
        assert FoundAt(files, rotor, i, i, r);
      } else if r != 0 {
        var j :| FoundAt(files, rotor, i + 1, j, r);
        assert FoundAt(files, rotor, i, j, r);
      }
    }
  }

  /** All inodes from `lo` up to but excluding `hi` are in use. */
  predicate Taken(files: map<nat, File>, lo: nat, hi: nat) {
    forall n :: lo <= n < hi ==> n in files
  }

  /**
   * First fit around the table: the inode returned is the next free one after the last allocated, up to 1023, and
   * then the first from 1 on. Only at the end of a lap is 1024 looked at, as the last or the last but one.
   */
  lemma FirstFit(a: Store)
    requires a.rotor <= INODE_NUM && NextInode(a) != 0
    ensures var r := NextInode(a);
      && r !in a.files
      && (a.rotor < 1023 && r > a.rotor ==> r <= 1023 && Taken(a.files, a.rotor + 1, r))
      && (a.rotor < 1023 && r <= a.rotor ==> Taken(a.files, a.rotor + 1, 1024) && Taken(a.files, 1, r))
      && (a.rotor == 1023 ==> Taken(a.files, 1, r))
      && (a.rotor == 1024 ==> if r == 1 then Taken(a.files, 2, 1025) else Taken(a.files, 2, r))
  {
    hide FirstFree;
    FirstFreeFinds(a.files, a.rotor, 1);
    var r := NextInode(a);
    var j :| FoundAt(a.files, a.rotor, 1, j, r);
    forall n: nat | 1 <= ProbeOf(a.rotor, n) < j && 1 <= n <= 1024 && (n < 1024 || a.rotor >= 1023)
      ensures n in a.files
    {
      assert Probe(a.rotor, ProbeOf(a.rotor, n)) == n;
    }
  }

  /** The first probe that looks at inode `n`. */
  function ProbeOf(rotor: nat, n: nat): int {
    if rotor < n < INODE_NUM then n - rotor
    else if n == 1 && rotor == INODE_NUM then INODE_NUM
    else INODE_NUM + n - 1 - rotor
  }

  /** An inode that `alloc_inode` can reach is free. */
  predicate InodeLeft(a: Store) {
    || (exists n :: 1 <= n < INODE_NUM && n !in a.files)
    || (a.rotor >= INODE_NUM - 1 && INODE_NUM !in a.files)
  }

  /**
   * `alloc_inode` returns a free inode, or 0 exactly when no inode it can reach is free:
   * all of 1..1023, and 1024 too once the rotor stands at the end of the table.
   */
  lemma AllocComplete(a: Store)
    requires a.rotor <= INODE_NUM
    ensures var r := NextInode(a);
      && (r != 0 ==> 1 <= r <= INODE_NUM && r !in a.files)
      && (r == INODE_NUM ==> a.rotor >= INODE_NUM - 1)
      && (r == 0 <==> !InodeLeft(a))
  {
    hide FirstFree, Probe;
    FirstFreeFinds(a.files, a.rotor, 1);
    var r := NextInode(a);
    forall n | Probed(a.rotor, n) && r == 0 ensures n in a.files {
    }
    if r != 0 {
      var j :| FoundAt(a.files, a.rotor, 1, j, r);
      assert Probed(a.rotor, r);
      ProbeCoverage(a.rotor, r);
    } else {
      forall n | 1 <= n <= INODE_NUM && (n < INODE_NUM || a.rotor >= INODE_NUM - 1) ensures n in a.files {
        ProbeCoverage(a.rotor, n);
      }
    }
  }

  // ---- remove_file ---------------------------------------------------------------------------

  /**
   * Removing a file frees every block it held exactly when the file has content and needs no
   * indirect block, or holds nothing at all. Otherwise blocks leak for good.
   */
  lemma RemoveReclaims(a: Store, i: nat)
    requires i in a.files
    ensures Remove(a, i).leaked == a.leaked <==>
      (|a.files[i].bytes| <= NDIRECT * BLOCK_SIZE && !(a.files[i].bytes == [] && a.files[i].pinned))
    ensures Remove(a, i).leaked - a.leaked ==
      if a.files[i].bytes == [] then (if a.files[i].pinned then 1 else 0)
      else Max(0, BlocksFor(|a.files[i].bytes|) - NDIRECT)
    ensures a.inUse - Remove(a, i).inUse ==
      if a.files[i].bytes == [] then 0
      else Min(NDIRECT, BlocksFor(|a.files[i].bytes|)) +
           if |a.files[i].bytes| > NDIRECT * BLOCK_SIZE then 1 else 0
  {
  }

  /**
   * What a file holds after it is rewritten, for every old and new content; free blocks and the file's
   * blocks together stay the same.
   */
  lemma PutHoldings(a: Store, i: nat, bytes: seq<Byte>)
    requires i in a.files
    ensures var f, a' := a.files[i], Put(a, i, bytes); var f' := a'.files[i];
      && (bytes != [] ==> (DataBlocks(f') - 1) * BLOCK_SIZE < |bytes| <= DataBlocks(f') * BLOCK_SIZE)
      && (bytes == [] ==> DataBlocks(f') == if DataBlocks(f) > 0 then 1 else 0)
      && Held(f') == DataBlocks(f') + (if |bytes| > NDIRECT * BLOCK_SIZE then 1 else 0)
      && (DATA_NUM - a'.inUse) + Held(f') == (DATA_NUM - a.inUse) + Held(f)
      && a'.leaked == a.leaked
  {
  }

  /** There is room for a content exactly when it is not too long and, once put, no more blocks are used than exist. */
  lemma FitsExactly(a: Store, i: nat, bytes: seq<Byte>)
    ensures Fits(a, i, bytes) <==>
      (i in a.files ==> |bytes| <= (100 + 128) * 512 && Put(a, i, bytes).inUse <= 32768 - 1036)
  {
  }

  /** The number that `bits` binary digits stand for when the topmost is a sign. */
  function Signed(n: nat, top: nat): int {
    if n < top then n else n - 2 * top
  }

  /** A type comes back as the signed 16-bit number it was cut to; the types of the protocol come back unchanged. */
  lemma TypeComesBack(a: Store, typ: nat)
    requires NextInode(a) != 0
    ensures var i, a' := NextInode(a), Alloc(a, typ);
      && (typ % 65536 == 0 <==> i !in a'.files)
      && TypeOf(a', i) < 0x1_0000_0000 && Signed(TypeOf(a', i), 0x8000_0000) == Signed(typ % 65536, 0x8000)
      && (typ < 0x8000 ==> TypeOf(a', i) == typ)
      && Get(a', i) == []
  {
    hide FirstFree;
  }

  /** One byte past the direct blocks: creating, writing and removing such a file loses a block. */
  lemma RemoveLeaks(bytes: seq<Byte>)
    requires |bytes| == NDIRECT * BLOCK_SIZE + 1
    ensures var a := Put(Alloc(INITIAL, T_FILE), 2, bytes);
      && NextInode(INITIAL) == 2
      && Remove(a, 2).files == INITIAL.files && Remove(a, 2).inUse == 1 && Remove(a, 2).leaked == 1
  {
  }

  /** The first inode that a fresh store hands out. */
  lemma SecondInode()
    ensures NextInode(INITIAL) == 2
  {
    FirstFreeStep(INITIAL.files, 0, 1);
    FirstFreeStep(INITIAL.files, 0, 2);
  }

  /** A file that was written and then emptied holds a block, and removing it loses that block. */
  lemma RemoveLeaksEmptied()
    ensures var a := Put(Put(Alloc(INITIAL, T_FILE), 2, [7]), 2, []);
      && a.files == INITIAL.files[2 := File(T_FILE, [], true)]
      && Remove(a, 2).files == INITIAL.files && Remove(a, 2).inUse == 1 && Remove(a, 2).leaked == 1
  {
    SecondInode();
  }

  // ---- Ownership -----------------------------------------------------------------------------

  /** Two slots of live files that hold a block never name the same one. */
  lemma SlotsDistinct(disk: seq<Block>, used: set<nat>, owner: Owners, i: nat, k: nat, j: nat, l: nat)
    requires StoreInv(disk, used, owner)
    requires 1 <= i <= INODE_NUM && 1 <= j <= INODE_NUM && k < SLOTS && l < SLOTS
    ensures FileSlots(disk, i)[k] != 0 ==> IsDataBlock(FileSlots(disk, i)[k]) && FileSlots(disk, i)[k] in used
    ensures FileSlots(disk, i)[k] == FileSlots(disk, j)[l] != 0 ==> i == j && k == l
  {
    assert FileOk(disk, owner, i) && FileOk(disk, owner, j);
  }

  ghost predicate HeldByFile(disk: seq<Block>, b: nat) {
    b != 0 && exists i, k :: 1 <= i <= INODE_NUM && 0 <= k < SLOTS && FileSlots(disk, i)[k] == b
  }

  /** Every used block is either leaked or held by exactly one slot of one file. */
  lemma UsedIsOwned(disk: seq<Block>, used: set<nat>, owner: Owners, b: nat)
    requires StoreInv(disk, used, owner)
    ensures b in used <==> (b in LeakedSet(owner) || HeldByFile(disk, b))
    ensures b in LeakedSet(owner) ==> !HeldByFile(disk, b)
  {
    if b in owner && owner[b].Slot? {
      assert FileOk(disk, owner, owner[b].inum);
      assert FileSlots(disk, owner[b].inum)[owner[b].slot] == b;
    }
    forall i, k | 1 <= i <= INODE_NUM && 0 <= k < SLOTS && b != 0 && FileSlots(disk, i)[k] == b
      ensures b in owner && owner[b] == Slot(i, k)
    {
      assert FileOk(disk, owner, i);
    }
  }

  lemma CountShape(owner: Owners, i: nat, sl: seq<Word>, n: nat)
    requires Tracks(owner, i, sl) && 0 !in owner && Shape(sl, n, n > NDIRECT)
    ensures |MineSet(owner, i)| == HeldFor(n)
  {
    if n > NDIRECT {
      var b: nat := sl[INDIRECT];
      FreeTracks(owner, i, sl, INDIRECT);
      CountMine(owner - {b}, i, sl[INDIRECT := 0], 0, n);
      assert MineSet(owner, i) == MineSet(owner - {b}, i) + {b};
    } else {
      CountMine(owner, i, sl, 0, n);
    }
  }

  /** A file of `n` data blocks owns those and its indirect block, nothing else. */
  lemma OwnedCount(disk: seq<Block>, used: set<nat>, owner: Owners, i: nat)
    requires StoreInv(disk, used, owner) && 1 <= i <= INODE_NUM
    ensures |MineSet(owner, i)| == Held(AbsFile(disk, i))
  {
    hide AbsFile, Shape, Slots, Tracks, Others, FileOk, MineSet, Node;
    BeginWork(disk, used, owner, i);
    CountShape(owner, i, FileSlots(disk, i), NodeBlocks(Node(disk, i)));
  }

  /** The blocks held by inodes 1 to `n`. */
  function HeldUpTo(files: map<nat, File>, n: nat): nat
  {
    if n == 0 then 0 else HeldUpTo(files, n - 1) + if n in files then Held(files[n]) else 0
  }

  ghost function OwnedUpTo(owner: Owners, n: nat): set<nat> {
    set b | b in owner && owner[b].Slot? && owner[b].inum <= n
  }

  lemma OwnedStep(owner: Owners, n: nat)
    ensures OwnedUpTo(owner, n + 1) == OwnedUpTo(owner, n) + MineSet(owner, n + 1)
    ensures |OwnedUpTo(owner, n + 1)| == |OwnedUpTo(owner, n)| + |MineSet(owner, n + 1)|
  {
  }

  lemma {:induction false} CountUpTo(owner: Owners, files: map<nat, File>, n: nat)
    requires forall b :: b in owner && owner[b].Slot? ==> 1 <= owner[b].inum
    requires forall i: nat :: 1 <= i <= n ==> |MineSet(owner, i)| == if i in files then Held(files[i]) else 0
    ensures |OwnedUpTo(owner, n)| == HeldUpTo(files, n)
    decreases n
  {
    if n == 0 {
      assert OwnedUpTo(owner, n) == {};
    } else {
      CountUpTo(owner, files, n - 1);
      OwnedStep(owner, n - 1);
    }
  }

  lemma DeadHoldsNothing(disk: seq<Block>, used: set<nat>, owner: Owners, i: nat)
    requires StoreInv(disk, used, owner) && 1 <= i <= INODE_NUM
    ensures Node(disk, i).typ == 0 ==> Held(AbsFile(disk, i)) == 0
  {
    BeginWork(disk, used, owner, i);
    assert FileOk(disk, owner, i);
  }

  /** The blocks in use are those the live files hold and those that leaked: none is counted twice. */
  lemma SpaceConserved(disk: seq<Block>, used: set<nat>, owner: Owners)
    requires StoreInv(disk, used, owner)
    ensures |used| == HeldUpTo(AbsFiles(disk), INODE_NUM) + |LeakedSet(owner)| <= DATA_NUM
  {
    hide HeldUpTo, AbsFiles, AbsFile, FileOk, Held, Node;
    var files := AbsFiles(disk);
    forall i: nat | 1 <= i <= INODE_NUM ensures |MineSet(owner, i)| == if i in files then Held(files[i]) else 0 {
      OwnedCount(disk, used, owner, i);
      LiveFiles(disk, i);
      DeadHoldsNothing(disk, used, owner, i);
    }
    CountUpTo(owner, files, INODE_NUM);
    InvFacts(disk, used, owner);
    var s := OwnedUpTo(owner, INODE_NUM);
    assert used == s + LeakedSet(owner) && s !! LeakedSet(owner);
  }

  // ---- The abstract store on its own -----------------------------------------------------------

  predicate PlainFile(i: nat, f: File) {
    1 <= i <= INODE_NUM && |f.bytes| <= MAX_SIZE && (f.pinned ==> f.bytes == [])
  }

  /** What every store that the code can reach satisfies. */
  predicate StoreOk(a: Store) {
    && a.rotor <= INODE_NUM
    && (forall i :: i in a.files ==> PlainFile(i, a.files[i]))
    && a.inUse == HeldUpTo(a.files, INODE_NUM) + a.leaked <= DATA_NUM
  }

  lemma {:induction false} HeldSet(files: map<nat, File>, i: nat, f: File, n: nat)
    ensures HeldUpTo(files[i := f], n) ==
      HeldUpTo(files, n) + if 1 <= i <= n then Held(f) - (if i in files then Held(files[i]) else 0) else 0
    decreases n
  {
    if n > 0 {
      HeldSet(files, i, f, n - 1);
    }
  }

  lemma {:induction false} HeldDrop(files: map<nat, File>, i: nat, n: nat)
    requires i in files
    ensures HeldUpTo(files - {i}, n) == HeldUpTo(files, n) - if 1 <= i <= n then Held(files[i]) else 0
    decreases n
  {
    if n > 0 {
      HeldDrop(files, i, n - 1);
    }
  }

  lemma PutOk(a: Store, i: nat, bytes: seq<Byte>)
    requires StoreOk(a) && Fits(a, i, bytes)
    ensures StoreOk(Put(a, i, bytes)) && Put(a, i, bytes).leaked == a.leaked
  {
    hide HeldUpTo, Held;
    if i in a.files {
      HeldSet(a.files, i, Rewritten(a.files[i], bytes), INODE_NUM);
    }
  }

  lemma AllocOk(a: Store, typ: nat)
    requires StoreOk(a)
    ensures StoreOk(Alloc(a, typ)) && Alloc(a, typ).leaked == a.leaked
  {
    hide HeldUpTo, FirstFree;
    AllocComplete(a);
    if NextInode(a) != 0 {
      HeldSet(a.files, NextInode(a), File(typ % 0x1_0000, [], false), INODE_NUM);
    }
  }

  lemma RemoveOk(a: Store, i: nat)
    requires StoreOk(a)
    ensures StoreOk(Remove(a, i)) && Remove(a, i).leaked >= a.leaked
  {
    hide HeldUpTo;
    if i in a.files {
      HeldDrop(a.files, i, INODE_NUM);
    }
  }

  lemma {:induction false} HeldNone(files: map<nat, File>, n: nat)
    requires forall i :: i in files ==> Held(files[i]) == 0
    ensures HeldUpTo(files, n) == 0
    decreases n
  {
    if n > 0 {
      HeldNone(files, n - 1);
    }
  }

  /** Writing the empty string to the empty root changes nothing. */
  lemma InitialPut()
    ensures Fits(INITIAL, ROOT, []) && Put(INITIAL, ROOT, []) == INITIAL
  {
  }

  lemma InitialOk()
    ensures StoreOk(INITIAL)
  {
    hide HeldUpTo;
    HeldNone(INITIAL.files, INODE_NUM);
  }
}
