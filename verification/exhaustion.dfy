/** A permitted run that uses up the inodes, and what the next creation does. */
module Exhaustion {
  import opened Wrappers
  import opened Bytes
  import opened Layout
  import opened DirCodec
  import opened StoreSpec
  import opened StoreLaws
  import opened ExtentLayer
  import opened Namespace
  import opened NamespaceRuns
  import C = ClientSpec
  import T = Tree

  /** `n` files in the root, named by the numbers from `k` on. */
  function Creations(k: nat, n: nat): seq<Call> {
    seq(n, (j: nat) => Create(ROOT, Filename(k + j)))
  }

  /** The root and `m - 1` empty files, the first inodes of the table. */
  ghost predicate Stage(a: Store, m: nat) {
    && 1 <= m <= INODE_NUM && NsInv(a)
    && (forall i :: i in a.files <==> 1 <= i <= m)
    && a.rotor == (if m == 1 then 0 else m)
    && a.files[ROOT].typ == T_DIR && |a.files[ROOT].bytes| <= 10 * (m - 1)
    && a.inUse == Held(a.files[ROOT])
    && forall name :: name in Bound(a, ROOT) ==> exists j: nat :: j < m - 1 && name == Filename(j)
  }

  lemma FirstStage()
    ensures Stage(INITIAL, 1)
  {
    hide NsInv;
    InitialInv();
    assert EntriesOf([]) == [];
  }

  lemma ShortNumbers(n: nat)
    requires n < 10000
    ensures |Filename(n)| <= 4
  {
    var n1 := n / 10;
    var n2 := n1 / 10;
    assert n2 / 10 < 10;
    assert |Filename(n2)| <= 2;
    assert |Filename(n1)| <= 3;
  }

  lemma ShortEntries(ino: U64, k: nat)
    requires ino < 10000 && k < 10000
    ensures |PrintEntry(Dirent(ino, Filename(k)))| <= 10
  {
    hide Filename;
    ShortNumbers(ino);
    ShortNumbers(k);
  }

  /** The name of the next file is not taken. */
  lemma FreshName(a: Store, m: nat)
    requires Stage(a, m)
    ensures Filename(m - 1) !in Bound(a, ROOT) && SlashFree(Filename(m - 1))
  {
    hide NsInv, Bound, Filename, N2i;
    FilenameSlashFree(m - 1);
    NumberRoundTrip(m - 1);
    forall j: nat | j < m - 1 ensures Filename(j) != Filename(m - 1) {
      NumberRoundTrip(j);
    }
  }

  /** The probes find the first inode behind those in use, also 1024 at the last moment. */
  lemma NextStageInode(a: Store, m: nat)
    requires Stage(a, m)
    ensures NextInode(a) == if m < INODE_NUM then m + 1 else 0
    ensures InodeLeft(a) <==> m < INODE_NUM
  {
    hide NsInv, FirstFree, Bound, Held;
    AllocComplete(a);
    if m == 1 {
      FirstFreeStep(a.files, a.rotor, 1);
      FirstFreeStep(a.files, a.rotor, 2);
    } else if m < INODE_NUM - 1 {
      FirstFreeStep(a.files, a.rotor, 1);
    }
  }

  /** Room for one more short entry in the root. */
  lemma StageFits(a: Store, m: nat, name: seq<Byte>)
    requires Stage(a, m) && |PrintEntry(Dirent(NextInode(a), name))| <= 10
    ensures C.MakeFits(a, ROOT, name, T_FILE, None)
  {
    hide NsInv, NextInode, Bound, PrintEntry, C.MakeOutcome;
    var bytes := a.files[ROOT].bytes + PrintEntry(Dirent(NextInode(a), name));
    SmallFits(a, bytes);
    NextStageInode(a, m);
    assert C.WithInode(a, T_FILE, None) == Alloc(a, T_FILE);
  }

  lemma SmallFits(a: Store, bytes: seq<Byte>)
    requires |bytes| <= 10 * INODE_NUM
    requires ROOT in a.files && a.inUse == Held(a.files[ROOT])
    ensures Fits(a, ROOT, bytes)
  {
  }

  lemma StageInv(a: Store, m: nat)
    requires Stage(a, m)
    ensures NsInv(a) && TypeOf(a, ROOT) == T_DIR && Mask(ROOT) == ROOT
  {
    hide NsInv, Bound;
  }

  lemma RootCanonical(a: Store)
    requires NsInv(a)
    ensures DirsCanonical(a.files)
  {
  }

  lemma StageOutcome(a: Store, m: nat, name: seq<Byte>)
    requires Stage(a, m) && name !in Bound(a, ROOT)
    ensures C.MakeOutcome(a, ROOT, name) == C.Outcome(C.OK, Some(NextInode(a)))
  {
    hide NextInode, Bound, C.Lookup, NsInv, DirsCanonical, TypeOf, Stage;
    StageInv(a, m);
    RootCanonical(a);
    LookupAgrees(a, ROOT, name);
  }

  lemma StagePermitted(a: Store, m: nat)
    requires 1 <= m < INODE_NUM && Stage(a, m)
    ensures Permitted(a, Create(ROOT, Filename(m - 1)))
  {
    hide NsInv, NextInode, Bound, PrintEntry, C.MakeFits, Filename, Stage;
    FreshName(a, m);
    NextStageInode(a, m);
    ShortEntries(NextInode(a), m - 1);
    StageFits(a, m, Filename(m - 1));
  }

  /** What the files and the space in use look like after one more creation. */
  lemma StageSpace(a: Store, m: nat, name: seq<Byte>)
    requires Stage(a, m) && m < INODE_NUM && name !in Bound(a, ROOT)
    ensures var a' := C.Make(a, ROOT, name, T_FILE, None);
      && ROOT in a'.files && a'.inUse == Held(a'.files[ROOT]) && a'.rotor == m + 1 && a'.files[ROOT].typ == T_DIR
      && a'.files[ROOT].bytes == a.files[ROOT].bytes + PrintEntry(Dirent(m + 1, name))
  {
    hide NsInv, NextInode, Bound, PrintEntry, C.MakeOutcome, Held;
    StageOutcome(a, m, name);
    NextStageInode(a, m);
    assert C.WithInode(a, T_FILE, None) == Alloc(a, T_FILE);
  }

  /** What is bound in the root, and which inodes are taken, after one more creation. */
  lemma StageNames(a: Store, m: nat)
    requires 1 <= m < INODE_NUM && Stage(a, m)
    ensures var a' := C.Make(a, ROOT, Filename(m - 1), T_FILE, None);
      && Bound(a', ROOT) == Bound(a, ROOT)[Filename(m - 1) := m + 1]
      && a'.files.Keys == a.files.Keys + {m + 1}
  {
    hide NsInv, NextInode, Bound, Filename, C.Make, InodeLeft, SlashFree, EntriesOf, C.MakeOutcome, Stage;
    FreshName(a, m);
    NextStageInode(a, m);
    StageOutcome(a, m, Filename(m - 1));
    StageInv(a, m);
    MakeBinds(a, ROOT, Filename(m - 1), T_FILE, None);
  }

  lemma StageStep(a: Store, m: nat)
    requires 1 <= m < INODE_NUM && Stage(a, m)
    ensures Permitted(a, Create(ROOT, Filename(m - 1)))
    ensures Stage(After(a, Create(ROOT, Filename(m - 1))), m + 1)
  {
    hide NsInv, Bound, PrintEntry, Permitted, Filename, Held, C.Make;
    var name := Filename(m - 1);
    var a' := C.Make(a, ROOT, name, T_FILE, None);
    StagePermitted(a, m);
    StepKeepsInv(a, Create(ROOT, name));
    FreshName(a, m);
    StageSpace(a, m, name);
    ShortEntries(m + 1, m - 1);
    StageNames(a, m);
    forall n | n in Bound(a', ROOT) ensures exists j: nat :: j < m && n == Filename(j) {
      if n in Bound(a, ROOT) {
        var j: nat :| j < m - 1 && n == Filename(j);
      }
    }
  }

  lemma FirstCreation(k: nat, n: nat)
    ensures |Creations(k, n)| == n
    ensures n > 0 ==>
      Creations(k, n)[0] == Create(ROOT, Filename(k)) && Creations(k, n)[1..] == Creations(k + 1, n - 1)
  {
    hide Filename;
  }

  lemma {:induction false} StageRun(a: Store, m: nat, n: nat)
    requires 1 <= m && m + n <= INODE_NUM && Stage(a, m)
    ensures KERNEL.AllAllowed(a, Creations(m - 1, n))
    ensures Stage(KERNEL.Final(a, Creations(m - 1, n)), m + n)
    decreases n
  {
    hide Stage, Permitted, After, Filename, Creations;
    FirstCreation(m - 1, n);
    if n > 0 {
      StageStep(a, m);
      var c := Create(ROOT, Filename(m - 1));
      StageRun(After(a, c), m + 1, n - 1);
    }
  }

  /**
   * The inodes run out: after 1023 permitted creations the tree is sound and no inode is left. One more creation
   * has room, reports success with inode 0, and leaves a directory entry that leads nowhere.
   */
  lemma InodesRunOut()
    ensures var cs, c := Creations(0, INODE_NUM - 1), Create(ROOT, [97]);
      var a := KERNEL.Final(INITIAL, cs);
      && KERNEL.AllAllowed(INITIAL, cs) && NsInv(a) && !InodeLeft(a)
      && Feasible(a, c) && Answer(a, c) == Entry(C.Outcome(C.OK, Some(0)))
      && Bound(After(a, c), ROOT) == Bound(a, ROOT)[[97] := 0] && !NsInv(After(a, c))
  {
    hide Stage, NsInv, Bound, NextInode, C.MakeFits, C.Make, C.MakeOutcome, Held, InodeLeft, PrintEntry;
    FirstStage();
    StageRun(INITIAL, 1, INODE_NUM - 1);
    LastStage(KERNEL.Final(INITIAL, Creations(0, INODE_NUM - 1)));
  }

  lemma LastStage(a: Store)
    requires Stage(a, INODE_NUM)
    ensures NsInv(a) && !InodeLeft(a)
    ensures var c := Create(ROOT, [97]);
      && Feasible(a, c) && Answer(a, c) == Entry(C.Outcome(C.OK, Some(0)))
      && Bound(After(a, c), ROOT) == Bound(a, ROOT)[[97] := 0] && !NsInv(After(a, c))
  {
    hide NsInv, Bound, NextInode, C.MakeFits, C.Make, C.MakeOutcome, Held, InodeLeft, PrintEntry;
    var name := [97];
    NextStageInode(a, INODE_NUM);
    LetterIsNoNumber(a);
    StageOutcome(a, INODE_NUM, name);
    assert |PrintEntry(Dirent(0, name))| <= 10 by {
      ShortNumbers(0);
      PrintedSize(0, name);
    }
    StageFits(a, INODE_NUM, name);
    MakeBinds(a, ROOT, name, T_FILE, None);
    MakeKeepsInv(a, ROOT, name, T_FILE, None);
  }

  lemma PrintedSize(ino: U64, name: seq<Byte>)
    ensures |PrintEntry(Dirent(ino, name))| == |Filename(ino)| + |name| + 2
  {
  }

  lemma LetterIsNoNumber(a: Store)
    requires Stage(a, INODE_NUM)
    ensures [97] !in Bound(a, ROOT) && SlashFree([97])
  {
    hide NsInv, Bound;
    forall j: nat | j < INODE_NUM - 1 ensures Filename(j) != [97] {
      NumberRoundTrip(j);
    }
  }
}
