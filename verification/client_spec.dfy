/** What each namespace operation does to the store and answers, branch by branch. */
module ClientSpec {
  import opened Wrappers
  import opened Bytes
  import opened DirCodec
  import opened StoreSpec
  import opened ExtentLayer

  datatype Status = OK | NOENT | IOERR | EXIST

  // ---- Directories -----------------------------------------------------------------------------

  function LookupIn(es: seq<Dirent>, name: seq<Byte>): Option<U64> {
    if es == [] then None else if es[0].name == name then Some(es[0].inum) else LookupIn(es[1..], name)
  }

  function Without(es: seq<Dirent>, name: seq<Byte>): seq<Dirent> {
    if es == [] then [] else (if es[0].name == name then [] else [es[0]]) + Without(es[1..], name)
  }

  /** The entries of a directory; None is IOERR: not a directory, or content that does not parse. */
  function Readdir(a: Store, dir: U64): Option<seq<Dirent>> {
    if TypeOf(a, Mask(dir)) != T_DIR then None else Parse(Get(a, Mask(dir)))
  }

  /** Status, and the inode number handed out or found. */
  datatype Outcome = Outcome(status: Status, ino: Option<U64>)

  function Lookup(a: Store, parent: U64, name: seq<Byte>): Outcome {
    if Readdir(a, parent).None? then Outcome(IOERR, None)
    else Outcome(OK, LookupIn(Readdir(a, parent).value, name))
  }

  /** Both names that `mkdir` refuses. */
  predicate IsDots(name: seq<Byte>) {
    name == [46] || name == [46, 46]
  }

  /** The bytes of the parent directory after the new entry is appended. */
  function Extended(a: Store, parent: U64, name: seq<Byte>): seq<Byte> {
    Get(a, Mask(parent)) + PrintEntry(Dirent(NextInode(a), name))
  }

  /** The store after the new inode is allocated and, for a symbolic link, given its content. */
  function WithInode(a: Store, typ: nat, content: Option<seq<Byte>>): Store {
    var a1 := Alloc(a, typ);
    if content.None? then a1 else Put(a1, Mask(NextInode(a)), content.value)
  }

  function MakeOutcome(a: Store, parent: U64, name: seq<Byte>): Outcome {
    var l := Lookup(a, parent, name);
    if l.status != OK then Outcome(IOERR, None)
    else if l.ino.Some? then Outcome(EXIST, l.ino)
    else Outcome(OK, Some(NextInode(a)))
  }

  /** `create`, `mkdir` and `create_symbolic_link` differ in the type and the first content only. */
  function Make(a: Store, parent: U64, name: seq<Byte>, typ: nat, content: Option<seq<Byte>>): Store {
    if MakeOutcome(a, parent, name).status != OK then a
    else Put(WithInode(a, typ, content), Mask(parent), Extended(a, parent, name))
  }

  /** Room for what `Make` puts; asked only when it puts something. */
  predicate MakeFits(a: Store, parent: U64, name: seq<Byte>, typ: nat, content: Option<seq<Byte>>) {
    MakeOutcome(a, parent, name).status == OK ==>
      && (content.Some? ==> Fits(Alloc(a, typ), Mask(NextInode(a)), content.value))
      && Fits(WithInode(a, typ, content), Mask(parent), Extended(a, parent, name))
  }

  function UnlinkStatus(a: Store, parent: U64, name: seq<Byte>): Status {
    var l := Lookup(a, parent, name);
    if l.status != OK then IOERR
    else if l.ino.None? then NOENT
    else if TypeOf(a, Mask(l.ino.value)) != T_FILE then IOERR
    else OK
  }

  /** The directory reprinted without the name. */
  function Reprinted(a: Store, parent: U64, name: seq<Byte>): seq<Byte>
    requires Readdir(a, parent).Some?
  {
    Print(Without(Readdir(a, parent).value, name))
  }

  function Unlink(a: Store, parent: U64, name: seq<Byte>): Store {
    if UnlinkStatus(a, parent, name) != OK then a
    else Put(Remove(a, Mask(Lookup(a, parent, name).ino.value)), Mask(parent), Reprinted(a, parent, name))
  }

  predicate UnlinkFits(a: Store, parent: U64, name: seq<Byte>) {
    UnlinkStatus(a, parent, name) == OK ==>
      Fits(Remove(a, Mask(Lookup(a, parent, name).ino.value)), Mask(parent), Reprinted(a, parent, name))
  }

  // ---- Byte-range input and output ---------------------------------------------------------------

  function Zeros(n: nat): (s: seq<Byte>)
    ensures |s| == n && forall k :: 0 <= k < n ==> s[k] == 0
  {
    seq(n, _ => 0)
  }

  /** `std::string::resize` */
  function Resized(s: seq<Byte>, n: nat): (r: seq<Byte>)
    ensures |r| == n
  {
    if n <= |s| then s[..n] else s + Zeros(n - |s|)
  }

  /** `std::string::substr`: the length is clamped. */
  function Substr(s: seq<Byte>, pos: nat, len: nat): seq<Byte>
    requires pos <= |s|
  {
    s[pos..Min(pos + len, |s|)]
  }

  /** `std::string::replace`: the length is clamped. */
  function Replaced(s: seq<Byte>, pos: nat, len: nat, other: seq<Byte>): seq<Byte>
    requires pos <= |s|
  {
    s[..pos] + other + s[Min(pos + len, |s|)..]
  }

  /** `read`; `off + size` is computed in 64 bits. */
  function ReadRange(buf: seq<Byte>, size: U64, off: nat): seq<Byte> {
    if |buf| <= off then []
    else if (off + size) % (U64_MAX + 1) >= |buf| then Substr(buf, off, |buf| - off)
    else Substr(buf, off, size)
  }

  function Written(prev: seq<Byte>, off: nat, data: seq<Byte>): seq<Byte> {
    var p := if off > |prev| then Resized(prev, off) else prev;
    Replaced(p, off, |data|, data)
  }

  /** `setattr`, with its branches as the code has them. */
  function Sized(buf: seq<Byte>, size: nat): seq<Byte> {
    if |buf| == size then buf
    else if |buf| < size then Substr(buf, 0, size)
    else Resized(buf, size)
  }

  function Write(a: Store, ino: U64, off: nat, data: seq<Byte>): Store {
    Put(a, Mask(ino), Written(Get(a, Mask(ino)), off, data))
  }

  predicate WriteFits(a: Store, ino: U64, off: nat, data: seq<Byte>) {
    Fits(a, Mask(ino), Written(Get(a, Mask(ino)), off, data))
  }

  function SetAttr(a: Store, ino: U64, size: nat): Store {
    if |Get(a, Mask(ino))| == size then a else Put(a, Mask(ino), Sized(Get(a, Mask(ino)), size))
  }

  predicate SetAttrFits(a: Store, ino: U64, size: nat) {
    |Get(a, Mask(ino))| != size ==> Fits(a, Mask(ino), Sized(Get(a, Mask(ino)), size))
  }

  /** `parse_symbolic_link` */
  function Readlink(a: Store, ino: U64): Option<seq<Byte>> {
    if TypeOf(a, Mask(ino)) != T_SYMBOLIC then None else Some(Get(a, Mask(ino)))
  }
}
