/** The namespace layer: `chfs_client`. */
module ChfsLayer {
  import opened Wrappers
  import opened Bytes
  import opened DirCodec
  import opened ExtentLayer
  import opened ClientSpec
  import S = StoreSpec
  import L = StoreLaws

  const NPOS: int := -1

  /** `s.find('/', pos)` */
  function FindFrom(s: seq<Byte>, pos: nat): (i: int)
    requires pos <= |s|
    ensures i == NPOS || (pos <= i < |s| && SlashFree(s[pos..i]) && s[i] == SLASH)
  {
    var j := Find(s[pos..]);
    assert s[pos..][..j] == s[pos..pos + j];
    if j == |s| - pos then NPOS else pos + j
  }

  /** The loop of `readdir` finds the next entry just where `FirstEntry` splits it off. */
  lemma EntryAt(buf: seq<Byte>, pos: nat, i: int, j: int)
    requires pos <= |buf| && i == FindFrom(buf, pos) && 0 <= i < |buf| - 1 && j == FindFrom(buf, i + 1) != NPOS
    ensures FirstEntry(buf[pos..]) == Some((buf[pos..i], buf[i + 1..j], buf[j + 1..]))
  {
    hide FirstEntry, Find;
    FirstEntryBuilt(buf[pos..i], buf[i + 1..j], buf[j + 1..]);
    assert buf[i + 1..] == buf[i + 1..j] + [SLASH] + buf[j + 1..];
    assert buf[pos..] == buf[pos..i] + [SLASH] + buf[i + 1..];
  }

  lemma NoEntryAt(buf: seq<Byte>, pos: nat, i: int)
    requires pos <= |buf| && i == FindFrom(buf, pos)
    requires 0 <= i < |buf| - 1 ==> FindFrom(buf, i + 1) == NPOS
    ensures FirstEntry(buf[pos..]).None?
  {
  }

  /** What is parsed before `pos` and what is left together make the directory. */
  predicate Parsed(buf: seq<Byte>, list: seq<Dirent>, pos: nat)
    requires pos <= |buf|
  {
    Parse(buf) == if Parse(buf[pos..]).None? then None else Some(list + Parse(buf[pos..]).value)
  }

  lemma ParsedStart(buf: seq<Byte>)
    ensures Parsed(buf, [], 0)
  {
    assert buf[0..] == buf;
    if Parse(buf).Some? {
      assert [] + Parse(buf).value == Parse(buf).value;
    }
  }

  lemma ParsedStep(buf: seq<Byte>, list: seq<Dirent>, pos: nat)
    requires pos <= |buf| && Parsed(buf, list, pos)
    ensures pos == |buf| ==> Parse(buf) == Some(list)
    ensures pos < |buf| && FirstEntry(buf[pos..]).None? ==> Parse(buf).None?
    ensures pos < |buf| && FirstEntry(buf[pos..]).Some? ==>
      var (t, name, rest) := FirstEntry(buf[pos..]).value;
      forall p: nat :: p <= |buf| && buf[p..] == rest ==> Parsed(buf, list + [Dirent(N2i(t), name)], p)
  {
    hide FirstEntry, N2i;
    ParseStep(buf[pos..]);
    if pos == |buf| {
      assert list + [] == list;
    } else if FirstEntry(buf[pos..]).Some? {
      var (t, name, rest) := FirstEntry(buf[pos..]).value;
      if Parse(rest).Some? {
        assert list + ([Dirent(N2i(t), name)] + Parse(rest).value) == list + [Dirent(N2i(t), name)] + Parse(rest).value;
      }
    }
  }

  /** A freshly allocated inode is not the directory it is entered in. */
  lemma AllocKeeps(a: S.Store, typ: nat, i: nat)
    requires S.TypeOf(a, i) != 0
    ensures S.Get(S.Alloc(a, typ), i) == S.Get(a, i)
  {
  }

  lemma RemoveKeeps(a: S.Store, i: nat, j: nat)
    ensures i != j ==> S.Get(S.Remove(a, i), j) == S.Get(a, j) && S.TypeOf(S.Remove(a, i), j) == S.TypeOf(a, j)
  {
  }

  class ChfsClient {
    const ec: ExtentServer

    ghost predicate Valid()
      reads ec.Repr
    {
      ec.Valid()
    }

    ghost function Abs(): S.Store
      requires Valid()
      reads ec.Repr
    {
      ec.Abs()
    }

    constructor ()
      ensures Valid() && fresh(ec.Repr) && Abs() == S.INITIAL
    {
      var server := new ExtentServer();
      L.InitialPut();
      hide S.Put, S.Fits, ExtentServer.Valid, ExtentServer.Abs;
      server.Put(1, []);
      ec := server;
    }

    method CheckDirInode(parent: U64) returns (r: Status)
      requires Valid()
      ensures r == if S.TypeOf(Abs(), Mask(parent)) == S.T_DIR then OK else IOERR
    {
      var a := ec.GetAttr(parent);
      if a.typ != S.T_DIR {
        return IOERR;
      }
      return OK;
    }

    method IsFile(inum: U64) returns (r: bool)
      requires Valid()
      ensures r <==> S.TypeOf(Abs(), Mask(inum)) == S.T_FILE
    {
      var a := ec.GetAttr(inum);
      return a.typ == S.T_FILE;
    }

    // ---- Directories -----------------------------------------------------------------------------

    method Readdir(dir: U64) returns (r: Status, list: seq<Dirent>)
      requires Valid()
      modifies ec.Repr
      ensures Valid() && Abs() == old(Abs())
      ensures r == if ClientSpec.Readdir(Abs(), dir).Some? then OK else IOERR
      ensures r == OK ==> list == ClientSpec.Readdir(Abs(), dir).value && Printable(list)
    {
      list := [];
      r := CheckDirInode(dir);
      if r != OK {
        return IOERR, [];
      }
      var buf := ec.Get(dir);
      r, list := ParseEntries(buf);
    }

    /** The loop of `readdir`. */
    static method ParseEntries(buf: seq<Byte>) returns (r: Status, list: seq<Dirent>)
      ensures r == if Parse(buf).Some? then OK else IOERR
      ensures r == OK ==> list == Parse(buf).value && Printable(list)
    {
      hide Parsed, FirstEntry, FindFrom, N2i;
      var length, pos := |buf|, 0;
      list := [];
      ParsedStart(buf);
      while pos < length
        invariant 0 <= pos <= length && Parsed(buf, list, pos)
      {
        ParsedStep(buf, list, pos);
        var slashPos := FindFrom(buf, pos);
        if slashPos == NPOS {
          NoEntryAt(buf, pos, NPOS);
          return IOERR, list;
        }
        var inumStr := buf[pos..slashPos];
        ghost var start := pos;
        pos := slashPos + 1;
        if pos >= length {
          NoEntryAt(buf, start, slashPos);
          return IOERR, list;
        }
        ghost var first := slashPos;
        slashPos := FindFrom(buf, pos);
        if slashPos == NPOS {
          NoEntryAt(buf, start, first);
          return IOERR, list;
        }
        EntryAt(buf, start, first, slashPos);
        var nameStr := buf[pos..slashPos];
        pos := slashPos + 1;
        list := list + [Dirent(N2i(inumStr), nameStr)];
      }
      ParsedStep(buf, list, pos);
      ParsedPrintable(buf);
      return OK, list;
    }

    method Lookup(parent: U64, name: seq<Byte>) returns (r: Outcome)
      requires Valid()
      modifies ec.Repr
      ensures Valid() && Abs() == old(Abs()) && r == ClientSpec.Lookup(old(Abs()), parent, name)
    {
      var status := CheckDirInode(parent);
      if status != OK {
        return Outcome(IOERR, None);
      }
      var list;
      status, list := Readdir(parent);
      if status != OK {
        return Outcome(IOERR, None);
      }
      var i := 0;
      while i < |list|
        invariant 0 <= i <= |list|
        invariant LookupIn(list, name) == LookupIn(list[i..], name)
        modifies {}
      {
        assert list[i..][0] == list[i] && list[i..][1..] == list[i + 1..];
        if list[i].name == name {
          return Outcome(OK, Some(list[i].inum));
        }
        i := i + 1;
      }
      return Outcome(OK, None);
    }

    /** The common end of the three create operations: a new inode, and its entry in the parent. */
    method AddEntry(parent: U64, name: seq<Byte>, typ: Word, content: Option<seq<Byte>>) returns (ino: U64)
      requires Valid() && S.TypeOf(Abs(), Mask(parent)) != 0
      requires content.Some? ==> S.Fits(S.Alloc(Abs(), typ), Mask(S.NextInode(Abs())), content.value)
      requires S.Fits(WithInode(Abs(), typ, content), Mask(parent), Extended(Abs(), parent, name))
      modifies ec.Repr
      ensures Valid() && ino == S.NextInode(old(Abs()))
      ensures Abs() == S.Put(WithInode(old(Abs()), typ, content), Mask(parent), Extended(old(Abs()), parent, name))
    {
      hide S.Alloc, S.Put, S.Get, S.Fits, S.NextInode;
      AllocKeeps(Abs(), typ, Mask(parent));
      ino := ec.Create(typ);
      var buf := ec.Get(parent);
      var inumNamePair := Filename(ino) + [SLASH] + name + [SLASH];
      buf := buf + inumNamePair;
      if content.Some? {
        ec.Put(ino, content.value);
      }
      ec.Put(parent, buf);
    }

    /** `create`, up to the new inode. */
    method Create(parent: U64, name: seq<Byte>) returns (r: Outcome)
      requires Valid() && MakeFits(Abs(), parent, name, S.T_FILE, None)
      modifies ec.Repr
      ensures Valid() && r == MakeOutcome(old(Abs()), parent, name)
      ensures Abs() == Make(old(Abs()), parent, name, S.T_FILE, None)
    {
      hide S.Alloc, S.Put, S.Get, S.Fits, S.NextInode, Extended, WithInode, Parse;
      var status := CheckDirInode(parent);
      if status != OK {
        return Outcome(IOERR, None);
      }
      r := Lookup(parent, name);
      if r.status != OK {
        return Outcome(IOERR, None);
      }
      if r.ino.Some? {
        return Outcome(EXIST, r.ino);
      }
      var ino := AddEntry(parent, name, S.T_FILE, None);
      return Outcome(OK, Some(ino));
    }

    method Mkdir(parent: U64, name: seq<Byte>) returns (r: Outcome)
      requires Valid() && (!IsDots(name) ==> MakeFits(Abs(), parent, name, S.T_DIR, None))
      modifies ec.Repr
      ensures Valid()
      ensures r == if IsDots(name) then Outcome(IOERR, None) else MakeOutcome(old(Abs()), parent, name)
      ensures Abs() == if IsDots(name) then old(Abs()) else Make(old(Abs()), parent, name, S.T_DIR, None)
    {
      hide S.Alloc, S.Put, S.Get, S.Fits, S.NextInode, Extended, WithInode, Parse;
      var status := CheckDirInode(parent);
      if status != OK {
        return Outcome(IOERR, None);
      }
      if IsDots(name) {
        return Outcome(IOERR, None);
      }
      r := Lookup(parent, name);
      if r.status != OK {
        return Outcome(IOERR, None);
      }
      if r.ino.Some? {
        return Outcome(EXIST, r.ino);
      }
      var ino := AddEntry(parent, name, S.T_DIR, None);
      return Outcome(OK, Some(ino));
    }

    method CreateSymbolicLink(parent: U64, trueFilePath: seq<Byte>, linkName: seq<Byte>) returns (r: Outcome)
      requires Valid() && MakeFits(Abs(), parent, linkName, S.T_SYMBOLIC, Some(trueFilePath))
      modifies ec.Repr
      ensures Valid() && r == MakeOutcome(old(Abs()), parent, linkName)
      ensures Abs() == Make(old(Abs()), parent, linkName, S.T_SYMBOLIC, Some(trueFilePath))
    {
      hide S.Alloc, S.Put, S.Get, S.Fits, S.NextInode, Extended, WithInode, Parse;
      var status := CheckDirInode(parent);
      if status != OK {
        return Outcome(IOERR, None);
      }
      r := Lookup(parent, linkName);
      if r.status != OK {
        return Outcome(IOERR, None);
      }
      if r.ino.Some? {
        return Outcome(EXIST, r.ino);
      }
      var ino := AddEntry(parent, linkName, S.T_SYMBOLIC, Some(trueFilePath));
      return Outcome(OK, Some(ino));
    }

    method ParseSymbolicLink(ino: U64) returns (r: Option<seq<Byte>>)
      requires Valid()
      modifies ec.Repr
      ensures Valid() && Abs() == old(Abs()) && r == Readlink(old(Abs()), ino)
    {
      var a := ec.GetAttr(ino);
      if a.typ != S.T_SYMBOLIC {
        return None;
      }
      var data := ec.Get(ino);
      return Some(data);
    }

    method Unlink(parent: U64, name: seq<Byte>) returns (r: Status)
      requires Valid() && UnlinkFits(Abs(), parent, name)
      modifies ec.Repr
      ensures Valid() && r == UnlinkStatus(old(Abs()), parent, name)
      ensures Abs() == ClientSpec.Unlink(old(Abs()), parent, name)
    {
      hide S.Remove, S.Put, S.Get, S.Fits, S.TypeOf, Parse, Print, Without;
      r := CheckDirInode(parent);
      if r != OK {
        return IOERR;
      }
      var l := Lookup(parent, name);
      if l.status != OK {
        return IOERR;
      }
      if l.ino.None? {
        return NOENT;
      }
      var ok := IsFile(l.ino.value);
      if !ok {
        return IOERR;
      }
      RemoveKeeps(Abs(), Mask(l.ino.value), Mask(parent));
      ec.Remove(l.ino.value);
      var list;
      r, list := Readdir(parent);
      if r != OK {
        return IOERR;
      }
      var newBuf := Reprint(list, name);
      ec.Put(parent, newBuf);
      return OK;
    }

    /** The loop of `unlink`: print every entry but those with the name. */
    static method Reprint(list: seq<Dirent>, name: seq<Byte>) returns (newBuf: seq<Byte>)
      ensures newBuf == Print(Without(list, name))
    {
      newBuf := [];
      var i := 0;
      while i < |list|
        invariant 0 <= i <= |list|
        invariant Print(Without(list, name)) == newBuf + Print(Without(list[i..], name))
      {
        hide PrintEntry;
        ghost var rest := list[i + 1..];
        assert list[i..][0] == list[i] && list[i..][1..] == rest;
        if list[i].name != name {
          assert ([list[i]] + Without(rest, name))[1..] == Without(rest, name);
          newBuf := newBuf + PrintEntry(list[i]);
        } else {
          assert [] + Without(rest, name) == Without(rest, name);
        }
        i := i + 1;
      }
    }

    // ---- Byte-range input and output -----------------------------------------------------------

    method Read(ino: U64, size: U64, off: nat) returns (data: seq<Byte>)
      requires Valid()
      modifies ec.Repr
      ensures Valid() && Abs() == old(Abs()) && data == ReadRange(S.Get(old(Abs()), Mask(ino)), size, off)
    {
      var buf := ec.Get(ino);
      var length := |buf|;
      if length <= off {
        data := [];
      } else if (off + size) % (U64_MAX + 1) >= length {
        data := Substr(buf, off, length - off);
      } else {
        data := Substr(buf, off, size);
      }
    }

    method Write(ino: U64, off: nat, data: seq<Byte>) returns (bytesWritten: nat)
      requires Valid() && WriteFits(Abs(), ino, off, data)
      modifies ec.Repr
      ensures Valid() && bytesWritten == |data| && Abs() == ClientSpec.Write(old(Abs()), ino, off, data)
    {
      var prevBuf := ec.Get(ino);
      bytesWritten := |data|;
      if off > |prevBuf| {
        prevBuf := Resized(prevBuf, off);
      }
      prevBuf := Replaced(prevBuf, off, |data|, data);
      ec.Put(ino, prevBuf);
    }

    method SetAttr(ino: U64, size: nat)
      requires Valid() && SetAttrFits(Abs(), ino, size)
      modifies ec.Repr
      ensures Valid() && Abs() == ClientSpec.SetAttr(old(Abs()), ino, size)
    {
      var buf := ec.Get(ino);
      var prevSize := |buf|;
      if prevSize == size {
        return;
      } else if prevSize < size {
        buf := Substr(buf, 0, size);
      } else {
        buf := Resized(buf, size);
      }
      ec.Put(ino, buf);
    }
  }
}
