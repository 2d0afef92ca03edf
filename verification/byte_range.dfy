/** `read`, `write` and `setattr`: the byte-range laws, on strings and end to end on the store. */
module ByteRange {
  import opened Wrappers
  import opened Bytes
  import opened DirCodec
  import opened StoreSpec
  import opened ExtentLayer
  import opened ClientSpec
  import opened StoreLaws

  /** The byte at `p` after `data` is written at `off` over `prev`. */
  function ByteAfter(prev: seq<Byte>, off: nat, data: seq<Byte>, p: nat): Byte {
    if off <= p < off + |data| then data[p - off]
    else if p < |prev| then prev[p]
    else 0
  }

  /** A write overlays its data, keeps the old bytes elsewhere and fills a hole with zeros. */
  lemma WrittenBytes(prev: seq<Byte>, off: nat, data: seq<Byte>)
    ensures |Written(prev, off, data)| == Max(|prev|, off + |data|)
    ensures var w := Written(prev, off, data);
      forall p :: 0 <= p < |w| ==> w[p] == ByteAfter(prev, off, data, p)
  {
  }

  /** A read returns the part of the range below the end, also where `off + size` wraps around. */
  lemma ReadExact(buf: seq<Byte>, size: U64, off: nat)
    requires |buf| <= U64_MAX
    ensures ReadRange(buf, size, off) == if off >= |buf| then [] else buf[off..Min(off + size, |buf|)]
  {
  }

  /**
   * `lseek`, `write`, `read` on one file, through the store: any range read back shows the data where it
   * overlaps, the old bytes elsewhere, zeros in a hole, and stops at the new end. Other files do not change.
   */
  lemma WriteThenRead(a: Store, ino: U64, off: nat, data: seq<Byte>, size: U64, from: nat)
    requires Mask(ino) in a.files && WriteFits(a, ino, off, data)
    ensures var prev, a' := Get(a, Mask(ino)), Write(a, ino, off, data);
      var r := ReadRange(Get(a', Mask(ino)), size, from);
      && |r| == Max(0, Min(size, Max(|prev|, off + |data|) - from))
      && (forall k :: 0 <= k < |r| ==> r[k] == ByteAfter(prev, off, data, from + k))
      && TypeOf(a', Mask(ino)) == TypeOf(a, Mask(ino))
      && a'.files.Keys == a.files.Keys && forall i :: i in a.files && i != Mask(ino) ==> a'.files[i] == a.files[i]
  {
    hide ReadRange, Written, Held, Substr, Resized, Replaced, ByteAfter;
    var prev := Get(a, Mask(ino));
    var w := Written(prev, off, data);
    WrittenBytes(prev, off, data);
    ReadExact(w, size, from);
    assert Get(Write(a, ino, off, data), Mask(ino)) == w;
  }

  /**
   * A write of no bytes changes nothing, not even the space in use, exactly when it starts at or before the
   * end; past the end it pads the file with zeros.
   */
  lemma EmptyWrite(a: Store, ino: U64, off: nat)
    requires StoreOk(a) && Mask(ino) in a.files
    ensures var prev := Get(a, Mask(ino));
      && (Write(a, ino, off, []) == a <==> off <= |prev|)
      && (off > |prev| ==> Get(Write(a, ino, off, []), Mask(ino)) == prev + Zeros(off - |prev|))
  {
    hide Held, HeldUpTo;
    var prev := Get(a, Mask(ino));
    assert PlainFile(Mask(ino), a.files[Mask(ino)]);
    if off <= |prev| {
      assert Written(prev, off, []) == prev;
    } else {
      assert |Get(Write(a, ino, off, []), Mask(ino))| == off;
    }
  }

  /**
   * Setting the size should truncate, or pad with zeros. The code truncates; a larger size leaves the content as it
   * was, so the file gets the size exactly when it does not have to grow.
   */
  lemma SetAttrSize(a: Store, ino: U64, size: nat)
    requires Mask(ino) in a.files
    ensures var prev, now := Get(a, Mask(ino)), Get(SetAttr(a, ino, size), Mask(ino));
      && (size <= |prev| ==> now == prev[..size])
      && (size > |prev| ==> now == prev)
      && (|now| == size <==> size <= |prev|)
    ensures SetAttr(a, ino, size).files.Keys == a.files.Keys
    ensures forall i :: i in a.files && i != Mask(ino) ==> SetAttr(a, ino, size).files[i] == a.files[i]
  {
  }

  /** A file of one byte, asked to become two: there is room, and its size stays 1. */
  lemma SetAttrDoesNotGrow()
    ensures var a := Put(Alloc(INITIAL, T_FILE), 2, [7]);
      && StoreOk(a) && 2 in a.files && SetAttrFits(a, 2, 2)
      && Get(a, 2) == [7] && Get(SetAttr(a, 2, 2), 2) == [7]
  {
    hide HeldUpTo, StoreOk, FirstFree;
    InitialOk();
    AllocOk(INITIAL, T_FILE);
    SecondInode();
    PutOk(Alloc(INITIAL, T_FILE), 2, [7]);
  }
}
