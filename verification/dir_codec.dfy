/** Directory contents: `inum/name/inum/name/...`, printed by the create operations, parsed by `readdir`. */
module DirCodec {
  import opened Wrappers
  import opened Bytes

  const SLASH: Byte := 47
  const ZERO: Byte := 48

  datatype Dirent = Dirent(inum: U64, name: seq<Byte>)

  // ---- Numbers -------------------------------------------------------------------------------

  predicate IsDigit(c: Byte) {
    ZERO <= c <= 57
  }

  predicate IsSpace(c: Byte) {
    c == 32 || 9 <= c <= 13
  }

  /** `ost << n`. */
  function Filename(n: nat): (s: seq<Byte>)
    ensures s != [] && forall k :: 0 <= k < |s| ==> IsDigit(s[k])
  {
    if n < 10 then [ZERO + n] else Filename(n / 10) + [ZERO + n % 10]
  }

  /** The digits at the front of `s`, read after digits worth `acc`. */
  function Digits(s: seq<Byte>, acc: nat): nat
    decreases |s|
  {
    if s == [] || !IsDigit(s[0]) then acc else Digits(s[1..], 10 * acc + (s[0] - ZERO))
  }

  function SkipSpace(s: seq<Byte>): (r: seq<Byte>)
    ensures |r| <= |s|
  {
    if s != [] && IsSpace(s[0]) then SkipSpace(s[1..]) else s
  }

  /** `ist >> finum` for an unsigned 64-bit number: blanks, a sign, digits; too large saturates. */
  function N2i(s: seq<Byte>): U64 {
    var t := SkipSpace(s);
    if t == [] then 0
    else
      var negative := t[0] == 45;
      var v := Digits(if negative || t[0] == 43 then t[1..] else t, 0);
      if v > U64_MAX then U64_MAX else if negative then (-(v as int)) % (U64_MAX + 1) else v
  }

  /** The canonical decimal numerals: no blanks, no sign, no leading zero. */
  predicate IsNumeral(s: seq<Byte>) {
    s != [] && (forall k :: 0 <= k < |s| ==> IsDigit(s[k])) && (|s| > 1 ==> s[0] != ZERO) && Digits(s, 0) <= U64_MAX
  }

  /** Reading digits one more to the right. */
  lemma {:induction false} DigitsSnoc(s: seq<Byte>, c: Byte, acc: nat)
    requires (forall k :: 0 <= k < |s| ==> IsDigit(s[k])) && IsDigit(c)
    ensures Digits(s + [c], acc) == 10 * Digits(s, acc) + (c - ZERO)
    decreases |s|
  {
    if s == [] {
      assert Digits([c], acc) == Digits([c][1..], 10 * acc + (c - ZERO));
    } else {
      assert (s + [c])[1..] == s[1..] + [c];
      DigitsSnoc(s[1..], c, 10 * acc + (s[0] - ZERO));
    }
  }

  lemma {:induction false} DigitsOfFilename(n: nat)
    ensures Digits(Filename(n), 0) == n
    ensures |Filename(n)| > 1 ==> Filename(n)[0] != ZERO
    ensures n > 0 ==> Filename(n)[0] != ZERO
  {
    if n >= 10 {
      DigitsOfFilename(n / 10);
      DigitsSnoc(Filename(n / 10), ZERO + n % 10, 0);
    } else {
      assert Digits([ZERO + n], 0) == Digits([ZERO + n][1..], n);
    }
  }

  /** The decimal round trip. */
  lemma NumberRoundTrip(n: U64)
    ensures N2i(Filename(n)) == n && IsNumeral(Filename(n))
  {
    DigitsOfFilename(n);
  }

  lemma {:induction false} FilenameOfDigits(s: seq<Byte>)
    requires s != [] && (forall k :: 0 <= k < |s| ==> IsDigit(s[k])) && (|s| > 1 ==> s[0] != ZERO)
    ensures Filename(Digits(s, 0)) == s
    ensures |s| > 1 || s[0] != ZERO ==> Digits(s, 0) > 0
    decreases |s|
  {
    var t, c := s[..|s| - 1], s[|s| - 1];
    assert s == t + [c];
    DigitsSnoc(t, c, 0);
    if t != [] {
      FilenameOfDigits(t);
      assert Digits(t, 0) > 0;
      assert Digits(s, 0) / 10 == Digits(t, 0) && Digits(s, 0) % 10 == c - ZERO;
    }
  }

  /** Printing the number that a text reads as gives the text back exactly for the numerals. */
  lemma NumeralExact(s: seq<Byte>)
    ensures Filename(N2i(s)) == s <==> IsNumeral(s)
  {
    NumberRoundTrip(N2i(s));
    if IsNumeral(s) {
      FilenameOfDigits(s);
    }
  }

  // ---- Any text as a number ----------------------------------------------------------------------

  /** What a row of decimal digits is worth, by place. */
  function ValueOf(digits: seq<Byte>): int {
    if digits == [] then 0 else 10 * ValueOf(digits[..|digits| - 1]) + (digits[|digits| - 1] - '0' as int)
  }

  predicate AllDigits(s: seq<Byte>) {
    forall k :: 0 <= k < |s| ==> '0' as int <= s[k] <= '9' as int
  }

  /** Blanks, tabs, and the line breaks. */
  predicate AllBlank(s: seq<Byte>) {
    forall k :: 0 <= k < |s| ==> s[k] == ' ' as int || '\t' as int <= s[k] <= '\r' as int
  }

  lemma {:induction false} DigitsStop(digits: seq<Byte>, rest: seq<Byte>, acc: nat)
    requires AllDigits(digits) && (rest != [] ==> !AllDigits([rest[0]]))
    ensures Digits(digits + rest, acc) == Digits(digits, acc)
    decreases |digits|
  {
    if digits == [] {
      assert rest != [] ==> [rest[0]][0] == rest[0];
      assert [] + rest == rest;
    } else {
      assert (digits + rest)[1..] == digits[1..] + rest;
      DigitsStop(digits[1..], rest, 10 * acc + (digits[0] - ZERO));
    }
  }

  lemma {:induction false} DigitsValue(digits: seq<Byte>)
    requires AllDigits(digits)
    ensures Digits(digits, 0) == ValueOf(digits) >= 0
    decreases |digits|
  {
    if digits != [] {
      var front := digits[..|digits| - 1];
      DigitsValue(front);
      DigitsSnoc(front, digits[|digits| - 1], 0);
      assert front + [digits[|digits| - 1]] == digits;
    }
  }

  lemma {:induction false} SkipBlanks(blanks: seq<Byte>, t: seq<Byte>)
    requires AllBlank(blanks) && (t != [] ==> !AllBlank([t[0]]))
    ensures SkipSpace(blanks + t) == t
    decreases |blanks|
  {
    if blanks == [] {
      assert t != [] ==> [t[0]][0] == t[0];
      assert [] + t == t;
    } else {
      assert (blanks + t)[1..] == blanks[1..] + t;
      SkipBlanks(blanks[1..], t);
    }
  }

  /**
   * What `>>` reads from any text: blanks, perhaps a sign, the digits up to the first other character. Too large a
   * number becomes the largest one, and a negative one wraps around.
   */
  lemma N2iReads(blanks: seq<Byte>, digits: seq<Byte>, rest: seq<Byte>)
    requires AllBlank(blanks) && AllDigits(digits) && (rest != [] ==> !AllDigits([rest[0]]))
    ensures digits != [] ==> N2i(blanks + (digits + rest)) == Min(ValueOf(digits), U64_MAX)
    ensures N2i(blanks + (['+' as int] + (digits + rest))) == Min(ValueOf(digits), U64_MAX)
    ensures N2i(blanks + (['-' as int] + (digits + rest))) ==
      if ValueOf(digits) > U64_MAX then U64_MAX else if ValueOf(digits) == 0 then 0 else U64_MAX + 1 - ValueOf(digits)
  {
    hide SkipSpace, Digits;
    DigitsStop(digits, rest, 0);
    DigitsValue(digits);
    var u := digits + rest;
    if digits != [] {
      assert [u[0]][0] == digits[0];
      SkipBlanks(blanks, u);
    }
    assert (['+' as int] + u)[1..] == u && (['-' as int] + u)[1..] == u;
    SkipBlanks(blanks, ['+' as int] + u);
    SkipBlanks(blanks, ['-' as int] + u);
  }

  // ---- Parsing and printing --------------------------------------------------------------------

  predicate SlashFree(s: seq<Byte>) {
    SLASH !in s
  }

  /** `buf.find('/')`; the length when there is none. */
  function Find(s: seq<Byte>): (i: nat)
    ensures i <= |s| && SlashFree(s[..i]) && (i < |s| ==> s[i] == SLASH)
  {
    if s == [] || s[0] == SLASH then 0 else
      var i := 1 + Find(s[1..]);
      assert s[..i] == [s[0]] + s[1..][..i - 1];
      i
  }

  /** The text before the first slash, the text before the second, and the rest; None without two slashes. */
  function FirstEntry(s: seq<Byte>): (r: Option<(seq<Byte>, seq<Byte>, seq<Byte>)>)
    ensures r.Some? ==> SlashFree(r.value.0) && SlashFree(r.value.1) && |r.value.2| < |s|
    ensures r.Some? ==> s == r.value.0 + [SLASH] + (r.value.1 + [SLASH] + r.value.2)
  {
    var i := Find(s);
    if i >= |s| - 1 then None else
      var t := s[i + 1..];
      var j := Find(t);
      if j == |t| then None else
        assert t == t[..j] + [SLASH] + t[j + 1..];
        Some((s[..i], t[..j], t[j + 1..]))
  }

  /** What the loop of `readdir` makes of the bytes: the entries, or None where it reports IOERR. */
  function Parse(s: seq<Byte>): Option<seq<Dirent>>
    decreases |s|
  {
    if s == [] then Some([])
    else if FirstEntry(s).None? then None
    else
      var (t, name, rest) := FirstEntry(s).value;
      if Parse(rest).None? then None else Some([Dirent(N2i(t), name)] + Parse(rest).value)
  }

  lemma ParseStep(s: seq<Byte>)
    ensures s == [] ==> Parse(s) == Some([])
    ensures s != [] && FirstEntry(s).None? ==> Parse(s).None?
    ensures s != [] && FirstEntry(s).Some? ==>
      var (t, name, rest) := FirstEntry(s).value;
      Parse(s) == if Parse(rest).None? then None else Some([Dirent(N2i(t), name)] + Parse(rest).value)
  {
  }

  function PrintEntry(e: Dirent): seq<Byte> {
    Filename(e.inum) + [SLASH] + e.name + [SLASH]
  }

  function Print(es: seq<Dirent>): seq<Byte> {
    if es == [] then [] else PrintEntry(es[0]) + Print(es[1..])
  }

  predicate Printable(es: seq<Dirent>) {
    forall e :: e in es ==> SlashFree(e.name)
  }

  lemma {:induction false} FindFirst(a: seq<Byte>, b: seq<Byte>)
    requires SlashFree(a)
    ensures Find(a + [SLASH] + b) == |a|
    decreases |a|
  {
    var s := a + [SLASH] + b;
    if a != [] {
      assert s[1..] == a[1..] + [SLASH] + b;
      FindFirst(a[1..], b);
    }
  }

  lemma FirstEntryBuilt(t: seq<Byte>, name: seq<Byte>, rest: seq<Byte>)
    requires SlashFree(t) && SlashFree(name)
    ensures FirstEntry(t + [SLASH] + (name + [SLASH] + rest)) == Some((t, name, rest))
  {
    var u := name + [SLASH] + rest;
    var s := t + [SLASH] + u;
    FindFirst(t, u);
    FindFirst(name, rest);
    assert s[..|t|] == t && s[|t| + 1..] == u;
    assert u[..|name|] == name && u[|name| + 1..] == rest;
  }

  lemma FilenameSlashFree(n: nat)
    ensures SlashFree(Filename(n))
  {
  }

  lemma ParsePrintEntry(e: Dirent, rest: seq<Byte>)
    requires SlashFree(e.name)
    ensures Parse(PrintEntry(e) + rest) == if Parse(rest).None? then None else Some([e] + Parse(rest).value)
  {
    hide FirstEntry, N2i, Filename;
    var t := Filename(e.inum);
    FilenameSlashFree(e.inum);
    FirstEntryBuilt(t, e.name, rest);
    NumberRoundTrip(e.inum);
    assert PrintEntry(e) + rest == t + [SLASH] + (e.name + [SLASH] + rest);
  }

  /** Parsing inverts printing. */
  lemma {:induction false} ParsePrint(es: seq<Dirent>)
    requires Printable(es)
    ensures Parse(Print(es)) == Some(es)
    decreases |es|
  {
    if es != [] {
      ParsePrint(es[1..]);
      ParsePrintEntry(es[0], Print(es[1..]));
      assert [es[0]] + es[1..] == es;
    }
  }

  /** Texts for numbers and names, each followed by a slash. */
  function Joined(ps: seq<(seq<Byte>, seq<Byte>)>): seq<Byte> {
    if ps == [] then [] else ps[0].0 + ['/' as int] + (ps[0].1 + ['/' as int] + Joined(ps[1..]))
  }

  predicate AllSlashFree(ps: seq<(seq<Byte>, seq<Byte>)>) {
    forall p :: p in ps ==> '/' as int !in p.0 && '/' as int !in p.1
  }

  function Entries(ps: seq<(seq<Byte>, seq<Byte>)>): seq<Dirent> {
    seq(|ps|, k requires 0 <= k < |ps| => Dirent(N2i(ps[k].0), ps[k].1))
  }

  lemma EntriesStep(ps: seq<(seq<Byte>, seq<Byte>)>)
    ensures Entries(ps) == if ps == [] then [] else [Dirent(N2i(ps[0].0), ps[0].1)] + Entries(ps[1..])
  {
    hide N2i;
  }

  /** Whatever stands between the slashes: the texts are read in turn as a number and as a name. */
  lemma {:induction false} ParseTexts(ps: seq<(seq<Byte>, seq<Byte>)>)
    requires AllSlashFree(ps)
    ensures Parse(Joined(ps)) == Some(Entries(ps))
    decreases |ps|
  {
    hide FirstEntry, N2i, Parse, Entries;
    EntriesStep(ps);
    ParseStep(Joined(ps));
    if ps != [] {
      ParseTexts(ps[1..]);
      assert ps[0] in ps;
      FirstEntryBuilt(ps[0].0, ps[0].1, Joined(ps[1..]));
    }
  }

  /** Every text that `readdir` accepts is of that kind. */
  lemma {:induction false} ParsedIsJoined(s: seq<Byte>) returns (ps: seq<(seq<Byte>, seq<Byte>)>)
    requires Parse(s).Some?
    ensures AllSlashFree(ps) && Joined(ps) == s
    decreases |s|
  {
    ps := [];
    if s != [] {
      var (t, name, rest) := FirstEntry(s).value;
      var qs := ParsedIsJoined(rest);
      ps := [(t, name)] + qs;
      assert ps[1..] == qs;
    }
  }

  /** Appending a printed entry to a directory that parses appends the entry to the list. */
  lemma {:induction false} ParseAppend(s: seq<Byte>, e: Dirent)
    requires Parse(s).Some? && SlashFree(e.name)
    ensures Parse(s + PrintEntry(e)) == Some(Parse(s).value + [e])
    decreases |s|
  {
    hide FirstEntry, N2i, PrintEntry, Parse;
    ParseStep(s);
    ParseStep([]);
    if s == [] {
      ParsePrintEntry(e, []);
      assert PrintEntry(e) + [] == s + PrintEntry(e);
      assert [e] + [] == [] + [e];
    } else {
      var (t, name, rest) := FirstEntry(s).value;
      ParseAppend(rest, e);
      FirstEntryBuilt(t, name, rest + PrintEntry(e));
      ParseStep(s + PrintEntry(e));
      assert s + PrintEntry(e) == t + [SLASH] + (name + [SLASH] + (rest + PrintEntry(e)));
      assert Parse(s).value + [e] == [Dirent(N2i(t), name)] + (Parse(rest).value + [e]);
    }
  }

  /** No name that is parsed holds a slash, whatever the bytes are. */
  lemma {:induction false} ParsedPrintable(s: seq<Byte>)
    requires Parse(s).Some?
    ensures Printable(Parse(s).value)
    decreases |s|
  {
    if s != [] {
      ParsedPrintable(FirstEntry(s).value.2);
    }
  }

  /** The texts between the slashes where the inode numbers stand. */
  function NumberTexts(s: seq<Byte>): seq<seq<Byte>>
    requires Parse(s).Some?
    decreases |s|
  {
    if s == [] then [] else [FirstEntry(s).value.0] + NumberTexts(FirstEntry(s).value.2)
  }

  /** Printing what was parsed returns the same bytes exactly when every number is a plain numeral. */
  lemma {:induction false} PrintParse(s: seq<Byte>)
    requires Parse(s).Some?
    ensures Print(Parse(s).value) == s <==> forall t :: t in NumberTexts(s) ==> IsNumeral(t)
    decreases |s|
  {
    if s != [] {
      hide FirstEntry, N2i, Filename, IsNumeral;
      var (t, name, rest) := FirstEntry(s).value;
      var e := Dirent(N2i(t), name);
      PrintParse(rest);
      NumeralExact(t);
      var es := Parse(rest).value;
      assert ([e] + es)[1..] == es;
      assert Print([e] + es) == Filename(e.inum) + [SLASH] + (name + [SLASH] + Print(es));
      FilenameSlashFree(e.inum);
      SplitUnique(Filename(e.inum), name + [SLASH] + Print(es), t, name + [SLASH] + rest);
      SplitUnique(name, Print(es), name, rest);
    }
  }

  /** A text is determined by what stands before and after its first slash. */
  lemma SplitUnique(a: seq<Byte>, b: seq<Byte>, c: seq<Byte>, d: seq<Byte>)
    requires SlashFree(a) && SlashFree(c)
    ensures a + [SLASH] + b == c + [SLASH] + d <==> a == c && b == d
  {
    FindFirst(a, b);
    FindFirst(c, d);
    if a + [SLASH] + b == c + [SLASH] + d {
      assert a == (a + [SLASH] + b)[..|a|] == (c + [SLASH] + d)[..|c|] == c;
      assert b == (a + [SLASH] + b)[|a| + 1..] == (c + [SLASH] + d)[|c| + 1..] == d;
    }
  }

  function Slashes(s: seq<Byte>): nat {
    if s == [] then 0 else (if s[0] == SLASH then 1 else 0) + Slashes(s[1..])
  }

  lemma {:induction false} SlashesAfterFind(s: seq<Byte>)
    ensures Slashes(s) == if Find(s) == |s| then 0 else 1 + Slashes(s[Find(s) + 1..])
    decreases |s|
  {
    if s != [] && s[0] != SLASH {
      SlashesAfterFind(s[1..]);
      if Find(s) < |s| {
        assert s[Find(s) + 1..] == s[1..][Find(s[1..]) + 1..];
      }
    }
  }

  /** The slashes of a text of at least one character, by its first entry. */
  lemma FirstEntrySlashes(s: seq<Byte>)
    requires s != []
    ensures FirstEntry(s).Some? ==>
      var rest := FirstEntry(s).value.2;
      Slashes(s) == 2 + Slashes(rest) && s[|s| - 1] == if rest == [] then SLASH else rest[|rest| - 1]
    ensures FirstEntry(s).None? ==> s[|s| - 1] != SLASH || Slashes(s) == 1
  {
    SlashesAfterFind(s);
    if Find(s) < |s| {
      SlashesAfterFind(s[Find(s) + 1..]);
    } else {
      assert s[|s| - 1] != SLASH;
    }
  }

  /** `readdir` accepts exactly the empty text and those with paired slashes that end in one. */
  lemma {:induction false} ParseAccepts(s: seq<Byte>)
    ensures Parse(s).Some? <==> s == [] || (s[|s| - 1] == SLASH && Slashes(s) % 2 == 0)
    decreases |s|
  {
    hide FirstEntry, Slashes, Parse, N2i;
    ParseStep(s);
    if s != [] {
      FirstEntrySlashes(s);
      if FirstEntry(s).Some? {
        var rest := FirstEntry(s).value.2;
        ParseAccepts(rest);
        NoSlashes();
      }
    }
  }

  lemma NoSlashes()
    ensures Slashes([]) == 0
  {
  }
}
