/** Reading and writing the members of an archive. */
module ArMember {
  import opened Wrappers
  import opened Arithmetic
  import opened Powers
  import opened Bytes
  import opened ArFormat

  // ----- members as they are in an archive -----

  /**
   A member: its header, the long name behind the header if there is one, and its
   contents; not `whole` if the archive ends before the contents or their pad byte do.
   */
  datatype Entry = Entry(hb: seq<byte>, long: seq<byte>, data: seq<byte>, whole: bool)

  /** The byte after contents of odd length; the length of a long name counts. */
  function PadOf(size: nat, lname: nat): seq<byte> { if size > 0 && (size + lname) % 2 == 1 then [NEWLINE] else [] }

  function Padded(n: nat): nat { (n + 3) / 4 * 4 }

  function Nuls(n: nat): (s: seq<byte>)
    ensures |s| == n
  {
    seq(n, _ => 0)
  }

  /** A long name as it is written, up to a multiple of four. */
  function PaddedName(name: seq<byte>): seq<byte> { name + Nuls(Padded(|name|) - |name|) }

  /** What is written for a member. */
  function BytesOf(e: Entry): seq<byte> { e.hb + PaddedName(e.long) + e.data + PadOf(|e.data|, Padded(|e.long|)) }

  function AllBytes(es: seq<Entry>): seq<byte> { if es == [] then [] else AllBytes(es[..|es| - 1]) + BytesOf(es[|es| - 1]) }

  /** What a header says of the sizes that follow. */
  datatype Chdr = Chdr(size: int, lname: nat)

  function HeaderOf(hb: seq<byte>): Option<Chdr>
    requires |hb| == HEADER_SIZE
  {
    if hb[58..] != FMAG || hb[0] == SPACE then None
    else
      var size := Strtol(hb[48..58], 10);
      if hb[..3] != LONG_NAME then Some(Chdr(size, 0))
      else
        var len := Atoi(hb[3..]);
        if 0 < len <= MAXNAMLEN then Some(Chdr(size - len, len)) else None
  }

  /** Skipping and copying agree on where a member ends. */
  predicate Delimited(size: nat, lname: nat) { size > 0 || lname % 2 == 0 }

  predicate Readable(e: Entry) {
    && e.whole && |e.hb| == HEADER_SIZE && HeaderOf(e.hb) == Some(Chdr(|e.data|, |e.long|))
    && Delimited(|e.data|, |e.long|)
  }

  /** What can be written: the header is a C string of the size of a header, and all contents are there. */
  predicate Writable(e: Entry) { |e.hb| == HEADER_SIZE && 0 !in e.hb && e.whole }

  predicate AllWritable(es: seq<Entry>) { forall i :: 0 <= i < |es| ==> Writable(es[i]) }

  predicate AllReadable(es: seq<Entry>) { forall i :: 0 <= i < |es| ==> Readable(es[i]) }

  lemma {:induction false} EvenMember(e: Entry)
    requires Readable(e)
    ensures |BytesOf(e)| % 2 == 0
  {
    hide HeaderOf, PadOf, Padded;
    PaddedUp(|e.long|);
    EvenLength(Padded(|e.long|), |e.data|);
  }

  lemma {:induction false} PaddedUp(n: nat)
    ensures n <= Padded(n) < n + 4 && Padded(n) % 4 == 0 && (n % 4 == 0 ==> Padded(n) == n)
  {
  }

  lemma {:induction false} EvenLength(lname: nat, size: nat)
    requires lname % 4 == 0
    ensures (HEADER_SIZE + lname + size + |PadOf(size, lname)|) % 2 == 0
  {
    var q, a, r := lname / 4, size / 2, size % 2;
    assert size + lname == r + (a + 2 * q) * 2;
    ModShift(r, a + 2 * q, 2);
    assert |PadOf(size, lname)| == r;
    assert HEADER_SIZE + lname + size + r == 0 + (30 + 2 * q + a + r) * 2;
    ModShift(0, 30 + 2 * q + a + r, 2);
  }

  /** Members start at even offsets. */
  lemma {:induction false} EvenOffsets(es: seq<Entry>)
    requires AllReadable(es)
    ensures |AllBytes(es)| % 2 == 0
    decreases |es|
  {
    hide BytesOf, Readable;
    if es != [] {
      EvenOffsets(es[..|es| - 1]);
      EvenMember(es[|es| - 1]);
    }
  }

  // ----- reading -----

  /** A member at the front of `s`, and what is behind it. */
  function ParseMember(s: seq<byte>): (r: Option<(Entry, seq<byte>)>)
    ensures r.Some? ==> |r.value.1| < |s| && (r.value.0.whole ==> Readable(r.value.0))
  {
    if |s| < HEADER_SIZE || HeaderOf(s[..HEADER_SIZE]).None? then None
    else
      var h := HeaderOf(s[..HEADER_SIZE]).value;
      var n := HEADER_SIZE + h.lname;
      if h.size < 0 || !Delimited(h.size, h.lname) || n > |s| then None
      else
        var p := |PadOf(h.size, h.lname)|;
        if n + h.size + p > |s| then Some((Entry(s[..HEADER_SIZE], s[HEADER_SIZE..n], s[n..], false), []))
        else Some((Entry(s[..HEADER_SIZE], s[HEADER_SIZE..n], s[n..n + h.size], true), s[n + h.size + p..]))
  }

  /** The members that `s` begins with, and what is behind the last one that can be read. */
  function Members(s: seq<byte>): (r: (seq<Entry>, seq<byte>))
    decreases |s|
  {
    if s == [] then ([], [])
    else match ParseMember(s)
         case None => ([], s)
         case Some((e, rest)) => var r := Members(rest); ([e] + r.0, r.1)
  }

  /** Bytes that get_arobj refuses: a short or malformed header, or a long name that is cut off. */
  predicate BadHead(s: seq<byte>) {
    s != [] && (|s| < HEADER_SIZE || match HeaderOf(s[..HEADER_SIZE])
                                     case None => true
                                     case Some(h) => |s| < HEADER_SIZE + h.lname)
  }

  lemma {:induction false} Associates(a: seq<byte>, b: seq<byte>, c: seq<byte>)
    ensures a + b + c == a + (b + c)
  {
  }

  lemma {:induction false} AllBytesFront(es: seq<Entry>)
    requires es != []
    ensures AllBytes(es) == BytesOf(es[0]) + AllBytes(es[1..])
    decreases |es|
  {
    hide BytesOf;
    var n := |es|;
    if n == 1 {
      assert es[..0] == [] && es[1..] == [];
    } else {
      var f, t := es[..n - 1], es[1..];
      AllBytesFront(f);
      assert f[1..] == t[..n - 2] && t[n - 2] == es[n - 1] && f[0] == es[0];
      Associates(BytesOf(es[0]), AllBytes(f[1..]), BytesOf(es[n - 1]));
    }
  }

  // ----- reading what was written -----

  /** How many bytes reading takes for a member. */
  function Taken(e: Entry): nat { HEADER_SIZE + |e.long| + |e.data| + |PadOf(|e.data|, |e.long|)| }

  /**
   Members that are read back as they were. The length of a long name in the
   header is not adjusted when the name is padded, so it has to be a multiple of
   four already; a single byte of padding also does no harm among NULs.
   */
  predicate ReadsBack(e: Entry) {
    |e.long| % 4 == 0 || (|e.long| % 4 == 3 && |e.data| % 2 == 0 && forall i :: 0 <= i < |e.data| ==> e.data[i] == 0)
  }

  predicate AllReadBack(es: seq<Entry>) { forall i :: 0 <= i < |es| ==> ReadsBack(es[i]) }

  /** Padding never makes a member shorter; the length stays if the name does, or if its one NUL takes the place of the pad byte. */
  lemma {:induction false} PaddingGrows(size: nat, lname: nat)
    requires Delimited(size, lname)
    ensures var before, after := lname + |PadOf(size, lname)|, Padded(lname) + |PadOf(size, Padded(lname))|;
            before <= after && (before == after <==> lname % 4 == 0 || (lname % 4 == 3 && size % 2 == 0))
  {
    var q, r := lname / 4, lname % 4;
    assert lname == 4 * q + r && Padded(lname) == if r == 0 then 4 * q else 4 * q + 4;
    Parity(size, lname);
    Parity(size, Padded(lname));
  }

  lemma {:induction false} Parity(m: nat, n: nat)
    ensures (m + n) % 2 == (m % 2 + n % 2) % 2
  {
  }

  /** What is behind the long name once a member has been written in front of `rest`. */
  function Trailing(e: Entry, rest: seq<byte>): seq<byte> {
    Nuls(Padded(|e.long|) - |e.long|) + e.data + PadOf(|e.data|, Padded(|e.long|)) + rest
  }

  /** The member that is read where one has been written. */
  lemma {:induction false} MemberReread(e: Entry, rest: seq<byte>)
    requires Readable(e)
    ensures var t, p := Trailing(e, rest), |PadOf(|e.data|, |e.long|)|;
            && |e.data| + p <= |t|
            && ParseMember(BytesOf(e) + rest) == Some((e.(data := t[..|e.data|]), t[|e.data| + p..]))
  {
    hide HeaderOf, PadOf, Padded, Trailing, BytesOf;
    var s, t, p := BytesOf(e) + rest, Trailing(e, rest), |PadOf(|e.data|, |e.long|)|;
    TrailingWritten(e, rest);
    Sliced(e.hb, e.long, t, |e.data|, p);
    assert s == e.hb + e.long + t;
  }

  lemma {:induction false} TrailingWritten(e: Entry, rest: seq<byte>)
    requires Readable(e)
    ensures BytesOf(e) + rest == e.hb + e.long + Trailing(e, rest)
    ensures |e.data| + |PadOf(|e.data|, |e.long|)| <= |Trailing(e, rest)|
  {
    hide HeaderOf, PadOf, Padded;
    PaddedUp(|e.long|);
    PaddingGrows(|e.data|, |e.long|);
  }

  lemma {:induction false} Sliced(a: seq<byte>, b: seq<byte>, t: seq<byte>, k: nat, p: nat)
    requires k + p <= |t|
    ensures var s, n := a + b + t, |a| + |b|;
            s[..|a|] == a && s[|a|..n] == b && s[n..n + k] == t[..k] && s[n + k + p..] == t[k + p..]
  {
  }

  /** A NUL in front of contents shifts them onto themselves exactly if they are NULs. */
  lemma {:induction false} ShiftedData(data: seq<byte>, more: seq<byte>)
    ensures ([0] + data + more)[..|data|] == data <==> forall i :: 0 <= i < |data| ==> data[i] == 0
  {
    var s := [0] + data + more;
    if s[..|data|] == data {
      forall i | 0 <= i < |data| ensures data[i] == 0 { ShiftedZero(data, more, i); }
    }
    if forall i :: 0 <= i < |data| ==> data[i] == 0 { assert forall i :: 0 <= i <= |data| ==> s[i] == 0; }
  }

  lemma {:induction false} ShiftedZero(data: seq<byte>, more: seq<byte>, i: nat)
    requires i < |data| && ([0] + data + more)[..|data|] == data
    ensures data[i] == 0
    decreases i
  {
    var s := [0] + data + more;
    assert s[..|data|][i] == s[i] == data[i];
    if i > 0 {
      ShiftedZero(data, more, i - 1);
      assert s[i] == data[i - 1];
    }
  }

  /** Reading a member written in front of `rest` gives it and leaves `rest`, exactly if it reads back. */
  lemma {:induction false} MemberRead(e: Entry, rest: seq<byte>)
    requires Readable(e)
    ensures ReadsBack(e) ==> ParseMember(BytesOf(e) + rest) == Some((e, rest))
    ensures var p := ParseMember(BytesOf(e) + rest); p.Some? && (!ReadsBack(e) ==> |BytesOf(e)| > Taken(e) || p.value.0 != e)
  {
    hide HeaderOf, ParseMember;
    var k, t := Padded(|e.long|) - |e.long|, Trailing(e, rest);
    PaddedUp(|e.long|);
    MemberReread(e, rest);
    PaddingGrows(|e.data|, |e.long|);
    if |e.long| % 4 == 0 {
      assert Nuls(0) == [];
      assert t == e.data + PadOf(|e.data|, |e.long|) + rest;
      assert t[..|e.data|] == e.data && t[|e.data| + |PadOf(|e.data|, |e.long|)|..] == rest;
    } else if |e.long| % 4 == 3 && |e.data| % 2 == 0 {
      assert Nuls(1) == [0];
      OneNul(e, rest);
    }
  }

  /** The case of a single NUL that takes the place of the pad byte. */
  lemma {:induction false} OneNul(e: Entry, rest: seq<byte>)
    requires Readable(e) && |e.long| % 4 == 3 && |e.data| % 2 == 0
    ensures var t := Trailing(e, rest);
            && 1 + |e.data| <= |t| && |PadOf(|e.data|, |e.long|)| == 1 && t[|e.data| + 1..] == rest
            && (t[..|e.data|] == e.data <==> forall i :: 0 <= i < |e.data| ==> e.data[i] == 0)
  {
    hide HeaderOf;
    assert Padded(|e.long|) == |e.long| + 1;
    Parity(|e.data|, |e.long|);
    Parity(|e.data|, |e.long| + 1);
    assert Nuls(1) == [0];
    var t := Trailing(e, rest);
    assert t == [0] + e.data + rest;
    ShiftedData(e.data, rest);
  }

  function AllTaken(es: seq<Entry>): nat { if es == [] then 0 else Taken(es[0]) + AllTaken(es[1..]) }

  /** What is read to the end has the length of what was taken. */
  lemma {:induction false} ReadLength(s: seq<byte>)
    requires var (es, tail) := Members(s); tail == [] && forall i :: 0 <= i < |es| ==> es[i].whole
    ensures |s| == AllTaken(Members(s).0)
    decreases |s|
  {
    if s != [] {
      var (e, rest) := ParseMember(s).value;
      var more := Members(rest).0;
      assert ([e] + more)[1..] == more;
      assert forall i :: 0 <= i < |more| ==> more[i] == ([e] + more)[i + 1];
      assert ([e] + more)[0].whole;
      ParsedLength(s);
      ReadLength(rest);
    }
  }

  lemma {:induction false} ParsedLength(s: seq<byte>)
    requires ParseMember(s).Some? && ParseMember(s).value.0.whole
    ensures |s| == Taken(ParseMember(s).value.0) + |ParseMember(s).value.1|
  {
    hide HeaderOf, PadOf;
  }

  lemma {:induction false} WrittenLength(es: seq<Entry>)
    requires AllReadable(es)
    ensures |AllBytes(es)| >= AllTaken(es)
    decreases |es|
  {
    hide BytesOf, Readable, Taken;
    if es != [] {
      AllBytesFront(es);
      WrittenLength(es[1..]);
      LongerWritten(es[0]);
    }
  }

  lemma {:induction false} LongerWritten(e: Entry)
    requires Readable(e)
    ensures |BytesOf(e)| >= Taken(e)
  {
    hide HeaderOf, PadOf, Padded;
    PaddedUp(|e.long|);
    PaddingGrows(|e.data|, |e.long|);
  }

  /** Archives are read back as they were written exactly if each of their members is. */
  lemma {:induction false} ArchiveRead(es: seq<Entry>)
    requires AllReadable(es)
    ensures Members(AllBytes(es)) == (es, []) <==> AllReadBack(es)
    decreases |es|
  {
    hide BytesOf, Readable, ParseMember, AllBytes, ReadsBack, Taken, Members;
    if es == [] {
      NoBytes();
    } else {
      var e, rest := es[0], es[1..];
      assert Readable(e);
      AllBytesFront(es);
      MemberRead(e, AllBytes(rest));
      FrontRead(es);
      ArchiveRead(rest);
      if ReadsBack(e) {
        assert AllReadBack(es) <==> AllReadBack(rest) by { assert es == [e] + rest; }
      } else if Members(AllBytes(es)) == (es, []) {
        AllWhole(es);
        ReadLength(AllBytes(es));
        WrittenLength(rest);
      }
    }
  }

  lemma {:induction false} AllWhole(es: seq<Entry>)
    requires AllReadable(es)
    ensures forall i :: 0 <= i < |es| ==> es[i].whole
  {
    forall i | 0 <= i < |es| ensures es[i].whole { assert Readable(es[i]); }
  }

  /** Reading an archive begins with its first member. */
  lemma {:induction false} FrontRead(es: seq<Entry>)
    requires es != [] && AllReadable(es)
    ensures var e, rest, s := es[0], AllBytes(es[1..]), AllBytes(es);
            && (ParseMember(BytesOf(e) + rest) == Some((e, rest)) ==>
                  (Members(s) == (es, []) <==> Members(rest) == (es[1..], [])))
            && (Members(s) == (es, []) ==> ParseMember(s).Some? && ParseMember(s).value.0 == e)
  {
    hide BytesOf, Readable, ParseMember, AllBytes;
    var e, rest, s := es[0], AllBytes(es[1..]), AllBytes(es);
    AllBytesFront(es);
    assert s != [] by { assert Readable(e); NotEmpty(e); }
    assert es == [e] + es[1..];
    var p := ParseMember(s);
    if p.Some? {
      var r := Members(p.value.1);
      assert ([p.value.0] + r.0)[0] == p.value.0 && ([p.value.0] + r.0)[1..] == r.0;
    }
  }

  lemma {:induction false} NoBytes()
    ensures AllBytes([]) == [] && Members([]) == ([], [])
  {
  }

  lemma {:induction false} NotEmpty(e: Entry)
    requires Readable(e)
    ensures BytesOf(e) != []
  {
  }

  // ----- writing files -----

  datatype Stat = Stat(date: nat, uid: nat, gid: nat, mode: nat)

  datatype DiskFile = DiskFile(path: seq<byte>, stat: Stat, data: seq<byte>)

  /** rname: the last component of a path. */
  function Rname(path: seq<byte>): (r: seq<byte>)
    ensures SLASH !in r
    decreases |path|
  {
    if path == [] then []
    else if SLASH in path then Rname(path[1..])
    else path
  }

  predicate IsLong(name: seq<byte>) { |name| > 16 || SPACE in name }

  /** HDR1 and HDR2. */
  function HeaderBytes(nameField: seq<byte>, st: Stat, size: nat): seq<byte> {
    nameField + Field(Digits(st.date, 10), 12) + Field(Digits(st.uid % 0x1_0000, 10), 6)
    + Field(Digits(st.gid % 0x1_0000, 10), 6) + Field(Digits(st.mode, 8), 8) + Field(Digits(size, 10), 10) + FMAG
  }

  /** The member put_arobj makes of a file. */
  function NewEntry(f: DiskFile): Entry {
    var name := Rname(f.path);
    if IsLong(name) then
      var n := Padded(|name|);
      Entry(HeaderBytes(LONG_NAME + Field(Digits(n, 10), 13), f.stat, |f.data| + n), PaddedName(name), f.data, true)
    else Entry(HeaderBytes(Field(name, 16), f.stat, |f.data|), [], f.data, true)
  }

  /** What the size field of the new member has to hold. */
  function SizeField(f: DiskFile): nat { |f.data| + |NewEntry(f).long| }

  const TEN_TO_10 := 10_000_000_000
  const TEN_TO_12 := 1_000_000_000_000
  const EIGHT_TO_8 := 0x100_0000

  predicate FieldsFit(f: DiskFile) { f.stat.date < TEN_TO_12 && f.stat.mode < EIGHT_TO_8 && SizeField(f) < TEN_TO_10 }

  lemma {:induction false} FieldLimits()
    ensures Power(10, 6) == 1_000_000 && Power(10, 10) == TEN_TO_10 && Power(10, 12) == TEN_TO_12
    ensures Power(8, 8) == EIGHT_TO_8 && Power(10, 13) == 10 * TEN_TO_12
  {
    assert Power(10, 3) == 1000;
    assert Power(10, 6) == 1_000_000;
    assert Power(10, 9) == 1_000_000_000;
    assert Power(10, 12) == TEN_TO_12;
    assert Power(8, 3) == 512;
    assert Power(8, 6) == 0x4_0000;
  }

  /** The parts of a header whose fields fit. */
  lemma {:induction false} HeaderParts(nameField: seq<byte>, st: Stat, size: nat)
    requires |nameField| == 16
    ensures |HeaderBytes(nameField, st, size)| == HEADER_SIZE
            <==> st.date < TEN_TO_12 && st.mode < EIGHT_TO_8 && size < TEN_TO_10
    ensures var hb := HeaderBytes(nameField, st, size);
            |hb| == HEADER_SIZE ==>
              hb[..16] == nameField && hb[48..58] == Field(Digits(size, 10), 10) && hb[58..] == FMAG
  {
    hide Digits, Field, Power;
    FieldLimits();
    DigitsFit(st.date, 10, 12);
    DigitsFit(st.uid % 0x1_0000, 10, 6);
    DigitsFit(st.gid % 0x1_0000, 10, 6);
    DigitsFit(st.mode, 8, 8);
    DigitsFit(size, 10, 10);
  }

  /** A C string: what is in front of the first NUL. */
  function CString(s: seq<byte>): seq<byte> { if s == [] || s[0] == 0 then [] else [s[0]] + CString(s[1..]) }

  function Stripped(s: seq<byte>): seq<byte> { if s != [] && s[|s| - 1] == SPACE then Stripped(s[..|s| - 1]) else s }

  /** The name that a header and the long name behind it give a member. */
  function NameIn(hb: seq<byte>, long: seq<byte>): seq<byte> {
    if long != [] || |hb| < 16 then CString(long) else CString(Stripped(hb[..16]))
  }

  /** The name of a member, as it is compared with arguments. */
  function NameOf(e: Entry): seq<byte> { NameIn(e.hb, e.long) }

  lemma {:induction false} CStringOf(name: seq<byte>, n: nat)
    requires 0 !in name
    ensures CString(name + Nuls(n)) == name
    decreases |name|
  {
    if name != [] {
      assert (name + Nuls(n))[1..] == name[1..] + Nuls(n);
      CStringOf(name[1..], n);
    }
  }

  lemma {:induction false} StrippedField(name: seq<byte>, n: nat)
    requires SPACE !in name
    ensures Stripped(name + Spaces(n)) == name
    decreases n
  {
    var s := name + Spaces(n);
    if n > 0 {
      assert s[..|s| - 1] == name + Spaces(n - 1);
      StrippedField(name, n - 1);
    } else {
      assert s == name;
    }
  }

  /** A name that a file can have in an archive: its longest form has to be within the limit. */
  predicate Storable(name: seq<byte>) { name != [] && (IsLong(name) ==> Padded(|name|) <= MAXNAMLEN) }

  lemma {:induction false} ShortName(name: seq<byte>, st: Stat, size: nat)
    requires SLASH !in name && !IsLong(name) && |HeaderBytes(Field(name, 16), st, size)| == HEADER_SIZE
    ensures HeaderOf(HeaderBytes(Field(name, 16), st, size)) == if name == [] then None else Some(Chdr(size, 0))
  {
    hide Digits, Strtol, HeaderBytes;
    var f := Field(name, 16);
    var hb := HeaderBytes(f, st, size);
    HeaderParts(f, st, size);
    NumberField(size);
    assert hb[0] == hb[..16][0];
    if name != [] {
      assert SPACE !in name && name[0] != SPACE;
      assert hb[..3] != LONG_NAME by {
        assert hb[2] == hb[..16][2] == f[2];
        assert hb[..3][2] == hb[2];
      }
    }
  }

  lemma {:induction false} NumberField(size: nat)
    requires |Field(Digits(size, 10), 10)| == 10
    ensures Strtol(Field(Digits(size, 10), 10), 10) == size
  {
    FieldRead(size, 10, 10, []);
    assert Field(Digits(size, 10), 10) + [] == Field(Digits(size, 10), 10);
  }

  lemma {:induction false} LongName(n: nat, st: Stat, size: nat)
    requires n < TEN_TO_12 && |HeaderBytes(LONG_NAME + Field(Digits(n, 10), 13), st, size)| == HEADER_SIZE
    ensures HeaderOf(HeaderBytes(LONG_NAME + Field(Digits(n, 10), 13), st, size))
            == if 0 < Signed32(n) <= MAXNAMLEN then Some(Chdr(size - Signed32(n), Signed32(n))) else None
  {
    hide Digits, Strtol, HeaderBytes, Field, Power;
    FieldLimits();
    DigitsFit(n, 10, 12);
    var d := Field(Digits(n, 10), 13);
    var f := LONG_NAME + d;
    var hb := HeaderBytes(f, st, size);
    HeaderParts(f, st, size);
    NumberField(size);
    assert hb[..3] == hb[..16][..3] == LONG_NAME;
    assert hb[0] == hb[..16][0];
    assert hb[3..] == d + hb[16..] by { assert hb == hb[..16] + hb[16..]; }
    FieldRead(n, 10, 13, hb[16..]);
  }

  /** The header of a new member can be written exactly if its fields fit. */
  lemma {:induction false} NewHeaderFits(f: DiskFile)
    requires |Rname(f.path)| + 3 < TEN_TO_12
    ensures |NewEntry(f).hb| == HEADER_SIZE <==> FieldsFit(f)
  {
    hide HeaderBytes, Digits, Power;
    var name := Rname(f.path);
    if IsLong(name) {
      var n := Padded(|name|);
      FieldLimits();
      DigitsFit(n, 10, 13);
      HeaderParts(LONG_NAME + Field(Digits(n, 10), 13), f.stat, |f.data| + n);
    } else {
      HeaderParts(Field(name, 16), f.stat, |f.data|);
    }
  }

  /** A file put into an archive can be read back if and only if its fields fit and its name is storable. */
  lemma {:induction false} NewReadable(f: DiskFile)
    requires |Rname(f.path)| + 3 < TEN_TO_12
    ensures Readable(NewEntry(f)) <==> FieldsFit(f) && Storable(Rname(f.path))
  {
    hide HeaderBytes, Digits, Strtol, Field, HeaderOf;
    NewHeaderFits(f);
    var name := Rname(f.path);
    if FieldsFit(f) {
      if IsLong(name) { LongName(Padded(|name|), f.stat, SizeField(f)); } else { ShortName(name, f.stat, |f.data|); }
    }
  }

  /** And then it has its name and its contents. */
  lemma {:induction false} NewReadBack(f: DiskFile)
    requires Readable(NewEntry(f)) && 0 !in Rname(f.path) && |Rname(f.path)| + 3 < TEN_TO_12
    ensures NameOf(NewEntry(f)) == Rname(f.path) && NewEntry(f).data == f.data
  {
    hide HeaderBytes, Digits, Strtol, HeaderOf, Readable;
    var name := Rname(f.path);
    NewReadable(f);
    if IsLong(name) {
      CStringOf(name, Padded(|name|) - |name|);
    } else {
      assert |NewEntry(f).hb| == HEADER_SIZE by { NewHeaderFits(f); }
      HeaderParts(Field(name, 16), f.stat, |f.data|);
      StrippedField(name, 16 - |name|);
      CStringOf(name, 0);
      assert name + Nuls(0) == name;
    }
  }

  /** A member of another archiver, with a name of 17 bytes, can be read and written, but is not read back. */
  lemma {:induction false} OddNameLost()
    ensures var e := Entry(HeaderBytes(LONG_NAME + Field(Digits(17, 10), 13), Stat(0, 0, 0, 0), 18), seq(17, _ => 97), [120], true);
            Readable(e) && Writable(e) && Members(AllBytes([e])) != ([e], [])
  {
    hide Digits, Strtol, HeaderBytes, Field, HeaderOf, Members, AllBytes;
    var f := LONG_NAME + Field(Digits(17, 10), 13);
    var e := Entry(HeaderBytes(f, Stat(0, 0, 0, 0), 18), seq(17, _ => 97), [120], true);
    FieldLimits();
    DigitsFit(17, 10, 13);
    HeaderParts(f, Stat(0, 0, 0, 0), 18);
    LongName(17, Stat(0, 0, 0, 0), 18);
    NoNulInDigits(17, 10, 13);
    NoNulInHeader(f, Stat(0, 0, 0, 0), 18);
    assert Readable(e) && !ReadsBack([e][0]);
    ArchiveRead([e]);
  }

  lemma {:induction false} NoNulInDigits(n: nat, base: nat, width: nat)
    requires 2 <= base <= 10
    ensures 0 !in Field(Digits(n, base), width)
  {
    DigitsAreDigits(n, base);
  }

  lemma {:induction false} NoNulInHeader(nameField: seq<byte>, st: Stat, size: nat)
    requires 0 !in nameField
    ensures 0 !in HeaderBytes(nameField, st, size)
  {
    hide Digits, Field;
    NoNulInDigits(st.date, 10, 12);
    NoNulInDigits(st.uid % 0x1_0000, 10, 6);
    NoNulInDigits(st.gid % 0x1_0000, 10, 6);
    NoNulInDigits(st.mode, 8, 8);
    NoNulInDigits(size, 10, 10);
  }

  /** A member made of a file, its name being a C string, can be written exactly if its fields fit. */
  lemma {:induction false} NewWritable(f: DiskFile)
    requires |Rname(f.path)| + 3 < TEN_TO_12 && 0 !in Rname(f.path)
    ensures Writable(NewEntry(f)) <==> FieldsFit(f)
  {
    hide HeaderBytes, Digits, Rname;
    NewHeaderFits(f);
    var name := Rname(f.path);
    if IsLong(name) {
      var n := Padded(|name|);
      NoNulInDigits(n, 10, 13);
      NoNulInHeader(LONG_NAME + Field(Digits(n, 10), 13), f.stat, |f.data| + n);
    } else {
      NoNulInHeader(Field(name, 16), f.stat, |f.data|);
    }
  }

  /** A member with a NUL behind its one-letter name can be read, but not written. */
  lemma {:induction false} NulHeader()
    ensures var e := Entry(HeaderBytes([97, 0] + Spaces(14), Stat(0, 0, 0, 0), 0), [], [], true);
            Readable(e) && NameOf(e) == [97] && !Writable(e)
  {
    hide Digits, Strtol, HeaderBytes, Field;
    var f: seq<byte> := [97, 0] + Spaces(14);
    var hb := HeaderBytes(f, Stat(0, 0, 0, 0), 0);
    HeaderParts(f, Stat(0, 0, 0, 0), 0);
    NumberField(0) by { DigitsFit(0, 10, 10); FieldLimits(); }
    assert hb[0] == hb[..16][0] == 97 && hb[1] == hb[..16][1] == 0;
    assert hb[..3][0] == 97;
    assert f == [97, 0] + Spaces(14);
    StrippedField([97, 0], 14);
    assert CString([97, 0]) == [97] by { assert [97, 0][1..] == [0]; }
  }
}
