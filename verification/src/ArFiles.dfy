/**
 The byte level of ar: files with a position, the header read last, and the
 loops that copy, skip and rewrite members.
 */
module ArFiles {
  import opened Wrappers
  import opened Bytes
  import opened ArFormat
  import opened ArMember

  function Upto(n: nat, limit: nat): nat { if n <= limit then n else limit }

  /** The contents of a file after `b` is written at `pos`. */
  function Overwritten(bytes: seq<byte>, pos: nat, b: seq<byte>): seq<byte>
    requires pos <= |bytes|
  {
    bytes[..pos] + b + bytes[Upto(pos + |b|, |bytes|)..]
  }

  lemma {:induction false} OverwrittenTwice(bytes: seq<byte>, pos: nat, a: seq<byte>, b: seq<byte>)
    requires pos <= |bytes|
    ensures var once := Overwritten(bytes, pos, a);
            pos + |a| <= |once| && Overwritten(once, pos + |a|, b) == Overwritten(bytes, pos, a + b)
  {
  }

  lemma {:induction false} OverwrittenNothing(bytes: seq<byte>, pos: nat)
    requires pos <= |bytes|
    ensures Overwritten(bytes, pos, []) == bytes
  {
  }

  lemma {:induction false} Appended(bytes: seq<byte>, b: seq<byte>)
    ensures Overwritten(bytes, |bytes|, b) == bytes + b
  {
  }

  class File {
    var bytes: seq<byte>
    var pos: nat

    /** Not beyond the end, where lseek can go too. */
    ghost predicate Valid()
      reads this
    {
      pos <= |bytes|
    }

    ghost function Ahead(): seq<byte>
      reads this
    {
      bytes[Upto(pos, |bytes|)..]
    }

    constructor (bytes: seq<byte>)
      ensures Valid() && this.bytes == bytes && pos == 0
    {
      this.bytes, this.pos := bytes, 0;
    }

    method Read(n: nat) returns (r: seq<byte>)
      modifies this`pos
      ensures |r| == Upto(n, |old(Ahead())|) && r == old(Ahead())[..|r|]
      ensures Ahead() == old(Ahead())[|r|..] && pos == old(pos) + |r|
    {
      r := bytes[Upto(pos, |bytes|)..Upto(pos + n, |bytes|)];
      pos := pos + |r|;
    }

    method Write(b: seq<byte>)
      requires Valid()
      modifies this
      ensures Valid() && pos == old(pos) + |b| && bytes == Overwritten(old(bytes), old(pos), b)
    {
      bytes := bytes[..pos] + b + bytes[Upto(pos + |b|, |bytes|)..];
      pos := pos + |b|;
    }
  }

  const CHUNK := 8192

  /** The size of the contents of a member, as its header has it. */
  function Declared(e: Entry): nat {
    if e.whole || |e.hb| != HEADER_SIZE then |e.data|
    else match HeaderOf(e.hb) case None => 0 case Some(h) => if h.size < 0 then 0 else h.size
  }

  /** The header read last: its bytes, the long name behind it, and the sizes it gives. */
  class Reader {
    var hb: seq<byte>
    var name: seq<byte>
    var size: nat

    ghost predicate Holds(e: Entry)
      reads this
    {
      hb == e.hb && name == e.long && size == Declared(e)
    }

    constructor ()
      ensures hb == [] && name == [] && size == 0
    {
      hb, name, size := [], [], 0;
    }
  }

  datatype Status = Finished | BadFormat | Found

  /** Behind the header of member `e` there are its contents, the pad byte, and `rest`, or not all of that and nothing else. */
  ghost predicate Behind(ahead: seq<byte>, e: Entry, rest: seq<byte>) {
    var n := Declared(e) + |PadOf(Declared(e), |e.long|)|;
    && |e.hb| == HEADER_SIZE && Delimited(Declared(e), |e.long|)
    && if e.whole then |ahead| == n + |rest| && ahead[..|e.data|] == e.data && ahead[n..] == rest
       else |ahead| < n && rest == []
  }

  lemma {:induction false} ParsedBehind(s: seq<byte>)
    requires ParseMember(s).Some?
    ensures var (e, rest) := ParseMember(s).value;
            HEADER_SIZE + |e.long| <= |s| && Behind(s[HEADER_SIZE + |e.long|..], e, rest)
  {
    hide HeaderOf, PadOf;
    var (e, rest) := ParseMember(s).value;
    var n := HEADER_SIZE + |e.long|;
    if e.whole { assert s[n..][..|e.data|] == s[n..n + |e.data|]; }
  }

  /** get_arobj: reads the header of the next member, and its long name. */
  method GetArobj(fd: File, chdr: Reader) returns (st: Status)
    modifies fd`pos, chdr
    ensures st == Finished <==> old(fd.Ahead()) == []
    ensures st == Finished ==> fd.Ahead() == []
    ensures BadHead(old(fd.Ahead())) ==> st == BadFormat
    ensures ParseMember(old(fd.Ahead())).Some? ==>
              var (e, rest) := ParseMember(old(fd.Ahead())).value;
              st == Found && chdr.Holds(e) && Behind(fd.Ahead(), e, rest)
  {
    hide Strtol, PadOf, Behind;
    ghost var s := fd.Ahead();
    if ParseMember(s).Some? { ParsedBehind(s); }
    var hb := fd.Read(HEADER_SIZE);
    if |hb| != HEADER_SIZE {
      return if hb == [] then Finished else BadFormat;
    }
    var h := HeaderOf(hb);
    if h.None? || h.value.size < 0 { return BadFormat; }
    var name := fd.Read(h.value.lname);
    if |name| != h.value.lname { return BadFormat; }
    chdr.hb, chdr.name, chdr.size := hb, name, h.value.size;
    st := Found;
  }

  /** Copying in chunks; false if the file ends early. */
  method CopyChunks(from: File, to: File, size: nat) returns (ok: bool)
    requires from != to && to.Valid()
    modifies from`pos, to
    ensures to.Valid()
    ensures ok <==> size <= |old(from.Ahead())|
    ensures ok ==> from.Ahead() == old(from.Ahead())[size..]
    ensures ok ==> to.bytes == Overwritten(old(to.bytes), old(to.pos), old(from.Ahead())[..size])
    ensures ok ==> to.pos == old(to.pos) + size
  {
    hide Overwritten;
    ghost var s, t, p := from.Ahead(), to.bytes, to.pos;
    var sz := size;
    OverwrittenNothing(t, p);
    while sz > 0
      invariant 0 <= sz <= size && to.Valid()
      invariant size - sz <= |s| && from.Ahead() == s[size - sz..]
      invariant to.pos == p + (size - sz) && to.bytes == Overwritten(t, p, s[..size - sz])
    {
      var buf := from.Read(Upto(sz, CHUNK));
      if buf == [] { return false; }
      OverwrittenTwice(t, p, s[..size - sz], buf);
      to.Write(buf);
      assert s[..size - sz] + buf == s[..size - sz + |buf|];
      sz := sz - |buf|;
    }
    ok := true;
  }

  /** The pad byte, if the flag for it is set. */
  function PadIf(flag: bool, size: nat, lname: nat): seq<byte> { if flag then PadOf(size, lname) else [] }

  /** copy_ar: the contents, with the pad byte taken off (rpad) and put on (wpad) where lengths are odd. */
  method CopyAr(from: File, to: File, size: nat, rpad: bool, lname: nat, wpad: bool, written: nat) returns (ok: bool)
    requires from != to && to.Valid()
    modifies from`pos, to
    ensures to.Valid()
    ensures var s, r, w := old(from.Ahead()), |PadIf(rpad, size, lname)|, PadIf(wpad, size, written);
            && (ok <==> size + r <= |s|)
            && (ok ==> from.Ahead() == s[size + r..])
            && (ok ==> to.bytes == Overwritten(old(to.bytes), old(to.pos), s[..size] + w))
            && (ok ==> to.pos == old(to.pos) + size + |w|)
  {
    hide Overwritten;
    ghost var s, t, p := from.Ahead(), to.bytes, to.pos;
    if size == 0 {
      OverwrittenNothing(t, p);
      assert s[..0] + PadIf(wpad, 0, written) == [];
      return true;
    }
    ok := CopyChunks(from, to, size);
    if !ok { return; }
    if rpad && (size + lname) % 2 == 1 {
      var pad := from.Read(1);
      if |pad| != 1 { return false; }
    }
    OverwrittenTwice(t, p, s[..size], PadIf(wpad, size, written));
    OverwrittenNothing(to.bytes, to.pos);
    if wpad && (size + written) % 2 == 1 { to.Write([NEWLINE]); }
  }

  ghost predicate Temporary(t: File, contents: seq<byte>)
    reads t
  {
    t.Valid() && t.bytes == contents && t.pos == |contents|
  }

  method Append(to: File, b: seq<byte>)
    requires Temporary(to, to.bytes)
    modifies to
    ensures Temporary(to, old(to.bytes) + b)
  {
    Appended(to.bytes, b);
    to.Write(b);
  }

  /** The contents of a member and its pad byte, behind a header and `written` bytes of name. */
  method AppendContents(from: File, to: File, size: nat, rpad: bool, lname: nat, written: nat) returns (ok: bool)
    requires from != to && Temporary(to, to.bytes)
    modifies from`pos, to
    ensures (ok <==> size + |PadIf(rpad, size, lname)| <= |old(from.Ahead())|)
    ensures ok ==> from.Ahead() == old(from.Ahead())[size + |PadIf(rpad, size, lname)|..]
    ensures ok ==> Temporary(to, old(to.bytes) + (old(from.Ahead())[..size] + PadOf(size, written)))
  {
    hide Overwritten, PadOf;
    ghost var s := from.Ahead();
    if size <= |s| { Appended(to.bytes, s[..size] + PadOf(size, written)); }
    ok := CopyAr(from, to, size, rpad, lname, true, written);
  }

  lemma {:induction false} WholeMember(t: seq<byte>, e: Entry)
    ensures t + e.hb + PaddedName(e.long) + (e.data + PadOf(|e.data|, Padded(|e.long|))) == t + BytesOf(e)
    ensures e.long == [] ==> PaddedName(e.long) == [] && Padded(|e.long|) == 0
  {
    hide PadOf;
  }

  lemma {:induction false} NothingAppended(t: seq<byte>)
    ensures t + [] == t
  {
  }

  /** A long name, padded to a multiple of four. */
  method WriteName(to: File, name: seq<byte>) returns (written: nat)
    requires Temporary(to, to.bytes)
    modifies to
    ensures written == Padded(|name|) && Temporary(to, old(to.bytes) + PaddedName(name))
  {
    ghost var t := to.bytes;
    Append(to, name);
    written := |name|;
    if |name| % 4 != 0 {
      var pad := Nuls(4 - |name| % 4);
      Append(to, pad);
      written := written + |pad|;
    }
    assert written == Padded(|name|);
    assert to.bytes == t + (name + Nuls(written - |name|));
  }

  /**
   put_arobj for a member just read: header, name, contents and a pad byte are
   written exactly if there is no NUL in the header and the contents are all there.
   */
  method PutMember(from: File, to: File, chdr: Reader, ghost e: Entry, ghost rest: seq<byte>) returns (ok: bool)
    requires from != to && Temporary(to, to.bytes)
    requires chdr.Holds(e) && Behind(from.Ahead(), e, rest)
    modifies from`pos, to
    ensures ok <==> Writable(e)
    ensures ok ==> from.Ahead() == rest && Temporary(to, old(to.bytes) + BytesOf(e))
  {
    hide HeaderOf, PadOf, BytesOf, PaddedName, Padded;
    if 0 in chdr.hb { return false; }
    ghost var t := to.bytes;
    Append(to, chdr.hb);
    var written := 0;
    WholeMember(t, e);
    if chdr.name != [] {
      written := WriteName(to, chdr.name);
    } else {
      NothingAppended(t + e.hb);
    }
    ok := AppendContents(from, to, chdr.size, true, |chdr.name|, written);
  }

  /** skip_arobj: beyond the end of the archive, if that is where the member ends. */
  method SkipArobj(fd: File, chdr: Reader, ghost e: Entry, ghost rest: seq<byte>)
    requires chdr.Holds(e) && Behind(fd.Ahead(), e, rest)
    modifies fd`pos
    ensures fd.Ahead() == rest
  {
    hide HeaderOf;
    fd.pos := fd.pos + chdr.size + (chdr.size + |chdr.name|) % 2;
  }

  /** The header of a new member, or false if it does not have the length of one. */
  method WriteHeader(to: File, f: DiskFile, name: seq<byte>) returns (ok: bool)
    requires Temporary(to, to.bytes) && name == Rname(f.path)
    modifies to
    ensures ok <==> Writable(NewEntry(f))
    ensures ok ==> Temporary(to, old(to.bytes) + NewEntry(f).hb)
  {
    hide HeaderBytes, Rname, Field, Digits, Padded;
    var hb := HeaderBytes(Field(name, 16), f.stat, |f.data|);
    if IsLong(name) {
      var n := Padded(|name|);
      hb := HeaderBytes(LONG_NAME + Field(Digits(n, 10), 13), f.stat, |f.data| + n);
    }
    ok := |hb| == HEADER_SIZE && 0 !in hb;
    if ok { Append(to, hb); }
  }

  lemma {:induction false} LongOf(f: DiskFile)
    ensures var name := Rname(f.path);
            && NewEntry(f).data == f.data
            && NewEntry(f).long == (if IsLong(name) then PaddedName(name) else [])
            && |NewEntry(f).long| == (if IsLong(name) then Padded(|name|) else 0)
            && PaddedName(NewEntry(f).long) == NewEntry(f).long && Padded(|NewEntry(f).long|) == |NewEntry(f).long|
  {
    hide Rname, HeaderBytes;
    var long := NewEntry(f).long;
    PaddedUp(|Rname(f.path)|);
    PaddedUp(|long|);
    assert PaddedName(long) == long + Nuls(0) == long;
  }

  /** put_arobj for a file: false if its header does not have the length of one. */
  method PutFile(f: DiskFile, to: File) returns (ok: bool)
    requires Temporary(to, to.bytes)
    modifies to
    ensures ok <==> Writable(NewEntry(f))
    ensures ok ==> Temporary(to, old(to.bytes) + BytesOf(NewEntry(f)))
  {
    hide NewEntry, Rname, PadOf, BytesOf, IsLong, Writable, PaddedName, Padded;
    ghost var t, e := to.bytes, NewEntry(f);
    var name := Rname(f.path);
    LongOf(f);
    ok := WriteHeader(to, f, name);
    if !ok { return; }
    var written := 0;
    if IsLong(name) {
      written := WriteName(to, name);
    } else {
      NothingAppended(t + e.hb);
    }
    WholeMember(t, e);
    ok := PutContents(to, f.data, written);
  }

  /** The contents of a file, which are copied completely. */
  method PutContents(to: File, data: seq<byte>, written: nat) returns (ok: bool)
    requires Temporary(to, to.bytes)
    modifies to
    ensures ok && Temporary(to, old(to.bytes) + (data + PadOf(|data|, written)))
  {
    hide PadOf;
    var src := new File(data);
    assert data[0..] == data && data[..|data|] == data;
    ok := AppendContents(src, to, |data|, false, 0, written);
  }
}
