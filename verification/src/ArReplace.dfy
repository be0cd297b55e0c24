/** The replace command: members swapped in place, other files added next to the key or at the end. */
module ArReplace {
  import opened Wrappers
  import opened Bytes
  import opened ArFormat
  import opened ArMember
  import opened ArEdit
  import opened ArFiles
  import opened ArCommands

  lemma {:induction false} PlaceNext(es: seq<Entry>, named: seq<bool>, e: Entry, flag: bool, mode: Mode)
    requires |es| == |named|
    ensures Place(es + [e], named + [flag], mode) ==
            if mode.AtEnd? then Some(|es| + 1)
            else if Place(es, named, mode).Some? then Place(es, named, mode)
            else if flag || NameOf(e) != Rname(mode.key) then None
            else Some(if mode.Before? then |es| else |es| + 1)
  {
    hide NameOf, Rname;
    assert (es + [e])[..|es|] == es && (named + [flag])[..|es|] == named;
  }

  lemma {:induction false} PlaceAtEnd(es: seq<Entry>, named: seq<bool>, mode: Mode)
    requires |es| == |named|
    ensures mode.AtEnd? ==> Place(es, named, mode) == Some(|es|)
  {
  }

  /** How many entries are in front of the place for files that are added. */
  function Ahead(es: seq<Entry>, named: seq<bool>, mode: Mode): (k: nat)
    requires |es| == |named|
    ensures k <= |es|
  {
    match Place(es, named, mode) case None => |es| case Some(i) => i
  }

  /** The parts of the entries when there is one more. */
  lemma {:induction false} AheadNext(es: seq<Entry>, s: Swapping, e: Entry, flag: bool, x: Entry, mode: Mode)
    requires |es| == |s.named| == |s.entries|
    ensures var k, m := Ahead(es, s.named, mode), Ahead(es + [e], s.named + [flag], mode);
            var more := s.entries + [x];
            var toFront := mode.AtEnd?
                           || (Place(es, s.named, mode).None? && (flag || NameOf(e) != Rname(mode.key) || mode.After?));
            if toFront then more[..m] == s.entries[..k] + [x] && more[m..] == s.entries[k..]
            else more[..m] == s.entries[..k] && more[m..] == s.entries[k..] + [x]
  {
    hide NameOf, Rname, Place;
    PlaceNext(es, s.named, e, flag, mode);
    PlaceAtEnd(es, s.named, mode);
  }

  lemma {:induction false} SwappedNext(es: seq<Entry>, args: seq<Path>, disk: Disk, i: nat)
    requires i < |es|
    ensures var s, t, e := Swapped(es[..i], args, disk), Swapped(es[..i + 1], args, disk), es[i];
            match Match(s.argv, NameOf(e))
            case None => t == Swapping(s.entries + [e], s.named + [false], s.argv, s.failed) && Consumed(s.argv, NameOf(e)) == s.argv
            case Some(j) =>
              var f := disk(s.argv[j]);
              t == Swapping(s.entries + [if f.Some? then NewEntry(f.value) else e], s.named + [true],
                            Consumed(s.argv, NameOf(e)), s.failed || f.None?)
  {
    hide NameOf, NewEntry;
    UptoNext(es, i);
  }

  /** Where replace is after the first `i` members. */
  ghost predicate Replacing(afd: File, t1: File, t2: File, whole: seq<byte>, es: seq<Entry>, tail: seq<byte>, args: seq<Path>,
                            disk: Disk, left: seq<Path>, mode: Mode, mods: bool, errflg: bool, i: nat)
    requires i <= |es|
    reads afd, t1, t2
  {
    var s := Swapped(es[..i], args, disk);
    var k := Ahead(es[..i], s.named, mode);
    && ReadUpto(afd, whole, es, tail, i) && left == s.argv && errflg == s.failed
    && mods == Place(es[..i], s.named, mode).None? && AllWritable(s.entries)
    && Temporary(t1, AllBytes(s.entries[..k])) && Temporary(t2, AllBytes(s.entries[k..]))
  }

  /** Writing the file in place of the member, or the member itself if the file cannot be opened. */
  method PutEither(afd: File, to: File, chdr: Reader, f: Option<DiskFile>, ghost e: Entry, ghost rest: seq<byte>)
    returns (ok: bool)
    requires afd != to && Temporary(to, to.bytes) && chdr.Holds(e) && Behind(afd.Ahead(), e, rest)
    modifies afd`pos, to
    ensures ok <==> Writable(if f.Some? then NewEntry(f.value) else e)
    ensures ok ==> afd.Ahead() == rest
    ensures ok ==> Temporary(to, old(to.bytes) + BytesOf(if f.Some? then NewEntry(f.value) else e))
  {
    hide NewEntry, BytesOf, Behind, Writable;
    match f {
      case None => ok := PutMember(afd, to, chdr, e, rest);
      case Some(file) =>
        ok := PutFile(file, to);
        if ok { SkipArobj(afd, chdr, e, rest); }
    }
  }

  /** One more member, in the part it belongs to. */
  lemma {:induction false} ReplacedNext(es: seq<Entry>, args: seq<Path>, disk: Disk, mode: Mode, i: nat)
    requires i < |es|
    ensures var s, t, e := Swapped(es[..i], args, disk), Swapped(es[..i + 1], args, disk), es[i];
            var m, mods := Match(s.argv, NameOf(e)), Place(es[..i], s.named, mode).None?;
            var f := if m.Some? then disk(s.argv[m.value]) else None;
            var x := if f.Some? then NewEntry(f.value) else e;
            var isKey := !mode.AtEnd? && NameOf(e) == Rname(mode.key);
            var early := mode.AtEnd? || (mods && (m.Some? || !isKey || mode.After?));
            var j, k := Ahead(es[..i], s.named, mode), Ahead(es[..i + 1], t.named, mode);
            && AllBytes(t.entries[..k]) == AllBytes(s.entries[..j]) + (if early then BytesOf(x) else [])
            && AllBytes(t.entries[k..]) == AllBytes(s.entries[j..]) + (if early then [] else BytesOf(x))
            && t.entries == s.entries + [x] && t.argv == Consumed(s.argv, NameOf(e))
            && t.failed == (s.failed || (m.Some? && f.None?))
            && Place(es[..i + 1], t.named, mode).None? == (mods && (m.Some? || !isKey))
  {
    hide NameOf, BytesOf, Consumed, Swapped, AllBytes, Place, Ahead, Rname, NewEntry;
    var s, e := Swapped(es[..i], args, disk), es[i];
    SwappedNext(es, args, disk, i);
    UptoNext(es, i);
    PlaceAtEnd(es[..i], s.named, mode);
    var m := Match(s.argv, NameOf(e));
    var f := if m.Some? then disk(s.argv[m.value]) else None;
    var x := if f.Some? then NewEntry(f.value) else e;
    PlaceNext(es[..i], s.named, e, m.Some?, mode);
    AheadNext(es[..i], s, e, m.Some?, x, mode);
    var k := Ahead(es[..i], s.named, mode);
    AllBytesAppend(s.entries[..k], x);
    AllBytesAppend(s.entries[k..], x);
  }

  /** Writing to one of two files. */
  method PutSide(afd: File, t1: File, t2: File, chdr: Reader, early: bool, f: Option<DiskFile>, ghost e: Entry, ghost rest: seq<byte>)
    returns (ok: bool)
    requires afd != t1 && afd != t2 && t1 != t2 && chdr.Holds(e) && Behind(afd.Ahead(), e, rest)
    requires Temporary(t1, t1.bytes) && Temporary(t2, t2.bytes)
    modifies afd`pos, t1, t2
    ensures var x := if f.Some? then NewEntry(f.value) else e;
            && (ok <==> Writable(x))
            && (ok ==> afd.Ahead() == rest)
            && (ok ==> Temporary(t1, old(t1.bytes) + (if early then BytesOf(x) else [])))
            && (ok ==> Temporary(t2, old(t2.bytes) + (if early then [] else BytesOf(x))))
  {
    hide NewEntry, BytesOf, Behind, Writable;
    NothingAppended(t1.bytes);
    NothingAppended(t2.bytes);
    if early {
      ok := PutEither(afd, t1, chdr, f, e, rest);
    } else {
      ok := PutEither(afd, t2, chdr, f, e, rest);
    }
  }

  /** One round of the loop in replace. */
  method ReplaceNext(afd: File, t1: File, t2: File, chdr: Reader, argv: array<Path>, n: nat, disk: Disk, mode: Mode, mods: bool,
                     errflg: bool, ghost whole: seq<byte>, ghost es: seq<Entry>, ghost tail: seq<byte>, ghost args: seq<Path>,
                     ghost i: nat)
    returns (r: Round, n': nat, mods': bool, errflg': bool)
    requires i <= |es| && n <= argv.Length && afd != t1 && afd != t2 && t1 != t2 && Ends(tail)
    requires Replacing(afd, t1, t2, whole, es, tail, args, disk, argv[..n], mode, mods, errflg, i)
    modifies afd`pos, t1, t2, chdr, argv
    ensures n' <= argv.Length
    ensures r == More ==> i < |es|
    ensures r == More ==> Replacing(afd, t1, t2, whole, es, tail, args, disk, argv[..n'], mode, mods', errflg', i + 1)
    ensures r == Last ==> i == |es| && tail == []
    ensures r == Last ==> Replacing(afd, t1, t2, whole, es, tail, args, disk, argv[..n'], mode, mods', errflg', i)
    ensures r == Exit ==> afd.bytes == whole
    ensures r == Exit ==> tail != [] || (i < |es| && !AllWritable(Swapped(es[..i + 1], args, disk).entries))
  {
    hide NameOf, NameIn, BytesOf, Behind, Members, Match, Consumed, Swapped, AllBytes, Place, Ahead, Rname, NewEntry, Ends, Writable;
    n', mods', errflg' := n, mods, errflg;
    var st;
    ghost var rest;
    st, rest := GetNext(afd, chdr, whole, es, tail, i);
    if st != Found { return if st == Finished then Last else Exit, n', mods', errflg'; }
    ghost var e := es[i];
    ReplacedNext(es, args, disk, mode, i);
    SameName(e);
    var name := NameIn(chdr.hb, chdr.name);
    var file;
    file, n' := Files(argv, n, name);
    var f := if file.Some? then disk(file.value) else None;
    if file.Some? && f.None? { errflg' := true; }
    var isKey := !mode.AtEnd? && name == Rname(mode.key);
    if file.None? && mods && isKey { mods' := false; }
    WritableAppend(Swapped(es[..i], args, disk).entries, if f.Some? then NewEntry(f.value) else e);
    var early := mode.AtEnd? || (mods && (file.Some? || !isKey || mode.After?));
    var ok := PutSide(afd, t1, t2, chdr, early, f, e, rest);
    r := if ok then More else Exit;
  }

  /** Left-over arguments are appended in order; those that cannot be opened are skipped and reported. */
  method AppendFiles(to: File, argv: array<Path>, n: nat, disk: Disk) returns (ok: bool, failed: bool)
    requires n <= argv.Length && Temporary(to, to.bytes)
    modifies to
    ensures ok <==> AllWritable(Added(argv[..n], disk))
    ensures ok ==> Temporary(to, old(to.bytes) + AllBytes(Added(argv[..n], disk)))
    ensures ok ==> (failed <==> SomeMissing(disk, argv[..n]))
  {
    hide NewEntry, BytesOf, AllBytes, Added, Writable;
    assert argv[..0] == [];
    NothingAdded(disk);
    NothingAppended(to.bytes);
    ok, failed := true, false;
    for i := 0 to n
      invariant ok && Temporary(to, old(to.bytes) + AllBytes(Added(argv[..i], disk)))
      invariant AllWritable(Added(argv[..i], disk)) && (failed <==> SomeMissing(disk, argv[..i]))
    {
      var f := disk(argv[i]);
      AddedNext(argv[..i + 1], disk);
      assert argv[..i + 1][..i] == argv[..i];
      MissingNext(argv[..i + 1], disk);
      if f.Some? {
        ghost var x := NewEntry(f.value);
        AllBytesAppend(Added(argv[..i], disk), x);
        WritableAppend(Added(argv[..i], disk), x);
        Associates(old(to.bytes), AllBytes(Added(argv[..i], disk)), BytesOf(x));
        ok := PutFile(f.value, to);
        if !ok {
          AddedGrows(argv[..n], disk, i + 1);
          assert argv[..n][..i + 1] == argv[..i + 1];
          return;
        }
      } else {
        failed := true;
      }
    }
  }

  lemma {:induction false} MissingNext(argv: seq<Path>, disk: Disk)
    requires argv != []
    ensures SomeMissing(disk, argv) <==> SomeMissing(disk, argv[..|argv| - 1]) || disk(argv[|argv| - 1]).None?
  {
    var rest := argv[..|argv| - 1];
    assert forall i :: 0 <= i < |rest| ==> rest[i] == argv[i];
  }

  /** What cannot be written early cannot be written at all. */
  lemma {:induction false} AddedGrows(argv: seq<Path>, disk: Disk, i: nat)
    requires i <= |argv|
    ensures AllWritable(Added(argv, disk)) ==> AllWritable(Added(argv[..i], disk))
    decreases |argv|
  {
    hide NewEntry, Writable, Added;
    if i < |argv| {
      var rest := argv[..|argv| - 1];
      AddedGrows(rest, disk, i);
      assert rest[..i] == argv[..i];
      AddedNext(argv, disk);
      var f := disk(argv[|argv| - 1]);
      if f.Some? { WritableAppend(Added(rest, disk), NewEntry(f.value)); }
    } else {
      assert argv[..i] == argv;
    }
  }

  lemma {:induction false} AddedNext(argv: seq<Path>, disk: Disk)
    requires argv != []
    ensures var rest, f := Added(argv[..|argv| - 1], disk), disk(argv[|argv| - 1]);
            Added(argv, disk) == if f.Some? then rest + [NewEntry(f.value)] else rest
  {
    hide NewEntry;
  }

  lemma {:induction false} NothingAdded(disk: Disk)
    ensures Added([], disk) == [] && AllBytes([]) == [] && AllWritable([]) && !SomeMissing(disk, [])
  {
  }

  lemma {:induction false} ReplacingStarts(args: seq<Path>, disk: Disk, mode: Mode)
    ensures Swapped([], args, disk) == Swapping([], [], args, false) && AllBytes([]) == [] && AllWritable([])
    ensures Place([], [], mode).None? == !mode.AtEnd? && Ahead([], [], mode) == 0
  {
  }

  lemma {:induction false} ReplacedIs(es: seq<Entry>, args: seq<Path>, disk: Disk, mode: Mode)
    ensures var s := Swapped(es, args, disk);
            var k := Ahead(es, s.named, mode);
            Replaced(es, args, disk, mode) ==
            if Place(es, s.named, mode).None? then None else Some(s.entries[..k] + Added(s.argv, disk) + s.entries[k..])
  {
  }

  lemma {:induction false} EntriesGrow(es: seq<Entry>, args: seq<Path>, disk: Disk, i: nat, j: nat)
    requires i <= j <= |es|
    ensures Swapped(es[..i], args, disk).entries <= Swapped(es[..j], args, disk).entries
    decreases j - i
  {
    hide Match, NameOf, NewEntry, Swapped, Consumed;
    if i < j {
      EntriesGrow(es, args, disk, i, j - 1);
      SwappedNext(es, args, disk, j - 1);
    }
  }

  /** What replace writes: the members with the named ones swapped, and the files added if there is a place for them. */
  predicate CanWrite(es: seq<Entry>, args: seq<Path>, disk: Disk, mode: Mode) {
    var s := Swapped(es, args, disk);
    AllWritable(s.entries) && (Place(es, s.named, mode).Some? ==> AllWritable(Added(s.argv, disk)))
  }

  /** The loop over the members, into two temporary files; false if the program ends there. */
  method ReplaceMembers(afd: File, t1: File, t2: File, argv: array<Path>, disk: Disk, mode: Mode,
                        ghost es: seq<Entry>, ghost tail: seq<byte>)
    returns (ok: bool, n: nat, mods: bool, errflg: bool)
    requires Opened(afd, es, tail) && afd != t1 && afd != t2 && t1 != t2 && Temporary(t1, []) && Temporary(t2, [])
    modifies afd`pos, t1, t2, argv
    ensures ok <==> tail == [] && AllWritable(Swapped(es, old(argv[..]), disk).entries)
    ensures ok ==> n <= argv.Length && es[..|es|] == es
    ensures ok ==> Replacing(afd, t1, t2, afd.bytes, es, tail, old(argv[..]), disk, argv[..n], mode, mods, errflg, |es|)
  {
    hide Members, Swapped, AllBytes, Place, Ahead, NewEntry, Ends, AllWritable;
    n := argv.Length;
    ghost var args, whole := argv[..], afd.bytes;
    var chdr := new Reader();
    mods, errflg := !mode.AtEnd?, false;
    ghost var i := 0;
    assert es[0..] == es && es[..0] == [] && argv[..n] == args && es[..|es|] == es;
    assert afd.Ahead() == whole[|MAGIC|..];
    ReplacingStarts(args, disk, mode);
    var round := More;
    while round == More
      invariant 0 <= i <= |es| && n <= argv.Length && (round == Last ==> i == |es| && tail == []) && round != Exit
      invariant fresh(chdr) && Replacing(afd, t1, t2, whole, es, tail, args, disk, argv[..n], mode, mods, errflg, i)
      decreases |es| - i, if round == More then 1 else 0
    {
      round, n, mods, errflg := ReplaceNext(afd, t1, t2, chdr, argv, n, disk, mode, mods, errflg, whole, es, tail, args, i);
      if round == Exit {
        if tail == [] { Stuck(es, args, disk, i + 1); }
        return false, n, mods, errflg;
      }
      if round == More { i := i + 1; }
    }
    ok := true;
  }

  /**
   replace on an existing archive: it ends the program at a malformed member, or
   at a member that is cut off and not replaced, or at a header that cannot be
   written, before the archive is touched. Otherwise
   the exit status is 1 if the key is missing, and then nothing is changed, or
   if some file could not be opened.
   */
  method Replace(afd: File, argv: array<Path>, disk: Disk, mode: Mode, ghost es: seq<Entry>, ghost tail: seq<byte>)
    returns (r: Outcome)
    requires Opened(afd, es, tail)
    modifies afd, argv
    ensures r.Exited? <==> tail != [] || !CanWrite(es, old(argv[..]), disk, mode)
    ensures r.Exited? ==> afd.bytes == old(afd.bytes)
    ensures r.Ended? ==>
              match Replaced(es, old(argv[..]), disk, mode)
              case None => r.status == 1 && afd.bytes == old(afd.bytes)
              case Some(result) =>
                && afd.bytes == MAGIC + AllBytes(result)
                && r.status == if SomeMissing(disk, old(argv[..])) then 1 else 0
  {
    hide Members, Swapped, AllBytes, Replaced, Place, Ahead, Added, NewEntry, Ends, AllWritable, SomeMissing;
    ghost var args := argv[..];
    var t1 := new File([]);
    var t2 := new File([]);
    var ok, n, mods, errflg := ReplaceMembers(afd, t1, t2, argv, disk, mode, es, tail);
    if !ok { return Exited; }
    ReplacedIs(es, args, disk, mode);
    if mods { return Ended(1); }
    ghost var s := Swapped(es, args, disk);
    EveryFileTried(es, args, disk);
    var failed;
    ok, failed := Finish(afd, t1, t2, argv, n, disk, mode.AtEnd?, s.entries, Ahead(es, s.named, mode))
      by { AheadAtEnd(es, s.named, mode); }
    r := if ok then Ended(if errflg || failed then 1 else 0) else Exited;
  }

  lemma {:induction false} Stuck(es: seq<Entry>, args: seq<Path>, disk: Disk, i: nat)
    requires i <= |es| && !AllWritable(Swapped(es[..i], args, disk).entries)
    ensures !AllWritable(Swapped(es, args, disk).entries)
  {
    hide Swapped, Writable;
    EntriesGrow(es, args, disk, i, |es|);
    assert es[..|es|] == es;
    var xs, ys := Swapped(es[..i], args, disk).entries, Swapped(es, args, disk).entries;
    assert forall j :: 0 <= j < |xs| ==> xs[j] == ys[j];
  }

  lemma {:induction false} AheadAtEnd(es: seq<Entry>, named: seq<bool>, mode: Mode)
    requires |es| == |named|
    ensures mode.AtEnd? ==> Ahead(es, named, mode) == |es|
  {
  }

  /** Adding the files that are left over, and putting the archive together. */
  method Finish(afd: File, t1: File, t2: File, argv: array<Path>, n: nat, disk: Disk, atEnd: bool,
                ghost entries: seq<Entry>, ghost k: nat)
    returns (ok: bool, failed: bool)
    requires afd != t1 && afd != t2 && t1 != t2 && |MAGIC| <= |afd.bytes| && afd.bytes[..|MAGIC|] == MAGIC
    requires n <= argv.Length && k <= |entries| && (atEnd ==> k == |entries|)
    requires Temporary(t1, AllBytes(entries[..k])) && Temporary(t2, AllBytes(entries[k..]))
    modifies afd, t1, t2
    ensures ok <==> AllWritable(Added(argv[..n], disk))
    ensures ok ==> afd.bytes == MAGIC + AllBytes(entries[..k] + Added(argv[..n], disk) + entries[k..])
    ensures ok ==> (failed <==> SomeMissing(disk, argv[..n]))
    ensures !ok ==> afd.bytes == old(afd.bytes)
  {
    hide AllBytes, Added, NewEntry, AllWritable, SomeMissing;
    ok, failed := AppendFiles(if atEnd then t2 else t1, argv, n, disk);
    if !ok { return; }
    Joined(entries, k, Added(argv[..n], disk), atEnd);
    Rewrite2(afd, t1, t2);
  }

  lemma {:induction false} Joined(entries: seq<Entry>, k: nat, added: seq<Entry>, atEnd: bool)
    requires k <= |entries| && (atEnd ==> k == |entries|)
    ensures var a, x, b := AllBytes(entries[..k]), AllBytes(added), AllBytes(entries[k..]);
            MAGIC + AllBytes(entries[..k] + added + entries[k..]) == if atEnd then MAGIC + a + (b + x) else MAGIC + (a + x) + b
  {
    hide AllBytes;
    var a, x, b := AllBytes(entries[..k]), AllBytes(added), AllBytes(entries[k..]);
    Reassembled(entries, k, added);
    Associates(MAGIC, a, x);
    if atEnd {
      assert entries[k..] == [];
      NoBytes();
      assert MAGIC + a + x + [] == MAGIC + a + ([] + x);
    }
  }

  method Rewrite2(afd: File, t1: File, t2: File)
    requires afd != t1 && afd != t2 && t1 != t2 && |MAGIC| <= |afd.bytes| && afd.bytes[..|MAGIC|] == MAGIC
    requires Temporary(t1, t1.bytes) && Temporary(t2, t2.bytes)
    modifies afd, t1`pos, t2`pos
    ensures afd.bytes == MAGIC + t1.bytes + t2.bytes
  {
    afd.pos := |MAGIC|;
    CopyBack(t1, afd, MAGIC);
    CopyBack(t2, afd, MAGIC + t1.bytes);
    Truncate(afd, afd.pos);
  }

  /** The archive that replace leaves holds the edited list, exactly if each member of it can be read back. */
  lemma {:induction false} ReplacedReadsBack(es: seq<Entry>, args: seq<Path>, disk: Disk, mode: Mode)
    requires AllGenuine(es) && AllSound(disk, args) && CanWrite(es, args, disk, mode) && Replaced(es, args, disk, mode).Some?
    ensures var result := Replaced(es, args, disk, mode).value;
            IsArchive(MAGIC + AllBytes(result), result) <==> AllReadBack(result)
  {
    hide AllBytes, Replaced, Sound, Readable, Members, Writable, Place, Swapped, Added;
    ReplacedIs(es, args, disk, mode);
    ReplacedReadable(es, args, disk, mode);
    ArchiveOf(Replaced(es, args, disk, mode).value);
  }
}
