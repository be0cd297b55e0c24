/** The delete and move commands, by way of temporary files, and what they share with replace. */
module ArCommands {
  import opened Wrappers
  import opened Bytes
  import opened ArFormat
  import opened ArMember
  import opened ArEdit
  import opened ArFiles

  /** files: looks for an argument that names the current member, and removes it from the list in place. */
  method Files(argv: array<Path>, n: nat, name: seq<byte>) returns (found: Option<Path>, n': nat)
    requires n <= argv.Length
    modifies argv
    ensures n' <= argv.Length && argv[..n'] == Consumed(old(argv[..n]), name)
    ensures match Match(old(argv[..n]), name)
            case None => found.None?
            case Some(i) => found == Some(old(argv[..n])[i])
  {
    hide Rname;
    var i := 0;
    ghost var list := argv[..n];
    while i < n && Rname(argv[i]) != name
      invariant 0 <= i <= n && argv[..n] == list
      invariant forall j :: 0 <= j < i ==> Rname(list[j]) != name
    {
      i := i + 1;
    }
    MatchIs(list, name, i);
    if i == n { return None, n; }
    found := Some(argv[i]);
    ShiftDown(argv, n, i);
    n' := n - 1;
  }

  /** The arguments behind `i` move up by one. */
  method ShiftDown(argv: array<Path>, n: nat, i: nat)
    requires i < n <= argv.Length
    modifies argv
    ensures argv[..n - 1] == Without(old(argv[..n]), i)
  {
    ghost var list := argv[..n];
    var k := i;
    while k + 1 < n
      invariant i <= k < n
      invariant argv[..k] == list[..i] + list[i + 1..k + 1] && argv[k + 1..n] == list[k + 1..]
    {
      assert argv[k + 1] == argv[k + 1..n][0] == list[k + 1];
      assert argv[k + 2..n] == argv[k + 1..n][1..];
      argv[k] := argv[k + 1];
      k := k + 1;
    }
  }

  lemma {:induction false} MatchIs(list: seq<Path>, name: seq<byte>, i: nat)
    requires i <= |list| && (forall j :: 0 <= j < i ==> Rname(list[j]) != name) && (i < |list| ==> Rname(list[i]) == name)
    ensures Match(list, name) == if i < |list| then Some(i) else None
  {
    hide Rname;
    var m := Match(list, name);
    if m.Some? && i < |list| { assert m.value <= i <= m.value; }
  }

  // ----- what the loops over the members have in common -----

  /** An archive of the members `es` and a malformed `tail`, read as far as the first `n` members. */
  ghost predicate ReadUpto(afd: File, whole: seq<byte>, es: seq<Entry>, tail: seq<byte>, n: nat)
    requires n <= |es|
    reads afd
  {
    afd.bytes == whole && Members(afd.Ahead()) == (es[n..], tail)
  }

  lemma {:induction false} MembersGenuine(s: seq<byte>)
    ensures AllGenuine(Members(s).0)
    decreases |s|
  {
    hide Readable;
    if s != [] && ParseMember(s).Some? { MembersGenuine(ParseMember(s).value.1); }
  }

  lemma {:induction false} NextMember(s: seq<byte>, es: seq<Entry>, tail: seq<byte>, n: nat)
    requires n <= |es| && Members(s) == (es[n..], tail)
    ensures n == |es| ==> s == tail
    ensures n < |es| ==> s != [] && ParseMember(s).Some? && ParseMember(s).value.0 == es[n]
                         && Members(ParseMember(s).value.1) == (es[n + 1..], tail)
  {
    hide ParseMember;
    if n < |es| {
      assert es[n..][0] == es[n] && es[n..][1..] == es[n + 1..];
    } else {
      assert es[n..] == [];
    }
  }

  /** What is behind the members is nothing, or nothing that get_arobj accepts. */
  predicate Ends(tail: seq<byte>) { tail == [] || BadHead(tail) }

  /** get_arobj on such an archive: the next member, its end, or the exit at the malformed tail. */
  method GetNext(afd: File, chdr: Reader, ghost whole: seq<byte>, ghost es: seq<Entry>, ghost tail: seq<byte>, ghost i: nat)
    returns (st: Status, ghost rest: seq<byte>)
    requires i <= |es| && ReadUpto(afd, whole, es, tail, i) && Ends(tail)
    modifies afd`pos, chdr
    ensures afd.bytes == whole
    ensures st == Found ==> i < |es| && chdr.Holds(es[i]) && Behind(afd.Ahead(), es[i], rest)
    ensures st == Found ==> Members(rest) == (es[i + 1..], tail)
    ensures st == Finished ==> i == |es| && tail == [] && ReadUpto(afd, whole, es, tail, i)
    ensures st == BadFormat ==> i == |es| && tail != []
  {
    hide Behind, Members, ParseMember, BadHead;
    NextMember(afd.Ahead(), es, tail, i);
    rest := if i < |es| then ParseMember(afd.Ahead()).value.1 else [];
    st := GetArobj(afd, chdr);
  }

  lemma {:induction false} UptoNext(es: seq<Entry>, n: nat)
    requires n < |es|
    ensures es[..n + 1] == es[..n] + [es[n]] && es[..n + 1][..n] == es[..n]
  {
  }

  /** Copying a temporary file back into the archive, behind what is already there. */
  method CopyBack(t: File, afd: File, ghost done: seq<byte>)
    requires t != afd && afd.Valid() && t.Valid() && t.pos == |t.bytes|
    requires afd.pos == |done| && afd.bytes[..|done|] == done
    modifies t`pos, afd
    ensures afd.Valid() && afd.pos == |done| + |t.bytes| && afd.bytes[..afd.pos] == done + t.bytes
  {
    var size := t.pos;
    t.pos := 0;
    assert t.bytes[0..] == t.bytes && t.bytes[..size] == t.bytes;
    var ok := CopyAr(t, afd, size, false, 0, false, 0);
    assert t.bytes[..size] + [] == t.bytes;
  }

  method Truncate(afd: File, n: nat)
    requires n <= |afd.bytes|
    modifies afd
    ensures afd.bytes == old(afd.bytes)[..n] && afd.pos == old(afd.pos)
  {
    afd.bytes := afd.bytes[..n];
  }

  /** The bytes of an archive with the members `es`. */
  ghost predicate IsArchive(bytes: seq<byte>, es: seq<Entry>) {
    |MAGIC| <= |bytes| && bytes[..|MAGIC|] == MAGIC && Members(bytes[|MAGIC|..]) == (es, [])
  }

  lemma {:induction false} ArchiveOf(es: seq<Entry>)
    requires AllReadable(es)
    ensures IsArchive(MAGIC + AllBytes(es), es) <==> AllReadBack(es)
  {
    hide AllBytes, Members;
    ArchiveRead(es);
    assert (MAGIC + AllBytes(es))[|MAGIC|..] == AllBytes(es);
  }

  /** An archive that has just been opened: members, the last one perhaps cut off, and behind them perhaps a malformed one. */
  ghost predicate Opened(afd: File, es: seq<Entry>, tail: seq<byte>)
    reads afd
  {
    && |MAGIC| <= |afd.bytes| && afd.bytes[..|MAGIC|] == MAGIC && afd.pos == |MAGIC|
    && Members(afd.bytes[|MAGIC|..]) == (es, tail) && Ends(tail)
  }

  /** How a command ends: by exit in the middle of the archive, or with an exit status. */
  datatype Outcome = Exited | Ended(status: nat)

  /** How a round of a command's loop ends. */
  datatype Round = More | Last | Exit

  // ----- delete -----

  /** One member: skipped if an argument names it, copied otherwise. */
  method DeleteOne(afd: File, tfd: File, chdr: Reader, argv: array<Path>, n: nat, ghost e: Entry, ghost rest: seq<byte>)
    returns (ok: bool, n': nat, ghost gone: bool)
    requires afd != tfd && n <= argv.Length && Temporary(tfd, tfd.bytes)
    requires chdr.Holds(e) && Behind(afd.Ahead(), e, rest)
    modifies afd`pos, tfd, argv
    ensures n' <= argv.Length && (ok <==> gone || Writable(e))
    ensures gone == Match(old(argv[..n]), NameOf(e)).Some? && argv[..n'] == Consumed(old(argv[..n]), NameOf(e))
    ensures ok ==> afd.Ahead() == rest
    ensures ok ==> Temporary(tfd, if gone then old(tfd.bytes) else old(tfd.bytes) + BytesOf(e))
  {
    hide NameOf, NameIn, BytesOf, Behind, Writable;
    var file;
    file, n' := Files(argv, n, NameIn(chdr.hb, chdr.name));
    SameName(e);
    gone := file.Some?;
    if file.Some? {
      SkipArobj(afd, chdr, e, rest);
      ok := true;
    } else {
      ok := PutMember(afd, tfd, chdr, e, rest);
    }
  }

  lemma {:induction false} SameName(e: Entry)
    ensures NameIn(e.hb, e.long) == NameOf(e)
  {
  }

  /** Where delete is after the first `i` members. */
  ghost predicate Deleting(afd: File, tfd: File, whole: seq<byte>, es: seq<Entry>, tail: seq<byte>, args: seq<Path>,
                           left: seq<Path>, i: nat)
    requires i <= |es|
    reads afd, tfd
  {
    var s := Select(es[..i], args);
    && afd != tfd && ReadUpto(afd, whole, es, tail, i) && left == s.argv
    && Temporary(tfd, AllBytes(s.kept)) && AllWritable(s.kept)
  }

  lemma {:induction false} SelectNext(es: seq<Entry>, args: seq<Path>, i: nat)
    requires i < |es|
    ensures var s, t, e := Select(es[..i], args), Select(es[..i + 1], args), es[i];
            if Match(s.argv, NameOf(e)).Some? then
              t.kept == s.kept && t.selected == s.selected + [e] && t.argv == Consumed(s.argv, NameOf(e))
            else t.kept == s.kept + [e] && t.selected == s.selected && t.argv == s.argv == Consumed(s.argv, NameOf(e))
  {
    hide NameOf, Match;
    UptoNext(es, i);
  }

  lemma {:induction false} AllBytesAppend(es: seq<Entry>, e: Entry)
    ensures AllBytes(es + [e]) == AllBytes(es) + BytesOf(e)
  {
    hide BytesOf;
    assert (es + [e])[..|es|] == es;
  }

  /** Members kept so far are kept in the end. */
  lemma {:induction false} SelectGrows(es: seq<Entry>, args: seq<Path>, i: nat, j: nat)
    requires i <= j <= |es|
    ensures Select(es[..i], args).kept <= Select(es[..j], args).kept
    decreases j - i
  {
    hide Match, NameOf, Select;
    if i < j {
      SelectGrows(es, args, i, j - 1);
      SelectNext(es, args, j - 1);
    }
  }

  /** One round of the loop in delete. */
  method DeleteNext(afd: File, tfd: File, chdr: Reader, argv: array<Path>, n: nat,
                    ghost whole: seq<byte>, ghost es: seq<Entry>, ghost tail: seq<byte>, ghost args: seq<Path>, ghost i: nat)
    returns (r: Round, n': nat)
    requires i <= |es| && n <= argv.Length && Ends(tail) && Deleting(afd, tfd, whole, es, tail, args, argv[..n], i)
    modifies afd`pos, tfd, chdr, argv
    ensures n' <= argv.Length
    ensures r == More ==> i < |es| && Deleting(afd, tfd, whole, es, tail, args, argv[..n'], i + 1)
    ensures r == Last ==> i == |es| && tail == [] && Deleting(afd, tfd, whole, es, tail, args, argv[..n'], i)
    ensures r == Exit ==> afd.bytes == whole
    ensures r == Exit ==> tail != [] || (i < |es| && !AllWritable(Select(es[..i + 1], args).kept))
  {
    hide NameOf, BytesOf, Behind, Members, Match, Consumed, Select, AllBytes, Ends, Writable;
    n' := n;
    var st;
    ghost var rest;
    st, rest := GetNext(afd, chdr, whole, es, tail, i);
    match st {
      case Finished => r := Last;
      case BadFormat => r := Exit;
      case Found =>
        SelectNext(es, args, i);
        AllBytesAppend(Select(es[..i], args).kept, es[i]);
        ghost var kept := Select(es[..i], args).kept;
        WritableAppend(kept, es[i]);
        ghost var gone;
        var ok;
        ok, n', gone := DeleteOne(afd, tfd, chdr, argv, n, es[i], rest);
        r := if ok then More else Exit;
    }
  }

  lemma {:induction false} WritableAppend(es: seq<Entry>, e: Entry)
    ensures AllWritable(es + [e]) <==> AllWritable(es) && Writable(e)
  {
    assert (es + [e])[|es|] == e;
    assert forall i :: 0 <= i < |es| ==> (es + [e])[i] == es[i];
  }

  lemma {:induction false} WritablePrefix(xs: seq<Entry>, ys: seq<Entry>)
    requires xs <= ys && AllWritable(ys)
    ensures AllWritable(xs)
  {
    assert forall i :: 0 <= i < |xs| ==> xs[i] == ys[i];
  }

  /**
   delete: it ends the program at a malformed member, or at one that is kept and
   has a NUL in its header or is cut off, before the archive is touched.
   Otherwise the exit status is 1 if some argument named no member. The archive
   then has the members kept, exactly if each of them can be read back.
   */
  method Delete(afd: File, argv: array<Path>, ghost es: seq<Entry>, ghost tail: seq<byte>) returns (r: Outcome)
    requires Opened(afd, es, tail)
    modifies afd, argv
    ensures var s := Select(es, old(argv[..]));
            && (r.Exited? <==> tail != [] || !AllWritable(s.kept))
            && (r.Exited? ==> afd.bytes == old(afd.bytes))
            && (r.Ended? ==> afd.bytes == MAGIC + AllBytes(s.kept))
            && (r.Ended? ==> (IsArchive(afd.bytes, s.kept) <==> AllReadBack(s.kept)))
            && (r.Ended? ==> r.status == if s.argv == [] then 0 else 1)
  {
    hide Members, Select, AllBytes, Ends, AllWritable;
    var n: nat := argv.Length;
    ghost var args, whole := argv[..], afd.bytes;
    var tfd := new File([]);
    var chdr := new Reader();
    ghost var i := 0;
    assert es[0..] == es && argv[..n] == args && es[..|es|] == es;
    assert Deleting(afd, tfd, whole, es, tail, args, argv[..n], 0) by { NothingSelected(es, args); }
    var round := More;
    while round == More
      invariant 0 <= i <= |es| && n <= argv.Length && (round == Last ==> i == |es| && tail == []) && round != Exit
      invariant fresh(tfd) && fresh(chdr) && Deleting(afd, tfd, whole, es, tail, args, argv[..n], i)
      decreases |es| - i, if round == More then 1 else 0
    {
      round, n := DeleteNext(afd, tfd, chdr, argv, n, whole, es, tail, args, i);
      if round == Exit {
        if tail == [] {
          SelectGrows(es, args, i + 1, |es|);
          if AllWritable(Select(es, args).kept) { WritablePrefix(Select(es[..i + 1], args).kept, Select(es, args).kept); }
        }
        return Exited;
      }
      if round == More { i := i + 1; }
    }
    afd.pos := |MAGIC|;
    CopyBack(tfd, afd, MAGIC);
    Truncate(afd, afd.pos);
    MembersGenuine(whole[|MAGIC|..]);
    SelectGenuine(es, args);
    GenuineWritable(Select(es, args).kept);
    ArchiveOf(Select(es, args).kept);
    r := Ended(if n == 0 then 0 else 1);
  }

  lemma {:induction false} NothingSelected(es: seq<Entry>, args: seq<Path>)
    ensures Select(es[..0], args) == Selection([], [], args) && AllBytes([]) == [] && AllWritable([])
  {
  }

  // ----- move -----

  lemma {:induction false} CutNext(kept: seq<Entry>, e: Entry, mode: Mode)
    ensures Cut(kept + [e], mode) ==
            if mode.AtEnd? then Some(|kept| + 1)
            else if Cut(kept, mode).Some? then Cut(kept, mode)
            else if NameOf(e) != Rname(mode.key) then None
            else Some(if mode.Before? then |kept| else |kept| + 1)
  {
    hide NameOf, Rname;
    assert (kept + [e])[..|kept|] == kept;
  }

  /** How many of the members kept are in front of the place for those selected. */
  function Front(kept: seq<Entry>, mode: Mode): (k: nat)
    ensures k <= |kept|
  {
    match Cut(kept, mode) case None => |kept| case Some(i) => i
  }

  /** Where move is after the first `i` members; `mods` until the key has been seen. */
  ghost predicate Moving(afd: File, t1: File, t2: File, t3: File, whole: seq<byte>, es: seq<Entry>, tail: seq<byte>,
                         args: seq<Path>, left: seq<Path>, mode: Mode, mods: bool, i: nat)
    requires i <= |es|
    reads afd, t1, t2, t3
  {
    var s := Select(es[..i], args);
    && ReadUpto(afd, whole, es, tail, i) && left == s.argv && mods == Cut(s.kept, mode).None? && AllWritable(es[..i])
    && Temporary(t1, AllBytes(s.kept[..Front(s.kept, mode)])) && Temporary(t2, AllBytes(s.selected))
    && Temporary(t3, AllBytes(s.kept[Front(s.kept, mode)..]))
  }

  predicate Distinct(afd: File, t1: File, t2: File, t3: File) {
    afd != t1 && afd != t2 && afd != t3 && t1 != t2 && t1 != t3 && t2 != t3
  }

  /** The parts of the members kept, when another one is kept. */
  lemma {:induction false} FrontNext(kept: seq<Entry>, e: Entry, mode: Mode)
    ensures var k, more := Front(kept, mode), kept + [e];
            var toFront := mode.AtEnd? || (Cut(kept, mode).None? && (NameOf(e) != Rname(mode.key) || mode.After?));
            if toFront then more[..Front(more, mode)] == kept[..k] + [e] && more[Front(more, mode)..] == kept[k..]
            else more[..Front(more, mode)] == kept[..k] && more[Front(more, mode)..] == kept[k..] + [e]
  {
    hide NameOf, Rname, Cut;
    CutNext(kept, e, mode);
    assert mode.AtEnd? ==> Cut(kept, mode) == Some(|kept|) by { CutAtEnd(kept, mode); }
  }

  lemma {:induction false} CutAtEnd(kept: seq<Entry>, mode: Mode)
    ensures mode.AtEnd? ==> Cut(kept, mode) == Some(|kept|)
  {
  }

  /** The temporary file that move writes a member to. */
  datatype Part = Early | Chosen | Late

  function PartFor(named: bool, mods: bool, isKey: bool, mode: Mode): Part {
    if named then Chosen
    else if mode.AtEnd? || (mods && (!isKey || mode.After?)) then Early
    else Late
  }

  /** One more member, written to the part it belongs to. */
  lemma {:induction false} MovedNext(es: seq<Entry>, args: seq<Path>, mode: Mode, i: nat)
    requires i < |es|
    ensures var s, t, e := Select(es[..i], args), Select(es[..i + 1], args), es[i];
            var named, mods := Match(s.argv, NameOf(e)).Some?, Cut(s.kept, mode).None?;
            var isKey := !mode.AtEnd? && NameOf(e) == Rname(mode.key);
            var part := PartFor(named, mods, isKey, mode);
            var j, k := Front(s.kept, mode), Front(t.kept, mode);
            && AllBytes(t.kept[..k]) == AllBytes(s.kept[..j]) + (if part == Early then BytesOf(e) else [])
            && AllBytes(t.selected) == AllBytes(s.selected) + (if part == Chosen then BytesOf(e) else [])
            && AllBytes(t.kept[k..]) == AllBytes(s.kept[j..]) + (if part == Late then BytesOf(e) else [])
            && t.argv == Consumed(s.argv, NameOf(e))
            && Cut(t.kept, mode).None? == (mods && (named || !isKey))
  {
    hide NameOf, BytesOf, Match, Consumed, Select, AllBytes, Cut, Front, Rname;
    var s, e := Select(es[..i], args), es[i];
    var k := Front(s.kept, mode);
    SelectNext(es, args, i);
    CutNext(s.kept, e, mode);
    FrontNext(s.kept, e, mode);
    CutAtEnd(s.kept, mode);
    AllBytesAppend(s.selected, e);
    AllBytesAppend(s.kept[..k], e);
    AllBytesAppend(s.kept[k..], e);
  }

  /** Writing a member to one of three files. */
  method PutPart(afd: File, t1: File, t2: File, t3: File, chdr: Reader, part: Part, ghost e: Entry, ghost rest: seq<byte>)
    returns (ok: bool)
    requires Distinct(afd, t1, t2, t3) && chdr.Holds(e) && Behind(afd.Ahead(), e, rest)
    requires Temporary(t1, t1.bytes) && Temporary(t2, t2.bytes) && Temporary(t3, t3.bytes)
    modifies afd`pos, t1, t2, t3
    ensures ok <==> Writable(e)
    ensures ok ==> afd.Ahead() == rest
    ensures ok ==> Temporary(t1, old(t1.bytes) + (if part == Early then BytesOf(e) else []))
    ensures ok ==> Temporary(t2, old(t2.bytes) + (if part == Chosen then BytesOf(e) else []))
    ensures ok ==> Temporary(t3, old(t3.bytes) + (if part == Late then BytesOf(e) else []))
  {
    hide BytesOf, Behind, Writable;
    NothingAppended(t1.bytes);
    NothingAppended(t2.bytes);
    NothingAppended(t3.bytes);
    match part {
      case Early => ok := PutMember(afd, t1, chdr, e, rest);
      case Chosen => ok := PutMember(afd, t2, chdr, e, rest);
      case Late => ok := PutMember(afd, t3, chdr, e, rest);
    }
  }

  /** One round of the loop in move. */
  method MoveNext(afd: File, t1: File, t2: File, t3: File, chdr: Reader, argv: array<Path>, n: nat, mode: Mode, mods: bool,
                  ghost whole: seq<byte>, ghost es: seq<Entry>, ghost tail: seq<byte>, ghost args: seq<Path>, ghost i: nat)
    returns (r: Round, n': nat, mods': bool)
    requires i <= |es| && n <= argv.Length && Distinct(afd, t1, t2, t3) && Ends(tail)
    requires Moving(afd, t1, t2, t3, whole, es, tail, args, argv[..n], mode, mods, i)
    modifies afd`pos, t1, t2, t3, chdr, argv
    ensures n' <= argv.Length
    ensures r == More ==> i < |es| && Moving(afd, t1, t2, t3, whole, es, tail, args, argv[..n'], mode, mods', i + 1)
    ensures r == Last ==> i == |es| && tail == []
    ensures r == Last ==> Moving(afd, t1, t2, t3, whole, es, tail, args, argv[..n'], mode, mods', i)
    ensures r == Exit ==> afd.bytes == whole && (tail != [] || !AllWritable(es))
  {
    hide NameOf, NameIn, BytesOf, Behind, Members, Match, Consumed, Select, AllBytes, Cut, Front, Rname, Ends, Writable;
    n', mods' := n, mods;
    var st;
    ghost var rest;
    st, rest := GetNext(afd, chdr, whole, es, tail, i);
    if st != Found { return if st == Finished then Last else Exit, n', mods'; }
    MovedNext(es, args, mode, i);
    SameName(es[i]);
    UptoNext(es, i);
    WritableAppend(es[..i], es[i]);
    var name := NameIn(chdr.hb, chdr.name);
    var file;
    file, n' := Files(argv, n, name);
    var isKey := !mode.AtEnd? && name == Rname(mode.key);
    if file.None? && mods && isKey { mods' := false; }
    var ok := PutPart(afd, t1, t2, t3, chdr, PartFor(file.Some?, mods, isKey, mode), es[i], rest);
    r := if ok then More else Exit;
  }

  lemma {:induction false} AllBytesConcat(xs: seq<Entry>, ys: seq<Entry>)
    ensures AllBytes(xs + ys) == AllBytes(xs) + AllBytes(ys)
    decreases |ys|
  {
    hide BytesOf;
    if ys == [] {
      assert xs + ys == xs;
    } else {
      var y := ys[..|ys| - 1];
      AllBytesConcat(xs, y);
      assert (xs + ys)[..|xs + ys| - 1] == xs + y;
    }
  }

  /** Three temporary files put together again. */
  lemma {:induction false} Reassembled(kept: seq<Entry>, k: nat, middle: seq<Entry>)
    requires k <= |kept|
    ensures MAGIC + AllBytes(kept[..k]) + AllBytes(middle) + AllBytes(kept[k..])
            == MAGIC + AllBytes(kept[..k] + middle + kept[k..])
  {
    hide AllBytes;
    AllBytesConcat(kept[..k] + middle, kept[k..]);
    AllBytesConcat(kept[..k], middle);
  }

  /** What holds of all members holds of them in another order. */
  lemma {:induction false} MovedReadable(es: seq<Entry>, args: seq<Path>, mode: Mode)
    requires AllReadable(es) && Moved(es, args, mode).Some?
    ensures var moved := Moved(es, args, mode).value; AllReadable(moved) && (AllReadBack(moved) <==> AllReadBack(es))
  {
    hide Readable, ReadsBack, Moved;
    var moved := Moved(es, args, mode).value;
    MovedIsPermutation(es, args, mode);
    forall i | 0 <= i < |moved| ensures moved[i] in es { assert moved[i] in multiset(es); }
    forall i | 0 <= i < |es| ensures es[i] in moved { assert es[i] in multiset(moved); }
  }

  lemma {:induction false} MovingStarts(es: seq<Entry>, args: seq<Path>, mode: Mode)
    ensures es[..0] == [] && Select([], args) == Selection([], [], args) && AllBytes([]) == []
    ensures Cut([], mode).None? == !mode.AtEnd? && Front([], mode) == 0 && AllWritable([])
  {
  }

  lemma {:induction false} MovedIs(es: seq<Entry>, args: seq<Path>, mode: Mode)
    ensures var s := Select(es, args);
            var k := Front(s.kept, mode);
            Moved(es, args, mode) == if Cut(s.kept, mode).None? then None else Some(s.kept[..k] + s.selected + s.kept[k..])
  {
  }

  /**
   move: it ends the program at a malformed member, at a NUL in a header or at a
   member that is cut off, before the archive is touched. Otherwise the exit
   status is 1 if the key is missing, and then nothing is changed, or if an
   argument named no member. The archive then has the members in their new
   order, exactly if each of them can be read back.
   */
  method Move(afd: File, argv: array<Path>, mode: Mode, ghost es: seq<Entry>, ghost tail: seq<byte>) returns (r: Outcome)
    requires Opened(afd, es, tail)
    modifies afd, argv
    ensures r.Exited? <==> tail != [] || !AllWritable(es)
    ensures r.Exited? ==> afd.bytes == old(afd.bytes)
    ensures r.Ended? ==>
              match Moved(es, old(argv[..]), mode)
              case None => r.status == 1 && afd.bytes == old(afd.bytes)
              case Some(moved) =>
                && afd.bytes == MAGIC + AllBytes(moved) && (IsArchive(afd.bytes, moved) <==> AllReadBack(es))
                && r.status == if Select(es, old(argv[..])).argv == [] then 0 else 1
  {
    hide Members, Select, AllBytes, Moved, Cut, Front, Ends, AllWritable;
    var n: nat := argv.Length;
    ghost var args, whole := argv[..], afd.bytes;
    var t1 := new File([]);
    var t2 := new File([]);
    var t3 := new File([]);
    var chdr := new Reader();
    var mods := !mode.AtEnd?;
    ghost var i := 0;
    assert es[0..] == es && argv[..n] == args && es[..|es|] == es;
    MovingStarts(es, args, mode);
    var round := More;
    while round == More
      invariant 0 <= i <= |es| && n <= argv.Length && (round == Last ==> i == |es| && tail == []) && round != Exit
      invariant fresh(t1) && fresh(t2) && fresh(t3) && fresh(chdr) && Distinct(afd, t1, t2, t3)
      invariant Moving(afd, t1, t2, t3, whole, es, tail, args, argv[..n], mode, mods, i)
      decreases |es| - i, if round == More then 1 else 0
    {
      round, n, mods := MoveNext(afd, t1, t2, t3, chdr, argv, n, mode, mods, whole, es, tail, args, i);
      if round == Exit { return Exited; }
      if round == More { i := i + 1; }
    }
    MovedIs(es, args, mode);
    if mods { return Ended(1); }
    Rewrite(afd, t1, t2, t3);
    ghost var s := Select(es, args);
    Reassembled(s.kept, Front(s.kept, mode), s.selected);
    MembersGenuine(whole[|MAGIC|..]);
    GenuineWritable(es);
    MovedReadable(es, args, mode);
    ArchiveOf(Moved(es, args, mode).value);
    r := Ended(if n == 0 then 0 else 1);
  }

  /** Putting it all back together. */
  method Rewrite(afd: File, t1: File, t2: File, t3: File)
    requires Distinct(afd, t1, t2, t3) && |MAGIC| <= |afd.bytes| && afd.bytes[..|MAGIC|] == MAGIC
    requires Temporary(t1, t1.bytes) && Temporary(t2, t2.bytes) && Temporary(t3, t3.bytes)
    modifies afd, t1`pos, t2`pos, t3`pos
    ensures afd.bytes == MAGIC + t1.bytes + t2.bytes + t3.bytes
  {
    afd.pos := |MAGIC|;
    CopyBack(t1, afd, MAGIC);
    CopyBack(t2, afd, MAGIC + t1.bytes);
    CopyBack(t3, afd, MAGIC + t1.bytes + t2.bytes);
    Truncate(afd, afd.pos);
  }
}
