/** Deleting, moving and replacing members, as edits of a list. */
module ArEdit {
  import opened Wrappers
  import opened Bytes
  import opened ArFormat
  import opened ArMember

  type Path = seq<byte>

  // ----- matching arguments -----

  /** The first argument with the given name as its last component. */
  function Match(argv: seq<Path>, name: seq<byte>): (r: Option<nat>)
    ensures r.Some? ==> r.value < |argv| && Rname(argv[r.value]) == name
    ensures r.Some? ==> forall j :: 0 <= j < r.value ==> Rname(argv[j]) != name
    ensures r.None? ==> forall j :: 0 <= j < |argv| ==> Rname(argv[j]) != name
  {
    if argv == [] then None
    else if Rname(argv[0]) == name then Some(0)
    else match Match(argv[1..], name) case None => None case Some(i) => Some(i + 1)
  }

  function Without<T>(s: seq<T>, i: nat): seq<T>
    requires i < |s|
  {
    s[..i] + s[i + 1..]
  }

  /** The arguments that are left when the matching one has been used. */
  function Consumed(argv: seq<Path>, name: seq<byte>): seq<Path> {
    match Match(argv, name) case None => argv case Some(i) => Without(argv, i)
  }

  // ----- selecting members -----

  /** The members no argument names, those that are named, and the arguments left. */
  datatype Selection = Selection(kept: seq<Entry>, selected: seq<Entry>, argv: seq<Path>)

  /** Members are gone through in order, and each argument is used once. */
  function Select(es: seq<Entry>, argv: seq<Path>): Selection {
    if es == [] then Selection([], [], argv)
    else
      var s, e := Select(es[..|es| - 1], argv), es[|es| - 1];
      if Match(s.argv, NameOf(e)).Some? then Selection(s.kept, s.selected + [e], Consumed(s.argv, NameOf(e)))
      else s.(kept := s.kept + [e])
  }

  /** The two sequences together are the whole, each in its order. */
  predicate Interleaved(es: seq<Entry>, xs: seq<Entry>, ys: seq<Entry>)
    decreases |es|
  {
    if es == [] then xs == [] && ys == []
    else
      var e, rest := es[|es| - 1], es[..|es| - 1];
      || (xs != [] && xs[|xs| - 1] == e && Interleaved(rest, xs[..|xs| - 1], ys))
      || (ys != [] && ys[|ys| - 1] == e && Interleaved(rest, xs, ys[..|ys| - 1]))
  }

  lemma {:induction false} AppendInterleaved(es: seq<Entry>, xs: seq<Entry>, ys: seq<Entry>, e: Entry)
    requires Interleaved(es, xs, ys)
    ensures Interleaved(es + [e], xs + [e], ys) && Interleaved(es + [e], xs, ys + [e])
  {
    assert (es + [e])[..|es|] == es && (xs + [e])[..|xs|] == xs && (ys + [e])[..|ys|] == ys;
  }

  /** Sequences that are interleaved have the same members between them. */
  lemma {:induction false} InterleavedMembers(es: seq<Entry>, xs: seq<Entry>, ys: seq<Entry>)
    requires Interleaved(es, xs, ys)
    ensures multiset(xs) + multiset(ys) == multiset(es) && |xs| + |ys| == |es|
    decreases |es|
  {
    if es != [] {
      var e, rest := es[|es| - 1], es[..|es| - 1];
      LastMember(es);
      if xs != [] && xs[|xs| - 1] == e && Interleaved(rest, xs[..|xs| - 1], ys) {
        InterleavedMembers(rest, xs[..|xs| - 1], ys);
        LastMember(xs);
      } else {
        InterleavedMembers(rest, xs, ys[..|ys| - 1]);
        LastMember(ys);
      }
    }
  }

  lemma {:induction false} LastMember(es: seq<Entry>)
    requires es != []
    ensures multiset(es) == multiset(es[..|es| - 1]) + multiset{es[|es| - 1]}
  {
    assert es == es[..|es| - 1] + [es[|es| - 1]];
  }

  /** Selecting splits the members into two sequences that keep their order. */
  lemma {:induction false} SelectSplits(es: seq<Entry>, argv: seq<Path>)
    ensures Interleaved(es, Select(es, argv).kept, Select(es, argv).selected)
    decreases |es|
  {
    hide NameOf, Match, Consumed, Interleaved;
    if es != [] {
      var e, rest := es[|es| - 1], es[..|es| - 1];
      SelectSplits(rest, argv);
      assert es == rest + [e];
      AppendInterleaved(rest, Select(rest, argv).kept, Select(rest, argv).selected, e);
    } else {
      NothingInterleaved();
    }
  }

  lemma {:induction false} NothingInterleaved()
    ensures Interleaved([], [], [])
  {
  }

  /** The members with a name. */
  function Named(es: seq<Entry>, name: seq<byte>): seq<Entry> {
    if es == [] then []
    else
      var e := es[|es| - 1];
      Named(es[..|es| - 1], name) + if NameOf(e) == name then [e] else []
  }

  /** The number of arguments for a name. */
  function Mentions(argv: seq<Path>, name: seq<byte>): nat {
    if argv == [] then 0 else (if Rname(argv[0]) == name then 1 else 0) + Mentions(argv[1..], name)
  }

  lemma {:induction false} MentionsConcat(xs: seq<Path>, ys: seq<Path>, name: seq<byte>)
    ensures Mentions(xs + ys, name) == Mentions(xs, name) + Mentions(ys, name)
    decreases |xs|
  {
    if xs == [] {
      assert xs + ys == ys;
    } else {
      assert (xs + ys)[1..] == xs[1..] + ys;
      MentionsConcat(xs[1..], ys, name);
    }
  }

  lemma {:induction false} MentionsNone(argv: seq<Path>, name: seq<byte>)
    ensures Mentions(argv, name) == 0 <==> Match(argv, name).None?
    decreases |argv|
  {
    if argv != [] { MentionsNone(argv[1..], name); }
  }

  lemma {:induction false} ConsumedMentions(argv: seq<Path>, used: seq<byte>, name: seq<byte>)
    requires Match(argv, used).Some?
    ensures Mentions(Consumed(argv, used), name) == Mentions(argv, name) - if used == name then 1 else 0
  {
    hide Match;
    var i := Match(argv, used).value;
    var xs, a, ys := argv[..i], argv[i], argv[i + 1..];
    assert argv == xs + ([a] + ys);
    MentionsConcat(xs, [a] + ys, name);
    MentionsConcat([a], ys, name);
    MentionsConcat(xs, ys, name);
    assert Mentions([a], name) == if Rname(a) == name then 1 else 0;
  }

  function Min(m: nat, n: nat): nat { if m <= n then m else n }

  lemma {:induction false} NamedAppend(es: seq<Entry>, e: Entry, name: seq<byte>)
    ensures Named(es + [e], name) == Named(es, name) + if NameOf(e) == name then [e] else []
  {
    assert (es + [e])[..|es|] == es;
  }

  /** For every name, as many members are selected as there are arguments for it, and they are the first ones. */
  lemma {:induction false} FirstMatchesSelected(es: seq<Entry>, argv: seq<Path>, name: seq<byte>)
    ensures var s, all := Select(es, argv), Named(es, name);
            var k := Min(Mentions(argv, name), |all|);
            && Named(s.selected, name) == all[..k] && Named(s.kept, name) == all[k..]
            && Mentions(s.argv, name) == Mentions(argv, name) - k
    decreases |es|
  {
    hide Match, Consumed, NameOf, Named, Mentions;
    if es == [] {
      NothingNamed(name);
    } else {
      var e, rest := es[|es| - 1], es[..|es| - 1];
      var s, n := Select(rest, argv), NameOf(e);
      FirstMatchesSelected(rest, argv, name);
      assert es == rest + [e];
      NamedAppend(rest, e, name);
      MentionsNone(s.argv, n);
      if Match(s.argv, n).Some? {
        NamedAppend(s.selected, e, name);
        ConsumedMentions(s.argv, n, name);
      } else {
        NamedAppend(s.kept, e, name);
      }
      if n == name { OneMoreNamed(Named(rest, name), e, Mentions(argv, name)); }
    }
  }

  lemma {:induction false} NothingNamed(name: seq<byte>)
    ensures Named([], name) == []
  {
  }

  lemma {:induction false} OneMoreNamed(all: seq<Entry>, e: Entry, m: nat)
    ensures var k, more := Min(m, |all|), all + [e];
            if m > |all| then Min(m, |more|) == k + 1 && more[..k + 1] == all[..k] + [e] && more[k + 1..] == all[k..]
            else Min(m, |more|) == k && more[..k] == all[..k] && more[k..] == all[k..] + [e]
  {
  }

  // ----- moving -----

  datatype Mode = AtEnd | Before(key: Path) | After(key: Path)

  function IndexOf(es: seq<Entry>, name: seq<byte>): (r: Option<nat>)
    ensures r.Some? ==> r.value < |es|
  {
    if es == [] then None
    else
      match IndexOf(es[..|es| - 1], name)
      case Some(i) => Some(i)
      case None => if NameOf(es[|es| - 1]) == name then Some(|es| - 1) else None
  }

  /** It is the first member with the name. */
  lemma {:induction false} IndexOfIsFirst(es: seq<Entry>, name: seq<byte>)
    ensures match IndexOf(es, name)
            case Some(i) => NameOf(es[i]) == name && forall j :: 0 <= j < i ==> NameOf(es[j]) != name
            case None => forall j :: 0 <= j < |es| ==> NameOf(es[j]) != name
    decreases |es|
  {
    hide NameOf;
    if es != [] {
      var rest := es[..|es| - 1];
      IndexOfIsFirst(rest, name);
      assert forall j :: 0 <= j < |rest| ==> rest[j] == es[j];
    }
  }

  /** Where members are inserted among those kept; the key has to be one of them. */
  function Cut(kept: seq<Entry>, mode: Mode): (r: Option<nat>)
    ensures r.Some? ==> r.value <= |kept|
  {
    match mode
    case AtEnd => Some(|kept|)
    case Before(key) => IndexOf(kept, Rname(key))
    case After(key) => match IndexOf(kept, Rname(key)) case None => None case Some(i) => Some(i + 1)
  }

  /** The selected members together, before or after the key or at the end; nothing if there is no key. */
  function Moved(es: seq<Entry>, argv: seq<Path>, mode: Mode): Option<seq<Entry>> {
    var s := Select(es, argv);
    match Cut(s.kept, mode)
    case None => None
    case Some(i) => Some(s.kept[..i] + s.selected + s.kept[i..])
  }

  /** Moving rearranges the members. */
  lemma {:induction false} MovedIsPermutation(es: seq<Entry>, argv: seq<Path>, mode: Mode)
    requires Moved(es, argv, mode).Some?
    ensures multiset(Moved(es, argv, mode).value) == multiset(es)
  {
    hide Select, Cut;
    var s := Select(es, argv);
    var i := Cut(s.kept, mode).value;
    SelectSplits(es, argv);
    InterleavedMembers(es, s.kept, s.selected);
    assert s.kept == s.kept[..i] + s.kept[i..];
  }

  // ----- replacing -----

  /** The files that can be opened, by path. */
  type Disk = Path -> Option<DiskFile>

  /**
   The members with the named ones swapped in place, which of them were named,
   the arguments left, and whether one of the others could not be opened.
   */
  datatype Swapping = Swapping(entries: seq<Entry>, named: seq<bool>, argv: seq<Path>, failed: bool)

  /** A member that is named is replaced by the file, or kept if that cannot be opened. */
  function Swapped(es: seq<Entry>, argv: seq<Path>, disk: Disk): (s: Swapping)
    ensures |s.entries| == |s.named| == |es|
  {
    if es == [] then Swapping([], [], argv, false)
    else
      var s, e := Swapped(es[..|es| - 1], argv, disk), es[|es| - 1];
      match Match(s.argv, NameOf(e))
      case None => Swapping(s.entries + [e], s.named + [false], s.argv, s.failed)
      case Some(i) =>
        var f := disk(s.argv[i]);
        Swapping(s.entries + [if f.Some? then NewEntry(f.value) else e], s.named + [true], Without(s.argv, i),
                 s.failed || f.None?)
  }

  /** The arguments that are files, in order. */
  function Added(argv: seq<Path>, disk: Disk): seq<Entry> {
    if argv == [] then []
    else
      var f := disk(argv[|argv| - 1]);
      Added(argv[..|argv| - 1], disk) + if f.Some? then [NewEntry(f.value)] else []
  }

  /** The first member with the name of the key that is not itself named by an argument. */
  function KeyIndex(es: seq<Entry>, named: seq<bool>, name: seq<byte>): (r: Option<nat>)
    requires |es| == |named|
    ensures r.Some? ==> r.value < |es|
  {
    if es == [] then None
    else
      var n := |es| - 1;
      match KeyIndex(es[..n], named[..n], name)
      case Some(i) => Some(i)
      case None => if NameOf(es[n]) == name && !named[n] then Some(n) else None
  }

  lemma {:induction false} KeyIndexIsFirst(es: seq<Entry>, named: seq<bool>, name: seq<byte>)
    requires |es| == |named|
    ensures match KeyIndex(es, named, name)
            case Some(i) => NameOf(es[i]) == name && !named[i] && forall j :: 0 <= j < i ==> NameOf(es[j]) != name || named[j]
            case None => forall j :: 0 <= j < |es| ==> NameOf(es[j]) != name || named[j]
    decreases |es|
  {
    hide NameOf;
    if es != [] {
      var n := |es| - 1;
      var rest, flags := es[..n], named[..n];
      KeyIndexIsFirst(rest, flags, name);
      assert forall j :: 0 <= j < n ==> rest[j] == es[j] && flags[j] == named[j];
    }
  }

  function Place(es: seq<Entry>, named: seq<bool>, mode: Mode): (r: Option<nat>)
    requires |es| == |named|
    ensures r.Some? ==> r.value <= |es|
  {
    match mode
    case AtEnd => Some(|es|)
    case Before(key) => KeyIndex(es, named, Rname(key))
    case After(key) => match KeyIndex(es, named, Rname(key)) case None => None case Some(i) => Some(i + 1)
  }

  /** The archive after replacing: files that replaced nothing go next to the key, or to the end. */
  function Replaced(es: seq<Entry>, argv: seq<Path>, disk: Disk, mode: Mode): Option<seq<Entry>> {
    var s := Swapped(es, argv, disk);
    match Place(es, s.named, mode)
    case None => None
    case Some(i) => Some(s.entries[..i] + Added(s.argv, disk) + s.entries[i..])
  }

  /** Replacing and selecting agree on which members the arguments name and which arguments are left. */
  lemma {:induction false} SwappedAndSelected(es: seq<Entry>, argv: seq<Path>, disk: Disk)
    ensures var s := Swapped(es, argv, disk);
            && s.argv == Select(es, argv).argv
            && forall i :: 0 <= i < |es| && !s.named[i] ==> s.entries[i] == es[i]
    decreases |es|
  {
    hide NameOf, Match, NewEntry;
    if es != [] { SwappedAndSelected(es[..|es| - 1], argv, disk); }
  }

  /** Some of the files cannot be opened. */
  predicate SomeMissing(disk: Disk, argv: seq<Path>) { exists i :: 0 <= i < |argv| && disk(argv[i]).None? }

  lemma {:induction false} WithoutMissing(disk: Disk, argv: seq<Path>, i: nat)
    requires i < |argv|
    ensures SomeMissing(disk, argv) <==> SomeMissing(disk, Without(argv, i)) || disk(argv[i]).None?
  {
    var w := Without(argv, i);
    forall j | 0 <= j < |argv| && j != i ensures argv[j] == w[if j < i then j else j - 1] {
    }
    forall j | 0 <= j < |w| ensures w[j] == argv[if j < i then j else j + 1] {
    }
  }

  /** Every argument is tried once, in place of a member or at the end. */
  lemma {:induction false} EveryFileTried(es: seq<Entry>, argv: seq<Path>, disk: Disk)
    ensures var s := Swapped(es, argv, disk);
            s.failed || SomeMissing(disk, s.argv) <==> SomeMissing(disk, argv)
    decreases |es|
  {
    hide NameOf, NewEntry, SomeMissing, Without;
    if es != [] {
      var rest := es[..|es| - 1];
      EveryFileTried(rest, argv, disk);
      var left := Swapped(rest, argv, disk).argv;
      var i := Match(left, NameOf(es[|es| - 1]));
      if i.Some? { WithoutMissing(disk, left, i.value); }
    }
  }

  /** Files as they are found: under their own paths, with C strings for names, and readable once archived. */
  predicate Sound(disk: Disk, p: Path) {
    disk(p).Some? ==>
      var f := disk(p).value;
      f.path == p && 0 !in Rname(p) && |Rname(p)| < MAXNAMLEN && Readable(NewEntry(f))
  }

  predicate AllSound(disk: Disk, argv: seq<Path>) { forall i :: 0 <= i < |argv| ==> Sound(disk, argv[i]) }

  /** Arguments that are left are arguments. */
  lemma {:induction false} LeftSound(es: seq<Entry>, argv: seq<Path>, disk: Disk)
    requires AllSound(disk, argv)
    ensures AllSound(disk, Swapped(es, argv, disk).argv)
    decreases |es|
  {
    hide NameOf, NewEntry, Sound, Match;
    if es != [] {
      var rest := es[..|es| - 1];
      LeftSound(rest, argv, disk);
      var left := Swapped(rest, argv, disk).argv;
      var i := Match(left, NameOf(es[|es| - 1]));
      if i.Some? { WithoutSound(disk, left, i.value) by { MatchInside(left, NameOf(es[|es| - 1])); } }
    }
  }

  lemma {:induction false} MatchInside(argv: seq<Path>, name: seq<byte>)
    ensures Match(argv, name).Some? ==> Match(argv, name).value < |argv|
  {
  }

  lemma {:induction false} WithoutSound(disk: Disk, argv: seq<Path>, i: nat)
    requires i < |argv| && AllSound(disk, argv)
    ensures AllSound(disk, Without(argv, i))
  {
    hide Sound;
    forall j | 0 <= j < |argv| - 1 ensures Sound(disk, Without(argv, i)[j]) {
      assert Without(argv, i)[j] == if j < i then argv[j] else argv[j + 1];
    }
  }

  /** Swapping in place changes no name: a member is only replaced by a file of the same name. */
  lemma {:induction false} SwappedNames(es: seq<Entry>, argv: seq<Path>, disk: Disk)
    requires AllSound(disk, argv)
    ensures var s := Swapped(es, argv, disk); forall i :: 0 <= i < |es| ==> NameOf(s.entries[i]) == NameOf(es[i])
    decreases |es|
  {
    hide NameOf, NewEntry, Rname, Readable;
    if es != [] {
      var e, rest := es[|es| - 1], es[..|es| - 1];
      SwappedNames(rest, argv, disk);
      LeftSound(rest, argv, disk);
      var s := Swapped(rest, argv, disk);
      var i := Match(s.argv, NameOf(e));
      if i.Some? && disk(s.argv[i.value]).Some? {
        assert Sound(disk, s.argv[i.value]);
        NewReadBack(disk(s.argv[i.value]).value);
      }
      assert forall j :: 0 <= j < |rest| ==> rest[j] == es[j];
    }
  }

  /** Members as they are read: readable, except for one that is cut off. */
  predicate AllGenuine(es: seq<Entry>) { forall i :: 0 <= i < |es| ==> es[i].whole ==> Readable(es[i]) }

  /** The list left by replacing is readable, provided the files added are and nothing in it is cut off. */
  lemma {:induction false} ReplacedReadable(es: seq<Entry>, argv: seq<Path>, disk: Disk, mode: Mode)
    requires AllGenuine(es) && AllSound(disk, argv) && Replaced(es, argv, disk, mode).Some?
    requires AllWritable(Replaced(es, argv, disk, mode).value)
    ensures AllReadable(Replaced(es, argv, disk, mode).value)
  {
    hide NewEntry, Rname, Readable, Swapped, Added, Place;
    var s := Swapped(es, argv, disk);
    SwappedGenuine(es, argv, disk);
    LeftSound(es, argv, disk);
    AddedReadable(s.argv, disk);
    var result := Replaced(es, argv, disk, mode).value;
    forall i | 0 <= i < |result| ensures Readable(result[i]) { assert Writable(result[i]); }
  }

  lemma {:induction false} SwappedGenuine(es: seq<Entry>, argv: seq<Path>, disk: Disk)
    requires AllGenuine(es) && AllSound(disk, argv)
    ensures AllGenuine(Swapped(es, argv, disk).entries)
    decreases |es|
  {
    hide NameOf, NewEntry, Rname, Readable;
    if es != [] {
      var e, rest := es[|es| - 1], es[..|es| - 1];
      SwappedGenuine(rest, argv, disk);
      LeftSound(rest, argv, disk);
      var s := Swapped(rest, argv, disk);
      var i := Match(s.argv, NameOf(e));
      if i.Some? { assert Sound(disk, s.argv[i.value]); }
    }
  }

  lemma {:induction false} AddedReadable(argv: seq<Path>, disk: Disk)
    requires AllSound(disk, argv)
    ensures AllReadable(Added(argv, disk))
    decreases |argv|
  {
    hide NewEntry, Rname, Readable;
    if argv != [] {
      AddedReadable(argv[..|argv| - 1], disk);
      assert Sound(disk, argv[|argv| - 1]);
    }
  }

  /** Selected and kept members are members. */
  lemma {:induction false} SelectGenuine(es: seq<Entry>, argv: seq<Path>)
    requires AllGenuine(es)
    ensures AllGenuine(Select(es, argv).kept) && AllGenuine(Select(es, argv).selected)
    decreases |es|
  {
    hide NameOf, Match, Consumed, Readable;
    if es != [] { SelectGenuine(es[..|es| - 1], argv); }
  }

  lemma {:induction false} GenuineWritable(es: seq<Entry>)
    requires AllGenuine(es) && AllWritable(es)
    ensures AllReadable(es)
  {
    hide Readable;
    forall i | 0 <= i < |es| ensures Readable(es[i]) { assert Writable(es[i]); }
  }
}
