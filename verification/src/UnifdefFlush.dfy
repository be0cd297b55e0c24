/**
 How unifdef writes lines out: flushline with its -b, -B, -c, -n and -s
 options, and what those options promise about a whole run.
 */
module UnifdefFlush {
  import opened Conditional
  import opened UnifdefTable

  datatype Options = Options(
    compblank: bool,   // -B
    lnblank: bool,     // -b
    complement: bool,  // -c
    iocccok: bool,     // -e
    lnnum: bool,       // -n
    symlist: bool)     // -s

  /** What reaches the output file: a #line directive, a line, or the empty line that stands for a deleted one. */
  datatype Item<+C> = Marker(number: int) | Text(line: Line<C>) | Empty

  datatype Counters = Counters(delcount: nat, blankcount: nat, blankmax: nat)

  predicate White(c: char) { c == ' ' || c == '\t' || c == '\r' || c == '\n' }

  predicate IsBlank<C>(line: Line<C>) {
    line.Plain? && forall i :: 0 <= i < |line.text| ==> White(line.text[i])
  }

  /** flushline on input line number `num`: the counters afterwards and what is written. */
  function FlushOne<C>(o: Options, k: Counters, num: int, v: Verdict<C>): (Counters, seq<Item<C>>) {
    if o.symlist then (k, [])
    else if v.keep != o.complement then
      var blank := IsBlank(v.line);
      if blank && o.compblank && k.blankcount != k.blankmax then
        (Counters(k.delcount + 1, k.blankcount + 1, k.blankmax), [])
      else
        var run := if blank then k.blankcount + 1 else 0;
        (Counters(0, run, run), (if o.lnnum && k.delcount > 0 then [Marker(num)] else []) + [Text(v.line)])
    else
      (Counters(k.delcount + 1, 0, k.blankmax), if o.lnblank then [Empty] else [])
  }

  /** The whole output, for verdicts on the lines from number `num` on. */
  function FlushAll<C>(o: Options, k: Counters, num: int, vs: seq<Verdict<C>>): seq<Item<C>>
    decreases |vs|
  {
    if vs == [] then []
    else
      var (k', out) := FlushOne(o, k, num, vs[0]);
      out + FlushAll(o, k', num + 1, vs[1..])
  }

  /** At the start blank lines count as following 1000 others, all of them written. */
  const Initial := Counters(0, 1000, 1000)

  // ----- every line is accounted for -----

  /** Every line of a completed run gets exactly one verdict. */
  lemma {:induction false} OneVerdictPerLine<C>(levels: seq<Level>, input: seq<Classified<C>>, iocccok: bool)
    requires levels != []
    requires forall i :: 0 <= i < |input| ==> !input[i].lt.Eof?
    requires Decide(levels, input, iocccok).ending.Complete?
    ensures |Decide(levels, input, iocccok).verdicts| == |input|
    decreases |input|
  {
    if input != [] {
      var c := input[0];
      assert !c.lt.Eof?;
      OnlyEofFinishes(levels[|levels| - 1].state, c.lt, iocccok);
      var r := Step(levels, c.line, c.lt, iocccok);
      OneVerdictPerLine(r.levels, input[1..], iocccok);
    }
  }

  /** -b: every line stays at its index; a line shown under -c is exactly one blanked without it. */
  lemma {:induction false} BlankingKeepsPlaces<C>(o: Options, k: Counters, num: int, vs: seq<Verdict<C>>, i: nat)
    requires o.lnblank && !o.compblank && !o.lnnum && !o.symlist
    requires i < |vs|
    ensures |FlushAll(o, k, num, vs)| == |vs|
    ensures FlushAll(o, k, num, vs)[i] == if vs[i].keep != o.complement then Text(vs[i].line) else Empty
    decreases |vs|
  {
    var (k', out) := FlushOne(o, k, num, vs[0]);
    assert |out| == 1;
    if |vs| > 1 {
      BlankingKeepsPlaces(o, k', num + 1, vs[1..], if i > 0 then i - 1 else 0);
    }
  }

  // ----- -n: #line directives -----

  /** The line numbers a reader gives to output lines when it obeys #line directives. */
  function Numbered<C>(items: seq<Item<C>>, next: int): seq<(Item<C>, int)>
    decreases |items|
  {
    if items == [] then []
    else if items[0].Marker? then Numbered(items[1..], items[0].number)
    else [(items[0], next)] + Numbered(items[1..], next + 1)
  }

  /** An output line carries the number of the input line it came from. */
  ghost predicate Faithful<C>(o: Options, vs: seq<Verdict<C>>, num: int, item: Item<C>, at: int) {
    && num <= at < num + |vs|
    && (if vs[at - num].keep != o.complement then item == Text(vs[at - num].line) else item == Empty)
  }

  lemma {:induction false} NumberedFrom<C>(o: Options, k: Counters, num: int, next: int, vs: seq<Verdict<C>>, j: nat)
    requires o.lnnum && !o.symlist && !(o.compblank && o.lnblank)
    requires k.delcount == 0 || o.lnblank ==> next == num
    requires j < |Numbered(FlushAll(o, k, num, vs), next)|
    ensures var (item, at) := Numbered(FlushAll(o, k, num, vs), next)[j];
            Faithful(o, vs, num, item, at)
    decreases |vs|
  {
    if vs != [] {
      hide IsBlank;
      var (k', out) := FlushOne(o, k, num, vs[0]);
      var rest := FlushAll(o, k', num + 1, vs[1..]);
      NumberedAppend(out, rest, next);
      var head := Numbered(out, next);
      NumberedLine(vs[0].line, num, next);
      if j >= |head| {
        NumberedFrom(o, k', num + 1, NumberAfter(out, next), vs[1..], j - |head|);
      }
    }
  }

  /** What the reader makes of what flushline writes for one line. */
  lemma {:induction false} NumberedLine<C>(line: Line<C>, num: int, next: int)
    ensures var out := [Marker(num)] + [Text(line)]; Numbered(out, next) == [(Text(line), num)] && NumberAfter(out, next) == num + 1
    ensures var out := [] + [Text(line)]; Numbered(out, next) == [(Text(line), next)] && NumberAfter(out, next) == next + 1
    ensures var out: seq<Item<C>> := [Empty]; Numbered(out, next) == [(Empty, next)] && NumberAfter(out, next) == next + 1
  {
    var out := [Marker(num)] + [Text(line)];
    assert out[1..] == [Text(line)];
    assert Numbered(out, next) == Numbered([Text(line)], num);
    assert NumberAfter(out, next) == NumberAfter([Text(line)], num);
  }

  function NumberAfter<C>(items: seq<Item<C>>, next: int): int
    decreases |items|
  {
    if items == [] then next
    else NumberAfter(items[1..], if items[0].Marker? then items[0].number else next + 1)
  }

  lemma {:induction false} NumberedAppend<C>(a: seq<Item<C>>, b: seq<Item<C>>, next: int)
    ensures Numbered(a + b, next) == Numbered(a, next) + Numbered(b, NumberAfter(a, next))
    decreases |a|
  {
    if a == [] {
      assert a + b == b;
    } else {
      assert (a + b)[1..] == a[1..] + b;
      NumberedAppend(a[1..], b, if a[0].Marker? then a[0].number else next + 1);
    }
  }

  /** -n: a reader that follows the #line directives recovers every line's original number. */
  lemma {:induction false} NumbersRecovered<C>(o: Options, vs: seq<Verdict<C>>, j: nat)
    requires o.lnnum && !o.symlist && !(o.compblank && o.lnblank)
    requires j < |Numbered(FlushAll(o, Initial, 1, vs), 1)|
    ensures var (item, at) := Numbered(FlushAll(o, Initial, 1, vs), 1)[j];
            Faithful(o, vs, 1, item, at)
  {
    NumberedFrom(o, Initial, 1, 1, vs, j);
  }

  // ----- -B: compressed blank lines -----

  predicate Shown<C>(o: Options, v: Verdict<C>) { v.keep != o.complement }

  /** Only blank lines and deleted lines. */
  predicate OnlyBlanks<C>(o: Options, vs: seq<Verdict<C>>) {
    forall i :: 0 <= i < |vs| ==> Shown(o, vs[i]) ==> IsBlank(vs[i].line)
  }

  /** The longest run of shown lines between deletions, the first run being `run` lines long already. */
  function LongestRun<C>(o: Options, run: nat, vs: seq<Verdict<C>>): (n: nat)
    ensures n >= run
    decreases |vs|
  {
    if vs == [] then run
    else if Shown(o, vs[0]) then LongestRun(o, run + 1, vs[1..])
    else
      var rest := LongestRun(o, 0, vs[1..]);
      if rest > run then rest else run
  }

  function CountText<C>(items: seq<Item<C>>): nat {
    if items == [] then 0 else (if items[0].Text? then 1 else 0) + CountText(items[1..])
  }

  lemma {:induction false} CountAppend<C>(a: seq<Item<C>>, b: seq<Item<C>>)
    ensures CountText(a + b) == CountText(a) + CountText(b)
    decreases |a|
  {
    if a == [] {
      assert a + b == b;
    } else {
      assert (a + b)[1..] == a[1..] + b;
      CountAppend(a[1..], b);
    }
  }

  /** The counters after a stretch of lines. */
  function After<C>(o: Options, k: Counters, num: int, vs: seq<Verdict<C>>): Counters
    decreases |vs|
  {
    if vs == [] then k else After(o, FlushOne(o, k, num, vs[0]).0, num + 1, vs[1..])
  }

  lemma {:induction false} FlushAppend<C>(o: Options, k: Counters, num: int, a: seq<Verdict<C>>, b: seq<Verdict<C>>)
    ensures FlushAll(o, k, num, a + b) == FlushAll(o, k, num, a) + FlushAll(o, After(o, k, num, a), num + |a|, b)
    ensures After(o, k, num, a + b) == After(o, After(o, k, num, a), num + |a|, b)
    decreases |a|
  {
    if a == [] {
      assert a + b == b;
    } else {
      assert (a + b)[1..] == a[1..] + b;
      FlushAppend(o, FlushOne(o, k, num, a[0]).0, num + 1, a[1..], b);
    }
  }

  lemma {:induction false} BlankRuns<C>(o: Options, k: Counters, num: int, vs: seq<Verdict<C>>)
    requires o.compblank && !o.symlist && OnlyBlanks(o, vs) && k.blankcount <= k.blankmax
    ensures var longest := LongestRun(o, k.blankcount, vs);
            k.blankmax + CountText(FlushAll(o, k, num, vs)) == if longest > k.blankmax then longest else k.blankmax
    decreases |vs|
  {
    if vs != [] {
      var (k', out) := FlushOne(o, k, num, vs[0]);
      assert Shown(o, vs[0]) ==> IsBlank(vs[0].line);
      BlankRuns(o, k', num + 1, vs[1..]);
      CountAppend(out, FlushAll(o, k', num + 1, vs[1..]));
    }
  }

  /**
   -B: between two shown lines that are not blank, as many blank lines are written
   as the longest run between deletions has. Before the first such line, a run
   after a deletion counts only for what it has beyond 1000 lines.
   */
  lemma {:induction false} BlankCompression<C>(o: Options, pre: seq<Verdict<C>>, w: Verdict<C>, gap: seq<Verdict<C>>, post: seq<Verdict<C>>)
    requires o.compblank && !o.symlist && OnlyBlanks(o, gap)
    requires Shown(o, w) && !IsBlank(w.line)
    ensures var num := |pre| + 2;
            var written := FlushAll(o, Counters(0, 0, 0), num, gap);
            && FlushAll(o, Initial, 1, pre + [w] + gap + post) ==
               FlushAll(o, Initial, 1, pre + [w]) + written
               + FlushAll(o, After(o, Counters(0, 0, 0), num, gap), num + |gap|, post)
            && CountText(written) == LongestRun(o, 0, gap)
    ensures var atStart, longest := CountText(FlushAll(o, Initial, 1, gap)), LongestRun(o, 1000, gap);
            atStart == longest - 1000
  {
    FlushAppend(o, Initial, 1, pre, [w]);
    var k := After(o, Initial, 1, pre);
    assert [w][1..] == [];
    assert After(o, k, 1 + |pre|, [w]) == FlushOne(o, k, 1 + |pre|, w).0 == Counters(0, 0, 0);
    FlushAppend(o, Initial, 1, pre + [w], gap + post);
    assert pre + [w] + gap + post == (pre + [w]) + (gap + post);
    FlushAppend(o, Counters(0, 0, 0), |pre| + 2, gap, post);
    BlankRuns(o, Counters(0, 0, 0), |pre| + 2, gap);
    BlankRuns(o, Initial, 1, gap);
  }

  function NonBlankItems<C>(items: seq<Item<C>>): seq<Line<C>> {
    if items == [] then []
    else (if items[0].Text? && !IsBlank(items[0].line) then [items[0].line] else []) + NonBlankItems(items[1..])
  }

  function NonBlankShown<C>(o: Options, vs: seq<Verdict<C>>): seq<Line<C>> {
    if vs == [] then []
    else (if Shown(o, vs[0]) && !IsBlank(vs[0].line) then [vs[0].line] else []) + NonBlankShown(o, vs[1..])
  }

  lemma {:induction false} NonBlankAppend<C>(a: seq<Item<C>>, b: seq<Item<C>>)
    ensures NonBlankItems(a + b) == NonBlankItems(a) + NonBlankItems(b)
    decreases |a|
  {
    if a == [] {
      assert a + b == b;
    } else {
      assert (a + b)[1..] == a[1..] + b;
      NonBlankAppend(a[1..], b);
    }
  }

  /** No option ever alters, adds, drops or reorders the lines that are shown and not blank. */
  lemma {:induction false} NonBlankUntouched<C>(o: Options, k: Counters, num: int, vs: seq<Verdict<C>>)
    requires !o.symlist
    ensures NonBlankItems(FlushAll(o, k, num, vs)) == NonBlankShown(o, vs)
    decreases |vs|
  {
    if vs != [] {
      var (k', out) := FlushOne(o, k, num, vs[0]);
      NonBlankUntouched(o, k', num + 1, vs[1..]);
      NonBlankAppend(out, FlushAll(o, k', num + 1, vs[1..]));
      assert forall i :: 0 <= i < |out| && out[i].Text? ==> out[i].line == vs[0].line;
    }
  }
}
