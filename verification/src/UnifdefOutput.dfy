/**
 What reaches the output file: the lines judged to be kept, or under -c those
 judged to be dropped, and from there what the output means.
 */
module UnifdefOutput {
  import opened Wrappers
  import opened Conditional
  import opened UnifdefTable
  import opened UnifdefFlush
  import M = UnifdefMeaning

  /** The lines among what is written. */
  function Texts<C>(items: seq<Item<C>>): seq<Line<C>> {
    if items == [] then []
    else (if items[0].Text? then [items[0].line] else []) + Texts(items[1..])
  }

  /** The lines judged to be dropped, as edited. */
  function Dropped<C>(verdicts: seq<Verdict<C>>): seq<Line<C>> {
    if verdicts == [] then []
    else (if verdicts[0].keep then [] else [verdicts[0].line]) + Dropped(verdicts[1..])
  }

  lemma {:induction false} TextsAppend<C>(a: seq<Item<C>>, b: seq<Item<C>>)
    ensures Texts(a + b) == Texts(a) + Texts(b)
    decreases |a|
  {
    if a == [] {
      assert a + b == b;
    } else {
      var head := if a[0].Text? then [a[0].line] else [];
      assert (a + b)[0] == a[0] && (a + b)[1..] == a[1..] + b;
      TextsAppend(a[1..], b);
      assert Texts(a + b) == head + Texts(a[1..] + b);
      Regroup(head, Texts(a[1..]), Texts(b));
    }
  }

  lemma {:induction false} Regroup<C>(a: seq<Line<C>>, b: seq<Line<C>>, c: seq<Line<C>>)
    ensures a + (b + c) == (a + b) + c
  {
  }

  /** Without -B and -s the lines written are the kept ones, and with -c the dropped ones. */
  lemma {:induction false} WritesKept<C>(o: Options, k: Counters, num: int, vs: seq<Verdict<C>>)
    requires !o.compblank && !o.symlist
    ensures Texts(FlushAll(o, k, num, vs)) == if o.complement then Dropped(vs) else M.Kept(vs)
    ensures !o.lnblank && !o.lnnum ==> |FlushAll(o, k, num, vs)| == |Texts(FlushAll(o, k, num, vs))|
    decreases |vs|
  {
    if vs != [] {
      var (k', out) := FlushOne(o, k, num, vs[0]);
      WritesKept(o, k', num + 1, vs[1..]);
      TextsAppend(out, FlushAll(o, k', num + 1, vs[1..]));
      OneText(o, k, num, vs[0]);
    }
  }

  lemma {:induction false} OneText<C>(o: Options, k: Counters, num: int, v: Verdict<C>)
    requires !o.compblank && !o.symlist
    ensures var out := FlushOne(o, k, num, v).1;
            && Texts(out) == (if v.keep != o.complement then [v.line] else [])
            && (!o.lnblank && !o.lnnum ==> |out| == |Texts(out)|)
  {
    var out := FlushOne(o, k, num, v).1;
    TextsAppend([Marker(num)], [Text(v.line)]);
    assert [Text(v.line)][1..] == [] && [Marker(num)] + [Text(v.line)] == [Marker(num), Text(v.line)];
  }

  // ----- blank lines and #line directives mean nothing -----

  predicate BlankText(text: string) { forall i :: 0 <= i < |text| ==> White(text[i]) }

  function NonBlank(texts: seq<string>): seq<string> {
    if texts == [] then [] else (if BlankText(texts[0]) then [] else [texts[0]]) + NonBlank(texts[1..])
  }

  /** The output file read as lines; #line directives are left out, and an emptied line is a blank one. */
  function AsLines<C>(items: seq<Item<C>>): seq<Line<C>> {
    if items == [] then []
    else (match items[0]
          case Marker(_) => []
          case Text(line) => [line]
          case Empty => [Plain("\n")]) + AsLines(items[1..])
  }

  function WithoutBlank<C>(lines: seq<Line<C>>): seq<Line<C>> {
    if lines == [] then []
    else (if IsBlank(lines[0]) then [] else [lines[0]]) + WithoutBlank(lines[1..])
  }

  function Filtered(texts: Option<seq<string>>): Option<seq<string>> {
    if texts.None? then None else Some(NonBlank(texts.value))
  }

  lemma {:induction false} NonBlankHead(head: seq<string>, rest: seq<string>)
    requires |head| <= 1
    ensures NonBlank(head + rest) == (if head == [] || BlankText(head[0]) then [] else head) + NonBlank(rest)
  {
    if head == [] {
      assert head + rest == rest;
    } else {
      assert (head + rest)[1..] == rest;
    }
  }

  /** What a line contributes to the survivors. */
  function Seen<C>(frames: seq<Frame>, line: Line<C>): seq<string> {
    if line.Plain? && Active(frames) then [line.text] else []
  }

  /** The survivors of a file from those of all but its first line. */
  lemma {:induction false} SurvivorsStep<C>(frames: seq<Frame>, line: Line<C>, rest: seq<Line<C>>, truth: C -> bool)
    ensures var next := Advance(frames, line, truth);
            var after := if next.None? then None else Survivors(next.value, rest, truth);
            Survivors(frames, [line] + rest, truth) == if after.None? then None else Some(Seen(frames, line) + after.value)
  {
    assert ([line] + rest)[1..] == rest;
  }

  lemma {:induction false} WithoutBlankStep<C>(line: Line<C>, rest: seq<Line<C>>)
    ensures WithoutBlank([line] + rest) == (if IsBlank(line) then [] else [line]) + WithoutBlank(rest)
  {
    assert ([line] + rest)[1..] == rest;
  }

  /** Removing the blank lines of a file removes the blank lines among the survivors and changes nothing else. */
  lemma {:induction false} BlankLinesAreInert<C>(frames: seq<Frame>, lines: seq<Line<C>>, truth: C -> bool)
    ensures Survivors(frames, WithoutBlank(lines), truth) == Filtered(Survivors(frames, lines, truth))
    decreases |lines|
  {
    if lines == [] {
    } else {
      hide Survivors, WithoutBlank, Advance, Active;
      var line, rest := lines[0], lines[1..];
      assert lines == [line] + rest;
      SurvivorsStep(frames, line, rest, truth);
      WithoutBlankStep(line, rest);
      var next := Advance(frames, line, truth);
      if next.Some? {
        BlankLinesAreInert(next.value, rest, truth);
        var after := Survivors(next.value, rest, truth);
        if after.Some? { NonBlankHead(Seen(frames, line), after.value); }
      }
      InertHead(frames, line, rest, truth);
    }
  }

  /** The first line's part in it. */
  lemma {:induction false} InertHead<C>(frames: seq<Frame>, line: Line<C>, rest: seq<Line<C>>, truth: C -> bool)
    ensures var less := WithoutBlank(rest);
            var next := Advance(frames, line, truth);
            var after := if next.None? then None else Survivors(next.value, less, truth);
            Survivors(frames, (if IsBlank(line) then [] else [line]) + less, truth)
            == if after.None? then None
               else Some((if line.Plain? && Active(frames) && !BlankText(line.text) then [line.text] else []) + after.value)
  {
    hide Survivors, WithoutBlank;
    var less := WithoutBlank(rest);
    if IsBlank(line) {
      assert [] + less == less;
      var after := Survivors(frames, less, truth);
      if after.Some? { assert [] + after.value == after.value; }
    } else {
      SurvivorsStep(frames, line, less, truth);
    }
  }

  lemma {:induction false} ItemsWithoutBlank<C>(items: seq<Item<C>>)
    ensures WithoutBlank(AsLines(items)) == NonBlankItems(items)
    decreases |items|
  {
    if items != [] {
      ItemsWithoutBlank(items[1..]);
      var rest := AsLines(items[1..]);
      match items[0] {
        case Marker(_) => assert [] + rest == rest;
        case Text(line) => assert ([line] + rest)[1..] == rest;
        case Empty => assert ([Plain("\n")] + rest)[1..] == rest; assert IsBlank<C>(Plain("\n"));
      }
    }
  }

  lemma {:induction false} KeptWithoutBlank<C>(o: Options, vs: seq<Verdict<C>>)
    requires !o.complement
    ensures WithoutBlank(M.Kept(vs)) == NonBlankShown(o, vs)
    decreases |vs|
  {
    if vs != [] {
      KeptWithoutBlank(o, vs[1..]);
      var rest := M.Kept(vs[1..]);
      if vs[0].keep {
        assert ([vs[0].line] + rest)[1..] == rest;
      } else {
        assert M.Kept(vs) == rest;
      }
    }
  }

  lemma {:induction false} TextsAsLines<C>(items: seq<Item<C>>)
    requires |items| == |Texts(items)|
    ensures AsLines(items) == Texts(items)
    decreases |items|
  {
    if items != [] {
      TextsAtMost(items[1..]);
      TextsAsLines(items[1..]);
    }
  }

  lemma {:induction false} TextsAtMost<C>(items: seq<Item<C>>)
    ensures |Texts(items)| <= |items|
    decreases |items|
  {
    if items != [] { TextsAtMost(items[1..]); }
  }

  // ----- what the output means -----

  /** Plain output, without -b, -B, -c, -n and -s. */
  predicate Bare(o: Options) { !o.compblank && !o.lnblank && !o.complement && !o.lnnum && !o.symlist }

  /** The output file of a run. */
  function Output<C>(o: Options, input: seq<Classified<C>>): seq<Line<C>> {
    AsLines(FlushAll(o, Initial, 1, Decide(Start, input, o.iocccok).verdicts))
  }

  /**
   Meaning preservation, on the file that is written: the same lines survive
   its preprocessing as that of the input, with -b, -B and -n up to blank lines.
   */
  lemma {:induction false} OutputMeansInput<C>(o: Options, input: seq<Classified<C>>, truth: C -> bool)
    requires M.AllAgree(input, truth) && Decide(Start, input, o.iocccok).ending.Complete?
    requires !o.complement && !o.symlist
    ensures Survivors([], M.Lines(input), truth).Some?
    ensures Filtered(Survivors([], Output(o, input), truth)) == Filtered(Survivors([], M.Lines(input), truth))
    ensures Bare(o) ==> Survivors([], Output(o, input), truth) == Survivors([], M.Lines(input), truth)
  {
    hide FlushAll, M.Kept, Survivors, Decide, AsLines, Texts;
    var vs := Decide(Start, input, o.iocccok).verdicts;
    var items := FlushAll(o, Initial, 1, vs);
    M.MeaningPreserved(input, truth, o.iocccok);
    NonBlankUntouched(o, Initial, 1, vs);
    ItemsWithoutBlank(items);
    KeptWithoutBlank(o, vs);
    BlankLinesAreInert([], AsLines(items), truth);
    BlankLinesAreInert([], M.Kept(vs), truth);
    if Bare(o) {
      WritesKept(o, Initial, 1, vs);
      TextsAsLines(items);
    }
  }
}
