/** `getImportContents`: the line-by-line scan that collects import fragments
    and turns them into symbols.

    The scan is specified as a fold of `Step` over the lines (`Run`); the method
    `GetImportContents` is the loop of `getImportContents` in `src/index.ts`,
    proved to compute that fold.
    The fragments are kept as a tagged union: a `Captured` fragment is the
    capture of `reg` on an import line and is cleaned by `removeParentheses`,
    a `Raw` fragment is the accumulator pushed as it stands. */
module Extractor {
  import opened Wrappers
  import opened JsString
  import opened Patterns
  import opened Text

  datatype Fragment = Captured(capture: string) | Raw(accumulated: string)

  /** The string `getImportContents` pushes onto `list` for a fragment. */
  function FragmentText(f: Fragment): string
  {
    match f
    case Captured(c) => RemoveParentheses(c)
    case Raw(a) => a
  }

  /** `list` as the strings pushed for the fragments. */
  function Texts(fs: seq<Fragment>): seq<string>
  {
    seq(|fs|, k requires 0 <= k < |fs| => FragmentText(fs[k]))
  }

  /** The scan's variables: the pushed fragments (`list`), the accumulator
      (`str`) and the continuation flag (`state`). */
  datatype ScanState = ScanState(fragments: seq<Fragment>, acc: string, cont: bool)

  const START := ScanState([], "", true)

  /** One iteration of the `forEach` body; `None` when `reg` finds no match on
      an import line that passes the filter, where `removeParentheses(undefined)`
      throws. */
  function Step(st: ScanState, line: string, packageName: Option<string>): Option<ScanState>
  {
    if Contains(line, IMPORT) then
      if IncludesPackageName(line, packageName) then
        match Capture(line)
        case None => None
        case Some(c) => Some(ScanState(st.fragments + [Captured(c)], st.acc, false))
      else
        Some(ScanState(st.fragments, st.acc + line, true))
    else
      var flushed :=
        if IncludesPackageName(line, packageName)
        then ScanState(st.fragments + [Raw(st.acc)], "", false)
        else st;
      var acc := if Contains(flushed.acc, IMPORT) then "" else flushed.acc;
      if flushed.cont then Some(ScanState(flushed.fragments, acc + line, false))
      else Some(ScanState(flushed.fragments, acc, false))
  }

  /** The state after scanning `lines` from the start, or `None` if the scan threw. */
  function Run(lines: seq<string>, packageName: Option<string>): Option<ScanState>
    decreases |lines|
  {
    if |lines| == 0 then Some(START)
    else
      match Run(lines[..|lines| - 1], packageName)
      case None => None
      case Some(st) => Step(st, lines[|lines| - 1], packageName)
  }

  /** `parts.map(trim)`. */
  function TrimAll(parts: seq<string>): seq<string>
  {
    Map(Trim, parts)
  }

  /** `map(trim)` keeps the length and trims each piece in its place. */
  lemma TrimAllAt(parts: seq<string>)
    ensures |TrimAll(parts)| == |parts|
    ensures forall k :: 0 <= k < |parts| ==> TrimAll(parts)[k] == Trim(parts[k])
  {
    MapAt(Trim, parts);
  }

  /** `fragment.split(',').map(trim)`. */
  function SplitTrim(fragment: string): (r: seq<string>)
    ensures |r| == Count(fragment, ",") + 1
    ensures forall x :: x in r ==> ',' !in x
    ensures forall x :: x in r ==> Trimmed(x)
  {
    var parts := Split(fragment, ",");
    SplitLength(fragment, ",");
    var r := TrimAll(parts);
    TrimAllAt(parts);
    assert forall k :: 0 <= k < |parts| ==> ',' !in r[k] by {
      forall k | 0 <= k < |parts| ensures ',' !in r[k] {
        assert parts[k] in parts;
        ContainsChar(parts[k], ',');
        TrimKeepsOut(parts[k], ',');
      }
    }
    r
  }

  lemma SplitTrimByParts(fragment: string)
    ensures SplitTrim(fragment) == TrimAll(Split(fragment, ","))
  {
  }

  lemma TrimAllCons(a: string, parts: seq<string>)
    ensures TrimAll([a] + parts) == [Trim(a)] + TrimAll(parts)
  {
    assert ([a] + parts)[1..] == parts;
  }

  /** Each comma ends one trimmed piece. */
  lemma SplitTrimAtComma(a: string, b: string)
    requires ',' !in a
    ensures SplitTrim(a + "," + b) == [Trim(a)] + SplitTrim(b)
  {
    SplitAtFirst(a, ',', b);
    SplitTrimByParts(a + "," + b);
    SplitTrimByParts(b);
    TrimAllCons(a, Split(b, ","));
  }

  /** Without a comma the fragment is one trimmed piece. */
  lemma SplitTrimNoComma(b: string)
    requires ',' !in b
    ensures SplitTrim(b) == [Trim(b)]
  {
    MissingCharacter(b, ",", 0);
    SplitWithoutSeparator(b, ",");
    SplitTrimByParts(b);
    TrimAllCons(b, []);
    assert [b] + [] == [b];
  }

  /** `list.map(str => str?.split(',').map(trim)).flat()`. */
  function Symbols(list: seq<string>): (r: seq<string>)
    ensures |r| >= |list|
    ensures forall x :: x in r ==> ',' !in x
    decreases |list|
  {
    if |list| == 0 then [] else SplitTrim(list[0]) + Symbols(list[1..])
  }

  /** What `getImportContents(file, packageName)` returns, or `None` when it throws. */
  function ImportContents(file: string, packageName: Option<string>): Option<seq<string>>
  {
    match Run(GetFileLines(file), packageName)
    case None => None
    case Some(st) => Some(Symbols(Texts(st.fragments)))
  }

  /** `getImportContents(file, packageName)`: the scan of the file's lines,
      then the split into symbols. */
  method GetImportContents(file: string, packageName: Option<string>) returns (r: Option<seq<string>>)
    ensures r == ImportContents(file, packageName)
  {
    var lines := GetFileLines(file);
    var list := ScanLines(lines, packageName);
    if list.None? {
      return None;
    }
    return Some(Symbols(list.value));
  }

  /** The `forEach` over the lines: the strings pushed onto `list`, or `None`
      where `getImportContents` throws. */
  method ScanLines(lines: seq<string>, packageName: Option<string>) returns (r: Option<seq<string>>)
    ensures r == match Run(lines, packageName)
                 case None => None
                 case Some(st) => Some(Texts(st.fragments))
  {
    var list: seq<string> := [];
    var str := "";
    var state := true;
    ghost var fragments: seq<Fragment> := [];
    var i := 0;
    RunNone(lines, packageName);
    while i < |lines|
      invariant i <= |lines|
      invariant Run(lines[..i], packageName) == Some(ScanState(fragments, str, state))
      invariant list == Texts(fragments)
    {
      RunNext(lines, i, packageName, ScanState(fragments, str, state));
      var ok;
      ok, list, str, state, fragments := ScanLine(list, str, state, fragments, lines[i], packageName);
      if !ok {
        RunStaysFailed(lines, packageName, i + 1);
        return None;
      }
      i := i + 1;
    }
    RunAll(lines, packageName);
    return Some(list);
  }

  lemma RunNone(lines: seq<string>, packageName: Option<string>)
    ensures Run(lines[..0], packageName) == Some(START)
  {
    assert lines[..0] == [];
  }

  lemma RunAll(lines: seq<string>, packageName: Option<string>)
    ensures Run(lines[..|lines|], packageName) == Run(lines, packageName)
  {
    assert lines[..|lines|] == lines;
  }

  /** The body of the `forEach` for one line `item`; `ok` is false where
      `getImportContents` throws. */
  method ScanLine(list: seq<string>, str: string, state: bool, ghost fragments: seq<Fragment>,
                  item: string, packageName: Option<string>)
    returns (ok: bool, list': seq<string>, str': string, state': bool, ghost fragments': seq<Fragment>)
    requires list == Texts(fragments)
    ensures ok <==> Step(ScanState(fragments, str, state), item, packageName).Some?
    ensures ok ==> Step(ScanState(fragments, str, state), item, packageName)
                   == Some(ScanState(fragments', str', state'))
    ensures ok ==> list' == Texts(fragments')
  {
    ok, list', str', state', fragments' := true, list, str, state, fragments;
    if Contains(item, IMPORT) {
      state' := true;
      if IncludesPackageName(item, packageName) {
        var captured := Capture(item);
        if captured.None? {
          ok := false;
          return;
        }
        TextsAppend(fragments, Captured(captured.value));
        list' := list' + [RemoveParentheses(captured.value)];
        fragments' := fragments' + [Captured(captured.value)];
        state' := false;
      } else {
        str' := str' + item;
      }
    } else {
      if IncludesPackageName(item, packageName) {
        TextsAppend(fragments, Raw(str));
        list' := list' + [str'];
        fragments' := fragments' + [Raw(str')];
        str' := "";
        state' := false;
      }
      if Contains(str', IMPORT) {
        str' := "";
      }
      if state' {
        str' := str' + item;
        state' := false;
      }
    }
  }

  // ---------------------------------------------------------------------------
  // What the scan does

  /** An import line that passes the filter and that `reg` matches pushes its
      capture and clears the flag; the accumulator is left as it was. */
  lemma StepPushesCapture(st: ScanState, line: string, packageName: Option<string>, c: string)
    requires Contains(line, IMPORT) && IncludesPackageName(line, packageName)
    requires Capture(line) == Some(c)
    ensures Step(st, line, packageName) == Some(ScanState(st.fragments + [Captured(c)], st.acc, false))
  {
  }

  /** Scanning one more line is one more step. */
  lemma RunSnoc(lines: seq<string>, line: string, packageName: Option<string>, st: ScanState)
    requires Run(lines, packageName) == Some(st)
    ensures Run(lines + [line], packageName) == Step(st, line, packageName)
  {
    assert (lines + [line])[..|lines|] == lines;
  }

  /** `RunSnoc` for the prefixes of one file, the form the loop of `ScanLines` needs. */
  lemma RunNext(lines: seq<string>, i: nat, packageName: Option<string>, st: ScanState)
    requires i < |lines| && Run(lines[..i], packageName) == Some(st)
    ensures Run(lines[..i + 1], packageName) == Step(st, lines[i], packageName)
  {
    assert lines[..i + 1][..i] == lines[..i];
  }

  /** An import line that fails the filter is appended to the accumulator and sets the flag. */
  lemma StepAccumulatesImport(st: ScanState, line: string, packageName: Option<string>)
    requires Contains(line, IMPORT) && !IncludesPackageName(line, packageName)
    ensures Step(st, line, packageName) == Some(ScanState(st.fragments, st.acc + line, true))
  {
  }

  /** Any other line that passes the filter pushes the accumulator as it
      stands and leaves it empty, with the flag cleared. */
  lemma StepFlushesAccumulator(st: ScanState, line: string, packageName: Option<string>)
    requires !Contains(line, IMPORT) && IncludesPackageName(line, packageName)
    ensures Step(st, line, packageName) == Some(ScanState(st.fragments + [Raw(st.acc)], "", false))
  {
    assert !Contains("", IMPORT);
  }

  /** A file without a line feed is scanned in a single step. */
  lemma SingleLineScan(file: string, packageName: Option<string>)
    requires '\n' !in file
    ensures ImportContents(file, packageName)
            == match Step(START, file, packageName)
               case None => None
               case Some(st) => Some(Symbols(Texts(st.fragments)))
  {
    SingleLine(file);
    RunSingle(file, packageName);
  }

  /** The scan of a single line is one step from the start. */
  lemma RunSingle(line: string, packageName: Option<string>)
    ensures Run([line], packageName) == Step(START, line, packageName)
  {
    RunSnoc([], line, packageName, START);
    assert [] + [line] == [line];
  }

  /** The symbols of a single captured fragment. */
  lemma CapturedFragmentSymbols(c: string)
    ensures Symbols(Texts([Captured(c)])) == SplitTrim(RemoveParentheses(c))
  {
    var x := RemoveParentheses(c);
    assert Texts([Captured(c)]) == [x];
    assert Symbols([x]) == SplitTrim(x) + Symbols([]);
  }

  /** The symbols of a single raw fragment. */
  lemma RawFragmentSymbols(a: string)
    ensures Symbols(Texts([Raw(a)])) == SplitTrim(a)
  {
    assert Texts([Raw(a)]) == [a];
    assert Symbols([a]) == SplitTrim(a) + Symbols([]);
  }

  /** The lines that pass the package filter, in order. */
  function Matching(lines: seq<string>, packageName: Option<string>): seq<string>
    decreases |lines|
  {
    if |lines| == 0 then []
    else
      var last := lines[|lines| - 1];
      Matching(lines[..|lines| - 1], packageName)
      + (if IncludesPackageName(last, packageName) then [last] else [])
  }

  /** An import line that passes the filter but that `reg` does not match:
      `removeParentheses(undefined)` throws on it. */
  predicate CaptureFails(line: string, packageName: Option<string>)
  {
    Contains(line, IMPORT) && IncludesPackageName(line, packageName) && Capture(line).None?
  }

  /** Some line of `lines` is `bad`. */
  predicate AnyLine(lines: seq<string>, bad: string -> bool)
    decreases |lines|
  {
    |lines| > 0 && (AnyLine(lines[..|lines| - 1], bad) || bad(lines[|lines| - 1]))
  }

  /** `AnyLine` is the existential it names. */
  lemma {:induction false} AnyLineIff(lines: seq<string>, bad: string -> bool)
    ensures AnyLine(lines, bad) <==> exists i :: 0 <= i < |lines| && bad(lines[i])
    decreases |lines|
  {
    if |lines| > 0 {
      var n := |lines| - 1;
      var prefix := lines[..n];
      AnyLineIff(prefix, bad);
      if AnyLine(prefix, bad) {
        var i :| 0 <= i < |prefix| && bad(prefix[i]);
        assert lines[i] == prefix[i];
      }
      if exists i :: 0 <= i < |lines| && bad(lines[i]) {
        var i :| 0 <= i < |lines| && bad(lines[i]);
        if i < n {
          assert prefix[i] == lines[i];
        }
      }
    }
  }

  /** The scan throws exactly when some line is an import line that passes the
      filter and that `reg` does not match. */
  lemma FailsExactlyOnUncapturedLine(lines: seq<string>, packageName: Option<string>)
    ensures Run(lines, packageName).None?
            <==> exists i :: 0 <= i < |lines| && CaptureFails(lines[i], packageName)
  {
    var bad := line => CaptureFails(line, packageName);
    FailsExactlyWhenAnyLineFails(lines, packageName, bad);
    AnyLineIff(lines, bad);
  }

  lemma {:induction false} FailsExactlyWhenAnyLineFails(lines: seq<string>, packageName: Option<string>,
                                                         bad: string -> bool)
    requires forall line :: bad(line) == CaptureFails(line, packageName)
    ensures Run(lines, packageName).None? <==> AnyLine(lines, bad)
    decreases |lines|
  {
    if |lines| > 0 {
      var n := |lines| - 1;
      var prefix := lines[..n];
      FailsExactlyWhenAnyLineFails(prefix, packageName, bad);
      if Run(prefix, packageName).Some? {
        StepFailsExactlyOnUncapturedLine(Run(prefix, packageName).value, lines[n], packageName);
      }
    }
  }

  /** One step throws exactly on an import line that passes the filter and that `reg` does not match. */
  lemma StepFailsExactlyOnUncapturedLine(st: ScanState, line: string, packageName: Option<string>)
    ensures Step(st, line, packageName).None? <==> CaptureFails(line, packageName)
  {
  }

  /** Every line that passes the filter pushes one fragment, in line order: an
      import line pushes the capture of `reg` (cleaned later by
      `removeParentheses`), any other line pushes the accumulator as it stands. */
  lemma FragmentPerMatchingLine(lines: seq<string>, packageName: Option<string>)
    requires Run(lines, packageName).Some?
    ensures var fs := Run(lines, packageName).value.fragments;
            var ms := Matching(lines, packageName);
            |fs| == |ms|
            && forall k :: 0 <= k < |fs| ==>
                 (fs[k].Captured? <==> Contains(ms[k], IMPORT))
                 && (fs[k].Captured? ==> Capture(ms[k]) == Some(fs[k].capture))
  {
    var rel := (f, line) => FragmentFor(f, line);
    FragmentsPaired(lines, packageName, rel);
  }

  /** `removeParentheses(item.match(reg)?.[0])` for each of the lines; a line
      without a match stands for nothing here. */
  function CleanedCaptures(ms: seq<string>): seq<string>
  {
    seq(|ms|, k requires 0 <= k < |ms| =>
      match Capture(ms[k])
      case Some(c) => RemoveParentheses(c)
      case None => "")
  }

  /** A file in which no line throws and every line that passes the filter is
      an import line (say, one-line braced imports among other code) yields
      the pieces of the cleaned captures of those lines, in line order. */
  lemma CapturedImportsOnly(file: string, packageName: Option<string>)
    requires forall i :: 0 <= i < |GetFileLines(file)| ==> !CaptureFails(GetFileLines(file)[i], packageName)
    requires forall m :: m in Matching(GetFileLines(file), packageName) ==> Contains(m, IMPORT)
    ensures ImportContents(file, packageName)
            == Some(Symbols(CleanedCaptures(Matching(GetFileLines(file), packageName))))
  {
    var lines := GetFileLines(file);
    FailsExactlyOnUncapturedLine(lines, packageName);
    var fs := Run(lines, packageName).value.fragments;
    var ms := Matching(lines, packageName);
    FragmentPerMatchingLine(lines, packageName);
    forall k | 0 <= k < |fs| ensures Texts(fs)[k] == CleanedCaptures(ms)[k] {
      assert ms[k] in ms;
    }
    assert Texts(fs) == CleanedCaptures(ms);
  }

  /** The fragment `f` is the one pushed for the line `line`. */
  predicate FragmentFor(f: Fragment, line: string)
  {
    (f.Captured? <==> Contains(line, IMPORT)) && (f.Captured? ==> Capture(line) == Some(f.capture))
  }

  /** `rel` holds between the fragments and the lines position by position. */
  ghost predicate Paired(fs: seq<Fragment>, ms: seq<string>, rel: (Fragment, string) -> bool)
  {
    |fs| == |ms| && forall k :: 0 <= k < |fs| ==> rel(fs[k], ms[k])
  }

  lemma PairedSnoc(fs: seq<Fragment>, ms: seq<string>, f: Fragment, m: string, rel: (Fragment, string) -> bool)
    requires Paired(fs, ms, rel) && rel(f, m)
    ensures Paired(fs + [f], ms + [m], rel)
  {
    forall k | 0 <= k < |fs| + 1 ensures rel((fs + [f])[k], (ms + [m])[k]) {
      if k < |fs| {
        assert (fs + [f])[k] == fs[k] && (ms + [m])[k] == ms[k];
      }
    }
  }

  lemma {:induction false} FragmentsPaired(lines: seq<string>, packageName: Option<string>,
                                            rel: (Fragment, string) -> bool)
    requires Run(lines, packageName).Some?
    requires forall f, line :: rel(f, line) == FragmentFor(f, line)
    ensures Paired(Run(lines, packageName).value.fragments, Matching(lines, packageName), rel)
    decreases |lines|
  {
    if |lines| > 0 {
      var n := |lines| - 1;
      var prefix := lines[..n];
      FragmentsPaired(prefix, packageName, rel);
      var st := Run(prefix, packageName).value;
      StepFragments(st, lines[n], packageName);
      var fs := Run(lines, packageName).value.fragments;
      if IncludesPackageName(lines[n], packageName) {
        assert Matching(lines, packageName) == Matching(prefix, packageName) + [lines[n]];
        PairedSnoc(st.fragments, Matching(prefix, packageName), fs[|st.fragments|], lines[n], rel);
      } else {
        assert Matching(lines, packageName) == Matching(prefix, packageName);
      }
    }
  }

  /** One step pushes one fragment for a line that passes the filter, and none for any other. */
  lemma StepFragments(st: ScanState, line: string, packageName: Option<string>)
    requires Step(st, line, packageName).Some?
    ensures var fs := Step(st, line, packageName).value.fragments;
            if IncludesPackageName(line, packageName) then
              |fs| == |st.fragments| + 1 && fs == st.fragments + [fs[|st.fragments|]]
              && FragmentFor(fs[|st.fragments|], line)
            else fs == st.fragments
  {
  }

  /** The accumulator text of a sequence of lines. */
  function Concat(xs: seq<string>): string
    decreases |xs|
  {
    if |xs| == 0 then "" else Concat(xs[..|xs| - 1]) + xs[|xs| - 1]
  }

  /** `acc` is `head` followed by `imports`, where `head` is empty or one line
      of `lines` without `import` that failed the filter, and `imports` are
      import lines of `lines` that failed the filter. */
  ghost predicate AccumulatorFrom(acc: string, lines: seq<string>, packageName: Option<string>,
                                  head: string, imports: seq<string>)
  {
    && acc == head + Concat(imports)
    && (head == "" || (head in lines && !Contains(head, IMPORT) && !IncludesPackageName(head, packageName)))
    && (forall l :: l in imports ==> l in lines && Contains(l, IMPORT) && !IncludesPackageName(l, packageName))
  }

  /** The accumulator holds at most one line without `import` (the one-shot
      continuation), and after it only import lines that failed the filter;
      while the flag is set the accumulator is empty or holds `import`. */
  lemma {:induction false} AccumulatorShape(lines: seq<string>, packageName: Option<string>)
    requires Run(lines, packageName).Some?
    ensures exists head, imports ::
              AccumulatorFrom(Run(lines, packageName).value.acc, lines, packageName, head, imports)
    ensures var st := Run(lines, packageName).value;
            st.cont ==> st.acc == "" || Contains(st.acc, IMPORT)
    decreases |lines|
  {
    if |lines| == 0 {
      assert AccumulatorFrom("", lines, packageName, "", []);
    } else {
      var n := |lines| - 1;
      var prefix := lines[..n];
      AccumulatorShape(prefix, packageName);
      var st := Run(prefix, packageName).value;
      var head, imports :| AccumulatorFrom(st.acc, prefix, packageName, head, imports);
      var head', imports' := AccumulatorStep(st, lines, packageName, head, imports);
    }
  }

  /** One step of `AccumulatorShape`: the witnesses after scanning `line`. */
  lemma AccumulatorStep(st: ScanState, lines: seq<string>, packageName: Option<string>,
                        head: string, imports: seq<string>)
    returns (head': string, imports': seq<string>)
    requires |lines| > 0
    requires AccumulatorFrom(st.acc, lines[..|lines| - 1], packageName, head, imports)
    requires st.cont ==> st.acc == "" || Contains(st.acc, IMPORT)
    requires Step(st, lines[|lines| - 1], packageName).Some?
    ensures var next := Step(st, lines[|lines| - 1], packageName).value;
            AccumulatorFrom(next.acc, lines, packageName, head', imports')
            && (next.cont ==> next.acc == "" || Contains(next.acc, IMPORT))
  {
    var line := lines[|lines| - 1];
    var next := Step(st, line, packageName).value;
    AccumulatorWidens(st.acc, lines, packageName, head, imports);
    ConcatEndsWithImport(imports);
    ContainsInConcatenation(head, Concat(imports), IMPORT);
    if Contains(line, IMPORT) {
      if IncludesPackageName(line, packageName) {
        assert next.acc == st.acc && !next.cont;
        head', imports' := head, imports;
      } else {
        assert next.acc == st.acc + line && next.cont;
        ContainsInConcatenation(st.acc, line, IMPORT);
        AccumulatorTakesImport(st.acc, lines, packageName, head, imports, line);
        head', imports' := head, imports + [line];
      }
    } else if IncludesPackageName(line, packageName) {
      assert next.acc == "" && !next.cont;
      head', imports' := "", [];
    } else if Contains(st.acc, IMPORT) {
      assert next.acc == (if st.cont then line else "") && !next.cont;
      head', imports' := if st.cont then line else "", [];
    } else {
      assert next.acc == (if st.cont then st.acc + line else st.acc) && !next.cont;
      assert imports == [];
      head', imports' := if st.cont then line else head, [];
    }
  }

  lemma AccumulatorWidens(acc: string, lines: seq<string>, packageName: Option<string>,
                          head: string, imports: seq<string>)
    requires |lines| > 0
    requires AccumulatorFrom(acc, lines[..|lines| - 1], packageName, head, imports)
    ensures AccumulatorFrom(acc, lines, packageName, head, imports)
  {
    assert forall l :: l in lines[..|lines| - 1] ==> l in lines;
  }

  lemma AccumulatorTakesImport(acc: string, lines: seq<string>, packageName: Option<string>,
                               head: string, imports: seq<string>, line: string)
    requires AccumulatorFrom(acc, lines, packageName, head, imports)
    requires line in lines && Contains(line, IMPORT) && !IncludesPackageName(line, packageName)
    ensures AccumulatorFrom(acc + line, lines, packageName, head, imports + [line])
  {
    assert (imports + [line])[..|imports|] == imports;
  }

  lemma ConcatEndsWithImport(xs: seq<string>)
    ensures xs != [] && (forall l :: l in xs ==> Contains(l, IMPORT)) ==> Contains(Concat(xs), IMPORT)
  {
    if xs != [] {
      ContainsInConcatenation(Concat(xs[..|xs| - 1]), xs[|xs| - 1], IMPORT);
    }
  }

  lemma {:induction false} NoMatchingLines(lines: seq<string>, packageName: Option<string>)
    requires forall i :: 0 <= i < |lines| ==> !IncludesPackageName(lines[i], packageName)
    ensures Matching(lines, packageName) == []
    decreases |lines|
  {
    if |lines| > 0 {
      NoMatchingLines(lines[..|lines| - 1], packageName);
    }
  }

  /** A file none of whose lines passes the filter yields no symbols, and does not throw. */
  lemma NothingMatchesNothingFound(file: string, packageName: Option<string>)
    requires forall line :: line in GetFileLines(file) ==> !IncludesPackageName(line, packageName)
    ensures ImportContents(file, packageName) == Some([])
  {
    var lines := GetFileLines(file);
    FailsExactlyOnUncapturedLine(lines, packageName);
    assert forall i :: 0 <= i < |lines| ==> !CaptureFails(lines[i], packageName) by {
      forall i | 0 <= i < |lines| ensures !CaptureFails(lines[i], packageName) {
        assert lines[i] in lines;
      }
    }
    NoMatchingLines(lines, packageName);
    FragmentPerMatchingLine(lines, packageName);
  }

  // ---------------------------------------------------------------------------
  // Helpers

  lemma TextsAppend(fs: seq<Fragment>, f: Fragment)
    ensures Texts(fs + [f]) == Texts(fs) + [FragmentText(f)]
  {
  }

  lemma TrimKeepsOut(s: string, c: char)
    requires c !in s
    ensures c !in Trim(s)
  {
    var t := TrimStart(s);
    SliceKeepsOut(s, c, |s| - |t|, |s|);
    SliceKeepsOut(t, c, 0, |TrimEnd(t)|);
    assert Trim(s) == TrimEnd(t);
  }

  lemma SliceKeepsOut(s: string, c: char, a: int, b: int)
    requires 0 <= a <= b <= |s| && c !in s
    ensures c !in s[a..b]
  {
    forall k | 0 <= k < b - a ensures s[a..b][k] != c {
      assert s[a..b][k] == s[a + k];
    }
  }

  /** An occurrence in either part is an occurrence in the whole. */
  lemma ContainsInConcatenation(a: string, b: string, w: string)
    requires |w| > 0
    ensures Contains(a, w) || Contains(b, w) ==> Contains(a + b, w)
  {
    if Contains(b, w) {
      var j :| OccursAt(b, w, j);
      assert (a + b)[|a| + j..|a| + j + |w|] == b[j..j + |w|];
      assert OccursAt(a + b, w, |a| + j);
    }
    if Contains(a, w) {
      var j :| OccursAt(a, w, j);
      assert (a + b)[j..j + |w|] == a[j..j + |w|];
      assert OccursAt(a + b, w, j);
    }
  }

  lemma RunStaysFailed(lines: seq<string>, packageName: Option<string>, k: nat)
    requires k <= |lines| && Run(lines[..k], packageName).None?
    ensures Run(lines, packageName).None?
    decreases |lines| - k
  {
    if k < |lines| {
      assert lines[..k + 1][..k] == lines[..k];
      RunStaysFailed(lines, packageName, k + 1);
    } else {
      assert lines[..k] == lines;
    }
  }
}
