/** What the scanner makes of typical import lines and files. */
module Scenarios {
  import opened Wrappers
  import opened JsString
  import opened Patterns
  import opened Text
  import opened Extractor
  import opened Aggregator

  /** The one-line import `import {<names>} from '<source>'`. */
  function BracedImport(names: string, source: string): string
  {
    "import {" + names + "} from '" + source + "'"
  }

  /** After the keyword `from` of a braced import, `from` does not occur again. */
  lemma NoLaterFrom(names: string, source: string)
    requires !Contains(source, FROM)
    ensures forall k :: |names| + 11 <= k ==> !OccursAt(BracedImport(names, source), FROM, k)
  {
    var t := BracedImport(names, source);
    var n := |names|;
    var tail := "} from '";
    assert t == "import {" + names + tail + source + "'";
    assert t[n + 8..n + 16] == tail;
    assert t[n + 16..n + 16 + |source|] == source;
    forall k | n + 11 <= k ensures !OccursAt(t, FROM, k) {
      if k + 4 > |t| {
      } else if k < n + 16 {
        assert t[k] == tail[k - n - 8];
        MismatchAt(t, FROM, k, 0);
      } else if k + 4 < |t| {
        assert t[k..k + 4] == t[n + 16..n + 16 + |source|][k - 16 - n..k - 12 - n];
        assert !OccursAt(source, FROM, k - 16 - n);
      } else {
        assert t[k + 3] == '\'';
        MismatchAt(t, FROM, k, 3);
      }
    }
  }

  /** On a braced import the match of `reg` starts right after `import `
      and, since `from` does not occur later, ends right after the brace. */
  lemma BracedImportMatch(names: string, source: string)
    requires NoTerminatorBetween(names, 0, |names|)
    requires !Contains(source, FROM)
    ensures FirstMatch(BracedImport(names, source), 7, |names| + 9)
  {
    var t := BracedImport(names, source);
    var n := |names|;
    BracedImportLayout(names, source);
    assert OccursAt(t, IMPORT, 0) by { assert t[0..6] == t[..8][0..6]; }
    assert LooksBehind(t, 7);
    assert OccursAt(t, FROM, n + 10) by { assert t[n + 10..n + 14] == t[8 + n..16 + n][2..6]; }
    assert LooksAhead(t, n + 9);
    assert NoTerminatorBetween(t, 7, n + 9) by {
      forall m | 7 <= m < n + 9 ensures !IsLineTerminator(t[m]) {
        if 8 <= m < 8 + n {
          assert t[m] == names[m - 8];
        }
      }
    }
    NoLaterFrom(names, source);
  }

  lemma BracedImportLayout(names: string, source: string)
    ensures var t := BracedImport(names, source);
            |t| == |names| + |source| + 17
            && t[..8] == "import {" && t[8..8 + |names|] == names
            && t[8 + |names|..16 + |names|] == "} from '"
            && t[16 + |names|..|t| - 1] == source && t[|t| - 1] == '\''
  {
    var t := BracedImport(names, source);
    assert t == "import {" + names + "} from '" + source + "'";
  }

  /** The capture of a braced import is its braced list. */
  lemma BracedImportCapture(names: string, source: string)
    requires NoTerminatorBetween(names, 0, |names|)
    requires !Contains(source, FROM)
    ensures Capture(BracedImport(names, source)) == Some("{" + names + "}")
  {
    var t := BracedImport(names, source);
    BracedImportMatch(names, source);
    CaptureIsFirstMatch(t, 7, |names| + 9);
    BracedListSlice(names, source);
  }

  lemma BracedListSlice(names: string, source: string)
    ensures BracedImport(names, source)[7..|names| + 9] == "{" + names + "}"
  {
    var t := BracedImport(names, source);
    assert t == "import " + ("{" + names + "}") + " from '" + source + "'";
  }

  /** A file that is a single import line that passes the filter yields the
      pieces of that line's capture, or throws when `reg` does not match it. */
  lemma SingleImportLineFile(file: string, packageName: Option<string>)
    requires '\n' !in file
    requires Contains(file, IMPORT) && IncludesPackageName(file, packageName)
    ensures Capture(file).None? ==> ImportContents(file, packageName).None?
    ensures Capture(file).Some? ==>
              ImportContents(file, packageName) == Some(SplitTrim(RemoveParentheses(Capture(file).value)))
  {
    SingleLineScan(file, packageName);
    match Capture(file)
    case None =>
    case Some(c) =>
      StepPushesCapture(START, file, packageName, c);
      assert START.fragments + [Captured(c)] == [Captured(c)];
      CapturedFragmentSymbols(c);
  }

  /** The line facts of a braced import: one line, an import line, and one
      that `/from '.*'/` accepts. */
  lemma BracedImportLine(names: string, source: string)
    requires NoTerminatorBetween(names, 0, |names|) && NoTerminatorBetween(source, 0, |source|)
    ensures '\n' !in BracedImport(names, source) && '\r' !in BracedImport(names, source)
    ensures Contains(BracedImport(names, source), IMPORT)
    ensures IncludesPackageName(BracedImport(names, source), None)
  {
    var t := BracedImport(names, source);
    var n := |names|;
    BracedImportLayout(names, source);
    assert NoTerminatorBetween(t, 0, |t|) by {
      forall m | 0 <= m < |t| ensures !IsLineTerminator(t[m]) {
        if m < 8 {
          assert t[m] == t[..8][m];
        } else if m < n + 8 {
          assert t[m] == t[8..8 + n][m - 8];
        } else if m < n + 16 {
          assert t[m] == t[8 + n..16 + n][m - 8 - n];
        } else if m < |t| - 1 {
          assert t[m] == t[16 + n..|t| - 1][m - n - 16];
        }
      }
    }
    assert OccursAt(t, IMPORT, 0) by { assert t[0..6] == t[..8][0..6]; }
    assert FromQuoteAt(t, n + 10, |t| - 1) by {
      assert t[n + 10..n + 16] == t[n + 8..n + 16][2..];
    }
  }

  /** A file that is one braced import on a single line (and no name given)
      yields the trimmed pieces of the list between the braces. */
  lemma OneBracedImportFile(names: string, source: string)
    requires NoTerminatorBetween(names, 0, |names|) && NoTerminatorBetween(source, 0, |source|)
    requires '}' !in names
    requires !Contains(source, FROM)
    ensures ImportContents(BracedImport(names, source), None) == Some(SplitTrim(names))
  {
    var t := BracedImport(names, source);
    BracedImportLine(names, source);
    BracedImportCapture(names, source);
    SingleImportLineFile(t, None);
    RemoveParenthesesAroundList(names);
  }

  /** In `import{<rest>}`, `import` occurs only at the start when `rest` lacks it. */
  lemma GluedBraceOnlyImport(rest: string)
    requires !Contains(rest, IMPORT)
    ensures forall k :: 0 < k ==> !OccursAt("import{" + rest, IMPORT, k)
  {
    var t := "import{" + rest;
    assert t[..7] == "import{" && t[7..] == rest;
    forall k | 0 < k ensures !OccursAt(t, IMPORT, k) {
      if k < 7 {
        MismatchAt(t, IMPORT, k, 0);
      } else if k + 6 <= |t| {
        assert t[k..k + 6] == rest[k - 7..k - 1];
        assert !OccursAt(rest, IMPORT, k - 7);
      }
    }
  }

  /** An import keyword glued to its brace (`import{`) leaves `reg` without a
      match: the lookbehind wants white space right after `import`. */
  lemma GluedBraceNoCapture(rest: string)
    requires !Contains(rest, IMPORT)
    ensures Capture("import{" + rest) == None
  {
    var t := "import{" + rest;
    GluedBraceOnlyImport(rest);
    assert t[6] == '{' && !IsWhiteSpace(t[6]);
    forall p ensures !LooksBehind(t, p) {
      assert p - 7 != 0 ==> !OccursAt(t, IMPORT, p - 7);
      assert p - 8 != 0 ==> !OccursAt(t, IMPORT, p - 8);
    }
    assert forall p, e :: !CaptureAt(t, p, e);
  }

  /** So a file made of such a line throws as soon as the line passes the filter. */
  lemma GluedBraceThrows(rest: string, packageName: Option<string>)
    requires !Contains(rest, IMPORT) && '\n' !in rest
    requires IncludesPackageName("import{" + rest, packageName)
    ensures ImportContents("import{" + rest, packageName) == None
  {
    var t := "import{" + rest;
    GluedBraceNoCapture(rest);
    assert OccursAt(t, IMPORT, 0) by { assert t[0..6] == "import"; }
    assert '\n' !in t by { assert t[7..] == rest; }
    SingleImportLineFile(t, packageName);
  }

  /** An import list spread over two lines, the keyword on the first and
      `from '<source>'` on the second, when no name is given: the first line
      fails the filter and is accumulated, the second passes it and pushes the
      accumulator. The symbols are the pieces of the whole first line, keyword
      included, and nothing of the second. */
  lemma SplitImportKeepsFirstLine(first: string, second: string, packageName: Option<string>)
    requires '\n' !in first && '\r' !in first && '\n' !in second
    requires Contains(first, IMPORT) && !IncludesPackageName(first, packageName)
    requires !Contains(second, IMPORT) && IncludesPackageName(second, packageName)
    ensures ImportContents(first + "\n" + second, packageName) == Some(SplitTrim(first))
  {
    TwoLines(first, second);
    SplitImportScan(first, second, packageName);
    RawFragmentSymbols(first);
  }

  /** A one-line file without `import` whose line passes the filter yields one
      empty symbol, not an empty list: the line pushes the empty accumulator. */
  lemma NoImportLineYieldsEmptySymbol(line: string, packageName: Option<string>)
    requires '\n' !in line
    requires !Contains(line, IMPORT) && IncludesPackageName(line, packageName)
    ensures ImportContents(line, packageName) == Some([""])
  {
    SingleLineScan(line, packageName);
    StepFlushesAccumulator(START, line, packageName);
    assert START.fragments + [Raw(START.acc)] == [Raw("")];
    RawFragmentSymbols("");
    SplitTrimNoComma("");
    TrimKeeps("");
  }

  /** A captured import line followed by a line that neither holds `import`
      nor passes the filter: the second line adds nothing, so the symbols are
      the pieces of the first line's capture. */
  lemma ImportThenPlainLine(first: string, second: string, packageName: Option<string>)
    requires '\n' !in first && '\r' !in first && '\n' !in second
    requires Contains(first, IMPORT) && IncludesPackageName(first, packageName) && Capture(first).Some?
    requires !Contains(second, IMPORT) && !IncludesPackageName(second, packageName)
    ensures ImportContents(first + "\n" + second, packageName)
            == Some(SplitTrim(RemoveParentheses(Capture(first).value)))
  {
    var c := Capture(first).value;
    TwoLines(first, second);
    CaptureThenPlainScan(first, second, packageName, c);
    CapturedFragmentSymbols(c);
  }

  /** The scan of those two lines: one captured fragment. */
  lemma CaptureThenPlainScan(first: string, second: string, packageName: Option<string>, c: string)
    requires Contains(first, IMPORT) && IncludesPackageName(first, packageName) && Capture(first) == Some(c)
    requires !Contains(second, IMPORT) && !IncludesPackageName(second, packageName)
    ensures Run([first, second], packageName) == Some(ScanState([Captured(c)], "", false))
  {
    var st1 := ScanState([Captured(c)], "", false);
    assert Run([first], packageName) == Some(st1) by {
      RunSingle(first, packageName);
      StepPushesCapture(START, first, packageName, c);
      assert START.fragments + [Captured(c)] == [Captured(c)];
    }
    RunSnoc([first], second, packageName, st1);
    assert [first] + [second] == [first, second];
  }

  /** Without an `f` a line holds no `from '`, so it fails the filter when no name is given. */
  lemma NoFromQuote(t: string)
    requires 'f' !in t
    ensures !IncludesPackageName(t, None)
  {
    forall i, j ensures !FromQuoteAt(t, i, j) {
      if 0 <= i < |t| {
        MismatchAt(t, FROM_QUOTE, i, 0);
      }
    }
  }

  /** `import {<names>} from '<source>'` followed by a line such as
      `const x = 1` yields the names of the braces only. */
  lemma BracedImportThenOtherLine(names: string, source: string, second: string)
    requires NoTerminatorBetween(names, 0, |names|) && NoTerminatorBetween(source, 0, |source|)
    requires '}' !in names
    requires !Contains(source, FROM)
    requires 'i' !in second && 'f' !in second && '\n' !in second
    ensures ImportContents(BracedImport(names, source) + "\n" + second, None) == Some(SplitTrim(names))
  {
    var first := BracedImport(names, source);
    BracedImportLine(names, source);
    BracedImportCapture(names, source);
    MissingCharacter(second, IMPORT, 0);
    NoFromQuote(second);
    ImportThenPlainLine(first, second, None);
    RemoveParenthesesAroundList(names);
  }

  /** The scan of those two lines: one raw fragment holding the first line. */
  lemma SplitImportScan(first: string, second: string, packageName: Option<string>)
    requires Contains(first, IMPORT) && !IncludesPackageName(first, packageName)
    requires !Contains(second, IMPORT) && IncludesPackageName(second, packageName)
    ensures Run([first, second], packageName) == Some(ScanState([Raw(first)], "", false))
  {
    var st1 := ScanState([], first, true);
    assert Run([first], packageName) == Some(st1) by {
      RunSingle(first, packageName);
      StepAccumulatesImport(START, first, packageName);
      assert START.acc + first == first;
    }
    RunSnoc([first], second, packageName, st1);
    StepFlushesAccumulator(st1, second, packageName);
    assert [first] + [second] == [first, second];
    assert st1.fragments + [Raw(st1.acc)] == [Raw(first)];
  }

  /** With a name, the filter is a suffix test on the raw line: a trailing
      semicolon defeats it. */
  lemma SuffixFilter()
    ensures IncludesPackageName("import _ from 'lodash'", Some("'lodash'"))
    ensures !IncludesPackageName("import _ from 'lodash';", Some("'lodash'"))
  {
  }

  /** A name after `, ` loses its leading space. */
  lemma SpacedName(b: string)
    requires ',' !in b
    ensures SplitTrim([' '] + b) == [Trim(b)]
  {
    assert ',' !in [' '] + b;
    SplitTrimNoComma([' '] + b);
    TrimDropsLeading(' ', b);
  }

  /** `"a, b".split(',').map(trim)` for names without commas. */
  lemma PairPiecesTrimmed(a: string, b: string)
    requires ',' !in a && ',' !in b
    ensures SplitTrim(a + ", " + b) == [Trim(a)] + [Trim(b)]
  {
    assert a + ", " + b == a + "," + ([' '] + b);
    SplitTrimAtComma(a, [' '] + b);
    SpacedName(b);
  }

  lemma TrimmedPair(a: string, b: string)
    requires Trimmed(a) && Trimmed(b)
    ensures [Trim(a)] + [Trim(b)] == [a, b]
  {
    TrimKeeps(a);
    TrimKeeps(b);
    PairOf(Trim(a), Trim(b), a, b);
  }

  lemma PairOf(x: string, y: string, a: string, b: string)
    requires x == a && y == b
    ensures [x] + [y] == [a, b]
  {
  }

  /** `"a, b".split(',').map(trim)` is `[a, b]` for trimmed names without commas. */
  lemma PairPieces(a: string, b: string)
    requires ',' !in a && ',' !in b && Trimmed(a) && Trimmed(b)
    ensures SplitTrim(a + ", " + b) == [a, b]
  {
    PairPiecesTrimmed(a, b);
    TrimmedPair(a, b);
  }

  /** `import {a, b} from '<source>'` yields `a` and `b`, for any two names
      without commas and without white space at their ends. */
  lemma BracedPair(a: string, b: string, source: string)
    requires NoTerminatorBetween(a + ", " + b, 0, |a + ", " + b|) && NoTerminatorBetween(source, 0, |source|)
    requires ',' !in a && ',' !in b && '}' !in a && '}' !in b
    requires Trimmed(a) && Trimmed(b)
    requires !Contains(source, FROM)
    ensures ImportContents(BracedImport(a + ", " + b, source), None) == Some([a, b])
  {
    assert '}' !in a + ", " + b;
    OneBracedImportFile(a + ", " + b, source);
    PairPieces(a, b);
  }

  /** Two files that import the same single name from different sources give
      that name once. */
  lemma SameNameFromTwoFiles(name: string, first: string, second: string)
    requires NoTerminatorBetween(name, 0, |name|) && Trimmed(name)
    requires '}' !in name && ',' !in name
    requires NoTerminatorBetween(first, 0, |first|) && !Contains(first, FROM)
    requires NoTerminatorBetween(second, 0, |second|) && !Contains(second, FROM)
    ensures GetImportsContent([Some(BracedImport(name, first)), Some(BracedImport(name, second))], None) == name
  {
    var files := [Some(BracedImport(name, first)), Some(BracedImport(name, second))];
    TwoFilesSameContents(name, first, second);
    ContentsOfTwo(files, None);
    SameSymbolTwice(name);
  }

  lemma ContentsOfTwo(files: seq<Option<string>>, packageName: Option<string>)
    requires |files| == 2
    ensures GetImportsContent(files, packageName)
            == ImportsContent([FileContents(files[0], packageName), FileContents(files[1], packageName)])
  {
    assert AllContents(files, packageName) == [FileContents(files[0], packageName), FileContents(files[1], packageName)];
  }

  lemma TwoFilesSameContents(name: string, first: string, second: string)
    requires NoTerminatorBetween(name, 0, |name|) && Trimmed(name)
    requires '}' !in name && ',' !in name
    requires NoTerminatorBetween(first, 0, |first|) && !Contains(first, FROM)
    requires NoTerminatorBetween(second, 0, |second|) && !Contains(second, FROM)
    ensures ImportContents(BracedImport(name, first), None) == Some([name])
    ensures ImportContents(BracedImport(name, second), None) == Some([name])
  {
    OneBracedImportFile(name, first);
    OneBracedImportFile(name, second);
    SplitTrimNoComma(name);
    TrimKeeps(name);
  }
}
