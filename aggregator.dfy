/** The aggregation over many files: the symbols of each file, a `null` for a
    file that could not be read or scanned, flattened, deduplicated in the
    order of first occurrence and joined with commas. */
module Aggregator {
  import opened Wrappers
  import opened JsString
  import opened Text
  import opened Extractor

  /** One element of `contents.flat()`: a symbol, or the `null` left by a failed file. */
  type Element = Option<string>

  /** What one file contributes to `contents`: nothing readable or a scan that
      throws both give `null`. */
  function FileContents(read: Option<string>, packageName: Option<string>): Option<seq<string>>
  {
    match read
    case None => None
    case Some(file) => ImportContents(file, packageName)
  }

  /** The `try`/`catch` around one file: `null` exactly when the file cannot be
      read, or when one of its lines is an import line that passes the filter
      and that `reg` does not match. */
  lemma FileFailsExactly(read: Option<string>, packageName: Option<string>)
    ensures FileContents(read, packageName).None? <==>
              read.None?
              || exists i :: 0 <= i < |GetFileLines(read.value)| && CaptureFails(GetFileLines(read.value)[i], packageName)
  {
    if read.Some? {
      FailsExactlyOnUncapturedLine(GetFileLines(read.value), packageName);
    }
  }

  /** `contents`: the per-file results, in the order of the file list. */
  function AllContents(files: seq<Option<string>>, packageName: Option<string>): seq<Option<seq<string>>>
  {
    seq(|files|, i requires 0 <= i < |files| => FileContents(files[i], packageName))
  }

  /** What one entry of `contents` becomes in `contents.flat()`: an array is
      spread, a `null` stays one element. */
  function Entries(c: Option<seq<string>>): seq<Element>
  {
    match c
    case None => [None]
    case Some(xs) => seq(|xs|, k requires 0 <= k < |xs| => Some(xs[k]))
  }

  /** `contents.flat()`. */
  function Flat(contents: seq<Option<seq<string>>>): seq<Element>
  {
    if |contents| == 0 then [] else Flat(contents[..|contents| - 1]) + Entries(contents[|contents| - 1])
  }

  /** A symbol is in the flattened list exactly when some file produced it. */
  lemma {:induction false} FlatSymbol(contents: seq<Option<seq<string>>>, x: string)
    ensures Some(x) in Flat(contents) <==>
              exists i :: 0 <= i < |contents| && contents[i].Some? && x in contents[i].value
  {
    if |contents| != 0 {
      var n := |contents| - 1;
      var init := contents[..n];
      FlatSymbol(init, x);
      EntriesMembers(contents[n]);
      assert Flat(contents) == Flat(init) + Entries(contents[n]);
      if Some(x) in Flat(init) {
        var i :| 0 <= i < |init| && init[i].Some? && x in init[i].value;
        assert contents[i] == init[i];
      }
      if exists i :: 0 <= i < |contents| && contents[i].Some? && x in contents[i].value {
        var i :| 0 <= i < |contents| && contents[i].Some? && x in contents[i].value;
        if i < n {
          assert init[i] == contents[i];
        }
      }
    }
  }

  /** `null` is in the flattened list exactly when some file failed. */
  lemma {:induction false} FlatNull(contents: seq<Option<seq<string>>>)
    ensures None in Flat(contents) <==> exists i :: 0 <= i < |contents| && contents[i].None?
  {
    if |contents| != 0 {
      var n := |contents| - 1;
      var init := contents[..n];
      FlatNull(init);
      EntriesMembers(contents[n]);
      assert Flat(contents) == Flat(init) + Entries(contents[n]);
      if None in Flat(init) {
        var i :| 0 <= i < |init| && init[i].None?;
        assert contents[i] == init[i];
      }
      if exists i :: 0 <= i < |contents| && contents[i].None? {
        var i :| 0 <= i < |contents| && contents[i].None?;
        if i < n {
          assert init[i] == contents[i];
        }
      }
    }
  }

  /** The members of one entry's spread. */
  lemma EntriesMembers(c: Option<seq<string>>)
    ensures forall x :: Some(x) in Entries(c) <==> c.Some? && x in c.value
    ensures None in Entries(c) <==> c.None?
  {
    if c.Some? {
      forall x | x in c.value ensures Some(x) in Entries(c) {
        var k :| 0 <= k < |c.value| && c.value[k] == x;
        assert Entries(c)[k] == Some(x);
      }
    }
  }

  // ---------------------------------------------------------------------------
  // `[...new Set(list)]`

  /** No element occurs twice. */
  ghost predicate Distinct<T>(s: seq<T>)
  {
    forall i, j :: 0 <= i < j < |s| ==> s[i] != s[j]
  }

  /** Appending to a sequence does not move the first occurrence of an element already there. */
  lemma IndexOfSnoc<T>(s: seq<T>, y: T, x: T)
    requires x in s
    ensures IndexOf(s + [y], x) == IndexOf(s, x)
  {
    var i := IndexOf(s, x);
    var i' := IndexOf(s + [y], x);
    assert (s + [y])[..i] == s[..i];
    assert (s + [y])[i] == x;
  }

  /** `[...new Set(s)]`: the elements of `s`, each once, in the order they first occur. */
  function Dedup<T(==,!new)>(s: seq<T>): (r: seq<T>)
    ensures forall x :: x in r <==> x in s
    ensures Distinct(r)
    ensures |r| <= |s|
  {
    if |s| == 0 then []
    else
      var init := s[..|s| - 1];
      var d := Dedup(init);
      var y := s[|s| - 1];
      assert s == init + [y];
      if y in d then d else d + [y]
  }

  /** A set keeps the order in which its elements were first inserted. */
  lemma {:induction false} DedupKeepsFirstOccurrenceOrder<T(!new)>(s: seq<T>)
    ensures forall i, j :: 0 <= i < j < |Dedup(s)| ==>
              IndexOf(s, Dedup(s)[i]) < IndexOf(s, Dedup(s)[j])
  {
    if |s| != 0 {
      var init := s[..|s| - 1];
      var y := s[|s| - 1];
      assert s == init + [y];
      var d := Dedup(init);
      DedupKeepsFirstOccurrenceOrder(init);
      forall x | x in d ensures IndexOf(s, x) == IndexOf(init, x) {
        IndexOfSnoc(init, y, x);
      }
      if y !in d {
        assert IndexOf(s, y) == |init| by {
          assert forall k :: 0 <= k < |init| ==> s[k] == init[k] != y;
        }
      }
    }
  }

  /** Deduplicating a list without repeats leaves it as it is. */
  lemma {:induction false} DedupOfDistinct<T(!new)>(s: seq<T>)
    requires Distinct(s)
    ensures Dedup(s) == s
  {
    if |s| != 0 {
      var init := s[..|s| - 1];
      assert Distinct(init);
      DedupOfDistinct(init);
      assert s[|s| - 1] !in init;
      assert s == init + [s[|s| - 1]];
    }
  }

  /** Deduplicating twice is deduplicating once. */
  lemma DedupIdempotent<T(!new)>(s: seq<T>)
    ensures Dedup(Dedup(s)) == Dedup(s)
  {
    DedupOfDistinct(Dedup(s));
  }

  // ---------------------------------------------------------------------------
  // `.toString()`

  /** How `Array.prototype.toString` writes one element: `null` as nothing. */
  function ElementText(e: Element): string
  {
    match e
    case None => ""
    case Some(x) => x
  }

  /** The texts of a list of elements, position by position. */
  function ElementTexts(s: seq<Element>): seq<string>
  {
    seq(|s|, k requires 0 <= k < |s| => ElementText(s[k]))
  }

  /** `list.toString()`: the element texts joined with commas. */
  function Render(s: seq<Element>): string
  {
    Join(ElementTexts(s), ",")
  }

  /** The text of the pure tail of `getImportsContent`: flatten, deduplicate, write out. */
  function ImportsContent(contents: seq<Option<seq<string>>>): string
  {
    Render(Dedup(Flat(contents)))
  }

  /** `getImportsContent(dir, filePaths, packageName)`, with each file given as
      its text or as `None` when reading it fails. */
  function GetImportsContent(files: seq<Option<string>>, packageName: Option<string>): string
  {
    ImportsContent(AllContents(files, packageName))
  }

  // ---------------------------------------------------------------------------
  // Properties of the result

  /** No symbol the scanner produces contains a comma. */
  lemma {:induction false} NoCommaInFlat(contents: seq<Option<seq<string>>>)
    requires forall i :: 0 <= i < |contents| && contents[i].Some? ==>
               forall x :: x in contents[i].value ==> ',' !in x
    ensures forall e :: e in Flat(contents) ==> ',' !in ElementText(e)
  {
    forall e | e in Flat(contents) ensures ',' !in ElementText(e) {
      if e.Some? {
        FlatSymbol(contents, e.value);
        var i :| 0 <= i < |contents| && contents[i].Some? && e.value in contents[i].value;
      }
    }
  }

  /** Scanned files only ever hold comma-free symbols. */
  lemma ScannedSymbolsHaveNoComma(files: seq<Option<string>>, packageName: Option<string>)
    ensures forall i :: 0 <= i < |files| && AllContents(files, packageName)[i].Some? ==>
              forall x :: x in AllContents(files, packageName)[i].value ==> ',' !in x
  {
    var contents := AllContents(files, packageName);
    forall i | 0 <= i < |files| && contents[i].Some?
      ensures forall x :: x in contents[i].value ==> ',' !in x
    {
      var file := files[i].value;
      match Run(Text.GetFileLines(file), packageName)
      case None =>
      case Some(st) =>
        assert contents[i].value == Symbols(Texts(st.fragments));
    }
  }

  /** The string splits back on its commas into the texts of the deduplicated
      elements, in order. The elements are distinct, their texts need not be:
      a failed file's `null` is written as an empty entry, like an empty symbol
      (`EmptySymbolAndNullCollide`). */
  lemma OutputSplitsIntoElementTexts(files: seq<Option<string>>, packageName: Option<string>)
    requires Dedup(Flat(AllContents(files, packageName))) != []
    ensures Split(GetImportsContent(files, packageName), ",") ==
              ElementTexts(Dedup(Flat(AllContents(files, packageName))))
  {
    var contents := AllContents(files, packageName);
    var d := Dedup(Flat(contents));
    ScannedSymbolsHaveNoComma(files, packageName);
    NoCommaInFlat(contents);
    var texts := ElementTexts(d);
    forall x | x in texts ensures ',' !in x {
      var k :| 0 <= k < |texts| && texts[k] == x;
      assert d[k] in Flat(contents);
    }
    SplitJoin(texts, ',');
  }

  /** A symbol that several files import occurs once among the deduplicated elements. */
  lemma SharedSymbolOnce(contents: seq<Option<seq<string>>>, x: string, i: int)
    requires 0 <= i < |contents| && contents[i].Some? && x in contents[i].value
    ensures exists k :: 0 <= k < |Dedup(Flat(contents))| && Dedup(Flat(contents))[k] == Some(x)
    ensures forall k, k' :: 0 <= k < k' < |Dedup(Flat(contents))| ==>
              Dedup(Flat(contents))[k] == Some(x) ==> Dedup(Flat(contents))[k'] != Some(x)
  {
    FlatSymbol(contents, x);
    assert Some(x) in Dedup(Flat(contents));
  }

  /** The entries hold one `null`, written as an empty entry, exactly when some file failed. */
  lemma FailureShowsOnce(contents: seq<Option<seq<string>>>)
    ensures None in Dedup(Flat(contents)) <==> exists i :: 0 <= i < |contents| && contents[i].None?
    ensures forall k, k' :: 0 <= k < k' < |Dedup(Flat(contents))| ==>
              Dedup(Flat(contents))[k] == None ==> Dedup(Flat(contents))[k'] != None
  {
    FlatNull(contents);
  }

  /** With no files the result is the empty string. */
  lemma NoFilesNothing(packageName: Option<string>)
    ensures GetImportsContent([], packageName) == ""
  {
    assert AllContents([], packageName) == [];
  }

  /** Two files importing the same name give that name once. */
  lemma SameSymbolTwice(x: string)
    ensures ImportsContent([Some([x]), Some([x])]) == x
  {
    FlatOfTwo(Some([x]), Some([x]));
    DedupPair(Some(x), Some(x));
    assert ElementTexts([Some(x)]) == [x];
  }

  /** A file that fails after one that does not leaves an empty entry after a comma. */
  lemma FailedFileLeavesEmptyEntry(x: string)
    ensures ImportsContent([Some([x]), None]) == x + ","
  {
    FlatOfTwo(Some([x]), None);
    DedupPair(Some(x), None);
    var texts := ElementTexts([Some(x), None]);
    assert texts == [x, ""];
    assert texts[1..] == [""];
    assert Join(texts, ",") == x + "," + Join([""], ",");
  }

  /** An empty symbol and a failed file's `null` are two different elements of
      the set, yet `toString()` writes both as an empty entry: after a symbol
      `x` other than `""`, the output holds two empty entries. */
  lemma EmptySymbolAndNullCollide(x: string)
    ensures ImportsContent([Some([x, ""]), None]) == if x == "" then "," else x + ",,"
  {
    var d := Dedup(Flat([Some([x, ""]), None]));
    SymbolsThenNullElements(x);
    assert ImportsContent([Some([x, ""]), None]) == Join(ElementTexts(d), ",");
    if x == "" {
      ElementTextsTwo(Some(""), None);
      JoinTwo("", "", ",");
    } else {
      ElementTextsThree(Some(x), Some(""), None);
      JoinTwo("", "", ",");
      JoinThree(x, "", "", ",");
    }
  }

  /** The deduplicated elements of a file giving `x` and `""`, then a failed file. */
  lemma SymbolsThenNullElements(x: string)
    ensures Dedup(Flat([Some([x, ""]), None])) ==
              if x == "" then [Some(""), None] else [Some(x), Some(""), None]
  {
    FlatPairThenNull(x, "");
    DedupPair(Some(x), Some(""));
    DedupThree(Some(x), Some(""), None);
  }

  /** The flattened list of a two-symbol file followed by a failed one. */
  lemma FlatPairThenNull(x: string, y: string)
    ensures Flat([Some([x, y]), None]) == [Some(x), Some(y), None]
  {
    var a := Some([x, y]);
    assert [a, None][..1] == [a] && [a][..0] == [];
    assert Entries(a) == [Some(x), Some(y)];
    assert Flat([a]) == Entries(a);
    assert Flat([a, None]) == Flat([a]) + Entries(None);
  }

  /** Deduplicating three elements: the third is kept unless it already occurs. */
  lemma DedupThree<T(!new)>(a: T, b: T, c: T)
    ensures Dedup([a, b, c]) == if c in Dedup([a, b]) then Dedup([a, b]) else Dedup([a, b]) + [c]
  {
    assert [a, b, c][..2] == [a, b];
  }

  /** The texts of two elements. */
  lemma ElementTextsTwo(a: Element, b: Element)
    ensures ElementTexts([a, b]) == [ElementText(a), ElementText(b)]
  {
  }

  /** The texts of three elements. */
  lemma ElementTextsThree(a: Element, b: Element, c: Element)
    ensures ElementTexts([a, b, c]) == [ElementText(a), ElementText(b), ElementText(c)]
  {
  }

  /** Two texts joined. */
  lemma JoinTwo(a: string, b: string, sep: string)
    ensures Join([a, b], sep) == a + sep + b
  {
    assert [a, b][1..] == [b];
  }

  /** Three texts joined: the first, then the other two. */
  lemma JoinThree(a: string, b: string, c: string, sep: string)
    ensures Join([a, b, c], sep) == a + sep + Join([b, c], sep)
  {
    assert [a, b, c][1..] == [b, c];
  }

  lemma FlatOfTwo(a: Option<seq<string>>, b: Option<seq<string>>)
    ensures a.Some? && |a.value| == 1 ==> Flat([a, b]) == [Some(a.value[0])] + Entries(b)
  {
    assert [a, b][..1] == [a] && [a][..0] == [];
    assert Flat([a]) == Entries(a);
    assert Flat([a, b]) == Flat([a]) + Entries(b);
    if a.Some? && |a.value| == 1 {
      assert Entries(a) == [Some(a.value[0])];
    }
  }

  lemma DedupPair<T(!new)>(a: T, b: T)
    ensures Dedup([a, b]) == if a == b then [a] else [a, b]
  {
    assert [a, b][..1] == [a] && [a][..0] == [];
  }
}
