# impseek import scanner, modelled in Dafny

impseek walks a source tree and prints the symbols named in `import`
statements, optionally only those whose line ends with a given package name,
deduplicated and joined with commas. This project models the import extractor
and the aggregator of `src/index.ts` and proves properties of them:

- `getFileLines`: cuts a file into lines on CRLF when the file holds one, on LF
  otherwise.
- `includesPackageName`: with a name, a suffix test on the raw line; without
  one, a search for `/from '.*'/`.
- `reg`: `/(?<=import\s{?)(.*)(?=}?\sfrom)/g`, written out as the
  leftmost-longest match the engine reports. Its first match (`match(reg)?.[0]`)
  is what the import line contributes.
- `removeParentheses`, `removeQuote` and `trim`.
- `getImportContents`: the line scanner with its accumulator `str`, its flag
  `state` and its output `list`, then `split(',')` and `trim` on every pushed
  string.
- `getImportsContent`: one result per file (`null` when reading or scanning the
  file fails), then `flat()`, `new Set` and `toString()`.

Modules:

- `Wrappers`: `Option`.
- `JsString`: the `String.prototype` operations the scanner uses (`includes`,
  `endsWith`, `split`, `join`, `trim`, `replace` with a one-character search
  string), with their laws.
- `Patterns`: `IMPORT`, the filter and the regular expression `reg`.
- `Text`: `getFileLines`, `removeParentheses` and `removeQuote`.
- `Extractor`: the scanner, in two forms:
  - a fold `Run` of a step function `Step` over the lines;
  - a method `GetImportContents` with the loop and variables of `getImportContents`, proved
    to compute that fold.
- `Aggregator`: `getImportsContent` after the files are read.
- `Scenarios`: what the scanner makes of typical files.

A thrown exception is `None`. `item.match(reg)?.[0]` is `undefined` on a line
without a match, and `removeParentheses(undefined)` then throws. So a file in
which such a line passes the filter makes `getImportContents` throw, and the
aggregator records a `null` for that file.

Five places where the code does something other than what a reader of the
project's description would expect. The model follows the code in each:

- Order. The deduplicated list is in the order of first occurrence, because a
  JavaScript `Set` keeps insertion order. This is proved
  (`Aggregator.DedupKeepsFirstOccurrenceOrder`), although only set semantics
  are promised.
- Failed files. A file that cannot be read, or whose scan throws, does not
  simply contribute no symbols. It contributes a `null`, which `flat()` keeps
  and `toString()` writes as an empty entry: `a` followed by a failed file
  gives `"a,"` (`Aggregator.FailedFileLeavesEmptyEntry`).
- Braces. `removeParentheses` removes only the first `{` and then the first
  `}` of what is left, not every brace (`Text.RemoveParenthesesCutsFirst`,
  with the example `Text.RemoveParenthesesFirstOnly`).
- Repeated empty entries. The deduplicated elements are distinct, but their
  printed texts need not be. A failed file's `null` and an empty symbol `""`
  are different elements, and `toString()` writes both as an empty entry. So
  a file giving `a` and `""`, then a failed file, gives `"a,,"`
  (`Aggregator.EmptySymbolAndNullCollide`).
- Files without imports. Such a file need not yield an empty list. A
  one-line file without `import` whose line passes the filter pushes the
  empty accumulator, and yields the single symbol `""`
  (`Scenarios.NoImportLineYieldsEmptySymbol`).

## Model

| member | source | states |
|---|---|---|
| JsString.Trim | src/index.ts:24-26 | `trim` leaves no white space (ECMAScript `WhiteSpace` or `LineTerminator`) at either end |
| JsString.TrimStripsWhiteSpace | src/index.ts:24-26 | the trimmed string is a slice of the input with only white space before and after it |
| JsString.TrimIdempotent | src/index.ts:24-26 | trimming twice is trimming once |
| JsString.TrimKeeps | src/index.ts:24-26 | a string without white space at its ends is left as it is |
| JsString.TrimDropsLeading | src/index.ts:24-26 | a leading white-space character is dropped |
| JsString.RemoveFirst | src/index.ts:29 | `replace(c, '')` leaves a string without `c` alone and otherwise shortens it by one |
| JsString.RemoveFirstCutsFirst | src/index.ts:29 | what `replace(c, '')` removes is exactly the first `c`; everything before and after it stays |
| JsString.RemoveFirstAfter | src/index.ts:55 | a prefix without `c` is kept by `replace(c, '')` |
| JsString.RemoveFirstMultiset | src/index.ts:55 | `replace(c, '')` takes exactly one `c` out of the characters, if there is one |
| JsString.IndexOf | src/index.ts:55 | the first position of an element, or the length when it does not occur; it occurs exactly when the position is inside |
| JsString.CutFirst | src/index.ts:55 | reference definition: the string with the character at the first index of `c` cut out, if `c` occurs |
| JsString.RemoveFirstIsCutFirst | src/index.ts:55 | `replace(c, '')` equals the reference definition `CutFirst` for every string |
| JsString.Contains | src/index.ts:33 | `includes(w)` holds exactly when `w` occurs at some index |
| JsString.EndsWith | src/index.ts:44 | definition: `endsWith(w)` holds when the last `|w|` characters are `w`; used through `Patterns.IncludesPackageName` and `Scenarios.SuffixFilter` |
| JsString.FindFrom | src/index.ts:34 | the leftmost occurrence at or after a position, or the end of the string when there is none |
| JsString.Split | src/index.ts:34 | `split(sep)` gives at least one piece; joining the pieces with `sep` gives back the string; no piece contains `sep` |
| JsString.SplitLength | src/index.ts:34-36 | a separator that cannot overlap itself gives one more piece than it has occurrences |
| JsString.SplitJoin | src/index.ts:86 | joining on a character and splitting on it again gives back the pieces when none holds the character |
| JsString.SplitWithoutSeparator | src/index.ts:36 | a string without the separator is its own only piece |
| JsString.SplitAtFirst | src/index.ts:86 | a one-character separator cuts at its first occurrence |
| JsString.Join | src/index.ts:99 | definition: `join(sep)` puts `sep` between consecutive pieces; its partner is `JsString.SplitJoin` |
| Text.Separator | src/index.ts:33-36 | definition: CRLF when the file holds one, LF otherwise; characterised by `Text.SeparatorChoice` |
| Text.GetFileLines | src/index.ts:32-37 | the file has one more line than separators; joining the lines with the separator gives the file back; no line contains the separator |
| Text.SeparatorChoice | src/index.ts:33-36 | the file is split on CRLF exactly when CRLF occurs in it, and on LF otherwise |
| Text.EmptyFileIsOneLine | src/index.ts:32-37 | an empty file is one empty line |
| Text.SingleLine | src/index.ts:32-37 | a file without a line feed is one line, carriage returns included |
| Text.TwoLines | src/index.ts:36 | one line feed between two pieces without line breaks gives exactly those two lines |
| Text.LoneCarriageReturnKept | src/index.ts:36 | without any CRLF, a trailing carriage return stays in its line |
| Text.MixedEndingsSplitOnCrLfOnly | src/index.ts:33-34 | with a CRLF in the file, a lone LF elsewhere does not end a line |
| Text.RemoveParentheses | src/index.ts:54-56 | exactly one `{` and one `}` are removed when present, and nothing else: length and multiset of characters |
| Text.RemoveParenthesesCutsFirst | src/index.ts:54-56 | the `{` removed is the first one and the `}` removed is the first one of what is left; all other characters stay in order |
| Text.RemoveParenthesesFirstOnly | src/index.ts:54-56 | a second `}` is left in place |
| Text.RemoveParenthesesAroundList | src/index.ts:54-56 | a braced list without a closing brace inside loses exactly its two braces |
| Text.RemoveQuote | src/index.ts:28-30 | exactly one `'` and one `"` are removed when present, and nothing else |
| Text.RemoveQuoteCutsFirst | src/index.ts:28-30 | the `'` removed is the first one and the `"` removed is the first one of what is left; all other characters stay in order |
| Patterns.NameGiven | src/index.ts:43 | definition: a name counts only when it is present and not empty (JavaScript truthiness) |
| Patterns.FromQuoteAt | src/index.ts:41 | definition: a match of `/from '.*'/` from `from '` to a later quote, with no line terminator in between |
| Patterns.IncludesPackageName | src/index.ts:39-47 | with a non-empty name, the line ends with it; without one, `/from '.*'/` matches some slice of the line |
| Patterns.QuoteCloses | src/index.ts:41 | a quote follows on the same line |
| Patterns.FromQuoteFrom | src/index.ts:41-46 | `/from '.*'/` matches at or after a position |
| Patterns.LooksBehind | src/index.ts:12 | definition: the lookbehind `(?<=import\s{?)` at a position |
| Patterns.LooksAhead | src/index.ts:12 | definition: the lookahead `(?=}?\sfrom)` at a position |
| Patterns.CaptureAt | src/index.ts:12 | definition: a slice that `reg` can match: the lookbehind at its start, the lookahead at its end, no line terminator inside |
| Patterns.FirstMatch | src/index.ts:12 | definition: the match the engine reports, leftmost and then longest; `Patterns.Capture` and `Patterns.CaptureIsFirstMatch` tie it to the computation |
| Patterns.RunEnd | src/index.ts:12 | where `.*` must stop: the first line terminator, or the end |
| Patterns.LastLookahead | src/index.ts:12 | backtracking of `.*`: the last position where `(?=}?\sfrom)` holds |
| Patterns.MatchEndAt | src/index.ts:12 | the longest match of `reg` from a start position, or none |
| Patterns.FirstMatchFrom | src/index.ts:12 | the leftmost start with a match, and the longest match there; none when no position matches |
| Patterns.Capture | src/index.ts:66 | `item.match(reg)?.[0]` is undefined exactly when `reg` matches nowhere; otherwise it is the leftmost-longest match |
| Patterns.CaptureIsFirstMatch | src/index.ts:66 | any leftmost-longest match is the capture |
| Extractor.Texts | src/index.ts:66 | definition: `list` as the strings pushed for the fragments, with `removeParentheses` applied to captures |
| Extractor.Step | src/index.ts:63-84 | definition: one pass of the `forEach` body, `None` where it throws; its partners are `Extractor.StepFailsExactlyOnUncapturedLine` and the `Step…` lemmas below |
| Extractor.Run | src/index.ts:62-85 | definition: the `forEach` as a fold of `Step`; its partners are `Extractor.FailsExactlyOnUncapturedLine`, `Extractor.FragmentPerMatchingLine` and `Extractor.AccumulatorShape` |
| Extractor.ImportContents | src/index.ts:58-87 | definition: `getImportContents` as a function; `Extractor.GetImportContents` computes it, and the lemmas below state what it returns |
| Extractor.GetImportContents | src/index.ts:58-87 | the method with the loop of `getImportContents` computes the fold `ImportContents` |
| Extractor.ScanLines | src/index.ts:59-85 | the `forEach` loop pushes exactly the strings of the fold's fragments, or throws where the fold does |
| Extractor.ScanLine | src/index.ts:63-84 | one pass of the loop body is one `Step`, and it throws exactly where `Step` does |
| Extractor.StepPushesCapture | src/index.ts:63-67 | a filtered import line that `reg` matches pushes its capture and clears the flag |
| Extractor.StepAccumulatesImport | src/index.ts:68-70 | an import line that fails the filter is appended to the accumulator and sets the flag |
| Extractor.StepFlushesAccumulator | src/index.ts:72-76 | any other filtered line pushes the accumulator and empties it |
| Extractor.RunSnoc | src/index.ts:62-85 | scanning one more line is one more step |
| Extractor.SingleLineScan | src/index.ts:58-87 | a file without a line feed is scanned in a single step |
| Extractor.TrimAll | src/index.ts:86 | definition: `map(trim)`; what it yields is stated by `Extractor.SplitTrim` |
| Extractor.SplitTrim | src/index.ts:86 | `split(',').map(trim)` gives one piece per comma plus one, each trimmed and without a comma |
| Extractor.SplitTrimAtComma | src/index.ts:86 | each comma ends one trimmed piece |
| Extractor.SplitTrimNoComma | src/index.ts:86 | without a comma the fragment is one trimmed piece |
| Extractor.Symbols | src/index.ts:86 | there are at least as many symbols as pushed strings, and no symbol holds a comma |
| Extractor.CapturedFragmentSymbols | src/index.ts:66 | a captured fragment gives the pieces of the capture without its braces |
| Extractor.RawFragmentSymbols | src/index.ts:86 | an accumulated fragment gives its pieces unchanged, braces included |
| Extractor.FailsExactlyOnUncapturedLine | src/index.ts:62-85 | the scan throws exactly when some import line passes the filter and `reg` does not match it |
| Extractor.StepFailsExactlyOnUncapturedLine | src/index.ts:63-67 | one step throws exactly on such a line |
| Extractor.FragmentPerMatchingLine | src/index.ts:62-85 | one fragment per filtered line, in line order; a fragment is a capture exactly when its line holds `import`, and it is then that line's capture |
| Extractor.AccumulatorShape | src/index.ts:60-84 | the accumulator holds at most one line without `import`, then only import lines that failed the filter; while the flag is set it is empty or holds `import` |
| Extractor.NothingMatchesNothingFound | src/index.ts:58-87 | a file with no filtered line yields no symbols and does not throw |
| Extractor.CleanedCaptures | src/index.ts:66 | definition: `removeParentheses(item.match(reg)?.[0])` for each line |
| Extractor.CapturedImportsOnly | src/index.ts:58-87 | a file in which no line throws and every filtered line is an import line yields the pieces of the cleaned captures of the filtered lines, in line order |
| Aggregator.FileContents | src/index.ts:90-98 | definition: one file's entry of `contents`; `Aggregator.FileFailsExactly` says when it is `null` |
| Aggregator.FileFailsExactly | src/index.ts:90-98 | a file gives `null` exactly when it cannot be read or one of its lines is an import line that passes the filter and that `reg` does not match |
| Aggregator.AllContents | src/index.ts:90-98 | definition: `contents`, one entry per file in the order of the file list |
| Aggregator.Entries | src/index.ts:99 | definition: what `flat()` makes of one entry: an array spread, a `null` kept as one element |
| Aggregator.Flat | src/index.ts:99 | definition: `contents.flat()`; its partners are `Aggregator.FlatSymbol` and `Aggregator.FlatNull` |
| Aggregator.FlatSymbol | src/index.ts:99 | a symbol is in the flattened list exactly when some file produced it |
| Aggregator.FlatNull | src/index.ts:99 | `null` is in the flattened list exactly when some file failed |
| Aggregator.Dedup | src/index.ts:99 | `[...new Set(s)]` has the same members as `s`, each once, and is no longer than `s` |
| Aggregator.DedupKeepsFirstOccurrenceOrder | src/index.ts:99 | the distinct elements come in the order of their first occurrence |
| Aggregator.DedupOfDistinct | src/index.ts:99 | a list without repeats is left as it is |
| Aggregator.DedupIdempotent | src/index.ts:99 | deduplicating twice is deduplicating once |
| Aggregator.ElementText | src/index.ts:99 | definition: how `toString()` writes one element, `null` as nothing |
| Aggregator.ElementTexts | src/index.ts:99 | definition: the element texts, position by position |
| Aggregator.Render | src/index.ts:99 | definition: `toString()`, the element texts joined with commas; its partner is `Aggregator.OutputSplitsIntoElementTexts` |
| Aggregator.ImportsContent | src/index.ts:99 | definition: flatten, deduplicate and write out the per-file results |
| Aggregator.GetImportsContent | src/index.ts:89-100 | definition: `getImportsContent` after the reads; the lemmas below state what it returns |
| Aggregator.ScannedSymbolsHaveNoComma | src/index.ts:86 | every symbol of a scanned file is free of commas |
| Aggregator.OutputSplitsIntoElementTexts | src/index.ts:89-100 | splitting the output on commas gives back the texts of the deduplicated elements, in order; a `null` and an empty symbol both give an empty text, so the texts can repeat |
| Aggregator.SharedSymbolOnce | src/index.ts:99 | a symbol some file produced occurs exactly once among the deduplicated elements (an empty symbol can still print like a `null`) |
| Aggregator.FailureShowsOnce | src/index.ts:94-99 | the entries hold `null` exactly when some file failed, and then only once |
| Aggregator.NoFilesNothing | src/index.ts:89-100 | no files give the empty string |
| Aggregator.SameSymbolTwice | src/index.ts:99 | two files with the same single symbol give that symbol alone |
| Aggregator.FailedFileLeavesEmptyEntry | src/index.ts:94-99 | a failed file after a symbol gives that symbol followed by a comma |
| Aggregator.SymbolsThenNullElements | src/index.ts:94-99 | a file giving `x` and `""`, then a failed file, leaves the distinct elements `x`, `""` and `null` (only `""` and `null` when `x` is `""`) |
| Aggregator.EmptySymbolAndNullCollide | src/index.ts:94-99 | a file giving `x` and `""`, then a failed file, is written as `x` followed by two empty entries (`","` when `x` is `""`): the same printed entry twice |
| Scenarios.BracedImportMatch | src/index.ts:12 | on `import {names} from 'source'` the match of `reg` runs from after `import ` to after the closing brace |
| Scenarios.BracedImportCapture | src/index.ts:66 | the capture of a braced import is its braced list |
| Scenarios.BracedImportLine | src/index.ts:39-47 | a braced import is one line that holds `import` and passes the filter without a name |
| Scenarios.SingleImportLineFile | src/index.ts:62-87 | a one-line file that passes the filter yields the pieces of its capture, or throws without one |
| Scenarios.OneBracedImportFile | src/index.ts:58-87 | a file made of one braced import yields the trimmed names between the braces |
| Scenarios.BracedPair | src/index.ts:58-87 | `import {a, b} from 'source'` yields `a` and `b` |
| Scenarios.ImportThenPlainLine | src/index.ts:58-87 | a captured import line followed by a line with neither `import` nor a filter match yields the pieces of the first line's cleaned capture |
| Scenarios.CaptureThenPlainScan | src/index.ts:62-85 | the scan of those two lines is one captured fragment, with an empty accumulator and the flag cleared |
| Scenarios.NoFromQuote | src/index.ts:41-46 | a line without an `f` fails the filter when no name is given |
| Scenarios.BracedImportThenOtherLine | src/index.ts:58-87 | `import {names} from 'source'` followed by a line such as `const x = 1` yields the trimmed names between the braces |
| Scenarios.PairPieces | src/index.ts:86 | `"a, b".split(',').map(trim)` is `[a, b]` |
| Scenarios.SpacedName | src/index.ts:86 | a name after `, ` loses its leading space |
| Scenarios.GluedBraceNoCapture | src/index.ts:12 | `import{...}` has no match: the lookbehind needs white space after `import` |
| Scenarios.GluedBraceThrows | src/index.ts:66 | a file made of such a line throws when the line passes the filter |
| Scenarios.SplitImportScan | src/index.ts:62-85 | an import over two lines (keyword, then `from '...'`) pushes the first line as accumulated |
| Scenarios.SplitImportKeepsFirstLine | src/index.ts:58-87 | such a file yields the pieces of the whole first line, keyword included, and nothing of the second |
| Scenarios.NoImportLineYieldsEmptySymbol | src/index.ts:71-76 | a one-line file without `import` whose line passes the filter yields the single symbol `""`, not an empty list |
| Scenarios.SuffixFilter | src/index.ts:43-44 | with a name, a trailing semicolon after the quoted source defeats the filter |
| Scenarios.SameNameFromTwoFiles | src/index.ts:89-100 | two files importing the same name from different sources give that name once |

## Left out

- `findFilesPaths` and `fast-glob` (lines 16-22) are not modelled. The files arrive as a list, each either its text or `None` when reading fails.
- `fs.readFile`, `path.resolve` and `console.error` (lines 92-95) are file I/O and logging. A failed read is the `None` given for that file.
- The `Promise.all` concurrency (line 90) is modelled as a map over the file list in list order. That is the order `Promise.all` returns its results in, whatever the timing.
- The command line (`cac`, `picocolors`, `process.exit`, the version lookup, timing and printing, lines 101-147) is plumbing around `getImportsContent` and is not modelled.
- No general regular-expression engine is modelled. Only `reg` and `/from '.*'/` are written out, as predicates over positions with the engine's leftmost-longest choice.
- Strings are sequences of characters. UTF-16 surrogate pairs are not modelled, which only matters for characters outside the Basic Multilingual Plane.
- Only the first match of `reg` is modelled. With its `g` flag, `item.match(reg)` returns every match, and it starts from index 0 on every call, so no state carries from one line to the next. `?.[0]` reads only the first match.
- The global flag of `/from '.*'/` does not carry over between calls, because the regular expression is created fresh inside `includesPackageName`. So `test` always starts at the beginning of the line.
- An empty package name is falsy in JavaScript and behaves as no name (`Patterns.NameGiven`).
- `Text.GetFileLines` (line 34): the optional chaining in `file?.split` is not modelled, because `file` is a string whenever `includes` has just succeeded on it.
- `Extractor.Symbols` (line 86): `str?.split` on `undefined` is not modelled, because every pushed string is defined whenever the push itself did not throw.
- `JsString.Trim`: the contract says only that the result has no white space at its ends. The slice property is stated separately, in `JsString.TrimStripsWhiteSpace`.
- `Scenarios.SuffixFilter`, `Scenarios.SameNameFromTwoFiles`, `Aggregator.SameSymbolTwice`, `Aggregator.EmptySymbolAndNullCollide` and `Text.LoneCarriageReturnKept` state concrete behaviour: for fixed strings, or for families of strings under the lemma's requires. They are not general laws.
