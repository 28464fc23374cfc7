/** The small string helpers of the scanner: splitting a file into lines and
    stripping braces or quotes. */
module Text {
  import opened JsString

  const CRLF := "\r\n"
  const LF := "\n"

  /** The separator `getFileLines` chooses for a whole file: CRLF as soon as
      the file holds one, LF otherwise. */
  function Separator(file: string): string
  {
    if Contains(file, CRLF) then CRLF else LF
  }

  /** `getFileLines(file)`: the file cut at every occurrence of its separator,
      with no other clean-up of the lines. */
  function GetFileLines(file: string): (lines: seq<string>)
    ensures |lines| == Count(file, Separator(file)) + 1
    ensures Join(lines, Separator(file)) == file
    ensures forall line :: line in lines ==> !Contains(line, Separator(file))
  {
    var sep := Separator(file);
    SplitLength(file, sep);
    Split(file, sep)
  }

  /** The file is split on CRLF exactly when it holds one. */
  lemma SeparatorChoice(file: string)
    ensures Separator(file) == CRLF <==> exists j :: OccursAt(file, CRLF, j)
    ensures Separator(file) != CRLF ==> Separator(file) == LF
  {
  }

  /** An empty file is one empty line. */
  lemma EmptyFileIsOneLine()
    ensures GetFileLines("") == [""]
  {
  }

  /** A file without a line feed is a single line, carriage returns included. */
  lemma SingleLine(file: string)
    requires '\n' !in file
    ensures GetFileLines(file) == [file]
  {
    MissingCharacter(file, CRLF, 1);
    MissingCharacter(file, LF, 0);
    SplitWithoutSeparator(file, LF);
  }

  /** A line feed between two pieces free of line breaks separates exactly those two lines. */
  lemma TwoLines(first: string, second: string)
    requires '\n' !in first && '\r' !in first && '\n' !in second
    ensures GetFileLines(first + "\n" + second) == [first, second]
  {
    var file := first + "\n" + second;
    var k := |first|;
    assert file[..k] == first && file[k] == '\n' && file[k + 1..] == second;
    forall j | 0 <= j < k ensures !OccursAt(file, LF, j) {
      assert file[j] == first[j];
      MismatchAt(file, LF, j, 0);
    }
    forall j | 0 <= j && j + 2 <= |file| ensures !OccursAt(file, CRLF, j) {
      if j < k {
        assert file[j] == first[j];
        MismatchAt(file, CRLF, j, 0);
      } else {
        assert file[j + 1] == second[j - k];
        MismatchAt(file, CRLF, j, 1);
      }
    }
    assert !Contains(file, CRLF);
    assert OccursAt(file, LF, k) by { assert file[k..k + 1] == [file[k]]; }
    assert FindFrom(file, LF, 0) == k;
    MissingCharacter(second, LF, 0);
    SplitWithoutSeparator(second, LF);
  }

  /** Without any CRLF the file is split on LF, and a carriage return at the
      end of the last line stays in it. */
  lemma LoneCarriageReturnKept()
    ensures GetFileLines("a\nb\r") == ["a", "b\r"]
  {
    var s := "a\nb\r";
    OccursAtByCharacters(s, CRLF);
    OccursAtByCharacters(s, LF);
    OccursAtByCharacters("b\r", LF);
    assert !Contains(s, CRLF);
    assert FindFrom(s, LF, 0) == 1;
    assert s[2..] == "b\r";
    assert FindFrom("b\r", LF, 0) == 2;
    assert Split("b\r", LF) == ["b\r"];
    assert Split(s, LF) == [s[..1]] + Split(s[2..], LF);
    assert Separator(s) == LF && s[..1] == "a";
  }

  /** With a CRLF somewhere, a lone LF elsewhere no longer ends a line. */
  lemma MixedEndingsSplitOnCrLfOnly()
    ensures GetFileLines("a\r\nb\nc") == ["a", "b\nc"]
  {
    var s := "a\r\nb\nc";
    FirstCrLfAtOne();
    assert s[3..] == "b\nc";
    MissingCharacter("b\nc", CRLF, 0);
    SplitWithoutSeparator("b\nc", CRLF);
    assert Split(s, CRLF) == [s[..1]] + Split(s[3..], CRLF);
    assert Separator(s) == CRLF && s[..1] == "a";
  }

  lemma FirstCrLfAtOne()
    ensures Contains("a\r\nb\nc", CRLF) && FindFrom("a\r\nb\nc", CRLF, 0) == 1
  {
    OccursAtByCharacters("a\r\nb\nc", CRLF);
  }

  /** `removeParentheses(str)`: only the first `{` and then the first `}` are removed. */
  function RemoveParentheses(str: string): (r: string)
    ensures '{' !in str && '}' !in str ==> r == str
    ensures |r| == |str| - (if '{' in str then 1 else 0) - (if '}' in str then 1 else 0)
    ensures multiset(r) + multiset(if '{' in str then "{" else "") + multiset(if '}' in str then "}" else "")
            == multiset(str)
  {
    var s1 := RemoveFirst(str, '{');
    var r := RemoveFirst(s1, '}');
    RemoveFirstMultiset(str, '{');
    assert '}' in s1 <==> '}' in str by {
      assert '}' in s1 ==> '}' in multiset(s1);
      assert '}' in str ==> '}' in multiset(str);
    }
    RemoveFirstMultiset(s1, '}');
    r
  }

  /** The `{` removed is the first one and the `}` removed is the first one of
      what is left; every other character stays, in order. */
  lemma RemoveParenthesesCutsFirst(str: string)
    ensures RemoveParentheses(str) == CutFirst(CutFirst(str, '{'), '}')
  {
    RemoveFirstIsCutFirst(str, '{');
    RemoveFirstIsCutFirst(RemoveFirst(str, '{'), '}');
  }

  /** Braces further in are left alone. */
  lemma RemoveParenthesesFirstOnly()
    ensures RemoveParentheses("{a}}") == "a}"
  {
    assert RemoveFirst("{a}}", '{') == "a}}";
    assert RemoveFirst("a}}", '}') == "a}" by {
      assert "a}}"[1..] == "}}";
      assert RemoveFirst("}}", '}') == "}";
    }
  }

  /** The capture of a braced list loses its two braces, whatever the list
      holds besides no closing brace. */
  lemma RemoveParenthesesAroundList(names: string)
    requires '}' !in names
    ensures RemoveParentheses("{" + names + "}") == names
  {
    var list := "{" + names + "}";
    assert list[0] == '{' && list[1..] == names + "}";
    RemoveFirstAfter(names, "}", '}');
    assert RemoveFirst("}", '}') == "";
  }

  /** `removeQuote(s)`: only the first `'` and then the first `"` are removed. */
  function RemoveQuote(s: string): (r: string)
    ensures '\'' !in s && '"' !in s ==> r == s
    ensures |r| == |s| - (if '\'' in s then 1 else 0) - (if '"' in s then 1 else 0)
    ensures multiset(r) + multiset(if '\'' in s then "'" else "") + multiset(if '"' in s then "\"" else "")
            == multiset(s)
  {
    var s1 := RemoveFirst(s, '\'');
    var r := RemoveFirst(s1, '"');
    RemoveFirstMultiset(s, '\'');
    assert '"' in s1 <==> '"' in s by {
      assert '"' in s1 ==> '"' in multiset(s1);
      assert '"' in s ==> '"' in multiset(s);
    }
    RemoveFirstMultiset(s1, '"');
    r
  }

  /** The `'` removed is the first one and the `"` removed is the first one of
      what is left; every other character stays, in order. */
  lemma RemoveQuoteCutsFirst(s: string)
    ensures RemoveQuote(s) == CutFirst(CutFirst(s, '\''), '"')
  {
    RemoveFirstIsCutFirst(s, '\'');
    RemoveFirstIsCutFirst(RemoveFirst(s, '\''), '"');
  }
}
