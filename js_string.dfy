/** The `String.prototype` operations the import scanner relies on, over strings
    as sequences of characters: `includes`, `endsWith`, `split` and `join` with
    a string separator, `trim`, and `replace` with a one-character string. */
module JsString {

  /** ECMAScript white space and line terminators: the class `\s` of a regular
      expression, and what `String.prototype.trim` strips. */
  predicate IsWhiteSpace(c: char)
  {
    c == ' ' || c == '\t' || c == '\n' || c == '\r'
    || c as int == 0x0B || c as int == 0x0C || c as int == 0xA0 || c as int == 0x1680
    || (0x2000 <= c as int <= 0x200A)
    || c as int == 0x2028 || c as int == 0x2029 || c as int == 0x202F
    || c as int == 0x205F || c as int == 0x3000 || c as int == 0xFEFF
  }

  /** The characters that `.` does not match in a regular expression without the `s` flag. */
  predicate IsLineTerminator(c: char)
  {
    c == '\n' || c == '\r' || c as int == 0x2028 || c as int == 0x2029
  }

  /** No line terminator among `t[a..b]`. */
  predicate NoTerminatorBetween(t: string, a: int, b: int)
    requires 0 <= a <= b <= |t|
  {
    forall m | a <= m < b :: !IsLineTerminator(t[m])
  }

  /** Neither end of `s` is white space. */
  predicate Trimmed(s: string)
  {
    s == [] || (!IsWhiteSpace(s[0]) && !IsWhiteSpace(s[|s| - 1]))
  }

  predicate AllWhiteSpace(s: string)
  {
    forall k | 0 <= k < |s| :: IsWhiteSpace(s[k])
  }

  /** `w` occurs in `s` starting at index `j`. */
  predicate OccursAt(s: string, w: string, j: int)
  {
    0 <= j && j + |w| <= |s| && s[j..j + |w|] == w
  }

  /** `w[k..]` occurs in `s` at `j + k`, checked one character at a time; on
      literal strings the verifier can evaluate this directly. */
  predicate MatchesFrom(s: string, w: string, j: nat, k: nat)
    decreases |w| - k
  {
    if k >= |w| then j + |w| <= |s|
    else j + k < |s| && s[j + k] == w[k] && MatchesFrom(s, w, j, k + 1)
  }

  lemma {:induction false} MatchesFromIff(s: string, w: string, j: nat, k: nat)
    requires k <= |w|
    ensures MatchesFrom(s, w, j, k) <==> (j + |w| <= |s| && forall m | k <= m < |w| :: s[j + m] == w[m])
    decreases |w| - k
  {
    if k < |w| {
      MatchesFromIff(s, w, j, k + 1);
    }
  }

  /** One mismatching character rules an occurrence out. */
  lemma MismatchAt(s: string, w: string, j: int, m: int)
    requires 0 <= m < |w| && 0 <= j + m < |s| && s[j + m] != w[m]
    ensures !OccursAt(s, w, j)
  {
    if 0 <= j && j + |w| <= |s| {
      assert s[j..j + |w|][m] == s[j + m];
    }
  }

  /** A string that lacks one of the characters of `w` does not contain `w`. */
  lemma MissingCharacter(s: string, w: string, m: int)
    requires 0 <= m < |w| && w[m] !in s
    ensures !Contains(s, w)
  {
    forall j | 0 <= j + m < |s| ensures !OccursAt(s, w, j) {
      MismatchAt(s, w, j, m);
    }
  }

  /** Occurrence tests on given strings reduce to character comparisons. */
  lemma OccursAtByCharacters(s: string, w: string)
    ensures forall j: nat :: OccursAt(s, w, j) == MatchesFrom(s, w, j, 0)
  {
    forall j: nat ensures OccursAt(s, w, j) == MatchesFrom(s, w, j, 0) {
      MatchesFromIff(s, w, j, 0);
      if j + |w| <= |s| {
        assert (s[j..j + |w|] == w) <==> (forall m | 0 <= m < |w| :: s[j + m] == w[m]);
      }
    }
  }

  /** The first index at or after `j` where `w` occurs in `s`, or `|s|` if there is none. */
  function FindFrom(s: string, w: string, j: nat): (k: nat)
    requires |w| > 0 && j <= |s|
    ensures j <= k <= |s|
    ensures k < |s| ==> OccursAt(s, w, k)
    ensures forall m :: j <= m < k ==> !OccursAt(s, w, m)
    decreases |s| - j
  {
    if j == |s| then j
    else if OccursAt(s, w, j) then j
    else FindFrom(s, w, j + 1)
  }

  /** `s.includes(w)`, for a non-empty `w`. */
  predicate Contains(s: string, w: string)
    requires |w| > 0
    ensures Contains(s, w) <==> exists j :: OccursAt(s, w, j)
  {
    FindFrom(s, w, 0) < |s|
  }

  /** For a one-character string, `includes` is membership. */
  lemma ContainsChar(s: string, c: char)
    ensures Contains(s, [c]) <==> c in s
  {
    forall j | 0 <= j < |s| ensures OccursAt(s, [c], j) <==> s[j] == c {
      assert s[j..j + 1] == [s[j]];
    }
  }

  /** `s.endsWith(w)`. */
  predicate EndsWith(s: string, w: string)
  {
    |w| <= |s| && s[|s| - |w|..] == w
  }

  /** `xs.map(f)`. */
  function Map<A, B>(f: A -> B, xs: seq<A>): seq<B>
    decreases |xs|
  {
    if |xs| == 0 then [] else [f(xs[0])] + Map(f, xs[1..])
  }

  /** `map` keeps the length and applies `f` to each element in its place. */
  lemma {:induction false} MapAt<A, B>(f: A -> B, xs: seq<A>)
    ensures |Map(f, xs)| == |xs|
    ensures forall k :: 0 <= k < |xs| ==> Map(f, xs)[k] == f(xs[k])
    decreases |xs|
  {
    if |xs| != 0 {
      MapAt(f, xs[1..]);
    }
  }

  /** `xs.join(sep)`. */
  function Join(xs: seq<string>, sep: string): string
  {
    if |xs| == 0 then ""
    else if |xs| == 1 then xs[0]
    else xs[0] + sep + Join(xs[1..], sep)
  }

  /** `s.split(sep)` for a non-empty separator string: the pieces between the
      successive leftmost non-overlapping occurrences of `sep`. */
  function Split(s: string, sep: string): (r: seq<string>)
    requires |sep| > 0
    ensures |r| >= 1
    ensures Join(r, sep) == s
    ensures forall x :: x in r ==> !Contains(x, sep)
    decreases |s|
  {
    var k := FindFrom(s, sep, 0);
    if k == |s| then
      assert forall j :: OccursAt(s, sep, j) ==> j < |s|;
      [s]
    else
      var rest := Split(s[k + |sep|..], sep);
      assert s == s[..k] + sep + s[k + |sep|..] by {
        assert s[k..k + |sep|] == sep;
        assert s == s[..k] + s[k..k + |sep|] + s[k + |sep|..];
      }
      assert forall j :: OccursAt(s[..k], sep, j) ==> OccursAt(s, sep, j) by {
        forall j | OccursAt(s[..k], sep, j) ensures OccursAt(s, sep, j) {
          assert s[..k][j..j + |sep|] == s[j..j + |sep|];
        }
      }
      [s[..k]] + rest
  }

  /** Without an occurrence of the separator, the string is its only piece. */
  lemma SplitWithoutSeparator(s: string, sep: string)
    requires |sep| > 0 && !Contains(s, sep)
    ensures Split(s, sep) == [s]
  {
  }

  /** A one-character separator cuts at its first occurrence. */
  lemma SplitAtFirst(a: string, c: char, b: string)
    requires c !in a
    ensures Split(a + [c] + b, [c]) == [a] + Split(b, [c])
  {
    var s := a + [c] + b;
    forall j | 0 <= j < |a| ensures !OccursAt(s, [c], j) {
      assert s[j] == a[j];
      MismatchAt(s, [c], j, 0);
    }
    assert OccursAt(s, [c], |a|) by { assert s[|a|..|a| + 1] == [c]; }
    assert FindFrom(s, [c], 0) == |a|;
    assert s[..|a|] == a && s[|a| + 1..] == b;
  }

  /** The number of (possibly overlapping) occurrences of `w` in `s`. */
  function Count(s: string, w: string): nat
    requires |w| > 0
    decreases |s|
  {
    if |s| == 0 then 0
    else (if OccursAt(s, w, 0) then 1 else 0) + Count(s[1..], w)
  }

  /** No proper suffix of `w` is also a prefix of it, so two occurrences of `w`
      never overlap (true of "\n", "\r\n" and ","). */
  predicate NonSelfOverlapping(w: string)
  {
    forall d | 0 < d < |w| :: w[d..] != w[..|w| - d]
  }

  lemma OccursAtShift(s: string, w: string, d: nat, j: int)
    requires d <= |s| && d <= j
    ensures OccursAt(s, w, j) <==> OccursAt(s[d..], w, j - d)
  {
    if j + |w| <= |s| {
      assert s[d..][j - d..j - d + |w|] == s[j..j + |w|];
    }
  }

  /** Occurrences that all start at or after `k` are the occurrences of `s[k..]`. */
  lemma {:induction false} CountSkip(s: string, w: string, k: nat)
    requires |w| > 0 && k <= |s|
    requires forall m :: 0 <= m < k ==> !OccursAt(s, w, m)
    ensures Count(s, w) == Count(s[k..], w)
  {
    if k > 0 {
      forall m | 0 <= m < k - 1 ensures !OccursAt(s[1..], w, m) {
        OccursAtShift(s, w, 1, m + 1);
      }
      CountSkip(s[1..], w, k - 1);
      assert s[1..][k - 1..] == s[k..];
    }
  }

  lemma NoOverlapNear(t: string, w: string, d: int)
    requires NonSelfOverlapping(w) && OccursAt(t, w, 0) && 0 < d < |w|
    ensures !OccursAt(t, w, d)
  {
    if d + |w| <= |t| {
      assert t[d..|w|] == t[..|w|][d..];
      assert t[d..|w|] == t[d..d + |w|][..|w| - d];
    }
  }

  /** `s.split(sep)` has one more piece than `s` has occurrences of `sep`. */
  lemma {:induction false} SplitLength(s: string, sep: string)
    requires |sep| > 0 && NonSelfOverlapping(sep)
    ensures |Split(s, sep)| == Count(s, sep) + 1
    decreases |s|
  {
    var k := FindFrom(s, sep, 0);
    CountSkip(s, sep, k);
    if k < |s| {
      var t := s[k..];
      OccursAtShift(s, sep, k, k);
      assert OccursAt(t, sep, 0);
      forall m | 0 <= m < |sep| - 1 ensures !OccursAt(t[1..], sep, m) {
        NoOverlapNear(t, sep, m + 1);
        OccursAtShift(t, sep, 1, m + 1);
      }
      CountSkip(t[1..], sep, |sep| - 1);
      assert t[1..][|sep| - 1..] == s[k + |sep|..];
      SplitLength(s[k + |sep|..], sep);
    }
  }

  /** Joining with a one-character separator and splitting on it again gives back
      the pieces, when no piece holds the separator. */
  lemma {:induction false} SplitJoin(xs: seq<string>, c: char)
    requires |xs| >= 1
    requires forall x :: x in xs ==> c !in x
    ensures Split(Join(xs, [c]), [c]) == xs
  {
    var s := Join(xs, [c]);
    var k := FindFrom(s, [c], 0);
    if |xs| == 1 {
      forall m | 0 <= m < |s| ensures !OccursAt(s, [c], m) {
        assert s[m..m + 1][0] == s[m];
        assert s[m] in xs[0];
      }
      assert xs == [s];
    } else {
      var x0 := xs[0];
      assert s == x0 + [c] + Join(xs[1..], [c]);
      assert OccursAt(s, [c], |x0|) by {
        assert s[|x0|..|x0| + 1] == [c];
      }
      forall m | 0 <= m < |x0| ensures !OccursAt(s, [c], m) {
        assert s[m..m + 1][0] == s[m] == x0[m];
        assert x0[m] in x0;
      }
      assert k == |x0|;
      assert s[k + 1..] == Join(xs[1..], [c]);
      SplitJoin(xs[1..], c);
    }
  }

  function TrimStart(s: string): (r: string)
    ensures |r| <= |s| && r == s[|s| - |r|..]
    ensures AllWhiteSpace(s[..|s| - |r|])
    ensures r == [] || !IsWhiteSpace(r[0])
  {
    if |s| > 0 && IsWhiteSpace(s[0]) then
      var r := TrimStart(s[1..]);
      assert s[..|s| - |r|] == [s[0]] + s[1..][..|s| - 1 - |r|];
      r
    else s
  }

  function TrimEnd(s: string): (r: string)
    ensures |r| <= |s| && r == s[..|r|]
    ensures AllWhiteSpace(s[|r|..])
    ensures r == [] || !IsWhiteSpace(r[|r| - 1])
  {
    if |s| > 0 && IsWhiteSpace(s[|s| - 1]) then
      var r := TrimEnd(s[..|s| - 1]);
      assert s[|r|..] == s[..|s| - 1][|r|..] + [s[|s| - 1]];
      r
    else s
  }

  /** `s.trim()`: `s` without its leading and trailing white space. */
  function Trim(s: string): (r: string)
    ensures Trimmed(r)
  {
    var t := TrimStart(s);
    var r := TrimEnd(t);
    SliceOfSuffix(s, t, r);
    r
  }

  /** Trimming removes white space only, and only at the two ends. */
  lemma TrimStripsWhiteSpace(s: string)
    ensures exists i :: OccursAt(s, Trim(s), i) && AllWhiteSpace(s[..i]) && AllWhiteSpace(s[i + |Trim(s)|..])
  {
    var t := TrimStart(s);
    var r := TrimEnd(t);
    SliceOfSuffix(s, t, r);
    assert Trim(s) == r;
    var i := |s| - |t|;
    assert OccursAt(s, r, i) && AllWhiteSpace(s[..i]) && AllWhiteSpace(s[i + |r|..]);
  }

  /** A prefix `r` of a suffix `t` of `s` sits in `s` where `t` starts. */
  lemma SliceOfSuffix(s: string, t: string, r: string)
    requires |t| <= |s| && t == s[|s| - |t|..]
    requires |r| <= |t| && r == t[..|r|]
    ensures OccursAt(s, r, |s| - |t|)
    ensures s[|s| - |t| + |r|..] == t[|r|..]
    ensures r != [] ==> r[0] == t[0]
  {
  }

  /** Trimming twice is trimming once. */
  lemma TrimIdempotent(s: string)
    ensures Trim(Trim(s)) == Trim(s)
  {
    var r := Trim(s);
    assert TrimStart(r) == r;
    assert TrimEnd(r) == r;
  }

  /** A string without white space at either end is left as it is. */
  lemma TrimKeeps(s: string)
    requires Trimmed(s)
    ensures Trim(s) == s
  {
  }

  /** A leading white-space character goes. */
  lemma TrimDropsLeading(c: char, s: string)
    requires IsWhiteSpace(c)
    ensures Trim([c] + s) == Trim(s)
  {
    assert ([c] + s)[1..] == s;
  }

  /** The index of the first `x` in `s`, or `|s|` if there is none
      (`indexOf`, with `|s|` for its -1). */
  function IndexOf<T(==)>(s: seq<T>, x: T): (i: nat)
    ensures i <= |s| && x !in s[..i]
    ensures i < |s| <==> x in s
    ensures i < |s| ==> s[i] == x
  {
    if |s| == 0 || s[0] == x then 0
    else
      var i := 1 + IndexOf(s[1..], x);
      assert s[..i] == [s[0]] + s[1..][..i - 1];
      i
  }

  /** `s.replace(c, '')` with a one-character search string: only the first `c` goes. */
  function RemoveFirst(s: string, c: char): (r: string)
    ensures c !in s ==> r == s
    ensures c in s ==> |r| == |s| - 1
  {
    if |s| == 0 then s
    else if s[0] == c then s[1..]
    else
      assert c in s[1..] <==> c in s by {
        assert s == [s[0]] + s[1..];
      }
      [s[0]] + RemoveFirst(s[1..], c)
  }

  /** What is removed is exactly the first `c`: everything before it and after it stays. */
  lemma {:induction false} RemoveFirstCutsFirst(s: string, c: char)
    requires c in s
    ensures RemoveFirst(s, c) == s[..IndexOf(s, c)] + s[IndexOf(s, c) + 1..]
  {
    if s[0] != c {
      assert c in s[1..] by {
        assert s == [s[0]] + s[1..];
      }
      RemoveFirstCutsFirst(s[1..], c);
      var i := IndexOf(s[1..], c);
      assert IndexOf(s, c) == i + 1;
      assert RemoveFirst(s, c) == [s[0]] + (s[1..][..i] + s[1..][i + 1..]);
      PrefixAndRest(s, i);
      ConsAssociates(s[0], s[1..][..i], s[1..][i + 1..]);
    }
  }

  /** The string with the character at the first index of `c` cut out, if `c` occurs. */
  function CutFirst(s: string, c: char): string
  {
    if c in s then s[..IndexOf(s, c)] + s[IndexOf(s, c) + 1..] else s
  }

  /** `replace(c, '')` is `CutFirst`, whether or not `c` occurs. */
  lemma RemoveFirstIsCutFirst(s: string, c: char)
    ensures RemoveFirst(s, c) == CutFirst(s, c)
  {
    if c in s {
      RemoveFirstCutsFirst(s, c);
    }
  }

  lemma PrefixAndRest(s: string, i: nat)
    requires i + 2 <= |s|
    ensures s[..i + 1] == [s[0]] + s[1..][..i]
    ensures s[i + 2..] == s[1..][i + 1..]
  {
  }

  lemma ConsAssociates(x: char, a: string, b: string)
    ensures [x] + (a + b) == ([x] + a) + b
  {
  }

  /** A prefix without `c` is kept as it is. */
  lemma {:induction false} RemoveFirstAfter(p: string, rest: string, c: char)
    requires c !in p
    ensures RemoveFirst(p + rest, c) == p + RemoveFirst(rest, c)
  {
    if |p| > 0 {
      var s := p + rest;
      assert p[0] in p && s[0] == p[0] && s[0] != c;
      assert s[1..] == p[1..] + rest;
      RemoveFirstAfter(p[1..], rest, c);
      assert RemoveFirst(s, c) == [p[0]] + (p[1..] + RemoveFirst(rest, c));
      ConsAssociates(p[0], p[1..], RemoveFirst(rest, c));
      assert p == [p[0]] + p[1..];
    } else {
      assert p + rest == rest;
    }
  }

  /** Removing the first `c` takes exactly one `c` out of the characters, if there is one. */
  lemma {:induction false} RemoveFirstMultiset(s: string, c: char)
    ensures multiset(RemoveFirst(s, c)) + multiset(if c in s then [c] else []) == multiset(s)
  {
    if c in s {
      var i := IndexOf(s, c);
      RemoveFirstCutsFirst(s, c);
      assert s == s[..i] + [c] + s[i + 1..];
      calc {
        multiset(s);
        multiset(s[..i] + [c] + s[i + 1..]);
        multiset(s[..i]) + multiset{c} + multiset(s[i + 1..]);
        multiset(s[..i] + s[i + 1..]) + multiset{c};
      }
    }
  }
}
