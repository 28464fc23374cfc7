/** The two regular expressions of the scanner, written out as string functions,
    each proved equal to a declarative statement of what the expression matches,
    and the per-line package filter built on the first of them. */
module Patterns {
  import opened Wrappers
  import opened JsString

  /** The keyword whose presence marks a line as an import line. */
  const IMPORT := "import"
  const FROM := "from"
  const FROM_QUOTE := "from '"

  // ---------------------------------------------------------------------------
  // /from '.*'/ : "from '" followed, later on the same line, by another quote.

  /** `t[i..j + 1]` is a match of `/from '.*'/`. */
  ghost predicate FromQuoteAt(t: string, i: int, j: int)
  {
    OccursAt(t, FROM_QUOTE, i) && i + |FROM_QUOTE| <= j < |t| && t[j] == '\''
    && NoTerminatorBetween(t, i + |FROM_QUOTE|, j)
  }

  /** A quote occurs at or after `k` with no line terminator before it. */
  function QuoteCloses(t: string, k: nat): (b: bool)
    requires k <= |t|
    ensures b <==> exists j :: k <= j < |t| && t[j] == '\'' && NoTerminatorBetween(t, k, j)
    decreases |t| - k
  {
    if k == |t| then false
    else if t[k] == '\'' then
      assert NoTerminatorBetween(t, k, k);
      true
    else if IsLineTerminator(t[k]) then
      assert forall j :: k < j <= |t| ==> !NoTerminatorBetween(t, k, j);
      false
    else
      QuoteCloses(t, k + 1)
  }

  /** `/from '.*'/` matches somewhere in `t` at or after index `i`. */
  function FromQuoteFrom(t: string, i: nat): (b: bool)
    requires i <= |t|
    ensures b <==> exists a, j :: i <= a && FromQuoteAt(t, a, j)
    decreases |t| - i
  {
    if i == |t| then false
    else if OccursAt(t, FROM_QUOTE, i) && QuoteCloses(t, i + |FROM_QUOTE|) then
      assert exists j :: FromQuoteAt(t, i, j) by {
        var j :| i + |FROM_QUOTE| <= j < |t| && t[j] == '\'' && NoTerminatorBetween(t, i + |FROM_QUOTE|, j);
        assert FromQuoteAt(t, i, j);
      }
      true
    else FromQuoteFrom(t, i + 1)
  }

  /** An empty name counts as no name at all. */
  predicate NameGiven(packageName: Option<string>)
  {
    packageName.Some? && packageName.value != ""
  }

  /** `includesPackageName(text, packageName)`: with a name, a plain suffix test
      on the raw line; without one, a search for `/from '.*'/`. */
  function IncludesPackageName(text: string, packageName: Option<string>): (b: bool)
    ensures NameGiven(packageName) ==> (b <==> EndsWith(text, packageName.value))
    ensures !NameGiven(packageName) ==> (b <==> exists i, j :: FromQuoteAt(text, i, j))
  {
    if NameGiven(packageName) then EndsWith(text, packageName.value)
    else FromQuoteFrom(text, 0)
  }

  // ---------------------------------------------------------------------------
  // reg = /(?<=import\s{?)(.*)(?=}?\sfrom)/g
  // With the g flag, `match` returns every match and starts from index 0 on
  // each call; `?.[0]` reads only the first match, which is what is modelled.

  /** The lookbehind `(?<=import\s{?)` holds at position `p`. */
  predicate LooksBehind(t: string, p: int)
  {
    (7 <= p <= |t| && OccursAt(t, IMPORT, p - 7) && IsWhiteSpace(t[p - 1]))
    || (8 <= p <= |t| && OccursAt(t, IMPORT, p - 8) && IsWhiteSpace(t[p - 2]) && t[p - 1] == '{')
  }

  /** The lookahead `(?=}?\sfrom)` holds at position `e`. */
  predicate LooksAhead(t: string, e: int)
  {
    (0 <= e < |t| && IsWhiteSpace(t[e]) && OccursAt(t, FROM, e + 1))
    || (0 <= e && e + 1 < |t| && t[e] == '}' && IsWhiteSpace(t[e + 1]) && OccursAt(t, FROM, e + 2))
  }

  /** `t[p..e]` is one way `reg` can match: the lookbehind holds at `p`, the
      lookahead at `e`, and `.*` crosses no line terminator in between. */
  ghost predicate CaptureAt(t: string, p: int, e: int)
  {
    0 <= p <= e <= |t| && LooksBehind(t, p) && NoTerminatorBetween(t, p, e) && LooksAhead(t, e)
  }

  /** `t[p..e]` is the match the engine reports: the leftmost start, and from
      there the longest extent (`.*` is greedy). */
  ghost predicate FirstMatch(t: string, p: int, e: int)
  {
    CaptureAt(t, p, e)
    && (forall p', e' :: 0 <= p' < p ==> !CaptureAt(t, p', e'))
    && (forall e' :: e < e' ==> !CaptureAt(t, p, e'))
  }

  /** Where the run of characters other than line terminators that starts at `p` ends. */
  function RunEnd(t: string, p: nat): (q: nat)
    requires p <= |t|
    ensures p <= q <= |t| && NoTerminatorBetween(t, p, q)
    ensures q < |t| ==> IsLineTerminator(t[q])
    decreases |t| - p
  {
    if p == |t| || IsLineTerminator(t[p]) then p else RunEnd(t, p + 1)
  }

  /** The last position in `p..e` where the lookahead holds, found by backtracking from `e`. */
  function LastLookahead(t: string, p: nat, e: nat): (r: Option<nat>)
    requires p <= e <= |t|
    ensures r.Some? ==> p <= r.value <= e && LooksAhead(t, r.value)
    ensures r.Some? ==> forall e' :: r.value < e' <= e ==> !LooksAhead(t, e')
    ensures r.None? ==> forall e' :: p <= e' <= e ==> !LooksAhead(t, e')
    decreases e - p
  {
    if LooksAhead(t, e) then Some(e)
    else if e == p then None
    else LastLookahead(t, p, e - 1)
  }

  /** The end of the longest match of `reg` that starts at `p`, if there is one. */
  function MatchEndAt(t: string, p: nat): (r: Option<nat>)
    requires p <= |t|
    ensures r.Some? ==> CaptureAt(t, p, r.value) && forall e' :: r.value < e' ==> !CaptureAt(t, p, e')
    ensures r.None? ==> forall e' :: !CaptureAt(t, p, e')
  {
    if LooksBehind(t, p) then
      var q := RunEnd(t, p);
      assert forall e' :: q < e' <= |t| ==> !NoTerminatorBetween(t, p, e');
      LastLookahead(t, p, q)
    else None
  }

  /** The first match of `reg` whose start is at or after `p`. */
  function FirstMatchFrom(t: string, p: nat): (r: Option<(nat, nat)>)
    requires p <= |t|
    ensures r.Some? ==> p <= r.value.0 && CaptureAt(t, r.value.0, r.value.1)
    ensures r.Some? ==> forall p', e' :: p <= p' < r.value.0 ==> !CaptureAt(t, p', e')
    ensures r.Some? ==> forall e' :: r.value.1 < e' ==> !CaptureAt(t, r.value.0, e')
    ensures r.None? ==> forall p', e' :: p <= p' ==> !CaptureAt(t, p', e')
    decreases |t| - p
  {
    match MatchEndAt(t, p)
    case Some(e) => Some((p, e))
    case None =>
      if p == |t| then None
      else
        var r := FirstMatchFrom(t, p + 1);
        NoCaptureBefore(t, p, if r.Some? then r.value.0 else |t| + 1);
        r
  }

  /** No match starting at `p` and none starting in `p + 1..q` is none in `p..q`. */
  lemma NoCaptureBefore(t: string, p: int, q: int)
    requires forall e' :: !CaptureAt(t, p, e')
    requires forall p', e' :: p + 1 <= p' < q ==> !CaptureAt(t, p', e')
    ensures forall p', e' :: p <= p' < q ==> !CaptureAt(t, p', e')
  {
  }

  /** `item.match(reg)?.[0]`: the text of the first match, or nothing (`undefined`). */
  function Capture(t: string): (r: Option<string>)
    ensures r.None? <==> forall p, e :: !CaptureAt(t, p, e)
    ensures r.Some? ==> exists p, e :: FirstMatch(t, p, e) && r.value == t[p..e]
  {
    match FirstMatchFrom(t, 0)
    case None => None
    case Some((p, e)) =>
      assert FirstMatch(t, p, e);
      Some(t[p..e])
  }

  /** The match the engine reports is unique: any leftmost-longest match is the capture. */
  lemma CaptureIsFirstMatch(t: string, p: int, e: int)
    requires FirstMatch(t, p, e)
    ensures Capture(t) == Some(t[p..e])
  {
    var r := Capture(t);
    var p', e' :| FirstMatch(t, p', e') && r.value == t[p'..e'];
    assert p' == p by {
      assert !(p' < p) && !(p < p');
    }
  }
}
