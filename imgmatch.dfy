/**
 * The one regular expression `streamCopy` searches the HTML body with,
 * `(<img[^>]*src="[^"]*Stockholm[^"]*"[^>]*>)` compiled CASE_INSENSITIVE,
 * written out as the backtracking search `java.util.regex` performs for it.
 *
 * CASE_INSENSITIVE without UNICODE_CASE folds US-ASCII letters only, which
 * is what `LowerAscii` does.
 */
module ImgMatch {
  import opened Base
  import opened JString

  const ImgOpen: string := "<img"
  const SrcOpen: string := "src=\""
  const Word: string := "stockholm"

  /** The lower-case literal `lit` occurs at `k`, ignoring ASCII case. */
  predicate CiAt(s: string, k: nat, lit: string) {
    k + |lit| <= |s| && forall i :: 0 <= i < |lit| ==> LowerChar(s[k + i]) == lit[i]
  }

  /** A literal at `k` in the slice `s[p..e]` is one at `p + k` in `s` that ends within the slice. */
  lemma CiShift(s: string, p: nat, e: nat, k: nat, lit: string)
    requires p <= e <= |s|
    ensures CiAt(s[p..e], k, lit) <==> p + k + |lit| <= e && CiAt(s, p + k, lit)
  {
    if p + k + |lit| <= e {
      forall j | k <= j < k + |lit| ensures s[p..e][j] == s[p + j] { }
    }
  }

  /** No `c` among `s[a..b]`. */
  predicate NoChar(s: string, a: nat, b: nat, c: char)
    requires a <= b <= |s|
  {
    forall k :: a <= k < b ==> s[k] != c
  }

  /** The first `c` at or after `from`, or `|s|` when there is none. */
  function FirstFrom(s: string, c: char, from: nat): (k: nat)
    requires from <= |s|
    ensures from <= k <= |s|
    decreases |s| - from
  {
    if from == |s| || s[from] == c then from else FirstFrom(s, c, from + 1)
  }

  /** `FirstFrom` stops at the first `c`: none lies before it, and it holds one unless it is `|s|`. */
  lemma FirstFromIsFirst(s: string, c: char, from: nat)
    requires from <= |s|
    ensures NoChar(s, from, FirstFrom(s, c, from), c)
    ensures FirstFrom(s, c, from) < |s| ==> s[FirstFrom(s, c, from)] == c
    decreases |s| - from
  {
    if from < |s| && s[from] != c {
      FirstFromIsFirst(s, c, from + 1);
    }
  }

  /** "stockholm", in any ASCII case, lies inside `s[a..b]`. */
  predicate WordIn(s: string, a: nat, b: nat)
    requires a <= b <= |s|
  {
    exists m: nat :: a <= m && m + |Word| <= b && CiAt(s, m, Word)
  }

  /**
   * The rest of the pattern once `[^>]*` has stopped at `j`: `src="` at `j`;
   * the greedy `[^"]*` runs to the first quote, which must exist, and
   * "Stockholm" must lie before it (every position `[^"]*Stockholm` can
   * backtrack to ends at that same quote); then `[^>]*>` ends at the first
   * `>` after the quote.  The result is the end of the match.
   */
  function Attempt(s: string, j: nat): (r: Option<nat>)
    ensures r.Some? ==> j < r.value <= |s|
  {
    if CiAt(s, j, SrcOpen) then
      var q := FirstFrom(s, '"', j + |SrcOpen|);
      if q < |s| && WordIn(s, j + |SrcOpen|, q) then
        var r := FirstFrom(s, '>', q + 1);
        if r < |s| then Some(r + 1) else None
      else None
    else None
  }

  /** Backtracking `[^>]*`: tries the stopping points `j`, `j - 1`, …, `lo`, longest first. */
  function TryFrom(s: string, lo: nat, j: int): (r: Option<nat>)
    ensures r.Some? ==> lo < r.value <= |s|
    decreases j - lo + 1
  {
    if j < lo then None
    else
      match Attempt(s, j)
      case Some(e) => Some(e)
      case None => TryFrom(s, lo, j - 1)
  }

  /** The match the pattern finds starting exactly at `p`, given by its end. */
  function MatchAt(s: string, p: nat): (r: Option<nat>)
    ensures r.Some? ==> p < r.value <= |s|
  {
    if CiAt(s, p, ImgOpen) then
      var g := FirstFrom(s, '>', p + |ImgOpen|);
      TryFrom(s, p + |ImgOpen|, g - 1)
    else None
  }

  /** `Matcher.find()` from `from`: the leftmost position at which a match starts. */
  function FindFrom(s: string, from: nat): (r: Option<nat>)
    requires from <= |s|
    ensures r.Some? ==> from <= r.value < |s| && MatchAt(s, r.value).Some?
    ensures r.Some? ==> forall k :: from <= k < r.value ==> MatchAt(s, k).None?
    ensures r.None? ==> forall k :: from <= k <= |s| ==> MatchAt(s, k).None?
    decreases |s| - from
  {
    if from == |s| then None
    else if MatchAt(s, from).Some? then Some(from)
    else FindFrom(s, from + 1)
  }
}
