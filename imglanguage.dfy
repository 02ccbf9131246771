/**
 * The language of the img pattern, stated declaratively, and the proof that
 * the backtracking search in `ImgMatch` finds a match exactly where a word of
 * that language starts.
 */
module ImgLanguage {
  import opened Base
  import opened JString
  import opened ImgMatch

  /**
   * `t` is `<img`, non-`>` text, `src="` at `j`, non-quote text, "Stockholm"
   * at `m`, non-quote text, a quote at `q`, non-`>` text and a final `>`.
   */
  predicate ShapeAt(t: string, j: nat, m: nat, q: nat) {
    CiAt(t, 0, ImgOpen) && |ImgOpen| <= j && j + |SrcOpen| <= m && m + |Word| <= q < |t| - 1 &&
    NoChar(t, |ImgOpen|, j, '>') && CiAt(t, j, SrcOpen) &&
    NoChar(t, j + |SrcOpen|, m, '"') && CiAt(t, m, Word) &&
    NoChar(t, m + |Word|, q, '"') && t[q] == '"' &&
    NoChar(t, q + 1, |t| - 1, '>') && t[|t| - 1] == '>'
  }

  ghost predicate InImgLanguage(t: string) {
    exists j: nat, m: nat, q: nat :: ShapeAt(t, j, m, q)
  }

  /** The ASCII letters of "stockholm" are neither a quote nor a `>`. */
  lemma WordChars(s: string, m: nat, k: nat)
    requires CiAt(s, m, Word) && m <= k < m + |Word|
    ensures s[k] != '"' && s[k] != '>'
  {
    assert LowerChar(s[m + (k - m)]) == Word[k - m];
  }

  lemma NoCharShift(s: string, p: nat, e: nat, a: nat, b: nat, c: char)
    requires p <= e <= |s| && a <= b && p + b <= e
    ensures NoChar(s[p..e], a, b, c) <==> NoChar(s, p + a, p + b, c)
  {
    assert forall k :: a <= k < b ==> s[p..e][k] == s[p + k];
    if NoChar(s[p..e], a, b, c) {
      forall k | p + a <= k < p + b ensures s[k] != c {
        assert s[p..e][k - p] == s[k];
      }
    }
  }

  lemma TryFromSome(s: string, lo: nat, j: int, e: nat)
    requires TryFrom(s, lo, j) == Some(e)
    ensures exists jj :: lo <= jj <= j && Attempt(s, jj) == Some(e)
    decreases j - lo + 1
  {
    if Attempt(s, j).None? {
      TryFromSome(s, lo, j - 1, e);
    }
  }

  lemma TryFromFinds(s: string, lo: nat, j: int, jj: nat)
    requires lo <= jj <= j && Attempt(s, jj).Some?
    ensures TryFrom(s, lo, j).Some?
    decreases j - lo + 1
  {
    if Attempt(s, j).None? {
      TryFromFinds(s, lo, j - 1, jj);
    }
  }

  /** What `Attempt` succeeding at `jj` says about the text. */
  lemma AttemptShape(s: string, p: nat, jj: nat, e: nat)
    requires CiAt(s, p, ImgOpen) && p + |ImgOpen| <= jj < FirstFrom(s, '>', p + |ImgOpen|)
    requires Attempt(s, jj) == Some(e)
    ensures p < e <= |s| && InImgLanguage(s[p..e])
  {
    var m, q := AttemptFacts(s, jj, e);
    FirstFromIsFirst(s, '>', p + |ImgOpen|);
    ShapeIntro(s, p, e, jj, m, q);
  }

  /** The word and the closing quote behind a successful `Attempt`. */
  lemma AttemptFacts(s: string, j: nat, e: nat) returns (m: nat, q: nat)
    requires Attempt(s, j) == Some(e)
    ensures j + |SrcOpen| <= m && m + |Word| <= q && q + 1 < e <= |s|
    ensures CiAt(s, j, SrcOpen) && CiAt(s, m, Word)
    ensures NoChar(s, j + |SrcOpen|, q, '"') && s[q] == '"'
    ensures NoChar(s, q + 1, e - 1, '>') && s[e - 1] == '>'
  {
    q := FirstFrom(s, '"', j + |SrcOpen|);
    var r := FirstFrom(s, '>', q + 1);
    FirstFromIsFirst(s, '"', j + |SrcOpen|);
    FirstFromIsFirst(s, '>', q + 1);
    m :| j + |SrcOpen| <= m && m + |Word| <= q && CiAt(s, m, Word);
  }

  /** `ShapeAt` on the slice `s[p..e]`, from the same facts about `s`. */
  lemma ShapeIntro(s: string, p: nat, e: nat, j: nat, m: nat, q: nat)
    requires p + |ImgOpen| <= j && j + |SrcOpen| <= m && m + |Word| <= q && q + 1 < e <= |s|
    requires CiAt(s, p, ImgOpen) && CiAt(s, j, SrcOpen) && CiAt(s, m, Word)
    requires NoChar(s, p + |ImgOpen|, j, '>') && NoChar(s, j + |SrcOpen|, q, '"') && s[q] == '"'
    requires NoChar(s, q + 1, e - 1, '>') && s[e - 1] == '>'
    ensures ShapeAt(s[p..e], j - p, m - p, q - p)
  {
    var t := s[p..e];
    CiShift(s, p, e, 0, ImgOpen);
    CiShift(s, p, e, j - p, SrcOpen);
    CiShift(s, p, e, m - p, Word);
    NoCharShift(s, p, e, |ImgOpen|, j - p, '>');
    NoCharShift(s, p, e, j - p + |SrcOpen|, m - p, '"');
    NoCharShift(s, p, e, m - p + |Word|, q - p, '"');
    NoCharShift(s, p, e, q - p + 1, |t| - 1, '>');
    assert t[q - p] == s[q] && t[|t| - 1] == s[e - 1];
  }

  /** The facts about `s` that `ShapeAt` on the slice `s[p..e]` gives. */
  lemma ShapeElim(s: string, p: nat, e: nat, j: nat, m: nat, q: nat)
    requires p < e <= |s| && ShapeAt(s[p..e], j, m, q)
    ensures CiAt(s, p, ImgOpen) && CiAt(s, p + j, SrcOpen) && CiAt(s, p + m, Word)
    ensures NoChar(s, p + |ImgOpen|, p + j, '>') && NoChar(s, p + j + |SrcOpen|, p + m, '"')
    ensures NoChar(s, p + m + |Word|, p + q, '"') && s[p + q] == '"'
    ensures NoChar(s, p + q + 1, e - 1, '>') && s[e - 1] == '>'
  {
    var t := s[p..e];
    CiShift(s, p, e, 0, ImgOpen);
    CiShift(s, p, e, j, SrcOpen);
    CiShift(s, p, e, m, Word);
    NoCharShift(s, p, e, |ImgOpen|, j, '>');
    NoCharShift(s, p, e, j + |SrcOpen|, m, '"');
    NoCharShift(s, p, e, m + |Word|, q, '"');
    NoCharShift(s, p, e, q + 1, |t| - 1, '>');
    assert s[p + q] == t[q] && s[e - 1] == t[|t| - 1];
  }

  /** Every match `MatchAt` reports is a word of the pattern's language. */
  lemma MatchSound(s: string, p: nat)
    requires MatchAt(s, p).Some?
    ensures p < MatchAt(s, p).value <= |s| && InImgLanguage(s[p..MatchAt(s, p).value])
  {
    var e := MatchAt(s, p).value;
    var g := FirstFrom(s, '>', p + |ImgOpen|);
    TryFromSome(s, p + |ImgOpen|, g - 1, e);
    var jj :| p + |ImgOpen| <= jj <= g - 1 && Attempt(s, jj) == Some(e);
    AttemptShape(s, p, jj, e);
  }

  /** Whenever a word of the language starts at `p`, `MatchAt` finds a match there. */
  lemma MatchComplete(s: string, p: nat, e: nat)
    requires p < e <= |s| && InImgLanguage(s[p..e])
    ensures MatchAt(s, p).Some?
  {
    var j: nat, m: nat, q: nat :| ShapeAt(s[p..e], j, m, q);
    ShapeAttempt(s, p, e, j, m, q);
    TryFromFinds(s, p + |ImgOpen|, FirstFrom(s, '>', p + |ImgOpen|) - 1, p + j);
    assert MatchAt(s, p) == TryFrom(s, p + |ImgOpen|, FirstFrom(s, '>', p + |ImgOpen|) - 1);
  }

  /** A word of the language at `p` makes `Attempt` succeed at its `src="`. */
  lemma ShapeAttempt(s: string, p: nat, e: nat, j: nat, m: nat, q: nat)
    requires p < e <= |s| && ShapeAt(s[p..e], j, m, q)
    ensures CiAt(s, p, ImgOpen) && p + |ImgOpen| <= p + j < FirstFrom(s, '>', p + |ImgOpen|)
    ensures Attempt(s, p + j) == Some(e)
  {
    ShapeElim(s, p, e, j, m, q);
    AttemptAt(s, p + j, p + m, p + q, e - 1);
    assert LowerChar(s[p + j + 0]) == SrcOpen[0];
    BeforeFirst(s, '>', p + |ImgOpen|, p + j);
  }

  /** A position before any `c` and not holding one lies before the first `c`. */
  lemma BeforeFirst(s: string, c: char, from: nat, k: nat)
    requires from <= k < |s| && NoChar(s, from, k, c) && s[k] != c
    ensures k < FirstFrom(s, c, from)
  {
    FirstFromIsFirst(s, c, from);
  }

  /** `Attempt` at `j` succeeds when the quote at `q` closes a value holding the word at `m`. */
  lemma AttemptAt(s: string, j: nat, m: nat, q: nat, r: nat)
    requires j + |SrcOpen| <= m && m + |Word| <= q < r < |s|
    requires CiAt(s, j, SrcOpen) && CiAt(s, m, Word)
    requires NoChar(s, j + |SrcOpen|, m, '"') && NoChar(s, m + |Word|, q, '"') && s[q] == '"'
    requires NoChar(s, q + 1, r, '>') && s[r] == '>'
    ensures Attempt(s, j) == Some(r + 1)
  {
    forall k | m <= k < m + |Word| ensures s[k] != '"' {
      WordChars(s, m, k);
    }
    QuoteAt(s, j + |SrcOpen|, q);
    assert WordIn(s, j + |SrcOpen|, q);
    FirstAt(s, '>', q + 1, r);
  }

  /** `FirstFrom` finds `c` at `k` when nothing before it in the range is `c`. */
  lemma FirstAt(s: string, c: char, from: nat, k: nat)
    requires from <= k < |s| && s[k] == c && NoChar(s, from, k, c)
    ensures FirstFrom(s, c, from) == k
    decreases k - from
  {
    if from < k {
      FirstAt(s, c, from + 1, k);
    }
  }

  lemma QuoteAt(s: string, from: nat, k: nat)
    requires from <= k < |s| && s[k] == '"' && NoChar(s, from, k, '"')
    ensures FirstFrom(s, '"', from) == k
  {
    FirstAt(s, '"', from, k);
  }

  /**
   * A word of the language whose only `>` is its last character, followed by
   * text without `>`, is matched whole: the match at its start ends with it.
   */
  lemma MatchWhole(tag: string, rest: string)
    requires InImgLanguage(tag) && |tag| > 0 && NoChar(tag, 0, |tag| - 1, '>') && '>' !in rest
    ensures MatchAt(tag + rest, 0) == Some(|tag|)
  {
    var s := tag + rest;
    assert s[0..|tag|] == tag;
    MatchComplete(s, 0, |tag|);
    MatchSound(s, 0);
    var e := MatchAt(s, 0).value;
    var t := s[0..e];
    var j: nat, m: nat, q: nat :| ShapeAt(t, j, m, q);
    assert s[e - 1] == t[|t| - 1] == '>';
    forall k | |tag| <= k < |s| ensures s[k] != '>' {
      assert s[k] == rest[k - |tag|];
    }
    forall k | 0 <= k < |tag| - 1 ensures s[k] != '>' {
      assert s[k] == tag[k];
    }
  }

  /** Where no `<` follows, `find` reports no match. */
  lemma {:induction false} NoOpenNoMatch(s: string, from: nat)
    requires from <= |s| && NoChar(s, from, |s|, '<')
    ensures FindFrom(s, from).None?
    decreases |s| - from
  {
    if from < |s| {
      assert LowerChar(s[from]) != ImgOpen[0];
      NoOpenNoMatch(s, from + 1);
    }
  }
}
