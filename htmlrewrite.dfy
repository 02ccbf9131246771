/**
 * The text rules `streamCopy` applies to an HTML body, and what they do once
 * the protected img tags have been masked out and put back: they rewrite the
 * text between the tags and leave every protected tag exactly as it was.
 */
module HtmlRewrite {
  import opened Base
  import opened Utf8
  import opened JString
  import opened ContentModifier
  import opened ImgMatch
  import opened ImgLanguage
  import opened ImgProtect

  const FakeNews: string := "https://zebroid.ida.liu.se/fakenews/"
  const SmileyUrl: string := FakeNews + "smiley.jpg"
  const TrollyUrl: string := FakeNews + "trolly.jpg"
  const SmileyPath: string := "./smiley.jpg"
  const TrollyPath: string := "./trolly.jpg"

  /** The four replacements, in the order the handler applies them. */
  function RewriteText(t: string): (r: string)
    ensures |Encode(r)| == |Encode(t)| + CountOcc(t, Stockholm)
  {
    var t1 := ReplaceAll(t, Stockholm, Linkoping);
    var t2 := ReplaceAll(t1, Smiley, Trolly);
    var t3 := ReplaceAll(t2, SmileyUrl, TrollyUrl);
    RuleBytes(t);
    ReplaceAll(t3, SmileyPath, TrollyPath)
  }

  /**
   * Only the first rule changes the UTF-8 length: "Linköping" is one byte
   * longer than "Stockholm", and each other pair is of equal ASCII length.
   */
  lemma RuleBytes(t: string)
    ensures var t1 := ReplaceAll(t, Stockholm, Linkoping);
      var t2 := ReplaceAll(t1, Smiley, Trolly);
      var t3 := ReplaceAll(t2, SmileyUrl, TrollyUrl);
      |Encode(ReplaceAll(t3, SmileyPath, TrollyPath))| == |Encode(t)| + CountOcc(t, Stockholm)
  {
    var t1 := ReplaceAll(t, Stockholm, Linkoping);
    var t2 := ReplaceAll(t1, Smiley, Trolly);
    var t3 := ReplaceAll(t2, SmileyUrl, TrollyUrl);
    StockholmGrows(t);
    SmileyKeeps(t1);
    UrlKeeps(t2);
    PathKeeps(t3);
  }

  lemma StockholmGrows(t: string)
    ensures |Encode(ReplaceAll(t, Stockholm, Linkoping))| == |Encode(t)| + CountOcc(t, Stockholm)
  {
    AsciiLength(Stockholm);
    LinkopingBytes();
    OneByteMore(t, Stockholm, Linkoping);
  }

  lemma OneByteMore(s: string, pat: string, rep: string)
    requires |pat| > 0 && |Encode(rep)| == |Encode(pat)| + 1
    ensures |Encode(ReplaceAll(s, pat, rep))| == |Encode(s)| + CountOcc(s, pat)
  {
    ReplaceEncodedLength(s, pat, rep);
  }

  lemma SmileyKeeps(t: string)
    ensures |Encode(ReplaceAll(t, Smiley, Trolly))| == |Encode(t)|
  {
    SameBytes(t, Smiley, Trolly);
  }

  lemma UrlKeeps(t: string)
    ensures |Encode(ReplaceAll(t, SmileyUrl, TrollyUrl))| == |Encode(t)|
  {
    SameBytes(t, SmileyUrl, TrollyUrl);
  }

  lemma PathKeeps(t: string)
    ensures |Encode(ReplaceAll(t, SmileyPath, TrollyPath))| == |Encode(t)|
  {
    SameBytes(t, SmileyPath, TrollyPath);
  }

  /** Replacing an ASCII pattern by an ASCII text of its length keeps the UTF-8 length. */
  lemma SameBytes(s: string, pat: string, rep: string)
    requires |pat| > 0 && |pat| == |rep| && IsAscii(pat) && IsAscii(rep)
    ensures |Encode(ReplaceAll(s, pat, rep))| == |Encode(s)|
  {
    AsciiLength(pat);
    AsciiLength(rep);
    var d := |Encode(rep)| - |Encode(pat)|;
    assert d == 0;
    ReplaceEncodedLength(s, pat, rep);
    assert CountOcc(s, pat) * d == 0;
  }

  /**
   * A text no rule can reach into: it starts and ends with an underscore
   * (which no pattern holds) and lacks the first letter of every pattern.
   */
  predicate Inert(m: string) {
    |m| > 0 && m[0] == '_' && m[|m| - 1] == '_' && 'S' !in m && 'h' !in m && '.' !in m
  }

  /** A marker holds no character but those of its head, its digits and underscores. */
  lemma MarkerLacks(i: nat, c: char)
    requires c !in MarkerHead && c != '_' && !IsDigit(c)
    ensures c !in Placeholder(i)
  {
    var m, d := Placeholder(i), NatToString(i);
    forall k | 0 <= k < |m| ensures m[k] != c {
      if k < |MarkerHead| {
        assert m[k] == MarkerHead[k];
      } else if k < |MarkerHead| + |d| {
        assert m[k] == d[k - |MarkerHead|];
      } else {
        assert m[k] == MarkerTail[k - |MarkerHead| - |d|];
      }
    }
  }

  lemma PlaceholderInert(i: nat)
    ensures Inert(Placeholder(i))
  {
    PlaceholderLayout(i);
    MarkerLacks(i, 'S');
    MarkerLacks(i, 'h');
    MarkerLacks(i, '.');
  }

  /** One rule rewrites the two sides of an inert text separately and leaves it alone. */
  lemma RuleSplit(x: string, m: string, z: string, pat: string, rep: string)
    requires |pat| > 0 && '_' !in pat && pat[0] !in m
    requires |m| > 0 && m[0] == '_' && m[|m| - 1] == '_'
    ensures ReplaceAll(x + m + z, pat, rep) == ReplaceAll(x, pat, rep) + m + ReplaceAll(z, pat, rep)
  {
    assert (m + z)[0] == m[0];
    NoStraddle(x, m + z, pat);
    assert x + m + z == x + (m + z);
    ReplaceConcat(x, m + z, pat, rep);
    NoStraddle(m, z, pat);
    ReplaceConcat(m, z, pat, rep);
    AbsentCharNoOccurrence(m, pat, 0);
    ReplaceAbsent(m, pat, rep);
  }

  /** All four rules rewrite the two sides of an inert text separately and leave it alone. */
  lemma RewriteSplit(x: string, m: string, z: string)
    requires Inert(m)
    ensures RewriteText(x + m + z) == RewriteText(x) + m + RewriteText(z)
  {
    RuleLetters();
    var x1, z1 := ReplaceAll(x, Stockholm, Linkoping), ReplaceAll(z, Stockholm, Linkoping);
    RuleSplit(x, m, z, Stockholm, Linkoping);
    var x2, z2 := ReplaceAll(x1, Smiley, Trolly), ReplaceAll(z1, Smiley, Trolly);
    RuleSplit(x1, m, z1, Smiley, Trolly);
    var x3, z3 := ReplaceAll(x2, SmileyUrl, TrollyUrl), ReplaceAll(z2, SmileyUrl, TrollyUrl);
    RuleSplit(x2, m, z2, SmileyUrl, TrollyUrl);
    RuleSplit(x3, m, z3, SmileyPath, TrollyPath);
  }

  /** What the rules' texts start with, and that none holds an underscore. */
  lemma RuleLetters()
    ensures Stockholm[0] == 'S' && Smiley[0] == 'S' && SmileyUrl[0] == 'h' && SmileyPath[0] == '.'
    ensures '_' !in Stockholm && '_' !in Smiley && '_' !in SmileyUrl && '_' !in SmileyPath
    ensures '_' !in Linkoping && '_' !in Trolly && '_' !in TrollyUrl && '_' !in TrollyPath
  {
    PatternLetters();
    ReplacementLetters();
  }

  lemma PatternLetters()
    ensures '_' !in Stockholm && '_' !in Smiley && '_' !in SmileyUrl && '_' !in SmileyPath
  {
  }

  lemma ReplacementLetters()
    ensures '_' !in Linkoping && '_' !in Trolly && '_' !in TrollyUrl && '_' !in TrollyPath
  {
  }

  /** Every gap rewritten on its own. */
  function RewriteGaps(gaps: seq<string>): (r: seq<string>)
    ensures |r| == |gaps| && forall k :: 0 <= k < |gaps| ==> r[k] == RewriteText(gaps[k])
  {
    seq(|gaps|, k requires 0 <= k < |gaps| => RewriteText(gaps[k]))
  }

  /** Rewriting a text woven around inert markers rewrites each gap and keeps the markers. */
  lemma {:induction false} RewriteInterleave(gaps: seq<string>, mids: seq<string>)
    requires |gaps| == |mids| + 1
    requires forall t :: 0 <= t < |mids| ==> Inert(mids[t])
    ensures RewriteText(Interleave(gaps, mids)) == Interleave(RewriteGaps(gaps), mids)
    decreases |mids|
  {
    if mids != [] {
      var rest := Interleave(gaps[1..], mids[1..]);
      RewriteSplit(gaps[0], mids[0], rest);
      RewriteInterleave(gaps[1..], mids[1..]);
      assert RewriteGaps(gaps)[1..] == RewriteGaps(gaps[1..]);
    }
  }

  /**
   * A replacement that cannot help complete the core of a marker head: it
   * does not start with the core's last character, an underscore, and none
   * of its later characters is in the core.
   */
  predicate Foreign(rep: string) {
    |rep| >= 2 && rep[0] != Core[|Core| - 1] && forall i :: 1 <= i < |rep| ==> rep[i] !in Core
  }

  /** The core is upper-case letters and underscores. */
  lemma CoreChars()
    ensures |Core| == 14 && Core[13] == '_'
    ensures forall c :: c in Core ==> 'A' <= c <= 'Z' || c == '_'
  {
  }

  /** None of the four replacements is upper-case or an underscore after its first character. */
  lemma ReplacementsForeign()
    ensures Foreign(Linkoping) && Foreign(Trolly) && Foreign(TrollyUrl) && Foreign(TrollyPath)
  {
    CoreChars();
    LowerTail(Linkoping);
    LowerTail(Trolly);
    LowerTail(TrollyUrl);
    LowerTail(TrollyPath);
  }

  /** The characters of the replacements after the first. */
  lemma LowerTail(rep: string)
    requires rep == Linkoping || rep == Trolly || rep == TrollyUrl || rep == TrollyPath
    ensures |rep| >= 2 && rep[0] != '_'
    ensures forall i :: 1 <= i < |rep| ==> !('A' <= rep[i] <= 'Z') && rep[i] != '_'
  {
  }

  /** No rule brings in the core of a marker head. */
  lemma RewriteKeepsFree(t: string)
    requires NoOccurrence(t, Core)
    ensures NoOccurrence(RewriteText(t), Core)
  {
    ReplacementsForeign();
    RuleLetters();
    var t1 := ReplaceAll(t, Stockholm, Linkoping);
    var t2 := ReplaceAll(t1, Smiley, Trolly);
    var t3 := ReplaceAll(t2, SmileyUrl, TrollyUrl);
    Prefixed(t);
    ReplaceKeepsFree([], t, Stockholm, Linkoping, Core);
    Prefixed(t1);
    ReplaceKeepsFree([], t1, Smiley, Trolly, Core);
    Prefixed(t2);
    ReplaceKeepsFree([], t2, SmileyUrl, TrollyUrl, Core);
    Prefixed(t3);
    ReplaceKeepsFree([], t3, SmileyPath, TrollyPath, Core);
  }

  lemma Prefixed(t: string)
    ensures [] + t == t && [] + ReplaceAll(t, Stockholm, Linkoping) == ReplaceAll(t, Stockholm, Linkoping)
    ensures [] + ReplaceAll(t, Smiley, Trolly) == ReplaceAll(t, Smiley, Trolly)
    ensures [] + ReplaceAll(t, SmileyUrl, TrollyUrl) == ReplaceAll(t, SmileyUrl, TrollyUrl)
    ensures [] + ReplaceAll(t, SmileyPath, TrollyPath) == ReplaceAll(t, SmileyPath, TrollyPath)
  {
    RuleLetters();
  }

  /**
   * The body after the handler's three steps: mask the protected tags, apply
   * the rules, put the tags back.
   */
  function ProtectedRewrite(body: string): string {
    var d := Decompose(body, 0);
    var n := |d.snippets|;
    RestoreUpTo(RewriteText(Interleave(d.gaps, Placeholders(n))), d.snippets, n)
  }

  /**
   * For a body that never holds the core of a marker head (`PROTECTED_IMG_`):
   * the body is its gaps and its protected tags in turn, every tag is a match
   * of the img pattern, and the result is the same tags, unchanged and in
   * place, with every gap rewritten.
   */
  lemma ProtectedRewriteKeepsTags(body: string)
    requires NoOccurrence(body, Core)
    ensures var d := Decompose(body, 0);
      body == Interleave(d.gaps, d.snippets) &&
      (forall k :: 0 <= k < |d.snippets| ==> InImgLanguage(d.snippets[k])) &&
      ProtectedRewrite(body) == Interleave(RewriteGaps(d.gaps), d.snippets)
  {
    var d := Decompose(body, 0);
    var n := |d.snippets|;
    DecomposeReassembles(body, 0);
    assert body[0..] == body;
    SnippetsMatch(body, 0);
    DecomposeFree(body, 0, Core);
    forall t | 0 <= t < n ensures Framed(d.snippets[t]) {
      LanguageFramed(d.snippets[t]);
    }
    var ps := Placeholders(n);
    forall t | 0 <= t < |ps| ensures Inert(ps[t]) {
      PlaceholderInert(t);
    }
    RewriteInterleave(d.gaps, ps);
    var rg := RewriteGaps(d.gaps);
    forall t | 0 <= t < |rg| ensures NoOccurrence(rg[t], Core) {
      RewriteKeepsFree(d.gaps[t]);
    }
    RestoreAllMarkers(rg, d.snippets);
  }

  /** A body without a protected tag is rewritten exactly as the rules alone rewrite it. */
  lemma NoTagPlainRewrite(body: string)
    requires FindFrom(body, 0).None?
    ensures ProtectedRewrite(body) == RewriteText(body)
  {
    assert body[0..] == body;
  }

  /**
   * Why the hypothesis is needed: a body made of a protected tag followed by
   * the text of marker 0 comes out as two copies of the tag, because the
   * restore loop also replaces the marker text the body already held.
   */
  lemma MarkerCollision(tag: string)
    requires InImgLanguage(tag) && |tag| > 0 && NoChar(tag, 0, |tag| - 1, '>')
    ensures ProtectedRewrite(tag + Placeholder(0)) == tag + tag != tag + Placeholder(0)
  {
    var p := Placeholder(0);
    MarkerLacks(0, '>');
    MarkerLacks(0, '<');
    CollisionPieces(tag, p);
    CollisionRestores(tag + p, tag);
    LanguageFramed(tag);
    PlaceholderLayout(0);
    assert (tag + tag)[|tag|] != (tag + p)[|tag|];
  }

  /** A body cut into an empty gap, one tag and marker 0 comes out as the tag twice. */
  lemma CollisionRestores(body: string, tag: string)
    requires Decompose(body, 0) == Pieces(["", Placeholder(0)], [tag])
    ensures ProtectedRewrite(body) == tag + tag
  {
    var p := Placeholder(0);
    var masked := Interleave(["", p], Placeholders(1));
    assert masked == "" + p + p by {
      assert Placeholders(1) == [p];
      assert ["", p][1..] == [p] && [p][1..] == [];
    }
    MarkerTwice();
    assert RestoreUpTo(p + p, [tag], 1) == tag + tag by {
      ReplaceDouble(p, tag);
    }
  }

  /** The tag is the one protected tag, with an empty gap before it and the text `p` after it. */
  lemma CollisionPieces(tag: string, p: string)
    requires InImgLanguage(tag) && |tag| > 0 && NoChar(tag, 0, |tag| - 1, '>')
    requires '<' !in p && '>' !in p
    ensures Decompose(tag + p, 0) == Pieces(["", p], [tag])
  {
    var body := tag + p;
    MatchWhole(tag, p);
    assert FindFrom(body, 0) == Some(0);
    forall k | |tag| <= k < |body| ensures body[k] != '<' {
      assert body[k] == p[k - |tag|];
    }
    NoOpenNoMatch(body, |tag|);
    assert body[|tag|..] == p;
    assert Decompose(body, |tag|) == Pieces([p], []);
    assert body[0..0] == "" && body[0..|tag|] == tag;
  }

  /** Two markers side by side are left alone by the rules. */
  lemma MarkerTwice()
    ensures RewriteText("" + Placeholder(0) + Placeholder(0)) == Placeholder(0) + Placeholder(0)
  {
    var p := Placeholder(0);
    PlaceholderInert(0);
    RewriteSplit("", p, "");
    assert "" + p + "" == p;
    RewriteSplit("", p, p);
  }

  lemma ReplaceDouble(p: string, s: string)
    requires |p| > 0
    ensures ReplaceAll(p + p, p, s) == s + s
  {
    var pp := p + p;
    assert pp[..|p|] == p;
    assert ReplaceAll(pp, p, s) == s + ReplaceAll(pp[|p|..], p, s);
    assert pp[|p|..] == p;
    assert p[..|p|] == p;
    assert ReplaceAll(p, p, s) == s + ReplaceAll(p[|p|..], p, s);
    assert p[|p|..] == [];
  }
}
