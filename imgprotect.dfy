/**
 * The protection of `<img … src="…Stockholm…" …>` tags in `streamCopy`:
 * every match of the img pattern is cut out of the body and replaced by the
 * marker `__PROTECTED_IMG_<i>__` (the `find`/`appendReplacement`/`appendTail`
 * loop), and after the text rules have run every marker is replaced by the
 * tag it stands for (the restore loop).
 */
module ImgProtect {
  import opened Base
  import opened JString
  import opened ImgMatch
  import opened ImgLanguage

  const MarkerHead: string := "__PROTECTED_IMG_"
  const MarkerTail: string := "__"

  /** The marker for the `i`-th protected tag. */
  function Placeholder(i: nat): string {
    MarkerHead + NatToString(i) + MarkerTail
  }

  /** The markers for tags `0 .. n - 1`, in order. */
  function Placeholders(n: nat): (r: seq<string>)
    ensures |r| == n && forall k :: 0 <= k < n ==> r[k] == Placeholder(k)
  {
    seq(n, k requires 0 <= k => Placeholder(k))
  }

  /** `gaps[0] + mids[0] + gaps[1] + … + mids[n - 1] + gaps[n]`. */
  function Interleave(gaps: seq<string>, mids: seq<string>): string
    requires |gaps| == |mids| + 1
  {
    if mids == [] then gaps[0] else gaps[0] + mids[0] + Interleave(gaps[1..], mids[1..])
  }

  /** `gaps[0] + mids[0] + … + gaps[n - 1] + mids[n - 1]`: all but the last gap. */
  function Weave(gaps: seq<string>, mids: seq<string>): string
    requires |gaps| == |mids|
  {
    if mids == [] then ""
    else Weave(gaps[..|gaps| - 1], mids[..|mids| - 1]) + gaps[|gaps| - 1] + mids[|mids| - 1]
  }

  /** The text between matches and the matches themselves. */
  datatype Pieces = Pieces(gaps: seq<string>, snippets: seq<string>)

  /**
   * How the `find` loop cuts `s[from..]`: the leftmost match, the text before
   * it, and then the same from the end of the match on.
   */
  function Decompose(s: string, from: nat): (r: Pieces)
    requires from <= |s|
    ensures |r.gaps| == |r.snippets| + 1
    decreases |s| - from
  {
    match FindFrom(s, from)
    case None => Pieces([s[from..]], [])
    case Some(p) =>
      var e := MatchAt(s, p).value;
      var rest := Decompose(s, e);
      Pieces([s[from..p]] + rest.gaps, [s[p..e]] + rest.snippets)
  }

  /**
   * The `find`/`appendReplacement` loop and `appendTail`: the body with every
   * protected tag replaced by its marker, and the tags in order.
   */
  method MaskImages(body: string) returns (masked: string, snippets: seq<string>)
    ensures snippets == Decompose(body, 0).snippets
    ensures masked == Interleave(Decompose(body, 0).gaps, Placeholders(|snippets|))
  {
    snippets := [];
    var sb := "";
    ghost var gaps: seq<string> := [];
    var pos := 0;
    var found := FindFrom(body, 0);
    while found.Some?
      invariant Masking(body, pos, gaps, snippets, sb) && found == FindFrom(body, pos)
      decreases |body| - pos
    {
      var p := found.value;
      var e := MatchAt(body, p).value;
      MaskAdvance(body, pos, gaps, snippets, sb);
      sb := sb + body[pos..p] + Placeholder(|snippets|);
      snippets := snippets + [body[p..e]];
      gaps := gaps + [body[pos..p]];
      pos := e;
      found := FindFrom(body, pos);
    }
    masked := sb + body[pos..];
    MaskFinish(body, pos, gaps, snippets, sb);
  }

  /**
   * The loop state after some rounds: `gaps` and `snippets` are what the cut
   * of the whole body starts with, the cut of `body[pos..]` is the rest, and
   * `sb` holds the gaps so far, each followed by its marker.
   */
  ghost predicate Masking(body: string, pos: nat, gaps: seq<string>, snippets: seq<string>, sb: string) {
    pos <= |body| && |gaps| == |snippets| &&
    Decompose(body, 0).gaps == gaps + Decompose(body, pos).gaps &&
    Decompose(body, 0).snippets == snippets + Decompose(body, pos).snippets &&
    sb == Weave(gaps, Placeholders(|snippets|))
  }

  lemma MaskAdvance(body: string, pos: nat, gaps: seq<string>, snippets: seq<string>, sb: string)
    requires Masking(body, pos, gaps, snippets, sb) && FindFrom(body, pos).Some?
    ensures var p := FindFrom(body, pos).value; var e := MatchAt(body, p).value;
      Masking(body, e, gaps + [body[pos..p]], snippets + [body[p..e]], sb + body[pos..p] + Placeholder(|snippets|))
  {
    var p := FindFrom(body, pos).value;
    DecomposeStep(body, pos, gaps, snippets);
    WeaveStep(gaps, |snippets|, body[pos..p]);
  }

  lemma MaskFinish(body: string, pos: nat, gaps: seq<string>, snippets: seq<string>, sb: string)
    requires Masking(body, pos, gaps, snippets, sb) && FindFrom(body, pos).None?
    ensures snippets == Decompose(body, 0).snippets
    ensures sb + body[pos..] == Interleave(Decompose(body, 0).gaps, Placeholders(|snippets|))
  {
    assert Decompose(body, pos) == Pieces([body[pos..]], []);
    InterleaveWeave(gaps, Placeholders(|snippets|), body[pos..]);
  }

  /** One round of the `find` loop moves a gap and a tag from the rest to what is done. */
  lemma DecomposeStep(body: string, pos: nat, gaps: seq<string>, snippets: seq<string>)
    requires pos <= |body| && FindFrom(body, pos).Some?
    ensures var p := FindFrom(body, pos).value; var e := MatchAt(body, p).value;
      gaps + Decompose(body, pos).gaps == (gaps + [body[pos..p]]) + Decompose(body, e).gaps &&
      snippets + Decompose(body, pos).snippets == (snippets + [body[p..e]]) + Decompose(body, e).snippets
  {
    var p := FindFrom(body, pos).value;
    var e := MatchAt(body, p).value;
    var rest := Decompose(body, e);
    assert Decompose(body, pos) == Pieces([body[pos..p]] + rest.gaps, [body[p..e]] + rest.snippets);
    PushFront(gaps, body[pos..p], rest.gaps);
    PushFront(snippets, body[p..e], rest.snippets);
  }

  lemma PlaceholdersSnoc(n: nat)
    ensures Placeholders(n + 1) == Placeholders(n) + [Placeholder(n)]
  {
  }

  lemma PushFront(xs: seq<string>, x: string, ys: seq<string>)
    ensures xs + ([x] + ys) == (xs + [x]) + ys
  {
  }

  lemma WeaveStep(gaps: seq<string>, n: nat, g: string)
    requires |gaps| == n
    ensures Weave(gaps + [g], Placeholders(n + 1)) == Weave(gaps, Placeholders(n)) + g + Placeholder(n)
  {
    PlaceholdersSnoc(n);
    WeaveSnoc(gaps, Placeholders(n), g, Placeholder(n));
  }

  lemma WeaveSnoc(gaps: seq<string>, mids: seq<string>, g: string, m: string)
    requires |gaps| == |mids|
    ensures Weave(gaps + [g], mids + [m]) == Weave(gaps, mids) + g + m
  {
    assert (gaps + [g])[..|gaps|] == gaps;
    assert (mids + [m])[..|mids|] == mids;
  }

  lemma {:induction false} WeaveFront(gaps: seq<string>, mids: seq<string>)
    requires |gaps| == |mids| > 0
    ensures Weave(gaps, mids) == gaps[0] + mids[0] + Weave(gaps[1..], mids[1..])
    decreases |mids|
  {
    var n := |mids|;
    if n > 1 {
      WeaveFront(gaps[..n - 1], mids[..n - 1]);
      assert gaps[..n - 1][1..] == gaps[1..][..n - 2];
      assert mids[..n - 1][1..] == mids[1..][..n - 2];
    } else {
      assert gaps[..0] == [] && mids[..0] == [];
    }
  }

  lemma {:induction false} InterleaveWeave(gaps: seq<string>, mids: seq<string>, last: string)
    requires |gaps| == |mids|
    ensures Interleave(gaps + [last], mids) == Weave(gaps, mids) + last
    decreases |mids|
  {
    if mids != [] {
      WeaveFront(gaps, mids);
      assert (gaps + [last])[1..] == gaps[1..] + [last];
      InterleaveWeave(gaps[1..], mids[1..], last);
    }
  }

  /** The restore loop after `k` rounds: markers `0 .. k - 1` replaced by their tags. */
  function RestoreUpTo(text: string, snippets: seq<string>, k: nat): string
    requires k <= |snippets|
  {
    if k == 0 then text
    else ReplaceAll(RestoreUpTo(text, snippets, k - 1), Placeholder(k - 1), snippets[k - 1])
  }

  /** The restore loop: each marker in turn replaced by the tag it stands for. */
  method RestoreImages(text: string, snippets: seq<string>) returns (body: string)
    ensures body == RestoreUpTo(text, snippets, |snippets|)
  {
    body := text;
    for i := 0 to |snippets|
      invariant body == RestoreUpTo(text, snippets, i)
    {
      body := ReplaceAll(body, Placeholder(i), snippets[i]);
    }
  }

  // ---------------------------------------------------------------------------
  // What the cut preserves

  /** Gaps and tags put back together give the text they were cut from. */
  lemma {:induction false} DecomposeReassembles(s: string, from: nat)
    requires from <= |s|
    ensures Interleave(Decompose(s, from).gaps, Decompose(s, from).snippets) == s[from..]
    decreases |s| - from
  {
    match FindFrom(s, from)
    case None =>
    case Some(p) =>
      var e := MatchAt(s, p).value;
      DecomposeReassembles(s, e);
      assert s[from..] == s[from..p] + s[p..e] + s[e..];
  }

  /** Every protected tag is a word of the img pattern's language. */
  lemma {:induction false} SnippetsMatch(s: string, from: nat)
    requires from <= |s|
    ensures forall k :: 0 <= k < |Decompose(s, from).snippets| ==> InImgLanguage(Decompose(s, from).snippets[k])
    decreases |s| - from
  {
    match FindFrom(s, from)
    case None =>
    case Some(p) =>
      var e := MatchAt(s, p).value;
      MatchSound(s, p);
      SnippetsMatch(s, e);
  }

  /** A text without `p` has no `p` in any gap or any tag cut from it. */
  lemma {:induction false} DecomposeFree(s: string, from: nat, p: string)
    requires from <= |s| && NoOccurrence(s, p)
    ensures forall k :: 0 <= k < |Decompose(s, from).gaps| ==> NoOccurrence(Decompose(s, from).gaps[k], p)
    ensures forall k :: 0 <= k < |Decompose(s, from).snippets| ==> NoOccurrence(Decompose(s, from).snippets[k], p)
    decreases |s| - from
  {
    match FindFrom(s, from)
    case None =>
      NoOccurrenceSlice(s, from, |s|, p);
      assert s[from..] == s[from..|s|];
    case Some(p') =>
      var e := MatchAt(s, p').value;
      NoOccurrenceSlice(s, from, p', p);
      NoOccurrenceSlice(s, p', e, p);
      DecomposeFree(s, e, p);
  }

  /** A protected tag opens with `<` and closes with `>`. */
  predicate Framed(t: string) {
    |t| > 0 && t[0] == '<' && t[|t| - 1] == '>'
  }

  lemma LanguageFramed(t: string)
    requires InImgLanguage(t)
    ensures Framed(t)
  {
    var j: nat, m: nat, q: nat :| ShapeAt(t, j, m, q);
    assert LowerChar(t[0]) == ImgOpen[0];
  }

  // ---------------------------------------------------------------------------
  // Markers cannot be mistaken for one another

  /**
   * What follows the two leading underscores of a marker's head. A text
   * without it holds no marker, and no marker can be completed from it.
   */
  const Core: string := "PROTECTED_IMG_"

  /** Where the underscores of a marker are. */
  lemma PlaceholderLayout(j: nat)
    ensures var m := Placeholder(j); var v := |NatToString(j)|;
      |m| == 18 + v && m[0] == '_' && m[1] == '_' && m[2] == 'P' && m[11] == '_' && m[12] == 'I' &&
      m[15] == '_' && m[16 + v] == '_' && m[17 + v] == '_' &&
      (forall o :: 2 <= o < 11 ==> m[o] != '_') && (forall o :: 12 <= o < 15 ==> m[o] != '_') &&
      (forall o :: 16 <= o < 16 + v ==> IsDigit(m[o]) && m[o] == NatToString(j)[o - 16]) &&
      m[..16] == MarkerHead && m[2..13] == "PROTECTED_I"
  {
    var d := NatToString(j);
    var m := Placeholder(j);
    HeadLayout();
    MarkerParts(MarkerHead, d, MarkerTail);
    assert m[2..13] == MarkerHead[2..13];
  }

  /** A marker's head is two underscores and the core, none of them a digit; a digit follows. */
  lemma PlaceholderCore(j: nat)
    ensures var m := Placeholder(j);
      |m| >= 19 && (forall t :: 0 <= t < 14 ==> m[2 + t] == Core[t]) &&
      (forall o :: 0 <= o < 16 ==> !IsDigit(m[o])) && IsDigit(m[16])
  {
    var d := NatToString(j);
    HeadLayout();
    MarkerParts(MarkerHead, d, MarkerTail);
  }

  lemma HeadLayout()
    ensures |MarkerHead| == 16 && |MarkerTail| == 2 && MarkerTail[0] == '_' && MarkerTail[1] == '_'
    ensures MarkerHead[0] == '_' && MarkerHead[1] == '_' && MarkerHead[2] == 'P' && MarkerHead[11] == '_'
    ensures MarkerHead[12] == 'I' && MarkerHead[15] == '_'
    ensures forall o :: 2 <= o < 11 ==> MarkerHead[o] != '_'
    ensures forall o :: 12 <= o < 15 ==> MarkerHead[o] != '_'
    ensures MarkerHead[2..13] == "PROTECTED_I"
    ensures forall t :: 0 <= t < 14 ==> MarkerHead[2 + t] == Core[t]
    ensures forall o :: 0 <= o < 16 ==> !IsDigit(MarkerHead[o])
  {
  }

  /** The core has underscores only at 9 and 13, and neither bracket of a tag. */
  lemma CoreLayout()
    ensures |Core| == 14 && Core[0] == 'P' && Core[9] == '_' && Core[10] == 'I' && Core[13] == '_'
    ensures forall t :: 0 <= t < 14 && t != 9 && t != 13 ==> Core[t] != '_'
    ensures '<' !in Core && '>' !in Core
  {
  }

  lemma MarkerParts(h: string, d: string, t: string)
    ensures |h + d + t| == |h| + |d| + |t| && (h + d + t)[..|h|] == h
    ensures forall o :: 0 <= o < |h| ==> (h + d + t)[o] == h[o]
    ensures forall o :: |h| <= o < |h| + |d| ==> (h + d + t)[o] == d[o - |h|]
    ensures forall o :: |h| + |d| <= o < |h| + |d| + |t| ==> (h + d + t)[o] == t[o - |h| - |d|]
  {
  }

  /** `r` holds, at `d`, the core of a marker head followed by a digit. */
  predicate StartsCoreDigit(r: string, d: nat) {
    d + 15 <= |r| && OccursAt(r, d, Core) && IsDigit(r[d + 14])
  }

  /**
   * What may follow a marker: nothing that, together with the marker's two
   * closing underscores or its last one, completes the head of another.
   */
  predicate AfterMarker(r: string) {
    !StartsCoreDigit(r, 0) && !StartsCoreDigit(r, 1)
  }

  /** A text without the core, then the end or a marker, may follow a marker. */
  lemma AfterMarkerCons(g: string, y: string)
    requires NoOccurrence(g, Core)
    requires y == [] || (|y| >= 2 && y[0] == '_' && y[1] == '_')
    ensures AfterMarker(g + y)
  {
    NotCoreDigit(g, y, 0);
    NotCoreDigit(g, y, 1);
  }

  lemma NotCoreDigit(g: string, y: string, d: nat)
    requires NoOccurrence(g, Core) && d <= 1
    requires y == [] || (|y| >= 2 && y[0] == '_' && y[1] == '_')
    ensures !StartsCoreDigit(g + y, d)
  {
    var r := g + y;
    CoreLayout();
    if d + 15 <= |r| {
      if d + 14 <= |g| {
        assert r[d..d + 14] == g[d..d + 14];
        assert !OccursAt(g, d, Core);
      } else if |g| < d {
        assert r[d] == y[1];
        Mismatch(r, d, Core, 0);
      } else {
        var t := |g| - d;
        assert r[|g|] == y[0] && r[|g| + 1] == y[1];
        if t == 13 {
          assert !IsDigit(r[d + 14]);
        } else if t == 9 {
          Mismatch(r, d, Core, 10);
        } else {
          Mismatch(r, d, Core, t);
        }
      }
    }
  }

  /** No marker starts in a text without the core, even one running into a marker. */
  lemma BeforeMarker(h: string, j: nat, z: string, o: nat, i: nat)
    requires NoOccurrence(h, Core) && o < |h|
    ensures !OccursAt(h + Placeholder(j) + z, o, Placeholder(i))
  {
    if o + 16 <= |h| {
      InsideFree(h, Placeholder(j) + z, o, i);
      assert h + Placeholder(j) + z == h + (Placeholder(j) + z);
    } else {
      AcrossHead(h, j, z, o, i);
    }
  }

  /** A marker starting well inside a text without the core would put the core there. */
  lemma InsideFree(h: string, z: string, o: nat, i: nat)
    requires NoOccurrence(h, Core) && o + 16 <= |h|
    ensures !OccursAt(h + z, o, Placeholder(i))
  {
    var y, pi := h + z, Placeholder(i);
    CoreDiffers(h, o + 2);
    var t :| 0 <= t < 14 && h[o + 2 + t] != Core[t];
    PlaceholderCore(i);
    assert y[o + 2 + t] == h[o + 2 + t];
    Mismatch(y, o, pi, 2 + t);
  }

  /** Where the core does not start in a text without it, some character differs from it. */
  lemma CoreDiffers(h: string, d: nat)
    requires NoOccurrence(h, Core) && d + 14 <= |h|
    ensures exists t :: 0 <= t < 14 && h[d + t] != Core[t]
  {
    assert !OccursAt(h, d, Core);
    Differs(h, d, Core);
  }

  /** A marker starting less than 16 characters before marker `j` would need a digit inside its head. */
  lemma AcrossHead(h: string, j: nat, z: string, o: nat, i: nat)
    requires o < |h| < o + 16
    ensures !OccursAt(h + Placeholder(j) + z, o, Placeholder(i))
  {
    var y, pi, pj := h + Placeholder(j) + z, Placeholder(i), Placeholder(j);
    PlaceholderCore(i);
    PlaceholderCore(j);
    assert y[o + 16] == pj[o + 16 - |h|];
    Mismatch(y, o, pi, 16);
  }

  /** A text without the core holds no marker. */
  lemma CoreFreeNoMarker(s: string, i: nat)
    requires NoOccurrence(s, Core)
    ensures NoOccurrence(s, Placeholder(i))
  {
    var pi := Placeholder(i);
    PlaceholderCore(i);
    forall o: nat | o <= |s| ensures !OccursAt(s, o, pi) {
      if o + |pi| <= |s| {
        CoreDiffers(s, o + 2);
        var t :| 0 <= t < 14 && s[o + 2 + t] != Core[t];
        Mismatch(s, o, pi, 2 + t);
      }
    }
  }

  /** Marker `i` does not start inside marker `j` followed by a text that may follow a marker. */
  lemma PlaceholderOffset(i: nat, j: nat, o: nat, r: string)
    requires i != j && o < |Placeholder(j)| && AfterMarker(r)
    ensures !OccursAt(Placeholder(j) + r, o, Placeholder(i))
  {
    var pi, pj := Placeholder(i), Placeholder(j);
    var y := pj + r;
    var v := |NatToString(j)|;
    MarkerLength(i);
    MarkerLength(j);
    if o + |pi| > |y| {
    } else if o == 0 {
      if OccursAt(y, 0, pi) {
        SameDigits(i, j, y);
      }
    } else if o == 16 + v {
      assert y[o + 2..] == r;
      TailOffset(i, y, o, r);
    } else if o == 17 + v {
      assert y[o + 1..] == r;
      EndOffset(i, y, o, r);
    } else {
      InnerOffset(i, j, y, o);
    }
  }

  /** Marker `i` does not start at the two underscores closing a marker, followed by `r`. */
  lemma TailOffset(i: nat, y: string, o: nat, r: string)
    requires o + 2 <= |y| && y[o] == '_' && y[o + 1] == '_' && y[o + 2..] == r && !StartsCoreDigit(r, 0)
    requires o + |Placeholder(i)| <= |y|
    ensures !OccursAt(y, o, Placeholder(i))
  {
    var pi := Placeholder(i);
    PlaceholderCore(i);
    assert forall t :: 0 <= t < |r| ==> y[o + 2 + t] == r[t];
    if OccursAt(r, 0, Core) {
      Mismatch(y, o, pi, 16);
    } else {
      Differs(r, 0, Core);
      var t :| 0 <= t < 14 && r[t] != Core[t];
      Mismatch(y, o, pi, 2 + t);
    }
  }

  /** Marker `i` does not start at the last underscore of a marker, followed by `r`. */
  lemma EndOffset(i: nat, y: string, o: nat, r: string)
    requires o + 1 <= |y| && y[o] == '_' && y[o + 1..] == r && !StartsCoreDigit(r, 1)
    requires o + |Placeholder(i)| <= |y|
    ensures !OccursAt(y, o, Placeholder(i))
  {
    var pi := Placeholder(i);
    PlaceholderLayout(i);
    PlaceholderCore(i);
    assert forall t :: 0 <= t < |r| ==> y[o + 1 + t] == r[t];
    if r[0] != '_' {
      Mismatch(y, o, pi, 1);
    } else if OccursAt(r, 1, Core) {
      Mismatch(y, o, pi, 16);
    } else {
      Differs(r, 1, Core);
      var t :| 0 <= t < 14 && r[1 + t] != Core[t];
      Mismatch(y, o, pi, 2 + t);
    }
  }

  /** Marker `i` does not start strictly inside marker `j`, away from its closing underscores. */
  lemma InnerOffset(i: nat, j: nat, y: string, o: nat)
    requires 0 < o && o + 1 < |Placeholder(j)| && o != 16 + |NatToString(j)|
    requires |Placeholder(j)| <= |y| && y[..|Placeholder(j)|] == Placeholder(j)
    ensures !OccursAt(y, o, Placeholder(i))
  {
    var pi, pj := Placeholder(i), Placeholder(j);
    assert y[o] == pj[o] && y[o + 1] == pj[o + 1];
    PlaceholderLayout(i);
    if pj[o] != '_' {
      Mismatch(y, o, pi, 0);
    } else if pj[o + 1] != '_' {
      Mismatch(y, o, pi, 1);
    } else {
      DoubleUnderscores(j, o);
    }
  }

  lemma MarkerLength(j: nat)
    ensures |Placeholder(j)| == 18 + |NatToString(j)|
  {
  }

  /** Inside a marker, two underscores in a row stand only at its start and its end. */
  lemma DoubleUnderscores(j: nat, o: nat)
    requires o + 1 < |Placeholder(j)| && Placeholder(j)[o] == '_' && Placeholder(j)[o + 1] == '_'
    ensures o == 0 || o == 16 + |NatToString(j)|
  {
    PlaceholderLayout(j);
  }

  /** Marker `i` at the start of marker `j` makes `i` and `j` equal. */
  lemma SameDigits(i: nat, j: nat, y: string)
    requires OccursAt(y, 0, Placeholder(i)) && |Placeholder(j)| <= |y| && y[..|Placeholder(j)|] == Placeholder(j)
    ensures i == j
  {
    var di, dj := NatToString(i), NatToString(j);
    var u, v := |di|, |dj|;
    PlaceholderLayout(i);
    PlaceholderLayout(j);
    var pi, pj := Placeholder(i), Placeholder(j);
    assert forall t :: 0 <= t < |pi| ==> y[t] == pi[t] by {
      assert y[..|pi|] == pi;
    }
    assert forall t :: 0 <= t < |pj| ==> y[t] == pj[t];
    if u == v {
      assert forall t :: 0 <= t < u ==> di[t] == y[16 + t] == dj[t];
      assert di == dj;
      NatToStringInjective(i, j);
    }
  }

  /** Gaps without the core between markers numbered from `a` on contain no marker `i < a`. */
  lemma {:induction false} OthersAbsent(gs: seq<string>, ms: seq<string>, a: nat, i: nat)
    requires |gs| == |ms| + 1 && i < a
    requires forall k :: 0 <= k < |gs| ==> NoOccurrence(gs[k], Core)
    requires forall t :: 0 <= t < |ms| ==> ms[t] == Placeholder(a + t)
    ensures NoOccurrence(Interleave(gs, ms), Placeholder(i))
    ensures AfterMarker(Interleave(gs, ms))
    decreases |ms|
  {
    if ms == [] {
      CoreFreeNoMarker(gs[0], i);
      AfterMarkerCons(gs[0], []);
      assert gs[0] + [] == gs[0];
    } else {
      var r := Interleave(gs[1..], ms[1..]);
      OthersAbsent(gs[1..], ms[1..], a + 1, i);
      ConsNoOccurrence(gs[0], a, r, i);
      PlaceholderLayout(a);
      AfterMarkerCons(gs[0], ms[0] + r);
      assert gs[0] + (ms[0] + r) == gs[0] + ms[0] + r;
    }
  }

  /** A gap without the core, marker `a` and a text without marker `i` contain no marker `i`. */
  lemma ConsNoOccurrence(g: string, a: nat, r: string, i: nat)
    requires NoOccurrence(g, Core) && i != a && NoOccurrence(r, Placeholder(i)) && AfterMarker(r)
    ensures NoOccurrence(g + Placeholder(a) + r, Placeholder(i))
  {
    forall o: nat | o <= |g + Placeholder(a) + r| ensures !OccursAt(g + Placeholder(a) + r, o, Placeholder(i)) {
      ConsAt(g, a, r, i, o);
    }
  }

  lemma ConsAt(g: string, a: nat, r: string, i: nat, o: nat)
    requires NoOccurrence(g, Core) && i != a && NoOccurrence(r, Placeholder(i)) && AfterMarker(r)
    ensures !OccursAt(g + Placeholder(a) + r, o, Placeholder(i))
  {
    var ph, m := Placeholder(i), Placeholder(a);
    var x := g + m + r;
    ThreeParts(g, m, r);
    if o < |g| {
      BeforeMarker(g, a, r, o, i);
    } else if o < |g| + |m| {
      OccursAtDrop(x, |g|, o - |g|, ph);
      PlaceholderOffset(i, a, o - |g|, r);
    } else if o <= |x| {
      OccursAtDrop(x, |g| + |m|, o - |g| - |m|, ph);
      assert !OccursAt(r, o - |g| - |m|, ph);
    }
  }

  lemma ThreeParts(g: string, m: string, r: string)
    ensures (g + m + r)[|g|..] == m + r && (g + m + r)[|g| + |m|..] == r
    ensures forall o :: 0 <= o < |g| ==> (g + m + r)[o] == g[o]
  {
  }

  /** Replacing a marker where it occurs exactly once. */
  lemma ReplaceOnce(a: string, ph: string, b: string, s: string)
    requires |ph| > 0 && NoOccurrence(b, ph)
    requires forall o: nat :: o < |a| ==> !OccursAt(a + ph + b, o, ph)
    ensures ReplaceAll(a + ph + b, ph, s) == a + s + b
  {
    var y := a + (ph + b);
    assert a + ph + b == y;
    ReplaceSkip(a, ph + b, ph, s);
    ReplaceHit(ph, b, s);
    ReplaceAbsent(b, ph, s);
    assert a + (s + b) == a + s + b;
  }

  /** Replacing at the start of the text, where the pattern occurs. */
  lemma ReplaceHit(ph: string, b: string, s: string)
    requires |ph| > 0
    ensures ReplaceAll(ph + b, ph, s) == s + ReplaceAll(b, ph, s)
  {
    assert (ph + b)[..|ph|] == ph && (ph + b)[|ph|..] == b;
  }

  /** Cutting an interleaving at its `k`-th middle piece. */
  lemma {:induction false} InterleaveSplit(gaps: seq<string>, mids: seq<string>, k: nat)
    requires |gaps| == |mids| + 1 && k < |mids|
    ensures Interleave(gaps, mids) ==
      Weave(gaps[..k], mids[..k]) + gaps[k] + mids[k] + Interleave(gaps[k + 1..], mids[k + 1..])
    decreases k
  {
    if k > 0 {
      InterleaveSplit(gaps[1..], mids[1..], k - 1);
      WeaveFront(gaps[..k], mids[..k]);
      assert gaps[..k][1..] == gaps[1..][..k - 1] && mids[..k][1..] == mids[1..][..k - 1];
      assert gaps[1..][k..] == gaps[k + 1..] && mids[1..][k..] == mids[k + 1..];
      var w := Weave(gaps[1..][..k - 1], mids[1..][..k - 1]);
      var r := Interleave(gaps[k + 1..], mids[k + 1..]);
      assert Interleave(gaps, mids) == gaps[0] + mids[0] + (w + gaps[k] + mids[k] + r);
      RegroupSix(gaps[0], mids[0], w, gaps[k], mids[k], r);
    }
  }

  lemma RegroupSix(a: string, b: string, c: string, d: string, e: string, f: string)
    ensures a + b + (c + d + e + f) == (a + b + c) + d + e + f
  {
  }

  /** Gaps and framed tags without the core weave into a text without it, ending in `>` if not empty. */
  lemma {:induction false} WeaveFree(gaps: seq<string>, mids: seq<string>)
    requires |gaps| == |mids|
    requires forall k :: 0 <= k < |gaps| ==> NoOccurrence(gaps[k], Core)
    requires forall k :: 0 <= k < |mids| ==> Framed(mids[k]) && NoOccurrence(mids[k], Core)
    ensures NoOccurrence(Weave(gaps, mids), Core)
    ensures Weave(gaps, mids) == [] || Weave(gaps, mids)[|Weave(gaps, mids)| - 1] == '>'
    decreases |mids|
  {
    if mids != [] {
      var n := |mids|;
      var w := Weave(gaps[..n - 1], mids[..n - 1]);
      WeaveFree(gaps[..n - 1], mids[..n - 1]);
      CoreLayout();
      JoinFree(w, gaps[n - 1], Core);
      JoinFree(w + gaps[n - 1], mids[n - 1], Core);
    }
  }

  /** The markers with the first `k` already replaced by their tags. */
  function Mixed(snippets: seq<string>, k: nat): (r: seq<string>)
    requires k <= |snippets|
    ensures |r| == |snippets|
  {
    snippets[..k] + Placeholders(|snippets|)[k..]
  }

  /**
   * No gap and no tag holds the core of a marker head, and every tag is
   * framed by `<` and `>`.
   */
  predicate Unmarked(gaps: seq<string>, snippets: seq<string>) {
    (forall t :: 0 <= t < |gaps| ==> NoOccurrence(gaps[t], Core)) &&
    (forall t :: 0 <= t < |snippets| ==> Framed(snippets[t]) && NoOccurrence(snippets[t], Core))
  }

  /** One round of the restore loop replaces exactly the one marker it names. */
  lemma RestoreStep(gaps: seq<string>, snippets: seq<string>, k: nat)
    requires |gaps| == |snippets| + 1 && k < |snippets|
    requires Unmarked(gaps, snippets)
    ensures ReplaceAll(Interleave(gaps, Mixed(snippets, k)), Placeholder(k), snippets[k])
      == Interleave(gaps, Mixed(snippets, k + 1))
  {
    MixedSplit(gaps, snippets, k);
    var head := Weave(gaps[..k], snippets[..k]) + gaps[k];
    var tail := Interleave(gaps[k + 1..], Placeholders(|snippets|)[k + 1..]);
    HeadFree(gaps, snippets, k);
    forall o: nat | o < |head| ensures !OccursAt(head + Placeholder(k) + tail, o, Placeholder(k)) {
      BeforeMarker(head, k, tail, o, k);
    }
    TailAvoids(gaps, |snippets|, k);
    ReplaceOnce(head, Placeholder(k), tail, snippets[k]);
  }

  /** What comes before marker `k` in round `k` holds no core. */
  lemma HeadFree(gaps: seq<string>, snippets: seq<string>, k: nat)
    requires |gaps| == |snippets| + 1 && k < |snippets|
    requires Unmarked(gaps, snippets)
    ensures NoOccurrence(Weave(gaps[..k], snippets[..k]) + gaps[k], Core)
  {
    WeaveFree(gaps[..k], snippets[..k]);
    CoreLayout();
    JoinFree(Weave(gaps[..k], snippets[..k]), gaps[k], Core);
  }

  /** What comes after marker `k` holds only later markers, so no marker `k`. */
  lemma TailAvoids(gaps: seq<string>, n: nat, k: nat)
    requires |gaps| == n + 1 && k < n
    requires forall t :: 0 <= t < |gaps| ==> NoOccurrence(gaps[t], Core)
    ensures NoOccurrence(Interleave(gaps[k + 1..], Placeholders(n)[k + 1..]), Placeholder(k))
  {
    OthersAbsent(gaps[k + 1..], Placeholders(n)[k + 1..], k + 1, k);
  }

  /** The interleavings before and after round `k`, cut at the `k`-th middle piece. */
  lemma MixedSplit(gaps: seq<string>, snippets: seq<string>, k: nat)
    requires |gaps| == |snippets| + 1 && k < |snippets|
    ensures var tail := Interleave(gaps[k + 1..], Placeholders(|snippets|)[k + 1..]);
      var head := Weave(gaps[..k], snippets[..k]) + gaps[k];
      Interleave(gaps, Mixed(snippets, k)) == head + Placeholder(k) + tail &&
      Interleave(gaps, Mixed(snippets, k + 1)) == head + snippets[k] + tail
  {
    InterleaveSplit(gaps, Mixed(snippets, k), k);
    InterleaveSplit(gaps, Mixed(snippets, k + 1), k);
    MixedParts(snippets, k);
  }

  lemma MixedParts(snippets: seq<string>, k: nat)
    requires k < |snippets|
    ensures var m, m', ps := Mixed(snippets, k), Mixed(snippets, k + 1), Placeholders(|snippets|);
      m[..k] == snippets[..k] == m'[..k] && m[k] == Placeholder(k) && m'[k] == snippets[k] &&
      m[k + 1..] == ps[k + 1..] == m'[k + 1..]
  {
    var m, m', ps := Mixed(snippets, k), Mixed(snippets, k + 1), Placeholders(|snippets|);
    assert m[..k] == snippets[..k] == m'[..k];
    assert m[k + 1..] == ps[k + 1..] == m'[k + 1..];
  }

  lemma {:induction false} RestorePrefix(gaps: seq<string>, snippets: seq<string>, k: nat)
    requires |gaps| == |snippets| + 1 && k <= |snippets|
    requires Unmarked(gaps, snippets)
    ensures RestoreUpTo(Interleave(gaps, Placeholders(|snippets|)), snippets, k) == Interleave(gaps, Mixed(snippets, k))
    decreases k
  {
    if k == 0 {
      assert Mixed(snippets, 0) == Placeholders(|snippets|);
    } else {
      RestorePrefix(gaps, snippets, k - 1);
      RestoreStep(gaps, snippets, k - 1);
    }
  }

  /**
   * When no gap and no tag holds the core of a marker head, and every tag
   * is framed by `<` and `>`, the restore loop puts every tag back exactly
   * where its marker was, and nowhere else.
   */
  lemma RestoreAllMarkers(gaps: seq<string>, snippets: seq<string>)
    requires |gaps| == |snippets| + 1
    requires Unmarked(gaps, snippets)
    ensures RestoreUpTo(Interleave(gaps, Placeholders(|snippets|)), snippets, |snippets|) == Interleave(gaps, snippets)
  {
    RestorePrefix(gaps, snippets, |snippets|);
    MixedAll(snippets);
  }

  lemma MixedAll(snippets: seq<string>)
    ensures Mixed(snippets, |snippets|) == snippets
  {
    assert Placeholders(|snippets|)[|snippets|..] == [];
  }
}
