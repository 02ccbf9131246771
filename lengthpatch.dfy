/**
 * How `streamCopy` makes the header block of a rewritten HTML response
 * declare the new body length: when the lower-cased headers mention
 * "content-length:", every match of
 * `(?i)(Content-Length:[ \t\n\x0B\f\r]*)\d+` is replaced by
 * `Content-Length: <n>` (`String.replaceAll`); otherwise the header line is
 * appended.
 */
module LengthPatch {
  import opened Base
  import opened JString
  import opened ImgMatch

  /** The literal part of the pattern, lower-cased. */
  const LengthKey: string := "content-length:"
  /** The replacement text before the number. */
  const LengthLabel: string := "Content-Length: "

  /** The characters of `[ \t\n\x0B\f\r]`. */
  predicate IsBlank(c: char) {
    c == ' ' || c == '\t' || c == '\n' || c == 11 as char || c == 12 as char || c == '\r'
  }

  /** The end of the run of blanks that starts at `k`. */
  function BlankEnd(s: string, k: nat): (e: nat)
    requires k <= |s|
    ensures k <= e <= |s|
    decreases |s| - k
  {
    if k < |s| && IsBlank(s[k]) then BlankEnd(s, k + 1) else k
  }

  /** The end of the run of ASCII digits (`\d`) that starts at `k`. */
  function DigitEnd(s: string, k: nat): (e: nat)
    requires k <= |s|
    ensures k <= e <= |s|
    decreases |s| - k
  {
    if k < |s| && IsDigit(s[k]) then DigitEnd(s, k + 1) else k
  }

  /**
   * The match starting exactly at `p`, given by its end.  The greedy blank
   * run never gives anything back: the character after any shorter run is
   * a blank, not a digit.  `\d+` then takes every digit.
   */
  function LengthMatchAt(s: string, p: nat): (r: Option<nat>)
    ensures r.Some? ==> p + |LengthKey| < r.value <= |s|
    ensures r.Some? ==> BlankEnd(s, p + |LengthKey|) < r.value
  {
    if CiAt(s, p, LengthKey) then
      var w := BlankEnd(s, p + |LengthKey|);
      var d := DigitEnd(s, w);
      if w < d then Some(d) else None
    else None
  }

  /** The leftmost match at or after `from`. */
  function FindLength(s: string, from: nat): (r: Option<nat>)
    requires from <= |s|
    ensures r.Some? ==> from <= r.value < |s| && LengthMatchAt(s, r.value).Some?
    decreases |s| - from
  {
    if from == |s| then None
    else if LengthMatchAt(s, from).Some? then Some(from)
    else FindLength(s, from + 1)
  }

  /** `FindLength` finds the leftmost match: there is none before it, and none at all when it finds nothing. */
  lemma {:induction false} FindLengthIsFirst(s: string, from: nat)
    requires from <= |s|
    ensures FindLength(s, from).Some? ==> forall p :: from <= p < FindLength(s, from).value ==> LengthMatchAt(s, p).None?
    ensures FindLength(s, from).None? ==> forall p :: from <= p < |s| ==> LengthMatchAt(s, p).None?
    decreases |s| - from
  {
    if from < |s| && LengthMatchAt(s, from).None? {
      FindLengthIsFirst(s, from + 1);
      assert FindLength(s, from) == FindLength(s, from + 1);
      assert forall p :: from <= p < from + 1 ==> LengthMatchAt(s, p).None?;
    }
  }

  /** The number the first Content-Length header of `s` declares, as written. */
  function Declared(s: string): Option<string> {
    match FindLength(s, 0)
    case None => None
    case Some(p) => Some(s[BlankEnd(s, p + |LengthKey|)..LengthMatchAt(s, p).value])
  }

  function LengthHeader(n: nat): string {
    LengthLabel + NatToString(n)
  }

  /**
   * `replaceAll` from `from` on: the text up to the next match is copied,
   * the match is replaced, and the search goes on from the end of the match.
   */
  function ReplaceLengths(s: string, from: nat, n: nat): string
    requires from <= |s|
    decreases |s| - from
  {
    match FindLength(s, from)
    case None => s[from..]
    case Some(p) => s[from..p] + LengthHeader(n) + ReplaceLengths(s, LengthMatchAt(s, p).value, n)
  }

  /** The handler's update of the header block for a body of `n` bytes. */
  function PatchLength(headers: string, n: nat): (r: string)
    ensures AllDeclare(r, NatToString(n))
  {
    if Contains(LowerAscii(headers), LengthKey) then
      ReplaceDeclaresAll(headers, 0, n);
      ReplaceLengths(headers, 0, n)
    else
      AppendDeclaresAll(headers, n);
      headers + "\r\n" + LengthHeader(n)
  }

  // ---------------------------------------------------------------------------
  // The runs

  lemma {:induction false} BlankEndIsEnd(s: string, k: nat)
    requires k <= |s|
    ensures forall i :: k <= i < BlankEnd(s, k) ==> IsBlank(s[i])
    ensures BlankEnd(s, k) < |s| ==> !IsBlank(s[BlankEnd(s, k)])
    decreases |s| - k
  {
    if k < |s| && IsBlank(s[k]) {
      BlankEndIsEnd(s, k + 1);
    }
  }

  lemma {:induction false} DigitEndIsEnd(s: string, k: nat)
    requires k <= |s|
    ensures forall i :: k <= i < DigitEnd(s, k) ==> IsDigit(s[i])
    ensures DigitEnd(s, k) < |s| ==> !IsDigit(s[DigitEnd(s, k)])
    decreases |s| - k
  {
    if k < |s| && IsDigit(s[k]) {
      DigitEndIsEnd(s, k + 1);
    }
  }

  /** Two texts that agree before `q` and hold a non-blank at `q` have the same blank runs up to `q`. */
  lemma {:induction false} BlankEndAgree(s: string, t: string, q: nat, k: nat)
    requires k <= q < |s| && q < |t| && s[..q] == t[..q] && !IsBlank(s[q]) && !IsBlank(t[q])
    ensures BlankEnd(s, k) == BlankEnd(t, k) <= q
    decreases q - k
  {
    if k < q {
      assert s[k] == s[..q][k] && t[k] == t[..q][k];
      if IsBlank(s[k]) {
        BlankEndAgree(s, t, q, k + 1);
      }
    }
  }

  lemma {:induction false} DigitEndAgree(s: string, t: string, q: nat, k: nat)
    requires k <= q < |s| && q < |t| && s[..q] == t[..q] && !IsDigit(s[q]) && !IsDigit(t[q])
    ensures DigitEnd(s, k) == DigitEnd(t, k) <= q
    decreases q - k
  {
    if k < q {
      assert s[k] == s[..q][k] && t[k] == t[..q][k];
      if IsDigit(s[k]) {
        DigitEndAgree(s, t, q, k + 1);
      }
    }
  }

  // ---------------------------------------------------------------------------
  // Where a match can start

  /** Lower-casing and then searching agrees with the case-insensitive comparison. */
  lemma CiAtLower(s: string, p: nat, lit: string)
    ensures CiAt(s, p, lit) <==> OccursAt(LowerAscii(s), p, lit)
  {
    if p + |lit| <= |s| {
      var l := LowerAscii(s)[p..p + |lit|];
      assert forall i :: 0 <= i < |lit| ==> l[i] == LowerChar(s[p + i]);
    }
  }

  /** The first and only `c` of the key is its first character; it has no CR or LF. */
  lemma KeyLetters()
    ensures LengthKey[0] == 'c'
    ensures forall i :: 0 <= i < |LengthKey| ==> LengthKey[i] != '\r' && LengthKey[i] != '\n'
    ensures forall i :: 1 <= i < |LengthKey| ==> LengthKey[i] != 'c'
  {
  }

  /** A match cannot start at `p` when a character of the window does not fit the key. */
  lemma Misfit(s: string, p: nat, q: nat)
    requires p <= q < p + |LengthKey| && q < |s| && LowerChar(s[q]) != LengthKey[q - p]
    ensures LengthMatchAt(s, p).None?
  {
  }

  /**
   * Texts that agree before `q`, with a character at `q` that is neither a
   * blank nor a digit, have the same matches at every `p` whose key ends by `q`.
   */
  lemma MatchAgrees(s: string, t: string, q: nat, p: nat)
    requires q < |s| && q < |t| && s[..q] == t[..q] && p + |LengthKey| <= q
    requires !IsBlank(s[q]) && !IsBlank(t[q]) && !IsDigit(s[q]) && !IsDigit(t[q])
    ensures LengthMatchAt(s, p) == LengthMatchAt(t, p)
  {
    forall i | p <= i < p + |LengthKey| ensures s[i] == t[i] {
      assert s[i] == s[..q][i] && t[i] == t[..q][i];
    }
    var k := p + |LengthKey|;
    BlankEndAgree(s, t, q, k);
    DigitEndAgree(s, t, q, BlankEnd(s, k));
  }

  /** The header the handler writes is itself a match, whose number is `n`. */
  lemma HeaderMatch(x: string, n: nat, z: string)
    requires z == [] || !IsDigit(z[0])
    ensures var s := x + LengthHeader(n) + z;
      LengthMatchAt(s, |x|) == Some(|x| + |LengthHeader(n)|) &&
      s[BlankEnd(s, |x| + |LengthKey|)..|x| + |LengthHeader(n)|] == NatToString(n)
  {
    var s := x + LengthHeader(n) + z;
    var d := NatToString(n);
    var k := |x| + |LengthKey|;
    KeyAt(x, n, z);
    HeaderBlank(x, n, z);
    HeaderDigits(x, n, z);
  }

  lemma InMiddle(x: string, m: string, z: string, i: nat)
    requires i < |m|
    ensures (x + m + z)[|x| + i] == m[i]
  {
  }

  lemma KeyAt(x: string, n: nat, z: string)
    ensures CiAt(x + LengthHeader(n) + z, |x|, LengthKey)
  {
    LabelFacts();
    forall i | 0 <= i < |LengthKey| ensures LowerChar((x + LengthHeader(n) + z)[|x| + i]) == LengthKey[i] {
      InMiddle(x, LengthHeader(n), z, i);
      assert LengthHeader(n)[i] == LengthLabel[i];
    }
  }

  /** The label's space is the whole blank run. */
  lemma HeaderBlank(x: string, n: nat, z: string)
    ensures var s := x + LengthHeader(n) + z;
      BlankEnd(s, |x| + |LengthKey|) == |x| + |LengthLabel|
  {
    var s := x + LengthHeader(n) + z;
    var h := LengthHeader(n);
    HeaderChars(n);
    InMiddle(x, h, z, 15);
    InMiddle(x, h, z, 16);
    BlankOne(s, |x| + 15);
  }

  /** The header's space, and the first digit after it. */
  lemma HeaderChars(n: nat)
    ensures |LengthKey| == 15 && |LengthLabel| == 16 && |LengthHeader(n)| > 16
    ensures LengthHeader(n)[15] == ' ' && IsDigit(LengthHeader(n)[16])
  {
    assert LengthHeader(n)[16] == NatToString(n)[0];
  }

  lemma BlankOne(s: string, k: nat)
    requires k + 1 < |s| && s[k] == ' ' && IsDigit(s[k + 1])
    ensures BlankEnd(s, k) == k + 1
  {
    assert BlankEnd(s, k + 1) == k + 1;
  }

  /** The number's digits are the whole digit run. */
  lemma HeaderDigits(x: string, n: nat, z: string)
    requires z == [] || !IsDigit(z[0])
    ensures var s := x + LengthHeader(n) + z; var w := |x| + |LengthLabel|;
      DigitEnd(s, w) == |x| + |LengthHeader(n)| && s[w..|x| + |LengthHeader(n)|] == NatToString(n)
  {
    var s := x + LengthHeader(n) + z;
    var d := NatToString(n);
    var w := |x| + |LengthLabel|;
    assert s == (x + LengthLabel) + d + z;
    forall i | w <= i < w + |d| ensures IsDigit(s[i]) {
      InMiddle(x + LengthLabel, d, z, i - w);
    }
    if z != [] {
      assert s[w + |d|] == z[0];
    }
    DigitRun(s, w, |d|);
    assert s[w..w + |d|] == d;
  }

  /** The label is the key with its letters capitalised, and a space. */
  lemma LabelFacts()
    ensures |LengthLabel| == |LengthKey| + 1 && LengthLabel[|LengthKey|] == ' '
    ensures forall i :: 0 <= i < |LengthKey| ==> LowerChar(LengthLabel[i]) == LengthKey[i]
  {
  }

  /** A run of `m` digits followed by a non-digit, or by the end. */
  lemma {:induction false} DigitRun(s: string, k: nat, m: nat)
    requires k + m <= |s| && forall i :: k <= i < k + m ==> IsDigit(s[i])
    requires k + m == |s| || !IsDigit(s[k + m])
    ensures DigitEnd(s, k) == k + m
    decreases m
  {
    if m > 0 {
      DigitRun(s, k + 1, m - 1);
    }
  }

  /** `FindLength` is pinned down by a match with none before it. */
  lemma FindLengthAt(s: string, from: nat, q: nat)
    requires from <= q < |s| && LengthMatchAt(s, q).Some?
    requires forall p :: from <= p < q ==> LengthMatchAt(s, p).None?
    ensures FindLength(s, from) == Some(q)
  {
    FindLengthIsFirst(s, from);
    assert !(forall p :: from <= p < |s| ==> LengthMatchAt(s, p).None?);
    var r := FindLength(s, from).value;
    assert r <= q;
    assert q <= r;
  }

  // ---------------------------------------------------------------------------
  // The replacement

  /** What follows a replaced header does not start with a digit. */
  lemma AfterMatch(s: string, e: nat, n: nat)
    requires 0 < e <= |s| && (e == |s| || !IsDigit(s[e]))
    ensures var z := ReplaceLengths(s, e, n); z == [] || !IsDigit(z[0])
  {
    if FindLength(s, e) == Some(e) {
      LabelFacts();
      assert ReplaceLengths(s, e, n)[0] == LengthLabel[0];
    } else if e < |s| {
      assert ReplaceLengths(s, e, n)[0] == s[e];
    }
  }

  /**
   * With at least one match in the headers, the result's first
   * Content-Length header sits where the first match was and declares `n`.
   */
  lemma ReplaceDeclares(s: string, n: nat)
    requires FindLength(s, 0).Some?
    ensures Declared(ReplaceLengths(s, 0, n)) == Some(NatToString(n))
  {
    var q := FindLength(s, 0).value;
    var x, z := s[..q], ReplaceLengths(s, LengthMatchAt(s, q).value, n);
    var r := ReplaceLengths(s, 0, n);
    ReplaceUnfold(s, 0, n);
    assert s[0..q] == x;
    ReplacedHeader(s, q, n, x);
    GapNone(s, 0, q, x + LengthHeader(n) + z);
    FirstDeclared(r, q, NatToString(n));
  }

  /** The first match is the one at `q` when none starts before it. */
  lemma FirstDeclared(r: string, q: nat, v: string)
    requires q < |r| && DeclaredAt(r, q) == Some(v)
    requires forall p :: 0 <= p < q ==> LengthMatchAt(r, p).None?
    ensures Declared(r) == Some(v)
  {
    FindLengthAt(r, 0, q);
  }

  /** No match of the result starts before the first replaced header. */
  lemma EarlierNone(s: string, r: string, q: nat)
    requires q < |s| && q < |r| && s[..q] == r[..q] && LengthMatchAt(s, q).Some?
    requires forall p :: 0 <= p < q ==> LengthMatchAt(s, p).None?
    requires r[q] == 'C'
    ensures forall p :: 0 <= p < q ==> LengthMatchAt(r, p).None?
  {
    KeyLetters();
    assert LowerChar(s[q]) == 'c';
    forall p | 0 <= p < q ensures LengthMatchAt(r, p).None? {
      if p + |LengthKey| <= q {
        MatchAgrees(s, r, q, p);
      } else {
        Misfit(r, p, q);
      }
    }
  }

  /** Without "content-length:" in the headers, the appended line is the first header that declares a length, and it declares `n`. */
  lemma AppendDeclares(h: string, n: nat)
    requires !Contains(LowerAscii(h), LengthKey)
    ensures Declared(h + "\r\n" + LengthHeader(n)) == Some(NatToString(n))
  {
    var x := h + "\r\n";
    var r := x + LengthHeader(n) + [];
    assert r == h + "\r\n" + LengthHeader(n);
    HeaderMatch(x, n, []);
    NoKeyLower(h);
    forall p | 0 <= p < |x| ensures LengthMatchAt(r, p).None? {
      AppendEarly(h, LengthHeader(n), p);
    }
    FindLengthAt(r, 0, |x|);
  }

  /** The key, in any ASCII case, starts nowhere in `h`. */
  predicate NoKey(h: string) {
    forall p: nat :: p + |LengthKey| <= |h| ==> !CiAt(h, p, LengthKey)
  }

  lemma NoKeyLower(h: string)
    requires !Contains(LowerAscii(h), LengthKey)
    ensures NoKey(h)
  {
    forall p: nat | p + |LengthKey| <= |h| ensures !CiAt(h, p, LengthKey) {
      CiAtLower(h, p, LengthKey);
    }
  }

  /** No match starts in the original headers or in the line break after them. */
  lemma AppendEarly(h: string, t: string, p: nat)
    requires NoKey(h) && p < |h| + 2
    ensures LengthMatchAt(h + "\r\n" + t, p).None?
  {
    if p + |LengthKey| <= |h| {
      AppendInside(h, t, p);
    } else {
      AppendEdge(h, t, p);
    }
  }

  lemma AppendInside(h: string, t: string, p: nat)
    requires NoKey(h) && p + |LengthKey| <= |h|
    ensures LengthMatchAt(h + "\r\n" + t, p).None?
  {
    var r := h + "\r\n" + t;
    assert !CiAt(h, p, LengthKey);
    var i :| 0 <= i < |LengthKey| && LowerChar(h[p + i]) != LengthKey[i];
    assert r[p + i] == h[p + i];
    Misfit(r, p, p + i);
  }

  lemma AppendEdge(h: string, t: string, p: nat)
    requires |h| < p + |LengthKey| && p < |h| + 2
    ensures LengthMatchAt(h + "\r\n" + t, p).None?
  {
    var r := h + "\r\n" + t;
    KeyLetters();
    if p <= |h| {
      assert r[|h|] == '\r';
      Misfit(r, p, |h|);
    } else {
      assert r[p] == '\n';
      Misfit(r, p, p);
    }
  }

  /**
   * The handler's patch declares the body length `n` in the result's first
   * Content-Length header, except when the headers mention
   * "content-length:" without any number after it: then nothing matches and
   * the headers are left exactly as they were.
   */
  lemma PatchDeclares(h: string, n: nat)
    ensures FindLength(h, 0).Some? || !Contains(LowerAscii(h), LengthKey) ==>
      Declared(PatchLength(h, n)) == Some(NatToString(n))
    ensures FindLength(h, 0).None? && Contains(LowerAscii(h), LengthKey) ==> PatchLength(h, n) == h
  {
    if FindLength(h, 0).Some? {
      var q := FindLength(h, 0).value;
      CiAtLower(h, q, LengthKey);
      assert Contains(LowerAscii(h), LengthKey);
      ReplaceDeclares(h, n);
    } else if !Contains(LowerAscii(h), LengthKey) {
      AppendDeclares(h, n);
    } else {
      assert h[0..] == h;
    }
  }

  // ---------------------------------------------------------------------------
  // Every match, not only the first

  /** The number the match starting at `p` declares, as written, if one starts there. */
  function DeclaredAt(s: string, p: nat): Option<string> {
    match LengthMatchAt(s, p)
    case None => None
    case Some(e) => Some(s[BlankEnd(s, p + |LengthKey|)..e])
  }

  lemma {:induction false} BlankEndShift(s: string, a: nat, k: nat)
    requires a + k <= |s|
    ensures BlankEnd(s, a + k) == a + BlankEnd(s[a..], k)
    decreases |s| - a - k
  {
    if a + k < |s| {
      assert s[a..][k] == s[a + k];
      if IsBlank(s[a + k]) {
        BlankEndShift(s, a, k + 1);
      }
    }
  }

  lemma {:induction false} DigitEndShift(s: string, a: nat, k: nat)
    requires a + k <= |s|
    ensures DigitEnd(s, a + k) == a + DigitEnd(s[a..], k)
    decreases |s| - a - k
  {
    if a + k < |s| {
      assert s[a..][k] == s[a + k];
      if IsDigit(s[a + k]) {
        DigitEndShift(s, a, k + 1);
      }
    }
  }

  /** A match looks only forward: what starts at `a + p` is what starts at `p` in `s[a..]`. */
  lemma SuffixDeclared(s: string, a: nat, p: nat)
    requires a <= |s|
    ensures DeclaredAt(s, a + p) == DeclaredAt(s[a..], p)
  {
    var t := s[a..];
    if a + p + |LengthKey| <= |s| {
      CiShift(s, a, |s|, p, LengthKey);
      BlankEndShift(s, a, p + |LengthKey|);
      var w := BlankEnd(t, p + |LengthKey|);
      DigitEndShift(s, a, w);
      assert s[a + w..a + DigitEnd(t, w)] == t[w..DigitEnd(t, w)];
    }
  }

  /** After its first character, the handler's header holds no `c` in any case. */
  lemma HeaderNoC(n: nat, k: nat)
    requires 1 <= k < |LengthHeader(n)|
    ensures LowerChar(LengthHeader(n)[k]) != 'c'
  {
    var h := LengthHeader(n);
    if k >= |LengthLabel| {
      assert h[k] == NatToString(n)[k - |LengthLabel|];
    } else {
      assert h[k] == LengthLabel[k];
    }
  }

  /** No match starts inside a header the handler wrote. */
  lemma InsideHeader(x: string, n: nat, z: string, p: nat)
    requires |x| < p < |x| + |LengthHeader(n)|
    ensures LengthMatchAt(x + LengthHeader(n) + z, p).None?
  {
    var r := x + LengthHeader(n) + z;
    var k := p - |x|;
    HeaderNoC(n, k);
    InMiddle(x, LengthHeader(n), z, k);
    KeyLetters();
    Misfit(r, p, p);
  }

  /** One step of `replaceAll`: the text before the match, the header, and the rest. */
  lemma ReplaceUnfold(s: string, from: nat, n: nat)
    requires from <= |s| && FindLength(s, from).Some?
    ensures var q := FindLength(s, from).value; var x := s[from..q];
      var r := x + LengthHeader(n) + ReplaceLengths(s, LengthMatchAt(s, q).value, n);
      ReplaceLengths(s, from, n) == r && r[..|x|] == x && r[|x|] == 'C'
  {
    var q := FindLength(s, from).value;
    var x := s[from..q];
    var r := x + LengthHeader(n) + ReplaceLengths(s, LengthMatchAt(s, q).value, n);
    assert r[..|x|] == x;
    assert r[|x|] == LengthHeader(n)[0] == 'C';
  }

  /** Past the last match, what is copied holds no match. */
  lemma NoneLeft(s: string, from: nat, n: nat, p: nat)
    requires from <= |s| && FindLength(s, from).None?
    ensures DeclaredAt(ReplaceLengths(s, from, n), p).None?
  {
    FindLengthIsFirst(s, from);
    SuffixDeclared(s, from, p);
    assert from + p < |s| ==> LengthMatchAt(s, from + p).None?;
  }

  /** The header put in place of a match is a match that declares `n`. */
  lemma ReplacedHeader(s: string, q: nat, n: nat, x: string)
    requires q < |s| && LengthMatchAt(s, q).Some?
    ensures var z := ReplaceLengths(s, LengthMatchAt(s, q).value, n);
      DeclaredAt(x + LengthHeader(n) + z, |x|) == Some(NatToString(n))
  {
    var e := LengthMatchAt(s, q).value;
    DigitEndIsEnd(s, BlankEnd(s, q + |LengthKey|));
    AfterMatch(s, e, n);
    HeaderMatch(x, n, ReplaceLengths(s, e, n));
  }

  /** Before the first replaced header, the result has no match, as `s` had none. */
  lemma GapNone(s: string, from: nat, q: nat, r: string)
    requires from <= q < |s| && FindLength(s, from) == Some(q)
    requires |r| > q - from && r[..q - from] == s[from..q] && r[q - from] == 'C'
    ensures forall p :: 0 <= p < q - from ==> LengthMatchAt(r, p).None?
  {
    var t := s[from..];
    SuffixFirst(s, from, q);
    assert t[..q - from] == r[..q - from];
    EarlierNone(t, r, q - from);
  }

  /** The first match of `s` from `from` on is the first match of `s[from..]`. */
  lemma SuffixFirst(s: string, from: nat, q: nat)
    requires from <= q < |s| && FindLength(s, from) == Some(q)
    ensures LengthMatchAt(s[from..], q - from).Some?
    ensures forall p :: 0 <= p < q - from ==> LengthMatchAt(s[from..], p).None?
  {
    FindLengthIsFirst(s, from);
    forall p | 0 <= p < q - from ensures LengthMatchAt(s[from..], p).None? {
      SuffixMatch(s, from, p);
    }
    SuffixMatch(s, from, q - from);
  }

  lemma SuffixMatch(s: string, a: nat, p: nat)
    requires a <= |s|
    ensures LengthMatchAt(s, a + p).Some? == LengthMatchAt(s[a..], p).Some?
  {
    SuffixDeclared(s, a, p);
  }

  /** Every match of the pattern in `r` declares `v`. */
  ghost predicate AllDeclare(r: string, v: string) {
    forall p: nat :: DeclaredAt(r, p).Some? ==> DeclaredAt(r, p) == Some(v)
  }

  /**
   * A text without a match, a header that declares `v` and in which no
   * other match starts, then a text whose matches all declare `v`: every
   * match of the whole declares `v`.
   */
  lemma JoinDeclares(x: string, h: string, z: string, v: string)
    requires forall p :: 0 <= p < |x| ==> LengthMatchAt(x + h + z, p).None?
    requires DeclaredAt(x + h + z, |x|) == Some(v)
    requires forall p :: |x| < p < |x| + |h| ==> LengthMatchAt(x + h + z, p).None?
    requires AllDeclare(z, v)
    ensures AllDeclare(x + h + z, v)
  {
    forall p: nat | p >= |x| + |h| ensures DeclaredAt(x + h + z, p).Some? ==> DeclaredAt(x + h + z, p) == Some(v) {
      JoinRest(x, h, z, v, p);
    }
  }

  /** Past the header, the matches are those of the text after it. */
  lemma JoinRest(x: string, h: string, z: string, v: string, p: nat)
    requires AllDeclare(z, v) && p >= |x| + |h|
    ensures DeclaredAt(x + h + z, p).Some? ==> DeclaredAt(x + h + z, p) == Some(v)
  {
    var r := x + h + z;
    assert r[|x| + |h|..] == z;
    SuffixDeclared(r, |x| + |h|, p - |x| - |h|);
  }

  /** No match starts inside a header the handler writes. */
  lemma InsideAll(x: string, n: nat, z: string)
    ensures forall p :: |x| < p < |x| + |LengthHeader(n)| ==> LengthMatchAt(x + LengthHeader(n) + z, p).None?
  {
    forall p | |x| < p < |x| + |LengthHeader(n)| ensures LengthMatchAt(x + LengthHeader(n) + z, p).None? {
      InsideHeader(x, n, z, p);
    }
  }

  /**
   * Every match of the pattern in what `replaceAll` returns declares `n`:
   * the replaced headers do, and no other match is left behind or made.
   */
  lemma {:induction false} ReplaceDeclaresAll(s: string, from: nat, n: nat)
    requires from <= |s|
    ensures AllDeclare(ReplaceLengths(s, from, n), NatToString(n))
    decreases |s| - from
  {
    if FindLength(s, from).None? {
      forall p: nat ensures DeclaredAt(ReplaceLengths(s, from, n), p).None? {
        NoneLeft(s, from, n, p);
      }
    } else {
      var q := FindLength(s, from).value;
      var e := LengthMatchAt(s, q).value;
      var x, z := s[from..q], ReplaceLengths(s, e, n);
      ReplaceUnfold(s, from, n);
      ReplaceDeclaresAll(s, e, n);
      GapNone(s, from, q, x + LengthHeader(n) + z);
      ReplacedHeader(s, q, n, x);
      InsideAll(x, n, z);
      JoinDeclares(x, LengthHeader(n), z, NatToString(n));
    }
  }

  /** Without "content-length:" in the block, the only match is the appended header. */
  lemma AppendDeclaresAll(h: string, n: nat)
    requires !Contains(LowerAscii(h), LengthKey)
    ensures AllDeclare(h + "\r\n" + LengthHeader(n), NatToString(n))
  {
    var x := h + "\r\n";
    var r := x + LengthHeader(n) + [];
    assert r == h + "\r\n" + LengthHeader(n);
    NoKeyLower(h);
    forall p | 0 <= p < |x| ensures LengthMatchAt(r, p).None? {
      AppendEarly(h, LengthHeader(n), p);
    }
    HeaderMatch(x, n, []);
    InsideAll(x, n, []);
    JoinDeclares(x, LengthHeader(n), [], NatToString(n));
  }
}
