/**
 * The few `java.lang.String` and `Integer` operations the proxy relies on, with
 * Java's own edge cases: `indexOf` answers -1, `replace` is left-to-right and
 * non-overlapping, `split` drops trailing empty strings, `trim` strips every
 * character up to U+0020, and `Integer.parseInt` accepts one optional sign and
 * fails outside the 32-bit range.
 *
 * `toLowerCase` and the case-insensitive comparisons are modelled on ASCII
 * letters only; every pattern the proxy compares against is ASCII.
 */
module JString {
  import opened Base
  import opened Utf8

  predicate StartsWith(s: string, p: string) {
    |p| <= |s| && s[..|p|] == p
  }

  /** `lines[j]` is the first of the lines that starts with `p`. */
  predicate FirstStartingWith(lines: seq<string>, j: int, p: string) {
    0 <= j < |lines| && StartsWith(lines[j], p) && forall i :: 0 <= i < j ==> !StartsWith(lines[i], p)
  }

  /** `p` occurs in `s` at index `k`. */
  predicate OccursAt(s: string, k: nat, p: string) {
    k + |p| <= |s| && s[k..k + |p|] == p
  }

  predicate NoOccurrence(s: string, p: string) {
    forall k: nat :: k <= |s| ==> !OccursAt(s, k, p)
  }

  /** `s.indexOf(p, from)`: the first occurrence at or after `from`, or -1. */
  function IndexOfFrom(s: string, p: string, from: nat): (r: int)
    ensures r == -1 || (from <= r && OccursAt(s, r, p))
    ensures forall k: nat :: from <= k && (r == -1 || k < r) ==> !OccursAt(s, k, p)
    decreases |s| - from
  {
    if from + |p| > |s| then -1
    else if s[from..from + |p|] == p then from
    else IndexOfFrom(s, p, from + 1)
  }

  function IndexOf(s: string, p: string): (r: int)
    ensures r == -1 <==> NoOccurrence(s, p)
    ensures r != -1 ==> 0 <= r && OccursAt(s, r, p) && forall k: nat :: k < r ==> !OccursAt(s, k, p)
  {
    IndexOfFrom(s, p, 0)
  }

  predicate Contains(s: string, p: string) {
    IndexOf(s, p) != -1
  }

  /** Java's `String.replace(target, replacement)` for a non-empty target. */
  function ReplaceAll(s: string, pat: string, rep: string): string
    requires |pat| > 0
    decreases |s|
  {
    if |s| < |pat| then s
    else if s[..|pat|] == pat then rep + ReplaceAll(s[|pat|..], pat, rep)
    else [s[0]] + ReplaceAll(s[1..], pat, rep)
  }

  /** The number of replacements `ReplaceAll` makes: left-to-right, non-overlapping occurrences. */
  function CountOcc(s: string, pat: string): nat
    requires |pat| > 0
    decreases |s|
  {
    if |s| < |pat| then 0
    else if s[..|pat|] == pat then 1 + CountOcc(s[|pat|..], pat)
    else CountOcc(s[1..], pat)
  }

  function LowerChar(c: char): char {
    if 'A' <= c <= 'Z' then (c as int + 32) as char else c
  }

  function LowerAscii(s: string): (r: string)
    ensures |r| == |s|
    ensures forall i :: 0 <= i < |s| ==> r[i] == LowerChar(s[i])
  {
    if s == [] then [] else [LowerChar(s[0])] + LowerAscii(s[1..])
  }

  /** `s.toLowerCase().startsWith(p)` for a lower-case ASCII `p`. */
  predicate StartsWithIgnoreCase(s: string, p: string) {
    StartsWith(LowerAscii(s), p)
  }

  /** `a.equalsIgnoreCase(b)`. */
  predicate EqualsIgnoreCase(a: string, b: string) {
    |a| == |b| && LowerAscii(a) == LowerAscii(b)
  }

  predicate IsSpace(c: char) {
    c <= ' '
  }

  function TrimLeft(s: string): (r: string)
    ensures r == [] || !IsSpace(r[0])
    ensures exists i :: 0 <= i <= |s| && r == s[i..] && forall j :: 0 <= j < i ==> IsSpace(s[j])
    decreases |s|
  {
    if s != [] && IsSpace(s[0]) then
      var r := TrimLeft(s[1..]);
      var i :| 0 <= i <= |s[1..]| && r == s[1..][i..] && forall j :: 0 <= j < i ==> IsSpace(s[1..][j]);
      assert r == s[i + 1..];
      r
    else
      assert s == s[0..];
      s
  }

  function TrimRight(s: string): (r: string)
    ensures r == [] || !IsSpace(r[|r| - 1])
    ensures |r| <= |s| && r == s[..|r|] && forall j :: |r| <= j < |s| ==> IsSpace(s[j])
    decreases |s|
  {
    if s != [] && IsSpace(s[|s| - 1]) then TrimRight(s[..|s| - 1]) else s
  }

  /** `s.trim()`: strips the characters up to U+0020 at both ends, and only those. */
  function Trim(s: string): (r: string)
    ensures r == [] || (!IsSpace(r[0]) && !IsSpace(r[|r| - 1]))
    ensures |r| <= |s|
    ensures (s == [] || (!IsSpace(s[0]) && !IsSpace(s[|s| - 1]))) ==> r == s
  {
    TrimRight(TrimLeft(s))
  }

  /** The pieces of `s` between the left-to-right occurrences of `sep`, empty ones included. */
  function Pieces(s: string, sep: string): (ps: seq<string>)
    requires |sep| > 0
    ensures |ps| > 0
    decreases |s|
  {
    var k := IndexOf(s, sep);
    if k == -1 then [s] else [s[..k]] + Pieces(s[k + |sep|..], sep)
  }

  function DropTrailingEmpty(ps: seq<string>): (r: seq<string>)
    ensures |r| <= |ps| && r == ps[..|r|]
    ensures r == [] || r[|r| - 1] != ""
    ensures forall i :: |r| <= i < |ps| ==> ps[i] == ""
  {
    if ps != [] && ps[|ps| - 1] == "" then DropTrailingEmpty(ps[..|ps| - 1]) else ps
  }

  /** `s.split(sep)` for a separator without regex metacharacters. */
  function Split(s: string, sep: string): seq<string>
    requires |sep| > 0
  {
    if IndexOf(s, sep) == -1 then [s] else DropTrailingEmpty(Pieces(s, sep))
  }

  function Join(ps: seq<string>, sep: string): string
  {
    if ps == [] then "" else if |ps| == 1 then ps[0] else ps[0] + sep + Join(ps[1..], sep)
  }

  // ---------------------------------------------------------------------------
  // Integers

  predicate IsDigit(c: char) {
    '0' <= c <= '9'
  }

  predicate AllDigits(s: string) {
    forall i :: 0 <= i < |s| ==> IsDigit(s[i])
  }

  function DigitChar(d: nat): char
    requires d < 10
  {
    (d + '0' as int) as char
  }

  /** `Integer.toString` of a non-negative value. */
  function NatToString(n: nat): (r: string)
    ensures |r| > 0 && AllDigits(r)
  {
    if n < 10 then [DigitChar(n)] else NatToString(n / 10) + [DigitChar(n % 10)]
  }

  /** `Integer.toString(n)`. */
  function IntToString(n: int): string
  {
    if n < 0 then "-" + NatToString(-n) else NatToString(n)
  }

  function DigitsValue(s: string): nat
    requires AllDigits(s)
  {
    if s == [] then 0 else 10 * DigitsValue(s[..|s| - 1]) + (s[|s| - 1] as int - '0' as int)
  }

  /** `Integer.parseInt(s)`: an optional sign, at least one digit, a value in the `int` range. */
  function ParseInt(s: string): (r: Outcome<int>)
    ensures r.Returns? ==> IsInt32(r.value)
  {
    if s == [] then Throws
    else
      var signed := s[0] == '-' || s[0] == '+';
      var ds := if signed then s[1..] else s;
      if ds == [] || !AllDigits(ds) then Throws
      else
        var n: int := DigitsValue(ds);
        var v := if s[0] == '-' then -n else n;
        if IsInt32(v) then Returns(v) else Throws
  }

  // ---------------------------------------------------------------------------
  // Lemmas

  lemma {:induction false} DigitsValueNatToString(n: nat)
    ensures DigitsValue(NatToString(n)) == n
  {
    if n >= 10 {
      var s := NatToString(n);
      assert s[..|s| - 1] == NatToString(n / 10);
      DigitsValueNatToString(n / 10);
    }
  }

  /** `Integer.parseInt` reads back every `Integer.toString`. */
  lemma ParseIntToString(n: int)
    requires IsInt32(n)
    ensures ParseInt(IntToString(n)) == Returns(n)
  {
    if n < 0 {
      var s := IntToString(n);
      assert s[1..] == NatToString(-n);
      DigitsValueNatToString(-n);
    } else {
      DigitsValueNatToString(n);
    }
  }

  lemma NatToStringInjective(a: nat, b: nat)
    requires NatToString(a) == NatToString(b)
    ensures a == b
  {
    DigitsValueNatToString(a);
    DigitsValueNatToString(b);
  }

  /** Occurrences in a suffix are occurrences in the whole, shifted. */
  lemma OccursAtDrop(s: string, n: nat, k: nat, p: string)
    requires n <= |s|
    ensures OccursAt(s[n..], k, p) <==> OccursAt(s, n + k, p)
  {
    if k + |p| <= |s[n..]| {
      assert s[n..][k..k + |p|] == s[n + k..n + k + |p|];
    }
  }

  lemma {:induction false} ReplaceAbsent(s: string, pat: string, rep: string)
    requires |pat| > 0 && NoOccurrence(s, pat)
    ensures ReplaceAll(s, pat, rep) == s
    decreases |s|
  {
    if |s| >= |pat| {
      assert !OccursAt(s, 0, pat);
      forall k: nat | k <= |s[1..]| ensures !OccursAt(s[1..], k, pat) {
        OccursAtDrop(s, 1, k, pat);
      }
      ReplaceAbsent(s[1..], pat, rep);
      assert s == [s[0]] + s[1..];
    }
  }

  /** Replacing skips a prefix `w` at none of whose positions the pattern starts. */
  lemma {:induction false} ReplaceSkip(w: string, z: string, pat: string, rep: string)
    requires |pat| > 0
    requires forall k: nat :: k < |w| ==> !OccursAt(w + z, k, pat)
    ensures ReplaceAll(w + z, pat, rep) == w + ReplaceAll(z, pat, rep)
    decreases |w|
  {
    var s := w + z;
    if w == [] {
      assert s == z;
    } else if |s| < |pat| {
      assert |z| < |pat|;
    } else {
      assert !OccursAt(s, 0, pat);
      ReplaceMiss(w, z, pat, rep);
      assert s[1..] == w[1..] + z;
      forall k: nat | k < |w[1..]| ensures !OccursAt(w[1..] + z, k, pat) {
        OccursAtDrop(s, 1, k, pat);
      }
      ReplaceSkip(w[1..], z, pat, rep);
      assert w == [w[0]] + w[1..];
    }
  }

  /** Where the pattern does not start, replacing copies the first character. */
  lemma ReplaceMiss(w: string, z: string, pat: string, rep: string)
    requires |pat| > 0 && w != [] && |w + z| >= |pat| && !OccursAt(w + z, 0, pat)
    ensures ReplaceAll(w + z, pat, rep) == [w[0]] + ReplaceAll(w[1..] + z, pat, rep)
  {
    var s := w + z;
    assert s[..|pat|] != pat;
    assert s[1..] == w[1..] + z && s[0] == w[0];
  }

  /** Replacing distributes over a concatenation that no occurrence straddles. */
  lemma {:induction false} ReplaceConcat(x: string, z: string, pat: string, rep: string)
    requires |pat| > 0
    requires forall k: nat :: k < |x| < k + |pat| ==> !OccursAt(x + z, k, pat)
    ensures ReplaceAll(x + z, pat, rep) == ReplaceAll(x, pat, rep) + ReplaceAll(z, pat, rep)
    decreases |x|
  {
    var s := x + z;
    if |x| < |pat| {
      ReplaceSkip(x, z, pat, rep);
    } else if x[..|pat|] == pat {
      assert s[..|pat|] == pat;
      var x' := x[|pat|..];
      assert s[|pat|..] == x' + z;
      forall k: nat | k < |x'| < k + |pat| ensures !OccursAt(x' + z, k, pat) {
        OccursAtDrop(s, |pat|, k, pat);
      }
      ReplaceConcat(x', z, pat, rep);
    } else {
      assert s[..|pat|] == x[..|pat|];
      assert s[1..] == x[1..] + z;
      forall k: nat | k < |x[1..]| < k + |pat| ensures !OccursAt(x[1..] + z, k, pat) {
        OccursAtDrop(s, 1, k, pat);
      }
      ReplaceConcat(x[1..], z, pat, rep);
    }
  }

  /** No occurrence straddles the end of `x` when a character the pattern lacks sits on either side. */
  lemma NoStraddle(x: string, z: string, pat: string)
    requires (x != [] && x[|x| - 1] !in pat) || (z != [] && z[0] !in pat)
    ensures forall k: nat :: k < |x| < k + |pat| ==> !OccursAt(x + z, k, pat)
  {
    var s := x + z;
    forall k: nat | k < |x| < k + |pat| ensures !OccursAt(s, k, pat) {
      if k + |pat| <= |s| {
        if x != [] && x[|x| - 1] !in pat {
          assert s[k..k + |pat|][|x| - 1 - k] == x[|x| - 1];
        } else {
          assert s[k..k + |pat|][|x| - k] == z[0];
        }
      }
    }
  }

  /** A character absent from the text and from the replacement stays absent. */
  lemma {:induction false} ReplaceKeepsAbsent(s: string, pat: string, rep: string, c: char)
    requires |pat| > 0 && c !in s && c !in rep
    ensures c !in ReplaceAll(s, pat, rep)
    decreases |s|
  {
    if |s| >= |pat| {
      if s[..|pat|] == pat {
        ReplaceKeepsAbsent(s[|pat|..], pat, rep, c);
      } else {
        ReplaceKeepsAbsent(s[1..], pat, rep, c);
      }
    }
  }

  /** A pattern with a character the text lacks does not occur in it. */
  lemma AbsentCharNoOccurrence(s: string, pat: string, i: nat)
    requires i < |pat| && pat[i] !in s
    ensures NoOccurrence(s, pat)
  {
    forall k: nat | k <= |s| ensures !OccursAt(s, k, pat) {
      if k + |pat| <= |s| {
        assert s[k..k + |pat|][i] == s[k + i];
      }
    }
  }

  /** A text differing from `p` at offset `t` holds no occurrence of `p` at `o`. */
  lemma Mismatch(y: string, o: nat, p: string, t: nat)
    requires t < |p| && o + t < |y| && y[o + t] != p[t]
    ensures !OccursAt(y, o, p)
  {
    assert o + |p| <= |y| ==> y[o..o + |p|][t] == y[o + t];
  }

  /** Where `p` does not occur, some character differs from it. */
  lemma Differs(s: string, o: nat, p: string)
    requires o + |p| <= |s| && !OccursAt(s, o, p)
    ensures exists t :: 0 <= t < |p| && s[o + t] != p[t]
  {
    var t :| 0 <= t < |p| && s[o..o + |p|][t] != p[t];
    assert s[o + t] == s[o..o + |p|][t];
  }

  /** A text without `p` has no `p` in any slice. */
  lemma NoOccurrenceSlice(s: string, a: nat, b: nat, p: string)
    requires a <= b <= |s| && NoOccurrence(s, p)
    ensures NoOccurrence(s[a..b], p)
  {
    var t := s[a..b];
    forall k: nat | k <= |t| ensures !OccursAt(t, k, p) {
      if k + |p| <= |t| {
        assert a + k + |p| <= b;
        var u, v := t[k..k + |p|], s[a + k..a + k + |p|];
        forall i | 0 <= i < |p| ensures u[i] == v[i] {
          assert t[k + i] == s[a + k + i];
        }
        assert u == v;
        assert a + k <= |s| && !OccursAt(s, a + k, p);
      }
    }
  }

  /** Two texts without `p` whose joint no occurrence straddles give a text without `p`. */
  lemma JoinFree(x: string, z: string, p: string)
    requires NoOccurrence(x, p) && NoOccurrence(z, p)
    requires x == [] || x[|x| - 1] !in p || (z != [] && z[0] !in p)
    ensures NoOccurrence(x + z, p)
  {
    var s := x + z;
    if x == [] {
      assert s == z;
    } else {
      NoStraddle(x, z, p);
      forall k: nat | k <= |s| ensures !OccursAt(s, k, p) {
        if k + |p| <= |x| {
          assert s[k..k + |p|] == x[k..k + |p|];
          assert !OccursAt(x, k, p);
        } else if |x| <= k {
          assert s[|x|..] == z;
          OccursAtDrop(s, |x|, k - |x|, p);
          assert !OccursAt(z, k - |x|, p);
        }
      }
    }
  }

  /**
   * A rule whose replacement starts with a character other than the last of
   * `k` and has no character of `k` after that brings in no occurrence of `k`.
   */
  lemma {:induction false} ReplaceKeepsFree(w: string, s: string, pat: string, rep: string, k: string)
    requires |pat| > 0 && |k| > 0 && |rep| >= 2 && rep[0] != k[|k| - 1]
    requires forall i :: 1 <= i < |rep| ==> rep[i] !in k
    requires NoOccurrence(w + s, k)
    ensures NoOccurrence(w + ReplaceAll(s, pat, rep), k)
    decreases |s|
  {
    if |s| < |pat| {
    } else if s[..|pat|] == pat {
      var rest := s[|pat|..];
      var r := ReplaceAll(rest, pat, rep);
      ReplaceAtStart(s, pat, rep);
      FreeParts(w, s, |pat|, k);
      assert [] + rest == rest && [] + r == r;
      ReplaceKeepsFree([], rest, pat, rep, k);
      AroundReplacement(w, rep, r, k);
      assert w + (rep + r) == w + rep + r;
    } else {
      var r := ReplaceAll(s[1..], pat, rep);
      ReplaceMiss(s, [], pat, rep);
      assert s + [] == s;
      assert w + s == (w + [s[0]]) + s[1..];
      ReplaceKeepsFree(w + [s[0]], s[1..], pat, rep, k);
      assert w + ([s[0]] + r) == (w + [s[0]]) + r;
    }
  }

  /** The two ends of a text without `k` are without `k`. */
  lemma FreeParts(w: string, s: string, n: nat, k: string)
    requires n <= |s| && NoOccurrence(w + s, k)
    ensures NoOccurrence(w, k) && NoOccurrence(s[n..], k)
  {
    var ws := w + s;
    NoOccurrenceSlice(ws, 0, |w|, k);
    NoOccurrenceSlice(ws, |w| + n, |ws|, k);
    assert ws[0..|w|] == w && ws[|w| + n..|ws|] == s[n..];
  }

  /** A replacement of that kind between two texts without `k` makes no `k`. */
  lemma AroundReplacement(w: string, rep: string, z: string, k: string)
    requires |k| > 0 && |rep| >= 2 && rep[0] != k[|k| - 1]
    requires forall i :: 1 <= i < |rep| ==> rep[i] !in k
    requires NoOccurrence(w, k) && NoOccurrence(z, k)
    ensures NoOccurrence(w + rep + z, k)
  {
    var x := w + rep + z;
    forall o: nat | o <= |x| ensures !OccursAt(x, o, k) {
      if o + |k| <= |w| {
        assert x[o..o + |k|] == w[o..o + |k|];
        assert !OccursAt(w, o, k);
      } else if |w| + |rep| <= o {
        assert x[|w| + |rep|..] == z;
        OccursAtDrop(x, |w| + |rep|, o - |w| - |rep|, k);
        assert !OccursAt(z, o - |w| - |rep|, k);
      } else if o + |k| == |w| + 1 {
        assert x[|w|] == rep[0];
        Mismatch(x, o, k, |k| - 1);
      } else {
        var i := if o < |w| + 1 then |w| + 1 else o;
        assert x[i] == rep[i - |w|] && rep[i - |w|] !in k;
        Mismatch(x, o, k, i - o);
      }
    }
  }

  /** Each replacement changes the UTF-8 length by the difference of the two encodings. */
  lemma {:induction false} ReplaceEncodedLength(s: string, pat: string, rep: string)
    requires |pat| > 0
    ensures |Encode(ReplaceAll(s, pat, rep))|
         == |Encode(s)| + CountOcc(s, pat) * (|Encode(rep)| - |Encode(pat)|)
    decreases |s|
  {
    if |s| >= |pat| {
      if s[..|pat|] == pat {
        var t := s[|pat|..];
        var r := ReplaceAll(t, pat, rep);
        assert ReplaceAll(s, pat, rep) == rep + r;
        ReplaceEncodedLength(t, pat, rep);
        EncodeAppend(rep, r);
        assert s == pat + t;
        EncodeAppend(pat, t);
        MulStep(CountOcc(t, pat), |Encode(rep)| - |Encode(pat)|);
      } else {
        var t := s[1..];
        var r := ReplaceAll(t, pat, rep);
        assert ReplaceAll(s, pat, rep) == [s[0]] + r;
        ReplaceEncodedLength(t, pat, rep);
        EncodeAppend([s[0]], r);
        assert s == [s[0]] + t;
        EncodeAppend([s[0]], t);
      }
    }
  }

  lemma MulStep(c: int, d: int)
    ensures (1 + c) * d == d + c * d
  {
  }

  /** Counting skips a prefix at none of whose positions the pattern starts. */
  lemma {:induction false} CountSkip(s: string, m: nat, pat: string)
    requires |pat| > 0 && m <= |s|
    requires forall k: nat :: k < m ==> !OccursAt(s, k, pat)
    ensures CountOcc(s, pat) == CountOcc(s[m..], pat)
    decreases m
  {
    if m > 0 {
      assert !OccursAt(s, 0, pat);
      forall k: nat | k < m - 1 ensures !OccursAt(s[1..], k, pat) {
        OccursAtDrop(s, 1, k, pat);
      }
      CountSkip(s[1..], m - 1, pat);
      assert s[1..][m - 1..] == s[m..];
      if |s| < |pat| {
        assert |s[m..]| < |pat|;
      }
    }
  }

  /** Each replacement changes the length by the difference of the two texts. */
  lemma {:induction false} ReplaceLength(s: string, pat: string, rep: string)
    requires |pat| > 0
    ensures |ReplaceAll(s, pat, rep)| == |s| + CountOcc(s, pat) * (|rep| - |pat|)
    decreases |s|
  {
    if |s| >= |pat| {
      if s[..|pat|] == pat {
        ReplaceLength(s[|pat|..], pat, rep);
        MulStep(CountOcc(s[|pat|..], pat), |rep| - |pat|);
      } else {
        ReplaceLength(s[1..], pat, rep);
      }
    }
  }

  predicate AllSpace(s: string) {
    forall i :: 0 <= i < |s| ==> IsSpace(s[i])
  }

  lemma {:induction false} TrimLeftSpaces(a: string, y: string)
    requires AllSpace(a) && (y == [] || !IsSpace(y[0]))
    ensures TrimLeft(a + y) == y
    decreases |a|
  {
    if a == [] {
      assert a + y == y;
    } else {
      assert (a + y)[0] == a[0];
      assert (a + y)[1..] == a[1..] + y;
      TrimLeftSpaces(a[1..], y);
    }
  }

  lemma {:induction false} TrimRightSpaces(y: string, b: string)
    requires AllSpace(b) && (y == [] || !IsSpace(y[|y| - 1]))
    ensures TrimRight(y + b) == y
    decreases |b|
  {
    if b == [] {
      assert y + b == y;
    } else {
      var c := y + b;
      assert c[|c| - 1] == b[|b| - 1];
      assert c[..|c| - 1] == y + b[..|b| - 1];
      TrimRightSpaces(y, b[..|b| - 1]);
    }
  }

  /** `trim` removes exactly the white space around a text that has none at its ends. */
  lemma TrimSurrounded(a: string, x: string, b: string)
    requires AllSpace(a) && AllSpace(b)
    requires x != [] && !IsSpace(x[0]) && !IsSpace(x[|x| - 1])
    ensures Trim(a + x + b) == x
  {
    assert a + x + b == a + (x + b);
    TrimLeftSpaces(a, x + b);
    TrimRightSpaces(x, b);
  }

  lemma IntToStringShape(n: int)
    ensures IntToString(n) != [] && IsDigit(IntToString(n)[|IntToString(n)| - 1])
    ensures IntToString(n)[0] == '-' || IsDigit(IntToString(n)[0])
    ensures forall i :: 0 <= i < |IntToString(n)| ==> IntToString(n)[i] != ':'
  {
  }

  /** An occurrence that fits inside a prefix `g` of `t` is one of `g`. */
  lemma PrefixOccurrence(t: string, g: string, j: nat, p: string)
    requires |g| <= |t| && g == t[..|g|] && j + |p| <= |g|
    ensures OccursAt(t, j, p) <==> OccursAt(g, j, p)
  {
    assert t[j..j + |p|] == g[j..j + |p|];
  }

  /** `replace` at an occurrence: the replacement, then the rest replaced. */
  lemma ReplaceAtStart(s: string, pat: string, rep: string)
    requires |pat| > 0 && |pat| <= |s| && s[..|pat|] == pat
    ensures ReplaceAll(s, pat, rep) == rep + ReplaceAll(s[|pat|..], pat, rep)
  {
  }

  /** An occurrence at the start is counted, and the count goes on after it. */
  lemma CountAtStart(t: string, p: string)
    requires |p| > 0 && OccursAt(t, 0, p)
    ensures CountOcc(t, p) == 1 + CountOcc(t[|p|..], p)
  {
  }
}
