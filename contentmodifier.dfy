/**
 * The line-based rewrite of `ContentModifier`: it rewrites the words of a list
 * of header lines in place, estimates the resulting length change by
 * counting "Stockholm", and adds that estimate to every `Content-Length` line.
 * No body is read on this path.
 */
module ContentModifier {
  import opened Base
  import opened Utf8
  import opened JString

  const Stockholm: string := "Stockholm"
  const Linkoping: string := "Linköping"
  const Smiley: string := "Smiley"
  const Trolly: string := "Trolly"
  const LengthPrefix: string := "Content-Length:"

  /** The rewrite `handleText` applies to one line: Smiley first, then Stockholm. */
  function RewriteLine(s: string): string
  {
    ReplaceAll(ReplaceAll(s, Smiley, Trolly), Stockholm, Linkoping)
  }

  /** `isStockholm`: the text contains "Stockholm". */
  predicate IsStockholm(s: string): (b: bool)
    ensures b <==> exists k: nat :: OccursAt(s, k, Stockholm)
  {
    Contains(s, Stockholm)
  }

  /** The value `getAlteredContentLength` must compute: two per non-overlapping "Stockholm". */
  function AlteredLength(s: string): nat
  {
    2 * CountOcc(s, Stockholm)
  }

  function SumAltered(lines: seq<string>): nat
  {
    if lines == [] then 0 else SumAltered(lines[..|lines| - 1]) + AlteredLength(lines[|lines| - 1])
  }

  /** An occurrence in `ns + [c]` that is not in `ns` ends at the last character. */
  lemma NewOccurrenceAtEnd(ns: string, c: char, k: nat)
    requires NoOccurrence(ns, Stockholm) && OccursAt(ns + [c], k, Stockholm)
    ensures k + |Stockholm| == |ns| + 1
  {
    if k + |Stockholm| <= |ns| {
      assert (ns + [c])[k..k + |Stockholm|] == ns[k..k + |Stockholm|];
      assert OccursAt(ns, k, Stockholm);
    }
  }

  /** When `s[last..i + 1]` is the first prefix of `s[last..]` holding "Stockholm", the count restarts after it. */
  lemma FoundAtEnd(s: string, last: nat, i: nat)
    requires last <= i < |s|
    requires NoOccurrence(s[last..i], Stockholm) && Contains(s[last..i + 1], Stockholm)
    ensures CountOcc(s[last..], Stockholm) == 1 + CountOcc(s[i + 1..], Stockholm)
  {
    var grown := s[last..i + 1];
    assert grown == s[last..i] + [s[i]];
    var t := s[last..];
    var k := IndexOf(grown, Stockholm);
    NewOccurrenceAtEnd(s[last..i], s[i], k);
    assert grown == t[..|grown|];
    forall j: nat | j < k ensures !OccursAt(t, j, Stockholm) {
      PrefixOccurrence(t, grown, j, Stockholm);
    }
    PrefixOccurrence(t, grown, k, Stockholm);
    CountSkip(t, k, Stockholm);
    CountAtStart(t[k..], Stockholm);
    assert t[k..][|Stockholm|..] == s[i + 1..];
  }

  /**
   * `getAlteredContentLength`: grows `newString` one character at a time and,
   * whenever it contains "Stockholm", adds 2 and starts it afresh.
   */
  method GetAlteredContentLength(s: string) returns (lengthModified: int)
    ensures lengthModified == AlteredLength(s)
    ensures lengthModified >= 0 && lengthModified % 2 == 0
  {
    var newString := "";
    var last := 0;
    lengthModified := 0;
    for i := 0 to |s|
      invariant 0 <= last <= i
      invariant newString == s[last..i]
      invariant NoOccurrence(newString, Stockholm)
      invariant lengthModified + AlteredLength(s[last..]) == AlteredLength(s)
    {
      var grown := newString + [s[i]];
      CounterStep(s, last, i);
      if IsStockholm(grown) {
        lengthModified := lengthModified + 2;
        newString := "";
        last := i + 1;
        assert s[last..last] == "" && NoOccurrence("", Stockholm);
      } else {
        newString := grown;
      }
    }
    CounterEnd(s, last, newString);
  }

  /** At the end of the loop, what was grown since the last find counts nothing. */
  lemma CounterEnd(s: string, last: nat, rest: string)
    requires last <= |s| && rest == s[last..|s|] && NoOccurrence(rest, Stockholm)
    ensures AlteredLength(s[last..]) == 0
  {
    assert s[last..] == rest;
    CountNone(rest);
  }

  /** One step of the counter's loop, on the text `s[last..i]` it has grown so far. */
  lemma CounterStep(s: string, last: nat, i: nat)
    requires last <= i < |s| && NoOccurrence(s[last..i], Stockholm)
    ensures s[last..i] + [s[i]] == s[last..i + 1]
    ensures Contains(s[last..i + 1], Stockholm) ==> AlteredLength(s[last..]) == 2 + AlteredLength(s[i + 1..])
    ensures !Contains(s[last..i + 1], Stockholm) ==> NoOccurrence(s[last..i + 1], Stockholm)
  {
    assert s[last..i] + [s[i]] == s[last..i + 1];
    if Contains(s[last..i + 1], Stockholm) {
      FoundAtEnd(s, last, i);
    }
  }

  lemma {:induction false} CountNone(s: string)
    requires NoOccurrence(s, Stockholm)
    ensures CountOcc(s, Stockholm) == 0
    decreases |s|
  {
    if |s| >= |Stockholm| {
      assert !OccursAt(s, 0, Stockholm);
      forall k: nat | k <= |s[1..]| ensures !OccursAt(s[1..], k, Stockholm) {
        OccursAtDrop(s, 1, k, Stockholm);
      }
      CountNone(s[1..]);
    }
  }

  /**
   * `handleText`: every line of the caller's list is replaced by its rewrite
   * (the list is cleared and refilled), and the altered lengths of the
   * ORIGINAL lines are summed.
   */
  method HandleText(lines: array<string>) returns (offset: int)
    modifies lines
    ensures forall i :: 0 <= i < lines.Length ==> lines[i] == RewriteLine(old(lines[i]))
    ensures offset == SumAltered(old(lines[..]))
  {
    ghost var original := lines[..];
    var altered: seq<string> := [];
    offset := 0;
    for i := 0 to lines.Length
      invariant lines[..] == original
      invariant |altered| == i
      invariant forall j :: 0 <= j < i ==> altered[j] == RewriteLine(original[j])
      invariant offset == SumAltered(original[..i])
    {
      var n := GetAlteredContentLength(lines[i]);
      assert original[..i + 1][..i] == original[..i];
      offset := offset + n;
      altered := altered + [RewriteLine(lines[i])];
    }
    assert original[..lines.Length] == original;
    for i := 0 to lines.Length
      invariant forall j :: 0 <= j < i ==> lines[j] == altered[j]
      invariant forall j :: i <= j < lines.Length ==> lines[j] == original[j]
    {
      lines[i] := altered[i];
    }
  }

  // ---------------------------------------------------------------------------
  // Content-Length lines

  /** The text after "Content-Length:" up to the next ':' (or the end). */
  function ValueField(header: string): string
    requires StartsWith(header, LengthPrefix)
  {
    var rest := header[|LengthPrefix|..];
    var k := IndexOf(rest, ":");
    if k == -1 then rest else rest[..k]
  }

  function ParsedField(field: string): Outcome<Option<int>>
  {
    match ParseInt(Trim(field))
    case Returns(n) => Returns(Some(n))
    case Throws => Throws
  }

  /**
   * `getContentLength`: `null` unless the line starts with "Content-Length:",
   * otherwise `Integer.parseInt` of the trimmed text between the first and the
   * second ':' (which throws when that text is not a number).
   */
  function GetContentLength(header: string): (r: Outcome<Option<int>>)
    ensures !StartsWith(header, LengthPrefix) ==> r == Returns(None)
    ensures StartsWith(header, LengthPrefix) ==> r == ParsedField(ValueField(header))
  {
    if StartsWith(header, LengthPrefix) then
      var parts := Split(header, ":");
      SecondPiece(header);
      if |parts| < 2 then Throws
      else
        match ParseInt(Trim(parts[1]))
        case Returns(n) => Returns(Some(n))
        case Throws => Throws
    else Returns(None)
  }

  /** `header.split(":")[1]` is the value field, and exists whenever that field is non-empty. */
  lemma SecondPiece(header: string)
    requires StartsWith(header, LengthPrefix)
    ensures |Split(header, ":")| >= 2 ==> Split(header, ":")[1] == ValueField(header)
    ensures ValueField(header) != "" ==> |Split(header, ":")| >= 2
    ensures |Split(header, ":")| < 2 ==> ValueField(header) == ""
  {
    var k := |LengthPrefix| - 1;
    assert OccursAt(header, k, ":");
    forall j: nat | j < k ensures !OccursAt(header, j, ":") {
      assert header[j] == LengthPrefix[j];
    }
    assert IndexOf(header, ":") == k;
    var rest := header[k + 1..];
    assert rest == header[|LengthPrefix|..];
    var ps := Pieces(header, ":");
    assert ps == [header[..k]] + Pieces(rest, ":");
    assert ps[1] == ValueField(header);
    var parts := DropTrailingEmpty(ps);
    assert Split(header, ":") == parts;
    if ValueField(header) != "" {
      assert |parts| >= 2;
    }
  }

  /** The line `modifyContentLength` writes for an old value `n`. */
  function PatchedLine(n: int, offset: int): string
    requires IsInt32(n) && IsInt32(offset)
  {
    "Content-Length: " + IntToString(AddInt32(n, offset)) + "\r\n"
  }

  datatype Patch = Patch(lines: seq<string>, completed: bool)

  /** `getContentLength` yields a number for this line, so it can be patched. */
  predicate Patchable(line: string) {
    GetContentLength(line).Returns? && GetContentLength(line).value.Some?
  }

  /** The line's patched form, or the line itself when it holds no "Content-Length:". */
  predicate PatchedAt(src: string, dst: string, offset: int)
    requires IsInt32(offset)
  {
    if Contains(src, LengthPrefix) then
      Patchable(src) && dst == PatchedLine(GetContentLength(src).value.value, offset)
    else dst == src
  }

  /**
   * What `modifyContentLength` leaves in the list: each line containing
   * "Content-Length:" is patched, in order, until one of them cannot be parsed
   * (a NullPointerException or NumberFormatException); from that line on the
   * list is unchanged and the call does not complete.
   */
  function PatchLines(lines: seq<string>, offset: int): (r: Patch)
    requires IsInt32(offset)
    ensures |r.lines| == |lines|
  {
    if lines == [] then Patch([], true)
    else
      var rest := PatchLines(lines[1..], offset);
      if !Contains(lines[0], LengthPrefix) then Patch([lines[0]] + rest.lines, rest.completed)
      else
        match GetContentLength(lines[0])
        case Returns(Some(n)) => Patch([PatchedLine(n, offset)] + rest.lines, rest.completed)
        case _ => Patch(lines, false)
  }

  /** The patch completes exactly when every "Content-Length:" line can be parsed. */
  lemma {:induction false} PatchCompletes(lines: seq<string>, offset: int)
    requires IsInt32(offset)
    ensures PatchLines(lines, offset).completed <==>
      forall i :: 0 <= i < |lines| && Contains(lines[i], LengthPrefix) ==> Patchable(lines[i])
  {
    if lines != [] {
      PatchCompletes(lines[1..], offset);
      assert forall i :: 1 <= i < |lines| ==> lines[i] == lines[1..][i - 1];
    }
  }

  /** A completed patch rewrites every "Content-Length:" line and leaves the others alone. */
  lemma {:induction false} PatchComplete(lines: seq<string>, offset: int)
    requires IsInt32(offset)
    requires PatchLines(lines, offset).completed
    ensures forall i :: 0 <= i < |lines| ==> PatchedAt(lines[i], PatchLines(lines, offset).lines[i], offset)
  {
    if lines != [] {
      var r := PatchLines(lines, offset);
      var rest := PatchLines(lines[1..], offset);
      PatchComplete(lines[1..], offset);
      assert r.lines[1..] == rest.lines;
      forall i | 1 <= i < |lines| ensures PatchedAt(lines[i], r.lines[i], offset) {
        assert lines[i] == lines[1..][i - 1] && r.lines[i] == rest.lines[i - 1];
      }
    }
  }

  /** The patch stopped at `j`: the lines before it are patched, it and the rest are unchanged. */
  predicate StoppedAt(lines: seq<string>, patched: seq<string>, j: int, offset: int)
    requires IsInt32(offset)
  {
    0 <= j < |lines| && |patched| == |lines| && Contains(lines[j], LengthPrefix) && !Patchable(lines[j]) &&
    patched[j..] == lines[j..] &&
    forall i :: 0 <= i < j ==> PatchedAt(lines[i], patched[i], offset)
  }

  /** An incomplete patch stopped at a "Content-Length:" line it could not parse. */
  lemma {:induction false} PatchStops(lines: seq<string>, offset: int)
    requires IsInt32(offset)
    requires !PatchLines(lines, offset).completed
    ensures exists j :: StoppedAt(lines, PatchLines(lines, offset).lines, j, offset)
  {
    var r := PatchLines(lines, offset);
    if Contains(lines[0], LengthPrefix) && !Patchable(lines[0]) {
      assert StoppedAt(lines, r.lines, 0, offset);
    } else {
      var tail := lines[1..];
      var rest := PatchLines(tail, offset);
      PatchStops(tail, offset);
      var j :| StoppedAt(tail, rest.lines, j, offset);
      StoppedShift(lines, r.lines, j, offset);
    }
  }

  lemma StoppedShift(lines: seq<string>, patched: seq<string>, j: int, offset: int)
    requires IsInt32(offset) && lines != [] && |patched| == |lines|
    requires PatchedAt(lines[0], patched[0], offset)
    requires StoppedAt(lines[1..], patched[1..], j, offset)
    ensures StoppedAt(lines, patched, j + 1, offset)
  {
    assert patched[j + 1..] == patched[1..][j..];
    assert lines[j + 1..] == lines[1..][j..];
    forall i | 0 <= i < j + 1 ensures PatchedAt(lines[i], patched[i], offset) {
      if i > 0 {
        assert lines[i] == lines[1..][i - 1] && patched[i] == patched[1..][i - 1];
      }
    }
  }

  /** The line `modifyContentLength` leaves in place of `line` when it does not raise. */
  function PatchOne(line: string, offset: int): string
    requires IsInt32(offset) && (Contains(line, LengthPrefix) ==> Patchable(line))
  {
    if Contains(line, LengthPrefix) then PatchedLine(GetContentLength(line).value.value, offset) else line
  }

  /** The loop of `modifyContentLength` advances over one line it can handle. */
  lemma PatchAdvance(original: seq<string>, prefix: seq<string>, i: nat, offset: int)
    requires IsInt32(offset) && i < |original|
    requires Contains(original[i], LengthPrefix) ==> Patchable(original[i])
    requires PatchLines(original, offset).lines == prefix + PatchLines(original[i..], offset).lines
    requires PatchLines(original, offset).completed == PatchLines(original[i..], offset).completed
    ensures PatchLines(original, offset).lines == prefix + [PatchOne(original[i], offset)] + PatchLines(original[i + 1..], offset).lines
    ensures PatchLines(original, offset).completed == PatchLines(original[i + 1..], offset).completed
  {
    assert original[i..][0] == original[i] && original[i..][1..] == original[i + 1..];
  }

  /** The loop of `modifyContentLength` stops at a line it cannot parse. */
  lemma PatchHalt(original: seq<string>, prefix: seq<string>, i: nat, offset: int)
    requires IsInt32(offset) && i < |original|
    requires Contains(original[i], LengthPrefix) && !Patchable(original[i])
    requires PatchLines(original, offset).lines == prefix + PatchLines(original[i..], offset).lines
    requires PatchLines(original, offset).completed == PatchLines(original[i..], offset).completed
    ensures PatchLines(original, offset) == Patch(prefix + original[i..], false)
  {
    assert original[i..][0] == original[i];
  }

  lemma SpliceStep(done: seq<string>, original: seq<string>, i: nat, x: string)
    requires |done| == i < |original|
    ensures (done + original[i..])[i := x] == done + [x] + original[i + 1..]
  {
  }

  /**
   * `modifyContentLength`: walks the list and replaces each "Content-Length:"
   * line by its patched form; a line it cannot parse raises, which leaves the
   * list as it is at that point and returns `false`.
   */
  method ModifyContentLength(lines: array<string>, offset: int) returns (completed: bool)
    requires IsInt32(offset)
    modifies lines
    ensures Patch(lines[..], completed) == PatchLines(old(lines[..]), offset)
  {
    ghost var original := lines[..];
    ghost var done: seq<string> := [];
    for i := 0 to lines.Length
      invariant |done| == i
      invariant lines[..] == done + original[i..]
      invariant PatchLines(original, offset).lines == done + PatchLines(original[i..], offset).lines
      invariant PatchLines(original, offset).completed == PatchLines(original[i..], offset).completed
    {
      var text := lines[i];
      assert text == original[i];
      ghost var before := lines[..];
      if Contains(text, LengthPrefix) {
        var cl := GetContentLength(text);
        if cl.Returns? && cl.value.Some? {
          lines[i] := PatchedLine(cl.value.value, offset);
        } else {
          PatchHalt(original, done, i, offset);
          return false;
        }
      }
      PatchAdvance(original, done, i, offset);
      assert lines[..] == before[i := PatchOne(original[i], offset)];
      SpliceStep(done, original, i, PatchOne(original[i], offset));
      done := done + [PatchOne(original[i], offset)];
    }
    assert original[lines.Length..] == [];
    return true;
  }

  // ---------------------------------------------------------------------------
  // What the rewrite does to lengths, and reading a patched line back

  /** `handleText` keeps the number of characters of every line. */
  lemma RewriteLineLength(s: string)
    ensures |RewriteLine(s)| == |s|
  {
    ReplaceLength(s, Smiley, Trolly);
    ReplaceLength(ReplaceAll(s, Smiley, Trolly), Stockholm, Linkoping);
  }

  lemma AsciiLength(s: string)
    requires IsAscii(s)
    ensures |Encode(s)| == |s|
  {
    EncodeAscii(s);
  }

  lemma LinkopingBytes()
    ensures |Encode(Linkoping)| == 10
  {
    var lin, o, ping := "Link", ['ö'], "ping";
    assert Linkoping == lin + o + ping;
    EncodeAppend(lin + o, ping);
    EncodeAppend(lin, o);
    AsciiPieces();
    assert |Encode(o)| == 2;
  }

  lemma AsciiPieces()
    ensures |Encode("Link")| == 4 && |Encode("ping")| == 4
  {
    AsciiLength("Link");
    AsciiLength("ping");
  }

  /** A text that does not start with `p` counts as many occurrences as its tail. */
  lemma CountPastFirst(c: char, t: string, p: string)
    requires |p| > 0 && !StartsWith([c] + t, p)
    ensures CountOcc([c] + t, p) == CountOcc(t, p)
  {
    assert ([c] + t)[1..] == t;
  }

  /** Text that lacks the pattern's first letter adds no occurrence in front. */
  lemma {:induction false} CountSkipAll(u: string, t: string, p: string)
    requires |p| > 0 && p[0] !in u
    ensures CountOcc(u + t, p) == CountOcc(t, p)
  {
    if u != [] {
      assert u + t == [u[0]] + (u[1..] + t);
      assert u[0] != p[0] by { assert u[0] in u; }
      PrefixCons(u[0], u[1..] + t, p);
      CountPastFirst(u[0], u[1..] + t, p);
      CountSkipAll(u[1..], t, p);
    } else {
      assert u + t == t;
    }
  }

  /** Counting passes over `s[1..m]` when the pattern starts neither at 0 nor inside it. */
  lemma CountPastPrefix(s: string, m: nat, p: string)
    requires |p| > 0 && 1 <= m <= |s| && p[0] !in s[1..m] && !StartsWith(s, p)
    ensures CountOcc(s, p) == CountOcc(s[m..], p)
  {
    assert s == [s[0]] + s[1..];
    CountPastFirst(s[0], s[1..], p);
    assert s[1..] == s[1..m] + s[m..];
    CountSkipAll(s[1..m], s[m..], p);
  }

  /** A text starts with `p` when its first letter is `p`'s and the rest starts with the rest of `p`. */
  lemma PrefixCons(c: char, x: string, p: string)
    requires |p| > 0
    ensures StartsWith([c] + x, p) <==> c == p[0] && StartsWith(x, p[1..])
  {
    if |p| <= |x| + 1 {
      assert ([c] + x)[..|p|] == [c] + x[..|p| - 1];
      assert p == [p[0]] + p[1..];
    }
  }

  /** Where the pattern does not start, `ReplaceAll` copies the first letter. */
  lemma ReplaceCopy(s: string, pat: string, rep: string)
    requires |pat| > 0 && |s| >= |pat| && s[..|pat|] != pat
    ensures ReplaceAll(s, pat, rep) == [s[0]] + ReplaceAll(s[1..], pat, rep)
  {
  }

  /** Replacing "Smiley" leaves a front part without an 'S' alone. */
  lemma {:induction false} TrollyFront(u: string, v: string)
    requires 'S' !in u
    ensures ReplaceAll(u + v, Smiley, Trolly) == u + ReplaceAll(v, Smiley, Trolly)
  {
    if u != [] {
      var w := u + v;
      assert w[1..] == u[1..] + v;
      TrollyFront(u[1..], v);
      assert u == [u[0]] + u[1..];
      if |w| >= |Smiley| {
        assert w[..|Smiley|] != Smiley by { assert w[0] == u[0] && u[0] in u; }
        assert ReplaceAll(w, Smiley, Trolly) == [w[0]] + ReplaceAll(w[1..], Smiley, Trolly);
      } else {
        assert ReplaceAll(v, Smiley, Trolly) == v by { assert |v| < |Smiley|; }
      }
    } else {
      assert u + v == v;
    }
  }

  /** A text without 'S' or 'T' starts the Smiley-rewritten text only where it starts the original. */
  lemma {:induction false} TrollyPrefix(w: string, l: string)
    requires 'S' !in l && 'T' !in l
    ensures StartsWith(ReplaceAll(w, Smiley, Trolly), l) ==> StartsWith(w, l)
  {
    var r := ReplaceAll(w, Smiley, Trolly);
    if l != [] && |w| >= |Smiley| {
      if w[..|Smiley|] == Smiley {
        assert r == Trolly + ReplaceAll(w[|Smiley|..], Smiley, Trolly);
        assert r[0] == 'T' && l[0] != 'T' by { assert l[0] in l; }
      } else {
        var t := ReplaceAll(w[1..], Smiley, Trolly);
        assert r == [w[0]] + t;
        TrollyPrefix(w[1..], l[1..]);
        if StartsWith(r, l) {
          assert StartsWith(t, l[1..]) by { assert t[..|l| - 1] == r[1..|l|]; }
          assert w[..|l|] == [w[0]] + w[1..][..|l| - 1];
        }
      }
    }
  }

  /**
   * Replacing "Smiley" by "Trolly" neither makes nor breaks a "Stockholm":
   * the two words share no letter that could join them to it.
   */
  lemma {:induction false} TrollyKeepsCount(s: string)
    ensures CountOcc(ReplaceAll(s, Smiley, Trolly), Stockholm) == CountOcc(s, Stockholm)
    decreases |s|
  {
    if |s| < |Smiley| {
    } else if s[..|Smiley|] == Smiley {
      SmileyStep(s);
      TrollyKeepsCount(s[|Smiley|..]);
    } else if StartsWith(s, Stockholm) {
      StockholmStep(s);
      TrollyKeepsCount(s[|Stockholm|..]);
    } else {
      OtherStep(s);
      TrollyKeepsCount(s[1..]);
    }
  }

  /** A "Smiley" becomes a "Trolly", and neither word starts a "Stockholm". */
  lemma SmileyStep(s: string)
    requires |s| >= |Smiley| && s[..|Smiley|] == Smiley
    ensures CountOcc(ReplaceAll(s, Smiley, Trolly), Stockholm) ==
      CountOcc(ReplaceAll(s[|Smiley|..], Smiley, Trolly), Stockholm)
    ensures CountOcc(s, Stockholm) == CountOcc(s[|Smiley|..], Stockholm)
  {
    var t := ReplaceAll(s[|Smiley|..], Smiley, Trolly);
    ReplaceAtStart(s, Smiley, Trolly);
    CountSkipAll(Trolly, t, Stockholm);
    assert s[1..|Smiley|] == Smiley[1..];
    assert !StartsWith(s, Stockholm) by { assert s[1] == Smiley[1]; }
    CountPastPrefix(s, |Smiley|, Stockholm);
  }

  /** A "Stockholm" holds no 'S' after its first letter, so it passes the Smiley rewrite whole. */
  lemma StockholmStep(s: string)
    requires StartsWith(s, Stockholm)
    ensures ReplaceAll(s, Smiley, Trolly) == Stockholm + ReplaceAll(s[|Stockholm|..], Smiley, Trolly)
    ensures CountOcc(s, Stockholm) == 1 + CountOcc(s[|Stockholm|..], Stockholm)
  {
    var rest := s[|Stockholm|..];
    assert s[..|Smiley|] != Smiley by { assert s[1] == Stockholm[1]; }
    ReplaceCopy(s, Smiley, Trolly);
    assert s[1..] == Stockholm[1..] + rest;
    TrollyFront(Stockholm[1..], rest);
    assert s == [s[0]] + s[1..];
    CountAtStart(s, Stockholm);
  }

  /** Elsewhere the first letter is copied, and it starts a "Stockholm" in neither text. */
  lemma OtherStep(s: string)
    requires |s| >= |Smiley| && s[..|Smiley|] != Smiley && !StartsWith(s, Stockholm)
    ensures CountOcc(ReplaceAll(s, Smiley, Trolly), Stockholm) ==
      CountOcc(ReplaceAll(s[1..], Smiley, Trolly), Stockholm)
    ensures CountOcc(s, Stockholm) == CountOcc(s[1..], Stockholm)
  {
    StockholmTail();
    TrollyPrefix(s[1..], Stockholm[1..]);
    CopyStep(s, Smiley, Trolly, Stockholm);
  }

  lemma StockholmTail()
    ensures 'S' !in Stockholm[1..] && 'T' !in Stockholm[1..]
  {
  }

  /**
   * Where `pat` does not start, and `p` starts neither the text nor (by the
   * last requirement) the rewrite's copy of it, counting `p` steps one letter
   * in both texts.
   */
  lemma CopyStep(s: string, pat: string, rep: string, p: string)
    requires |pat| > 0 && |p| > 0 && |s| >= |pat| && s[..|pat|] != pat && !StartsWith(s, p)
    requires StartsWith(ReplaceAll(s[1..], pat, rep), p[1..]) ==> StartsWith(s[1..], p[1..])
    ensures CountOcc(ReplaceAll(s, pat, rep), p) == CountOcc(ReplaceAll(s[1..], pat, rep), p)
    ensures CountOcc(s, p) == CountOcc(s[1..], p)
  {
    var t := ReplaceAll(s[1..], pat, rep);
    ReplaceCopy(s, pat, rep);
    PrefixCons(s[0], t, p);
    PrefixCons(s[0], s[1..], p);
    assert s == [s[0]] + s[1..];
    CountPastFirst(s[0], t, p);
    CountPastFirst(s[0], s[1..], p);
  }

  /**
   * The UTF-8 length of a rewritten line grows by one byte per "Stockholm"
   * replaced ("Linköping" has one two-byte letter), not by the two that
   * `getAlteredContentLength` adds.
   */
  lemma RewriteLineBytes(s: string)
    ensures |Encode(RewriteLine(s))| == |Encode(s)| + CountOcc(s, Stockholm)
  {
    TrollyKeepsCount(s);
    var t := ReplaceAll(s, Smiley, Trolly);
    AsciiLength(Smiley);
    AsciiLength(Trolly);
    AsciiLength(Stockholm);
    LinkopingBytes();
    ReplaceEncodedLength(s, Smiley, Trolly);
    assert |Encode(t)| == |Encode(s)| + CountOcc(s, Smiley) * 0;
    ReplaceEncodedLength(t, Stockholm, Linkoping);
    assert |Encode(RewriteLine(s))| == |Encode(t)| + CountOcc(t, Stockholm) * 1;
  }

  /** A line written by `modifyContentLength` reads back, through `getContentLength`, as its new value. */
  lemma PatchedLineReadsBack(n: int, offset: int)
    requires IsInt32(n) && IsInt32(offset)
    ensures Contains(PatchedLine(n, offset), LengthPrefix)
    ensures GetContentLength(PatchedLine(n, offset)) == Returns(Some(AddInt32(n, offset)))
  {
    var m := AddInt32(n, offset);
    var d := IntToString(m);
    IntToStringShape(m);
    LengthLineField(d);
    assert OccursAt(PatchedLine(n, offset), 0, LengthPrefix);
    TrimSurrounded(" ", d, "\r\n");
    ParseIntToString(m);
  }

  /** The value field of "Content-Length: " + d + CRLF is " " + d + CRLF when `d` holds no ':'. */
  lemma LengthLineField(d: string)
    requires forall i :: 0 <= i < |d| ==> d[i] != ':'
    ensures StartsWith("Content-Length: " + d + "\r\n", LengthPrefix)
    ensures ValueField("Content-Length: " + d + "\r\n") == " " + d + "\r\n"
  {
    var line := "Content-Length: " + d + "\r\n";
    var rest := " " + d + "\r\n";
    assert line == LengthPrefix + rest;
    assert line[|LengthPrefix|..] == rest;
    forall k: nat | k <= |rest| ensures !OccursAt(rest, k, ":") {
      if k < |rest| {
        assert rest[k..k + 1] == [rest[k]];
        assert k == 0 || k > |d| || rest[k] == d[k - 1];
      }
    }
  }
}
