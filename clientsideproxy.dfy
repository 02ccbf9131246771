/**
 * The header helpers of `ClientSideProxy`, the line-oriented proxy: reading a
 * header block from a `BufferedReader`, scanning it for the body framing and
 * the target host, reading a fixed-length body from an `InputStream`, and
 * writing a list of lines to an `OutputStream`.
 *
 * A `BufferedReader` is the sequence of lines its `readLine` calls return
 * before `null`; `ReadLines` says how a text is cut into those lines.
 */
module ClientSideProxy {
  import opened Base
  import opened Utf8
  import opened JString
  import opened Streams
  import opened ContentModifier

  // ---------------------------------------------------------------------------
  // getHeaders

  /** The index of the first empty line, or the number of lines when there is none. */
  function BlockEnd(input: seq<string>): (k: nat)
    ensures k <= |input|
    ensures forall i :: 0 <= i < k ==> input[i] != ""
    ensures k < |input| ==> input[k] == ""
  {
    if input == [] || input[0] == "" then 0
    else
      var k := BlockEnd(input[1..]);
      assert forall i :: 1 <= i < k + 1 ==> input[i] == input[1..][i - 1];
      k + 1
  }

  /** Some line of the header block starts with "CONNECT". */
  predicate BlockHasConnect(input: seq<string>) {
    exists i :: 0 <= i < BlockEnd(input) && StartsWith(input[i], "CONNECT")
  }

  /**
   * `getHeaders`: the lines read before the first empty line or the end of the
   * stream, or no lines at all once one of them starts with "CONNECT".
   */
  method GetHeaders(input: seq<string>) returns (headers: seq<string>)
    ensures BlockHasConnect(input) ==> headers == []
    ensures !BlockHasConnect(input) ==> headers == input[..BlockEnd(input)]
    ensures forall i :: 0 <= i < |headers| ==> headers[i] != "" && !StartsWith(headers[i], "CONNECT")
  {
    headers := [];
    var i := 0;
    while i < |input| && input[i] != ""
      invariant i <= BlockEnd(input)
      invariant headers == input[..i]
      invariant forall j :: 0 <= j < i ==> !StartsWith(input[j], "CONNECT")
    {
      if StartsWith(input[i], "CONNECT") {
        return [];
      }
      headers := headers + [input[i]];
      i := i + 1;
    }
  }

  // ---------------------------------------------------------------------------
  // contentLength, isChunked

  /**
   * `contentLength`: the value of the first header `getContentLength` does not
   * map to `null`, or 0 when there is none; a malformed value raises.
   */
  function ContentLength(headers: seq<string>): (r: Outcome<int>)
    ensures r.Returns? ==> IsInt32(r.value)
    ensures r.Throws? ==> exists i :: 0 <= i < |headers| && StartsWith(headers[i], LengthPrefix)
  {
    if headers == [] then Returns(0)
    else
      match GetContentLength(headers[0])
      case Returns(Some(n)) => Returns(n)
      case Returns(None) => ContentLength(headers[1..])
      case Throws => Throws
  }

  /** Without a "Content-Length:" header the length is 0. */
  lemma {:induction false} ContentLengthAbsent(headers: seq<string>)
    requires forall i :: 0 <= i < |headers| ==> !StartsWith(headers[i], LengthPrefix)
    ensures ContentLength(headers) == Returns(0)
  {
    if headers != [] {
      assert forall i :: 0 <= i < |headers[1..]| ==> headers[1..][i] == headers[i + 1];
      ContentLengthAbsent(headers[1..]);
    }
  }

  /** Otherwise it is the value of the first "Content-Length:" header, which must parse. */
  lemma {:induction false} ContentLengthFirst(headers: seq<string>, j: int)
    requires FirstStartingWith(headers, j, LengthPrefix)
    ensures ContentLength(headers) ==
      match ParsedField(ValueField(headers[j])) case Returns(v) => Returns(v.value) case Throws => Throws
    decreases j
  {
    if j > 0 {
      assert !StartsWith(headers[0], LengthPrefix);
      assert headers[1..][j - 1] == headers[j];
      assert forall i :: 0 <= i < j - 1 ==> headers[1..][i] == headers[i + 1];
      ContentLengthFirst(headers[1..], j - 1);
    }
  }

  /** `isChunked`: some header starts with "Transfer-Encoding" and contains "chunked". */
  predicate IsChunked(headers: seq<string>): (b: bool)
    ensures b <==>
      exists i :: 0 <= i < |headers| && StartsWith(headers[i], "Transfer-Encoding") && Contains(headers[i], "chunked")
  {
    assert forall i :: 1 <= i < |headers| ==> headers[i] == headers[1..][i - 1];
    headers != [] &&
    ((StartsWith(headers[0], "Transfer-Encoding") && Contains(headers[0], "chunked")) || IsChunked(headers[1..]))
  }

  // ---------------------------------------------------------------------------
  // getBody

  function Min(a: int, b: int): int {
    if a <= b then a else b
  }

  /**
   * `in.read(b, off, len)` with `len > 0`: copies up to `len` bytes of the
   * next chunk into `buf` at `off`; what is left of the chunk stays in the
   * stream.  Returns -1 at end of stream.
   */
  method Read(stream: seq<Chunk>, buf: array<byte>, off: nat, len: nat) returns (n: int, rest: seq<Chunk>)
    requires 0 < len && off + len <= buf.Length
    modifies buf
    ensures stream == [] ==> n == -1 && rest == [] && buf[..] == old(buf[..])
    ensures stream != [] ==> 0 < n <= len && n <= |Flatten(stream)| && Flatten(stream) == Flatten(stream)[..n] + Flatten(rest)
    ensures stream != [] ==> buf[..] == old(buf[..off]) + Flatten(stream)[..n] + old(buf[off + n..])
  {
    if stream == [] {
      return -1, [];
    }
    n := Min(len, |stream[0]|);
    CopyInto(stream[0], buf, off, n);
    rest := if n == |stream[0]| then stream[1..] else [stream[0][n..]] + stream[1..];
    TakeFromStream(stream, n);
  }

  /** Copies the first `n` bytes of `c` into `buf` at `off`, as `System.arraycopy` does. */
  method CopyInto(c: seq<byte>, buf: array<byte>, off: nat, n: nat)
    requires n <= |c| && off + n <= buf.Length
    modifies buf
    ensures buf[..] == old(buf[..off]) + c[..n] + old(buf[off + n..])
  {
    ghost var before := buf[..];
    for j := 0 to n
      invariant forall k :: 0 <= k < buf.Length ==> buf[k] == if off <= k < off + j then c[k - off] else before[k]
    {
      buf[off + j] := c[j];
    }
    assert buf[..] == before[..off] + c[..n] + before[off + n..] by {
      Spliced(buf[..], before, c, off, n);
    }
  }

  /** Pointwise: the first `n` bytes of `c` at `off`, and `before` everywhere else. */
  lemma Spliced(after: seq<byte>, before: seq<byte>, c: seq<byte>, off: nat, n: nat)
    requires n <= |c| && |after| == |before| && off + n <= |before|
    requires forall k :: 0 <= k < |after| ==> after[k] == if off <= k < off + n then c[k - off] else before[k]
    ensures after == before[..off] + c[..n] + before[off + n..]
  {
    var w := before[..off] + c[..n] + before[off + n..];
    forall k | 0 <= k < |after| ensures after[k] == w[k] {
      if k < off {
        assert w[k] == before[k];
      } else if k < off + n {
        assert w[k] == c[k - off];
      } else {
        assert w[k] == before[k];
      }
    }
  }

  /** Taking `n` bytes of the first chunk leaves the rest of the stream in order. */
  lemma TakeFromStream(stream: seq<Chunk>, n: nat)
    requires stream != [] && 0 < n <= |stream[0]|
    ensures n <= |Flatten(stream)|
    ensures var rest := if n == |stream[0]| then stream[1..] else [stream[0][n..]] + stream[1..];
      Flatten(stream) == Flatten(stream)[..n] + Flatten(rest)
    ensures Flatten(stream)[..n] == stream[0][..n]
  {
    var c := stream[0];
    assert Flatten(stream) == c + Flatten(stream[1..]);
    if n < |c| {
      var r := [c[n..]] + stream[1..];
      assert r[0] == c[n..] && r[1..] == stream[1..];
      assert Flatten(r) == c[n..] + Flatten(stream[1..]);
    }
    assert Flatten(stream)[..n] == c[..n];
  }

  /**
   * `getBody`: `null` unless the length is positive; otherwise the first
   * `contentLength` bytes of the stream, or all of them when it ends sooner.
   * `rest` is what the stream still holds.
   */
  method GetBody(input: seq<Chunk>, contentLength: int) returns (body: Option<seq<byte>>, rest: seq<Chunk>)
    ensures contentLength <= 0 ==> body == None && rest == input
    ensures contentLength > 0 ==> body == Some(Flatten(input)[..Min(contentLength, |Flatten(input)|)])
    ensures contentLength > 0 ==> Flatten(input) == body.value + Flatten(rest)
  {
    if contentLength <= 0 {
      return None, input;
    }
    var buf := new byte[contentLength];
    var totalRead := 0;
    rest := input;
    while totalRead < contentLength
      invariant 0 <= totalRead <= contentLength
      invariant totalRead <= |Flatten(input)|
      invariant buf[..totalRead] == Flatten(input)[..totalRead]
      invariant Flatten(input) == Flatten(input)[..totalRead] + Flatten(rest)
      decreases contentLength - totalRead
    {
      ghost var before := buf[..];
      ghost var stream := rest;
      var n;
      n, rest := Read(rest, buf, totalRead, contentLength - totalRead);
      if n == -1 {
        break;
      }
      BufferStep(Flatten(input), Flatten(stream), Flatten(rest), before, buf[..], totalRead, n);
      totalRead := totalRead + n;
    }
    assert totalRead == Min(contentLength, |Flatten(input)|);
    if totalRead != contentLength {
      return Some(buf[..totalRead]), rest;
    }
    assert buf[..] == buf[..totalRead];
    return Some(buf[..]), rest;
  }

  /**
   * One read of the body loop: the buffer `b` held the first `t` bytes of
   * the whole stream `f`, the read copies `n` bytes of what is left, `s`,
   * into `a`, and leaves `r`.
   */
  lemma BufferStep(f: seq<byte>, s: seq<byte>, r: seq<byte>, b: seq<byte>, a: seq<byte>, t: nat, n: nat)
    requires t <= |f| && t + n <= |b| && n <= |s|
    requires b[..t] == f[..t] && f == f[..t] + s && s == s[..n] + r
    requires a == b[..t] + s[..n] + b[t + n..]
    ensures t + n <= |f| && a[..t + n] == f[..t + n] && f == f[..t + n] + r
  {
    assert a[..t + n] == b[..t] + s[..n];
    assert f[..t + n] == f[..t] + s[..n];
  }

  // ---------------------------------------------------------------------------
  // sendRequest, and how a reader reads it back

  /** The text `sendRequest` writes: each line followed by CRLF, then one more CRLF. */
  function Framed(lines: seq<string>): string
  {
    if lines == [] then "\r\n" else lines[0] + "\r\n" + Framed(lines[1..])
  }

  /** `sendRequest`: writes the bytes of every line and its CRLF, then a final CRLF. */
  method SendRequest(lines: seq<string>) returns (out: seq<byte>)
    ensures out == Encode(Framed(lines))
  {
    out := [];
    for i := 0 to |lines|
      invariant Encode(Framed(lines)) == out + Encode(Framed(lines[i..]))
    {
      FramedStep(lines, i);
      out := out + Encode(lines[i] + "\r\n");
    }
    assert lines[|lines|..] == [];
    out := out + Encode("\r\n");
  }

  /** The bytes of the lines from `i` on: those of line `i` and its CRLF, then the rest. */
  lemma FramedStep(lines: seq<string>, i: nat)
    requires i < |lines|
    ensures Encode(Framed(lines[i..])) == Encode(lines[i] + "\r\n") + Encode(Framed(lines[i + 1..]))
  {
    assert lines[i..][0] == lines[i] && lines[i..][1..] == lines[i + 1..];
    EncodeAppend(lines[i] + "\r\n", Framed(lines[i + 1..]));
  }

  predicate IsBreak(c: char) {
    c == '\r' || c == '\n'
  }

  function LineEnd(s: string): (k: nat)
    ensures k <= |s|
    ensures forall i :: 0 <= i < k ==> !IsBreak(s[i])
    ensures k < |s| ==> IsBreak(s[k])
  {
    if s == [] || IsBreak(s[0]) then 0
    else
      var k := LineEnd(s[1..]);
      assert forall i :: 1 <= i < k + 1 ==> s[i] == s[1..][i - 1];
      k + 1
  }

  /** `BufferedReader.readLine` repeatedly: lines end at "\n", "\r" or "\r\n". */
  function ReadLines(s: string): seq<string>
    decreases |s|
  {
    if s == [] then []
    else
      var k := LineEnd(s);
      if k == |s| then [s]
      else
        var skip := if s[k] == '\r' && k + 1 < |s| && s[k + 1] == '\n' then 2 else 1;
        [s[..k]] + ReadLines(s[k + skip..])
  }

  predicate NoBreak(l: string) {
    forall j :: 0 <= j < |l| ==> !IsBreak(l[j])
  }

  predicate NoBreaks(lines: seq<string>) {
    forall i :: 0 <= i < |lines| ==> NoBreak(lines[i])
  }

  lemma {:induction false} LineEndAfter(l: string, t: string)
    requires NoBreak(l)
    requires t != [] && IsBreak(t[0])
    ensures LineEnd(l + t) == |l|
    decreases |l|
  {
    if l == [] {
      assert l + t == t;
    } else {
      assert (l + t)[0] == l[0];
      assert (l + t)[1..] == l[1..] + t;
      LineEndAfter(l[1..], t);
    }
  }

  /** A line without breaks followed by CRLF is read as that line. */
  lemma ReadLinesStep(l: string, t: string)
    requires NoBreak(l)
    ensures ReadLines(l + "\r\n" + t) == [l] + ReadLines(t)
  {
    var s := l + "\r\n" + t;
    assert s == l + ("\r\n" + t);
    LineEndAfter(l, "\r\n" + t);
    assert s[|l|] == '\r' && s[|l| + 1] == '\n';
    assert s[..|l|] == l;
    assert s[|l| + 2..] == t;
  }

  /** A reader reads back the lines `sendRequest` wrote, then the empty line that ends them. */
  lemma {:induction false} ReadFramed(lines: seq<string>)
    requires NoBreaks(lines)
    ensures ReadLines(Framed(lines)) == lines + [""]
  {
    if lines == [] {
      ReadLinesStep("", "");
      assert "" + "\r\n" + "" == Framed(lines);
    } else {
      NoBreaksTail(lines);
      ReadFramed(lines[1..]);
      ReadFramedCons(lines);
    }
  }

  lemma ReadFramedCons(lines: seq<string>)
    requires lines != [] && NoBreak(lines[0])
    requires ReadLines(Framed(lines[1..])) == lines[1..] + [""]
    ensures ReadLines(Framed(lines)) == lines + [""]
  {
    var t := lines[1..];
    ReadLinesStep(lines[0], Framed(t));
    assert lines + [""] == [lines[0]] + (t + [""]);
  }

  lemma NoBreaksTail(lines: seq<string>)
    requires NoBreaks(lines) && lines != []
    ensures NoBreak(lines[0]) && NoBreaks(lines[1..])
  {
    assert forall i :: 0 <= i < |lines[1..]| ==> lines[1..][i] == lines[i + 1];
  }

  /**
   * Lines written by `sendRequest` and read back by `getHeaders` come back
   * unchanged, as long as none of them is empty, holds a line break or starts
   * with "CONNECT".
   */
  lemma HeadersRoundTrip(lines: seq<string>)
    requires NoBreaks(lines)
    requires forall i :: 0 <= i < |lines| ==> lines[i] != "" && !StartsWith(lines[i], "CONNECT")
    ensures ReadLines(Decode(Encode(Framed(lines)))) == lines + [""]
    ensures BlockEnd(lines + [""]) == |lines| && !BlockHasConnect(lines + [""])
    ensures (lines + [""])[..BlockEnd(lines + [""])] == lines
  {
    DecodeEncode(Framed(lines));
    ReadFramed(lines);
    BlockOfFramed(lines);
  }

  lemma BlockOfFramed(lines: seq<string>)
    requires forall i :: 0 <= i < |lines| ==> lines[i] != "" && !StartsWith(lines[i], "CONNECT")
    ensures BlockEnd(lines + [""]) == |lines| && !BlockHasConnect(lines + [""])
    ensures (lines + [""])[..BlockEnd(lines + [""])] == lines
  {
    var input := lines + [""];
    assert forall i :: 0 <= i < |lines| ==> input[i] == lines[i];
    assert input[|lines|] == "";
    assert BlockEnd(input) == |lines|;
    assert input[..|lines|] == lines;
  }

  // ---------------------------------------------------------------------------
  // getSocketFromRequest

  /**
   * The target `getSocketFromRequest` connects to: the second space-separated
   * token of the first line starting with "Host:", on port 80; `null` when no
   * line does.  A "Host:" line without a second token raises.
   */
  function HostFromRequest(request: seq<string>): (r: Outcome<Option<Endpoint>>)
    ensures r.Returns? && r.value.Some? ==> r.value.value.port == 80
    ensures r != Returns(None) ==> exists i :: 0 <= i < |request| && StartsWith(request[i], "Host:")
  {
    if request == [] then Returns(None)
    else if StartsWith(request[0], "Host:") then
      var parts := Split(request[0], " ");
      if |parts| < 2 then Throws else Returns(Some(Endpoint(parts[1], 80)))
    else HostFromRequest(request[1..])
  }

  /** Otherwise the first "Host:" line decides it, later ones are never looked at. */
  lemma {:induction false} HostFirst(request: seq<string>, j: int)
    requires FirstStartingWith(request, j, "Host:")
    ensures HostFromRequest(request) ==
      if |Split(request[j], " ")| < 2 then Throws else Returns(Some(Endpoint(Split(request[j], " ")[1], 80)))
    decreases j
  {
    if j > 0 {
      assert !StartsWith(request[0], "Host:");
      assert request[1..][j - 1] == request[j];
      assert forall i :: 0 <= i < j - 1 ==> request[1..][i] == request[i + 1];
      HostFirst(request[1..], j - 1);
    }
  }

  /** For the line "Host: h", with `h` a non-empty name without spaces, the target is `h` on port 80. */
  lemma HostLine(h: string)
    requires h != [] && ' ' !in h
    ensures |Split("Host: " + h, " ")| >= 2 && Split("Host: " + h, " ")[1] == h
  {
    var s := "Host: " + h;
    assert OccursAt(s, 5, " ");
    forall k: nat | k < 5 ensures !OccursAt(s, k, " ") {
      assert s[k..k + 1] == [s[k]];
    }
    assert IndexOf(s, " ") == 5;
    assert s[6..] == h;
    AbsentCharNoOccurrence(h, " ", 0);
    assert Pieces(h, " ") == [h];
    assert s[..5] == "Host:";
    assert Pieces(s, " ") == ["Host:", h];
  }
}
