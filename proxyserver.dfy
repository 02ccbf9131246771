/**
 * `ProxyServer.ClientHandler`: one client exchange.  The request line and the
 * header block are read as lines; an oversized header block, a CONNECT
 * request, a short request line and a request without a target are answered
 * with an error page; any other request is rewritten to origin form, its
 * headers filtered, and sent on to the target, whose response goes back
 * through `streamCopy`.
 *
 * The client's input is its sequence of lines (`readLine` until `null`); the
 * connection to the target is a parameter: `None` when it fails with an
 * `IOException`, otherwise the chunks the target sends back.
 */
module ProxyServer {
  import opened Base
  import opened Utf8
  import opened JString
  import opened Streams
  import opened ImgMatch
  import opened LengthPatch
  import opened Streamer
  import opened ClientSideProxy

  // ---------------------------------------------------------------------------
  // sendError

  const StatusPrefix: string := "HTTP/1.1 "
  const HtmlType: string := "Content-Type: text/html; charset=UTF-8"
  const CloseLine: string := "Connection: close"

  /** The page `sendError` sends. */
  function ErrorBody(code: int, msg: string): string {
    "<html><body><h1>" + IntToString(code) + " " + msg + "</h1></body></html>"
  }

  /** The status line, with its line end. */
  function StatusLine(code: int, msg: string): string {
    StatusPrefix + IntToString(code) + " " + msg + "\r\n"
  }

  /** The status line and the content type header, without its line end. */
  function ErrorStatus(code: int, msg: string): string {
    StatusLine(code, msg) + HtmlType
  }

  /** What ends the header block: the connection header and a blank line. */
  const Trailer: string := CloseLine + "\r\n\r\n"

  /** The header block `sendError` writes before the page, for a page of `n` bytes. */
  function ErrorHead(code: int, msg: string, n: nat): string {
    ErrorStatus(code, msg) + "\r\n" + LengthHeader(n) + "\r\n" + Trailer
  }

  /** `sendError`: the bytes written to the client. */
  function ErrorResponse(code: int, msg: string): seq<byte> {
    var body := ErrorBody(code, msg);
    Encode(ErrorHead(code, msg, |Encode(body)|) + body)
  }

  /**
   * An error response is its header block followed by the UTF-8 bytes of its
   * page; the header block starts with the status line, ends with
   * "Connection: close" and a blank line, and for a message without a colon
   * its first Content-Length header declares exactly the number of bytes
   * that follow the header block.
   */
  lemma ErrorFramed(code: int, msg: string)
    ensures var out := ErrorResponse(code, msg);
      var page := Encode(ErrorBody(code, msg));
      var head := ErrorHead(code, msg, |page|);
      |Encode(head)| + |page| == |out| &&
      out[|Encode(head)|..] == page && Decode(out[..|Encode(head)|]) == head &&
      StartsWith(head, StatusLine(code, msg)) && head[|head| - |Trailer|..] == Trailer &&
      (':' !in msg ==> Declared(head) == Some(NatToString(|out| - |Encode(head)|)))
  {
    var body := ErrorBody(code, msg);
    var n := |Encode(body)|;
    SplitBytes(ErrorHead(code, msg, n), body);
    ErrorHeadShape(code, msg, n);
    if ':' !in msg {
      ErrorDeclares(code, msg, n);
    }
  }

  /** The bytes of `head + body` are those of `head`, then those of `body`. */
  lemma SplitBytes(head: string, body: string)
    ensures var out := Encode(head + body);
      |Encode(head)| + |Encode(body)| == |out| &&
      out[|Encode(head)|..] == Encode(body) && Decode(out[..|Encode(head)|]) == head
  {
    EncodeAppend(head, body);
    DecodeEncode(head);
  }

  lemma ErrorHeadShape(code: int, msg: string, n: nat)
    ensures var head := ErrorHead(code, msg, n);
      StartsWith(head, StatusLine(code, msg)) && head[|head| - |Trailer|..] == Trailer
  {
    var a := StatusLine(code, msg);
    Ends(a, HtmlType, "\r\n", LengthHeader(n), "\r\n", Trailer);
  }

  lemma Ends(a: string, b: string, c: string, d: string, e: string, t: string)
    ensures var w := a + b + c + d + e + t;
      StartsWith(w, a) && w[|w| - |t|..] == t
  {
    var w := a + b + c + d + e + t;
    assert w == a + (b + c + d + e + t);
    assert w[..|a|] == a;
    assert w == (a + b + c + d + e) + t;
  }

  /** The only colon of the status part is the one of the content type header. */
  lemma StatusColon(code: int, msg: string)
    requires ':' !in msg
    ensures var s := ErrorStatus(code, msg);
      var off := |StatusLine(code, msg)|;
      off + 12 < |s| && s[off + 11] == 'e' &&
      forall i :: 0 <= i < |s| && i != off + 12 ==> s[i] != ':'
  {
    IntToStringShape(code);
    var a := StatusLine(code, msg);
    var s := ErrorStatus(code, msg);
    TypeColon();
    assert s[|a| + 11] == HtmlType[11];
    forall i | 0 <= i < |s| && i != |a| + 12 ensures s[i] != ':' {
      if i < |a| {
        assert s[i] == a[i];
      } else {
        assert s[i] == HtmlType[i - |a|];
      }
    }
  }

  lemma TypeColon()
    ensures |HtmlType| > 12 && HtmlType[11] == 'e'
    ensures forall i :: 0 <= i < |HtmlType| && i != 12 ==> HtmlType[i] != ':'
  {
  }

  /** For a message without a colon, the error head's first Content-Length header declares `n`. */
  lemma ErrorDeclares(code: int, msg: string, n: nat)
    requires ':' !in msg
    ensures Declared(ErrorHead(code, msg, n)) == Some(NatToString(n))
  {
    StatusNoKey(code, msg);
    var z := "\r\n" + Trailer;
    assert ErrorHead(code, msg, n) == ErrorStatus(code, msg) + "\r\n" + LengthHeader(n) + z;
    HeadDeclares(ErrorStatus(code, msg), n, z);
  }

  /**
   * A header written after a line in which the key starts nowhere is the first
   * match, and it declares `n`.
   */
  lemma HeadDeclares(s: string, n: nat, z: string)
    requires NoKey(s) && (z == [] || !IsDigit(z[0]))
    ensures Declared(s + "\r\n" + LengthHeader(n) + z) == Some(NatToString(n))
  {
    var x := s + "\r\n";
    var t := LengthHeader(n) + z;
    var r := x + LengthHeader(n) + z;
    HeaderMatch(x, n, z);
    assert r == s + "\r\n" + t;
    forall p | 0 <= p < |x| ensures LengthMatchAt(r, p).None? {
      AppendEarly(s, t, p);
    }
    FindLengthAt(r, 0, |x|);
  }

  /** "content-length:" starts nowhere in the status part. */
  lemma StatusNoKey(code: int, msg: string)
    requires ':' !in msg
    ensures NoKey(ErrorStatus(code, msg))
  {
    var s := ErrorStatus(code, msg);
    var off := |StatusLine(code, msg)|;
    StatusColon(code, msg);
    KeyFacts();
    forall p: nat | p + |LengthKey| <= |s| ensures !CiAt(s, p, LengthKey) {
      if p + 14 == off + 12 {
        assert LowerChar(s[p + 13]) != LengthKey[13];
      } else {
        assert LowerChar(s[p + 14]) != LengthKey[14];
      }
    }
  }

  lemma KeyFacts()
    ensures |LengthKey| == 15 && LengthKey[13] == 'h' && LengthKey[14] == ':'
  {
  }

  // ---------------------------------------------------------------------------
  // The request head

  const MaxHeader: nat := 32 * 1024
  const HostKey: string := "host:"
  const ProxyKey: string := "proxy-connection:"
  const ConnectionKey: string := "connection:"
  const Scheme: string := "http://"

  /** What `rawHeaders` holds once the given lines are read: each one followed by CRLF. */
  function Raw(lines: seq<string>): string {
    if lines == [] then "" else lines[0] + "\r\n" + Raw(lines[1..])
  }

  /** The header lines `run` reads: those before the first empty line or the end of the input. */
  function Block(rest: seq<string>): seq<string> {
    rest[..BlockEnd(rest)]
  }

  /** Reading one more line adds it and its CRLF at the end. */
  lemma {:induction false} RawSnoc(lines: seq<string>, l: string)
    ensures Raw(lines + [l]) == Raw(lines) + l + "\r\n"
  {
    if lines == [] {
      assert [] + [l] == [l];
    } else {
      assert (lines + [l])[1..] == lines[1..] + [l];
      RawSnoc(lines[1..], l);
    }
  }

  /** The raw text of a block is that of any of its prefixes, then that of the rest. */
  lemma {:induction false} RawSplit(lines: seq<string>, j: nat)
    requires j <= |lines|
    ensures Raw(lines) == Raw(lines[..j]) + Raw(lines[j..])
  {
    if j > 0 {
      RawSplit(lines[1..], j - 1);
      assert lines[..j][1..] == lines[1..][..j - 1];
      assert lines[1..][j - 1..] == lines[j..];
    } else {
      assert lines[j..] == lines;
    }
  }

  /** The size check sees a growing text: no prefix is longer than the whole block. */
  lemma RawPrefix(lines: seq<string>, j: nat)
    requires j <= |lines|
    ensures Utf16Length(Raw(lines[..j])) <= Utf16Length(Raw(lines))
  {
    RawSplit(lines, j);
    Utf16LengthAppend(Raw(lines[..j]), Raw(lines[j..]));
  }

  /** `sendRequest`'s framing is the raw text and one more CRLF. */
  lemma {:induction false} RawFramed(lines: seq<string>)
    ensures Framed(lines) == Raw(lines) + "\r\n"
  {
    if lines != [] {
      RawFramed(lines[1..]);
    }
  }

  // ---------------------------------------------------------------------------
  // handleHttp: the target

  /** The target as `handleHttp` resolves it: `host` is `null` until something sets it. */
  datatype Target = Target(host: Option<string>, port: int, path: string)

  /**
   * Where the authority of an absolute URL ends: at the first "/" after the
   * scheme, or at the end.
   */
  function AuthorityEnd(url: string): (e: nat)
    requires StartsWith(url, Scheme)
    ensures |Scheme| <= e <= |url|
  {
    var idx := IndexOfFrom(url, "/", |Scheme|);
    if idx == -1 then |url| else idx
  }

  /**
   * `host[:port]`, split at the first ":"; `port` is kept when there is no
   * ":", and a port that is not a number raises.
   */
  function SplitAuthority(authority: string, port: int, path: string): (r: Outcome<Target>)
    ensures r.Returns? ==> r.value.host.Some? && r.value.path == path
    ensures r.Returns? ==> ':' !in r.value.host.value && (r.value.port == port || IsInt32(r.value.port))
  {
    var c := IndexOf(authority, ":");
    if c == -1 then
      BeforeFirst(authority, |authority|, ':');
      Returns(Target(Some(authority), port, path))
    else
      match ParseInt(authority[c + 1..])
      case Throws => Throws
      case Returns(p) =>
        BeforeFirst(authority, c, ':');
        Returns(Target(Some(authority[..c]), p, path))
  }

  /** Nothing before the first occurrence of a character is that character. */
  lemma BeforeFirst(s: string, c: nat, x: char)
    requires c <= |s| && forall k: nat :: k < c ==> !OccursAt(s, k, [x])
    ensures x !in s[..c]
  {
    forall k | 0 <= k < c ensures s[k] != x {
      assert !OccursAt(s, k, [x]) && s[k..k + 1] == [s[k]];
    }
  }

  /**
   * The absolute form `http://authority[/path]`: the host and port come from
   * the authority, the path is the rest from its "/", or "/".  Any other
   * target is kept as the path, with no host and port 80.
   */
  function AbsoluteTarget(url: string): Outcome<Target> {
    if StartsWith(url, Scheme) then
      var e := AuthorityEnd(url);
      SplitAuthority(url[|Scheme|..e], 80, if e == |url| then "/" else url[e..])
    else Returns(Target(None, 80, url))
  }

  /** One `Host` header: its trimmed value, split like an authority. */
  function UseHostHeader(t: Target, h: string): Outcome<Target>
    requires |h| >= |HostKey|
  {
    SplitAuthority(Trim(h[|HostKey|..]), t.port, t.path)
  }

  /** The header loop: every `Host` header met while no host is set is used. */
  function HostFallback(t: Target, headers: seq<string>): Outcome<Target>
    decreases |headers|
  {
    if headers == [] then Returns(t)
    else if t.host.None? && StartsWithIgnoreCase(headers[0], HostKey) then
      match UseHostHeader(t, headers[0])
      case Throws => Throws
      case Returns(u) => HostFallback(u, headers[1..])
    else HostFallback(t, headers[1..])
  }

  /** What the socket constructor accepts; any other port raises `IllegalArgumentException`. */
  predicate ValidPort(p: int) {
    0 <= p <= 65535
  }

  // ---------------------------------------------------------------------------
  // handleHttp: the forwarded request

  /** What is sent for one header line: nothing, "Connection: close", or the line itself. */
  function ForwardedHeader(h: string): Option<string> {
    if StartsWithIgnoreCase(h, ProxyKey) then None
    else if StartsWithIgnoreCase(h, ConnectionKey) then Some(CloseLine)
    else Some(h)
  }

  /** The header lines sent on, in order. */
  function FilterHeaders(headers: seq<string>): seq<string>
  {
    if headers == [] then []
    else
      var last := headers[|headers| - 1];
      FilterHeaders(headers[..|headers| - 1]) +
        (match ForwardedHeader(last) case None => [] case Some(l) => [l])
  }

  /** The origin-form request line, without its line end. */
  function RequestLine(verb: string, path: string, version: string): string {
    verb + " " + path + " " + version
  }

  /** The text `handleHttp` writes to the target. */
  function RequestText(verb: string, path: string, version: string, headers: seq<string>): string {
    RequestLine(verb, path, version) + "\r\n" + Framed(FilterHeaders(headers))
  }

  // ---------------------------------------------------------------------------
  // One exchange

  /** How an exchange ends, and what it sent where. */
  datatype Exchange =
    | Silent                           // nothing is written: the request line is missing or an exception reached `run`
    | Refused(code: int, msg: string)  // `sendError(code, msg)`, and no connection is opened
    | Unreachable(upstream: Endpoint)  // the connection to the target failed: 504
    | Forwarded(upstream: Endpoint, sent: seq<byte>, reply: seq<byte>)

  /** The bytes the client receives. */
  function ClientBytes(e: Exchange): seq<byte> {
    match e
    case Silent => []
    case Refused(code, msg) => ErrorResponse(code, msg)
    case Unreachable(_) => ErrorResponse(504, "Gateway Timeout")
    case Forwarded(_, _, reply) => reply
  }

  /** What `streamCopy` writes for the target's response. */
  function Relayed(chunks: seq<Chunk>): seq<byte> {
    if chunks == [] then []
    else if IsHtml(ContentTypeOf(chunks[0])) then RewriteHtml(Flatten(chunks))
    else Flatten(chunks)
  }

  /** The target of a request: the absolute form, and the `Host` headers when it gave no host. */
  function Resolve(url: string, headers: seq<string>): Outcome<Target> {
    match AbsoluteTarget(url)
    case Throws => Throws
    case Returns(t) => HostFallback(t, headers)
  }

  /** `handleHttp`, once the connection's outcome is known. */
  function HttpExchange(requestLine: string, headers: seq<string>, response: Option<seq<Chunk>>): Exchange {
    var parts := Split(requestLine, " ");
    if |parts| < 3 then Refused(400, "Bad Request")
    else
      match Resolve(parts[1], headers)
      case Throws => Silent
      case Returns(t) =>
        if t.host.None? then Refused(400, "Host Required")
        else if !ValidPort(t.port) then Silent
        else
          var upstream := Endpoint(t.host.value, t.port);
          match response
          case None => Unreachable(upstream)
          case Some(chunks) =>
            Forwarded(upstream, Encode(RequestText(parts[0], t.path, parts[2], headers)), Relayed(chunks))
  }

  /** `run`: the client's lines, and the outcome of connecting to the target. */
  function Serve(input: seq<string>, response: Option<seq<Chunk>>): Exchange {
    if input == [] || input[0] == "" then Silent
    else
      var headers := Block(input[1..]);
      if Utf16Length(Raw(headers)) > MaxHeader then Refused(431, "Request Header Fields Too Large")
      else
        var parts := Split(input[0], " ");
        if parts == [] then Silent
        else if EqualsIgnoreCase(parts[0], "CONNECT") then Refused(403, "HTTPS requests are not allowed")
        else HttpExchange(input[0], headers, response)
  }

  /**
   * `run`: reads the request line, then header lines until an empty line or
   * the end, answering 431 as soon as the raw headers pass 32 KiB; rejects
   * CONNECT; hands anything else to `handleHttp`.
   */
  method Run(input: seq<string>, response: Option<seq<Chunk>>) returns (e: Exchange)
    ensures e == Serve(input, response)
  {
    if input == [] || input[0] == "" {
      return Silent;
    }
    var requestLine := input[0];
    var headerLines, tooLarge := ReadHeaders(input[1..]);
    if tooLarge {
      return Refused(431, "Request Header Fields Too Large");
    }
    var parts := Split(requestLine, " ");
    if parts == [] {
      return Silent;
    }
    if EqualsIgnoreCase(parts[0], "CONNECT") {
      return Refused(403, "HTTPS requests are not allowed");
    }
    e := HandleHttp(requestLine, headerLines, response);
  }

  /**
   * The header loop of `run`: it stops at the first line that takes the raw
   * headers past the limit, which happens exactly when the whole block would.
   */
  method ReadHeaders(rest: seq<string>) returns (headerLines: seq<string>, tooLarge: bool)
    ensures tooLarge <==> Utf16Length(Raw(Block(rest))) > MaxHeader
    ensures !tooLarge ==> headerLines == Block(rest)
  {
    var rawHeaders := "";
    headerLines := [];
    var i := 0;
    while i < |rest| && rest[i] != ""
      invariant i <= BlockEnd(rest)
      invariant headerLines == rest[..i] && rawHeaders == Raw(headerLines)
      invariant Utf16Length(rawHeaders) <= MaxHeader
    {
      RawSnoc(headerLines, rest[i]);
      rawHeaders := rawHeaders + rest[i] + "\r\n";
      headerLines := headerLines + [rest[i]];
      i := i + 1;
      assert headerLines == rest[..i];
      if Utf16Length(rawHeaders) > MaxHeader {
        RawPrefix(Block(rest), i);
        assert Block(rest)[..i] == headerLines;
        return headerLines, true;
      }
    }
    assert headerLines == Block(rest);
    tooLarge := false;
  }

  /**
   * `handleHttp`: resolves the target, sends the origin-form request and
   * the filtered headers, and relays the response.
   */
  method HandleHttp(requestLine: string, headers: seq<string>, response: Option<seq<Chunk>>) returns (e: Exchange)
    ensures e == HttpExchange(requestLine, headers, response)
  {
    var parts := Split(requestLine, " ");
    if |parts| < 3 {
      return Refused(400, "Bad Request");
    }
    var absolute := AbsoluteTarget(parts[1]);
    if absolute.Throws? {
      return Silent;
    }
    var target := ScanHostHeaders(absolute.value, headers);
    if target.Throws? {
      return Silent;
    }
    var t := target.value;
    if t.host.None? {
      return Refused(400, "Host Required");
    }
    if !ValidPort(t.port) {
      return Silent;
    }
    var upstream := Endpoint(t.host.value, t.port);
    if response.None? {
      return Unreachable(upstream);
    }
    var sent := WriteRequest(parts[0], t.path, parts[2], headers);
    var reply := StreamCopy(response.value);
    e := Forwarded(upstream, sent, reply);
  }

  /** The `Host` header loop of `handleHttp`. */
  method ScanHostHeaders(start: Target, headers: seq<string>) returns (r: Outcome<Target>)
    ensures r == HostFallback(start, headers)
  {
    var host, port, path := start.host, start.port, start.path;
    var i := 0;
    while i < |headers|
      invariant 0 <= i <= |headers|
      invariant HostFallback(start, headers) == HostFallback(Target(host, port, path), headers[i..])
    {
      var h := headers[i];
      assert headers[i..][0] == h && headers[i..][1..] == headers[i + 1..];
      if StartsWithIgnoreCase(h, HostKey) {
        if host == None {
          var u := UseHostHeader(Target(host, port, path), h);
          if u.Throws? {
            return Throws;
          }
          host, port := u.value.host, u.value.port;
        }
      }
      i := i + 1;
    }
    return Returns(Target(host, port, path));
  }

  /** The writes to the target: the request line, each filtered header, the blank line. */
  method WriteRequest(verb: string, path: string, version: string, headers: seq<string>) returns (out: seq<byte>)
    ensures out == Encode(RequestText(verb, path, version, headers))
  {
    var first := RequestLine(verb, path, version) + "\r\n";
    out := Encode(first);
    assert first + Raw(FilterHeaders(headers[..0])) == first;
    for i := 0 to |headers|
      invariant out == Encode(first + Raw(FilterHeaders(headers[..i])))
    {
      var h := headers[i];
      FilterSnoc(headers, i);
      if StartsWithIgnoreCase(h, ProxyKey) {
      } else if StartsWithIgnoreCase(h, ConnectionKey) {
        WriteStep(first, FilterHeaders(headers[..i]), CloseLine);
        out := out + Encode(CloseLine + "\r\n");
      } else {
        WriteStep(first, FilterHeaders(headers[..i]), h);
        out := out + Encode(h + "\r\n");
      }
    }
    assert headers[..|headers|] == headers;
    WriteEnd(first, FilterHeaders(headers));
    out := out + Encode("\r\n");
  }

  lemma WriteEnd(first: string, sent: seq<string>)
    ensures Encode(first + Raw(sent)) + Encode("\r\n") == Encode(first + Framed(sent))
  {
    RawFramed(sent);
    assert first + Framed(sent) == (first + Raw(sent)) + "\r\n";
    EncodeAppend(first + Raw(sent), "\r\n");
  }

  lemma WriteStep(first: string, sent: seq<string>, l: string)
    ensures Encode(first + Raw(sent + [l])) == Encode(first + Raw(sent)) + Encode(l + "\r\n")
  {
    RawSnoc(sent, l);
    assert first + Raw(sent + [l]) == (first + Raw(sent)) + (l + "\r\n");
    EncodeAppend(first + Raw(sent), l + "\r\n");
  }

  /** One more header line adds what `ForwardedHeader` sends for it. */
  lemma FilterSnoc(headers: seq<string>, i: nat)
    requires i < |headers|
    ensures ForwardedHeader(headers[i]).None? ==> FilterHeaders(headers[..i + 1]) == FilterHeaders(headers[..i])
    ensures ForwardedHeader(headers[i]).Some? ==>
      FilterHeaders(headers[..i + 1]) == FilterHeaders(headers[..i]) + [ForwardedHeader(headers[i]).value]
  {
    assert headers[..i + 1][..i] == headers[..i];
  }

  // ---------------------------------------------------------------------------
  // What the target receives

  lemma CloseLineIsConnection()
    ensures StartsWithIgnoreCase(CloseLine, ConnectionKey)
  {
    LowerPrefix(CloseLine, ConnectionKey);
  }

  lemma CloseLineNotProxy()
    ensures !StartsWithIgnoreCase(CloseLine, ProxyKey)
  {
    LowerMismatch(CloseLine, ProxyKey, 0);
  }

  lemma LowerPrefix(s: string, p: string)
    requires |p| <= |s| && forall i :: 0 <= i < |p| ==> LowerChar(s[i]) == p[i]
    ensures StartsWithIgnoreCase(s, p)
  {
    assert LowerAscii(s)[..|p|] == p;
  }

  lemma LowerMismatch(s: string, p: string, i: nat)
    requires i < |p| && i < |s| && LowerChar(s[i]) != p[i]
    ensures !StartsWithIgnoreCase(s, p)
  {
    if |p| <= |s| {
      assert LowerAscii(s)[..|p|][i] != p[i];
    }
  }

  /** The filter works line by line: filtering two runs of headers is filtering each. */
  lemma {:induction false} FilterAppend(a: seq<string>, b: seq<string>)
    ensures FilterHeaders(a + b) == FilterHeaders(a) + FilterHeaders(b)
    decreases |b|
  {
    if b == [] {
      assert a + b == a;
    } else {
      var b' := b[..|b| - 1];
      assert (a + b)[..|a + b| - 1] == a + b';
      assert (a + b)[|a + b| - 1] == b[|b| - 1];
      FilterAppend(a, b');
    }
  }

  /** A line the filter may send for `headers`. */
  predicate Sendable(l: string, headers: seq<string>) {
    l == CloseLine ||
    (l in headers && !StartsWithIgnoreCase(l, ProxyKey) && !StartsWithIgnoreCase(l, ConnectionKey))
  }

  /**
   * Every line sent on is "Connection: close" or a header of the request
   * that starts with neither "proxy-connection:" nor "connection:".
   */
  lemma {:induction false} FilterSafe(headers: seq<string>)
    ensures forall i :: 0 <= i < |FilterHeaders(headers)| ==> Sendable(FilterHeaders(headers)[i], headers)
    decreases |headers|
  {
    if headers != [] {
      var init, last := headers[..|headers| - 1], headers[|headers| - 1];
      FilterSafe(init);
      var f, g := FilterHeaders(headers), FilterHeaders(init);
      forall i | 0 <= i < |f| ensures Sendable(f[i], headers) {
        if i < |g| {
          assert f[i] == g[i];
          SendableGrows(g[i], init, headers);
        } else {
          assert f[i] == ForwardedHeader(last).value;
        }
      }
    }
  }

  lemma SendableGrows(l: string, init: seq<string>, headers: seq<string>)
    requires Sendable(l, init) && |init| < |headers| && init == headers[..|init|]
    ensures Sendable(l, headers)
  {
    if l != CloseLine {
      var k :| 0 <= k < |init| && init[k] == l;
      assert headers[k] == l;
    }
  }

  /**
   * No "proxy-connection:" line is ever sent on, and the only connection
   * header sent says "close".
   */
  lemma FilterDropsProxy(headers: seq<string>)
    ensures forall i :: 0 <= i < |FilterHeaders(headers)| ==>
      !StartsWithIgnoreCase(FilterHeaders(headers)[i], ProxyKey) &&
      (StartsWithIgnoreCase(FilterHeaders(headers)[i], ConnectionKey) ==> FilterHeaders(headers)[i] == CloseLine)
  {
    FilterSafe(headers);
    CloseLineNotProxy();
  }

  /** Headers that mention neither connection header are sent on exactly as they came. */
  lemma {:induction false} FilterQuiet(headers: seq<string>)
    requires forall i :: 0 <= i < |headers| ==>
      !StartsWithIgnoreCase(headers[i], ProxyKey) && !StartsWithIgnoreCase(headers[i], ConnectionKey)
    ensures FilterHeaders(headers) == headers
    decreases |headers|
  {
    if headers != [] {
      var init := headers[..|headers| - 1];
      FilterQuiet(init);
      assert init + [headers[|headers| - 1]] == headers;
    }
  }

  lemma {:induction false} FilterNoBreaks(headers: seq<string>)
    requires NoBreaks(headers)
    ensures NoBreaks(FilterHeaders(headers))
    decreases |headers|
  {
    assert NoBreak(CloseLine);
    if headers != [] {
      FilterNoBreaks(headers[..|headers| - 1]);
    }
  }

  /**
   * The target, reading the bytes it was sent line by line, gets the
   * origin-form request line, the filtered headers in order, and the blank
   * line that ends them.
   */
  lemma ForwardedReadBack(verb: string, path: string, version: string, headers: seq<string>)
    requires NoBreak(RequestLine(verb, path, version)) && NoBreaks(headers)
    ensures ReadLines(Decode(Encode(RequestText(verb, path, version, headers)))) ==
      [RequestLine(verb, path, version)] + FilterHeaders(headers) + [""]
  {
    var sent := FilterHeaders(headers);
    DecodeEncode(RequestText(verb, path, version, headers));
    FilterNoBreaks(headers);
    ReadLinesStep(RequestLine(verb, path, version), Framed(sent));
    ReadFramed(sent);
  }

  // ---------------------------------------------------------------------------
  // Target resolution

  /** A one-character search skips a run without that character and stops at the first one, or fails at the end. */
  lemma {:induction false} IndexOfFromAt(s: string, c: char, from: nat, to: nat)
    requires from <= to <= |s| && (to == |s| || s[to] == c)
    requires forall k :: from <= k < to ==> s[k] != c
    ensures IndexOfFrom(s, [c], from) == (if to == |s| then -1 else to)
    decreases |s| - from
  {
    if from < to {
      assert s[from..from + 1] == [s[from]];
      IndexOfFromAt(s, c, from + 1, to);
    } else if to < |s| {
      assert s[to..to + 1] == [c];
    }
  }

  /** The authority ends at the first "/" after the scheme: none lies before it, and one lies at it unless it is the end. */
  lemma AuthorityEndIsFirst(url: string)
    requires StartsWith(url, Scheme)
    ensures forall k :: |Scheme| <= k < AuthorityEnd(url) ==> url[k] != '/'
    ensures AuthorityEnd(url) < |url| ==> url[AuthorityEnd(url)] == '/'
  {
    var e := AuthorityEnd(url);
    forall k | |Scheme| <= k < e ensures url[k] != '/' {
      assert !OccursAt(url, k, "/");
      assert url[k..k + 1] == [url[k]];
    }
    if e < |url| {
      assert url[e..e + 1] == "/";
    }
  }

  /** The host of an authority has no ":" and is where the authority starts. */
  lemma SplitAuthorityHost(authority: string, port: int, path: string)
    requires SplitAuthority(authority, port, path).Returns?
    ensures var h := SplitAuthority(authority, port, path).value.host.value;
      ':' !in h && StartsWith(authority, h)
  {
    var c := IndexOf(authority, ":");
    var h := if c == -1 then authority else authority[..c];
    assert authority[..|h|] == h;
  }

  /** An authority without ":" is the host, and the port stays as it was. */
  lemma SplitAuthorityPlain(host: string, port: int, path: string)
    requires ':' !in host
    ensures SplitAuthority(host, port, path) == Returns(Target(Some(host), port, path))
  {
    AbsentCharNoOccurrence(host, ":", 0);
  }

  /** `host:n` gives the host and the port `n`. */
  lemma SplitAuthorityPort(host: string, n: int, port: int, path: string)
    requires ':' !in host && IsInt32(n)
    ensures SplitAuthority(host + ":" + IntToString(n), port, path) == Returns(Target(Some(host), n, path))
  {
    FirstColon(host, IntToString(n));
    ParseIntToString(n);
  }

  /** The absolute form yields a host without ":" or "/", and a path that starts with "/". */
  lemma AbsolutePath(url: string)
    requires StartsWith(url, Scheme) && AbsoluteTarget(url).Returns?
    ensures var t := AbsoluteTarget(url).value;
      t.host.Some? && ':' !in t.host.value && '/' !in t.host.value && t.path != [] && t.path[0] == '/'
  {
    var e := AuthorityEnd(url);
    var authority := url[|Scheme|..e];
    var path := if e == |url| then "/" else url[e..];
    AuthorityEndIsFirst(url);
    SplitAuthorityHost(authority, 80, path);
    var h := SplitAuthority(authority, 80, path).value.host.value;
    forall k | 0 <= k < |h| ensures h[k] != '/' {
      assert h[k] == authority[k] == url[|Scheme| + k];
    }
  }

  /** Where the authority of `http://host/...` ends, for a host without "/". */
  lemma AuthorityOf(authority: string, path: string)
    requires '/' !in authority && (path == [] || path[0] == '/')
    ensures var url := Scheme + authority + path;
      StartsWith(url, Scheme) && AuthorityEnd(url) == |Scheme| + |authority| &&
      url[|Scheme|..AuthorityEnd(url)] == authority && url[AuthorityEnd(url)..] == path
  {
    var url := Scheme + authority + path;
    assert url[..|Scheme|] == Scheme;
    forall k | |Scheme| <= k < |Scheme| + |authority| ensures url[k] != '/' {
      assert url[k] == authority[k - |Scheme|];
    }
    IndexOfFromAt(url, '/', |Scheme|, |Scheme| + |authority|);
    assert url[|Scheme|..|Scheme| + |authority|] == authority;
  }

  /** An absolute URL without a port is sent to port 80; its path, or "/" without one, is what the target is asked for. */
  lemma AbsoluteDefaultPort(host: string, path: string)
    requires ':' !in host && '/' !in host && (path == [] || path[0] == '/')
    ensures AbsoluteTarget(Scheme + host + path) == Returns(Target(Some(host), 80, if path == [] then "/" else path))
  {
    AuthorityOf(host, path);
    SplitAuthorityPlain(host, 80, if path == [] then "/" else path);
  }

  /** An absolute URL with a port is sent to that port. */
  lemma AbsoluteWithPort(host: string, port: int, path: string)
    requires ':' !in host && '/' !in host && (path == [] || path[0] == '/') && IsInt32(port)
    ensures AbsoluteTarget(Scheme + host + ":" + IntToString(port) + path) ==
      Returns(Target(Some(host), port, if path == [] then "/" else path))
  {
    var authority := host + ":" + IntToString(port);
    NumberShape(port);
    assert '/' !in authority;
    assert Scheme + host + ":" + IntToString(port) + path == Scheme + authority + path;
    AuthorityOf(authority, path);
    SplitAuthorityPort(host, port, 80, if path == [] then "/" else path);
  }

  /** The text of a number holds neither ":" nor "/". */
  lemma NumberShape(n: int)
    ensures ':' !in IntToString(n) && '/' !in IntToString(n)
  {
    IntToStringShape(n);
    var d := IntToString(n);
    forall i | 0 <= i < |d| ensures d[i] != '/' {
      if n < 0 {
        assert d == "-" + NatToString(-n);
        if i > 0 {
          assert d[i] == NatToString(-n)[i - 1];
        }
      }
    }
  }

  /** In `host:rest`, with no ":" in `host`, the first ":" is the one after the host. */
  lemma FirstColon(host: string, rest: string)
    requires ':' !in host
    ensures IndexOf(host + ":" + rest, ":") == |host| && (host + ":" + rest)[..|host|] == host &&
      (host + ":" + rest)[|host| + 1..] == rest
  {
    var v := host + ":" + rest;
    forall k | 0 <= k < |host| ensures v[k] != ':' {
      assert v[k] == host[k];
    }
    IndexOfFromAt(v, ':', 0, |host|);
  }

  /** Once a host is set, later `Host` headers change nothing: the absolute form wins. */
  lemma {:induction false} HostFallbackKeeps(t: Target, headers: seq<string>)
    requires t.host.Some?
    ensures HostFallback(t, headers) == Returns(t)
    decreases |headers|
  {
    if headers != [] {
      HostFallbackKeeps(t, headers[1..]);
    }
  }

  /** Without a `Host` header the target is what the request line gave. */
  lemma {:induction false} HostFallbackNone(t: Target, headers: seq<string>)
    requires forall i :: 0 <= i < |headers| ==> !StartsWithIgnoreCase(headers[i], HostKey)
    ensures HostFallback(t, headers) == Returns(t)
    decreases |headers|
  {
    if headers != [] {
      assert forall i :: 0 <= i < |headers[1..]| ==> headers[1..][i] == headers[i + 1];
      HostFallbackNone(t, headers[1..]);
    }
  }

  /** When the request line gave no host, the first `Host` header alone decides the target. */
  lemma {:induction false} HostFallbackFirst(t: Target, headers: seq<string>, j: nat)
    requires t.host.None? && j < |headers| && StartsWithIgnoreCase(headers[j], HostKey)
    requires forall i :: 0 <= i < j ==> !StartsWithIgnoreCase(headers[i], HostKey)
    ensures HostFallback(t, headers) == UseHostHeader(t, headers[j])
    decreases j
  {
    if j > 0 {
      assert headers[1..][j - 1] == headers[j];
      assert forall i :: 0 <= i < j - 1 ==> headers[1..][i] == headers[i + 1];
      HostFallbackFirst(t, headers[1..], j - 1);
    } else if UseHostHeader(t, headers[0]).Returns? {
      HostFallbackKeeps(UseHostHeader(t, headers[0]).value, headers[1..]);
    }
  }

  /** "Host: name" sets the host to `name` and keeps the port. */
  lemma HostHeaderPlain(t: Target, name: string)
    requires ':' !in name && name != [] && !IsSpace(name[0]) && !IsSpace(name[|name| - 1])
    ensures UseHostHeader(t, "Host: " + name) == Returns(Target(Some(name), t.port, t.path))
  {
    var h := "Host: " + name;
    assert h[|HostKey|..] == " " + name + "";
    TrimSurrounded(" ", name, "");
    SplitAuthorityPlain(name, t.port, t.path);
  }

  /** "Host: name:n" sets the host to `name` and the port to `n`. */
  lemma HostHeaderPort(t: Target, name: string, n: int)
    requires ':' !in name && name != [] && !IsSpace(name[0]) && IsInt32(n)
    ensures UseHostHeader(t, "Host: " + name + ":" + IntToString(n)) == Returns(Target(Some(name), n, t.path))
  {
    var d := IntToString(n);
    IntToStringShape(n);
    HostValue(name, d);
    TrimSurrounded(" ", name + ":" + d, "");
    SplitAuthorityPort(name, n, t.port, t.path);
  }

  /** The value after the key of "Host: " + a + ":" + d, and its first and last characters. */
  lemma HostValue(a: string, d: string)
    requires a != [] && d != []
    ensures ("Host: " + a + ":" + d)[|HostKey|..] == " " + (a + ":" + d) + ""
    ensures (a + ":" + d)[|a + ":" + d| - 1] == d[|d| - 1] && (a + ":" + d)[0] == a[0]
  {
    assert "Host: " + a + ":" + d == "Host:" + (" " + (a + ":" + d));
  }

  // ---------------------------------------------------------------------------
  // Whole exchanges

  /** The first space of `a + " " + t`, for `a` without one, is the one after `a`. */
  lemma PiecesAfter(a: string, t: string)
    requires ' ' !in a
    ensures IndexOf(a + " " + t, " ") == |a| && Pieces(a + " " + t, " ") == [a] + Pieces(t, " ")
  {
    var s := a + " " + t;
    forall k | 0 <= k < |a| ensures s[k] != ' ' {
      assert s[k] == a[k];
    }
    IndexOfFromAt(s, ' ', 0, |a|);
    assert s[..|a|] == a && s[|a| + 1..] == t;
  }

  lemma PiecesLast(a: string)
    requires ' ' !in a
    ensures IndexOf(a, " ") == -1 && Pieces(a, " ") == [a]
  {
    AbsentCharNoOccurrence(a, " ", 0);
  }

  /** A line of two words without spaces splits into those words. */
  lemma SplitTwo(a: string, c: string)
    requires ' ' !in a && ' ' !in c && c != []
    ensures Split(a + " " + c, " ") == [a, c]
  {
    PiecesAfter(a, c);
    PiecesLast(c);
  }

  /** One word followed by a space splits into that word alone: the empty piece after it is dropped. */
  lemma SplitTrailing(a: string)
    requires ' ' !in a && a != []
    ensures Split(a + " ", " ") == [a]
  {
    PiecesAfter(a, "");
    PiecesLast("");
    assert a + " " + "" == a + " ";
    assert DropTrailingEmpty([a, ""]) == DropTrailingEmpty([a]);
  }

  /** A line of three words without spaces splits into those words. */
  lemma SplitThree(a: string, b: string, c: string)
    requires ' ' !in a && ' ' !in b && ' ' !in c && c != []
    ensures Split(a + " " + b + " " + c, " ") == [a, b, c]
  {
    var s := a + " " + b + " " + c;
    assert s == a + " " + (b + " " + c);
    PiecesAfter(a, b + " " + c);
    PiecesAfter(b, c);
    PiecesLast(c);
    assert Pieces(s, " ") == [a, b, c];
    assert DropTrailingEmpty([a, b, c]) == [a, b, c];
  }

  /**
   * The lines a client sends: the request line, then the header lines `run`
   * reads (up to the first empty line or the end of the input) within the
   * limit, then anything after.
   */
  predicate Request(input: seq<string>, line: string, headers: seq<string>) {
    input != [] && input[0] == line && Block(input[1..]) == headers && Utf16Length(Raw(headers)) <= MaxHeader
  }

  /** A client that ends its header block with an empty line sends a `Request`. */
  lemma EndedByBlank(input: seq<string>, line: string, headers: seq<string>)
    requires |input| > |headers| + 1 && input[0] == line && input[1..|headers| + 1] == headers
    requires input[|headers| + 1] == ""
    requires forall i :: 0 <= i < |headers| ==> headers[i] != ""
    requires Utf16Length(Raw(headers)) <= MaxHeader
    ensures Request(input, line, headers)
  {
    var rest := input[|headers| + 1..];
    assert input[1..] == headers + rest;
    BlockOf(headers, rest);
  }

  /** A client that closes the connection right after its headers sends a `Request` too. */
  lemma EndedByClose(line: string, headers: seq<string>)
    requires forall i :: 0 <= i < |headers| ==> headers[i] != ""
    requires Utf16Length(Raw(headers)) <= MaxHeader
    ensures Request([line] + headers, line, headers)
  {
    assert ([line] + headers)[1..] == headers + [];
    BlockOf(headers, []);
  }

  /** The lines before an empty line or the end, when none of them is empty, are the header block. */
  lemma BlockOf(headers: seq<string>, rest: seq<string>)
    requires forall i :: 0 <= i < |headers| ==> headers[i] != ""
    requires rest == [] || rest[0] == ""
    ensures Block(headers + rest) == headers
  {
    var all := headers + rest;
    assert forall i :: 0 <= i < |headers| ==> all[i] == headers[i];
    assert |headers| < |all| ==> all[|headers|] == "";
    assert BlockEnd(all) == |headers|;
    assert all[..|headers|] == headers;
  }

  /** A request that is neither empty, oversized nor CONNECT is handled by `handleHttp`. */
  lemma ServeHttp(input: seq<string>, line: string, headers: seq<string>, response: Option<seq<Chunk>>)
    requires Request(input, line, headers) && line != []
    requires Split(line, " ") != [] && !EqualsIgnoreCase(Split(line, " ")[0], "CONNECT")
    ensures Serve(input, response) == HttpExchange(line, headers, response)
  {
  }

  /**
   * A request of at least three words whose target resolves to a host and a
   * valid port is sent there, and the client receives what `streamCopy`
   * makes of the response.
   */
  lemma ServeForwarded(input: seq<string>, line: string, headers: seq<string>, chunks: seq<Chunk>, t: Target)
    requires Request(input, line, headers) && line != []
    requires |Split(line, " ")| >= 3 && !EqualsIgnoreCase(Split(line, " ")[0], "CONNECT")
    requires Resolve(Split(line, " ")[1], headers) == Returns(t) && t.host.Some? && ValidPort(t.port)
    ensures var parts := Split(line, " ");
      Serve(input, Some(chunks)) ==
        Forwarded(Endpoint(t.host.value, t.port), Encode(RequestText(parts[0], t.path, parts[2], headers)), Relayed(chunks))
  {
    ServeHttp(input, line, headers, Some(chunks));
  }

  /**
   * A target that does not start with "http://" in lower case (a path, "*",
   * or "HTTP://host/") leaves the host to the `Host` headers, with the whole
   * target as the path.
   */
  lemma OriginResolve(path: string, headers: seq<string>)
    requires !StartsWith(path, Scheme)
    ensures Resolve(path, headers) == HostFallback(Target(None, 80, path), headers)
  {
  }

  /**
   * A CONNECT request, in any case, never reaches a target, whatever the
   * connection would have done: it is refused with 403 when its header
   * block fits the limit, and with 431 when it does not.
   */
  lemma ConnectRefused(input: seq<string>, response: Option<seq<Chunk>>)
    requires input != [] && Split(input[0], " ") != [] && EqualsIgnoreCase(Split(input[0], " ")[0], "CONNECT")
    ensures Utf16Length(Raw(Block(input[1..]))) <= MaxHeader ==>
      Serve(input, response) == Refused(403, "HTTPS requests are not allowed")
    ensures Utf16Length(Raw(Block(input[1..]))) > MaxHeader ==>
      Serve(input, response) == Refused(431, "Request Header Fields Too Large")
  {
    if input[0] == "" {
      PiecesLast("");
    }
  }

  /**
   * A request line that `split(" ")` cuts into fewer than three words, such as
   * "GET", "GET /" or "GET / " (whose trailing empty piece is dropped), is
   * refused with 400 "Bad Request", and no connection is opened.
   */
  lemma ShortRequestRefused(input: seq<string>, line: string, headers: seq<string>, response: Option<seq<Chunk>>)
    requires Request(input, line, headers) && line != []
    requires Split(line, " ") != [] && |Split(line, " ")| < 3 && !EqualsIgnoreCase(Split(line, " ")[0], "CONNECT")
    ensures Serve(input, response) == Refused(400, "Bad Request")
  {
    ServeHttp(input, line, headers, response);
  }

  /** In particular a line of two words without spaces, and one word followed by a space. */
  lemma TwoWordsRefused(input: seq<string>, verb: string, target: string, headers: seq<string>,
                        response: Option<seq<Chunk>>)
    requires ' ' !in verb && ' ' !in target && target != [] && verb != [] && !EqualsIgnoreCase(verb, "CONNECT")
    ensures Request(input, verb + " " + target, headers) ==> Serve(input, response) == Refused(400, "Bad Request")
    ensures Request(input, verb + " ", headers) ==> Serve(input, response) == Refused(400, "Bad Request")
  {
    SplitTwo(verb, target);
    if Request(input, verb + " " + target, headers) {
      ShortRequestRefused(input, verb + " " + target, headers, response);
    }
    SplitTrailing(verb);
    if Request(input, verb + " ", headers) {
      ShortRequestRefused(input, verb + " ", headers, response);
    }
  }

  /**
   * An absolute-form request is sent to the URL's host on port 80, in origin
   * form with the filtered headers, and the client receives what
   * `streamCopy` makes of the response; the `Host` headers play no part.
   */
  lemma AbsoluteRequestForwarded(input: seq<string>, verb: string, host: string, path: string, version: string,
                                 headers: seq<string>, chunks: seq<Chunk>)
    requires ' ' !in verb && ' ' !in host && ' ' !in path && ' ' !in version && version != []
    requires ':' !in host && '/' !in host && (path == [] || path[0] == '/') && !EqualsIgnoreCase(verb, "CONNECT")
    requires Request(input, RequestLine(verb, Scheme + host + path, version), headers)
    ensures var p := if path == [] then "/" else path;
      Serve(input, Some(chunks)) ==
        Forwarded(Endpoint(host, 80), Encode(RequestText(verb, p, version, headers)), Relayed(chunks))
  {
    var url := Scheme + host + path;
    var line := RequestLine(verb, url, version);
    var t := Target(Some(host), 80, if path == [] then "/" else path);
    assert ' ' !in Scheme + host + path;
    SplitThree(verb, url, version);
    AbsoluteDefaultPort(host, path);
    HostFallbackKeeps(t, headers);
    ServeForwarded(input, line, headers, chunks, t);
  }

  /**
   * An origin-form request is sent to the host its first `Host` header
   * names, on port 80, with its path unchanged.
   */
  lemma HostRequestForwarded(input: seq<string>, verb: string, path: string, version: string,
                             headers: seq<string>, j: nat, name: string, chunks: seq<Chunk>)
    requires ' ' !in verb && ' ' !in path && ' ' !in version && version != [] && !StartsWith(path, Scheme)
    requires !EqualsIgnoreCase(verb, "CONNECT")
    requires Request(input, RequestLine(verb, path, version), headers)
    requires j < |headers| && headers[j] == "Host: " + name
    requires ':' !in name && name != [] && !IsSpace(name[0]) && !IsSpace(name[|name| - 1])
    requires forall i :: 0 <= i < j ==> !StartsWithIgnoreCase(headers[i], HostKey)
    ensures Serve(input, Some(chunks)) ==
      Forwarded(Endpoint(name, 80), Encode(RequestText(verb, path, version, headers)), Relayed(chunks))
  {
    var line := RequestLine(verb, path, version);
    SplitThree(verb, path, version);
    OriginResolve(path, headers);
    HostIsHostKey(name);
    HostFallbackFirst(Target(None, 80, path), headers, j);
    HostHeaderPlain(Target(None, 80, path), name);
    ServeForwarded(input, line, headers, chunks, Target(Some(name), 80, path));
  }

  lemma HostIsHostKey(name: string)
    ensures StartsWithIgnoreCase("Host: " + name, HostKey)
  {
    LowerPrefix("Host: " + name, HostKey);
  }

  /** An origin-form request without a `Host` header is refused with 400 "Host Required". */
  lemma HostRequired(input: seq<string>, verb: string, path: string, version: string,
                     headers: seq<string>, response: Option<seq<Chunk>>)
    requires ' ' !in verb && ' ' !in path && ' ' !in version && version != [] && !StartsWith(path, Scheme)
    requires !EqualsIgnoreCase(verb, "CONNECT")
    requires Request(input, RequestLine(verb, path, version), headers)
    requires forall i :: 0 <= i < |headers| ==> !StartsWithIgnoreCase(headers[i], HostKey)
    ensures Serve(input, response) == Refused(400, "Host Required")
  {
    var line := RequestLine(verb, path, version);
    SplitThree(verb, path, version);
    ServeHttp(input, line, headers, response);
    OriginResolve(path, headers);
    HostFallbackNone(Target(None, 80, path), headers);
  }

  /**
   * Once the header lines read so far pass 32 KiB, the request is refused
   * with 431 whatever it is and whatever lines follow.
   */
  lemma OversizedRefused(input: seq<string>, j: nat, response: Option<seq<Chunk>>)
    requires input != [] && input[0] != ""
    requires j <= BlockEnd(input[1..]) && Utf16Length(Raw(input[1..][..j])) > MaxHeader
    ensures Serve(input, response) == Refused(431, "Request Header Fields Too Large")
  {
    var rest := input[1..];
    assert Block(rest)[..j] == rest[..j];
    RawPrefix(Block(rest), j);
  }

  /** A target that cannot be reached is reported to the client as 504 "Gateway Timeout". */
  lemma GatewayTimeout(line: string, headers: seq<string>, t: Target)
    requires |Split(line, " ")| >= 3 && Resolve(Split(line, " ")[1], headers) == Returns(t)
    requires t.host.Some? && ValidPort(t.port)
    ensures HttpExchange(line, headers, None) == Unreachable(Endpoint(t.host.value, t.port))
    ensures ClientBytes(HttpExchange(line, headers, None)) == ErrorResponse(504, "Gateway Timeout")
  {
  }

  // ---------------------------------------------------------------------------
  // handleConnect: the tunnel's target

  /**
   * The target `handleConnect` would open a tunnel to: the second word of the
   * request line, split at its first ":", with port 443 by default.  `None`
   * stands for its 400 "Bad CONNECT" answer to a line of fewer than two words.
   */
  function ConnectTarget(requestLine: string): (r: Outcome<Option<Endpoint>>)
    ensures r == Returns(None) <==> |Split(requestLine, " ")| < 2
    ensures r.Returns? && r.value.Some? ==> ':' !in r.value.value.host && IsInt32(r.value.value.port)
  {
    var parts := Split(requestLine, " ");
    if |parts| < 2 then Returns(None)
    else
      match SplitAuthority(parts[1], 443, "")
      case Throws => Throws
      case Returns(t) => Returns(Some(Endpoint(t.host.value, t.port)))
  }

  /** A line without a space, such as a bare "CONNECT", is answered with 400 "Bad CONNECT". */
  lemma ConnectOneWord(line: string)
    requires ' ' !in line
    ensures ConnectTarget(line) == Returns(None)
  {
    PiecesLast(line);
  }

  /** A three-word CONNECT line names its second word as the tunnel's authority. */
  lemma ConnectWords(verb: string, hostPort: string, version: string)
    requires ' ' !in verb && ' ' !in hostPort && ' ' !in version && version != []
    ensures ConnectTarget(verb + " " + hostPort + " " + version) ==
      match SplitAuthority(hostPort, 443, "")
      case Throws => Throws
      case Returns(t) => Returns(Some(Endpoint(t.host.value, t.port)))
  {
    SplitThree(verb, hostPort, version);
  }

  /** `CONNECT host version` opens a tunnel to `host` on port 443. */
  lemma ConnectDefaultPort(verb: string, host: string, version: string)
    requires ' ' !in verb && ' ' !in host && ':' !in host && ' ' !in version && version != []
    ensures ConnectTarget(verb + " " + host + " " + version) == Returns(Some(Endpoint(host, 443)))
  {
    ConnectWords(verb, host, version);
    SplitAuthorityPlain(host, 443, "");
  }

  /** `CONNECT host:n version` opens a tunnel to `host` on port `n`. */
  lemma ConnectWithPort(verb: string, host: string, n: int, version: string)
    requires ' ' !in verb && ' ' !in host && ':' !in host && ' ' !in version && version != [] && IsInt32(n)
    ensures ConnectTarget(verb + " " + host + ":" + IntToString(n) + " " + version) == Returns(Some(Endpoint(host, n)))
  {
    var hostPort := host + ":" + IntToString(n);
    NumberSpaces(n);
    assert ' ' !in hostPort;
    assert verb + " " + host + ":" + IntToString(n) == verb + " " + hostPort;
    ConnectWords(verb, hostPort, version);
    SplitAuthorityPort(host, n, 443, "");
  }

  lemma NumberSpaces(n: int)
    ensures ' ' !in IntToString(n)
  {
    IntToStringShape(n);
    var d := IntToString(n);
    forall i | 0 <= i < |d| ensures d[i] != ' ' {
      if n < 0 {
        assert d == "-" + NatToString(-n);
        if i > 0 {
          assert d[i] == NatToString(-n)[i - 1];
        }
      }
    }
  }
}
