/**
 * `streamCopy`: the server's response is copied to the client.  The first
 * chunk decides what happens: when its header block names a `text/html`
 * content type, the whole response is read, its body rewritten (with the
 * protected img tags kept) and its length header updated; otherwise every
 * byte is passed on as it came.
 */
module Streamer {
  import opened Base
  import opened Utf8
  import opened JString
  import opened Streams
  import opened ImgProtect
  import opened HtmlRewrite
  import opened LengthPatch

  const HeaderEnd: string := "\r\n\r\n"
  const TypeKey: string := "content-type:"

  /** The value of the first header line that starts with "content-type:", ignoring ASCII case. */
  function FirstContentType(lines: seq<string>): (r: Option<string>)
    ensures r.Some? ==> exists j :: 0 <= j < |lines| && StartsWithIgnoreCase(lines[j], TypeKey)
  {
    if lines == [] then None
    else if StartsWithIgnoreCase(lines[0], TypeKey) then Some(Trim(lines[0][|TypeKey|..]))
    else FirstContentType(lines[1..])
  }

  /**
   * The content type the first chunk announces: only a chunk that starts
   * with "HTTP/" and holds the whole header block is looked at.
   */
  function ContentTypeOf(first: seq<byte>): Option<string> {
    var line := Decode(first);
    if StartsWith(line, "HTTP/") then
      var k := IndexOf(line, HeaderEnd);
      if k != -1 then FirstContentType(Split(line[..k], "\r\n")) else None
    else None
  }

  predicate IsHtml(contentType: Option<string>) {
    contentType.Some? && Contains(contentType.value, "text/html")
  }

  /** The bytes written for a whole HTML response. */
  function RewriteHtml(all: seq<byte>): seq<byte> {
    var response := Decode(all);
    var k := IndexOf(response, HeaderEnd);
    if k == -1 then Encode(response)
    else Reframe(response[..k], ProtectedRewrite(response[k + |HeaderEnd|..]))
  }

  /** The two writes for a rewritten body: the patched header block and its end, then the body. */
  function Reframe(headers: string, body: string): seq<byte> {
    Encode(PatchLength(headers, |Encode(body)|) + HeaderEnd) + Encode(body)
  }

  /** The header loop: the first content-type line, its value trimmed. */
  method FindContentType(lines: seq<string>) returns (contentType: Option<string>)
    ensures contentType == FirstContentType(lines)
  {
    contentType := None;
    var i := 0;
    while i < |lines|
      invariant 0 <= i <= |lines|
      invariant FirstContentType(lines) == FirstContentType(lines[i..])
    {
      if StartsWithIgnoreCase(lines[i], TypeKey) {
        contentType := Some(Trim(lines[i][|TypeKey|..]));
        return;
      }
      assert lines[i..][1..] == lines[i + 1..];
      i := i + 1;
    }
  }

  /** Reading the rest of the stream after `first` into one buffer. */
  method ReadAll(chunks: seq<Chunk>) returns (all: seq<byte>)
    requires chunks != []
    ensures all == Flatten(chunks)
  {
    all := chunks[0];
    var i := 1;
    FlattenSingle(chunks[0]);
    assert chunks[..1] == [chunks[0]];
    while i < |chunks|
      invariant 1 <= i <= |chunks|
      invariant all == Flatten(chunks[..i])
    {
      FlattenAppend(chunks[..i], [chunks[i]]);
      FlattenSingle(chunks[i]);
      assert chunks[..i + 1] == chunks[..i] + [chunks[i]];
      all := all + chunks[i];
      i := i + 1;
    }
    assert chunks[..i] == chunks;
  }

  /** The handler's body rewrite: mask, the four rules, restore. */
  method RewriteBody(body: string) returns (result: string)
    ensures result == ProtectedRewrite(body)
  {
    var masked, snippets := MaskImages(body);
    result := RestoreImages(RewriteText(masked), snippets);
  }

  method StreamCopy(chunks: seq<Chunk>) returns (out: seq<byte>)
    ensures chunks == [] ==> out == []
    ensures chunks != [] && !IsHtml(ContentTypeOf(chunks[0])) ==> out == Flatten(chunks)
    ensures chunks != [] && IsHtml(ContentTypeOf(chunks[0])) ==> out == RewriteHtml(Flatten(chunks))
  {
    if chunks == [] {
      return [];
    }
    var first := chunks[0];
    var contentType: Option<string> := None;
    var line := Decode(first);
    if StartsWith(line, "HTTP/") {
      var k := IndexOf(line, HeaderEnd);
      if k != -1 {
        contentType := FindContentType(Split(line[..k], "\r\n"));
      }
    }
    assert contentType == ContentTypeOf(first);
    if contentType.Some? && Contains(contentType.value, "text/html") {
      var all := ReadAll(chunks);
      var response := Decode(all);
      var k := IndexOf(response, HeaderEnd);
      if k == -1 {
        out := Encode(response);
        return;
      }
      var headers := response[..k];
      var body := RewriteBody(response[k + |HeaderEnd|..]);
      var n := |Encode(body)|;
      headers := PatchLength(headers, n);
      out := Encode(headers + HeaderEnd);
      out := out + Encode(body);
    } else {
      out := ReadAll(chunks);
    }
  }

  // ---------------------------------------------------------------------------
  // What the client receives

  /** `FirstContentType` takes the first matching line, and finds none when no line matches. */
  lemma {:induction false} FirstContentTypeIsFirst(lines: seq<string>)
    ensures forall j :: (0 <= j < |lines| && StartsWithIgnoreCase(lines[j], TypeKey) &&
      forall i :: 0 <= i < j ==> !StartsWithIgnoreCase(lines[i], TypeKey)) ==>
      FirstContentType(lines) == Some(Trim(lines[j][|TypeKey|..]))
    ensures (forall j :: 0 <= j < |lines| ==> !StartsWithIgnoreCase(lines[j], TypeKey)) ==>
      FirstContentType(lines) == None
  {
    if lines != [] {
      FirstContentTypeIsFirst(lines[1..]);
      forall j | 1 <= j < |lines| ensures lines[1..][j - 1] == lines[j] { }
    }
  }

  /**
   * A valid UTF-8 response that announces `text/html` but whose bytes hold
   * no header end is passed on unchanged.
   */
  lemma HeaderlessHtmlUnchanged(text: string)
    requires IndexOf(text, HeaderEnd) == -1
    ensures RewriteHtml(Encode(text)) == Encode(text)
  {
    DecodeEncode(text);
  }

  /**
   * The HTML response the client receives: its text is the patched header
   * block, the header end, and the rewritten body.  Every match of the
   * Content-Length pattern in that header block declares exactly the number
   * of body bytes that follow the header end, and there is such a match
   * unless the server's own headers mention "content-length:" with no
   * number after it.
   */
  lemma HtmlResponseFramed(h: string, body: string)
    ensures var headers := PatchLength(h, |Encode(body)|);
      var out := Reframe(h, body);
      var length := NatToString(|out| - |Encode(headers + HeaderEnd)|);
      Decode(out) == headers + HeaderEnd + body &&
      out[|Encode(headers + HeaderEnd)|..] == Encode(body) &&
      (forall p: nat :: DeclaredAt(headers, p).Some? ==> DeclaredAt(headers, p) == Some(length)) &&
      (FindLength(h, 0).Some? || !Contains(LowerAscii(h), LengthKey) ==> Declared(headers) == Some(length))
  {
    var headers := PatchLength(h, |Encode(body)|);
    EncodeAppend(headers + HeaderEnd, body);
    DecodeEncode(headers + HeaderEnd + body);
    PatchDeclares(h, |Encode(body)|);
  }

  /**
   * For an HTML body that never holds `PROTECTED_IMG_`, the client receives every
   * protected img tag of the server's body unchanged, in place, with the
   * text between the tags rewritten.
   */
  lemma HtmlBodyKeepsTags(all: seq<byte>)
    requires IndexOf(Decode(all), HeaderEnd) != -1
    requires var response := Decode(all); NoOccurrence(response[IndexOf(response, HeaderEnd) + |HeaderEnd|..], Core)
    ensures var response := Decode(all);
      var original := response[IndexOf(response, HeaderEnd) + |HeaderEnd|..];
      var d := Decompose(original, 0);
      original == Interleave(d.gaps, d.snippets) &&
      ProtectedRewrite(original) == Interleave(RewriteGaps(d.gaps), d.snippets)
  {
    var response := Decode(all);
    ProtectedRewriteKeepsTags(response[IndexOf(response, HeaderEnd) + |HeaderEnd|..]);
  }
}
