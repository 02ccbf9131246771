# A verified model of a rewriting HTTP proxy

This project models the text and framing logic of a small Java forward HTTP
proxy. The sockets, threads and logging around that logic are not modelled.
The proxy does the following:

- It reads a client's request line and header block. It refuses:
  - oversized header blocks, with 431;
  - `CONNECT`, with 403;
  - short request lines, with 400;
  - requests without a host, with 400.
- It rewrites every other request to origin form, filters its connection headers and sends it to the target.
- It copies the target's response back. For `text/html` it also:
  - rewrites the body ("Stockholm" becomes "Linköping", "Smiley" becomes "Trolly", and two image URLs point at the troll picture);
  - keeps every `<img … src="…Stockholm…" …>` tag untouched;
  - fixes up the `Content-Length` header.
- A second, line-based proxy (`ClientSideProxy` with `ContentModifier`) reads header blocks, scans them, rewrites words in them and patches their `Content-Length` lines.

The modules follow the source:

| module | models |
|---|---|
| `Base` | `Option`, `Outcome` (a Java value, or an exception that propagates), 32-bit `int` wrap-around |
| `Utf8` | `String.getBytes` and `new String(bytes, UTF_8)` as `Encode`/`Decode`, with the round trip; `length()` in UTF-16 units |
| `JString` | the `java.lang.String` operations used: `indexOf`, `replace`, `split` (trailing empty strings dropped), `trim`, `toLowerCase` on ASCII, `Integer.parseInt` / `toString` |
| `Streams` | an `InputStream` as the sequence of chunks its `read` calls return |
| `ContentModifier` | `handleText`, `getAlteredContentLength`, `isStockholm`, `modifyContentLength`, `getContentLength` |
| `ClientSideProxy` | `getHeaders`, `contentLength`, `isChunked`, `getBody`, `sendRequest`, the host choice of `getSocketFromRequest` |
| `ImgMatch`, `ImgLanguage` | the img pattern of `streamCopy` as a backtracking search, proved to find exactly the words of the pattern's language |
| `ImgProtect` | masking the img tags with `__PROTECTED_IMG_i__` markers and putting them back |
| `HtmlRewrite` | the four replacements and the protected rewrite of an HTML body |
| `LengthPatch` | the `Content-Length` `replaceAll` / append of `streamCopy` |
| `Streamer` | `streamCopy`: content-type detection, pass-through, buffered HTML rewrite |
| `ProxyServer` | `ClientHandler.run`, `handleHttp`, the parse of `handleConnect`, `sendError` |

How the environment is modelled:

- A `BufferedReader` is the sequence of lines its `readLine` returns before `null`.
- An `InputStream` is the sequence of non-empty chunks its `read` returns before `-1`.
- An `OutputStream` is the byte sequence written to it.
- The connection to the target is a parameter. `None` stands for an `IOException`, which leads to 504. Otherwise the parameter holds the chunks the target sends back.
- An exception that reaches `run`'s `catch` is the `Silent` outcome: nothing is written to the client.
  - This covers `NumberFormatException` from a bad port.
  - It also covers the `IllegalArgumentException` that `new Socket` raises for a port outside 0..65535, which is modelled by `ValidPort`.
- The methods with loops (`Run`, `ReadHeaders`, `ScanHostHeaders`, `WriteRequest`, `StreamCopy`, `MaskImages`, `RestoreImages`, `GetHeaders`, `GetBody`, `SendRequest`, `HandleText`, `ModifyContentLength`, …) mirror the source's loops. Each is proved equal to a specification function, and the properties are proved about those functions.
- `HandleText` and `ModifyContentLength` update an `array<string>` in place, as the source updates its list. `GetBody` fills a `byte` array.

Behaviour of the code that the proofs make explicit:

- `getAlteredContentLength` adds 2 per "Stockholm". `RewriteLineBytes` shows that the UTF-8 length of a rewritten line grows by 1 per "Stockholm" of the original line (`TrollyKeepsCount` shows the "Smiley" rewrite before it changes no such count).
- The `streamCopy` length patch leaves the headers unchanged when they mention "content-length:" with no digits after it (`PatchDeclares`).
- `handleConnect` is never reached: `run` answers every `CONNECT` with 403 first. Only its parse of the target is modelled (`ConnectTarget`).
- Host and port are split at the first `:`, as the code does, so an IPv6 literal is not parsed as one.

## Model

| member | source | states |
|---|---|---|
| ProxyServer.ErrorFramed | src/ProxyServer.java:274-282 | the error response is the UTF-8 header block followed by the page bytes; the head starts with the status line `HTTP/1.1 code msg`, ends with `Connection: close` and a blank line, and (for a message without ':') its first Content-Length header declares exactly the number of bytes after the head |
| ProxyServer.ErrorDeclares | src/ProxyServer.java:276-279 | the first Content-Length header of the error head, found the way the length patch finds it, declares the page's byte count |
| ProxyServer.Run | src/ProxyServer.java:81-118 | the outcome of the handler loop is `Serve`: silent without a request line, 431 for an oversized header block, 403 for CONNECT in any case, otherwise `handleHttp` |
| ProxyServer.ReadHeaders | src/ProxyServer.java:91-102 | the loop reports the overflow exactly when the raw text (each line plus CRLF, in UTF-16 units) of the lines before the first empty line passes 32 KiB, and otherwise returns exactly those lines |
| ProxyServer.RawPrefix | src/ProxyServer.java:96-98 | the raw text only grows while reading, so the cap checked after each line is passed early exactly when it is passed at the end |
| ProxyServer.OversizedRefused | src/ProxyServer.java:95-101 | once the header lines read so far exceed 32 KiB, the answer is 431 whatever the request and whatever follows |
| ProxyServer.ConnectRefused | src/ProxyServer.java:91-108 | a request whose first word is CONNECT (any case) is answered with 403 "HTTPS requests are not allowed" when its header block fits 32 KiB, and with 431 when it does not; it never reaches a target |
| ProxyServer.HandleHttp | src/ProxyServer.java:189-254 | the method's outcome is `HttpExchange`: 400 "Bad Request", target resolution, 400 "Host Required", connection, 504, forwarding and relaying |
| ProxyServer.ShortRequestRefused | src/ProxyServer.java:191-192 | a request line whose first word is not CONNECT, that `split(" ")` cuts into one or two words (trailing empty pieces dropped), and whose header block fits 32 KiB gets 400 "Bad Request" and no connection; a larger block gets 431 (`OversizedRefused`) |
| ProxyServer.TwoWordsRefused | src/ProxyServer.java:191-192 | instances: `verb target` and `verb ` (the trailing empty piece dropped) both get 400 |
| ProxyServer.SplitTrailing | src/ProxyServer.java:191 | `split(" ")` of one word followed by a space is that word alone |
| ProxyServer.EndedByBlank | src/ProxyServer.java:91-102 | a request whose headers end with an empty line has exactly those headers as its block |
| ProxyServer.EndedByClose | src/ProxyServer.java:91-102 | so does a request whose client closes right after its headers (`readLine()` gives null) |
| ProxyServer.AuthorityEndIsFirst | src/ProxyServer.java:201-202 | the authority of an absolute URL ends at the first '/' after "http://", or at the end |
| ProxyServer.SplitAuthorityHost | src/ProxyServer.java:203-207 | the host is the authority's prefix before its first ':' and holds no ':' |
| ProxyServer.SplitAuthorityPlain | src/ProxyServer.java:203-207 | an authority without ':' is the host and keeps the default port |
| ProxyServer.SplitAuthorityPort | src/ProxyServer.java:203-206 | `host:n` yields host and port n (round trip through `Integer.toString`/`parseInt`) |
| ProxyServer.AbsolutePath | src/ProxyServer.java:200-209 | every absolute-form URL that parses yields a host without ':' or '/' and a path starting with '/' |
| ProxyServer.AbsoluteDefaultPort | src/ProxyServer.java:196-209 | `http://host/path` resolves to host, port 80 and the path, or "/" when there is no path |
| ProxyServer.AbsoluteWithPort | src/ProxyServer.java:200-209 | `http://host:n/path` resolves to host, port n and the path |
| ProxyServer.ScanHostHeaders | src/ProxyServer.java:211-222 | the header loop computes `HostFallback` |
| ProxyServer.HostFallbackKeeps | src/ProxyServer.java:211-213 | a host set by the absolute form is never replaced by a Host header |
| ProxyServer.HostFallbackNone | src/ProxyServer.java:211-222 | without a `host:` header (ASCII case-insensitive) the target is unchanged |
| ProxyServer.HostFallbackFirst | src/ProxyServer.java:211-222 | otherwise the first `host:` header alone decides the target; later ones are ignored |
| ProxyServer.HostHeaderPlain | src/ProxyServer.java:214-219 | `Host: name` gives the trimmed name and keeps the port |
| ProxyServer.HostHeaderPort | src/ProxyServer.java:214-219 | `Host: name:n` gives name and port n |
| ProxyServer.OriginResolve | src/ProxyServer.java:196-222 | any target not starting with lower-case "http://" (a path, "*", "HTTP://…") is kept whole as the path and leaves host and port to the Host headers, starting from port 80 |
| ProxyServer.HostRequired | src/ProxyServer.java:223 | a request whose target does not start with lower-case "http://" and that has no Host header gets 400 "Host Required" |
| ProxyServer.GatewayTimeout | src/ProxyServer.java:226-253 | a target that cannot be connected to gives the client a 504 "Gateway Timeout" page |
| ProxyServer.WriteRequest | src/ProxyServer.java:232-245 | the bytes written upstream are the UTF-8 encoding of the origin-form request line, the filtered headers each with CRLF, and a final CRLF |
| ProxyServer.FilterAppend | src/ProxyServer.java:235-244 | the header filter treats every line on its own and keeps their order |
| ProxyServer.FilterSafe | src/ProxyServer.java:235-244 | every forwarded header is "Connection: close" or an original header that starts with neither `proxy-connection:` nor `connection:` |
| ProxyServer.FilterDropsProxy | src/ProxyServer.java:236-240 | no `proxy-connection:` line is forwarded, and every forwarded connection header is exactly "Connection: close" |
| ProxyServer.FilterQuiet | src/ProxyServer.java:241-243 | headers that are neither connection header are forwarded unchanged and in order |
| ProxyServer.ForwardedReadBack | src/ProxyServer.java:232-245 | the target, reading lines from the bytes it receives, gets the request line, the filtered headers and a blank line |
| ProxyServer.ServeForwarded | src/ProxyServer.java:189-250 | a request of three or more words whose first word is not CONNECT, whose header block fits 32 KiB, and whose target resolves to a host and a port in 0..65535 is sent there in origin form with the filtered headers, and the client gets `streamCopy`'s output |
| ProxyServer.AbsoluteRequestForwarded | src/ProxyServer.java:189-250 | a whole absolute-form exchange: sent to the URL's host on port 80, in origin form with filtered headers, and the client gets `streamCopy`'s output |
| ProxyServer.HostRequestForwarded | src/ProxyServer.java:189-250 | a whole origin-form exchange: sent to the host named by the first Host header, on port 80, path unchanged |
| ProxyServer.ConnectTarget | src/ProxyServer.java:140-152 | the CONNECT parse answers 400 "Bad CONNECT" exactly when the line splits into fewer than two words; a target it returns has a host without ':' and a 32-bit port |
| ProxyServer.ConnectOneWord | src/ProxyServer.java:140-144 | a CONNECT line of one word gets 400 "Bad CONNECT" |
| ProxyServer.ConnectDefaultPort | src/ProxyServer.java:145-152 | `CONNECT host version` targets host on port 443 |
| ProxyServer.ConnectWithPort | src/ProxyServer.java:148-152 | `CONNECT host:n version` targets host on port n |
| ProxyServer.SplitThree | src/ProxyServer.java:191-195 | `split(" ")` of three space-free words gives exactly those words |
| Streamer.FirstContentTypeIsFirst | src/ProxyServer.java:315-320 | the content type is the trimmed value of the first header starting with `content-type:` (any case), and absent when none does |
| Streamer.FindContentType | src/ProxyServer.java:315-320 | the header loop computes `FirstContentType` |
| Streamer.ReadAll | src/ProxyServer.java:330-334 | buffering reads every chunk, in order |
| Streamer.RewriteBody | src/ProxyServer.java:350-371 | mask, rewrite, restore compute `ProtectedRewrite` |
| Streamer.StreamCopy | src/ProxyServer.java:293-396 | nothing for an empty stream; without an HTML content type on the first chunk, the concatenation of all chunks unchanged; otherwise `RewriteHtml` of the whole response |
| Streamer.HeaderlessHtmlUnchanged | src/ProxyServer.java:340-345 | an HTML response without "\r\n\r\n" is re-emitted unchanged |
| Streamer.HtmlResponseFramed | src/ProxyServer.java:373-383 | the client gets the patched head, the header end and the rewritten body; every match of the length pattern in the head declares exactly the bytes after the header end, and the first one exists unless the head mentions `content-length:` with no digits after it |
| Streamer.HtmlBodyKeepsTags | src/ProxyServer.java:347-371 | for a body that never holds `PROTECTED_IMG_`, the body is its gaps and protected tags in turn, and the rewritten body is the same tags in place with every gap rewritten |
| ImgMatch.FindFrom | src/ProxyServer.java:352-355 | `find` returns the leftmost position from which the pattern matches, and none when no position does |
| ImgLanguage.MatchSound | src/ProxyServer.java:352 | every match the search reports is a word of `<img[^>]*src="[^"]*Stockholm[^"]*"[^>]*>` (case-insensitive) |
| ImgLanguage.MatchComplete | src/ProxyServer.java:352 | wherever a word of that language starts, the search finds a match |
| ImgProtect.Placeholders | src/ProxyServer.java:357 | the i-th marker is `__PROTECTED_IMG_i__`, numbered left to right |
| ImgProtect.MaskImages | src/ProxyServer.java:351-360 | the snippets are the successive leftmost matches and the masked body is the gaps between them with marker i in place of snippet i |
| ImgProtect.DecomposeReassembles | src/ProxyServer.java:353-359 | the gaps and snippets, interleaved, give back the body |
| ImgProtect.SnippetsMatch | src/ProxyServer.java:352-356 | every protected snippet is a word of the img language |
| ImgProtect.RestoreImages | src/ProxyServer.java:368-371 | the restore loop replaces the markers 0, 1, … in turn |
| ImgProtect.RestoreAllMarkers | src/ProxyServer.java:368-371 | when no gap or snippet holds `PROTECTED_IMG_` and every snippet is framed by `<` and `>`, restoring the markers gives back exactly the gaps interleaved with the snippets |
| HtmlRewrite.RewriteSplit | src/ProxyServer.java:363-366 | the four replacements act on the two sides of a marker separately and leave the marker alone |
| HtmlRewrite.RewriteInterleave | src/ProxyServer.java:362-366 | rewriting a masked body rewrites each gap and keeps every marker |
| HtmlRewrite.RewriteText | src/ProxyServer.java:363-366 | the four replacements, in order, grow the UTF-8 length by exactly one byte per non-overlapping "Stockholm" of the input, the only rule whose two texts differ in byte length |
| HtmlRewrite.ProtectedRewriteKeepsTags | src/ProxyServer.java:350-371 | for a body that never holds `PROTECTED_IMG_`: every protected tag comes back unchanged and in place, every gap is rewritten by the four rules |
| HtmlRewrite.NoTagPlainRewrite | src/ProxyServer.java:350-366 | a body without a protected tag is rewritten by the four rules alone |
| HtmlRewrite.MarkerCollision | src/ProxyServer.java:357-370 | the whole body made of a protected tag followed by the text `__PROTECTED_IMG_0__` comes back as the tag twice, so the restore corrupts a body that already holds marker text |
| LengthPatch.FindLength | src/ProxyServer.java:376 | a match of `(?i)(Content-Length:\s*)\d+` starts at the reported position |
| LengthPatch.FindLengthIsFirst | src/ProxyServer.java:376 | the reported match is the leftmost one, and none exists when none is reported |
| LengthPatch.ReplaceDeclares | src/ProxyServer.java:376 | after `replaceAll`, the first match of the length pattern declares the new length |
| LengthPatch.ReplaceDeclaresAll | src/ProxyServer.java:376 | after `replaceAll`, every match of the length pattern, wherever it starts (also inside `X-Content-Length:`, as the unanchored regex does), declares the new length and no other digits |
| LengthPatch.JoinDeclares | src/ProxyServer.java:376 | the induction step of `replaceAll`: copied text without a match, a written header, then a rest whose matches all declare the length, make a whole whose matches all declare it |
| LengthPatch.PatchLength | src/ProxyServer.java:374-379 | after the replace or the append, every match of the length pattern in the head declares the new length |
| LengthPatch.AppendDeclares | src/ProxyServer.java:377-379 | headers without `content-length:` get one appended that declares the new length |
| LengthPatch.PatchDeclares | src/ProxyServer.java:374-379 | the patched head declares the body length, except that a head mentioning `content-length:` with no digits is left unchanged |
| ContentModifier.HandleText | src/ContentModifier.java:12-23 | the list keeps its length, line i becomes `old[i].replace("Smiley","Trolly").replace("Stockholm","Linköping")`, and the result is the sum of the altered lengths of the old lines |
| ContentModifier.GetAlteredContentLength | src/ContentModifier.java:25-41 | the character loop returns 2 × the number of non-overlapping "Stockholm" occurrences, so it is never negative and always even |
| ContentModifier.IsStockholm | src/ContentModifier.java:39-41 | true exactly when "Stockholm" occurs somewhere in the text |
| ContentModifier.CountNone | src/ContentModifier.java:29-35 | text in which "Stockholm" never completes adds nothing |
| ContentModifier.RewriteLineLength | src/ContentModifier.java:17 | the rewrite keeps a line's character count |
| ContentModifier.RewriteLineBytes | src/ContentModifier.java:17 | the UTF-8 length of a rewritten line grows by one byte per "Stockholm" of the original line |
| ContentModifier.TrollyKeepsCount | src/ContentModifier.java:17 | replacing "Smiley" by "Trolly" first neither makes nor breaks a "Stockholm", so the line has as many as before |
| ContentModifier.GetContentLength | src/ContentModifier.java:55-60 | none unless the line starts with "Content-Length:"; otherwise `parseInt` of the trimmed text between the first and second ':' |
| ContentModifier.SecondPiece | src/ContentModifier.java:57 | `split(":")[1]` is that text, and is missing (an exception) only when it is empty |
| ContentModifier.ModifyContentLength | src/ContentModifier.java:43-53 | the array afterwards is `PatchLines` of the old one; it completes exactly as `PatchLines` says |
| ContentModifier.PatchCompletes | src/ContentModifier.java:43-53 | the patch completes exactly when every line containing "Content-Length:" parses |
| ContentModifier.PatchComplete | src/ContentModifier.java:44-51 | a completed patch rewrites each such line to `"Content-Length: " + (n + offset) + "\r\n"` and leaves every other line alone |
| ContentModifier.PatchStops | src/ContentModifier.java:44-51 | an incomplete patch stopped at a line it could not parse: earlier lines patched, that line and the rest unchanged |
| ContentModifier.PatchedLineReadsBack | src/ContentModifier.java:47-57 | a patched line read by `getContentLength` gives the new (32-bit) value |
| ClientSideProxy.GetHeaders | src/ClientSideProxy.java:49-64 | the lines before the first empty line or the end, none of them empty; no lines at all once one starts with "CONNECT" |
| ClientSideProxy.ContentLength | src/ClientSideProxy.java:66-72 | the length is a 32-bit `int`, and the scan raises only when some header starts with "Content-Length:" |
| ClientSideProxy.ContentLengthAbsent | src/ClientSideProxy.java:66-72 | without a "Content-Length:" header the length is 0 |
| ClientSideProxy.ContentLengthFirst | src/ClientSideProxy.java:66-72 | otherwise it is the parsed value of the first such header |
| ClientSideProxy.IsChunked | src/ClientSideProxy.java:74-81 | true exactly when some header starts with "Transfer-Encoding" and contains "chunked" |
| ClientSideProxy.Read | src/ClientSideProxy.java:90 | one `read` copies up to `len` bytes of the stream into the buffer at the offset and leaves the rest in the stream |
| ClientSideProxy.GetBody | src/ClientSideProxy.java:83-106 | none unless the length is positive; otherwise the first min(length, available) bytes in read order, and the stream keeps the rest |
| ClientSideProxy.SendRequest | src/ClientSideProxy.java:120-126 | the bytes written are each line with CRLF, then one more CRLF |
| ClientSideProxy.ReadFramed | src/ClientSideProxy.java:120-126 | reading lines back from that text gives the lines and one empty line |
| ClientSideProxy.HeadersRoundTrip | src/ClientSideProxy.java:49-64 | lines that are non-empty, hold no CR or LF, and do not start with "CONNECT", written by `sendRequest` and read back by `getHeaders`, come back unchanged (a line starting with "CONNECT" makes `getHeaders` return nothing) |
| ClientSideProxy.HostFromRequest | src/ClientSideProxy.java:166-176 | no "Host:" line means no socket (null); a target it finds is on port 80 |
| ClientSideProxy.HostFirst | src/ClientSideProxy.java:166-176 | otherwise the second word of the first "Host:" line, on port 80 |
| ClientSideProxy.HostLine | src/ClientSideProxy.java:168-169 | the line "Host: h" names h |
| JString.IndexOf | src/ProxyServer.java:311 | `indexOf` returns -1 exactly when there is no occurrence, and otherwise the first one |
| JString.ParseIntToString | src/ProxyServer.java:206 | `Integer.parseInt` reads back every `int` that `Integer.toString` writes |
| JString.Trim | src/ProxyServer.java:214 | `trim` removes leading and trailing characters up to U+0020, and keeps a string that has none |
| JString.ReplaceLength | src/ContentModifier.java:17 | `replace` changes the length by the number of occurrences times the difference in length |
| Utf8.DecodeEncode | src/ProxyServer.java:337-343 | decoding the UTF-8 bytes of a string gives back the string |
| Utf8.EncodeAppend | src/ProxyServer.java:382-383 | the bytes of two writes are the bytes of the concatenated text |
| Base.AddInt32 | src/ContentModifier.java:48 | `contentLength += offset` wraps around on 32-bit overflow |

## Left out

- Sockets, `accept` loops, the thread per connection and shutdown (`ProxyServer.start`/`stop`, `ServerSideProxy`, `Main`) are not modelled. They are concurrency and socket plumbing.
- The tunnel of `handleConnect` is not modelled: its 200 reply, the two copy threads and their joins. Only its parse of the target is modelled, and `run` never calls it.
- `Client.java` is not part of this model. It is an interactive terminal client.
- The outer loops `handleClientConnection` and `listenFromServer` of `ClientSideProxy` are left out, as is its commented-out body copy. They are socket-state loops. The helpers they call are all modelled.
- Socket timeouts, connection failures and a mid-write `IOException` are not modelled as events. A failed connection is the `None` parameter, which gives 504. A failure part-way through `streamCopy` is swallowed there and is not modelled.
- Logging to `System.out`/`System.err` and `logRequest` are left out, because they write nothing the client or target sees.
- `toLowerCase` is modelled on ASCII letters only, and the model assumes a locale whose lower-casing of ASCII is the plain one. Under a Turkish default locale Java lowers `I` to dotless `ı`, so "CONNECTION:" would become "connectıon:" and no longer match; that locale is not modelled. Java lowers only two non-ASCII characters to ASCII letters, and neither changes a comparison:
  - the Kelvin sign lowers to `k`, and no compared key contains a `k`;
  - `İ` lowers to `i` followed by a combining dot, and the dot breaks any match of a key.
- `ParseInt` accepts only the ASCII digits `0`-`9`. `Integer.parseInt` also accepts other Unicode decimal digits (through `Character.digit`), such as Arabic-Indic or full-width digits; a port or length written with them is modelled as a `NumberFormatException`.
- `Decode` turns each malformed UTF-8 byte into one U+FFFD. Java's decoder replaces maximal subparts, so the two can differ on malformed input. Every stated property that round-trips text uses well-formed bytes.
- The platform default charset of `getBytes()` is taken to be UTF-8.
- The 8192-byte read buffer of `streamCopy` is not a modelled bound. A stream is any sequence of non-empty chunks.
- The general regex engine is not modelled. Instead, the img pattern and the Content-Length pattern are hand-written matchers, proved against a declarative statement of their languages.
- `ContentModifier.GetAlteredContentLength` ignores Java's 32-bit overflow of `lengthModified`. Wrapping needs about a billion occurrences.
- `ContentModifier.HandleText` uses an unbounded sum, so it ignores the 32-bit overflow of `offset` for the same reason.
- HtmlRewrite.ProtectedRewriteKeepsTags: proved only for bodies that never hold the 14-character text `PROTECTED_IMG_`. That is stronger than "no full marker": a body with `PROTECTED_IMG_` but no complete `__PROTECTED_IMG_i__` is not covered. Such a text can still join the marker that follows it into a false marker (a gap ending in `__PROTECTED_IMG_1` before marker 0), so the plain "no full marker" hypothesis would not suffice. A body that holds a marker can be corrupted, as `HtmlRewrite.MarkerCollision` shows. Underscores alone, as in `flag_of_Stockholm.png`, are covered.
- Streamer.HtmlBodyKeepsTags: the same `PROTECTED_IMG_` hypothesis, for the same reason.
- ImgProtect.RestoreAllMarkers: the same `PROTECTED_IMG_` hypothesis on the gaps and snippets, for the same reason.
- LengthPatch.PatchDeclares and `Streamer.HtmlResponseFramed` do not state a declared length for headers that mention `content-length:` with no digits after it. There the code leaves the headers unchanged, and the lemma states that instead.
- `ProxyServer.ErrorFramed`: the declared length is only stated for messages without ':'. Every message the code passes is such a message.
- `ProxyServer.HostRequestForwarded` and `ProxyServer.AbsoluteRequestForwarded` state whole exchanges only for the default port and three space-free words. They are built from the other target lemmas, which also cover given ports.
