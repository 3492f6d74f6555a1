# A model of BasicWebClient's request pipeline

`SocketConnection` in `Assignment5/src/WebServer.java` serves one HTTP
connection. It reads the request header line by line until the empty line.
It takes the first line of that header and splits it on whitespace. The
second token is the target and the third is the protocol. The target is
turned into a path under `webroot`. The path then decides what is returned:

- `null` for a direct `.html`/`.txt` path;
- the directory's `index.html`;
- a generated directory listing;
- a generated "File not found." page.

The header is always a `200 OK` status line, one `Content-Type` line and a
blank line. A message starting with `HEAD` gets only the header. Every other
message gets the header followed by the body.

This project restates that pipeline in Dafny and proves what each step
promises.

| file | module | contents |
|---|---|---|
| `wrappers.dfy` | `Wrappers` | `Option` (Java's `null`) and `Result` (the out-of-bounds failure) |
| `text.dfy` | `JavaString` | the `java.lang.String` operations the pipeline uses: `startsWith`, `endsWith`, `replace(pat, "")`, `replaceFirst("/", "")`; plus joining and splitting on a separator, which the source never calls and which serve only to state and prove the line structure of the generated texts |
| `request.dfy` | `Request` | `readHTTPHeader` as a loop over the lines `readLine` yields; `Scanner.nextLine` on the message; `split("\\s+")` |
| `files.dfy` | `Files` | the document root as a snapshot of the answers the pipeline asks for: exists, is-directory, contents, directory entries |
| `pages.dfy` | `Pages` | `directoryBuilder` (a loop) and `errorBuilder`, and the line structure both pages share |
| `resolver.dfy` | `Resolver` | path normalisation, the four-way decision, and `htmlToReturn` |
| `response.dfy` | `Response`, `Examples` | `headerBuilder` (successive reassignment), the GET/HEAD dispatch, `handleConnection` end to end, and two worked requests (`GET /index.html` and `GET /docs`) with the labels line 259 gives to listed files |

The three imperative pieces of the source are methods proved against
specification functions:

- `ReadHTTPHeader` is proved against `HeaderMessage`.
- `DirectoryBuilder` is proved against `DirectoryListing`.
- `HeaderBuilder` is proved against `ResponseHeader`.

`SocketConnection` keeps no state that these operations update, so there is
no class. The properties of the pipeline are proved as lemmas about those
functions.

Three behaviours of the code are easy to misread, and the model keeps them as
written:

- **`GET /index.html` returns no file.** Lines 191-211 consult the disk only for paths ending in neither `.html` nor `.txt`; line 211 returns `null` for every other normalised path. `GET /index.html` is therefore answered with a 200 header followed by the text `null` (`Examples.IndexHtmlRequest`).
- **The first `/` is removed wherever it is.** Line 187 calls `replaceFirst("/", "")`, which removes the first `/` anywhere in the target, not only a leading one: `webroot/x` becomes `webrootx` (`Resolver.NormalizeSpec`).
- **A listed name can lose more than its directory.** Line 259 deletes every occurrence of the target from the entry's path. In the listing reached by `/docs`, the file `docsify.txt` is therefore labelled `ify` (`Examples.DocsifyLabel`).

## Model

| member | source | states |
|---|---|---|
| Request.HeaderLines | Assignment5/src/WebServer.java:149-152 | the lines consumed form a prefix of the stream; none but the last is empty; when the stream holds an empty line, the prefix ends with the first one |
| Request.LineText | Assignment5/src/WebServer.java:159 | definition: the text a read line contributes, "null" for the end of the stream; used by HeaderMessage |
| Request.ReadHTTPHeader | Assignment5/src/WebServer.java:146-165 | the loop returns exactly the consumed lines, each followed by "\r\n", and stops at the first empty line; a `null` read would contribute "null\r\n" (see Left out) |
| Request.BlankLineRead | Assignment5/src/WebServer.java:149-159 | the appended piece equals "\r\n" exactly when the line read is empty, which is the loop's stopping test |
| Request.HeaderMessageEnds | Assignment5/src/WebServer.java:149-159 | the message always ends in "\r\n"; it ends in "\r\n\r\n" once a line precedes the empty one; it is "\r\n" alone if the first line is empty |
| Request.HeaderMessageSplits | Assignment5/src/WebServer.java:149-159 | cutting the message at every "\r\n" gives back exactly the lines read, then an empty remainder |
| Request.FirstLine | Assignment5/src/WebServer.java:170-176 | the first line is the longest separator-free prefix of the message, and it ends at a Scanner line separator or at the end of the message |
| Request.FirstLineOfHeader | Assignment5/src/WebServer.java:170-176 | the first line of the accumulated message is the first line read from the stream |
| Request.Words | Assignment5/src/WebServer.java:177 | every token is a non-empty run of non-whitespace; there are none exactly when the line is all whitespace; its content is fixed by WordsSkipSpace and WordsCons |
| Request.WordsSkipSpace | Assignment5/src/WebServer.java:177 | whitespace of any length and kind in front of the rest yields no token |
| Request.WordsCons | Assignment5/src/WebServer.java:177 | a word running up to whitespace or the end is the next token, followed by the tokens of the rest |
| Request.TokensAfterLead | Assignment5/src/WebServer.java:177 | leading whitespace before a word yields exactly one empty first token; without it there is none |
| Request.Tokens | Assignment5/src/WebServer.java:177 | `split("\\s+")`: tokens after the first hold no whitespace; the first token is empty exactly when the line is empty or starts with whitespace and is not all whitespace; an all-whitespace line gives no tokens; the empty line gives exactly [""] (so it is a malformed request); the content is fixed by TokensAfterLead with WordsSkipSpace and WordsCons |
| Request.WordsOfJoin | Assignment5/src/WebServer.java:177 | splitting words joined by single spaces gives the words back |
| Request.RequestLineTokens | Assignment5/src/WebServer.java:224 | "method target protocol" tokenises into exactly those three tokens, in order |
| Request.RequestLineSpaced | Assignment5/src/WebServer.java:224 | with any non-empty whitespace runs between the parts and any trailing whitespace, the tokens are [method, target, protocol]; leading whitespace puts an empty token in front |
| JavaString.RemoveAll | Assignment5/src/WebServer.java:258-259 | `replace(pat, "")` never lengthens the string; its content on every input is fixed by RemoveAllFirst (the first occurrence) with RemoveAllAbsent (no occurrence); RemoveAllFront, RemoveAllJoin and RemoveAllChars add special cases |
| JavaString.RemoveAllChars | Assignment5/src/WebServer.java:258-259 | removal introduces no character that was not in the string |
| JavaString.RemoveAllFront | Assignment5/src/WebServer.java:258-259 | scanning left to right, text free of the pattern's first character is kept and the occurrence after it is deleted |
| JavaString.RemoveAllJoin | Assignment5/src/WebServer.java:258-259 | independent reference: parts free of the pattern's first character, joined by the pattern, lose exactly the joining occurrences |
| JavaString.RemoveCharIsWithout | Assignment5/src/WebServer.java:278 | replacing the one-character pattern "/" deletes exactly every "/" and nothing else; this agrees with an independent reference definition |
| JavaString.RemoveAllFirst | Assignment5/src/WebServer.java:258-259 | the first occurrence of the pattern is deleted: text in which the pattern starts nowhere is kept, and scanning resumes after the occurrence |
| JavaString.RemoveAllAbsent | Assignment5/src/WebServer.java:258 | a string in which the pattern never occurs is left unchanged |
| JavaString.RemoveFirst | Assignment5/src/WebServer.java:187 | definition of `replaceFirst` for a one-character pattern; properties in RemoveFirstSpec |
| JavaString.RemoveFirstSpec | Assignment5/src/WebServer.java:187 | `replaceFirst("/", "")` deletes exactly the first "/" and leaves the rest; without a "/" the string is unchanged |
| Resolver.Normalize | Assignment5/src/WebServer.java:184-188 | the normalised path always starts with "webroot" |
| Resolver.NormalizeSpec | Assignment5/src/WebServer.java:184-188 | a target without a "/webroot"/"webroot" prefix gets "webroot" prepended; any other loses exactly its first "/", wherever it is, and nothing else changes |
| Resolver.DirectTargets | Assignment5/src/WebServer.java:191-211 | the body is null exactly when the normalised path ends in ".html" or ".txt"; in that case it is null on any file system |
| Resolver.ResolutionOrder | Assignment5/src/WebServer.java:193-207 | for every other path, in priority order: an existing `path/index.html` gives its contents; otherwise a directory gives its listing, built from the normalised path and the original target; otherwise the error page for the original target |
| Resolver.ResolutionFrame | Assignment5/src/WebServer.java:191-207 | the body depends only on what the file system says about the normalised path and its index file |
| Resolver.ResolvedUnderRoot | Assignment5/src/WebServer.java:184-203 | every path consulted starts with "webroot". A ".." segment survives normalisation, so this is a naming convention and not containment |
| Resolver.Resolve | Assignment5/src/WebServer.java:191-211 | definition of the four-way decision; properties in DirectTargets, ResolutionOrder and ResolutionFrame |
| Resolver.ResolvedBody | Assignment5/src/WebServer.java:191-211 | definition of the string htmlToReturn returns, None for null; properties in DirectTargets and ResolutionOrder |
| Resolver.HtmlToReturn | Assignment5/src/WebServer.java:168-213 | a first line with fewer than two tokens fails; otherwise the result is the resolved body for the second token |
| Pages.DirectoryBuilder | Assignment5/src/WebServer.java:244-273 | the loop returns the listing page: head with title, one anchor line per entry, closing tags |
| Pages.ListingTitle | Assignment5/src/WebServer.java:252 | definition: the target without any "/" and then without any "webroot"; properties in ListingNamesHaveNoSlash and Examples.DocsTitle |
| Pages.Href | Assignment5/src/WebServer.java:258 | definition: the entry without any "webroot"; properties in HrefStripsRoot and Examples.DocsHref |
| Pages.Label | Assignment5/src/WebServer.java:259 | definition: the entry without "webroot", the target, ".txt" and "/"; properties in ListingNamesHaveNoSlash, Examples.DocsLabel and Examples.DocsPrefixLabel |
| Pages.ListingText | Assignment5/src/WebServer.java:250-264 | the listing is the fixed head, whose title is the target with every "/" and then every "webroot" removed, then the anchor lines each ending in "\n", then "   </body>\n</html>" |
| Pages.ListingLines | Assignment5/src/WebServer.java:250-264 | cut at "\n", the listing is the five head lines, one anchor line per entry in order, and the two closing lines |
| Pages.ListingNamesHaveNoSlash | Assignment5/src/WebServer.java:252-259 | neither the listing title nor any link text contains "/" |
| Pages.HrefStripsRoot | Assignment5/src/WebServer.java:258 | an entry "webroot" + rest, where rest holds no further "webroot", links to rest |
| Pages.HtmlPageLines | Assignment5/src/WebServer.java:250-283 | cut at "\n", a generated page is its head lines, its body lines and its closing lines, when none of them holds a line feed |
| Pages.HtmlPageText | Assignment5/src/WebServer.java:250-283 | a generated page is the literal head, each body line followed by "\n", then "   </body>\n</html>" |
| Pages.ErrorBuilder | Assignment5/src/WebServer.java:275-284 | definition: the source's template; properties in ErrorPageShape and ErrorPageLines |
| Pages.ErrorPageShape | Assignment5/src/WebServer.java:275-284 | the error page is the generated page whose single body line is "       File not found." and whose title is the target with every "/" deleted and nothing else changed |
| Pages.ErrorPageLines | Assignment5/src/WebServer.java:275-284 | cut at "\n", the error page is the head titled with the slash-free target, the "File not found." line, and the closing tags |
| Response.ContentType | Assignment5/src/WebServer.java:229-235 | the MIME type is text/plain when the original target ends in ".txt" and text/html in every other case |
| Response.HeaderBuilder | Assignment5/src/WebServer.java:215-242 | the header built by successive reassignment equals `ResponseHeader`: protocol token + " 200 OK\r\n" + Content-Type line + "\r\n"; a first line with fewer than three tokens fails |
| Response.HeaderIsJoin | Assignment5/src/WebServer.java:226-237 | the header is the status line, the Content-Type line and an empty line, each followed by "\r\n" |
| Response.HeaderShape | Assignment5/src/WebServer.java:226-237 | cut at "\r\n", the header is exactly the status line, one Content-Type line, the blank line and nothing after it; the type is text/plain exactly for ".txt" targets and text/html exactly for the rest |
| Response.HeaderEnds | Assignment5/src/WebServer.java:226-237 | the header starts with protocol + " 200 OK\r\n" and ends with "\r\n\r\n" |
| Response.Dispatch | Assignment5/src/WebServer.java:131-137 | definition of the GET/HEAD dispatch; properties in HeadOmitsBody and HeadMatchesGet |
| Response.HandleConnection | Assignment5/src/WebServer.java:121-137 | the connection's response is `Respond` applied to the header read from the stream: read, resolve, build the header, dispatch |
| Response.MalformedRequests | Assignment5/src/WebServer.java:224-226 | there is a response exactly when the first line has at least three tokens |
| Response.HeadOmitsBody | Assignment5/src/WebServer.java:131-137 | the status is 200 whatever the resolution found. A message starting with "HEAD" gets the header alone; every other message gets the header followed by the body text, "null" standing for a null body. The test is on the raw message |
| Response.RequestLineRead | Assignment5/src/WebServer.java:146-177 | for a stream whose first line is "method target protocol", the message starts with the method and its first line splits into exactly those three tokens |
| Response.HeadMatchesGet | Assignment5/src/WebServer.java:131-137 | HEAD and GET for the same target and protocol get the same header; GET appends the body and HEAD does not |
| Examples.IndexHtmlRequest | Assignment5/src/WebServer.java:184-211 | "GET /index.html HTTP/1.1" is answered with a text/html 200 header followed by the text "null", whatever the file system holds |
| Examples.DocsRequest | Assignment5/src/WebServer.java:184-264 | "GET /docs HTTP/1.1" for a directory holding "a.txt" and "b.txt" and no index file is answered with a text/html 200 header and the listing titled "docs" with the anchors ("/docs/a.txt", "a") and ("/docs/b.txt", "b"), in that order |
| Examples.DocsTitle | Assignment5/src/WebServer.java:252 | the listing reached by "/docs" is titled "docs" |
| Examples.DocsHref | Assignment5/src/WebServer.java:258 | for a name in which "webroot" does not occur, the entry "webroot/docs/<name>.txt" links to "/docs/<name>.txt" |
| Examples.DocsLabel | Assignment5/src/WebServer.java:259 | for a name holding no "/", no "webroot" and no ".txt" and not beginning with "docs", the entry "webroot/docs/<name>.txt" reached by "/docs" is labelled "<name>"; dots elsewhere in the name are kept |
| Examples.DottedLabel | Assignment5/src/WebServer.java:259 | the entry "webroot/docs/a.b.txt" is labelled "a.b": only the final ".txt" is deleted |
| Examples.DocsPrefixLabel | Assignment5/src/WebServer.java:259 | a name "docs" + tail (tail holding no "/", "webroot" or ".txt") is labelled tail alone, because the target "/docs" also occurs behind the slash and is deleted there |
| Examples.DocsifyLabel | Assignment5/src/WebServer.java:259 | the entry "webroot/docs/docsify.txt" reached by "/docs" is labelled "ify" |

## Left out

- Sockets, threads and the server loop (`WebServer.main`, `SocketListener`, `SocketConnection.run`) are not part of this model. Neither are the console logging, `PrintWriter.println` and its platform line separator, or closing the socket.
- The file system is a snapshot value (`Files.FileSystem`), not `java.nio.file`. Paths are compared as strings: `Paths.get`'s normalisation of repeated or trailing separators is not modelled. Decoding of file bytes into a string is not modelled either; the snapshot holds the decoded text.
- The `IOException` branches are not modelled. Their effects are as follows:
  - A failed `readLine` appends "" and keeps reading.
  - An unreadable index file leaves the body "". `Files.ReadAll` gives "" only for a file absent from the snapshot.
  - A directory stream that fails to open gives `null`.
  - A failed `close` is only logged.
- Request.ReadHTTPHeader: requires the stream to hold an empty line. On a stream that ends first, `readLine` keeps returning `null`, each read appends "null\r\n", and the source never leaves its loop. That diverging run is not modelled.
- Request.Line: a stream is any sequence of lines and end-of-stream markers, so it may hold a line after the end of the stream, which `BufferedReader.readLine` never delivers. On every run of the source that ends, no `null` is read before the empty line; the "null\r\n" contribution belongs to runs that never end.
- Request.FirstLine: models `Scanner.nextLine` by its line separators ("\n", "\r", U+0085, U+2028, U+2029). It does not model the rest of `Scanner`'s regular-expression machinery.
- Request.Tokens: models `split("\\s+")` for Java's six ASCII whitespace characters only. It does not model general regular-expression semantics.
- A target holding a NUL character makes `Paths.get` (line 193) throw the unchecked `InvalidPathException`, which ends the connection's thread without a response. The model compares paths as strings and answers such a target with a page like any other.
- The failure on a short request line is a `ParseError` result. In the source it is an uncaught `ArrayIndexOutOfBoundsException` that ends the connection's thread without a response and without closing the socket. Thread death and the open socket are not modelled.
- Request.FirstLineOfHeader, Response.RequestLineRead and Response.HeadMatchesGet are stated for request lines free of Scanner's line separators. This is exactly the case in which the request line read from the stream is also Scanner's first line.
