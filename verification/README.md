# rust-web-server, modelled in Dafny

A model of the request handling of a small multi-threaded static file
server written in Rust (`src/main.rs`). For each connection the server
reads one request and parses its first line into method, path and version
(`parse_request`). It then looks at the path's extension:

- With no extension, the path names a page. `/` becomes
  `./pages/index.html` and any other path `p` becomes `./pages/sub<p>.html`.
  `serve_html` answers with the file's text under a `200 OK` head, or with
  Not Found.
- With an extension, the path names an asset. It becomes
  `./pages/assets/<p>`, and `serve_other_file` answers with the file's raw
  bytes. The header carries the media type from `get_content_type` and the
  byte count.

The model is a set of pure functions:

| file | module | what it holds |
|---|---|---|
| `base.dfy` | `Base` | bytes, `Option`, associativity of `+` on sequences |
| `text.dfy` | `Text` | the first item of `str::lines`, `char::is_whitespace` (the Unicode White_Space set), and `split_whitespace` as `Words`, with a reference definition (`NonSpace`) it is proved against |
| `request.dfy` | `Request` | `Headers` and `parse_request` |
| `content_type.dfy` | `ContentTypes` | the extension table and its `image/png` fallback |
| `paths.dfy` | `Paths` | `Path::file_name` and `Path::extension` for Unix paths, including the `.`/`..` components, trailing slashes and leading-dot names |
| `utf8.dfy` | `Utf8` | UTF-8 encoding of text, and the strict decoding `read_to_string` applies (Tables 3-6 and 3-7 of the Unicode Standard, chapter 3) |
| `decimal.dfy` | `Decimal` | how `format!` prints a `usize`, and how a client reads it back |
| `response.dfy` | `Response` | the file system as a map, `serve_html`, `serve_other_file` |
| `server.dfy` | `Server` | the path rewrite and dispatch of `handle_client`, and worked requests |

The file system is a `map<string, Entry>` from path text to `File(bytes)`
or `Directory`. A path that is absent from the map cannot be opened. The
handler's result is a `Reply`: either `Sent(bytes)`, or `Aborted` when a
panic ends the connection's thread before anything is written. In the asset
branch, a directory can be opened but not read, and the `expect` on
`read_to_end` panics. In the page branch, `read_to_string` fails on a
directory and the server answers Not Found.

Details of the code that the model keeps as written:

- Status lines: pages get `200 OK` (`src/main.rs:84`) and assets get
  `200 Ok` (`src/main.rs:112`).
- Asset paths: the rewritten path keeps the request path's leading slash.
  `/cat.png` is looked up as `./pages/assets//cat.png`.
- No `html` entry: the table has no entry for `html`, so an `.html` asset
  is served as `image/png`.
- Missing pages: a missing page `/missing` is looked up as
  `./pages/sub/missing.html`.
- Whitespace and extensions: tokens are split on every Unicode whitespace
  character, not only on spaces. Extensions follow the full rules of
  `Path::extension`.

## Model

| member | source | states |
|---|---|---|
| Request.ParseRequest | src/main.rs:14-51 | parsing never fails: each of method, path and version is a non-empty run of non-whitespace characters |
| Request.ParseHttpRequest | src/main.rs:14-49 | a request whose first line is `m p v` followed by CRLF parses to exactly (m, p, v), whatever follows |
| Request.ParseRequestLine | src/main.rs:15-43 | a single line `m p v` parses to (m, p, v); tokens after the third are ignored |
| Request.ParseRequestTwoWords | src/main.rs:35-43 | the request `m p` (two words and a single space) parses to (m, p) with the version defaulting to `HTTP/1.1` |
| Request.ParseLineTwoSeparated | src/main.rs:20-43 | a line of exactly two tokens, under any whitespace before, between and after them, gives those tokens as method and path and defaults the version to `HTTP/1.1` |
| Request.ParseRequestTwoTokens | src/main.rs:15-43 | a request whose first line holds exactly two tokens, under any whitespace, defaults the version, whether the line ends the request or a line feed (after an optional carriage return) and further lines follow |
| Request.ParseRequestOneWord | src/main.rs:25-43 | the request `m` (a single word) parses to m with the path defaulting to `/` and the version to `HTTP/1.1` |
| Request.ParseLineOneSeparated | src/main.rs:20-43 | a line of exactly one token, under any whitespace around it, gives that token as method and defaults the path to `/` and the version to `HTTP/1.1` |
| Request.ParseRequestOneToken | src/main.rs:15-43 | a request whose first line holds exactly one token, under any whitespace, defaults path and version, whether the line ends the request or a line feed and further lines follow |
| Request.ParseLineSeparated | src/main.rs:20-43 | method, path and version are tokens 0, 1 and 2 of the line, however many whitespace characters of any kind lead the line or separate the tokens; whatever follows whitespace after the third token is ignored |
| Request.ParseLine | src/main.rs:20-43 | whatever the line, each of the three fields is a non-empty whitespace-free word |
| Request.ParseRequestEmpty | src/main.rs:15-22 | an empty request has no first line and parses to GET / HTTP/1.1 |
| Request.ParseRequestBlank | src/main.rs:15-43 | a request of nothing but whitespace parses to the defaults GET / HTTP/1.1 |
| Request.LaterLinesIgnored | src/main.rs:15-18 | nothing after the first line feed affects the parsed headers |
| Request.ParseLineDropsReturn | src/main.rs:16-20 | a carriage return at the end of the first line does not change the parse |
| Text.Words | src/main.rs:20 | there are no tokens exactly when the line is blank (only whitespace), and never more tokens than characters |
| Text.FirstLine | src/main.rs:16-18 | there is no first line exactly when the text is empty; the first line is a prefix of the text and contains no line feed |
| Text.FirstLineBeforeBreak | src/main.rs:16-17 | the first line is the text before the first line feed, minus one carriage return directly before it |
| Text.WordsKeepText | src/main.rs:20 | joining the whitespace-separated tokens back together gives exactly the non-whitespace characters of the line, in order |
| Text.WordsAreWords | src/main.rs:20 | every token is non-empty and contains no whitespace |
| Text.WordsAppend | src/main.rs:20 | the tokens of two texts joined by whitespace are the tokens of the first followed by those of the second |
| ContentTypes.ContentType | src/main.rs:53-72 | each of the five media types is returned exactly for its extensions; `image/png` exactly for `png` and for every extension outside the table |
| ContentTypes.ContentTypeRange | src/main.rs:63-67 | the answer is always one of the five media types; `html` and the empty extension fall back to `image/png` |
| Paths.Extension | src/main.rs:135 | an extension contains neither `/` nor `.` |
| Paths.FileName | src/main.rs:135 | a file name is never empty, `.` or `..`, and contains no `/` |
| Paths.ExtensionOfName | src/main.rs:135 | the path `dir/stem.e` has extension `e` (for a non-empty stem without `/`, and `e` without `/` or `.`) |
| Paths.NoDotNoExtension | src/main.rs:135-137 | a path without a dot has no extension, so it is served as a page |
| Paths.ExtensionAppend | src/main.rs:154 | putting a directory prefix in front of a path with an extension keeps that extension |
| Paths.FileNameOfName | src/main.rs:135 | a last component other than `.` and `..` is the file name, whatever directory precedes it |
| Paths.ExtensionIsSuffix | src/main.rs:135 | conversely to ExtensionOfName: an extension is the text after the last `.` of the file name, and a non-empty stem precedes that `.` |
| Paths.DotFile | src/main.rs:135-137 | a name whose only `.` is its first character (`.bashrc`) has no extension, so it is served as a page |
| Paths.NoDotInName | src/main.rs:135-137 | a last component without a `.` gives no extension, even when a directory in the path has one |
| Paths.FileNameTrailing | src/main.rs:135 | a trailing `/` or `/.` leaves the file name unchanged, and a trailing `/..` leaves the path without a file name |
| Paths.ExtensionTrailing | src/main.rs:135-137 | a trailing `/` or `/.` keeps the extension, so `/a.png/` is still served as an asset; a trailing `/..` has no extension and is served as a page |
| Server.Resolve | src/main.rs:135-160 | a path is served as a page exactly when it has no extension; pages map to their page file; assets map to their asset file with the path's own extension as file type |
| Server.PagePath | src/main.rs:137-142 | every page file is `./pages/...html`; it is `./pages/index.html` exactly for `/`; otherwise it is `./pages/sub<path>.html` |
| Server.PagePathInjective | src/main.rs:138-141 | distinct request paths give distinct page path texts |
| Server.AssetPath | src/main.rs:154 | the asset file is the request path behind `./pages/assets/`, and it keeps the request path's extension |
| Server.Respond | src/main.rs:135-161 | the handler aborts exactly when an asset path names a directory; every reply it sends opens with the version and status 200 or 404 |
| Server.HandleClient | src/main.rs:123-161 | every reply opens with the request's version and status 200 or 404; the handler sends nothing exactly when an asset path names a directory |
| Server.RespondPage | src/main.rs:137-146 | for any parsed headers whose path has no extension, the page file `PagePath` names is served, with method and version kept |
| Server.RespondAsset | src/main.rs:148-160 | for any parsed headers whose path has an extension, the file `./pages/assets/<path>` is served by `serve_other_file` with that extension as file type, with method and version kept |
| Server.ServePage | src/main.rs:132-146 | for an extension-less path: Not Found when the page file is not readable text, otherwise the versioned `200 OK` head, the file's bytes unchanged, and a line feed |
| Server.ServeAsset | src/main.rs:132-160 | for a path with an extension: Not Found when the file is absent, no reply for a directory, otherwise a header with the media type and the byte count in shortest decimal, then the file's bytes unchanged |
| Server.NotFoundEitherWay | src/main.rs:77-99 | a missing page and a missing asset get the same Not Found reply |
| Server.AssetFile | src/main.rs:148-160 | a GET for an existing asset file yields exactly the header block followed by the file's bytes |
| Server.UnknownExtension | src/main.rs:148-158 | an asset whose extension is not in the table is sent as `image/png` |
| Server.IndexPage | src/main.rs:137-146 | `GET /` with a two-byte index page gets the `200 OK` head, the page and a line feed |
| Server.MissingPage | src/main.rs:140-146 | `GET /missing` without `./pages/sub/missing.html` gets Not Found |
| Server.CatPicture | src/main.rs:148-160 | `GET /cat.png` gets `image/png` with `Content-Length: 10` for a ten-byte picture at `./pages/assets//cat.png` |
| Response.ReadToString | src/main.rs:77-82 | reading succeeds exactly for a regular file whose bytes are well-formed UTF-8, and the text read encodes back to those bytes |
| Response.NotFound | src/main.rs:80 | the failure reply opens with the version followed by status 404 |
| Response.BinaryHead | src/main.rs:111-116 | the asset header block opens with the version and ends with the blank line that separates it from the body |
| Response.BinaryStatus | src/main.rs:111-116 | the encoded asset header opens with the version followed by status 200 |
| Response.ServeHtml | src/main.rs:74-88 | Not Found when the file cannot be read as text; otherwise status 200 after the version, the file's bytes unchanged, and a final line feed |
| Response.HtmlBytes | src/main.rs:86 | formatting the page and then encoding it puts the file's bytes between the encoded head and the line feed |
| Response.ServeOtherFile | src/main.rs:91-121 | Not Found for a path that cannot be opened; a panic for a directory; otherwise the body is the file's bytes unchanged, behind a header whose Content-Length is a canonical decimal numeral of the body's length |
| Decimal.Show | src/main.rs:111-115 | the printed length is a non-empty run of digits without a leading zero, `0` only for zero |
| Decimal.ParseShow | src/main.rs:109-115 | the printed Content-Length reads back as the byte count |
| Decimal.CanonicalIsShow | src/main.rs:111-115 | the printed numeral is the only decimal numeral of the count without leading zeros |
| Decimal.ShowInjective | src/main.rs:109-115 | different byte counts print differently |
| Utf8.Encode | src/main.rs:86 | every character takes one to four bytes |
| Utf8.Decode | src/main.rs:77 | decoded text has at most as many characters as there are bytes, and at least a quarter as many |
| Utf8.DecodeEncode | src/main.rs:77 | any text encodes to bytes that decode back to it |
| Utf8.EncodeDecode | src/main.rs:77-78 | bytes that decode successfully are the encoding of the text they decode to |
| Utf8.EncodeAppend | src/main.rs:86 | encoding a concatenation is concatenating the encodings |

## Left out

- `main` (`src/main.rs:165-183`): the TCP listener, the thread per
  connection and the write of the reply are I/O. A failed write panics in
  the thread and is not modelled.
- The read of the request (`src/main.rs:126-130`) is not modelled. It reads
  at most 1024 bytes in one call and decodes them with `from_utf8_lossy`.
  The model takes the decoded request text as its input, and a failed read
  is not modelled.
- The `println!` calls (`src/main.rs:75`, `src/main.rs:144`) only log, so
  they are omitted.
- The path map does not resolve `.`, `..`, repeated slashes or symbolic
  links: path texts are looked up as they are. The server itself does no
  normalisation either. Which bytes the OS returns for a path that climbs
  out of `./pages` is outside the model.
- Server.PagePathInjective is about path texts only. Different texts such
  as `./pages/sub/a.html` and `./pages/sub//a.html` can name one file on
  disk, so the lemma says nothing about files.
- The file system has no error other than "cannot be opened". Permission
  errors and missing files both count as absent, and a read that fails
  part-way through a regular file is not modelled.
- The `unwrap_or("png")` on the extension (`src/main.rs:149-152`) is not
  modelled. It can only fire for an extension that is not valid Unicode.
  The path comes from a Rust `String`, so that cannot happen.
- Decimal.Show: a `usize` is unbounded here, which makes no difference for
  the lengths of files that fit in memory.
- The HTTP method is parsed but never used by the server, and the model
  likewise ignores it.
