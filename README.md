# A verified model of the `serv.rs` request handler

`serv.rs` is a small HTTP/1.1 file server. For each accepted connection, `http`:

1. reads the request head line by line, up to the blank line;
2. checks that the request line splits on whitespace into exactly three tokens (`check_req_line`);
3. splits every header line at its first colon;
4. for POST, demands a `Content-Length` that matches the body bytes already buffered;
5. routes on the method.

Methods are routed as follows:

- GET and HEAD go to `head`, which answers from the file system. `head` resolves the target: it splits off the query, maps `/` to `index.html`, strips leading slashes and parses `key=value` pairs. It then picks a status from the file's metadata and a Content-Type from its extension, and writes the response through `send_response`. For GET on 200, `send_file` streams the file through a 1024-byte buffer.
- `poyo` is answered 400.
- The other standard methods are answered 501.
- Anything else is answered 405.

The model keeps the handler's form:

- Pure parts are functions:
  - `check_req_line`;
  - the splitting of headers and targets;
  - the extension table;
  - Rust's `str` operations, with their exact semantics.
- Loops and state changes are methods proved against those functions:
  - the read loop, the header loop and the query loop;
  - the step-by-step building of the response in `head`;
  - the writes of `send_response`;
  - the chunk loop of `send_file`.

I/O is abstracted as follows:

- **Input.** The connection's input is the sequence of lines that successive `read_line` calls return. An empty string, or the end of the sequence, is end of stream. `buffered` holds the bytes one `fill_buf` returns.
- **Files.** The file system is a map from path to `Entry(isFile, readonly, contents)`.
- **Output.** The connection's write end is a `Writer` object whose `written` field collects every byte written.

How a connection ends is an `Outcome`:

- `Completed`: `http` returns `Ok(())`.
- `ParseFailed`: the `Content-Length` parse error propagates out of `http`, and thereby out of the accept loop.
- `Panicked(site)`: one of the three panics:
  - `lines[0]` on an empty head;
  - `hdr[1]` on a `Content-Length` line without a colon;
  - the `expect` on a failed HEAD.

  `http` runs on the main thread, and nothing catches the panic, so every `Panicked` outcome also ends the server. A client can therefore stop the server by closing a connection without sending anything, or by sending `HEAD /a?b HTTP/1.1`.

`Server.Serve` states the whole exchange as a function. It gives the outcome and the single response written, if any. `Server.Http` is proved to write exactly that response's bytes.

Files:

- `wrappers.dfy`: the `Option` type.
- `strings.dfy`: `split`, `split_whitespace`, `splitn(2, ..)`, `trim`, `trim_end_matches`, `trim_start_matches` and `usize::from_str`.
- `files.dfy`: bytes, the file map and the buffered file reader.
- `response.dfy`: responses, the writer, `send_response` and `send_file`.
- `request.dfy`: the read loop, `check_req_line` and header splitting.
- `resource.dfy`: target splitting, path mapping, query parsing and the Content-Type table.
- `server.dfy`: `head` and `http`.
- `properties.dfy`: what the handler promises, stated on whole requests.

Behaviour of `serv.rs` that is easy to misread, which the model keeps:

- `trim_start_matches("/")` strips every leading `/`, not just one. `Properties.SlashesDropped` states this.
- The 501 status line reads `Not Implementend`.
- The 405 response's only header, `Allow: GET, HEAD`, carries no CRLF. The CRLF that `send_response` writes after the headers ends that header line, so no blank line follows it (`Properties.FixedAnswers`).
- A non-numeric `Content-Length` makes `http` return the parse error with nothing written. No 400 is sent.
- `/?` is not resolved to `index.html`: the empty query after a trailing `?` is not a list of pairs, so the target is answered 400 (`Properties.ResolveTrailingMark`).

## Model

| member | source | states |
|---|---|---|
| Strings.SplitWhere | serv.rs:195 | `split` with a character-class pattern: at least one piece, and no piece holds a separator |
| Strings.Split | serv.rs:258 | `split` on one character: at least one piece, none holding the separator |
| Strings.SplitJoin | serv.rs:258 | joining the pieces of `split` with the separator gives the string back |
| Strings.JoinSplit | serv.rs:276-277 | splitting separator-free pieces joined by the separator gives the pieces back, in order |
| Strings.SplitCount | serv.rs:258-259 | `split` yields one piece more than the separator occurs |
| Strings.SplitAround | serv.rs:258 | one separator splits a string into the pieces of its two sides |
| Strings.SplitWhole | serv.rs:258 | a string without the separator is a single piece |
| Strings.SplitWhereAround | serv.rs:195 | a separator splits a string into the pieces of its two sides, for any character class |
| Strings.SplitWhereWhole | serv.rs:195 | a string without separators is a single piece, for any character class |
| Strings.Words | serv.rs:195 | every token `split_whitespace` yields is non-empty and free of Unicode whitespace |
| Strings.NonEmpty | serv.rs:195 | dropping empty pieces keeps only non-empty elements of the input |
| Strings.NonEmptyAppend | serv.rs:195 | dropping empty pieces commutes with concatenation |
| Strings.WordsOfJoin | serv.rs:195 | `split_whitespace` recovers tokens joined by single spaces |
| Strings.WordsIgnoreCrlf | serv.rs:195 | a trailing CRLF adds no token |
| Strings.WordsAround | serv.rs:195 | one whitespace character cuts the tokens of its two sides apart |
| Strings.WordsOfBlank | serv.rs:195 | a string of whitespace only has no tokens |
| Strings.WordsSkipLeading | serv.rs:195 | leading whitespace adds no token |
| Strings.WordsSkipTrailing | serv.rs:195 | trailing whitespace adds no token |
| Strings.WordsOfSpaced | serv.rs:195 | `split_whitespace` recovers tokens separated by any non-empty whitespace runs (tabs, several spaces), with any whitespace before and after |
| Strings.IndexOf | serv.rs:129 | the first occurrence of a character, or the length when there is none |
| Strings.SplitFirst | serv.rs:129 | `splitn(2, c)`: two parts exactly when `c` occurs, the first free of `c`, and joining them with `c` gives the string back |
| Strings.LeadingChar | serv.rs:265 | the length of the run of a character at the front of a string, and the character after it is different |
| Strings.LeadingWhitespace | serv.rs:129 | the length of the whitespace run at the front of a string |
| Strings.TrimStartChar | serv.rs:265 | `trim_start_matches` with one character: drops the run `LeadingChar` measures (characterised by `Resource.FilePath`: a suffix not starting with '/', everything cut off being '/') |
| Strings.TrimEnd | serv.rs:129 | a prefix whose last character is not whitespace, and only whitespace was cut |
| Strings.Trim | serv.rs:129 | the result has no whitespace at either end |
| Strings.TrimSlice | serv.rs:129 | `trim` returns a slice of its argument, and what it cuts off at either end is whitespace |
| Strings.TrimTrimmed | serv.rs:129 | `trim` leaves a string unchanged exactly when it has no whitespace at either end |
| Strings.TrimWithin | serv.rs:129 | `trim` only removes characters |
| Strings.TrimSkipsLeading | serv.rs:129 | leading whitespace does not change the result of `trim` |
| Strings.TrimEndCrlf | serv.rs:128 | `trim_end_matches("\r\n")`: a prefix not ending in CRLF, and what was cut is CRLF repeated |
| Strings.ParseUsize | serv.rs:135 | a successful parse is of an optional '+' and digits, and its value fits a 64-bit usize |
| Strings.ParseUsizeRejects | serv.rs:135 | the empty string, a bare '+', and digits whose value exceeds the largest 64-bit usize are rejected, with or without a '+' (no wrap-around) |
| Strings.Decimal | serv.rs:135 | the decimal digits of a number, whose value is that number |
| Strings.ParseUsizeDigits | serv.rs:135 | conversely, an optional '+' and decimal digits whose value fits a usize always parse, to the digits' value |
| Strings.LeadingZero | serv.rs:135 | leading zeros change neither acceptance nor value, so "007" parses to 7 |
| Strings.ParseUsizeDecimal | serv.rs:135 | `parse::<usize>` reads back the decimal text of every usize, with or without a '+' |
| Files.Ascii | serv.rs:83 | the bytes of a byte-string literal, one per character |
| Files.FileReader.constructor | serv.rs:231 | an opened file is read from its first byte |
| Files.FileReader.Read | serv.rs:235 | `read` copies the next bytes of the file into the front of the buffer; it returns 0 only at end of file |
| Response.Writer.constructor | serv.rs:79 | a fresh writer has written nothing |
| Response.Writer.Write | serv.rs:212 | a write appends its bytes to what was written |
| Response.Concat | serv.rs:213-217 | the headers' bytes one after another (proof helper; characterised by `WriteEach`) |
| Response.BodyBytes | serv.rs:219-224 | the body's bytes: literal bytes as given, a file's contents when it can be opened, nothing otherwise (defining function; used by `SendResponse` and `HeadOmitsBody`) |
| Response.Deliverable | serv.rs:222-223 | writing fails only for a file body that cannot be opened (defining predicate; `SendResponse` returns it) |
| Response.Wire | serv.rs:210-224 | status line, headers verbatim, CRLF, body: the bytes `SendResponse` is proved to write; `WireSplitsAtBody` separates the body |
| Response.Output | serv.rs:210-227 | the bytes of a response that may not be written at all (defining function; the right-hand side of every writer contract in `Server`) |
| Response.SendFile | serv.rs:229-245 | the writer receives exactly the file's bytes, in order, through the 1024-byte buffer; an unopenable path is an error with nothing written |
| Response.WriteEach | serv.rs:213-217 | each header is written verbatim, in order |
| Response.SendResponse | serv.rs:210-227 | the bytes written are the status line, each header verbatim, CRLF, then the body; it fails only when a body file cannot be opened |
| Request.HeadLines | serv.rs:104-112 | the lines kept are a prefix of the input, none blank or end of stream, stopped by a CRLF line or end of stream |
| Request.CollectLines | serv.rs:104-112 | the read loop collects exactly `HeadLines` of the input |
| Request.HeadLinesUnique | serv.rs:104-112 | any prefix stopping just before a terminator and holding none is the collected head |
| Request.HeadLinesOfRequest | serv.rs:104-112 | the head of `lines + [terminator] + rest` is `lines`, whatever follows |
| Request.CheckReqLine | serv.rs:194-207 | the request line is accepted exactly when it has three whitespace-separated tokens, and each field is a token |
| Request.RequestLineOfWords | serv.rs:194-207 | a line of space-separated tokens ending in CRLF is accepted exactly when there are three, yielding them in order |
| Request.RequestLineOfSpaced | serv.rs:194-207 | the same for tokens separated by any whitespace runs, with leading whitespace and any trailing whitespace, the CRLF included: accepted exactly when there are three tokens, which become method, target and version in order |
| Request.RequestLineRoundTrip | serv.rs:194-207 | `METHOD SP target SP version CRLF` parses back to those three tokens |
| Request.SplitHeader | serv.rs:128-129 | one header line: trailing CRLFs removed, split at the first ':' only, both parts trimmed; `SplitHeaderTrimmed`, `HeaderValuePresent`, `HeaderRoundTrip` and `BareHeader` pin down the split |
| Request.SplitHeaderTrimmed | serv.rs:129 | both the name and the value of a split header line are trimmed |
| Request.HeaderValuePresent | serv.rs:126-130 | a header line gets a value exactly when it holds a colon, and the name never holds a colon |
| Request.HeaderRoundTrip | serv.rs:126-130 | `name: value` with CRLF splits back into that name and value; colons in the value stay there |
| Request.BareHeader | serv.rs:126-130 | a colon-less line yields a name only, with no value |
| Request.HeaderTextHasNoCrlf | serv.rs:128 | a trimmed value leaves `name: value` without a trailing CRLF |
| Request.SplitFirstAt | serv.rs:129 | `splitn(2, c)` cuts at the first `c` |
| Request.TrimCrlfOnce | serv.rs:128 | a line ending in one CRLF loses exactly that CRLF |
| Request.IndexOfPrefix | serv.rs:129 | the first `c` after a `c`-free prefix sits right after it |
| Request.Fields | serv.rs:126-130 | the header list has one entry per header line |
| Request.ParseHeaders | serv.rs:126-130 | the header loop builds one split entry per line, in arrival order |
| Request.FieldsAppend | serv.rs:126-130 | one more line adds its entry at the end |
| Request.FirstNamed | serv.rs:134 | `find` by name: the first entry with that name, or none |
| Resource.SplitTarget | serv.rs:258-293 | fails exactly when the target holds two or more '?'; otherwise the path and optional query rejoin to the target, neither holding '?' |
| Resource.FilePath | serv.rs:260-274 | "/" maps to "index.html"; any other path loses its whole run of leading '/' and nothing else |
| Resource.ParamOf | serv.rs:277-279 | a piece with exactly one '=' is key, '=', value, neither holding '=' |
| Resource.QueryParams | serv.rs:276-286 | the query is valid exactly when every '&' piece is a pair, and then the pairs are the pieces, in order |
| Resource.ParseQuery | serv.rs:276-286 | the query loop returns exactly `QueryParams` of the query |
| Resource.QueryRoundTrip | serv.rs:276-286 | pairs without '&' and '=' are read back from their query text, in order |
| Resource.EmptyQueryInvalid | serv.rs:276-286 | the empty query is not a list of pairs |
| Resource.ContentType | serv.rs:319-335 | the Content-Type header for a path, chosen by its extension alone (characterised by `Properties.ContentTypeOfName` and `DotfileIsOctetStream`) |
| Resource.HeaderForExtension | serv.rs:322-333 | the extension `match`: html, png and ico, jpg and jpeg, txt, else octet-stream (characterised by `Properties.ContentTypeByTable`) |
| Resource.LastName | serv.rs:322 | `file_name` picks a normal component |
| Resource.FileName | serv.rs:322 | the file name is a non-empty component holding no '/' and is neither "." nor ".." |
| Resource.Extension | serv.rs:322 | an extension holds neither '.' nor '/' |
| Resource.LastPieceIn | serv.rs:322 | the characters of the last piece occur in the joined text |
| Resource.ExtensionOfName | serv.rs:322 | the extension of `dir/stem.ext` is `ext` |
| Resource.NoDotNoExtension | serv.rs:322 | a name without a '.' after its first character has no extension |
| Resource.NameIsLast | serv.rs:322 | the file name of `dir/name` is `name` |
| Resource.TrailingPiece | serv.rs:322 | an empty or "." last component is skipped by `file_name` |
| Resource.FileNameTrailing | serv.rs:322 | a trailing '/' or "/." does not change the file name, so "dir/page.html/" still has extension "html" |
| Server.StatusOf | serv.rs:304-317 | the status of an existing path: 404 unless a regular file, 403 when read-only, else 200 (stated by `Properties.StatusPolicy`) |
| Server.StatusLine | serv.rs:305-317 | the status line sent with that status (stated by `Properties.StatusPolicy`) |
| Server.Resolve | serv.rs:258-293 | the file a target names, or none for two or more '?' or a query that is not all pairs (characterised by `Properties.ResolvePlain`, `ResolveWithQuery`, `ResolveTooManyMarks`, `ResolveTrailingMark`) |
| Server.Answer | serv.rs:296-350 | what `head` returns and sends once the target is resolved (the specification `AnswerPath` is proved against; its properties are `Properties.AnswerResponses` and `AnswerOmitsBody`) |
| Server.HeadSpec | serv.rs:247-351 | what `head` returns and sends (the specification `Head` is proved against; its properties are `Properties.StatusPolicy`, `HeadFailsOnlyOnBadTarget`, `HeadOmitsBody`, `GetServesFile`, `HeadResponses`) |
| Server.Route | serv.rs:160-187 | how the method `match` ends and what it sends (the specification `Dispatch` is proved against; its properties are `Properties.FixedAnswers` and `RouteResponses`) |
| Server.Gate | serv.rs:133-157 | whether the POST block stops the request and how (the specification `CheckContentLength` is proved against; its properties are the `Properties.Gate*` lemmas) |
| Server.Serve | serv.rs:103-190 | how one connection ends and the one response it sends (the specification `Http` is proved against; its properties are the `Properties` lemmas on whole requests and `OutcomeAndResponse`) |
| Server.Head | serv.rs:247-294 | `head`'s result and written bytes are those of `HeadSpec`: a bad target writes a header-less 400 and fails |
| Server.AnswerPath | serv.rs:296-350 | status from the metadata, Content-Type on 200 only, the file as body for GET on 200, a 404 for a missing path under any method; for a method other than GET and HEAD, an existing path fails without writing |
| Server.CheckContentLength | serv.rs:133-157 | the POST block stops or passes, and writes, exactly as `Gate` says |
| Server.Dispatch | serv.rs:160-187 | the method `match` ends and writes exactly as `Route` says |
| Server.Http | serv.rs:103-190 | one connection ends and writes exactly as `Serve` says |
| Properties.ParseRequest | serv.rs:104-130 | a well-formed request head is read back as its own request line and header lines |
| Properties.ServeOfRequest | serv.rs:133-160 | a well-formed non-POST request goes straight to the method `match` |
| Properties.ServeOfPost | serv.rs:133-160 | a well-formed POST goes through the gate over its own header lines, then to the `match` |
| Properties.MethodWords | serv.rs:160-173 | (proof step about the literals) GET, HEAD and POST are tokens |
| Properties.NoRequestLinePanics | serv.rs:116 | an empty head panics with nothing written |
| Properties.MalformedRequestLine | serv.rs:116-123 | a first line without exactly three tokens gets only the 400 status line and CRLF, and the connection completes |
| Properties.FieldsAround | serv.rs:126-130 | the entry of a line in the middle of the header lines is that line's split |
| Properties.HeaderLinesAround | serv.rs:104-112 | concatenating header lines keeps them header lines |
| Properties.GateFirstLength | serv.rs:134 | only the first header named `Content-Length` decides the gate |
| Properties.GateWithoutLength | serv.rs:152-156 | no header named exactly `Content-Length` gives 411 |
| Properties.GateWithLength | serv.rs:135-150 | a `Content-Length` of `n` passes exactly when `n` bytes are buffered, else 400 |
| Properties.GateWithOverflow | serv.rs:135 | a `Content-Length` of a number above the largest usize fails with the parse error and nothing written, rather than wrapping around |
| Properties.GateWithBadLength | serv.rs:135 | a value that is not a usize fails with the parse error and nothing written |
| Properties.GateWithBareLength | serv.rs:135 | a colon-less `Content-Length` line panics with nothing written |
| Properties.PostWithoutLength | serv.rs:133-157 | a POST without `Content-Length` is answered 411, never 501 |
| Properties.PostWithLength | serv.rs:133-182 | a POST with a matching length meets the 501; a mismatched one gets 400 |
| Properties.PostWithBadLength | serv.rs:135 | a non-numeric `Content-Length` makes `http` return an error with nothing written |
| Properties.PostWithBareLength | serv.rs:135 | a colon-less `Content-Length` line panics with nothing written |
| Properties.GatePassesOnlyWithLength | serv.rs:133-157 | the gate passes only when the first `Content-Length` parses to the buffered length |
| Properties.GateNeverImplemented | serv.rs:133-157 | the gate never answers 501 |
| Properties.PostAnsweredOnlyWithLength | serv.rs:133-182 | a POST is answered 501 only when its first `Content-Length` parses to the buffered length |
| Properties.FixedAnswers | serv.rs:175-186 | "poyo" gets 400, the other standard methods 501, anything else 405 with the bare `Allow: GET, HEAD`, as exact bytes |
| Properties.RouteGet | serv.rs:161-171 | (proof step, unfolds `Route`) GET goes to `head` and completes whatever `head` returns |
| Properties.RoutePost | serv.rs:179-182 | (proof step, unfolds `Route`) a POST past the gate gets the 501 |
| Properties.ResolvePlain | serv.rs:258-267 | (proof step, unfolds `Resolve`) a target without '?' names its mapped path |
| Properties.ResolveWithQuery | serv.rs:268-287 | a target with one '?' names its path's file when the query is all pairs, else it is rejected |
| Properties.ResolveTooManyMarks | serv.rs:288-292 | a target with two or more '?' is rejected |
| Properties.ResolveTrailingMark | serv.rs:276-286 | a trailing '?' leaves an empty query, which is rejected |
| Properties.RootIsIndex | serv.rs:262-263 | "/" is answered exactly as "index.html" is |
| Properties.PlainName | serv.rs:264-266 | a name without '?' or a leading '/' names itself, with or without one '/' in front |
| Properties.SameFileSameAnswer | serv.rs:296-350 | (proof step, unfolds `HeadSpec`) `head` depends on the target only through the file it names |
| Properties.SlashesDropped | serv.rs:265 | every leading '/' is dropped, however many there are |
| Properties.LeadingSlashIgnored | serv.rs:258-267 | a leading '/' does not change the answer |
| Properties.StatusPolicy | serv.rs:296-343 | 404 when missing or not a regular file, 403 when read-only, else 200; only a missing path has no header list; Content-Type on 200 only; a body only for GET on 200 |
| Properties.HeadFailsOnlyOnBadTarget | serv.rs:247-351 | for GET and HEAD, `head` fails exactly on a bad target, and its response is always written in full |
| Properties.HeadOmitsBody | serv.rs:339-348 | HEAD returns what GET returns and writes GET's bytes without the body |
| Properties.AnswerOmitsBody | serv.rs:339-348 | (proof step, unfolds `Answer`) once resolved, HEAD's response is GET's without the body |
| Properties.WireSplitsAtBody | serv.rs:210-224 | (proof step, unfolds `Wire`) a response's bytes are those without the body, then the body's bytes |
| Properties.GetServesFile | serv.rs:296-348 | GET on a writable regular file writes 200, its Content-Type, CRLF and exactly its bytes |
| Properties.ContentTypeByTable | serv.rs:319-335 | the Content-Type is the table entry for the exact extension, else octet-stream |
| Properties.ContentTypeOfName | serv.rs:319-335 | `stem.ext` gets the header its extension maps to |
| Properties.DotfileIsOctetStream | serv.rs:319-335 | a name with a single leading '.' and no other '.' (e.g. ".html") has no extension and is served as octet-stream; a dotfile with a further '.' such as ".config.txt" has an extension (`Properties.ContentTypeOfName`) |
| Properties.GetRequestServesFile | serv.rs:161-171 | a whole GET request for a writable regular file completes with the file |
| Properties.BadTargetAnswered | serv.rs:161-174 | a bad target gets the 400; GET then completes, HEAD panics |
| Properties.HeadResponses | serv.rs:247-351 | for GET and HEAD, `head` writes one deliverable response with a known status line, the 400 when it fails |
| Properties.AnswerResponses | serv.rs:296-350 | a resolved target always gets a deliverable response with a known status line |
| Properties.RouteResponses | serv.rs:160-187 | the `match` writes one deliverable response, and only a failed HEAD panics |
| Properties.GateResponses | serv.rs:133-157 | the gate stops with 400 or 411 written, or fails with nothing written |
| Properties.OutcomeAndResponse | serv.rs:77-190 | a completed connection wrote one deliverable response with a known status line; a HEAD panic wrote the 400; every other failure wrote nothing |

## Left out

- `main`, `start_srv`, the listener and its sockets, and argument and port parsing are process start-up and socket I/O. The accept loop appears only in that `ParseFailed` is the only error ending it that the model represents.
- The `HTTPError` type and its `Display`, `Error` and `From` impls are formatting boilerplate. Errors are the `Outcome` variants.
- `println!` diagnostics are console output with no effect on the response.
- The unused `BUF_SIZE` constant is not modelled.
- `fill_buf` and `consume` are replaced by the `buffered` parameter: the bytes one `fill_buf` returns.
- UTF-8 decoding of the body is not modelled; it only feeds a diagnostic.
- The query pairs `head` collects are only printed. `Resource.ParseQuery` returns them, but nothing downstream uses them.
- Server.Http: an I/O error from `read_line` or from a write is not modelled. Every line is read and every write succeeds. In particular, a client can send a request head that is not valid UTF-8. `read_line` then returns `InvalidData`, `http` passes it on, and so does the accept loop. The model, whose lines are already characters, does not represent that error.
- Response.Writer.Write: assumes every write appends all its bytes. `BufWriter`'s partial writes and `flush` are left out.
- Response.SendFile: a read error in the middle of a file is not modelled. Opening succeeds exactly for a regular file in the map.
- Server.AnswerPath: the file system is the same map at `exists`, `metadata` and `open`. A file that changes between those calls, and a regular file whose permissions forbid reading, are not modelled.
- Strings.ParseUsize: assumes a 64-bit `usize`.
- Strings.IsWhitespace: covers the Unicode White_Space characters. Strings are sequences of characters, not of UTF-8 bytes.
- Server.Head: the request line is not decoded. A target is the exact token from the request line, and a file path is the exact string the map is keyed by.
- Resource.ParseQuery, Server.AnswerPath, Server.CheckContentLength and Server.Dispatch are inline code of `head` and `http` written as separate methods. Their behaviour is unchanged, but three things moved:
  - `ParseQuery` returns `None` at the first piece that is not a pair. `Head` then writes the 400 and returns `Err`, which the loop does itself in `serv.rs`.
  - `CheckContentLength` returns `Some(outcome)` where the POST block returns from `http`, and `None` where it falls through to the method `match`.
  - `Head` and `AnswerPath` drop the `?` after each `send_response`. Every response `head` sends can be written in full (`Properties.HeadResponses`), so that early return never happens.
