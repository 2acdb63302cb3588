/** What the handler promises, stated on whole requests as a client writes
    them and on the pieces of `head`. */
module Properties {
  import opened Wrappers
  import opened Strings
  import opened Files
  import opened Request
  import opened Resource
  import opened Response
  import opened Server

  /** The lines a client sends before the body: the request line with the
      given tokens, the header lines, then the blank line. */
  function RequestText(methodName: string, uri: string, version: string, headerLines: seq<string>): seq<string>
  {
    [RequestLineText(methodName, uri, version)] + headerLines + ["\r\n"]
  }

  /** A header line `read_line` can return before the blank line. */
  predicate IsHeaderLine(line: string) {
    line != "" && line != "\r\n"
  }

  /** A `Content-Length` header announcing `n` bytes. */
  function ContentLengthLine(n: nat): string
  {
    HeaderText("Content-Length", Decimal(n))
  }

  // ---- reading the request ----

  /** A well-formed request is read back as its own request line and its own
      header lines, whatever follows the blank line. */
  lemma ParseRequest(methodName: string, uri: string, version: string, headerLines: seq<string>, rest: seq<string>)
    requires IsWord(methodName) && IsWord(uri) && IsWord(version)
    requires forall i :: 0 <= i < |headerLines| ==> IsHeaderLine(headerLines[i])
    ensures var lines := HeadLines(RequestText(methodName, uri, version, headerLines) + rest);
            lines != [] && lines[1..] == headerLines
            && CheckReqLine(lines[0]) == Some(RequestLine(methodName, uri, version))
  {
    var line := RequestLineText(methodName, uri, version);
    var lines := [line] + headerLines;
    assert |line| > 2;
    assert RequestText(methodName, uri, version, headerLines) + rest == lines + ["\r\n"] + rest;
    HeadLinesOfRequest(lines, "\r\n", rest);
    RequestLineRoundTrip(methodName, uri, version);
    assert lines[1..] == headerLines;
  }

  /** A well-formed request with a method other than POST goes straight to the
      method `match`. */
  lemma ServeOfRequest(methodName: string, uri: string, version: string, headerLines: seq<string>,
                       rest: seq<string>, buffered: seq<byte>, fs: FileSystem)
    requires IsWord(methodName) && IsWord(uri) && IsWord(version) && methodName != "POST"
    requires forall i :: 0 <= i < |headerLines| ==> IsHeaderLine(headerLines[i])
    ensures Serve(RequestText(methodName, uri, version, headerLines) + rest, buffered, fs)
            == Route(RequestLine(methodName, uri, version), fs)
  {
    ParseRequest(methodName, uri, version, headerLines, rest);
  }

  /** A well-formed POST goes through the Content-Length gate over its own
      header lines, and to the method `match` when the gate lets it through. */
  lemma ServeOfPost(uri: string, version: string, headerLines: seq<string>,
                    rest: seq<string>, buffered: seq<byte>, fs: FileSystem)
    requires IsWord(uri) && IsWord(version)
    requires forall i :: 0 <= i < |headerLines| ==> IsHeaderLine(headerLines[i])
    ensures Serve(RequestText("POST", uri, version, headerLines) + rest, buffered, fs)
            == match Gate(Fields(headerLines), buffered)
               case Some(stop) => stop
               case None => Route(RequestLine("POST", uri, version), fs)
  {
    MethodWords();
    ParseRequest("POST", uri, version, headerLines, rest);
  }

  /** The method names the handler tests for are tokens. */
  lemma MethodWords()
    ensures IsWord("GET") && IsWord("HEAD") && IsWord("POST")
  {
    assert forall i :: 0 <= i < |"GET"| ==> "GET"[i] in "GET";
    assert forall i :: 0 <= i < |"HEAD"| ==> "HEAD"[i] in "HEAD";
    assert forall i :: 0 <= i < |"POST"| ==> "POST"[i] in "POST";
  }

  /** A connection that closes, or sends a blank line, before any request line
      panics without writing anything. */
  lemma NoRequestLinePanics(input: seq<string>, buffered: seq<byte>, fs: FileSystem)
    requires input == [] || input[0] == "" || input[0] == "\r\n"
    ensures Serve(input, buffered, fs) == Exchange(Panicked(NoRequestLine), None)
  {
  }

  /** A first line that does not split into exactly three tokens is answered
      400 with no headers and no body, and the connection completes. */
  lemma MalformedRequestLine(input: seq<string>, buffered: seq<byte>, fs: FileSystem)
    requires input != [] && IsHeaderLine(input[0])
    requires |Words(input[0])| != 3
    ensures Serve(input, buffered, fs).outcome == Completed
    ensures Output(Serve(input, buffered, fs).response, fs) == Status400 + Crlf
  {
    assert HeadLines(input)[0] == input[0];
  }

  // ---- the POST Content-Length gate ----

  /** The header list with a given line in the middle. */
  lemma FieldsAround(before: seq<string>, line: string, after: seq<string>)
    ensures var fields := Fields(before + [line] + after);
            |fields| == |before| + 1 + |after| && fields[|before|] == SplitHeader(line)
            && (forall j :: 0 <= j < |before| ==> fields[j] == SplitHeader(before[j]))
  {
  }

  /** Every line of `before + [line] + after` is a header line when each part is. */
  lemma HeaderLinesAround(before: seq<string>, line: string, after: seq<string>)
    requires forall i :: 0 <= i < |before| ==> IsHeaderLine(before[i])
    requires IsHeaderLine(line)
    requires forall i :: 0 <= i < |after| ==> IsHeaderLine(after[i])
    ensures var headerLines := before + [line] + after;
            forall i :: 0 <= i < |headerLines| ==> IsHeaderLine(headerLines[i])
  {
    var headerLines := before + [line] + after;
    assert forall i :: |before| < i < |headerLines| ==> headerLines[i] == after[i - |before| - 1];
  }

  /** The gate looks at the first header named `Content-Length` only. */
  lemma GateFirstLength(before: seq<string>, line: string, after: seq<string>, buffered: seq<byte>)
    requires forall i :: 0 <= i < |before| ==> SplitHeader(before[i]).name != "Content-Length"
    requires SplitHeader(line).name == "Content-Length"
    ensures Gate(Fields(before + [line] + after), buffered) ==
              match SplitHeader(line).value
              case None => Some(Exchange(Panicked(ContentLengthWithoutValue), None))
              case Some(v) =>
                match ParseUsize(v)
                case None => Some(Exchange(ParseFailed, None))
                case Some(n) => if |buffered| != n then Some(Exchange(Completed, Some(BadRequest))) else None
  {
    FieldsAround(before, line, after);
    var fields := Fields(before + [line] + after);
    assert FirstNamed(fields, "Content-Length") == |before|;
  }

  /** Without a header named exactly `Content-Length` the gate answers 411. */
  lemma GateWithoutLength(headerLines: seq<string>, buffered: seq<byte>)
    requires forall i :: 0 <= i < |headerLines| ==> SplitHeader(headerLines[i]).name != "Content-Length"
    ensures Gate(Fields(headerLines), buffered) == Some(Exchange(Completed, Some(LengthRequired)))
  {
    var fields := Fields(headerLines);
    assert FirstNamed(fields, "Content-Length") == |fields|;
  }

  /** A `Content-Length` of `n` lets the request through exactly when `n`
      bytes are buffered; otherwise the answer is 400. */
  lemma GateWithLength(before: seq<string>, n: nat, after: seq<string>, buffered: seq<byte>)
    requires n <= UsizeMax
    requires forall i :: 0 <= i < |before| ==> SplitHeader(before[i]).name != "Content-Length"
    ensures Gate(Fields(before + [ContentLengthLine(n)] + after), buffered) ==
              if |buffered| == n then None else Some(Exchange(Completed, Some(BadRequest)))
  {
    var digits := Decimal(n);
    assert IsTrimmed(digits) by {
      assert IsDigit(digits[0]) && IsDigit(digits[|digits| - 1]);
    }
    HeaderRoundTrip("Content-Length", digits);
    ParseUsizeDecimal(n);
    GateFirstLength(before, ContentLengthLine(n), after, buffered);
  }

  /** A `Content-Length` of a number too large for a `usize` stops the gate
      with the parse error rather than wrapping around. */
  lemma GateWithOverflow(before: seq<string>, n: nat, after: seq<string>, buffered: seq<byte>)
    requires n > UsizeMax
    requires forall i :: 0 <= i < |before| ==> SplitHeader(before[i]).name != "Content-Length"
    ensures Gate(Fields(before + [ContentLengthLine(n)] + after), buffered) == Some(Exchange(ParseFailed, None))
  {
    var digits := Decimal(n);
    assert IsTrimmed(digits) by {
      assert IsDigit(digits[0]) && IsDigit(digits[|digits| - 1]);
    }
    ParseUsizeRejects(digits);
    GateWithBadLength(before, digits, after, buffered);
  }

  /** A `Content-Length` whose value is not a `usize` stops the gate with the parse error. */
  lemma GateWithBadLength(before: seq<string>, value: string, after: seq<string>, buffered: seq<byte>)
    requires IsTrimmed(value) && ParseUsize(value).None?
    requires forall i :: 0 <= i < |before| ==> SplitHeader(before[i]).name != "Content-Length"
    ensures Gate(Fields(before + [HeaderText("Content-Length", value)] + after), buffered) == Some(Exchange(ParseFailed, None))
  {
    HeaderRoundTrip("Content-Length", value);
    GateFirstLength(before, HeaderText("Content-Length", value), after, buffered);
  }

  /** A `Content-Length` line without a colon stops the gate with a panic. */
  lemma GateWithBareLength(before: seq<string>, after: seq<string>, buffered: seq<byte>)
    requires forall i :: 0 <= i < |before| ==> SplitHeader(before[i]).name != "Content-Length"
    ensures Gate(Fields(before + ["Content-Length" + "\r\n"] + after), buffered)
            == Some(Exchange(Panicked(ContentLengthWithoutValue), None))
  {
    BareHeader("Content-Length");
    GateFirstLength(before, "Content-Length" + "\r\n", after, buffered);
  }

  /** Without a header named exactly `Content-Length`, a POST is answered 411. */
  lemma PostWithoutLength(uri: string, version: string, headerLines: seq<string>,
                          rest: seq<string>, buffered: seq<byte>, fs: FileSystem)
    requires IsWord(uri) && IsWord(version)
    requires forall i :: 0 <= i < |headerLines| ==>
               IsHeaderLine(headerLines[i]) && SplitHeader(headerLines[i]).name != "Content-Length"
    ensures Serve(RequestText("POST", uri, version, headerLines) + rest, buffered, fs)
            == Exchange(Completed, Some(LengthRequired))
  {
    ServeOfPost(uri, version, headerLines, rest, buffered, fs);
    GateWithoutLength(headerLines, buffered);
  }

  /** A POST whose first `Content-Length` announces `n` bytes gets through the
      gate exactly when `n` bytes are buffered, and then meets the 501 of the
      method `match`; otherwise it is answered 400. */
  lemma PostWithLength(uri: string, version: string, before: seq<string>, n: nat, after: seq<string>,
                       rest: seq<string>, buffered: seq<byte>, fs: FileSystem)
    requires IsWord(uri) && IsWord(version) && n <= UsizeMax
    requires forall i :: 0 <= i < |before| ==>
               IsHeaderLine(before[i]) && SplitHeader(before[i]).name != "Content-Length"
    requires forall i :: 0 <= i < |after| ==> IsHeaderLine(after[i])
    ensures Serve(RequestText("POST", uri, version, before + [ContentLengthLine(n)] + after) + rest, buffered, fs)
            == Exchange(Completed, Some(if |buffered| == n then NotImplemented else BadRequest))
  {
    HeaderLinesAround(before, ContentLengthLine(n), after);
    ServeOfPost(uri, version, before + [ContentLengthLine(n)] + after, rest, buffered, fs);
    GateWithLength(before, n, after, buffered);
    RoutePost(uri, version, fs);
  }

  /** GET goes to `head`, and the connection completes whatever `head` returns. */
  lemma RouteGet(uri: string, version: string, fs: FileSystem)
    ensures Route(RequestLine("GET", uri, version), fs) == Exchange(Completed, HeadSpec("GET", uri, fs).response)
  {
  }

  /** A POST that passes the gate meets the fixed 501 of the method `match`. */
  lemma RoutePost(uri: string, version: string, fs: FileSystem)
    ensures Route(RequestLine("POST", uri, version), fs) == Exchange(Completed, Some(NotImplemented))
  {
  }

  /** A `Content-Length` whose value is not a `usize` makes `http` return the
      parse error before anything is written. */
  lemma PostWithBadLength(uri: string, version: string, before: seq<string>, value: string, after: seq<string>,
                          rest: seq<string>, buffered: seq<byte>, fs: FileSystem)
    requires IsWord(uri) && IsWord(version)
    requires IsTrimmed(value) && ParseUsize(value).None?
    requires forall i :: 0 <= i < |before| ==>
               IsHeaderLine(before[i]) && SplitHeader(before[i]).name != "Content-Length"
    requires forall i :: 0 <= i < |after| ==> IsHeaderLine(after[i])
    ensures Serve(RequestText("POST", uri, version, before + [HeaderText("Content-Length", value)] + after) + rest,
                  buffered, fs) == Exchange(ParseFailed, None)
  {
    var line := HeaderText("Content-Length", value);
    HeaderLinesAround(before, line, after);
    ServeOfPost(uri, version, before + [line] + after, rest, buffered, fs);
    GateWithBadLength(before, value, after, buffered);
  }

  /** A `Content-Length` line without a colon makes the handler panic before
      anything is written. */
  lemma PostWithBareLength(uri: string, version: string, before: seq<string>, after: seq<string>,
                           rest: seq<string>, buffered: seq<byte>, fs: FileSystem)
    requires IsWord(uri) && IsWord(version)
    requires forall i :: 0 <= i < |before| ==>
               IsHeaderLine(before[i]) && SplitHeader(before[i]).name != "Content-Length"
    requires forall i :: 0 <= i < |after| ==> IsHeaderLine(after[i])
    ensures Serve(RequestText("POST", uri, version, before + ["Content-Length" + "\r\n"] + after) + rest, buffered, fs)
            == Exchange(Panicked(ContentLengthWithoutValue), None)
  {
    HeaderLinesAround(before, "Content-Length" + "\r\n", after);
    ServeOfPost(uri, version, before + ["Content-Length" + "\r\n"] + after, rest, buffered, fs);
    GateWithBareLength(before, after, buffered);
  }

  /** The gate lets a request through only when the first `Content-Length`
      parses to the number of bytes buffered. */
  lemma GatePassesOnlyWithLength(fields: seq<HeaderField>, buffered: seq<byte>)
    ensures Gate(fields, buffered).None? ==>
              var k := FirstNamed(fields, "Content-Length");
              k < |fields| && fields[k].value.Some? && ParseUsize(fields[k].value.value) == Some(|buffered|)
  {
  }

  /** No response the gate gives is the 501 answer. */
  lemma GateNeverImplemented(fields: seq<HeaderField>, buffered: seq<byte>)
    ensures Gate(fields, buffered).Some? ==> Gate(fields, buffered).value.response != Some(NotImplemented)
  {
    assert Status501[9] != Status400[9] && Status501[9] != Status411[9];
  }

  /** A POST is answered 501 only when its first `Content-Length` parses to the
      number of bytes buffered: no request reaches the `match` past the gate otherwise. */
  lemma PostAnsweredOnlyWithLength(input: seq<string>, buffered: seq<byte>, fs: FileSystem)
    requires HeadLines(input) != []
    requires var rl := CheckReqLine(HeadLines(input)[0]); rl.Some? && rl.value.methodName == "POST"
    ensures Serve(input, buffered, fs).response == Some(NotImplemented) ==>
              var fields := Fields(HeadLines(input)[1..]);
              var k := FirstNamed(fields, "Content-Length");
              k < |fields| && fields[k].value.Some? && ParseUsize(fields[k].value.value) == Some(|buffered|)
  {
    var fields := Fields(HeadLines(input)[1..]);
    GatePassesOnlyWithLength(fields, buffered);
    GateNeverImplemented(fields, buffered);
  }

  // ---- the method match ----

  /** Methods other than GET and HEAD get a fixed answer without touching the
      file system: 400 for "poyo", 501 for the other standard methods, and 405
      with an `Allow` header for anything else. The 405 header carries no line
      terminator, so the CRLF after it ends that header line and no blank line
      follows. */
  lemma FixedAnswers(rl: RequestLine, fs: FileSystem)
    requires rl.methodName != "GET" && rl.methodName != "HEAD"
    ensures Route(rl, fs).outcome == Completed
    ensures Output(Route(rl, fs).response, fs) ==
              if rl.methodName == "poyo" then Status400 + Crlf
              else if rl.methodName in {"OPTIONS", "POST", "PUT", "DELETE", "TRACE", "CONNECT"} then Status501 + Crlf
              else Status405 + Ascii("Allow: GET, HEAD") + Crlf
  {
    assert Concat([AllowHeader]) == AllowHeader by {
      assert [AllowHeader][..0] == [];
    }
  }

  // ---- resolving the target ----

  /** A target without '?' names the file its path maps to. */
  lemma ResolvePlain(target: string)
    requires '?' !in target
    ensures Resolve(target) == Some(FilePath(target))
  {
  }

  /** A target with one '?' names its path's file when the query is a list of
      `key=value` pairs, and is rejected otherwise. */
  lemma ResolveWithQuery(path: string, query: string)
    requires '?' !in path && '?' !in query
    ensures Resolve(path + "?" + query) == if QueryParams(query).Some? then Some(FilePath(path)) else None
  {
    SplitAround(path, '?', query);
    SplitWhole(path, '?');
    SplitWhole(query, '?');
    assert path + "?" + query == path + ['?'] + query;
    assert Split(path + "?" + query, '?') == [path, query];
  }

  /** A target holding more than one '?' is rejected. */
  lemma ResolveTooManyMarks(target: string)
    requires multiset(target)['?'] >= 2
    ensures Resolve(target) == None
  {
  }

  /** A trailing '?' leaves an empty query, which is not a list of pairs. */
  lemma ResolveTrailingMark(path: string)
    requires '?' !in path
    ensures Resolve(path + "?") == None
  {
    ResolveWithQuery(path, "");
    EmptyQueryInvalid();
    assert path + "?" + "" == path + "?";
  }

  /** "/" is answered from "index.html", exactly as the target "index.html"
      is (and, by `LeadingSlashIgnored`, as "/index.html" is). */
  lemma RootIsIndex(methodName: string, fs: FileSystem)
    ensures HeadSpec(methodName, "/", fs) == HeadSpec(methodName, "index.html", fs)
  {
    ResolvePlain("/");
    PlainName("index.html");
    SameFileSameAnswer(methodName, "/", "index.html", fs);
  }

  /** A name without '?' and without a leading '/' names itself, with or
      without one '/' in front. */
  lemma PlainName(name: string)
    requires name != [] && name[0] != '/' && '?' !in name
    ensures Resolve(name) == Some(name)
    ensures Resolve("/" + name) == Some(name)
  {
    ResolvePlain(name);
    ResolvePlain("/" + name);
    assert name != "/";
    SlashesDropped(name);
    assert LeadingChar(name, '/') == 0;
  }

  /** `head` depends on the target only through the file it names. */
  lemma SameFileSameAnswer(methodName: string, target: string, other: string, fs: FileSystem)
    requires Resolve(target) == Resolve(other)
    ensures HeadSpec(methodName, target, fs) == HeadSpec(methodName, other, fs)
  {
  }

  /** Every leading '/' is dropped, however many there are. */
  lemma SlashesDropped(path: string)
    requires path != [] && path != "/"
    ensures FilePath("/" + path) == FilePath(path)
  {
    var full := "/" + path;
    assert full[1..] == path;
    assert LeadingChar(full, '/') == 1 + LeadingChar(path, '/');
  }

  /** A leading '/' does not change which file a target names (for any target
      but "" and "/", which name nothing and "index.html"). */
  lemma LeadingSlashIgnored(methodName: string, path: string, fs: FileSystem)
    requires '?' !in path && path != [] && path != "/"
    ensures HeadSpec(methodName, "/" + path, fs) == HeadSpec(methodName, path, fs)
  {
    ResolvePlain(path);
    ResolvePlain("/" + path);
    SlashesDropped(path);
  }

  // ---- answering for the file ----

  /** The status `head` reports for a resolved path: 404 when it does not exist
      or is not a regular file, 403 when it is read-only, 200 otherwise; the
      status line says the same, only a missing path has no header list at
      all, a Content-Type header comes with 200 only,
      and only GET on 200 carries the file as its body. */
  lemma StatusPolicy(methodName: string, target: string, fs: FileSystem)
    requires methodName == "GET" || methodName == "HEAD"
    requires Resolve(target).Some?
    ensures var path := Resolve(target).value;
            var status := if path !in fs || !fs[path].isFile then 404 else if fs[path].readonly then 403 else 200;
            var step := HeadSpec(methodName, target, fs);
            step.result == HeadOk(status)
            && step.response.Some?
            && step.response.value.statusLine == (if status == 404 then Status404 else if status == 403 then Status403 else Status200)
            && (step.response.value.headers.None? <==> path !in fs)
            && HeaderBytes(step.response.value) == (if status == 200 then ContentType(path) else [])
            && step.response.value.body == (if methodName == "GET" && status == 200 then Some(Uri(path)) else None)
  {
    var path := Resolve(target).value;
    assert Concat([ContentType(path)]) == ContentType(path) by {
      assert [ContentType(path)][..0] == [];
    }
  }

  /** The header bytes of a response, in the order they are written. */
  function HeaderBytes(resp: Response): seq<byte>
  {
    if resp.headers.Some? then Concat(resp.headers.value) else []
  }

  /** For GET and HEAD, `head` fails exactly on a bad target, and every
      response it writes can be written in full: a body file it names is
      always a regular file, so `send_file` never fails. */
  lemma HeadFailsOnlyOnBadTarget(methodName: string, target: string, fs: FileSystem)
    requires methodName == "GET" || methodName == "HEAD"
    ensures HeadSpec(methodName, target, fs).result == HeadErr <==> Resolve(target) == None
    ensures HeadSpec(methodName, target, fs).response.Some?
    ensures Deliverable(HeadSpec(methodName, target, fs).response.value, fs)
  {
  }

  /** HEAD returns what GET returns and writes the same bytes up to the end
      of the headers, without the body. */
  lemma HeadOmitsBody(target: string, fs: FileSystem)
    ensures HeadSpec("HEAD", target, fs).result == HeadSpec("GET", target, fs).result
    ensures var get := HeadSpec("GET", target, fs).response;
            get.Some? && HeadSpec("HEAD", target, fs).response == Some(get.value.(body := None))
    ensures var get := HeadSpec("GET", target, fs).response.value;
            Output(HeadSpec("GET", target, fs).response, fs)
            == Output(HeadSpec("HEAD", target, fs).response, fs) + BodyBytes(get.body, fs)
  {
    var r := Resolve(target);
    if r.Some? {
      AnswerOmitsBody(r.value, fs);
    }
    WireSplitsAtBody(HeadSpec("GET", target, fs).response.value, fs);
  }

  /** Once the target is resolved, HEAD gets GET's answer without the body. */
  lemma AnswerOmitsBody(path: string, fs: FileSystem)
    ensures Answer("HEAD", path, fs).result == Answer("GET", path, fs).result
    ensures var get := Answer("GET", path, fs).response;
            get.Some? && Answer("HEAD", path, fs).response == Some(get.value.(body := None))
  {
  }

  /** The bytes of a response are those of the same response without a body,
      followed by the body's bytes. */
  lemma WireSplitsAtBody(resp: Response, fs: FileSystem)
    ensures Wire(resp, fs) == Wire(resp.(body := None), fs) + BodyBytes(resp.body, fs)
  {
  }

  /** GET for a writable regular file answers 200 with its Content-Type, the
      blank line and then exactly the file's bytes. */
  lemma GetServesFile(target: string, fs: FileSystem)
    requires Resolve(target).Some?
    requires Readable(fs, Resolve(target).value) && !fs[Resolve(target).value].readonly
    ensures var path := Resolve(target).value;
            HeadSpec("GET", target, fs).result == HeadOk(200)
            && Output(HeadSpec("GET", target, fs).response, fs) == Status200 + ContentType(path) + Crlf + fs[path].contents
  {
    var path := Resolve(target).value;
    assert Concat([ContentType(path)]) == ContentType(path) by {
      assert [ContentType(path)][..0] == [];
    }
  }

  // ---- the Content-Type table ----

  const OctetStream: seq<byte> := Ascii("Content-Type: application/octet-stream\r\n")

  /** The extensions `head` knows, case-sensitively, and the header each gets. */
  const MimeTypes: map<string, seq<byte>> := map[
    "html" := Ascii("Content-Type: text/html\r\n"),
    "png" := Ascii("Content-Type: image/png\r\n"),
    "ico" := Ascii("Content-Type: image/png\r\n"),
    "jpg" := Ascii("Content-Type: image/jpeg\r\n"),
    "jpeg" := Ascii("Content-Type: image/jpeg\r\n"),
    "txt" := Ascii("Content-Type: text/plain\r\n")]

  /** The Content-Type for an extension is the table's entry, and
      `application/octet-stream` for no extension or an unknown one. */
  lemma ContentTypeByTable(ext: Option<string>)
    ensures HeaderForExtension(ext) == if ext.Some? && ext.value in MimeTypes then MimeTypes[ext.value] else OctetStream
  {
    if ext.Some? {
      assert ext.value in MimeTypes <==> ext.value in {"html", "png", "ico", "jpg", "jpeg", "txt"};
    }
  }

  /** A file named `stem.ext` gets the header its extension maps to. */
  lemma ContentTypeOfName(dir: string, stem: string, ext: string)
    requires dir == [] || dir[|dir| - 1] == '/'
    requires stem != [] && '/' !in stem
    requires '/' !in ext && '.' !in ext
    requires !(stem == "." && ext == [])
    ensures ContentType(dir + stem + "." + ext) == if ext in MimeTypes then MimeTypes[ext] else OctetStream
  {
    ExtensionOfName(dir, stem, ext);
    ContentTypeByTable(Some(ext));
  }

  /** A name whose only '.' is its first character, such as ".html", has no
      extension, so it is served as `application/octet-stream`. (A dotfile
      with a further '.', such as ".config.txt", is covered by ContentTypeOfName.) */
  lemma DotfileIsOctetStream(dir: string, name: string)
    requires dir == [] || dir[|dir| - 1] == '/'
    requires name != [] && '/' !in name && '.' !in name
    ensures ContentType(dir + "." + name) == OctetStream
  {
    var file := "." + name;
    assert file[1..] == name;
    assert file != ".." by {
      assert file[1] == name[0];
    }
    NoDotNoExtension(dir, file);
    ContentTypeByTable(None);
    assert dir + "." + name == dir + file;
  }

  // ---- whole requests ----

  /** A GET for a writable regular file is answered 200 with the file. */
  lemma GetRequestServesFile(uri: string, version: string, headerLines: seq<string>,
                             rest: seq<string>, buffered: seq<byte>, fs: FileSystem)
    requires IsWord(uri) && IsWord(version)
    requires forall i :: 0 <= i < |headerLines| ==> IsHeaderLine(headerLines[i])
    requires Resolve(uri).Some?
    requires Readable(fs, Resolve(uri).value) && !fs[Resolve(uri).value].readonly
    ensures var ex := Serve(RequestText("GET", uri, version, headerLines) + rest, buffered, fs);
            var path := Resolve(uri).value;
            ex.outcome == Completed && Output(ex.response, fs) == Status200 + ContentType(path) + Crlf + fs[path].contents
  {
    MethodWords();
    ServeOfRequest("GET", uri, version, headerLines, rest, buffered, fs);
    RouteGet(uri, version, fs);
    GetServesFile(uri, fs);
  }

  /** A bad target is answered 400; GET then completes, HEAD panics after writing it. */
  lemma BadTargetAnswered(methodName: string, uri: string, version: string, headerLines: seq<string>,
                          rest: seq<string>, buffered: seq<byte>, fs: FileSystem)
    requires methodName == "GET" || methodName == "HEAD"
    requires IsWord(uri) && IsWord(version)
    requires forall i :: 0 <= i < |headerLines| ==> IsHeaderLine(headerLines[i])
    requires Resolve(uri) == None
    ensures var ex := Serve(RequestText(methodName, uri, version, headerLines) + rest, buffered, fs);
            ex.response == Some(BadRequest)
            && ex.outcome == if methodName == "GET" then Completed else Panicked(HeadFailed)
  {
    MethodWords();
    ServeOfRequest(methodName, uri, version, headerLines, rest, buffered, fs);
  }

  /** The status lines a completed connection can carry. */
  const KnownStatusLines: set<seq<byte>> := {Status200, Status400, Status403, Status404, Status405, Status411, Status501}

  /** What `head` leaves behind, for GET and HEAD. */
  lemma HeadResponses(methodName: string, target: string, fs: FileSystem)
    requires methodName == "GET" || methodName == "HEAD"
    ensures var step := HeadSpec(methodName, target, fs);
            step.response.Some? && Deliverable(step.response.value, fs)
            && step.response.value.statusLine in KnownStatusLines
            && (step.result == HeadErr ==> step.response == Some(BadRequest))
  {
    var r := Resolve(target);
    if r.Some? {
      AnswerResponses(methodName, r.value, fs);
    }
  }

  /** What `head` leaves behind once the target is resolved. */
  lemma AnswerResponses(methodName: string, path: string, fs: FileSystem)
    requires methodName == "GET" || methodName == "HEAD"
    ensures var step := Answer(methodName, path, fs);
            step.result.HeadOk? && step.response.Some? && Deliverable(step.response.value, fs)
            && step.response.value.statusLine in KnownStatusLines
  {
  }

  /** What the method `match` leaves behind. */
  lemma RouteResponses(rl: RequestLine, fs: FileSystem)
    ensures var ex := Route(rl, fs);
            ex.response.Some? && Deliverable(ex.response.value, fs)
            && ex.response.value.statusLine in KnownStatusLines
            && (ex.outcome == Completed || (ex.outcome == Panicked(HeadFailed) && ex.response == Some(BadRequest)))
  {
    if rl.methodName == "GET" || rl.methodName == "HEAD" {
      HeadResponses(rl.methodName, rl.uri, fs);
    }
  }

  /** Every connection ends in one of four ways: it completes after writing
      exactly one response with a known status line that can be written in
      full; it panics in HEAD after writing the 400; or it panics or fails
      while reading the request, having written nothing. */
  lemma OutcomeAndResponse(input: seq<string>, buffered: seq<byte>, fs: FileSystem)
    ensures var ex := Serve(input, buffered, fs);
            (ex.outcome == Completed ==>
               ex.response.Some? && Deliverable(ex.response.value, fs) && ex.response.value.statusLine in KnownStatusLines)
            && (ex.outcome == Panicked(HeadFailed) ==> ex.response == Some(BadRequest))
            && ((ex.outcome == ParseFailed || ex.outcome == Panicked(NoRequestLine)
                 || ex.outcome == Panicked(ContentLengthWithoutValue)) ==> ex.response == None)
  {
    var lines := HeadLines(input);
    if lines != [] && CheckReqLine(lines[0]).Some? {
      var rl := CheckReqLine(lines[0]).value;
      RouteResponses(rl, fs);
      if rl.methodName == "POST" {
        var gate := Gate(Fields(lines[1..]), buffered);
        GateResponses(Fields(lines[1..]), buffered);
        if gate.Some? {
          assert Serve(input, buffered, fs) == gate.value;
        } else {
          assert Serve(input, buffered, fs) == Route(rl, fs);
        }
      } else {
        assert Serve(input, buffered, fs) == Route(rl, fs);
      }
    }
  }

  /** What the POST gate leaves behind when it stops a request: a completed
      connection with a 400 or 411 written, or a failure with nothing written. */
  lemma GateResponses(fields: seq<HeaderField>, buffered: seq<byte>)
    ensures var gate := Gate(fields, buffered);
            gate.Some? ==>
              (gate.value.outcome == Completed
                 && (gate.value.response == Some(BadRequest) || gate.value.response == Some(LengthRequired)))
              || ((gate.value.outcome == ParseFailed || gate.value.outcome == Panicked(ContentLengthWithoutValue))
                 && gate.value.response == None)
  {
  }
}
