/** The connection handler. `http` reads the request head, checks the request
    line, splits the headers, applies the POST Content-Length gate and routes
    on the method; `head` answers GET and HEAD from the file system. Each is
    an imperative method proved against a function that says what it does:
    `HeadSpec` for `head` and `Serve` for `http`. */
module Server {
  import opened Wrappers
  import opened Strings
  import opened Files
  import opened Request
  import opened Resource
  import opened Response

  /** The status `head` gives an existing path: 404 when it is not a regular
      file, 403 when it is a read-only regular file, 200 otherwise. */
  function StatusOf(entry: Entry): nat
  {
    if !entry.isFile then 404 else if entry.readonly then 403 else 200
  }

  function StatusLine(status: nat): seq<byte>
  {
    if status == 200 then Status200 else if status == 403 then Status403 else Status404
  }

  /** What `head` returns: `Ok` with the status code, or `Err`. */
  datatype HeadResult = HeadOk(status: nat) | HeadErr

  /** What one call of `head` returns, and the response it writes if it writes one. */
  datatype HeadStep = HeadStep(result: HeadResult, response: Option<Response>)

  /** The file a request target names, or `None` when the target holds more
      than one '?' or a query that is not a list of `key=value` pairs. */
  function Resolve(target: string): Option<string>
  {
    match SplitTarget(target)
    case None => None
    case Some(t) =>
      if t.query.Some? && QueryParams(t.query.value).None? then None else Some(FilePath(t.path))
  }

  /** What `head` does once the target has been resolved to `path`. */
  function Answer(methodName: string, path: string, fs: FileSystem): HeadStep
  {
    if path !in fs then HeadStep(HeadOk(404), Some(Response(Status404, None, None)))
    else
      var status := StatusOf(fs[path]);
      var headers := if status == 200 then [ContentType(path)] else [];
      var body := if methodName == "GET" && status == 200 then Some(Uri(path)) else None;
      if methodName == "GET" || methodName == "HEAD"
      then HeadStep(HeadOk(status), Some(Response(StatusLine(status), Some(headers), body)))
      else HeadStep(HeadErr, None)
  }

  /** `head` as a function of the method, the target and the file system. */
  function HeadSpec(methodName: string, target: string, fs: FileSystem): HeadStep
  {
    match Resolve(target)
    case None => HeadStep(HeadErr, Some(BadRequest))
    case Some(path) => Answer(methodName, path, fs)
  }

  /** `head`: resolves the target, writing a header-less 400 and failing on a
      bad one, then answers for the file it names. */
  method Head(w: Writer, methodName: string, target: string, fs: FileSystem) returns (result: HeadResult)
    modifies w
    ensures result == HeadSpec(methodName, target, fs).result
    ensures w.written == old(w.written) + Output(HeadSpec(methodName, target, fs).response, fs)
  {
    var resp := Response(Placeholder, None, None);
    var fileUri: string;
    var uq := Split(target, '?');
    if |uq| == 1 || |uq| == 2 {
      fileUri := FilePath(uq[0]);
      if |uq| == 2 {
        var query := ParseQuery(uq[1]);
        if query.None? {
          assert Resolve(target) == None;
          resp := resp.(statusLine := Status400);
          assert resp == BadRequest;
          var sent := SendResponse(w, resp, fs);
          return HeadErr;
        }
      }
    } else {
      assert Resolve(target) == None;
      resp := resp.(statusLine := Status400);
      assert resp == BadRequest;
      var sent := SendResponse(w, resp, fs);
      return HeadErr;
    }
    assert Resolve(target) == Some(fileUri);
    result := AnswerPath(w, resp, methodName, fileUri, fs);
  }

  /** The rest of `head`, for the file the target names: 404 when it does not
      exist; otherwise the status from its metadata, a Content-Type header on
      200, the file as the body for GET on 200, and `Err` without writing
      anything for a method other than GET and HEAD. */
  method AnswerPath(w: Writer, resp0: Response, methodName: string, fileUri: string, fs: FileSystem)
    returns (result: HeadResult)
    requires resp0 == Response(Placeholder, None, None)
    modifies w
    ensures result == Answer(methodName, fileUri, fs).result
    ensures w.written == old(w.written) + Output(Answer(methodName, fileUri, fs).response, fs)
  {
    var resp := resp0;
    var header: seq<seq<byte>> := [];
    if fileUri !in fs {
      resp := resp.(statusLine := Status404);
      var sent := SendResponse(w, resp, fs);
      return HeadOk(404);
    }
    var attr := fs[fileUri];
    var status: nat;
    if !attr.isFile {
      resp := resp.(statusLine := Status404);
      status := 404;
    } else if attr.readonly {
      resp := resp.(statusLine := Status403);
      status := 403;
    } else {
      resp := resp.(statusLine := Status200);
      status := 200;
    }
    if status == 200 {
      header := header + [ContentType(fileUri)];
    }
    resp := resp.(headers := Some(header));

    if methodName == "GET" {
      if status == 200 {
        resp := resp.(body := Some(Uri(fileUri)));
      }
      var sent := SendResponse(w, resp, fs);
    } else if methodName == "HEAD" {
      var sent := SendResponse(w, resp, fs);
    } else {
      return HeadErr;
    }
    return HeadOk(status);
  }

  /** Where the handler panics: indexing the first line of an empty request,
      taking the value of a colon-less `Content-Length` line, and the `expect`
      on a failed `head` for HEAD. */
  datatype PanicSite = NoRequestLine | ContentLengthWithoutValue | HeadFailed

  /** How handling one connection ends: `http` returns `Ok(())`, returns the
      Content-Length parse error (which also ends the accept loop), or panics. */
  datatype Outcome = Completed | ParseFailed | Panicked(site: PanicSite)

  /** How a connection ends, and the one response written on it, if any. */
  datatype Exchange = Exchange(outcome: Outcome, response: Option<Response>)

  /** The methods answered with the fixed 501 response. */
  const Unimplemented: set<string> := {"OPTIONS", "POST", "PUT", "DELETE", "TRACE", "CONNECT"}

  /** The method `match` of `http`. */
  function Route(rl: RequestLine, fs: FileSystem): Exchange
  {
    if rl.methodName == "GET" then Exchange(Completed, HeadSpec("GET", rl.uri, fs).response)
    else if rl.methodName == "HEAD" then
      var step := HeadSpec("HEAD", rl.uri, fs);
      Exchange(if step.result.HeadErr? then Panicked(HeadFailed) else Completed, step.response)
    else if rl.methodName == "poyo" then Exchange(Completed, Some(BadRequest))
    else if rl.methodName in Unimplemented then Exchange(Completed, Some(NotImplemented))
    else Exchange(Completed, Some(MethodNotAllowed))
  }

  /** The POST Content-Length gate over the header list: `None` lets the
      request through (a `Content-Length` whose value parses to the number of
      body bytes buffered); otherwise how the connection ends. Only the first
      header named exactly `Content-Length` counts. */
  function Gate(header: seq<HeaderField>, buffered: seq<byte>): Option<Exchange>
  {
    var k := FirstNamed(header, "Content-Length");
    if k == |header| then Some(Exchange(Completed, Some(LengthRequired)))
    else
      match header[k].value
      case None => Some(Exchange(Panicked(ContentLengthWithoutValue), None))
      case Some(v) =>
        match ParseUsize(v)
        case None => Some(Exchange(ParseFailed, None))
        case Some(n) => if |buffered| != n then Some(Exchange(Completed, Some(BadRequest))) else None
  }

  /** `http` as a function of the request lines, the bytes one `fill_buf`
      returns, and the file system. */
  function Serve(input: seq<string>, buffered: seq<byte>, fs: FileSystem): Exchange
  {
    var lines := HeadLines(input);
    if lines == [] then Exchange(Panicked(NoRequestLine), None)
    else
      match CheckReqLine(lines[0])
      case None => Exchange(Completed, Some(BadRequest))
      case Some(rl) =>
        if rl.methodName != "POST" then Route(rl, fs)
        else
          match Gate(Fields(lines[1..]), buffered)
          case Some(stop) => stop
          case None => Route(rl, fs)
  }

  /** `http`: one connection, from the request lines to the response bytes. */
  method Http(w: Writer, input: seq<string>, buffered: seq<byte>, fs: FileSystem) returns (outcome: Outcome)
    modifies w
    ensures outcome == Serve(input, buffered, fs).outcome
    ensures w.written == old(w.written) + Output(Serve(input, buffered, fs).response, fs)
  {
    var lines := CollectLines(input);
    if |lines| == 0 {
      return Panicked(NoRequestLine);
    }
    var rl: RequestLine;
    match CheckReqLine(lines[0]) {
      case Some(line) =>
        rl := line;
      case None =>
        var sent := SendResponse(w, BadRequest, fs);
        return Completed;
    }

    var header := ParseHeaders(lines[1..]);

    if rl.methodName == "POST" {
      var stop := CheckContentLength(w, header, buffered, fs);
      if stop.Some? {
        return stop.value;
      }
    }
    assert w.written == old(w.written);
    assert Serve(input, buffered, fs) == Route(rl, fs);
    outcome := Dispatch(w, rl, fs);
  }

  /** The POST block of `http`: finds the `Content-Length` header, writes 411
      when there is none, panics when it has no value, fails when the value is
      not a `usize`, writes 400 when it differs from the number of buffered
      bytes, and otherwise lets the request through (`None`). */
  method CheckContentLength(w: Writer, header: seq<HeaderField>, buffered: seq<byte>, fs: FileSystem)
    returns (stop: Option<Outcome>)
    modifies w
    ensures stop.None? <==> Gate(header, buffered).None?
    ensures stop.Some? ==> stop.value == Gate(header, buffered).value.outcome
    ensures w.written == old(w.written) + (if stop.Some? then Output(Gate(header, buffered).value.response, fs) else [])
  {
    var k := FirstNamed(header, "Content-Length");
    if k < |header| {
      var hdr := header[k];
      if hdr.value.None? {
        return Some(Panicked(ContentLengthWithoutValue));
      }
      var contentLength := ParseUsize(hdr.value.value);
      if contentLength.None? {
        return Some(ParseFailed);
      }
      var bodyLen := |buffered|;
      if bodyLen != contentLength.value {
        var sent := SendResponse(w, BadRequest, fs);
        return Some(Completed);
      }
    } else {
      var sent := SendResponse(w, LengthRequired, fs);
      return Some(Completed);
    }
    return None;
  }

  /** The method `match` of `http`: GET and HEAD go to `head` (a failed HEAD
      panics, a failed GET does not), "poyo" gets 400, the other standard
      methods 501, anything else 405. */
  method Dispatch(w: Writer, rl: RequestLine, fs: FileSystem) returns (outcome: Outcome)
    modifies w
    ensures outcome == Route(rl, fs).outcome
    ensures w.written == old(w.written) + Output(Route(rl, fs).response, fs)
  {
    if rl.methodName == "GET" {
      var result := Head(w, rl.methodName, rl.uri, fs);
    } else if rl.methodName == "HEAD" {
      var result := Head(w, rl.methodName, rl.uri, fs);
      if result.HeadErr? {
        return Panicked(HeadFailed);
      }
    } else if rl.methodName == "poyo" {
      var sent := SendResponse(w, BadRequest, fs);
    } else if rl.methodName in Unimplemented {
      var sent := SendResponse(w, NotImplemented, fs);
    } else {
      var sent := SendResponse(w, MethodNotAllowed, fs);
    }
    return Completed;
  }
}
