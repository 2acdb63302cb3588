/** Responses and how they reach the connection: `send_response` writes the
    status line, each header as given, a CRLF and then the body; `send_file`
    streams a file through a 1024-byte buffer. */
module Response {
  import opened Wrappers
  import opened Files

  /** `MessageBody`: literal bytes, or the path of a file to stream. */
  datatype Body = Bytes(data: seq<byte>) | Uri(path: string)

  /** `Response`: the status line, an optional list of header byte strings
      (each carrying its own line terminator, or not), and an optional body. */
  datatype Response = Response(statusLine: seq<byte>, headers: Option<seq<seq<byte>>>, body: Option<Body>)

  const Crlf: seq<byte> := Ascii("\r\n")

  const Status200: seq<byte> := Ascii("HTTP/1.1 200 OK\r\n")
  const Status400: seq<byte> := Ascii("HTTP/1.1 400 Bad Request\r\n")
  const Status403: seq<byte> := Ascii("HTTP/1.1 403 Forbidden\r\n")
  const Status404: seq<byte> := Ascii("HTTP/1.1 404 Not Found\r\n")
  const Status405: seq<byte> := Ascii("HTTP/1.1 405 Method Not Allowed\r\n")
  const Status411: seq<byte> := Ascii("HTTP/1.1 411 Length Required\r\n")
  /** The 501 reason phrase is spelt as the server sends it. */
  const Status501: seq<byte> := Ascii("HTTP/1.1 501 Not Implementend\r\n")
  /** The status line `head` starts from and always replaces before sending. */
  const Placeholder: seq<byte> := Ascii("status line shold be here")
  /** The 405 response's only header: it has no line terminator. */
  const AllowHeader: seq<byte> := Ascii("Allow: GET, HEAD")

  /** The fixed responses of the handler. */
  const BadRequest := Response(Status400, None, None)
  const MethodNotAllowed := Response(Status405, Some([AllowHeader]), None)
  const LengthRequired := Response(Status411, None, None)
  const NotImplemented := Response(Status501, None, None)

  /** The connection's write end (`BufWriter<&TcpStream>`): every byte handed
      to it so far, in order. */
  class Writer {
    var written: seq<byte>

    constructor ()
      ensures written == []
    {
      written := [];
    }

    /** `Write::write`, taken to accept every byte it is given. */
    method Write(data: seq<byte>)
      modifies this
      ensures written == old(written) + data
    {
      written := written + data;
    }
  }

  /** The chunks one after another. */
  function Concat(chunks: seq<seq<byte>>): seq<byte>
  {
    if chunks == [] then [] else Concat(chunks[..|chunks| - 1]) + chunks[|chunks| - 1]
  }

  /** The bytes a body contributes: a file that cannot be opened contributes none. */
  function BodyBytes(body: Option<Body>, fs: FileSystem): seq<byte>
  {
    match body
    case None => []
    case Some(Bytes(data)) => data
    case Some(Uri(path)) => if Readable(fs, path) then fs[path].contents else []
  }

  /** Whether writing the response gets through: only a file body can fail, when the file cannot be opened. */
  predicate Deliverable(resp: Response, fs: FileSystem) {
    resp.body.Some? && resp.body.value.Uri? ==> Readable(fs, resp.body.value.path)
  }

  /** The bytes `send_response` writes for a response. */
  function Wire(resp: Response, fs: FileSystem): seq<byte>
  {
    resp.statusLine + (if resp.headers.Some? then Concat(resp.headers.value) else []) + Crlf + BodyBytes(resp.body, fs)
  }

  /** The bytes written for a response that may not have been sent at all. */
  function Output(resp: Option<Response>, fs: FileSystem): seq<byte>
  {
    if resp.Some? then Wire(resp.value, fs) else []
  }

  /** `send_file`: opens the file and copies it to the writer chunk by chunk,
      so the writer receives exactly the file's bytes, in order; an unopenable
      path is an error with nothing written. */
  method SendFile(w: Writer, fs: FileSystem, path: string) returns (ok: bool)
    modifies w
    ensures ok == Readable(fs, path)
    ensures w.written == old(w.written) + (if ok then fs[path].contents else [])
  {
    if !Readable(fs, path) {
      return false;
    }
    var buf := new byte[1024];
    var reader := new FileReader(fs[path].contents);
    while true
      invariant fresh(reader) && fresh(buf) && buf.Length == 1024
      invariant reader.Valid() && reader.data == fs[path].contents
      invariant w.written == old(w.written) + reader.data[..reader.pos]
      decreases |reader.data| - reader.pos
    {
      ghost var before := reader.pos;
      var n := reader.Read(buf);
      if n == 0 {
        break;
      }
      w.Write(buf[..n]);
      assert reader.data[..reader.pos] == reader.data[..before] + reader.data[before..reader.pos];
    }
    assert reader.data[..reader.pos] == reader.data;
    return true;
  }

  /** `send_response`: the status line, every header verbatim, CRLF, then the
      body; fails only when a file body cannot be opened. */
  method SendResponse(w: Writer, resp: Response, fs: FileSystem) returns (ok: bool)
    modifies w
    ensures ok == Deliverable(resp, fs)
    ensures w.written == old(w.written) + Wire(resp, fs)
  {
    w.Write(resp.statusLine);
    if resp.headers.Some? {
      WriteEach(w, resp.headers.value);
    }
    w.Write(Crlf);
    ok := true;
    match resp.body {
      case None =>
      case Some(Bytes(data)) => w.Write(data);
      case Some(Uri(path)) => ok := SendFile(w, fs, path);
    }
  }

  /** The header loop of `send_response`: each header written verbatim, in order. */
  method WriteEach(w: Writer, chunks: seq<seq<byte>>)
    modifies w
    ensures w.written == old(w.written) + Concat(chunks)
  {
    for i := 0 to |chunks|
      invariant w.written == old(w.written) + Concat(chunks[..i])
    {
      w.Write(chunks[i]);
      assert chunks[..i + 1][..i] == chunks[..i];
    }
    assert chunks[..|chunks|] == chunks;
  }
}
