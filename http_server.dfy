/**
  `handle_client` of the static-file server (06/homework/httpd.py): one
  connection from the request bytes to the response and the close.
*/
module HttpServer {
  import opened Base
  import opened Seqs
  import opened Text
  import opened HttpRequest
  import opened HttpPath
  import opened HttpResponse

  /** The last name of a path (`Path.name`); `/` has none. */
  function NameOf(p: Segments): string
  {
    if p == [] then "" else p[|p| - 1]
  }

  /** What `sendall(build_headers(...))` writes: nothing when encoding raised (the handler swallows the exception). */
  function HeaderBytes(code: int, contentLength: int, contentType: Option<string>, date: string): (r: seq<byte>)
    ensures r != [] <==> IsLatin1(HeaderText(code, contentLength, contentType, date))
    ensures r != [] ==> Latin1Decode(r) == HeaderText(code, contentLength, contentType, date)
  {
    match BuildHeaders(code, contentLength, contentType, date)
    case None => []
    case Some(h) => h
  }

  /** The reply to an error status: no body, `Content-Length: 0`, `Content-Type: text/plain`. */
  function ErrorReply(code: int, date: string): (r: seq<byte>)
    ensures r != [] <==> IsLatin1(HeaderText(code, 0, Some("text/plain"), date))
    ensures r != [] ==> Latin1Decode(r) == HeaderText(code, 0, Some("text/plain"), date)
  {
    HeaderBytes(code, 0, Some("text/plain"), date)
  }

  /**
    Everything `handle_client` sends once the request bytes are parsed
    (`parsed` is None for a parse failure). `date` is the Date header value
    and `mimeGuess` what `mimetypes` would guess for a path.
  */
  function Reply(parsed: Option<RequestLine>, fs: FileSystem, docRoot: Segments, date: string,
                 mimeGuess: Segments -> Option<string>): (r: seq<byte>)
    ensures parsed.None? ==> r == ErrorReply(400, date)
    ensures parsed.Some? && parsed.value.verb != "GET" && parsed.value.verb != "HEAD" ==> r == ErrorReply(405, date)
    ensures parsed.Some? && (parsed.value.verb == "GET" || parsed.value.verb == "HEAD") ==>
      var res := ResolvePath(fs, docRoot, parsed.value.target);
      ((res.status == 403 || res.status == 404) && r == ErrorReply(res.status, date))
      || (res.status == 200 && res.file.Some? && IsFile(fs, res.file.value)
          && r == FileReply(parsed.value.verb == "GET", fs, res.file.value,
                            GuessContentType(NameOf(res.file.value), mimeGuess(res.file.value)), date))
  {
    match parsed
    case None => ErrorReply(400, date)
    case Some(RequestLine(verb, target, _)) =>
      if verb != "GET" && verb != "HEAD" then ErrorReply(405, date)
      else
        var res := ResolvePath(fs, docRoot, target);
        if res.status != 200 || res.file.None? then ErrorReply(res.status, date)
        else
          var p := res.file.value;
          FileReply(verb == "GET", fs, p, GuessContentType(NameOf(p), mimeGuess(p)), date)
  }

  /** The 200 reply for the regular file at `p`: its headers, then its bytes when the body is wanted (GET). */
  function FileReply(withBody: bool, fs: FileSystem, p: Segments, contentType: string, date: string): seq<byte>
    requires IsFile(fs, p)
  {
    var content := fs[p].content;
    match BuildHeaders(200, |content|, Some(contentType), date)
    case None => []
    case Some(h) => if withBody then h + content else h
  }

  /**
    A 200 reply is sent exactly when the header text is Latin-1, and it is
    that text encoded, followed by the file's bytes exactly when the body is
    wanted.
  */
  lemma FileReplyParts(withBody: bool, fs: FileSystem, p: Segments, contentType: string, date: string)
    requires IsFile(fs, p)
    ensures var r := FileReply(withBody, fs, p, contentType, date);
      var content := fs[p].content;
      && (r != [] <==> IsLatin1(HeaderText(200, |content|, Some(contentType), date)))
      && (r != [] ==> exists h :: Latin1Decode(h) == HeaderText(200, |content|, Some(contentType), date)
                               && r == h + (if withBody then content else []))
  {
    var content := fs[p].content;
    var r := FileReply(withBody, fs, p, contentType, date);
    if r != [] {
      var h := BuildHeaders(200, |content|, Some(contentType), date).value;
      assert r == h + (if withBody then content else []);
    }
  }

  /** Everything sent for what `read_request` returned: nothing for an empty request. */
  function Response(data: Option<seq<byte>>, fs: FileSystem, docRoot: Segments, date: string,
                    mimeGuess: Segments -> Option<string>): (r: seq<byte>)
    ensures r != [] ==> data.Some? && data.value != []
    ensures data.Some? && data.value != [] && ParseRequest(data.value).None? ==> r == ErrorReply(400, date)
  {
    match data
    case None => []
    case Some(d) => if d == [] then [] else Reply(ParseRequest(d), fs, docRoot, date, mimeGuess)
  }

  /**
    `handle_client`: read, parse, check the method, resolve, then send the
    headers and (for GET) the file; the connection is closed on every path.
  */
  method HandleClient(conn: Connection, fs: FileSystem, docRoot: Segments, date: string,
                      mimeGuess: Segments -> Option<string>)
    modifies conn
    ensures conn.closed
    ensures conn.timeout == old(conn.timeout)
    ensures conn.incoming == old(conn.incoming)[ReadRequestSpec(old(conn.incoming)).1..]
    ensures conn.sent == old(conn.sent) + Response(ReadRequestSpec(old(conn.incoming)).0, fs, docRoot, date, mimeGuess)
  {
    var data := ReadRequest(conn);
    if data.Some? && data.value != [] {
      var parsed := ParseRequest(data.value);
      Respond(conn, parsed, fs, docRoot, date, mimeGuess);
    }
    conn.Close();
  }

  /** The part of `handle_client` after parsing: the dispatch and the sends. */
  method Respond(conn: Connection, parsed: Option<RequestLine>, fs: FileSystem, docRoot: Segments, date: string,
                 mimeGuess: Segments -> Option<string>)
    modifies conn
    ensures conn.sent == old(conn.sent) + Reply(parsed, fs, docRoot, date, mimeGuess)
    ensures conn.timeout == old(conn.timeout) && conn.incoming == old(conn.incoming) && conn.closed == old(conn.closed)
  {
    if parsed.None? {
      conn.SendAll(ErrorReply(400, date));
      return;
    }
    var verb, rawPath := parsed.value.verb, parsed.value.target;
    if verb != "GET" && verb != "HEAD" {
      conn.SendAll(ErrorReply(405, date));
      return;
    }
    var res := ResolvePath(fs, docRoot, rawPath);
    if res.status != 200 || res.file.None? {
      conn.SendAll(ErrorReply(res.status, date));
      return;
    }
    var filePath := res.file.value;
    var contentType := GuessContentType(NameOf(filePath), mimeGuess(filePath));
    SendFile(conn, verb == "GET", fs, filePath, contentType, date);
  }

  /** The 200 branch: headers, then the file read and sent READ_BUFFER bytes at a time. */
  method SendFile(conn: Connection, withBody: bool, fs: FileSystem, filePath: Segments, contentType: string, date: string)
    requires IsFile(fs, filePath)
    modifies conn
    ensures conn.sent == old(conn.sent) + FileReply(withBody, fs, filePath, contentType, date)
    ensures conn.timeout == old(conn.timeout) && conn.incoming == old(conn.incoming) && conn.closed == old(conn.closed)
  {
    var content := fs[filePath].content;
    var headers := BuildHeaders(200, |content|, Some(contentType), date);
    if headers.None? {
      return;
    }
    conn.SendAll(headers.value);
    if withBody {
      SendChunks(conn, content);
    }
  }

  /** The file loop: read up to READ_BUFFER bytes, stop at an empty read, send what was read. */
  method SendChunks(conn: Connection, content: seq<byte>)
    modifies conn
    ensures conn.sent == old(conn.sent) + content
    ensures conn.timeout == old(conn.timeout) && conn.incoming == old(conn.incoming) && conn.closed == old(conn.closed)
  {
    var offset := 0;
    while true
      invariant 0 <= offset <= |content|
      invariant conn.sent == old(conn.sent) + content[..offset]
      invariant conn.timeout == old(conn.timeout) && conn.incoming == old(conn.incoming) && conn.closed == old(conn.closed)
      decreases |content| - offset
    {
      var chunk := content[offset..if offset + ReadBuffer < |content| then offset + ReadBuffer else |content|];
      if chunk == [] {
        break;
      }
      conn.SendAll(chunk);
      offset := offset + |chunk|;
      assert content[..offset] == content[..offset - |chunk|] + chunk;
    }
    assert content[..offset] == content;
  }

  /** An empty, timed-out or closed-early connection gets no reply at all. */
  lemma NoRequestNoReply(fs: FileSystem, docRoot: Segments, date: string, mimeGuess: Segments -> Option<string>)
    ensures Response(None, fs, docRoot, date, mimeGuess) == []
    ensures Response(Some([]), fs, docRoot, date, mimeGuess) == []
  {
  }

  /** A method other than GET and HEAD gets 405 before the filesystem is looked at: the reply is the same whatever exists. */
  lemma MethodNotAllowed(line: RequestLine, fs1: FileSystem, fs2: FileSystem, docRoot1: Segments, docRoot2: Segments,
                         date: string, mimeGuess: Segments -> Option<string>)
    requires line.verb != "GET" && line.verb != "HEAD"
    ensures Reply(Some(line), fs1, docRoot1, date, mimeGuess) == Reply(Some(line), fs2, docRoot2, date, mimeGuess)
    ensures Reply(Some(line), fs1, docRoot1, date, mimeGuess) == ErrorReply(405, date)
  {
  }

  /** Every reply other than 200 is headers only, with length 0 and `text/plain`, and carries the resolver's status. */
  lemma ErrorsAreBare(line: RequestLine, fs: FileSystem, docRoot: Segments, date: string,
                      mimeGuess: Segments -> Option<string>)
    requires line.verb == "GET" || line.verb == "HEAD"
    requires ResolvePath(fs, docRoot, line.target).status != 200
    ensures var status := ResolvePath(fs, docRoot, line.target).status;
      (status == 403 || status == 404)
      && Reply(Some(line), fs, docRoot, date, mimeGuess) == ErrorReply(status, date)
  {
  }

  /** A GET or HEAD whose target resolves to a file is answered by that file's 200 reply. */
  lemma DispatchToFile(line: RequestLine, fs: FileSystem, docRoot: Segments, date: string,
                       mimeGuess: Segments -> Option<string>)
    requires line.verb == "GET" || line.verb == "HEAD"
    requires ResolvePath(fs, docRoot, line.target).status == 200
    ensures var p := ResolvePath(fs, docRoot, line.target).file.value;
      Reply(Some(line), fs, docRoot, date, mimeGuess)
        == FileReply(line.verb == "GET", fs, p, GuessContentType(NameOf(p), mimeGuess(p)), date)
  {
  }

  /**
    HEAD gets exactly the headers GET gets and no body; GET's reply is those
    headers followed by the whole file.
  */
  lemma HeadMatchesGet(fs: FileSystem, p: Segments, contentType: string, date: string)
    requires IsFile(fs, p)
    ensures var head := FileReply(false, fs, p, contentType, date);
      var get := FileReply(true, fs, p, contentType, date);
      var h := BuildHeaders(200, |fs[p].content|, Some(contentType), date);
      && (h.Some? ==> head == h.value && get == head + fs[p].content)
      && (h.None? ==> head == [] && get == [])
  {
  }
}
