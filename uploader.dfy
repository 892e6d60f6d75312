/**
 * The upload sink (src/utils/uploader.rs): either a local debug file that
 * receives the bytes of every uploaded file one after another, or an
 * in-memory buffer that `commit` sends as the body of one pre-signed HTTP
 * request. Reading files, writing the debug file and sending the request
 * are effects: what they produce is passed in, and the request that would
 * be sent is returned as a value.
 */
module Uploading {
  import opened Common

  /** `clift::api::PreSignedRequest`, as the server returned it. */
  datatype PreSignedRequest = PreSignedRequest(url: string, httpMethod: string, headers: map<string, string>)

  /** The two variants of `Uploader`, without their byte contents. */
  datatype Sink = File(path: string) | S3(request: PreSignedRequest)

  /** The HTTP request `commit` sends. */
  datatype HttpRequest = HttpRequest(httpMethod: string, url: string, headers: map<string, string>, body: seq<byte>)

  /** A `reqwest::Error`: a transport failure, or a URL or header the builder rejected. */
  datatype TransportError = TransportError(code: int)

  /** What came back from the server; `commit` never looks at it. */
  datatype Response = Response(status: int)

  datatype UploaderError = IOError(io: IoError) | S3Error(transport: TransportError)

  /** A `tchar` of section 3.2.6 of RFC 7230, the characters an HTTP method name is made of. */
  predicate IsTokenChar(c: char)
  {
    ('0' <= c <= '9') || ('a' <= c <= 'z') || ('A' <= c <= 'Z')
    || c == '!' || c == '#' || c == '$' || c == '%' || c == '&' || c == '\'' || c == '*'
    || c == '+' || c == '-' || c == '.' || c == '^' || c == '_' || c == '`' || c == '|' || c == '~'
  }

  /** A delimiter of section 3.2.6 of RFC 7230. */
  predicate IsDelimiter(c: char)
  {
    c == '"' || c == '(' || c == ')' || c == ',' || c == '/' || c == ':' || c == ';' || c == '<'
    || c == '=' || c == '>' || c == '?' || c == '@' || c == '[' || c == '\\' || c == ']' || c == '{' || c == '}'
  }

  /** The other reading of a `tchar`: a visible ASCII character that is no delimiter. */
  predicate IsVisibleNonDelimiter(c: char)
  {
    '!' <= c <= '~' && !IsDelimiter(c)
  }

  /** The method strings `reqwest::Method::from_bytes` accepts; any other makes `commit` panic. */
  predicate IsMethodToken(m: string)
    ensures IsMethodToken(m) <==> m != [] && forall i :: 0 <= i < |m| ==> IsVisibleNonDelimiter(m[i])
  {
    |m| > 0 && forall i :: 0 <= i < |m| ==> IsTokenChar(m[i])
  }

  class Uploader {
    /** Which variant this uploader is; fixed when it is made. */
    const sink: Sink
    /** `File`: everything written to the debug file so far. `S3`: the `Vec<u8>` buffer. */
    var staged: seq<byte>

    /** `Uploader::s3`: an empty buffer and the request kept as given. */
    constructor S3Uploader(sr: PreSignedRequest)
      ensures sink == S3(sr) && staged == []
    {
      sink := S3(sr);
      staged := [];
    }

    /** The `File` variant over a file that was just created, so is empty. */
    constructor FileUploader(path: string)
      ensures sink == File(path) && staged == []
    {
      sink := File(path);
      staged := [];
    }

    /** `Uploader::debug`: `created` is the error `File::create` raised, if any. */
    static method Debug(path: string, created: Option<IoError>) returns (r: Result<Uploader, UploaderError>)
      ensures created.Some? ==> r == Err(IOError(created.value))
      ensures created.None? ==>
                r.Ok? && fresh(r.value) && r.value.sink == File(path) && r.value.staged == []
    {
      if created.Some? {
        return Err(IOError(created.value));
      }
      var u := new Uploader.FileUploader(path);
      return Ok(u);
    }

    /**
     * `upload` of one file, given what reading it produced: the bytes go
     * after everything staged before, on either variant; a failed read
     * stages nothing.
     */
    method Upload(read: ReadResult) returns (r: Result<(), UploaderError>)
      modifies this
      ensures read.ReadFailed? ==> r == Err(IOError(read.error)) && staged == old(staged)
      ensures read.Read? ==> r == Ok(()) && staged == old(staged) + read.bytes
    {
      match read
      case ReadFailed(e) =>
        return Err(IOError(e));
      case Read(bytes) =>
        staged := staged + bytes;
        return Ok(());
    }

    /**
     * `commit`: on `S3`, the one request built from the stored method, URL
     * and every stored header, with the buffer as its body (the buffer is
     * cloned, not cleared); it fails only when sending it fails. On `File`
     * nothing happens.
     */
    method Commit(response: Result<Response, TransportError>) returns (r: Result<(), UploaderError>, sent: Option<HttpRequest>)
      requires sink.S3? ==> IsMethodToken(sink.request.httpMethod)
      ensures sink.File? ==> r == Ok(()) && sent == None
      ensures sink.S3? ==>
                sent == Some(HttpRequest(sink.request.httpMethod, sink.request.url, sink.request.headers, staged))
      ensures sink.S3? ==> r == (if response.Ok? then Ok(()) else Err(S3Error(response.error)))
    {
      match sink
      case File(_) =>
        return Ok(()), None;
      case S3(sr) =>
        var headers: map<string, string> := map[];
        var remaining := sr.headers.Keys;
        while remaining != {}
          invariant remaining <= sr.headers.Keys
          invariant headers.Keys == sr.headers.Keys - remaining
          invariant forall k :: k in headers ==> headers[k] == sr.headers[k]
          decreases remaining
        {
          var k :| k in remaining;
          headers := headers[k := sr.headers[k]];
          remaining := remaining - {k};
        }
        assert headers == sr.headers;
        sent := Some(HttpRequest(sr.httpMethod, sr.url, headers, staged));
        match response
        case Ok(_) =>
          r := Ok(());
        case Err(e) =>
          r := Err(S3Error(e));
    }
  }

  /**
   * Two uploads and a commit on a fresh `S3` uploader: the body sent is the
   * two files' bytes in upload order.
   */
  method CommitAfterTwoUploads(sr: PreSignedRequest, first: seq<byte>, second: seq<byte>, response: Response)
    returns (sent: Option<HttpRequest>)
    requires IsMethodToken(sr.httpMethod)
    ensures sent == Some(HttpRequest(sr.httpMethod, sr.url, sr.headers, first + second))
  {
    var u := new Uploader.S3Uploader(sr);
    var r1 := u.Upload(Read(first));
    var r2 := u.Upload(Read(second));
    assert u.staged == [] + first + second == first + second;
    var r;
    r, sent := u.Commit(Ok(response));
  }
}
