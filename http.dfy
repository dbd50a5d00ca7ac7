/** The request and response records of include/cserve_net.h, the status
    and method enumerations, and the documented contracts of
    create_http_response and http_response_to_string.

    The implementations of method_str_to_enum, create_http_response and
    http_response_to_string are not part of this model; what they depend on
    that the header leaves open (the wall-clock date, the server token, the
    reason phrase of each status, the spelling rules of method names) is an
    Env parameter. */
module Http {
  import opened CLib

  // Capacities of the request record's character arrays.
  const MethodCap: nat := 16
  const PathCap: nat := 512
  const VersionCap: nat := 16
  const HostCap: nat := 256
  const UserAgentCap: nat := 512
  const AcceptCap: nat := 256
  const ConnectionCap: nat := 32

  // Capacities of the response record's character arrays.
  const StatusMessageCap: nat := 64
  const DateCap: nat := 64
  const ServerCap: nat := 64
  const ContentTypeCap: nat := 64

  const CRLF: seq<char> := "\r\n"

  /** The value of a cserver_http_req_t. */
  datatype RequestFields = RequestFields(
    methodName: seq<char>,
    path: seq<char>,
    version: seq<char>,
    host: seq<char>,
    userAgent: seq<char>,
    accept: seq<char>,
    connection: seq<char>)

  /** A zeroed record: every field the empty string. */
  const EmptyRequest := RequestFields("", "", "", "", "", "", "")

  /** Every field fits its array with room for the terminating NUL, and is a
      C string. */
  predicate RequestFits(r: RequestFields) {
    |r.methodName| < MethodCap && |r.path| < PathCap && |r.version| < VersionCap &&
    |r.host| < HostCap && |r.userAgent| < UserAgentCap && |r.accept| < AcceptCap &&
    |r.connection| < ConnectionCap &&
    NUL !in r.methodName && NUL !in r.path && NUL !in r.version && NUL !in r.host &&
    NUL !in r.userAgent && NUL !in r.accept && NUL !in r.connection
  }

  /** cserver_http_req_t: the parser fills it, the GET handler rewrites its
      path in place. */
  class HttpRequest {
    var methodName: seq<char>
    var path: seq<char>
    var version: seq<char>
    var host: seq<char>
    var userAgent: seq<char>
    var accept: seq<char>
    var connection: seq<char>

    function Fields(): RequestFields
      reads this
    {
      RequestFields(methodName, path, version, host, userAgent, accept, connection)
    }

    /** malloc followed by memset(req, 0, sizeof *req). */
    constructor ()
      ensures Fields() == EmptyRequest
    {
      methodName, path, version := "", "", "";
      host, userAgent, accept, connection := "", "", "", "";
    }
  }

  /** cserver_http_status_t. */
  datatype Status =
    | Ok | Created | NoContent
    | BadRequest | Unauthorized | Forbidden | NotFound | MethodNotAllowed
    | InternalServerError | NotImplemented | ServiceUnavailable
  {
    function Code(): (c: nat)
      ensures 200 <= c < 600
    {
      match this
      case Ok => 200
      case Created => 201
      case NoContent => 204
      case BadRequest => 400
      case Unauthorized => 401
      case Forbidden => 403
      case NotFound => 404
      case MethodNotAllowed => 405
      case InternalServerError => 500
      case NotImplemented => 501
      case ServiceUnavailable => 503
    }
  }

  /** The codes of the enumeration are exactly these eleven, one status
      each. */
  lemma StatusCodes()
    ensures forall s: Status :: s.Code() in {200, 201, 204, 400, 401, 403, 404, 405, 500, 501, 503}
    ensures forall s: Status, t: Status :: s.Code() == t.Code() ==> s == t
  {
  }

  /** cserver_http_method_t: nine members and no "unknown" one, so
      method_str_to_enum is a total function into it. */
  datatype Method = Get | Head | Post | Put | Delete | Connect | Options | Trace | Patch

  /** What the unseen implementations depend on: the current date, the
      server token, the reason phrase per status, and method_str_to_enum. */
  datatype Env = Env(
    date: seq<char>,
    server: seq<char>,
    reason: Status -> seq<char>,
    methodOf: seq<char> -> Method)
  {
    predicate Fits() {
      |date| < DateCap && |server| < ServerCap &&
      forall s: Status :: |reason(s)| < StatusMessageCap
    }
  }

  /** The value of a cserver_http_res_t. */
  datatype Response = Response(
    version: seq<char>,
    status: Status,
    statusMessage: seq<char>,
    date: seq<char>,
    server: seq<char>,
    contentType: seq<char>,
    contentLength: nat,
    connection: seq<char>,
    body: Option<seq<char>>)
  {
    function BodyBytes(): seq<char> {
      if body.Some? then body.value else []
    }
  }

  /** The defaults the header promises of every created response, and the
      body-length invariant. */
  predicate WellFormed(r: Response) {
    r.version == "HTTP/1.1" && r.connection == "close" &&
    r.contentLength == |r.BodyBytes()|
  }

  predicate ResponseFits(r: Response) {
    |r.version| < VersionCap && |r.statusMessage| < StatusMessageCap &&
    |r.date| < DateCap && |r.server| < ServerCap &&
    |r.contentType| < ContentTypeCap && |r.connection| < ConnectionCap
  }

  /** create_http_response: HTTP/1.1, the current date, the server token,
      Connection: close, and a copy of the body; `created` is false when
      the allocation fails (NULL). */
  function CreateResponse(status: Status, contentType: seq<char>, body: Option<seq<char>>,
                          env: Env, created: bool): (r: Option<Response>)
    ensures r.Some? <==> created
    ensures r.Some? ==> (WellFormed(r.value) && r.value.status == status &&
      r.value.contentType == contentType && r.value.body == body &&
      r.value.statusMessage == env.reason(status) &&
      r.value.date == env.date && r.value.server == env.server)
  {
    if !created then None
    else
      var length := if body.Some? then |body.value| else 0;
      Some(Response("HTTP/1.1", status, env.reason(status), env.date, env.server,
                    contentType, length, "close", body))
  }

  /** With an environment and a content type that fit, the created record
      fits its arrays. */
  lemma CreateFits(status: Status, contentType: seq<char>, body: Option<seq<char>>, env: Env)
    requires env.Fits() && |contentType| < ContentTypeCap
    ensures ResponseFits(CreateResponse(status, contentType, body, env, true).value)
  {
  }

  // ---------------------------------------------------------------------
  // Decimal rendering of numbers (status code, Content-Length)

  predicate IsDigit(c: char) { '0' <= c <= '9' }

  predicate AllDigits(s: seq<char>) {
    forall i :: 0 <= i < |s| ==> IsDigit(s[i])
  }

  function DigitChar(d: nat): (c: char)
    requires d < 10
    ensures IsDigit(c)
  {
    ('0' as int + d) as char
  }

  function Decimal(n: nat): (s: seq<char>)
    ensures s != [] && AllDigits(s)
    ensures s[0] == '0' ==> s == "0"
  {
    if n < 10 then [DigitChar(n)] else Decimal(n / 10) + [DigitChar(n % 10)]
  }

  function DecimalValue(s: seq<char>): nat
    requires AllDigits(s)
  {
    if s == [] then 0 else DecimalValue(s[..|s| - 1]) * 10 + (s[|s| - 1] as int - '0' as int)
  }

  /** Reading the rendered number back gives the number. */
  lemma {:induction false} DecimalRoundTrip(n: nat)
    ensures DecimalValue(Decimal(n)) == n
  {
    if n >= 10 {
      var s := Decimal(n);
      assert s[..|s| - 1] == Decimal(n / 10);
      DecimalRoundTrip(n / 10);
    }
  }

  // ---------------------------------------------------------------------
  // Serialisation (http_response_to_string)

  /** The status line: version, code and reason phrase. */
  function StatusLine(r: Response): seq<char> {
    r.version + " " + Decimal(r.status.Code()) + " " + r.statusMessage
  }

  /** The status line and the header lines, in the documented order. */
  function HeadLines(r: Response): seq<seq<char>> {
    [StatusLine(r),
     "Date: " + r.date,
     "Server: " + r.server,
     "Content-Type: " + r.contentType,
     "Content-Length: " + Decimal(r.contentLength),
     "Connection: " + r.connection]
  }

  /** Every line followed by CRLF, then the blank line. */
  function ResponseHead(r: Response): seq<char> {
    Join(HeadLines(r)) + CRLF
  }

  /** The status line, the five header lines, a blank line, then the body
      bytes verbatim. */
  function Serialize(r: Response): (bytes: seq<char>)
    ensures |bytes| == |ResponseHead(r)| + |r.BodyBytes()|
  {
    ResponseHead(r) + r.BodyBytes()
  }

  /** Index of the first "\r\n\r\n" in s, or |s| when there is none. */
  function FindBlankLine(s: seq<char>): (k: nat)
    ensures k <= |s|
  {
    if |s| < 4 then |s| else if s[..4] == "\r\n\r\n" then 0 else 1 + FindBlankLine(s[1..])
  }

  predicate NoLineBreak(s: seq<char>) {
    '\r' !in s && '\n' !in s
  }

  /** Passing a line of text without line breaks and its CRLF. */
  lemma {:induction false} SkipLine(x: seq<char>, rest: seq<char>)
    requires NoLineBreak(x)
    ensures FindBlankLine(x + CRLF + rest) ==
      |x| + (if |rest| >= 2 && rest[..2] == CRLF then 0 else 2 + FindBlankLine(rest))
    decreases |x|
  {
    var s := x + CRLF + rest;
    if x == [] {
      assert s == ['\r', '\n'] + rest;
      if |s| >= 4 {
        if |rest| >= 2 && rest[..2] == CRLF {
          assert s[..4] == s[..2] + s[2..4];
          assert s[2..4] == rest[..2];
        } else {
          assert s[..4] != "\r\n\r\n" by { assert s[2..4] == rest[..2]; }
          assert s[1..] == ['\n'] + rest;
          var t := s[1..];
          if |t| >= 4 { assert t[..4] != "\r\n\r\n" by { assert t[0] == '\n'; } }
          assert t[1..] == rest;
        }
      }
    } else {
      assert s[0] == x[0] && x[0] != '\r';
      assert s[1..] == x[1..] + CRLF + rest;
      SkipLine(x[1..], rest);
    }
  }

  predicate FieldsLineFree(r: Response) {
    NoLineBreak(r.version) && NoLineBreak(r.statusMessage) && NoLineBreak(r.date) &&
    NoLineBreak(r.server) && NoLineBreak(r.contentType) && NoLineBreak(r.connection)
  }

  /** Lines of text, each followed by CRLF. */
  function Join(lines: seq<seq<char>>): seq<char> {
    if lines == [] then [] else lines[0] + CRLF + Join(lines[1..])
  }

  /** After non-empty lines without line breaks, the first blank line is
      the extra CRLF that follows them. */
  lemma {:induction false} JoinBlankLine(lines: seq<seq<char>>, b: seq<char>)
    requires lines != []
    requires forall i :: 0 <= i < |lines| ==> lines[i] != [] && NoLineBreak(lines[i])
    ensures |Join(lines)| >= 2
    ensures FindBlankLine(Join(lines) + CRLF + b) == |Join(lines)| - 2
  {
    var rest := Join(lines[1..]) + CRLF + b;
    assert Join(lines) + CRLF + b == lines[0] + CRLF + rest;
    SkipLine(lines[0], rest);
    if |lines| == 1 {
      assert rest == CRLF + b;
      assert rest[..2] == CRLF;
    } else {
      JoinBlankLine(lines[1..], b);
      assert Join(lines[1..]) == lines[1] + CRLF + Join(lines[2..]);
      assert rest[0] == lines[1][0];
      assert lines[1][0] in lines[1];
    }
  }

  /** A reader of the serialised bytes finds the end of the header section
      at the first blank line and the body, byte for byte, after it: the
      serialisation can be split back into head and body. */
  lemma HeaderEndsAtFirstBlankLine(r: Response)
    requires FieldsLineFree(r)
    ensures FindBlankLine(Serialize(r)) == |ResponseHead(r)| - 4
    ensures Serialize(r)[FindBlankLine(Serialize(r)) + 4..] == r.BodyBytes()
  {
    var lines := HeadLines(r);
    DigitsLineFree(Decimal(r.status.Code()));
    DigitsLineFree(Decimal(r.contentLength));
    forall i | 0 <= i < |lines| ensures lines[i] != [] && NoLineBreak(lines[i]) {
      LineFreeConcat(i, r);
    }
    JoinBlankLine(lines, r.BodyBytes());
  }

  lemma LineFreeConcat(i: nat, r: Response)
    requires FieldsLineFree(r)
    requires NoLineBreak(Decimal(r.status.Code())) && NoLineBreak(Decimal(r.contentLength))
    requires i < |HeadLines(r)|
    ensures HeadLines(r)[i] != [] && NoLineBreak(HeadLines(r)[i])
  {
  }

  lemma DigitsLineFree(s: seq<char>)
    requires AllDigits(s)
    ensures NoLineBreak(s)
  {
  }

  /** The Content-Length line carries the body's byte count: the value
      written after "Content-Length: " reads back as the length of the body
      that follows the blank line. */
  lemma ContentLengthMatchesBody(r: Response)
    requires WellFormed(r)
    ensures DecimalValue(Decimal(r.contentLength)) == |r.BodyBytes()|
    ensures Serialize(r)[|Serialize(r)| - r.contentLength..] == r.BodyBytes()
  {
    DecimalRoundTrip(r.contentLength);
    assert Serialize(r)[|ResponseHead(r)|..] == r.BodyBytes();
  }

  /** A created 200 response, serialised, starts with the status line
      "HTTP/1.1 200 OK" when the reason phrase of 200 is "OK". */
  lemma OkStatusLine(contentType: seq<char>, body: Option<seq<char>>, env: Env)
    requires env.reason(Ok) == "OK"
    ensures Serialize(CreateResponse(Ok, contentType, body, env, true).value)[..17] == "HTTP/1.1 200 OK\r\n"
  {
    var r := CreateResponse(Ok, contentType, body, env, true).value;
    assert Decimal(20) == Decimal(2) + ['0'];
    assert Decimal(200) == "200";
    assert StatusLine(r) == "HTTP/1.1 200 OK";
    assert Join(HeadLines(r)) == StatusLine(r) + CRLF + Join(HeadLines(r)[1..]);
  }
}
