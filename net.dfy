/** The request parser of src/cserve_net.c: trim_whitespace,
    extract_header_value and parse_http_request.

    Each routine is a method that works the way the C code does (cursor
    loops, strtok_r calls, a caller-supplied value buffer); each is proved
    against a specification function (Trim, HeaderValue, ParseRequest), and
    the lemmas after them state what those functions promise. */
module Net {
  import opened CLib
  import opened Http

  // ---------------------------------------------------------------------
  // trim_whitespace

  function LeadingSpaces(s: seq<char>): (n: nat)
    ensures n <= |s| && AllSpace(s[..n])
    ensures n < |s| ==> !IsSpace(s[n])
  {
    if s == [] || !IsSpace(s[0]) then 0 else 1 + LeadingSpaces(s[1..])
  }

  function TrailingSpaces(s: seq<char>): (n: nat)
    ensures n <= |s| && forall i :: |s| - n <= i < |s| ==> IsSpace(s[i])
    ensures n < |s| ==> !IsSpace(s[|s| - 1 - n])
  {
    if s == [] || !IsSpace(s[|s| - 1]) then 0
    else 1 + TrailingSpaces(s[..|s| - 1])
  }

  /** t is s with whitespace-only pieces cut from both ends. */
  predicate TrimmedSlice(s: seq<char>, t: seq<char>, a: nat, b: nat) {
    a <= b <= |s| && t == s[a..b] && AllSpace(s[..a]) && AllSpace(s[b..])
  }

  /** No whitespace at either end. */
  predicate Trimmed(t: seq<char>) {
    t == [] || (!IsSpace(t[0]) && !IsSpace(t[|t| - 1]))
  }

  /** What trim_whitespace leaves of s: the contiguous piece of s between
      its leading and its trailing whitespace, empty when s is all
      whitespace. */
  function Trim(s: seq<char>): (t: seq<char>)
    ensures exists a: nat, b: nat :: TrimmedSlice(s, t, a, b)
    ensures Trimmed(t)
    ensures t == [] <==> AllSpace(s)
  {
    var a := LeadingSpaces(s);
    if a == |s| then
      assert TrimmedSlice(s, [], |s|, |s|);
      []
    else
      var n := TrailingSpaces(s);
      assert a < |s| - n by { assert !IsSpace(s[a]); }
      var tail := s[|s| - n..];
      assert AllSpace(tail) by {
        forall i | 0 <= i < |tail| ensures IsSpace(tail[i]) {
          assert tail[i] == s[|s| - n + i];
        }
      }
      assert TrimmedSlice(s, s[a..|s| - n], a, |s| - n);
      assert !AllSpace(s) by { assert !IsSpace(s[a]); }
      s[a..|s| - n]
  }

  /** Trim is the only way to cut whitespace from both ends that leaves
      neither end on whitespace. */
  lemma TrimUnique(s: seq<char>, t: seq<char>, a: nat, b: nat)
    requires TrimmedSlice(s, t, a, b) && Trimmed(t)
    requires t == [] ==> AllSpace(s)
    ensures Trim(s) == t
  {
    var t' := Trim(s);
    if t != [] {
      var a': nat, b': nat :| TrimmedSlice(s, t', a', b');
      TrimmedBounds(s, t, a, b);
      assert t' != [] by { assert !IsSpace(s[a]); }
      TrimmedBounds(s, t', a', b');
      assert a == a';
      assert b == b';
    }
  }

  /** The ends of a non-empty trimmed slice are its first and last
      non-whitespace characters. */
  lemma TrimmedBounds(s: seq<char>, t: seq<char>, a: nat, b: nat)
    requires TrimmedSlice(s, t, a, b) && Trimmed(t) && t != []
    ensures a < b && !IsSpace(s[a]) && !IsSpace(s[b - 1])
    ensures forall i :: 0 <= i < a ==> IsSpace(s[i])
    ensures forall i :: b <= i < |s| ==> IsSpace(s[i])
  {
    assert t[0] == s[a] && t[|t| - 1] == s[b - 1];
    forall i | 0 <= i < a ensures IsSpace(s[i]) {
      assert s[..a][i] == s[i];
    }
    forall i | b <= i < |s| ensures IsSpace(s[i]) {
      assert s[b..][i - b] == s[i];
    }
  }

  /** Trimming twice trims no more than trimming once. */
  lemma TrimIdempotent(s: seq<char>)
    ensures Trim(Trim(s)) == Trim(s)
  {
    var t := Trim(s);
    TrimUnique(t, t, 0, |t|);
  }

  /** trim_whitespace: advance a start cursor over leading whitespace, an
      end cursor back over trailing whitespace, memmove the rest to the
      front and terminate it. */
  method TrimWhitespace(str: array<char>)
    requires NUL in str[..]
    modifies str
    ensures NUL in str[..]
    ensures CStr(str[..]) == Trim(CStr(old(str[..])))
  {
    var start := SkipLeadingSpaces(str);
    if str[start] == NUL {
      str[0] := NUL;
      CStrAt(str[..], 0);
    } else {
      TrimFrom(str, start);
    }
  }

  /** The rest of trim_whitespace once the start cursor is on a character
      that is not whitespace: find the end cursor, move the piece between
      them to the front and terminate it there. */
  method TrimFrom(str: array<char>, start: nat)
    requires NUL in str[..]
    requires start < |CStr(str[..])| && !IsSpace(str[start])
    requires AllSpace(CStr(str[..])[..start])
    modifies str
    ensures NUL in str[..]
    ensures CStr(str[..]) == Trim(CStr(old(str[..])))
  {
    ghost var s := CStr(str[..]);
    var end := LastNonSpace(str, start);
    var len := end - start + 1;
    MoveToFront(str, start, len);
    ghost var moved := str[..];
    assert moved[..len] == Trim(s);
    TrimNulFree(s);
    CStrAt(moved, len);
    assert moved[len] in moved;
  }

  /** Trimming a C string leaves a C string. */
  lemma TrimNulFree(s: seq<char>)
    requires NUL !in s
    ensures NUL !in Trim(s)
  {
    var t := Trim(s);
    var a: nat, b: nat :| TrimmedSlice(s, t, a, b);
    forall i | 0 <= i < |t| ensures t[i] != NUL {
      assert t[i] == s[a + i] && s[a + i] in s;
    }
  }

  /** The first loop of trim_whitespace: the start cursor stops at the
      first character that is NUL or not whitespace. */
  method SkipLeadingSpaces(str: array<char>) returns (start: nat)
    requires NUL in str[..]
    ensures start <= |CStr(str[..])| < str.Length
    ensures str[start] == NUL <==> start == |CStr(str[..])|
    ensures str[start] == NUL ==> Trim(CStr(str[..])) == []
    ensures str[start] != NUL ==> !IsSpace(str[start]) && AllSpace(CStr(str[..])[..start])
  {
    ghost var buf := str[..];
    ghost var s := CStr(buf);
    assert s == buf[..|s|] && buf[|s|] == NUL;
    start := 0;
    while str[start] != NUL && IsSpace(str[start])
      invariant 0 <= start <= |s|
      invariant AllSpace(s[..start])
      decreases |s| - start
    {
      assert s[..start + 1] == s[..start] + [s[start]];
      start := start + 1;
    }
    if str[start] == NUL {
      EmptyWhenAllSpace(s, start);
    }
  }

  /** The second loop of trim_whitespace: from start + strlen(start) - 1
      the end cursor moves back over whitespace, never past start; the
      characters between the cursors are Trim of the string. */
  method LastNonSpace(str: array<char>, start: nat) returns (end: nat)
    requires NUL in str[..]
    requires start < |CStr(str[..])| && !IsSpace(str[start])
    requires AllSpace(CStr(str[..])[..start])
    ensures start <= end < |CStr(str[..])|
    ensures str[start..end + 1] == Trim(CStr(str[..]))
  {
    ghost var buf := str[..];
    StrlenFrom(buf, start);
    end := ScanBack(str, start, |CStr(str[start..])|);
    ScanBackTrims(buf, CStr(buf), start, end);
  }

  /** Where the end cursor stops, the slice between the cursors is Trim of
      the string s held at the start of the buffer. */
  lemma ScanBackTrims(buf: seq<char>, s: seq<char>, start: nat, end: nat)
    requires s <= buf && start <= end < |s|
    requires !IsSpace(buf[start]) && AllSpace(s[..start])
    requires end > start ==> !IsSpace(buf[end])
    requires forall i :: end < i < |s| ==> IsSpace(buf[i])
    ensures buf[start..end + 1] == Trim(s)
  {
    TailSpaces(buf, s, end);
    TrimCursors(s, start, end);
    PrefixSlice(buf, s, start, end + 1);
  }

  lemma TailSpaces(buf: seq<char>, s: seq<char>, end: nat)
    requires s <= buf && end < |s|
    requires forall i :: end < i < |s| ==> IsSpace(buf[i])
    ensures AllSpace(s[end + 1..])
  {
    var u := s[end + 1..];
    forall i | 0 <= i < |u| ensures IsSpace(u[i]) {
      assert u[i] == buf[end + 1 + i];
    }
  }

  /** The end cursor of trim_whitespace: it starts on the last character
      of the string and moves back over whitespace, stopping at start. */
  method ScanBack(str: array<char>, start: nat, len: nat) returns (end: nat)
    requires 0 < len && start + len <= str.Length
    ensures start <= end < start + len
    ensures end > start ==> !IsSpace(str[end])
    ensures forall i :: end < i < start + len ==> IsSpace(str[i])
  {
    end := start + len - 1;
    while end > start && IsSpace(str[end])
      invariant start <= end < start + len
      invariant forall i :: end < i < start + len ==> IsSpace(str[i])
    {
      end := end - 1;
    }
  }

  /** start + strlen(str + start) is the length of the whole C string, and
      the array agrees with it below that point. */
  lemma StrlenFrom(buf: seq<char>, start: nat)
    requires NUL in buf && start < |CStr(buf)|
    ensures start + |CStr(buf[start..])| == |CStr(buf)|
    ensures forall i :: 0 <= i < |CStr(buf)| ==> buf[i] == CStr(buf)[i]
  {
    CStrDrop(buf, start);
  }

  lemma PrefixSlice(buf: seq<char>, s: seq<char>, a: nat, b: nat)
    requires s <= buf && a <= b <= |s|
    ensures buf[a..b] == s[a..b]
  {
  }

  lemma EmptyWhenAllSpace(s: seq<char>, start: nat)
    requires start == |s| && AllSpace(s[..start])
    ensures Trim(s) == []
  {
    assert s[..start] == s;
  }

  /** The cursors trim_whitespace stops at delimit Trim(s). */
  lemma TrimCursors(s: seq<char>, start: nat, end: nat)
    requires start <= end < |s| && AllSpace(s[..start]) && AllSpace(s[end + 1..])
    requires !IsSpace(s[start]) && !IsSpace(s[end])
    ensures Trim(s) == s[start..end + 1]
  {
    assert TrimmedSlice(s, s[start..end + 1], start, end + 1);
    TrimUnique(s, s[start..end + 1], start, end + 1);
  }

  /** memmove(str, str + start, len) followed by str[len] = NUL. */
  method MoveToFront(str: array<char>, start: nat, len: nat)
    requires start + len < str.Length
    modifies str
    ensures str[..len] == old(str[start..start + len])
    ensures str[len] == NUL
    ensures str[len + 1..] == old(str[len + 1..])
  {
    var k := 0;
    while k < len
      invariant 0 <= k <= len
      invariant forall j :: 0 <= j < k ==> str[j] == old(str[start + j])
      invariant forall j :: k <= j < str.Length ==> str[j] == old(str[j])
    {
      str[k] := str[start + k];
      k := k + 1;
    }
    str[len] := NUL;
  }

  // ---------------------------------------------------------------------
  // extract_header_value

  /** The line starts with the header name, ignoring case, and has a
      colon somewhere. */
  predicate HeaderMatches(line: seq<char>, name: seq<char>) {
    StartsWithIgnoreCase(line, name) && ':' in line
  }

  /** The text after the first colon of the line. */
  function AfterColon(line: seq<char>): seq<char>
    requires ':' in line
  {
    line[IndexOf(line, ':') + 1..]
  }

  /** The value stored for a matching line: the text after its first colon,
      cut to fit a buffer of `size` bytes, then trimmed. */
  function HeaderValue(line: seq<char>, size: nat): seq<char>
    requires ':' in line && size > 0
  {
    Trim(Truncate(AfterColon(line), size))
  }

  /** The stored value is a trimmed piece of the text after the first
      colon that fits the buffer. */
  lemma HeaderValueShape(line: seq<char>, size: nat)
    requires ':' in line && size > 0 && NUL !in line
    ensures |HeaderValue(line, size)| < size && Trimmed(HeaderValue(line, size))
    ensures NUL !in HeaderValue(line, size)
    ensures exists a: nat, b: nat :: TrimmedSlice(Truncate(AfterColon(line), size), HeaderValue(line, size), a, b)
  {
    var v := Truncate(AfterColon(line), size);
    var a: nat, b: nat :| TrimmedSlice(v, HeaderValue(line, size), a, b);
    assert forall c :: c in v ==> c in line;
    assert forall c :: c in HeaderValue(line, size) ==> c in v;
  }

  /** strncpy(value, line + start, size - 1) followed by
      value[size - 1] = NUL: the buffer holds the rest of the line cut to
      fit, as a C string. */
  method CopyTerminated(line: seq<char>, start: nat, size: nat) returns (buf: array<char>)
    requires NUL !in line && start <= |line| && size > 0
    ensures fresh(buf) && buf.Length == size && NUL in buf[..]
    ensures CStr(buf[..]) == Truncate(line[start..], size)
  {
    ghost var src := line[start..];
    buf := new char[size];
    var i := 0;
    while i < size - 1
      invariant 0 <= i <= size - 1
      invariant forall j :: 0 <= j < i ==> buf[j] == if j < |src| then src[j] else NUL
    {
      buf[i] := if start + i < |line| then line[start + i] else NUL;
      i := i + 1;
    }
    buf[size - 1] := NUL;
    var t := Truncate(src, size);
    assert NUL !in src by { assert forall c :: c in src ==> c in line; }
    assert buf[..|t|] == t;
    assert NUL !in buf[..|t|];
    CStrAt(buf[..], |t|);
    assert buf[..][..|t|] == t;
  }

  /** extract_header_value(line, name, value, size): on a match, strncpy
      the text after the first colon into the value buffer, terminate it at
      size - 1 and trim it there; otherwise leave the value as it was. */
  method ExtractHeaderValue(line: seq<char>, name: seq<char>, value: seq<char>, size: nat)
    returns (found: bool, stored: seq<char>)
    requires NUL !in line && size > 0
    ensures found == HeaderMatches(line, name)
    ensures found ==> stored == HeaderValue(line, size)
    ensures !found ==> stored == value
  {
    if !StartsWithIgnoreCase(line, name) {
      return false, value;
    }
    if ':' !in line {
      return false, value;
    }
    var valStart := IndexOf(line, ':') + 1;
    var buf := CopyTerminated(line, valStart, size);
    ghost var copied := CStr(buf[..]);
    assert copied == Truncate(AfterColon(line), size);
    TrimWhitespace(buf);
    found, stored := true, CStr(buf[..]);
    assert stored == Trim(copied);
  }

  // ---------------------------------------------------------------------
  // parse_http_request

  /** One header line applied to the record: Host, User-Agent, Accept and
      Connection are tried in that order and the first that matches stores
      its value; any other line leaves the record as it is. */
  function ApplyHeader(r: RequestFields, line: seq<char>): RequestFields {
    if HeaderMatches(line, "Host") then r.(host := HeaderValue(line, HostCap))
    else if HeaderMatches(line, "User-Agent") then r.(userAgent := HeaderValue(line, UserAgentCap))
    else if HeaderMatches(line, "Accept") then r.(accept := HeaderValue(line, AcceptCap))
    else if HeaderMatches(line, "Connection") then r.(connection := HeaderValue(line, ConnectionCap))
    else r
  }

  /** The header lines applied in order. */
  function ApplyHeaders(r: RequestFields, lines: seq<seq<char>>): RequestFields
    decreases |lines|
  {
    if lines == [] then r else ApplyHeaders(ApplyHeader(r, lines[0]), lines[1..])
  }

  /** The zeroed record with the first three request-line tokens copied in,
      each cut to its array. */
  function RequestLine(words: seq<seq<char>>): RequestFields
    requires |words| >= 3
  {
    EmptyRequest.(methodName := Truncate(words[0], MethodCap),
                  path := Truncate(words[1], PathCap),
                  version := Truncate(words[2], VersionCap))
  }

  /** parse_http_request on the buffer `raw` points to (None for NULL):
      strdup reads it up to its first NUL; the lines are the strtok_r
      tokens on CR and LF; the request line's words are the strtok_r
      tokens on ' '; every later line is tried as a header. */
  function ParseRequest(raw: Option<seq<char>>): Option<RequestFields> {
    if raw.None? then None
    else
      var lines := Tokens(CStr(raw.value), LineBreaks);
      if lines == [] then None
      else
        var words := Tokens(lines[0], Space);
        if |words| < 3 then None
        else
          var r := ApplyHeaders(RequestLine(words), lines[1..]);
          if r.methodName == [] || r.path == [] then None else Some(r)
  }

  /** parse_http_request: the record is allocated zeroed, the request line
      is split with three strtok_r calls, and each further CR/LF token is
      handed to extract_header_value for the four recognised names. The
      loop's `strlen(line) > 0` test is kept as written. */
  method ParseHttpRequest(raw: Option<seq<char>>) returns (req: HttpRequest?)
    ensures req == null <==> ParseRequest(raw).None?
    ensures req != null ==> fresh(req) && req.Fields() == ParseRequest(raw).value
  {
    if raw.None? {
      return null;
    }
    req := new HttpRequest();
    var copy := CStr(raw.value);
    ghost var lines := Tokens(copy, LineBreaks);
    assert copy[0..] == copy;
    assert forall c :: c in copy ==> c != NUL;
    var line, pos := NextToken(copy, 0, LineBreaks);
    if line.None? {
      return null;
    }
    var requestLine := line.value;
    ghost var words := Tokens(requestLine, Space);
    var ok, methodTok, pathTok, versionTok := SplitRequestLine(requestLine);
    if !ok {
      return null;
    }
    assert words[0] == methodTok && words[1] == pathTok && words[2] == versionTok by {
      assert words[..3][0] == words[0] && words[..3][1] == words[1] && words[..3][2] == words[2];
    }
    assert req.Fields() == EmptyRequest;
    req.methodName := Truncate(methodTok, MethodCap);
    req.path := Truncate(pathTok, PathCap);
    req.version := Truncate(versionTok, VersionCap);
    assert req.Fields() == RequestLine(words);
    ParseHeaderLines(req, copy, pos);
    if |req.methodName| == 0 || |req.path| == 0 {
      return null;
    }
  }

  /** The header loop of parse_http_request: strtok_r on CR and LF from
      `pos` on, each line handed to the four extract_header_value calls,
      until strtok_r finds no more (or, as written, an empty line, which
      strtok_r never returns). */
  method ParseHeaderLines(req: HttpRequest, copy: seq<char>, pos: nat)
    requires pos <= |copy| && NUL !in copy
    modifies req
    ensures req.Fields() == ApplyHeaders(old(req.Fields()), Tokens(copy[pos..], LineBreaks))
  {
    ghost var base := req.Fields();
    ghost var rest := Tokens(copy[pos..], LineBreaks);
    var line, next := NextToken(copy, pos, LineBreaks);
    while line.Some? && |line.value| > 0
      invariant next <= |copy|
      invariant line.Some? ==> rest == [line.value] + Tokens(copy[next..], LineBreaks)
      invariant line.Some? ==> line.value != [] && NUL !in line.value
      invariant line.None? ==> rest == []
      invariant ApplyHeaders(req.Fields(), rest) == ApplyHeaders(base, Tokens(copy[pos..], LineBreaks))
      decreases |copy| - next + (if line.Some? then 1 else 0)
    {
      ApplyHeaderLine(req, line.value);
      rest := rest[1..];
      line, next := NextToken(copy, next, LineBreaks);
    }
  }

  /** The three strtok_r(…, " ", …) calls on the request line: all three
      succeed exactly when the line has at least three words, and then they
      are its first three words. */
  method SplitRequestLine(requestLine: seq<char>)
    returns (ok: bool, methodTok: seq<char>, pathTok: seq<char>, versionTok: seq<char>)
    ensures ok <==> |Tokens(requestLine, Space)| >= 3
    ensures ok ==> Tokens(requestLine, Space)[..3] == [methodTok, pathTok, versionTok]
  {
    ghost var words := Tokens(requestLine, Space);
    assert requestLine[0..] == requestLine;
    var m, p := NextToken(requestLine, 0, Space);
    if m.None? {
      return false, [], [], [];
    }
    var pt;
    pt, p := NextToken(requestLine, p, Space);
    if pt.None? {
      return false, [], [], [];
    }
    var v;
    v, p := NextToken(requestLine, p, Space);
    if v.None? {
      return false, [], [], [];
    }
    assert words[..3] == [m.value, pt.value, v.value];
    return true, m.value, pt.value, v.value;
  }

  /** One pass of the header loop: extract_header_value is tried for Host,
      User-Agent, Accept and Connection in turn, and the first that matches
      writes its field of the record. */
  method ApplyHeaderLine(req: HttpRequest, line: seq<char>)
    requires NUL !in line
    modifies req
    ensures req.Fields() == ApplyHeader(old(req.Fields()), line)
  {
    var found: bool;
    found, req.host := ExtractHeaderValue(line, "Host", req.host, HostCap);
    if found {
      return;
    }
    found, req.userAgent := ExtractHeaderValue(line, "User-Agent", req.userAgent, UserAgentCap);
    if found {
      return;
    }
    found, req.accept := ExtractHeaderValue(line, "Accept", req.accept, AcceptCap);
    if found {
      return;
    }
    found, req.connection := ExtractHeaderValue(line, "Connection", req.connection, ConnectionCap);
  }

  // ---------------------------------------------------------------------
  // What parse_http_request promises

  /** Header lines never touch the request-line fields. */
  lemma {:induction false} HeadersKeepRequestLine(r: RequestFields, lines: seq<seq<char>>)
    ensures ApplyHeaders(r, lines).methodName == r.methodName
    ensures ApplyHeaders(r, lines).path == r.path
    ensures ApplyHeaders(r, lines).version == r.version
    decreases |lines|
  {
    if lines != [] {
      HeadersKeepRequestLine(ApplyHeader(r, lines[0]), lines[1..]);
    }
  }

  /** The header lines are applied one after the other. */
  lemma {:induction false} ApplyHeadersSnoc(r: RequestFields, lines: seq<seq<char>>, line: seq<char>)
    ensures ApplyHeaders(r, lines + [line]) == ApplyHeader(ApplyHeaders(r, lines), line)
    decreases |lines|
  {
    if lines == [] {
      assert [] + [line] == [line];
      assert [line][1..] == [];
    } else {
      assert (lines + [line])[1..] == lines[1..] + [line];
      ApplyHeadersSnoc(ApplyHeader(r, lines[0]), lines[1..], line);
    }
  }

  /** The last matching line decides a header: a Host line at the end
      overrides every earlier one. */
  lemma LastHostWins(r: RequestFields, lines: seq<seq<char>>, line: seq<char>)
    requires HeaderMatches(line, "Host")
    ensures ApplyHeaders(r, lines + [line]).host == HeaderValue(line, HostCap)
  {
    ApplyHeadersSnoc(r, lines, line);
  }

  /** The record field a recognised header name is stored in. */
  function HeaderField(r: RequestFields, name: seq<char>): seq<char> {
    if name == "Host" then r.host
    else if name == "User-Agent" then r.userAgent
    else if name == "Accept" then r.accept
    else if name == "Connection" then r.connection
    else []
  }

  /** A field whose header name no line matches keeps the value it had: a
      header absent from the request stays empty. */
  lemma {:induction false} UnmatchedHeaderKept(r: RequestFields, lines: seq<seq<char>>, name: seq<char>)
    requires forall l :: l in lines ==> !HeaderMatches(l, name)
    ensures HeaderField(ApplyHeaders(r, lines), name) == HeaderField(r, name)
    decreases |lines|
  {
    if lines != [] {
      assert lines[0] in lines;
      assert forall l :: l in lines[1..] ==> l in lines;
      ApplyHeaderKeeps(r, lines[0], name);
      UnmatchedHeaderKept(ApplyHeader(r, lines[0]), lines[1..], name);
    }
  }

  lemma ApplyHeaderKeeps(r: RequestFields, line: seq<char>, name: seq<char>)
    requires !HeaderMatches(line, name)
    ensures HeaderField(ApplyHeader(r, line), name) == HeaderField(r, name)
  {
    var r' := ApplyHeader(r, line);
    if name == "Host" {
      assert r'.host == r.host;
    } else if name == "User-Agent" {
      assert r'.userAgent == r.userAgent;
    } else if name == "Accept" {
      assert r'.accept == r.accept;
    } else if name == "Connection" {
      assert r'.connection == r.connection;
    }
  }

  /** Each stored header value fits its array and holds no NUL. */
  lemma {:induction false} HeadersFit(r: RequestFields, lines: seq<seq<char>>)
    requires RequestFits(r)
    requires forall l :: l in lines ==> NUL !in l
    ensures RequestFits(ApplyHeaders(r, lines))
    decreases |lines|
  {
    if lines != [] {
      assert lines[0] in lines;
      ApplyHeaderFits(r, lines[0]);
      assert forall x :: x in lines[1..] ==> x in lines;
      HeadersFit(ApplyHeader(r, lines[0]), lines[1..]);
    }
  }

  lemma ApplyHeaderFits(r: RequestFields, line: seq<char>)
    requires RequestFits(r) && NUL !in line
    ensures RequestFits(ApplyHeader(r, line))
  {
    if HeaderMatches(line, "Host") {
      HeaderValueShape(line, HostCap);
    } else if HeaderMatches(line, "User-Agent") {
      HeaderValueShape(line, UserAgentCap);
    } else if HeaderMatches(line, "Accept") {
      HeaderValueShape(line, AcceptCap);
    } else if HeaderMatches(line, "Connection") {
      HeaderValueShape(line, ConnectionCap);
    }
  }

  /** parse_http_request succeeds exactly when the buffer has a first
      CR/LF-delimited line with at least three space-separated words; the
      record then holds the first three, each cut to its array, every
      field fits and method and path are non-empty. */
  lemma ParseSucceedsIff(buf: seq<char>)
    ensures ParseRequest(Some(buf)).Some? <==>
      (Tokens(CStr(buf), LineBreaks) != [] && |Tokens(Tokens(CStr(buf), LineBreaks)[0], Space)| >= 3)
    ensures ParseRequest(Some(buf)).Some? ==>
      var words := Tokens(Tokens(CStr(buf), LineBreaks)[0], Space);
      var r := ParseRequest(Some(buf)).value;
      r.methodName == Truncate(words[0], MethodCap) && r.path == Truncate(words[1], PathCap) &&
      r.version == Truncate(words[2], VersionCap) &&
      r.methodName != [] && r.path != [] && RequestFits(r)
  {
    var lines := Tokens(CStr(buf), LineBreaks);
    if lines != [] {
      var words := Tokens(lines[0], Space);
      if |words| >= 3 {
        TokensChars(CStr(buf), LineBreaks);
        assert lines[0] in lines;
        TokensChars(lines[0], Space);
        assert words[0] in words && words[1] in words && words[2] in words;
        var base := RequestLine(words);
        assert base.methodName <= words[0] && base.path <= words[1] && base.version <= words[2];
        assert forall l :: l in lines[1..] ==> l in lines;
        HeadersKeepRequestLine(base, lines[1..]);
        HeadersFit(base, lines[1..]);
        assert base.methodName[0] == words[0][0];
        assert base.path[0] == words[1][0];
      }
    }
  }

  /** An input made only of CR and LF (the empty input included) is
      rejected. */
  lemma OnlyLineBreaksRejected(buf: seq<char>)
    requires forall i :: 0 <= i < |CStr(buf)| ==> CStr(buf)[i] in LineBreaks
    ensures ParseRequest(Some(buf)).None?
  {
    TokensOfDelimiters(CStr(buf), LineBreaks);
  }

  /** A blank line does not end the headers: strtok_r skips the empty line
      between two CRLFs, so whatever follows it is parsed as further
      header lines exactly as if the blank line were not there. */
  lemma BlankLineSkipped(a: seq<char>, b: seq<char>)
    requires NUL !in a
    ensures ParseRequest(Some(a + CRLF + CRLF + b)) == ParseRequest(Some(a + CRLF + b))
  {
    BlankLineTokens(a, b);
    SameLinesSameParse(a + CRLF + CRLF + b, a + CRLF + b);
  }

  /** parse_http_request sees the buffer only through its CR/LF tokens. */
  lemma SameLinesSameParse(b1: seq<char>, b2: seq<char>)
    requires Tokens(CStr(b1), LineBreaks) == Tokens(CStr(b2), LineBreaks)
    ensures ParseRequest(Some(b1)) == ParseRequest(Some(b2))
  {
  }

  lemma BlankLineTokens(a: seq<char>, b: seq<char>)
    requires NUL !in a
    ensures Tokens(CStr(a + CRLF + CRLF + b), LineBreaks) == Tokens(CStr(a + CRLF + b), LineBreaks)
  {
    var s1, s2 := a + CRLF + CRLF, a + CRLF;
    assert NUL !in s1 && NUL !in s2;
    CStrConcat(s1, b);
    CStrConcat(s2, b);
    DelimiterRunTokens(a, CStr(b));
  }

  lemma DelimiterRunTokens(a: seq<char>, y: seq<char>)
    ensures Tokens(a + CRLF + CRLF + y, LineBreaks) == Tokens(a + CRLF + y, LineBreaks)
  {
    var x := a + ['\r'];
    var n, r := '\n', '\r';
    assert a + CRLF + CRLF + y == x + [n, r] + ([n] + y);
    TokensCollapse(x, n, r, [n] + y, LineBreaks);
    assert x + [n] + ([n] + y) == x + [n, n] + y;
    TokensCollapse(x, n, n, y, LineBreaks);
    assert x + [n] + y == a + CRLF + y;
  }

  // Well-formed requests

  /** Header lines, each followed by CRLF. */
  function HeaderText(headers: seq<seq<char>>): (t: seq<char>)
    ensures (forall h :: h in headers ==> NUL !in h) ==> NUL !in t
    decreases |headers|
  {
    if headers == [] then []
    else
      assert forall h :: h in headers[1..] ==> h in headers;
      headers[0] + CRLF + HeaderText(headers[1..])
  }

  /** "METHOD PATH VERSION\r\n", the header lines, and the blank line. */
  function RequestText(m: seq<char>, p: seq<char>, v: seq<char>, headers: seq<seq<char>>): seq<char> {
    m + " " + p + " " + v + CRLF + HeaderText(headers) + CRLF
  }

  /** A request line word: non-empty, no space, CR, LF or NUL. */
  predicate IsWord(w: seq<char>) {
    w != [] && NUL !in w && Undelimited(w, Space) && Undelimited(w, LineBreaks)
  }

  /** A header line: non-empty, no CR, LF or NUL. */
  predicate IsHeaderLine(h: seq<char>) {
    h != [] && NUL !in h && Undelimited(h, LineBreaks)
  }

  /** A line, CRLF, and what follows, regrouped around the two line-break
      characters. */
  lemma SplitCrlf(h: seq<char>, x: seq<char>, tail: seq<char>)
    ensures h + CRLF + x + tail == h + ['\r'] + (['\n'] + (x + tail))
  {
    assert CRLF == ['\r'] + ['\n'];
  }

  lemma {:induction false} HeaderTextTokens(headers: seq<seq<char>>, tail: seq<char>)
    requires forall h :: h in headers ==> IsHeaderLine(h)
    ensures Tokens(HeaderText(headers) + tail, LineBreaks) == headers + Tokens(tail, LineBreaks)
    decreases |headers|
  {
    if headers == [] {
      assert HeaderText(headers) + tail == tail;
    } else {
      var h := headers[0];
      var rest := HeaderText(headers[1..]) + tail;
      assert HeaderText(headers) == h + CRLF + HeaderText(headers[1..]);
      assert h in headers;
      assert forall x :: x in headers[1..] ==> x in headers;
      calc {
        Tokens(HeaderText(headers) + tail, LineBreaks);
        { SplitCrlf(h, HeaderText(headers[1..]), tail); }
        Tokens(h + ['\r'] + (['\n'] + rest), LineBreaks);
        { TokensCons(h, '\r', ['\n'] + rest, LineBreaks); }
        [h] + Tokens(['\n'] + rest, LineBreaks);
        { TokensSkip('\n', rest, LineBreaks); }
        [h] + Tokens(rest, LineBreaks);
        { HeaderTextTokens(headers[1..], tail); }
        [h] + (headers[1..] + Tokens(tail, LineBreaks));
        { assert headers == [h] + headers[1..]; }
        headers + Tokens(tail, LineBreaks);
      }
    }
  }

  /** A well-formed request parses to its request line's three words (each
      cut to its array) with the header lines applied in order. */
  lemma ParseWellFormed(m: seq<char>, p: seq<char>, v: seq<char>, headers: seq<seq<char>>)
    requires IsWord(m) && IsWord(p) && IsWord(v)
    requires forall h :: h in headers ==> IsHeaderLine(h)
    ensures ParseRequest(Some(RequestText(m, p, v, headers))) ==
      Some(ApplyHeaders(RequestLine([m, p, v]), headers))
  {
    WellFormedLines(m, p, v, headers);
    WellFormedWords(m, p, v);
    HeadersKeepRequestLine(RequestLine([m, p, v]), headers);
    assert Truncate(m, MethodCap)[0] == m[0];
    assert Truncate(p, PathCap)[0] == p[0];
  }

  lemma WellFormedLines(m: seq<char>, p: seq<char>, v: seq<char>, headers: seq<seq<char>>)
    requires IsWord(m) && IsWord(p) && IsWord(v)
    requires forall h :: h in headers ==> IsHeaderLine(h)
    ensures Tokens(CStr(RequestText(m, p, v, headers)), LineBreaks) == [m + " " + p + " " + v] + headers
  {
    var reqLine := m + " " + p + " " + v;
    var text := RequestText(m, p, v, headers);
    var tail := HeaderText(headers) + CRLF;
    assert text == reqLine + ['\r'] + (['\n'] + tail);
    assert NUL !in text;
    CStrWhole(text);
    TokensCons(reqLine, '\r', ['\n'] + tail, LineBreaks);
    TokensSkip('\n', tail, LineBreaks);
    HeaderTextTokens(headers, CRLF);
    TokensOfDelimiters(CRLF, LineBreaks);
    assert headers + [] == headers;
  }

  lemma WellFormedWords(m: seq<char>, p: seq<char>, v: seq<char>)
    requires IsWord(m) && IsWord(p) && IsWord(v)
    ensures Tokens(m + " " + p + " " + v, Space) == [m, p, v]
  {
    assert m + " " + p + " " + v == m + [' '] + (p + [' '] + v);
    TokensCons(m, ' ', p + [' '] + v, Space);
    TokensCons(p, ' ', v, Space);
    TokensLast(v, Space);
  }

  /** The value of a "Host: h" line is h itself when h is already trimmed
      and fits the host array. */
  lemma HostLineValue(h: seq<char>)
    requires h != [] && Trimmed(h) && |h| < HostCap - 1
    ensures HeaderMatches("Host: " + h, "Host")
    ensures HeaderValue("Host: " + h, HostCap) == h
  {
    var line := "Host: " + h;
    assert line[4] == ':' && ':' !in line[..4];
    assert line[..4] == "Host";
    IndexOfAt(line, ':', 4);
    assert line[5..] == [' '] + h;
    TrimOneSpace(h);
  }

  /** A request "METHOD PATH VERSION\r\nHost: h\r\n\r\n" whose words fit
      their arrays parses to exactly those words and that host. */
  lemma ParseHostRequest(m: seq<char>, p: seq<char>, v: seq<char>, h: seq<char>)
    requires IsWord(m) && IsWord(p) && IsWord(v)
    requires |m| < MethodCap && |p| < PathCap && |v| < VersionCap
    requires h != [] && Trimmed(h) && |h| < HostCap - 1 && IsHeaderLine(h)
    ensures ParseRequest(Some(RequestText(m, p, v, ["Host: " + h]))) ==
      Some(RequestFields(m, p, v, h, "", "", ""))
  {
    var line := "Host: " + h;
    assert Undelimited(line, LineBreaks) by {
      assert forall i :: 6 <= i < |line| ==> line[i] == h[i - 6];
    }
    assert NUL !in line;
    ParseWellFormed(m, p, v, [line]);
    HostLineValue(h);
    assert [line][1..] == [];
  }

  /** A request line with only two words is rejected, whatever follows it. */
  lemma TwoWordsRejected(m: seq<char>, p: seq<char>, rest: seq<char>)
    requires IsWord(m) && IsWord(p)
    ensures ParseRequest(Some(m + " " + p + CRLF + rest)).None?
  {
    var reqLine := m + " " + p;
    TwoWordLine(m, p);
    FirstLineOf(reqLine, rest);
  }

  lemma TwoWordLine(m: seq<char>, p: seq<char>)
    requires IsWord(m) && IsWord(p)
    ensures var line := m + " " + p;
      line != [] && NUL !in line && Undelimited(line, LineBreaks) &&
      Tokens(line, Space) == [m, p]
  {
    var line := m + " " + p;
    assert line == m + [' '] + p;
    forall i | 0 <= i < |line| ensures line[i] !in LineBreaks && line[i] != NUL {
      if i < |m| {
        assert line[i] == m[i];
      } else if i > |m| {
        assert line[i] == p[i - |m| - 1];
      }
    }
    TokensCons(m, ' ', p, Space);
    TokensLast(p, Space);
  }

  /** The first CR/LF token of "line\r\n..." is line. */
  lemma FirstLineOf(line: seq<char>, rest: seq<char>)
    requires line != [] && NUL !in line && Undelimited(line, LineBreaks)
    ensures Tokens(CStr(line + CRLF + rest), LineBreaks) ==
      [line] + Tokens(['\n'] + CStr(rest), LineBreaks)
  {
    assert NUL !in line + CRLF;
    CStrConcat(line + CRLF, rest);
    assert line + CRLF + CStr(rest) == line + ['\r'] + (['\n'] + CStr(rest));
    TokensCons(line, '\r', ['\n'] + CStr(rest), LineBreaks);
  }

  /** Names are matched as prefixes: any line that starts with "Accept"
      (an Accept-Language or Accept-Encoding line, say) is stored as the
      Accept header. */
  lemma AcceptPrefixStored(r: RequestFields, suffix: seq<char>, value: seq<char>)
    requires ':' !in suffix
    requires value != [] && Trimmed(value) && |value| < AcceptCap - 1
    ensures ApplyHeader(r, "Accept" + suffix + ": " + value) == r.(accept := value)
  {
    AcceptLine(suffix, value);
    TrimOneSpace(value);
  }

  lemma AcceptLine(suffix: seq<char>, value: seq<char>)
    requires ':' !in suffix
    ensures var line := "Accept" + suffix + ": " + value;
      !HeaderMatches(line, "Host") && !HeaderMatches(line, "User-Agent") &&
      HeaderMatches(line, "Accept") && AfterColon(line) == [' '] + value
  {
    var line := "Accept" + suffix + ": " + value;
    var n := 6 + |suffix|;
    assert Lower(line[0]) != Lower("Host"[0]);
    assert Lower(line[0]) != Lower("User-Agent"[0]);
    assert line[..6] == "Accept";
    assert line[n] == ':';
    assert ':' !in line[..n] by {
      assert line[..n] == "Accept" + suffix;
    }
    IndexOfAt(line, ':', n);
    assert line[n + 1..] == [' '] + value;
  }

  /** The single space after "Name:" is trimmed away. */
  lemma TrimOneSpace(value: seq<char>)
    requires value != [] && Trimmed(value)
    ensures Trim([' '] + value) == value
  {
    assert TrimmedSlice([' '] + value, value, 1, |value| + 1);
    TrimUnique([' '] + value, value, 1, |value| + 1);
  }
}
