/** The GET handler of src/cserve_get_handler.c: validate_path and
    cserve_get_handler.

    The filesystem is a map from full path to file contents: a path that is
    a key opens, any other does not. The allocation of the file buffer, the
    fread call and create_http_response can each fail; which of them does is
    a Faults parameter. */
module GetHandler {
  import opened CLib
  import opened Http
  import opened Config

  // ---------------------------------------------------------------------
  // validate_path

  /** The characters a path may use: letters, digits, '/', '_', '.', '-'. */
  predicate PathChar(c: char) {
    c == '/' || c == '_' || c == '.' || c == '-' ||
    ('a' <= c <= 'z') || ('A' <= c <= 'Z') || ('0' <= c <= '9')
  }

  /** No two consecutive dots anywhere. */
  predicate NoParentStep(path: seq<char>) {
    forall i :: 0 <= i < |path| - 1 ==> !(path[i] == '.' && path[i + 1] == '.')
  }

  /** What validate_path accepts: a path that starts with '/', has no two
      adjacent dots anywhere, and uses only path characters. The empty path
      fails, since its first character is the terminating NUL. */
  predicate PathIsValid(path: seq<char>) {
    |path| > 0 && path[0] == '/' && NoParentStep(path) &&
    forall i :: 0 <= i < |path| ==> PathChar(path[i])
  }

  /** validate_path(path), NULL being None: the NULL test, the first
      character, strstr for "..", then a loop over the characters that
      fails on the first one outside the allowed set. */
  method ValidatePath(path: Option<seq<char>>) returns (ok: bool)
    ensures ok <==> path.Some? && PathIsValid(path.value)
  {
    if path.None? {
      return false;
    }
    var p := path.value;
    if |p| == 0 || p[0] != '/' {
      return false;
    }
    StrstrParentStep(p);
    if Contains(p, "..") {
      return false;
    }
    for i := 0 to |p|
      invariant forall j :: 0 <= j < i ==> PathChar(p[j])
    {
      if !PathChar(p[i]) {
        return false;
      }
    }
    return true;
  }

  /** strstr(path, "..") finds something exactly when two dots are
      adjacent somewhere. */
  lemma StrstrParentStep(path: seq<char>)
    ensures Contains(path, "..") <==> !NoParentStep(path)
  {
    ContainsIff(path, "..");
    if Contains(path, "..") {
      var i: nat :| OccursAt(path, "..", i);
      assert path[i..i + 2][0] == path[i] && path[i..i + 2][1] == path[i + 1];
    }
    if !NoParentStep(path) {
      var i :| 0 <= i < |path| - 1 && path[i] == '.' && path[i + 1] == '.';
      assert path[i..i + 2] == "..";
      FoundAt(path, "..", i);
    }
  }

  /** A parent step anywhere rejects the path. */
  lemma ParentStepRejected(a: seq<char>, b: seq<char>)
    ensures !PathIsValid(a + ".." + b)
  {
    var p := a + ".." + b;
    assert p[|a|] == '.' && p[|a| + 1] == '.';
  }

  /** A relative path is rejected, whatever characters it uses. */
  lemma RelativePathRejected(path: seq<char>)
    requires path == [] || path[0] != '/'
    ensures !PathIsValid(path)
  {
  }

  /** Single dots are allowed: "/", "/.x", "/a/./b", "/ok_file-1.2.html"
      and "/missing.txt" pass. */
  lemma SingleDotsAccepted()
    ensures PathIsValid("/")
    ensures PathIsValid("/.x")
    ensures PathIsValid("/a/./b")
    ensures PathIsValid("/ok_file-1.2.html")
    ensures PathIsValid("/missing.txt")
  {
  }

  /** "/../etc/passwd", "/a/../b" and "index.html" fail. */
  lemma RejectedExamples()
    ensures !PathIsValid("/../etc/passwd")
    ensures !PathIsValid("/a/../b")
    ensures !PathIsValid("index.html")
  {
    ParentStepRejected("/", "/etc/passwd");
    assert "/" + ".." + "/etc/passwd" == "/../etc/passwd";
    ParentStepRejected("/a/", "/b");
    assert "/a/" + ".." + "/b" == "/a/../b";
  }

  // ---------------------------------------------------------------------
  // Content type

  /** The extension table, in the order the if-chain tests it. */
  const ContentTypes: seq<(seq<char>, seq<char>)> := [
    (".html", "text/html"),
    (".css", "text/css"),
    (".js", "application/javascript"),
    (".png", "image/png"),
    (".jpg", "image/jpeg"),
    (".jpeg", "image/jpeg"),
    (".ico", "image/x-icon")]

  const DefaultContentType: seq<char> := "text/plain"

  /** The first table entry from k on whose extension occurs anywhere in
      the path (strstr), or text/plain. */
  function FirstHit(path: seq<char>, k: nat): (ct: seq<char>)
    requires k <= |ContentTypes|
    ensures ct == DefaultContentType <==>
      forall j :: k <= j < |ContentTypes| ==> !Contains(path, ContentTypes[j].0)
    ensures ct != DefaultContentType ==>
      exists j :: k <= j < |ContentTypes| && Contains(path, ContentTypes[j].0) &&
        ct == ContentTypes[j].1 &&
        forall i :: k <= i < j ==> !Contains(path, ContentTypes[i].0)
    decreases |ContentTypes| - k
  {
    if k == |ContentTypes| then DefaultContentType
    else if Contains(path, ContentTypes[k].0) then ContentTypes[k].1
    else FirstHit(path, k + 1)
  }

  /** The content type cserve_get_handler selects for a path. */
  function ContentTypeOf(path: seq<char>): seq<char> {
    FirstHit(path, 0)
  }

  /** The selected type is the type of the first extension, in table
      order, that occurs anywhere in the path; text/plain when none does. */
  lemma ContentTypeIsFirstHit(path: seq<char>, j: nat)
    requires j < |ContentTypes| && Contains(path, ContentTypes[j].0)
    requires forall i :: 0 <= i < j ==> !Contains(path, ContentTypes[i].0)
    ensures ContentTypeOf(path) == ContentTypes[j].1
  {
    FirstHitFrom(path, 0, j);
  }

  lemma {:induction false} FirstHitFrom(path: seq<char>, k: nat, j: nat)
    requires k <= j < |ContentTypes| && Contains(path, ContentTypes[j].0)
    requires forall i :: k <= i < j ==> !Contains(path, ContentTypes[i].0)
    ensures FirstHit(path, k) == ContentTypes[j].1
    decreases j - k
  {
    if k < j {
      FirstHitFrom(path, k + 1, j);
    }
  }

  /** Matching is by substring, not by suffix: "/a.json" is served as
      JavaScript. */
  lemma JsonServedAsJavaScript()
    ensures ContentTypeOf("/a.json") == "application/javascript"
  {
    MissingChar("/a.json", ".html", 'h');
    MissingChar("/a.json", ".css", 'c');
    FoundAt("/a.json", ".js", 2);
    ContentTypeIsFirstHit("/a.json", 2);
  }

  /** "/x.html.bak" is served as HTML. */
  lemma BackupServedAsHtml()
    ensures ContentTypeOf("/x.html.bak") == "text/html"
  {
    FoundAt("/x.html.bak", ".html", 2);
    ContentTypeIsFirstHit("/x.html.bak", 0);
  }

  /** A path without the letters h, c, j and p matches no extension of
      the table and is plain text. */
  lemma PlainTextWithoutTableLetters(path: seq<char>)
    requires 'h' !in path && 'c' !in path && 'j' !in path && 'p' !in path
    ensures ContentTypeOf(path) == DefaultContentType
  {
    MissingChar(path, ".html", 'h');
    MissingChar(path, ".css", 'c');
    MissingChar(path, ".js", 'j');
    MissingChar(path, ".png", 'p');
    MissingChar(path, ".jpg", 'j');
    MissingChar(path, ".jpeg", 'j');
    MissingChar(path, ".ico", 'c');
  }

  /** "/missing.txt" is plain text. */
  lemma TxtServedAsPlainText()
    ensures ContentTypeOf("/missing.txt") == DefaultContentType
  {
    PlainTextWithoutTableLetters("/missing.txt");
  }

  // ---------------------------------------------------------------------
  // cserve_get_handler

  const IndexPath: seq<char> := "/index.html"

  /** Which of the steps after a successful fopen succeed: the malloc of the
      file buffer, the fread of the whole file, and create_http_response. */
  datatype Faults = Faults(allocOk: bool, readOk: bool, createOk: bool)

  /** The path actually served: "/" is rewritten to "/index.html". */
  function ServedPath(path: seq<char>): seq<char> {
    if path == "/" then IndexPath else path
  }

  /** snprintf(file_path, 4096, "%s%s", root_dir, path). */
  function FilePath(root: seq<char>, path: seq<char>): (p: seq<char>)
    ensures |p| < MaxDirPathSize && p <= root + path
    ensures |p| == if |root + path| < MaxDirPathSize then |root + path| else MaxDirPathSize - 1
  {
    Truncate(root + path, MaxDirPathSize)
  }

  /** The response cserve_get_handler returns (None for NULL). */
  function GetResponse(req: RequestFields, root: seq<char>, fs: map<seq<char>, seq<char>>,
                       env: Env, faults: Faults): (res: Option<Response>)
    ensures res.Some? <==> faults.createOk
    ensures res.Some? ==> WellFormed(res.value)
    ensures res.Some? ==> res.value.status in {MethodNotAllowed, BadRequest, NotFound, InternalServerError, Ok}
  {
    if req.methodName != "GET" then
      CreateResponse(MethodNotAllowed, DefaultContentType, Some("Method Not Allowed"), env, faults.createOk)
    else if !PathIsValid(req.path) then
      CreateResponse(BadRequest, DefaultContentType, Some("Bad Request"), env, faults.createOk)
    else
      FileResponse(ServedPath(req.path), root, fs, env, faults)
  }

  /** The response for a validated path: its content type, then the file
      lookup under the root, then the allocation and the read. */
  function FileResponse(path: seq<char>, root: seq<char>, fs: map<seq<char>, seq<char>>,
                        env: Env, faults: Faults): Option<Response>
  {
    var contentType := ContentTypeOf(path);
    var filePath := FilePath(root, path);
    if filePath !in fs then
      CreateResponse(NotFound, contentType, Some("Not Found"), env, faults.createOk)
    else if !faults.allocOk || !faults.readOk || |fs[filePath]| == 0 then
      CreateResponse(InternalServerError, contentType, Some("Internal Server Error"), env, faults.createOk)
    else
      var file := fs[filePath];
      var res := CreateResponse(Ok, contentType, Some(file), env, faults.createOk);
      if res.None? then None else Some(res.value.(contentLength := |file|))
  }

  /** The request record after the handler: the path is rewritten only when
      the method is GET and the path valid. */
  function HandledRequest(req: RequestFields): RequestFields {
    if req.methodName == "GET" && PathIsValid(req.path) then req.(path := ServedPath(req.path))
    else req
  }

  /** cserve_get_handler(req, root_dir): the method test, validate_path,
      the rewrite of "/" in the record itself, the content-type if-chain,
      the file path, then the open/allocate/read sequence. */
  method HandleGet(req: HttpRequest, root: seq<char>, fs: map<seq<char>, seq<char>>,
                    env: Env, faults: Faults) returns (res: Option<Response>)
    modifies req
    ensures res == GetResponse(old(req.Fields()), root, fs, env, faults)
    ensures req.Fields() == HandledRequest(old(req.Fields()))
  {
    if req.methodName != "GET" {
      return CreateResponse(MethodNotAllowed, "text/plain", Some("Method Not Allowed"), env, faults.createOk);
    }
    var valid := ValidatePath(Some(req.path));
    if !valid {
      return CreateResponse(BadRequest, "text/plain", Some("Bad Request"), env, faults.createOk);
    }
    res := ServeValidPath(req, root, fs, env, faults);
  }

  /** cserve_get_handler past its two checks: "/" is rewritten to the
      index page in the record, then the if-chain picks the content type
      from the path as rewritten. */
  method ServeValidPath(req: HttpRequest, root: seq<char>, fs: map<seq<char>, seq<char>>,
                        env: Env, faults: Faults) returns (res: Option<Response>)
    modifies req
    ensures req.Fields() == old(req.Fields()).(path := ServedPath(old(req.path)))
    ensures res == FileResponse(req.path, root, fs, env, faults)
  {
    var contentType := "text/plain";
    if req.path == "/" {
      contentType := "text/html";
      req.path := Truncate(IndexPath, PathCap);
    }
    var p := req.path;
    contentType := SelectContentType(p, contentType);
    if contentType == "text/html" && old(req.path) == "/" {
      IndexIsHtml(p);
    }
    assert contentType == ContentTypeOf(p);
    res := ServeFile(p, contentType, root, fs, env, faults);
  }

  /** The rest of cserve_get_handler once the path is settled: the file
      path is the root followed by the request path, cut at PATH_MAX; a
      missing file is 404, a failed allocation or read or an empty file is
      500, and otherwise the body is the file with its length. */
  method ServeFile(p: seq<char>, contentType: seq<char>, root: seq<char>,
                   fs: map<seq<char>, seq<char>>, env: Env, faults: Faults)
    returns (res: Option<Response>)
    requires contentType == ContentTypeOf(p)
    ensures res == FileResponse(p, root, fs, env, faults)
  {
    var filePath := Truncate(root + p, MaxDirPathSize);
    if filePath !in fs {
      return CreateResponse(NotFound, contentType, Some("Not Found"), env, faults.createOk);
    }
    var file := fs[filePath];
    if !faults.allocOk {
      return CreateResponse(InternalServerError, contentType, Some("Internal Server Error"), env, faults.createOk);
    }
    if !faults.readOk || |file| == 0 {
      return CreateResponse(InternalServerError, contentType, Some("Internal Server Error"), env, faults.createOk);
    }
    res := CreateResponse(Ok, contentType, Some(file), env, faults.createOk);
    if res.None? {
      return None;
    }
    res := Some(res.value.(contentLength := |file|));
  }

  /** The if-chain of strstr tests: the first extension found decides;
      with none found the type stays what it was. */
  method SelectContentType(path: seq<char>, current: seq<char>) returns (contentType: seq<char>)
    ensures contentType == if ContentTypeOf(path) == DefaultContentType then current else ContentTypeOf(path)
  {
    contentType := current;
    if Contains(path, ".html") {
      contentType := "text/html";
      ContentTypeIsFirstHit(path, 0);
    } else if Contains(path, ".css") {
      contentType := "text/css";
      ContentTypeIsFirstHit(path, 1);
    } else if Contains(path, ".js") {
      contentType := "application/javascript";
      ContentTypeIsFirstHit(path, 2);
    } else if Contains(path, ".png") {
      contentType := "image/png";
      ContentTypeIsFirstHit(path, 3);
    } else if Contains(path, ".jpg") {
      contentType := "image/jpeg";
      ContentTypeIsFirstHit(path, 4);
    } else if Contains(path, ".jpeg") {
      contentType := "image/jpeg";
      ContentTypeIsFirstHit(path, 5);
    } else if Contains(path, ".ico") {
      contentType := "image/x-icon";
      ContentTypeIsFirstHit(path, 6);
    } else {
      assert forall j :: 0 <= j < |ContentTypes| ==> !Contains(path, ContentTypes[j].0);
    }
  }

  /** The "text/html" set for "/" is never what decides: the rewritten path
      contains ".html", so the if-chain sets it again. */
  lemma IndexIsHtml(served: seq<char>)
    requires served == IndexPath
    ensures ContentTypeOf(served) == "text/html"
  {
    ContainsIff(IndexPath, ".html");
    assert OccursAt(IndexPath, ".html", 6);
  }

  /** A pattern with a character the string lacks does not occur in it. */
  lemma MissingChar(s: seq<char>, pat: seq<char>, c: char)
    requires c in pat && c !in s
    ensures !Contains(s, pat)
  {
    ContainsIff(s, pat);
  }

  /** An occurrence at a known position. */
  lemma FoundAt(s: seq<char>, pat: seq<char>, i: nat)
    requires OccursAt(s, pat, i)
    ensures Contains(s, pat)
  {
    ContainsIff(s, pat);
  }

  // What cserve_get_handler promises

  /** A method other than exactly "GET" gets 405 text/plain "Method Not
      Allowed" before the path or the filesystem is looked at. */
  lemma NonGetIs405(req: RequestFields, root: seq<char>, fs: map<seq<char>, seq<char>>,
                    env: Env, faults: Faults, path': seq<char>, root': seq<char>,
                    fs': map<seq<char>, seq<char>>)
    requires req.methodName != "GET" && faults.createOk
    ensures GetResponse(req, root, fs, env, faults).value.status == MethodNotAllowed
    ensures GetResponse(req, root, fs, env, faults).value.contentType == "text/plain"
    ensures GetResponse(req, root, fs, env, faults).value.body == Some("Method Not Allowed")
    ensures GetResponse(req, root, fs, env, faults) == GetResponse(req.(path := path'), root', fs', env, faults)
  {
  }

  /** An invalid path gets 400 text/plain "Bad Request", whatever the root
      and the filesystem hold. */
  lemma InvalidPathIs400(req: RequestFields, root: seq<char>, fs: map<seq<char>, seq<char>>,
                         env: Env, faults: Faults, root': seq<char>, fs': map<seq<char>, seq<char>>)
    requires req.methodName == "GET" && !PathIsValid(req.path) && faults.createOk
    ensures GetResponse(req, root, fs, env, faults).value.status == BadRequest
    ensures GetResponse(req, root, fs, env, faults).value.contentType == "text/plain"
    ensures GetResponse(req, root, fs, env, faults).value.body == Some("Bad Request")
    ensures GetResponse(req, root, fs, env, faults) == GetResponse(req, root', fs', env, faults)
  {
  }

  /** A file that does not open gets 404 with the selected content type
      (not text/plain) and body "Not Found". */
  lemma MissingFileIs404(req: RequestFields, root: seq<char>, fs: map<seq<char>, seq<char>>,
                         env: Env, faults: Faults)
    requires req.methodName == "GET" && PathIsValid(req.path) && faults.createOk
    requires FilePath(root, ServedPath(req.path)) !in fs
    ensures GetResponse(req, root, fs, env, faults).value.status == NotFound
    ensures GetResponse(req, root, fs, env, faults).value.contentType == ContentTypeOf(ServedPath(req.path))
    ensures GetResponse(req, root, fs, env, faults).value.body == Some("Not Found")
  {
  }

  /** An empty file gets 500: fread of one item of zero bytes reads no
      item. So do allocation and read failures. */
  lemma EmptyFileIs500(req: RequestFields, root: seq<char>, fs: map<seq<char>, seq<char>>,
                       env: Env, faults: Faults)
    requires req.methodName == "GET" && PathIsValid(req.path) && faults.createOk
    requires FilePath(root, ServedPath(req.path)) in fs
    requires fs[FilePath(root, ServedPath(req.path))] == [] || !faults.allocOk || !faults.readOk
    ensures GetResponse(req, root, fs, env, faults).value.status == InternalServerError
    ensures GetResponse(req, root, fs, env, faults).value.contentType == ContentTypeOf(ServedPath(req.path))
    ensures GetResponse(req, root, fs, env, faults).value.body == Some("Internal Server Error")
  {
  }

  /** A non-empty file that opens and reads gets 200 with its exact bytes
      as the body and their number as Content-Length. */
  lemma FoundFileIs200(req: RequestFields, root: seq<char>, fs: map<seq<char>, seq<char>>,
                       env: Env, faults: Faults)
    requires req.methodName == "GET" && PathIsValid(req.path)
    requires faults == Faults(true, true, true)
    requires FilePath(root, ServedPath(req.path)) in fs && fs[FilePath(root, ServedPath(req.path))] != []
    ensures GetResponse(req, root, fs, env, faults).value.status == Ok
    ensures GetResponse(req, root, fs, env, faults).value.contentType == ContentTypeOf(ServedPath(req.path))
    ensures GetResponse(req, root, fs, env, faults).value.body == Some(fs[FilePath(root, ServedPath(req.path))])
    ensures GetResponse(req, root, fs, env, faults).value.contentLength == |fs[FilePath(root, ServedPath(req.path))]|
  {
  }

  /** GET / against a root holding a non-empty index.html returns that
      file as text/html with status 200. */
  lemma IndexServed(req: RequestFields, root: seq<char>, fs: map<seq<char>, seq<char>>, env: Env)
    requires req.methodName == "GET" && req.path == "/"
    requires FilePath(root, IndexPath) in fs && fs[FilePath(root, IndexPath)] != []
    ensures GetResponse(req, root, fs, env, Faults(true, true, true)).value.status == Ok
    ensures GetResponse(req, root, fs, env, Faults(true, true, true)).value.contentType == "text/html"
    ensures GetResponse(req, root, fs, env, Faults(true, true, true)).value.body == Some(fs[FilePath(root, IndexPath)])
  {
    SingleDotsAccepted();
    IndexIsHtml(IndexPath);
    FoundFileIs200(req, root, fs, env, Faults(true, true, true));
  }

  /** GET /missing.txt against a root without that file returns 404
      text/plain. */
  lemma MissingTextIs404(req: RequestFields, root: seq<char>, fs: map<seq<char>, seq<char>>, env: Env, faults: Faults)
    requires req.methodName == "GET" && req.path == "/missing.txt" && faults.createOk
    requires FilePath(root, "/missing.txt") !in fs
    ensures GetResponse(req, root, fs, env, faults).value.status == NotFound
    ensures GetResponse(req, root, fs, env, faults).value.contentType == "text/plain"
  {
    SingleDotsAccepted();
    TxtServedAsPlainText();
    MissingFileIs404(req, root, fs, env, faults);
  }
}
