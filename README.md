# cserv in Dafny

A model of the core of cserv, a small single-threaded HTTP/1.1 file server
written in C, with proofs of what it does. The model covers these parts:

- **Request parsing** (`src/cserve_net.c`) in `net.dfy`:
  - `trim_whitespace` on a character array;
  - `extract_header_value`;
  - `parse_http_request`, with its two levels of `strtok_r`. The buffer
    is cut at CR or LF into lines, and the request line at spaces into
    words.
- **Records and contracts** (`include/cserve_net.h`) in `http.dfy`:
  - the request and response records;
  - the status and method enumerations;
  - what the header promises of `create_http_response` and
    `http_response_to_string`.
- **The GET handler** (`src/cserve_get_handler.c`) in `get_handler.dfy`:
  - `validate_path`;
  - the content-type chain;
  - `cserve_get_handler`, with the file system as a map from path to
    bytes.
- **The server** (`src/cserve.c`) in `server.dfy`:
  - `cserve_init` and `cserve_handle_request`;
  - the accept loop of `cserve_start`, run over a read buffer that
    persists from one connection to the next.
- **The command line** (`src/main.c`) in `cli.dfy`: `check_arg_validity`
  and `arg_parse`.
- **Build constants** (`include/config.h`) in `config.dfy`: `DEFAULT_PORT`
  and `MAX_DIR_PATH_SIZE`, shared by the handler, the server and the
  command line.
- **C library routines** in `clib.dfy`: C strings, `strtok_r`, `strstr`,
  `strchr`, `strncasecmp`, `isspace` and truncating copies, written as
  functions on character sequences.

State that the C code updates in place is modelled as a class:

| C state | Dafny class | operations, all proved against functions |
|---|---|---|
| the request record, whose `path` the handler rewrites | `HttpRequest` | `ParseHttpRequest`, `HandleGet` |
| the globals `PORT` and `DIRECTORY`, and the read buffer | `Server` | `Init`, `Step`, `Run` |
| the globals `port` and `directory` of `main.c` | `Cli` | `ArgParse` |

`trim_whitespace` works in place on a char array, and `TrimWhitespace`
does the same.

Several routines are only declared in the files modelled:
`method_str_to_enum`, `create_http_response`, `http_response_to_string`,
and the reason phrases. They enter as an `Env` value:

- the date;
- the server token;
- a reason phrase per status;
- the method lookup.

Alongside it, `Faults` flags say whether allocation, the read of a file,
and response creation succeed. Serialisation follows the format
documented in `include/cserve_net.h`.

The code departs from HTTP/1.1 as section 3 of RFC 9112 describes it,
and from what its own comments suggest, in these ways; the model follows
the code:

- `method_str_to_enum` returns one of the nine members of the method
  enumeration (include/cserve_net.h:98-114); there is none for an
  unrecognised name. The lookup is a parameter from every name to one of
  the nine methods.
- A request line is not required to have exactly three parts
  (src/cserve_net.c:147-155): one with more than three words is accepted,
  and the extra words are ignored.
- Lines are split at any CR or LF (src/cserve_net.c:135 and 164), not
  only at CRLF.
- Headers do not end at the empty line. The loop's `strlen(line) > 0`
  test (src/cserve_net.c:164) never fires, because `strtok_r` never
  returns an empty token, so header lines after a blank line are still
  parsed (`BlankLineSkipped`).
- The request is parsed up to the first NUL of the buffer. The buffer
  may still hold bytes of an earlier, longer request
  (`StaleBytesParsed`).
- A response is sent only up to the first NUL of its serialised form,
  because of `strlen` (`SentUpToFirstNul`).

## Model

| member | source | states |
|---|---|---|
| CLib.NextToken | src/cserve_net.c:135-149 | One `strtok_r` call returns the first token of the rest of the input and moves the cursor past it, or reports that no token is left. |
| CLib.TokensCollapse | src/cserve_net.c:164 | A run of two delimiters splits the input exactly like one delimiter, so empty lines produce no token. |
| CLib.TokensChars | src/cserve_net.c:147-149 | Every token is made of characters of the input. |
| CLib.Truncate | src/cserve_net.c:158-160 | A `strncpy`/`snprintf` copy into a buffer of size `cap` keeps a prefix of the source: the whole source when it is shorter than `cap`, otherwise exactly its first `cap` - 1 characters. |
| CLib.ContainsIff | src/cserve_get_handler.c:36 | `strstr` finds the pattern exactly when the pattern occurs at some position. |
| Http.HttpRequest.constructor | src/cserve_net.c:115-122 | A fresh request record has every field empty (malloc then memset to zero). |
| Http.Status.Code | include/cserve_net.h:78-90 | Each status has its numeric code in 200..599. |
| Http.StatusCodes | include/cserve_net.h:78-90 | The codes are exactly the eleven listed, and no two statuses share a code. |
| Http.CreateResponse | include/cserve_net.h:153-170 | When creation succeeds, the response has version HTTP/1.1, Connection close, the given status, content type and body, the environment's date, server and reason phrase, and a Content-Length equal to the body length. It is NULL exactly when creation fails. |
| Http.CreateFits | include/cserve_net.h:122-151 | With a date, server token, reason phrases and content type that fit, every character field of a created response fits its array. |
| Http.DecimalRoundTrip | include/cserve_net.h:183 | The decimal text written for Content-Length reads back as the same number. |
| Http.Serialize | include/cserve_net.h:172-193 | The serialised response is the status line, then the Date, Server, Content-Type, Content-Length and Connection lines, each ended by CRLF, then an empty line, then the body. Its length is the head's plus the body's; `HeaderEndsAtFirstBlankLine` and `ContentLengthMatchesBody` state what a reader recovers from it. |
| Http.HeaderEndsAtFirstBlankLine | include/cserve_net.h:178-186 | With line-break-free fields, the first blank line of the serialised response ends the header block, and everything after it is the body, verbatim. |
| Http.ContentLengthMatchesBody | include/cserve_net.h:142-143 | In a well-formed response, the Content-Length value reads back as the body's byte count, and that many trailing bytes are the body. |
| Http.OkStatusLine | include/cserve_net.h:179 | A created 200 response whose reason phrase is "OK" starts with "HTTP/1.1 200 OK\r\n". |
| Net.Trim | src/cserve_net.c:29-55 | The trimmed string is a contiguous piece of the input with only whitespace cut from both ends. It has no whitespace at either end, and it is empty exactly when the input is all whitespace. |
| Net.TrimUnique | src/cserve_net.c:29-55 | Any cut of whitespace from both ends that leaves neither end on whitespace equals `Trim`. |
| Net.TrimIdempotent | src/cserve_net.c:29-55 | Trimming twice gives the same result as trimming once. |
| Net.TrimWhitespace | src/cserve_net.c:29-55 | After the call, the array holds a NUL-terminated string equal to `Trim` of the string it held before. |
| Net.SkipLeadingSpaces | src/cserve_net.c:33-43 | The start cursor stops on the first character that is NUL or not whitespace. Everything before it is whitespace, and it stops on NUL only when the string is all whitespace. |
| Net.LastNonSpace | src/cserve_net.c:45-49 | The end cursor stops on the last non-whitespace character, never before the start cursor. The characters between the cursors are exactly `Trim` of the string. |
| Net.ScanBack | src/cserve_net.c:46-49 | Moving back from the last character, the cursor passes only whitespace and stops on a non-whitespace character or at the start cursor. |
| Net.MoveToFront | src/cserve_net.c:51-54 | After `memmove` and the terminator, the array starts with the chosen slice followed by NUL, and every byte after the terminator is as it was. |
| Net.TrimFrom | src/cserve_net.c:45-54 | Once the start cursor is on a character that is not whitespace, the array afterwards holds a NUL-terminated string equal to `Trim` of the string it held before. |
| Net.HeaderValueShape | src/cserve_net.c:83-89 | A stored header value fits its buffer, contains no NUL, and is a trimmed piece of the truncated text after the first colon. |
| Net.CopyTerminated | src/cserve_net.c:84-86 | The value buffer has the given size and holds a NUL, and its C string is the text after the colon cut to size - 1 characters. |
| Net.ExtractHeaderValue | src/cserve_net.c:69-91 | The header is found exactly when the line starts with the name (ignoring case) and contains a colon. A found value is the truncated and trimmed text after the first colon. Otherwise the buffer is left unchanged. |
| Net.SplitRequestLine | src/cserve_net.c:146-155 | The three `strtok_r` calls succeed exactly when the request line has at least three words, and they then return its first three words. |
| Net.ApplyHeaderLine | src/cserve_net.c:167-187 | One header line updates the record as `ApplyHeader` says. Host, User-Agent, Accept and Connection are tried in that order, and the first match stores its value. |
| Net.ParseHeaderLines | src/cserve_net.c:162-188 | The header loop leaves the record equal to the header lines applied, in order, to the record before it. |
| Net.ParseHttpRequest | src/cserve_net.c:108-200 | The result is NULL exactly when `ParseRequest` fails. Otherwise it is a fresh record equal to `ParseRequest`'s result. |
| Net.HeadersKeepRequestLine | src/cserve_net.c:164-188 | Header lines never change the method, path or version. |
| Net.ApplyHeadersSnoc | src/cserve_net.c:164-188 | The header lines are applied one after another, each to the record the previous ones left. |
| Net.LastHostWins | src/cserve_net.c:167-170 | When the last line is a Host line, it decides the host value, whatever earlier lines said. |
| Net.UnmatchedHeaderKept | src/cserve_net.c:164-188 | A field that no line matches keeps its value, so a header absent from the request stays empty. |
| Net.HeadersFit | src/cserve_net.c:85-86 | After any NUL-free header lines, every field still fits its array and holds no NUL. |
| Net.ParseSucceedsIff | src/cserve_net.c:132-199 | Parsing succeeds exactly when the buffer's first CR/LF-delimited line has at least three space-separated words. The record then holds those words cut to their arrays, the method and path are non-empty, and every field fits. |
| Net.OnlyLineBreaksRejected | src/cserve_net.c:135-141 | A buffer made only of CR and LF characters, the empty buffer included, is rejected. |
| Net.BlankLineSkipped | src/cserve_net.c:163-164 | An empty line does not end the headers. A request with a blank line inserted parses exactly like the one without it. |
| Net.ParseWellFormed | src/cserve_net.c:143-188 | A well-formed request parses to its three request-line words (cut to their arrays), with its header lines applied in order. |
| Net.ParseHostRequest | src/cserve_net.c:99-103 | "M P V\r\nHost: h\r\n\r\n" parses to exactly M, P, V and host h, with the other headers empty. |
| Net.TwoWordsRejected | src/cserve_net.c:151-155 | A request line of only two words is rejected, whatever follows it. |
| Net.AcceptPrefixStored | src/cserve_net.c:71-75 | Header names match as case-insensitive prefixes, so any line starting with "Accept" (Accept-Language, for instance) is stored as the Accept value. |
| GetHandler.ValidatePath | src/cserve_get_handler.c:23-53 | The result is true exactly when the path is non-NULL, starts with '/', has no "..", and uses only letters, digits, '/', '_', '.' and '-'. |
| GetHandler.StrstrParentStep | src/cserve_get_handler.c:36-38 | `strstr(path, "..")` succeeds exactly when two dots are adjacent somewhere in the path. |
| GetHandler.ParentStepRejected | src/cserve_get_handler.c:35-38 | A path containing ".." anywhere is rejected. |
| GetHandler.RelativePathRejected | src/cserve_get_handler.c:28-31 | A path not starting with '/' is rejected. |
| GetHandler.SingleDotsAccepted | src/cserve_get_handler.c:32-53 | Single dots are allowed: "/", "/.x", "/a/./b", "/ok_file-1.2.html" and "/missing.txt" pass. |
| GetHandler.RejectedExamples | src/cserve_get_handler.c:28-38 | "/../etc/passwd", "/a/../b" and "index.html" fail. |
| GetHandler.FirstHit | src/cserve_get_handler.c:82-97 | The selected type is text/plain exactly when no extension in the table occurs. Otherwise it is the type of the first extension, in table order, that occurs anywhere in the path. |
| GetHandler.ContentTypeIsFirstHit | src/cserve_get_handler.c:82-97 | When extension j is the first in the table that occurs in the path, the content type is the type of extension j. |
| GetHandler.JsonServedAsJavaScript | src/cserve_get_handler.c:86-87 | Extensions match as substrings, so "/a.json" is served as application/javascript. |
| GetHandler.BackupServedAsHtml | src/cserve_get_handler.c:82-83 | "/x.html.bak" is served as text/html. |
| GetHandler.PlainTextWithoutTableLetters | src/cserve_get_handler.c:68-97 | A path without the letters h, c, j and p is served as text/plain. |
| GetHandler.TxtServedAsPlainText | src/cserve_get_handler.c:68-97 | "/missing.txt" is served as text/plain. |
| GetHandler.SelectContentType | src/cserve_get_handler.c:82-97 | The if-chain yields the first matching extension's type, and keeps the current type when none matches. |
| GetHandler.FilePath | src/cserve_get_handler.c:103-104 | The file path is root followed by path, cut to MAX_DIR_PATH_SIZE - 1 characters: a prefix of the two joined, all of them when they fit and exactly 4095 characters otherwise. |
| GetHandler.GetResponse | src/cserve_get_handler.c:62-152 | The handler returns NULL exactly when response creation fails. Every response is well-formed, with status 405, 400, 404, 500 or 200. |
| GetHandler.HandleGet | src/cserve_get_handler.c:62-152 | The method returns `GetResponse`'s response. It rewrites the record's path to "/index.html" only for a GET of a valid "/", and leaves every other field unchanged. |
| GetHandler.ServeValidPath | src/cserve_get_handler.c:77-151 | Past the two checks, the record's path becomes "/index.html" when it was "/", no other field changes, and the response is `FileResponse` of the path as rewritten. |
| GetHandler.ServeFile | src/cserve_get_handler.c:102-151 | Given the type the if-chain chose for the path, the rest of the handler returns `FileResponse`: the file looked up under the root, with 404, 500 or 200 as `MissingFileIs404`, `EmptyFileIs500` and `FoundFileIs200` state. |
| GetHandler.IndexIsHtml | src/cserve_get_handler.c:77-83 | The rewritten index path is typed text/html by the if-chain itself. |
| GetHandler.NonGetIs405 | src/cserve_get_handler.c:63-66 | A method other than exactly "GET" gets 405 text/plain "Method Not Allowed", whatever the path and the files. |
| GetHandler.InvalidPathIs400 | src/cserve_get_handler.c:71-75 | A GET with an invalid path gets 400 text/plain "Bad Request", whatever the root and the files. |
| GetHandler.MissingFileIs404 | src/cserve_get_handler.c:102-109 | A file that does not open gets 404 "Not Found", with the content type chosen from the path. |
| GetHandler.EmptyFileIs500 | src/cserve_get_handler.c:111-131 | An empty file, a failed allocation or a failed read gets 500 "Internal Server Error", with the content type chosen from the path. |
| GetHandler.FoundFileIs200 | src/cserve_get_handler.c:137-151 | A non-empty file that is read gets 200, with the file's bytes as body and their count as Content-Length. |
| GetHandler.IndexServed | src/cserve_get_handler.c:77-81 | GET / with a non-empty index.html under the root returns that file as text/html with 200. |
| GetHandler.MissingTextIs404 | src/cserve_get_handler.c:102-109 | GET /missing.txt with no such file returns 404 text/plain. |
| Server.AfterRead | src/cserve.c:173 | A read of n bytes replaces the buffer's first n bytes and keeps the rest. |
| Server.StepOutcome | src/cserve.c:154-221 | An iteration closes a connection exactly when accept succeeded, and sends bytes only after a successful read and serialisation. |
| Server.RunClosesAccepted | src/cserve.c:154-221 | Each iteration of a run ends with the socket closed exactly when its accept succeeded. |
| Server.Server.constructor | src/cserve.c:83 | The read buffer is MAX_BUFFER_SIZE zero bytes. |
| Server.Server.Init | src/cserve.c:35-41 | The port is stored as given and the directory cut to MAX_DIR_PATH_SIZE - 1 characters, unchanged when it fits. The call always returns SUCCESS. |
| Server.Server.HandleRequest | src/cserve.c:49-59 | A method that the lookup maps to GET goes to the GET handler with DIRECTORY, and the record is left as that handler leaves it (a valid "/" rewritten to "/index.html"). Everything else gets 405 text/plain, with the record unchanged. |
| Server.Server.Read | src/cserve.c:173 | The buffer afterwards is `AfterRead` of the buffer before. |
| Server.Server.Step | src/cserve.c:157-220 | One iteration sends `StepOutcome` and leaves the buffer as `StepBuffer` says. |
| Server.Server.Run | src/cserve.c:154-221 | A run of iterations sends `RunOutcomes` from the first iteration and leaves the buffer as `RunBuffer` says, carrying it from each iteration to the next. |
| Server.StaleBytesParsed | src/cserve.c:173-181 | After a NUL-free read shorter than an earlier request, the parser sees the new bytes followed by the earlier request's leftover C string. |
| Server.EmptyReadReplays | src/cserve.c:173-181 | A zero-byte read is not an error: the buffer is unchanged, and the previous request is parsed and answered again. |
| Server.FailuresSendNothing | src/cserve.c:174-205 | A read error, a parse failure, a handler that returns NULL or a serialisation failure closes the connection with nothing sent. |
| Server.SentUpToFirstNul | src/cserve.c:211 | The bytes sent are the head followed by the body up to its first NUL, so a body containing a zero byte is cut short. |
| Server.NonGetMethodIs405 | src/cserve.c:51-58 | A method not mapped to GET gets 405 text/plain, whatever the path. |
| Server.OnlyExactGetReachesFiles | src/cserve.c:51-54 | Whatever the lookup maps to GET, a method name other than exactly "GET" still gets 405. |
| Cli.CheckArgValidity | src/main.c:35-44 | The result is SUCCESS exactly when the argument is a spelling in the option table. |
| Cli.ValidFlagsAreTheEight | src/main.c:22-27 | The table accepts exactly -p, --port, -h, --help, -d, --directory, -v and --version. |
| Cli.ValidateOddArgs | src/main.c:80-87 | The first loop returns SUCCESS exactly when every argument at an odd index is in the option table. |
| Cli.FirstFlagFrom | src/main.c:90-92 | The index found is the first one from the start point on that holds a spelling of the option. None means no index does. |
| Cli.Resolve | src/main.c:116-125 | The resolved directory fits MAX_DIR_PATH_SIZE. |
| Cli.ResolveIsOneCut | src/main.c:117-125 | The two `snprintf` calls together cut "cwd/value" once, to MAX_DIR_PATH_SIZE - 1 characters. |
| Cli.Cli.constructor | src/main.c:10-11 | Port 80 and directory "./" before parsing. |
| Cli.Cli.ArgParse | src/main.c:72-142 | The return code and the new port and directory are those of `ParseArgs` from the old values. |
| Cli.Cli.ParsePort | src/main.c:89-106 | The port becomes `atoi` of the value after the first -p/--port, or stays as it was without one. Parsing goes on exactly when there is none or that value is in 1..65535. The directory is untouched. |
| Cli.Cli.ParseDirectory | src/main.c:108-141 | The return code and the new port and directory are those of `DirectoryStep`: the value after the first -d/--directory, kept when absolute, else resolved against the working directory and tested for existence. |
| Cli.NoArgumentsFails | src/main.c:75-78 | With no arguments, the result is FAILURE and nothing changes. |
| Cli.InvalidFlagFails | src/main.c:81-87 | An odd-index argument that is not in the table gives FAILURE, with nothing changed. |
| Cli.EvenArgsUnchecked | src/main.c:81 | Changing an argument at an even index never changes whether validation passes. |
| Cli.NoFlagsKeepDefaults | src/main.c:89-141 | With only -h, -v and their long forms, the result is SUCCESS with port 80 and directory "./". |
| Cli.FirstPortCounts | src/main.c:90-106 | The port is `atoi` of the value after the first -p/--port, and lies in 1..65535 whenever the result is SUCCESS. |
| Cli.LaterPortIgnored | src/main.c:90-106 | With "-p 8080 --port 9090", the port is `atoi("8080")`, and the result is SUCCESS exactly when that port is in range. |
| Cli.AbsoluteDirectoryUnchecked | src/main.c:114-137 | An absolute directory is kept (cut to 4095 characters) with SUCCESS. The working directory and the existence test play no part. |
| Cli.RelativeDirectoryResolved | src/main.c:114-136 | A relative directory becomes "cwd/value" cut to size. The result is SUCCESS exactly when the working directory is known and the resolved path exists. |
| Cli.FlagAsValueHonoured | src/main.c:90-112 | Every index is scanned, values included: in "-v -d -p 8080" the -p sets the port, and "-p" becomes the relative directory. |

## Left out

- Sockets: socket creation, options, bind and listen (src/cserve.c:88-150) are not modelled. Neither is `cserve_start`'s endless loop as such. A run of iterations over a given sequence of connections stands for it.
- accept, read, send and close are inputs and outputs of `Step`, not calls. A read is an error or the bytes stored, and the bytes sent are the outcome.
- File I/O (fopen, fseek, ftell, fread, fclose): the files are a map from path to bytes. Allocation and read failures are flags in `Faults`. Open failure means a path absent from the map.
- malloc and strdup failures in `parse_http_request` (src/cserve_net.c:115-130) are not modelled. Those NULL returns are left out, and `ParseRequest` fails only for a NULL input or a malformed first line.
- method_str_to_enum, create_http_response, http_response_to_string and free_http_response have no body in the files modelled:
  - the method lookup, the date, the server token and the reason phrases are parameters (`Env`);
  - whether creation and serialisation succeed are flags.
- Http.CreateResponse: the body is stored exactly as given. How many bytes the unseen implementation copies (for instance only up to a NUL) is not modelled.
- GetHandler.FoundFileIs200: for the same reason, the Content-Length of a file containing a NUL byte is not modelled beyond the stored body. The handler writes `content_length` after creation (src/cserve_get_handler.c:146); this write is modelled as building the response value.
- Ownership of the file buffer is not modelled. The header says the body is copied (include/cserve_net.h:164), while the handler treats it as owned by the response (src/cserve_get_handler.c:148). No allocation, freeing or leak is modelled.
- A read buffer with no NUL at all (a full 8192-byte read) is parsed as the whole buffer; C would read past its end.
- getcwd, access and atoi are parameters of `ArgParse`: the working directory or none, an existence test, and a conversion function.
- Cli.Cli.ArgParse requires that the first -p/--port (and, when the port is accepted, the first -d/--directory) is not the last argument. Otherwise C reads `argv[argc]`, which is NULL, and the behaviour is undefined.
- Logging: print_http_request, print_help and every printf/perror are not modelled.
- main itself (arg_parse, then cserve_init, then cserve_start) is not modelled as a member. Its parts are.
- The date, server token and reason-phrase strings are not fixed by the model, and neither is any case-insensitivity of the method lookup. The model never invents them.
