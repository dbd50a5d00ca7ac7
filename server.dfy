/** The server of src/cserve.c: cserve_init, cserve_handle_request, and
    the body of the accept loop of cserve_start.

    The globals PORT and DIRECTORY and the loop's read buffer are the
    fields of a Server object. Socket creation, bind, listen, accept, read
    and send are not modelled as calls: one loop iteration takes what
    accept and read returned as inputs and returns what was sent. */
module Server {
  import opened CLib
  import opened Http
  import opened Net
  import opened GetHandler
  import opened Config

  /** MAX_BUFFER_SIZE: 8 KiB. */
  const MaxBufferSize: nat := 8192

  /** What read(2) returned: an error, or the bytes it stored (rv >= 0). */
  datatype ReadResult = ReadError | Received(data: seq<char>)

  /** One pass of the accept loop, as seen from outside: accept returned
      the connection or failed, read returned this, the files are these,
      the unseen routines behave as env and faults say, and
      http_response_to_string did or did not succeed. */
  datatype Connection = Connection(
    accepted: bool,
    read: ReadResult,
    fs: map<seq<char>, seq<char>>,
    env: Env,
    faults: Faults,
    serialized: bool)

  /** How an iteration ended: accept failed (nothing else happens), or the
      client socket was closed after sending these bytes, or nothing. */
  datatype Outcome = AcceptFailed | Closed(sent: Option<seq<char>>)

  /** cserve_handle_request: method_str_to_enum decides; GET goes to the GET
      handler with DIRECTORY, everything else gets 405 text/plain. */
  function Dispatch(req: RequestFields, directory: seq<char>, fs: map<seq<char>, seq<char>>,
                    env: Env, faults: Faults): Option<Response> {
    if env.methodOf(req.methodName) == Get then GetResponse(req, directory, fs, env, faults)
    else CreateResponse(MethodNotAllowed, DefaultContentType, Some("Method Not Allowed"), env, faults.createOk)
  }

  /** The buffer after read(2) stored `data` at its start: the bytes past
      them are what earlier reads left there. */
  function AfterRead(buffer: seq<char>, data: seq<char>): (b: seq<char>)
    requires |data| <= |buffer|
    ensures |b| == |buffer| && b[..|data|] == data && b[|data|..] == buffer[|data|..]
  {
    data + buffer[|data|..]
  }

  /** What one iteration sends, given the buffer as it was before read. */
  function StepOutcome(c: Connection, buffer: seq<char>, directory: seq<char>): (o: Outcome)
    requires c.read.Received? ==> |c.read.data| <= |buffer|
    ensures o.Closed? <==> c.accepted
    ensures o.Closed? && o.sent.Some? ==> c.read.Received? && c.serialized
  {
    if !c.accepted then AcceptFailed
    else if c.read.ReadError? then Closed(None)
    else
      var req := ParseRequest(Some(AfterRead(buffer, c.read.data)));
      if req.None? then Closed(None)
      else
        var res := Dispatch(req.value, directory, c.fs, c.env, c.faults);
        if res.None? || !c.serialized then Closed(None)
        else Closed(Some(CStr(Serialize(res.value))))
  }

  /** The buffer after one iteration: only a successful read changes it. */
  function StepBuffer(c: Connection, buffer: seq<char>): (b: seq<char>)
    requires c.read.Received? ==> |c.read.data| <= |buffer|
    ensures |b| == |buffer|
  {
    if c.accepted && c.read.Received? then AfterRead(buffer, c.read.data) else buffer
  }

  /** A read never returns more than the buffer holds. */
  predicate ReadFits(c: Connection) {
    c.read.Received? ==> |c.read.data| <= MaxBufferSize
  }

  /** Every read of the run fits the buffer. */
  predicate AllReadsFit(cs: seq<Connection>) {
    forall i :: 0 <= i < |cs| ==> ReadFits(cs[i])
  }

  /** The outcomes of iterations k, k + 1, ... of a run, the buffer carried
      from each to the next. */
  function RunOutcomes(cs: seq<Connection>, k: nat, buffer: seq<char>, directory: seq<char>): (os: seq<Outcome>)
    requires k <= |cs| && |buffer| == MaxBufferSize && AllReadsFit(cs)
    ensures |os| == |cs| - k
    decreases |cs| - k
  {
    if k == |cs| then []
    else
      assert ReadFits(cs[k]);
      [StepOutcome(cs[k], buffer, directory)] + RunOutcomes(cs, k + 1, StepBuffer(cs[k], buffer), directory)
  }

  /** One iteration of a run, unfolded. */
  lemma RunStep(cs: seq<Connection>, k: nat, buffer: seq<char>, directory: seq<char>)
    requires k < |cs| && |buffer| == MaxBufferSize && AllReadsFit(cs)
    ensures ReadFits(cs[k])
    ensures RunOutcomes(cs, k, buffer, directory) ==
      [StepOutcome(cs[k], buffer, directory)] + RunOutcomes(cs, k + 1, StepBuffer(cs[k], buffer), directory)
    ensures RunBuffer(cs, k, buffer) == RunBuffer(cs, k + 1, StepBuffer(cs[k], buffer))
  {
    assert ReadFits(cs[k]);
  }

  /** Every iteration of a run past a successful accept ends with the
      client socket closed, and no other iteration does. */
  lemma {:induction false} RunClosesAccepted(cs: seq<Connection>, k: nat, buffer: seq<char>, directory: seq<char>)
    requires k <= |cs| && |buffer| == MaxBufferSize && AllReadsFit(cs)
    ensures forall i :: 0 <= i < |cs| - k ==>
      (RunOutcomes(cs, k, buffer, directory)[i].Closed? <==> cs[k + i].accepted)
    decreases |cs| - k
  {
    if k < |cs| {
      RunStep(cs, k, buffer, directory);
      var next := StepBuffer(cs[k], buffer);
      RunClosesAccepted(cs, k + 1, next, directory);
      ClosedMatchesCons(StepOutcome(cs[k], buffer, directory), RunOutcomes(cs, k + 1, next, directory), cs, k);
    }
  }

  /** Extending a run's outcomes by one iteration in front keeps them in
      step with the accepts. */
  lemma ClosedMatchesCons(o: Outcome, os: seq<Outcome>, cs: seq<Connection>, k: nat)
    requires k < |cs| && |os| == |cs| - k - 1
    requires o.Closed? <==> cs[k].accepted
    requires forall i :: 0 <= i < |os| ==> (os[i].Closed? <==> cs[k + 1 + i].accepted)
    ensures forall i :: 0 <= i < |os| + 1 ==> (([o] + os)[i].Closed? <==> cs[k + i].accepted)
  {
    forall i | 0 <= i < |os| + 1
      ensures ([o] + os)[i].Closed? <==> cs[k + i].accepted
    {
      if i > 0 {
        assert ([o] + os)[i] == os[i - 1];
        assert k + 1 + (i - 1) == k + i;
      }
    }
  }

  /** The buffer after iterations k, k + 1, ... of a run. */
  function RunBuffer(cs: seq<Connection>, k: nat, buffer: seq<char>): (b: seq<char>)
    requires k <= |cs| && |buffer| == MaxBufferSize && AllReadsFit(cs)
    ensures |b| == MaxBufferSize
    decreases |cs| - k
  {
    if k == |cs| then buffer
    else
      assert ReadFits(cs[k]);
      RunBuffer(cs, k + 1, StepBuffer(cs[k], buffer))
  }

  class Server {
    /** PORT. */
    var port: int
    /** DIRECTORY, a MAX_DIR_PATH_SIZE array. */
    var directory: seq<char>
    /** cserve_start's read buffer: zeroed once, never cleared again. */
    const buffer: array<char>

    predicate Valid()
      reads this
    {
      buffer.Length == MaxBufferSize && |directory| < MaxDirPathSize
    }

    /** The zero-initialised globals and the zeroed read buffer. */
    constructor ()
      ensures Valid() && fresh(buffer)
      ensures port == 0 && directory == []
      ensures forall i :: 0 <= i < buffer.Length ==> buffer[i] == NUL
    {
      port := 0;
      directory := [];
      buffer := new char[MaxBufferSize](_ => NUL);
    }

    /** cserve_init(port, directory): store the port as given and the
      directory cut to MAX_DIR_PATH_SIZE - 1 characters; always SUCCESS. */
    method Init(port: int, directory: seq<char>) returns (rc: ReturnCode)
      requires Valid()
      modifies this
      ensures Valid() && rc == Success
      ensures this.port == port && this.directory == Truncate(directory, MaxDirPathSize)
      ensures this.directory <= directory && (|directory| < MaxDirPathSize ==> this.directory == directory)
    {
      this.port := port;
      this.directory := Truncate(directory, MaxDirPathSize);
      rc := Success;
    }

    /** cserve_handle_request(req). */
    method HandleRequest(req: HttpRequest, fs: map<seq<char>, seq<char>>, env: Env, faults: Faults)
      returns (res: Option<Response>)
      modifies req
      ensures res == Dispatch(old(req.Fields()), directory, fs, env, faults)
      ensures req.Fields() ==
        if env.methodOf(old(req.methodName)) == Get then HandledRequest(old(req.Fields())) else old(req.Fields())
    {
      var m := env.methodOf(req.methodName);
      match m {
        case Get =>
          res := HandleGet(req, directory, fs, env, faults);
        case _ =>
          res := CreateResponse(MethodNotAllowed, "text/plain", Some("Method Not Allowed"), env, faults.createOk);
      }
    }

    /** read(new_socket, buffer, MAX_BUFFER_SIZE) storing `data`. */
    method Read(data: seq<char>)
      requires Valid() && |data| <= MaxBufferSize
      modifies buffer
      ensures buffer[..] == AfterRead(old(buffer[..]), data)
    {
      forall i | 0 <= i < |data| {
        buffer[i] := data[i];
      }
      assert buffer[..] == AfterRead(old(buffer[..]), data);
    }

    /** One iteration of the while(1) loop of cserve_start: accept, read,
      parse, handle, serialise, send strlen(response) bytes, close. */
    method Step(c: Connection) returns (outcome: Outcome)
      requires Valid() && ReadFits(c)
      modifies buffer
      ensures Valid()
      ensures outcome == StepOutcome(c, old(buffer[..]), directory)
      ensures buffer[..] == StepBuffer(c, old(buffer[..]))
    {
      if !c.accepted {
        return AcceptFailed;
      }
      if c.read.ReadError? {
        return Closed(None);
      }
      Read(c.read.data);
      var req := ParseHttpRequest(Some(buffer[..]));
      if req == null {
        return Closed(None);
      }
      var res := HandleRequest(req, c.fs, c.env, c.faults);
      if res.None? {
        return Closed(None);
      }
      if !c.serialized {
        return Closed(None);
      }
      var response := Serialize(res.value);
      return Closed(Some(CStr(response)));
    }

    /** The loop run over a sequence of connections: every iteration past
      a successful accept ends with the socket closed, and the buffer is
      carried over from one to the next. */
    method Run(cs: seq<Connection>) returns (outcomes: seq<Outcome>)
      requires Valid() && AllReadsFit(cs)
      modifies buffer
      ensures Valid()
      ensures outcomes == RunOutcomes(cs, 0, old(buffer[..]), directory)
      ensures buffer[..] == RunBuffer(cs, 0, old(buffer[..]))
    {
      outcomes := [];
      ghost var initial := buffer[..];
      var k := 0;
      while k < |cs|
        invariant 0 <= k <= |cs| && Valid() && |buffer[..]| == MaxBufferSize
        invariant RunOutcomes(cs, 0, initial, directory) ==
                  outcomes + RunOutcomes(cs, k, buffer[..], directory)
        invariant RunBuffer(cs, 0, initial) == RunBuffer(cs, k, buffer[..])
      {
        assert ReadFits(cs[k]);
        ghost var before := buffer[..];
        var o := Step(cs[k]);
        RunAppend(cs, k, initial, before, directory, outcomes);
        outcomes := outcomes + [o];
        k := k + 1;
      }
    }
  }

  /** The loop invariant of Run carried over one iteration. */
  lemma RunAppend(cs: seq<Connection>, k: nat, initial: seq<char>, before: seq<char>,
                  directory: seq<char>, outcomes: seq<Outcome>)
    requires k < |cs| && |initial| == MaxBufferSize && |before| == MaxBufferSize && AllReadsFit(cs)
    requires RunOutcomes(cs, 0, initial, directory) == outcomes + RunOutcomes(cs, k, before, directory)
    requires RunBuffer(cs, 0, initial) == RunBuffer(cs, k, before)
    ensures ReadFits(cs[k])
    ensures RunOutcomes(cs, 0, initial, directory) ==
      (outcomes + [StepOutcome(cs[k], before, directory)]) +
      RunOutcomes(cs, k + 1, StepBuffer(cs[k], before), directory)
    ensures RunBuffer(cs, 0, initial) == RunBuffer(cs, k + 1, StepBuffer(cs[k], before))
  {
    RunStep(cs, k, before, directory);
    var o := StepOutcome(cs[k], before, directory);
    var rest := RunOutcomes(cs, k + 1, StepBuffer(cs[k], before), directory);
    assert outcomes + ([o] + rest) == (outcomes + [o]) + rest;
  }

  // ---------------------------------------------------------------------
  // What the loop promises

  /** Leftover bytes are parsed again: after a read of `data` (without a
      NUL), the parser sees `data` followed by the C string that an
      earlier, longer request left behind it. */
  lemma StaleBytesParsed(buffer: seq<char>, data: seq<char>)
    requires |data| <= |buffer| && NUL !in data
    ensures CStr(AfterRead(buffer, data)) == data + CStr(buffer[|data|..])
  {
    CStrConcat(data, buffer[|data|..]);
  }

  /** A zero-byte read is not an error: the previous request, still in the
      buffer, is parsed and answered again. */
  lemma EmptyReadReplays(c: Connection, buffer: seq<char>, directory: seq<char>)
    requires c.accepted && c.read == Received([])
    ensures StepBuffer(c, buffer) == buffer
    ensures StepOutcome(c, buffer, directory) ==
      var req := ParseRequest(Some(buffer));
      if req.None? then Closed(None)
      else
        var res := Dispatch(req.value, directory, c.fs, c.env, c.faults);
        if res.None? || !c.serialized then Closed(None)
        else Closed(Some(CStr(Serialize(res.value))))
  {
    assert AfterRead(buffer, []) == buffer;
  }

  /** Read errors, parse failures, a handler that returns NULL (response
      creation failed) and serialisation failures all close the connection
      with nothing sent. */
  lemma FailuresSendNothing(c: Connection, buffer: seq<char>, directory: seq<char>)
    requires c.accepted
    requires c.read.Received? ==> |c.read.data| <= |buffer|
    requires c.read.ReadError? || ParseRequest(Some(AfterRead(buffer, c.read.data))).None? ||
             !c.faults.createOk || !c.serialized
    ensures StepOutcome(c, buffer, directory) == Closed(None)
  {
  }

  /** strlen decides how much is sent: with a head free of NUL, what goes
      out is the head and the body up to its first NUL, so a body holding a
      zero byte is cut short. */
  lemma SentUpToFirstNul(r: Response)
    requires NUL !in ResponseHead(r)
    ensures CStr(Serialize(r)) == ResponseHead(r) + CStr(r.BodyBytes())
    ensures NUL in r.BodyBytes() ==> |CStr(Serialize(r))| < |Serialize(r)|
  {
    CStrConcat(ResponseHead(r), r.BodyBytes());
  }

  /** A method that method_str_to_enum does not map to GET gets 405
      text/plain "Method Not Allowed", whatever the path. */
  lemma NonGetMethodIs405(req: RequestFields, directory: seq<char>, fs: map<seq<char>, seq<char>>,
                          env: Env, faults: Faults, path': seq<char>)
    requires env.methodOf(req.methodName) != Get && faults.createOk
    ensures Dispatch(req, directory, fs, env, faults).value.status == MethodNotAllowed
    ensures Dispatch(req, directory, fs, env, faults).value.contentType == "text/plain"
    ensures Dispatch(req, directory, fs, env, faults) == Dispatch(req.(path := path'), directory, fs, env, faults)
  {
  }

  /** Only the exact method name "GET" reaches the files: whatever
      method_str_to_enum accepts as GET, the handler's strcmp still
      answers anything else with 405. */
  lemma OnlyExactGetReachesFiles(req: RequestFields, directory: seq<char>, fs: map<seq<char>, seq<char>>,
                                 env: Env, faults: Faults)
    requires req.methodName != "GET" && faults.createOk
    ensures Dispatch(req, directory, fs, env, faults).value.status == MethodNotAllowed
  {
  }
}
