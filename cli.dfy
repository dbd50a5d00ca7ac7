/** The command line of src/main.c: check_arg_validity and arg_parse.

    The static globals `port` and `directory` are the fields of a Cli
    object. getcwd, access and atoi are not called: the working directory
    (or its absence), the existence test and the integer conversion are
    parameters. An argument vector is the sequence of C strings argv[0],
    ..., argv[argc - 1]. */
module Cli {
  import opened CLib
  import opened Config

  /** The initial contents of `directory`. */
  const DefaultDirectory: seq<char> := "./"
  const MaxPort: int := 65535

  /** valid_args: the short and the long spelling of each option, in
      table order. */
  const ValidArgs: seq<(seq<char>, seq<char>)> :=
    [("-p", "--port"), ("-h", "--help"), ("-d", "--directory"), ("-v", "--version")]

  /** The rows of valid_args that arg_parse looks up: 0 and 2. */
  const PortFlag: nat := 0
  const DirFlag: nat := 2

  /** `arg` is the short or the long spelling of row k (two strcmp). */
  predicate IsFlag(arg: seq<char>, k: nat)
    requires k < |ValidArgs|
  {
    arg == ValidArgs[k].0 || arg == ValidArgs[k].1
  }

  /** `arg` is one of the spellings in the table. */
  predicate IsValidFlag(arg: seq<char>) {
    exists k :: 0 <= k < |ValidArgs| && IsFlag(arg, k)
  }

  /** check_arg_validity(arg): a search of the table, first row first. */
  method CheckArgValidity(arg: seq<char>) returns (rc: ReturnCode)
    ensures rc == Success <==> IsValidFlag(arg)
  {
    var i := 0;
    while i < |ValidArgs|
      invariant 0 <= i <= |ValidArgs|
      invariant forall k :: 0 <= k < i ==> !IsFlag(arg, k)
    {
      if arg == ValidArgs[i].0 || arg == ValidArgs[i].1 {
        assert IsFlag(arg, i);
        return Success;
      }
      i := i + 1;
    }
    return Failure;
  }

  /** The table accepts exactly these eight strings. */
  lemma ValidFlagsAreTheEight(arg: seq<char>)
    ensures IsValidFlag(arg) <==>
      arg in {"-p", "--port", "-h", "--help", "-d", "--directory", "-v", "--version"}
  {
    if arg in {"-p", "--port"} { assert IsFlag(arg, 0); }
    if arg in {"-h", "--help"} { assert IsFlag(arg, 1); }
    if arg in {"-d", "--directory"} { assert IsFlag(arg, 2); }
    if arg in {"-v", "--version"} { assert IsFlag(arg, 3); }
  }

  /** Every argument at an odd index is a valid flag (the first loop of
      arg_parse); even indices are not looked at. */
  predicate OddArgsValid(argv: seq<seq<char>>) {
    forall i :: 1 <= i < |argv| && i % 2 == 1 ==> IsValidFlag(argv[i])
  }

  /** The index of the first spelling of row k at index i or later. */
  function FirstFlagFrom(argv: seq<seq<char>>, k: nat, i: nat): (r: Option<nat>)
    requires k < |ValidArgs|
    ensures r.Some? ==> i <= r.value < |argv| && IsFlag(argv[r.value], k)
    ensures r.Some? ==> forall j :: i <= j < r.value ==> !IsFlag(argv[j], k)
    ensures r.None? <==> forall j :: i <= j < |argv| ==> !IsFlag(argv[j], k)
    decreases |argv| - i
  {
    if i >= |argv| then None
    else if IsFlag(argv[i], k) then Some(i)
    else FirstFlagFrom(argv, k, i + 1)
  }

  /** The index of the first spelling of row k among argv[1..]. */
  function FirstFlag(argv: seq<seq<char>>, k: nat): Option<nat>
    requires k < |ValidArgs|
  {
    FirstFlagFrom(argv, k, 1)
  }

  /** The first spelling of row k, if any, is not the last argument, so
      that argv[i + 1] is an argument and not the terminating NULL. */
  predicate ValueFollows(argv: seq<seq<char>>, k: nat)
    requires k < |ValidArgs|
  {
    FirstFlag(argv, k).Some? ==> FirstFlag(argv, k).value + 1 < |argv|
  }

  predicate PortInRange(p: int) {
    1 <= p <= MaxPort
  }

  /** The port after the port loop: atoi of the value of the first
      -p/--port, or the port as it was. */
  function PortAfter(argv: seq<seq<char>>, atoi: seq<char> -> int, port: int): int
    requires ValueFollows(argv, PortFlag)
  {
    match FirstFlag(argv, PortFlag)
    case None => port
    case Some(i) => atoi(argv[i + 1])
  }

  /** The port loop lets arg_parse go on: there is no -p/--port, or its
      value converts to a port in 1..65535 (a zero, refused first, is
      outside that range too). */
  predicate PortAccepted(argv: seq<seq<char>>, atoi: seq<char> -> int)
    requires ValueFollows(argv, PortFlag)
  {
    FirstFlag(argv, PortFlag).Some? ==> PortInRange(atoi(argv[FirstFlag(argv, PortFlag).value + 1]))
  }

  /** arg_parse never reads past the last argument: whenever a loop reaches
      a flag, a value follows it. */
  predicate Readable(argv: seq<seq<char>>, atoi: seq<char> -> int) {
    (|argv| != 1 && OddArgsValid(argv) ==> ValueFollows(argv, PortFlag)) &&
    (|argv| != 1 && OddArgsValid(argv) && PortAccepted(argv, atoi) ==> ValueFollows(argv, DirFlag))
  }

  /** directory[0] == '/' (an empty directory holds NUL there). */
  predicate IsAbsolute(d: seq<char>) {
    |d| > 0 && d[0] == '/'
  }

  /** snprintf of "%s/%s" into the 2 * MAX_DIR_PATH_SIZE temp_path, then
      of temp_path into the MAX_DIR_PATH_SIZE directory. */
  function Resolve(cwd: seq<char>, d: seq<char>): (r: seq<char>)
    ensures |r| < MaxDirPathSize
  {
    Truncate(Truncate(cwd + "/" + d, 2 * MaxDirPathSize), MaxDirPathSize)
  }

  /** The outcome of arg_parse: its return code and the globals after. */
  datatype Parsed = Parsed(rc: ReturnCode, port: int, directory: seq<char>)

  /** The directory loop, reached with the port already settled. */
  function DirectoryStep(argv: seq<seq<char>>, cwd: Option<seq<char>>, present: seq<char> -> bool,
                         port: int, directory: seq<char>): Parsed
    requires ValueFollows(argv, DirFlag)
  {
    match FirstFlag(argv, DirFlag)
    case None => Parsed(Success, port, directory)
    case Some(i) =>
      var d := Truncate(argv[i + 1], MaxDirPathSize);
      if IsAbsolute(d) then Parsed(Success, port, d)
      else if cwd.None? then Parsed(Failure, port, d)
      else
        var full := Resolve(cwd.value, d);
        Parsed(if present(full) then Success else Failure, port, full)
  }

  /** arg_parse(argc, argv) from the globals `port` and `directory`. */
  function ParseArgs(argv: seq<seq<char>>, cwd: Option<seq<char>>, present: seq<char> -> bool,
                     atoi: seq<char> -> int, port: int, directory: seq<char>): Parsed
    requires Readable(argv, atoi)
  {
    if |argv| == 1 || !OddArgsValid(argv) then Parsed(Failure, port, directory)
    else if !PortAccepted(argv, atoi) then Parsed(Failure, PortAfter(argv, atoi, port), directory)
    else DirectoryStep(argv, cwd, present, PortAfter(argv, atoi, port), directory)
  }

  /** The first loop of arg_parse: check_arg_validity on argv[1], argv[3],
      ... until one fails. */
  method ValidateOddArgs(argv: seq<seq<char>>) returns (rc: ReturnCode)
    ensures rc == Success <==> OddArgsValid(argv)
  {
    var i := 1;
    while i < |argv|
      invariant 1 <= i && i % 2 == 1
      invariant forall j :: 1 <= j < i && j < |argv| && j % 2 == 1 ==> IsValidFlag(argv[j])
    {
      var valid := CheckArgValidity(argv[i]);
      if valid == Failure {
        assert !IsValidFlag(argv[i]);
        return Failure;
      }
      i := i + 2;
    }
    return Success;
  }

  class Cli {
    /** The static `port`. */
    var port: int
    /** The static `directory` buffer. */
    var directory: seq<char>

    /** The globals as the program starts. */
    constructor ()
      ensures port == DefaultPort && directory == DefaultDirectory
    {
      port := DefaultPort;
      directory := DefaultDirectory;
    }

    /** arg_parse(argc, argv). */
    method ArgParse(argv: seq<seq<char>>, cwd: Option<seq<char>>, present: seq<char> -> bool,
                    atoi: seq<char> -> int) returns (rc: ReturnCode)
      requires Readable(argv, atoi)
      modifies this
      ensures Parsed(rc, port, directory) == ParseArgs(argv, cwd, present, atoi, old(port), old(directory))
    {
      if |argv| == 1 {
        return Failure;
      }
      var valid := ValidateOddArgs(argv);
      if valid == Failure {
        return Failure;
      }
      var accepted := ParsePort(argv, atoi);
      if !accepted {
        return Failure;
      }
      rc := ParseDirectory(argv, cwd, present);
    }

    /** The port loop of arg_parse: the first -p/--port sets the port to
        atoi of the next argument, which must lie in 1..65535. */
    method ParsePort(argv: seq<seq<char>>, atoi: seq<char> -> int) returns (accepted: bool)
      requires ValueFollows(argv, PortFlag)
      modifies this
      ensures accepted == PortAccepted(argv, atoi)
      ensures port == PortAfter(argv, atoi, old(port)) && directory == old(directory)
    {
      var i := 1;
      while i < |argv|
        invariant 1 <= i && (|argv| > 0 ==> i <= |argv|)
        invariant FirstFlagFrom(argv, PortFlag, i) == FirstFlag(argv, PortFlag)
        invariant port == old(port) && directory == old(directory)
      {
        if argv[i] == ValidArgs[PortFlag].0 || argv[i] == ValidArgs[PortFlag].1 {
          port := atoi(argv[i + 1]);
          if port == 0 {
            return false;
          }
          if port < 1 || port > MaxPort {
            return false;
          }
          break;
        }
        i := i + 1;
      }
      return true;
    }

    /** The directory loop of arg_parse: the first -d/--directory sets the
        directory, resolving a relative one against the working directory
        and requiring it to exist. */
    method ParseDirectory(argv: seq<seq<char>>, cwd: Option<seq<char>>, present: seq<char> -> bool)
      returns (rc: ReturnCode)
      requires ValueFollows(argv, DirFlag)
      modifies this
      ensures Parsed(rc, port, directory) == DirectoryStep(argv, cwd, present, old(port), old(directory))
    {
      var i := 1;
      while i < |argv|
        invariant 1 <= i && (|argv| > 0 ==> i <= |argv|)
        invariant FirstFlagFrom(argv, DirFlag, i) == FirstFlag(argv, DirFlag)
        invariant port == old(port) && directory == old(directory)
      {
        if argv[i] == ValidArgs[DirFlag].0 || argv[i] == ValidArgs[DirFlag].1 {
          directory := Truncate(argv[i + 1], MaxDirPathSize);
          if !IsAbsolute(directory) {
            if cwd.Some? {
              var tempPath := Truncate(cwd.value + "/" + directory, 2 * MaxDirPathSize);
              directory := Truncate(tempPath, MaxDirPathSize);
            } else {
              return Failure;
            }
            if !present(directory) {
              return Failure;
            }
          }
          break;
        }
        i := i + 1;
      }
      return Success;
    }
  }

  // ---------------------------------------------------------------------
  // What arg_parse promises

  /** No arguments at all: FAILURE, and nothing changes. */
  lemma NoArgumentsFails(prog: seq<char>, cwd: Option<seq<char>>, present: seq<char> -> bool,
                         atoi: seq<char> -> int, port: int, directory: seq<char>)
    ensures ParseArgs([prog], cwd, present, atoi, port, directory) == Parsed(Failure, port, directory)
  {
  }

  /** An argument at an odd index that is not in the table: FAILURE, and
      nothing changes. */
  lemma InvalidFlagFails(argv: seq<seq<char>>, i: nat, cwd: Option<seq<char>>, present: seq<char> -> bool,
                         atoi: seq<char> -> int, port: int, directory: seq<char>)
    requires Readable(argv, atoi)
    requires 1 <= i < |argv| && i % 2 == 1 && !IsValidFlag(argv[i])
    ensures ParseArgs(argv, cwd, present, atoi, port, directory) == Parsed(Failure, port, directory)
  {
  }

  /** Arguments at even indices are never validated. */
  lemma {:induction false} EvenArgsUnchecked(argv: seq<seq<char>>, i: nat, x: seq<char>)
    requires 2 <= i < |argv| && i % 2 == 0
    ensures OddArgsValid(argv[i := x]) <==> OddArgsValid(argv)
  {
    forall j | 1 <= j < |argv| && j % 2 == 1
      ensures argv[i := x][j] == argv[j]
    {
    }
  }

  /** Without -p/--port and -d/--directory (only -h, -v or their long
      forms), arg_parse succeeds and changes nothing: the program keeps
      port 80 and directory "./". */
  lemma {:induction false} NoFlagsKeepDefaults(argv: seq<seq<char>>, cwd: Option<seq<char>>,
                                               present: seq<char> -> bool, atoi: seq<char> -> int)
    requires 1 < |argv|
    requires forall j :: 1 <= j < |argv| ==> argv[j] in {"-h", "--help", "-v", "--version"}
    ensures Readable(argv, atoi)
    ensures ParseArgs(argv, cwd, present, atoi, DefaultPort, DefaultDirectory) ==
            Parsed(Success, DefaultPort, DefaultDirectory)
  {
    forall j | 1 <= j < |argv|
      ensures IsValidFlag(argv[j]) && !IsFlag(argv[j], PortFlag) && !IsFlag(argv[j], DirFlag)
    {
      ValidFlagsAreTheEight(argv[j]);
    }
  }

  /** The port comes from the first -p/--port alone; when arg_parse
      succeeds it lies in 1..65535. */
  lemma FirstPortCounts(argv: seq<seq<char>>, i: nat, cwd: Option<seq<char>>, present: seq<char> -> bool,
                        atoi: seq<char> -> int, port: int, directory: seq<char>)
    requires Readable(argv, atoi)
    requires |argv| != 1 && OddArgsValid(argv) && FirstFlag(argv, PortFlag) == Some(i)
    ensures i + 1 < |argv|
    ensures ParseArgs(argv, cwd, present, atoi, port, directory).port == atoi(argv[i + 1])
    ensures ParseArgs(argv, cwd, present, atoi, port, directory).rc == Success ==> PortInRange(atoi(argv[i + 1]))
  {
  }

  /** A later --port is ignored: "-p 8080 --port 9090" listens on
      whatever atoi makes of "8080". */
  lemma LaterPortIgnored(cwd: Option<seq<char>>, present: seq<char> -> bool,
                         atoi: seq<char> -> int, port: int, directory: seq<char>)
    ensures Readable(["cserv", "-p", "8080", "--port", "9090"], atoi)
    ensures ParseArgs(["cserv", "-p", "8080", "--port", "9090"], cwd, present, atoi, port, directory) ==
            Parsed(if PortInRange(atoi("8080")) then Success else Failure, atoi("8080"), directory)
  {
    var argv: seq<seq<char>> := ["cserv", "-p", "8080", "--port", "9090"];
    assert IsFlag(argv[1], 0) && IsFlag(argv[3], 0);
    assert FirstFlag(argv, PortFlag) == Some(1);
    assert FirstFlag(argv, DirFlag) == None by {
      assert !IsFlag(argv[2], DirFlag) && !IsFlag(argv[4], DirFlag);
    }
  }

  /** An absolute directory is taken as given (cut to 4095 characters)
      and never checked: neither the working directory nor the existence
      test matters. */
  lemma AbsoluteDirectoryUnchecked(argv: seq<seq<char>>, i: nat,
                                   cwd: Option<seq<char>>, present: seq<char> -> bool,
                                   cwd': Option<seq<char>>, present': seq<char> -> bool,
                                   atoi: seq<char> -> int, port: int, directory: seq<char>)
    requires Readable(argv, atoi)
    requires |argv| != 1 && OddArgsValid(argv) && PortAccepted(argv, atoi)
    requires FirstFlag(argv, DirFlag) == Some(i)
    requires i + 1 < |argv| && IsAbsolute(Truncate(argv[i + 1], MaxDirPathSize))
    ensures ParseArgs(argv, cwd, present, atoi, port, directory) ==
            Parsed(Success, PortAfter(argv, atoi, port), Truncate(argv[i + 1], MaxDirPathSize))
    ensures ParseArgs(argv, cwd, present, atoi, port, directory) ==
            ParseArgs(argv, cwd', present', atoi, port, directory)
  {
  }

  /** A relative directory is resolved against the working directory;
      arg_parse succeeds exactly when there is one and the resolved path
      present, and the global holds the resolved path either way. */
  lemma RelativeDirectoryResolved(argv: seq<seq<char>>, i: nat, cwd: Option<seq<char>>,
                                  present: seq<char> -> bool, atoi: seq<char> -> int,
                                  port: int, directory: seq<char>)
    requires Readable(argv, atoi)
    requires |argv| != 1 && OddArgsValid(argv) && PortAccepted(argv, atoi)
    requires FirstFlag(argv, DirFlag) == Some(i)
    requires i + 1 < |argv| && !IsAbsolute(Truncate(argv[i + 1], MaxDirPathSize))
    ensures var r := ParseArgs(argv, cwd, present, atoi, port, directory);
            var d := Truncate(argv[i + 1], MaxDirPathSize);
            (r.rc == Success <==> cwd.Some? && present(Resolve(cwd.value, d))) &&
            r.directory == (if cwd.Some? then Resolve(cwd.value, d) else d)
  {
  }

  /** The two snprintf calls cut at the smaller size: the result is the
      working directory, a slash and the value, cut to 4095 characters. */
  lemma ResolveIsOneCut(cwd: seq<char>, d: seq<char>)
    ensures Resolve(cwd, d) == Truncate(cwd + "/" + d, MaxDirPathSize)
    ensures Resolve(cwd, d) <= cwd + "/" + d
  {
  }

  /** The port and directory loops scan every index, values included: in
      "-v -d -p 8080" the -p at index 3 sets the port and "-p" itself
      becomes the (relative) directory. */
  lemma FlagAsValueHonoured(present: seq<char> -> bool, atoi: seq<char> -> int,
                            cwd: seq<char>, port: int, directory: seq<char>)
    requires PortInRange(atoi("8080"))
    ensures Readable(["cserv", "-v", "-d", "-p", "8080"], atoi)
    ensures ParseArgs(["cserv", "-v", "-d", "-p", "8080"], Some(cwd), present, atoi, port, directory) ==
            Parsed(if present(Resolve(cwd, "-p")) then Success else Failure, atoi("8080"), Resolve(cwd, "-p"))
  {
    var argv: seq<seq<char>> := ["cserv", "-v", "-d", "-p", "8080"];
    assert IsFlag(argv[1], 3) && IsFlag(argv[3], 0);
    assert FirstFlag(argv, PortFlag) == Some(3) by {
      assert !IsFlag(argv[1], PortFlag) && !IsFlag(argv[2], PortFlag);
    }
    assert FirstFlag(argv, DirFlag) == Some(2) by {
      assert !IsFlag(argv[1], DirFlag);
    }
    assert OddArgsValid(argv);
    assert argv[4] == "8080" && argv[3] == "-p";
    assert PortAfter(argv, atoi, port) == atoi("8080");
    assert PortAccepted(argv, atoi);
    assert Truncate(argv[3], MaxDirPathSize) == "-p";
  }
}
