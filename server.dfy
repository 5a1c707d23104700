/** `main`: the option loop, the listening socket with its bind-retry loop, and the accept
    loop that hands every connection to `processConnection`. The system calls are oracles:
    each is a parameter listing what the kernel answered. */
module Server {
  import opened Bytes
  import opened Commands
  import opened Socket
  import opened Logging
  import opened Handler

  /** The verbosity without `-v`, and the one `-v` selects. */
  const DEFAULT_VERBOSITY: int := 1
  const VERBOSE: int := 2

  /** The lowest port the server picks, and how many ports it picks among. */
  const PORT_BASE: int := 1024
  const PORT_SPAN: int := 10000

  /** What the option loop decides: print the usage line and exit, or go on with a logger
      of the given verbosity. */
  datatype Cli = Usage | Verbosity(level: int)

  /** The option loop as a rule on the characters `getopt` returns, one per option: any
      character other than `v` (an unknown option comes back as `?`) stops with the usage
      line; otherwise `-v` given at least once means verbose. */
  ghost function CommandLine(opts: seq<char>): Cli
  {
    if exists i :: 0 <= i < |opts| && opts[i] != 'v' then Usage
    else if opts == [] then Verbosity(DEFAULT_VERBOSITY)
    else Verbosity(VERBOSE)
  }

  /** The option loop itself: `logger` starts out null, each `v` replaces it with a verbose
      one, anything else ends the program; a logger still null afterwards gets the default
      verbosity. */
  method ParseOptions(opts: seq<char>) returns (logger: Logger?)
    ensures logger == null <==> CommandLine(opts).Usage?
    ensures logger != null ==>
      fresh(logger) && logger.VerbosityLevel == CommandLine(opts).level &&
      logger.stdout == [] && logger.stderr == []
  {
    logger := null;
    var i := 0;
    while i < |opts|
      invariant 0 <= i <= |opts|
      invariant forall j :: 0 <= j < i ==> opts[j] == 'v'
      invariant i == 0 <==> logger == null
      invariant logger != null ==>
        fresh(logger) && logger.VerbosityLevel == VERBOSE && logger.stdout == [] && logger.stderr == []
    {
      if opts[i] == 'v' {
        logger := new Logger(VERBOSE);
      } else {
        return null;
      }
      i := i + 1;
    }
    if logger == null {
      logger := new Logger(DEFAULT_VERBOSITY);
    }
  }

  /** The only thing the options decide: level-2 lines are shown exactly when `-v` was
      given, level-1 lines always. */
  lemma CommandLineGates(opts: seq<char>)
    requires CommandLine(opts).Verbosity?
    ensures Shown(CommandLine(opts).level, 1)
    ensures Shown(CommandLine(opts).level, 2) <==> opts != []
    ensures forall i :: 0 <= i < |opts| ==> opts[i] == 'v'
  {
  }

  /** The port a draw of `rand()` selects. */
  function Port(draw: nat): (p: int)
    ensures PORT_BASE <= p < PORT_BASE + PORT_SPAN
  {
    draw % 10000 + 1024
  }

  /** Every port of the range is the choice of some draw, and draws that differ by a whole
      multiple of the span choose the same port. */
  lemma {:induction false} PortCoversRange(p: int, draw: nat, k: nat)
    requires PORT_BASE <= p < PORT_BASE + PORT_SPAN
    ensures Port(p - PORT_BASE) == p
    ensures Port(draw + k * PORT_SPAN) == Port(draw)
  {
    assert (p - PORT_BASE) % PORT_SPAN == p - PORT_BASE;
    if k > 0 {
      PortCoversRange(p, draw, k - 1);
      assert draw + k * PORT_SPAN == (draw + (k - 1) * PORT_SPAN) + PORT_SPAN;
    }
  }

  /** What one `bind` call answered. */
  datatype BindResult = BindOk | AddrInUse | BindError

  /** One pass of the bind loop: the `rand()` draw that chose its port, and the answer. The
      first draw is the one made before the loop, every later one is the redraw after an
      `EADDRINUSE`. */
  datatype BindAttempt = BindAttempt(draw: nat, result: BindResult)

  /** Where the bind loop ends: bound to a port, failed for a reason other than
      `EADDRINUSE`, or still retrying when the listed answers run out. */
  datatype BindOutcome = Bound(port: int) | BindFailed | StillBinding

  /** The bind loop as a function of the kernel's answers. */
  function BindSpec(attempts: seq<BindAttempt>): (b: BindOutcome)
    ensures b.Bound? ==> PORT_BASE <= b.port < PORT_BASE + PORT_SPAN
  {
    if attempts == [] then StillBinding
    else match attempts[0].result
      case BindOk => Bound(Port(attempts[0].draw))
      case BindError => BindFailed
      case AddrInUse => BindSpec(attempts[1..])
  }

  /** The bind loop: bind with the current port, and on `EADDRINUSE` draw a new one and try
      again. Any other failure ends the loop with `BindFailed`; the caller logs it and exits. */
  method BindLoop(attempts: seq<BindAttempt>) returns (b: BindOutcome)
    ensures b == BindSpec(attempts)
  {
    if attempts == [] {
      return StillBinding;
    }
    var port := Port(attempts[0].draw);
    var i := 0;
    while attempts[i].result != BindOk
      invariant 0 <= i < |attempts|
      invariant port == Port(attempts[i].draw)
      invariant BindSpec(attempts[i..]) == BindSpec(attempts)
      decreases |attempts| - i
    {
      if attempts[i].result == AddrInUse {
        assert attempts[i..][1..] == attempts[i + 1..];
        if i + 1 == |attempts| {
          return StillBinding;
        }
        i := i + 1;
        port := Port(attempts[i].draw);
      } else {
        return BindFailed;
      }
    }
    return Bound(port);
  }

  /** Only `EADDRINUSE` makes the loop go on: it settles at the first other answer, bound to
      the port of that attempt's draw or failed. */
  lemma {:induction false} BindSettlesAtFirstNonCollision(attempts: seq<BindAttempt>, k: nat)
    requires k < |attempts| && attempts[k].result != AddrInUse
    requires forall j :: 0 <= j < k ==> attempts[j].result == AddrInUse
    ensures BindSpec(attempts) ==
      if attempts[k].result == BindOk then Bound(Port(attempts[k].draw)) else BindFailed
  {
    if k > 0 {
      assert attempts[0].result == AddrInUse;
      BindSettlesAtFirstNonCollision(attempts[1..], k - 1);
    }
  }

  /** While every answer is `EADDRINUSE` the loop neither binds nor fails. */
  lemma {:induction false} BindRetriesOnCollisions(attempts: seq<BindAttempt>)
    requires forall j :: 0 <= j < |attempts| ==> attempts[j].result == AddrInUse
    ensures BindSpec(attempts) == StillBinding
  {
    if attempts != [] {
      assert attempts[0].result == AddrInUse;
      BindRetriesOnCollisions(attempts[1..]);
    }
  }

  /** What one `accept` call answered: a connection together with the chunks its kernel
      makes available to successive reads (TCP keeps no message boundaries, so a chunk need
      not be one send of the peer), or an error. */
  datatype AcceptResult = Accepted(stream: seq<Chunk>) | AcceptFailed

  /** How the program ends: an exit status, or not at all within what the oracles list. */
  datatype ServerExit = Exited(status: int) | Running

  /** The accept loop's end and the bytes echoed on each connection it served, in order. */
  datatype ServeRun = ServeRun(exit: ServerExit, echoes: seq<Chunk>)

  /** The handler's run on one accepted connection. */
  function SessionOf(stream: seq<Chunk>): Session
  {
    Handle(Reads(stream, MAX_READ))
  }

  /** A connection the handler ends with `CLOSE`, after which the loop accepts again. */
  predicate Continues(a: AcceptResult)
  {
    a.Accepted? && SessionOf(a.stream).outcome == Returned(CLOSE_CONNECTION)
  }

  /** The run of the loop that serves a connection whose handler ran as `s`, given the run
      that the loop makes afterwards should it go on. */
  function After(s: Session, rest: ServeRun): ServeRun
  {
    match s.outcome
    case AwaitingRead => ServeRun(Running, [s.echoed])
    case Returned(code) =>
      if code != 0 then ServeRun(Exited(0), [s.echoed])
      else ServeRun(rest.exit, [s.echoed] + rest.echoes)
  }

  /** The accept loop as a function of the kernel's answers. */
  function Serve(accepts: seq<AcceptResult>): (r: ServeRun)
    ensures r.exit.Exited? ==> r.exit.status in {-1, 0}
    ensures |r.echoes| <= |accepts|
  {
    if accepts == [] then ServeRun(Running, [])
    else match accepts[0]
      case AcceptFailed => ServeRun(Exited(-1), [])
      case Accepted(stream) => After(SessionOf(stream), Serve(accepts[1..]))
  }

  /** The loop's run from the `i`-th answer on, one step unfolded. */
  lemma ServeStep(accepts: seq<AcceptResult>, i: nat)
    requires i < |accepts|
    ensures Serve(accepts[i..]) ==
      if accepts[i].AcceptFailed? then ServeRun(Exited(-1), [])
      else After(SessionOf(accepts[i].stream), Serve(accepts[i + 1..]))
  {
    assert accepts[i..][0] == accepts[i] && accepts[i..][1..] == accepts[i + 1..];
  }

  /** How the loop ends at a connection it does not go on after. */
  function StopAt(a: AcceptResult): ServerExit
  {
    if a.AcceptFailed? then Exited(-1)
    else if SessionOf(a.stream).outcome.AwaitingRead? then Running
    else Exited(0)
  }

  /** The loop serves connections one after the other until the first that does not end
      with `CLOSE`: an accept error exits with -1, a handler that returns `QUIT` ends the
      program with 0, a handler still reading keeps it running. Each served connection
      carries exactly its own handler's echo. */
  lemma {:induction false} ServeStopsAtFirstNonClose(accepts: seq<AcceptResult>, k: nat)
    requires k < |accepts| && !Continues(accepts[k])
    requires forall j :: 0 <= j < k ==> Continues(accepts[j])
    ensures Serve(accepts).exit == StopAt(accepts[k])
    ensures |Serve(accepts).echoes| == if accepts[k].Accepted? then k + 1 else k
    ensures forall j :: 0 <= j < |Serve(accepts).echoes| ==>
      accepts[j].Accepted? && Serve(accepts).echoes[j] == SessionOf(accepts[j].stream).echoed
  {
    if k == 0 {
      if accepts[0].Accepted? {
        var s := SessionOf(accepts[0].stream);
        if s.outcome.Returned? {
          assert s.outcome.code != 0;
        }
      }
    } else {
      assert Continues(accepts[0]);
      ServeStopsAtFirstNonClose(accepts[1..], k - 1);
      var rest := Serve(accepts[1..]);
      assert Serve(accepts).echoes == [SessionOf(accepts[0].stream).echoed] + rest.echoes;
      forall j | 0 <= j < |Serve(accepts).echoes|
        ensures accepts[j].Accepted? && Serve(accepts).echoes[j] == SessionOf(accepts[j].stream).echoed
      {
        if j > 0 {
          assert accepts[1..][j - 1] == accepts[j];
        }
      }
    }
  }

  /** While every connection ends with `CLOSE` the loop keeps accepting. */
  lemma {:induction false} ServeContinuesAfterClose(accepts: seq<AcceptResult>)
    requires forall j :: 0 <= j < |accepts| ==> Continues(accepts[j])
    ensures Serve(accepts).exit == Running
    ensures |Serve(accepts).echoes| == |accepts|
  {
    if accepts != [] {
      assert Continues(accepts[0]);
      ServeContinuesAfterClose(accepts[1..]);
    }
  }

  /** One accepted connection: run the handler on it, and close it once the handler has
      returned. */
  method ServeConnection(logger: Logger, stream: seq<Chunk>) returns (outcome: Outcome, conn: Connection)
    modifies logger`stdout
    ensures fresh(conn)
    ensures outcome == SessionOf(stream).outcome
    ensures conn.sent == SessionOf(stream).echoed
    ensures conn.open <==> outcome.AwaitingRead?
    ensures logger.VerbosityLevel < 2 ==> logger.stdout == old(logger.stdout)
  {
    logger.Info(2, "received a connection");
    conn := new Connection(stream);
    outcome := ProcessConnection(conn, logger);
    if outcome.Returned? {
      conn.Close();
    }
  }

  /** The accept loop: accept, serve the connection, and go on while the handler's result
      is zero. It returns the loop's end and what was echoed on each connection. */
  method AcceptLoop(logger: Logger, accepts: seq<AcceptResult>) returns (exit: ServerExit, echoes: seq<Chunk>)
    modifies logger`stdout, logger`stderr
    ensures ServeRun(exit, echoes) == Serve(accepts)
    ensures logger.stderr == old(logger.stderr) + (if exit == Exited(-1) && logger.Emits(1) then [ACCEPT_FAILED] else [])
  {
    var quitProgram := 0;
    var i := 0;
    echoes := [];
    while quitProgram == 0
      invariant 0 <= i <= |accepts|
      invariant quitProgram in {0, 1}
      invariant quitProgram == 0 ==>
        Serve(accepts) == ServeRun(Serve(accepts[i..]).exit, echoes + Serve(accepts[i..]).echoes)
      invariant quitProgram != 0 ==> Serve(accepts) == ServeRun(Exited(0), echoes)
      invariant logger.stderr == old(logger.stderr)
      decreases |accepts| - i
    {
      if i == |accepts| {
        return Running, echoes;
      }
      logger.Info(2, "calling accept");
      ServeStep(accepts, i);
      match accepts[i]
      case AcceptFailed =>
        logger.Error(1, ACCEPT_FAILED);
        return Exited(-1), echoes;
      case Accepted(stream) =>
        var outcome, conn := ServeConnection(logger, stream);
        echoes := echoes + [conn.sent];
        if outcome == AwaitingRead {
          // The handler never returns: it stays blocked in `read` on this connection.
          return Running, echoes;
        }
        quitProgram := outcome.code;
        i := i + 1;
    }
    exit := Exited(0);
  }

  /** The error line of a failed `accept`. */
  const ACCEPT_FAILED: LogLine := "Error with accept"

  /** The whole program as a function of its options and the kernel's answers to `socket`,
      `bind`, `listen` and `accept`. */
  ghost function MainExit(opts: seq<char>, socketOk: bool, binds: seq<BindAttempt>, listenOk: bool,
                          accepts: seq<AcceptResult>): (e: ServerExit)
    ensures e.Exited? ==> e.status in {-4, -1, 0}
  {
    match CommandLine(opts)
    case Usage => Exited(-1)
    case Verbosity(_) =>
      if !socketOk then Exited(-4)
      else match BindSpec(binds)
        case BindFailed => Exited(-1)
        case StillBinding => Running
        case Bound(_) => if !listenOk then Exited(-1) else Serve(accepts).exit
  }

  /** The program ends with status 0 only after some accepted connection's handler has
      returned `QUIT`. */
  lemma {:induction false} ExitZeroOnlyAfterQuit(accepts: seq<AcceptResult>)
    requires Serve(accepts).exit == Exited(0)
    ensures exists k :: (0 <= k < |accepts| && accepts[k].Accepted? &&
      SessionOf(accepts[k].stream).outcome == Returned(QUITE_PROGRAM))
  {
    match accepts[0]
    case Accepted(stream) =>
      var s := SessionOf(stream);
      if s.outcome == Returned(CLOSE_CONNECTION) {
        ExitZeroOnlyAfterQuit(accepts[1..]);
        var k :| 0 <= k < |accepts[1..]| && accepts[1..][k].Accepted? &&
          SessionOf(accepts[1..][k].stream).outcome == Returned(QUITE_PROGRAM);
        assert accepts[k + 1] == accepts[1..][k];
      } else {
        assert accepts[0].Accepted? && SessionOf(accepts[0].stream).outcome == Returned(QUITE_PROGRAM);
      }
  }

  /** `main`: parse the options, open the listening socket, bind it with retries, listen,
      and serve. Every exit with a negative status other than the usage line leaves exactly
      one line on standard error; no other run writes there. */
  method RunServer(opts: seq<char>, socketOk: bool, binds: seq<BindAttempt>, listenOk: bool,
                   accepts: seq<AcceptResult>)
    returns (exit: ServerExit, logger: Logger?)
    ensures exit == MainExit(opts, socketOk, binds, listenOk, accepts)
    ensures logger == null <==> CommandLine(opts).Usage?
    ensures logger != null ==> logger.VerbosityLevel == CommandLine(opts).level
    ensures logger != null ==> |logger.stderr| == if exit.Exited? && exit.status < 0 then 1 else 0
  {
    logger := ParseOptions(opts);
    if logger == null {
      return Exited(-1), null;
    }
    if !socketOk {
      logger.Error(1, "Failed to open socket");
      return Exited(-4), logger;
    }
    logger.Info(2, "calling socket");
    logger.Info(2, "calling bind");
    var bound := BindLoop(binds);
    match bound
    case BindFailed =>
      logger.Error(1, "Failed to bind socket");
      return Exited(-1), logger;
    case StillBinding =>
      return Running, logger;
    case Bound(port) =>
      logger.Info(1, "Using port");
      logger.Info(2, "calling listen");
      if !listenOk {
        logger.Error(1, "Failed to listen");
        return Exited(-1), logger;
      }
      var echoes;
      exit, echoes := AcceptLoop(logger, accepts);
  }

  /** One run end to end: a client sends a line and then `CLOSE`, the next sends `QUIT`,
      each message delivered by its own read. The first line comes back unchanged,
      nothing comes back on the second connection, and the server ends with status 0. */
  lemma CloseThenQuit(line: Chunk)
    requires |line| <= MAX_READ && Classify(line) == Payload
    ensures Serve([Accepted([line, CLOSE_TEXT]), Accepted([QUIT_TEXT])]) == ServeRun(Exited(0), [line, []])
  {
    ReadsOfFittingChunks([line, CLOSE_TEXT], MAX_READ);
    ReadsOfFittingChunks([QUIT_TEXT], MAX_READ);
    assert Classify(CLOSE_TEXT) == Close;
    assert Classify(QUIT_TEXT) == Quit;
    HandleAtFirstCommand([line, CLOSE_TEXT], 1);
    HandleAtFirstCommand([QUIT_TEXT], 0);
    ConcatSingle(line);
    assert [line, CLOSE_TEXT][..1] == [line];
    var accepts := [Accepted([line, CLOSE_TEXT]), Accepted([QUIT_TEXT])];
    assert accepts[1..] == [Accepted([QUIT_TEXT])];
    assert accepts[1..][1..] == [];
  }
}
