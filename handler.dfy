/** `processConnection`: read a chunk into the zero-filled buffer, stop on `CLOSE` or
    `QUIT`, otherwise write the whole chunk back and read again. */
module Handler {
  import opened Bytes
  import opened Commands
  import opened Socket
  import opened Logging

  /** The handler's two return codes. */
  const CLOSE_CONNECTION: int := 0
  const QUITE_PROGRAM: int := 1

  /** How a handler run ends: it returns a code, or it is still waiting in `read` for data
      that the connection has not delivered. */
  datatype Outcome = Returned(code: int) | AwaitingRead

  /** A handler run over the reads of one connection: how it ends, what it wrote back and
      how many reads it performed. */
  datatype Session = Session(outcome: Outcome, echoed: Chunk, consumed: nat)

  /** The handler as a function of the successive read results. */
  function Handle(chunks: seq<Chunk>): (s: Session)
    ensures s.consumed <= |chunks|
    ensures s.outcome.Returned? ==> s.outcome.code in {CLOSE_CONNECTION, QUITE_PROGRAM} && 0 < s.consumed
    ensures s.outcome.AwaitingRead? ==> s.consumed == |chunks|
  {
    if chunks == [] then Session(AwaitingRead, [], 0)
    else match Classify(chunks[0])
      case Close => Session(Returned(CLOSE_CONNECTION), [], 1)
      case Quit => Session(Returned(QUITE_PROGRAM), [], 1)
      case Payload =>
        var s := Handle(chunks[1..]);
        Session(s.outcome, chunks[0] + s.echoed, s.consumed + 1)
  }

  predicate IsCommand(chunk: Chunk)
  {
    Classify(chunk) != Payload
  }

  /** The return code a command chunk produces. */
  function CodeOf(chunk: Chunk): int
  {
    if Classify(chunk) == Close then CLOSE_CONNECTION else QUITE_PROGRAM
  }

  /** The handler returns right after the first command chunk, with that command's code,
      having echoed exactly the chunks before it, in order. */
  lemma {:induction false} HandleAtFirstCommand(chunks: seq<Chunk>, i: nat)
    requires i < |chunks| && IsCommand(chunks[i])
    requires forall j :: 0 <= j < i ==> !IsCommand(chunks[j])
    ensures Handle(chunks) == Session(Returned(CodeOf(chunks[i])), Concat(chunks[..i]), i + 1)
  {
    if i > 0 {
      HandleAtFirstCommand(chunks[1..], i - 1);
      assert !IsCommand(chunks[0]);
      assert chunks[1..][..i - 1] == chunks[1..i];
      assert chunks[..i][1..] == chunks[1..i];
    }
  }

  /** Without a command chunk the handler never returns: it echoes every chunk, in order,
      and waits for the next read. */
  lemma {:induction false} HandleWithoutCommand(chunks: seq<Chunk>)
    requires forall j :: 0 <= j < |chunks| ==> !IsCommand(chunks[j])
    ensures Handle(chunks) == Session(AwaitingRead, Concat(chunks), |chunks|)
  {
    if chunks != [] {
      assert !IsCommand(chunks[0]);
      HandleWithoutCommand(chunks[1..]);
    }
  }

  /** A peer that has shut down makes every read return 0 bytes; the handler answers each
      with an empty write and goes back to reading, so it never returns. */
  lemma {:induction false} EndOfStreamNeverReturns(n: nat)
    ensures Handle(seq(n, _ => [])) == Session(AwaitingRead, [], n)
  {
    if n > 0 {
      var empties: seq<Chunk> := seq(n, _ => []);
      assert Classify(empties[0]) == Payload;
      assert empties[1..] == seq(n - 1, _ => []);
      EndOfStreamNeverReturns(n - 1);
    }
  }

  /** The echo loop: repeated writes until all `bytes` bytes of `buffer` have
      been accepted. Each write starts at `buffer + bytesTrans`; the loop runs at least once,
      so an empty chunk costs exactly one empty write. */
  method Echo(conn: Connection, buffer: array<byte>, bytes: nat)
    returns (bytesTrans: nat, ghost written: seq<Chunk>)
    requires bytes <= buffer.Length
    modifies conn`sent, conn`writes
    ensures bytesTrans == bytes
    ensures conn.sent == old(conn.sent) + buffer[..bytes]
    ensures conn.writes == old(conn.writes) + written
    ensures Concat(written) == buffer[..bytes]
    ensures bytes == 0 ==> written == [[]]
    ensures bytes > 0 ==> forall k :: 0 <= k < |written| ==> written[k] != []
  {
    bytesTrans := 0;
    written := [];
    while true
      invariant bytesTrans < bytes || bytesTrans == bytes == 0
      invariant conn.sent == old(conn.sent) + buffer[..bytesTrans]
      invariant conn.writes == old(conn.writes) + written
      invariant Concat(written) == buffer[..bytesTrans]
      invariant bytes == 0 ==> written == []
      invariant bytes > 0 ==> forall k :: 0 <= k < |written| ==> written[k] != []
      decreases bytes - bytesTrans
    {
      var temp := conn.Write(buffer[bytesTrans..bytes]);
      ghost var piece := buffer[bytesTrans..bytes][..temp];
      assert piece == buffer[bytesTrans..bytesTrans + temp];
      ConcatAppend(written, [piece]);
      ConcatSingle(piece);
      assert buffer[..bytesTrans] + buffer[bytesTrans..bytesTrans + temp] == buffer[..bytesTrans + temp];
      written := written + [piece];
      bytesTrans := bytesTrans + temp;
      if bytesTrans >= bytes {
        break;
      }
    }
  }

  /** Echoing one more payload chunk extends the echoed bytes by that chunk. */
  lemma EchoedOneMore(all: seq<Chunk>, done: nat)
    requires done < |all|
    ensures Concat(all[..done + 1]) == Concat(all[..done]) + all[done]
  {
    assert all[..done + 1] == all[..done] + [all[done]];
    ConcatAppend(all[..done], [all[done]]);
    ConcatSingle(all[done]);
  }

  /** After the zero fill and a read of `bytes` bytes, the buffer is `ZeroFilled` of what
      the read delivered. */
  lemma FilledAfterRead(buf: seq<byte>, bytes: nat)
    requires |buf| == BUFFER_SIZE && bytes <= MAX_READ
    requires forall i :: bytes <= i < |buf| ==> buf[i] == 0
    ensures buf == ZeroFilled(buf[..bytes])
  {
    var z := ZeroFilled(buf[..bytes]);
    forall i | 0 <= i < BUFFER_SIZE ensures buf[i] == z[i] {
      if i < bytes {
        assert z[..bytes][i] == z[i];
      }
    }
  }

  /** The zero fill of the buffer followed by one read of at most `MAX_READ` bytes: the
      buffer then holds what the read delivered, NUL bytes after it, and a NUL last byte. */
  method ReadZeroFilled(conn: Connection, buffer: array<byte>) returns (bytes: nat)
    requires conn.incoming != [] && buffer.Length == BUFFER_SIZE
    modifies conn`incoming, buffer
    ensures bytes <= MAX_READ
    ensures buffer[..] == ZeroFilled(buffer[..bytes])
    ensures Reads(old(conn.incoming), MAX_READ) == [buffer[..bytes]] + Reads(conn.incoming, MAX_READ)
  {
    forall i | 0 <= i < buffer.Length {
      buffer[i] := 0;
    }
    ReadsStep(conn.incoming, MAX_READ);
    bytes := conn.Read(buffer, MAX_READ);
    forall i | bytes <= i < BUFFER_SIZE ensures buffer[..][i] == 0 {
      assert buffer[bytes..][i - bytes] == buffer[i];
    }
    FilledAfterRead(buffer[..], bytes);
  }

  /** The level-2 lines of one pass of the read loop; their text is not modelled beyond
      telling them apart. */
  const CALLING_READ: LogLine := "Calling read"
  const RECEIVED_BYTES: LogLine := "Received bytes"
  const RECEIVED_CLOSE: LogLine := "Received CLOSE command, closing connection..."
  const RECEIVED_QUIT: LogLine := "Received QUITE command, closing connection and exiting ..."

  /** What one pass of the read loop logs at level 2: the read, what it received, and the
      command when the chunk carries one. */
  function PassLog(cmd: Command): seq<LogLine>
  {
    [CALLING_READ, RECEIVED_BYTES] +
      match cmd
      case Close => [RECEIVED_CLOSE]
      case Quit => [RECEIVED_QUIT]
      case Payload => []
  }

  /** One pass of the read loop: log, zero-fill and read, test the buffer for `CLOSE` and
      then `QUIT`, and echo the chunk when it is neither. */
  method ReadAndAnswer(conn: Connection, logger: Logger, buffer: array<byte>)
    returns (cmd: Command, ghost chunk: Chunk)
    requires conn.incoming != [] && buffer.Length == BUFFER_SIZE
    modifies conn`incoming, conn`sent, conn`writes, logger`stdout, buffer
    ensures Reads(old(conn.incoming), MAX_READ) == [chunk] + Reads(conn.incoming, MAX_READ)
    ensures cmd == Classify(chunk)
    ensures conn.sent == old(conn.sent) + (if cmd == Payload then chunk else [])
    ensures logger.stdout == old(logger.stdout) + (if logger.Emits(2) then PassLog(cmd) else [])
  {
    logger.Info(2, CALLING_READ);
    var bytes := ReadZeroFilled(conn, buffer);
    chunk := buffer[..bytes];
    ClassifyBufferAgrees(chunk);
    logger.Info(2, RECEIVED_BYTES);

    if StrnEqual(buffer[..], CLOSE_TEXT, 5) {
      logger.Info(2, RECEIVED_CLOSE);
      return Close, chunk;
    }
    if StrnEqual(buffer[..], QUIT_TEXT, 4) {
      logger.Info(2, RECEIVED_QUIT);
      return Quit, chunk;
    }

    var sent, written := Echo(conn, buffer, bytes);
    cmd := Payload;
  }

  /** `processConnection` over one connection. Its return code, the bytes it wrote back and
      the reads it consumed are those of `Handle` on the connection's reads; it logs only at
      level 2 and never to standard error. */
  method ProcessConnection(conn: Connection, logger: Logger) returns (outcome: Outcome)
    modifies conn`incoming, conn`sent, conn`writes, logger`stdout
    ensures var s := Handle(Reads(old(conn.incoming), MAX_READ));
      outcome == s.outcome &&
      conn.sent == old(conn.sent) + s.echoed &&
      Reads(conn.incoming, MAX_READ) == Reads(old(conn.incoming), MAX_READ)[s.consumed..]
    ensures logger.VerbosityLevel < 2 ==> logger.stdout == old(logger.stdout)
  {
    var buffer := new byte[BUFFER_SIZE];
    ghost var all := Reads(conn.incoming, MAX_READ);
    ghost var done: nat := 0;
    while conn.incoming != []
      invariant done <= |all|
      invariant Reads(conn.incoming, MAX_READ) == all[done..]
      invariant forall j :: 0 <= j < done ==> !IsCommand(all[j])
      invariant conn.sent == old(conn.sent) + Concat(all[..done])
      invariant logger.VerbosityLevel < 2 ==> logger.stdout == old(logger.stdout)
      decreases |all| - done
    {
      var cmd, chunk := ReadAndAnswer(conn, logger, buffer);
      assert all[done] == chunk && all[done + 1..] == Reads(conn.incoming, MAX_READ) by {
        assert all[done..][0] == chunk && all[done..][1..] == all[done + 1..];
      }
      if cmd == Close {
        HandleAtFirstCommand(all, done);
        return Returned(CLOSE_CONNECTION);
      }
      if cmd == Quit {
        HandleAtFirstCommand(all, done);
        return Returned(QUITE_PROGRAM);
      }
      EchoedOneMore(all, done);
      done := done + 1;
    }
    assert all[done..] == [];
    HandleWithoutCommand(all);
    assert all[..done] == all;
    return AwaitingRead;
  }
}
