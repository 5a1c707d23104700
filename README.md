# Echo server model

A Dafny model of `echo_s`, a single-threaded TCP echo server. The server does four things:

- It parses its options. `-v` raises the logger's verbosity from 1 to 2, and anything else prints a usage line and exits with -1.
- It opens a listening socket on a random port in [1024, 11023]. When a bind hits `EADDRINUSE` it draws a new port and tries again.
- It accepts connections one at a time.
- It hands each connection to `processConnection`.

The handler does the following:

- It zero-fills a 2048-byte buffer and reads at most 2047 bytes into it.
- When the buffer starts with `CLOSE` it returns 0, and when it starts with `QUIT` it returns 1.
- Any other chunk is written back in full, over as many partial writes as the kernel needs, and then the handler reads again.
- After a handler returns 0 the server accepts the next connection; after 1 it stops with status 0.

The system calls are oracles:

- A connection is the sequence of chunks its kernel makes available to successive reads. TCP keeps no message boundaries, so a chunk need not be one send of the peer: two sends may arrive as one chunk, and one send may be split over several. A read hands out at most the requested count of bytes of the first pending chunk, and the rest waits for the next read.
- A write accepts some leading part of its data, at least one byte when there is any.
- `socket`, `bind`, `listen` and `accept` are parameters listing what the kernel answered.

Modules:

- `Bytes`: bytes, chunks, and the concatenation of chunks.
- `Commands`: the buffer constants and `strncmp`. It proves that the two `strncmp` tests on the zero-filled buffer decide exactly "the chunk begins with `CLOSE`" and "begins with `QUIT`".
- `Logging`: the `Logger` class, whose verbosity is a `const` fixed at construction and whose two output streams are sequences of lines.
- `Socket`: read splitting and the `Connection` class, which holds the pending input and the bytes sent back.
- `Handler`: the specification `Handle` of a whole handler run over the successive reads, the echo loop, and `ProcessConnection`, which is proved against `Handle`.
- `Server`: the option loop, the port choice, the bind-retry loop, the accept loop and `main`. Each loop is a method proved equal to a function over the oracle answers, and lemmas characterise those functions.

## Model

| member | source | states |
|---|---|---|
| Bytes.Zeros | echo_s.cc:110 | what `memset(buffer, '\0', n)` leaves: exactly `n` bytes, all NUL |
| Commands.ZeroFilled | echo_s.cc:105-111 | the buffer after the zero fill and a read of at most 2047 bytes is 2048 bytes long, starts with the chunk read, holds NUL after it, and its last byte is NUL |
| Commands.StrnEqualZeroFilledFrom | echo_s.cc:120-125 | against a text with no NUL byte, `strncmp` on the zero-filled buffer agrees from position `i` on exactly when the chunk itself holds the text's bytes at every position from `i` (both directions) |
| Commands.StrnEqualZeroFilled | echo_s.cc:120-125 | `strncmp(buffer, text, len) == 0` on the zero-filled buffer holds if and only if the chunk is at least as long as the text and begins with it |
| Commands.ClassifyBufferAgrees | echo_s.cc:110-128 | the handler's two buffer tests, `CLOSE` first, then `QUIT`, give the same command as the prefix classification of the chunk, for every chunk a read can deliver |
| Commands.ShortChunkIsPayload | echo_s.cc:110-128 | a chunk shorter than 4 bytes is never a command: the NUL fill after it differs from both texts |
| Socket.NextRead | echo_s.cc:111 | one read delivers `min(pending, count)` bytes of the first pending chunk, and delivered plus still pending is exactly what was pending before |
| Socket.ReadsDeliverStream | echo_s.cc:111 | the successive reads hand out the peer's bytes unchanged and in order, and no read exceeds the requested count |
| Socket.ReadsOfFittingChunks | echo_s.cc:111 | chunks that each fit into one read come back unchanged, each chunk as one read's result |
| Socket.Connection.constructor | echo_s.cc:90 | a freshly accepted connection has all of its input pending, has sent nothing, has made no write and is open |
| Socket.Connection.Read | echo_s.cc:111 | `read` stores the next read's bytes at the start of the buffer, leaves the rest of the buffer untouched, returns their count (at most `count`) and consumes them from the pending input |
| Socket.Connection.Write | echo_s.cc:133 | `write` accepts a leading part of its data, at least one byte when there is any, and appends exactly that part to what was sent and, as one entry, to the record of write calls |
| Socket.Connection.Close | echo_s.cc:98 | `close` leaves the connection closed |
| Logging.Logger.constructor | echo_s.cc:172 | the logger keeps the verbosity it was built with and has printed nothing |
| Logging.Logger.Info | echo_s.cc:158-171 | `info` appends its line to standard output exactly when `level <= VERBOSITY_LEVEL`, and standard error is untouched |
| Logging.Logger.Error | echo_s.cc:143-156 | `error` appends its line to standard error exactly when `level <= VERBOSITY_LEVEL`, and standard output is untouched |
| Handler.Handle | echo_s.cc:103-141 | a handler run over the reads returns only codes 0 or 1, and only after at least one read; a run that does not return has consumed every read |
| Handler.HandleAtFirstCommand | echo_s.cc:106-140 | the handler returns right after the first chunk that begins with `CLOSE` or `QUIT`, with that command's code, having echoed exactly the earlier chunks concatenated in order |
| Handler.HandleWithoutCommand | echo_s.cc:106-140 | without a command chunk the handler has echoed every chunk, in order, and is still waiting to read |
| Handler.EndOfStreamNeverReturns | echo_s.cc:111-140 | a peer that has shut down (every read returns 0) never makes the handler return, and nothing is echoed |
| Handler.Echo | echo_s.cc:131-139 | the partial-write loop stops with `bytes_trans == bytes` and has sent exactly `buffer[0..bytes)`. The write calls it makes are recorded on the connection; what they accepted, in order, concatenates to those bytes, so each write continues at `buffer + bytes_trans`. A 0-byte chunk costs exactly one write call, which accepts nothing; otherwise every write call accepts at least one byte |
| Handler.ReadZeroFilled | echo_s.cc:108-111 | after the zero fill and the read, the buffer is the zero-filled image of the chunk read, which is at most 2047 bytes and is the next element of the connection's reads |
| Handler.ReadAndAnswer | echo_s.cc:108-139 | one pass of the read loop consumes the next read, answers with its classification, echoes that chunk when it is not a command and sends nothing otherwise; it logs nothing below verbosity 2, and at verbosity 2 or more logs the read and the received-bytes lines, plus the command line when the chunk is `CLOSE` or `QUIT` |
| Handler.ProcessConnection | echo_s.cc:103-141 | `processConnection` returns what `Handle` returns on the connection's reads, writes back exactly what `Handle` echoes, leaves unread exactly the reads after the ones it consumed, and logs nothing below verbosity 2 |
| Server.ParseOptions | echo_s.cc:18-36 | the option loop yields no logger (usage and exit) exactly when some option is not `v`; otherwise a fresh, silent logger with verbosity 2 if `-v` was given and 1 if no option was |
| Server.CommandLineGates | echo_s.cc:18-36 | once the options are accepted, level-1 lines are always shown, and level-2 lines are shown exactly when `-v` was given |
| Server.Port | echo_s.cc:52 | the chosen port is in [1024, 11023] for every non-negative `rand()` value |
| Server.PortCoversRange | echo_s.cc:52 | every port of [1024, 11023] is chosen by some draw, and draws 10000 apart choose the same port |
| Server.BindSpec | echo_s.cc:60-68 | when the bind loop binds, the port is in [1024, 11023] |
| Server.BindLoop | echo_s.cc:51-68 | the bind loop ends exactly as `BindSpec` says for the kernel's answers |
| Server.BindSettlesAtFirstNonCollision | echo_s.cc:60-68 | only `EADDRINUSE` makes the loop retry: it binds to the port of the first other answer's draw when that answer is success, and fails otherwise |
| Server.BindRetriesOnCollisions | echo_s.cc:60-64 | while every answer is `EADDRINUSE` the loop neither binds nor fails |
| Server.Serve | echo_s.cc:86-101 | the accept loop ends only with status -1 (accept error) or 0 (after `QUIT`), and serves at most one connection per accept |
| Server.ServeStopsAtFirstNonClose | echo_s.cc:86-99 | the loop serves connections in order until the first one that does not end with `CLOSE`. An accept error there exits with -1, a `QUIT` exits with 0, and a handler still reading keeps the server running. Each served connection carries exactly its own handler's echo |
| Server.ServeContinuesAfterClose | echo_s.cc:86-99 | while every handler returns `CLOSE`, the loop goes on accepting and serves every connection |
| Server.ServeConnection | echo_s.cc:90-98 | one accepted connection gets the handler's outcome and echo, and is closed exactly when the handler has returned |
| Server.AcceptLoop | echo_s.cc:86-99 | the accept loop ends and echoes exactly as `Serve` says, and writes an error line only when an accept fails |
| Server.MainExit | echo_s.cc:12-102 | the program exits only with status -4, -1 or 0 |
| Server.ExitZeroOnlyAfterQuit | echo_s.cc:86-102 | status 0 is reached only after some connection's handler has returned `QUIT` |
| Server.RunServer | echo_s.cc:12-102 | `main` ends as `MainExit` says. It builds a logger exactly when the options are accepted, with the verbosity they select. Every negative exit other than the usage line leaves exactly one line on standard error, and every other run leaves none |
| Server.CloseThenQuit | echo_s.cc:86-141 | end to end, with each message delivered by its own read: a line followed by `CLOSE` on one connection and `QUIT` on the next gives the line back unchanged, nothing back on the second connection, and exit status 0 |

## Left out

- The system calls themselves are not modelled; their results are parameters. This covers `socket`, `bind`, `listen`, `accept`, `read`, `write` and `close` on the listening socket.
- Oracles are finite. When the listed answers run out, the model reports `Running` (the server) or `AwaitingRead` (the handler). The program itself would go on retrying or blocking.
- `rand()` and `srand(time(NULL))` are not modelled. Each draw is an arbitrary non-negative integer attached to the bind attempt it chose the port for.
- Only what `getopt` returns is modelled: one character per option. With the option string `"v"`, `getopt` returns `?` for every bad option and never `:`, so `case ':'` at echo_s.cc:27 is unreachable; the model treats every character other than `v` alike. Its argument permutation and the text of the usage line are left out.
- Log lines are modelled only as present or absent. Their text and `printf` formatting are not modelled.
- `exit(-1)` and `return -4` are exit-status values, not process termination. The status is kept as the source writes it (-1), not as the 8-bit status the shell sees.
- A failed `read` or `write` is not modelled: the read and write oracles never fail. The branches at echo_s.cc:112-115 and 134-137 log the error and call `exit(-1)`, so read and write errors were meant to be fatal. Because the results are stored in `size_t`, those tests never fire, and the model has no error exit for them.
- The `size_t` wrap-around a failed call would cause is not modelled either. A failed read stores `SIZE_MAX` in `bytes` (echo_s.cc:111), after which both `strncmp` tests run on the all-NUL buffer and the echo loop asks to write `SIZE_MAX` bytes. A failed write stores `SIZE_MAX` in `temp` (echo_s.cc:133), so `bytes_trans += temp` (echo_s.cc:138) wraps to `bytes_trans - 1`: the do-while stops as if it were done when `bytes_trans` was 0, and otherwise sends one byte again.
- Write progress is assumed: a write of a non-empty buffer accepts at least one byte. This is what makes the echo loop terminate.
- A read that returns 0 bytes (peer shut down) is handled exactly as the source handles it: one empty write, then another read. The handler therefore never returns on such a connection (`Handler.EndOfStreamNeverReturns`).
- The listen backlog of one and any other concurrency are left out: the kernel does that queuing, and the source holds no logic for it.
- `close(listenFd)` at the end of `main` is not modelled; the listening socket is not an object of the model.
- Server.AcceptLoop: does not state that every connection served before the last one is closed, because tracking all connection objects across the loop is out of reach of the solver's budget. `Server.ServeConnection` states it for each connection.
