/** The two-severity logger: a line is emitted when its level does not exceed the
    verbosity the logger was built with. */
module Logging {

  /** A log line; its text is not modelled beyond being a string. */
  type LogLine = string

  /** The gate both `info` and `error` apply. */
  predicate Shown(verbosity: int, level: int)
  {
    level <= verbosity
  }

  class Logger {
    /** Fixed at construction: a `const` field cannot change afterwards. */
    const VerbosityLevel: int
    /** What `info` has printed to standard output, oldest first. */
    var stdout: seq<LogLine>
    /** What `error` has printed to standard error, oldest first. */
    var stderr: seq<LogLine>

    constructor (verbosity: int)
      ensures VerbosityLevel == verbosity
      ensures stdout == [] && stderr == []
    {
      VerbosityLevel := verbosity;
      stdout, stderr := [], [];
    }

    predicate Emits(level: int)
    {
      Shown(VerbosityLevel, level)
    }

    /** `info`: print to standard output when the level passes the gate. */
    method Info(level: int, msg: LogLine)
      modifies this`stdout
      ensures stdout == old(stdout) + (if Emits(level) then [msg] else [])
    {
      if level <= VerbosityLevel {
        stdout := stdout + [msg];
      }
    }

    /** `error`: print to standard error when the level passes the gate. */
    method Error(level: int, msg: LogLine)
      modifies this`stderr
      ensures stderr == old(stderr) + (if Emits(level) then [msg] else [])
    {
      if level <= VerbosityLevel {
        stderr := stderr + [msg];
      }
    }
  }
}
