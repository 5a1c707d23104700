/** The transfer buffer and the two sentinel commands the connection handler looks for. */
module Commands {
  import opened Bytes

  /** Capacity of the transfer buffer. */
  const BUFFER_SIZE: nat := 2048
  /** A read asks for one byte less than the buffer holds, so the last byte stays NUL. */
  const MAX_READ: nat := BUFFER_SIZE - 1

  /** The ASCII text `CLOSE`. */
  const CLOSE_TEXT: Chunk := [67, 76, 79, 83, 69]
  /** The ASCII text `QUIT`. */
  const QUIT_TEXT: Chunk := [81, 85, 73, 84]

  /** Byte `i` of a C string held in `s`: past the end of `s` lies its NUL terminator. */
  function ByteAt(s: Chunk, i: nat): byte
  {
    if i < |s| then s[i] else 0
  }

  /** `strncmp` restricted to positions `i` up to `n`: it compares byte by byte and stops
      early, with "equal", at a NUL that both strings share. */
  predicate StrnEqualFrom(s1: Chunk, s2: Chunk, i: nat, n: nat)
    decreases n - i
  {
    i >= n ||
    (ByteAt(s1, i) == ByteAt(s2, i) && (ByteAt(s1, i) == 0 || StrnEqualFrom(s1, s2, i + 1, n)))
  }

  /** `strncmp(s1, s2, n) == 0`. */
  predicate StrnEqual(s1: Chunk, s2: Chunk, n: nat)
  {
    StrnEqualFrom(s1, s2, 0, n)
  }

  predicate HasPrefix(chunk: Chunk, text: Chunk)
  {
    |text| <= |chunk| && chunk[..|text|] == text
  }

  /** The buffer after it is zero-filled and a read has stored `chunk` at its start. */
  function ZeroFilled(chunk: Chunk): (buf: Chunk)
    requires |chunk| <= MAX_READ
    ensures |buf| == BUFFER_SIZE
    ensures buf[..|chunk|] == chunk
    ensures forall i :: |chunk| <= i < BUFFER_SIZE ==> buf[i] == 0
    ensures buf[BUFFER_SIZE - 1] == 0
  {
    chunk + Zeros(BUFFER_SIZE - |chunk|)
  }

  /** What the handler does with one chunk it has read. */
  datatype Command = Close | Quit | Payload

  /** The command a chunk carries, stated on the chunk itself. */
  function Classify(chunk: Chunk): Command
  {
    if HasPrefix(chunk, CLOSE_TEXT) then Close
    else if HasPrefix(chunk, QUIT_TEXT) then Quit
    else Payload
  }

  /** The command as the handler's two `strncmp` tests on the buffer decide it. */
  function ClassifyBuffer(buf: Chunk): Command
  {
    if StrnEqual(buf, CLOSE_TEXT, 5) then Close
    else if StrnEqual(buf, QUIT_TEXT, 4) then Quit
    else Payload
  }

  /** The chunk holds byte `j` of the text at position `j`. */
  predicate AgreesAt(chunk: Chunk, text: Chunk, j: nat)
    requires j < |text|
  {
    j < |chunk| && chunk[j] == text[j]
  }

  /** Against a text with no NUL byte, `strncmp` on the zero-filled buffer matches from
      position `i` on exactly when the chunk itself holds the text's bytes there. */
  lemma {:induction false} StrnEqualZeroFilledFrom(chunk: Chunk, text: Chunk, i: nat)
    requires |chunk| <= MAX_READ && |text| <= BUFFER_SIZE && i <= |text|
    requires forall j :: 0 <= j < |text| ==> text[j] != 0
    ensures StrnEqualFrom(ZeroFilled(chunk), text, i, |text|)
        <==> (forall j :: i <= j < |text| ==> AgreesAt(chunk, text, j))
    decreases |text| - i
  {
    var buf := ZeroFilled(chunk);
    if i < |text| {
      StrnEqualZeroFilledFrom(chunk, text, i + 1);
      assert ByteAt(buf, i) == buf[i] && ByteAt(text, i) == text[i] != 0;
      if i < |chunk| {
        assert buf[..|chunk|][i] == chunk[i];
      } else {
        assert buf[i] == 0;
      }
      assert (buf[i] == text[i]) <==> AgreesAt(chunk, text, i);
      if AgreesAt(chunk, text, i) && (forall j :: i + 1 <= j < |text| ==> AgreesAt(chunk, text, j)) {
        forall j | i <= j < |text| ensures AgreesAt(chunk, text, j) {
          if j > i {
            assert i + 1 <= j;
          }
        }
      }
    }
  }

  /** `strncmp(buffer, text, |text|) == 0` on the zero-filled buffer holds exactly when the
      chunk is at least as long as the text and begins with it. */
  lemma StrnEqualZeroFilled(chunk: Chunk, text: Chunk)
    requires |chunk| <= MAX_READ && |text| <= BUFFER_SIZE
    requires forall j :: 0 <= j < |text| ==> text[j] != 0
    ensures StrnEqual(ZeroFilled(chunk), text, |text|) <==> HasPrefix(chunk, text)
  {
    StrnEqualZeroFilledFrom(chunk, text, 0);
    if HasPrefix(chunk, text) {
      forall j | 0 <= j < |text| ensures AgreesAt(chunk, text, j) {
        assert chunk[..|text|][j] == chunk[j];
      }
    }
    if forall j :: 0 <= j < |text| ==> AgreesAt(chunk, text, j) {
      if |text| > 0 {
        assert AgreesAt(chunk, text, |text| - 1);
      }
      forall j | 0 <= j < |text| ensures chunk[..|text|][j] == text[j] {
        assert AgreesAt(chunk, text, j);
      }
      assert chunk[..|text|] == text;
    }
  }

  /** The buffer-level tests of the handler and the chunk-level classification agree on
      every chunk a read can deliver. */
  lemma {:induction false} ClassifyBufferAgrees(chunk: Chunk)
    requires |chunk| <= MAX_READ
    ensures ClassifyBuffer(ZeroFilled(chunk)) == Classify(chunk)
  {
    StrnEqualZeroFilled(chunk, CLOSE_TEXT);
    StrnEqualZeroFilled(chunk, QUIT_TEXT);
  }

  /** A chunk shorter than a command text never carries that command, whatever its bytes:
      the NUL fill after it differs from the text. */
  lemma ShortChunkIsPayload(chunk: Chunk)
    requires |chunk| < |QUIT_TEXT|
    ensures Classify(chunk) == Payload
    ensures !StrnEqual(ZeroFilled(chunk), CLOSE_TEXT, 5) && !StrnEqual(ZeroFilled(chunk), QUIT_TEXT, 4)
  {
    StrnEqualZeroFilled(chunk, CLOSE_TEXT);
    StrnEqualZeroFilled(chunk, QUIT_TEXT);
  }
}
