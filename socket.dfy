/** The connected socket as the handler sees it: a stream of chunks that reads hand out,
    and a record of the bytes that writes have accepted. */
module Socket {
  import opened Bytes

  /** One `read(fd, buffer, count)` on the pending chunks: it delivers at most `count`
      bytes of the first chunk and leaves any rest of it for the next read. An empty first
      chunk is a read that returns 0. */
  function NextRead(incoming: seq<Chunk>, count: nat): (r: (Chunk, seq<Chunk>))
    requires incoming != [] && count > 0
    ensures |r.0| == if |incoming[0]| <= count then |incoming[0]| else count
    ensures r.0 == incoming[0][..|r.0|]
    ensures r.0 + Concat(r.1) == Concat(incoming)
    ensures |Concat(r.1)| + |r.1| < |Concat(incoming)| + |incoming|
  {
    var head := incoming[0];
    if |head| <= count then
      (head, incoming[1..])
    else
      var rest := [head[count..]] + incoming[1..];
      assert rest[0] == head[count..] && rest[1..] == incoming[1..];
      assert head[..count] + head[count..] == head;
      (head[..count], rest)
  }

  /** The successive results of reads of `count` bytes until the pending chunks run out. */
  function Reads(incoming: seq<Chunk>, count: nat): seq<Chunk>
    requires count > 0
    decreases |Concat(incoming)| + |incoming|
  {
    if incoming == [] then []
    else
      var r := NextRead(incoming, count);
      [r.0] + Reads(r.1, count)
  }

  /** The reads of a non-empty stream: the next read, then the reads of what it leaves. */
  lemma ReadsStep(incoming: seq<Chunk>, count: nat)
    requires incoming != [] && count > 0
    ensures Reads(incoming, count) == [NextRead(incoming, count).0] + Reads(NextRead(incoming, count).1, count)
  {
  }

  /** Reads hand out the stream unchanged and in order, never more than `count` bytes
      at a time. */
  lemma {:induction false} ReadsDeliverStream(incoming: seq<Chunk>, count: nat)
    requires count > 0
    ensures Concat(Reads(incoming, count)) == Concat(incoming)
    ensures forall k :: 0 <= k < |Reads(incoming, count)| ==> |Reads(incoming, count)[k]| <= count
    decreases |Concat(incoming)| + |incoming|
  {
    if incoming != [] {
      var r := NextRead(incoming, count);
      ReadsDeliverStream(r.1, count);
      var rs := Reads(incoming, count);
      assert rs == [r.0] + Reads(r.1, count);
      assert rs[1..] == Reads(r.1, count);
      forall k | 0 <= k < |rs| ensures |rs[k]| <= count {
        if k > 0 {
          assert rs[k] == Reads(r.1, count)[k - 1];
        }
      }
    }
  }

  /** Chunks that each fit into one read come back unchanged, each as one read's result. */
  lemma {:induction false} ReadsOfFittingChunks(incoming: seq<Chunk>, count: nat)
    requires count > 0
    requires forall k :: 0 <= k < |incoming| ==> |incoming[k]| <= count
    ensures Reads(incoming, count) == incoming
    decreases |incoming|
  {
    if incoming != [] {
      ReadsOfFittingChunks(incoming[1..], count);
      assert incoming == [incoming[0]] + incoming[1..];
    }
  }

  /** One accepted TCP connection. */
  class Connection {
    /** The chunks still to be handed to reads. */
    var incoming: seq<Chunk>
    /** Everything written back to the peer so far, in the order the writes accepted it. */
    var sent: Chunk
    /** What each write call accepted, one entry per call, oldest first. */
    ghost var writes: seq<Chunk>
    var open: bool

    constructor (stream: seq<Chunk>)
      ensures incoming == stream && sent == [] && writes == [] && open
    {
      incoming, sent, writes, open := stream, [], [], true;
    }

    /** `read(fd, buffer, count)`: the next read's bytes land at the start of `buffer`,
        the rest of `buffer` is untouched. */
    method Read(buffer: array<byte>, count: nat) returns (bytes: nat)
      requires incoming != [] && 0 < count <= buffer.Length
      modifies this`incoming, buffer
      ensures bytes <= count
      ensures (buffer[..bytes], incoming) == NextRead(old(incoming), count)
      ensures buffer[bytes..] == old(buffer[bytes..])
    {
      var r := NextRead(incoming, count);
      bytes := |r.0|;
      forall i | 0 <= i < bytes {
        buffer[i] := r.0[i];
      }
      assert buffer[..bytes] == r.0;
      incoming := r.1;
    }

    /** `write(fd, data, |data|)`: the kernel takes some leading part of `data`, at least
        one byte when there is any (the progress a write on a blocking socket makes), and
        reports how many. */
    method Write(data: Chunk) returns (accepted: nat)
      modifies this`sent, this`writes
      ensures accepted <= |data|
      ensures |data| > 0 ==> accepted >= 1
      ensures sent == old(sent) + data[..accepted]
      ensures writes == old(writes) + [data[..accepted]]
    {
      assert |data| <= |data| && (|data| > 0 ==> |data| >= 1);
      accepted :| accepted <= |data| && (|data| > 0 ==> accepted >= 1);
      sent := sent + data[..accepted];
      writes := writes + [data[..accepted]];
    }

    /** `close(fd)`. */
    method Close()
      modifies this`open
      ensures !open
    {
      open := false;
    }
  }
}
