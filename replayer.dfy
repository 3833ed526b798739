/** The player's driver: read the input one record at a time, send one
    datagram per frame of every full record, and stop at the end of the input
    or at a truncated record. */
module Replayer {
  import opened Layout
  import opened Extractor
  import opened Destination

  /** One datagram handed to the socket: its destination and its bytes. */
  datatype Datagram = Datagram(to: Address, payload: seq<bv8>)

  /** How the read loop ended: a read returned nothing, or it returned a
      non-empty record shorter than a full one. */
  datatype StopReason = EndOfStream | Truncated

  /** The input file, or standard input, as the bytes it delivers. */
  class InputStream {
    const data: seq<bv8>
    var pos: nat

    ghost predicate Valid()
      reads this
    {
      pos <= |data|
    }

    /** The bytes not yet read. */
    function Remaining(): seq<bv8>
      reads this
      requires Valid()
    {
      data[pos..]
    }

    constructor (data: seq<bv8>)
      ensures Valid() && this.data == data && Remaining() == data
    {
      this.data := data;
      pos := 0;
    }

    /** A blocking `read(size)`: the next `size` bytes, fewer only at the end
        of the input, and nothing once the input is exhausted. */
    method Read(size: nat) returns (chunk: seq<bv8>)
      requires Valid()
      modifies this
      ensures Valid()
      ensures |chunk| == if size < |old(Remaining())| then size else |old(Remaining())|
      ensures chunk == old(Remaining())[..|chunk|]
      ensures Remaining() == old(Remaining())[|chunk|..]
    {
      var n := if size < |data| - pos then size else |data| - pos;
      chunk := data[pos..pos + n];
      pos := pos + n;
    }
  }

  /** The UDP socket; what `sendto` hands to the network is kept in `sent`. */
  class Socket {
    var sent: seq<Datagram>
    var open: bool

    constructor ()
      ensures sent == [] && open
    {
      sent := [];
      open := true;
    }

    method SendTo(payload: seq<bv8>, to: Address)
      requires open
      modifies this
      ensures open && sent == old(sent) + [Datagram(to, payload)]
    {
      sent := sent + [Datagram(to, payload)];
    }

    method Close()
      modifies this
      ensures !open && sent == old(sent)
    {
      open := false;
    }
  }

  /** The datagrams sent for one full record: one per frame, frames 0..99. */
  function RecordDatagrams(record: seq<bv8>, to: Address): seq<Datagram>
  {
    seq(FramesPerRecord, f requires 0 <= f => Datagram(to, FramePayload(record, f)))
  }

  /** The datagrams a run sends for the input `stream`: those of each full
      record in turn; a trailing partial record sends nothing. */
  function Replayed(stream: seq<bv8>, to: Address): seq<Datagram>
    decreases |stream|
  {
    if |stream| < RecordSize then []
    else RecordDatagrams(stream[..RecordSize], to) + Replayed(stream[RecordSize..], to)
  }

  /** How the read loop ends on the input `stream`. */
  function StopReasonOf(stream: seq<bv8>): StopReason
    decreases |stream|
  {
    if |stream| == 0 then EndOfStream
    else if |stream| < RecordSize then Truncated
    else StopReasonOf(stream[RecordSize..])
  }

  /** Division facts for one record less. */
  lemma OneRecordLess(len: nat)
    requires len >= RecordSize
    ensures (len - RecordSize) / RecordSize == len / RecordSize - 1
    ensures (len - RecordSize) % RecordSize == len % RecordSize
  {
  }

  /** Division facts for `n` full records followed by `x` bytes. */
  lemma RecordsThenTail(n: nat, x: nat)
    requires x < RecordSize
    ensures (n * RecordSize + x) / RecordSize == n
    ensures (n * RecordSize + x) % RecordSize == x
  {
  }

  /** The offset of the next record. */
  lemma NextRecordOffset(n: nat)
    ensures (n + 1) * RecordSize == n * RecordSize + RecordSize
  {
  }

  /** One turn of the read loop on an input that holds a full record. */
  lemma ReplayedStep(stream: seq<bv8>, to: Address)
    requires |stream| >= RecordSize
    ensures Replayed(stream, to) == RecordDatagrams(stream[..RecordSize], to) + Replayed(stream[RecordSize..], to)
    ensures StopReasonOf(stream) == StopReasonOf(stream[RecordSize..])
  {
  }

  /** A run sends exactly 100 datagrams per full record of its input. */
  lemma {:induction false} ReplayedLength(stream: seq<bv8>, to: Address)
    ensures |Replayed(stream, to)| == FramesPerRecord * (|stream| / RecordSize)
    decreases |stream|
  {
    if |stream| >= RecordSize {
      ReplayedLength(stream[RecordSize..], to);
      OneRecordLess(|stream|);
    }
  }

  /** Datagram `100 * r + f` of a run carries the payload of frame `f` of
      record `r`, built from that record's bytes alone: record order first,
      then frame order. */
  lemma {:induction false} ReplayedAt(stream: seq<bv8>, to: Address, r: nat, f: nat)
    requires r < |stream| / RecordSize && f < FramesPerRecord
    ensures (r + 1) * RecordSize <= |stream|
    ensures FramesPerRecord * r + f < |Replayed(stream, to)|
    ensures Replayed(stream, to)[FramesPerRecord * r + f] ==
      Datagram(to, FramePayload(stream[r * RecordSize..(r + 1) * RecordSize], f))
    decreases r
  {
    ReplayedLength(stream, to);
    var head := RecordDatagrams(stream[..RecordSize], to);
    var tail := stream[RecordSize..];
    if r == 0 {
      assert Replayed(stream, to)[f] == head[f];
    } else {
      OneRecordLess(|stream|);
      ReplayedAt(tail, to, r - 1, f);
      assert tail[(r - 1) * RecordSize..r * RecordSize] == stream[r * RecordSize..(r + 1) * RecordSize];
      assert Replayed(stream, to)[FramesPerRecord * r + f] == Replayed(tail, to)[FramesPerRecord * (r - 1) + f];
    }
  }

  /** A trailing partial record contributes nothing: the run sends the same
      datagrams as on its full records alone. */
  lemma {:induction false} PartialTailSendsNothing(stream: seq<bv8>, to: Address)
    ensures |stream| / RecordSize * RecordSize <= |stream|
    ensures Replayed(stream, to) == Replayed(stream[..|stream| / RecordSize * RecordSize], to)
    decreases |stream|
  {
    var full := stream[..|stream| / RecordSize * RecordSize];
    if |stream| >= RecordSize {
      var tail := stream[RecordSize..];
      OneRecordLess(|stream|);
      PartialTailSendsNothing(tail, to);
      assert full[..RecordSize] == stream[..RecordSize];
      assert full[RecordSize..] == tail[..|tail| / RecordSize * RecordSize];
    }
  }

  /** The run reports a truncation exactly when the input length is not a
      multiple of the record size. */
  lemma {:induction false} TruncatedIff(stream: seq<bv8>)
    ensures StopReasonOf(stream) == Truncated <==> |stream| % RecordSize != 0
    decreases |stream|
  {
    if |stream| >= RecordSize {
      OneRecordLess(|stream|);
      TruncatedIff(stream[RecordSize..]);
    }
  }

  /** One turn of the read loop, for the ghost state of `Replay`: after the
      record at `consumed` has been sent, the datagrams still to come are
      those of the rest of the input, and the stop reason is unchanged. */
  lemma LoopStep(stream: seq<bv8>, consumed: nat, to: Address, sent0: seq<Datagram>,
                 sentBefore: seq<Datagram>, recordData: seq<bv8>, sentAfter: seq<Datagram>)
    requires consumed + RecordSize <= |stream|
    requires recordData == stream[consumed..][..RecordSize]
    requires sentBefore + Replayed(stream[consumed..], to) == sent0 + Replayed(stream, to)
    requires sentAfter == sentBefore + RecordDatagrams(recordData, to)
    ensures stream[consumed..][RecordSize..] == stream[consumed + RecordSize..]
    ensures sentAfter + Replayed(stream[consumed + RecordSize..], to) == sent0 + Replayed(stream, to)
    ensures StopReasonOf(stream[consumed + RecordSize..]) == StopReasonOf(stream[consumed..])
  {
    var rest := stream[consumed..];
    assert rest[RecordSize..] == stream[consumed + RecordSize..];
    ReplayedStep(rest, to);
  }

  /** The frame loop for one full record: build and send the payload of each
      frame 0..99 in turn, counting every datagram sent. */
  method SendRecord(recordData: seq<bv8>, sock: Socket, to: Address, totalBefore: nat)
    returns (totalPacketsSent: nat)
    requires sock.open
    modifies sock
    ensures sock.open
    ensures sock.sent == old(sock.sent) + RecordDatagrams(recordData, to)
    ensures totalPacketsSent == totalBefore + FramesPerRecord
  {
    totalPacketsSent := totalBefore;
    for frameIdx := 0 to FramesPerRecord
      invariant sock.open
      invariant sock.sent == old(sock.sent) + RecordDatagrams(recordData, to)[..frameIdx]
      invariant totalPacketsSent == totalBefore + frameIdx
    {
      var udpPayload := BuildFramePayload(recordData, frameIdx);
      sock.SendTo(udpPayload, to);
      totalPacketsSent := totalPacketsSent + 1;
    }
    assert RecordDatagrams(recordData, to)[..FramesPerRecord] == RecordDatagrams(recordData, to);
  }

  /** The read/extract/send loop. Every full record yields 100 datagrams to
      `to`, in frame order; the loop stops at the first empty read or the
      first short read, which sends nothing. */
  method Replay(input: InputStream, sock: Socket, to: Address)
    returns (stop: StopReason, totalPacketsSent: nat, recordNum: nat)
    requires input.Valid() && sock.open
    modifies input, sock
    ensures input.Valid() && input.Remaining() == []
    ensures sock.open
    ensures sock.sent == old(sock.sent) + Replayed(old(input.Remaining()), to)
    ensures stop == StopReasonOf(old(input.Remaining()))
    ensures recordNum == |old(input.Remaining())| / RecordSize
    ensures totalPacketsSent == FramesPerRecord * recordNum
  {
    ghost var stream := input.Remaining();
    ghost var sent0 := sock.sent;
    ghost var consumed: nat := 0;
    stop, totalPacketsSent, recordNum := EndOfStream, 0, 0;
    while true
      invariant input.Valid() && sock.open
      invariant consumed <= |stream| && input.Remaining() == stream[consumed..]
      invariant consumed == recordNum * RecordSize
      invariant sock.sent + Replayed(input.Remaining(), to) == sent0 + Replayed(stream, to)
      invariant StopReasonOf(input.Remaining()) == StopReasonOf(stream)
      invariant totalPacketsSent == FramesPerRecord * recordNum
      decreases |input.Remaining()|
    {
      ghost var rest := input.Remaining();
      if |rest| < RecordSize {
        RecordsThenTail(recordNum, |rest|);
      }
      var recordData := input.Read(RecordSize);
      if |recordData| == 0 {
        stop := EndOfStream;
        break;
      }
      if |recordData| < RecordSize {
        stop := Truncated;
        break;
      }
      ghost var sentBefore := sock.sent;
      recordNum := recordNum + 1;
      totalPacketsSent := SendRecord(recordData, sock, to, totalPacketsSent);
      LoopStep(stream, consumed, to, sent0, sentBefore, recordData, sock.sent);
      consumed := consumed + RecordSize;
      NextRecordOffset(recordNum - 1);
    }
  }

  /** The whole program once its arguments are parsed: reject a bad
      destination before any socket exists (exit status 1); otherwise open a
      socket, replay the input to the destination and close the socket. A
      truncated input is reported but still ends with status 0. */
  method Play(destination: string, input: InputStream)
    returns (exitCode: int, truncationReported: bool, sock: Socket?)
    requires input.Valid()
    modifies input
    ensures ParseDestination(destination).Failure? ==>
      exitCode == 1 && !truncationReported && sock == null && input.pos == old(input.pos)
    ensures ParseDestination(destination).Success? ==>
      exitCode == 0 && sock != null && fresh(sock) && !sock.open &&
      sock.sent == Replayed(old(input.Remaining()), ParseDestination(destination).value) &&
      truncationReported == (|old(input.Remaining())| % RecordSize != 0) &&
      input.Valid() && input.Remaining() == []
  {
    var parsed := ParseDestination(destination);
    if parsed.Failure? {
      return 1, false, null;
    }
    sock := new Socket();
    var stop, _, _ := Replay(input, sock, parsed.value);
    TruncatedIff(old(input.Remaining()));
    truncationReported := stop == Truncated;
    sock.Close();
    exitCode := 0;
  }
}
