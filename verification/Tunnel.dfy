/** The byte tunnel of src/relay/transport/grpc.rs: flow-controlled sending, receiving, forwarding. */
module Tunnel {
  import opened Prelude
  import opened GrpcFrame
  import opened FrameReader
  import BufPool

  const RAW_TO_GRPC_READ_BUF_SIZE := 16 * 1024

  /** One answer of `poll_capacity`; `Refused` also covers a failing `send_data`. */
  datatype Grant = Capacity(n: nat) | Refused

  datatype DataFrame = DataFrame(data: Bytes, endOfStream: bool)

  /** `Waiting`: the grants known so far are used up and the sender is still suspended. */
  datatype SendResult = Sent | SendFailed | Waiting

  datatype Sending = Sending(result: SendResult, sent: seq<DataFrame>, grants: seq<Grant>)

  /** The bytes that a run of DATA frames puts on the wire. */
  function Wire(sent: seq<DataFrame>): (bytes: Bytes) {
    if sent == [] then [] else sent[0].data + Wire(sent[1..])
  }

  /**
   * Sends `data` as the grants allow; a grant of zero is skipped. Empty data takes no capacity, but
   * the stream may refuse it.
   */
  function Send(grants: seq<Grant>, data: Bytes, endOfStream: bool): (s: Sending)
    decreases |grants|
  {
    if grants != [] && grants[0].Refused? then Sending(SendFailed, [], grants[1..])
    else if data == [] then Sending(Sent, [DataFrame([], endOfStream)], grants)
    else if grants == [] then Sending(Waiting, [], [])
    else if grants[0].n == 0 then Send(grants[1..], data, endOfStream)
    else
      var n := Min(grants[0].n, |data|);
      if n == |data| then Sending(Sent, [DataFrame(data, endOfStream)], grants[1..])
      else
        var s := Send(grants[1..], data[n..], endOfStream);
        s.(sent := [DataFrame(data[..n], false)] + s.sent)
  }

  lemma SendUnfold(grants: seq<Grant>, data: Bytes, endOfStream: bool)
    ensures var s := Send(grants, data, endOfStream);
            if grants != [] && grants[0].Refused? then s == Sending(SendFailed, [], grants[1..])
            else if data == [] then s == Sending(Sent, [DataFrame([], endOfStream)], grants)
            else if grants == [] then s == Sending(Waiting, [], [])
            else if grants[0].n == 0 then s == Send(grants[1..], data, endOfStream)
            else if |data| <= grants[0].n then s == Sending(Sent, [DataFrame(data, endOfStream)], grants[1..])
            else
              var t := Send(grants[1..], data[grants[0].n..], endOfStream);
              s == t.(sent := [DataFrame(data[..grants[0].n], false)] + t.sent)
  {}

  class SendStream {
    var grants: seq<Grant>
    var sent: seq<DataFrame>

    method SendGrpcData(data: Bytes, endOfStream: bool) returns (r: SendResult)
      modifies this
      ensures var s := Send(old(grants), data, endOfStream);
              r == s.result && grants == s.grants && sent == old(sent) + s.sent
    {
      SendUnfold(grants, data, endOfStream);
      hide Send;
      if data == [] {
        if grants != [] && grants[0].Refused? {
          grants := grants[1..];
          return SendFailed;
        }
        sent := sent + [DataFrame(data, endOfStream)];
        return Sent;
      }
      var left := data;
      ghost var s := Send(grants, data, endOfStream);
      while left != []
        invariant left != [] ==>
                    var t := Send(grants, left, endOfStream);
                    s.result == t.result && s.grants == t.grants && old(sent) + s.sent == sent + t.sent
        invariant left == [] ==> s.result == Sent && s.grants == grants && old(sent) + s.sent == sent
        decreases |grants|, |left|
      {
        SendUnfold(grants, left, endOfStream);
        if grants == [] {
          return Waiting;
        }
        var grant := grants[0];
        grants := grants[1..];
        if grant.Refused? {
          return SendFailed;
        }
        if grant.n == 0 {
          continue;
        }
        var n := Min(grant.n, |left|);
        var chunk := left[..n];
        assert n == |left| ==> chunk == left;
        left := left[n..];
        sent := sent + [DataFrame(chunk, endOfStream && left == [])];
      }
      return Sent;
    }
  }

  /** Sends the frames one after the other, up to the first that does not go out. */
  function SendAll(grants: seq<Grant>, frames: seq<Bytes>): (s: Sending)
    decreases |frames|
  {
    if frames == [] then Sending(Sent, [], grants)
    else
      var s := Send(grants, frames[0], false);
      if !s.result.Sent? then s
      else
        var t := SendAll(s.grants, frames[1..]);
        t.(sent := s.sent + t.sent)
  }

  /** A whole transfer: the frames, then the end of stream if the source ended cleanly. */
  function Transfer(grants: seq<Grant>, frames: seq<Bytes>, clean: bool): (s: Sending)
  {
    var s := SendAll(grants, frames);
    if !s.result.Sent? then s
    else if !clean then s.(result := SendFailed)
    else
      var end := Send(s.grants, [], true);
      Sending(Sent, s.sent + end.sent, end.grants)
  }

  // ---------------------------------------------------------------------------------------------
  // raw -> gRPC
  // ---------------------------------------------------------------------------------------------

  /** What one `read_buf` under the 16 KiB limit can deliver. */
  type ReadChunk = s: Bytes | |s| <= RAW_TO_GRPC_READ_BUF_SIZE

  datatype ReadEvent = Data(data: ReadChunk) | ReadError

  /** The chunks read before the end: the empty read, an error, or nothing more. */
  function Chunks(input: seq<ReadEvent>): (chunks: seq<ReadChunk>)
    ensures |chunks| <= |input|
    ensures forall i :: 0 <= i < |chunks| ==> chunks[i] != [] && input[i] == Data(chunks[i])
    ensures |chunks| < |input| ==> input[|chunks|] == Data([]) || input[|chunks|].ReadError?
  {
    if input == [] || input[0].ReadError? || input[0].data == [] then []
    else [input[0].data] + Chunks(input[1..])
  }

  /** The reads end with an end of file, not with an error. */
  predicate CleanEnd(input: seq<ReadEvent>) {
    input == [] || (input[0].Data? && (input[0].data == [] || CleanEnd(input[1..])))
  }

  /** A clean end is one at which nothing failed: no more input, or an empty read. */
  lemma {:induction false} CleanEndExactly(input: seq<ReadEvent>)
    ensures CleanEnd(input) <==> |Chunks(input)| == |input| || input[|Chunks(input)|] == Data([])
  {
    if input != [] && input[0].Data? && input[0].data != [] {
      CleanEndExactly(input[1..]);
      assert Chunks(input) == [input[0].data] + Chunks(input[1..]);
    }
  }

  function EncodeEach(chunks: seq<ReadChunk>): (frames: seq<Bytes>)
    ensures |frames| == |chunks|
    ensures forall i :: 0 <= i < |chunks| ==> frames[i] == Encode(chunks[i])
  {
    seq(|chunks|, i requires 0 <= i < |chunks| => Encode(chunks[i]))
  }

  lemma EncodeEachTail(chunks: seq<ReadChunk>)
    requires chunks != []
    ensures EncodeEach(chunks) == [Encode(chunks[0])] + EncodeEach(chunks[1..])
  {}

  function RawToGrpcSpec(grants: seq<Grant>, input: seq<ReadEvent>): (s: Sending) {
    Transfer(grants, EncodeEach(Chunks(input)), CleanEnd(input))
  }

  lemma TransferStep(grants: seq<Grant>, frame: Bytes, frames: seq<Bytes>, clean: bool)
    ensures var s := Send(grants, frame, false);
            var whole := Transfer(grants, [frame] + frames, clean);
            if !s.result.Sent? then whole == s
            else var t := Transfer(s.grants, frames, clean); whole == t.(sent := s.sent + t.sent)
  {
    var all := [frame] + frames;
    assert all[0] == frame && all[1..] == frames;
    var s := Send(grants, frame, false);
    if s.result.Sent? {
      var t := SendAll(s.grants, frames);
      assert SendAll(grants, all) == t.(sent := s.sent + t.sent);
      if t.result.Sent? && clean {
        var end := Send(t.grants, [], true);
        assert (s.sent + t.sent) + end.sent == s.sent + (t.sent + end.sent);
      }
    }
  }

  lemma TransferNothing(grants: seq<Grant>, clean: bool)
    ensures Transfer(grants, [], clean) ==
            if clean then Send(grants, [], true).(result := Sent) else Sending(SendFailed, [], grants)
  {}

  lemma RawStep(grants: seq<Grant>, input: seq<ReadEvent>)
    requires input != [] && input[0].Data? && input[0].data != []
    ensures var s := Send(grants, Encode(input[0].data), false);
            var whole := RawToGrpcSpec(grants, input);
            if !s.result.Sent? then whole == s
            else var t := RawToGrpcSpec(s.grants, input[1..]); whole == t.(sent := s.sent + t.sent)
  {
    var chunks := Chunks(input);
    assert chunks[0] == input[0].data && chunks[1..] == Chunks(input[1..]);
    EncodeEachTail(chunks);
    TransferStep(grants, Encode(chunks[0]), EncodeEach(chunks[1..]), CleanEnd(input));
  }

  lemma RawEnd(grants: seq<Grant>, input: seq<ReadEvent>)
    requires input == [] || input[0] == Data([]) || input[0].ReadError?
    ensures RawToGrpcSpec(grants, input) ==
            if input != [] && input[0].ReadError? then Sending(SendFailed, [], grants)
            else Send(grants, [], true).(result := Sent)
  {
    assert EncodeEach([]) == [];
    TransferNothing(grants, CleanEnd(input));
  }

  method RawToGrpc(pool: BufPool.Pool, input: seq<ReadEvent>, stream: SendStream) returns (r: SendResult)
    requires BufPool.Valid(pool.buckets)
    modifies pool, stream
    ensures BufPool.Valid(pool.buckets)
    ensures var s := RawToGrpcSpec(old(stream.grants), input);
            r == s.result && stream.grants == s.grants && stream.sent == old(stream.sent) + s.sent
  {
    hide Encode, Send, RawToGrpcSpec, BufPool.Got, BufPool.AfterPut, BufPool.Valid;
    var readBuf := pool.Get(RAW_TO_GRPC_READ_BUF_SIZE);
    var i := 0;
    ghost var whole := RawToGrpcSpec(stream.grants, input);
    assert input[0..] == input;
    while i < |input| && input[i] != Data([])
      invariant 0 <= i <= |input|
      invariant BufPool.Valid(pool.buckets)
      invariant var t := RawToGrpcSpec(stream.grants, input[i..]);
                && whole.result == t.result && whole.grants == t.grants
                && old(stream.sent) + whole.sent == stream.sent + t.sent
    {
      if input[i].ReadError? {
        RawEnd(stream.grants, input[i..]);
        pool.Put(readBuf);
        return SendFailed;
      }
      RawStep(stream.grants, input[i..]);
      assert input[i..][1..] == input[i + 1..];
      var frame := EncodeGrpcFrame(pool, input[i].data);
      r := stream.SendGrpcData(frame, false);
      if !r.Sent? {
        pool.Put(readBuf);
        return;
      }
      i := i + 1;
    }
    RawEnd(stream.grants, input[i..]);
    var _ := stream.SendGrpcData([], true);
    pool.Put(readBuf);
    return Sent;
  }

  // ---------------------------------------------------------------------------------------------
  // gRPC -> raw
  // ---------------------------------------------------------------------------------------------

  /** What the decoded frames amount to; decoding stops for good at a frame that panics. */
  datatype Written = Written(data: Bytes, panicked: bool)

  function WriteOut(frames: seq<Bytes>): (w: Written) {
    if frames == [] then Written([], false)
    else
      match DecodeFrameData(frames[0])
      case Panicked => Written([], true)
      case Malformed => WriteOut(frames[1..])
      case Payload(data) => var w := WriteOut(frames[1..]); w.(data := data + w.data)
  }

  lemma {:induction false} WriteOutAppend(a: seq<Bytes>, b: seq<Bytes>)
    ensures WriteOut(a + b) ==
            if WriteOut(a).panicked then WriteOut(a)
            else Written(WriteOut(a).data + WriteOut(b).data, WriteOut(b).panicked)
  {
    hide DecodeFrameData;
    if a == [] {
      assert a + b == b && [] + WriteOut(b).data == WriteOut(b).data;
    } else {
      var rest := a[1..];
      assert (a + b)[0] == a[0] && (a + b)[1..] == rest + b;
      WriteOutAppend(rest, b);
      WriteOutHead(a);
      WriteOutHead(a + b);
      hide WriteOut;
      var d := DecodeFrameData(a[0]);
      if d.Payload? {
        assert (d.data + WriteOut(rest).data) + WriteOut(b).data == d.data + (WriteOut(rest).data + WriteOut(b).data);
      }
    }
  }

  lemma WriteOutHead(frames: seq<Bytes>)
    requires frames != []
    ensures var d := DecodeFrameData(frames[0]);
            var rest := WriteOut(frames[1..]);
            WriteOut(frames) ==
            if d.Panicked? then Written([], true)
            else if d.Malformed? then rest
            else Written(d.data + rest.data, rest.panicked)
  {
    hide DecodeFrameData;
  }

  lemma {:induction false} WriteOutFatal(frames: seq<Bytes>)
    ensures WriteOut(frames).panicked <==> exists k :: 0 <= k < |frames| && DecodeFrameData(frames[k]).Panicked?
  {
    hide DecodeFrameData;
    if frames != [] {
      WriteOutFatal(frames[1..]);
      assert forall k :: 1 <= k < |frames| ==> frames[k] == frames[1..][k - 1];
    }
  }

  /**
   * What is written of frames up to frame `k`, none of them fatal: the data of each that decodes, in
   * order; those that do not decode add nothing.
   */
  lemma WriteOutEach(frames: seq<Bytes>, k: nat)
    requires k < |frames| && !WriteOut(frames[..k + 1]).panicked
    ensures !WriteOut(frames[..k]).panicked
    ensures var d := DecodeFrameData(frames[k]);
            && !d.Panicked?
            && WriteOut(frames[..k + 1]).data == WriteOut(frames[..k]).data + if d.Payload? then d.data else []
  {
    hide DecodeFrameData;
    assert frames[..k + 1] == frames[..k] + [frames[k]];
    var one: seq<Bytes> := [frames[k]];
    WriteOutAppend(frames[..k], one);
    assert one[1..] == [] && WriteOut(one[1..]) == Written([], false);
    assert WriteOut(frames[..k]).data + [] == WriteOut(frames[..k]).data;
  }

  /** `room` is how many more bytes a writer takes before it fails, none if it never does. */
  predicate Fits(room: Option<nat>, data: Bytes) {
    room.None? || |data| <= room.value
  }

  /** What goes out of data before the writer fails. */
  function Taken(room: Option<nat>, data: Bytes): (r: Bytes)
    ensures r <= data && (r == data <==> Fits(room, data))
  {
    if Fits(room, data) then data else data[..room.value]
  }

  function Left(room: Option<nat>, data: Bytes): (r: Option<nat>) {
    if room.None? then None else if Fits(room, data) then Some(room.value - |data|) else Some(0)
  }

  lemma TakenAppend(room: Option<nat>, a: Bytes, b: Bytes)
    ensures Fits(room, a + b) <==> Fits(room, a) && Fits(Left(room, a), b)
    ensures Taken(room, a + b) == Taken(room, a) + if Fits(room, a) then Taken(Left(room, a), b) else []
    ensures Fits(room, a) ==> Left(room, a + b) == Left(Left(room, a), b)
  {
    if room.Some? && !Fits(room, a) {
      assert (a + b)[..room.value] == a[..room.value];
    } else if room.Some? && !Fits(room, a + b) {
      assert (a + b)[..room.value] == a + b[..room.value - |a|];
    }
  }

  /** A peer that takes bytes until it fails, and that may refuse to be flushed or shut down. */
  class Writer {
    var written: Bytes
    var room: Option<nat>
    const closes: bool

    constructor (room: Option<nat>, closes: bool)
      ensures written == [] && this.room == room && this.closes == closes
    {
      written, this.room, this.closes := [], room, closes;
    }

    method WriteAll(data: Bytes) returns (ok: bool)
      modifies this
      ensures ok <==> Fits(old(room), data)
      ensures written == old(written) + Taken(old(room), data) && room == Left(old(room), data)
    {
      ok := Fits(room, data);
      written, room := written + Taken(room, data), Left(room, data);
    }
  }

  datatype Outcome = Finished | Broken | Died

  /** The writer has taken all of `done`. */
  ghost predicate HasTaken(writer: Writer, before: Bytes, room: Option<nat>, done: Bytes)
    reads writer
  {
    Fits(room, done) && writer.written == before + done && writer.room == Left(room, done)
  }

  /** One frame of a receive loop: decode it and write the data, if there is any. */
  method WriteFrame(frame: Bytes, writer: Writer, ghost before: Bytes, ghost room: Option<nat>, ghost done: Bytes)
    returns (stop: Option<Outcome>)
    requires HasTaken(writer, before, room, done)
    modifies writer
    ensures stop == Some(Died) <==> DecodeFrameData(frame).Panicked?
    ensures stop == Some(Died) ==> HasTaken(writer, before, room, done)
    ensures stop == Some(Broken) <==> !DecodeFrameData(frame).Panicked? && !Fits(room, done + DecodedBytes(frame))
    ensures stop == Some(Broken) ==> writer.written == before + Taken(room, done + DecodedBytes(frame))
    ensures stop != Some(Finished)
    ensures stop.None? ==> HasTaken(writer, before, room, done + DecodedBytes(frame))
  {
    hide DecodeFrameData, Fits, Taken, Left;
    stop := None;
    assert done + [] == done;
    match DecodeFrameData(frame) {
      case Panicked => stop := Some(Died);
      case Malformed =>
      case Payload(data) =>
        TakenAppend(room, done, data);
        if data != [] {
          var ok := writer.WriteAll(data);
          if !ok {
            stop := Some(Broken);
          }
        }
    }
  }

  method GrpcToRaw(recvStream: seq<RecvEvent>, writer: Writer) returns (outcome: Outcome)
    modifies writer
    ensures var d := Drain([], recvStream);
            var w := WriteOut(d.frames);
            && writer.written == old(writer.written) + Taken(old(writer.room), w.data)
            && outcome == if !Fits(old(writer.room), w.data) then Broken
                          else if w.panicked then Died
                          else if d.stop.End? && writer.closes then Finished
                          else Broken
  {
    hide DecodeFrameData, DecodedBytes, ReadNext, WholeFrame, Fits, Left, Drain, WriteOut;
    var reader := new GrpcFrameReader(recvStream);
    ghost var done: Bytes := [];
    ghost var before, room := writer.written, writer.room;
    ghost var d := Drain([], recvStream);
    ghost var w := WriteOut(d.frames);
    TakenNothing(room);
    assert before + [] == before && [] + w.data == w.data;
    while true
      invariant fresh(reader)
      invariant HasTaken(writer, before, room, done)
      invariant var rest := Drain(reader.buf, reader.pending);
                && rest.stop == d.stop
                && w == Written(done + WriteOut(rest.frames).data, WriteOut(rest.frames).panicked)
      decreases |Drain(reader.buf, reader.pending).frames|
    {
      ghost var rest := Drain(reader.buf, reader.pending);
      DrainUnfold(reader.buf, reader.pending);
      var next := reader.NextFrame();
      if !next.Frame? {
        WriteOutNone();
        assert done + [] == done;
        return if next.End? && writer.closes then Finished else Broken;
      }
      WriteOutUnfold(rest.frames, done);
      assert rest.frames[1..] == Drain(reader.buf, reader.pending).frames;
      var stop := WriteFrame(next.frame, writer, before, room, done);
      if stop.Some? {
        assert done + [] == done;
        if stop.value == Broken {
          ghost var more := done + DecodedBytes(next.frame);
          TakenAppend(room, more, WriteOut(rest.frames[1..]).data);
          assert Taken(room, more) + [] == Taken(room, more);
        }
        return stop.value;
      }
      done := done + DecodedBytes(next.frame);
    }
  }

  lemma TakenNothing(room: Option<nat>)
    ensures Fits(room, []) && Taken(room, []) == [] && Left(room, []) == room
  {}

  lemma WriteOutNone()
    ensures WriteOut([]) == Written([], false)
  {}

  function DecodedBytes(frame: Bytes): (data: Bytes) {
    match DecodeFrameData(frame)
    case Payload(data) => data
    case _ => []
  }

  lemma WriteOutUnfold(frames: seq<Bytes>, seen: Bytes)
    requires frames != []
    ensures var rest := WriteOut(frames[1..]);
            if DecodeFrameData(frames[0]).Panicked? then WriteOut(frames) == Written([], true)
            else
              && WriteOut(frames).panicked == rest.panicked
              && seen + WriteOut(frames).data == (seen + DecodedBytes(frames[0])) + rest.data
  {
    hide DecodeFrameData;
    var (data, later) := (DecodedBytes(frames[0]), WriteOut(frames[1..]).data);
    assert seen + (data + later) == (seen + data) + later;
    assert [] + later == later;
  }

  // ---------------------------------------------------------------------------------------------
  // Forwarding frames verbatim
  // ---------------------------------------------------------------------------------------------

  method ForwardFrames(reader: GrpcFrameReader, stream: SendStream) returns (r: SendResult)
    modifies reader, stream
    ensures var d := Drain(old(reader.buf), old(reader.pending));
            var s := Transfer(old(stream.grants), d.frames, d.stop.End?);
            r == s.result && stream.grants == s.grants && stream.sent == old(stream.sent) + s.sent
  {
    hide ReadNext, WholeFrame, Send, SendAll, Transfer;
    ghost var d := Drain(reader.buf, reader.pending);
    ghost var whole := Transfer(stream.grants, d.frames, d.stop.End?);
    while true
      invariant var rest := Drain(reader.buf, reader.pending);
                var t := Transfer(stream.grants, rest.frames, d.stop.End?);
                && rest.stop == d.stop
                && whole.result == t.result && whole.grants == t.grants
                && old(stream.sent) + whole.sent == stream.sent + t.sent
      decreases |Drain(reader.buf, reader.pending).frames|
    {
      ghost var rest := Drain(reader.buf, reader.pending);
      var next := reader.NextFrame();
      if !next.Frame? {
        TransferNothing(stream.grants, next.End?);
      }
      if next.End? {
        var _ := stream.SendGrpcData([], true);
        return Sent;
      } else if !next.Frame? {
        return SendFailed;
      }
      ghost var after := Drain(reader.buf, reader.pending);
      assert rest.frames == [next.frame] + after.frames;
      TransferStep(stream.grants, next.frame, after.frames, d.stop.End?);
      r := stream.SendGrpcData(next.frame, false);
      if !r.Sent? {
        return;
      }
    }
  }
}
