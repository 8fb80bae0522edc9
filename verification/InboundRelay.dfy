/**
 * The two ways an inbound gRPC request is relayed (src/relay/inbound/grpc.rs), and the request side
 * of the outbound gRPC relay (src/relay/outbound/grpc.rs).
 */
module InboundRelay {
  import opened Prelude
  import opened GrpcFrame
  import opened FrameReader
  import opened Tunnel
  import opened TunnelTheorems
  import BufPool

  const AUTH_ID_LEN := 16

  function Drop(data: Bytes, n: nat): (r: Bytes) {
    if n <= |data| then data[n..] else []
  }

  datatype AuthRead =
    | Auth(cachedFrames: seq<Bytes>, authId: Bytes)
    | NoAuth
    | AuthDied
    | TimedOut

  /** The frames consumed so far, before the reader and still to come from it, in order. */
  ghost predicate Consumed(start: Drained, taken: seq<Bytes>, rest: Drained) {
    start == Drained(taken + rest.frames, rest.stop)
  }

  /** The shortest run of leading frames that decodes to the sixteen bytes of the auth id. */
  ghost predicate FirstFramesWithAuth(start: Drained, taken: seq<Bytes>, rest: Drained) {
    && Consumed(start, taken, rest)
    && taken != []
    && |WriteOut(taken[..|taken| - 1]).data| < AUTH_ID_LEN <= |WriteOut(taken).data|
    && !WriteOut(taken).panicked
  }

  /** `limit` is the number of frames that can be read before the time for the auth id is over. */
  function Early(frames: seq<Bytes>, limit: Option<nat>): (early: seq<Bytes>)
    ensures early <= frames
  {
    if limit.Some? && limit.value < |frames| then frames[..limit.value] else frames
  }

  predicate TimeOver(taken: nat, limit: Option<nat>) {
    limit.Some? && limit.value <= taken
  }

  method ReadInitialAuth(reader: GrpcFrameReader, limit: Option<nat>) returns (r: AuthRead)
    modifies reader
    ensures var start := Drain(old(reader.buf), old(reader.pending));
            var rest := Drain(reader.buf, reader.pending);
            var early := Early(start.frames, limit);
            var w := WriteOut(early);
            match r
            case Auth(cached, authId) =>
              && FirstFramesWithAuth(start, cached, rest)
              && AUTH_ID_LEN <= |w.data| && authId == w.data[..AUTH_ID_LEN]
            case AuthDied => |w.data| < AUTH_ID_LEN && w.panicked
            case TimedOut =>
              && |w.data| < AUTH_ID_LEN && !w.panicked
              && TimeOver(|start.frames|, limit) && Consumed(start, early, rest)
            case NoAuth =>
              && |w.data| < AUTH_ID_LEN && !w.panicked
              && !TimeOver(|start.frames|, limit) && rest.frames == Later(old(reader.buf), old(reader.pending))
  {
    hide DecodeFrameData, ReadNext, WholeFrame, Drain, Later, WriteOut;
    ghost var start := Drain(reader.buf, reader.pending);
    ghost var early := Early(start.frames, limit);
    var cached: seq<Bytes> := [];
    var raw: Bytes := [];
    WriteOutNone();
    while |raw| < AUTH_ID_LEN
      invariant Consumed(start, cached, Drain(reader.buf, reader.pending))
      invariant Later(reader.buf, reader.pending) == Later(old(reader.buf), old(reader.pending))
      invariant cached <= early
      invariant WriteOut(cached) == Written(raw, false)
      invariant |raw| >= AUTH_ID_LEN ==>
                  cached != [] && |WriteOut(cached[..|cached| - 1]).data| < AUTH_ID_LEN
      decreases |Drain(reader.buf, reader.pending).frames|
    {
      if TimeOver(|cached|, limit) {
        assert early == cached;
        return TimedOut;
      }
      DrainUnfold(reader.buf, reader.pending);
      LaterUnfold(reader.buf, reader.pending);
      var next := reader.NextFrame();
      if !next.Frame? {
        assert start.frames == cached == early;
        return NoAuth;
      }
      ghost var after := Drain(reader.buf, reader.pending);
      WriteOutOne(cached, next.frame);
      ghost var more := cached + [next.frame];
      assert start.frames == more + after.frames;
      assert more[..|cached|] == cached && more <= early;
      match DecodeFrameData(next.frame) {
        case Panicked =>
          WriteOutPrefix(more, early);
          return AuthDied;
        case Malformed =>
        case Payload(data) => raw := raw + data;
      }
      cached := cached + [next.frame];
    }
    WriteOutPrefix(cached, early);
    return Auth(cached, raw[..AUTH_ID_LEN]);
  }

  lemma WriteOutPrefix(part: seq<Bytes>, whole: seq<Bytes>)
    requires part <= whole
    ensures WriteOut(part).data <= WriteOut(whole).data
    ensures WriteOut(part).panicked ==> WriteOut(whole) == WriteOut(part)
  {
    hide WriteOut;
    assert whole == part + whole[|part|..];
    WriteOutAppend(part, whole[|part|..]);
  }

  lemma WriteOutOne(frames: seq<Bytes>, frame: Bytes)
    requires !WriteOut(frames).panicked
    ensures var w := WriteOut(frames + [frame]);
            match DecodeFrameData(frame)
            case Panicked => w == Written(WriteOut(frames).data, true)
            case Malformed => w == WriteOut(frames)
            case Payload(data) => w == Written(WriteOut(frames).data + data, false)
  {
    hide DecodeFrameData;
    WriteOutAppend(frames, [frame]);
    assert [frame][1..] == [];
  }

  function SkipAuthIdBytes(data: Bytes, skip: nat): (r: (Bytes, nat))
    ensures |r.0| + skip == |data| + r.1
    ensures r.1 > 0 ==> r.0 == []
    ensures r.0 == Drop(data, skip)
  {
    var n := Min(skip, |data|);
    (data[n..], skip - n)
  }

  /**
   * Of the decoded bytes `seen`, `skip` bytes of the auth id are still ahead, and the writer has taken
   * all bytes after the auth id.
   */
  ghost predicate OnWriter(writer: Writer, before: Bytes, room: Option<nat>, seen: Bytes, skip: nat)
    reads writer
  {
    && skip == (if |seen| < AUTH_ID_LEN then AUTH_ID_LEN - |seen| else 0)
    && Fits(room, Drop(seen, AUTH_ID_LEN))
    && writer.written == before + Drop(seen, AUTH_ID_LEN) && writer.room == Left(room, Drop(seen, AUTH_ID_LEN))
  }

  lemma DropStep(seen: Bytes, skip: nat, data: Bytes)
    requires skip == if |seen| < AUTH_ID_LEN then AUTH_ID_LEN - |seen| else 0
    ensures var (rest, left) := SkipAuthIdBytes(data, skip);
            && left == (if |seen + data| < AUTH_ID_LEN then AUTH_ID_LEN - |seen + data| else 0)
            && Drop(seen + data, AUTH_ID_LEN) == Drop(seen, AUTH_ID_LEN) + rest
  {}

  /** One frame of the decode task: decode, skip what is left of the auth id, write the rest. */
  method DecodeOne(
    frame: Bytes, skip: nat, writer: Writer, ghost before: Bytes, ghost room: Option<nat>, ghost seen: Bytes)
    returns (left: nat, stop: Option<Outcome>)
    requires OnWriter(writer, before, room, seen, skip)
    modifies writer
    ensures stop == Some(Died) <==> DecodeFrameData(frame).Panicked?
    ensures stop == Some(Died) ==> OnWriter(writer, before, room, seen, left)
    ensures stop == Some(Broken) <==>
              !DecodeFrameData(frame).Panicked? && !Fits(room, Drop(seen + DecodedBytes(frame), AUTH_ID_LEN))
    ensures stop == Some(Broken) ==>
              writer.written == before + Taken(room, Drop(seen + DecodedBytes(frame), AUTH_ID_LEN))
    ensures stop != Some(Finished)
    ensures stop.None? ==> OnWriter(writer, before, room, seen + DecodedBytes(frame), left)
  {
    hide DecodeFrameData, Fits, Taken, Left, Drop, SkipAuthIdBytes;
    left, stop := skip, None;
    assert seen + [] == seen;
    match DecodeFrameData(frame) {
      case Panicked => stop := Some(Died);
      case Malformed =>
      case Payload(data) =>
        DropStep(seen, skip, data);
        var (rest, ahead) := SkipAuthIdBytes(data, skip);
        TakenAppend(room, Drop(seen, AUTH_ID_LEN), rest);
        left := ahead;
        var ok := true;
        if rest != [] {
          ok := writer.WriteAll(rest);
        } else {
          TakenNothing(writer.room);
          assert Drop(seen, AUTH_ID_LEN) + [] == Drop(seen, AUTH_ID_LEN);
        }
        if !ok {
          stop := Some(Broken);
        }
    }
  }

  /** Whether and how a stream is written out, when the writer takes only `room` bytes. */
  function WriteOutcome(room: Option<nat>, w: Written, clean: bool): (o: Outcome) {
    if !Fits(room, Drop(w.data, AUTH_ID_LEN)) then Broken
    else if w.panicked then Died
    else if clean then Finished
    else Broken
  }

  /**
   * The decode task finishes well exactly if its writer took every byte, no frame was fatal and the stream
   * ended cleanly; it dies exactly of a fatal frame behind bytes that were all taken.
   */
  lemma OutcomeExactly(room: Option<nat>, frames: seq<Bytes>, clean: bool)
    ensures var w := WriteOut(frames);
            var o := WriteOutcome(room, w, clean);
            var taken := room.None? || |w.data| <= 16 + room.value;
            var fatal := exists k :: 0 <= k < |frames| && DecodeFrameData(frames[k]).Panicked?;
            && (o.Finished? <==> taken && !fatal && clean)
            && (o.Died? <==> taken && fatal)
  {
    WriteOutFatal(frames);
  }

  /** A writer that failed on a part of the data fails on all of it, at the same byte. */
  lemma FailedEarly(room: Option<nat>, seen: Bytes, later: Bytes)
    requires !Fits(room, Drop(seen, AUTH_ID_LEN))
    ensures !Fits(room, Drop(seen + later, AUTH_ID_LEN))
    ensures Taken(room, Drop(seen + later, AUTH_ID_LEN)) == Taken(room, Drop(seen, AUTH_ID_LEN))
  {
    TakenAppend(room, Drop(seen, AUTH_ID_LEN), later);
    assert Drop(seen + later, AUTH_ID_LEN) == Drop(seen, AUTH_ID_LEN) + later;
  }

  /** The decode task of the core path: the cached frames first, then the reader's. */
  method DecodeTask(cachedFrames: seq<Bytes>, reader: GrpcFrameReader, writer: Writer) returns (outcome: Outcome)
    modifies reader, writer
    ensures var rest := Drain(old(reader.buf), old(reader.pending));
            var all := WriteOut(cachedFrames + rest.frames);
            && writer.written == old(writer.written) + Taken(old(writer.room), Drop(all.data, AUTH_ID_LEN))
            && outcome == WriteOutcome(old(writer.room), all, rest.stop.End?)
  {
    hide DecodeFrameData, DecodedBytes, ReadNext, WholeFrame, Drain, WriteOut, Drop, Fits, Left;
    ghost var start := Drain(reader.buf, reader.pending);
    ghost var all := cachedFrames + start.frames;
    ghost var seen: Bytes := [];
    ghost var before, room := writer.written, writer.room;
    var skip: nat := AUTH_ID_LEN;
    var stop;
    StartsEmpty(writer);
    assert all[0..] == all && [] + WriteOut(all).data == WriteOut(all).data;
    var i := 0;
    while i < |cachedFrames|
      invariant 0 <= i <= |cachedFrames|
      invariant OnWriter(writer, before, room, seen, skip)
      invariant Drain(reader.buf, reader.pending) == start
      invariant WriteOut(all) == Written(seen + WriteOut(all[i..]).data, WriteOut(all[i..]).panicked)
    {
      WriteOutUnfold(all[i..], seen);
      assert all[i..][0] == cachedFrames[i] && all[i..][1..] == all[i + 1..];
      skip, stop := DecodeOne(cachedFrames[i], skip, writer, before, room, seen);
      if stop.Some? {
        Stops(room, WriteOut(all), seen, cachedFrames[i], WriteOut(all[i + 1..]).data, stop.value, start.stop.End?);
        return stop.value;
      }
      seen := seen + DecodedBytes(cachedFrames[i]);
      i := i + 1;
    }
    assert all[i..] == start.frames;
    while true
      invariant OnWriter(writer, before, room, seen, skip)
      invariant var rest := Drain(reader.buf, reader.pending);
                && rest.stop == start.stop
                && WriteOut(all) == Written(seen + WriteOut(rest.frames).data, WriteOut(rest.frames).panicked)
      decreases |Drain(reader.buf, reader.pending).frames|
    {
      ghost var rest := Drain(reader.buf, reader.pending);
      DrainUnfold(reader.buf, reader.pending);
      var next := reader.NextFrame();
      if !next.Frame? {
        WriteOutNone();
        assert seen + [] == seen;
        return if next.End? then Finished else Broken;
      }
      WriteOutUnfold(rest.frames, seen);
      assert rest.frames[1..] == Drain(reader.buf, reader.pending).frames;
      skip, stop := DecodeOne(next.frame, skip, writer, before, room, seen);
      if stop.Some? {
        Stops(room, WriteOut(all), seen, next.frame, WriteOut(rest.frames[1..]).data, stop.value, start.stop.End?);
        return stop.value;
      }
      seen := seen + DecodedBytes(next.frame);
    }
  }

  /** A frame that stops the decode task decides what it has written and how it ends. */
  lemma Stops(room: Option<nat>, w: Written, seen: Bytes, frame: Bytes, later: Bytes, stop: Outcome, clean: bool)
    requires Fits(room, Drop(seen, AUTH_ID_LEN))
    requires if DecodeFrameData(frame).Panicked? then w == Written(seen + [], true) && stop == Died
             else
               && w.data == (seen + DecodedBytes(frame)) + later && stop == Broken
               && !Fits(room, Drop(seen + DecodedBytes(frame), AUTH_ID_LEN))
    ensures WriteOutcome(room, w, clean) == stop
    ensures Taken(room, Drop(w.data, AUTH_ID_LEN)) ==
            if stop == Died then Drop(seen, AUTH_ID_LEN) else Taken(room, Drop(seen + DecodedBytes(frame), AUTH_ID_LEN))
  {
    hide DecodeFrameData, Fits, Drop;
    assert seen + [] == seen;
    if stop == Broken { FailedEarly(room, seen + DecodedBytes(frame), later); }
  }

  lemma StartsEmpty(writer: Writer)
    ensures OnWriter(writer, writer.written, writer.room, [], AUTH_ID_LEN)
  {
    assert writer.written + [] == writer.written;
    TakenNothing(writer.room);
  }

  /** The fast path: the cached frames, then everything the reader still yields, verbatim. */
  method RelayFast(cachedFrames: seq<Bytes>, reader: GrpcFrameReader, stream: SendStream) returns (r: SendResult)
    modifies reader, stream
    ensures var rest := Drain(old(reader.buf), old(reader.pending));
            var s := Transfer(old(stream.grants), cachedFrames + rest.frames, rest.stop.End?);
            r == s.result && stream.grants == s.grants && stream.sent == old(stream.sent) + s.sent
  {
    hide ReadNext, WholeFrame, Send, SendAll, Transfer, Drain;
    ghost var rest := Drain(reader.buf, reader.pending);
    ghost var all := cachedFrames + rest.frames;
    ghost var whole := Transfer(stream.grants, all, rest.stop.End?);
    var i := 0;
    while i < |cachedFrames|
      invariant 0 <= i <= |cachedFrames|
      invariant Drain(reader.buf, reader.pending) == rest
      invariant var t := Transfer(stream.grants, all[i..], rest.stop.End?);
                && whole.result == t.result && whole.grants == t.grants
                && old(stream.sent) + whole.sent == stream.sent + t.sent
    {
      assert all[i..] == [cachedFrames[i]] + all[i + 1..];
      TransferStep(stream.grants, cachedFrames[i], all[i + 1..], rest.stop.End?);
      r := stream.SendGrpcData(cachedFrames[i], false);
      if !r.Sent? {
        return;
      }
      i := i + 1;
    }
    assert all[i..] == rest.frames;
    r := ForwardFrames(reader, stream);
  }

  // ---------------------------------------------------------------------------------------------
  // Draining a rejected request
  // ---------------------------------------------------------------------------------------------

  /** How many decoded bytes are enough, a random number, and how many frames come within the time for it. */
  datatype DrainLimit = DrainLimit(bytes: nat, frames: nat)

  /** Draining decodes the frames too, and dies on a fatal one. */
  function DrainDies(frames: seq<Bytes>, limit: DrainLimit): (died: bool)
    decreases |frames|
  {
    if limit.bytes == 0 || limit.frames == 0 || frames == [] then false
    else if DecodeFrameData(frames[0]).Panicked? then true
    else
      var n := Min(limit.bytes, |DecodedBytes(frames[0])|);
      DrainDies(frames[1..], DrainLimit(limit.bytes - n, limit.frames - 1))
  }

  method DrainGrpcRequest(reader: GrpcFrameReader, limit: DrainLimit) returns (died: bool)
    modifies reader
    ensures died == DrainDies(Drain(old(reader.buf), old(reader.pending)).frames, limit)
  {
    hide DecodeFrameData, ReadNext, WholeFrame, Drain;
    var drained, frames := 0, 0;
    ghost var all := Drain(reader.buf, reader.pending).frames;
    while drained < limit.bytes && frames < limit.frames
      invariant 0 <= frames <= limit.frames && 0 <= drained
      invariant DrainDies(all, limit) ==
                DrainDies(Drain(reader.buf, reader.pending).frames,
                          DrainLimit(if drained < limit.bytes then limit.bytes - drained else 0, limit.frames - frames))
      decreases limit.frames - frames
    {
      ghost var rest := Drain(reader.buf, reader.pending).frames;
      DrainUnfold(reader.buf, reader.pending);
      var next := reader.NextFrame();
      if !next.Frame? {
        return false;
      }
      assert rest[1..] == Drain(reader.buf, reader.pending).frames;
      match DecodeFrameData(next.frame) {
        case Panicked => return true;
        case Malformed =>
        case Payload(data) => drained := drained + |data|;
      }
      frames := frames + 1;
    }
    return false;
  }

  /** That is, exactly if a fatal frame comes in time and after too few bytes. */
  lemma {:induction false} DrainDiesExactly(frames: seq<Bytes>, limit: DrainLimit)
    ensures DrainDies(frames, limit) <==> exists k: nat :: FatalAt(frames, limit, k)
    decreases |frames|
  {
    hide DecodeFrameData, WriteOut, FatalAt;
    if frames == [] || limit.frames == 0 || limit.bytes == 0 {
      forall k: nat ensures !FatalAt(frames, limit, k) { NeverFatal(frames, limit, k); }
    } else if DecodeFrameData(frames[0]).Panicked? {
      FatalFirst(frames, limit);
      assert FatalAt(frames, limit, 0);
    } else {
      var n := Min(limit.bytes, |DecodedBytes(frames[0])|);
      var (rest, less) := (frames[1..], DrainLimit(limit.bytes - n, limit.frames - 1));
      DrainDiesExactly(rest, less);
      FatalFirst(frames, limit);
      if DrainDies(rest, less) {
        var k: nat :| FatalAt(rest, less, k);
        FatalNext(frames, limit, k);
        assert FatalAt(frames, limit, k + 1);
      }
      if k: nat :| FatalAt(frames, limit, k) {
        FatalNext(frames, limit, k - 1);
        assert FatalAt(rest, less, k - 1);
      }
    }
  }

  lemma NeverFatal(frames: seq<Bytes>, limit: DrainLimit, k: nat)
    requires frames == [] || limit.frames == 0 || limit.bytes == 0
    ensures !FatalAt(frames, limit, k)
  {}

  /** Frame `k` is fatal, comes in time, and the frames before it are not fatal and hold too few bytes. */
  ghost predicate FatalAt(frames: seq<Bytes>, limit: DrainLimit, k: nat) {
    && k < |frames| && k < limit.frames && DecodeFrameData(frames[k]).Panicked?
    && !WriteOut(frames[..k]).panicked && |WriteOut(frames[..k]).data| < limit.bytes
  }

  lemma FatalFirst(frames: seq<Bytes>, limit: DrainLimit)
    requires frames != [] && limit.frames > 0 && limit.bytes > 0
    ensures FatalAt(frames, limit, 0) <==> DecodeFrameData(frames[0]).Panicked?
  {
    hide DecodeFrameData, WriteOut;
    WriteOutNone();
  }

  lemma FatalNext(frames: seq<Bytes>, limit: DrainLimit, k: nat)
    requires frames != [] && limit.frames > 0 && !DecodeFrameData(frames[0]).Panicked?
    ensures var n := Min(limit.bytes, |DecodedBytes(frames[0])|);
            var less := DrainLimit(limit.bytes - n, limit.frames - 1);
            FatalAt(frames, limit, k + 1) <==> FatalAt(frames[1..], less, k)
  {
    hide DecodeFrameData, WriteOut;
    if k + 1 < |frames| {
      var (front, rest) := (frames[..k + 1], frames[1..]);
      WriteOutUnfold(front, []);
      assert front[1..] == rest[..k] && front[0] == frames[0];
      assert [] + WriteOut(front).data == WriteOut(front).data;
    }
  }

  // ---------------------------------------------------------------------------------------------
  // One request
  // ---------------------------------------------------------------------------------------------

  datatype Route = ToGrpc | ToCore

  /** `Crashed`: a fatal frame made the decoder panic before the request was relayed. */
  datatype Relayed = Rejected | Crashed | Fast(result: SendResult) | Core(written: Bytes, outcome: Outcome)

  /** The auth id is complete with the first `k` frames. */
  ghost predicate AuthEndsAt(frames: seq<Bytes>, k: nat) {
    && 0 < k <= |frames| && !WriteOut(frames[..k]).panicked
    && |WriteOut(frames[..k - 1]).data| < AUTH_ID_LEN <= |WriteOut(frames[..k]).data|
  }

  lemma AuthEndsOnce(frames: seq<Bytes>, k: nat, m: nat)
    requires AuthEndsAt(frames, k) && AuthEndsAt(frames, m)
    ensures k == m
  {
    hide WriteOut;
    if k < m { WriteOutPrefix(frames[..k], frames[..m - 1]); }
    if m < k { WriteOutPrefix(frames[..m], frames[..k - 1]); }
  }

  /** What becomes of a request that is not relayed, with these frames still to come. */
  function Rejection(frames: seq<Bytes>, limit: DrainLimit): (r: Relayed) {
    if DrainDies(frames, limit) then Crashed else Rejected
  }

  /** The frames still to come when no auth id was read. */
  function AfterNoAuth(inbound: seq<RecvEvent>, limit: Option<nat>): (frames: seq<Bytes>) {
    var d := Drain([], inbound);
    if TimeOver(|d.frames|, limit) then d.frames[limit.value..] else Later([], inbound)
  }

  /**
   * One inbound request: the auth id is read, within a time limit, and routed, and the request relayed
   * one way or the other, or drained and rejected. `room` is how much the core relay takes before it
   * goes away. Nothing reaches an upstream unless the first sixteen decoded bytes arrived in time and
   * are routed there.
   */
  method RelayRequest(
    inbound: seq<RecvEvent>, limit: Option<nat>, drain: DrainLimit, route: Bytes -> Option<Route>,
    upstream: SendStream, room: Option<nat>)
    returns (r: Relayed)
    modifies upstream
    ensures var d := Drain([], inbound);
            var all, w := WriteOut(d.frames), WriteOut(Early(d.frames, limit));
            var inTime := |w.data| >= AUTH_ID_LEN;
            var target := if inTime then route(w.data[..AUTH_ID_LEN]) else None;
            var s := Transfer(old(upstream.grants), d.frames, d.stop.End?);
            if target == Some(ToGrpc) then
              r == Fast(s.result) && upstream.sent == old(upstream.sent) + s.sent && upstream.grants == s.grants
            else
              && upstream.sent == old(upstream.sent) && upstream.grants == old(upstream.grants)
              && if target == Some(ToCore) then
                   r == Core(Taken(room, Drop(all.data, AUTH_ID_LEN)), WriteOutcome(room, all, d.stop.End?))
                 else if inTime then exists k: nat :: AuthEndsAt(d.frames, k) && r == Rejection(d.frames[k..], drain)
                 else if w.panicked then r == Crashed
                 else r == Rejection(AfterNoAuth(inbound, limit), drain)
  {
    hide Drain, Later, WriteOut, Transfer, Drop, Taken, WriteOutcome, DrainDies;
    ghost var d := Drain([], inbound);
    var reader := new GrpcFrameReader(inbound);
    var auth := ReadInitialAuth(reader, limit);
    if auth.AuthDied? {
      return Crashed;
    } else if !auth.Auth? {
      assert Drain(reader.buf, reader.pending).frames == AfterNoAuth(inbound, limit);
      var died := DrainGrpcRequest(reader, drain);
      return if died then Crashed else Rejected;
    }
    var target := route(auth.authId);
    ghost var k := |auth.cachedFrames|;
    assert d.frames == auth.cachedFrames + Drain(reader.buf, reader.pending).frames;
    if target.None? {
      assert d.frames[..k] == auth.cachedFrames && d.frames[..k - 1] == auth.cachedFrames[..k - 1];
      assert AuthEndsAt(d.frames, k) && d.frames[k..] == Drain(reader.buf, reader.pending).frames;
      var died := DrainGrpcRequest(reader, drain);
      return if died then Crashed else Rejected;
    } else if target.value.ToGrpc? {
      var result := RelayFast(auth.cachedFrames, reader, upstream);
      return Fast(result);
    } else {
      var inboundWrite := new Writer(room, true);
      var outcome := DecodeTask(auth.cachedFrames, reader, inboundWrite);
      return Core(inboundWrite.written, outcome);
    }
  }

  /**
   * Fast path refines core path. For every inbound stream that carries an auth id, in any chunks,
   * with undecodable, empty or fatal frames anywhere: decoding what the fast path forwards, once it
   * has arrived in any chunks, gives the auth id followed by exactly what the core path writes; and
   * at every earlier moment a prefix of it.
   */
  lemma FastRefinesCore(inbound: seq<RecvEvent>, grants: seq<Grant>, upstream: seq<RecvEvent>)
    requires |WriteOut(Drain([], inbound).frames).data| >= AUTH_ID_LEN
    requires var d := Drain([], inbound);
             Arrived(upstream) <= Wire(Transfer(grants, d.frames, d.stop.End?).sent)
    ensures var d := Drain([], inbound);
            var all := WriteOut(d.frames);
            var (authId, core) := (all.data[..AUTH_ID_LEN], Drop(all.data, AUTH_ID_LEN));
            var far := WriteOut(Drain([], upstream).frames);
            && far.data <= authId + core
            && (Arrived(upstream) == Concat(d.frames) ==>
                  far.data == authId + core && far.panicked == all.panicked)
  {
    hide Drain, WriteOut, Transfer, WholeFrame;
    var d := Drain([], inbound);
    var all := WriteOut(d.frames);
    DrainWhole(inbound);
    ForwardingTransparent(grants, d.frames, d.stop.End?, upstream);
    var got := Drain([], upstream).frames;
    assert d.frames == got + d.frames[|got|..];
    WriteOutAppend(got, d.frames[|got|..]);
    assert all.data == all.data[..AUTH_ID_LEN] + Drop(all.data, AUTH_ID_LEN);
  }

  lemma DrainWhole(events: seq<RecvEvent>)
    ensures forall f :: f in Drain([], events).frames ==> WholeFrame(f)
  {}

  // ---------------------------------------------------------------------------------------------
  // Outbound request: the auth id as a frame of its own, then the inbound bytes
  // ---------------------------------------------------------------------------------------------

  type AuthId = s: ReadChunk | |s| == AUTH_ID_LEN witness seq(AUTH_ID_LEN, i => 0)

  method RelayOutbound(pool: BufPool.Pool, authId: AuthId, input: seq<ReadEvent>, stream: SendStream)
    returns (r: SendResult)
    requires BufPool.Valid(pool.buckets)
    modifies pool, stream
    ensures BufPool.Valid(pool.buckets)
    ensures var s := RawToGrpcSpec(old(stream.grants), [Data(authId)] + input);
            r == s.result && stream.grants == s.grants && stream.sent == old(stream.sent) + s.sent
  {
    hide Encode, Send, RawToGrpcSpec;
    ghost var events := [Data(authId)] + input;
    assert events[0] == Data(authId) && events[1..] == input;
    RawStep(stream.grants, events);
    var frame := EncodeGrpcFrame(pool, authId);
    r := stream.SendGrpcData(frame, false);
    if r.Sent? {
      r := RawToGrpc(pool, input, stream);
    }
  }

  /** Once everything has arrived, the upstream has read the auth id and then the inbound bytes. */
  lemma OutboundDelivers(grants: seq<Grant>, authId: AuthId, input: seq<ReadEvent>, upstream: seq<RecvEvent>)
    requires RawToGrpcSpec(grants, [Data(authId)] + input).result.Sent?
    requires Arrived(upstream) == Wire(RawToGrpcSpec(grants, [Data(authId)] + input).sent)
    ensures WriteOut(Drain([], upstream).frames) == Written(authId + Concat(Chunks(input)), false)
  {
    hide Drain, WriteOut, RawToGrpcSpec;
    var events := [Data(authId)] + input;
    TunnelTransparent(grants, events, upstream);
    assert events[1..] == input;
    assert Chunks(events) == [authId] + Chunks(input);
    assert ([authId] + Chunks(input))[1..] == Chunks(input);
  }
}
