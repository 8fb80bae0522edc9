/** Reassembly of frames from DATA chunks: `GrpcFrameReader` of src/relay/transport/grpc.rs. */
module FrameReader {
  import opened Prelude
  import opened GrpcFrame

  /** What the receive stream yields; the empty queue is the end of the stream. */
  datatype RecvEvent = Chunk(data: Bytes) | Failed

  datatype Next = Frame(frame: Bytes) | TooLarge | RecvError | End

  /** What the front of a buffer holds. */
  datatype Front = Incomplete | Oversized | Ready(n: nat)

  function Peek(buf: Bytes): (f: Front)
    ensures f.Ready? ==> 5 <= f.n <= |buf| && WholeFrame(buf[..f.n])
  {
    if |buf| < 5 then Incomplete
    else if DeclaredLen(buf) > MAX_GRPC_FRAME_SIZE then Oversized
    else if |buf| < 5 + DeclaredLen(buf) then Incomplete
    else
      assert buf[..5 + DeclaredLen(buf)][1..5] == buf[1..5];
      Ready(5 + DeclaredLen(buf))
  }

  datatype Reading = Reading(next: Next, buf: Bytes, pending: seq<RecvEvent>)

  function ReadNext(buf: Bytes, pending: seq<RecvEvent>): (r: Reading)
    ensures |r.pending| <= |pending|
    ensures r.next.Frame? ==> WholeFrame(r.next.frame)
    decreases |pending|
  {
    match Peek(buf)
    case Oversized => Reading(TooLarge, buf, pending)
    case Ready(n) => Reading(Frame(buf[..n]), buf[n..], pending)
    case Incomplete =>
      if pending == [] then Reading(End, buf, [])
      else
        match pending[0]
        case Failed => Reading(RecvError, buf, pending[1..])
        case Chunk(data) => ReadNext(buf + data, pending[1..])
  }

  class GrpcFrameReader {
    var pending: seq<RecvEvent>
    var buf: Bytes

    constructor (recvStream: seq<RecvEvent>)
      ensures pending == recvStream && buf == []
    {
      pending, buf := recvStream, [];
    }

    method NextFrame() returns (next: Next)
      modifies this
      ensures Reading(next, buf, pending) == ReadNext(old(buf), old(pending))
    {
      while true
        invariant ReadNext(buf, pending) == ReadNext(old(buf), old(pending))
        decreases |pending|
      {
        if |buf| >= 5 {
          var outerLen := DeclaredLen(buf);
          if outerLen > MAX_GRPC_FRAME_SIZE {
            return TooLarge;
          }
          if |buf| >= 5 + outerLen {
            var frame := buf[..5 + outerLen];
            buf := buf[5 + outerLen..];
            return Frame(frame);
          }
        }
        if pending == [] {
          return End;
        }
        var event := pending[0];
        pending := pending[1..];
        match event {
          case Failed => return RecvError;
          case Chunk(data) => buf := buf + data;
        }
      }
    }
  }

  // ---------------------------------------------------------------------------------------------
  // Reference: cutting one byte string into frames
  // ---------------------------------------------------------------------------------------------

  datatype Cut = Cut(frames: seq<Bytes>, rest: Bytes)

  function CutAll(bytes: Bytes): (c: Cut)
    decreases |bytes|
  {
    match Peek(bytes)
    case Ready(n) => var c := CutAll(bytes[n..]); Cut([bytes[..n]] + c.frames, c.rest)
    case _ => Cut([], bytes)
  }

  /** The cut loses nothing, yields whole frames only, and leaves no whole frame behind. */
  lemma {:induction false} CutSound(bytes: Bytes)
    ensures var c := CutAll(bytes);
            && Concat(c.frames) + c.rest == bytes
            && (forall f :: f in c.frames ==> WholeFrame(f))
            && !Peek(c.rest).Ready?
    decreases |bytes|
  {
    hide CutAll, Peek, Concat, WholeFrame;
    match Peek(bytes)
    case Ready(n) =>
      CutSound(bytes[n..]);
      var c := CutAll(bytes[n..]);
      CutFirst(bytes, n);
      ConcatFirst(bytes[..n], c.frames, c.rest);
      assert bytes[..n] + bytes[n..] == bytes;
    case _ => CutNone(bytes);
  }

  lemma CutNone(bytes: Bytes)
    requires !Peek(bytes).Ready?
    ensures CutAll(bytes) == Cut([], bytes) && Concat<Byte>([]) + bytes == bytes
  {}

  lemma CutFirst(bytes: Bytes, n: nat)
    requires Peek(bytes) == Ready(n)
    ensures CutAll(bytes) == Cut([bytes[..n]] + CutAll(bytes[n..]).frames, CutAll(bytes[n..]).rest)
    ensures WholeFrame(bytes[..n])
  {}

  lemma ConcatFirst(frame: Bytes, frames: seq<Bytes>, rest: Bytes)
    ensures Concat([frame] + frames) + rest == frame + (Concat(frames) + rest)
  {
    assert ([frame] + frames)[1..] == frames;
  }

  /** What the front of a buffer holds is decided by its first five bytes and its length. */
  lemma PeekExactly(buf: Bytes)
    ensures |buf| < 5 ==> Peek(buf).Incomplete?
    ensures |buf| >= 5 ==>
              var n := Base256(buf[1], buf[2], buf[3], buf[4]);
              && (Peek(buf).Oversized? <==> n > 16_777_216)
              && (Peek(buf).Ready? <==> n <= 16_777_216 && |buf| >= 5 + n)
              && (Peek(buf).Ready? ==> Peek(buf).n == 5 + n)
  {
    if |buf| >= 5 { HeaderValue(buf); }
  }

  lemma HeaderValue(buf: Bytes)
    requires |buf| >= 5
    ensures DeclaredLen(buf) == Base256(buf[1], buf[2], buf[3], buf[4])
  {}

  lemma PeekWhole(frame: Bytes, tail: Bytes)
    requires WholeFrame(frame)
    ensures Peek(frame + tail) == Ready(|frame|)
  {
    assert (frame + tail)[1..5] == frame[1..5];
  }

  /** It is the only such cut. */
  lemma {:induction false} CutUnique(frames: seq<Bytes>, rest: Bytes)
    requires forall f :: f in frames ==> WholeFrame(f)
    requires !Peek(rest).Ready?
    ensures CutAll(Concat(frames) + rest) == Cut(frames, rest)
  {
    if frames == [] {
      assert Concat(frames) + rest == rest;
    } else {
      var tail := Concat(frames[1..]) + rest;
      assert Concat(frames) + rest == frames[0] + tail;
      PeekWhole(frames[0], tail);
      assert (frames[0] + tail)[..|frames[0]|] == frames[0];
      assert (frames[0] + tail)[|frames[0]|..] == tail;
      CutUnique(frames[1..], rest);
    }
  }

  // ---------------------------------------------------------------------------------------------
  // The reader, called until it yields no frame
  // ---------------------------------------------------------------------------------------------

  /** The bytes that arrive before the stream fails or ends. */
  function Arrived(pending: seq<RecvEvent>): (bytes: Bytes) {
    if pending == [] || pending[0].Failed? then [] else pending[0].data + Arrived(pending[1..])
  }

  predicate Fails(pending: seq<RecvEvent>) {
    exists i :: 0 <= i < |pending| && pending[i].Failed?
  }

  datatype Drained = Drained(frames: seq<Bytes>, stop: Next)

  function Drain(buf: Bytes, pending: seq<RecvEvent>): (d: Drained)
    ensures forall f :: f in d.frames ==> WholeFrame(f)
    ensures !d.stop.Frame?
    decreases |buf| + |Arrived(pending)|
  {
    var r := ReadNext(buf, pending);
    if !r.next.Frame? then Drained([], r.next)
    else
      assert |r.buf| + |Arrived(r.pending)| < |buf| + |Arrived(pending)| by { NextAgainstCut(buf, pending); }
      var d := Drain(r.buf, r.pending);
      Drained([r.next.frame] + d.frames, d.stop)
  }

  lemma DrainUnfold(buf: Bytes, pending: seq<RecvEvent>)
    ensures var r := ReadNext(buf, pending);
            if r.next.Frame? then
              var d := Drain(r.buf, r.pending);
              Drain(buf, pending) == Drained([r.next.frame] + d.frames, d.stop)
            else Drain(buf, pending) == Drained([], r.next)
  {
    hide ReadNext, WholeFrame;
  }

  /** The frames a reader yields when it is asked again after it stopped. */
  function Later(buf: Bytes, pending: seq<RecvEvent>): (frames: seq<Bytes>)
    decreases |buf| + |Arrived(pending)|
  {
    var r := ReadNext(buf, pending);
    if !r.next.Frame? then Drain(r.buf, r.pending).frames
    else
      assert |r.buf| + |Arrived(r.pending)| < |buf| + |Arrived(pending)| by { NextAgainstCut(buf, pending); }
      Later(r.buf, r.pending)
  }

  lemma LaterUnfold(buf: Bytes, pending: seq<RecvEvent>)
    ensures var r := ReadNext(buf, pending);
            Later(buf, pending) == if r.next.Frame? then Later(r.buf, r.pending) else Drain(r.buf, r.pending).frames
  {
    hide ReadNext, WholeFrame;
  }

  lemma {:induction false} StoppedForGood(buf: Bytes, pending: seq<RecvEvent>)
    ensures var r := ReadNext(buf, pending); r.next.End? || r.next.TooLarge? ==> ReadNext(r.buf, r.pending) == r
    decreases |pending|
  {
    hide WholeFrame;
    if Peek(buf).Incomplete? && pending != [] && pending[0].Chunk? {
      StoppedForGood(buf + pending[0].data, pending[1..]);
    }
  }

  /** There are none, unless the stream failed. */
  lemma {:induction false} NothingLater(buf: Bytes, pending: seq<RecvEvent>)
    requires !Drain(buf, pending).stop.RecvError?
    ensures Later(buf, pending) == []
    decreases |buf| + |Arrived(pending)|
  {
    hide ReadNext, WholeFrame, Drain, Later;
    var r := ReadNext(buf, pending);
    LaterUnfold(buf, pending);
    DrainUnfold(buf, pending);
    if r.next.Frame? {
      NextAgainstCut(buf, pending);
      NothingLater(r.buf, r.pending);
    } else {
      StoppedForGood(buf, pending);
      DrainUnfold(r.buf, r.pending);
    }
  }

  lemma FailsTail(pending: seq<RecvEvent>)
    requires pending != [] && pending[0].Chunk?
    ensures Fails(pending) <==> Fails(pending[1..])
  {
    if Fails(pending) {
      var i :| 0 <= i < |pending| && pending[i].Failed?;
      assert pending[1..][i - 1].Failed?;
    }
    if Fails(pending[1..]) {
      var i :| 0 <= i < |pending[1..]| && pending[1..][i].Failed?;
      assert pending[i + 1].Failed?;
    }
  }

  lemma PeekGrows(buf: Bytes, more: Bytes)
    ensures !Peek(buf).Incomplete? ==> Peek(buf + more) == Peek(buf)
  {
    if |buf| >= 5 { assert (buf + more)[1..5] == buf[1..5]; }
  }

  /** The outcome of one call, against all the bytes that were buffered or still to come. */
  predicate Agrees(r: Reading, all: Bytes, fails: bool) {
    match r.next
    case Frame(f) =>
      && Peek(all) == Ready(|f|)
      && all == f + (r.buf + Arrived(r.pending))
      && (Fails(r.pending) <==> fails)
    case TooLarge => Peek(all).Oversized?
    case RecvError => Peek(all).Incomplete? && r.buf == all && fails
    case End => Peek(all).Incomplete? && r.buf == all && !fails
  }

  lemma {:induction false} NextAgainstCut(buf: Bytes, pending: seq<RecvEvent>)
    ensures Agrees(ReadNext(buf, pending), buf + Arrived(pending), Fails(pending))
    decreases |pending|
  {
    var all := buf + Arrived(pending);
    var front := Peek(buf);
    if !front.Incomplete? {
      PeekGrows(buf, Arrived(pending));
      if front.Ready? {
        assert all == buf[..front.n] + (buf[front.n..] + Arrived(pending));
      }
    } else if pending == [] || pending[0].Failed? {
      assert all == buf;
    } else {
      var more := buf + pending[0].data;
      NextAgainstCut(more, pending[1..]);
      assert all == more + Arrived(pending[1..]);
      assert Fails(pending) <==> Fails(pending[1..]) by { FailsTail(pending); }
      assert ReadNext(buf, pending) == ReadNext(more, pending[1..]);
    }
  }

  /**
   * Chunking independence: the frames, and whether and where the reader gives up, are those of the
   * concatenated bytes alone, however they were cut into chunks.
   */
  lemma {:induction false} ChunkingIndependence(buf: Bytes, pending: seq<RecvEvent>)
    ensures var c := CutAll(buf + Arrived(pending));
            Drain(buf, pending) ==
            Drained(c.frames,
                    if Peek(c.rest).Oversized? then TooLarge else if Fails(pending) then RecvError else End)
    decreases |buf| + |Arrived(pending)|
  {
    var r := ReadNext(buf, pending);
    NextAgainstCut(buf, pending);
    if r.next.Frame? {
      var all, n := buf + Arrived(pending), |r.next.frame|;
      assert all[..n] == r.next.frame && all[n..] == r.buf + Arrived(r.pending);
      ChunkingIndependence(r.buf, r.pending);
    }
  }

  // ---------------------------------------------------------------------------------------------
  // Conservation at every moment
  // ---------------------------------------------------------------------------------------------

  /** The reader after `calls` calls, stopping at the first that yields no frame. */
  function After(buf: Bytes, pending: seq<RecvEvent>, calls: nat): (r: (seq<Bytes>, Bytes, seq<RecvEvent>))
    decreases calls
  {
    if calls == 0 then ([], buf, pending)
    else
      var r := ReadNext(buf, pending);
      if r.next.Frame? then
        var (frames, b, p) := After(r.buf, r.pending, calls - 1);
        ([r.next.frame] + frames, b, p)
      else ([], r.buf, r.pending)
  }

  /** Each call takes events off the front only, and drops and invents no byte. */
  lemma {:induction false} NextConserves(buf: Bytes, pending: seq<RecvEvent>) returns (taken: nat)
    ensures var r := ReadNext(buf, pending);
            && taken <= |pending| && r.pending == pending[taken..]
            && buf + Arrived(pending[..taken]) == (if r.next.Frame? then r.next.frame else []) + r.buf
            && (r.next.Frame? ==> !Fails(pending[..taken]))
    decreases |pending|
  {
    match Peek(buf)
    case Oversized => taken := 0;
    case Ready(n) => taken := 0; assert buf == buf[..n] + buf[n..];
    case Incomplete =>
      if pending == [] {
        taken := 0;
      } else if pending[0].Failed? {
        taken := 1;
        assert Arrived(pending[..1]) == [];
      } else {
        var rest := pending[1..];
        var t := NextConserves(buf + pending[0].data, rest);
        taken := t + 1;
        assert pending[..taken][1..] == rest[..t];
        FailsTail(pending[..taken]);
        assert buf + Arrived(pending[..taken]) == (buf + pending[0].data) + Arrived(rest[..t]);
      }
  }

  lemma {:induction false} ArrivedAppend(a: seq<RecvEvent>, b: seq<RecvEvent>)
    requires forall i :: 0 <= i < |a| ==> a[i].Chunk?
    ensures Arrived(a + b) == Arrived(a) + Arrived(b)
  {
    if a == [] {
      assert a + b == b;
    } else {
      var (first, tail) := (a[0].data, a[1..]);
      ArrivedAppend(tail, b);
      assert (a + b)[0] == a[0] && (a + b)[1..] == tail + b;
      assert first + (Arrived(tail) + Arrived(b)) == (first + Arrived(tail)) + Arrived(b);
    }
  }

  lemma ArrivedEmpty()
    ensures Arrived([]) == []
  {}

  /** After any number of calls: frames yielded, then bytes buffered, are all the bytes received. */
  lemma {:induction false} Conservation(buf: Bytes, pending: seq<RecvEvent>, calls: nat) returns (taken: nat)
    ensures var (frames, b, p) := After(buf, pending, calls);
            && taken <= |pending| && p == pending[taken..]
            && Concat(frames) + b == buf + Arrived(pending[..taken])
    decreases calls
  {
    hide ReadNext, Arrived;
    if calls == 0 {
      taken := 0;
      assert Arrived([]) == [] by { ArrivedEmpty(); }
      return;
    }
    var t := NextConserves(buf, pending);
    var r := ReadNext(buf, pending);
    if !r.next.Frame? {
      taken := t;
      return;
    }
    var u := Conservation(r.buf, r.pending, calls - 1);
    taken := t + u;
    var (frames, b, p) := After(r.buf, r.pending, calls - 1);
    assert p == pending[taken..];
    assert Arrived(pending[..taken]) == Arrived(pending[..t]) + Arrived(r.pending[..u]) by {
      assert pending[..taken] == pending[..t] + r.pending[..u];
      ArrivedAppend(pending[..t], r.pending[..u]);
    }
    assert Concat([r.next.frame] + frames) == r.next.frame + Concat(frames) by {
      assert ([r.next.frame] + frames)[1..] == frames;
    }
    Regroup(buf, Arrived(pending[..t]), Arrived(r.pending[..u]), r.next.frame, r.buf, Concat(frames), b);
  }

  lemma Regroup(buf: Bytes, early: Bytes, late: Bytes, frame: Bytes, left: Bytes, frames: Bytes, b: Bytes)
    requires buf + early == frame + left
    requires frames + b == left + late
    ensures (frame + frames) + b == buf + (early + late)
  {
    calc {
      (frame + frames) + b;
      frame + (frames + b);
      frame + (left + late);
      (frame + left) + late;
      (buf + early) + late;
    }
  }
}
