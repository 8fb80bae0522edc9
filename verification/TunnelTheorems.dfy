/** What the tunnel guarantees, for every schedule of reads, grants and DATA boundaries. */
module TunnelTheorems {
  import opened Prelude
  import opened GrpcFrame
  import opened FrameReader
  import opened Tunnel
  import Varint

  // ---------------------------------------------------------------------------------------------
  // Sending
  // ---------------------------------------------------------------------------------------------

  /** The usable grants, in order, before the stream is refused. */
  function Granted(grants: seq<Grant>): (caps: seq<nat>) {
    if grants == [] || grants[0].Refused? then []
    else if grants[0].n == 0 then Granted(grants[1..])
    else [grants[0].n] + Granted(grants[1..])
  }

  /** No END_STREAM flag before the last frame, and there only if the whole of it was asked for. */
  predicate FlagsOnlyAtEnd(sent: seq<DataFrame>, allowed: bool) {
    forall i :: 0 <= i < |sent| && sent[i].endOfStream ==> allowed && i == |sent| - 1
  }

  lemma {:induction false} SendWire(grants: seq<Grant>, data: Bytes, endOfStream: bool)
    ensures var s := Send(grants, data, endOfStream);
            && Wire(s.sent) <= data
            && (s.result.Sent? ==> Wire(s.sent) == data)
            && (!s.result.Sent? && data != [] ==> Wire(s.sent) < data)
    decreases |grants|
  {
    if grants != [] && grants[0].Capacity? && data != [] {
      var n := Min(grants[0].n, |data|);
      if n == 0 {
        SendWire(grants[1..], data, endOfStream);
      } else if n < |data| {
        SendWire(grants[1..], data[n..], endOfStream);
        var t := Send(grants[1..], data[n..], endOfStream);
        assert ([DataFrame(data[..n], false)] + t.sent)[1..] == t.sent;
        assert data == data[..n] + data[n..];
      } else {
        assert [DataFrame(data, endOfStream)][1..] == [];
      }
    }
  }

  lemma {:induction false} SendFlags(grants: seq<Grant>, data: Bytes, endOfStream: bool)
    ensures var s := Send(grants, data, endOfStream);
            && (s.result.Sent? ==> s.sent != [] && s.sent[|s.sent| - 1].endOfStream == endOfStream)
            && FlagsOnlyAtEnd(s.sent, endOfStream && s.result.Sent?)
    decreases |grants|
  {
    if grants != [] && grants[0].Capacity? && data != [] {
      SendFlags(grants[1..], data[Min(grants[0].n, |data|)..], endOfStream);
    }
  }

  /** What goes out is a prefix of the data, all of it exactly on success, flagged at the end only. */
  lemma SendIsPrefix(grants: seq<Grant>, data: Bytes, endOfStream: bool)
    ensures var s := Send(grants, data, endOfStream);
            && Wire(s.sent) <= data
            && (s.result.Sent? ==> Wire(s.sent) == data)
            && (s.result.Sent? ==> s.sent != [] && s.sent[|s.sent| - 1].endOfStream == endOfStream)
            && (!s.result.Sent? && data != [] ==> Wire(s.sent) < data)
            && FlagsOnlyAtEnd(s.sent, endOfStream && s.result.Sent?)
  {
    hide Send, Wire, FlagsOnlyAtEnd;
    SendWire(grants, data, endOfStream);
    SendFlags(grants, data, endOfStream);
  }

  /** Flow control: each DATA frame is non-empty and fits the grant it was sent under. */
  lemma {:induction false} SendRespectsGrants(grants: seq<Grant>, data: Bytes, endOfStream: bool)
    requires data != []
    ensures var s := Send(grants, data, endOfStream);
            && |s.sent| <= |Granted(grants)|
            && forall i :: 0 <= i < |s.sent| ==> 0 < |s.sent[i].data| <= Granted(grants)[i]
    decreases |grants|
  {
    if grants != [] && grants[0].Capacity? {
      var n := Min(grants[0].n, |data|);
      if n == 0 {
        SendRespectsGrants(grants[1..], data, endOfStream);
      } else if n < |data| {
        SendRespectsGrants(grants[1..], data[n..], endOfStream);
      }
    }
  }

  function Sum(caps: seq<nat>): (n: nat) {
    if caps == [] then 0 else caps[0] + Sum(caps[1..])
  }

  /** Data goes out whole exactly when the grants before any refusal add up to its length. */
  lemma {:induction false} SendSucceedsExactly(grants: seq<Grant>, data: Bytes, endOfStream: bool)
    requires data != []
    ensures Send(grants, data, endOfStream).result.Sent? <==> Sum(Granted(grants)) >= |data|
    decreases |grants|
  {
    if grants != [] && grants[0].Capacity? {
      var n := Min(grants[0].n, |data|);
      if n == 0 {
        SendSucceedsExactly(grants[1..], data, endOfStream);
      } else {
        assert Granted(grants)[1..] == Granted(grants[1..]);
        if n < |data| { SendSucceedsExactly(grants[1..], data[n..], endOfStream); }
      }
    }
  }

  function Total(grants: seq<Grant>): (n: nat) {
    Sum(Granted(grants))
  }

  lemma TotalCons(g: Grant, rest: seq<Grant>)
    ensures Total([g] + rest) == if g.Refused? then 0 else g.n + Total(rest)
  {
    var all := [g] + rest;
    assert all[1..] == rest;
    if g.Capacity? && g.n > 0 { assert Granted(all)[1..] == Granted(rest); }
  }

  /**
   * Sending takes no more grants than it needs: up to the one that completes the data, up to a refusal,
   * or all of them, and the rest is left for the next frame.
   */
  lemma {:induction false} SendTakesGrants(grants: seq<Grant>, data: Bytes, endOfStream: bool) returns (k: nat)
    requires data != []
    ensures var s := Send(grants, data, endOfStream);
            && k <= |grants| && s.grants == grants[k..]
            && (s.result.Sent? ==> k > 0 && Total(grants[..k - 1]) < |data| <= Total(grants[..k]))
            && (s.result.SendFailed? ==> k > 0 && grants[k - 1].Refused? && Total(grants[..k]) < |data|)
            && (s.result.Waiting? ==> k == |grants| && Total(grants) < |data|)
    decreases |grants|
  {
    hide Total;
    SendUnfold(grants, data, endOfStream);
    if grants == [] {
      k := 0;
      TotalNothing();
    } else {
      var g, tail := grants[0], grants[1..];
      TotalCons(g, []);
      TotalNothing();
      if g.Refused? || |data| <= g.n {
        k := 1;
        assert grants[..0] == [] && grants[..1] == [g] + [];
      } else {
        var m := SendTakesGrants(tail, data[g.n..], endOfStream);
        k := m + 1;
        assert grants == [g] + tail && grants[..k] == [g] + tail[..m];
        TotalCons(g, tail);
        TotalCons(g, tail[..m]);
        assert data[0..] == data;
        if m > 0 {
          assert grants[..k - 1] == [g] + tail[..m - 1];
          TotalCons(g, tail[..m - 1]);
        }
      }
    }
  }

  lemma TotalNothing()
    ensures Total([]) == 0
  {}

  lemma {:induction false} WireAppend(a: seq<DataFrame>, b: seq<DataFrame>)
    ensures Wire(a + b) == Wire(a) + Wire(b)
  {
    if a == [] {
      assert a + b == b;
    } else {
      assert (a + b)[1..] == a[1..] + b;
      WireAppend(a[1..], b);
    }
  }

  lemma {:induction false} SendAllIsPrefix(grants: seq<Grant>, frames: seq<Bytes>)
    ensures var s := SendAll(grants, frames);
            && Wire(s.sent) <= Concat(frames)
            && (s.result.Sent? ==> Wire(s.sent) == Concat(frames))
            && FlagsOnlyAtEnd(s.sent, false)
    decreases |frames|
  {
    hide Send;
    if frames != [] {
      SendIsPrefix(grants, frames[0], false);
      var s := Send(grants, frames[0], false);
      if s.result.Sent? {
        SendAllIsPrefix(s.grants, frames[1..]);
        WireAppend(s.sent, SendAll(s.grants, frames[1..]).sent);
      }
    }
  }

  /**
   * A transfer puts a prefix of the frames on the wire. It reports success, and shows the far side
   * an END_STREAM flag, only after all of them went out and the source had ended cleanly.
   */
  lemma TransferIsPrefix(grants: seq<Grant>, frames: seq<Bytes>, clean: bool)
    ensures var s := Transfer(grants, frames, clean);
            && Wire(s.sent) <= Concat(frames)
            && (s.result.Sent? ==> clean && Wire(s.sent) == Concat(frames))
            && FlagsOnlyAtEnd(s.sent, clean && Wire(s.sent) == Concat(frames))
  {
    hide Send, SendAll;
    SendAllIsPrefix(grants, frames);
    var s := SendAll(grants, frames);
    if s.result.Sent? && clean {
      var end := Send(s.grants, [], true);
      SendIsPrefix(s.grants, [], true);
      WireAppend(s.sent, end.sent);
      assert Wire(end.sent) == [];
      OneEmptyFrame(s.grants);
    }
  }

  lemma {:induction false} SendAllSucceeds(grants: seq<Grant>, frames: seq<Bytes>)
    requires forall i :: 0 <= i < |frames| ==> frames[i] != []
    ensures var s := SendAll(grants, frames);
            && (s.result.Sent? <==> Wire(s.sent) == Concat(frames))
            && (forall g :: g in s.grants ==> g in grants)
    decreases |frames|
  {
    hide Send;
    SendAllIsPrefix(grants, frames);
    if frames != [] {
      SendIsPrefix(grants, frames[0], false);
      var k := SendTakesGrants(grants, frames[0], false);
      var s := Send(grants, frames[0], false);
      if s.result.Sent? {
        SendAllSucceeds(s.grants, frames[1..]);
        var t := SendAll(s.grants, frames[1..]);
        WireAppend(s.sent, t.sent);
        if Wire(s.sent + t.sent) == Concat(frames) {
          assert Wire(t.sent) == (Wire(s.sent) + Wire(t.sent))[|frames[0]|..];
        }
      }
    }
  }

  /**
   * And exactly then: of frames that are not empty, all go out and the source ends cleanly exactly if
   * success is reported, and then END_STREAM goes out too unless the stream refuses something.
   */
  lemma TransferSucceedsExactly(grants: seq<Grant>, frames: seq<Bytes>, clean: bool)
    requires forall i :: 0 <= i < |frames| ==> frames[i] != []
    ensures var s := Transfer(grants, frames, clean);
            && (s.result.Sent? <==> clean && Wire(s.sent) == Concat(frames))
            && (s.result.Sent? && Refused !in grants ==> Flagged(s.sent))
            && (!clean && Wire(s.sent) == Concat(frames) ==> s.result.SendFailed?)
  {
    SendAllSucceeds(grants, frames);
    TransferIsPrefix(grants, frames, clean);
    hide SendAll;
    var s := SendAll(grants, frames);
    if s.result.Sent? && clean && Refused !in grants {
      assert s.grants != [] ==> s.grants[0] in s.grants;
      assert Send(s.grants, [], true).sent == [DataFrame([], true)];
      var all := Transfer(grants, frames, clean).sent;
      assert all[|all| - 1].endOfStream;
    }
  }

  lemma OneEmptyFrame(grants: seq<Grant>)
    ensures |Send(grants, [], true).sent| <= 1
  {}

  // ---------------------------------------------------------------------------------------------
  // Receiving what was sent
  // ---------------------------------------------------------------------------------------------

  /** A chunk under the read limit makes a frame far below the size limit. */
  lemma ChunkFits(chunk: ReadChunk)
    ensures WholeFrame(Encode(chunk))
    ensures DecodeFrameData(Encode(chunk)) == Payload(chunk)
  {
    hide DecodeFrameData, Encode, WholeFrame;
    RoundTripExactly(chunk);
    assert |chunk| < Varint.Pow128(3) by { assert Varint.Pow128(3) == 0x20_0000; }
    Varint.SizeLeast(|chunk|, 3);
  }

  lemma {:induction false} WriteOutEncoded(chunks: seq<ReadChunk>)
    ensures WriteOut(EncodeEach(chunks)) == Written(Concat(chunks), false)
  {
    hide DecodeFrameData, Encode;
    if chunks != [] {
      ChunkFits(chunks[0]);
      EncodeEachTail(chunks);
      var rest := EncodeEach(chunks[1..]);
      assert ([Encode(chunks[0])] + rest)[1..] == rest;
      WriteOutEncoded(chunks[1..]);
    }
  }

  /** A proper prefix of a whole frame is neither a frame nor oversized. */
  lemma PrefixIncomplete(frame: Bytes, part: Bytes)
    requires WholeFrame(frame) && part < frame
    ensures Peek(part).Incomplete?
  {
    if |part| >= 5 { assert part[1..5] == frame[1..5]; }
  }

  /** Any prefix of encoded frames is some number of whole ones and part of the next. */
  lemma {:induction false} PrefixOfFrames(frames: seq<Bytes>, bytes: Bytes) returns (j: nat, part: Bytes)
    requires forall f :: f in frames ==> WholeFrame(f)
    requires bytes <= Concat(frames)
    ensures j <= |frames| && bytes == Concat(frames[..j]) + part
    ensures Peek(part).Incomplete?
    ensures bytes == Concat(frames) ==> j == |frames| && part == []
  {
    hide WholeFrame, Peek;
    if frames == [] {
      j, part := 0, [];
      assert Peek([]).Incomplete? by { PeekEmpty(); }
    } else if |bytes| < |frames[0]| {
      j, part := 0, bytes;
      assert bytes == frames[0][..|bytes|];
      PrefixIncomplete(frames[0], bytes);
      assert Concat(frames[..0]) + part == part;
    } else {
      var n := |frames[0]|;
      assert bytes[..n] == frames[0];
      assert Concat(frames)[n..] == Concat(frames[1..]);
      assert bytes[n..] <= Concat(frames[1..]);
      var k;
      k, part := PrefixOfFrames(frames[1..], bytes[n..]);
      j := k + 1;
      assert frames[..j] == [frames[0]] + frames[1..][..k];
      assert ([frames[0]] + frames[1..][..k])[1..] == frames[1..][..k];
      assert bytes == frames[0] + (Concat(frames[1..][..k]) + part);
    }
  }

  lemma PeekEmpty()
    ensures Peek([]).Incomplete?
  {}

  /** The reader at the far end of any prefix of encoded frames, in any chunks, sees whole frames. */
  lemma DrainPrefix(frames: seq<Bytes>, events: seq<RecvEvent>) returns (j: nat)
    requires forall f :: f in frames ==> WholeFrame(f)
    requires Arrived(events) <= Concat(frames)
    ensures j <= |frames|
    ensures Drain([], events) == Drained(frames[..j], if Fails(events) then RecvError else End)
    ensures Arrived(events) == Concat(frames) ==> j == |frames|
  {
    hide WholeFrame, Peek, Drain, CutAll;
    var part;
    j, part := PrefixOfFrames(frames, Arrived(events));
    CutUnique(frames[..j], part);
    ChunkingIndependence([], events);
    assert [] + Arrived(events) == Arrived(events);
  }

  /** The bytes delivered for a prefix of an encoded stream, and for the whole of it. */
  lemma DeliverPrefix(chunks: seq<ReadChunk>, events: seq<RecvEvent>)
    requires Arrived(events) <= Concat(EncodeEach(chunks))
    ensures var d := Drain([], events);
            var w := WriteOut(d.frames);
            && !w.panicked && w.data <= Concat(chunks)
            && d.stop == (if Fails(events) then RecvError else End)
            && (Arrived(events) == Concat(EncodeEach(chunks)) ==> w.data == Concat(chunks))
  {
    hide Drain, WriteOut, Encode, WholeFrame, EncodeEach;
    var frames := EncodeEach(chunks);
    forall f | f in frames ensures WholeFrame(f) {
      var i :| 0 <= i < |frames| && frames[i] == f;
      ChunkFits(chunks[i]);
    }
    var j := DrainPrefix(frames, events);
    assert frames[..j] == EncodeEach(chunks[..j]);
    WriteOutEncoded(chunks[..j]);
    assert chunks == chunks[..j] + chunks[j..];
    ConcatAppend(chunks[..j], chunks[j..]);
  }

  // ---------------------------------------------------------------------------------------------
  // End to end
  // ---------------------------------------------------------------------------------------------

  predicate Flagged(sent: seq<DataFrame>) {
    exists i :: 0 <= i < |sent| && sent[i].endOfStream
  }

  /**
   * Tunnel transparency. Whatever the sizes of the reads, the grants and the far side's DATA
   * boundaries: at every moment the far side has written a prefix of the bytes read, without ever
   * failing on a frame; and once it holds everything up to an END_STREAM flag, or everything sent
   * by a transfer that reported success, it has written exactly the bytes read.
   */
  lemma TunnelTransparent(grants: seq<Grant>, input: seq<ReadEvent>, events: seq<RecvEvent>)
    requires Arrived(events) <= Wire(RawToGrpcSpec(grants, input).sent)
    ensures var s := RawToGrpcSpec(grants, input);
            var d := Drain([], events);
            var w := WriteOut(d.frames);
            && !w.panicked && w.data <= Concat(Chunks(input))
            && d.stop == (if Fails(events) then RecvError else End)
            && ((s.result.Sent? || Flagged(s.sent)) && Arrived(events) == Wire(s.sent) ==>
                  CleanEnd(input) && w.data == Concat(Chunks(input)))
  {
    hide Drain, WriteOut, Chunks, CleanEnd, EncodeEach, Transfer;
    var chunks := Chunks(input);
    TransferIsPrefix(grants, EncodeEach(chunks), CleanEnd(input));
    DeliverPrefix(chunks, events);
  }

  /**
   * Forwarding verbatim: whatever chunks the frames arrived in and leave in, the far side reads a
   * prefix of the very same frames, and all of them once everything has been sent and has arrived.
   */
  lemma ForwardingTransparent(grants: seq<Grant>, frames: seq<Bytes>, clean: bool, events: seq<RecvEvent>)
    requires forall f :: f in frames ==> WholeFrame(f)
    requires Arrived(events) <= Wire(Transfer(grants, frames, clean).sent)
    ensures Drain([], events).frames <= frames
    ensures Arrived(events) == Concat(frames) ==> Drain([], events).frames == frames
    ensures var s := Transfer(grants, frames, clean);
            (s.result.Sent? || Flagged(s.sent)) && Arrived(events) == Wire(s.sent) ==>
              clean && Drain([], events).frames == frames
  {
    hide Drain, WholeFrame, Transfer;
    TransferIsPrefix(grants, frames, clean);
    var j := DrainPrefix(frames, events);
  }
}
