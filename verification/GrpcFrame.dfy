/** The gun-lite frame codec of src/relay/transport/grpc.rs. */
module GrpcFrame {
  import opened Prelude
  import Varint
  import BufPool

  const MAX_GRPC_FRAME_SIZE := 16 * 1024 * 1024

  const U32: int := 0x1_0000_0000

  /** A byte slice of the source: no allocation exceeds 2^63 - 1 bytes. */
  type Slice = s: Bytes | |s| < 0x8000_0000_0000_0000

  function BigEndian32(n: nat): (bs: Bytes)
    requires n < U32
    ensures |bs| == 4
  {
    var high, low := n / 0x1_0000, n % 0x1_0000;
    [high / 0x100, high % 0x100, low / 0x100, low % 0x100]
  }

  function FromBigEndian32(bs: Bytes): (n: nat)
    requires |bs| == 4
    ensures n < U32
  {
    var (a: int, b: int, c: int, d: int) := (bs[0], bs[1], bs[2], bs[3]);
    a * 0x100_0000 + b * 0x1_0000 + c * 0x100 + d
  }

  /** The length a complete header declares for what follows it. */
  function DeclaredLen(buf: Bytes): (n: nat)
    requires |buf| >= 5
    ensures n < U32
  {
    FromBigEndian32(buf[1..5])
  }

  function OuterLen(data: Bytes): (n: nat) {
    1 + Varint.Size(|data|) + |data|
  }

  /** The wire image of one frame; the length is cast to 32 bits without a check. */
  function Encode(data: Slice): (frame: Bytes) {
    [0] + BigEndian32(OuterLen(data) % U32) + [0x0A] + Varint.Encode(|data|) + data
  }

  method EncodeGrpcFrame(pool: BufPool.Pool, data: Slice) returns (frame: Bytes)
    requires BufPool.Valid(pool.buckets)
    modifies pool
    ensures BufPool.Valid(pool.buckets)
    ensures frame == Encode(data)
  {
    var varSize := Varint.VarintSize(|data|);
    var outerLen := 1 + varSize + |data|;
    var buf := pool.Get(5 + outerLen);
    var out := buf.data + [0];
    out := out + BigEndian32(outerLen % U32);
    out := out + [0x0A];
    out := Varint.WriteVarint(out, |data|);
    frame := out + data;
  }

  /** `Panicked` is the decoding task dying on a slice whose start lies behind its end. */
  datatype Decoded = Payload(data: Bytes) | Malformed | Panicked

  function DecodeGunPayload(payload: Bytes): (r: Decoded) {
    if payload == [] then Payload([])
    else if payload[0] != 0x0A then Malformed
    else
      match Varint.Decode(payload[1..])
      case None => Malformed
      case Some((innerLen, varintLen)) =>
        var start := 1 + varintLen;
        var end := (start + innerLen) % U64;
        if |payload| < end then Malformed
        else if end < start then Panicked
        else Payload(payload[start..end])
  }

  function DecodeFrameData(frame: Bytes): (r: Decoded) {
    if |frame| < 5 then Malformed
    else
      var outerLen := DeclaredLen(frame);
      if outerLen > MAX_GRPC_FRAME_SIZE || |frame| < 5 + outerLen then Malformed
      else DecodeGunPayload(frame[5..5 + outerLen])
  }

  /** Exactly one frame: the header declares what follows it, within the size limit. */
  predicate WholeFrame(frame: Bytes) {
    |frame| >= 5 && DeclaredLen(frame) <= MAX_GRPC_FRAME_SIZE && |frame| == 5 + DeclaredLen(frame)
  }

  // ---------------------------------------------------------------------------------------------
  // Proofs
  // ---------------------------------------------------------------------------------------------

  lemma BigEndianRoundTrip(n: nat)
    requires n < U32
    ensures FromBigEndian32(BigEndian32(n)) == n
  {}

  lemma EncodeShape(data: Slice)
    ensures |Encode(data)| == 5 + OuterLen(data)
    ensures DeclaredLen(Encode(data)) == OuterLen(data) % U32
    ensures Encode(data)[5..] == [0x0A] + Varint.Encode(|data|) + data
  {
    hide Varint.Encode, Varint.Decode, Varint.Size, BigEndian32, FromBigEndian32;
    Varint.RoundTrip(|data|, []);
    BigEndianRoundTrip(OuterLen(data) % U32);
    assert Encode(data)[1..5] == BigEndian32(OuterLen(data) % U32);
  }

  /** The number with these digits in base 256, the highest first. */
  function Base256(a: int, b: int, c: int, d: int): (n: int) {
    ((a * 256 + b) * 256 + c) * 256 + d
  }

  lemma BigEndianDigits(n: nat)
    requires n < U32
    ensures var bs := BigEndian32(n); Base256(bs[0], bs[1], bs[2], bs[3]) == n
  {
    var high, low := n / 0x1_0000, n % 0x1_0000;
    assert (high / 0x100) * 256 + high % 0x100 == high && (low / 0x100) * 256 + low % 0x100 == low;
  }

  /**
   * The wire image: a zero byte, four big-endian digits of what follows the header, cut to 32 bits, the
   * tag of field one, the shortest varint worth the length of the data, and the data.
   */
  lemma WireImage(data: Slice) returns (k: nat)
    ensures var frame := Encode(data);
            var n := (|frame| - 5) % 0x1_0000_0000;
            && |frame| == 6 + k + |data| && 0 < k <= 10
            && frame[0] == 0
            && Base256(frame[1], frame[2], frame[3], frame[4]) == n
            && frame[5] == 0x0A
            && Varint.Decode(frame[6..6 + k]) == Some((|data|, k))
            && frame[6 + k..] == data
    ensures forall bs :: Varint.Decode(bs) == Some((|data|, |bs|)) ==> k <= |bs|
  {
    var vb := Varint.Encode(|data|);
    k := |vb|;
    var frame := Encode(data);
    EncodeShape(data);
    Varint.RoundTrip(|data|, []);
    assert vb + [] == vb;
    BigEndianDigits(OuterLen(data) % U32);
    hide Varint.Encode, Varint.Decode, Varint.Size, FromBigEndian32, BigEndian32, Base256;
    assert frame[5..][1..1 + k] == vb && frame[5..][1 + k..] == data;
    assert frame[6..6 + k] == frame[5..][1..1 + k] && frame[6 + k..] == frame[5..][1 + k..];
    forall bs | Varint.Decode(bs) == Some((|data|, |bs|)) ensures k <= |bs| {
      Varint.Shortest(bs);
    }
  }

  /** Of a whole frame, the decoder reads exactly what follows the header; a cut one it refuses. */
  lemma FrameDecoded(frame: Bytes, n: nat)
    requires WholeFrame(frame) && n < |frame|
    ensures DecodeFrameData(frame) == DecodeGunPayload(frame[5..])
    ensures DecodeFrameData(frame[..n]) == Malformed
  {
    hide DecodeGunPayload, FromBigEndian32;
    assert frame[5..|frame|] == frame[5..];
    if n >= 5 { assert frame[..n][1..5] == frame[1..5]; }
  }

  /** A varint that ends inside `vb` is read the same whatever follows. */
  lemma {:induction false} ContinuationsAppend(vb: Bytes, tail: Bytes)
    requires Varint.Continuations(vb) < |vb|
    ensures Varint.Continuations(vb + tail) == Varint.Continuations(vb)
  {
    if vb[0] >= 0x80 {
      assert (vb + tail)[1..] == vb[1..] + tail;
      ContinuationsAppend(vb[1..], tail);
    }
  }

  lemma VarintPrefix(vb: Bytes, tail: Bytes)
    requires Varint.Decode(vb).Some?
    ensures Varint.Decode(vb + tail) == Varint.Decode(vb)
  {
    ContinuationsAppend(vb, tail);
    var n := Varint.Decode(vb).value.1;
    assert (vb + tail)[..n] == vb[..n];
  }

  /** Everything the decoder accepts as `d`: a tag, any varint worth `|d|`, `d`, and ignored bytes. */
  lemma GrammarAccepted(vb: Bytes, d: Bytes, junk: Bytes)
    requires |vb| + |d| < 0x8000_0000_0000_0000
    requires Varint.Decode(vb) == Some((|d|, |vb|))
    ensures DecodeGunPayload([0x0A] + vb + d + junk) == Payload(d)
  {
    hide Varint.Decode, DecodeGunPayload;
    var payload := [0x0A] + vb + d + junk;
    assert payload[1..] == vb + (d + junk);
    VarintPrefix(vb, d + junk);
    PayloadAt(payload, |d|, |vb|);
    assert payload[1 + |vb|..1 + |vb| + |d|] == d;
  }

  lemma PayloadAt(payload: Bytes, innerLen: Varint.Word, varintLen: nat)
    requires payload != [] && payload[0] == 0x0A
    requires Varint.Decode(payload[1..]) == Some((innerLen, varintLen))
    requires 1 + varintLen + innerLen < U64 && 1 + varintLen + innerLen <= |payload|
    ensures DecodeGunPayload(payload) == Payload(payload[1 + varintLen..1 + varintLen + innerLen])
  {
    hide Varint.Decode;
  }

  /** And nothing else: an accepted payload is empty or has that form. */
  lemma GrammarOnly(payload: Bytes) returns (vb: Bytes, junk: Bytes)
    requires payload != [] && DecodeGunPayload(payload).Payload?
    ensures Varint.Decode(vb) == Some((|DecodeGunPayload(payload).data|, |vb|))
    ensures payload == [0x0A] + vb + DecodeGunPayload(payload).data + junk
  {
    hide Varint.Decode;
    var rest := payload[1..];
    var (innerLen, n) := Varint.Decode(rest).value;
    VarintAlone(rest);
    EndFits(1 + n, innerLen);
    vb, junk := rest[..n], rest[n + innerLen..];
    assert DecodeGunPayload(payload).data == rest[n..n + innerLen];
    assert payload == [0x0A] + rest && rest == vb + rest[n..n + innerLen] + junk;
  }

  /** An end that is cut to 64 bits lies before the start. */
  lemma EndFits(start: nat, innerLen: nat)
    requires innerLen < U64 && start <= (start + innerLen) % U64
    ensures start + innerLen < U64
  {}

  /** A varint is read the same from its own bytes alone. */
  lemma VarintAlone(bs: Bytes)
    requires Varint.Decode(bs).Some?
    ensures var (v, n) := Varint.Decode(bs).value;
            0 < n <= |bs| && Varint.Decode(bs[..n]) == Some((v, n))
  {
    hide Varint.Value;
    var k := Varint.Continuations(bs);
    ContinuationsTake(bs, k + 1);
    assert bs[..k + 1][..k + 1] == bs[..k + 1];
  }

  /** The decoder answers `d` exactly on the payloads of that form, and on the empty payload if `d` is empty. */
  lemma DecodeExactly(payload: Slice, d: Bytes)
    ensures DecodeGunPayload(payload) == Payload(d) <==>
            || (payload == [] && d == [])
            || exists vb: Bytes, junk: Bytes ::
                 Varint.Decode(vb) == Some((|d|, |vb|)) && payload == [0x0A] + vb + d + junk
  {
    hide Varint.Decode;
    if payload != [] && DecodeGunPayload(payload) == Payload(d) {
      var vb, junk := GrammarOnly(payload);
    }
    if vb: Bytes, junk: Bytes :| Varint.Decode(vb) == Some((|d|, |vb|)) && payload == [0x0A] + vb + d + junk {
      GrammarAccepted(vb, d, junk);
    }
  }

  lemma {:induction false} ContinuationsTake(bs: Bytes, n: nat)
    requires n <= |bs|
    ensures Varint.Continuations(bs[..n]) == Min(n, Varint.Continuations(bs))
  {
    if n > 0 && bs[0] >= 0x80 {
      assert bs[..n][1..] == bs[1..][..n - 1];
      ContinuationsTake(bs[1..], n - 1);
    }
  }

  /** The decoder dies on exactly the payloads whose declared end does not fit a machine word. */
  lemma PanicExactly(payload: Slice)
    ensures DecodeGunPayload(payload).Panicked? <==>
            && payload != [] && payload[0] == 0x0A
            && Varint.Decode(payload[1..]).Some?
            && var (innerLen, n) := Varint.Decode(payload[1..]).value; 1 + n + innerLen >= U64
  {}

  /** Such a payload exists: tag, then a varint worth 2^64 - 1. */
  lemma PanicHappens() returns (payload: Bytes)
    ensures DecodeGunPayload(payload).Panicked?
    ensures |payload| <= 11
  {
    var v := U64 - 1;
    payload := [0x0A] + Varint.Encode(v);
    Varint.RoundTrip(v, []);
    assert payload[1..] == Varint.Encode(v) + [];
    Varint.SizeBounds(v);
    Varint.Pow128Values();
  }

  lemma TruncatedVarint(v: Varint.Word, n: nat)
    requires n < |Varint.Encode(v)|
    ensures Varint.Decode(Varint.Encode(v)[..n]) == None
  {
    Varint.EncodeLength(v);
    Varint.EncodeStops(v, []);
    assert Varint.Encode(v) + [] == Varint.Encode(v);
    ContinuationsTake(Varint.Encode(v), n);
  }

  /**
   * Decoding an encoded frame gives the data back exactly when the outer length is within 16 MiB,
   * for data of every length, including those whose outer length is cut by the 32-bit cast.
   */
  lemma RoundTripExactly(data: Slice)
    ensures DecodeFrameData(Encode(data)) == Payload(data) <==> OuterLen(data) <= MAX_GRPC_FRAME_SIZE
    ensures !DecodeFrameData(Encode(data)).Panicked?
    ensures OuterLen(data) <= MAX_GRPC_FRAME_SIZE <==> WholeFrame(Encode(data))
  {
    hide DecodeGunPayload, Encode, FromBigEndian32;
    EncodeShape(data);
    if OuterLen(data) <= MAX_GRPC_FRAME_SIZE {
      WholePayloadAccepted(data);
      assert Encode(data)[5..5 + OuterLen(data)] == Encode(data)[5..];
    } else {
      CutFrameRejected(data);
    }
  }

  lemma WholePayloadAccepted(data: Slice)
    requires OuterLen(data) <= MAX_GRPC_FRAME_SIZE
    ensures DecodeGunPayload([0x0A] + Varint.Encode(|data|) + data) == Payload(data)
  {
    var vb := Varint.Encode(|data|);
    Varint.RoundTrip(|data|, []);
    assert vb + [] == vb;
    GrammarAccepted(vb, data, []);
    assert [0x0A] + vb + data + [] == [0x0A] + vb + data;
  }

  lemma CutFrameRejected(data: Slice)
    requires OuterLen(data) > MAX_GRPC_FRAME_SIZE
    ensures DecodeFrameData(Encode(data)) != Payload(data)
    ensures !DecodeFrameData(Encode(data)).Panicked?
  {
    EncodeShape(data);
    var n := OuterLen(data) % U32;
    if n <= MAX_GRPC_FRAME_SIZE {
      var whole := [0x0A] + Varint.Encode(|data|) + data;
      assert Encode(data)[5..5 + n] == whole[..n] by { assert Encode(data)[5..] == whole; }
      if n > 0 { CutPayloadRejected(data, n); }
    }
  }

  lemma CutPayloadRejected(data: Slice, n: nat)
    requires 1 <= n < OuterLen(data)
    requires |[0x0A] + Varint.Encode(|data|) + data| == OuterLen(data)
    ensures DecodeGunPayload(([0x0A] + Varint.Encode(|data|) + data)[..n]) == Malformed
  {
    hide DecodeGunPayload, OuterLen, Varint.Encode, Varint.Decode, Varint.Size;
    var vb := Varint.Encode(|data|);
    var payload := ([0x0A] + vb + data)[..n];
    if n - 1 < |vb| {
      assert payload[1..] == vb[..n - 1];
      TruncatedVarint(|data|, n - 1);
      NoVarint(payload);
    } else {
      var tail := data[..n - 1 - |vb|];
      assert payload[1..] == vb + tail;
      Varint.RoundTrip(|data|, tail);
      ShortPayload(payload, |data|, |vb|);
    }
  }

  lemma NoVarint(payload: Bytes)
    requires payload != [] && payload[0] == 0x0A && Varint.Decode(payload[1..]) == None
    ensures DecodeGunPayload(payload) == Malformed
  {}

  lemma ShortPayload(payload: Bytes, innerLen: Varint.Word, varintLen: nat)
    requires payload != [] && payload[0] == 0x0A
    requires Varint.Decode(payload[1..]) == Some((innerLen, varintLen))
    requires |payload| < 1 + varintLen + innerLen < U64
    ensures DecodeGunPayload(payload) == Malformed
  {}
}
