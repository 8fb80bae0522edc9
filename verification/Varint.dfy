/** The protobuf base-128 varint codec of src/relay/transport/grpc.rs. */
module Varint {
  import opened Prelude

  type Word = v: int | 0 <= v < U64

  function Pow128(n: nat): (p: nat)
    ensures p >= 1
  {
    if n == 0 then 1 else 0x80 * Pow128(n - 1)
  }

  /** Little-endian positional value of a run of seven-bit groups. */
  function Value(bs: Bytes): (v: nat)
  {
    if bs == [] then 0 else bs[0] % 0x80 + 0x80 * Value(bs[1..])
  }

  /** How many bytes with the continuation bit set `bs` starts with. */
  function Continuations(bs: Bytes): (k: nat)
    ensures k <= |bs|
    ensures forall j :: 0 <= j < k ==> bs[j] >= 0x80
    ensures k < |bs| ==> bs[k] < 0x80
  {
    if bs == [] || bs[0] < 0x80 then 0 else 1 + Continuations(bs[1..])
  }

  function Size(v: nat): (n: nat)
    ensures n >= 1
  {
    if v < 0x80 then 1 else 1 + Size(v / 0x80)
  }

  function Encode(v: nat): (bs: Bytes) {
    if v < 0x80 then [v] else [v % 0x80 + 0x80] + Encode(v / 0x80)
  }

  /**
   * What a reader of varints must answer: the positional value, cut to 64 bits, of the bytes up to
   * and including the first one without continuation bit, provided that this is among the first ten.
   */
  function Decode(bs: Bytes): (r: Option<(Word, nat)>) {
    var k := Continuations(bs);
    if k < |bs| && k < 10 then Some((Value(bs[..k + 1]) % U64, k + 1)) else None
  }

  // ---------------------------------------------------------------------------------------------
  // The source's loops
  // ---------------------------------------------------------------------------------------------

  method VarintSize(v: Word) returns (n: nat)
    ensures n == Size(v)
    ensures 1 <= n <= 10 && v < Pow128(n) && (n > 1 ==> Pow128(n - 1) <= v)
  {
    var w: nat := v;
    n := 1;
    while w >= 0x80
      invariant n >= 1
      invariant n - 1 + Size(w) == Size(v)
    {
      w := w / 0x80;
      n := n + 1;
    }
    SizeBounds(v);
  }

  /** Appends the encoding of `v` to `buf`. */
  method WriteVarint(buf: Bytes, v: Word) returns (out: Bytes)
    ensures out == buf + Encode(v)
  {
    out := buf;
    var w: nat := v;
    while w >= 0x80
      invariant out + Encode(w) == buf + Encode(v)
    {
      out := out + [w % 0x80 + 0x80];
      w := w / 0x80;
    }
    out := out + [w];
  }

  /** Bitwise or of two words with no bit in common: `low` is below `unit`, `high` a multiple of it. */
  function OrDisjoint(low: nat, high: nat, ghost unit: nat, ghost groups: nat): (r: nat)
    requires low < unit && high == groups * unit
  {
    low + high
  }

  method ReadVarint(bytes: Bytes) returns (r: Option<(Word, nat)>)
    ensures r == Decode(bytes)
  {
    var result: nat := 0;
    var i := 0;
    while i < |bytes|
      invariant 0 <= i <= |bytes| && i <= 10
      invariant i <= Continuations(bytes)
      invariant result == Value(bytes[..i]) % U64
    {
      if 7 * i >= 64 {
        return None;
      }
      var b := bytes[i];
      ghost var groups := GroupFits(bytes, i);
      result := OrDisjoint(result, (b % 0x80) * Pow128(i) % U64, Pow128(i), groups);
      i := i + 1;
      if b < 0x80 {
        return Some((result, i));
      }
    }
    return None;
  }

  // ---------------------------------------------------------------------------------------------
  // Proofs
  // ---------------------------------------------------------------------------------------------

  lemma Pow128Values()
    ensures Pow128(9) == 0x8000_0000_0000_0000
    ensures Pow128(10) == 0x80 * Pow128(9)
  {
    assert Pow128(3) == 0x20_0000;
    assert Pow128(6) == 0x20_0000 * 0x20_0000;
    assert Pow128(9) == 0x20_0000 * 0x20_0000 * 0x20_0000;
  }

  /** The example of the protobuf encoding guide: low groups come first. */
  lemma KnownVarint()
    ensures Encode(300) == [0xAC, 0x02] && Decode([0xAC, 0x02]) == Some((300, 2))
  {
    assert Encode(2) == [0x02];
    RoundTrip(300, []);
    assert [0xAC, 0x02] + [] == [0xAC, 0x02];
  }

  lemma {:induction false} Pow128Monotone(m: nat, n: nat)
    requires m <= n
    ensures Pow128(m) <= Pow128(n)
    decreases n
  {
    if m < n { Pow128Monotone(m, n - 1); }
  }

  /** `Size(v)` is the least number of seven-bit groups that hold `v`. */
  lemma {:induction false} SizeBrackets(v: nat)
    ensures v < Pow128(Size(v))
    ensures Size(v) > 1 ==> Pow128(Size(v) - 1) <= v
  {
    if v >= 0x80 { SizeBrackets(v / 0x80); }
  }

  lemma SizeLeast(v: nat, n: nat)
    requires n >= 1 && v < Pow128(n)
    ensures Size(v) <= n
  {
    SizeBrackets(v);
    if Size(v) > n { Pow128Monotone(n, Size(v) - 1); }
  }

  lemma SizeBounds(v: Word)
    ensures 1 <= Size(v) <= 10 && v < Pow128(Size(v)) && (Size(v) > 1 ==> Pow128(Size(v) - 1) <= v)
  {
    SizeBrackets(v);
    Pow128Values();
    SizeLeast(v, 10);
  }

  lemma {:induction false} ValueBelow(bs: Bytes)
    ensures Value(bs) < Pow128(|bs|)
  {
    if bs != [] { ValueBelow(bs[1..]); }
  }

  lemma {:induction false} ValueSnoc(bs: Bytes, b: Byte)
    ensures Value(bs + [b]) == Value(bs) + (b % 0x80) * Pow128(|bs|)
  {
    if bs == [] {
      assert bs + [b] == [b];
    } else {
      assert (bs + [b])[1..] == bs[1..] + [b];
      ValueSnoc(bs[1..], b);
      var q, p := b % 0x80, Pow128(|bs| - 1);
      assert 0x80 * (q * p) == q * (0x80 * p);
    }
  }

  /** The or of one more seven-bit group: no bits overlap, and the sum is the value cut to 64 bits. */
  lemma GroupFits(bytes: Bytes, i: nat) returns (groups: nat)
    requires i < |bytes| && i <= 9
    ensures var p := Pow128(i);
            var acc, high := Value(bytes[..i]) % U64, (bytes[i] % 0x80) * p % U64;
            acc < p && high == groups * p && acc + high == Value(bytes[..i + 1]) % U64
  {
    hide Value, Pow128;
    var p, x, acc := Pow128(i), bytes[i] % 0x80, Value(bytes[..i]);
    assert acc < p && p <= Pow128(9) by {
      ValueBelow(bytes[..i]);
      Pow128Monotone(i, 9);
    }
    assert Value(bytes[..i + 1]) == acc + x * p by {
      assert bytes[..i + 1] == bytes[..i] + [bytes[i]];
      ValueSnoc(bytes[..i], bytes[i]);
    }
    if i == 9 {
      groups := x % 2;
      assert p == 0x8000_0000_0000_0000 by { Pow128Values(); }
      TopGroup(acc, x);
    } else {
      groups := x;
      assert 0x80 * p <= 0x8000_0000_0000_0000 by {
        Pow128Next(i);
        Pow128Monotone(i + 1, 9);
        Pow128Values();
      }
      LowGroup(acc, x, p);
    }
  }

  lemma Pow128Next(n: nat)
    ensures Pow128(n + 1) == 0x80 * Pow128(n)
  {}

  lemma MulMonotone(x: nat, y: nat, p: nat)
    requires x <= y
    ensures 0 <= x * p <= y * p
  {}

  /** Below the tenth group nothing is lost. */
  lemma LowGroup(acc: nat, x: nat, p: nat)
    requires acc < p && x < 0x80 && 0x80 * p <= 0x8000_0000_0000_0000
    ensures acc % U64 == acc && x * p % U64 == x * p && (acc + x * p) % U64 == acc + x * p
  {
    MulMonotone(x, 0x7F, p);
    var q := x * p;
    assert 0 <= q && acc + q < U64;
  }

  /** Of the tenth group only the lowest bit survives the shift by 63. */
  lemma TopGroup(acc: nat, x: nat)
    requires acc < 0x8000_0000_0000_0000 && x < 0x80
    ensures x * 0x8000_0000_0000_0000 % U64 == (x % 2) * 0x8000_0000_0000_0000
    ensures (acc + x * 0x8000_0000_0000_0000) % U64 == acc + (x % 2) * 0x8000_0000_0000_0000
  {}

  lemma {:induction false} EncodeLength(v: nat)
    ensures |Encode(v)| == Size(v)
  {
    if v >= 0x80 { EncodeLength(v / 0x80); }
  }

  lemma {:induction false} EncodeStops(v: nat, tail: Bytes)
    ensures Continuations(Encode(v) + tail) == Size(v) - 1
  {
    if v >= 0x80 {
      EncodeStops(v / 0x80, tail);
      assert (Encode(v) + tail)[1..] == Encode(v / 0x80) + tail;
    }
  }

  lemma {:induction false} EncodeValue(v: nat)
    ensures Value(Encode(v)) == v
  {
    if v < 0x80 {
      assert Encode(v)[1..] == [];
    } else {
      EncodeValue(v / 0x80);
      assert Encode(v)[1..] == Encode(v / 0x80);
    }
  }

  /** Reading back what was written, whatever follows it. */
  lemma RoundTrip(v: Word, tail: Bytes)
    ensures Decode(Encode(v) + tail) == Some((v, Size(v)))
    ensures |Encode(v)| == Size(v) <= 10
  {
    hide Encode, Size, Value, Continuations;
    EncodeLength(v);
    EncodeStops(v, tail);
    EncodeValue(v);
    SizeBounds(v);
    assert (Encode(v) + tail)[..Size(v)] == Encode(v);
  }

  /** No byte string at all that reads as `v` is shorter than the one written for `v`. */
  lemma Shortest(bs: Bytes)
    requires Decode(bs).Some?
    ensures Size(Decode(bs).value.0) <= Decode(bs).value.1 <= |bs|
  {
    var (v, n) := Decode(bs).value;
    ValueBelow(bs[..n]);
    if n < 10 {
      Pow128Monotone(n, 9);
      Pow128Values();
    } else {
      SizeBounds(v);
    }
    if n < 10 { SizeLeast(v, n); }
  }
}
