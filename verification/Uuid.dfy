/** Reading a UUID from text (src/vmess/auth.rs). */
module Uuid {
  import opened Prelude

  predicate IsHexDigit(c: char) {
    '0' <= c <= '9' || 'a' <= c <= 'f' || 'A' <= c <= 'F'
  }

  function HexValue(c: char): (v: Byte)
    requires IsHexDigit(c)
    ensures v < 16
  {
    if c <= '9' then c as int - '0' as int
    else if c <= 'F' then c as int - 'A' as int + 10
    else c as int - 'a' as int + 10
  }

  /** The values of the hexadecimal digits of a text; everything else is skipped. */
  function Digits(text: string): (ds: seq<Byte>)
    ensures forall i :: 0 <= i < |ds| ==> ds[i] < 16
  {
    if text == "" then []
    else if IsHexDigit(text[0]) then [HexValue(text[0])] + Digits(text[1..])
    else Digits(text[1..])
  }

  function Pairs(ds: seq<Byte>): (bytes: Bytes)
    requires |ds| % 2 == 0 && forall i :: 0 <= i < |ds| ==> ds[i] < 16
    ensures |bytes| == |ds| / 2
  {
    if ds == [] then [] else [16 * ds[0] + ds[1]] + Pairs(ds[2..])
  }

  /** The sixteen bytes that the text spells, if it has 32 hexadecimal digits. */
  function UuidOf(text: string): (r: Option<Bytes>)
    ensures r.Some? ==> |r.value| == 16
  {
    var ds := Digits(text);
    if |ds| == 32 then Some(Pairs(ds)) else None
  }

  method ParseUuid(uuid: string) returns (r: Option<Bytes>)
    ensures r == UuidOf(uuid)
  {
    hide Digits, HexValue, IsHexDigit;
    var hex := CollectDigits(uuid);
    if |hex| != 32 {
      return None;
    }
    var bytes := new Byte[16](i => 0);
    ghost var ds := Digits(uuid);
    var i := 0;
    while i < 16
      invariant 0 <= i <= 16
      invariant forall k :: 0 <= k < i ==> bytes[k] == 16 * ds[2 * k] + ds[2 * k + 1]
    {
      bytes[i] := 16 * HexValue(hex[2 * i]) + HexValue(hex[2 * i + 1]);
      i := i + 1;
    }
    assert bytes[..] == Pairs(ds) by {
      forall k | 0 <= k < 16 ensures bytes[k] == Pairs(ds)[k] { PairsAt(ds, k); }
    }
    return Some(bytes[..]);
  }

  lemma {:induction false} PairsAt(ds: seq<Byte>, k: nat)
    requires |ds| % 2 == 0 && 2 * k < |ds| && forall i :: 0 <= i < |ds| ==> ds[i] < 16
    ensures Pairs(ds)[k] == 16 * ds[2 * k] + ds[2 * k + 1]
  {
    if k > 0 { PairsAt(ds[2..], k - 1); }
  }

  /** The filter that keeps the hexadecimal digits. */
  method CollectDigits(uuid: string) returns (hex: string)
    ensures |hex| == |Digits(uuid)|
    ensures forall i :: 0 <= i < |hex| ==> IsHexDigit(hex[i]) && HexValue(hex[i]) == Digits(uuid)[i]
  {
    hide IsHexDigit, HexValue, Digits;
    hex := "";
    ghost var ds: seq<Byte> := [];
    var i := 0;
    DigitsEnd();
    while i < |uuid|
      invariant 0 <= i <= |uuid| && |hex| == |ds|
      invariant forall k :: 0 <= k < |hex| ==> IsHexDigit(hex[k]) && HexValue(hex[k]) == ds[k]
      invariant ds + Digits(uuid[i..]) == Digits(uuid)
    {
      DigitsNext(uuid[i..], ds);
      assert uuid[i..][1..] == uuid[i + 1..];
      if IsHexDigit(uuid[i]) {
        hex, ds := hex + [uuid[i]], ds + [HexValue(uuid[i])];
      }
      i := i + 1;
    }
    assert uuid[i..] == "";
  }

  lemma DigitsEnd()
    ensures Digits("") == [] && forall s: seq<Byte> :: s + Digits("") == s
  {}

  lemma DigitsNext(text: string, seen: seq<Byte>)
    requires text != ""
    ensures seen + Digits(text) ==
            if IsHexDigit(text[0]) then (seen + [HexValue(text[0])]) + Digits(text[1..]) else seen + Digits(text[1..])
  {
    hide IsHexDigit, HexValue;
  }

  lemma {:induction false} PairsInjective(a: seq<Byte>, b: seq<Byte>)
    requires |a| == |b| && |a| % 2 == 0
    requires forall i :: 0 <= i < |a| ==> a[i] < 16 && b[i] < 16
    requires Pairs(a) == Pairs(b)
    ensures a == b
  {
    if a != [] {
      assert Pairs(a)[0] == Pairs(b)[0] && Pairs(a)[1..] == Pairs(b)[1..];
      PairsInjective(a[2..], b[2..]);
      assert a == [a[0], a[1]] + a[2..] && b == [b[0], b[1]] + b[2..];
    }
  }

  /** Two texts spell the same UUID exactly if they have the same 32 digits, whatever case and separators. */
  lemma SameUuidExactly(a: string, b: string)
    requires UuidOf(a).Some?
    ensures UuidOf(a) == UuidOf(b) <==> Digits(a) == Digits(b)
  {
    if UuidOf(a) == UuidOf(b) { PairsInjective(Digits(a), Digits(b)); }
  }

  function LowerHex(v: Byte): (c: char)
    requires v < 16
    ensures IsHexDigit(c) && HexValue(c) == v
  {
    if v < 10 then ('0' as int + v) as char else ('a' as int + v - 10) as char
  }

  function HexText(bytes: Bytes): (text: string) {
    if bytes == [] then "" else [LowerHex(bytes[0] / 16), LowerHex(bytes[0] % 16)] + HexText(bytes[1..])
  }

  lemma {:induction false} HexTextDigits(bytes: Bytes)
    ensures |Digits(HexText(bytes))| == 2 * |bytes| && Pairs(Digits(HexText(bytes))) == bytes
  {
    if bytes != [] {
      HexTextDigits(bytes[1..]);
      var rest, hi, lo := HexText(bytes[1..]), bytes[0] / 16, bytes[0] % 16;
      var text := HexText(bytes);
      assert text[1..] == [LowerHex(lo)] + rest && text[1..][1..] == rest;
      assert Digits(text) == [hi] + ([lo] + Digits(rest));
      assert Digits(text)[2..] == Digits(rest);
    }
  }

  /** Every sixteen bytes are a UUID: their hexadecimal text is read back. */
  lemma UuidRoundTrip(bytes: Bytes)
    requires |bytes| == 16
    ensures UuidOf(HexText(bytes)) == Some(bytes)
  {
    HexTextDigits(bytes);
  }

  function UpperHex(text: string): (r: string) {
    seq(|text|, i requires 0 <= i < |text| => if 'a' <= text[i] <= 'f' then text[i] - 'a' + 'A' else text[i])
  }

  /** Digits of either case are read alike. */
  lemma {:induction false} CaseIgnored(text: string)
    ensures Digits(UpperHex(text)) == Digits(text)
  {
    if text != "" {
      CaseIgnored(text[1..]);
      assert UpperHex(text)[1..] == UpperHex(text[1..]);
    }
  }

  /** Every UUID has another spelling. */
  lemma OtherSpelling(text: string)
    ensures "-" + text != text && Digits("-" + text) == Digits(text)
  {
    assert ("-" + text)[1..] == text;
  }
}
