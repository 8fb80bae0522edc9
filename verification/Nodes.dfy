/** Proxy nodes (src/subscription/parser.rs) and decimal numerals. */
module Nodes {
  import opened Prelude

  datatype PacketEncoding = Default | PacketAddr | Xudp

  datatype VMessNode = VMessNode(
    name: string,
    source: string,
    server: string,
    port: nat,
    uuid: string,
    alterId: nat,
    security: string,
    network: string,
    tls: bool,
    sni: string,
    grpcServiceName: Option<string>,
    wsPath: Option<string>,
    wsHost: Option<string>,
    packetEncoding: PacketEncoding)

  function Names(nodes: seq<VMessNode>): (names: seq<string>)
    ensures |names| == |nodes|
    ensures forall i :: 0 <= i < |nodes| ==> names[i] == nodes[i].name
  {
    seq(|nodes|, i requires 0 <= i < |nodes| => nodes[i].name)
  }

  predicate IsDigit(c: char) {
    '0' <= c <= '9'
  }

  function Digit(d: nat): (c: char)
    requires d < 10
    ensures IsDigit(c)
  {
    '0' + d as char
  }

  function DigitValue(c: char): (d: nat)
    requires IsDigit(c)
    ensures d < 10
  {
    (c - '0') as int
  }

  /** The decimal numeral that formatting an unsigned integer prints. */
  function Decimal(n: nat): (s: string)
    ensures s != "" && forall i :: 0 <= i < |s| ==> IsDigit(s[i])
  {
    if n < 10 then [Digit(n)] else Decimal(n / 10) + [Digit(n % 10)]
  }

  function DecimalValue(s: string): (n: nat)
    requires forall i :: 0 <= i < |s| ==> IsDigit(s[i])
  {
    if s == "" then 0 else 10 * DecimalValue(s[..|s| - 1]) + DigitValue(s[|s| - 1])
  }

  /** The highest digit comes first. */
  lemma KnownNumeral()
    ensures Decimal(120) == "120"
  {
    assert Decimal(1) == "1" && Decimal(12) == "12";
  }

  lemma {:induction false} DecimalRoundTrip(n: nat)
    ensures DecimalValue(Decimal(n)) == n
  {
    if n < 10 {
      assert Decimal(n)[..0] == "";
    } else {
      DecimalRoundTrip(n / 10);
      var s := Decimal(n);
      assert s[..|s| - 1] == Decimal(n / 10);
    }
  }
}
