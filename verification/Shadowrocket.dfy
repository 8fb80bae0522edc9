/**
 * Shadowrocket links: written by `build_shadowrocket_link` of src/http/server.rs and read by
 * `parse_shadowrocket_format` of src/subscription/parser.rs. Texts are byte strings, as in Base64.
 */
module Shadowrocket {
  import opened Prelude
  import opened Nodes
  import opened Base64
  import opened Query
  import opened UrlAuthority

  /**
   * The library functions involved: valid UTF-8, the standard library's IPv6 address text, and the
   * URL library's reader of such addresses.
   */
  datatype Library = Library(utf8: string -> bool, isIpv6: string -> bool, urlIpv6: Ipv6Reader)

  datatype Output = Output(host: string, port: nat, sni: Option<string>)

  const SCHEME := "vmess://"

  // ---------------------------------------------------------------------------------------------
  // Writing
  // ---------------------------------------------------------------------------------------------

  function FormatUrlHost(lib: Library, host: string): (r: string) {
    var trimmed := if Bracketed(host) then host[1..|host| - 1] else host;
    if lib.isIpv6(trimmed) then "[" + trimmed + "]" else host
  }

  function ShadowrocketUdp(e: PacketEncoding): (s: string) {
    match e
    case Default => "1"
    case PacketAddr => "2"
    case Xudp => "3"
  }

  function Payload(lib: Library, node: VMessNode, output: Output): (s: string) {
    node.security + ":" + node.uuid + "@" + FormatUrlHost(lib, output.host) + ":" + Decimal(output.port)
  }

  ghost predicate Writable(lib: Library, node: VMessNode, output: Output, serviceName: string) {
    && IsBytes(node.name) && IsBytes(serviceName) && IsBytes(Payload(lib, node, output))
    && (output.sni.Some? ==> IsBytes(output.sni.value))
  }

  function PathPairs(grpc: bool, serviceName: string): (p: seq<Pair>)
    requires IsBytes(serviceName)
  {
    if grpc then [("path", serviceName)] else []
  }

  function NamePairs(name: string): (p: seq<Pair>)
    requires IsBytes(name)
  {
    if name != "" then [("remarks", name)] else []
  }

  function TransportPairs(grpc: bool, sni: Option<string>): (p: seq<Pair>)
    requires sni.Some? ==> IsBytes(sni.value)
  {
    if grpc then
      [("obfs", "grpc"), ("tls", "1")] + if sni.Some? then [("obfsParam", sni.value), ("peer", sni.value)] else []
    else [("obfs", "tcp"), ("tls", "0")]
  }

  lemma DecimalIsBytes(n: nat)
    ensures IsBytes(Decimal(n))
  {
    assert forall i :: 0 <= i < |Decimal(n)| ==> IsDigit(Decimal(n)[i]);
  }

  function TailPairs(e: PacketEncoding, alterId: nat): (p: seq<Pair>) {
    DecimalIsBytes(alterId);
    [("udp", ShadowrocketUdp(e)), ("alterId", Decimal(alterId))]
  }

  function Pairs(node: VMessNode, output: Output, grpc: bool, serviceName: string): (p: seq<Pair>)
    requires IsBytes(node.name) && IsBytes(serviceName) && (output.sni.Some? ==> IsBytes(output.sni.value))
  {
    PathPairs(grpc, serviceName) + NamePairs(node.name) + TransportPairs(grpc, output.sni)
    + TailPairs(node.packetEncoding, node.alterId)
  }

  function LinkText(lib: Library, node: VMessNode, output: Output, grpc: bool, serviceName: string): (link: string)
    requires Writable(lib, node, output, serviceName)
  {
    SCHEME + Encode(UrlSafe, Payload(lib, node, output)) + "?" + Rendered(Pairs(node, output, grpc, serviceName))
  }

  method PushTransport(query: string, grpc: bool, sni: Option<string>, ghost before: seq<Pair>) returns (out: string)
    requires (sni.Some? ==> IsBytes(sni.value)) && query == Rendered(before)
    ensures out == Rendered(before + TransportPairs(grpc, sni))
  {
    hide Rendered, IsBytes;
    LiteralBytes();
    if grpc {
      out := PushQueryPair(query, "obfs", "grpc", before);
      ghost var p1 := before + [("obfs", "grpc")];
      out := PushQueryPair(out, "tls", "1", p1);
      ghost var p2 := p1 + [("tls", "1")];
      assert p2 == before + [("obfs", "grpc"), ("tls", "1")];
      if sni.Some? {
        out := PushQueryPair(out, "obfsParam", sni.value, p2);
        ghost var p3 := p2 + [("obfsParam", sni.value)];
        out := PushQueryPair(out, "peer", sni.value, p3);
        assert p3 + [("peer", sni.value)] == before + TransportPairs(grpc, sni);
      } else {
        assert p2 == before + TransportPairs(grpc, sni);
      }
    } else {
      out := PushQueryPair(query, "obfs", "tcp", before);
      ghost var p1 := before + [("obfs", "tcp")];
      out := PushQueryPair(out, "tls", "0", p1);
      assert p1 + [("tls", "0")] == before + TransportPairs(grpc, sni);
    }
  }

  method BuildQuery(node: VMessNode, output: Output, grpc: bool, serviceName: string) returns (query: string)
    requires IsBytes(node.name) && IsBytes(serviceName) && (output.sni.Some? ==> IsBytes(output.sni.value))
    ensures query == Rendered(Pairs(node, output, grpc, serviceName))
  {
    hide Rendered, IsBytes, Decimal, TransportPairs, ShadowrocketUdp;
    RenderedNothing();
    LiteralBytes();
    DecimalIsBytes(node.alterId);
    UdpIsBytes(node.packetEncoding);
    query := "";
    ghost var path := PathPairs(grpc, serviceName);
    if grpc {
      query := PushQueryPair(query, "path", serviceName, []);
      assert [] + [("path", serviceName)] == path;
    }
    ghost var named := path + NamePairs(node.name);
    if node.name != "" {
      query := PushQueryPair(query, "remarks", node.name, path);
    } else {
      assert named == path;
    }
    query := PushTransport(query, grpc, output.sni, named);
    ghost var front := named + TransportPairs(grpc, output.sni);
    query := PushQueryPair(query, "udp", ShadowrocketUdp(node.packetEncoding), front);
    ghost var almost := front + [("udp", ShadowrocketUdp(node.packetEncoding))];
    query := PushQueryPair(query, "alterId", Decimal(node.alterId), almost);
    assert almost + [("alterId", Decimal(node.alterId))] == front + TailPairs(node.packetEncoding, node.alterId);
  }

  method BuildShadowrocketLink(lib: Library, node: VMessNode, output: Output, grpc: bool, serviceName: string)
    returns (link: string)
    requires Writable(lib, node, output, serviceName)
    ensures link == LinkText(lib, node, output, grpc, serviceName)
  {
    hide Rendered, Encode, IsBytes, Pairs, Payload;
    var encoded := Encode(UrlSafe, Payload(lib, node, output));
    var query := BuildQuery(node, output, grpc, serviceName);
    link := SCHEME + encoded + "?" + query;
  }

  /** One field of a query with the separator behind it. */
  function Field(key: string, value: string): (r: string) {
    key + "=" + value + "&"
  }

  /** Packet encodings are numbered from one. */
  function UdpNumber(e: PacketEncoding): (s: string) {
    if e == Default then "1" else if e == PacketAddr then "2" else "3"
  }

  function TransportFields(grpc: bool, sni: Option<string>): (r: string)
    requires sni.Some? ==> IsBytes(sni.value)
  {
    if !grpc then Field("obfs", "tcp") + Field("tls", "0")
    else if sni.None? then Field("obfs", "grpc") + Field("tls", "1")
    else
      Field("obfs", "grpc") + Field("tls", "1")
      + (Field("obfsParam", Encoded(sni.value)) + Field("peer", Encoded(sni.value)))
  }

  /**
   * The query as clients expect it: the service name and the name first, if there are any, then
   * transport and TLS flag, the server name twice, the packet encoding as a number, and the alter id.
   */
  lemma QueryFormat(node: VMessNode, output: Output, grpc: bool, serviceName: string)
    requires IsBytes(node.name) && IsBytes(serviceName) && (output.sni.Some? ==> IsBytes(output.sni.value))
    ensures Rendered(Pairs(node, output, grpc, serviceName)) ==
            (if grpc then Field("path", Encoded(serviceName)) else "")
            + (if node.name != "" then Field("remarks", Encoded(node.name)) else "")
            + TransportFields(grpc, output.sni)
            + Field("udp", UdpNumber(node.packetEncoding)) + ("alterId" + "=" + Decimal(node.alterId))
  {
    hide IsBytes, PathPairs, NamePairs, TransportPairs, TransportFields, Decimal, ShadowrocketUdp;
    hide Rendered, Lead, Encoded, EncodedPair, Field, UdpNumber;
    var a, b := PathPairs(grpc, serviceName), NamePairs(node.name);
    var c := TransportPairs(grpc, output.sni);
    DecimalIsBytes(node.alterId);
    UdpIsBytes(node.packetEncoding);
    LiteralBytes();
    var u: Pair := ("udp", ShadowrocketUdp(node.packetEncoding));
    var l: Pair := ("alterId", Decimal(node.alterId));
    assert Pairs(node, output, grpc, serviceName) == (a + b + c + [u]) + [l];
    RenderedLead(a + b + c + [u], l);
    LeadAppend(a + b + c, [u]);
    LeadAppend(a + b, c);
    LeadAppend(a, b);
    LeadPath(grpc, serviceName);
    LeadName(node.name);
    LeadTransport(grpc, output.sni);
    LeadUdp(node.packetEncoding);
    AlterIdPair(node.alterId);
  }

  lemma PairText(key: string, value: string)
    requires IsBytes(key) && IsBytes(value) && forall i :: 0 <= i < |key| ==> Unreserved(key[i])
    ensures EncodedPair((key, value)) == key + "=" + Encoded(value)
    ensures Lead([(key, value)]) == Field(key, Encoded(value))
  {
    hide Unreserved, Encoded;
    EncodedSame(key);
    var one: seq<Pair> := [(key, value)];
    assert one[1..] == [] && Lead([]) == "";
    assert EncodedPair(one[0]) + "&" + "" == EncodedPair(one[0]) + "&";
  }

  lemma PlainPair(key: string, value: string)
    requires IsBytes(key) && forall i :: 0 <= i < |key| ==> Unreserved(key[i])
    requires IsBytes(value) && forall i :: 0 <= i < |value| ==> Unreserved(value[i])
    ensures Lead([(key, value)]) == Field(key, value) && EncodedPair((key, value)) == key + "=" + value
  {
    hide Unreserved, Encoded, EncodedPair, Lead;
    PairText(key, value);
    EncodedSame(value);
  }

  lemma LeadPath(grpc: bool, serviceName: string)
    requires IsBytes(serviceName)
    ensures Lead(PathPairs(grpc, serviceName)) == if grpc then Field("path", Encoded(serviceName)) else ""
  {
    hide Encoded, EncodedPair, Field;
    PairText("path", serviceName);
  }

  lemma LeadName(name: string)
    requires IsBytes(name)
    ensures Lead(NamePairs(name)) == if name != "" then Field("remarks", Encoded(name)) else ""
  {
    hide Encoded, EncodedPair, Field;
    PairText("remarks", name);
  }

  lemma LeadTwo(p: Pair, q: Pair)
    ensures Lead([p, q]) == Lead([p]) + Lead([q])
  {
    hide Lead;
    LeadAppend([p], [q]);
    assert [p] + [q] == [p, q];
  }

  lemma LeadGrpc()
    ensures IsBytes("obfs") && IsBytes("grpc") && IsBytes("tls") && IsBytes("1")
    ensures Lead([("obfs", "grpc"), ("tls", "1")]) == Field("obfs", "grpc") + Field("tls", "1")
  {
    hide Encoded, EncodedPair, Lead, Field;
    PlainPair("obfs", "grpc");
    PlainPair("tls", "1");
    LeadTwo(("obfs", "grpc"), ("tls", "1"));
  }

  lemma LeadTcp()
    ensures IsBytes("obfs") && IsBytes("tcp") && IsBytes("tls") && IsBytes("0")
    ensures Lead([("obfs", "tcp"), ("tls", "0")]) == Field("obfs", "tcp") + Field("tls", "0")
  {
    hide Encoded, EncodedPair, Lead, Field;
    PlainPair("obfs", "tcp");
    PlainPair("tls", "0");
    LeadTwo(("obfs", "tcp"), ("tls", "0"));
  }

  lemma LeadSni(sni: string)
    requires IsBytes(sni)
    ensures IsBytes("obfsParam") && IsBytes("peer")
    ensures Lead([("obfsParam", sni), ("peer", sni)]) == Field("obfsParam", Encoded(sni)) + Field("peer", Encoded(sni))
  {
    hide Encoded, EncodedPair, Lead, Field;
    PairText("obfsParam", sni);
    PairText("peer", sni);
    LeadTwo(("obfsParam", sni), ("peer", sni));
  }

  lemma LeadTransport(grpc: bool, sni: Option<string>)
    requires sni.Some? ==> IsBytes(sni.value)
    ensures Lead(TransportPairs(grpc, sni)) == TransportFields(grpc, sni)
  {
    hide Encoded, EncodedPair, Lead, Field, IsBytes;
    LeadGrpc();
    LeadTcp();
    if grpc && sni.Some? {
      LeadSni(sni.value);
      LeadAppend([("obfs", "grpc"), ("tls", "1")], [("obfsParam", sni.value), ("peer", sni.value)]);
    } else if grpc {
      assert TransportPairs(grpc, sni) == [("obfs", "grpc"), ("tls", "1")];
    }
  }

  lemma LeadUdp(e: PacketEncoding)
    ensures IsBytes(ShadowrocketUdp(e)) && Lead([("udp", ShadowrocketUdp(e))]) == Field("udp", UdpNumber(e))
  {
    hide Encoded, EncodedPair, Lead, Field;
    PlainPair("udp", ShadowrocketUdp(e));
  }

  lemma AlterIdPair(n: nat)
    ensures IsBytes(Decimal(n)) && EncodedPair(("alterId", Decimal(n))) == "alterId" + "=" + Decimal(n)
  {
    hide Encoded, Lead, Decimal, EncodedPair;
    DecimalIsBytes(n);
    assert forall i :: 0 <= i < |Decimal(n)| ==> IsDigit(Decimal(n)[i]);
    PlainPair("alterId", Decimal(n));
  }

  /** A link is the scheme, the encoded payload and the query. */
  lemma LinkFormat(lib: Library, node: VMessNode, output: Output, grpc: bool, serviceName: string)
    requires Writable(lib, node, output, serviceName)
    ensures LinkText(lib, node, output, grpc, serviceName) ==
            "vmess://" + Encode(UrlSafe, Payload(lib, node, output)) + "?"
            + Rendered(Pairs(node, output, grpc, serviceName))
  {
    hide Encode, Payload, Rendered, Pairs;
  }

  lemma UdpIsBytes(e: PacketEncoding)
    ensures IsBytes(ShadowrocketUdp(e))
  {}

  lemma RenderedNothing()
    ensures Rendered([]) == ""
  {}

  lemma LiteralBytes()
    ensures IsBytes("path") && IsBytes("remarks") && IsBytes("obfs") && IsBytes("tls") && IsBytes("obfsParam")
    ensures IsBytes("peer") && IsBytes("udp") && IsBytes("alterId") && IsBytes("grpc") && IsBytes("tcp")
    ensures IsBytes("0") && IsBytes("1") && IsBytes("2") && IsBytes("3")
  {}

  // ---------------------------------------------------------------------------------------------
  // Reading
  // ---------------------------------------------------------------------------------------------

  predicate Digits(s: string) {
    s != "" && forall i :: 0 <= i < |s| ==> IsDigit(s[i])
  }

  /** The value stored last under a key. */
  function Get(pairs: seq<(string, string)>, key: string): (v: Option<string>) {
    if pairs == [] then None
    else
      var n := |pairs| - 1;
      if pairs[n].0 == key then Some(pairs[n].1) else Get(pairs[..n], key)
  }

  function Or(a: Option<string>, b: Option<string>): Option<string> {
    if a.Some? then a else b
  }

  function OrText(a: Option<string>, text: string): string {
    if a.Some? then a.value else text
  }

  const I64 := 0x8000_0000_0000_0000

  /** Parsing a signed 64-bit integer. */
  function ParseI64(s: string): (v: Option<int>) {
    if Digits(s) then (if DecimalValue(s) < I64 then Some(DecimalValue(s)) else None)
    else if s != "" && s[0] == '+' && Digits(s[1..]) then
      (if DecimalValue(s[1..]) < I64 then Some(DecimalValue(s[1..])) else None)
    else if s != "" && s[0] == '-' && Digits(s[1..]) then
      (if DecimalValue(s[1..]) <= I64 then Some(0 - DecimalValue(s[1..]) as int) else None)
    else None
  }

  function LowerChar(c: char): char {
    if 'A' <= c <= 'Z' then 'a' + (c - 'A') else c
  }

  lemma LowerTable()
    ensures LowerChar('A') == 'a' && LowerChar('Z') == 'z' && LowerChar('@') == '@' && LowerChar('[') == '['
    ensures LowerChar('a') == 'a' && LowerChar('z') == 'z' && LowerChar('5') == '5'
    ensures forall c :: 'A' <= c < 'Z' ==> LowerChar(c) as int + 1 == LowerChar((c as int + 1) as char) as int
  {}

  function Lower(s: string): (r: string) {
    seq(|s|, i requires 0 <= i < |s| => LowerChar(s[i]))
  }

  function ParseShadowrocketUdp(v: Option<string>): (e: PacketEncoding) {
    if v == Some("2") then PacketAddr else if v == Some("3") then Xudp else Default
  }

  datatype Options = Options(
    ps: string, add: string, port: int, id: string, aid: int,
    net: string, host: string, path: string, tls: string, sni: string, scy: string)

  function BuildNode(o: Options): (r: Result<VMessNode>) {
    if o.port <= 0 || o.port > 65535 || o.add == "" || o.id == "" then Err
    else
      var network := if o.net == "" then "tcp" else Lower(o.net);
      Ok(VMessNode(
        o.ps, "", o.add, o.port, o.id,
        (if o.aid > 0 then o.aid else 0) % 0x1_0000_0000,
        if o.scy == "" then "auto" else o.scy,
        network,
        o.tls == "tls" || o.tls == "true" || o.tls == "1",
        if o.sni != "" then o.sni else if o.host != "" then o.host else o.add,
        if network == "grpc" then Some(o.path) else None,
        if network == "ws" then Some(o.path) else None,
        if network == "ws" && o.host != "" then Some(o.host) else None,
        Default))
  }

  /** A node is refused exactly without a port of sixteen bits, a server or an id. */
  lemma RefusedExactly(o: Options)
    ensures BuildNode(o).Err? <==> !(1 <= o.port < 0x1_0000) || o.add == "" || o.id == ""
  {}

  /** What options become, beyond the fields that are copied. */
  lemma BuiltFields(o: Options)
    requires BuildNode(o).Ok?
    ensures var n := BuildNode(o).value;
            && n.server == o.add && n.port == o.port && n.uuid == o.id && n.name == o.ps
            && n.network == (if o.net == "" then "tcp" else Lower(o.net))
            && (n.tls <==> o.tls in {"tls", "true", "1"})
            && (o.sni != "" ==> n.sni == o.sni) && (o.sni == "" && o.host != "" ==> n.sni == o.host)
            && (o.sni == "" && o.host == "" ==> n.sni == o.add)
            && n.security == (if o.scy == "" then "auto" else o.scy)
            && (o.aid <= 0 ==> n.alterId == 0) && (0 < o.aid < 0x1_0000_0000 ==> n.alterId == o.aid)
            && (o.aid >= 0x1_0000_0000 ==> n.alterId == o.aid % 0x1_0000_0000)
            && n.grpcServiceName == (if n.network == "grpc" then Some(o.path) else None)
            && (n.network != "ws" ==> n.wsPath.None? && n.wsHost.None?)
            && (n.network == "ws" ==>
                  n.wsPath == Some(o.path) && (n.wsHost == if o.host == "" then None else Some(o.host)))
            && n.packetEncoding == Default
  {
    hide Lower;
  }

  /** The options that the authority, the query pairs and the fragment of a link amount to. */
  function OptionsOf(a: Authority, security: string, pairs: seq<(string, string)>, fragment: string): (o: Options) {
    var aid := match Or(Get(pairs, "alterId"), Get(pairs, "aid")) { case None => None case Some(v) => ParseI64(v) };
    Options(
      OrText(Or(Get(pairs, "remarks"), Get(pairs, "ps")), fragment),
      a.host, a.port, a.username,
      if aid.Some? then aid.value else 0,
      OrText(Or(Get(pairs, "obfs"), Get(pairs, "type")), "tcp"),
      "",
      OrText(Or(Get(pairs, "path"), Get(pairs, "serviceName")), ""),
      OrText(Or(Get(pairs, "tls"), Get(pairs, "security")), ""),
      OrText(Or(Get(pairs, "peer"), Or(Get(pairs, "obfsParam"), Get(pairs, "sni"))), ""),
      security)
  }

  /** The first value that is there. */
  function First(values: seq<Option<string>>, default: string): (v: string) {
    if values == [] then default else if values[0].Some? then values[0].value else First(values[1..], default)
  }

  lemma FirstOfTwo(a: Option<string>, b: Option<string>, default: string)
    ensures First([a, b], default) == OrText(Or(a, b), default)
  {
    var two: seq<Option<string>> := [a, b];
    assert two[1..] == [b];
    var one: seq<Option<string>> := [b];
    assert one[1..] == [] && First([], default) == default;
    assert First(one, default) == OrText(b, default);
  }

  lemma FirstOf(a: Option<string>, b: Option<string>, c: Option<string>, default: string)
    ensures First([a, b], default) == OrText(Or(a, b), default)
    ensures First([a, b, c], default) == OrText(Or(a, Or(b, c)), default)
  {
    FirstOfTwo(a, b, default);
    FirstOfTwo(b, c, default);
    var three: seq<Option<string>> := [a, b, c];
    assert three[1..] == [b, c];
  }

  /** A key that a newer client writes wins over the older one, and both over the default. */
  lemma KeyPreference(a: Authority, security: string, pairs: seq<(string, string)>, fragment: string)
    ensures var o := OptionsOf(a, security, pairs, fragment);
            && o.ps == First([Get(pairs, "remarks"), Get(pairs, "ps")], fragment)
            && o.net == First([Get(pairs, "obfs"), Get(pairs, "type")], "tcp")
            && o.path == First([Get(pairs, "path"), Get(pairs, "serviceName")], "")
            && o.tls == First([Get(pairs, "tls"), Get(pairs, "security")], "")
            && o.sni == First([Get(pairs, "peer"), Get(pairs, "obfsParam"), Get(pairs, "sni")], "")
            && o.scy == security && o.id == a.username && o.add == a.host && o.port == a.port
  {
    hide Get, ParseI64, First;
    FirstOf(Get(pairs, "remarks"), Get(pairs, "ps"), None, fragment);
    FirstOf(Get(pairs, "obfs"), Get(pairs, "type"), None, "tcp");
    FirstOf(Get(pairs, "path"), Get(pairs, "serviceName"), None, "");
    FirstOf(Get(pairs, "tls"), Get(pairs, "security"), None, "");
    FirstOf(Get(pairs, "peer"), Get(pairs, "obfsParam"), Get(pairs, "sni"), "");
  }

  /** The alter id is the number under its newer key, or else under the older one, or zero if there is none. */
  lemma AlterIdPreference(a: Authority, security: string, pairs: seq<(string, string)>, fragment: string)
    ensures var aid := OptionsOf(a, security, pairs, fragment).aid;
            var (newer, older) := (Get(pairs, "alterId"), Get(pairs, "aid"));
            && (newer.Some? && ParseI64(newer.value).Some? ==> ParseI64(newer.value) == Some(aid))
            && (newer.None? && older.Some? && ParseI64(older.value).Some? ==> ParseI64(older.value) == Some(aid))
            && (newer.None? && older.None? ==> aid == 0)
            && (newer.Some? && ParseI64(newer.value).None? ==> aid == 0)
  {
    hide Get, ParseI64;
  }

  /** The query of a link and its fragment, which is empty if there is none. */
  function CutFragment(s: string): (r: (string, string)) {
    match SplitOnce(s, '#')
    case None => (s, "")
    case Some(parts) => parts
  }

  /** The fragment is what stands behind the first number sign. */
  lemma FragmentCut(query: string, fragment: string)
    requires '#' !in query
    ensures CutFragment(query + ['#'] + fragment) == (query, fragment) && CutFragment(query) == (query, "")
  {
    hide SplitOnce;
    SplitOnceAt(query, '#', fragment);
    NoSplit(query, '#');
  }

  /** A link with a query and no user before it; the other two link formats are not read here. */
  function ParseLink(lib: Library, link: string): (r: Result<VMessNode>) {
    if |link| < |SCHEME| || link[..|SCHEME|] != SCHEME then Err
    else
      match SplitOnce(link[|SCHEME|..], '?')
      case None => Err
      case Some((encoded, tail)) =>
        var (query, fragment) := CutFragment(tail);
        if '@' in encoded then Err
        else
          match TryDecode(lib.utf8, encoded)
          case None => Err
          case Some(decoded) => ParsePayload(lib, decoded, Parsed(query), fragment)
  }

  function ParsePayload(lib: Library, decoded: string, pairs: seq<(string, string)>, fragment: string)
    : (r: Result<VMessNode>)
  {
    match SplitOnce(decoded, ':')
    case None => Err
    case Some((security, authority)) =>
      match ParseAuthority(lib.urlIpv6, authority)
      case None => Err
      case Some(a) =>
        match BuildNode(OptionsOf(a, security, pairs, fragment))
        case Err => Err
        case Ok(node) => Ok(node.(packetEncoding := ParseShadowrocketUdp(Get(pairs, "udp"))))
  }

  // ---------------------------------------------------------------------------------------------
  // Round trip
  // ---------------------------------------------------------------------------------------------

  /** The library's readers of IPv6 addresses deal in address characters. */
  ghost predicate SoundLibrary(lib: Library) {
    ReadsAddresses(lib.urlIpv6) && forall s :: lib.isIpv6(s) ==> AddressHost("[" + s + "]")
  }

  /** What the types of the source grant: texts are UTF-8, a port has 16 bits and an alter id 32. */
  ghost predicate Typed(lib: Library, node: VMessNode, output: Output, serviceName: string) {
    && Writable(lib, node, output, serviceName) && lib.utf8(Payload(lib, node, output))
    && output.port <= 65535 && node.alterId < 0x1_0000_0000
  }

  /** The host is read back as it is. */
  predicate KeptHost(lib: Library, host: string) {
    if Bracketed(host) then lib.urlIpv6(host[1..|host| - 1]) == Some(host[1..|host| - 1])
    else PlainHost(host) && !lib.isIpv6(host)
  }

  /** A node and an output that a link can carry. */
  predicate Linkable(lib: Library, node: VMessNode, output: Output) {
    && node.security != "" && ':' !in node.security
    && UserText(node.uuid) && KeptHost(lib, output.host) && output.port != 0
  }

  /** What a client reads: the node behind the relay's own address, transport and service name. */
  function Rewritten(node: VMessNode, output: Output, grpc: bool, serviceName: string): (r: VMessNode) {
    VMessNode(
      node.name, "", output.host, output.port, node.uuid, node.alterId, node.security,
      if grpc then "grpc" else "tcp",
      grpc,
      if grpc && output.sni.Some? && output.sni.value != "" then output.sni.value else output.host,
      if grpc then Some(serviceName) else None,
      None, None, node.packetEncoding)
  }

  lemma {:induction false} GetAppend(a: seq<(string, string)>, b: seq<(string, string)>, key: string)
    ensures Get(a + b, key) == Or(Get(b, key), Get(a, key))
  {
    if b == [] {
      assert a + b == a;
    } else {
      var n := |b| - 1;
      assert (a + b)[..|a| + n] == a + b[..n];
      GetAppend(a, b[..n], key);
    }
  }

  lemma LookupPath(grpc: bool, serviceName: string, key: string)
    requires IsBytes(serviceName)
    ensures Get(PathPairs(grpc, serviceName), key) == if grpc && key == "path" then Some(serviceName) else None
  {}

  lemma LookupName(name: string, key: string)
    requires IsBytes(name)
    ensures Get(NamePairs(name), key) == if name != "" && key == "remarks" then Some(name) else None
  {}

  lemma LookupTransport(grpc: bool, sni: Option<string>, key: string)
    requires sni.Some? ==> IsBytes(sni.value)
    ensures Get(TransportPairs(grpc, sni), key) ==
            if key == "obfs" then Some(if grpc then "grpc" else "tcp")
            else if key == "tls" then Some(if grpc then "1" else "0")
            else if grpc && (key == "obfsParam" || key == "peer") then sni
            else None
  {
    hide IsBytes;
    if grpc {
      var base: seq<(string, string)> := [("obfs", "grpc"), ("tls", "1")];
      var more: seq<(string, string)> := if sni.Some? then [("obfsParam", sni.value), ("peer", sni.value)] else [];
      GetAppend(base, more, key);
      TwoPairs(("obfs", "grpc"), ("tls", "1"), key);
      if sni.Some? { TwoPairs(("obfsParam", sni.value), ("peer", sni.value), key); }
    } else {
      TwoPairs(("obfs", "tcp"), ("tls", "0"), key);
    }
  }

  lemma TwoPairs(p: (string, string), q: (string, string), key: string)
    ensures Get([p, q], key) == if key == q.0 then Some(q.1) else if key == p.0 then Some(p.1) else None
  {
    assert [p, q][..1] == [p] && [p][..0] == [];
    assert Get([p], key) == if key == p.0 then Some(p.1) else None;
  }

  lemma Lookup(node: VMessNode, output: Output, grpc: bool, serviceName: string, key: string)
    requires IsBytes(node.name) && IsBytes(serviceName) && (output.sni.Some? ==> IsBytes(output.sni.value))
    ensures Get(Pairs(node, output, grpc, serviceName), key) ==
            if key == "alterId" then Some(Decimal(node.alterId))
            else if key == "udp" then Some(ShadowrocketUdp(node.packetEncoding))
            else if key == "obfs" then Some(if grpc then "grpc" else "tcp")
            else if key == "tls" then Some(if grpc then "1" else "0")
            else if key == "obfsParam" || key == "peer" then (if grpc then output.sni else None)
            else if key == "remarks" then (if node.name != "" then Some(node.name) else None)
            else if key == "path" then (if grpc then Some(serviceName) else None)
            else None
  {
    hide Get, IsBytes, PathPairs, NamePairs, TransportPairs, Decimal;
    var a, b := PathPairs(grpc, serviceName), NamePairs(node.name);
    var c, d := TransportPairs(grpc, output.sni), TailPairs(node.packetEncoding, node.alterId);
    GetAppend(a + b + c, d, key);
    GetAppend(a + b, c, key);
    GetAppend(a, b, key);
    LookupPath(grpc, serviceName, key);
    LookupName(node.name, key);
    LookupTransport(grpc, output.sni, key);
    TwoPairs(("udp", ShadowrocketUdp(node.packetEncoding)), ("alterId", Decimal(node.alterId)), key);
  }

  lemma EncodedAlphabet(s: string)
    requires IsBytes(s)
    ensures '?' !in Encode(UrlSafe, s) && '@' !in Encode(UrlSafe, s)
  {
    var v := Split(s);
    hide Split;
    forall i | 0 <= i < |v| ensures Letter(UrlSafe, v[i]) != '?' && Letter(UrlSafe, v[i]) != '@' {}
  }

  /** The options a client reads from a link. */
  function OptionsFor(node: VMessNode, output: Output, grpc: bool, serviceName: string): (o: Options) {
    Options(
      node.name, output.host, output.port, node.uuid, node.alterId,
      if grpc then "grpc" else "tcp", "",
      if grpc then serviceName else "",
      if grpc then "1" else "0",
      if grpc && output.sni.Some? then output.sni.value else "",
      node.security)
  }

  lemma OptionsRecovered(node: VMessNode, output: Output, grpc: bool, serviceName: string)
    requires IsBytes(node.name) && IsBytes(serviceName) && (output.sni.Some? ==> IsBytes(output.sni.value))
    requires node.alterId < 0x1_0000_0000
    ensures OptionsOf(Authority(node.uuid, output.host, output.port), node.security,
                      Pairs(node, output, grpc, serviceName), "") == OptionsFor(node, output, grpc, serviceName)
  {
    hide Get, IsBytes, Pairs, Decimal, ParseI64;
    Lookup(node, output, grpc, serviceName, "remarks");
    Lookup(node, output, grpc, serviceName, "ps");
    Lookup(node, output, grpc, serviceName, "alterId");
    Lookup(node, output, grpc, serviceName, "obfs");
    Lookup(node, output, grpc, serviceName, "path");
    Lookup(node, output, grpc, serviceName, "serviceName");
    Lookup(node, output, grpc, serviceName, "tls");
    Lookup(node, output, grpc, serviceName, "peer");
    Lookup(node, output, grpc, serviceName, "obfsParam");
    Lookup(node, output, grpc, serviceName, "sni");
    NumeralParsed(node.alterId);
  }

  lemma NumeralParsed(n: nat)
    requires n < I64
    ensures ParseI64(Decimal(n)) == Some(n)
  {
    DecimalRoundTrip(n);
  }

  function Negated(n: int): (m: int) {
    -n
  }

  /** Signs are read, and numbers beyond 64 bits are not. */
  lemma SignedNumerals(n: nat)
    ensures ParseI64(Decimal(n)) == if n < I64 then Some(n) else None
    ensures ParseI64(['-'] + Decimal(n)) == if n <= I64 then Some(Negated(n)) else None
    ensures ParseI64(['+'] + Decimal(n)) == if n < I64 then Some(n) else None
    ensures ParseI64("") == None
  {
    hide ParseI64, Decimal;
    Unsigned(n);
    Signed('-', n);
    Signed('+', n);
    NoNumeral();
  }

  lemma NoNumeral()
    ensures ParseI64("") == None
  {}

  lemma Unsigned(n: nat)
    ensures ParseI64(Decimal(n)) == if n < I64 then Some(n) else None
  {
    hide Decimal, DecimalValue;
    DecimalRoundTrip(n);
  }

  lemma Signed(sign: char, n: nat)
    requires sign == '-' || sign == '+'
    ensures ParseI64([sign] + Decimal(n)) ==
            if sign == '-' then (if n <= I64 then Some(Negated(n)) else None) else if n < I64 then Some(n) else None
  {
    hide Decimal, DecimalValue;
    DecimalRoundTrip(n);
    var (d, s) := (Decimal(n), [sign] + Decimal(n));
    assert s[0] == sign && s[1..] == d && !IsDigit(s[0]);
  }

  lemma NodeRebuilt(node: VMessNode, output: Output, grpc: bool, serviceName: string)
    requires node.security != "" && node.uuid != "" && node.alterId < 0x1_0000_0000
    requires output.host != "" && 1 <= output.port <= 65535
    ensures BuildNode(OptionsFor(node, output, grpc, serviceName)) ==
            Ok(Rewritten(node, output, grpc, serviceName).(packetEncoding := Default))
  {
    assert Lower("grpc") == "grpc" && Lower("tcp") == "tcp";
  }

  /** Base64, the query and the fragment are undone; the payload decides. */
  lemma LinkRead(lib: Library, node: VMessNode, output: Output, grpc: bool, serviceName: string)
    requires Typed(lib, node, output, serviceName)
    ensures ParseLink(lib, LinkText(lib, node, output, grpc, serviceName)) ==
            ParsePayload(lib, Payload(lib, node, output), Pairs(node, output, grpc, serviceName), "")
  {
    hide IsBytes, Encode, Rendered, Pairs, SplitOnce, TryDecode, Parsed, ParsePayload, Payload;
    var payload := Payload(lib, node, output);
    var pairs := Pairs(node, output, grpc, serviceName);
    var e, q := Encode(UrlSafe, payload), Rendered(pairs);
    var link := LinkText(lib, node, output, grpc, serviceName);
    assert link[..|SCHEME|] == SCHEME && link[|SCHEME|..] == e + ['?'] + q;
    EncodedAlphabet(payload);
    SplitOnceAt(e, '?', q);
    QueryRoundTrip(pairs);
    NoSplit(q, '#');
    TryDecodeRoundTrip(lib.utf8, payload);
  }

  /** With a kept user name and a host of either kind, the payload is read as the URL library reads the host. */
  lemma PayloadRead(lib: Library, node: VMessNode, output: Output, grpc: bool, serviceName: string, host: string)
    requires Typed(lib, node, output, serviceName)
    requires node.security != "" && ':' !in node.security && UserText(node.uuid) && output.port != 0
    requires var h := FormatUrlHost(lib, output.host);
             (PlainHost(h) || AddressHost(h)) && HostOf(lib.urlIpv6, h) == Some(host) && host != ""
    ensures ParsePayload(lib, Payload(lib, node, output), Pairs(node, output, grpc, serviceName), "") ==
            Ok(Rewritten(node, output.(host := host), grpc, serviceName))
  {
    hide IsBytes, Pairs, Get, SplitOnce, ParseAuthority, OptionsOf, BuildNode, Decimal;
    hide FormatUrlHost, HostOf, PlainHost, AddressHost;
    var h := FormatUrlHost(lib, output.host);
    var authority := node.uuid + "@" + h + ":" + Decimal(output.port);
    assert Payload(lib, node, output) == node.security + [':'] + authority;
    SplitOnceAt(node.security, ':', authority);
    AuthorityRead(lib.urlIpv6, node.uuid, h, output.port);
    PairsIgnoreHost(node, output, grpc, serviceName, host);
    OptionsRecovered(node, output.(host := host), grpc, serviceName);
    NodeRebuilt(node, output.(host := host), grpc, serviceName);
    Lookup(node, output, grpc, serviceName, "udp");
  }

  lemma PairsIgnoreHost(node: VMessNode, output: Output, grpc: bool, serviceName: string, host: string)
    requires IsBytes(node.name) && IsBytes(serviceName) && (output.sni.Some? ==> IsBytes(output.sni.value))
    ensures Pairs(node, output.(host := host), grpc, serviceName) == Pairs(node, output, grpc, serviceName)
  {}

  /** An IPv6 output host, with or without brackets, is read back as the canonical address in brackets. */
  lemma Ipv6LinkRead(lib: Library, node: VMessNode, output: Output, grpc: bool, serviceName: string, address: string)
    requires SoundLibrary(lib) && Typed(lib, node, output, serviceName)
    requires node.security != "" && ':' !in node.security && UserText(node.uuid) && output.port != 0
    requires output.host == address || output.host == "[" + address + "]"
    requires lib.isIpv6(address) && lib.urlIpv6(address).Some?
    ensures ParseLink(lib, LinkText(lib, node, output, grpc, serviceName)) ==
            Ok(Rewritten(node, output.(host := "[" + lib.urlIpv6(address).value + "]"), grpc, serviceName))
  {
    hide ParseLink, LinkText, ParsePayload, Payload, Pairs, Rewritten, Typed;
    var h := "[" + address + "]";
    assert h[1..|h| - 1] == address;
    AddressUnbracketed(address);
    assert FormatUrlHost(lib, output.host) == h;
    LinkRead(lib, node, output, grpc, serviceName);
    PayloadRead(lib, node, output, grpc, serviceName, "[" + lib.urlIpv6(address).value + "]");
  }

  lemma AddressUnbracketed(address: string)
    requires AddressHost("[" + address + "]")
    ensures !Bracketed(address)
  {
    var h := "[" + address + "]";
    if address != "" { assert h[1] == address[0] && AddressChar(h[1]); }
  }

  lemma HostKeptRead(lib: Library, host: string)
    requires SoundLibrary(lib) && KeptHost(lib, host)
    ensures var h := FormatUrlHost(lib, host);
            h == host && (PlainHost(h) || AddressHost(h)) && HostOf(lib.urlIpv6, h) == Some(host) && host != ""
  {
    if Bracketed(host) {
      var x := host[1..|host| - 1];
      assert host == "[" + x + "]";
      forall i | 1 <= i < |host| - 1 ensures AddressChar(host[i]) {
        assert host[i] == lib.urlIpv6(x).value[i - 1];
      }
    }
    HostRead(lib.urlIpv6, host);
  }

  lemma SplitOnceBefore(s: string, c: char)
    requires SplitOnce(s, c).Some?
    ensures c !in SplitOnce(s, c).value.0
  {}

  /** What a payload that is read was made of. */
  lemma PayloadParts(lib: Library, payload: string, pairs: seq<(string, string)>)
    returns (security: string, a: Authority)
    requires ParsePayload(lib, payload, pairs, "").Ok?
    ensures SplitOnce(payload, ':').Some? && security == SplitOnce(payload, ':').value.0 && ':' !in security
    ensures ParseAuthority(lib.urlIpv6, SplitOnce(payload, ':').value.1) == Some(a)
    ensures var r := ParsePayload(lib, payload, pairs, "").value;
            && r.uuid == a.username && r.uuid != "" && r.server == a.host && r.port == a.port && a.port != 0
            && r.security == if security == "" then "auto" else security
  {
    hide SplitOnce, ParseAuthority, Get, ParseI64, Lower;
    SplitOnceBefore(payload, ':');
    security, a := SplitOnce(payload, ':').value.0, ParseAuthority(lib.urlIpv6, SplitOnce(payload, ':').value.1).value;
  }

  /** Nothing else is read back as it was. */
  lemma ReadBackOnly(lib: Library, node: VMessNode, output: Output, pairs: seq<(string, string)>)
    requires SoundLibrary(lib) && output.port <= 65535
    requires var r := ParsePayload(lib, Payload(lib, node, output), pairs, "");
             && r.Ok? && r.value.uuid == node.uuid && r.value.server == output.host && r.value.port == output.port
             && r.value.security == node.security
    ensures Linkable(lib, node, output)
  {
    hide ParsePayload, SplitOnce, ParseAuthority, FormatUrlHost, Decimal;
    hide KeptHost, SoundLibrary, PlainHost, AddressHost, UserChar;
    var h := FormatUrlHost(lib, output.host);
    var authority := node.uuid + "@" + h + ":" + Decimal(output.port);
    var payload := Payload(lib, node, output);
    assert payload == node.security + [':'] + authority;
    var security, a := PayloadParts(lib, payload, pairs);
    assert ':' !in "auto";
    SplitOnceAt(node.security, ':', authority);
    SoundReader(lib);
    AuthorityRange(lib.urlIpv6, authority);
    HostReadBack(lib, node.uuid, output.host, output.port);
  }

  lemma SoundReader(lib: Library)
    requires SoundLibrary(lib)
    ensures ReadsAddresses(lib.urlIpv6)
  {}

  lemma HostReadBack(lib: Library, user: string, host: string, port: nat)
    requires SoundLibrary(lib) && UserText(user) && port <= 65535 && (PlainHost(host) || AddressHost(host))
    requires var a := ParseAuthority(lib.urlIpv6, user + "@" + FormatUrlHost(lib, host) + ":" + Decimal(port));
             a.Some? && a.value.host == host
    ensures KeptHost(lib, host)
  {
    hide ParseAuthority, HostOf, Decimal, UserText, PlainHost, AddressHost, SoundLibrary;
    var h := FormatUrlHost(lib, host);
    FormattedKind(lib, host);
    AuthorityRead(lib.urlIpv6, user, h, port);
    HostRead(lib.urlIpv6, h);
  }

  /** Formatting keeps a host of either kind, but for a bare address, which it puts into brackets. */
  lemma FormattedKind(lib: Library, host: string)
    requires SoundLibrary(lib) && (PlainHost(host) || AddressHost(host))
    ensures var h := FormatUrlHost(lib, host);
            if PlainHost(host) then
              && !Bracketed(host) && host[0] != '['
              && (if lib.isIpv6(host) then h == "[" + host + "]" && AddressHost(h) && !PlainHost(h) else h == host)
            else Bracketed(host) && h == host && AddressHost(h)
  {
    if PlainHost(host) {
      assert HostChar(host[0]);
      assert !HostChar(("[" + host + "]")[0]);
    } else {
      assert host == "[" + host[1..|host| - 1] + "]";
    }
  }

  /**
   * Shadowrocket round trip, with its exact condition: a link built for a node parses to that node's
   * name, UUID, alter id, security and packet encoding behind the output's host and port, with the
   * relay's transport, TLS flag and service name, if and only if the security is named and has no colon,
   * the UUID has only characters that a URL keeps in a user name, the port is not zero and the host is
   * one that a URL keeps. Names, service names and server names are arbitrary.
   */
  lemma LinkRoundTrip(lib: Library, node: VMessNode, output: Output, grpc: bool, serviceName: string)
    requires SoundLibrary(lib) && Typed(lib, node, output, serviceName)
    ensures Linkable(lib, node, output) <==>
            var link := LinkText(lib, node, output, grpc, serviceName);
            ParseLink(lib, link) == Ok(Rewritten(node, output, grpc, serviceName))
  {
    hide ParseLink, LinkText, ParsePayload, Payload, Pairs, KeptHost, SoundLibrary, Typed, UserText;
    TypedBytes(lib, node, output, serviceName);
    var pairs := Pairs(node, output, grpc, serviceName);
    LinkRead(lib, node, output, grpc, serviceName);
    if Linkable(lib, node, output) {
      HostKeptRead(lib, output.host);
      PayloadRead(lib, node, output, grpc, serviceName, output.host);
    }
    if ParsePayload(lib, Payload(lib, node, output), pairs, "") == Ok(Rewritten(node, output, grpc, serviceName)) {
      ReadBackOnly(lib, node, output, pairs);
    }
  }

  lemma TypedBytes(lib: Library, node: VMessNode, output: Output, serviceName: string)
    requires Typed(lib, node, output, serviceName)
    ensures IsBytes(node.name) && IsBytes(serviceName) && (output.sni.Some? ==> IsBytes(output.sni.value))
    ensures output.port <= 65535
  {}
}
