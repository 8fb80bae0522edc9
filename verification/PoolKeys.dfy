/** The keys of the gRPC connection pool (`GrpcPool::pool_key` of src/relay/transport/grpc.rs). */
module PoolKeys {
  type Key = string

  /** An endpoint: "host:port" text and TLS server name. */
  datatype Endpoint = Endpoint(addr: string, sni: string)

  function PoolKey(e: Endpoint): (key: Key) {
    e.sni + ":" + e.addr
  }

  function KeysOf(endpoints: set<Endpoint>): (keys: set<Key>) {
    set e | e in endpoints :: PoolKey(e)
  }

  /** "host:port" with a host that has no colon and no bracket: every IPv4 socket address. */
  ghost predicate V4Text(addr: string) {
    exists host: string, port: string ::
      && addr == host + ":" + port
      && host != "" && ':' !in host && '[' !in host && ']' !in host
      && ':' !in port && '[' !in port && ']' !in port
  }

  /** "[host]:port" with no further bracket, nor a colon in the port: every IPv6 socket address. */
  ghost predicate V6Text(addr: string) {
    exists host: string, port: string ::
      && addr == "[" + host + "]:" + port
      && '[' !in host && ']' !in host
      && ':' !in port && '[' !in port && ']' !in port
  }

  /** What the parse of a node's "server:port" as a socket address lets through, and more. */
  ghost predicate SocketAddrText(addr: string) {
    V4Text(addr) || V6Text(addr)
  }

  /** Two endpoints share a key exactly if they are equal or one address is ":"-cut from the other's. */
  lemma SameKeyExactly(a: Endpoint, b: Endpoint)
    ensures PoolKey(a) == PoolKey(b) <==>
            a == b || CutFrom(a, b) || CutFrom(b, a)
  {
    if PoolKey(a) == PoolKey(b) {
      if |a.addr| == |b.addr| {
        SameLength(a, b);
      } else if |a.addr| < |b.addr| {
        Longer(a, b);
      } else {
        Longer(b, a);
      }
    } else {
      if CutFrom(a, b) { CutSameKey(a, b); }
      if CutFrom(b, a) { CutSameKey(b, a); }
    }
  }

  /** The address of `b` is that of `a` behind "x:", which `a` has at the end of its server name. */
  ghost predicate CutFrom(a: Endpoint, b: Endpoint) {
    exists x: string :: b.addr == x + ":" + a.addr && a.sni == b.sni + ":" + x
  }

  /** Every host without brackets is accepted: as it is if it has no colon, and in brackets. */
  lemma SocketTexts(host: string, port: string)
    requires host != "" && '[' !in host && ']' !in host && ':' !in port && '[' !in port && ']' !in port
    ensures ':' !in host ==> SocketAddrText(host + ":" + port)
    ensures SocketAddrText("[" + host + "]:" + port)
  {
    assert V6Text("[" + host + "]:" + port);
    if ':' !in host { assert V4Text(host + ":" + port); }
  }

  lemma CutSameKey(a: Endpoint, b: Endpoint)
    requires CutFrom(a, b)
    ensures PoolKey(a) == PoolKey(b)
  {
    var x: string :| b.addr == x + ":" + a.addr && a.sni == b.sni + ":" + x;
    assert (b.sni + ":" + x) + ":" + a.addr == b.sni + ":" + (x + ":" + a.addr);
  }

  lemma SameLength(a: Endpoint, b: Endpoint)
    requires PoolKey(a) == PoolKey(b) && |a.addr| == |b.addr|
    ensures a == b
  {
    var k := PoolKey(a);
    assert k[..|a.sni|] == a.sni && k[..|b.sni|] == b.sni;
    assert k[|a.sni| + 1..] == a.addr && k[|b.sni| + 1..] == b.addr;
  }

  lemma Longer(a: Endpoint, b: Endpoint)
    requires PoolKey(a) == PoolKey(b) && |a.addr| < |b.addr|
    ensures CutFrom(a, b)
  {
    var k, n, m := PoolKey(a), |a.sni|, |b.sni|;
    assert |k| == n + 1 + |a.addr| == m + 1 + |b.addr|;
    var x := k[m + 1..n];
    assert k[..n] == a.sni && k[n] == ':' && k[n + 1..] == a.addr;
    assert k[..m] == b.sni && k[m] == ':' && k[m + 1..] == b.addr;
    assert a.sni == b.sni + ":" + x;
    assert b.addr == x + ":" + a.addr;
  }

  lemma AfterColonV4(host: string, port: string, n: nat)
    requires ':' !in host && ':' !in port && n < |host + ":" + port| && (host + ":" + port)[n] == ':'
    ensures (host + ":" + port)[n + 1..] == port
  {
    assert n == |host|;
  }

  lemma AfterColonV6(host: string, port: string, n: nat)
    requires '[' !in host && ':' !in port && '[' !in port
    requires n < |"[" + host + "]:" + port| && ("[" + host + "]:" + port)[n] == ':'
    ensures var a := ("[" + host + "]:" + port)[n + 1..]; a == port || (']' in a && '[' !in a)
  {
    var close := |host| + 1;
    var tail := host + "]:" + port;
    var b := "[" + host + "]:" + port;
    assert b[1..] == tail && b[n + 1..] == tail[n..];
    assert n <= close + 1;
    if n == close + 1 {
      assert b[n + 1..] == port;
    } else {
      assert n != close && tail[n..][close - 1 - n] == ']';
      assert '[' !in tail;
    }
  }

  /** What follows a colon inside an accepted address lacks a colon, or closes a bracket it never opened. */
  lemma AfterColon(b: string, n: nat)
    requires SocketAddrText(b) && n < |b| && b[n] == ':'
    ensures var a := b[n + 1..]; ':' !in a || (']' in a && '[' !in a)
  {
    if V4Text(b) {
      var host: string, port: string :|
        && b == host + ":" + port
        && host != "" && ':' !in host && '[' !in host && ']' !in host
        && ':' !in port && '[' !in port && ']' !in port;
      AfterColonV4(host, port, n);
    } else {
      var host: string, port: string :|
        && b == "[" + host + "]:" + port
        && '[' !in host && ']' !in host
        && ':' !in port && '[' !in port && ']' !in port;
      AfterColonV6(host, port, n);
    }
  }

  /** An accepted address has a colon, and no closing bracket without an opening one. */
  lemma Accepted(a: string)
    requires SocketAddrText(a)
    ensures ':' in a && (']' in a ==> '[' in a)
  {
    if V4Text(a) {
      var host: string, port: string :|
        && a == host + ":" + port
        && host != "" && ':' !in host && '[' !in host && ']' !in host
        && ':' !in port && '[' !in port && ']' !in port;
      assert a[|host|] == ':';
      assert ']' !in a;
    } else {
      var host: string, port: string :| a == "[" + host + "]:" + port;
      assert a[|host| + 2] == ':' && a[0] == '[';
    }
  }

  /** An accepted address is never ":"-cut from another accepted one. */
  lemma NoAddressInside(a: string, b: string, x: string)
    requires SocketAddrText(a) && SocketAddrText(b)
    ensures b != x + ":" + a
  {
    Accepted(a);
    var y := x + ":" + a;
    assert y[|x|] == ':' && y[|x| + 1..] == a;
    if SocketAddrText(y) { AfterColon(y, |x|); }
  }

  /** Over socket addresses and any server names, distinct endpoints have distinct keys. */
  lemma PoolKeyInjective(a: Endpoint, b: Endpoint)
    requires SocketAddrText(a.addr) && SocketAddrText(b.addr)
    ensures PoolKey(a) == PoolKey(b) <==> a == b
  {
    SameKeyExactly(a, b);
    if CutFrom(a, b) {
      var x: string :| b.addr == x + ":" + a.addr && a.sni == b.sni + ":" + x;
      NoAddressInside(a.addr, b.addr, x);
    }
    if CutFrom(b, a) {
      var x: string :| a.addr == x + ":" + b.addr && b.sni == a.sni + ":" + x;
      NoAddressInside(b.addr, a.addr, x);
    }
  }

  /** So the key of an endpoint is among the keys of a routing table exactly if the endpoint is in it. */
  lemma ActiveKeysExact(active: set<Endpoint>, e: Endpoint)
    requires SocketAddrText(e.addr) && forall x :: x in active ==> SocketAddrText(x.addr)
    ensures PoolKey(e) in KeysOf(active) <==> e in active
  {
    if PoolKey(e) in KeysOf(active) {
      var x :| x in active && PoolKey(x) == PoolKey(e);
      PoolKeyInjective(x, e);
    }
  }
}
