/**
 * Query strings: percent-encoding as written by src/http/server.rs (sections 2.1 and 2.3 of RFC 3986)
 * and form decoding as done by the URL library for src/subscription/parser.rs.
 */
module Query {
  import opened Prelude
  import opened Base64

  predicate Unreserved(c: char) {
    'A' <= c <= 'Z' || 'a' <= c <= 'z' || '0' <= c <= '9' || c == '-' || c == '.' || c == '_' || c == '~'
  }

  function Hex(v: nat): (c: char)
    requires v < 16
  {
    if v < 10 then '0' + v as char else 'A' + (v - 10) as char
  }

  function HexValue(c: char): (v: Option<nat>)
    ensures v.Some? ==> v.value < 16
  {
    if '0' <= c <= '9' then Some((c - '0') as int)
    else if 'A' <= c <= 'F' then Some((c - 'A') as int + 10)
    else if 'a' <= c <= 'f' then Some((c - 'a') as int + 10)
    else None
  }

  function EncodeByte(c: char): (r: string)
    requires c as int < 0x100
  {
    if Unreserved(c) then [c] else ['%', Hex(c as int / 16), Hex(c as int % 16)]
  }

  function Encoded(s: string): (r: string)
    requires IsBytes(s)
  {
    if s == "" then "" else EncodeByte(s[0]) + Encoded(s[1..])
  }

  method PercentEncode(value: string) returns (encoded: string)
    requires IsBytes(value)
    ensures encoded == Encoded(value)
  {
    hide Unreserved, Hex;
    encoded := "";
    var i := 0;
    while i < |value|
      invariant 0 <= i <= |value|
      invariant encoded + Encoded(value[i..]) == Encoded(value)
    {
      var byte := value[i];
      ghost var rest := Encoded(value[i + 1..]);
      assert value[i..][1..] == value[i + 1..];
      assert encoded + (EncodeByte(byte) + rest) == (encoded + EncodeByte(byte)) + rest;
      if Unreserved(byte) {
        encoded := encoded + [byte];
      } else {
        ghost var was := encoded;
        encoded := encoded + ['%'];
        encoded := encoded + [Hex(byte as int / 16)];
        encoded := encoded + [Hex(byte as int % 16)];
        assert encoded == was + EncodeByte(byte);
      }
      i := i + 1;
    }
    assert encoded + "" == encoded;
  }

  /** Form decoding: '+' is a blank, %XX a byte, and a '%' without two hex digits stays. */
  function Decoded(s: string): (r: string)
    decreases |s|
  {
    if s == "" then ""
    else if s[0] == '+' then " " + Decoded(s[1..])
    else if s[0] == '%' && |s| >= 3 && HexValue(s[1]).Some? && HexValue(s[2]).Some? then
      [(HexValue(s[1]).value * 16 + HexValue(s[2]).value) as char] + Decoded(s[3..])
    else [s[0]] + Decoded(s[1..])
  }

  /** The text before and after the first `c`, if there is one. */
  function SplitOnce(s: string, c: char): (r: Option<(string, string)>)
    ensures r.Some? <==> c in s
  {
    if s == "" then None
    else if s[0] == c then Some(("", s[1..]))
    else
      match SplitOnce(s[1..], c)
      case None => None
      case Some((before, after)) => Some(([s[0]] + before, after))
  }

  type Pair = p: (string, string) | IsBytes(p.0) && IsBytes(p.1) witness ("", "")

  function EncodedPair(p: Pair): (r: string) {
    Encoded(p.0) + "=" + Encoded(p.1)
  }

  function Rendered(pairs: seq<Pair>): (r: string) {
    if pairs == [] then ""
    else if |pairs| == 1 then EncodedPair(pairs[0])
    else EncodedPair(pairs[0]) + "&" + Rendered(pairs[1..])
  }

  method PushQueryPair(query: string, key: string, value: string, ghost before: seq<Pair>) returns (out: string)
    requires IsBytes(key) && IsBytes(value) && query == Rendered(before)
    ensures out == Rendered(before + [(key, value)])
  {
    RenderedSnoc(before, (key, value));
    RenderedEmpty(before);
    out := query;
    if out != "" {
      out := out + ['&'];
    }
    var k := PercentEncode(key);
    var v := PercentEncode(value);
    out := out + k;
    out := out + ['='];
    out := out + v;
  }

  function ParsedPair(segment: string): (p: (string, string)) {
    match SplitOnce(segment, '=')
    case None => (Decoded(segment), "")
    case Some((key, value)) => (Decoded(key), Decoded(value))
  }

  /** The pairs of a query string; empty segments are skipped. */
  function Parsed(query: string): (pairs: seq<(string, string)>)
    decreases |query|
  {
    if query == "" then []
    else
      match SplitOnce(query, '&')
      case None => [ParsedPair(query)]
      case Some((segment, rest)) =>
        SplitOnceShorter(query, '&');
        (if segment == "" then [] else [ParsedPair(segment)]) + Parsed(rest)
  }

  // ---------------------------------------------------------------------------------------------
  // Proofs
  // ---------------------------------------------------------------------------------------------

  lemma {:induction false} SplitOnceShorter(s: string, c: char)
    ensures var r := SplitOnce(s, c); r.Some? ==> s == r.value.0 + [c] + r.value.1 && c !in r.value.0
  {
    if s != "" && s[0] != c {
      SplitOnceShorter(s[1..], c);
    }
  }

  lemma {:induction false} SplitOnceAt(before: string, c: char, after: string)
    requires c !in before
    ensures SplitOnce(before + [c] + after, c) == Some((before, after))
  {
    if before == "" {
      assert before + [c] + after == [c] + after;
    } else {
      SplitOnceAt(before[1..], c, after);
      var s := before + [c] + after;
      assert s[0] == before[0] && s[1..] == before[1..] + [c] + after;
      assert before == [before[0]] + before[1..];
    }
  }

  lemma HexRoundTrip(v: nat)
    requires v < 16
    ensures HexValue(Hex(v)) == Some(v)
    ensures Unreserved(Hex(v))
  {}

  lemma EncodeByteDecodes(c: char, rest: string)
    requires c as int < 0x100
    ensures Decoded(EncodeByte(c) + rest) == [c] + Decoded(rest)
  {
    var e := EncodeByte(c) + rest;
    if Unreserved(c) {
      assert e[1..] == rest;
    } else {
      HexRoundTrip(c as int / 16);
      HexRoundTrip(c as int % 16);
      assert e[0] == '%' && e[3..] == rest;
    }
  }

  /** Decoding what was percent-encoded gives every byte back. */
  lemma {:induction false} EncodedRoundTrip(s: string)
    requires IsBytes(s)
    ensures Decoded(Encoded(s)) == s
  {
    if s != "" {
      EncodeByteDecodes(s[0], Encoded(s[1..]));
      EncodedRoundTrip(s[1..]);
    }
  }

  /** An encoded text has none of the characters that structure a query or a link. */
  lemma {:induction false} EncodedPlain(s: string)
    requires IsBytes(s)
    ensures forall c :: c in Encoded(s) ==> Unreserved(c) || c == '%'
  {
    if s != "" {
      EncodedPlain(s[1..]);
      HexRoundTrip(s[0] as int / 16);
      HexRoundTrip(s[0] as int % 16);
      var (head, tail) := (EncodeByte(s[0]), Encoded(s[1..]));
      forall c | c in head + tail ensures Unreserved(c) || c == '%' {
        assert c in head || c in tail;
      }
    }
  }

  lemma PairPlain(p: Pair)
    ensures '&' !in EncodedPair(p) && '#' !in EncodedPair(p) && EncodedPair(p) != ""
    ensures ParsedPair(EncodedPair(p)) == p
  {
    hide Encoded, Decoded, SplitOnce;
    var (key, value) := (Encoded(p.0), Encoded(p.1));
    EncodedPlain(p.0);
    EncodedPlain(p.1);
    EncodedRoundTrip(p.0);
    EncodedRoundTrip(p.1);
    assert '=' !in key;
    SplitOnceAt(key, '=', value);
    forall c | c in key + "=" + value ensures c != '&' && c != '#' {
      assert c in key || c == '=' || c in value;
    }
  }

  lemma {:induction false} RenderedSnoc(pairs: seq<Pair>, p: Pair)
    ensures Rendered(pairs + [p]) == if pairs == [] then EncodedPair(p) else Rendered(pairs) + "&" + EncodedPair(p)
  {
    hide EncodedPair;
    if pairs == [] {
      assert pairs + [p] == [p];
    } else {
      assert (pairs + [p])[1..] == pairs[1..] + [p];
      RenderedSnoc(pairs[1..], p);
    }
  }

  lemma RenderedEmpty(pairs: seq<Pair>)
    ensures Rendered(pairs) == "" <==> pairs == []
  {
    if pairs != [] { PairPlain(pairs[0]); }
  }

  /** A query string parses back into its pairs, all of them, in order, whatever bytes they hold. */
  lemma {:induction false} QueryRoundTrip(pairs: seq<Pair>)
    ensures Parsed(Rendered(pairs)) == pairs
    ensures '#' !in Rendered(pairs)
  {
    hide EncodedPair, ParsedPair;
    if pairs != [] {
      PairPlain(pairs[0]);
      var first := EncodedPair(pairs[0]);
      if |pairs| == 1 {
        NoSplit(first, '&');
        assert pairs == [pairs[0]];
      } else {
        var rest := Rendered(pairs[1..]);
        QueryRoundTrip(pairs[1..]);
        SplitOnceAt(first, '&', rest);
        assert first + "&" + rest == first + ['&'] + rest;
        assert pairs == [pairs[0]] + pairs[1..];
      }
    }
  }

  /** In a form, a plus sign is a blank and a percent sign without two digits is itself. */
  lemma FormDecoding()
    ensures Decoded("+") == " " && Decoded("%2F") == "/" && Decoded("%2f") == "/" && Decoded("%2") == "%2"
    ensures Decoded("%6a") == "j" && Decoded("%4A") == "J"
  {
    assert "%6a"[3..] == "" && "%4A"[3..] == "";
    assert "+"[1..] == "" && "%2F"[3..] == "" && "%2f"[3..] == "" && "%2"[1..] == "2" && "2"[1..] == "";
  }

  /** The digits of an escape are upper-case hexadecimal. */
  lemma HexText(v: nat)
    requires v < 16
    ensures Hex(v) == "0123456789ABCDEF"[v]
  {}

  /** The unreserved characters of section 2.3 of RFC 3986, by the edges of their ranges. */
  lemma UnreservedTable()
    ensures Unreserved('A') && Unreserved('Z') && Unreserved('a') && Unreserved('z')
    ensures Unreserved('0') && Unreserved('9')
    ensures Unreserved('-') && Unreserved('.') && Unreserved('_') && Unreserved('~')
    ensures !Unreserved('@') && !Unreserved('[') && !Unreserved('`') && !Unreserved('{') && !Unreserved('/')
    ensures !Unreserved(':') && !Unreserved(',') && !Unreserved('^') && !Unreserved('}') && !Unreserved(' ')
    ensures !Unreserved('+') && !Unreserved('%') && !Unreserved('&') && !Unreserved('=') && !Unreserved('#')
  {}

  /** Unreserved characters stay as they are; any other byte becomes a percent sign and its two digits. */
  lemma {:induction false} EncodedParts(a: string, c: char, b: string)
    requires IsBytes(a) && IsBytes(b) && c as int < 0x100 && IsBytes(a + [c] + b)
    ensures Encoded(a + [c] + b) ==
            Encoded(a) + (if Unreserved(c) then [c] else ['%', Hex(c as int / 16), Hex(c as int % 16)]) + Encoded(b)
  {
    hide Unreserved, Hex;
    var s := a + [c] + b;
    if a == "" {
      assert s == [c] + b && s[1..] == b;
    } else {
      assert s[0] == a[0] && s[1..] == a[1..] + [c] + b;
      EncodedParts(a[1..], c, b);
      var (x, y, m, z) := (EncodeByte(a[0]), Encoded(a[1..]), EncodeByte(c), Encoded(b));
      assert x + (y + m + z) == (x + y) + m + z;
    }
  }

  lemma {:induction false} EncodedSame(s: string)
    requires IsBytes(s) && forall i :: 0 <= i < |s| ==> Unreserved(s[i])
    ensures Encoded(s) == s
  {
    hide Unreserved, Hex;
    if s != "" { EncodedSame(s[1..]); }
  }

  /** The pairs, each with the separator behind it. */
  function Lead(pairs: seq<Pair>): (r: string) {
    if pairs == [] then "" else EncodedPair(pairs[0]) + "&" + Lead(pairs[1..])
  }

  lemma {:induction false} LeadAppend(a: seq<Pair>, b: seq<Pair>)
    ensures Lead(a + b) == Lead(a) + Lead(b)
  {
    hide EncodedPair;
    if a == [] {
      assert a + b == b;
    } else {
      assert (a + b)[1..] == a[1..] + b;
      LeadAppend(a[1..], b);
    }
  }

  lemma {:induction false} RenderedLead(pairs: seq<Pair>, last: Pair)
    ensures Rendered(pairs + [last]) == Lead(pairs) + EncodedPair(last)
  {
    hide EncodedPair;
    var all := pairs + [last];
    if pairs == [] {
      assert all == [last];
    } else {
      assert all[1..] == pairs[1..] + [last];
      RenderedLead(pairs[1..], last);
    }
  }

  lemma NoSplit(s: string, c: char)
    requires c !in s
    ensures SplitOnce(s, c) == None
  {}
}
