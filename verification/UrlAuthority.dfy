/**
 * The authority of a URL with a scheme such as "vmess", as the URL library that src/subscription/parser.rs
 * calls reads it: the opaque-host rules of the WHATWG URL Standard. Texts are UTF-8 byte strings.
 */
module UrlAuthority {
  import opened Prelude
  import opened Nodes
  import opened Query

  /** Canonical text of what stands between brackets, if that is an IPv6 address. */
  type Ipv6Reader = string -> Option<string>

  /** `port` is zero if none is given. */
  datatype Authority = Authority(username: string, host: string, port: nat)

  // ---------------------------------------------------------------------------------------------
  // Reading
  // ---------------------------------------------------------------------------------------------

  function Trimmed(s: string): (r: string) {
    if s != "" && s[|s| - 1] <= ' ' then Trimmed(s[..|s| - 1]) else s
  }

  /** Tabs and line breaks are skipped wherever they stand. */
  function Kept(s: string): (r: string) {
    if s == "" then "" else if Skipped(s[0]) then Kept(s[1..]) else [s[0]] + Kept(s[1..])
  }

  predicate Skipped(c: char) {
    c == '\t' || c == '\n' || c == '\r'
  }

  predicate EndsAuthority(c: char) {
    c == '/' || c == '?' || c == '#'
  }

  function AuthorityPart(s: string): (r: string) {
    if s == "" || EndsAuthority(s[0]) then "" else [s[0]] + AuthorityPart(s[1..])
  }

  function SplitLast(s: string, c: char): (r: Option<(string, string)>) {
    if s == "" then None
    else
      var n := |s| - 1;
      if s[n] == c then Some((s[..n], ""))
      else
        match SplitLast(s[..n], c)
        case None => None
        case Some((before, after)) => Some((before, after + [s[n]]))
  }

  /** The place of the first colon outside brackets. */
  function HostEnd(s: string, inside: bool): (k: nat)
    ensures k <= |s|
  {
    if s == "" || (s[0] == ':' && !inside) then 0
    else 1 + HostEnd(s[1..], s[0] == '[' || (inside && s[0] != ']'))
  }

  predicate EscapeChar(c: char) {
    c == '%' || '0' <= c <= '9' || 'A' <= c <= 'F'
  }

  function Escaped(c: char): (r: string)
    ensures r != "" && forall i :: 0 <= i < |r| ==> EscapeChar(r[i])
  {
    ['%', Hex(c as int / 16 % 16), Hex(c as int % 16)]
  }

  /** What stays as it is in a user name; all else is percent-encoded. */
  predicate UserChar(c: char) {
    && ' ' < c <= '~' && c != '"' && c != '#' && c != '/' && c != '`'
    && !(':' <= c <= '@') && !('[' <= c <= '^') && !('{' <= c <= '}')
  }

  function EscapeUserChar(c: char): (r: string)
    ensures r != "" && forall i :: 0 <= i < |r| ==> UserChar(r[i])
  {
    hide Escaped;
    if UserChar(c) then [c] else Escaped(c)
  }

  function EscapeUser(s: string): (r: string) {
    if s == "" then "" else EscapeUserChar(s[0]) + EscapeUser(s[1..])
  }

  /** A host with one of these is refused. */
  predicate ForbiddenInHost(c: char) {
    || c == '\0' || c == '\t' || c == '\n' || c == '\r' || c == ' '
    || c == '#' || c == '/' || c == ':' || c == '<' || '>' <= c <= '@' || '[' <= c <= '^' || c == '|'
  }

  /** What stays as it is in a host; of what is not refused, all else is percent-encoded. */
  predicate HostChar(c: char) {
    ' ' < c <= '~' && !ForbiddenInHost(c)
  }

  function EscapeHostChar(c: char): (r: string)
    ensures r != "" && forall i :: 0 <= i < |r| ==> HostChar(r[i])
  {
    hide Escaped;
    if HostChar(c) then [c] else Escaped(c)
  }

  function EscapeHost(s: string): (r: string)
    ensures forall i :: 0 <= i < |r| ==> HostChar(r[i])
  {
    hide HostChar, EscapeHostChar;
    if s == "" then "" else EscapeHostChar(s[0]) + EscapeHost(s[1..])
  }

  predicate Bracketed(h: string) {
    |h| >= 2 && h[0] == '[' && h[|h| - 1] == ']'
  }

  /** An empty host is refused here: without a host a link has no port either. */
  function HostOf(ipv6: Ipv6Reader, h: string): (r: Option<string>) {
    if h == "" then None
    else if h[0] == '[' then
      if !Bracketed(h) then None
      else
        var address := ipv6(h[1..|h| - 1]);
        if address.None? then None else Some("[" + address.value + "]")
    else if exists i :: 0 <= i < |h| && ForbiddenInHost(h[i]) then None
    else Some(EscapeHost(h))
  }

  function LeadingDigits(s: string): (r: string)
    ensures r <= s && forall i :: 0 <= i < |r| ==> IsDigit(r[i])
  {
    if s == "" || !IsDigit(s[0]) then "" else [s[0]] + LeadingDigits(s[1..])
  }

  function PortOf(s: string): (r: Option<nat>) {
    var digits := LeadingDigits(s);
    if |digits| < |s| && s[|digits|] != '\\' then None
    else if DecimalValue(digits) > 65535 then None
    else Some(DecimalValue(digits))
  }

  function UserOf(userinfo: string): (r: string) {
    match SplitOnce(userinfo, ':')
    case None => userinfo
    case Some((user, _)) => user
  }

  function ParseAuthority(ipv6: Ipv6Reader, s: string): (r: Option<Authority>) {
    var a := AuthorityPart(Kept(Trimmed(s)));
    var at := SplitLast(a, '@');
    var (userinfo, rest) := if at.None? then ("", a) else at.value;
    var k := HostEnd(rest, false);
    var host := HostOf(ipv6, rest[..k]);
    var port := PortOf(if k < |rest| then rest[k + 1..] else "");
    if host.None? || port.None? then None
    else Some(Authority(EscapeUser(UserOf(userinfo)), host.value, port.value))
  }

  // ---------------------------------------------------------------------------------------------
  // What can be read back
  // ---------------------------------------------------------------------------------------------

  /** The signs that a user name keeps and those it does not, as the URL Standard lists them. */
  lemma UserCharTable()
    ensures UserChar('A') && UserChar('Z') && UserChar('a') && UserChar('z') && UserChar('0') && UserChar('9')
    ensures UserChar('!') && UserChar('$') && UserChar('%') && UserChar('&') && UserChar('\'') && UserChar('(')
    ensures UserChar(')') && UserChar('*') && UserChar('+') && UserChar(',') && UserChar('-') && UserChar('.')
    ensures UserChar('_') && UserChar('~')
    ensures !UserChar('"') && !UserChar('#') && !UserChar('/') && !UserChar(':') && !UserChar(';') && !UserChar('<')
    ensures !UserChar('=') && !UserChar('>') && !UserChar('?') && !UserChar('@') && !UserChar('[') && !UserChar('\\')
    ensures !UserChar(']') && !UserChar('^') && !UserChar('`') && !UserChar('{') && !UserChar('|') && !UserChar('}')
    ensures !UserChar(' ') && !UserChar(0x1F as char) && !UserChar(0x7F as char) && !UserChar(0x80 as char)
  {}

  /** The signs that an opaque host keeps and those it does not. */
  lemma HostCharTable()
    ensures HostChar('A') && HostChar('Z') && HostChar('a') && HostChar('z') && HostChar('0') && HostChar('9')
    ensures HostChar('!') && HostChar('"') && HostChar('$') && HostChar('%') && HostChar('&') && HostChar('\'')
    ensures HostChar('(') && HostChar(')') && HostChar('*') && HostChar('+') && HostChar(',') && HostChar('-')
    ensures HostChar('.') && HostChar(';') && HostChar('=') && HostChar('_') && HostChar('`') && HostChar('{')
    ensures HostChar('}') && HostChar('~')
    ensures !HostChar('#') && !HostChar('/') && !HostChar(':') && !HostChar('<') && !HostChar('>') && !HostChar('?')
    ensures !HostChar('@') && !HostChar('[') && !HostChar('\\') && !HostChar(']') && !HostChar('^') && !HostChar('|')
    ensures !HostChar(' ') && !HostChar(0x1F as char) && !HostChar(0x7F as char) && !HostChar(0x80 as char)
  {}

  predicate UserText(s: string) {
    s != "" && forall i :: 0 <= i < |s| ==> UserChar(s[i])
  }

  predicate PlainHost(h: string) {
    h != "" && forall i :: 0 <= i < |h| ==> HostChar(h[i])
  }

  predicate AddressChar(c: char) {
    '0' <= c <= '9' || 'a' <= c <= 'f' || 'A' <= c <= 'F' || c == ':' || c == '.'
  }

  predicate AddressHost(h: string) {
    Bracketed(h) && forall i :: 1 <= i < |h| - 1 ==> AddressChar(h[i])
  }

  /** A reader of IPv6 addresses accepts and prints address characters only. */
  ghost predicate ReadsAddresses(ipv6: Ipv6Reader) {
    forall s: string, i: int :: ipv6(s).Some? && 0 <= i < |ipv6(s).value| ==> AddressChar(ipv6(s).value[i])
  }

  /** A host comes out with host characters only, or as a bracketed address. */
  lemma HostRange(ipv6: Ipv6Reader, h: string)
    requires ReadsAddresses(ipv6) && HostOf(ipv6, h).Some?
    ensures PlainHost(HostOf(ipv6, h).value) || AddressHost(HostOf(ipv6, h).value)
  {
    var r := HostOf(ipv6, h).value;
    if h[0] == '[' {
      var s := h[1..|h| - 1];
      var address := ipv6(s).value;
      forall i | 1 <= i < |r| - 1 ensures AddressChar(r[i]) {
        assert r[i] == ipv6(s).value[i - 1];
      }
    } else {
      EscapeHostNonEmpty(h);
    }
  }

  lemma EscapeHostNonEmpty(h: string)
    requires h != ""
    ensures EscapeHost(h) != ""
  {}

  lemma {:induction false} UserRange(s: string)
    ensures forall i :: 0 <= i < |EscapeUser(s)| ==> UserChar(EscapeUser(s)[i])
  {
    hide UserChar, EscapeUserChar;
    if s != "" { UserRange(s[1..]); }
  }

  lemma AuthorityRange(ipv6: Ipv6Reader, s: string)
    requires ReadsAddresses(ipv6) && ParseAuthority(ipv6, s).Some?
    ensures var a := ParseAuthority(ipv6, s).value;
            && (forall i :: 0 <= i < |a.username| ==> UserChar(a.username[i]))
            && (PlainHost(a.host) || AddressHost(a.host))
  {
    hide AuthorityPart, Kept, Trimmed, SplitLast, HostOf, PortOf, UserOf, EscapeUser;
    hide ReadsAddresses, PlainHost, AddressHost;
    var a := AuthorityPart(Kept(Trimmed(s)));
    var at := SplitLast(a, '@');
    var rest := if at.None? then a else at.value.1;
    HostRange(ipv6, rest[..HostEnd(rest, false)]);
    UserRange(UserOf(if at.None? then "" else at.value.0));
  }

  // ---------------------------------------------------------------------------------------------
  // Round trip
  // ---------------------------------------------------------------------------------------------

  predicate Clean(s: string) {
    forall i :: 0 <= i < |s| ==> s[i] > ' ' && !EndsAuthority(s[i])
  }

  lemma {:induction false} CleanKept(s: string)
    requires Clean(s)
    ensures Kept(s) == s && AuthorityPart(s) == s
  {
    if s != "" { CleanKept(s[1..]); }
  }

  lemma CleanPart(s: string)
    requires Clean(s)
    ensures AuthorityPart(Kept(Trimmed(s))) == s
  {
    CleanKept(s);
    assert Trimmed(s) == s;
  }

  lemma SplitLastSnoc(s: string, x: char, c: char)
    ensures var r := SplitLast(s, c);
            SplitLast(s + [x], c) ==
            if x == c then Some((s, "")) else if r.None? then None else Some((r.value.0, r.value.1 + [x]))
  {
    assert (s + [x])[..|s|] == s;
  }

  lemma {:induction false} SplitLastAt(before: string, c: char, after: string)
    requires c !in after
    ensures SplitLast(before + [c] + after, c) == Some((before, after))
    decreases |after|
  {
    hide SplitLast;
    if after == "" {
      assert before + [c] + after == before + [c];
      SplitLastSnoc(before, c, c);
    } else {
      var m := |after| - 1;
      var s := before + [c] + after[..m];
      SplitLastAt(before, c, after[..m]);
      SplitLastSnoc(s, after[m], c);
      assert before + [c] + after == s + [after[m]];
      assert after == after[..m] + [after[m]];
    }
  }

  lemma {:induction false} UserKept(s: string)
    requires forall i :: 0 <= i < |s| ==> UserChar(s[i])
    ensures EscapeUser(s) == s
  {
    if s != "" { UserKept(s[1..]); }
  }

  lemma {:induction false} HostKept(s: string)
    requires forall i :: 0 <= i < |s| ==> HostChar(s[i])
    ensures EscapeHost(s) == s
  {
    if s != "" { HostKept(s[1..]); }
  }

  lemma {:induction false} PlainHostEnd(h: string, tail: string)
    requires forall i :: 0 <= i < |h| ==> HostChar(h[i])
    ensures HostEnd(h + ":" + tail, false) == |h|
  {
    if h != "" {
      assert (h + ":" + tail)[1..] == h[1..] + ":" + tail;
      PlainHostEnd(h[1..], tail);
    }
  }

  lemma {:induction false} InsideEnd(x: string, tail: string)
    requires forall i :: 0 <= i < |x| ==> AddressChar(x[i])
    ensures HostEnd(x + "]:" + tail, true) == |x| + 1
  {
    var s := x + "]:" + tail;
    if x == "" {
      assert s[1..] == ":" + tail;
      assert HostEnd(":" + tail, false) == 0;
    } else {
      assert s[1..] == x[1..] + "]:" + tail;
      InsideEnd(x[1..], tail);
    }
  }

  lemma AddressHostEnd(h: string, tail: string)
    requires AddressHost(h)
    ensures HostEnd(h + ":" + tail, false) == |h|
  {
    var x := h[1..|h| - 1];
    InsideEnd(x, tail);
    assert (h + ":" + tail)[1..] == x + "]:" + tail;
  }

  lemma {:induction false} AllDigits(s: string)
    requires forall i :: 0 <= i < |s| ==> IsDigit(s[i])
    ensures LeadingDigits(s) == s
  {
    if s != "" { AllDigits(s[1..]); }
  }

  lemma PortRead(port: nat)
    requires port <= 65535
    ensures PortOf(Decimal(port)) == Some(port)
  {
    AllDigits(Decimal(port));
    DecimalRoundTrip(port);
  }

  lemma ReadableClean(user: string, h: string, port: nat)
    requires UserText(user) && (PlainHost(h) || AddressHost(h))
    ensures Clean(user + "@" + h + ":" + Decimal(port))
    ensures '@' !in h + ":" + Decimal(port) && ':' !in user
  {
    hide Decimal;
    var d := Decimal(port);
    assert Clean(user);
    assert Clean(h) && '@' !in h by {
      if AddressHost(h) {
        forall i | 0 <= i < |h| ensures h[i] > ' ' && !EndsAuthority(h[i]) && h[i] != '@' {
          assert i == 0 || i == |h| - 1 || AddressChar(h[i]);
        }
      }
    }
    assert forall i :: 0 <= i < |d| ==> IsDigit(d[i]);
  }

  /** A host outside brackets is refused exactly if it has a forbidden character or is empty. */
  lemma RefusedExactly(ipv6: Ipv6Reader, h: string)
    requires h == "" || h[0] != '['
    ensures HostOf(ipv6, h).None? <==> h == "" || exists c :: c in h && ForbiddenInHost(c)
  {
    hide ForbiddenInHost, EscapeHost;
    if c :| c in h && ForbiddenInHost(c) {
      var i :| 0 <= i < |h| && h[i] == c;
      assert ForbiddenInHost(h[i]);
    }
  }

  /** Behind the digits of a port only a backslash, which begins a path, may stand. */
  lemma PortJunk(digits: string, c: char, rest: string)
    requires (forall i :: 0 <= i < |digits| ==> IsDigit(digits[i])) && !IsDigit(c)
    ensures PortOf(digits + [c] + rest) ==
            if c == '\\' && DecimalValue(digits) <= 65535 then Some(DecimalValue(digits)) else None
  {
    hide DecimalValue;
    DigitsStop(digits, c, rest);
  }

  lemma {:induction false} DigitsStop(digits: string, c: char, rest: string)
    requires (forall i :: 0 <= i < |digits| ==> IsDigit(digits[i])) && !IsDigit(c)
    ensures LeadingDigits(digits + [c] + rest) == digits
  {
    var s := digits + [c] + rest;
    if digits == "" {
      assert s[0] == c;
    } else {
      assert s[0] == digits[0] && s[1..] == digits[1..] + [c] + rest;
      DigitsStop(digits[1..], c, rest);
    }
  }

  /** Blanks and controls at the end, and tabs and line breaks anywhere, make no difference. */
  lemma IgnoredAtEnd(ipv6: Ipv6Reader, s: string, c: char)
    requires c <= ' '
    ensures ParseAuthority(ipv6, s + [c]) == ParseAuthority(ipv6, s)
  {
    hide AuthorityPart, Kept, SplitLast, HostEnd, HostOf, PortOf, UserOf, EscapeUser;
    assert (s + [c])[..|s|] == s;
  }

  lemma {:induction false} KeptParts(a: string, c: char, b: string)
    ensures Kept(a + [c] + b) == Kept(a) + (if c == '\t' || c == '\n' || c == '\r' then "" else [c]) + Kept(b)
  {
    var s := a + [c] + b;
    if a == "" {
      assert s == [c] + b && s[1..] == b;
    } else {
      assert s[0] == a[0] && s[1..] == a[1..] + [c] + b;
      KeptParts(a[1..], c, b);
      var (x, m) := (if Skipped(a[0]) then "" else [a[0]], if Skipped(c) then "" else [c]);
      assert x + (Kept(a[1..]) + m + Kept(b)) == (x + Kept(a[1..])) + m + Kept(b);
    }
  }

  lemma EscapeUserHead(s: string)
    requires s != ""
    ensures EscapeUser(s) == EscapeUserChar(s[0]) + EscapeUser(s[1..]) && EscapeUser("") == ""
  {
    hide EscapeUserChar, UserChar;
  }

  lemma {:induction false} EscapeUserAppend(a: string, b: string)
    ensures EscapeUser(a + b) == EscapeUser(a) + EscapeUser(b)
  {
    hide EscapeUser, EscapeUserChar, UserChar;
    if a == "" {
      EscapeUserHead("x");
      assert a + b == b && "" + EscapeUser(b) == EscapeUser(b);
    } else {
      EscapeUserAppend(a[1..], b);
      EscapeUserHead(a);
      EscapeUserHead(a + b);
      assert (a + b)[0] == a[0] && (a + b)[1..] == a[1..] + b;
      ThreeParts(EscapeUserChar(a[0]), EscapeUser(a[1..]), EscapeUser(b));
    }
  }

  lemma ThreeParts(x: string, y: string, z: string)
    ensures x + (y + z) == (x + y) + z
  {}

  /** A user name is escaped byte by byte, with upper-case digits. */
  lemma EscapeUserByte(c: char)
    ensures EscapeUser([c]) == if UserChar(c) then [c] else ['%', Hex(c as int / 16 % 16), Hex(c as int % 16)]
  {
    hide UserChar, Hex;
    assert [c][1..] == "" && EscapeUser("") == "";
    assert EscapeUser([c]) == EscapeUserChar(c) + "";
  }

  /**
   * Whatever user information stands before the last at sign: the user name is what stands before its
   * first colon, escaped, and the rest of it is a password.
   */
  lemma AuthorityReadAny(ipv6: Ipv6Reader, user: string, password: string, h: string, port: nat)
    requires Clean(user) && Clean(password) && ':' !in user
    requires (PlainHost(h) || AddressHost(h)) && port <= 65535
    ensures var host := HostOf(ipv6, h);
            ParseAuthority(ipv6, user + [':'] + password + "@" + h + ":" + Decimal(port)) ==
            if host.None? then None else Some(Authority(EscapeUser(user), host.value, port))
  {
    hide AuthorityPart, Kept, Trimmed, SplitLast, SplitOnce, HostEnd, HostOf, PortOf, EscapeUser;
    hide Decimal, PlainHost, AddressHost;
    var rest := h + ":" + Decimal(port);
    var info := user + [':'] + password;
    var s := info + "@" + h + ":" + Decimal(port);
    assert s == info + ['@'] + rest;
    HostClean(h, port);
    CleanPart(s);
    SplitLastAt(info, '@', rest);
    SplitOnceAt(user, ':', password);
    HostEndAt(h, Decimal(port));
    assert rest[..|h|] == h && rest[|h| + 1..] == Decimal(port);
    PortRead(port);
  }

  lemma HostClean(h: string, port: nat)
    requires PlainHost(h) || AddressHost(h)
    ensures Clean(h + ":" + Decimal(port)) && '@' !in h + ":" + Decimal(port)
  {
    hide Decimal;
    var d := Decimal(port);
    assert Clean(h) && '@' !in h by {
      if AddressHost(h) {
        forall i | 0 <= i < |h| ensures h[i] > ' ' && !EndsAuthority(h[i]) && h[i] != '@' {
          assert i == 0 || i == |h| - 1 || AddressChar(h[i]);
        }
      }
    }
    assert forall i :: 0 <= i < |d| ==> IsDigit(d[i]);
  }

  lemma HostEndAt(h: string, tail: string)
    requires PlainHost(h) || AddressHost(h)
    ensures HostEnd(h + ":" + tail, false) == |h|
  {
    if PlainHost(h) { PlainHostEnd(h, tail); } else { AddressHostEnd(h, tail); }
  }

  /** A kept user name, a host of either kind and a port are found, and the host decides. */
  lemma AuthorityRead(ipv6: Ipv6Reader, user: string, h: string, port: nat)
    requires UserText(user) && (PlainHost(h) || AddressHost(h)) && port <= 65535
    ensures var host := HostOf(ipv6, h);
            ParseAuthority(ipv6, user + "@" + h + ":" + Decimal(port)) ==
            if host.None? then None else Some(Authority(user, host.value, port))
  {
    hide AuthorityPart, Kept, Trimmed, SplitLast, SplitOnce, HostEnd, HostOf, PortOf, EscapeUser;
    hide Decimal, Clean, PlainHost, AddressHost;
    var rest := h + ":" + Decimal(port);
    var s := user + "@" + h + ":" + Decimal(port);
    assert s == user + ['@'] + rest;
    ReadableClean(user, h, port);
    CleanPart(s);
    SplitLastAt(user, '@', rest);
    NoSplit(user, ':');
    UserKept(user);
    if PlainHost(h) {
      PlainHostChars(h);
      PlainHostEnd(h, Decimal(port));
    } else {
      AddressHostEnd(h, Decimal(port));
    }
    assert rest[..|h|] == h && rest[|h| + 1..] == Decimal(port);
    PortRead(port);
  }

  lemma PlainHostChars(h: string)
    requires PlainHost(h)
    ensures forall i :: 0 <= i < |h| ==> HostChar(h[i])
  {}

  /** A plain host is read as it is, a bracketed address as the canonical one. */
  lemma HostRead(ipv6: Ipv6Reader, h: string)
    requires PlainHost(h) || AddressHost(h)
    ensures HostOf(ipv6, h) ==
            if PlainHost(h) then Some(h)
            else
              var address := ipv6(h[1..|h| - 1]);
              if address.None? then None else Some("[" + address.value + "]")
  {
    if PlainHost(h) {
      HostKept(h);
      assert h[0] != '[';
    }
  }
}
