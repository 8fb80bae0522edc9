/**
 * Base64 of sections 4 and 5 of RFC 4648, and the fallback over four engines of
 * src/subscription/parser.rs. A text is its UTF-8 bytes, one character (below 256) per byte.
 */
module Base64 {
  import opened Prelude

  ghost predicate IsBytes(s: string) {
    forall i :: 0 <= i < |s| ==> s[i] as int < 0x100
  }

  datatype Alphabet = Standard | UrlSafe

  function Letter(alphabet: Alphabet, v: nat): (c: char)
    requires v < 64
  {
    if v < 26 then 'A' + v as char
    else if v < 52 then 'a' + (v - 26) as char
    else if v < 62 then '0' + (v - 52) as char
    else if v == 62 then (if alphabet.Standard? then '+' else '-')
    else (if alphabet.Standard? then '/' else '_')
  }

  function Sextet(alphabet: Alphabet, c: char): (v: Option<nat>)
    ensures v.Some? ==> v.value < 64
  {
    if 'A' <= c <= 'Z' then Some((c - 'A') as int)
    else if 'a' <= c <= 'z' then Some((c - 'a') as int + 26)
    else if '0' <= c <= '9' then Some((c - '0') as int + 52)
    else if c == (if alphabet.Standard? then '+' else '-') then Some(62)
    else if c == (if alphabet.Standard? then '/' else '_') then Some(63)
    else None
  }

  /** The byte at `i`, or zero beyond the end. */
  function At(s: string, i: nat): (b: nat)
    requires IsBytes(s)
    ensures b < 0x100
  {
    if i < |s| then s[i] as int else 0
  }

  /** The four sextets of three bytes. */
  function Group(a: nat, b: nat, c: nat): (v: seq<nat>)
    requires a < 0x100 && b < 0x100 && c < 0x100
    ensures |v| == 4 && v[0] < 64 && v[1] < 64 && v[2] < 64 && v[3] < 64
  {
    [a / 4, a % 4 * 16 + b / 16, b % 16 * 4 + c / 64, c % 64]
  }

  /** The sextets of a text: four for three bytes, and two or three for a rest of one or two. */
  function Split(s: string): (v: seq<nat>)
    requires IsBytes(s)
    ensures forall i :: 0 <= i < |v| ==> v[i] < 64
    decreases |s|
  {
    var g := Group(At(s, 0), At(s, 1), At(s, 2));
    if s == "" then []
    else if |s| < 3 then g[..|s| + 1]
    else g + Split(s[3..])
  }

  /** Encoding without padding. */
  function Encode(alphabet: Alphabet, s: string): (r: string)
    requires IsBytes(s)
  {
    var v := Split(s);
    seq(|v|, i requires 0 <= i < |v| => Letter(alphabet, v[i]))
  }

  /** The sextets of a text, if all its letters are in the alphabet. */
  function Sextets(alphabet: Alphabet, s: string): (r: Option<seq<nat>>)
    ensures r.Some? ==> |r.value| == |s| && forall i :: 0 <= i < |s| ==> r.value[i] < 64
  {
    if s == "" then Some([])
    else
      var (v, rest) := (Sextet(alphabet, s[0]), Sextets(alphabet, s[1..]));
      if v.Some? && rest.Some? then Some([v.value] + rest.value) else None
  }

  /** The first, second and third byte of a group, each across two sextets. */
  function ByteA(p: nat, q: nat): (c: char)
    requires p < 64 && q < 64
  {
    (p * 4 + q / 16) as char
  }

  function ByteB(q: nat, r: nat): (c: char)
    requires q < 64 && r < 64
  {
    (q % 16 * 16 + r / 4) as char
  }

  function ByteC(r: nat, t: nat): (c: char)
    requires r < 64 && t < 64
  {
    (r % 4 * 64 + t) as char
  }

  /** The bytes of a run of sextets; bits beyond the last byte must be zero. */
  function Join(v: seq<nat>): (r: Option<string>)
    requires forall i :: 0 <= i < |v| ==> v[i] < 64
    decreases |v|
  {
    if v == [] then Some("")
    else if |v| == 1 then None
    else if |v| == 2 then (if v[1] % 16 == 0 then Some([ByteA(v[0], v[1])]) else None)
    else if |v| == 3 then (if v[2] % 4 == 0 then Some([ByteA(v[0], v[1]), ByteB(v[1], v[2])]) else None)
    else
      match Join(v[4..])
      case None => None
      case Some(rest) => Some([ByteA(v[0], v[1]), ByteB(v[1], v[2]), ByteC(v[2], v[3])] + rest)
  }

  function DecodeNoPad(alphabet: Alphabet, s: string): (r: Option<string>) {
    match Sextets(alphabet, s)
    case None => None
    case Some(v) => Join(v)
  }

  function TrimPadding(s: string): (r: string) {
    if s != "" && s[|s| - 1] == '=' then TrimPadding(s[..|s| - 1]) else s
  }

  /** Canonical padding: up to a multiple of four, with at most two signs. */
  function DecodePadded(alphabet: Alphabet, s: string): (r: Option<string>) {
    var body := TrimPadding(s);
    if |s| % 4 == 0 && |s| - |body| <= 2 then DecodeNoPad(alphabet, body) else None
  }

  /** Accepts a decoding that is UTF-8. */
  function Checked(utf8: string -> bool, r: Option<string>): (t: Option<string>) {
    if r.Some? && utf8(r.value) then r else None
  }

  /** The first of the four engines that gives text. */
  function TryDecode(utf8: string -> bool, s: string): (r: Option<string>) {
    var stripped := TrimPadding(s);
    var a := Checked(utf8, DecodePadded(Standard, s));
    if a.Some? then a else
    var b := Checked(utf8, DecodeNoPad(Standard, stripped));
    if b.Some? then b else
    var c := Checked(utf8, DecodePadded(UrlSafe, s));
    if c.Some? then c else
    Checked(utf8, DecodeNoPad(UrlSafe, stripped))
  }

  // ---------------------------------------------------------------------------------------------
  // Proofs
  // ---------------------------------------------------------------------------------------------

  lemma LetterRoundTrip(alphabet: Alphabet, v: nat)
    requires v < 64
    ensures Sextet(alphabet, Letter(alphabet, v)) == Some(v)
    ensures Letter(alphabet, v) != '='
  {}

  /** The alphabets of sections 4 and 5 of RFC 4648: upper case, lower case, digits, and two signs each. */
  lemma AlphabetTables(alphabet: Alphabet)
    ensures Letter(alphabet, 0) == 'A' && Letter(alphabet, 25) == 'Z'
    ensures Letter(alphabet, 26) == 'a' && Letter(alphabet, 51) == 'z'
    ensures Letter(alphabet, 52) == '0' && Letter(alphabet, 61) == '9'
    ensures Letter(Standard, 62) == '+' && Letter(Standard, 63) == '/'
    ensures Letter(UrlSafe, 62) == '-' && Letter(UrlSafe, 63) == '_'
    ensures forall v: nat :: v < 61 && v != 25 && v != 51 ==>
              Letter(alphabet, v + 1) as int == Letter(alphabet, v) as int + 1
  {}

  /** A test vector of section 10 of RFC 4648: high bits come first. */
  lemma KnownText()
    ensures Split("foo") == [25, 38, 61, 47]
    ensures Letter(UrlSafe, 25) == 'Z' && Letter(UrlSafe, 38) == 'm' && Letter(UrlSafe, 61) == '9'
    ensures Letter(UrlSafe, 47) == 'v'
  {
    assert Group(102, 111, 111) == [25, 38, 61, 47];
    assert "foo"[3..] == "" && Split("") == [];
    hide Group;
    assert Split("foo") == Group(At("foo", 0), At("foo", 1), At("foo", 2)) + [];
  }

  lemma {:induction false} SextetsOf(alphabet: Alphabet, letters: string, v: seq<nat>)
    requires |letters| == |v| && forall i :: 0 <= i < |v| ==> v[i] < 64 && letters[i] == Letter(alphabet, v[i])
    ensures Sextets(alphabet, letters) == Some(v)
  {
    hide Letter, Sextet;
    if letters != "" {
      LetterRoundTrip(alphabet, v[0]);
      SextetsOf(alphabet, letters[1..], v[1..]);
      assert v == [v[0]] + v[1..];
    }
  }

  lemma {:induction false} JoinSplit(s: string)
    requires IsBytes(s)
    ensures Join(Split(s)) == Some(s)
    decreases |s|
  {
    hide Join, Group, ByteA, ByteB, ByteC;
    if s == "" {
      JoinNone();
    } else {
      var g := Group(At(s, 0), At(s, 1), At(s, 2));
      GroupBytes(At(s, 0), At(s, 1), At(s, 2));
      if |s| == 1 {
        JoinTwo(g[0], g[1]);
        assert g[..2] == [g[0], g[1]] && s == [s[0]];
      } else if |s| == 2 {
        JoinThree(g[0], g[1], g[2]);
        assert g[..3] == [g[0], g[1], g[2]] && s == [s[0], s[1]];
      } else {
        JoinSplit(s[3..]);
        JoinFour(g[0], g[1], g[2], g[3], Split(s[3..]), s[3..]);
        assert g == [g[0], g[1], g[2], g[3]] && s == [s[0], s[1], s[2]] + s[3..];
      }
    }
  }

  lemma JoinNone()
    ensures Join([]) == Some("")
  {}

  lemma JoinTwo(p: nat, q: nat)
    requires p < 64 && q < 64 && q % 16 == 0
    ensures Join([p, q]) == Some([ByteA(p, q)])
  {
    hide ByteA;
  }

  lemma JoinThree(p: nat, q: nat, r: nat)
    requires p < 64 && q < 64 && r < 64 && r % 4 == 0
    ensures Join([p, q, r]) == Some([ByteA(p, q), ByteB(q, r)])
  {
    hide ByteA, ByteB;
  }

  lemma JoinFour(p: nat, q: nat, r: nat, t: nat, rest: seq<nat>, tail: string)
    requires p < 64 && q < 64 && r < 64 && t < 64
    requires (forall i :: 0 <= i < |rest| ==> rest[i] < 64) && Join(rest) == Some(tail)
    ensures Join([p, q, r, t] + rest) == Some([ByteA(p, q), ByteB(q, r), ByteC(r, t)] + tail)
  {
    hide ByteA, ByteB, ByteC;
    assert ([p, q, r, t] + rest)[4..] == rest;
  }

  lemma GroupBytes(a: nat, b: nat, c: nat)
    requires a < 0x100 && b < 0x100 && c < 0x100
    ensures var g := Group(a, b, c);
            && ByteA(g[0], g[1]) == a as char && ByteB(g[1], g[2]) == b as char && ByteC(g[2], g[3]) == c as char
            && (b == 0 ==> g[1] % 16 == 0) && (c == 0 ==> g[2] % 4 == 0)
  {}

  /** Where both alphabets know every letter of a text, they read it alike. */
  lemma {:induction false} AlphabetsAgree(s: string)
    requires Sextets(Standard, s).Some? && Sextets(UrlSafe, s).Some?
    ensures Sextets(Standard, s) == Sextets(UrlSafe, s)
  {
    if s != "" { AlphabetsAgree(s[1..]); }
  }

  lemma {:induction false} NoPaddingInside(alphabet: Alphabet, s: string)
    requires Sextets(alphabet, s).Some?
    ensures TrimPadding(s) == s
  {
    if s != "" { LastLetter(alphabet, s); }
  }

  lemma {:induction false} LastLetter(alphabet: Alphabet, s: string)
    requires s != "" && Sextets(alphabet, s).Some?
    ensures s[|s| - 1] != '='
  {
    if |s| > 1 { LastLetter(alphabet, s[1..]); }
  }

  function Signs(n: nat): (s: string) {
    if n == 0 then "" else Signs(n - 1) + "="
  }

  lemma {:induction false} TrimSigns(s: string, n: nat)
    requires TrimPadding(s) == s
    ensures TrimPadding(s + Signs(n)) == s
  {
    if n == 0 {
      assert s + "" == s;
    } else {
      var t := s + Signs(n);
      assert t[..|t| - 1] == s + Signs(n - 1);
      TrimSigns(s, n - 1);
    }
  }

  /**
   * Whichever engine answers first, an encoding in either alphabet comes back as it was, with right,
   * wrong or no padding behind it.
   */
  lemma TryDecodeAnyPadding(utf8: string -> bool, alphabet: Alphabet, s: string, n: nat)
    requires IsBytes(s) && utf8(s)
    ensures TryDecode(utf8, Encode(alphabet, s) + Signs(n)) == Some(s)
  {
    hide Split, Letter, Sextets, Join, TrimPadding;
    var e := Encode(alphabet, s);
    SextetsOf(alphabet, e, Split(s));
    JoinSplit(s);
    NoPaddingInside(alphabet, e);
    TrimSigns(e, n);
    if Sextets(Standard, e).Some? && Sextets(UrlSafe, e).Some? { AlphabetsAgree(e); }
  }

  /** Whichever engine answers first, an unpadded URL-safe encoding comes back as it was. */
  lemma TryDecodeRoundTrip(utf8: string -> bool, s: string)
    requires IsBytes(s) && utf8(s)
    ensures TryDecode(utf8, Encode(UrlSafe, s)) == Some(s)
  {
    hide Split, Letter, Sextets, Join, TrimPadding;
    var e := Encode(UrlSafe, s);
    SextetsOf(UrlSafe, e, Split(s));
    JoinSplit(s);
    NoPaddingInside(UrlSafe, e);
    if Sextets(Standard, e).Some? { AlphabetsAgree(e); }
  }
}
