/**
 Standard base64 with padding (section 4 of RFC 4648), strict in what it decodes, and
 the lenient decoder on top that skips whitespace and keeps the longest good prefix.
 */
module Base64 {
  import opened Wrappers
  import opened Text

  /** A byte string: one character to a byte. */
  predicate IsBytes(s: string) {
    forall i :: 0 <= i < |s| ==> s[i] as int < 256
  }

  function Symbol(v: nat): char
    requires v < 64
  {
    if v < 26 then (v + 65) as char
    else if v < 52 then (v + 71) as char
    else if v < 62 then (v - 4) as char
    else if v == 62 then '+'
    else '/'
  }

  function Value(c: char): Option<nat> {
    if 'A' <= c <= 'Z' then Some(c as nat - 65)
    else if 'a' <= c <= 'z' then Some(c as nat - 71)
    else if '0' <= c <= '9' then Some(c as nat + 4)
    else if c == '+' then Some(62)
    else if c == '/' then Some(63)
    else None
  }

  lemma ValueOfSymbol(v: nat)
    requires v < 64
    ensures Value(Symbol(v)) == Some(v)
    ensures Symbol(v) != '=' && Symbol(v) != '-' && !IsSpace(Symbol(v))
  {
  }

  // ---- encoding -------------------------------------------------------------------------------

  function Group1(a: nat): (r: string)
    requires a < 256
    ensures |r| == 4
  {
    [Symbol(a / 4), Symbol(a % 4 * 16), '=', '=']
  }

  function Group2(a: nat, b: nat): (r: string)
    requires a < 256 && b < 256
    ensures |r| == 4
  {
    [Symbol(a / 4), Symbol(a % 4 * 16 + b / 16), Symbol(b % 16 * 4), '=']
  }

  function Group3(a: nat, b: nat, c: nat): (r: string)
    requires a < 256 && b < 256 && c < 256
    ensures |r| == 4
  {
    [Symbol(a / 4), Symbol(a % 4 * 16 + b / 16), Symbol(b % 16 * 4 + c / 64), Symbol(c % 64)]
  }

  function Encode(s: string): string
    requires IsBytes(s)
  {
    if |s| == 0 then ""
    else if |s| == 1 then Group1(s[0] as nat)
    else if |s| == 2 then Group2(s[0] as nat, s[1] as nat)
    else Group3(s[0] as nat, s[1] as nat, s[2] as nat) + Encode(s[3..])
  }

  // ---- strict decoding ------------------------------------------------------------------------------

  /** Three bytes from four symbols. */
  function Triple(p: nat, q: nat, r: nat, s: nat): string
    requires p < 64 && q < 64 && r < 64 && s < 64
  {
    [(p * 4 + q / 16) as char, (q % 16 * 16 + r / 4) as char, (r % 4 * 64 + s) as char]
  }

  /** Four symbols; padding is allowed in the last group only, and no bit may be left over. */
  function DecodeGroup(a: char, b: char, c: char, d: char, last: bool): Option<string> {
    match (Value(a), Value(b))
    case (Some(p), Some(q)) =>
      if last && c == '=' && d == '=' then
        if q % 16 == 0 then Some([(p * 4 + q / 16) as char]) else None
      else (match Value(c)
        case None => None
        case Some(r) =>
          if last && d == '=' then
            if r % 4 == 0 then Some([(p * 4 + q / 16) as char, (q % 16 * 16 + r / 4) as char]) else None
          else match Value(d)
            case None => None
            case Some(s) => Some(Triple(p, q, r, s)))
    case _ => None
  }

  function Decode(s: string): Option<string> {
    if s == "" then Some("")
    else if |s| < 4 then None
    else
      match (DecodeGroup(s[0], s[1], s[2], s[3], |s| == 4), Decode(s[4..]))
      case (Some(group), Some(rest)) => Some(group + rest)
      case _ => None
  }

  lemma FirstByte(a: nat, b: nat)
    requires a < 256 && b < 256
    ensures a / 4 < 64 && a % 4 * 16 + b / 16 < 64
    ensures a / 4 * 4 + (a % 4 * 16 + b / 16) / 16 == a
  {
  }

  lemma SecondByte(a: nat, b: nat, c: nat)
    requires a < 256 && b < 256 && c < 256
    ensures b % 16 * 4 + c / 64 < 64
    ensures (a % 4 * 16 + b / 16) % 16 * 16 + (b % 16 * 4 + c / 64) / 4 == b
  {
    assert (a % 4 * 16 + b / 16) % 16 == b / 16;
    assert (b % 16 * 4 + c / 64) / 4 == b % 16;
  }

  lemma ThirdByte(b: nat, c: nat)
    requires b < 256 && c < 256
    ensures (b % 16 * 4 + c / 64) % 4 * 64 + c % 64 == c
  {
    assert (b % 16 * 4 + c / 64) % 4 == c / 64;
  }

  lemma Decode1(a: nat)
    requires a < 256
    ensures var g := Group1(a); DecodeGroup(g[0], g[1], g[2], g[3], true) == Some([a as char])
  {
    hide Symbol, Value;
    FirstByte(a, 0);
    ValueOfSymbol(a / 4);
    ValueOfSymbol(a % 4 * 16);
  }

  lemma Decode2(a: nat, b: nat)
    requires a < 256 && b < 256
    ensures var g := Group2(a, b); DecodeGroup(g[0], g[1], g[2], g[3], true) == Some([a as char, b as char])
  {
    hide Symbol, Value;
    FirstByte(a, b);
    SecondByte(a, b, 0);
    ValueOfSymbol(a / 4);
    ValueOfSymbol(a % 4 * 16 + b / 16);
    ValueOfSymbol(b % 16 * 4);
  }

  lemma FourValues(a: char, b: char, c: char, d: char, p: nat, q: nat, r: nat, s: nat, last: bool)
    requires Value(a) == Some(p) && Value(b) == Some(q) && Value(c) == Some(r) && Value(d) == Some(s)
    requires p < 64 && q < 64 && r < 64 && s < 64 && c != '=' && d != '='
    ensures DecodeGroup(a, b, c, d, last) == Some(Triple(p, q, r, s))
  {
    hide Value, Triple;
  }

  lemma Decode3(a: nat, b: nat, c: nat, last: bool)
    requires a < 256 && b < 256 && c < 256
    ensures var g := Group3(a, b, c); DecodeGroup(g[0], g[1], g[2], g[3], last) == Some([a as char, b as char, c as char])
  {
    hide Symbol, Value, DecodeGroup;
    FirstByte(a, b);
    SecondByte(a, b, c);
    ThirdByte(b, c);
    var p, q, r, s := a / 4, a % 4 * 16 + b / 16, b % 16 * 4 + c / 64, c % 64;
    ValueOfSymbol(p);
    ValueOfSymbol(q);
    ValueOfSymbol(r);
    ValueOfSymbol(s);
    FourValues(Symbol(p), Symbol(q), Symbol(r), Symbol(s), p, q, r, s, last);
  }

  lemma DecodeStep(g: string, rest: string)
    requires |g| == 4
    ensures Decode(g + rest) ==
            match (DecodeGroup(g[0], g[1], g[2], g[3], rest == ""), Decode(rest))
            case (Some(group), Some(tail)) => Some(group + tail)
            case _ => None
  {
    assert (g + rest)[4..] == rest;
    hide DecodeGroup;
  }

  /** A group that decodes on its own decodes in front of what decodes. */
  lemma DecodeFront(g: string, rest: string, group: string, tail: string)
    requires |g| == 4 && DecodeGroup(g[0], g[1], g[2], g[3], rest == "") == Some(group) && Decode(rest) == Some(tail)
    ensures Decode(g + rest) == Some(group + tail)
  {
    DecodeStep(g, rest);
    hide DecodeGroup, Decode;
  }

  lemma DecodeLast(g: string, group: string)
    requires |g| == 4 && DecodeGroup(g[0], g[1], g[2], g[3], true) == Some(group)
    ensures Decode(g) == Some(group)
  {
    assert Decode("") == Some("");
    hide DecodeGroup, Decode;
    DecodeFront(g, "", group, "");
    assert g + "" == g && group + "" == group;
  }

  lemma EncodeOne(s: string)
    requires IsBytes(s) && |s| == 1
    ensures Decode(Encode(s)) == Some(s)
  {
    hide Group1, DecodeGroup, Decode;
    Decode1(s[0] as nat);
    assert s == [s[0] as nat as char];
    DecodeLast(Group1(s[0] as nat), s);
  }

  lemma EncodeTwo(s: string)
    requires IsBytes(s) && |s| == 2
    ensures Decode(Encode(s)) == Some(s)
  {
    hide Group2, DecodeGroup, Decode;
    Decode2(s[0] as nat, s[1] as nat);
    assert s == [s[0] as nat as char, s[1] as nat as char];
    DecodeLast(Group2(s[0] as nat, s[1] as nat), s);
  }

  lemma EncodeMore(s: string)
    requires IsBytes(s) && |s| >= 3 && Decode(Encode(s[3..])) == Some(s[3..])
    ensures Decode(Encode(s)) == Some(s)
  {
    hide Group3, DecodeGroup, Decode;
    var g := Group3(s[0] as nat, s[1] as nat, s[2] as nat);
    Decode3(s[0] as nat, s[1] as nat, s[2] as nat, Encode(s[3..]) == "");
    DecodeFront(g, Encode(s[3..]), [s[0], s[1], s[2]], s[3..]);
    assert [s[0], s[1], s[2]] + s[3..] == s;
  }

  /** Decoding undoes encoding, whatever the bytes. */
  lemma {:induction false} DecodeOfEncode(s: string)
    requires IsBytes(s)
    ensures Decode(Encode(s)) == Some(s)
  {
    if |s| == 0 {
      DecodeNothing();
    } else if |s| == 1 {
      EncodeOne(s);
    } else if |s| == 2 {
      EncodeTwo(s);
    } else {
      DecodeOfEncode(s[3..]);
      EncodeMore(s);
    }
  }

  /** Nothing the encoder writes is a hyphen or white space. */
  lemma {:induction false} EncodeIsPlain(s: string)
    requires IsBytes(s)
    ensures forall i :: 0 <= i < |Encode(s)| ==> Encode(s)[i] != '-' && !IsSpace(Encode(s)[i])
  {
    if |s| == 1 {
      Group1IsPlain(s[0] as nat);
    } else if |s| == 2 {
      Group2IsPlain(s[0] as nat, s[1] as nat);
    } else if |s| > 2 {
      EncodeIsPlain(s[3..]);
      Group3IsPlain(s[0] as nat, s[1] as nat, s[2] as nat);
    }
  }

  lemma Group1IsPlain(a: nat)
    requires a < 256
    ensures forall i :: 0 <= i < 4 ==> Group1(a)[i] != '-' && !IsSpace(Group1(a)[i])
  {
    ValueOfSymbol(a / 4);
    ValueOfSymbol(a % 4 * 16);
  }

  lemma Group2IsPlain(a: nat, b: nat)
    requires a < 256 && b < 256
    ensures forall i :: 0 <= i < 4 ==> Group2(a, b)[i] != '-' && !IsSpace(Group2(a, b)[i])
  {
    ValueOfSymbol(a / 4);
    ValueOfSymbol(a % 4 * 16 + b / 16);
    ValueOfSymbol(b % 16 * 4);
  }

  lemma Group3IsPlain(a: nat, b: nat, c: nat)
    requires a < 256 && b < 256 && c < 256
    ensures forall i :: 0 <= i < 4 ==> Group3(a, b, c)[i] != '-' && !IsSpace(Group3(a, b, c)[i])
  {
    ValueOfSymbol(a / 4);
    ValueOfSymbol(a % 4 * 16 + b / 16);
    ValueOfSymbol(b % 16 * 4 + c / 64);
    ValueOfSymbol(c % 64);
  }

  // ---- the lenient decoder --------------------------------------------------------------------------

  /** `is_ascii_whitespace`: no vertical tab among them. */
  predicate IsAsciiSpace(c: char) {
    c == ' ' || c == '\t' || c == '\n' || c == '\r' || c == 12 as char
  }

  function NoSpaces(s: string): string {
    if s == "" then "" else (if IsAsciiSpace(s[0]) then "" else [s[0]]) + NoSpaces(s[1..])
  }

  /** The longest decodable prefix, tried from the end. */
  function LongestPrefix(s: string, end: nat): string
    requires end <= |s|
  {
    if end == 0 then ""
    else match Decode(s[..end])
      case Some(v) => v
      case None => LongestPrefix(s, end - 1)
  }

  function DecodeLenient(body: string): string {
    var filtered := NoSpaces(body);
    LongestPrefix(filtered, |filtered|)
  }

  lemma DecodeNothing()
    ensures Decode("") == Some("")
  {
  }

  lemma DecodeWhole(s: string)
    requires Decode(s).Some?
    ensures LongestPrefix(s, |s|) == Decode(s).value
  {
    hide Decode;
    DecodeNothing();
    assert s[..|s|] == s;
  }

  lemma {:induction false} LongestExactly(s: string, end: nat) returns (n: nat)
    requires end <= |s|
    ensures n <= end && Decode(s[..n]) == Some(LongestPrefix(s, end))
    ensures forall m :: n < m <= end ==> Decode(s[..m]) == None
  {
    hide Decode;
    DecodeNothing();
    if end == 0 || Decode(s[..end]).Some? {
      n := end;
      assert s[..0] == "";
    } else {
      n := LongestExactly(s, end - 1);
    }
  }

  lemma {:induction false} NoSpacesExactly(s: string, t: string)
    ensures forall i :: 0 <= i < |NoSpaces(s)| ==> NoSpaces(s)[i] as int !in {9, 10, 12, 13, 32}
    ensures (forall i :: 0 <= i < |s| ==> s[i] as int !in {9, 10, 12, 13, 32}) ==> NoSpaces(s) == s
    ensures NoSpaces(s + t) == NoSpaces(s) + NoSpaces(t)
  {
    if s == "" {
      assert s + t == t;
    } else {
      assert (s + t)[1..] == s[1..] + t;
      NoSpacesExactly(s[1..], t);
    }
  }

  /** What a body decodes to: white space aside, the longest part from its start that decodes. */
  lemma LenientExactly(body: string) returns (n: nat)
    ensures n <= |NoSpaces(body)| && Decode(NoSpaces(body)[..n]) == Some(DecodeLenient(body))
    ensures forall m :: n < m <= |NoSpaces(body)| ==> Decode(NoSpaces(body)[..m]) == None
  {
    hide Decode, LongestPrefix, NoSpaces;
    n := LongestExactly(NoSpaces(body), |NoSpaces(body)|);
  }

  // ---- line wrapping ------------------------------------------------------------------------------------

  const LINE: nat := 76

  /** 76-character lines, joined with CRLF. */
  function Wrap(s: string): string {
    if |s| <= LINE then s else s[..LINE] + "\r\n" + Wrap(s[LINE..])
  }

  predicate Spaceless(s: string) {
    forall i :: 0 <= i < |s| ==> !IsSpace(s[i])
  }

  lemma {:induction false} NoSpacesPast(a: string, b: string)
    requires Spaceless(a)
    ensures NoSpaces(a + b) == a + NoSpaces(b)
    decreases |a|
  {
    if a == "" {
      assert a + b == b;
    } else {
      assert (a + b)[1..] == a[1..] + b;
      NoSpacesPast(a[1..], b);
    }
  }

  lemma NoSpacesEol(b: string)
    ensures NoSpaces("\r\n" + b) == NoSpaces(b)
  {
    assert ("\r\n" + b)[1..] == "\n" + b && ("\n" + b)[1..] == b;
  }

  lemma {:induction false} UnwrapWrap(s: string)
    requires Spaceless(s)
    ensures NoSpaces(Wrap(s)) == s
  {
    if |s| <= LINE {
      NoSpacesPast(s, "");
      assert s + "" == s;
    } else {
      UnwrapWrap(s[LINE..]);
      NoSpacesPast(s[..LINE], "\r\n" + Wrap(s[LINE..]));
      NoSpacesEol(Wrap(s[LINE..]));
      assert s[..LINE] + ("\r\n" + Wrap(s[LINE..])) == s[..LINE] + "\r\n" + Wrap(s[LINE..]);
      assert s[..LINE] + s[LINE..] == s;
    }
  }

  lemma {:induction false} WrapHasNoHyphen(s: string)
    requires NoChar(s, '-')
    ensures NoChar(Wrap(s), '-')
  {
    if |s| > LINE {
      WrapHasNoHyphen(s[LINE..]);
    }
  }

  /** An attachment's bytes survive encoding, wrapping and the lenient decoder. */
  lemma DecodeOfWrapped(s: string)
    requires IsBytes(s)
    ensures DecodeLenient(Wrap(Encode(s))) == s && NoChar(Wrap(Encode(s)), '-')
  {
    EncodeIsPlain(s);
    UnwrapWrap(Encode(s));
    DecodeOfEncode(s);
    DecodeWhole(Encode(s));
    WrapHasNoHyphen(Encode(s));
    hide Wrap, Encode, NoSpaces;
  }

  /** No line of wrapped text is longer than 76, and every line but the last is that long. */
  lemma {:induction false} WrapLines(s: string, i: nat)
    requires i < |Wrap(s)|
    ensures i % 78 == 76 ==> Wrap(s)[i] == '\r'
    ensures i % 78 == 77 ==> Wrap(s)[i] == '\n'
    ensures i % 78 < 76 ==> i / 78 * 76 + i % 78 < |s| && Wrap(s)[i] == s[i / 78 * 76 + i % 78]
  {
    if |s| > LINE && i >= 78 {
      WrapLines(s[LINE..], i - 78);
      assert Wrap(s)[i] == Wrap(s[LINE..])[i - 78];
    }
  }
}
