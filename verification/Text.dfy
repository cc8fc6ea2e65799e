/**
 The string operations the relay takes from Rust's standard library, over ASCII:
 one `char` stands for one byte.
 */
module Text {
  import opened Wrappers

  function LowerChar(c: char): char {
    if 'A' <= c <= 'Z' then c + 32 as char else c
  }

  function UpperChar(c: char): char {
    if 'a' <= c <= 'z' then c - 32 as char else c
  }

  function ToLower(s: string): (r: string)
    ensures |r| == |s|
    ensures forall i :: 0 <= i < |s| ==> r[i] == LowerChar(s[i])
  {
    seq(|s|, i requires 0 <= i < |s| => LowerChar(s[i]))
  }

  function ToUpper(s: string): (r: string)
    ensures |r| == |s|
    ensures forall i :: 0 <= i < |s| ==> r[i] == UpperChar(s[i])
  {
    seq(|s|, i requires 0 <= i < |s| => UpperChar(s[i]))
  }

  /** Every letter has its other case, and nothing else has one. */
  lemma CasesPair(c: char)
    ensures 'A' <= c <= 'Z' ==> 'a' <= LowerChar(c) <= 'z' && UpperChar(LowerChar(c)) == c && UpperChar(c) == c
    ensures 'a' <= c <= 'z' ==> 'A' <= UpperChar(c) <= 'Z' && LowerChar(UpperChar(c)) == c && LowerChar(c) == c
    ensures !('A' <= c <= 'Z') && !('a' <= c <= 'z') ==> LowerChar(c) == c && UpperChar(c) == c
  {
  }

  predicate EqIgnoreCase(a: string, b: string) {
    ToLower(a) == ToLower(b)
  }

  predicate IsSpace(c: char) {
    c == ' ' || '\t' <= c <= '\r'
  }

  /** `trim_start`. */
  function TrimStart(s: string): (r: string)
    ensures |r| <= |s| && s[|s| - |r|..] == r
    ensures r != "" ==> !IsSpace(r[0])
    ensures s != "" && !IsSpace(s[0]) ==> r == s
  {
    if s != "" && IsSpace(s[0]) then TrimStart(s[1..]) else s
  }

  /** `trim_end`. */
  function TrimEnd(s: string): (r: string)
    ensures r <= s
    ensures r != "" ==> !IsSpace(r[|r| - 1])
    ensures s != "" && !IsSpace(s[|s| - 1]) ==> r == s
  {
    if s != "" && IsSpace(s[|s| - 1]) then TrimEnd(s[..|s| - 1]) else s
  }

  function Trim(s: string): string {
    TrimEnd(TrimStart(s))
  }

  /** Nothing to trim: neither end is a space. */
  lemma TrimIdentity(s: string)
    requires s != "" ==> !IsSpace(s[0]) && !IsSpace(s[|s| - 1])
    ensures Trim(s) == s
  {
  }

  predicate AllSpace(s: string) {
    forall i :: 0 <= i < |s| ==> IsSpace(s[i])
  }

  lemma TrimStartHere(s: string)
    requires s != "" ==> !IsSpace(s[0])
    ensures TrimStart(s) == s
  {
  }

  lemma TrimStartStep(c: char, s: string)
    requires IsSpace(c)
    ensures TrimStart([c] + s) == TrimStart(s)
  {
    assert ([c] + s)[1..] == s;
  }

  lemma FirstOf(s: string)
    requires s != ""
    ensures s == [s[0]] + s[1..]
  {
  }

  lemma {:induction false} TrimStartPast(before: string, rest: string)
    requires AllSpace(before) && (rest != "" ==> !IsSpace(rest[0]))
    ensures TrimStart(before + rest) == rest
  {
    hide TrimStart, IsSpace;
    if before == "" {
      TrimStartHere(rest);
      assert before + rest == rest;
    } else {
      TrimStartPast(before[1..], rest);
      TrimStartStep(before[0], before[1..] + rest);
      assert before + rest == [before[0]] + (before[1..] + rest);
    }
  }

  lemma {:induction false} TrimEndPast(text: string, after: string)
    requires AllSpace(after) && (text != "" ==> !IsSpace(text[|text| - 1]))
    ensures TrimEnd(text + after) == text
    decreases |after|
  {
    if after == "" {
      assert text + after == text;
    } else {
      TrimEndPast(text, after[..|after| - 1]);
      assert (text + after)[..|text + after| - 1] == text + after[..|after| - 1];
    }
  }

  lemma TrimsBoth(before: string, arg: string, after: string)
    requires AllSpace(before) && AllSpace(after) && arg != "" && !IsSpace(arg[0]) && !IsSpace(arg[|arg| - 1])
    ensures Trim(before + arg + after) == arg
  {
    assert before + arg + after == before + (arg + after);
    hide TrimStart, TrimEnd;
    TrimStartPast(before, arg + after);
    TrimEndPast(arg, after);
  }

  predicate IsEol(c: char) {
    c == '\r' || c == '\n'
  }

  /** `trim_end_matches(['\r', '\n'])`. */
  function TrimEol(s: string): (r: string)
    ensures r <= s
    ensures s != "" && !IsEol(s[|s| - 1]) ==> r == s
  {
    if s != "" && IsEol(s[|s| - 1]) then TrimEol(s[..|s| - 1]) else s
  }

  lemma TrimCrlf(s: string)
    requires s != "" ==> !IsEol(s[|s| - 1])
    ensures TrimEol(s + "\r\n") == s
  {
    assert (s + "\r\n")[..|s| + 1] == s + "\r";
    assert (s + "\r")[..|s|] == s;
  }

  predicate NoChar(s: string, c: char) {
    forall i :: 0 <= i < |s| ==> s[i] != c
  }

  /** Neither CR nor LF: the text of a single line. */
  predicate OneLine(s: string) {
    forall i :: 0 <= i < |s| ==> !IsEol(s[i])
  }

  /** The index of the first `c`, if there is one. */
  function FindChar(s: string, c: char): (r: Option<nat>)
    ensures r.Some? ==> r.value < |s| && s[r.value] == c && forall i :: 0 <= i < r.value ==> s[i] != c
    ensures r.None? ==> NoChar(s, c)
  {
    if s == "" then None
    else if s[0] == c then Some(0)
    else match FindChar(s[1..], c)
      case None => None
      case Some(i) => Some(i + 1)
  }

  /** The first occurrence is the one with none before it. */
  lemma FindCharAt(a: string, c: char, b: string)
    requires NoChar(a, c)
    ensures FindChar(a + [c] + b, c) == Some(|a|)
  {
    assert (a + [c] + b)[|a|] == c;
  }

  /** `split_once`. */
  function SplitOnce(s: string, c: char): (r: Option<(string, string)>)
    ensures r.Some? ==> s == r.value.0 + [c] + r.value.1 && NoChar(r.value.0, c)
    ensures r.None? <==> NoChar(s, c)
  {
    match FindChar(s, c)
    case None => None
    case Some(i) => Some((s[..i], s[i + 1..]))
  }

  lemma SplitOnceAt(a: string, c: char, b: string)
    requires NoChar(a, c)
    ensures SplitOnce(a + [c] + b, c) == Some((a, b))
  {
    FindCharAt(a, c, b);
    assert (a + [c] + b)[..|a|] == a && (a + [c] + b)[|a| + 1..] == b;
  }

  function StripSuffixChar(s: string, c: char): (r: string)
    ensures r <= s
  {
    if s != "" && s[|s| - 1] == c then s[..|s| - 1] else s
  }

  function StripPrefixChar(s: string, c: char): string {
    if s != "" && s[0] == c then s[1..] else s
  }
}
