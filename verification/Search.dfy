/** First-occurrence search over bytes, and where a needle cannot be. */
module Search {
  import opened Wrappers
  import opened Text

  predicate OccursAt(h: string, n: string, i: nat) {
    i + |n| <= |h| && h[i..i + |n|] == n
  }

  lemma OccursLater(h: string, n: string, i: nat)
    requires h != "" && i > 0
    ensures OccursAt(h, n, i) <==> OccursAt(h[1..], n, i - 1)
  {
    if i + |n| <= |h| {
      assert h[i..i + |n|] == h[1..][i - 1..i - 1 + |n|];
    }
  }

  /** `haystack.windows(n.len()).position(|w| w == needle)`. */
  function Find(h: string, n: string): (r: Option<nat>)
    requires n != ""
    ensures r.Some? ==> r.value + |n| <= |h|
    ensures r.Some? ==> OccursAt(h, n, r.value) && forall i :: 0 <= i < r.value ==> !OccursAt(h, n, i)
    ensures r.None? ==> forall i: nat :: !OccursAt(h, n, i)
  {
    if |h| < |n| then None
    else if h[..|n|] == n then Some(0)
    else
      assert forall i: nat | i > 0 :: OccursAt(h, n, i) <==> OccursAt(h[1..], n, i - 1) by {
        forall i: nat | i > 0 ensures OccursAt(h, n, i) <==> OccursAt(h[1..], n, i - 1) {
          OccursLater(h, n, i);
        }
      }
      match Find(h[1..], n)
      case None => None
      case Some(i) => Some(i + 1)
  }

  predicate Lacks(h: string, n: string)
    requires n != ""
  {
    Find(h, n) == None
  }

  predicate Contains(h: string, n: string)
    requires n != ""
  {
    Find(h, n).Some?
  }

  lemma FindIs(h: string, n: string, i: nat)
    requires n != "" && OccursAt(h, n, i) && forall j :: 0 <= j < i ==> !OccursAt(h, n, j)
    ensures Find(h, n) == Some(i)
  {
  }

  lemma OccursChars(h: string, n: string, i: nat, k: nat)
    requires OccursAt(h, n, i) && k < |n|
    ensures h[i + k] == n[k]
  {
    assert h[i..i + |n|][k] == h[i + k];
  }

  lemma OccursInTail(a: string, b: string, n: string, i: nat)
    ensures OccursAt(a + b, n, |a| + i) <==> OccursAt(b, n, i)
  {
    if i + |n| <= |b| {
      assert (a + b)[|a| + i..|a| + i + |n|] == b[i..i + |n|];
    }
  }

  lemma OccursInHead(a: string, b: string, n: string, i: nat)
    requires i + |n| <= |a|
    ensures OccursAt(a + b, n, i) <==> OccursAt(a, n, i)
  {
    assert (a + b)[i..i + |n|] == a[i..i + |n|];
  }

  function Shift(r: Option<nat>, k: nat): Option<nat> {
    match r case None => None case Some(i) => Some(k + i)
  }

  /** Nothing starts inside a, so the search goes on after it. */
  lemma FindPast(a: string, b: string, n: string)
    requires n != "" && forall j :: 0 <= j < |a| ==> !OccursAt(a + b, n, j)
    ensures Find(a + b, n) == Shift(Find(b, n), |a|)
  {
    hide Find;
    match Find(b, n)
    case Some(i) =>
      OccursInTail(a, b, n, i);
      forall j | 0 <= j < |a| + i ensures !OccursAt(a + b, n, j) {
        if j >= |a| {
          OccursInTail(a, b, n, j - |a|);
        }
      }
    case None =>
      forall j: nat ensures !OccursAt(a + b, n, j) {
        if j >= |a| {
          OccursInTail(a, b, n, j - |a|);
        }
      }
  }

  /** A needle never spans a character it does not have. */
  lemma NoneAcross(a: string, c: char, b: string, n: string, j: nat)
    requires n != "" && Lacks(a, n) && NoChar(n, c) && j <= |a|
    ensures !OccursAt(a + [c] + b, n, j)
  {
    if j + |n| <= |a| {
      OccursInHead(a, [c] + b, n, j);
      assert a + [c] + b == a + ([c] + b);
    } else if OccursAt(a + [c] + b, n, j) {
      OccursChars(a + [c] + b, n, j, |a| - j);
    }
  }

  lemma FindAfter(a: string, c: char, b: string, n: string)
    requires n != "" && Lacks(a, n) && NoChar(n, c)
    ensures Find(a + [c] + b, n) == Shift(Find(b, n), |a| + 1)
  {
    forall j | 0 <= j < |a + [c]| ensures !OccursAt(a + [c] + b, n, j) {
      NoneAcross(a, c, b, n, j);
    }
    FindPast(a + [c], b, n);
  }

  lemma LacksJoin(a: string, c: char, b: string, n: string)
    requires n != "" && Lacks(a, n) && Lacks(b, n) && NoChar(n, c)
    ensures Lacks(a + [c] + b, n)
  {
    FindAfter(a, c, b, n);
  }

  lemma LacksEmpty(n: string)
    requires n != ""
    ensures Lacks("", n)
  {
  }

  /** A line and its CRLF. */
  lemma LacksLine(a: string, b: string, n: string)
    requires n != "" && Lacks(a, n) && Lacks(b, n) && OneLine(n)
    ensures Lacks(a + "\r\n" + b, n)
  {
    hide Find;
    LacksEmpty(n);
    LacksJoin("", '\n', b, n);
    assert "" + ['\n'] + b == "\n" + b;
    LacksJoin(a, '\r', "\n" + b, n);
    assert a + ['\r'] + ("\n" + b) == a + "\r\n" + b;
  }

  lemma FindAfterLine(a: string, b: string, n: string)
    requires n != "" && Lacks(a, n) && OneLine(n)
    ensures Find(a + "\r\n" + b, n) == Shift(Find(b, n), |a| + 2)
  {
    hide Find;
    LacksEmpty(n);
    FindAfter("", '\n', b, n);
    assert "" + ['\n'] + b == "\n" + b;
    FindAfter(a, '\r', "\n" + b, n);
    assert a + ['\r'] + ("\n" + b) == a + "\r\n" + b;
  }

  lemma FindHere(n: string, b: string)
    requires n != ""
    ensures Find(n + b, n) == Some(0)
  {
    assert (n + b)[..|n|] == n;
  }

  lemma LacksFirstChar(h: string, n: string)
    requires n != "" && NoChar(h, n[0])
    ensures Lacks(h, n)
  {
    forall i: nat ensures !OccursAt(h, n, i) {
      if OccursAt(h, n, i) {
        OccursChars(h, n, i, 0);
      }
    }
  }

  // ---- delimiters start with two hyphens -------------------------------------------------------

  predicate NoTwoHyphens(s: string) {
    forall i :: 0 <= i < |s| - 1 ==> s[i] != '-' || s[i + 1] != '-'
  }

  predicate Dashed(n: string) {
    |n| >= 2 && n[0] == '-' && n[1] == '-'
  }

  lemma LacksHyphens(lit: string, b: string, n: string)
    requires Dashed(n) && NoTwoHyphens(lit) && (lit == "" || lit[|lit| - 1] != '-') && Lacks(b, n)
    ensures Lacks(lit + b, n)
  {
    forall j | 0 <= j < |lit| ensures !OccursAt(lit + b, n, j) {
      if OccursAt(lit + b, n, j) {
        OccursChars(lit + b, n, j, 0);
        OccursChars(lit + b, n, j, 1);
      }
    }
    FindPast(lit, b, n);
  }

  lemma LacksLiteral(lit: string, n: string)
    requires Dashed(n) && NoTwoHyphens(lit)
    ensures Lacks(lit, n)
  {
    forall j: nat ensures !OccursAt(lit, n, j) {
      if OccursAt(lit, n, j) {
        OccursChars(lit, n, j, 0);
        OccursChars(lit, n, j, 1);
      }
    }
  }

  // ---- replacing ------------------------------------------------------------------------------

  function ReplaceAll(data: string, from: string, to: string): string
    requires from != ""
    decreases |data|
  {
    match Find(data, from)
    case None => data
    case Some(i) => data[..i] + to + ReplaceAll(data[i + |from|..], from, to)
  }

  method Replace(data: string, from: string, to: string) returns (out: string)
    requires from != ""
    ensures out == ReplaceAll(data, from, to)
  {
    hide Find;
    out := "";
    var rest := data;
    while true
      invariant out + ReplaceAll(rest, from, to) == ReplaceAll(data, from, to)
      decreases |rest|
    {
      var at := Find(rest, from);
      if at.None? {
        out := out + rest;
        return;
      }
      var i := at.value;
      Regroup(out, rest[..i], to, ReplaceAll(rest[i + |from|..], from, to));
      out := out + rest[..i] + to;
      rest := rest[i + |from|..];
    }
  }

  lemma Regroup(a: string, b: string, c: string, d: string)
    ensures a + (b + c + d) == a + b + c + d
  {
  }
}
