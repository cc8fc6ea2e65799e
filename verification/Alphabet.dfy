/** Writing digits with the characters of an alphabet, and reading them back. */
module Alphabet {
  import opened Wrappers

  ghost predicate Distinct(alphabet: string) {
    forall i, j :: 0 <= i < j < |alphabet| ==> alphabet[i] != alphabet[j]
  }

  ghost predicate Over(alphabet: string, s: string) {
    forall i :: 0 <= i < |s| ==> s[i] in alphabet
  }

  ghost predicate Indexes(alphabet: string, ds: seq<int>) {
    forall i :: 0 <= i < |ds| ==> 0 <= ds[i] < |alphabet|
  }

  /** The linear search both decoders make for each character. */
  function Position(alphabet: string, c: char, i: nat): (r: Option<nat>)
    requires i <= |alphabet|
    ensures r.Some? ==> i <= r.value < |alphabet| && alphabet[r.value] == c
    ensures r.None? ==> c !in alphabet[i..]
    decreases |alphabet| - i
  {
    if i == |alphabet| then None
    else if alphabet[i] == c then Some(i)
    else
      assert alphabet[i..] == [alphabet[i]] + alphabet[i + 1..];
      Position(alphabet, c, i + 1)
  }

  /** The search from the start. */
  function Lookup(alphabet: string, c: char): (r: Option<nat>)
    ensures r.Some? ==> r.value < |alphabet| && alphabet[r.value] == c
    ensures r.None? <==> c !in alphabet
  {
    assert alphabet[0..] == alphabet;
    Position(alphabet, c, 0)
  }

  ghost function IndexOf(alphabet: string, c: char): (k: int)
    requires c in alphabet
    ensures 0 <= k < |alphabet| && alphabet[k] == c
  {
    Lookup(alphabet, c).value
  }

  function Symbols(alphabet: string, ds: seq<int>): (s: string)
    requires Indexes(alphabet, ds)
    ensures |s| == |ds|
    ensures forall i :: 0 <= i < |ds| ==> s[i] == alphabet[ds[i]]
  {
    seq(|ds|, i requires 0 <= i < |ds| => alphabet[ds[i]])
  }

  ghost function Indices(alphabet: string, s: string): (ds: seq<int>)
    requires Over(alphabet, s)
    ensures |ds| == |s| && Indexes(alphabet, ds)
    ensures forall i :: 0 <= i < |s| ==> ds[i] == IndexOf(alphabet, s[i])
  {
    seq(|s|, i requires 0 <= i < |s| => IndexOf(alphabet, s[i]))
  }

  lemma IndexUnique(alphabet: string, k: nat)
    requires Distinct(alphabet) && k < |alphabet|
    ensures IndexOf(alphabet, alphabet[k]) == k
  {
  }

  lemma IndicesOfSymbols(alphabet: string, ds: seq<int>)
    requires Distinct(alphabet) && Indexes(alphabet, ds)
    ensures Over(alphabet, Symbols(alphabet, ds))
    ensures Indices(alphabet, Symbols(alphabet, ds)) == ds
  {
  }

  lemma SymbolsOfIndices(alphabet: string, s: string)
    requires Over(alphabet, s)
    ensures Symbols(alphabet, Indices(alphabet, s)) == s
  {
  }

  /** Reading one more character appends its index. */
  lemma IndicesSnoc(alphabet: string, s: string, n: nat, k: nat)
    requires Distinct(alphabet) && n < |s| && Over(alphabet, s[..n])
    requires k < |alphabet| && alphabet[k] == s[n]
    ensures Over(alphabet, s[..n + 1])
    ensures Indices(alphabet, s[..n + 1]) == Indices(alphabet, s[..n]) + [k]
  {
    assert s[..n + 1] == s[..n] + [s[n]];
    IndexUnique(alphabet, k);
  }
}
