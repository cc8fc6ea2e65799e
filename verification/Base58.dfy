/**
 Bitcoin-style base58, as the did:webvh identifiers use it.

 Both directions are the schoolbook in-place conversion: a little-endian digit
 vector is multiplied and added to, one input symbol at a time.  The meaning they
 are proved against is positional: the canonical digits of one number in two
 bases, with the leading zeros carried over one for one.
 */
module Base58 {
  import opened Wrappers
  import opened Arithmetic
  import opened Alphabet

  const ALPHABET: string := "123456789" + "ABCDEFGHJKLMNPQRSTUVWXYZ" + "abcdefghijkmnopqrstuvwxyz"

  // ---- numbers in a base -------------------------------------------------

  /** A digit vector, least significant digit first. */
  ghost predicate Digits(ds: seq<int>, b: int) {
    forall i :: 0 <= i < |ds| ==> 0 <= ds[i] < b
  }

  /** Digits with no superfluous zero at the most significant end. */
  ghost predicate Canonical(ds: seq<int>, b: int) {
    Digits(ds, b) && (ds != [] ==> ds[|ds| - 1] != 0)
  }

  ghost function Val(ds: seq<int>, b: int): int {
    if ds == [] then 0 else ds[0] + b * Val(ds[1..], b)
  }

  /** The canonical digits of n in base b, least significant first. */
  function ToBase(n: nat, b: int): (ds: seq<int>)
    requires 2 <= b
    decreases n
  {
    if n == 0 then [] else
      DivSmaller(n, b);
      [n % b] + ToBase(n / b, b)
  }

  lemma DivSmaller(n: nat, b: int)
    requires n > 0 && b >= 2
    ensures 0 <= n / b < n
  {
  }

  lemma {:induction false} ValNonNegative(ds: seq<int>, b: int)
    requires 2 <= b && Digits(ds, b)
    ensures Val(ds, b) >= 0
  {
    if ds != [] {
      ValNonNegative(ds[1..], b);
    }
  }

  lemma {:induction false} CanonicalPositive(ds: seq<int>, b: int)
    requires 2 <= b && Canonical(ds, b) && ds != []
    ensures Val(ds, b) > 0
  {
    if |ds| > 1 {
      CanonicalPositive(ds[1..], b);
    }
  }

  /** Every number has canonical digits, and they denote it. */
  lemma {:induction false} ToBaseDenotes(n: nat, b: int)
    requires 2 <= b
    ensures Canonical(ToBase(n, b), b) && Val(ToBase(n, b), b) == n
    decreases n
  {
    if n != 0 {
      DivSmaller(n, b);
      ToBaseDenotes(n / b, b);
      ToBaseStep(n, b);
      DivModAgain(n, b);
    }
  }

  lemma DivModAgain(n: nat, b: int)
    requires 2 <= b
    ensures n % b + b * (n / b) == n
  {
  }

  lemma ToBaseStep(n: nat, b: int)
    requires 2 <= b && n != 0 && n / b < n
    ensures ToBase(n, b) == [n % b] + ToBase(n / b, b) && ToBase(n, b)[1..] == ToBase(n / b, b)
  {
  }

  /** Canonical digits are unique: they are the ones their value has. */
  lemma {:induction false} CanonicalUnique(ds: seq<int>, b: int)
    requires 2 <= b && Canonical(ds, b)
    ensures Val(ds, b) >= 0 && ToBase(Val(ds, b), b) == ds
  {
    ValNonNegative(ds, b);
    if ds != [] {
      CanonicalPositive(ds, b);
      var rest := Val(ds[1..], b);
      DivModSplit(ds[0], rest, b);
      CanonicalUnique(ds[1..], b);
    }
  }

  /** The number a big-endian symbol sequence denotes. */
  ghost function BigEndian(s: seq<int>, b: int): int {
    if s == [] then 0 else b * BigEndian(s[..|s| - 1], b) + s[|s| - 1]
  }

  function Reverse<T>(s: seq<T>): (r: seq<T>)
    ensures |r| == |s|
    ensures forall i :: 0 <= i < |s| ==> r[i] == s[|s| - 1 - i]
  {
    if s == [] then [] else Reverse(s[1..]) + [s[0]]
  }

  lemma {:induction false} BigEndianReversed(ds: seq<int>, b: int)
    ensures BigEndian(Reverse(ds), b) == Val(ds, b)
  {
    if ds != [] {
      BigEndianReversed(ds[1..], b);
      assert Reverse(ds)[..|ds| - 1] == Reverse(ds[1..]);
    }
  }

  lemma {:induction false} BigEndianNonNegative(s: seq<int>, b: int)
    requires 2 <= b && Digits(s, b)
    ensures BigEndian(s, b) >= 0
  {
    if s != [] {
      BigEndianNonNegative(s[..|s| - 1], b);
    }
  }

  function Repeat<T>(x: T, n: nat): (r: seq<T>)
    ensures |r| == n && forall i :: 0 <= i < n ==> r[i] == x
  {
    seq(n, _ => x)
  }

  /** Zeros in front change nothing. */
  lemma {:induction false} LeadingZeros(z: nat, s: seq<int>, b: int)
    ensures BigEndian(Repeat(0, z) + s, b) == BigEndian(s, b)
    decreases |s| + z
  {
    if s != [] {
      assert (Repeat(0, z) + s)[..z + |s| - 1] == Repeat(0, z) + s[..|s| - 1];
      LeadingZeros(z, s[..|s| - 1], b);
    } else if z > 0 {
      assert Repeat(0, z) + s == Repeat(0, z);
      assert Repeat(0, z)[..z - 1] == Repeat(0, z - 1) + s;
      LeadingZeros(z - 1, s, b);
    }
  }

  // ---- one pass of the carry loop -----------------------------------------

  /** Rewriting `ds` to `ds * m + carry` in base b, as the two carry loops do. */
  ghost function Pass(ds: seq<int>, m: int, b: int, carry: nat): seq<int>
    requires 2 <= b && m >= 0
    requires forall i :: 0 <= i < |ds| ==> 0 <= ds[i]
  {
    if ds == [] then ToBase(carry, b)
    else
      assert ds[0] * m >= 0;
      var value: nat := ds[0] * m + carry;
      [value % b] + Pass(ds[1..], m, b, DivNat(value, b))
  }

  ghost function DivNat(x: nat, b: int): nat
    requires 2 <= b
  {
    x / b
  }

  lemma {:induction false} PassValue(ds: seq<int>, m: int, b: int, carry: nat)
    requires 2 <= b && m >= 0 && Digits(ds, b)
    ensures Digits(Pass(ds, m, b, carry), b)
    ensures Val(Pass(ds, m, b, carry), b) == m * Val(ds, b) + carry
  {
    if ds == [] {
      ToBaseDenotes(carry, b);
    } else {
      PassFirst(ds, m, b, carry);
      hide Pass, Val, DivNat;
      var value: nat := ds[0] * m + carry;
      var rest := Pass(ds[1..], m, b, DivNat(value, b));
      PassValue(ds[1..], m, b, DivNat(value, b));
      ValCons(value % b, rest, b);
      ValFirst(ds, b);
      PassAlgebra(m, b, ds[0], carry, Val(ds[1..], b), DivNat(value, b), value % b, Val(rest, b), Val(ds, b));
    }
  }

  lemma PassFirst(ds: seq<int>, m: int, b: int, carry: nat)
    requires 2 <= b && m >= 0 && Digits(ds, b) && ds != []
    ensures ds[0] * m + carry >= 0
    ensures var value: nat := ds[0] * m + carry;
            && Pass(ds, m, b, carry) == [value % b] + Pass(ds[1..], m, b, DivNat(value, b))
            && 0 <= value % b < b && value == b * DivNat(value, b) + value % b
  {
    hide DivNat;
    NonNegative(ds[0], m);
    DivNatSplit(ds[0] * m + carry, b);
  }

  lemma NonNegative(d: int, m: int)
    requires d >= 0 && m >= 0
    ensures d * m >= 0
  {
  }

  lemma DivNatSplit(value: nat, b: int)
    requires 2 <= b
    ensures 0 <= value % b < b && value == b * DivNat(value, b) + value % b
  {
  }

  lemma ValCons(d: int, rest: seq<int>, b: int)
    requires 2 <= b && 0 <= d < b && Digits(rest, b)
    ensures Val([d] + rest, b) == d + b * Val(rest, b) && Digits([d] + rest, b)
  {
    assert ([d] + rest)[1..] == rest;
  }

  lemma ValFirst(ds: seq<int>, b: int)
    requires ds != []
    ensures Val(ds, b) == ds[0] + b * Val(ds[1..], b)
  {
  }

  lemma PassAlgebra(m: int, b: int, d: int, carry: int, v: int, q: int, r: int, w: int, e: int)
    requires d * m + carry == b * q + r && w == m * v + q && e == d + b * v
    ensures r + b * w == m * e + carry
  {
    assert b * w == b * (m * v) + b * q;
    assert m * e == m * d + m * (b * v);
    assert b * (m * v) == m * (b * v);
  }

  lemma {:induction false} PassCanonical(ds: seq<int>, m: int, b: int, carry: nat)
    requires 2 <= b && m >= 1 && Canonical(ds, b)
    ensures Canonical(Pass(ds, m, b, carry), b)
    ensures ds != [] ==> Pass(ds, m, b, carry) != []
  {
    PassValue(ds, m, b, carry);
    if ds == [] {
      ToBaseDenotes(carry, b);
    } else {
      assert ds[0] * m >= 0;
      var value: nat := ds[0] * m + carry;
      PassCanonical(ds[1..], m, b, DivNat(value, b));
      if |ds| == 1 {
        assert value > 0 by { assert ds[0] >= 1; assert ds[0] * m >= 1; }
        ToBaseDenotes(DivNat(value, b), b);
        if DivNat(value, b) == 0 {
          assert value % b == value;
        }
      }
    }
  }

  /** A pass over the digits of n yields the digits of n*m + carry. */
  lemma PassOfToBase(n: nat, m: int, b: int, carry: nat)
    requires 2 <= b && m >= 1
    ensures Digits(ToBase(n, b), b)
    ensures m * n + carry >= 0
    ensures Pass(ToBase(n, b), m, b, carry) == ToBase(m * n + carry, b)
  {
    ToBaseDenotes(n, b);
    PassCanonical(ToBase(n, b), m, b, carry);
    PassValue(ToBase(n, b), m, b, carry);
    CanonicalUnique(Pass(ToBase(n, b), m, b, carry), b);
  }

  // ---- the carry loop itself ------------------------------------------------

  /** Rust's `as u8` on an unsigned value. */
  function AsU8(x: nat): byte {
    x % 256
  }

  /** Rust's `u32` arithmetic wraps in release builds. */
  function AsU32(x: nat): nat {
    x % 0x1_0000_0000
  }

  /** The bounds that keep both loops inside their types. */
  lemma StepWithinWidths(d: int, m: int, b: int, carry: nat)
    requires (m == 256 && b == 58) || (m == 58 && b == 256)
    requires 0 <= d < b && carry < m
    ensures 0 <= d * m + carry < 0x1_0000_0000
    ensures AsU32(d * m + carry) == d * m + carry
    ensures (d * m + carry) / b < m
    ensures 0 <= (d * m + carry) % b < b <= 256
    ensures AsU8((d * m + carry) % b) == (d * m + carry) % b
  {
    if m == 256 {
      assert d * 256 + carry <= 57 * 256 + 255;
    } else {
      assert d * 58 + carry <= 255 * 58 + 57;
    }
  }

  lemma PassStep(ds: seq<int>, i: nat, m: int, b: int, carry: nat)
    requires 2 <= b && m >= 0 && Digits(ds, b) && i < |ds|
    ensures ds[i] * m >= 0
    ensures Pass(ds[i..], m, b, carry)
         == [(ds[i] * m + carry) % b] + Pass(ds[i + 1..], m, b, (ds[i] * m + carry) / b)
  {
    assert ds[i..][1..] == ds[i + 1..];
    assert ds[i] * m >= 0;
  }

  /** The loop invariant: i digits are rewritten, the carry goes into the others. */
  ghost predicate Midway(ds: seq<int>, digits: seq<int>, i: nat, m: int, b: int, symbol: nat, carry: nat)
    requires 2 <= b && 0 <= m && Digits(ds, b)
  {
    && i <= |digits| == |ds| && digits[i..] == ds[i..] && carry < m
    && Pass(ds, m, b, symbol) == digits[..i] + Pass(ds[i..], m, b, carry)
  }

  lemma MidwayStep(ds: seq<int>, digits: seq<int>, i: nat, m: int, b: int, symbol: nat, carry: nat)
    requires (m == 256 && b == 58) || (m == 58 && b == 256)
    requires Digits(ds, b) && Midway(ds, digits, i, m, b, symbol, carry) && i < |digits|
    ensures digits[i] * m + carry >= 0
    ensures var value: nat := AsU32(digits[i] * m + carry);
            Midway(ds, digits[i := AsU8(value % b)], i + 1, m, b, symbol, value / b)
  {
    assert digits[i] == digits[i..][0] == ds[i..][0] == ds[i];
    StepWithinWidths(ds[i], m, b, carry);
    PassStep(ds, i, m, b, carry);
    var x := (ds[i] * m + carry) % b;
    assert digits[i := x][..i + 1] == digits[..i] + [x];
  }

  /**
   One input symbol: every digit is rewritten in place, then what is left of the
   carry is pushed.  All arithmetic goes through the source's widths; that the
   result is the exact pass says neither cast nor wrap ever loses anything.
   */
  method CarryLoop(ds: seq<int>, m: int, b: int, symbol: nat) returns (digits: seq<int>)
    requires (m == 256 && b == 58) || (m == 58 && b == 256)
    requires Digits(ds, b)
    requires symbol < m
    ensures digits == Pass(ds, m, b, symbol)
  {
    digits := ds;
    var carry: nat := symbol;
    var i := 0;
    while i < |digits|
      invariant Midway(ds, digits, i, m, b, symbol, carry)
    {
      MidwayStep(ds, digits, i, m, b, symbol, carry);
      var value: nat := AsU32(digits[i] * m + carry);
      digits := digits[i := AsU8(value % b)];
      carry := value / b;
      i := i + 1;
    }
    assert digits[..i] == digits && ds[i..] == [];
    digits := PushCarry(digits, b, carry);
  }

  method PushCarry(ds: seq<int>, b: int, symbol: nat) returns (digits: seq<int>)
    requires 2 <= b <= 256
    ensures digits == ds + ToBase(symbol, b)
  {
    digits := ds;
    var carry: nat := symbol;
    while carry > 0
      invariant ds + ToBase(symbol, b) == digits + ToBase(carry, b)
    {
      DivSmaller(carry, b);
      digits := digits + [AsU8(carry % b)];
      carry := carry / b;
    }
  }

  // ---- encode ----------------------------------------------------------------

  function LeadingCount<T(==)>(s: seq<T>, x: T): (n: nat)
    ensures n <= |s|
    ensures forall i :: 0 <= i < n ==> s[i] == x
    ensures n < |s| ==> s[n] != x
  {
    if s != [] && s[0] == x then 1 + LeadingCount(s[1..], x) else 0
  }

  /** What base58 text means: the same number, the same count of leading zeros. */
  ghost function Encoded(bytes: seq<byte>): string {
    BigEndianNonNegative(bytes, 256);
    ToBaseDenotes(BigEndian(bytes, 256), 58);
    Repeat('1', LeadingCount(bytes, 0)) + Symbols(ALPHABET, Reverse(ToBase(BigEndian(bytes, 256), 58)))
  }

  /** The loop invariant: `digits` holds the number the first n bytes denote. */
  ghost predicate Folded(bytes: seq<byte>, n: nat, digits: seq<int>) {
    && n <= |bytes| && BigEndian(bytes[..n], 256) >= 0
    && digits == ToBase(BigEndian(bytes[..n], 256), 58)
  }

  lemma FoldNext(bytes: seq<byte>, n: nat, digits: seq<int>)
    requires Folded(bytes, n, digits) && n < |bytes|
    ensures Digits(digits, 58)
    ensures Folded(bytes, n + 1, Pass(digits, 256, 58, bytes[n]))
  {
    assert bytes[..n + 1][..n] == bytes[..n];
    PassOfToBase(BigEndian(bytes[..n], 256), 256, 58, bytes[n]);
  }

  method Encode(bytes: seq<byte>) returns (out: string)
    ensures out == Encoded(bytes)
  {
    var zeros := LeadingCount(bytes, 0);
    var digits: seq<int> := [];
    var i := 0;
    while i < |bytes|
      invariant Folded(bytes, i, digits)
    {
      FoldNext(bytes, i, digits);
      digits := CarryLoop(digits, 256, 58, bytes[i]);
      i := i + 1;
    }
    assert bytes[..i] == bytes;
    ToBaseDenotes(BigEndian(bytes, 256), 58);
    out := Repeat('1', zeros) + Symbols(ALPHABET, Reverse(digits));
  }

  // ---- decode ----------------------------------------------------------------

  ghost function Decoded(s: string): Option<seq<int>> {
    if !Over(ALPHABET, s) then None
    else
      var ds := Indices(ALPHABET, s);
      BigEndianNonNegative(ds, 58);
      Some(Repeat(0, LeadingCount(s, '1')) + Reverse(ToBase(BigEndian(ds, 58), 256)))
  }

  /** The loop invariant: `bytes` holds the number the first n characters denote. */
  ghost predicate Read(s: string, n: nat, bytes: seq<int>) {
    && n <= |s| && Over(ALPHABET, s[..n])
    && BigEndian(Indices(ALPHABET, s[..n]), 58) >= 0
    && bytes == ToBase(BigEndian(Indices(ALPHABET, s[..n]), 58), 256)
  }

  lemma ReadNext(s: string, n: nat, bytes: seq<int>, k: nat)
    requires Read(s, n, bytes) && n < |s| && k < |ALPHABET| && ALPHABET[k] == s[n]
    ensures k < 58 && Digits(bytes, 256)
    ensures Read(s, n + 1, Pass(bytes, 58, 256, k))
  {
    AlphabetDistinct();
    hide Pass, ToBase, BigEndian, Indices, Distinct;
    var ds := Indices(ALPHABET, s[..n]);
    IndicesSnoc(ALPHABET, s, n, k);
    BigEndianSnoc(ds, k, 58);
    PassOfToBase(BigEndian(ds, 58), 58, 256, k);
  }

  lemma BigEndianSnoc(ds: seq<int>, k: int, b: int)
    ensures BigEndian(ds + [k], b) == b * BigEndian(ds, b) + k
  {
    assert (ds + [k])[..|ds|] == ds;
  }

  method Decode(s: string) returns (r: Option<seq<int>>)
    ensures r == Decoded(s)
  {
    var zeros := LeadingCount(s, '1');
    var bytes: seq<int> := [];
    LeadingOnes(s, zeros);
    var i := zeros;
    while i < |s|
      invariant zeros <= i <= |s| && Read(s, i, bytes)
    {
      var p := Lookup(ALPHABET, s[i]);
      if p.None? {
        return None;
      }
      ReadNext(s, i, bytes, p.value);
      bytes := CarryLoop(bytes, 58, 256, p.value);
      i := i + 1;
    }
    assert s[..i] == s;
    r := Some(Repeat(0, zeros) + Reverse(bytes));
  }

  lemma AlphabetAscends()
    ensures |ALPHABET| == 58 && ALPHABET[0] == '1'
    ensures forall i, j :: 0 <= i < j < 58 ==> ALPHABET[i] < ALPHABET[j]
  {
    assert forall i :: 0 <= i < 57 ==> ALPHABET[i] < ALPHABET[i + 1] by {
      var digits, upper, lower := "123456789", "ABCDEFGHJKLMNPQRSTUVWXYZ", "abcdefghijkmnopqrstuvwxyz";
      assert forall i :: 0 <= i < 8 ==> digits[i] < digits[i + 1];
      assert forall i :: 0 <= i < 23 ==> upper[i] < upper[i + 1];
      assert forall i :: 0 <= i < 24 ==> lower[i] < lower[i + 1];
      assert ALPHABET == digits + upper + lower;
    }
    forall i, j | 0 <= i < j < 58 ensures ALPHABET[i] < ALPHABET[j] {
      Ascends(ALPHABET, i, j);
    }
  }

  /** Ascending, hence free of repetitions. */
  lemma AlphabetDistinct()
    ensures |ALPHABET| == 58 && ALPHABET[0] == '1' && Distinct(ALPHABET)
  {
    AlphabetAscends();
  }

  lemma {:induction false} Ascends(s: string, i: nat, j: nat)
    requires forall k :: 0 <= k < |s| - 1 ==> s[k] < s[k + 1]
    requires i < j < |s|
    ensures s[i] < s[j]
    decreases j
  {
    if i + 1 < j {
      Ascends(s, i, j - 1);
    }
  }

  lemma LeadingOnes(s: string, z: nat)
    requires z <= |s| && forall i :: 0 <= i < z ==> s[i] == '1'
    ensures Read(s, z, [])
  {
    AlphabetDistinct();
    IndexUnique(ALPHABET, 0);
    assert Indices(ALPHABET, s[..z]) == Repeat(0, z) + [];
    LeadingZeros(z, [], 58);
  }

  // ---- the round trips -----------------------------------------------------------

  /** The same number with the same leading zeros, in another base. */
  ghost function Recode(s: seq<int>, a: int, b: int): seq<int>
    requires 2 <= a && 2 <= b && Digits(s, a)
  {
    BigEndianNonNegative(s, a);
    Repeat(0, LeadingCount(s, 0)) + Reverse(ToBase(BigEndian(s, a), b))
  }

  lemma ReverseTwice<T>(s: seq<T>)
    ensures Reverse(Reverse(s)) == s
  {
  }

  /** A symbol sequence is its leading zeros followed by the digits of its value. */
  lemma NormalForm(s: seq<int>, b: int)
    requires 2 <= b && Digits(s, b)
    ensures s == Recode(s, b, b)
  {
    hide *;
    var z := LeadingCount(s, 0);
    var rest := s[z..];
    LeadingParts(s, b);
    LeadingZeros(z, rest, b);
    ReverseTwice(rest);
    BigEndianReversed(Reverse(rest), b);
    CanonicalUnique(Reverse(rest), b);
    RecodeIs(s, b);
  }

  lemma LeadingParts(s: seq<int>, b: int)
    requires 2 <= b && Digits(s, b)
    ensures var z := LeadingCount(s, 0);
            s == Repeat(0, z) + s[z..] && Canonical(Reverse(s[z..]), b) && Digits(s[z..], b)
  {
    hide Reverse;
    var z := LeadingCount(s, 0);
    assert s == Repeat(0, z) + s[z..];
  }

  lemma RecodeIs(s: seq<int>, b: int)
    requires 2 <= b && Digits(s, b)
    ensures BigEndian(s, b) >= 0
    ensures Recode(s, b, b) == Repeat(0, LeadingCount(s, 0)) + Reverse(ToBase(BigEndian(s, b), b))
  {
    BigEndianNonNegative(s, b);
    hide BigEndian, Reverse, ToBase;
  }

  /** Writing z zeros and the digits of n denotes n and keeps the count z. */
  lemma RecodeDenotes(z: nat, n: nat, b: int)
    requires 2 <= b
    ensures var t := Repeat(0, z) + Reverse(ToBase(n, b));
            Digits(t, b) && LeadingCount(t, 0) == z && BigEndian(t, b) == n
  {
    ToBaseDenotes(n, b);
    var ds := Reverse(ToBase(n, b));
    LeadingZeros(z, ds, b);
    BigEndianReversed(ToBase(n, b), b);
    LeadingCountOf(Repeat(0, z) + ds, 0, z);
  }

  lemma LeadingCountOf<T>(s: seq<T>, x: T, z: nat)
    requires z <= |s| && (forall i :: 0 <= i < z ==> s[i] == x) && (z < |s| ==> s[z] != x)
    ensures LeadingCount(s, x) == z
  {
    var n := LeadingCount(s, x);
    if n < |s| {
      assert s[n] != x;
    }
  }

  lemma RecodeTwice(s: seq<int>, a: int, b: int)
    requires 2 <= a && 2 <= b && Digits(s, a)
    ensures Digits(Recode(s, a, b), b)
    ensures LeadingCount(Recode(s, a, b), 0) == LeadingCount(s, 0)
    ensures Recode(Recode(s, a, b), b, a) == s
  {
    BigEndianNonNegative(s, a);
    RecodeDenotes(LeadingCount(s, 0), BigEndian(s, a), b);
    NormalForm(s, a);
  }

  /** A leading 1 stands for a leading zero digit. */
  lemma LeadingOnesOfSymbols(ds: seq<int>)
    requires Digits(ds, 58)
    ensures |ALPHABET| == 58
    ensures Distinct(ALPHABET)
    ensures LeadingCount(Symbols(ALPHABET, ds), '1') == LeadingCount(ds, 0)
  {
    AlphabetDistinct();
    LeadingCountOf(Symbols(ALPHABET, ds), '1', LeadingCount(ds, 0));
  }

  lemma EncodedIsRecode(bytes: seq<byte>)
    ensures Digits(Recode(bytes, 256, 58), 58) && |ALPHABET| == 58
    ensures Encoded(bytes) == Symbols(ALPHABET, Recode(bytes, 256, 58))
  {
    AlphabetDistinct();
    RecodeTwice(bytes, 256, 58);
  }

  /** No byte string is lost: leading zero bytes included. */
  lemma DecodeOfEncode(bytes: seq<byte>)
    ensures Decoded(Encoded(bytes)) == Some(bytes)
  {
    EncodedIsRecode(bytes);
    var ds := Recode(bytes, 256, 58);
    RecodeTwice(bytes, 256, 58);
    LeadingOnesOfSymbols(ds);
    IndicesOfSymbols(ALPHABET, ds);
  }

  /** Every text over the alphabet is the encoding of what it decodes to. */
  lemma EncodeOfDecode(s: string)
    requires Decoded(s).Some?
    ensures Digits(Decoded(s).value, 256)
    ensures Encoded(Decoded(s).value) == s
  {
    var ds := Indices(ALPHABET, s);
    AlphabetDistinct();
    SymbolsOfIndices(ALPHABET, s);
    LeadingOnesOfSymbols(ds);
    RecodeTwice(ds, 58, 256);
    EncodedIsRecode(Decoded(s).value);
  }

  /** Decoding fails exactly on a character outside the alphabet. */
  lemma DecodeFailsExactly(s: string)
    ensures Decoded(s).None? <==> exists i :: 0 <= i < |s| && s[i] !in ALPHABET
  {
  }

  // ---- the alphabet ------------------------------------------------------------------

  /** Digits and letters, without the four that look like another. */
  predicate Readable(c: char) {
    ('1' <= c <= '9' || 'A' <= c <= 'Z' || 'a' <= c <= 'z') && c !in "OIl"
  }

  lemma DigitsExactly(c: char)
    ensures c in "123456789" <==> '1' <= c <= '9'
  {
    var s := "123456789";
    assert forall i :: 0 <= i < 9 ==> '1' <= s[i] <= '9';
    if '1' <= c <= '9' {
      assert s[c as int - '1' as int] == c;
    }
  }

  lemma UpperExactly(c: char)
    ensures c in "ABCDEFGHJKLMNPQRSTUVWXYZ" <==> 'A' <= c <= 'Z' && c != 'I' && c != 'O'
  {
    var s := "ABCDEFGHJKLMNPQRSTUVWXYZ";
    assert forall i :: 0 <= i < 24 ==> 'A' <= s[i] <= 'Z' && s[i] != 'I' && s[i] != 'O';
    if 'A' <= c <= 'Z' && c != 'I' && c != 'O' {
      var k := c as int - 'A' as int;
      assert s[if c < 'I' then k else if c < 'O' then k - 1 else k - 2] == c;
    }
  }

  lemma LowerExactly(c: char)
    ensures c in "abcdefghijkmnopqrstuvwxyz" <==> 'a' <= c <= 'z' && c != 'l'
  {
    var s := "abcdefghijkmnopqrstuvwxyz";
    assert forall i :: 0 <= i < 25 ==> 'a' <= s[i] <= 'z' && s[i] != 'l';
    if 'a' <= c <= 'z' && c != 'l' {
      var k := c as int - 'a' as int;
      assert s[if c < 'l' then k else k - 1] == c;
    }
  }

  lemma InJoin(a: string, b: string, c: char)
    ensures c in a + b <==> c in a || c in b
  {
  }

  /** The alphabet is those characters in ascending order, which leaves no choice. */
  lemma AlphabetExactly(c: char)
    ensures c in ALPHABET <==> Readable(c)
    ensures forall i, j :: 0 <= i < j < |ALPHABET| ==> ALPHABET[i] < ALPHABET[j]
  {
    DigitsExactly(c);
    UpperExactly(c);
    LowerExactly(c);
    InJoin("123456789" + "ABCDEFGHJKLMNPQRSTUVWXYZ", "abcdefghijkmnopqrstuvwxyz", c);
    InJoin("123456789", "ABCDEFGHJKLMNPQRSTUVWXYZ", c);
    assert c in "OIl" <==> c == 'O' || c == 'I' || c == 'l';
    AlphabetAscends();
  }
}
