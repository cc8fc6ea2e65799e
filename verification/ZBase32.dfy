/**
 Zooko's human-oriented base32.

 The codec keeps its pending bits in one `u32` whose left shifts drop the high
 bits as the input goes by.  What it computes is stated on bit strings: the same
 bits, regrouped from eights into fives and back.
 */
module ZBase32 {
  import opened Wrappers
  import opened Arithmetic
  import opened Alphabet

  const ALPHABET: string := "ybndrfg8ejkmcpqxot1uwisza345h769"

  // ---- the u32 operations ---------------------------------------------------

  // Bits in a byte and in a character.
  const BYTE: nat := 8
  const CHAR: nat := 5

  const U32: nat := 0x1_0000_0000

  /** `v << k` on a u32: each of the k places drops the top bit. */
  function Shl(v: nat, k: nat): (r: nat)
    requires v < U32
    ensures r < U32
    decreases k
  {
    if k == 0 then v else Shl((v * 2) % U32, k - 1)
  }

  function Shr(v: nat, k: nat): (r: nat)
    ensures r <= v
    decreases k
  {
    if k == 0 then v else Shr(v / 2, k - 1)
  }

  /** Bitwise or. */
  function Or(x: nat, y: nat): nat
    decreases x + y
  {
    if x == 0 && y == 0 then 0
    else 2 * Or(x / 2, y / 2) + (if x % 2 == 1 || y % 2 == 1 then 1 else 0)
  }

  // ---- bit strings -------------------------------------------------------------

  /** The k low bits of v, most significant first. */
  function Bits(v: nat, k: nat): (r: seq<bool>)
    ensures |r| == k
    decreases k
  {
    if k == 0 then [] else Bits(v / 2, k - 1) + [v % 2 == 1]
  }

  function Zeros(k: nat): (r: seq<bool>)
    ensures |r| == k && forall i :: 0 <= i < k ==> !r[i]
  {
    seq(k, _ => false)
  }

  /** The number a bit string denotes. */
  function Number(s: seq<bool>): nat {
    if s == [] then 0 else 2 * Number(s[..|s| - 1]) + (if s[|s| - 1] then 1 else 0)
  }

  lemma {:induction false} NumberOfBits(v: nat, k: nat)
    requires v < Pow2(k)
    ensures Number(Bits(v, k)) == v
    decreases k
  {
    if k > 0 {
      NumberOfBits(v / 2, k - 1);
      assert Bits(v, k)[..k - 1] == Bits(v / 2, k - 1);
    }
  }

  lemma {:induction false} BitsOfNumber(s: seq<bool>)
    ensures Number(s) < Pow2(|s|) && Bits(Number(s), |s|) == s
  {
    if s != [] {
      BitsOfNumber(s[..|s| - 1]);
      assert s == s[..|s| - 1] + [s[|s| - 1]];
    }
  }

  /** Only the low m bits matter to a view of n <= m of them. */
  lemma {:induction false} BitsMod(v: nat, n: nat, m: nat)
    requires n <= m
    ensures Pow2(m) > 0 && v % Pow2(m) >= 0 && Bits(v % Pow2(m), n) == Bits(v, n)
    decreases n
  {
    Pow2Positive(m);
    if n > 0 {
      HalfOfMod(v, Pow2(m - 1));
      BitsMod(v / 2, n - 1, m - 1);
    }
  }

  /** One place: the bit shifted out is above the 31 that remain visible. */
  lemma BitsDouble(v: nat, n: nat)
    requires v < U32 && n <= 31
    ensures Bits((v * 2) % U32, n + 1) == Bits(v, n) + [false]
  {
    DoubledHalf(v);
    BitsMod(v, n, 31);
    hide Pow2;
  }

  lemma DoubledHalf(v: nat)
    requires v < U32
    ensures Pow2(31) > 0
    ensures ((v * 2) % U32) / 2 == v % Pow2(31) && ((v * 2) % U32) % 2 == 0
  {
    Pow2At32();
    assert U32 == 2 * Pow2(31);
    hide Pow2;
    HalfOfMod(v * 2, Pow2(31));
  }

  lemma {:induction false} BitsShl(v: nat, n: nat, k: nat)
    requires v < U32 && n + k <= 32
    ensures Bits(Shl(v, k), n + k) == Bits(v, n) + Zeros(k)
    decreases k
  {
    if k > 0 {
      BitsShl((v * 2) % U32, n + 1, k - 1);
      BitsDouble(v, n);
      assert [false] + Zeros(k - 1) == Zeros(k);
    } else {
      assert Zeros(0) == [];
    }
  }

  lemma {:induction false} OrZero(x: nat)
    ensures Or(x, 0) == x
    decreases x
  {
    if x > 0 {
      OrZero(x / 2);
    }
  }

  /** Or-ing a k-bit value into k clear low bits fills them in. */
  lemma {:induction false} BitsOr(x: nat, y: nat, n: nat, k: nat)
    requires y < Pow2(k)
    requires Bits(x, k) == Zeros(k)
    ensures Bits(Or(x, y), n + k) == Bits(Shr(x, k), n) + Bits(y, k)
    decreases k
  {
    if k == 0 {
      OrZero(x);
    } else {
      assert Bits(x, k)[k - 1] == Zeros(k)[k - 1] == false;
      assert Bits(x / 2, k - 1) == Bits(x, k)[..k - 1] == Zeros(k)[..k - 1] == Zeros(k - 1);
      BitsOr(x / 2, y / 2, n, k - 1);
      OrHalves(x, y);
    }
  }

  lemma OrHalves(x: nat, y: nat)
    requires x % 2 == 0
    ensures Or(x, y) / 2 == Or(x / 2, y / 2) && Or(x, y) % 2 == y % 2
  {
  }

  lemma {:induction false} BitsSplit(v: nat, n: nat, k: nat)
    ensures Bits(v, n + k) == Bits(Shr(v, k), n) + Bits(v, k)
    decreases k
  {
    if k > 0 {
      BitsSplit(v / 2, n, k - 1);
    }
  }

  /** What `(value << k) | y` does to the pending bits: it appends y's. */
  lemma Append(v: nat, y: nat, n: nat, k: nat)
    requires v < U32 && y < Pow2(k) && n + k <= 32
    ensures Bits(Or(Shl(v, k), y), n + k) == Bits(v, n) + Bits(y, k)
  {
    BitsShl(v, n, k);
    BitsSplit(Shl(v, k), n, k);
    assert Bits(Shl(v, k), k) == Bits(Shl(v, k), n + k)[n..] == Zeros(k);
    assert Bits(Shr(Shl(v, k), k), n) == Bits(Shl(v, k), n + k)[..n] == Bits(v, n);
    BitsOr(Shl(v, k), y, n, k);
  }

  lemma {:induction false} OrBelow(x: nat, y: nat, k: nat)
    requires x < Pow2(k) && y < Pow2(k)
    ensures Or(x, y) < Pow2(k)
    decreases k
  {
    if k > 0 {
      OrBelow(x / 2, y / 2, k - 1);
    }
  }

  // ---- regrouping ------------------------------------------------------------------

  ghost predicate Bytes(data: seq<int>) {
    forall i :: 0 <= i < |data| ==> 0 <= data[i] < 256
  }

  ghost function BytesToBits(data: seq<int>): (r: seq<bool>)
    requires Bytes(data)
    ensures |r| == 8 * |data|
  {
    if data == [] then [] else Bits(data[0], BYTE) + BytesToBits(data[1..])
  }

  ghost predicate FiveBit(ds: seq<int>) {
    forall i :: 0 <= i < |ds| ==> 0 <= ds[i] < 32
  }

  ghost function DigitsToBits(ds: seq<int>): (r: seq<bool>)
    requires FiveBit(ds)
    ensures |r| == 5 * |ds|
  {
    if ds == [] then [] else Bits(ds[0], CHAR) + DigitsToBits(ds[1..])
  }

  ghost function Digit(five: seq<bool>): (d: nat)
    requires |five| == 5
    ensures d < 32
  {
    BitsOfNumber(five);
    Pow2At32();
    Number(five)
  }

  /** Fives of bits as digits; the last one is filled with zeros. */
  ghost function Fives(bits: seq<bool>): (ds: seq<int>)
    ensures FiveBit(ds)
  {
    if bits == [] then []
    else if |bits| < 5 then [Digit(bits + Zeros(5 - |bits|))]
    else [Digit(bits[..5])] + Fives(bits[5..])
  }

  /** Eights of bits as bytes; an incomplete last one is dropped. */
  ghost function Eights(bits: seq<bool>): (r: seq<int>)
    ensures Bytes(r)
  {
    if |bits| < 8 then []
    else
      BitsOfNumber(bits[..8]);
      Pow2At32();
      [Number(bits[..8])] + Eights(bits[8..])
  }

  ghost function Encoded(data: seq<byte>): string {
    Symbols(ALPHABET, Fives(BytesToBits(data)))
  }

  ghost function Decoded(s: string, n: nat): Option<seq<int>> {
    if !Over(ALPHABET, s) then None
    else
      var out := Eights(DigitsToBits(Indices(ALPHABET, s)));
      if |out| < n then None else Some(out[..n])
  }

  // ---- the two loops ------------------------------------------------------------------

  /** The loop invariant: what is emitted and what is pending make up the whole. */
  ghost predicate Pending(data: seq<byte>, i: nat, digits: seq<int>, value: nat, bits: nat) {
    && i <= |data| && value < U32 && FiveBit(digits)
    && digits + Fives(Bits(value, bits) + BytesToBits(data[i..])) == Fives(BytesToBits(data))
  }

  lemma PendingAtStart(data: seq<byte>)
    ensures Pending(data, 0, [], 0, 0) && 0 < U32
  {
    assert data[0..] == data;
    assert Bits(0, 0) + BytesToBits(data[0..]) == BytesToBits(data);
  }

  lemma Assoc<T>(a: seq<T>, b: seq<T>, c: seq<T>)
    ensures a + (b + c) == (a + b) + c
  {
  }

  lemma ByteIn(value: nat, bits: nat, b: byte)
    requires value < U32 && bits <= 24
    ensures Or(Shl(value, BYTE), b) < U32
    ensures Bits(Or(Shl(value, BYTE), b), bits + 8) == Bits(value, bits) + Bits(b, BYTE)
  {
    assert Pow2(32) == U32 && Pow2(BYTE) == 256 by { Pow2At32(); }
    Append(value, b, bits, BYTE);
    OrBelow(Shl(value, BYTE), b, 32);
  }

  lemma BytesAt(data: seq<byte>, i: nat)
    requires i < |data|
    ensures BytesToBits(data[i..]) == Bits(data[i], BYTE) + BytesToBits(data[i + 1..])
  {
    assert data[i..][1..] == data[i + 1..];
  }

  /** Shifting a byte in appends its bits to the pending ones. */
  lemma PushByte(data: seq<byte>, i: nat, digits: seq<int>, value: nat, bits: nat)
    requires Pending(data, i, digits, value, bits) && bits < 5 && i < |data|
    ensures Pending(data, i + 1, digits, Or(Shl(value, BYTE), data[i]), bits + 8)
    ensures Or(Shl(value, BYTE), data[i]) < U32
  {
    ByteIn(value, bits, data[i]);
    BytesAt(data, i);
    Assoc(Bits(value, bits), Bits(data[i], BYTE), BytesToBits(data[i + 1..]));
  }

  /** The five bits `(value >> (bits - 5)) & 31` takes are the oldest pending ones. */
  lemma TakeFive(value: nat, bits: nat)
    requires 5 <= bits
    ensures Bits(value, bits) == Bits(Shr(value, bits - 5) % 32, CHAR) + Bits(value, bits - 5)
    ensures Digit(Bits(value, bits)[..5]) == Shr(value, bits - 5) % 32
  {
    Pow2At32();
    BitsSplit(value, 5, bits - 5);
    BitsMod(Shr(value, bits - 5), 5, 5);
    NumberOfBits(Shr(value, bits - 5) % 32, CHAR);
  }

  lemma FivesStep(value: nat, bits: nat, rest: seq<bool>)
    requires 5 <= bits
    ensures Fives(Bits(value, bits) + rest)
         == [Shr(value, bits - 5) % 32] + Fives(Bits(value, bits - 5) + rest)
  {
    TakeFive(value, bits);
    var pending := Bits(value, bits) + rest;
    assert pending[..5] == Bits(value, bits)[..5];
    assert pending[5..] == Bits(value, bits - 5) + rest;
  }

  /** Emitting that character leaves the younger bits pending. */
  lemma Emit(data: seq<byte>, i: nat, digits: seq<int>, value: nat, bits: nat)
    requires Pending(data, i, digits, value, bits) && 5 <= bits
    ensures Pending(data, i, digits + [Shr(value, bits - 5) % 32], value, bits - 5)
  {
    FivesStep(value, bits, BytesToBits(data[i..]));
    Assoc(digits, [Shr(value, bits - 5) % 32], Fives(Bits(value, bits - 5) + BytesToBits(data[i..])));
  }

  /** The last, short group is shifted up and filled with zeros. */
  lemma LastDigit(value: nat, bits: nat)
    requires value < U32 && 0 < bits < 5
    ensures Fives(Bits(value, bits)) == [Shl(value, 5 - bits) % 32]
  {
    hide *;
    var v := Shl(value, 5 - bits);
    BitsShl(value, bits, 5 - bits);
    CharBits(v);
    ShortFives(Bits(value, bits));
  }

  lemma CharBits(v: nat)
    ensures CHAR == 5 && Number(Bits(v, CHAR)) == v % 32
  {
    Pow2At32();
    hide Bits, Number, Pow2;
    BitsMod(v, CHAR, CHAR);
    NumberOfBits(v % 32, CHAR);
  }

  lemma ShortFives(bits: seq<bool>)
    requires 0 < |bits| < 5
    ensures Fives(bits) == [Number(bits + Zeros(5 - |bits|))]
  {
    hide Number;
  }

  lemma EmitLast(data: seq<byte>, digits: seq<int>, value: nat, bits: nat)
    requires Pending(data, |data|, digits, value, bits) && bits < 5
    ensures Fives(BytesToBits(data))
         == if bits == 0 then digits else digits + [Shl(value, 5 - bits) % 32]
  {
    assert Bits(value, bits) + BytesToBits(data[|data|..]) == Bits(value, bits);
    if bits > 0 {
      LastDigit(value, bits);
    }
  }

  method Encode(data: seq<byte>) returns (out: string)
    ensures out == Encoded(data)
  {
    hide *;
    out := "";
    ghost var digits: seq<int> := [];
    var bits: nat, value: nat := 0, 0;
    PendingAtStart(data);
    NoSymbols();
    var i := 0;
    while i < |data|
      invariant i <= |data| && bits < 5 && Pending(data, i, digits, value, bits) && value < U32
      invariant Writes(digits, out)
    {
      PushByte(data, i, digits, value, bits);
      value := Or(Shl(value, BYTE), data[i]);
      bits := bits + 8;
      i := i + 1;
      while bits >= 5
        invariant bits <= 12 && Pending(data, i, digits, value, bits) && value < U32
        invariant Writes(digits, out)
      {
        Emit(data, i, digits, value, bits);
        WritesDigit(digits, out, Shr(value, bits - 5) % 32);
        out := out + [ALPHABET[Shr(value, bits - 5) % 32]];
        digits := digits + [Shr(value, bits - 5) % 32];
        bits := bits - 5;
      }
    }
    EmitLast(data, digits, value, bits);
    if bits > 0 {
      WritesDigit(digits, out, Shl(value, 5 - bits) % 32);
      digits := digits + [Shl(value, 5 - bits) % 32];
      out := out + [ALPHABET[Shl(value, 5 - bits) % 32]];
    }
    WroteAll(data, digits, out);
  }

  /** The text so far is the digits so far. */
  ghost predicate Writes(digits: seq<int>, out: string) {
    Indexes(ALPHABET, digits) && out == Symbols(ALPHABET, digits)
  }

  lemma NoSymbols()
    ensures Writes([], "")
  {
  }

  lemma WritesDigit(digits: seq<int>, out: string, d: nat)
    requires Writes(digits, out) && d < 32
    ensures d < |ALPHABET| && Writes(digits + [d], out + [ALPHABET[d]])
  {
    AlphabetDistinct();
  }

  lemma WroteAll(data: seq<byte>, digits: seq<int>, out: string)
    requires Writes(digits, out) && digits == Fives(BytesToBits(data))
    ensures out == Encoded(data)
  {
    hide Fives;
  }

  lemma AlphabetDistinct()
    ensures |ALPHABET| == 32 && Distinct(ALPHABET)
  {
  }

  lemma {:induction false} DigitsToBitsAppend(s: seq<int>, t: seq<int>)
    requires FiveBit(s) && FiveBit(t)
    ensures DigitsToBits(s + t) == DigitsToBits(s) + DigitsToBits(t)
  {
    if s == [] {
      assert s + t == t;
    } else {
      assert (s + t)[1..] == s[1..] + t;
      DigitsToBitsAppend(s[1..], t);
    }
  }

  /** The bytes collected and the bits pending are the digits read so far. */
  ghost predicate Collected(ds: seq<int>, all: seq<int>, value: nat, bits: nat) {
    && FiveBit(ds) && Bytes(all) && value < U32
    && BytesToBits(all) + Bits(value, bits) == DigitsToBits(ds)
  }

  lemma DigitIn(value: nat, bits: nat, d: nat)
    requires value < U32 && bits <= 24 && d < 32
    ensures Or(Shl(value, CHAR), d) < U32
    ensures Bits(Or(Shl(value, CHAR), d), bits + 5) == Bits(value, bits) + Bits(d, CHAR)
  {
    assert Pow2(32) == U32 && Pow2(CHAR) == 32 by { Pow2At32(); }
    Append(value, d, bits, CHAR);
    OrBelow(Shl(value, CHAR), d, 32);
  }

  lemma DigitsSnoc(ds: seq<int>, d: nat)
    requires FiveBit(ds) && d < 32
    ensures FiveBit(ds + [d])
    ensures DigitsToBits(ds + [d]) == DigitsToBits(ds) + Bits(d, CHAR)
  {
    DigitsToBitsAppend(ds, [d]);
    assert DigitsToBits([d]) == Bits(d, CHAR) + [];
  }

  lemma {:induction false} BytesSnoc(all: seq<int>, b: byte)
    requires Bytes(all)
    ensures Bytes(all + [b])
    ensures BytesToBits(all + [b]) == BytesToBits(all) + Bits(b, BYTE)
  {
    hide BytesToBits, Bits;
    if all == [] {
      OneByte(b);
      assert all + [b] == [b];
    } else {
      BytesSnoc(all[1..], b);
      BytesFirst(all);
      BytesFirst(all + [b]);
      assert (all + [b])[1..] == all[1..] + [b];
      Assoc(Bits(all[0], BYTE), BytesToBits(all[1..]), Bits(b, BYTE));
    }
  }

  lemma OneByte(b: byte)
    ensures Bytes([b]) && BytesToBits([b]) == Bits(b, BYTE) && BytesToBits([]) == []
  {
    assert [b][1..] == [];
    hide Bits;
  }

  lemma BytesFirst(all: seq<int>)
    requires Bytes(all) && all != []
    ensures BytesToBits(all) == Bits(all[0], BYTE) + BytesToBits(all[1..])
  {
    hide Bits;
  }

  /** Shifting a digit's five bits in appends them to the pending ones. */
  lemma PushDigit(ds: seq<int>, all: seq<int>, value: nat, bits: nat, d: nat)
    requires Collected(ds, all, value, bits) && bits < 8 && d < 32
    ensures value < U32 && Collected(ds + [d], all, Or(Shl(value, CHAR), d), bits + 5)
  {
    DigitsSnoc(ds, d);
    DigitIn(value, bits, d);
    Assoc(BytesToBits(all), Bits(value, bits), Bits(d, CHAR));
  }

  /** The byte `(value >> bits) & 0xff` takes is the oldest eight pending bits. */
  lemma TakeEight(ds: seq<int>, all: seq<int>, value: nat, bits: nat)
    requires Collected(ds, all, value, bits + 8)
    ensures Collected(ds, all + [Shr(value, bits) % 256], value, bits)
  {
    var b := Shr(value, bits) % 256;
    BitsSplit(value, BYTE, bits);
    assert Pow2(BYTE) == 256 by { Pow2At32(); }
    BitsMod(Shr(value, bits), BYTE, BYTE);
    BytesSnoc(all, b);
    Assoc(BytesToBits(all), Bits(b, BYTE), Bits(value, bits));
  }

  /** The loop invariant: `ds` are the indices of the first n characters. */
  ghost predicate Decoding(s: string, n: nat, ds: seq<int>, all: seq<int>, value: nat, bits: nat) {
    && n <= |s| && Over(ALPHABET, s[..n]) && ds == Indices(ALPHABET, s[..n])
    && Collected(ds, all, value, bits)
  }

  lemma DecodingNext(s: string, n: nat, ds: seq<int>, all: seq<int>, value: nat, bits: nat, k: nat)
    requires Decoding(s, n, ds, all, value, bits) && bits < 8
    requires n < |s| && k < |ALPHABET| && ALPHABET[k] == s[n]
    ensures value < U32 && Decoding(s, n + 1, ds + [k], all, Or(Shl(value, CHAR), k), bits + 5)
  {
    AlphabetDistinct();
    IndicesSnoc(ALPHABET, s, n, k);
    PushDigit(ds, all, value, bits, k);
  }

  lemma DecodingTake(s: string, n: nat, ds: seq<int>, all: seq<int>, value: nat, bits: nat)
    requires Decoding(s, n, ds, all, value, bits + 8)
    ensures Decoding(s, n, ds, all + [Shr(value, bits) % 256], value, bits)
  {
    TakeEight(ds, all, value, bits);
  }

  lemma DecodedOf(s: string, ds: seq<int>, all: seq<int>, value: nat, bits: nat, n: nat)
    requires Decoding(s, |s|, ds, all, value, bits) && bits < 8
    ensures Decoded(s, n) == if |Cap(all, n)| == n then Some(Cap(all, n)) else None
  {
    assert s[..|s|] == s;
    assert all[..|all|] == all;
    EightsOfBytes(all, Bits(value, bits));
  }

  /** At most n bytes are kept; the rest are decoded and dropped. */
  ghost function Cap(all: seq<int>, n: nat): seq<int> {
    if |all| <= n then all else all[..n]
  }

  lemma CapNext(all: seq<int>, n: nat, b: int)
    ensures Cap(all + [b], n) == if |Cap(all, n)| < n then Cap(all, n) + [b] else Cap(all, n)
  {
  }

  lemma NotDecoded(s: string, i: nat, n: nat)
    requires i < |s| && s[i] !in ALPHABET
    ensures Decoded(s, n) == None
  {
  }

  /** The invariant of the whole loop: of all the bytes so far, the first n are kept. */
  ghost predicate Held(s: string, i: nat, ds: seq<int>, all: seq<int>, value: nat, bits: nat, out: seq<int>, n: nat) {
    bits < 8 && Decoding(s, i, ds, all, value, bits) && out == Cap(all, n)
  }

  lemma HeldStart(s: string, n: nat)
    ensures Held(s, 0, [], [], 0, 0, [], n)
  {
  }

  lemma HeldChar(s: string, i: nat, ds: seq<int>, all: seq<int>, value: nat, bits: nat, out: seq<int>, n: nat, k: nat)
    requires Held(s, i, ds, all, value, bits, out, n) && bits < 3
    requires i < |s| && k < |ALPHABET| && ALPHABET[k] == s[i]
    ensures value < U32 && Held(s, i + 1, ds + [k], all, Or(Shl(value, CHAR), k), bits + 5, out, n)
  {
    DecodingNext(s, i, ds, all, value, bits, k);
    hide Decoding, Or, Shl;
  }

  lemma HeldByte(s: string, i: nat, ds: seq<int>, all: seq<int>, value: nat, bits: nat, out: seq<int>, n: nat, k: nat)
    requires Held(s, i, ds, all, value, bits, out, n) && 3 <= bits
    requires i < |s| && k < |ALPHABET| && ALPHABET[k] == s[i]
    ensures value < U32
    ensures var v, b := Or(Shl(value, CHAR), k), Shr(Or(Shl(value, CHAR), k), bits - 3) % 256;
            Held(s, i + 1, ds + [k], all + [b], v, bits - 3, if |out| < n then out + [b] else out, n)
  {
    DecodingNext(s, i, ds, all, value, bits, k);
    hide Decoding, Or, Shl, Shr, Cap;
    DecodingTake(s, i + 1, ds + [k], all, Or(Shl(value, CHAR), k), bits - 3);
    CapNext(all, n, Shr(Or(Shl(value, CHAR), k), bits - 3) % 256);
  }

  lemma HeldAll(s: string, ds: seq<int>, all: seq<int>, value: nat, bits: nat, out: seq<int>, n: nat)
    requires Held(s, |s|, ds, all, value, bits, out, n)
    ensures Decoded(s, n) == if |out| == n then Some(out) else None
  {
    DecodedOf(s, ds, all, value, bits, n);
    hide Decoding, Cap, Decoded;
  }

  method Decode(s: string, byteLen: nat) returns (r: Option<seq<int>>)
    ensures r == Decoded(s, byteLen)
  {
    hide *;
    var out: seq<int> := [];
    var bits: nat, value: nat := 0, 0;
    ghost var all: seq<int> := [];
    ghost var ds: seq<int> := [];
    HeldStart(s, byteLen);
    var i := 0;
    while i < |s|
      invariant 0 <= i <= |s| && bits < 8 && Held(s, i, ds, all, value, bits, out, byteLen)
    {
      var p := Lookup(ALPHABET, s[i]);
      if p.None? {
        NotDecoded(s, i, byteLen);
        return None;
      }
      if bits < 3 {
        HeldChar(s, i, ds, all, value, bits, out, byteLen, p.value);
      } else {
        HeldByte(s, i, ds, all, value, bits, out, byteLen, p.value);
      }
      value := Or(Shl(value, CHAR), p.value);
      bits := bits + 5;
      ds := ds + [p.value];
      i := i + 1;
      if bits >= 8 {
        bits := bits - 8;
        all := all + [Shr(value, bits) % 256];
        if |out| < byteLen {
          out := out + [Shr(value, bits) % 256];
        }
      }
    }
    HeldAll(s, ds, all, value, bits, out, byteLen);
    r := if |out| == byteLen then Some(out) else None;
  }

  // ---- the round trips -------------------------------------------------------------------

  lemma BitsOfDigit(five: seq<bool>)
    requires |five| == 5
    ensures Bits(Digit(five), CHAR) == five
    ensures DigitsToBits([Digit(five)]) == five
  {
    BitsOfNumber(five);
    assert [Digit(five)][1..] == [];
  }

  /** Digits carry their bits: regrouping into fives only adds the fill. */
  lemma {:induction false} BitsOfFives(bits: seq<bool>)
    ensures |Fives(bits)| == (|bits| + 4) / 5
    ensures DigitsToBits(Fives(bits)) == bits + Zeros(5 * |Fives(bits)| - |bits|)
    decreases |bits|
  {
    if bits == [] {
    } else if |bits| < 5 {
      BitsOfDigit(bits + Zeros(5 - |bits|));
    } else {
      BitsOfDigit(bits[..5]);
      var rest := Fives(bits[5..]);
      BitsOfFives(bits[5..]);
      DigitsToBitsAppend([Digit(bits[..5])], rest);
      assert bits == bits[..5] + bits[5..];
    }
  }

  lemma {:induction false} FivesOfDigits(ds: seq<int>)
    requires FiveBit(ds)
    ensures Fives(DigitsToBits(ds)) == ds
  {
    if ds != [] {
      FivesOfDigits(ds[1..]);
      assert Number(Bits(ds[0], CHAR)) == ds[0] by {
        Pow2At32();
        NumberOfBits(ds[0], CHAR);
      }
      assert DigitsToBits(ds)[..5] == Bits(ds[0], CHAR);
      assert DigitsToBits(ds)[5..] == DigitsToBits(ds[1..]);
    }
  }

  lemma BitsOfByte(b: byte)
    ensures Number(Bits(b, BYTE)) == b
  {
    Pow2At32();
    NumberOfBits(b, BYTE);
  }

  lemma EightsStep(eight: seq<bool>, rest: seq<bool>)
    requires |eight| == 8
    ensures Eights(eight + rest) == [Number(eight)] + Eights(rest)
  {
    assert (eight + rest)[..8] == eight && (eight + rest)[8..] == rest;
  }

  lemma {:induction false} EightsOfBytes(data: seq<int>, fill: seq<bool>)
    requires Bytes(data) && |fill| < 8
    ensures Eights(BytesToBits(data) + fill) == data
  {
    if data == [] {
      assert BytesToBits(data) + fill == fill;
    } else {
      var rest := BytesToBits(data[1..]);
      EightsOfBytes(data[1..], fill);
      BitsOfByte(data[0]);
      Assoc(Bits(data[0], BYTE), rest, fill);
      EightsStep(Bits(data[0], BYTE), rest + fill);
    }
  }

  lemma {:induction false} BytesOfEights(bits: seq<bool>)
    ensures |Eights(bits)| == |bits| / 8
    ensures BytesToBits(Eights(bits)) == bits[..8 * (|bits| / 8)]
    decreases |bits|
  {
    if |bits| >= 8 {
      var eight, rest := bits[..8], bits[8..];
      BytesOfEights(rest);
      BitsOfNumber(eight);
      var tail := Eights(rest);
      assert Eights(bits) == [Number(eight)] + tail;
      assert ([Number(eight)] + tail)[1..] == tail;
      assert bits[..8 * (|bits| / 8)] == eight + rest[..8 * (|rest| / 8)];
    }
  }

  lemma {:induction false} BytesToBitsPrefix(data: seq<int>, n: nat)
    requires Bytes(data) && n <= |data|
    ensures BytesToBits(data[..n]) == BytesToBits(data)[..8 * n]
  {
    if n > 0 {
      BytesToBitsPrefix(data[1..], n - 1);
      assert data[..n][1..] == data[1..][..n - 1];
    }
  }

  /** Every length survives, although the accumulator overflows after four bytes. */
  lemma DecodeOfEncode(data: seq<byte>)
    ensures Decoded(Encoded(data), |data|) == Some(data)
    ensures |Encoded(data)| == (8 * |data| + 4) / 5
  {
    var bits := BytesToBits(data);
    AlphabetDistinct();
    IndicesOfSymbols(ALPHABET, Fives(bits));
    BitsOfFives(bits);
    EightsOfBytes(data, Zeros(5 * |Fives(bits)| - |bits|));
    assert data[..|data|] == data;
  }

  /**
   Re-encoding gives the text back exactly when it has the length the encoder
   would produce and the fill bits it ignores are zero.
   */
  lemma EncodeOfDecode(s: string, n: nat)
    requires Decoded(s, n).Some?
    ensures |ALPHABET| == 32
    ensures Encoded(Decoded(s, n).value) == s
    <==> |s| == (8 * n + 4) / 5
         && DigitsToBits(Indices(ALPHABET, s))[8 * n..] == Zeros(5 * |s| - 8 * n)
  {
    AlphabetDistinct();
    var ds := Indices(ALPHABET, s);
    var bits := DigitsToBits(ds);
    BytesOfEights(bits);
    BytesToBitsPrefix(Eights(bits), n);
    assert BytesToBits(Eights(bits)[..n]) == bits[..8 * n];
    FillDecides(ds, n);
    SymbolsOfIndices(ALPHABET, s);
    IndicesOfSymbols(ALPHABET, Fives(bits[..8 * n]));
  }

  lemma FillDecides(ds: seq<int>, n: nat)
    requires FiveBit(ds) && 8 * n <= 5 * |ds|
    ensures Fives(DigitsToBits(ds)[..8 * n]) == ds
    <==> |ds| == (8 * n + 4) / 5 && DigitsToBits(ds)[8 * n..] == Zeros(5 * |ds| - 8 * n)
  {
    hide DigitsToBits, Fives;
    var bits := DigitsToBits(ds);
    var again := Fives(bits[..8 * n]);
    BitsOfFives(bits[..8 * n]);
    if |ds| == (8 * n + 4) / 5 {
      Cancel(bits, 8 * n, Zeros(5 * |ds| - 8 * n));
      SameBitsSameDigits(ds, again);
    }
  }

  lemma Cancel<T>(s: seq<T>, n: nat, t: seq<T>)
    requires n <= |s|
    ensures s == s[..n] + t <==> s[n..] == t
  {
    assert s == s[..n] + s[n..];
    assert (s[..n] + t)[n..] == t;
  }

  lemma SameBitsSameDigits(a: seq<int>, b: seq<int>)
    requires FiveBit(a) && FiveBit(b)
    ensures DigitsToBits(a) == DigitsToBits(b) <==> a == b
  {
    FivesOfDigits(a);
    FivesOfDigits(b);
  }

  /** A text fails to decode exactly on a foreign character or too few bits. */
  lemma DecodeFailsExactly(s: string, n: nat)
    ensures Decoded(s, n).None?
       <==> (exists i :: 0 <= i < |s| && s[i] !in ALPHABET) || 5 * |s| / 8 < n
  {
    AlphabetDistinct();
    if Over(ALPHABET, s) {
      BytesOfEights(DigitsToBits(Indices(ALPHABET, s)));
    }
  }
}
