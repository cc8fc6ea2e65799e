/** Powers of two and the quotient-remainder facts the codecs rest on. */
module Arithmetic {
  type byte = x: int | 0 <= x < 256

  function Pow2(k: nat): nat {
    if k == 0 then 1 else 2 * Pow2(k - 1)
  }

  lemma {:induction false} Pow2Positive(k: nat)
    ensures Pow2(k) > 0
  {
    if k > 0 {
      Pow2Positive(k - 1);
    }
  }

  lemma Pow2At32()
    ensures Pow2(5) == 32 && Pow2(8) == 256
    ensures Pow2(31) == 0x8000_0000 && Pow2(32) == 0x1_0000_0000
  {
    assert Pow2(10) == 32 * Pow2(5) == 1024;
    assert Pow2(15) == 32 * Pow2(10) == 32768;
    assert Pow2(20) == 32 * Pow2(15);
    assert Pow2(25) == 32 * Pow2(20);
    assert Pow2(31) == 64 * Pow2(25);
  }

  lemma MulGrows(b: int, k: int)
    requires b >= 0 && k >= 1
    ensures b * k >= b
  {
  }

  lemma SmallMultiple(b: int, k: int, r: int)
    requires b * k == r && -b < r < b
    ensures k == 0
  {
    if k >= 1 {
      MulGrows(b, k);
    } else if k <= -1 {
      MulGrows(b, -k);
    }
  }

  /** A quotient and a remainder in range are the quotient and the remainder. */
  lemma DivModSplit(d: int, q: int, b: int)
    requires 0 <= d < b
    ensures (d + b * q) % b == d && (d + b * q) / b == q
  {
    var n := d + b * q;
    var q', r' := n / b, n % b;
    assert n == b * q' + r' && 0 <= r' < b;
    assert b * (q - q') == r' - d;
    SmallMultiple(b, q - q', r' - d);
  }

  lemma HalfOfMod(v: nat, m: nat)
    requires m > 0
    ensures 2 * m > 0 && (v % (2 * m)) / 2 == (v / 2) % m && (v % (2 * m)) % 2 == v % 2
  {
    var q, r := v / (2 * m), v % (2 * m);
    assert v == 2 * m * q + r;
    assert 2 * m * q == 2 * (m * q);
    DivModSplit(r / 2, q, m);
  }
}
