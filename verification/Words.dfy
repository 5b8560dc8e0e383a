/** Unsigned machine words as numbers, with the bit operations that the kernel uses on them. */
module Words {

  const MODULUS: int := 0x1_0000_0000

  type u32 = x: int | 0 <= x < 0x1_0000_0000

  function Pow2(n: nat): (p: nat)
    ensures p > 0
  {
    if n == 0 then 1 else 2 * Pow2(n - 1)
  }

  /** Bit j of x, counted from the least significant one. */
  predicate Bit(x: nat, j: nat) {
    if j == 0 then x % 2 == 1 else Bit(x / 2, j - 1)
  }

  /** x | y */
  function Or(x: nat, y: nat): nat {
    if x == 0 && y == 0 then 0
    else (if x % 2 == 1 || y % 2 == 1 then 1 else 0) + 2 * Or(x / 2, y / 2)
  }

  /** x & y */
  function And(x: nat, y: nat): nat {
    if x == 0 || y == 0 then 0
    else (if x % 2 == 1 && y % 2 == 1 then 1 else 0) + 2 * And(x / 2, y / 2)
  }

  /** ~x in 32 bits */
  function Not(x: u32): u32 {
    MODULUS - 1 - x
  }

  /** x >> n */
  function Shr(x: nat, n: nat): nat {
    if n == 0 then x else Shr(x / 2, n - 1)
  }

  // ----- Bit by bit

  lemma {:induction false} ZeroBits(j: nat)
    ensures !Bit(0, j)
  {
    if j > 0 { ZeroBits(j - 1); }
  }

  lemma {:induction false} OrBits(x: nat, y: nat, j: nat)
    ensures Bit(Or(x, y), j) <==> Bit(x, j) || Bit(y, j)
  {
    if x == 0 && y == 0 { ZeroBits(j); } else if j > 0 { OrBits(x / 2, y / 2, j - 1); }
  }

  lemma {:induction false} AndBits(x: nat, y: nat, j: nat)
    ensures Bit(And(x, y), j) <==> Bit(x, j) && Bit(y, j)
  {
    if x == 0 || y == 0 { ZeroBits(j); } else if j > 0 { AndBits(x / 2, y / 2, j - 1); }
  }

  lemma {:induction false} OrZero(a: nat)
    ensures Or(a, 0) == a
  {
    if a > 0 { OrZero(a / 2); }
  }

  lemma {:induction false} Pow2Bits(i: nat, j: nat)
    ensures Bit(Pow2(i), j) <==> i == j
  {
    if i == 0 { if j > 0 { ZeroBits(j - 1); } } else if j > 0 { Pow2Bits(i - 1, j - 1); }
  }

  lemma {:induction false} ComplementBits(n: nat, x: nat, j: nat)
    requires x < Pow2(n) && j < n
    ensures Bit(Pow2(n) - 1 - x, j) <==> !Bit(x, j)
  {
    if j > 0 {
      assert (Pow2(n) - 1 - x) / 2 == Pow2(n - 1) - 1 - x / 2;
      ComplementBits(n - 1, x / 2, j - 1);
    }
  }

  lemma {:induction false} ShrBits(x: nat, j: nat)
    ensures Shr(x, j) % 2 == 1 <==> Bit(x, j)
  {
    if j > 0 { ShrBits(x / 2, j - 1); }
  }

  /** Bit j of x is the lowest one of x / 2^j. */
  lemma {:induction false} BitIsQuotient(x: nat, j: nat)
    ensures Bit(x, j) <==> x / Pow2(j) % 2 == 1
  {
    if j > 0 {
      BitIsQuotient(x / 2, j - 1);
      HalvedQuotient(x, Pow2(j - 1));
    }
  }

  lemma HalvedQuotient(x: nat, d: nat)
    requires d > 0
    ensures x / (2 * d) == x / 2 / d
  {
    var q := x / 2 / d;
    var r := x / 2 - d * q;
    assert 0 <= r < d && x == 2 * d * q + (2 * r + x % 2);
    QuotientOf(x, 2 * d, q, 2 * r + x % 2);
  }

  lemma QuotientOf(x: nat, d: nat, q: nat, r: nat)
    requires d > 0 && x == d * q + r && r < d
    ensures x / d == q
  {
    if x / d < q { LargerProduct(d, x / d + 1, q); } else if x / d > q { LargerProduct(d, q + 1, x / d); }
  }

  lemma LargerProduct(d: nat, a: nat, b: nat)
    requires a <= b
    ensures d * a <= d * b
  {
  }

  lemma {:induction false} SameBits(n: nat, x: nat, y: nat)
    requires x < Pow2(n) && y < Pow2(n) && forall j :: 0 <= j < n ==> (Bit(x, j) <==> Bit(y, j))
    ensures x == y
  {
    if n > 0 {
      assert Bit(x, 0) <==> Bit(y, 0);
      forall j | 0 <= j < n - 1 ensures Bit(x / 2, j) <==> Bit(y / 2, j) {
        assert Bit(x, j + 1) <==> Bit(y, j + 1);
      }
      SameBits(n - 1, x / 2, y / 2);
    }
  }

  lemma LowestBit(x: nat)
    ensures And(x, 1) == x % 2
  {
    if x != 0 { assert And(x / 2, 0) == 0; }
  }

  /** x & (1 << j) tests bit j. */
  lemma {:induction false} MaskedBit(x: nat, j: nat)
    ensures And(x, Pow2(j)) != 0 <==> Bit(x, j)
  {
    if x == 0 {
      ZeroBits(j);
    } else if j == 0 {
      LowestBit(x);
    } else {
      MaskedBit(x / 2, j - 1);
    }
  }

  // ----- Sizes

  lemma {:induction false} OrFits(n: nat, x: nat, y: nat)
    requires x < Pow2(n) && y < Pow2(n)
    ensures Or(x, y) < Pow2(n)
  {
    if n > 0 { OrFits(n - 1, x / 2, y / 2); }
  }

  lemma {:induction false} AndFits(x: nat, y: nat)
    ensures And(x, y) <= x && And(x, y) <= y
  {
    if x != 0 && y != 0 { AndFits(x / 2, y / 2); }
  }

  lemma {:induction false} Pow2Fits(i: nat, n: nat)
    requires i < n
    ensures Pow2(i) < Pow2(n)
  {
    if i + 1 < n { Pow2Fits(i, n - 1); }
  }

  lemma WordSize()
    ensures Pow2(32) == MODULUS
  {
    assert Pow2(8) == 0x100;
    assert Pow2(16) == 0x1_0000;
    assert Pow2(24) == 0x100_0000;
  }

  /** Counting in 32 bits step by step is counting and wrapping at the end. */
  lemma WrapLater(x: int, d: int)
    ensures (x % MODULUS + d) % MODULUS == (x + d) % MODULUS
  {
  }

  lemma WrapTwice(x: int, d: int, u: int, v: int)
    requires u == x % MODULUS && v == (u + d) % MODULUS
    ensures v == (x + d) % MODULUS
  {
    WrapLater(x, d);
  }

  /** A difference in 32 bits does not change when both sides move by the same amount. */
  lemma WrapBoth(x: int, y: int, d: int)
    ensures ((x + d) % MODULUS - (y + d)) % MODULUS == (x - y) % MODULUS
  {
    WrapLater(x + d, -(y + d));
  }

  // ----- One bit of a word

  /** x | (1 << j) */
  function WithBit(x: u32, j: nat): (r: u32)
    requires j < 32
  {
    WordSize(); Pow2Fits(j, 32); OrFits(32, x, Pow2(j));
    Or(x, Pow2(j))
  }

  /** x & ~(1 << j) */
  function WithoutBit(x: u32, j: nat): (r: u32)
    requires j < 32
  {
    WordSize(); Pow2Fits(j, 32); AndFits(x, Not(Pow2(j)));
    And(x, Not(Pow2(j)))
  }

  lemma {:induction false} WithBitBits(x: u32, j: nat, k: nat)
    requires j < 32 && k < 32
    ensures Bit(WithBit(x, j), k) <==> k == j || Bit(x, k)
  {
    OrBits(x, Pow2(j), k);
    Pow2Bits(j, k);
  }

  lemma {:induction false} WithoutBitBits(x: u32, j: nat, k: nat)
    requires j < 32 && k < 32
    ensures Bit(WithoutBit(x, j), k) <==> k != j && Bit(x, k)
  {
    WordSize();
    Pow2Fits(j, 32);
    AndBits(x, Not(Pow2(j)), k);
    ComplementBits(32, Pow2(j), k);
    Pow2Bits(j, k);
  }

  lemma {:induction false} SameWord(x: u32, y: u32)
    requires forall j :: 0 <= j < 32 ==> (Bit(x, j) <==> Bit(y, j))
    ensures x == y
  {
    WordSize();
    SameBits(32, x, y);
  }

  lemma {:induction false} FullWord(x: u32, j: nat)
    requires x == MODULUS - 1 && j < 32
    ensures Bit(x, j)
  {
    WordSize();
    ComplementBits(32, 0, j);
    ZeroBits(j);
  }
}
