/** 64-bit field masks: bit `k` stands for the value `k`, bit 63 for "the field held a star". */
module Mask {

  const STAR_BIT: bv64 := 0x8000_0000_0000_0000
  const ONES: bv64 := 0xFFFF_FFFF_FFFF_FFFF

  /** `x << n` for an unsigned number: `n` doublings, none of whose overflow survives. */
  function Shl(x: bv64, n: nat): bv64 {
    if n == 0 then x else Shl(x, n - 1) << 1
  }

  function Bit(k: nat): bv64 {
    Shl(1, k)
  }

  predicate Meets(c: bv64, m: bv64) {
    c & m != 0
  }

  /** Exactly one bit is set. */
  predicate OneHot(c: bv64) {
    c != 0 && c & (c - 1) == 0
  }

  /** The test `1<<uint(k) & m != 0`. */
  predicate Has(m: bv64, k: nat)
    requires k < 64
  {
    Meets(Bit(k), m)
  }

  predicate Star(m: bv64) {
    m & STAR_BIT != 0
  }

  // Single bits.

  lemma DoubleBit(b: bv64)
    requires OneHot(b) && b & STAR_BIT == 0
    ensures OneHot(b << 1)
  {
  }

  lemma OneHotIsBit(b: bv64, m: bv64)
    requires OneHot(b)
    ensures b & !m != 0 <==> b & m == 0
  {
  }

  lemma DoubleBoth(b: bv64, m: bv64)
    requires b & STAR_BIT == 0
    ensures Meets(b << 1, m << 1) <==> Meets(b, m)
  {
  }

  lemma DoublingClearsOne(m: bv64)
    ensures !Meets(1, m << 1)
  {
  }

  lemma OneHotNotTop(b: bv64)
    requires OneHot(b) && b << 1 != 0
    ensures b & STAR_BIT == 0
  {
  }

  lemma {:induction false} ShlAdds(x: bv64, m: nat, n: nat)
    ensures Shl(Shl(x, m), n) == Shl(x, m + n)
  {
    if n > 0 {
      ShlAdds(x, m, n - 1);
    }
  }

  lemma {:induction false} ShlZero(n: nat)
    ensures Shl(0, n) == 0
  {
    if n > 0 {
      ShlZero(n - 1);
    }
  }

  /** Every bit is a single bit, and only bit 63 is the top bit. */
  lemma {:induction false} SingleBit(k: nat)
    requires k < 64
    ensures OneHot(Bit(k)) && Bit(k) != 0
    ensures k < 63 ==> Bit(k) & STAR_BIT == 0
  {
    hide Shl;
    BitTable();
    if k > 0 {
      NextBit(k);
      SingleBit(k - 1);
      DoubleBit(Bit(k - 1));
    }
    if k < 63 {
      ShlAdds(1, k + 1, 62 - k);
      ShlZero(62 - k);
      NextBit(k + 1);
      OneHotNotTop(Bit(k));
    }
  }

  /** The bits at the ends of the four 16-bit quarters. */
  lemma BitTable()
    ensures Bit(0) == 1 && Bit(16) == 0x1_0000 && Bit(32) == 0x1_0000_0000 && Bit(48) == 0x1_0000_0000_0000
    ensures Bit(63) == STAR_BIT
  {
    ShlInSteps(1, 0);
    ShlInSteps(1, 16);
    ShlInSteps(1, 32);
    ShlInSteps(1, 47);
  }

  lemma ShlInSteps(x: bv64, n: nat)
    ensures Shl(x, n + 16) == Shl(x, n) << 16
  {
    ShlByFour(x, n);
    ShlByFour(x, n + 4);
    ShlByFour(x, n + 8);
    ShlByFour(x, n + 12);
  }

  lemma ShlOnce(x: bv64, n: nat)
    ensures Shl(x, n + 1) == Shl(x, n) << 1
  {
  }

  lemma FourDoublings(y: bv64)
    ensures (((y << 1) << 1) << 1) << 1 == y << 4
  {
  }

  lemma ShlByFour(x: bv64, n: nat)
    ensures Shl(x, n + 4) == Shl(x, n) << 4
  {
    hide Shl;
    ShlOnce(x, n);
    ShlOnce(x, n + 1);
    ShlOnce(x, n + 2);
    ShlOnce(x, n + 3);
    FourDoublings(Shl(x, n));
  }

  lemma BitZero()
    ensures Bit(0) == 1
  {
  }

  lemma NextBit(k: nat)
    requires k > 0
    ensures Bit(k) == Bit(k - 1) << 1
  {
  }

  // Tests on composed masks.

  lemma HasOr(a: bv64, b: bv64, k: nat)
    requires k < 64
    ensures Has(a | b, k) == (Has(a, k) || Has(b, k))
  {
    hide Shl, Meets;
    OrSplits(Bit(k), a, b);
  }

  lemma OrSplits(c: bv64, a: bv64, b: bv64)
    ensures Meets(c, a | b) <==> Meets(c, a) || Meets(c, b)
  {
    Distributes(c, a, b);
    OrIsZero(c & a, c & b);
  }

  lemma Distributes(c: bv64, a: bv64, b: bv64)
    ensures c & (a | b) == (c & a) | (c & b)
  {
  }

  lemma OrIsZero(x: bv64, y: bv64)
    ensures x | y == 0 <==> x == 0 && y == 0
  {
  }

  lemma HasAnd(a: bv64, b: bv64, k: nat)
    requires k < 64
    ensures Has(a & b, k) == (Has(a, k) && Has(b, k))
  {
    hide Shl, Meets, OneHot, Bit;
    SingleBit(k);
    AndMeets(Bit(k), a, b);
  }

  lemma AndMeets(c: bv64, a: bv64, b: bv64)
    requires OneHot(c)
    ensures Meets(c, a & b) <==> Meets(c, a) && Meets(c, b)
  {
    hide Meets, OneHot;
    AllOrNothing(c, a);
    AndAssociates(c, a, b);
    NothingMeets(b);
  }

  /** A single bit lies inside or outside a mask. */
  lemma AllOrNothing(c: bv64, a: bv64)
    requires OneHot(c)
    ensures c & a == if Meets(c, a) then c else 0
  {
    if c & a != 0 {
      OneHotIsBit(c, a);
      AndOrNot(c, a);
    }
  }

  lemma AndOrNot(c: bv64, a: bv64)
    requires c & !a == 0
    ensures c & a == c
  {
  }

  lemma AndAssociates(c: bv64, a: bv64, b: bv64)
    ensures Meets(c, a & b) <==> Meets(c & a, b)
  {
  }

  lemma NothingMeets(b: bv64)
    ensures !Meets(0, b)
  {
  }

  lemma HasNot(a: bv64, k: nat)
    requires k < 64
    ensures Has(!a, k) == !Has(a, k)
  {
    hide Shl, Meets, OneHot, Bit;
    SingleBit(k);
    NotMeets(Bit(k), a);
  }

  lemma NotMeets(c: bv64, a: bv64)
    requires OneHot(c)
    ensures Meets(c, !a) <==> !Meets(c, a)
  {
    OneHotIsBit(c, a);
  }

  lemma HasAndNot(a: bv64, b: bv64, k: nat)
    requires k < 64
    ensures Has(!a & b, k) == (!Has(a, k) && Has(b, k))
  {
    hide Has, Shl, Meets, OneHot, Bit;
    var n := !a;
    HasAnd(n, b, k);
    HasNot(a, k);
  }

  /** A doubled mask has each bit one place higher. */
  lemma HasDouble(m: bv64, k: nat)
    requires k < 64
    ensures Has(m << 1, k) == (k > 0 && Has(m, k - 1))
  {
    hide Shl, Meets;
    if k == 0 {
      BitZero();
      DoublingClearsOne(m);
    } else {
      NextBit(k);
      SingleBit(k - 1);
      DoubleBoth(Bit(k - 1), m);
    }
  }

  lemma {:induction false} HasShl(m: bv64, n: nat, k: nat)
    requires k < 64
    ensures Has(Shl(m, n), k) == (k >= n && Has(m, k - n))
  {
    hide Has, Meets, Bit;
    if n > 0 {
      HasDouble(Shl(m, n - 1), k);
      if k > 0 {
        HasShl(m, n - 1, k - 1);
      }
    }
  }

  /** `1 << i` has exactly bit `i`. */
  lemma HasBit(i: nat, k: nat)
    requires i < 64 && k < 64
    ensures Has(Bit(i), k) == (i == k)
  {
    HasShl(1, i, k);
    if k >= i {
      HasOne(k - i);
    }
  }

  lemma {:induction false} HasOne(k: nat)
    requires k < 64
    ensures Has(1, k) == (k == 0)
  {
    if k > 0 {
      SingleBit(k - 1);
      DoubledIsEven(Bit(k - 1));
    }
  }

  lemma DoubledIsEven(b: bv64)
    ensures (b << 1) & 1 == 0
  {
  }

  lemma HasOnes(k: nat)
    requires k < 64
    ensures Has(ONES, k)
  {
    hide Shl;
    SingleBit(k);
    AndOnes(Bit(k));
  }

  lemma AndOnes(b: bv64)
    ensures b & ONES == b
  {
  }

  /** The star bit is bit 63. */
  lemma StarIsBit63(m: bv64)
    ensures Star(m) == Has(m, 63)
  {
    BitTable();
  }
}
