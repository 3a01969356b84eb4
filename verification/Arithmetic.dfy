/** Division facts that the linear solver does not find by itself. */
module Arithmetic {

  lemma {:induction false} MulAtLeast(d: int, x: int)
    requires d > 0 && x >= 1
    ensures d * x >= d
    decreases x
  {
    if x > 1 {
      MulAtLeast(d, x - 1);
      assert d * x == d * (x - 1) + d;
    }
  }

  lemma MulOrder(d: int, x: int, y: int)
    requires d > 0 && x < y
    ensures d * x + d <= d * y
  {
    MulAtLeast(d, y - x);
    assert d * (y - x) == d * y - d * x;
  }

  lemma SumOfMultiples(d: int, x: int, y: int)
    ensures x * d + y * d == (x + y) * d
  {
  }

  lemma MultiplesOrdered(d: int, x: int, y: int)
    requires d > 0 && x <= y
    ensures x * d <= y * d
  {
    if x < y {
      MulOrder(d, x, y);
    }
  }

  lemma SameQuotient(d: int, x: int, y: int, r: int, s: int)
    requires d > 0 && 0 <= r < d && 0 <= s < d && d * x + r == d * y + s
    ensures x == y && r == s
  {
    if x < y { MulOrder(d, x, y); }
    if y < x { MulOrder(d, y, x); }
  }

  /** Quotient and remainder are determined by the division equation. */
  lemma DivMod(v: int, d: int, q: int, r: int)
    requires d > 0 && v == d * q + r && 0 <= r < d
    ensures v / d == q && v % d == r
  {
    SameQuotient(d, q, v / d, r, v % d);
  }

  lemma MultipleDivides(d: int, q: int)
    requires d > 0
    ensures (q * d) / d == q && (q * d) % d == 0
  {
    DivMod(q * d, d, q, 0);
  }

  lemma OrderFromParts(a: int, p: int, d: int, q: int, r: int)
    requires d > 0 && a == d * q + r && 0 <= r < d
    ensures a < p * d <==> q < p
  {
    assert p * d == d * p;
    if q < p { MulOrder(d, q, p); }
    else if p < q { MulOrder(d, p, q); }
  }

  /** A byte is below the start of page `p` exactly when its own page is below `p`. */
  lemma PageOrder(a: int, p: int, d: int)
    requires d > 0
    ensures a < p * d <==> a / d < p
  {
    OrderFromParts(a, p, d, a / d, a % d);
  }

  lemma DivMonotone(a: int, b: int, d: int)
    requires d > 0 && a <= b
    ensures a / d <= b / d
  {
    PageOrder(a, b / d + 1, d);
    PageOrder(b, b / d + 1, d);
  }

  /** Between two bytes there is one on every page from the first byte's to the last byte's. */
  lemma ByteOnPage(first: int, last: int, page: int, d: int) returns (a: int)
    requires d > 0 && first <= last && first / d <= page <= last / d
    ensures first <= a <= last && a / d == page
  {
    if first / d == page {
      a := first;
    } else {
      a := page * d;
      MultipleDivides(d, page);
      PageStartsBetween(first, last, page, d);
    }
  }

  lemma PageStartsBetween(first: int, last: int, page: int, d: int)
    requires d > 0 && first / d < page <= last / d
    ensures first < page * d <= last
  {
    PageOrder(first, page, d);
    PageOrder(last, page, d);
  }

  predicate IsPowerOfTwo(v: nat) {
    v == 1 || (v > 1 && v % 2 == 0 && IsPowerOfTwo(v / 2))
  }

  function Pow2(k: nat): (p: nat) {
    if k == 0 then 1 else 2 * Pow2(k - 1)
  }

  /** The test accepts exactly the powers of two. */
  lemma {:induction false} PowerOfTwoMeans(v: nat)
    ensures IsPowerOfTwo(v) <==> exists k :: v == Pow2(k)
  {
    if IsPowerOfTwo(v) {
      var k := ExponentOf(v);
    }
    if k: nat :| v == Pow2(k) {
      Pow2IsPower(k);
    }
  }

  lemma {:induction false} ExponentOf(v: nat) returns (k: nat)
    requires IsPowerOfTwo(v)
    ensures v == Pow2(k)
    decreases v
  {
    if v == 1 {
      k := 0;
    } else {
      var j := ExponentOf(v / 2);
      k := j + 1;
    }
  }

  lemma {:induction false} Pow2IsPower(k: nat)
    ensures Pow2(k) >= 1 && IsPowerOfTwo(Pow2(k))
  {
    if k > 0 {
      Pow2IsPower(k - 1);
      assert Pow2(k) / 2 == Pow2(k - 1) && Pow2(k) % 2 == 0;
    }
  }

  /** A power of two no larger than `2^(a+1)` divides it once its half divides `2^a`. */
  lemma DoubleDivides(a: int, b: int)
    requires b > 0 && a % b == 0
    ensures (2 * a) % (2 * b) == 0
  {
    var q := a / b;
    assert a == b * q;
    DivMod(2 * a, 2 * b, q, 0);
  }

  /** Every power of two up to another one divides it. */
  lemma {:induction false} PowersDivide(v: nat, w: nat)
    requires IsPowerOfTwo(v) && IsPowerOfTwo(w) && v <= w
    ensures v > 0 && w % v == 0
    decreases w
  {
    if v > 1 {
      PowersDivide(v / 2, w / 2);
      DoubleDivides(w / 2, v / 2);
    }
  }

  lemma TwoTo64IsPower()
    ensures IsPowerOfTwo(0x1_0000_0000_0000_0000)
  {
    assert IsPowerOfTwo(0x100);
    HalveEight(0x1_0000);
    HalveEight(0x100_0000);
    HalveEight(0x1_0000_0000);
    HalveEight(0x100_0000_0000);
    HalveEight(0x1_0000_0000_0000);
    HalveEight(0x100_0000_0000_0000);
    HalveEight(0x1_0000_0000_0000_0000);
  }

  lemma DoublePower(v: nat)
    requires IsPowerOfTwo(v)
    ensures IsPowerOfTwo(2 * v)
  {
    assert (2 * v) / 2 == v;
  }

  lemma HalveEight(v: nat)
    requires v > 0 && v % 256 == 0 && IsPowerOfTwo(v / 256)
    ensures IsPowerOfTwo(v)
  {
    hide IsPowerOfTwo;
    var a := v / 256;
    DoublePower(a);
    DoublePower(2 * a);
    DoublePower(4 * a);
    DoublePower(8 * a);
    DoublePower(16 * a);
    DoublePower(32 * a);
    DoublePower(64 * a);
    DoublePower(128 * a);
    assert v == 2 * (128 * a);
  }

  lemma PageSizeDivides(ps: nat)
    requires IsPowerOfTwo(ps) && ps < 0x1_0000_0000_0000_0000
    ensures ps > 0 && 0x1_0000_0000_0000_0000 % ps == 0
  {
    TwoTo64IsPower();
    PowersDivide(ps, 0x1_0000_0000_0000_0000);
  }
}
