/** Go's integer arithmetic on mathematical integers: division that truncates toward zero, and
    two's-complement wrap-around. */
module Integers {

  const TWO_TO_THE_63: int := 0x8000_0000_0000_0000
  const TWO_TO_THE_64: int := 0x1_0000_0000_0000_0000

  type int64 = x: int | -TWO_TO_THE_63 <= x < TWO_TO_THE_63

  predicate FitsInt64(x: int) {
    -TWO_TO_THE_63 <= x < TWO_TO_THE_63
  }

  /** The value of x in an int64 variable. */
  function Wrap64(x: int): (r: int64)
    ensures FitsInt64(x) ==> r == x
  {
    var m := x % TWO_TO_THE_64;
    if m < TWO_TO_THE_63 then m else m - TWO_TO_THE_64
  }

  lemma Wrap64Differs(x: int) returns (k: int)
    ensures Wrap64(x) == x - k * TWO_TO_THE_64
  {
    k := x / TWO_TO_THE_64;
    if Wrap64(x) < 0 {
      k := k + 1;
    }
  }

  /** Adding in wrapped arithmetic and wrapping at the end is the same as wrapping once. */
  lemma Wrap64Add(x: int, y: int)
    ensures Wrap64(Wrap64(x) + y) == Wrap64(x + y)
  {
    var k := Wrap64Differs(x);
    assert (Wrap64(x) + y) % TWO_TO_THE_64 == (x + y - k * TWO_TO_THE_64) % TWO_TO_THE_64;
    ModShift(x + y, -k);
  }

  lemma ModShift(x: int, k: int)
    ensures (x + k * TWO_TO_THE_64) % TWO_TO_THE_64 == x % TWO_TO_THE_64
    decreases if k < 0 then -k else k
  {
    if k > 0 {
      ModShift(x, k - 1);
      assert x + k * TWO_TO_THE_64 == (x + (k - 1) * TWO_TO_THE_64) + TWO_TO_THE_64;
    } else if k < 0 {
      ModShift(x, k + 1);
      assert x + k * TWO_TO_THE_64 == (x + (k + 1) * TWO_TO_THE_64) - TWO_TO_THE_64;
    }
  }

  /** Go's x / d. */
  function TruncDiv(x: int, d: int): int
    requires d > 0
  {
    if x >= 0 then x / d else -(-x / d)
  }

  /** What truncating division means: the largest quotient in size that does not overshoot. */
  lemma TruncDivMeaning(x: int, d: int, q: int)
    requires d > 0
    ensures x >= 0 ==> (TruncDiv(x, d) == q <==> q * d <= x < (q + 1) * d)
    ensures x <= 0 ==> (TruncDiv(x, d) == q <==> (q - 1) * d < x <= q * d)
  {
    if x >= 0 {
      DivMeaning(x, d, q);
    }
    if x <= 0 {
      DivMeaning(-x, d, -q);
      NegMul(q, d);
      NegMul(q - 1, d);
      assert -q + 1 == -(q - 1);
      assert x == 0 ==> x / d == 0 == -x / d;
    }
  }

  lemma NegMul(q: int, d: int)
    ensures (-q) * d == -(q * d)
  {
  }

  lemma DivMeaning(x: nat, d: int, q: int)
    requires d > 0
    ensures x / d == q <==> q * d <= x < (q + 1) * d
  {
    var p := x / d;
    assert x == p * d + x % d;
    assert p * d <= x < (p + 1) * d by {
      assert (p + 1) * d == p * d + d;
    }
    if q * d <= x < (q + 1) * d {
      if p < q {
        MulMonotone(p + 1, q, d);
      } else if q < p {
        MulMonotone(q + 1, p, d);
      }
    }
  }

  lemma MulMonotone(a: int, b: int, d: int)
    requires a <= b && d >= 0
    ensures a * d <= b * d
  {
    assert (b - a) * d >= 0;
    assert b * d == a * d + (b - a) * d;
  }

  lemma DivMonotone(x: nat, y: nat, d: int)
    requires d > 0 && x <= y
    ensures 0 <= x / d <= y / d
  {
    var p, q := x / d, y / d;
    DivMeaning(x, d, p);
    DivMeaning(y, d, q);
    if q < p {
      MulMonotone(q + 1, p, d);
    }
  }

  lemma TruncDivSign(x: int, d: int)
    requires d > 0
    ensures x >= 0 ==> TruncDiv(x, d) == x / d >= 0
    ensures x <= 0 ==> TruncDiv(x, d) == -(-x / d) <= 0
  {
    DivMonotone(0, if x >= 0 then x else -x, d);
    assert 0 / d == 0;
  }

  lemma TruncDivMonotone(x: int, y: int, d: int)
    requires d > 0 && x <= y
    ensures TruncDiv(x, d) <= TruncDiv(y, d)
  {
    hide TruncDiv;
    TruncDivSign(x, d);
    TruncDivSign(y, d);
    if x >= 0 {
      DivMonotone(x, y, d);
    } else if y <= 0 {
      DivMonotone(-y, -x, d);
    }
  }

  /** Dividing twice is dividing once by the product. */
  lemma TruncDivTwice(x: int, a: int, b: int)
    requires a > 0 && b > 0
    ensures a * b > 0 && TruncDiv(TruncDiv(x, a), b) == TruncDiv(x, a * b)
  {
    hide TruncDiv;
    MulMonotone(1, a, b);
    TruncDivSign(x, a);
    TruncDivSign(TruncDiv(x, a), b);
    TruncDivSign(x, a * b);
    DivTwice(if x >= 0 then x else -x, a, b);
  }

  lemma DivTwice(x: nat, a: int, b: int)
    requires a > 0 && b > 0 && a * b > 0
    ensures x / a / b == x / (a * b)
  {
    var p := x / a;
    var q := p / b;
    DivMeaning(x, a, p);
    DivMeaning(p, b, q);
    assert q * (a * b) == (q * b) * a && (q + 1) * (a * b) == ((q + 1) * b) * a;
    MulMonotone(q * b, p, a);
    MulMonotone(p + 1, (q + 1) * b, a);
    DivMeaning(x, a * b, q);
  }

  lemma TruncDivExact(q: int, d: int)
    requires d > 0
    ensures TruncDiv(q * d, d) == q
  {
    assert (q + 1) * d == q * d + d && (q - 1) * d == q * d - d;
    if q >= 0 {
      MulMonotone(0, q, d);
    } else {
      MulMonotone(q, 0, d);
    }
    TruncDivMeaning(q * d, d, q);
  }
}
