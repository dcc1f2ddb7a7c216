/** C++ integer `/` and `%`: the quotient is truncated toward zero and the
    remainder takes the sign of the dividend. Dafny's own `/` and `%` are
    Euclidean, so they are only applied here to non-negative operands. */
module TruncatedDivision {

  function Abs(x: int): nat {
    if x < 0 then -x else x
  }

  /** `a / b` in C++, for a positive divisor. */
  function Quot(a: int, b: int): int
    requires b > 0
  {
    if a >= 0 then a / b else -((-a) / b)
  }

  /** `a % b` in C++, for a positive divisor. */
  function Rem(a: int, b: int): int
    requires b > 0
  {
    if a >= 0 then a % b else -((-a) % b)
  }

  /** The C++ division law: quotient and remainder recompose the dividend, the
      remainder is smaller than the divisor and never has the opposite sign,
      and the quotient never has the opposite sign either. */
  lemma QuotRem(a: int, b: int)
    requires b > 0
    ensures b * Quot(a, b) + Rem(a, b) == a
    ensures Abs(Rem(a, b)) < b
    ensures a >= 0 ==> Quot(a, b) >= 0 && Rem(a, b) >= 0
    ensures a <= 0 ==> Quot(a, b) <= 0 && Rem(a, b) <= 0
  {
    var n := Abs(a);
    var q, r := n / b, n % b;
    assert b * q + r == n && 0 <= r < b;
    if q < 0 {
      MulMonotone(b, q, -1);
      assert false;
    }
    if a >= 0 {
      assert Quot(a, b) == q && Rem(a, b) == r;
    } else {
      assert Quot(a, b) == -q && Rem(a, b) == -r;
      MulNegate(b, q);
    }
  }

  lemma MulNegate(b: int, q: int)
    ensures b * (-q) == -(b * q)
  {
  }

  /** Truncation is odd: negating the dividend negates both results. */
  lemma QuotRemNegate(a: int, b: int)
    requires b > 0
    ensures Quot(-a, b) == -Quot(a, b)
    ensures Rem(-a, b) == -Rem(a, b)
  {
  }

  /** `q` is `a / b` truncated toward zero: the remainder `a - b * q` is
      smaller than `b` and has the sign of `a`. */
  predicate TruncatesTo(a: int, b: int, q: int) {
    if a >= 0 then 0 <= a - b * q < b else -b < a - b * q <= 0
  }

  /** The quotient and remainder are determined by the division law: any pair
      that recomposes `a`, with a small remainder of the dividend's sign, is
      the C++ pair. */
  lemma QuotRemUnique(a: int, b: int, q: int, r: int)
    requires b > 0
    requires b * q + r == a
    requires if a >= 0 then 0 <= r < b else -b < r <= 0
    ensures q == Quot(a, b) && r == Rem(a, b)
  {
    QuotRem(a, b);
    if a >= 0 {
      DivUnique(a, b, q, r);
    } else {
      assert b * (-q) + (-r) == -a;
      DivUnique(-a, b, -q, -r);
    }
  }

  lemma DivUnique(a: nat, b: int, q: int, r: int)
    requires b > 0
    requires b * q + r == a
    requires 0 <= r < b
    ensures q == a / b && r == a % b
  {
    var q', r' := a / b, a % b;
    assert b * q' + r' == a;
    if q < q' {
      assert b * q + b <= b * q' by { MulMonotone(b, q + 1, q'); }
    } else if q' < q {
      assert b * q' + b <= b * q by { MulMonotone(b, q' + 1, q); }
    }
  }

  lemma MulMonotone(b: int, x: int, y: int)
    requires b > 0 && x <= y
    ensures b * x <= b * y
  {
  }

  /** Truncating twice is truncating once by the product: `(a / b) / c` is
      `a / (b * c)` in C++ for positive divisors. */
  lemma QuotQuot(a: int, b: int, c: int)
    requires b > 0 && c > 0
    ensures Quot(Quot(a, b), c) == Quot(a, b * c)
  {
    var q1, r1 := Quot(a, b), Rem(a, b);
    var q2, r2 := Quot(q1, c), Rem(q1, c);
    QuotRem(a, b);
    QuotRem(q1, c);
    var r := b * r2 + r1;
    assert a == (b * c) * q2 + r by {
      calc {
        a;
        b * q1 + r1;
        b * (c * q2 + r2) + r1;
        { MulDistributes(b, c * q2, r2); }
        b * (c * q2) + b * r2 + r1;
        { MulAssociates(b, c, q2); }
        (b * c) * q2 + r;
      }
    }
    assert Abs(b * r2) <= b * (c - 1) by {
      if r2 >= 0 {
        MulMonotone(b, r2, c - 1);
      } else {
        MulMonotone(b, -r2, c - 1);
        MulNegate(b, r2);
      }
    }
    assert b * (c - 1) == b * c - b by { MulDistributes(b, c, -1); }
    if a >= 0 {
      assert r2 >= 0 && b * r2 >= 0 by { MulMonotone(b, 0, r2); }
      QuotRemUnique(a, b * c, q2, r);
    } else {
      assert r2 <= 0 && b * r2 <= 0 by { MulMonotone(b, r2, 0); }
      QuotRemUnique(a, b * c, q2, r);
    }
  }

  lemma MulDistributes(b: int, x: int, y: int)
    ensures b * (x + y) == b * x + b * y
  {
  }

  lemma MulAssociates(b: int, c: int, q: int)
    ensures b * (c * q) == (b * c) * q
  {
  }
}
