/** The few facts about quotients, remainders and products by a variable that the other modules need. */
module Division {

  lemma QuotientPositive(a: int, b: int)
    requires 0 < b <= a
    ensures 1 <= a / b <= a
  {
    Divided(a, b);
    if a / b < 1 {
      Times(b, a / b, 0);
    }
    if a / b > a {
      Times(a / b, b, 1);
    }
  }

  lemma Divided(a: int, b: int)
    requires b > 0
    ensures a == b * (a / b) + a % b && 0 <= a % b < b
  {
  }

  lemma Times(a: int, x: int, y: int)
    requires a >= 0
    ensures x <= y ==> a * x <= a * y
    ensures x >= y ==> a * x >= a * y
  {
  }

  /** Quotient and remainder are determined by their defining equation. */
  lemma DivMod(a: int, b: int, q: int, r: int)
    requires b > 0 && a == b * q + r && 0 <= r < b
    ensures a / b == q && a % b == r
  {
    Divided(a, b);
    var q' := a / b;
    if q' < q {
      Times(b, q' + 1, q);
    } else if q < q' {
      Times(b, q + 1, q');
    }
  }

  /** Dividing by a product is dividing twice. */
  lemma Nested(n: int, a: int, b: int)
    requires a > 0 && b > 0 && a * b > 0
    ensures n / (a * b) == n / a / b
  {
    var q := n / a;
    Divided(n, a);
    Divided(q, b);
    Times(a, q % b, b - 1);
    Times(a, 0, q % b);
    assert n == a * b * (q / b) + (a * (q % b) + n % a) by {
      assert a * q == a * (b * (q / b)) + a * (q % b);
      assert a * (b * (q / b)) == a * b * (q / b);
    }
    assert a * (b - 1) == a * b - a;
    DivMod(n, a * b, q / b, a * (q % b) + n % a);
  }
}
