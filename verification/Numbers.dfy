/** Go's integer operators, and the floor and ceiling facts the piece arithmetic rests on. */
module Numbers {

  /** Go's `/`: the quotient is truncated toward zero. */
  function GoDiv(a: int, b: int): int
    requires b > 0
  {
    if a >= 0 then a / b else -((-a) / b)
  }

  /** Go's `%`: the remainder takes the sign of the dividend. */
  function GoMod(a: int, b: int): (r: int)
    requires b > 0
    ensures -b < r < b && (a >= 0 ==> r >= 0) && (a <= 0 ==> r <= 0)
  {
    if a >= 0 then a % b else -((-a) % b)
  }

  lemma QuotientAndRemainder(a: int, b: int)
    requires b > 0
    ensures a == GoDiv(a, b) * b + GoMod(a, b)
  {
  }

  /** `math.Ceil`, over exact reals. */
  function Ceil(x: real): (c: int)
    ensures c as real - 1.0 < x <= c as real
  {
    -((-x).Floor)
  }

  /** An integer is below the ceiling of `x` exactly when it is below `x`. */
  lemma BelowCeiling(n: int, x: real)
    ensures n < Ceil(x) <==> n as real < x
  {
  }

  /** It is below the ceiling of a quotient exactly when its multiple is below the dividend. */
  lemma BelowCeilingOfQuotient(n: int, a: int, b: int)
    requires b > 0
    ensures n < Ceil(a as real / b as real) <==> n * b < a
  {
    var x := a as real / b as real;
    BelowCeiling(n, x);
    assert x * b as real == a as real;
    assert (n * b) as real == n as real * b as real;
    if n as real < x {
      assert (x - n as real) * b as real > 0.0;
    } else {
      assert (n as real - x) * b as real >= 0.0;
    }
  }

  /** The ceiling of a quotient of integers. */
  function CeilDiv(a: int, b: int): (c: int)
    requires b > 0
    ensures (c - 1) * b < a <= c * b
    ensures a >= 0 ==> c >= 0
  {
    -((-a) / b)
  }

  function Min(a: int, b: int): int { if a < b then a else b }

  function Max(a: int, b: int): int { if a > b then a else b }

  lemma ProductIsMonotone(x: int, y: int, b: int)
    requires x <= y && 0 <= b
    ensures x * b <= y * b
  {
  }

  /** A quotient brackets its dividend between two multiples. */
  lemma QuotientBrackets(a: int, b: int)
    requires b > 0
    ensures a / b * b <= a < (a / b + 1) * b
    ensures a == a / b * b + a % b
  {
  }

  /** The quotient of a non-negative dividend is the only `q` whose multiple brackets it. */
  lemma QuotientIsUnique(a: int, b: int, q: int)
    requires b > 0 && q >= 0
    requires q * b <= a < (q + 1) * b
    ensures a / b == q
  {
    var p := a / b;
    QuotientBrackets(a, b);
    if p < q {
      ProductIsMonotone(p + 1, q, b);
    } else if p > q {
      ProductIsMonotone(q + 1, p, b);
    }
  }

  /** A quotient is below an integer bound exactly when the dividend is below its multiple. */
  lemma QuotientBelow(a: int, b: int, k: int)
    requires b > 0 && a >= 0
    ensures a / b < k <==> a < k * b
  {
    var q := a / b;
    QuotientBrackets(a, b);
    if q < k {
      ProductIsMonotone(q + 1, k, b);
    } else {
      ProductIsMonotone(k, q, b);
    }
  }

  lemma QuotientIsMonotone(a: int, c: int, b: int)
    requires b > 0 && 0 <= a <= c
    ensures 0 <= a / b <= c / b
  {
    QuotientBrackets(a, b);
    QuotientBelow(a, b, 0);
    QuotientBelow(c, b, a / b);
  }

  /** Inside what remains of a quotient's stretch the quotient stays. */
  lemma SamePiece(a: int, b: int, step: nat)
    requires b > 0 && a >= 0 && a % b + step < b
    ensures (a + step) / b == a / b
  {
    var q := a / b;
    assert (q + 1) * b == q * b + b;
    QuotientIsUnique(a + step, b, q);
  }

  lemma NextPieceStartsAt(a: int, b: int, step: nat)
    requires b > 0 && a >= 0 && a % b + step == b
    ensures (a + step) / b == a / b + 1
  {
    var q := a / b;
    assert a + step == (q + 1) * b;
    assert (q + 2) * b == (q + 1) * b + b;
    QuotientIsUnique(a + step, b, q + 1);
  }
}
