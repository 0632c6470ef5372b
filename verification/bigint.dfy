/** JavaScript `BigInt` division and remainder. Both truncate toward zero, and the
    remainder takes the sign of the dividend, unlike Dafny's Euclidean `/` and `%`. */
module BigInt {

  function Abs(x: int): nat {
    if x < 0 then -x else x
  }

  /** `a / b` on BigInt. */
  function TDiv(a: int, b: int): (q: int)
    requires b != 0
    ensures Abs(q) == Abs(a) / Abs(b)
    ensures q == 0 || ((q < 0) <==> ((a < 0) != (b < 0)))
  {
    NatDivIsNat(Abs(a), Abs(b));
    var m := Abs(a) / Abs(b);
    if (a < 0) == (b < 0) then m else -m
  }

  lemma NatDivIsNat(x: nat, y: nat)
    requires y > 0
    ensures x / y >= 0
  {
  }

  /** `a % b` on BigInt. */
  function TRem(a: int, b: int): (r: int)
    requires b != 0
    ensures a == b * TDiv(a, b) + r
    ensures Abs(r) < Abs(b)
    ensures r == 0 || ((r < 0) <==> (a < 0))
  {
    var m := Abs(a) % Abs(b);
    TRemIdentity(a, b);
    if a < 0 then -m else m
  }

  lemma TRemIdentity(a: int, b: int)
    requires b != 0
    ensures a == b * TDiv(a, b) + (if a < 0 then -(Abs(a) % Abs(b)) else Abs(a) % Abs(b))
  {
    var q := Abs(a) / Abs(b);
    var m := Abs(a) % Abs(b);
    assert Abs(a) == Abs(b) * q + m;
    if a < 0 && b < 0 {
      assert a == b * q - m;
    } else if a < 0 {
      assert a == b * (-q) - m;
    } else if b < 0 {
      assert a == b * (-q) + m;
    }
  }

  /** On a non-negative dividend and a positive divisor, BigInt division agrees with
      floor division. */
  lemma {:induction false} TruncationAgreesOnNaturals(a: int, b: int)
    requires a >= 0 && b > 0
    ensures TDiv(a, b) == a / b
    ensures TRem(a, b) == a % b
  {
  }

  /** The quotient is determined by the bracket it lies in. */
  lemma DivUnique(n: int, m: int, q: int)
    requires m > 0
    requires q * m <= n < q * m + m
    ensures n / m == q
  {
    var q' := n / m;
    if q' < q {
      MulMono(q' + 1, q, m);
      assert false;
    } else if q < q' {
      MulMono(q + 1, q', m);
      assert false;
    }
  }

  lemma MulMono(a: int, b: int, m: int)
    requires a <= b && m >= 0
    ensures a * m <= b * m
  {
  }

  lemma MulAssoc(a: int, b: int, c: int)
    ensures (a * b) * c == a * (b * c)
  {
  }

  lemma MulAddRight(a: int, b: int, c: int)
    ensures (a + b) * c == a * c + b * c
  {
  }

  /** Scaling numerator and divisor by the same positive factor keeps the quotient. */
  lemma DivScale(n: int, m: int, k: int)
    requires m > 0 && k > 0
    ensures (n * k) / (m * k) == n / m
  {
    var q, r := n / m, n % m;
    assert n == q * m + r && 0 <= r < m;
    MulAssoc(q, m, k);
    MulAddRight(q * m, r, k);
    MulAddRight(r, 1, k);
    MulMono(0, r, k);
    MulMono(r + 1, m, k);
    DivUnique(n * k, m * k, q);
  }

  /** Whole multiples of the divisor come out of the quotient unchanged. */
  lemma DivShift(a: int, n: int, m: int)
    requires m > 0
    ensures (a * m + n) / m == a + n / m
  {
    var q, r := n / m, n % m;
    assert n == q * m + r && 0 <= r < m;
    MulAddRight(a, q, m);
    MulAddRight(a + q, 1, m);
    DivUnique(a * m + n, m, a + q);
  }
}
