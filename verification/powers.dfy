/** Integer powers over the reals: the `x ** n` the scripts apply to a positive
    concentration and an integer stoichiometric coefficient. */
module Powers {

  /** A strictly positive real: a concentration or an equilibrium constant. */
  type Positive = x: real | x > 0.0 witness 1.0

  /** The product of two reals. Products of powers and quotients are written
      with Mul so that equal factors are matched as equal terms rather than
      through nonlinear arithmetic. */
  function Mul(a: real, b: real): real {
    a * b
  }

  /** x multiplied by itself n times. */
  function PowNat(x: real, n: nat): real {
    if n == 0 then 1.0 else Mul(x, PowNat(x, n - 1))
  }

  /** x raised to an integer power; a negative exponent gives the reciprocal
      of the corresponding positive power, as Python's `x ** -n` does. */
  function Pow(x: Positive, n: int): (r: real)
    ensures r > 0.0
  {
    PowNatPositive(x, if n >= 0 then n else -n);
    if n >= 0 then PowNat(x, n) else 1.0 / PowNat(x, -n)
  }

  lemma {:induction false} PowNatPositive(x: Positive, n: nat)
    ensures PowNat(x, n) > 0.0
  {
    if n > 0 {
      PowNatPositive(x, n - 1);
      ProductPositive(x, PowNat(x, n - 1));
    }
  }

  /** Exponents add when powers of the same base are multiplied, whatever
      the signs of the exponents. */
  lemma PowAdd(x: Positive, a: int, b: int)
    ensures Pow(x, a + b) == Mul(Pow(x, a), Pow(x, b))
  {
    var k := a + b;
    if a >= 0 && b >= 0 {
      PowNatAdd(x, a, b, k);
    } else if a < 0 && b < 0 {
      PowNatAdd(x, -a, -b, -k);
      PowNatPositive(x, -a);
      PowNatPositive(x, -b);
      Reciprocals(PowNat(x, -a), PowNat(x, -b), PowNat(x, -k));
    } else if a >= 0 {
      PowAddMixed(x, a, b, k);
    } else {
      PowAddMixed(x, b, a, k);
      MulCommutes(Pow(x, b), Pow(x, a));
    }
  }

  /** PowAdd when the first exponent is non-negative and the second negative. */
  lemma PowAddMixed(x: Positive, a: int, b: int, k: int)
    requires b < 0 <= a && k == a + b
    ensures Pow(x, k) == Mul(Pow(x, a), Pow(x, b))
  {
    if k >= 0 {
      PowNatAdd(x, k, -b, a);
      PowNatPositive(x, -b);
      CancelRight(PowNat(x, k), PowNat(x, -b), PowNat(x, a));
    } else {
      PowNatAdd(x, -k, a, -b);
      PowNatPositive(x, -k);
      PowNatPositive(x, a);
      CancelLeft(PowNat(x, -k), PowNat(x, a), PowNat(x, -b));
    }
  }

  /** Natural exponents add, with the sum named k. */
  lemma {:induction false} PowNatAdd(x: real, m: nat, n: nat, k: nat)
    requires k == m + n
    ensures PowNat(x, k) == Mul(PowNat(x, m), PowNat(x, n))
  {
    if m == 0 {
      OneTimes(PowNat(x, m), PowNat(x, n));
    } else {
      PowNatAdd(x, m - 1, n, k - 1);
      MulAssociates(x, PowNat(x, m - 1), PowNat(x, n));
    }
  }

  lemma ProductPositive(p: real, q: real)
    requires p > 0.0 && q > 0.0
    ensures Mul(p, q) > 0.0
  {
  }

  lemma MulCommutes(p: real, q: real)
    ensures Mul(p, q) == Mul(q, p)
  {
  }

  lemma MulAssociates(p: real, q: real, r: real)
    ensures Mul(p, Mul(q, r)) == Mul(Mul(p, q), r)
  {
  }

  lemma OneTimes(one: real, p: real)
    requires one == 1.0
    ensures Mul(one, p) == p
  {
  }

  lemma Reciprocals(p: real, q: real, t: real)
    requires p > 0.0 && q > 0.0 && t == Mul(p, q)
    ensures 1.0 / t == Mul(1.0 / p, 1.0 / q)
  {
  }

  lemma CancelRight(p: real, q: real, t: real)
    requires q > 0.0 && t == Mul(p, q)
    ensures p == Mul(t, 1.0 / q)
  {
  }

  lemma CancelLeft(p: real, q: real, t: real)
    requires p > 0.0 && q > 0.0 && t == Mul(p, q)
    ensures 1.0 / p == Mul(q, 1.0 / t)
  {
  }

  /** Dividing by a positive value and multiplying back restores the dividend. */
  lemma DivideThenMultiply(a: real, q: real)
    requires a > 0.0 && q > 0.0
    ensures a / q > 0.0
    ensures Mul(a / q, q) == a
  {
  }
}
