/** Residues modulo p, primes, and the modular inverse that `pow(den, -1, PRIME)` computes. */
module ModularArithmetic {
  import opened Wrappers

  // ---------- residues ----------

  ghost predicate Cong(a: int, b: int, p: int)
    requires p > 0
  {
    a % p == b % p
  }

  lemma DivModUnique(a: int, q: int, r: int, p: int)
    requires 0 <= r < p
    requires a == q * p + r
    ensures a % p == r && a / p == q
  {
    var d := q - a / p;
    assert d * p == a % p - r;
    assert d >= 1 ==> d * p >= p;
    assert d <= -1 ==> d * p <= -p;
  }

  lemma ModShift(a: int, k: int, p: int)
    requires p > 0
    ensures (a + k * p) % p == a % p
  {
    assert a + k * p == (a / p + k) * p + a % p;
    DivModUnique(a + k * p, a / p + k, a % p, p);
  }

  /** Two integers are congruent exactly when p divides their difference. */
  lemma CongWitness(a: int, b: int, p: int) returns (k: int)
    requires p > 0 && Cong(a, b, p)
    ensures a == b + k * p
  {
    k := a / p - b / p;
    assert a - b == k * p;
  }

  lemma CongFromWitness(a: int, b: int, k: int, p: int)
    requires p > 0 && a == b + k * p
    ensures Cong(a, b, p)
  {
    ModShift(b, k, p);
  }

  lemma CongDifference(a: int, b: int, p: int)
    requires p > 0
    ensures Cong(a, b, p) <==> Cong(a - b, 0, p)
  {
    if Cong(a, b, p) {
      var k := CongWitness(a, b, p);
      CongFromWitness(a - b, 0, k, p);
    }
    if Cong(a - b, 0, p) {
      var k := CongWitness(a - b, 0, p);
      CongFromWitness(a, b, k, p);
    }
  }

  lemma CongMod(a: int, p: int)
    requires p > 0
    ensures Cong(a % p, a, p)
  {
    CongFromWitness(a, a % p, a / p, p);
  }

  lemma CongAdd(a: int, b: int, c: int, d: int, p: int)
    requires p > 0 && Cong(a, b, p) && Cong(c, d, p)
    ensures Cong(a + c, b + d, p)
  {
    var k := CongWitness(a, b, p);
    var l := CongWitness(c, d, p);
    assert a + c == b + d + (k + l) * p;
    CongFromWitness(a + c, b + d, k + l, p);
  }

  lemma CongMul(a: int, b: int, c: int, d: int, p: int)
    requires p > 0 && Cong(a, b, p) && Cong(c, d, p)
    ensures Cong(a * c, b * d, p)
  {
    var k := CongWitness(a, b, p);
    var l := CongWitness(c, d, p);
    var m := b * l + d * k + k * l * p;
    calc {
      a * c;
      (b + k * p) * (d + l * p);
      b * d + b * (l * p) + (k * p) * d + (k * p) * (l * p);
      { assert b * (l * p) == b * l * p; assert (k * p) * d == d * k * p; assert (k * p) * (l * p) == k * l * p * p; }
      b * d + b * l * p + d * k * p + k * l * p * p;
      b * d + m * p;
    }
    CongFromWitness(a * c, b * d, m, p);
  }

  lemma CongSmall(a: int, b: int, p: int)
    requires 0 <= a < p && 0 <= b < p && Cong(a, b, p)
    ensures a == b
  {
    DivModUnique(a, 0, a, p);
    DivModUnique(b, 0, b, p);
  }

  // ---------- primes ----------

  ghost predicate IsPrime(p: int) {
    p >= 2 && forall d :: 2 <= d < p ==> p % d != 0
  }

  /** g = s*a + t*b for g a common divisor of a and b (extended Euclid). */
  function ExtendedGcd(a: nat, b: nat): (r: (nat, int, int))
    requires a > 0 || b > 0
    ensures r.0 > 0 && r.0 == r.1 * a + r.2 * b
    ensures a % r.0 == 0 && b % r.0 == 0
    decreases b
  {
    if b == 0 then
      DivModUnique(a, 1, 0, a);
      DivModUnique(0, 0, 0, a);
      (a, 1, 0)
    else
      var (g, s, t) := ExtendedGcd(b, a % b);
      EuclidStep(a, b, g, s, t);
      (g, t, s - t * (a / b))
  }

  lemma EuclidStep(a: nat, b: nat, g: nat, s: int, t: int)
    requires b > 0 && g > 0 && g == s * b + t * (a % b)
    requires b % g == 0 && (a % b) % g == 0
    ensures g == t * a + (s - t * (a / b)) * b
    ensures a % g == 0
  {
    var q, m := a / b, a % b;
    assert a == q * b + m;
    assert t * m == t * a - t * (q * b) by { assert m == a - q * b; }
    assert t * (q * b) == t * q * b;
    assert s * b - t * q * b == (s - t * q) * b;
    CongMul(q, q, b, 0, g);
    CongAdd(q * b, 0, m, 0, g);
  }

  /** `pow(a, -1, p)`: the inverse of a modulo p in [0, p), or None where Python raises ValueError. */
  function ModInverse(a: int, p: int): (r: Option<int>)
    requires p >= 2
    ensures r.Some? ==> 0 <= r.value < p && Cong(a * r.value, 1, p)
    ensures r.None? ==> exists g :: 2 <= g <= p && p % g == 0 && (a % p) % g == 0
  {
    var (g, s, t) := ExtendedGcd(p, a % p);
    if g == 1 then
      InverseFromBezout(a, p, s, t);
      Some(t % p)
    else
      DivisorAtMost(p, g);
      None
  }

  lemma InverseFromBezout(a: int, p: int, s: int, t: int)
    requires p >= 2 && 1 == s * p + t * (a % p)
    ensures Cong(a * (t % p), 1, p)
  {
    CongMod(a, p);
    CongMod(t, p);
    CongMul(a, a % p, t % p, t, p);
    assert t * (a % p) == (a % p) * t;
    assert (a % p) * t == 1 + (-s) * p;
    CongFromWitness((a % p) * t, 1, -s, p);
  }

  lemma DivisorAtMost(p: int, g: int)
    requires p >= 1 && g >= 1 && p % g == 0
    ensures g <= p
  {
    if g > p {
      DivModUnique(p, 0, p, g);
    }
  }

  /** Modulo a prime exactly the non-zero residues are invertible. */
  lemma InvertibleIffNonZero(a: int, p: int)
    requires IsPrime(p)
    ensures ModInverse(a, p).Some? <==> !Cong(a, 0, p)
  {
    DivModUnique(0, 0, 0, p);
    if ModInverse(a, p).None? {
      var g :| 2 <= g <= p && p % g == 0 && (a % p) % g == 0;
      assert g == p;
      DivModUnique(a % p, 0, a % p, p);
    } else if Cong(a, 0, p) {
      var i := ModInverse(a, p).value;
      CongMul(a, 0, i, i, p);
      DivModUnique(1, 0, 1, p);
    }
  }

  /** A prime has no zero divisors. */
  lemma NoZeroDivisors(a: int, b: int, p: int)
    requires IsPrime(p) && Cong(a * b, 0, p)
    ensures Cong(a, 0, p) || Cong(b, 0, p)
  {
    if !Cong(a, 0, p) {
      InvertibleIffNonZero(a, p);
      var i := ModInverse(a, p).value;
      CongMul(a * b, 0, i, i, p);
      CongMul(a * i, 1, b, b, p);
      assert a * b * i == a * i * b;
    }
  }
}
