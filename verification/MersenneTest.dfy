/** The Lucas-Lehmer primality test for numbers of the form 2^n - 1. */
module MersenneTest {
  import opened ModularArithmetic

  const MERSENNE_127: int := 0x7FFF_FFFF_FFFF_FFFF_FFFF_FFFF_FFFF_FFFF

  function Pow2(n: nat): (r: nat)
    ensures r >= 1
  {
    if n == 0 then 1 else 2 * Pow2(n - 1)
  }

  // ---------- the ring Z[sqrt 3] ----------

  /** a + b * sqrt(3). */
  datatype Surd = Surd(a: int, b: int)

  const ONE := Surd(1, 0)
  const OMEGA := Surd(2, 1)

  function Mul(u: Surd, v: Surd): Surd {
    Surd(u.a * v.a + 3 * (u.b * v.b), u.a * v.b + u.b * v.a)
  }

  function Power(u: Surd, n: nat): Surd {
    if n == 0 then ONE else Mul(u, Power(u, n - 1))
  }

  function Conjugate(u: Surd): Surd {
    Surd(u.a, -u.b)
  }

  ghost predicate Same(u: Surd, v: Surd, d: int)
    requires d > 0
  {
    Cong(u.a, v.a, d) && Cong(u.b, v.b, d)
  }

  lemma MulAssociative(u: Surd, v: Surd, w: Surd)
    ensures Mul(Mul(u, v), w) == Mul(u, Mul(v, w))
  {
    var a, b, c, d, e, f := u.a, u.b, v.a, v.b, w.a, w.b;
    assert (a * c + 3 * (b * d)) * e == a * (c * e) + 3 * (b * (d * e));
    assert (a * d + b * c) * f == a * (d * f) + b * (c * f);
    assert a * (c * e + 3 * (d * f)) == a * (c * e) + 3 * (a * (d * f));
    assert b * (c * f + d * e) == b * (c * f) + b * (d * e);
    assert (a * c + 3 * (b * d)) * f == a * (c * f) + 3 * (b * (d * f));
    assert (a * d + b * c) * e == a * (d * e) + b * (c * e);
    assert a * (c * f + d * e) == a * (c * f) + a * (d * e);
    assert b * (c * e + 3 * (d * f)) == b * (c * e) + 3 * (b * (d * f));
  }

  lemma MulSame(u: Surd, v: Surd, x: Surd, y: Surd, d: int)
    requires d > 0 && Same(u, v, d) && Same(x, y, d)
    ensures Same(Mul(u, x), Mul(v, y), d)
  {
    CongMul(u.a, v.a, x.a, y.a, d);
    CongMul(u.b, v.b, x.b, y.b, d);
    CongMul(3, 3, u.b * x.b, v.b * y.b, d);
    CongAdd(u.a * x.a, v.a * y.a, 3 * (u.b * x.b), 3 * (v.b * y.b), d);
    CongMul(u.a, v.a, x.b, y.b, d);
    CongMul(u.b, v.b, x.a, y.a, d);
    CongAdd(u.a * x.b, v.a * y.b, u.b * x.a, v.b * y.a, d);
  }

  lemma MulOne(u: Surd)
    ensures Mul(ONE, u) == u && Mul(u, ONE) == u
  {
  }

  lemma {:induction false} PowerAdd(u: Surd, i: nat, j: nat)
    ensures Power(u, i + j) == Mul(Power(u, i), Power(u, j))
  {
    hide Mul;
    MulOne(Power(u, j));
    if i > 0 {
      PowerAdd(u, i - 1, j);
      MulAssociative(u, Power(u, i - 1), Power(u, j));
    }
  }

  lemma {:induction false} PowerSquare(u: Surd, n: nat)
    ensures Power(Mul(u, u), n) == Power(u, 2 * n)
  {
    hide Mul;
    if n > 0 {
      PowerSquare(u, n - 1);
      assert Power(u, 2 * n) == Mul(u, Power(u, 2 * n - 1)) == Mul(u, Mul(u, Power(u, 2 * n - 2)));
      MulAssociative(u, u, Power(u, 2 * n - 2));
    }
  }

  lemma {:induction false} PowerSame(u: Surd, v: Surd, n: nat, d: int)
    requires d > 0 && Same(u, v, d)
    ensures Same(Power(u, n), Power(v, n), d)
  {
    if n > 0 {
      hide Mul, Same;
      PowerSame(u, v, n - 1, d);
      MulSame(u, v, Power(u, n - 1), Power(v, n - 1), d);
    }
  }

  lemma {:induction false} PowerOfOne(n: nat)
    ensures Power(ONE, n) == ONE
  {
    if n > 0 {
      PowerOfOne(n - 1);
    }
  }

  /** Powers of an involution alternate. */
  lemma PowerOfInvolution(w: Surd, n: nat)
    requires Mul(w, w) == ONE && Mul(w, ONE) == w
    ensures Power(w, n) == if n % 2 == 0 then ONE else w
  {
    hide Mul;
    assert n == 2 * (n / 2) + n % 2;
    PowerSquare(w, n / 2);
    PowerOfOne(n / 2);
  }

  /** (u^m)^n = u^(m*n) when u^m is given, by repeated multiplication. */
  lemma {:induction false} PowerPower(u: Surd, m: nat, n: nat)
    ensures m * n >= 0 && Power(Power(u, m), n) == Power(u, m * n)
  {
    hide Mul;
    if n > 0 {
      PowerPower(u, m, n - 1);
      assert m * n == m + m * (n - 1);
      PowerAdd(u, m, m * (n - 1));
    } else {
      assert m * n == 0;
    }
  }

  // ---------- an element whose 2^e-th power is -1 has order above every exponent below 2^(e+1) ----------

  lemma {:induction false} NoSmallOrder(u: Surd, e: nat, k: nat, d: int)
    requires d > 2 && Same(Power(u, Pow2(e)), Surd(-1, 0), d)
    requires 0 < k < Pow2(e + 1)
    ensures !Same(Power(u, k), ONE, d)
    decreases e
  {
    hide Mul, Same;
    if Same(Power(u, k), ONE, d) {
      if k % 2 == 1 {
        MinusOneIsNotOne(d);
        MinusOneIsInvolution(Surd(-1, 0));
        NoOddOrder(u, Surd(-1, 0), Pow2(e), k, d);
        assert false;
      } else {
        PowerSquare(u, k / 2);
        PowerSquare(u, Pow2(e - 1));
        NoSmallOrder(Mul(u, u), e - 1, k / 2, d);
      }
    }
  }

  /** If u^q is an involution w and u^k = 1 for an odd k then u^(k * q) is both 1 and w. */
  lemma NoOddOrder(u: Surd, w: Surd, q: nat, k: nat, d: int)
    requires d > 0 && k % 2 == 1 && Mul(w, w) == ONE && Mul(w, ONE) == w
    requires Same(Power(u, q), w, d) && Same(Power(u, k), ONE, d)
    ensures Same(w, ONE, d)
  {
    hide Mul, Power;
    assert k * q == q * k;
    PowerSame(Power(u, k), ONE, q, d);
    PowerOfOne(q);
    PowerPower(u, k, q);
    PowerSame(Power(u, q), w, k, d);
    PowerOfInvolution(w, k);
    PowerPower(u, q, k);
  }

  lemma MinusOneIsNotOne(d: int)
    requires d > 2
    ensures !Same(Surd(-1, 0), ONE, d)
  {
    hide Mul;
    DivModUnique(1, 0, 1, d);
    DivModUnique(-1, -1, d - 1, d);
  }

  lemma SquareOfMinusOne(w: Surd)
    requires w.a == -1 && w.b == 0
    ensures Mul(w, w) == ONE
  {
    assert w.a * w.a == 1 && w.b * w.b == 0 && w.a * w.b == 0 && w.b * w.a == 0;
  }

  lemma MinusOneIsInvolution(w: Surd)
    requires w.a == -1 && w.b == 0
    ensures Mul(w, w) == ONE && Mul(w, ONE) == w
  {
    MulOne(w);
    hide Mul;
    SquareOfMinusOne(w);
  }

  /** The powers of u with exponents below 2^(e+1) are pairwise different modulo d. */
  lemma PowersDistinct(u: Surd, v: Surd, e: nat, i: nat, j: nat, d: int)
    requires d > 2 && Same(Power(u, Pow2(e)), Surd(-1, 0), d) && Mul(v, u) == ONE
    requires i < j < Pow2(e + 1)
    ensures !Same(Power(u, i), Power(u, j), d)
  {
    hide Mul, Power, Same;
    if Same(Power(u, i), Power(u, j), d) {
      Cancel(u, v, i, j, d);
      NoSmallOrder(u, e, j - i, d);
    }
  }

  lemma {:induction false} Cancel(u: Surd, v: Surd, i: nat, j: nat, d: int)
    requires d > 0 && Mul(v, u) == ONE && i < j && Same(Power(u, i), Power(u, j), d)
    ensures Same(Power(u, j - i), ONE, d)
  {
    if i == 0 {
      hide Mul;
    } else {
      hide Mul, Same;
      CancelOne(u, v, Power(u, i - 1), Power(u, j - 1), d);
      Cancel(u, v, i - 1, j - 1, d);
    }
  }

  lemma CancelOne(u: Surd, v: Surd, x: Surd, y: Surd, d: int)
    requires d > 0 && Mul(v, u) == ONE && Same(Mul(u, x), Mul(u, y), d)
    ensures Same(x, y, d)
  {
    MulOne(x);
    MulOne(y);
    hide Mul;
    MulSame(v, v, Mul(u, x), Mul(u, y), d);
    MulAssociative(v, u, x);
    MulAssociative(v, u, y);
  }

  // ---------- counting ----------

  /** The residue class of u modulo d as one number below d * d. */
  function Code(u: Surd, d: int): (c: int)
    requires d > 0
    ensures 0 <= c < d * d
  {
    var r := u.a % d;
    assert 0 <= r * d <= (d - 1) * d;
    r * d + u.b % d
  }

  lemma CodeInjective(u: Surd, v: Surd, d: int)
    requires d > 0 && Code(u, d) == Code(v, d)
    ensures Same(u, v, d)
  {
    DivModUnique(Code(u, d), u.a % d, u.b % d, d);
    DivModUnique(Code(v, d), v.a % d, v.b % d, d);
  }

  function Range(n: nat): (s: set<int>)
    ensures forall i :: i in s <==> 0 <= i < n
    ensures |s| == n
  {
    if n == 0 then {} else Range(n - 1) + {n - 1}
  }

  lemma Pigeonhole(codes: seq<int>, bound: nat)
    requires forall i :: 0 <= i < |codes| ==> 0 <= codes[i] < bound
    requires forall i, j :: 0 <= i < j < |codes| ==> codes[i] != codes[j]
    ensures |codes| <= bound
  {
    var s := set i | 0 <= i < |codes| :: codes[i];
    SeqToSetSize(codes);
    var r := Range(bound);
    assert r == s + (r - s);
  }

  lemma {:induction false} SeqToSetSize(codes: seq<int>)
    requires forall i, j :: 0 <= i < j < |codes| ==> codes[i] != codes[j]
    ensures |set i | 0 <= i < |codes| :: codes[i]| == |codes|
    decreases |codes|
  {
    var s := set i | 0 <= i < |codes| :: codes[i];
    if codes != [] {
      var n := |codes| - 1;
      var t := codes[..n];
      var s' := set i | 0 <= i < |t| :: t[i];
      SeqToSetSize(t);
      assert s == s' + {codes[n]} by {
        forall x | x in s
          ensures x in s' + {codes[n]}
        {
          var i :| 0 <= i < |codes| && codes[i] == x;
          if i < n { assert t[i] == x; }
        }
        forall x | x in s'
          ensures x in s
        {
          var i :| 0 <= i < |t| && t[i] == x;
          assert codes[i] == x;
        }
        assert codes[n] in s;
      }
      assert codes[n] !in s';
    }
  }

  lemma GroupTooLarge(u: Surd, v: Surd, e: nat, d: int)
    requires d > 2 && Same(Power(u, Pow2(e)), Surd(-1, 0), d) && Mul(v, u) == ONE
    ensures Pow2(e + 1) <= d * d
  {
    hide Same, Mul, Power, Pow2, Code;
    var n := Pow2(e + 1);
    var codes := seq(n, i requires 0 <= i => Code(Power(u, i), d));
    forall i, j | 0 <= i < j < |codes|
      ensures codes[i] != codes[j]
    {
      PowersDistinct(u, v, e, i, j, d);
      if codes[i] == codes[j] {
        CodeInjective(Power(u, i), Power(u, j), d);
      }
    }
    Pigeonhole(codes, d * d);
  }

  // ---------- the Lucas-Lehmer sequence ----------

  function Successor(s: int, m: int): int
    requires m > 0
  {
    (s * s - 2) % m
  }

  function LucasLehmer(n: nat, m: int): int
    requires m > 0
  {
    if n == 0 then 4 % m else Successor(LucasLehmer(n - 1, m), m)
  }

  ghost predicate UnitNorm(u: Surd) {
    u.a * u.a == 3 * (u.b * u.b) + 1
  }

  /** The n-th residue is twice the rational part of OMEGA^(2^n), an element of norm 1. */
  lemma {:induction false} LucasLehmerIsPower(n: nat, m: int)
    requires m > 0
    ensures UnitNorm(Power(OMEGA, Pow2(n)))
    ensures Cong(2 * Power(OMEGA, Pow2(n)).a, LucasLehmer(n, m), m)
  {
    hide Mul, Power, UnitNorm, Cong, Successor;
    if n == 0 {
      FirstPower(OMEGA, Pow2(0), m);
    } else {
      LucasLehmerIsPower(n - 1, m);
      PowerAdd(OMEGA, Pow2(n - 1), Pow2(n - 1));
      LucasLehmerStep(Power(OMEGA, Pow2(n - 1)), LucasLehmer(n - 1, m), m);
    }
  }

  lemma FirstPower(w: Surd, n: nat, m: int)
    requires m > 0 && n == 1 && w.a == 2 && w.b == 1
    ensures Power(w, n) == w && UnitNorm(w) && Cong(2 * w.a, 4 % m, m)
  {
    hide Mul;
    MulOne(w);
    CongMod(4, m);
    assert w.a * w.a == 4 && w.b * w.b == 1;
  }

  lemma LucasLehmerStep(u: Surd, s: int, m: int)
    requires m > 0 && Cong(2 * u.a, s, m) && UnitNorm(u)
    ensures Cong(2 * Mul(u, u).a, Successor(s, m), m)
    ensures UnitNorm(Mul(u, u))
  {
    hide Mul, UnitNorm, Cong;
    NormOfSquare(u);
    SquareMinusTwo(2 * u.a, s, m);
    assert (2 * u.a) * (2 * u.a) == 4 * (u.a * u.a);
  }

  lemma SquareMinusTwo(t: int, s: int, m: int)
    requires m > 0 && Cong(t, s, m)
    ensures Cong(t * t - 2, Successor(s, m), m)
  {
    CongMul(t, s, t, s, m);
    CongAdd(t * t, s * s, -2, -2, m);
    CongMod(s * s - 2, m);
  }

  lemma NormOfSquare(u: Surd)
    requires UnitNorm(u)
    ensures Mul(u, u).a == 2 * (u.a * u.a) - 1 && UnitNorm(Mul(u, u))
  {
    var v := Mul(u, u);
    var A, B, C := u.a * u.a, u.b * u.b, u.a * u.b;
    assert u.b * u.a == C;
    assert C * C == A * B by {
      assert (u.a * u.b) * (u.a * u.b) == u.a * (u.b * (u.a * u.b));
      assert u.b * (u.a * u.b) == u.a * (u.b * u.b);
      assert u.a * (u.a * B) == A * B;
    }
    SquareNorm(A, B, C);
    assert v.a == A + 3 * B && v.b == 2 * C;
  }

  lemma SquareNorm(A: int, B: int, C: int)
    requires A == 3 * B + 1 && C * C == A * B
    ensures (A + 3 * B) * (A + 3 * B) == 3 * ((2 * C) * (2 * C)) + 1
  {
    assert (2 * C) * (2 * C) == 4 * (C * C);
    assert (A + 3 * B) * (A + 3 * B) == A * A + 6 * (A * B) + 9 * (B * B);
    assert (A - 3 * B) * (A - 3 * B) == A * A - 6 * (A * B) + 9 * (B * B);
  }

  /** Squared once more after the Lucas-Lehmer residue has become 0, the power is -1. */
  lemma ZeroResidueGivesMinusOne(n: nat, m: int, d: int)
    requires m > 0 && d > 0 && m % d == 0 && LucasLehmer(n, m) == 0
    ensures Same(Power(OMEGA, Pow2(n + 1)), Surd(-1, 0), d)
  {
    hide Mul, Same;
    LucasLehmerIsPower(n, m);
    PowerAdd(OMEGA, Pow2(n), Pow2(n));
    var u := Power(OMEGA, Pow2(n));
    CongDivisor(2 * u.a, m, d);
    SquareToMinusOne(u, d);
  }

  lemma CongDivisor(a: int, m: int, d: int)
    requires m > 0 && d > 0 && m % d == 0 && Cong(a, 0, m)
    ensures Cong(a, 0, d)
  {
    var k := CongWitness(a, 0, m);
    var l := m / d;
    assert m == l * d;
    assert k * (l * d) == (k * l) * d;
    CongFromWitness(a, 0, k * l, d);
  }

  lemma SquareToMinusOne(u: Surd, d: int)
    requires d > 0 && Cong(2 * u.a, 0, d) && UnitNorm(u)
    ensures Same(Mul(u, u), Surd(-1, 0), d)
  {
    NormOfSquare(u);
    var t := 2 * u.a;
    CongMul(t, 0, u.a, u.a, d);
    CongMul(t, 0, u.b, u.b, d);
    assert t * u.a == 2 * (u.a * u.a) && t * u.b == u.a * u.b + u.b * u.a;
    CongAdd(t * u.a, 0, -1, -1, d);
  }

  // ---------- the test ----------

  lemma {:induction false} SmallDivisor(m: int, d: int) returns (s: int)
    requires 2 <= d < m && m % d == 0
    ensures 2 <= s < m && m % s == 0 && s * s <= m
  {
    var q := m / d;
    assert m == q * d;
    assert q >= 2 by {
      assert q <= 1 ==> q * d <= d;
    }
    if d * d <= m {
      s := d;
    } else {
      s := q;
      DivModUnique(m, d, 0, q);
      assert q < d by {
        assert q >= d ==> q * d >= d * d;
      }
      assert q * q <= q * d;
    }
  }

  lemma LucasLehmerTest(e: nat)
    requires e >= 1
    requires var m := Pow2(e + 2) - 1; LucasLehmer(e, m) == 0
    ensures IsPrime(Pow2(e + 2) - 1)
  {
    var m := Pow2(e + 2) - 1;
    if !IsPrime(m) {
      assert m >= 7;
      var f :| 2 <= f < m && m % f == 0;
      var d := SmallDivisor(m, f);
      assert d != 2;
      ZeroResidueGivesMinusOne(e, m, d);
      GroupTooLarge(OMEGA, Conjugate(OMEGA), e + 1, d);
    }
  }
}
