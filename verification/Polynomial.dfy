/** Polynomials as coefficient lists, lowest degree first, evaluated over the integers;
    facts modulo p are stated with `Cong`. */
module Polynomial {
  import opened ModularArithmetic

  /** Horner evaluation. */
  function Eval(c: seq<int>, x: int): int {
    if c == [] then 0 else c[0] + x * Eval(c[1..], x)
  }

  ghost predicate AllZero(c: seq<int>, p: int)
    requires p > 0
  {
    forall i :: 0 <= i < |c| ==> Cong(c[i], 0, p)
  }

  ghost predicate CongCoefficients(c: seq<int>, d: seq<int>, p: int)
    requires p > 0
  {
    |c| == |d| && forall i :: 0 <= i < |c| ==> Cong(c[i], d[i], p)
  }

  /** Values that are pairwise different modulo p. */
  ghost predicate DistinctMod(xs: seq<int>, p: int)
    requires p > 0
  {
    forall i, j :: 0 <= i < j < |xs| ==> !Cong(xs[i], xs[j], p)
  }

  lemma {:induction false} EvalCong(c: seq<int>, d: seq<int>, x: int, y: int, p: int)
    requires p > 0 && CongCoefficients(c, d, p) && Cong(x, y, p)
    ensures Cong(Eval(c, x), Eval(d, y), p)
  {
    if c != [] {
      EvalCong(c[1..], d[1..], x, y, p);
      CongMul(x, y, Eval(c[1..], x), Eval(d[1..], y), p);
      CongAdd(c[0], d[0], x * Eval(c[1..], x), y * Eval(d[1..], y), p);
    }
  }

  lemma {:induction false} EvalAllZero(c: seq<int>, x: int, p: int)
    requires p > 0 && AllZero(c, p)
    ensures Cong(Eval(c, x), 0, p)
  {
    if c != [] {
      EvalAllZero(c[1..], x, p);
      CongMul(x, x, Eval(c[1..], x), 0, p);
      CongAdd(c[0], 0, x * Eval(c[1..], x), 0, p);
    }
  }

  // ---------- ring operations on coefficient lists ----------

  function Zero(n: nat): (z: seq<int>)
    ensures |z| == n
  {
    seq(n, _ => 0)
  }

  function Add(c: seq<int>, d: seq<int>): (s: seq<int>)
    requires |c| == |d|
    ensures |s| == |c|
  {
    seq(|c|, i requires 0 <= i < |c| => c[i] + d[i])
  }

  function Scale(k: int, c: seq<int>): (s: seq<int>)
    ensures |s| == |c|
  {
    seq(|c|, i requires 0 <= i < |c| => k * c[i])
  }

  /** (z - r) * c. */
  function MulLinear(c: seq<int>, r: int): (s: seq<int>)
    ensures |s| == |c| + 1
  {
    Add([0] + c, Scale(-r, c + [0]))
  }

  lemma {:induction false} EvalZero(n: nat, x: int)
    ensures Eval(Zero(n), x) == 0
  {
    if n > 0 {
      assert Zero(n)[1..] == Zero(n - 1);
      EvalZero(n - 1, x);
    }
  }

  lemma {:induction false} EvalAdd(c: seq<int>, d: seq<int>, x: int)
    requires |c| == |d|
    ensures Eval(Add(c, d), x) == Eval(c, x) + Eval(d, x)
  {
    if c != [] {
      assert Add(c, d)[1..] == Add(c[1..], d[1..]);
      EvalAdd(c[1..], d[1..], x);
      assert x * (Eval(c[1..], x) + Eval(d[1..], x)) == x * Eval(c[1..], x) + x * Eval(d[1..], x);
    }
  }

  lemma {:induction false} EvalScale(k: int, c: seq<int>, x: int)
    ensures Eval(Scale(k, c), x) == k * Eval(c, x)
  {
    if c != [] {
      assert Scale(k, c)[1..] == Scale(k, c[1..]);
      EvalScale(k, c[1..], x);
      ScaleStep(k, c[0], x, Eval(c[1..], x));
    }
  }

  lemma ScaleStep(k: int, a: int, x: int, e: int)
    ensures k * (a + x * e) == k * a + x * (k * e)
  {
    assert k * (x * e) == x * (k * e);
  }

  lemma {:induction false} EvalAppend(c: seq<int>, d: seq<int>, x: int)
    requires AllExactlyZero(d)
    ensures Eval(c + d, x) == Eval(c, x)
  {
    if c == [] {
      assert c + d == d;
      assert d == Zero(|d|);
      EvalZero(|d|, x);
    } else {
      assert (c + d)[1..] == c[1..] + d;
      EvalAppend(c[1..], d, x);
    }
  }

  ghost predicate AllExactlyZero(d: seq<int>) {
    forall i :: 0 <= i < |d| ==> d[i] == 0
  }

  lemma EvalMulLinear(c: seq<int>, r: int, x: int)
    ensures Eval(MulLinear(c, r), x) == (x - r) * Eval(c, x)
  {
    EvalAdd([0] + c, Scale(-r, c + [0]), x);
    EvalScale(-r, c + [0], x);
    EvalAppend(c, [0], x);
    assert ([0] + c)[1..] == c;
  }

  // ---------- the root bound ----------

  /** Synthetic division of c by (z - r), dropping the remainder Eval(c, r). */
  function Quotient(c: seq<int>, r: int): (q: seq<int>)
    requires c != []
    ensures |q| == |c| - 1
    ensures forall i :: 0 <= i < |q| ==> q[i] == Eval(c[i + 1..], r)
  {
    seq(|c| - 1, i requires 0 <= i < |c| - 1 => Eval(c[i + 1..], r))
  }

  lemma EvalUnfold(c: seq<int>, x: int)
    requires c != []
    ensures Eval(c, x) == c[0] + x * Eval(c[1..], x)
  {
  }

  lemma DivisionStep(a: int, b: int, q: int, r: int, x: int)
    requires a - b == (x - r) * q
    ensures x * a - r * b == (x - r) * (b + x * q)
  {
    var d := x - r;
    assert x * (d * q) == d * (x * q);
    assert x * a == x * b + x * (d * q);
    assert d * (b + x * q) == d * b + d * (x * q);
    assert d * b == x * b - r * b;
  }

  lemma {:induction false} Division(c: seq<int>, r: int, x: int)
    requires c != []
    ensures Eval(c, x) - Eval(c, r) == (x - r) * Eval(Quotient(c, r), x)
  {
    hide Eval;
    var g := c[1..];
    EvalUnfold(c, x);
    EvalUnfold(c, r);
    if g == [] {
      EvalZero(0, x);
      EvalZero(0, r);
      assert g == Zero(0) == Quotient(c, r);
    } else {
      Division(g, r, x);
      EvalUnfold(Quotient(c, r), x);
      assert Quotient(c, r)[1..] == Quotient(g, r);
      assert c[1..] == g;
      DivisionStep(Eval(g, x), Eval(g, r), Eval(Quotient(g, r), x), r, x);
    }
  }

  /** A polynomial with n coefficients and n roots that differ modulo a prime is zero modulo it. */
  lemma {:induction false} RootBound(c: seq<int>, xs: seq<int>, p: int)
    requires IsPrime(p) && |xs| == |c| && DistinctMod(xs, p)
    requires forall i :: 0 <= i < |xs| ==> Cong(Eval(c, xs[i]), 0, p)
    ensures AllZero(c, p)
    decreases |c|
  {
    hide Eval, Cong, IsPrime;
    PrimePositive(p);
    if c != [] {
      var n := |c| - 1;
      var q := Quotient(c, xs[n]);
      forall i | 0 <= i < n
        ensures Cong(Eval(q, xs[..n][i]), 0, p)
      {
        RootOfQuotient(c, xs[n], xs[i], p);
      }
      RootBound(q, xs[..n], p);
      AllZeroFromQuotient(c, xs[n], p);
    }
  }

  lemma PrimePositive(p: int)
    requires IsPrime(p)
    ensures p >= 2
  {
  }

  /** Another root is a root of the quotient. */
  lemma RootOfQuotient(c: seq<int>, r: int, x: int, p: int)
    requires IsPrime(p) && c != [] && !Cong(x, r, p)
    requires Cong(Eval(c, x), 0, p) && Cong(Eval(c, r), 0, p)
    ensures Cong(Eval(Quotient(c, r), x), 0, p)
  {
    hide Eval, Cong, IsPrime;
    PrimePositive(p);
    Division(c, r, x);
    CongTrans0(Eval(c, x), Eval(c, r), p);
    NoZeroDivisors(x - r, Eval(Quotient(c, r), x), p);
    CongDifference(x, r, p);
  }

  lemma CongTrans0(a: int, b: int, p: int)
    requires p > 0 && Cong(a, 0, p) && Cong(b, 0, p)
    ensures Cong(a - b, 0, p)
  {
    CongDifference(a, b, p);
  }

  lemma AllZeroFromQuotient(c: seq<int>, r: int, p: int)
    requires p > 0 && c != [] && AllZero(Quotient(c, r), p) && Cong(Eval(c, r), 0, p)
    ensures AllZero(c, p)
  {
    hide Eval, Cong;
    var q := Quotient(c, r);
    assert c[0..] == c;
    forall i | 0 <= i < |c|
      ensures Cong(c[i], 0, p)
    {
      assert i > 0 ==> q[i - 1] == Eval(c[i..], r) && Cong(q[i - 1], 0, p);
      assert i < |c| - 1 ==> q[i] == Eval(c[i + 1..], r) && Cong(q[i], 0, p);
      if i == |c| - 1 {
        EvalAllZero(c[i + 1..], r, p);
      }
      CoefficientZero(c, i, r, p);
    }
  }

  lemma CoefficientZero(c: seq<int>, i: nat, r: int, p: int)
    requires p > 0 && i < |c| && Cong(Eval(c[i..], r), 0, p) && Cong(Eval(c[i + 1..], r), 0, p)
    ensures Cong(c[i], 0, p)
  {
    hide Eval, Cong;
    var f := Eval(c[i + 1..], r);
    EvalUnfold(c[i..], r);
    assert c[i..][1..] == c[i + 1..];
    assert r * 0 == 0;
    CongMul(r, r, f, 0, p);
    CongTrans0(Eval(c[i..], r), r * f, p);
  }

  /** Two polynomials with n coefficients that agree at n points different modulo a prime agree
      coefficient by coefficient. */
  lemma PolynomialUnique(c: seq<int>, d: seq<int>, xs: seq<int>, p: int)
    requires IsPrime(p) && |c| == |d| == |xs| && DistinctMod(xs, p)
    requires forall i :: 0 <= i < |xs| ==> Cong(Eval(c, xs[i]), Eval(d, xs[i]), p)
    ensures CongCoefficients(c, d, p)
  {
    var e := Add(c, Scale(-1, d));
    forall i | 0 <= i < |xs|
      ensures Cong(Eval(e, xs[i]), 0, p)
    {
      EvalAdd(c, Scale(-1, d), xs[i]);
      EvalScale(-1, d, xs[i]);
      CongDifference(Eval(c, xs[i]), Eval(d, xs[i]), p);
    }
    RootBound(e, xs, p);
    forall i | 0 <= i < |c|
      ensures Cong(c[i], d[i], p)
    {
      assert e[i] == c[i] - d[i];
      CongDifference(c[i], d[i], p);
    }
  }
}
