/** Interpolation modulo a prime: what a set of Shamir points determines, and what it hides. */
module Interpolation {
  import opened ModularArithmetic
  import opened Polynomial

  datatype Point = Point(x: int, y: int)

  function Xs(pts: seq<Point>): (xs: seq<int>)
    ensures |xs| == |pts|
  {
    seq(|pts|, i requires 0 <= i < |pts| => pts[i].x)
  }

  ghost predicate DistinctX(pts: seq<Point>, p: int)
    requires p > 0
  {
    forall i, j :: 0 <= i < j < |pts| ==> !Cong(pts[i].x, pts[j].x, p)
  }

  /** The polynomial c passes through every point, modulo p. */
  ghost predicate Through(c: seq<int>, pts: seq<Point>, p: int)
    requires p > 0
  {
    forall i :: 0 <= i < |pts| ==> Cong(Eval(c, pts[i].x), pts[i].y, p)
  }

  // ---------- the Lagrange products ----------

  /** The product of (z - xs[i]) over i < n, i != j. */
  function ProductExcept(xs: seq<int>, n: nat, j: nat, z: int): int
    requires n <= |xs|
  {
    if n == 0 then 1
    else if n - 1 == j then ProductExcept(xs, n - 1, j, z)
    else ProductExcept(xs, n - 1, j, z) * (z - xs[n - 1])
  }

  /** The same product as a polynomial in z. */
  function BasisPolynomial(xs: seq<int>, n: nat, j: nat): (c: seq<int>)
    requires n <= |xs|
    ensures |c| == if j < n then n else n + 1
  {
    if n == 0 then [1]
    else if n - 1 == j then BasisPolynomial(xs, n - 1, j)
    else MulLinear(BasisPolynomial(xs, n - 1, j), xs[n - 1])
  }

  lemma {:induction false} EvalBasis(xs: seq<int>, n: nat, j: nat, z: int)
    requires n <= |xs|
    ensures Eval(BasisPolynomial(xs, n, j), z) == ProductExcept(xs, n, j, z)
  {
    if n > 0 {
      hide Eval;
      EvalBasis(xs, n - 1, j, z);
      if n - 1 != j {
        EvalMulLinear(BasisPolynomial(xs, n - 1, j), xs[n - 1], z);
        var e, f := ProductExcept(xs, n - 1, j, z), z - xs[n - 1];
        assert f * e == e * f;
      }
    }
  }

  lemma {:induction false} ProductVanishes(xs: seq<int>, n: nat, j: nat, m: nat, z: int, p: int)
    requires p > 0 && m < n <= |xs| && m != j && Cong(z, xs[m], p)
    ensures Cong(ProductExcept(xs, n, j, z), 0, p)
  {
    if n - 1 == m {
      CongDifference(z, xs[m], p);
      var q := ProductExcept(xs, n - 1, j, z);
      CongMul(q, q, z - xs[m], 0, p);
    } else {
      ProductVanishes(xs, n - 1, j, m, z, p);
      if n - 1 != j {
        CongMul(ProductExcept(xs, n - 1, j, z), 0, z - xs[n - 1], z - xs[n - 1], p);
      }
    }
  }

  /** A product of non-zero differences is non-zero. */
  lemma {:induction false} ProductNonZero(xs: seq<int>, n: nat, j: nat, z: int, p: int)
    requires IsPrime(p) && n <= |xs|
    requires forall i :: 0 <= i < n && i != j ==> !Cong(z, xs[i], p)
    ensures !Cong(ProductExcept(xs, n, j, z), 0, p)
  {
    if n == 0 {
      DivModUnique(1, 0, 1, p);
      DivModUnique(0, 0, 0, p);
    } else {
      ProductNonZero(xs, n - 1, j, z, p);
      if n - 1 != j {
        CongDifference(z, xs[n - 1], p);
        if Cong(ProductExcept(xs, n, j, z), 0, p) {
          NoZeroDivisors(ProductExcept(xs, n - 1, j, z), z - xs[n - 1], p);
        }
      }
    }
  }

  function Denominator(pts: seq<Point>, j: nat): int
    requires j < |pts|
  {
    ProductExcept(Xs(pts), |pts|, j, pts[j].x)
  }

  /** The j-th Lagrange denominator is invertible exactly when no other point shares the x of point j. */
  lemma DenominatorInvertible(pts: seq<Point>, j: nat, p: int)
    requires IsPrime(p) && j < |pts|
    ensures ModInverse(Denominator(pts, j), p).Some?
        <==> forall i :: 0 <= i < |pts| && i != j ==> !Cong(pts[j].x, pts[i].x, p)
  {
    InvertibleIffNonZero(Denominator(pts, j), p);
    var xs := Xs(pts);
    if forall i :: 0 <= i < |pts| && i != j ==> !Cong(pts[j].x, pts[i].x, p) {
      ProductNonZero(xs, |pts|, j, pts[j].x, p);
    } else {
      var m :| 0 <= m < |pts| && m != j && Cong(pts[j].x, pts[m].x, p);
      ProductVanishes(xs, |pts|, j, m, pts[j].x, p);
    }
  }

  // ---------- existence ----------

  function Weight(pts: seq<Point>, j: nat, p: int): int
    requires p >= 2 && j < |pts|
  {
    match ModInverse(Denominator(pts, j), p)
    case Some(i) => i
    case None => 0
  }

  function Term(pts: seq<Point>, j: nat, z: int, p: int): int
    requires p >= 2 && j < |pts|
  {
    (pts[j].y * Weight(pts, j, p)) * ProductExcept(Xs(pts), |pts|, j, z)
  }

  /** The Lagrange sum over the first n points, evaluated at z. */
  function LagrangeValue(pts: seq<Point>, n: nat, z: int, p: int): int
    requires p >= 2 && n <= |pts|
  {
    if n == 0 then 0 else LagrangeValue(pts, n - 1, z, p) + Term(pts, n - 1, z, p)
  }

  function TermPolynomial(pts: seq<Point>, j: nat, p: int): (c: seq<int>)
    requires p >= 2 && j < |pts|
    ensures |c| == |pts|
  {
    Scale(pts[j].y * Weight(pts, j, p), BasisPolynomial(Xs(pts), |pts|, j))
  }

  function LagrangePolynomial(pts: seq<Point>, n: nat, p: int): (c: seq<int>)
    requires p >= 2 && n <= |pts|
    ensures |c| == |pts|
  {
    if n == 0 then Zero(|pts|)
    else Add(LagrangePolynomial(pts, n - 1, p), TermPolynomial(pts, n - 1, p))
  }

  lemma EvalTerm(pts: seq<Point>, j: nat, z: int, p: int)
    requires p >= 2 && j < |pts|
    ensures Eval(TermPolynomial(pts, j, p), z) == Term(pts, j, z, p)
  {
    EvalScale(pts[j].y * Weight(pts, j, p), BasisPolynomial(Xs(pts), |pts|, j), z);
    EvalBasis(Xs(pts), |pts|, j, z);
  }

  lemma {:induction false} EvalLagrange(pts: seq<Point>, n: nat, z: int, p: int)
    requires p >= 2 && n <= |pts|
    ensures Eval(LagrangePolynomial(pts, n, p), z) == LagrangeValue(pts, n, z, p)
  {
    hide Eval, Term, TermPolynomial, Zero;
    if n == 0 {
      EvalZero(|pts|, z);
    } else {
      EvalLagrange(pts, n - 1, z, p);
      EvalAdd(LagrangePolynomial(pts, n - 1, p), TermPolynomial(pts, n - 1, p), z);
      EvalTerm(pts, n - 1, z, p);
    }
  }

  lemma TermAtOwnPoint(pts: seq<Point>, m: nat, p: int)
    requires IsPrime(p) && DistinctX(pts, p) && m < |pts|
    ensures Cong(Term(pts, m, pts[m].x, p), pts[m].y, p)
  {
    DenominatorInvertible(pts, m, p);
    var y, w, b := pts[m].y, Weight(pts, m, p), Denominator(pts, m);
    CongMul(y, y, b * w, 1, p);
    assert (y * w) * b == y * (b * w);
  }

  lemma TermAtOtherPoint(pts: seq<Point>, j: nat, m: nat, p: int)
    requires p >= 2 && j < |pts| && m < |pts| && m != j
    ensures Cong(Term(pts, j, pts[m].x, p), 0, p)
  {
    ProductVanishes(Xs(pts), |pts|, j, m, pts[m].x, p);
    var k := pts[j].y * Weight(pts, j, p);
    CongMul(k, k, ProductExcept(Xs(pts), |pts|, j, pts[m].x), 0, p);
  }

  /** At the x of point m only the m-th term survives, and it is that point's y. */
  lemma {:induction false} LagrangeAtPoint(pts: seq<Point>, n: nat, m: nat, p: int)
    requires IsPrime(p) && DistinctX(pts, p) && n <= |pts| && m < |pts|
    ensures Cong(LagrangeValue(pts, n, pts[m].x, p), if m < n then pts[m].y else 0, p)
  {
    if n > 0 {
      var z := pts[m].x;
      LagrangeAtPoint(pts, n - 1, m, p);
      if m == n - 1 {
        TermAtOwnPoint(pts, m, p);
        CongAdd(LagrangeValue(pts, n - 1, z, p), 0, Term(pts, n - 1, z, p), pts[m].y, p);
      } else {
        TermAtOtherPoint(pts, n - 1, m, p);
        CongAdd(LagrangeValue(pts, n - 1, z, p), if m < n - 1 then pts[m].y else 0,
                Term(pts, n - 1, z, p), 0, p);
      }
    }
  }

  lemma InterpolationExists(pts: seq<Point>, p: int)
    requires IsPrime(p) && DistinctX(pts, p)
    ensures exists c :: |c| == |pts| && Through(c, pts, p)
  {
    var c := LagrangePolynomial(pts, |pts|, p);
    forall i | 0 <= i < |pts|
      ensures Cong(Eval(c, pts[i].x), pts[i].y, p)
    {
      EvalLagrange(pts, |pts|, pts[i].x, p);
      LagrangeAtPoint(pts, |pts|, i, p);
    }
  }

  // ---------- what the points determine ----------

  /** The constant term, in [0, p), of the polynomial of degree below |pts| through pts. */
  ghost function ConstantThrough(pts: seq<Point>, p: int): (s: int)
    requires IsPrime(p) && DistinctX(pts, p)
    ensures 0 <= s < p
  {
    InterpolationExists(pts, p);
    var c :| |c| == |pts| && Through(c, pts, p);
    Eval(c, 0) % p
  }

  /** Any polynomial of degree below the number of points it passes through has the constant
      term those points determine: points beyond its degree are harmless. */
  lemma ConstantRecovered(c: seq<int>, pts: seq<Point>, p: int)
    requires IsPrime(p) && DistinctX(pts, p) && |c| <= |pts| && Through(c, pts, p)
    ensures ConstantThrough(pts, p) == Eval(c, 0) % p
  {
    InterpolationExists(pts, p);
    var d :| |d| == |pts| && Through(d, pts, p) && ConstantThrough(pts, p) == Eval(d, 0) % p;
    var z := Zero(|pts| - |c|);
    forall i | 0 <= i < |pts|
      ensures Cong(Eval(c + z, Xs(pts)[i]), Eval(d, Xs(pts)[i]), p)
    {
      EvalAppend(c, z, pts[i].x);
    }
    PolynomialUnique(c + z, d, Xs(pts), p);
    EvalCong(c + z, d, 0, 0, p);
    EvalAppend(c, z, 0);
  }

  /** The Lagrange sum at 0 is the constant the points determine. */
  lemma LagrangeSumIsConstant(pts: seq<Point>, p: int)
    requires IsPrime(p) && DistinctX(pts, p)
    ensures LagrangeValue(pts, |pts|, 0, p) % p == ConstantThrough(pts, p)
  {
    var c := LagrangePolynomial(pts, |pts|, p);
    forall i | 0 <= i < |pts|
      ensures Cong(Eval(c, pts[i].x), pts[i].y, p)
    {
      EvalLagrange(pts, |pts|, pts[i].x, p);
      LagrangeAtPoint(pts, |pts|, i, p);
    }
    ConstantRecovered(c, pts, p);
    EvalLagrange(pts, |pts|, 0, p);
  }

  /** The order in which the points are listed is irrelevant. */
  lemma OrderIrrelevant(pts: seq<Point>, qts: seq<Point>, p: int)
    requires IsPrime(p) && DistinctX(pts, p) && DistinctX(qts, p)
    requires multiset(pts) == multiset(qts)
    ensures ConstantThrough(pts, p) == ConstantThrough(qts, p)
  {
    InterpolationExists(pts, p);
    var c :| |c| == |pts| && Through(c, pts, p);
    assert |multiset(pts)| == |pts| && |multiset(qts)| == |qts|;
    forall i | 0 <= i < |qts|
      ensures Cong(Eval(c, qts[i].x), qts[i].y, p)
    {
      assert qts[i] in multiset(qts);
      assert qts[i] in pts;
    }
    ConstantRecovered(c, pts, p);
    ConstantRecovered(c, qts, p);
  }

  /** Replacing one y by a value different modulo p always changes the constant. */
  lemma TamperChangesConstant(pts: seq<Point>, m: nat, y: int, p: int)
    requires IsPrime(p) && DistinctX(pts, p) && m < |pts|
    requires forall i :: 0 <= i < |pts| ==> !Cong(pts[i].x, 0, p)
    requires !Cong(y, pts[m].y, p)
    ensures DistinctX(pts[m := Point(pts[m].x, y)], p)
    ensures ConstantThrough(pts[m := Point(pts[m].x, y)], p) != ConstantThrough(pts, p)
  {
    var qts := pts[m := Point(pts[m].x, y)];
    assert forall i :: 0 <= i < |pts| ==> qts[i].x == pts[i].x;
    InterpolationExists(pts, p);
    InterpolationExists(qts, p);
    var c :| |c| == |pts| && Through(c, pts, p);
    var d :| |d| == |qts| && Through(d, qts, p);
    ConstantRecovered(c, pts, p);
    ConstantRecovered(d, qts, p);
    if Eval(c, 0) % p == Eval(d, 0) % p {
      // c and d agree at every other point and at 0, so they agree everywhere
      var xs := Xs(pts)[m := 0];
      forall i | 0 <= i < |xs|
        ensures Cong(Eval(c, xs[i]), Eval(d, xs[i]), p)
      {
        if i != m {
          assert qts[i] == pts[i];
        }
      }
      PolynomialUnique(c, d, xs, p);
      EvalCong(c, d, pts[m].x, pts[m].x, p);
      assert false;
    }
  }

  // ---------- what fewer points hide ----------

  function Reduce(c: seq<int>, p: int): (r: seq<int>)
    requires p > 0
    ensures |r| == |c|
    ensures forall i :: 0 <= i < |c| ==> 0 <= r[i] < p && Cong(r[i], c[i], p)
  {
    forall i | 0 <= i < |c|
      ensures Cong(c[i] % p, c[i], p)
    {
      CongMod(c[i], p);
    }
    seq(|c|, i requires 0 <= i < |c| => c[i] % p)
  }

  ghost predicate Residues(c: seq<int>, p: int) {
    forall i :: 0 <= i < |c| ==> 0 <= c[i] < p
  }

  /** c is a choice of the t-1 coefficients above the constant s that yields the points. */
  ghost predicate Explains(c: seq<int>, s: int, pts: seq<Point>, p: int)
    requires p > 0
  {
    Residues(c, p) && Through([s] + c, pts, p)
  }

  /** Threshold hiding: for t-1 points and every candidate constant s exactly one choice of the
      t-1 random coefficients yields those points, so they exclude no constant and favour none. */
  lemma ThresholdHiding(s: int, pts: seq<Point>, p: int)
    requires IsPrime(p) && DistinctX(pts, p) && 0 <= s < p
    requires forall i :: 0 <= i < |pts| ==> !Cong(pts[i].x, 0, p)
    ensures exists c :: |c| == |pts| && Explains(c, s, pts, p)
    ensures forall c, d :: |c| == |d| == |pts| && Explains(c, s, pts, p) && Explains(d, s, pts, p) ==> c == d
  {
    HidingExists(s, pts, p);
    forall c, d | |c| == |d| == |pts| && Explains(c, s, pts, p) && Explains(d, s, pts, p)
      ensures c == d
    {
      HidingUnique(s, pts, c, d, p);
    }
  }

  lemma HidingExists(s: int, pts: seq<Point>, p: int)
    requires IsPrime(p) && DistinctX(pts, p) && 0 <= s < p
    requires forall i :: 0 <= i < |pts| ==> !Cong(pts[i].x, 0, p)
    ensures exists c :: |c| == |pts| && Explains(c, s, pts, p)
  {
    var qts := [Point(0, s)] + pts;
    InterpolationExists(qts, p);
    var f :| |f| == |qts| && Through(f, qts, p);
    var r := Reduce(f, p);
    forall i | 0 <= i < |qts|
      ensures Cong(Eval(r, qts[i].x), qts[i].y, p)
    {
      EvalCong(r, f, qts[i].x, qts[i].x, p);
    }
    assert Cong(Eval(r, qts[0].x), qts[0].y, p);
    CongSmall(r[0], s, p);
    var c := r[1..];
    assert [s] + c == r;
    forall i | 0 <= i < |pts|
      ensures Cong(Eval(r, pts[i].x), pts[i].y, p)
    {
      assert qts[i + 1] == pts[i];
    }
    assert Explains(c, s, pts, p);
  }

  lemma HidingUnique(s: int, pts: seq<Point>, c: seq<int>, d: seq<int>, p: int)
    requires IsPrime(p) && DistinctX(pts, p)
    requires forall i :: 0 <= i < |pts| ==> !Cong(pts[i].x, 0, p)
    requires |c| == |d| == |pts| && Explains(c, s, pts, p) && Explains(d, s, pts, p)
    ensures c == d
  {
    var f, g := [s] + c, [s] + d;
    var xs := [0] + Xs(pts);
    forall i | 0 <= i < |xs|
      ensures Cong(Eval(f, xs[i]), Eval(g, xs[i]), p)
    {
      if i > 0 {
        assert xs[i] == pts[i - 1].x;
      }
    }
    PolynomialUnique(f, g, xs, p);
    forall i | 0 <= i < |c|
      ensures c[i] == d[i]
    {
      assert f[i + 1] == c[i] && g[i + 1] == d[i];
      CongSmall(c[i], d[i], p);
    }
  }
}
