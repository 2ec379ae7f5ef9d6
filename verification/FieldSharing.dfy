/** The arithmetic methods of ShamirSecret that do not touch its fields: one secret integer is
    split into points of a random polynomial, and points are combined again. Randomness is a
    finite list of draws; every theorem holds for every list. */
module FieldSharing {
  import opened Wrappers
  import opened ModularArithmetic
  import opened Polynomial
  import opened Interpolation

  // ---------- _polynom ----------

  /** pow(x, e). */
  function IntPower(x: int, e: nat): int {
    if e == 0 then 1 else x * IntPower(x, e - 1)
  }

  function Reverse(c: seq<int>): (r: seq<int>)
    ensures |r| == |c|
    ensures forall i :: 0 <= i < |c| ==> r[i] == c[|c| - 1 - i]
  {
    seq(|c|, i requires 0 <= i < |c| => c[|c| - 1 - i])
  }

  /** Adding one more, highest, coefficient. */
  lemma {:induction false} EvalExtend(c: seq<int>, k: int, x: int)
    ensures Eval(c + [k], x) == Eval(c, x) + IntPower(x, |c|) * k
  {
    if c == [] {
      assert [k][1..] == [];
    } else {
      var e, w := Eval(c[1..], x), IntPower(x, |c| - 1);
      EvalExtend(c[1..], k, x);
      assert (c + [k])[1..] == c[1..] + [k];
      assert x * (e + w * k) == x * e + (x * w) * k;
    }
  }

  /** The power-sum loop computes the polynomial whose constant is the last coefficient. */
  method Polynom(x: int, coefficients: seq<int>, p: int) returns (point: int)
    requires p >= 2
    ensures point == Eval(Reverse(coefficients), x) % p
  {
    var reversed := Reverse(coefficients);
    point := 0;
    DivModUnique(0, 0, 0, p);
    for i := 0 to |reversed|
      invariant point == Eval(reversed[..i], x) % p
    {
      hide Eval, IntPower;
      ghost var e, w, k := Eval(reversed[..i], x), IntPower(x, i), reversed[i];
      EvalExtend(reversed[..i], k, x);
      assert reversed[..i + 1] == reversed[..i] + [k];
      CongMod(e, p);
      CongMod(w, p);
      CongMul(w % p, w, k, k, p);
      CongAdd(point, e, (w % p) * k, w * k, p);
      point := (point + (IntPower(x, i) % p) * reversed[i]) % p;
    }
    assert reversed[..|reversed|] == reversed;
  }

  // ---------- _coeff and _generate_shares ----------

  /** secrets.randbelow(k) on one draw: a draw that it can return stands for itself, larger ones are
      folded into its range. */
  function RandBelow(draw: nat, k: int): (r: int)
    requires k >= 1
    ensures 0 <= r < k
    ensures draw < k ==> r == draw
  {
    draw % k
  }

  /** The m-1 random coefficients, lowest degree first, that _coeff draws. */
  function RandomCoefficients(draws: seq<nat>, m: nat, p: int): (c: seq<int>)
    requires p >= 1 && 1 <= m <= |draws| + 1
    ensures |c| == m - 1 && Residues(c, p)
    ensures forall i :: 0 <= i < m - 1 && draws[i] < p ==> c[m - 2 - i] == draws[i]
  {
    seq(m - 1, i requires 0 <= i < m - 1 => RandBelow(draws[m - 2 - i], p))
  }

  /** The list is the draws, highest degree first, with the secret last; None while draws are still
      missing. */
  method Coeff(m: nat, secret: int, draws: seq<nat>, p: int) returns (r: Option<seq<int>>)
    requires p >= 2 && m >= 1
    ensures r.Some? <==> m - 1 <= |draws|
    ensures r.Some? ==> |r.value| == m && r.value[m - 1] == secret && Residues(r.value[..m - 1], p)
    ensures r.Some? && (forall i :: 0 <= i < m - 1 ==> draws[i] < p) ==> r.value[..m - 1] == draws[..m - 1]
    ensures r.Some? ==> Reverse(r.value) == [secret] + RandomCoefficients(draws, m, p)
  {
    if |draws| < m - 1 {
      return None;
    }
    var coeff := seq(m - 1, i requires 0 <= i < m - 1 => RandBelow(draws[i], p));
    r := Some(coeff + [secret]);
  }

  /** The x-coordinate a draw stands for, in [1, p-1]. */
  function XOf(draw: nat, p: int): (x: int)
    requires p >= 2
    ensures 1 <= x < p
    ensures draw < p - 1 ==> x == draw + 1
  {
    RandBelow(draw, p - 1) + 1
  }

  function XSet(draws: seq<nat>, p: int): set<int>
    requires p >= 2
  {
    set i | 0 <= i < |draws| :: XOf(draws[i], p)
  }

  /** The points are n, have pairwise distinct x in [1, p-1], and lie on the polynomial c. */
  ghost predicate SharesOf(shares: seq<Point>, n: nat, c: seq<int>, p: int)
    requires p >= 2
  {
    && |shares| == n
    && DistinctPoints(shares)
    && forall i :: 0 <= i < n ==> 1 <= shares[i].x < p && shares[i].y == Eval(c, shares[i].x) % p
  }

  ghost predicate DistinctPoints(shares: seq<Point>) {
    forall i, j :: 0 <= i < j < |shares| ==> shares[i].x != shares[j].x
  }

  lemma DistinctPointsDistinctX(shares: seq<Point>, p: int)
    requires p >= 2 && DistinctPoints(shares)
    requires forall i :: 0 <= i < |shares| ==> 0 <= shares[i].x < p
    ensures DistinctX(shares, p)
  {
    forall i, j | 0 <= i < j < |shares|
      ensures !Cong(shares[i].x, shares[j].x, p)
    {
      if Cong(shares[i].x, shares[j].x, p) {
        CongSmall(shares[i].x, shares[j].x, p);
      }
    }
  }

  lemma XSetAppend(draws: seq<nat>, d: nat, p: int)
    requires p >= 2
    ensures XSet(draws + [d], p) == XSet(draws, p) + {XOf(d, p)}
  {
    var both := draws + [d];
    assert both[|draws|] == d;
    forall x | x in XSet(draws, p)
      ensures x in XSet(both, p)
    {
      var i :| 0 <= i < |draws| && XOf(draws[i], p) == x;
      assert both[i] == draws[i];
    }
  }

  lemma XSetMonotone(draws: seq<nat>, k: nat, p: int)
    requires p >= 2 && k <= |draws|
    ensures XSet(draws[..k], p) <= XSet(draws, p)
    ensures |XSet(draws[..k], p)| <= |XSet(draws, p)|
  {
    var s, t := XSet(draws[..k], p), XSet(draws, p);
    forall x | x in s
      ensures x in t
    {
      var i :| 0 <= i < k && XOf(draws[..k][i], p) == x;
      assert draws[i] == draws[..k][i];
    }
    assert t == s + (t - s);
  }

  /** How many draws the rejection loop looks at: the shortest prefix with n different x values. */
  function DrawsNeeded(stream: seq<nat>, n: nat, p: int): (k: nat)
    requires p >= 2 && |XSet(stream, p)| >= n
    ensures k <= |stream| && |XSet(stream[..k], p)| >= n
    ensures k > 0 ==> |XSet(stream[..k - 1], p)| < n
    decreases |stream|
  {
    var shorter := if stream == [] then [] else stream[..|stream| - 1];
    if stream != [] && |XSet(shorter, p)| >= n then
      var k := DrawsNeeded(shorter, n, p);
      assert shorter[..k] == stream[..k];
      assert k > 0 ==> shorter[..k - 1] == stream[..k - 1];
      k
    else
      assert stream[..|stream|] == stream;
      |stream|
  }

  /** No other prefix is the shortest. */
  lemma {:induction false} ShortestPrefix(stream: seq<nat>, n: nat, k: nat, p: int)
    requires p >= 2 && k <= |stream| && |XSet(stream[..k], p)| >= n
    requires k > 0 ==> |XSet(stream[..k - 1], p)| < n
    ensures |XSet(stream, p)| >= n && DrawsNeeded(stream, n, p) == k
    decreases |stream|
  {
    hide XSet;
    if k == |stream| {
      assert stream[..k] == stream;
    } else {
      var shorter := stream[..|stream| - 1];
      assert shorter[..k] == stream[..k];
      assert k > 0 ==> shorter[..k - 1] == stream[..k - 1];
      ShortestPrefix(shorter, n, k, p);
      XSetMonotone(stream, |stream| - 1, p);
    }
  }

  /** The x values drawn, in the order in which they first occur. */
  function DistinctXs(draws: seq<nat>, p: int): (xs: seq<int>)
    requires p >= 2
    ensures forall x :: x in xs <==> x in XSet(draws, p)
    ensures forall i, j :: 0 <= i < j < |xs| ==> xs[i] != xs[j]
    decreases |draws|
  {
    if draws == [] then []
    else
      var n := |draws| - 1;
      var xs, x := DistinctXs(draws[..n], p), XOf(draws[n], p);
      XSetAppend(draws[..n], draws[n], p);
      assert draws == draws[..n] + [draws[n]];
      if x in xs then xs else xs + [x]
  }

  /** The points at the given x of the polynomial c. */
  function PointsAt(xs: seq<int>, c: seq<int>, p: int): (pts: seq<Point>)
    requires p >= 2
    ensures |pts| == |xs| && forall i :: 0 <= i < |xs| ==> pts[i] == Point(xs[i], Eval(c, xs[i]) % p)
  {
    seq(|xs|, i requires 0 <= i < |xs| => Point(xs[i], Eval(c, xs[i]) % p))
  }

  /** The draws are enough for one integer: coefficients, and then n different x values. */
  predicate SuppliesRow(draws: seq<nat>, n: nat, m: nat, p: int)
    requires p >= 2 && m >= 1
  {
    m - 1 <= |draws| && |XSet(draws[m - 1..], p)| >= n
  }

  /** The row for one secret: the first draws are the coefficients of its polynomial, and it has one
      point for each of the first n different x values drawn after them. */
  function DrawnRow(draws: seq<nat>, n: nat, m: nat, secret: int, p: int): (row: seq<Point>)
    requires p >= 2 && m >= 1 && SuppliesRow(draws, n, m, p)
  {
    var k := DrawsNeeded(draws[m - 1..], n, p);
    PointsAt(DistinctXs(draws[m - 1..][..k], p), [secret] + RandomCoefficients(draws, m, p), p)
  }

  /** The draws that are left after one row. */
  function DrawsLeft(draws: seq<nat>, n: nat, m: nat, p: int): (rest: seq<nat>)
    requires p >= 2 && m >= 1 && SuppliesRow(draws, n, m, p)
    ensures |rest| <= |draws|
  {
    draws[m - 1..][DrawsNeeded(draws[m - 1..], n, p)..]
  }

  /** Enough draws for `count` integers, one after the other. */
  predicate Supplies(draws: seq<nat>, count: nat, n: nat, m: nat, p: int)
    requires p >= 2 && m >= 1
    decreases count
  {
    count == 0 || (SuppliesRow(draws, n, m, p) && Supplies(DrawsLeft(draws, n, m, p), count - 1, n, m, p))
  }

  /** One row for each integer, each with draws of its own. */
  function DrawnMatrix(draws: seq<nat>, ints: seq<int>, n: nat, m: nat, p: int): (matrix: seq<seq<Point>>)
    requires p >= 2 && m >= 1 && Supplies(draws, |ints|, n, m, p)
    ensures |matrix| == |ints|
    decreases |ints|
  {
    if ints == [] then []
    else [DrawnRow(draws, n, m, ints[0], p)] + DrawnMatrix(DrawsLeft(draws, n, m, p), ints[1..], n, m, p)
  }

  // ---------- what the draws decide ----------

  lemma {:induction false} DistinctXsCount(draws: seq<nat>, p: int)
    requires p >= 2
    ensures |DistinctXs(draws, p)| == |XSet(draws, p)|
    decreases |draws|
  {
    hide XSet, XOf;
    if draws == [] {
      NoXs(draws, p);
    } else {
      var n := |draws| - 1;
      DistinctXsCount(draws[..n], p);
      XSetAppend(draws[..n], draws[n], p);
      assert draws == draws[..n] + [draws[n]];
      var x := XOf(draws[n], p);
      assert x in XSet(draws[..n], p) ==> XSet(draws[..n], p) + {x} == XSet(draws[..n], p);
    }
  }

  lemma NoXs(draws: seq<nat>, p: int)
    requires p >= 2 && draws == []
    ensures XSet(draws, p) == {}
  {
  }

  lemma NeededIsExact(stream: seq<nat>, n: nat, p: int)
    requires p >= 2 && |XSet(stream, p)| >= n
    ensures |XSet(stream[..DrawsNeeded(stream, n, p)], p)| == n
  {
    hide XSet, XOf;
    var k := DrawsNeeded(stream, n, p);
    if k == 0 {
      NoXs(stream[..k], p);
    } else {
      XSetAppend(stream[..k - 1], stream[k - 1], p);
      assert stream[..k] == stream[..k - 1] + [stream[k - 1]];
    }
  }

  /** A drawn row consists of n shares of the polynomial whose coefficients were drawn. */
  lemma DrawnRowIsShares(draws: seq<nat>, n: nat, m: nat, secret: int, p: int)
    requires p >= 2 && m >= 1 && SuppliesRow(draws, n, m, p)
    ensures SharesOf(DrawnRow(draws, n, m, secret, p), n, [secret] + RandomCoefficients(draws, m, p), p)
  {
    hide XSet, XOf, DistinctXs, SharesOf, PointsAt, RandomCoefficients;
    var stream := draws[m - 1..];
    var k := DrawsNeeded(stream, n, p);
    NeededIsExact(stream, n, p);
    DistinctXsCount(stream[..k], p);
    PointsAreShares(stream[..k], [secret] + RandomCoefficients(draws, m, p), p);
  }

  /** A draw that repeats an x value drawn before is rejected: it changes no point. */
  lemma {:induction false} RepeatedDrawIsSkipped(before: seq<nat>, d: nat, after: seq<nat>, p: int)
    requires p >= 2 && XOf(d, p) in XSet(before, p)
    ensures DistinctXs(before + [d] + after, p) == DistinctXs(before + after, p)
    decreases |after|
  {
    hide XSet, XOf;
    var all, kept := before + [d] + after, before + after;
    if after == [] {
      assert all == before + [d] && kept == before;
      assert all[..|all| - 1] == before;
    } else {
      var n := |after| - 1;
      RepeatedDrawIsSkipped(before, d, after[..n], p);
      assert all[..|all| - 1] == before + [d] + after[..n];
      assert kept[..|kept| - 1] == before + after[..n];
    }
  }

  /** Draws that are pairwise different and in range are the x values, one less each. */
  lemma {:induction false} DifferentDraws(xs: seq<nat>, p: int)
    requires p >= 2 && forall i :: 0 <= i < |xs| ==> xs[i] < p - 1
    requires forall i, j :: 0 <= i < j < |xs| ==> xs[i] != xs[j]
    ensures DistinctXs(xs, p) == seq(|xs|, i requires 0 <= i < |xs| => xs[i] + 1)
    decreases |xs|
  {
    hide XSet;
    if xs != [] {
      var n := |xs| - 1;
      DifferentDraws(xs[..n], p);
      assert xs[n] + 1 !in DistinctXs(xs[..n], p);
    }
  }

  /** Where nothing is rejected: the first m - 1 draws are the coefficients, highest degree first, the
      next n draws plus 1 are the x values, and the others are left. */
  lemma RowWithoutRejection(coeffs: seq<nat>, xs: seq<nat>, rest: seq<nat>, secret: int, p: int)
    requires p >= 2 && forall i :: 0 <= i < |coeffs| ==> coeffs[i] < p
    requires forall i :: 0 <= i < |xs| ==> xs[i] < p - 1
    requires forall i, j :: 0 <= i < j < |xs| ==> xs[i] != xs[j]
    ensures var (draws, n, m) := (coeffs + xs + rest, |xs|, |coeffs| + 1);
      && SuppliesRow(draws, n, m, p) && DrawsLeft(draws, n, m, p) == rest
      && |DrawnRow(draws, n, m, secret, p)| == n
      && forall i :: 0 <= i < n ==>
           DrawnRow(draws, n, m, secret, p)[i] == Point(xs[i] + 1, Eval([secret] + Reverse(coeffs), xs[i] + 1) % p)
  {
    hide Eval, XOf, XSet, DistinctXs;
    var draws, n, m := coeffs + xs + rest, |xs|, |coeffs| + 1;
    var stream := draws[m - 1..];
    assert stream == xs + rest && stream[..n] == xs && stream[n..] == rest;
    DifferentDraws(xs, p);
    DistinctXsCount(xs, p);
    if n > 0 {
      DifferentDraws(xs[..n - 1], p);
      DistinctXsCount(xs[..n - 1], p);
      assert stream[..n - 1] == xs[..n - 1];
    }
    ShortestPrefix(stream, n, n, p);
    assert RandomCoefficients(draws, m, p) == Reverse(coeffs);
  }

  /** The draws for one row in which nothing is rejected. */
  datatype Draws = Draws(coeffs: seq<nat>, xs: seq<nat>)

  ghost predicate NothingRejected(b: Draws, n: nat, m: nat, p: int) {
    && |b.coeffs| == m - 1 && |b.xs| == n
    && (forall i :: 0 <= i < |b.coeffs| ==> b.coeffs[i] < p) && (forall i :: 0 <= i < n ==> b.xs[i] < p - 1)
    && forall i, j :: 0 <= i < j < n ==> b.xs[i] != b.xs[j]
  }

  function Flatten(rows: seq<Draws>): seq<nat> {
    if rows == [] then [] else rows[0].coeffs + rows[0].xs + Flatten(rows[1..])
  }

  /** The points one such row gives. */
  function DirectRow(b: Draws, secret: int, p: int): seq<Point>
    requires p >= 2
  {
    PointsAt(seq(|b.xs|, i requires 0 <= i < |b.xs| => b.xs[i] + 1), [secret] + Reverse(b.coeffs), p)
  }

  ghost predicate DirectMatrix(matrix: seq<seq<Point>>, rows: seq<Draws>, ints: seq<int>, p: int)
    requires p >= 2
  {
    |matrix| == |rows| == |ints| && forall k :: 0 <= k < |rows| ==> matrix[k] == DirectRow(rows[k], ints[k], p)
  }

  /** Each integer is shared with draws of its own: what one row uses, no other row does. */
  lemma {:induction false} MatrixWithoutRejection(rows: seq<Draws>, rest: seq<nat>, ints: seq<int>, draws: seq<nat>,
                                                  n: nat, m: nat, p: int)
    requires p >= 2 && m >= 1 && |rows| == |ints| && draws == Flatten(rows) + rest
    requires forall k :: 0 <= k < |rows| ==> NothingRejected(rows[k], n, m, p)
    ensures Supplies(draws, |ints|, n, m, p) && DirectMatrix(DrawnMatrix(draws, ints, n, m, p), rows, ints, p)
    decreases |rows|
  {
    hide Eval, XSet, XOf, DistinctXs, SuppliesRow, DrawsLeft, DrawnRow, DirectRow;
    if rows != [] {
      var tail := Flatten(rows[1..]) + rest;
      assert draws == rows[0].coeffs + rows[0].xs + tail;
      DirectRowIsDrawn(rows[0], tail, ints[0], n, m, p);
      MatrixWithoutRejection(rows[1..], rest, ints[1..], tail, n, m, p);
    }
  }

  lemma DirectRowIsDrawn(b: Draws, rest: seq<nat>, secret: int, n: nat, m: nat, p: int)
    requires p >= 2 && m >= 1 && NothingRejected(b, n, m, p)
    ensures var draws := b.coeffs + b.xs + rest;
      && SuppliesRow(draws, n, m, p) && DrawsLeft(draws, n, m, p) == rest
      && DrawnRow(draws, n, m, secret, p) == DirectRow(b, secret, p)
  {
    hide Eval, XSet, XOf, DistinctXs, SuppliesRow, DrawsLeft, DrawnRow;
    RowWithoutRejection(b.coeffs, b.xs, rest, secret, p);
  }

  /** The loop has looked at the first k draws of the stream, and not at more than it needs for n. */
  ghost predicate Drawing(stream: seq<nat>, k: nat, xValues: set<int>, shares: seq<Point>, n: nat, c: seq<int>, p: int)
    requires p >= 2
  {
    && k <= |stream| && xValues == XSet(stream[..k], p) && |xValues| == |shares| <= n
    && (k > 0 ==> |XSet(stream[..k - 1], p)| < n)
    && shares == PointsAt(DistinctXs(stream[..k], p), c, p)
  }

  lemma NothingDrawn(stream: seq<nat>, n: nat, c: seq<int>, p: int)
    requires p >= 2
    ensures Drawing(stream, 0, {}, [], n, c, p)
  {
  }

  /** One more draw: a new x value gives a further point, a known one changes nothing. */
  lemma DrawOneMore(stream: seq<nat>, k: nat, xValues: set<int>, shares: seq<Point>, n: nat, c: seq<int>, p: int,
                    y: int)
    requires p >= 2 && Drawing(stream, k, xValues, shares, n, c, p) && k < |stream| && |shares| < n
    requires y == Eval(c, XOf(stream[k], p)) % p
    ensures var x := XOf(stream[k], p);
      if x in xValues then Drawing(stream, k + 1, xValues, shares, n, c, p)
      else Drawing(stream, k + 1, xValues + {x}, shares + [Point(x, y)], n, c, p)
  {
    hide Eval, XOf, XSet, DistinctXs, PointsAt;
    var x := XOf(stream[k], p);
    XSetAppend(stream[..k], stream[k], p);
    assert stream[..k + 1] == stream[..k] + [stream[k]];
    DistinctXsStep(stream, k, p);
    if x in xValues {
      assert xValues + {x} == xValues;
    } else {
      PointsAtStep(DistinctXs(stream[..k], p), x, c, p);
    }
  }

  lemma DistinctXsStep(stream: seq<nat>, k: nat, p: int)
    requires p >= 2 && k < |stream|
    ensures var xs, x := DistinctXs(stream[..k], p), XOf(stream[k], p);
      DistinctXs(stream[..k + 1], p) == if x in xs then xs else xs + [x]
  {
    hide XOf, XSet;
    assert stream[..k + 1][..k] == stream[..k];
  }

  lemma PointsAtStep(xs: seq<int>, x: int, c: seq<int>, p: int)
    requires p >= 2
    ensures PointsAt(xs + [x], c, p) == PointsAt(xs, c, p) + [Point(x, Eval(c, x) % p)]
  {
    hide Eval;
  }

  /** Splits the secret into n points of the drawn polynomial. The rejection loop succeeds exactly when
      the draws after the coefficients supply n different x values; it returns the points and the
      unused draws. */
  method GenerateShares(n: nat, m: nat, secret: int, draws: seq<nat>, p: int)
    returns (r: Option<(seq<Point>, seq<nat>)>)
    requires p >= 2 && m >= 1
    ensures r.Some? <==> SuppliesRow(draws, n, m, p)
    ensures r.Some? ==> r.value == (DrawnRow(draws, n, m, secret, p), DrawsLeft(draws, n, m, p))
    ensures r.Some? ==> SharesOf(r.value.0, n, [secret] + RandomCoefficients(draws, m, p), p)
  {
    hide Eval, XSet, SharesOf, RandomCoefficients, DrawsNeeded, Drawing, XOf;
    var coefficients := Coeff(m, secret, draws, p);
    if coefficients == None {
      return None;
    }
    ghost var c := [secret] + RandomCoefficients(draws, m, p);
    var stream := draws[m - 1..];
    var shares: seq<Point> := [];
    var xValues: set<int> := {};
    var k := 0;
    NothingDrawn(stream, n, c, p);
    while |shares| < n
      invariant k <= |stream| && |shares| <= n && Drawing(stream, k, xValues, shares, n, c, p)
      decreases |stream| - k
    {
      if k == |stream| {
        DrawnResult(stream, k, xValues, shares, n, c, p);
        return None;
      }
      var x := XOf(stream[k], p);
      DrawOneMore(stream, k, xValues, shares, n, c, p, Eval(c, x) % p);
      k := k + 1;
      if x !in xValues {
        xValues := xValues + {x};
        var y := Polynom(x, coefficients.value, p);
        shares := shares + [Point(x, y)];
      }
    }
    DrawnResult(stream, k, xValues, shares, n, c, p);
    return Some((shares, stream[k..]));
  }

  /** The points at the x values drawn are shares of the polynomial. */
  lemma PointsAreShares(draws: seq<nat>, c: seq<int>, p: int)
    requires p >= 2
    ensures SharesOf(PointsAt(DistinctXs(draws, p), c, p), |DistinctXs(draws, p)|, c, p)
  {
    hide Eval, XOf;
    var xs := DistinctXs(draws, p);
    forall i | 0 <= i < |xs|
      ensures 1 <= xs[i] < p
    {
      assert xs[i] in XSet(draws, p);
    }
  }

  /** Where the loop ends: with n points after the shortest sufficient prefix, or out of draws. */
  lemma DrawnResult(stream: seq<nat>, k: nat, xValues: set<int>, shares: seq<Point>, n: nat, c: seq<int>, p: int)
    requires p >= 2 && Drawing(stream, k, xValues, shares, n, c, p)
    ensures |shares| < n && k == |stream| ==> |XSet(stream, p)| < n
    ensures |shares| == n ==>
              && |XSet(stream, p)| >= n && DrawsNeeded(stream, n, p) == k <= |stream| && SharesOf(shares, n, c, p)
              && shares == PointsAt(DistinctXs(stream[..k], p), c, p)
  {
    hide XSet, SharesOf, XOf, DistinctXs, PointsAt;
    assert stream[..|stream|] == stream;
    if |shares| == n {
      ShortestPrefix(stream, n, k, p);
      PointsAreShares(stream[..k], c, p);
    }
  }

  // ---------- _reconstruct_secret ----------

  datatype ReconstructionError = CollidingCoordinates | InvalidBytes | IntegrityCheckFailed

  /** Combines points by Lagrange interpolation at 0. It fails exactly when two points share an x
      modulo p, and otherwise returns the constant of the polynomial through the points. */
  method ReconstructSecret(shares: seq<Point>, p: int) returns (r: Result<int, ReconstructionError>)
    requires IsPrime(p)
    ensures r.Success? <==> DistinctX(shares, p)
    ensures r.Success? ==> r.value == ConstantThrough(shares, p)
    ensures r.Failure? ==> r.error == CollidingCoordinates
  {
    hide Cong;
    var sums := 0;
    DivModUnique(0, 0, 0, p);
    for j := 0 to |shares|
      invariant sums == LagrangeValue(shares, j, 0, p) % p
      invariant forall i :: 0 <= i < j ==> ModInverse(Denominator(shares, i), p).Some?
    {
      var xj, yj := shares[j].x, shares[j].y;
      var num, den := LagrangeProducts(shares, j, p);
      var inverse := ModInverse(den, p);
      DenominatorInvertible(shares, j, p);
      InverseOfResidue(Denominator(shares, j), p);
      if inverse == None {
        NotInvertibleMeansCollision(shares, j, p);
        return Failure(CollidingCoordinates);
      }
      var lagrange := (num * inverse.value) % p;
      TermResidue(shares, j, num, inverse.value, p);
      SumResidue(sums, LagrangeValue(shares, j, 0, p), yj * lagrange, Term(shares, j, 0, p), p);
      sums := (sums + yj * lagrange) % p;
    }
    InvertibleMeansDistinct(shares, p);
    LagrangeSumIsConstant(shares, p);
    return Success(sums);
  }

  /** The inner loop: numerator and denominator of the j-th Lagrange coefficient at 0. */
  method LagrangeProducts(shares: seq<Point>, j: nat, p: int) returns (num: int, den: int)
    requires p >= 2 && j < |shares|
    ensures num == ProductExcept(Xs(shares), |shares|, j, 0) % p
    ensures den == Denominator(shares, j) % p
  {
    ghost var xs := Xs(shares);
    var xj := shares[j].x;
    num, den := 1, 1;
    DivModUnique(1, 0, 1, p);
    for i := 0 to |shares|
      invariant num == ProductExcept(xs, i, j, 0) % p
      invariant den == ProductExcept(xs, i, j, xj) % p
    {
      var xi := shares[i].x;
      if i != j {
        ProductResidue(num, ProductExcept(xs, i, j, 0), -xi, p);
        ProductResidue(den, ProductExcept(xs, i, j, xj), xj - xi, p);
        num := (num * (-xi)) % p;
        den := (den * (xj - xi)) % p;
      }
    }
  }

  /** Any points of a polynomial with t coefficients, t or more of them at different x in [1, p-1],
      determine its constant, in whatever order and however many they are. */
  lemma SharesRecoverSecret(shares: seq<Point>, secret: int, c: seq<int>, p: int)
    requires IsPrime(p) && 0 <= secret < p
    requires SharesOf(shares, |shares|, [secret] + c, p) && |shares| >= |c| + 1
    ensures DistinctX(shares, p) && ConstantThrough(shares, p) == secret
  {
    var f := [secret] + c;
    DistinctPointsDistinctX(shares, p);
    forall i | 0 <= i < |shares|
      ensures Cong(Eval(f, shares[i].x), shares[i].y, p)
    {
      CongMod(Eval(f, shares[i].x), p);
    }
    ConstantRecovered(f, shares, p);
    assert f[1..] == c && Eval(f, 0) == secret + 0 * Eval(c, 0);
    DivModUnique(secret, 0, secret, p);
  }

  lemma ProductResidue(r: int, a: int, f: int, p: int)
    requires p >= 2 && r == a % p
    ensures (r * f) % p == (a * f) % p
  {
    CongMod(a, p);
    CongMul(r, a, f, f, p);
  }

  lemma SumResidue(r: int, a: int, s: int, b: int, p: int)
    requires p >= 2 && r == a % p && Cong(s, b, p)
    ensures (r + s) % p == (a + b) % p
  {
    CongMod(a, p);
    CongAdd(r, a, s, b, p);
  }

  /** The inverse of a residue is the inverse of the number. */
  lemma InverseOfResidue(a: int, p: int)
    requires p >= 2
    ensures ModInverse(a % p, p) == ModInverse(a, p)
  {
    CongMod(a, p);
  }

  lemma TermResidue(shares: seq<Point>, j: nat, num: int, inverse: int, p: int)
    requires p >= 2 && j < |shares| && ModInverse(Denominator(shares, j), p) == Some(inverse)
    requires num == ProductExcept(Xs(shares), |shares|, j, 0) % p
    ensures Cong(shares[j].y * ((num * inverse) % p), Term(shares, j, 0, p), p)
  {
    hide ProductExcept, Denominator;
    var y, n := shares[j].y, ProductExcept(Xs(shares), |shares|, j, 0);
    CongMod(n, p);
    CongMul(num, n, inverse, inverse, p);
    CongMod(num * inverse, p);
    CongMul(y, y, (num * inverse) % p, n * inverse, p);
    assert (y * inverse) * n == y * (n * inverse);
  }

  lemma NotInvertibleMeansCollision(shares: seq<Point>, j: nat, p: int)
    requires IsPrime(p) && j < |shares| && ModInverse(Denominator(shares, j), p).None?
    ensures !DistinctX(shares, p)
  {
    hide Denominator;
    DenominatorInvertible(shares, j, p);
    var i :| 0 <= i < |shares| && i != j && Cong(shares[j].x, shares[i].x, p);
    if i < j {
      assert Cong(shares[i].x, shares[j].x, p);
    }
  }

  lemma InvertibleMeansDistinct(shares: seq<Point>, p: int)
    requires IsPrime(p)
    requires forall i :: 0 <= i < |shares| ==> ModInverse(Denominator(shares, i), p).Some?
    ensures DistinctX(shares, p)
  {
    hide Cong, Denominator;
    forall i, j | 0 <= i < j < |shares|
      ensures !Cong(shares[i].x, shares[j].x, p)
    {
      DenominatorInvertible(shares, i, p);
    }
  }
}
