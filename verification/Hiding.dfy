/** Threshold hiding for whole shares: everything fewer than treshold participants hold of a dealt
    secret, except its hash, is consistent with every secret of as many chunks. */
module Hiding {
  import opened ModularArithmetic
  import opened MersennePrime
  import opened Polynomial
  import opened Interpolation
  import opened FieldSharing
  import opened ByteCodec
  import opened Decoder
  import opened Dealing

  /** The chosen participants' points of one row. */
  function Chosen(row: seq<Point>, order: seq<nat>): (pts: seq<Point>)
    requires forall a :: 0 <= a < |order| ==> order[a] < |row|
    ensures |pts| == |order|
  {
    seq(|order|, a requires 0 <= a < |order| => row[order[a]])
  }

  ghost predicate DistinctIndices(order: seq<nat>, n: nat) {
    && (forall a :: 0 <= a < |order| ==> order[a] < n)
    && (forall a, b :: 0 <= a < b < |order| ==> order[a] != order[b])
  }

  lemma ChosenDistinct(row: seq<Point>, order: seq<nat>, n: nat, c: seq<int>)
    requires SharesOf(row, n, c, PRIME) && DistinctIndices(order, n)
    ensures DistinctX(Chosen(row, order), PRIME)
    ensures forall a :: 0 <= a < |order| ==> !Cong(Chosen(row, order)[a].x, 0, PRIME)
  {
    hide Eval;
    var pts := Chosen(row, order);
    SelectionOfShares(row, n, c, order, pts);
    DistinctPointsDistinctX(pts, PRIME);
    forall a | 0 <= a < |pts|
      ensures !Cong(pts[a].x, 0, PRIME)
    {
      if Cong(pts[a].x, 0, PRIME) {
        CongSmall(pts[a].x, 0, PRIME);
      }
    }
  }

  /** Some choice of the t-1 random coefficients gives the chosen points and the other constant. */
  lemma OtherPolynomial(pts: seq<Point>, t: nat, s: int) returns (c: seq<int>)
    requires DistinctX(pts, PRIME) && |pts| < t && 0 <= s < PRIME
    requires forall i :: 0 <= i < |pts| ==> !Cong(pts[i].x, 0, PRIME)
    ensures |c| == t - 1 && Explains(c, s, pts, PRIME)
  {
    PrimeIsPrime();
    HidingExists(s, pts, PRIME);
    var d :| |d| == |pts| && Explains(d, s, pts, PRIME);
    var z := Zero(t - 1 - |pts|);
    c := d + z;
    assert [s] + c == ([s] + d) + z;
    forall i | 0 <= i < |pts|
      ensures Cong(Eval([s] + c, pts[i].x), pts[i].y, PRIME)
    {
      EvalAppend([s] + d, z, pts[i].x);
    }
  }

  /** A row dealt for one integer can be replaced by a row dealt for any other integer that the
      chosen participants cannot tell apart. */
  lemma OtherRow(row: seq<Point>, n: nat, t: nat, s: int, order: seq<nat>, other: int)
    returns (row': seq<Point>)
    requires DealtRow(row, n, t, s) && t >= 1 && DistinctIndices(order, n) && |order| < t
    requires 0 <= other < PRIME
    ensures DealtRow(row', n, t, other)
    ensures |row| == |row'| == n && Chosen(row', order) == Chosen(row, order)
    ensures forall i :: 0 <= i < n ==> row'[i].x == row[i].x
  {
    var c :| |c| == t - 1 && Residues(c, PRIME) && SharesOf(row, n, [s] + c, PRIME);
    ChosenDistinct(row, order, n, [s] + c);
    var pts := Chosen(row, order);
    var c' := OtherPolynomial(pts, t, other);
    var f := [other] + c';
    row' := seq(n, i requires 0 <= i < n => Point(row[i].x, Eval(f, row[i].x) % PRIME));
    hide Eval;
    assert SharesOf(row', n, f, PRIME);
    forall a | 0 <= a < |order|
      ensures row'[order[a]] == row[order[a]]
    {
      var pt := row[order[a]];
      assert pts[a] == pt;
      assert Cong(Eval(f, pt.x), pt.y, PRIME);
      CongMod(Eval([s] + c, pt.x), PRIME);
      CongMod(Eval(f, pt.x), PRIME);
      CongSmall(row'[order[a]].y, pt.y, PRIME);
    }
  }

  lemma OtherRows(matrix: seq<seq<Point>>, ints: seq<int>, others: seq<int>, n: nat, t: nat, order: seq<nat>)
    returns (matrix': seq<seq<Point>>)
    requires DealtMatrix(matrix, ints, n, t) && t >= 1 && DistinctIndices(order, n) && |order| < t
    requires |others| == |ints| && forall k :: 0 <= k < |others| ==> 0 <= others[k] < PRIME
    ensures DealtMatrix(matrix', others, n, t)
    ensures forall k :: 0 <= k < |matrix| ==> |matrix[k]| == |matrix'[k]| == n
    ensures forall k, i :: 0 <= k < |matrix| && 0 <= i < n ==> matrix'[k][i].x == matrix[k][i].x
    ensures forall k :: 0 <= k < |matrix| ==> Chosen(matrix'[k], order) == Chosen(matrix[k], order)
  {
    hide DealtRow, Chosen;
    matrix' := [];
    for k := 0 to |matrix|
      invariant |matrix'| == k
      invariant forall j :: 0 <= j < k ==> DealtRow(matrix'[j], n, t, others[j])
      invariant forall j :: 0 <= j < k ==> |matrix[j]| == |matrix'[j]| == n
      invariant forall j, i :: 0 <= j < k && 0 <= i < n ==> matrix'[j][i].x == matrix[j][i].x
      invariant forall j :: 0 <= j < k ==> Chosen(matrix'[j], order) == Chosen(matrix[j], order)
    {
      var row := OtherRow(matrix[k], n, t, ints[k], order, others[k]);
      matrix' := matrix' + [row];
    }
  }

  /** Fewer than t participants of a dealing hold keys that some dealing of any other list of as
      many integers, with the same x values for everyone, gives them too: their points exclude no
      secret of that many chunks. */
  lemma SharesExcludeNoSecret(matrix: seq<seq<Point>>, ints: seq<int>, others: seq<int>,
                              n: nat, t: nat, order: seq<nat>)
    returns (matrix': seq<seq<Point>>)
    requires DealtMatrix(matrix, ints, n, t) && t >= 1 && DistinctIndices(order, n) && |order| < t
    requires |others| == |ints| && forall k :: 0 <= k < |others| ==> 0 <= others[k] < PRIME
    ensures DealtMatrix(matrix', others, n, t)
    ensures forall k :: 0 <= k < |matrix| ==> |matrix[k]| == |matrix'[k]| == n
    ensures forall k, i :: 0 <= k < |matrix| && 0 <= i < n ==> matrix'[k][i].x == matrix[k][i].x
    ensures forall a :: 0 <= a < |order| ==> ParticipantKeys(matrix', order[a]) == ParticipantKeys(matrix, order[a])
  {
    matrix' := OtherRows(matrix, ints, others, n, t, order);
    forall a | 0 <= a < |order|
      ensures ParticipantKeys(matrix', order[a]) == ParticipantKeys(matrix, order[a])
    {
      forall k | 0 <= k < |matrix|
        ensures matrix'[k][order[a]] == matrix[k][order[a]]
      {
        assert Chosen(matrix'[k], order)[a] == Chosen(matrix[k], order)[a];
      }
    }
  }

  // ---------- exactly one alternative ----------

  /** Two rows dealt for the same integer that give t - 1 participants the same points are the same
      polynomial: they agree for every participant whose x is the same in both. */
  lemma RowDetermined(row: seq<Point>, row': seq<Point>, n: nat, t: nat, s: int, order: seq<nat>, i: nat)
    requires DealtRow(row, n, t, s) && DealtRow(row', n, t, s) && t >= 1 && |row| == |row'| == n
    requires DistinctIndices(order, n) && |order| == t - 1 && Chosen(row, order) == Chosen(row', order)
    requires i < n && row[i].x == row'[i].x
    ensures row'[i] == row[i]
  {
    PrimeIsPrime();
    var c :| |c| == t - 1 && Residues(c, PRIME) && SharesOf(row, n, [s] + c, PRIME);
    var d :| |d| == t - 1 && Residues(d, PRIME) && SharesOf(row', n, [s] + d, PRIME);
    var pts := Chosen(row, order);
    ChosenDistinct(row, order, n, [s] + c);
    ChosenExplained(row, order, n, s, c);
    ChosenExplained(row', order, n, s, d);
    HidingUnique(s, pts, c, d, PRIME);
    hide Eval;
  }

  lemma ChosenExplained(row: seq<Point>, order: seq<nat>, n: nat, s: int, c: seq<int>)
    requires Residues(c, PRIME) && SharesOf(row, n, [s] + c, PRIME) && DistinctIndices(order, n)
    ensures Explains(c, s, Chosen(row, order), PRIME)
  {
    hide Eval;
    var pts := Chosen(row, order);
    forall a | 0 <= a < |pts|
      ensures Cong(Eval([s] + c, pts[a].x), pts[a].y, PRIME)
    {
      assert pts[a] == row[order[a]];
      CongMod(Eval([s] + c, pts[a].x), PRIME);
    }
  }

  /** For exactly t - 1 participants and every other list of integers there is one alternative: any two
      dealings of that list that agree with their keys, and on the x values of the others, are equal. */
  lemma AlternativeIsUnique(matrix: seq<seq<Point>>, matrix': seq<seq<Point>>, ints: seq<int>,
                            n: nat, t: nat, order: seq<nat>)
    requires DealtMatrix(matrix, ints, n, t) && DealtMatrix(matrix', ints, n, t) && t >= 1
    requires forall k :: 0 <= k < |ints| ==> |matrix[k]| == |matrix'[k]| == n
    requires DistinctIndices(order, n) && |order| == t - 1
    requires forall a :: 0 <= a < |order| ==> ParticipantKeys(matrix, order[a]) == ParticipantKeys(matrix', order[a])
    requires forall k, i :: 0 <= k < |ints| && 0 <= i < n ==> matrix[k][i].x == matrix'[k][i].x
    ensures matrix' == matrix
  {
    hide DealtRow;
    forall k | 0 <= k < |ints|
      ensures matrix'[k] == matrix[k]
    {
      forall a | 0 <= a < |order|
        ensures matrix'[k][order[a]] == matrix[k][order[a]]
      {
        assert ParticipantKeys(matrix', order[a])[k] == ParticipantKeys(matrix, order[a])[k];
      }
      assert Chosen(matrix[k], order) == Chosen(matrix'[k], order);
      forall i | 0 <= i < n
        ensures matrix'[k][i] == matrix[k][i]
      {
        RowDetermined(matrix[k], matrix'[k], n, t, ints[k], order, i);
      }
    }
  }

  // ---------- hiding over the draws ----------

  /** These t - 1 draws, as _coeff uses them, give a polynomial with constant s through the points. */
  ghost predicate DrawsExplain(ds: seq<nat>, s: int, pts: seq<Point>, p: int)
    requires p >= 2
  {
    && (forall i :: 0 <= i < |ds| ==> ds[i] < p)
    && Through([s] + RandomCoefficients(ds, |ds| + 1, p), pts, p)
  }

  lemma CoefficientsOfDraws(ds: seq<nat>, p: int)
    requires p >= 2 && forall i :: 0 <= i < |ds| ==> ds[i] < p
    ensures RandomCoefficients(ds, |ds| + 1, p) == Reverse(ds)
  {
  }

  /** For t - 1 points at different non-zero x and every constant there is exactly one list of t - 1
      draws below p for which the drawn polynomial passes through the points. */
  lemma DrawsHideConstant(s: int, pts: seq<Point>, p: int)
    requires IsPrime(p) && DistinctX(pts, p) && 0 <= s < p
    requires forall i :: 0 <= i < |pts| ==> !Cong(pts[i].x, 0, p)
    ensures exists ds :: |ds| == |pts| && DrawsExplain(ds, s, pts, p)
    ensures forall ds: seq<nat>, es: seq<nat> ::
              && |ds| == |es| == |pts| && DrawsExplain(ds, s, pts, p) && DrawsExplain(es, s, pts, p)
              ==> ds == es
  {
    hide Eval, Cong;
    HidingExists(s, pts, p);
    var c :| |c| == |pts| && Explains(c, s, pts, p);
    var ds := DrawsFor(c, p);
    CoefficientsOfDraws(ds, p);
    assert DrawsExplain(ds, s, pts, p);
    forall ds: seq<nat>, es: seq<nat> | |ds| == |es| == |pts| && DrawsExplain(ds, s, pts, p) &&
           DrawsExplain(es, s, pts, p)
      ensures ds == es
    {
      CoefficientsOfDraws(ds, p);
      CoefficientsOfDraws(es, p);
      HidingUnique(s, pts, Reverse(ds), Reverse(es), p);
      ReverseInjective(ds, es);
    }
  }

  /** The draws that give a list of coefficients. */
  function DrawsFor(c: seq<int>, p: int): (ds: seq<nat>)
    requires Residues(c, p)
    ensures |ds| == |c| && (forall i :: 0 <= i < |ds| ==> ds[i] < p) && Reverse(ds) == c
  {
    Reverse(c)
  }

  lemma ReverseInjective(a: seq<int>, b: seq<int>)
    requires |a| == |b| && Reverse(a) == Reverse(b)
    ensures a == b
  {
    forall i | 0 <= i < |a|
      ensures a[i] == b[i]
    {
      assert Reverse(a)[|a| - 1 - i] == Reverse(b)[|b| - 1 - i];
    }
  }

  /** The two streams of draws differ in the coefficients only, and those of the second are in range. */
  ghost predicate SameXDraws(draws: seq<nat>, draws': seq<nat>, count: nat, n: nat, t: nat)
    requires t >= 1 && Supplies(draws, count, n, t, PRIME)
    decreases count
  {
    if count == 0 then draws' == draws
    else
      var k := DrawsNeeded(draws[t - 1..], n, PRIME);
      && t - 1 + k <= |draws'| && draws'[t - 1..t - 1 + k] == draws[t - 1..t - 1 + k]
      && (forall i :: 0 <= i < t - 1 ==> draws'[i] < PRIME)
      && SameXDraws(DrawsLeft(draws, n, t, PRIME), draws'[t - 1 + k..], count - 1, n, t)
  }

  /** The x values of a row are drawn from the same place, whatever the coefficients. */
  lemma SameXSuppliesRow(draws: seq<nat>, draws': seq<nat>, n: nat, t: nat)
    requires t >= 1 && SuppliesRow(draws, n, t, PRIME)
    requires var k := DrawsNeeded(draws[t - 1..], n, PRIME);
      t - 1 + k <= |draws'| && draws'[t - 1..t - 1 + k] == draws[t - 1..t - 1 + k]
    ensures SuppliesRow(draws', n, t, PRIME)
    ensures var k := DrawsNeeded(draws[t - 1..], n, PRIME);
      && DrawsNeeded(draws'[t - 1..], n, PRIME) == k
      && DrawsLeft(draws', n, t, PRIME) == draws'[t - 1 + k..]
      && draws'[t - 1..][..k] == draws[t - 1..][..k]
  {
    hide XSet;
    var stream, stream' := draws[t - 1..], draws'[t - 1..];
    var k := DrawsNeeded(stream, n, PRIME);
    Slice(draws, t - 1, k);
    Slice(draws', t - 1, k);
    if k > 0 {
      assert stream'[..k - 1] == stream'[..k][..k - 1];
      assert stream[..k - 1] == stream[..k][..k - 1];
    }
    ShortestPrefix(stream', n, k, PRIME);
    assert stream'[k..] == draws'[t - 1 + k..];
  }

  lemma Slice(s: seq<nat>, i: nat, k: nat)
    requires i + k <= |s|
    ensures s[i..][..k] == s[i..i + k]
  {
  }

  /** The chosen participants hold the same points in both matrices. */
  ghost predicate SameKeys(matrix: seq<seq<Point>>, matrix': seq<seq<Point>>, order: seq<nat>, n: nat)
    requires DistinctIndices(order, n)
  {
    && |matrix| == |matrix'|
    && forall k :: 0 <= k < |matrix| ==>
         |matrix[k]| == |matrix'[k]| == n && Chosen(matrix[k], order) == Chosen(matrix'[k], order)
  }

  /** A row drawn with other coefficients that explain the chosen points gives the chosen participants
      those points. */
  lemma OtherDrawnRow(draws: seq<nat>, draws': seq<nat>, n: nat, t: nat, s: int, s': int, order: seq<nat>)
    requires t >= 1 && SuppliesRow(draws, n, t, PRIME) && SuppliesRow(draws', n, t, PRIME) && DistinctIndices(order, n)
    requires DrawsNeeded(draws'[t - 1..], n, PRIME) == DrawsNeeded(draws[t - 1..], n, PRIME)
    requires var k := DrawsNeeded(draws[t - 1..], n, PRIME); draws'[t - 1..][..k] == draws[t - 1..][..k]
    requires |DrawnRow(draws, n, t, s, PRIME)| == n
    requires Explains(RandomCoefficients(draws', t, PRIME), s', Chosen(DrawnRow(draws, n, t, s, PRIME), order), PRIME)
    ensures |DrawnRow(draws', n, t, s', PRIME)| == n
    ensures Chosen(DrawnRow(draws', n, t, s', PRIME), order) == Chosen(DrawnRow(draws, n, t, s, PRIME), order)
  {
    hide Eval, XSet, DistinctXs, RandomCoefficients, DrawsNeeded;
    var row, row' := DrawnRow(draws, n, t, s, PRIME), DrawnRow(draws', n, t, s', PRIME);
    var f, f' := [s] + RandomCoefficients(draws, t, PRIME), [s'] + RandomCoefficients(draws', t, PRIME);
    forall a | 0 <= a < |order|
      ensures row'[order[a]] == row[order[a]]
    {
      var pt := row[order[a]];
      assert Chosen(row, order)[a] == pt;
      assert Cong(Eval(f', pt.x), pt.y, PRIME);
      CongMod(Eval(f, pt.x), PRIME);
      CongMod(Eval(f', pt.x), PRIME);
      CongSmall(row'[order[a]].y, pt.y, PRIME);
    }
  }

  lemma RowFacts(draws: seq<nat>, n: nat, t: nat, s: int, order: seq<nat>)
    requires t >= 1 && SuppliesRow(draws, n, t, PRIME) && DistinctIndices(order, n)
    ensures |DrawnRow(draws, n, t, s, PRIME)| == n
    ensures DistinctX(Chosen(DrawnRow(draws, n, t, s, PRIME), order), PRIME)
    ensures forall a :: 0 <= a < |order| ==> !Cong(Chosen(DrawnRow(draws, n, t, s, PRIME), order)[a].x, 0, PRIME)
    ensures Explains(RandomCoefficients(draws, t, PRIME), s, Chosen(DrawnRow(draws, n, t, s, PRIME), order), PRIME)
  {
    hide Eval, XSet, DistinctXs, RandomCoefficients, DrawnRow, SuppliesRow, DrawsNeeded;
    ShamirDraws(draws, n, t);
    DrawnRowIsShares(draws, n, t, s, PRIME);
    var c := RandomCoefficients(draws, t, PRIME);
    ChosenDistinct(DrawnRow(draws, n, t, s, PRIME), order, n, [s] + c);
    ChosenExplained(DrawnRow(draws, n, t, s, PRIME), order, n, s, c);
  }

  lemma ShamirDraws(draws: seq<nat>, n: nat, t: nat)
    requires t >= 1 && SuppliesRow(draws, n, t, PRIME)
    ensures t - 1 <= |draws| && |XSet(draws[t - 1..], PRIME)| >= n
  {
  }

  /** Other coefficients for one row, with the same draws of x values and other draws after them. */
  lemma OtherDrawsForRow(draws: seq<nat>, n: nat, t: nat, s: int, s': int, order: seq<nat>, rest: seq<nat>)
    returns (draws': seq<nat>)
    requires t >= 1 && SuppliesRow(draws, n, t, PRIME) && DistinctIndices(order, n) && |order| < t && 0 <= s' < PRIME
    ensures var k := DrawsNeeded(draws[t - 1..], n, PRIME);
      && t - 1 + k <= |draws'| && draws'[t - 1..t - 1 + k] == draws[t - 1..t - 1 + k]
      && (forall i :: 0 <= i < t - 1 ==> draws'[i] < PRIME)
      && draws'[t - 1 + k..] == rest
    ensures SuppliesRow(draws', n, t, PRIME) && DrawsLeft(draws', n, t, PRIME) == rest
    ensures |DrawnRow(draws, n, t, s, PRIME)| == |DrawnRow(draws', n, t, s', PRIME)| == n
    ensures Chosen(DrawnRow(draws', n, t, s', PRIME), order) == Chosen(DrawnRow(draws, n, t, s, PRIME), order)
  {
    hide Eval, XSet, DistinctXs, RandomCoefficients, DrawnRow, DrawsLeft;
    var k := DrawsNeeded(draws[t - 1..], n, PRIME);
    RowFacts(draws, n, t, s, order);
    var c := OtherPolynomial(Chosen(DrawnRow(draws, n, t, s, PRIME), order), t, s');
    var ds := DrawsFor(c, PRIME);
    draws' := ds + draws[t - 1..t - 1 + k] + rest;
    SameXSuppliesRow(draws, draws', n, t);
    CoefficientsAreFirst(draws', ds, t);
    OtherDrawnRow(draws, draws', n, t, s, s', order);
  }

  lemma CoefficientsAreFirst(draws: seq<nat>, ds: seq<nat>, t: nat)
    requires t >= 1 && |ds| == t - 1 && ds <= draws && forall i :: 0 <= i < |ds| ==> ds[i] < PRIME
    ensures RandomCoefficients(draws, t, PRIME) == Reverse(ds)
  {
  }

  lemma {:induction false} OtherDraws(draws: seq<nat>, ints: seq<int>, others: seq<int>, n: nat, t: nat,
                                      order: seq<nat>)
    returns (draws': seq<nat>)
    requires t >= 1 && Supplies(draws, |ints|, n, t, PRIME) && DistinctIndices(order, n) && |order| < t
    requires |others| == |ints| && forall k :: 0 <= k < |others| ==> 0 <= others[k] < PRIME
    ensures SameXDraws(draws, draws', |ints|, n, t) && Supplies(draws', |ints|, n, t, PRIME)
    ensures SameKeys(DrawnMatrix(draws, ints, n, t, PRIME), DrawnMatrix(draws', others, n, t, PRIME), order, n)
    decreases |ints|
  {
    hide SuppliesRow, DrawnRow, DrawsLeft, Chosen, DistinctIndices, XSet;
    if ints == [] {
      draws' := draws;
    } else {
      ShamirDraws(draws, n, t);
      var rest := OtherDraws(DrawsLeft(draws, n, t, PRIME), ints[1..], others[1..], n, t, order);
      draws' := OtherDrawsForRow(draws, n, t, ints[0], others[0], order, rest);
    }
  }

  /** The draws with which t - 1 participants get the keys they have are unique. */
  lemma {:induction false} OtherDrawsUnique(draws: seq<nat>, draws1: seq<nat>, draws2: seq<nat>, others: seq<int>,
                                            n: nat, t: nat, order: seq<nat>)
    requires t >= 1 && Supplies(draws, |others|, n, t, PRIME) && DistinctIndices(order, n) && |order| == t - 1
    requires SameXDraws(draws, draws1, |others|, n, t) && Supplies(draws1, |others|, n, t, PRIME)
    requires SameXDraws(draws, draws2, |others|, n, t) && Supplies(draws2, |others|, n, t, PRIME)
    requires SameKeys(DrawnMatrix(draws1, others, n, t, PRIME), DrawnMatrix(draws2, others, n, t, PRIME), order, n)
    ensures draws1 == draws2
    decreases |others|
  {
    hide SuppliesRow, DrawnRow, DrawsLeft, Chosen, DistinctIndices, XSet;
    if others != [] {
      ShamirDraws(draws, n, t);
      var k := DrawsNeeded(draws[t - 1..], n, PRIME);
      SameXSuppliesRow(draws, draws1, n, t);
      SameXSuppliesRow(draws, draws2, n, t);
      var m1, m2 := DrawnMatrix(draws1, others, n, t, PRIME), DrawnMatrix(draws2, others, n, t, PRIME);
      HeadAndTailKeys(m1, m2, order, n);
      RowDrawsUnique(draws1, draws2, n, t, others[0], order);
      OtherDrawsUnique(DrawsLeft(draws, n, t, PRIME), draws1[t - 1 + k..], draws2[t - 1 + k..], others[1..], n, t,
                       order);
      assert draws1 == draws1[..t - 1] + draws1[t - 1..t - 1 + k] + draws1[t - 1 + k..];
      assert draws2 == draws2[..t - 1] + draws2[t - 1..t - 1 + k] + draws2[t - 1 + k..];
    }
  }

  lemma HeadAndTailKeys(m1: seq<seq<Point>>, m2: seq<seq<Point>>, order: seq<nat>, n: nat)
    requires DistinctIndices(order, n) && SameKeys(m1, m2, order, n) && m1 != []
    ensures |m1[0]| == |m2[0]| == n && Chosen(m1[0], order) == Chosen(m2[0], order)
    ensures SameKeys(m1[1..], m2[1..], order, n)
  {
    hide Chosen;
  }

  lemma RowDrawsUnique(draws1: seq<nat>, draws2: seq<nat>, n: nat, t: nat, s: int, order: seq<nat>)
    requires t >= 1 && SuppliesRow(draws1, n, t, PRIME) && SuppliesRow(draws2, n, t, PRIME)
    requires forall i :: 0 <= i < t - 1 && i < |draws1| ==> draws1[i] < PRIME
    requires forall i :: 0 <= i < t - 1 && i < |draws2| ==> draws2[i] < PRIME
    requires DistinctIndices(order, n) && |order| == t - 1
    requires |DrawnRow(draws1, n, t, s, PRIME)| == |DrawnRow(draws2, n, t, s, PRIME)| == n
    requires Chosen(DrawnRow(draws1, n, t, s, PRIME), order) == Chosen(DrawnRow(draws2, n, t, s, PRIME), order)
    ensures t - 1 <= |draws1| && t - 1 <= |draws2| && draws1[..t - 1] == draws2[..t - 1]
  {
    hide Eval, XSet, DistinctXs, RandomCoefficients, DrawnRow, SuppliesRow, DrawsNeeded;
    PrimeIsPrime();
    ShamirDraws(draws1, n, t);
    ShamirDraws(draws2, n, t);
    RowFacts(draws1, n, t, s, order);
    RowFacts(draws2, n, t, s, order);
    CoefficientsAreFirst(draws1, draws1[..t - 1], t);
    CoefficientsAreFirst(draws2, draws2[..t - 1], t);
    HidingUnique(s, Chosen(DrawnRow(draws1, n, t, s, PRIME), order),
                 RandomCoefficients(draws1, t, PRIME), RandomCoefficients(draws2, t, PRIME), PRIME);
    ReverseInjective(draws1[..t - 1], draws2[..t - 1]);
  }

  /** Hiding of a whole dealing, over the draws: for the keys of t - 1 participants and any other list of
      as many integers, exactly one stream of draws with coefficients below PRIME, otherwise the same,
      deals that list and gives these participants the same keys. Every secret of that many chunks is
      therefore compatible with what they hold, and as likely. */
  lemma DrawsHideSecret(draws: seq<nat>, ints: seq<int>, others: seq<int>, n: nat, t: nat, order: seq<nat>)
    returns (draws': seq<nat>)
    requires t >= 1 && Supplies(draws, |ints|, n, t, PRIME) && DistinctIndices(order, n) && |order| == t - 1
    requires |others| == |ints| && forall k :: 0 <= k < |others| ==> 0 <= others[k] < PRIME
    ensures SameXDraws(draws, draws', |ints|, n, t) && Supplies(draws', |ints|, n, t, PRIME)
    ensures SameKeys(DrawnMatrix(draws, ints, n, t, PRIME), DrawnMatrix(draws', others, n, t, PRIME), order, n)
    ensures forall other: seq<nat> ::
              && SameXDraws(draws, other, |ints|, n, t) && Supplies(other, |ints|, n, t, PRIME)
              && SameKeys(DrawnMatrix(draws, ints, n, t, PRIME), DrawnMatrix(other, others, n, t, PRIME), order, n)
              ==> other == draws'
  {
    hide Supplies, DrawnMatrix, SameXDraws, DistinctIndices, Chosen;
    draws' := OtherDraws(draws, ints, others, n, t, order);
    forall other: seq<nat> |
      && SameXDraws(draws, other, |ints|, n, t) && Supplies(other, |ints|, n, t, PRIME)
      && SameKeys(DrawnMatrix(draws, ints, n, t, PRIME), DrawnMatrix(other, others, n, t, PRIME), order, n)
      ensures other == draws'
    {
      OtherDrawsUnique(draws, other, draws', others, n, t, order);
    }
  }

  /** What the deals of two byte strings of as many chunks have in common. */
  ghost predicate SameButSecret(d: Deal, other: Deal) {
    (d.name, d.owner, d.uuid, d.creationDate, d.treshold, d.shares)
    == (other.name, other.owner, other.uuid, other.creationDate, other.treshold, other.shares)
  }

  /** Any t - 1 participants of a deal, and any other byte string of as many chunks: exactly one stream of
      draws with coefficients below PRIME, otherwise the same, deals that string instead and gives these
      participants the same keys. Only the hash, which is not part of this, tells the two apart. */
  lemma DealHidesSecret(d: Deal, draws: seq<nat>, raw: seq<byte>, order: seq<nat>)
    returns (other: Deal, draws': seq<nat>)
    requires DealtWith(d, draws) && |raw| <= MAX_SECRET_BYTES && DistinctIndices(order, d.shares) &&
             |order| == d.treshold - 1
    requires |ToIntegers(raw, BYTES_PER_INTEGER)| == |ToIntegers(d.raw, BYTES_PER_INTEGER)|
    ensures other.raw == raw && SameButSecret(d, other) && DealtWith(other, draws')
    ensures EnoughDraws(draws, d.raw, d.shares, d.treshold)
    ensures SameXDraws(draws, draws', |ToIntegers(d.raw, BYTES_PER_INTEGER)|, d.shares, d.treshold)
    ensures SameKeys(d.matrix, other.matrix, order, d.shares)
    ensures forall deal: Deal, stream: seq<nat> ::
              && deal.raw == raw && SameButSecret(d, deal) && DealtWith(deal, stream)
              && SameXDraws(draws, stream, |ToIntegers(d.raw, BYTES_PER_INTEGER)|, d.shares, d.treshold)
              && SameKeys(d.matrix, deal.matrix, order, d.shares)
              ==> stream == draws' && deal.matrix == other.matrix
  {
    hide ToIntegers, Supplies, DrawnMatrix, SameXDraws, SameKeys, DistinctIndices;
    var ints, others := ToIntegers(d.raw, BYTES_PER_INTEGER), ToIntegers(raw, BYTES_PER_INTEGER);
    EntriesBelow(raw, PRIME);
    draws' := DrawsHideSecret(draws, ints, others, d.shares, d.treshold, order);
    other := d.(raw := raw, matrix := DrawnMatrix(draws', others, d.shares, d.treshold, PRIME));
  }
}
