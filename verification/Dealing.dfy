/** A dealt secret: the matrix of points create_secret fills, the shares its columns form, and what
    any decoder makes of them. */
module Dealing {
  import opened Wrappers
  import opened ModularArithmetic
  import opened MersennePrime
  import opened Polynomial
  import opened Interpolation
  import opened FieldSharing
  import opened ByteCodec
  import opened Shares
  import opened Decoder

  const MAX_SECRET_BYTES: nat := 1_000_000

  /** Everything a dealer holds after create_secret. matrix[k] are the points of the k-th integer. */
  datatype Deal = Deal(raw: seq<byte>, matrix: seq<seq<Point>>, name: string, owner: string, uuid: string,
                       creationDate: string, treshold: int, shares: int, secretHash: string)

  /** The row shares one integer: n points of a polynomial with t coefficients whose constant it is. */
  ghost predicate DealtRow(row: seq<Point>, n: nat, t: nat, secret: int) {
    exists c :: |c| == t - 1 && Residues(c, PRIME) && SharesOf(row, n, [secret] + c, PRIME)
  }

  ghost predicate DealtMatrix(matrix: seq<seq<Point>>, ints: seq<int>, n: nat, t: nat) {
    |matrix| == |ints| && forall k :: 0 <= k < |ints| ==> DealtRow(matrix[k], n, t, ints[k])
  }

  ghost predicate ValidDeal(d: Deal, lib: Library) {
    && ValidParameters(d.shares, d.treshold)
    && |d.raw| <= MAX_SECRET_BYTES && lib.utf8(d.raw)
    && d.secretHash == lib.sha256(d.raw)
    && DealtMatrix(d.matrix, ToIntegers(d.raw, BYTES_PER_INTEGER), d.shares, d.treshold)
  }

  /** The draws let every rejection loop of a dealing of these bytes end. */
  ghost predicate EnoughDraws(draws: seq<nat>, raw: seq<byte>, shares: nat, treshold: nat)
    requires treshold >= 1
  {
    Supplies(draws, |ToIntegers(raw, BYTES_PER_INTEGER)|, shares, treshold, PRIME)
  }

  /** The matrix is the one that these draws give for the bytes of the deal. */
  ghost predicate DealtWith(d: Deal, draws: seq<nat>) {
    && ValidParameters(d.shares, d.treshold)
    && EnoughDraws(draws, d.raw, d.shares, d.treshold)
    && d.matrix == DrawnMatrix(draws, ToIntegers(d.raw, BYTES_PER_INTEGER), d.shares, d.treshold, PRIME)
  }

  /** One block of t - 1 coefficients and n different x values for each integer is always enough. */
  lemma BlocksAreEnough(raw: seq<byte>, shares: nat, treshold: nat, draws: seq<nat>, rows: seq<Draws>, rest: seq<nat>)
    requires treshold >= 1 && draws == Flatten(rows) + rest && |rows| == |ToIntegers(raw, BYTES_PER_INTEGER)|
    requires forall k :: 0 <= k < |rows| ==> NothingRejected(rows[k], shares, treshold, PRIME)
    ensures EnoughDraws(draws, raw, shares, treshold)
  {
    hide ToIntegers, DirectMatrix, DrawnMatrix, Supplies, NothingRejected, Flatten;
    MatrixWithoutRejection(rows, rest, ToIntegers(raw, BYTES_PER_INTEGER), draws, shares, treshold, PRIME);
  }

  /** Where no draw is rejected, row k of the deal consists of the points of the polynomial whose constant
      is the k-th integer and whose other coefficients are the k-th block of draws. */
  lemma DealtWithoutRejection(d: Deal, draws: seq<nat>, rows: seq<Draws>, rest: seq<nat>)
    requires DealtWith(d, draws) && draws == Flatten(rows) + rest
    requires |rows| == |ToIntegers(d.raw, BYTES_PER_INTEGER)|
    requires forall k :: 0 <= k < |rows| ==> NothingRejected(rows[k], d.shares, d.treshold, PRIME)
    ensures DirectMatrix(d.matrix, rows, ToIntegers(d.raw, BYTES_PER_INTEGER), PRIME)
  {
    hide ToIntegers, DirectMatrix, DrawnMatrix, Supplies, NothingRejected, Flatten;
    MatrixWithoutRejection(rows, rest, ToIntegers(d.raw, BYTES_PER_INTEGER), draws, d.shares, d.treshold, PRIME);
  }

  /** Participant i's column of the matrix. */
  function ParticipantKeys(matrix: seq<seq<Point>>, i: nat): (pts: seq<Point>)
    requires forall k :: 0 <= k < |matrix| ==> i < |matrix[k]|
    ensures |pts| == |matrix|
  {
    seq(|matrix|, k requires 0 <= k < |matrix| => matrix[k][i])
  }

  ghost predicate HasParticipant(d: Deal, i: int) {
    0 <= i < d.shares && d.matrix != [] && forall k :: 0 <= k < |d.matrix| ==> |d.matrix[k]| == d.shares
  }

  function ParticipantShare(d: Deal, i: nat): Share
    requires HasParticipant(d, i)
  {
    Share(KeysValue(ParticipantKeys(d.matrix, i)), d.creationDate, d.owner, d.name, d.uuid,
          Int(d.treshold), Int(d.shares), Some(d.secretHash))
  }

  /** Distinct participants of the deal, in the order their shares arrived. */
  ghost predicate Participants(d: Deal, order: seq<nat>) {
    && (forall a :: 0 <= a < |order| ==> HasParticipant(d, order[a]))
    && (forall a, b :: 0 <= a < b < |order| ==> order[a] != order[b])
  }

  function Rows(d: Deal, order: seq<nat>): (rows: seq<seq<Point>>)
    requires Participants(d, order)
    ensures |rows| == |order|
  {
    seq(|order|, a requires 0 <= a < |order| => ParticipantKeys(d.matrix, order[a]))
  }

  lemma ValidDealShape(d: Deal, lib: Library, i: int)
    requires ValidDeal(d, lib) && 0 <= i < d.shares
    ensures HasParticipant(d, i)
  {
    assert |d.matrix| >= 1;
    forall k | 0 <= k < |d.matrix|
      ensures |d.matrix[k]| == d.shares
    {
      assert DealtRow(d.matrix[k], d.shares, d.treshold, ToIntegers(d.raw, BYTES_PER_INTEGER)[k]);
    }
  }

  // ---------- the decoder's view ----------

  /** A decoder that has accepted exactly the given participants' shares of the deal. */
  ghost predicate HonestState(st: State, d: Deal, order: seq<nat>) {
    && Participants(d, order)
    && st.rows == Rows(d, order)
    && ValidParameters(st.shares, st.treshold)
    && (st.ready <==> order != [] && |order| >= d.treshold)
    && (if order == [] then
          (st.name == "" || st.name == d.name) && (st.owner == "" || st.owner == d.owner)
        else
          && st.name == d.name && st.owner == d.owner && st.uuid == d.uuid
          && st.creationDate == d.creationDate && st.secretHash == Some(d.secretHash)
          && st.treshold == d.treshold && st.shares == d.shares)
  }

  lemma DealtPoint(d: Deal, lib: Library, i: nat, j: nat, k: nat)
    requires ValidDeal(d, lib) && HasParticipant(d, i) && HasParticipant(d, j) && k < |d.matrix|
    ensures 1 <= d.matrix[k][i].x < PRIME
    ensures i != j ==> d.matrix[k][i].x != d.matrix[k][j].x
  {
    var s := ToIntegers(d.raw, BYTES_PER_INTEGER)[k];
    assert DealtRow(d.matrix[k], d.shares, d.treshold, s);
    var c :| |c| == d.treshold - 1 && Residues(c, PRIME) && SharesOf(d.matrix[k], d.shares, [s] + c, PRIME);
    if i < j {
      assert d.matrix[k][i].x != d.matrix[k][j].x;
    } else if j < i {
      assert d.matrix[k][j].x != d.matrix[k][i].x;
    }
  }

  lemma HonestStateValid(st: State, d: Deal, lib: Library, order: seq<nat>)
    requires ValidDeal(d, lib) && HonestState(st, d, order)
    ensures Valid(st)
  {
    assert forall a :: 0 <= a < |order| ==> |st.rows[a]| == |d.matrix|;
    assert order != [] ==> HasParticipant(d, order[0]);
    assert SameLength(st.rows);
    forall a, k | 0 <= a < |order| && 0 <= k < |st.rows[0]|
      ensures 0 < st.rows[a][k].x < PRIME
    {
      DealtPoint(d, lib, order[a], order[a], k);
    }
    assert InRange(st.rows);
    forall a, b, k | 0 <= a < b < |order| && 0 <= k < |st.rows[0]|
      ensures st.rows[a][k].x != st.rows[b][k].x
    {
      DealtPoint(d, lib, order[a], order[b], k);
    }
    assert DistinctColumns(st.rows);
  }

  /** A further participant's share is accepted, in any order; the return value counts down to the
      dealer's treshold. */
  lemma HonestShareAccepted(st: State, d: Deal, lib: Library, order: seq<nat>, i: nat)
    requires ValidDeal(d, lib) && HonestState(st, d, order) && HasParticipant(d, i) && i !in order
    ensures Valid(st) && Populate(st, ParticipantShare(d, i)).Success?
    ensures Populate(st, ParticipantShare(d, i)).value.1 == |order| + 1 - d.treshold
    ensures HonestState(Submit(st, ParticipantShare(d, i)), d, order + [i])
  {
    hide ValidDeal, PointsFit, Valid, DealtMatrix;
    HonestStateValid(st, d, lib, order);
    ValidRows(st);
    NewPointsFit(st, d, lib, order, i);
    KeysRoundTrip(ParticipantKeys(d.matrix, i));
    assert Consistent(st, ParticipantShare(d, i));
    assert Rows(d, order + [i]) == Rows(d, order) + [ParticipantKeys(d.matrix, i)];
  }

  lemma ValidRows(st: State)
    requires Valid(st)
    ensures SameLength(st.rows)
  {
  }

  lemma NewPointsFit(st: State, d: Deal, lib: Library, order: seq<nat>, i: nat)
    requires ValidDeal(d, lib) && HonestState(st, d, order) && HasParticipant(d, i) && i !in order &&
             SameLength(st.rows)
    ensures ParticipantKeys(d.matrix, i) != [] && PointsFit(st.rows, ParticipantKeys(d.matrix, i))
    ensures ValidParameters(d.shares, d.treshold)
  {
    var pts := ParticipantKeys(d.matrix, i);
    forall k | 0 <= k < |pts|
      ensures 0 < pts[k].x < PRIME
    {
      DealtPoint(d, lib, i, i, k);
    }
    forall k, a | 0 <= k < |pts| && 0 <= a < |order|
      ensures st.rows[a][k].x != pts[k].x
    {
      DealtPoint(d, lib, order[a], i, k);
    }
  }

  /** A participant who already contributed is rejected. */
  lemma RepeatedShareRejected(st: State, d: Deal, lib: Library, order: seq<nat>, i: nat)
    requires ValidDeal(d, lib) && HonestState(st, d, order) && i in order
    ensures Valid(st) && Populate(st, ParticipantShare(d, i)) == Failure(MalformedKeys)
  {
    hide ValidDeal, PointsFit, Valid;
    HonestStateValid(st, d, lib, order);
    ValidRows(st);
    DealTreshold(d, lib);
    var a :| 0 <= a < |order| && order[a] == i;
    KeysRoundTrip(ParticipantKeys(d.matrix, i));
    RepeatedKeysAreMalformed(st, ParticipantShare(d, i), a);
  }

  lemma DealTreshold(d: Deal, lib: Library)
    requires ValidDeal(d, lib)
    ensures ValidParameters(d.shares, d.treshold)
  {
  }

  // ---------- the class-level round trip ----------

  /** The points any t or more participants hold for one integer determine that integer. */
  lemma RowRecovered(d: Deal, lib: Library, order: seq<nat>, k: nat, column: seq<Point>)
    requires ValidDeal(d, lib) && Participants(d, order) && |order| >= d.treshold && k < |d.matrix|
    requires column == Column(Rows(d, order), k)
    requires IsPrime(PRIME) && DistinctX(column, PRIME)
    ensures ConstantThrough(column, PRIME) == ToIntegers(d.raw, BYTES_PER_INTEGER)[k]
  {
    var s := ToIntegers(d.raw, BYTES_PER_INTEGER)[k];
    assert DealtRow(d.matrix[k], d.shares, d.treshold, s);
    var c :| |c| == d.treshold - 1 && Residues(c, PRIME) && SharesOf(d.matrix[k], d.shares, [s] + c, PRIME);
    assert forall a :: 0 <= a < |column| ==> column[a] == d.matrix[k][order[a]];
    SelectionOfShares(d.matrix[k], d.shares, [s] + c, order, column);
    EntriesBelow(d.raw, PRIME);
    SharesRecoverSecret(column, s, c, PRIME);
  }

  /** Different ones of some shares are shares of the same polynomial. */
  lemma SelectionOfShares(row: seq<Point>, n: nat, c: seq<int>, order: seq<nat>, column: seq<Point>)
    requires SharesOf(row, n, c, PRIME) && |column| == |order|
    requires forall a :: 0 <= a < |order| ==> order[a] < n && column[a] == row[order[a]]
    requires forall a, b :: 0 <= a < b < |order| ==> order[a] != order[b]
    ensures SharesOf(column, |column|, c, PRIME)
  {
    hide Eval;
    forall a, b | 0 <= a < b < |column|
      ensures column[a].x != column[b].x
    {
      if order[a] < order[b] {
        assert row[order[a]].x != row[order[b]].x;
      } else {
        assert row[order[b]].x != row[order[a]].x;
      }
    }
  }

  /** Any treshold or more distinct participants, in any order, decode to the dealt bytes; fewer
      leave the decoder unready. */
  lemma DecodeRecovers(st: State, d: Deal, lib: Library, order: seq<nat>)
    requires ValidDeal(d, lib) && HonestState(st, d, order)
    ensures Valid(st)
    ensures Decode(st, lib) == if |order| >= d.treshold then Success(d.raw) else Success([])
  {
    HonestStateValid(st, d, lib, order);
    if |order| >= d.treshold {
      assert HasParticipant(d, order[0]);
      var ints := ToIntegers(d.raw, BYTES_PER_INTEGER);
      forall k | 0 <= k < |ints|
        ensures DecodedIntegers(st)[k] == ints[k]
      {
        ColumnsAreInterpolable(st, k);
        RowRecovered(d, lib, order, k, Column(st.rows, k));
      }
      assert DecodedIntegers(st) == ints;
      CodecRoundTrip(d.raw, BYTES_PER_INTEGER, lib.utf8);
    }
  }
}
