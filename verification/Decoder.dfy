/** What ShamirSecret does as a decoder, as functions on its state: populate_decoder accepts or
    rejects one untrusted share, decode combines the accepted ones. */
module Decoder {
  import opened Wrappers
  import opened ModularArithmetic
  import opened MersennePrime
  import opened Interpolation
  import opened FieldSharing
  import opened ByteCodec
  import opened Shares

  const BYTES_PER_INTEGER: nat := 8

  /** The standard-library functions the decoder calls: UTF-8 validity and the SHA-256 hex digest. */
  datatype Library = Library(utf8: seq<byte> -> bool, sha256: seq<byte> -> string)

  datatype State = State(name: string, owner: string, uuid: string, creationDate: string,
                         secretHash: Option<string>, treshold: int, shares: int, rows: seq<seq<Point>>, ready: bool)

  datatype InvalidShare = NotIntegers | OutOfRange | MalformedKeys | Inconsistent

  /** The state a constructor call leaves, where it does not raise ValueError. */
  predicate ValidParameters(shares: int, treshold: int) {
    shares >= 2 && treshold >= 2 && treshold <= shares
  }

  function Fresh(name: string, owner: string, uuid: string, shares: int, treshold: int): State {
    State(name, owner, uuid, "1800-01-01T00:00:00+00:00", None, treshold, shares, [], false)
  }

  // ---------- populate_decoder ----------

  /** Every row has the same non-zero number of points. */
  ghost predicate SameLength(rows: seq<seq<Point>>) {
    forall r :: 0 <= r < |rows| ==> |rows[r]| == |rows[0]| > 0
  }

  /** The points a submitted `keys` value stands for fit beside the rows accepted so far. */
  ghost predicate PointsFit(rows: seq<seq<Point>>, pts: seq<Point>)
    requires SameLength(rows)
  {
    && pts != []
    && (rows != [] ==> |pts| == |rows[0]|)
    && (forall i :: 0 <= i < |pts| ==> 0 < pts[i].x < PRIME)
    && (forall i, r :: 0 <= i < |pts| && 0 <= r < |rows| ==> rows[r][i].x != pts[i].x)
  }

  ghost predicate KeysFit(rows: seq<seq<Point>>, keys: Value)
    requires SameLength(rows)
  {
    AsKeys(keys).Some? && PointsFit(rows, AsKeys(keys).value)
  }

  ghost predicate Consistent(st: State, sh: Share)
    requires AsInt(sh.treshold).Some? && AsInt(sh.shares).Some?
  {
    if st.rows == [] then
      (st.name == "" || st.name == sh.name) && (st.owner == "" || st.owner == sh.owner)
    else
      && st.creationDate == sh.creationDate && st.uuid == sh.uuid && st.secretHash == sh.secretHash
      && st.name == sh.name
      && Some(st.shares) == AsInt(sh.shares) && Some(st.treshold) == AsInt(sh.treshold)
  }

  /** The new state and the return value of populate_decoder, or the error it raises. */
  ghost function Populate(st: State, sh: Share): Result<(State, int), InvalidShare>
    requires SameLength(st.rows)
  {
    match (AsInt(sh.treshold), AsInt(sh.shares))
    case (Some(treshold), Some(shares)) =>
      if !ValidParameters(shares, treshold) then Failure(OutOfRange)
      else if !KeysFit(st.rows, sh.keys) then Failure(MalformedKeys)
      else if !Consistent(st, sh) then Failure(Inconsistent)
      else
        var rows := st.rows + [AsKeys(sh.keys).value];
        Success((State(sh.name, sh.owner, sh.uuid, sh.creationDate, sh.secretHash, treshold, shares,
                       rows, st.ready || |rows| >= treshold),
                 |rows| - treshold))
    case _ => Failure(NotIntegers)
  }

  /** The state after a submission, which a rejection leaves unchanged. */
  ghost function Submit(st: State, sh: Share): State
    requires SameLength(st.rows)
  {
    match Populate(st, sh)
    case Success(r) => r.0
    case Failure(_) => st
  }

  /** The share fits: its parameters are integers with 2 <= t <= n, its keys are the points pts, one per
      chunk, with x in [1, PRIME - 1] and new for each chunk, and its metadata are those expected, of the
      first share, or accepted before, of a later one. */
  ghost predicate Fitting(st: State, sh: Share, t: int, n: int, pts: seq<Point>)
    requires SameLength(st.rows)
  {
    && IsInteger(sh.treshold, t) && IsInteger(sh.shares, n) && 2 <= t <= n && FittingKeys(st.rows, sh.keys, pts)
    && (st.rows == [] ==> st.name in {"", sh.name} && st.owner in {"", sh.owner})
    && (st.rows != [] ==>
          && (sh.name, sh.uuid, sh.creationDate, sh.secretHash) == (st.name, st.uuid, st.creationDate, st.secretHash)
          && t == st.treshold && n == st.shares)
  }

  ghost predicate FittingKeys(rows: seq<seq<Point>>, keys: Value, pts: seq<Point>) {
    && IsKeys(keys, pts) && (forall k :: 0 <= k < |pts| ==> 1 <= pts[k].x <= PRIME - 1)
    && (forall r :: 0 <= r < |rows| ==> |rows[r]| == |pts|)
    && (forall r, k :: 0 <= r < |rows| && 0 <= k < |pts| && k < |rows[r]| ==> rows[r][k].x != pts[k].x)
  }

  /** A share is accepted exactly if it fits; then its points become one more row, its metadata replace
      those of the decoder, and the return value is the number of rows minus the treshold. */
  lemma AcceptedIff(st: State, sh: Share, t: int, n: int, pts: seq<Point>)
    requires SameLength(st.rows)
    ensures Fitting(st, sh, t, n, pts) <==>
            Populate(st, sh) == Success((
              State(sh.name, sh.owner, sh.uuid, sh.creationDate, sh.secretHash, t, n,
                    st.rows + [pts], st.ready || |st.rows| + 1 >= t),
              |st.rows| + 1 - t))
  {
    ParsesIff(sh.treshold, t, []);
    ParsesIff(sh.shares, n, []);
    ParsesIff(sh.keys, 0, pts);
    if Populate(st, sh).Success? {
      var rows := Populate(st, sh).value.0.rows;
      assert rows[|st.rows|] == AsKeys(sh.keys).value;
      assert (st.rows + [pts])[|st.rows|] == pts;
    }
  }

  /** A rejected share fits with no parameters and points, and the error names the first test it fails. */
  lemma RejectedIff(st: State, sh: Share)
    requires SameLength(st.rows)
    ensures Populate(st, sh).Failure? <==> forall t, n, pts :: !Fitting(st, sh, t, n, pts)
    ensures Populate(st, sh) == Failure(NotIntegers) <==>
              (forall t :: !IsInteger(sh.treshold, t)) || (forall n :: !IsInteger(sh.shares, n))
    ensures Populate(st, sh) == Failure(OutOfRange) <==>
              exists t, n :: IsInteger(sh.treshold, t) && IsInteger(sh.shares, n) && !(2 <= t <= n)
    ensures Populate(st, sh) == Failure(MalformedKeys) <==>
              && (exists t, n :: IsInteger(sh.treshold, t) && IsInteger(sh.shares, n) && 2 <= t <= n)
              && forall pts: seq<Point> :: !FittingKeys(st.rows, sh.keys, pts)
  {
    hide PointsFit, KeysFit, Consistent, Fitting, FittingKeys;
    KeysFitIff(st.rows, sh.keys);
    forall t, n, pts
      ensures Populate(st, sh).Failure? ==> !Fitting(st, sh, t, n, pts)
    {
      AcceptedIff(st, sh, t, n, pts);
    }
    if Populate(st, sh).Success? {
      AcceptedFits(st, sh);
    }
    forall n
      ensures (AsInt(sh.treshold) == Some(n) <==> IsInteger(sh.treshold, n))
              && (AsInt(sh.shares) == Some(n) <==> IsInteger(sh.shares, n))
    {
      ParsesIff(sh.treshold, n, []);
      ParsesIff(sh.shares, n, []);
    }
  }

  lemma AcceptedFits(st: State, sh: Share)
    requires SameLength(st.rows) && Populate(st, sh).Success?
    ensures exists t, n, pts :: Fitting(st, sh, t, n, pts)
  {
    hide PointsFit, Fitting;
    AcceptedIff(st, sh, AsInt(sh.treshold).value, AsInt(sh.shares).value, AsKeys(sh.keys).value);
  }

  lemma KeysFitIff(rows: seq<seq<Point>>, keys: Value)
    requires SameLength(rows)
    ensures KeysFit(rows, keys) <==> exists pts: seq<Point> :: FittingKeys(rows, keys, pts)
  {
    if KeysFit(rows, keys) {
      var pts := AsKeys(keys).value;
      ParsesIff(keys, 0, pts);
      assert FittingKeys(rows, keys, pts);
    }
    if pts: seq<Point> :| FittingKeys(rows, keys, pts) {
      ParsesIff(keys, 0, pts);
    }
  }

  /** Payloads that compare equal have the same effect on every decoder, and among those a decoder
      accepts only they have. */
  lemma SameShareSameEffect(st: State, a: Share, b: Share)
    requires SameLength(st.rows)
    ensures SameShare(a, b) ==> Populate(st, a) == Populate(st, b)
    ensures Populate(st, a).Success? && Populate(st, a) == Populate(st, b) ==> SameShare(a, b)
  {
    hide PointsFit;
    if SameShare(a, b) {
      SameShareSameKeys(a, b);
    }
    if Populate(st, a).Success? && Populate(st, a) == Populate(st, b) {
      assert Populate(st, a).value.0.rows[|st.rows|] == AsKeys(a.keys).value;
      assert Populate(st, b).value.0.rows[|st.rows|] == AsKeys(b.keys).value;
      SameMeaningSameShare(a, b);
    }
  }

  // ---------- the invariant ----------

  ghost predicate DistinctColumns(rows: seq<seq<Point>>)
    requires SameLength(rows)
  {
    forall r, s, k :: 0 <= r < s < |rows| && 0 <= k < |rows[0]| ==> rows[r][k].x != rows[s][k].x
  }

  ghost predicate InRange(rows: seq<seq<Point>>)
    requires SameLength(rows)
  {
    forall r, k :: 0 <= r < |rows| && 0 <= k < |rows[0]| ==> 0 < rows[r][k].x < PRIME
  }

  ghost predicate Valid(st: State) {
    && SameLength(st.rows) && InRange(st.rows) && DistinctColumns(st.rows)
    && ValidParameters(st.shares, st.treshold)
    && (st.ready <==> |st.rows| >= st.treshold)
  }

  /** One submission keeps the invariant; it adds at most one row and never removes or changes one. */
  lemma SubmitKeepsValid(st: State, sh: Share)
    requires Valid(st)
    ensures Valid(Submit(st, sh))
    ensures st.rows <= Submit(st, sh).rows
    ensures Populate(st, sh).Success? ==> |Submit(st, sh).rows| == |st.rows| + 1
    ensures Populate(st, sh).Success? ==>
              Populate(st, sh).value.1 == |Submit(st, sh).rows| - Submit(st, sh).treshold
  {
    if Populate(st, sh).Success? {
      var pts := AsKeys(sh.keys).value;
      var rows := st.rows + [pts];
      assert forall r :: 0 <= r < |rows| ==> rows[r] == if r < |st.rows| then st.rows[r] else pts;
      assert |rows[0]| == |pts|;
      assert SameLength(rows);
    }
  }

  ghost function Run(st: State, submissions: seq<Share>): State
    requires Valid(st)
    ensures Valid(Run(st, submissions))
    decreases |submissions|
  {
    if submissions == [] then st else
      SubmitKeepsValid(st, submissions[0]);
      Run(Submit(st, submissions[0]), submissions[1..])
  }

  /** One more submission at the end of a run. */
  lemma {:induction false} RunOneMore(st: State, submissions: seq<Share>, sh: Share)
    requires Valid(st)
    ensures Run(st, submissions + [sh]) == Submit(Run(st, submissions), sh)
    decreases |submissions|
  {
    hide Valid, Populate;
    SubmissionIsPossible(st);
    if submissions == [] {
      assert ([] + [sh])[1..] == [];
      SubmitKeepsValid(st, sh);
    } else {
      assert (submissions + [sh])[1..] == submissions[1..] + [sh];
      SubmitKeepsValid(st, submissions[0]);
      RunOneMore(Submit(st, submissions[0]), submissions[1..], sh);
    }
  }

  lemma SubmissionIsPossible(st: State)
    requires Valid(st)
    ensures SameLength(st.rows)
  {
  }

  /** The thresholds, hash and identity the first accepted share brings are final: over any later
      submissions only the owner can change. */
  lemma {:induction false} MetadataFixedByFirstShare(st: State, submissions: seq<Share>)
    requires Valid(st) && st.rows != []
    ensures var end := Run(st, submissions);
      && end.treshold == st.treshold && end.shares == st.shares && end.uuid == st.uuid && end.name == st.name
      && end.creationDate == st.creationDate && end.secretHash == st.secretHash
      && st.rows <= end.rows
    decreases |submissions|
  {
    if submissions != [] {
      SubmitKeepsValid(st, submissions[0]);
      MetadataFixedByFirstShare(Submit(st, submissions[0]), submissions[1..]);
    }
  }

  /** A decoder that expects a name keeps it over every run, whatever is submitted. */
  lemma {:induction false} ExpectedNameKept(st: State, submissions: seq<Share>)
    requires Valid(st) && st.name != ""
    ensures Run(st, submissions).name == st.name
    decreases |submissions|
  {
    if submissions != [] {
      SubmitKeepsValid(st, submissions[0]);
      ExpectedNameKept(Submit(st, submissions[0]), submissions[1..]);
    }
  }

  /** An expected owner is only enforced on the first share: any later acceptable share is accepted
      under any owner name, and that name replaces the expected one. */
  lemma OwnerNotKept(st: State, sh: Share, other: string)
    requires Valid(st) && Populate(st, sh).Success?
    ensures st.rows != [] ==>
              Populate(st, sh.(owner := other)).Success? && Submit(st, sh.(owner := other)).owner == other
    ensures st.rows == [] && st.owner != "" ==> (Populate(st, sh.(owner := other)).Success? <==> other == st.owner)
  {
  }

  /** A share whose keys repeat those of an accepted row is already rejected by the x-coordinate
      check, so the separate membership test of the code never decides. */
  lemma RepeatedKeysAreMalformed(st: State, sh: Share, r: nat)
    requires Valid(st) && r < |st.rows| && AsKeys(sh.keys) == Some(st.rows[r])
    ensures !KeysFit(st.rows, sh.keys)
  {
    assert st.rows[r][0].x == AsKeys(sh.keys).value[0].x;
  }

  // ---------- decode ----------

  function Column(rows: seq<seq<Point>>, k: nat): (c: seq<Point>)
    requires forall r :: 0 <= r < |rows| ==> k < |rows[r]|
    ensures |c| == |rows|
  {
    seq(|rows|, r requires 0 <= r < |rows| => rows[r][k])
  }

  /** From every reachable state each chunk's points have x-coordinates that differ modulo PRIME and
      are not 0, so interpolating them never fails. */
  lemma ColumnsAreInterpolable(st: State, k: nat)
    requires Valid(st) && st.rows != [] && k < |st.rows[0]|
    ensures IsPrime(PRIME) && DistinctX(Column(st.rows, k), PRIME)
    ensures forall r :: 0 <= r < |st.rows| ==> !Cong(Column(st.rows, k)[r].x, 0, PRIME)
  {
    PrimeIsPrime();
    var c := Column(st.rows, k);
    DistinctPointsDistinctX(c, PRIME);
    forall r | 0 <= r < |c|
      ensures !Cong(c[r].x, 0, PRIME)
    {
      if Cong(c[r].x, 0, PRIME) {
        CongSmall(c[r].x, 0, PRIME);
      }
    }
  }

  /** The integer each chunk's points determine. */
  ghost function DecodedIntegers(st: State): (ints: seq<int>)
    requires Valid(st) && st.rows != []
    ensures |ints| == |st.rows[0]|
    ensures forall k :: 0 <= k < |ints| ==> 0 <= ints[k] < PRIME
  {
    seq(|st.rows[0]|, k requires 0 <= k < |st.rows[0]| =>
      ColumnsAreInterpolable(st, k);
      ConstantThrough(Column(st.rows, k), PRIME))
  }

  /** The value of decode, or the error it raises. An undecodable state gives the empty string. */
  ghost function Decode(st: State, lib: Library): Result<seq<byte>, ReconstructionError>
    requires Valid(st)
  {
    if !st.ready then Success([])
    else
      match FromIntegers(DecodedIntegers(st), BYTES_PER_INTEGER, lib.utf8)
      case Failure(_) => Failure(InvalidBytes)
      case Success(raw) =>
        if st.secretHash.Some? && lib.sha256(raw) != st.secretHash.value then Failure(IntegrityCheckFailed)
        else Success(raw)
  }

  /** decode never reports colliding coordinates; and a value it returns for accepted shares is
      valid UTF-8 and has their hash. */
  lemma DecodeIsChecked(st: State, lib: Library)
    requires Valid(st)
    ensures Decode(st, lib) != Failure(CollidingCoordinates)
    ensures st.ready && Decode(st, lib).Success? ==>
              lib.utf8(Decode(st, lib).value) && st.secretHash in {None, Some(lib.sha256(Decode(st, lib).value))}
  {
  }

  /** Changing one y of one accepted row to a different residue changes the integer decoded for that
      chunk and no other. */
  lemma TamperedChunkDecodesDifferently(st: State, r: nat, k: nat, y: int)
    requires Valid(st) && r < |st.rows| && k < |st.rows[r]| && !Cong(y, st.rows[r][k].y, PRIME)
    ensures var bad := st.(rows := st.rows[r := st.rows[r][k := Point(st.rows[r][k].x, y)]]);
      && Valid(bad)
      && DecodedIntegers(bad)[k] != DecodedIntegers(st)[k]
      && forall j :: 0 <= j < |st.rows[0]| && j != k ==> DecodedIntegers(bad)[j] == DecodedIntegers(st)[j]
  {
    var bad := st.(rows := st.rows[r := st.rows[r][k := Point(st.rows[r][k].x, y)]]);
    assert forall s, j :: 0 <= s < |st.rows| && 0 <= j < |st.rows[0]| ==> bad.rows[s][j].x == st.rows[s][j].x;
    assert SameLength(bad.rows);
    assert InRange(bad.rows) && DistinctColumns(bad.rows);
    assert Valid(bad);
    ColumnsAreInterpolable(st, k);
    var c := Column(st.rows, k);
    TamperChangesConstant(c, r, y, PRIME);
    assert Column(bad.rows, k) == c[r := Point(c[r].x, y)];
    forall j | 0 <= j < |st.rows[0]| && j != k
      ensures DecodedIntegers(bad)[j] == DecodedIntegers(st)[j]
    {
      assert Column(bad.rows, j) == Column(st.rows, j);
    }
  }
}
