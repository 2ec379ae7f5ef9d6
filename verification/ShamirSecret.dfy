/** The class of shamir.py. One object is used either as a dealer or as a decoder. */
module Shamir {
  import opened Wrappers
  import opened MersennePrime
  import opened Interpolation
  import opened FieldSharing
  import opened ByteCodec
  import opened Shares
  import opened Decoder
  import opened Dealing

  datatype CreateError =
    | TooLarge           // ValueError: the secret exceeds MAX_SECRET_BYTES
    | StillDrawing       // the rejection loop has not ended within the given draws

  /** The three messages of the ValueError `__init__` raises. */
  datatype ValueError = FewerThanTwoShares | TresholdBelowTwo | TresholdAboveShares

  class ShamirSecret {
    var readyToDecode: bool
    var treshold: int
    var shares: int
    var name: string
    var owner: string
    var uuid: string
    var secretMatrix: seq<seq<Point>>
    var creationDate: string
    var secretHash: Option<string>
    var decodingParticipantsKeys: seq<seq<Point>>

    /** The part of the state a decoder uses. */
    ghost function DecoderState(): State
      reads this
    {
      State(name, owner, uuid, creationDate, secretHash, treshold, shares, decodingParticipantsKeys, readyToDecode)
    }

    /** A decoder: nothing was dealt with this object. */
    ghost predicate IsDecoder()
      reads this
    {
      secretMatrix == [] && Decoder.Valid(DecoderState())
    }

    /** `__init__`: a blank object, or the first test that the parameters fail; uuid4() is the argument
        uuid. */
    static method New(name: string, owner: string, shares: int, treshold: int, uuid: string)
      returns (r: Result<ShamirSecret, ValueError>)
      ensures r.Success? <==> 2 <= treshold <= shares
      ensures r.Success? ==>
                && fresh(r.value) && r.value.IsDecoder()
                && r.value.DecoderState() == Fresh(name, owner, uuid, shares, treshold)
                && (r.value.name, r.value.owner, r.value.uuid) == (name, owner, uuid)
                && r.value.shares == shares && r.value.treshold == treshold
                && !r.value.readyToDecode && r.value.decodingParticipantsKeys == [] && r.value.secretMatrix == []
      ensures r.Failure? ==>
                r.error == if shares < 2 then FewerThanTwoShares
                           else if treshold < 2 then TresholdBelowTwo else TresholdAboveShares
    {
      if shares < 2 {
        return Failure(FewerThanTwoShares);
      }
      if treshold < 2 {
        return Failure(TresholdBelowTwo);
      }
      if treshold > shares {
        return Failure(TresholdAboveShares);
      }
      var secret := new ShamirSecret(name, owner, shares, treshold, uuid);
      return Success(secret);
    }

    /** The assignments of `__init__`, for parameters that have passed its tests. */
    constructor (name: string, owner: string, shares: int, treshold: int, uuid: string)
      requires ValidParameters(shares, treshold)
      ensures DecoderState() == Fresh(name, owner, uuid, shares, treshold)
      ensures IsDecoder()
    {
      this.readyToDecode := false;
      this.treshold := treshold;
      this.shares := shares;
      this.name := name;
      this.owner := owner;
      this.uuid := uuid;
      this.secretMatrix := [];
      this.creationDate := "1800-01-01T00:00:00+00:00";
      this.secretHash := None;
      this.decodingParticipantsKeys := [];
    }

    // ---------- dealing ----------

    /** Splits the bytes of a secret: the matrix grows by the rows drawn for the chunk integers of the
        secret. An oversized secret changes nothing. */
    method CreateSecret(raw: seq<byte>, lib: Library, now: string, draws: seq<nat>)
      returns (r: Result<seq<nat>, CreateError>)
      requires ValidParameters(shares, treshold)
      modifies this
      ensures |raw| > MAX_SECRET_BYTES <==> r == Failure(TooLarge)
      ensures r == Failure(TooLarge) ==> DecoderState() == old(DecoderState()) && secretMatrix == old(secretMatrix)
      ensures name == old(name) && owner == old(owner) && uuid == old(uuid)
      ensures treshold == old(treshold) && shares == old(shares)
      ensures decodingParticipantsKeys == old(decodingParticipantsKeys)
      ensures readyToDecode <==> old(readyToDecode) || r.Success?
      ensures r.Success? <==> |raw| <= MAX_SECRET_BYTES && EnoughDraws(draws, raw, shares, treshold)
      ensures r.Success? ==> creationDate == now && secretHash == Some(lib.sha256(raw))
      ensures r.Success? ==>
                && old(secretMatrix) <= secretMatrix
                && var rows := secretMatrix[|old(secretMatrix)|..];
                   && rows == DrawnMatrix(draws, ToIntegers(raw, BYTES_PER_INTEGER), shares, treshold, PRIME)
                   && DealtMatrix(rows, ToIntegers(raw, BYTES_PER_INTEGER), shares, treshold)
    {
      hide DealtMatrix, Supplies, ToIntegers, DrawnMatrix;
      if |raw| > MAX_SECRET_BYTES {
        return Failure(TooLarge);
      }
      var plainTextCodes := StringToIntegers(raw, BYTES_PER_INTEGER);
      secretHash := Some(lib.sha256(raw));
      creationDate := now;
      var rows := DealRows(plainTextCodes, shares, treshold, draws);
      if rows == None {
        return Failure(StillDrawing);
      }
      secretMatrix := secretMatrix + rows.value.0;
      assert secretMatrix[|old(secretMatrix)|..] == rows.value.0;
      readyToDecode := true;
      return Success(rows.value.1);
    }

    /** The loop of create_secret: one row of points per integer, each with draws of its own, and the
        unused draws. */
    static method DealRows(ints: seq<int>, n: nat, t: nat, draws: seq<nat>)
      returns (r: Option<(seq<seq<Point>>, seq<nat>)>)
      requires t >= 1
      ensures r.Some? <==> Supplies(draws, |ints|, n, t, PRIME)
      ensures r.Some? ==> r.value.0 == DrawnMatrix(draws, ints, n, t, PRIME) && DealtMatrix(r.value.0, ints, n, t)
    {
      hide DealtRow, SharesOf, SuppliesRow, Supplies, DrawnRow, DrawnMatrix, DrawsLeft, RandomCoefficients;
      var rest := draws;
      var matrix: seq<seq<Point>> := [];
      assert ints[0..] == ints;
      for k := 0 to |ints|
        invariant |matrix| == k
        invariant Supplies(draws, |ints|, n, t, PRIME) <==> Supplies(rest, |ints[k..]|, n, t, PRIME)
        invariant Supplies(draws, |ints|, n, t, PRIME) ==>
            DrawnMatrix(draws, ints, n, t, PRIME) == matrix + DrawnMatrix(rest, ints[k..], n, t, PRIME)
        invariant forall j :: 0 <= j < k ==> DealtRow(matrix[j], n, t, ints[j])
      {
        NextRow(rest, ints[k..], n, t);
        assert ints[k..][0] == ints[k] && ints[k..][1..] == ints[k + 1..];
        var row := GenerateShares(n, t, ints[k], rest, PRIME);
        if row == None {
          return None;
        }
        EnoughCoefficients(rest, n, t);
        RowIsDealt(row.value.0, n, t, ints[k], RandomCoefficients(rest, t, PRIME));
        var before := matrix;
        matrix := matrix + [row.value.0];
        rest := row.value.1;
        ghost var later := if Supplies(draws, |ints|, n, t, PRIME) then DrawnMatrix(rest, ints[k + 1..], n, t,
                                                                                    PRIME) else [];
        assert before + ([row.value.0] + later) == matrix + later;
      }
      assert ints[|ints|..] == [];
      NothingToSupply(rest, ints[|ints|..], n, t);
      return Some((matrix, rest));
    }

    static lemma NothingToSupply(draws: seq<nat>, ints: seq<int>, n: nat, m: nat)
      requires m >= 1 && ints == []
      ensures Supplies(draws, |ints|, n, m, PRIME) && DrawnMatrix(draws, ints, n, m, PRIME) == []
    {
    }

    static lemma EnoughCoefficients(draws: seq<nat>, n: nat, m: nat)
      requires m >= 1 && SuppliesRow(draws, n, m, PRIME)
      ensures m - 1 <= |draws|
    {
    }

    static lemma NextRow(draws: seq<nat>, ints: seq<int>, n: nat, m: nat)
      requires m >= 1 && ints != []
      ensures Supplies(draws, |ints|, n, m, PRIME) <==>
              SuppliesRow(draws, n, m, PRIME) && Supplies(DrawsLeft(draws, n, m, PRIME), |ints[1..]|, n, m, PRIME)
      ensures Supplies(draws, |ints|, n, m, PRIME) ==>
              DrawnMatrix(draws, ints, n, m, PRIME)
              == [DrawnRow(draws, n, m, ints[0], PRIME)] + DrawnMatrix(DrawsLeft(draws, n, m, PRIME), ints[1..], n, m,
                                                                       PRIME)
    {
      hide SuppliesRow, DrawsLeft, DrawnRow;
    }

    static lemma RowIsDealt(row: seq<Point>, n: nat, t: nat, secret: int, c: seq<int>)
      requires |c| == t - 1 && Residues(c, PRIME) && SharesOf(row, n, [secret] + c, PRIME)
      ensures DealtRow(row, n, t, secret)
    {
    }

    /** What this object deals, after a successful CreateSecret of raw. */
    ghost function DealOf(raw: seq<byte>): Deal
      requires secretHash.Some?
      reads this
    {
      Deal(raw, secretMatrix, name, owner, uuid, creationDate, treshold, shares, secretHash.value)
    }

    /** All participants' data, in order: the transposed matrix with the metadata. An object that has
        not dealt raises IndexError. */
    method IterateParticipants(ghost raw: seq<byte>) returns (r: Option<seq<Share>>)
      requires forall k :: 0 <= k < |secretMatrix| ==> |secretMatrix[k]| == |secretMatrix[0]|
      ensures r.Some? <==> secretMatrix != []
      ensures r.Some? ==> |r.value| == |secretMatrix[0]|
      ensures r.Some? ==> forall i :: 0 <= i < |r.value| ==>
                && r.value[i].keys.List? && |r.value[i].keys.items| == |secretMatrix|
                && (forall k :: 0 <= k < |secretMatrix| ==> r.value[i].keys.items[k] == PointValue(secretMatrix[k][i]))
                && (r.value[i].name, r.value[i].owner, r.value[i].uuid) == (name, owner, uuid)
                && (r.value[i].treshold, r.value[i].shares) == (Int(treshold), Int(shares))
                && (r.value[i].creationDate, r.value[i].secretHash) == (creationDate, secretHash)
      ensures r.Some? && secretHash.Some? && shares == |secretMatrix[0]| ==>
                forall i :: 0 <= i < shares ==>
                  HasParticipant(DealOf(raw), i) && r.value[i] == ParticipantShare(DealOf(raw), i)
    {
      if secretMatrix == [] {
        return None;
      }
      var participantData: seq<seq<Point>> := [];
      for secretInd := 0 to |secretMatrix[0]|
        invariant |participantData| == secretInd
        invariant forall i :: 0 <= i < secretInd ==> participantData[i] == ParticipantKeys(secretMatrix, i)
      {
        var single: seq<Point> := [];
        for participantInd := 0 to |secretMatrix|
          invariant |single| == participantInd
          invariant forall k :: 0 <= k < participantInd ==> single[k] == secretMatrix[k][secretInd]
        {
          single := single + [secretMatrix[participantInd][secretInd]];
        }
        assert single == ParticipantKeys(secretMatrix, secretInd);
        participantData := participantData + [single];
      }
      var yielded: seq<Share> := [];
      var index := -1;
      while index + 1 < |participantData|
        invariant -1 <= index < |participantData| && |yielded| == index + 1
        invariant forall i :: 0 <= i <= index ==>
            yielded[i] == Share(KeysValue(participantData[i]), creationDate, owner, name, uuid,
                                Int(treshold), Int(shares), secretHash)
      {
        index := index + 1;
        yielded := yielded + [Share(KeysValue(participantData[index]), creationDate, owner, name, uuid,
                                    Int(treshold), Int(shares), secretHash)];
      }
      forall i | 0 <= i < |yielded|
        ensures yielded[i].keys == KeysValue(ParticipantKeys(secretMatrix, i))
      {
        assert participantData[i] == ParticipantKeys(secretMatrix, i);
      }
      return Some(yielded);
    }

    // ---------- decoding ----------

    /** `_validate_keys`, returning the points of a well-formed share. */
    method ValidateKeys(keys: Value) returns (r: Option<seq<Point>>)
      requires SameLength(decodingParticipantsKeys)
      ensures r.Some? <==> KeysFit(decodingParticipantsKeys, keys)
      ensures r.Some? ==> AsKeys(keys) == r
    {
      if !keys.List? || keys.items == [] {
        return None;
      }
      if decodingParticipantsKeys != [] && |keys.items| != |decodingParticipantsKeys[0]| {
        return None;
      }
      var points: seq<Point> := [];
      for chunkIndex := 0 to |keys.items|
        invariant |points| == chunkIndex
        invariant forall i :: 0 <= i < chunkIndex ==>
                    AsPoint(keys.items[i]) == Some(points[i]) && 0 < points[i].x < PRIME
        invariant forall i, row :: 0 <= i < chunkIndex && 0 <= row < |decodingParticipantsKeys| ==>
            decodingParticipantsKeys[row][i].x != points[i].x
      {
        var point := AsPoint(keys.items[chunkIndex]);
        if point == None {
          return None;
        }
        if !(0 < point.value.x < PRIME) {
          return None;
        }
        for row := 0 to |decodingParticipantsKeys|
          invariant forall s :: 0 <= s < row ==> decodingParticipantsKeys[s][chunkIndex].x != point.value.x
        {
          if decodingParticipantsKeys[row][chunkIndex].x == point.value.x {
            return None;
          }
        }
        points := points + [point.value];
      }
      assert AsKeys(keys).value == points;
      return Some(points);
    }

    /** The comparison of populate_decoder with the expected or accepted metadata. */
    method MatchesAccepted(sh: Share, theirTreshold: int, theirShares: int) returns (ok: bool)
      requires AsInt(sh.treshold) == Some(theirTreshold) && AsInt(sh.shares) == Some(theirShares)
      ensures ok <==> Consistent(DecoderState(), sh)
    {
      var failed := false;
      if decodingParticipantsKeys == [] {
        if name != "" && name != sh.name { failed := true; }
        if owner != "" && owner != sh.owner { failed := true; }
      } else {
        if creationDate != sh.creationDate { failed := true; }
        if uuid != sh.uuid { failed := true; }
        if secretHash != sh.secretHash { failed := true; }
        if name != sh.name { failed := true; }
        if shares != theirShares { failed := true; }
        if treshold != theirTreshold { failed := true; }
      }
      return !failed;
    }

    /** Accepts or rejects one untrusted share; a rejection leaves the object as it was. */
    method PopulateDecoder(sh: Share) returns (r: Result<int, InvalidShare>)
      requires IsDecoder()
      modifies this
      ensures IsDecoder()
      ensures DecoderState() == Submit(old(DecoderState()), sh)
      ensures match Populate(old(DecoderState()), sh)
              case Success(v) => r == Success(v.1)
              case Failure(e) => r == Failure(e)
    {
      hide Decoder.Valid, PointsFit, SameLength, Consistent, Populate;
      ghost var st := DecoderState();
      RowsSameLength(st);
      SubmitKeepsValid(st, sh);
      PopulateCases(st, sh);
      var theirTreshold, theirShares := AsInt(sh.treshold), AsInt(sh.shares);
      if theirTreshold == None || theirShares == None {
        return Failure(NotIntegers);
      }
      if theirTreshold.value < 2 || theirShares.value < 2 || theirTreshold.value > theirShares.value {
        return Failure(OutOfRange);
      }
      var keys := ValidateKeys(sh.keys);
      if keys == None {
        return Failure(MalformedKeys);
      }
      var matches := MatchesAccepted(sh, theirTreshold.value, theirShares.value);
      var failed := !matches;
      KeysNotAmongRows(keys.value);
      if keys.value in decodingParticipantsKeys { failed := true; }
      if failed {
        return Failure(Inconsistent);
      }
      var sharesNeeded := TakeOver(sh, keys.value, theirTreshold.value, theirShares.value);
      return Success(sharesNeeded);
    }

    /** The error of one submission, or the state it leads to, in the order of the tests. */
    static lemma PopulateCases(st: State, sh: Share)
      requires SameLength(st.rows)
      ensures AsInt(sh.treshold).None? || AsInt(sh.shares).None? ==> Populate(st, sh) == Failure(NotIntegers)
      ensures AsInt(sh.treshold).Some? && AsInt(sh.shares).Some? ==>
                if !ValidParameters(AsInt(sh.shares).value, AsInt(sh.treshold).value)
                then Populate(st, sh) == Failure(OutOfRange)
                else if !KeysFit(st.rows, sh.keys) then Populate(st, sh) == Failure(MalformedKeys)
                else if !Consistent(st, sh) then Populate(st, sh) == Failure(Inconsistent)
                else
                  var points, t := AsKeys(sh.keys).value, AsInt(sh.treshold).value;
                  Populate(st, sh) == Success((Accepted(st, sh, points, t, AsInt(sh.shares).value), |st.rows| + 1 - t))
    {
      hide PointsFit, Consistent;
    }

    static ghost function Accepted(st: State, sh: Share, points: seq<Point>, treshold: int, shares: int): State {
      State(sh.name, sh.owner, sh.uuid, sh.creationDate, sh.secretHash, treshold, shares,
            st.rows + [points], st.ready || |st.rows| + 1 >= treshold)
    }

    /** The last part of populate_decoder: the row is added and the metadata taken over. */
    method TakeOver(sh: Share, points: seq<Point>, theirTreshold: int, theirShares: int) returns (sharesNeeded: int)
      modifies this
      ensures secretMatrix == old(secretMatrix)
      ensures DecoderState() == Accepted(old(DecoderState()), sh, points, theirTreshold, theirShares)
      ensures sharesNeeded == |old(decodingParticipantsKeys)| + 1 - theirTreshold
    {
      decodingParticipantsKeys := decodingParticipantsKeys + [points];
      creationDate := sh.creationDate;
      owner := sh.owner;
      name := sh.name;
      uuid := sh.uuid;
      secretHash := sh.secretHash;
      treshold := theirTreshold;
      shares := theirShares;
      sharesNeeded := 0 - treshold + |decodingParticipantsKeys|;
      if sharesNeeded >= 0 {
        readyToDecode := true;
      }
    }

    static lemma RowsSameLength(st: State)
      requires Decoder.Valid(st)
      ensures SameLength(st.rows)
    {
    }

    lemma KeysNotAmongRows(points: seq<Point>)
      requires IsDecoder() && PointsFit(decodingParticipantsKeys, points)
      ensures points !in decodingParticipantsKeys
    {
      forall r | 0 <= r < |decodingParticipantsKeys|
        ensures decodingParticipantsKeys[r] != points
      {
        assert decodingParticipantsKeys[r][0].x != points[0].x;
      }
    }

    /** Combines the accepted shares. */
    method DecodeSecret(lib: Library) returns (r: Result<seq<byte>, ReconstructionError>)
      requires IsDecoder()
      ensures r == Decode(DecoderState(), lib)
      ensures !readyToDecode ==> r == Success([])
      ensures readyToDecode ==>
                var bytes := FromIntegers(DecodedIntegers(DecoderState()), 8, lib.utf8);
                && (r == Failure(InvalidBytes) <==> bytes.Failure?)
                && (r == Failure(IntegrityCheckFailed) <==>
                      bytes.Success? && secretHash.Some? && lib.sha256(bytes.value) != secretHash.value)
                && (r.Success? ==> bytes == Success(r.value))
                && r != Failure(CollidingCoordinates)
    {
      if !readyToDecode {
        return Success([]);
      }
      ghost var st := DecoderState();
      var decryptedInts: seq<int> := [];
      for keyInd := 0 to |decodingParticipantsKeys[0]|
        invariant decryptedInts == DecodedIntegers(st)[..keyInd]
      {
        var column: seq<Point> := [];
        for line := 0 to |decodingParticipantsKeys|
          invariant |column| == line
          invariant forall s :: 0 <= s < line ==> column[s] == decodingParticipantsKeys[s][keyInd]
        {
          column := column + [decodingParticipantsKeys[line][keyInd]];
        }
        assert column == Column(st.rows, keyInd);
        ColumnsAreInterpolable(st, keyInd);
        var part := ReconstructSecret(column, PRIME);
        decryptedInts := decryptedInts + [part.value];
      }
      assert decryptedInts == DecodedIntegers(st);
      var result := IntegerListToString(decryptedInts, BYTES_PER_INTEGER, lib.utf8);
      if result.Failure? {
        return Failure(InvalidBytes);
      }
      if secretHash != None && lib.sha256(result.value) != secretHash.value {
        return Failure(IntegrityCheckFailed);
      }
      return Success(result.value);
    }
  }
}
