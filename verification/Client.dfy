/** The client commands as loops over peers: store-secret and get-secret. */
module Client {
  import opened Wrappers
  import opened Identity
  import opened ByteCodec
  import opened Shares
  import opened Decoder
  import opened Dealing
  import opened ShareStore
  import opened Network
  import opened Retrieval
  import opened Quorum
  import opened Collection
  import Initiator
  import ShareServer
  import Shamir

  datatype SplitError = TooLarge | StillDrawing

  /** Creates the ShamirSecret, splits the bytes and lists the participants' shares. */
  method SplitSecret(name: string, owner: string, shares: int, treshold: int, uuid: string, raw: seq<byte>,
                     lib: Library, now: string, draws: seq<nat>)
    returns (r: Result<seq<Share>, SplitError>, ghost deal: Deal)
    requires ValidParameters(shares, treshold) && lib.utf8(raw)
    ensures |raw| > MAX_SECRET_BYTES <==> r == Failure(TooLarge)
    ensures r.Success? <==> |raw| <= MAX_SECRET_BYTES && EnoughDraws(draws, raw, shares, treshold)
    ensures r.Success? ==>
              && ValidDeal(deal, lib) && deal.raw == raw && deal.name == name && deal.owner == owner
              && deal.uuid == uuid && deal.shares == shares && deal.treshold == treshold && |r.value| == shares
              && DealtWith(deal, draws)
    ensures r.Success? ==>
              forall i :: 0 <= i < shares ==> HasParticipant(deal, i) && r.value[i] == ParticipantShare(deal, i)
  {
    deal := Deal(raw, [], name, owner, uuid, now, treshold, shares, "");
    var secret := new Shamir.ShamirSecret(name, owner, shares, treshold, uuid);
    var created := secret.CreateSecret(raw, lib, now, draws);
    if created.Failure? {
      return Failure(if created.error.TooLarge? then TooLarge else StillDrawing), deal;
    }
    deal := secret.DealOf(raw);
    assert ValidDeal(deal, lib);
    forall i | 0 <= i < shares
      ensures HasParticipant(deal, i)
    {
      ValidDealShape(deal, lib, i);
    }
    assert HasParticipant(deal, 0);
    var participants := secret.IterateParticipants(raw);
    return Success(participants.value), deal;
  }

  datatype PublishResult =
    | NoPeers
    | BadParameters(error: ParameterError)
    | NotSplit(cause: SplitError)
    | NotPublished(successes: nat)
    | RecordingFailed
    | Recorded(successes: nat)

  /** How many of the first n requests are acknowledged. */
  ghost function Acknowledged(me: Self, attempts: seq<Attempt>, n: nat): nat
    requires n <= |attempts|
  {
    if OwnerMatches(me.commonName, me.owner) then Saves(attempts, n) else 0
  }

  class Client {
    const me: Self
    var stores: map<string, Store>
    var records: Records
    ghost var published: map<string, Publication>

    ghost function W(): World
      reads this
    {
      World(stores, records, published)
    }

    constructor (me: Self, stores: map<string, Store>, records: Records, ghost published: map<string, Publication>)
      ensures this.me == me && W() == World(stores, records, published)
    {
      this.me := me;
      this.stores := stores;
      this.records := records;
      this.published := published;
    }

    /** peer_client.store_share: one POST to a peer, whose server answers as its store decides. */
    method SendShare(uuid: string, peer: string, share: Share, attempt: Attempt) returns (ok: bool)
      requires uuid in published && peer in published[uuid].seats && peer in stores
      requires HasParticipant(published[uuid].deal, published[uuid].seats[peer]) &&
               share == ShareFor(published[uuid], peer)
      modifies this`stores, this`published
      ensures (W(), ok) == Send(old(W()), me, uuid, peer, attempt)
    {
      if attempt.Unreachable? {
        return false;
      }
      ghost var pub := published[uuid];
      ghost var w := W();
      var reply := ServerPost(peer, uuid, share, attempt.save);
      ok := attempt.Answered? && (reply == Stored || reply == AlreadyStored);
      if ok {
        published := published[uuid := pub.(holders := pub.holders + {peer})];
      }
    }

    /** The peer's server handles POST /shares/<uuid> from this host. */
    method ServerPost(peer: string, uuid: string, share: Share, save: SaveOutcome) returns (reply: Reply)
      requires peer in stores
      modifies this`stores
      ensures var (s, answer) := PostShare(old(stores)[peer], uuid, Some(share), me.commonName, save);
        stores == old(stores)[peer := s] && reply == answer
    {
      hide Acceptable, OwnerMatches, SameShare;
      var s := stores[peer];
      var accepted := ShareServer.AcceptedByBlankDecoder(share);
      if share.uuid != uuid || !accepted {
        reply := BadRequest;
      } else if !OwnerMatches(me.commonName, share.owner) {
        reply := Forbidden;
      } else if uuid in s.memory {
        reply := if SameShare(s.memory[uuid], share) then AlreadyStored else Conflict;
      } else {
        var (saved, answer) := Persist(s.(memory := s.memory[uuid := share]), save);
        s, reply := saved, answer;
      }
      stores := stores[peer := s];
    }

    /** The publishing loop: every target is tried once, failures are skipped and counted. */
    method PublishShares(ghost deal: Deal, participants: seq<Share>, targets: seq<string>, attempts: seq<Attempt>)
      returns (successes: nat)
      requires Publishable(W(), me, deal, targets) && |targets| == |attempts| == |participants|
      requires forall i :: 0 <= i < deal.shares ==>
                 HasParticipant(deal, i) && participants[i] == ParticipantShare(deal, i)
      modifies this`stores, this`published
      ensures (W(), successes) == SendAll(old(W()), me, deal, targets, attempts, |targets|)
    {
      hide Send, SendAll, Publishable, Seats, Announce, ShareFor, SendEffect, ValidDeal;
      ghost var w0 := W();
      successes := 0;
      var i := 0;
      PublishableTargets(w0, me, deal, targets);
      BeforeFirstSend(w0, me, deal, targets, attempts, i);
      published := Announce(w0, deal, targets).published;
      AnnounceFrame(w0, deal, targets);
      while i < |targets|
        invariant i <= |targets| && (W(), successes) == SendAll(w0, me, deal, targets, attempts, i)
      {
        NextSend(w0, me, deal, targets, attempts, i);
        SeatShare(published[deal.uuid], targets[i], participants[i], i);
        var ok := SendShare(participants[i].uuid, targets[i], participants[i], attempts[i]);
        if ok {
          successes := successes + 1;
        }
        i := i + 1;
      }
    }

    static lemma AnnounceFrame(w: World, deal: Deal, targets: seq<string>)
      requires Targets(w, targets)
      ensures Announce(w, deal, targets).stores == w.stores && Announce(w, deal, targets).records == w.records
    {
    }

    /** The i-th participant's share is the one for the peer in seat i. */
    static lemma SeatShare(pub: Publication, p: string, share: Share, i: nat)
      requires p in pub.seats && pub.seats[p] == i && HasParticipant(pub.deal, i) &&
               share == ParticipantShare(pub.deal, i)
      ensures share == ShareFor(pub, p) && share.uuid == pub.deal.uuid
    {
    }

    /** peer_client.record_secret to this host's own server. */
    method RecordLocally(name: string, rec: Record, attempt: Attempt) returns (ok: bool)
      modifies this`records
      ensures (records, ok) == RecordSecret(old(records), me, name, rec, attempt)
      ensures ok <==> attempt == Answered(Saved) && OwnerMatches(me.commonName, me.owner)
      ensures ok ==> RecordedAs(records, name, rec)
      ensures attempt.Unreachable? || !OwnerMatches(me.commonName, me.owner) ==> records == old(records)
    {
      RecordOutcome(records, me, name, rec, attempt);
      if attempt.Unreachable? || !OwnerMatches(me.commonName, me.owner) {
        return false;
      }
      var memory := records.memory[name := rec];
      match attempt.save {
        case Saved => records := Records(memory, memory);
        case SaveRaised => records := Records(memory, records.disk);
        case CrashedBeforeRename => records := Records(records.disk, records.disk);
        case CrashedAfterRename => records := Records(memory, memory);
      }
      return attempt == Answered(Saved);
    }

    /** What the publishing half of store-secret did to the world. */
    static ghost predicate Published(w: World, w': World, me: Self, deal: Deal, peers: seq<string>,
                                     attempts: seq<Attempt>, recording: Attempt)
    {
      && 0 <= deal.shares <= |peers| == |attempts|
      && Publishable(w, me, deal, peers[..deal.shares])
      && w' == Publish(w, me, deal, peers[..deal.shares], attempts[..deal.shares], recording)
    }

    /** Publishes the shares and, where enough peers acknowledged, records the secret. A reported record
        is the one that get-secret looks up, in memory and on disk; without the recording request no
        record changes. */
    method PublishAndRecord(ghost deal: Deal, name: string, uuid: string, shares: nat, treshold: int,
                            participants: seq<Share>, peers: seq<string>, attempts: seq<Attempt>, recording: Attempt)
      returns (r: PublishResult)
      requires deal.name == name && deal.uuid == uuid && deal.shares == shares && deal.treshold == treshold
      requires shares <= |peers| == |attempts| && |participants| == shares
      requires WorldValid(W(), me) && Publishable(W(), me, deal, peers[..shares]) && treshold >= 1
      requires forall i :: 0 <= i < deal.shares ==>
                 HasParticipant(deal, i) && participants[i] == ParticipantShare(deal, i)
      modifies this`stores, this`published, this`records
      ensures Published(old(W()), W(), me, deal, peers, attempts, recording)
      ensures var n := Acknowledged(me, attempts, shares);
        r == if n < treshold then NotPublished(n) else if recording == Answered(Saved) then Recorded(n)
        else RecordingFailed
      ensures r.Recorded? ==> RecordedAs(records, name, Record(uuid, treshold, r.successes))
      ensures r.NotPublished? || recording.Unreachable? ==> records == old(records)
      ensures uuid in published && published[uuid].deal == deal
      ensures OwnerMatches(me.commonName, me.owner) ==>
                published[uuid].holders == Savers(peers[..shares], attempts[..shares], shares)
    {
      hide ValidDeal, SendAll, RecordSecret, HasParticipant, Publishable, WorldValid, OwnerMatches, Savers, RecordedAs;
      AcknowledgedExactly(W(), me, deal, peers[..shares], attempts[..shares], shares);
      PublishableTargets(W(), me, deal, peers[..shares]);
      SendAllKeepsWorld(W(), me, deal, peers[..shares], attempts[..shares], shares);
      SavesOfPrefix(attempts, shares, shares);
      var successes := PublishShares(deal, participants, peers[..shares], attempts[..shares]);
      if successes < treshold {
        return NotPublished(successes);
      }
      var ok := RecordLocally(name, Record(uuid, treshold, successes), recording);
      return if ok then Recorded(successes) else RecordingFailed;
    }

    static lemma {:induction false} SavesOfPrefix(attempts: seq<Attempt>, n: nat, k: nat)
      requires k <= n <= |attempts|
      ensures Saves(attempts[..n], k) == Saves(attempts, k)
    {
      if k > 0 {
        SavesOfPrefix(attempts, n, k - 1);
      }
    }

    /** store-secret. Each result is reported in exactly its case. It changes nothing before the first
        request; afterwards the world is the one the publication of a valid dealing leads to. It records
        the secret exactly if at least treshold of the peers addressed save their share and answer, the
        record is saved and confirmed, and the host's name matches its certificate; and then the record is
        in memory and on disk, and the holders are the peers that saved and answered. */
    method StoreSecretCmd(peers: seq<string>, name: string, raw: seq<byte>, sharesOverride: Option<int>,
                          tresholdOverride: Option<int>, uuid: string, now: string, draws: seq<nat>,
                          attempts: seq<Attempt>, recording: Attempt)
      returns (r: PublishResult, ghost deal: Deal)
      requires WorldValid(W(), me) && me.lib.utf8(raw)
      requires Targets(W(), peers) && FreshUuid(W(), uuid) && |attempts| == |peers|
      modifies this`stores, this`published, this`records
      ensures WorldValid(W(), me)
      ensures r == NoPeers <==> peers == []
      ensures forall e :: r == BadParameters(e) <==>
                peers != [] && SharesAndTreshold(|peers|, sharesOverride, tresholdOverride) == Failure(e)
      ensures r == NotSplit(TooLarge) <==>
                SharesAndTreshold(|peers|, sharesOverride, tresholdOverride).Success? && |raw| > MAX_SECRET_BYTES
      ensures r == NotSplit(StillDrawing) <==>
                var parameters := SharesAndTreshold(|peers|, sharesOverride, tresholdOverride);
                && parameters.Success? && |raw| <= MAX_SECRET_BYTES
                && !EnoughDraws(draws, raw, parameters.value.0, parameters.value.1)
      ensures r.NoPeers? || r.BadParameters? || r.NotSplit? ==> W() == old(W())
      ensures r.NotPublished? || r.RecordingFailed? || r.Recorded? ==>
                && Published(old(W()), W(), me, deal, peers, attempts, recording)
                && deal.raw == raw && deal.name == name && deal.uuid == uuid && deal.owner == me.owner
                && SharesAndTreshold(|peers|, sharesOverride, tresholdOverride) == Success((deal.shares, deal.treshold))
                && DealtWith(deal, draws)
                && uuid in published && published[uuid].deal == deal
                && var n := Acknowledged(me, attempts, deal.shares);
                   r == if n < deal.treshold then NotPublished(n)
                        else if recording == Answered(Saved) then Recorded(n) else RecordingFailed
      ensures r.Recorded? ==>
                && OwnerMatches(me.commonName, me.owner)
                && RecordedAs(records, name, Record(uuid, deal.treshold, r.successes))
                && published[uuid].holders == Savers(peers[..deal.shares], attempts[..deal.shares], deal.shares)
      ensures r.NotPublished? || recording.Unreachable? ==> records == old(records)
    {
      hide WorldValid, ValidDeal, FreshUuid, HasParticipant, SharesAndTreshold, Publish, SendAll, EnoughDraws;
      hide Savers, RecordedAs, OwnerMatches, DealtWith;
      deal := Deal(raw, [], name, me.owner, uuid, now, 0, 0, "");
      if peers == [] {
        return NoPeers, deal;
      }
      var parameters := SharesAndTreshold(|peers|, sharesOverride, tresholdOverride);
      if parameters.Failure? {
        return BadParameters(parameters.error), deal;
      }
      var (shares, treshold) := parameters.value;
      var participants;
      participants, deal := SplitSecret(name, me.owner, shares, treshold, uuid, raw, me.lib, now, draws);
      if participants.Failure? {
        assert participants.error == if |raw| > MAX_SECRET_BYTES then TooLarge else StillDrawing;
        return NotSplit(participants.error), deal;
      }
      PublishKeepsWorld(W(), me, deal, peers[..shares], attempts[..shares], recording);
      r := PublishAndRecord(deal, name, uuid, shares, treshold, participants.value, peers, attempts, recording);
    }

    /** GET /secrets/<name> at this host's own server. */
    method LookUp(name: string, reachable: bool) returns (r: Option<Record>)
      ensures r == if reachable && OwnerMatches(me.commonName, me.owner) && name in records.memory
                   then Some(records.memory[name]) else None
    {
      if !reachable || !OwnerMatches(me.commonName, me.owner) || name !in records.memory {
        return None;
      }
      return Some(records.memory[name]);
    }

    /** peer_client.retrieve_share: one GET to a peer, which may not be reachable. */
    method RetrieveShare(peer: string, uuid: string, reachable: bool) returns (r: Option<Share>)
      ensures r == if reachable && Serves(stores, me, uuid, peer)
                   then Some(GetShare(stores[peer], uuid, me.commonName).share) else None
    {
      if !reachable || peer !in stores {
        return None;
      }
      var reply := GetShare(stores[peer], uuid, me.commonName);
      return if reply.Found? then Some(reply.share) else None;
    }

    /** The loop get-secret and get-key1 share: one pass over the peers in the given order, asking until
        the decoder is ready. It obtains every share served, up to the treshold; nothing where no share
        that is served fits. */
    method AskPeers(decoder: Shamir.ShamirSecret, uuid: string, order: seq<string>, up: seq<bool>, ghost fits: bool)
      returns (obtained: nat)
      requires WorldValid(W(), me) && |order| == |up| && NoRepeats(order) && decoder.IsDecoder()
      requires fits ==> uuid in published && CollectedFrom(decoder.DecoderState(), published[uuid], {}, [])
      requires !fits ==> !decoder.readyToDecode && NothingFits(stores, me, uuid, decoder.DecoderState())
      modifies decoder
      ensures decoder.IsDecoder()
      ensures fits ==>
                && (decoder.readyToDecode <==> obtained >= published[uuid].deal.treshold)
                && (decoder.readyToDecode ==>
                      Decode(decoder.DecoderState(), me.lib) == Success(published[uuid].deal.raw))
                && (decoder.readyToDecode <==>
                      Serving(stores, me, uuid, order, up, |order|) >= published[uuid].deal.treshold)
                && (!decoder.readyToDecode ==> obtained == Serving(stores, me, uuid, order, up, |order|))
      ensures !fits ==> !decoder.readyToDecode && obtained == 0
    {
      hide WorldValid, CollectedFrom, PublicationShape, Decode, Decoder.Valid, HonestState, Serves, GetShare;
      hide ShareFor, Populate;
      hide Shamir.ShamirSecret.IsDecoder, NothingFits;
      ghost var asked: set<string>, taken: seq<nat>, found := {}, [], stores;
      ghost var w, st := W(), decoder.DecoderState();
      ghost var pub := if fits then published[uuid] else Publication(Deal([], [], "", "", "", "", 0, 0, ""), map[], {});
      WorldFields();
      if fits {
        PublishedShape(w, uuid, me);
        CollectionResult(st, pub, uuid, me, asked, taken);
      }
      obtained := 0;
      var i := 0;
      while i < |order|
        invariant i <= |order| && decoder.IsDecoder() && stores == found && obtained == |taken|
        invariant forall j :: i <= j < |order| ==> order[j] !in asked
        invariant fits ==> CollectedFrom(decoder.DecoderState(), pub, asked, taken)
        invariant fits ==> obtained == Serving(found, me, uuid, order, up, i)
        invariant fits ==> (decoder.readyToDecode <==> obtained >= pub.deal.treshold)
        invariant !fits ==> decoder.DecoderState() == st && obtained == 0
      {
        if decoder.readyToDecode {
          break;
        }
        var share := RetrieveShare(order[i], uuid, up[i]);
        if share == None {
          if fits {
            AskMore(decoder.DecoderState(), pub, asked, asked + {order[i]}, taken);
          }
        } else {
          if fits {
            ServedShareIsOwn(w, me, uuid, order[i]);
          } else {
            DoesNotFit(found, me, uuid, st, order[i]);
          }
          var answer := TakeShare(decoder, share.value, fits, pub, uuid, me, asked, taken, order[i]);
          if answer.Success? {
            taken := taken + [pub.seats[order[i]]];
            obtained := obtained + 1;
          }
        }
        asked := asked + {order[i]};
        i := i + 1;
      }
      if fits {
        ServingMonotone(found, me, uuid, order, up, i, |order|);
        CollectionResult(decoder.DecoderState(), pub, uuid, me, asked, taken);
      }
    }

    /** No share that any peer serves under the uuid is acceptable to the decoder. */
    static ghost predicate NothingFits(stores: map<string, Store>, me: Self, uuid: string, st: State)
    {
      SameLength(st.rows) && forall p :: Serves(stores, me, uuid, p) ==>
        Populate(st, GetShare(stores[p], uuid, me.commonName).share).Failure?
    }

    static lemma DoesNotFit(stores: map<string, Store>, me: Self, uuid: string, st: State, p: string)
      requires NothingFits(stores, me, uuid, st) && Serves(stores, me, uuid, p)
      ensures SameLength(st.rows) && Populate(st, GetShare(stores[p], uuid, me.commonName).share).Failure?
    {
    }

    lemma WorldFields()
      ensures W().stores == stores && W().published == published
    {
    }

    /** get-secret. It fails to look the secret up exactly if its own server is not reachable, refuses
        its certificate or has no record of the name. Otherwise it returns the bytes of the publication
        the record names exactly if at least treshold different peers among those asked are reachable and
        serve a share, and reports how many there were if not. */
    method GetSecretCmd(name: string, lookupReachable: bool, order: seq<string>, up: seq<bool>)
      returns (r: Result<seq<byte>, GetError>)
      requires WorldValid(W(), me) && |order| == |up| && NoRepeats(order)
      ensures r == if lookupReachable then Retrieve(W(), me, name, order, up) else Failure(LookupFailed)
      ensures r == Failure(LookupFailed) <==>
                !lookupReachable || !OwnerMatches(me.commonName, me.owner) || name !in records.memory
      ensures r != Failure(LookupFailed) ==>
                var rec := records.memory[name];
                var serving := ServingPeers(stores, me, rec.uuid, Asked(order, up, |order|));
                && rec.uuid in published && published[rec.uuid].deal.name == name
                && (r.Success? <==> |serving| >= rec.treshold)
                && (r.Success? ==> r.value == published[rec.uuid].deal.raw)
                && (r.Failure? ==> r.error == NotEnough(|serving|, rec.treshold))
    {
      hide WorldValid, PublicationShape, CollectedFrom, Decode, OwnerMatches;
      var ownRecord := LookUp(name, lookupReachable);
      if ownRecord == None {
        return Failure(LookupFailed);
      }
      var rec := ownRecord.value;
      RecordFacts(W(), me, name);
      ServingPeersCount(stores, me, rec.uuid, order, up, |order|);
      var decoder := new Shamir.ShamirSecret(name, me.owner, rec.sharesSaved, rec.treshold, "");
      NothingCollected(decoder.DecoderState(), published[rec.uuid]);
      var obtained := AskPeers(decoder, rec.uuid, order, up, true);
      if !decoder.readyToDecode {
        return Failure(NotEnough(obtained, rec.treshold));
      }
      var secret := decoder.DecodeSecret(me.lib);
      return Success(secret.value);
    }

    /** The entries name a publication of this host, under its name or none. */
    ghost predicate Fits(key1: Initiator.Key1Config)
      reads this
    {
      key1.uuid in published && key1.name in {"", published[key1.uuid].deal.name}
    }

    /** Entries that name no publication, or another secret than the one published, get nothing. */
    lemma UnfittingGetsNothing(key1: Initiator.Key1Config, st: State)
      requires WorldValid(W(), me) && !Fits(key1) && Decoder.Valid(st) && st.rows == [] && st.name == key1.name
      ensures NothingFits(stores, me, key1.uuid, st)
    {
      hide PublicationShape, Populate, Decoder.Valid;
      ValidRows(st);
      forall p | Serves(stores, me, key1.uuid, p)
        ensures Populate(st, GetShare(stores[p], key1.uuid, me.commonName).share).Failure?
      {
        OnlyPublishedIsServed(W(), me, key1.uuid, p);
        ServedShareIsOwn(W(), me, key1.uuid, p);
        OtherNameRejected(st, published[key1.uuid], key1.uuid, me, p);
      }
    }

    /** get-key1: the same single pass for whatever the configuration names. */
    method GetKey1Cmd(metadata: Option<Initiator.Key1Config>, order: seq<string>, up: seq<bool>)
      returns (r: Result<seq<byte>, GetError>)
      requires WorldValid(W(), me) && |order| == |up| && NoRepeats(order)
      ensures metadata == None ==> r == Failure(LookupFailed)
      ensures metadata.Some? && !ValidParameters(metadata.value.shares, metadata.value.treshold) ==>
                r == Failure(ParametersRefused)
      ensures metadata.Some? && ValidParameters(metadata.value.shares, metadata.value.treshold)
              && Fits(metadata.value) ==>
                var deal := published[metadata.value.uuid].deal;
                var n := |ServingPeers(stores, me, metadata.value.uuid, Asked(order, up, |order|))|;
                r == if n >= deal.treshold then Success(deal.raw) else Failure(NotEnough(n, metadata.value.treshold))
      ensures metadata.Some? && ValidParameters(metadata.value.shares, metadata.value.treshold)
              && !Fits(metadata.value) ==>
                r == Failure(NotEnough(0, metadata.value.treshold))
    {
      hide WorldValid, PublicationShape, CollectedFrom, Decode, NothingFits, Decoder.Valid;
      if metadata == None {
        return Failure(LookupFailed);
      }
      var key1 := metadata.value;
      var created := Shamir.ShamirSecret.New(key1.name, me.owner, key1.shares, key1.treshold, "");
      if created.Failure? {
        return Failure(ParametersRefused);
      }
      var decoder := created.value;
      ServingPeersCount(stores, me, key1.uuid, order, up, |order|);
      if Fits(key1) {
        PublishedShape(W(), key1.uuid, me);
        OwnPublication(published[key1.uuid], key1.uuid, me);
        NothingCollected(decoder.DecoderState(), published[key1.uuid]);
      } else {
        UnfittingGetsNothing(key1, decoder.DecoderState());
      }
      var obtained := AskPeers(decoder, key1.uuid, order, up, Fits(key1));
      if !decoder.readyToDecode {
        return Failure(NotEnough(obtained, key1.treshold));
      }
      var secret := decoder.DecodeSecret(me.lib);
      return Success(secret.value);
    }
  }

  /** A peer hands this host only shares this host has published. */
  lemma OnlyPublishedIsServed(w: World, me: Self, uuid: string, p: string)
    requires WorldValid(w, me) && Serves(w.stores, me, uuid, p)
    ensures uuid in w.published
  {
  }
}
