/** Boot-time collection of KEY1 (initiator.py): rounds over the peers that have not contributed,
    until the decoder is ready. The rounds that happen are given; the program itself never stops. */
module Initiator {
  import opened Wrappers
  import opened ByteCodec
  import opened FieldSharing
  import opened Shares
  import opened Decoder
  import opened ShareStore
  import opened Network
  import opened Retrieval
  import opened Collection
  import Shamir
  import Quorum

  /** The key1-* entries of config.ini. */
  datatype Key1Config = Key1Config(name: string, uuid: string, treshold: int, shares: int)

  datatype CollectError =
    | NoMetadata | NoPeers | InvalidParameters
    | StillCollecting(contributed: nat)
    | DecodingFailed(error: ReconstructionError)

  /** One round: the shuffled order in which peers come up, and what the peers that can be reached
      and hold a share answer. */
  datatype Round = Round(order: seq<string>, answers: map<string, Share>)

  ghost predicate RoundOver(round: Round, peers: seq<string>) {
    && NoRepeats(round.order) && (forall p :: p in round.order <==> p in peers)
    && forall p :: p in round.answers ==> p in peers
  }

  /** Every answer is the answering peer's own share of the publication. */
  ghost predicate HonestRound(round: Round, pub: Publication, uuid: string, me: Self) {
    && PublicationShape(pub, uuid, me)
    && forall p :: p in round.answers ==> p in pub.seats && round.answers[p] == ShareFor(pub, p)
  }

  /** The peers that answered in one of the first k rounds. */
  function Answerers(rounds: seq<Round>, k: nat): (s: set<string>)
    requires k <= |rounds|
  {
    if k == 0 then {} else Answerers(rounds, k - 1) + rounds[k - 1].answers.Keys
  }

  lemma {:induction false} AnsweredMonotone(rounds: seq<Round>, i: nat, k: nat)
    requires i <= k <= |rounds|
    ensures Answerers(rounds, i) <= Answerers(rounds, k)
    decreases k
  {
    if i < k {
      AnsweredMonotone(rounds, i, k - 1);
    }
  }

  function Remaining(order: seq<string>, contributed: set<string>): (c: seq<string>)
    ensures forall p :: p in c <==> p in order && p !in contributed
    ensures NoRepeats(order) ==> NoRepeats(c)
  {
    if order == [] then []
    else
      var rest := Remaining(order[1..], contributed);
      assert NoRepeats(order) ==> NoRepeats(order[1..]) && order[0] !in order[1..];
      if order[0] in contributed then rest else [order[0]] + rest
  }

  /** What the collection knows at any moment, whatever the answers are. */
  ghost predicate Collecting(st: State, peers: seq<string>, contributed: set<string>) {
    && Valid(st) && |st.rows| == |contributed| && (forall p :: p in contributed ==> p in peers)
  }

  /** What it knows besides when all answers are honest. */
  ghost predicate CollectingHonestly(st: State, pub: Publication, contributed: set<string>, taken: seq<nat>,
                                     bound: set<string>) {
    && CollectedFrom(st, pub, contributed, taken) && |taken| == |contributed| && contributed <= bound
    && (st.ready <==> |taken| >= pub.deal.treshold)
  }

  /** One round over the peers that have not contributed yet. Each peer contributes at most once, the
      decoder holds one row per contributor, and with honest answers every answering peer has
      contributed afterwards unless the decoder became ready. */
  method CollectRound(decoder: Shamir.ShamirSecret, round: Round, peers: seq<string>, before: set<string>,
                      ghost pub: Publication, ghost uuid: string, ghost me: Self, ghost taken0: seq<nat>,
                      ghost bound: set<string>, ghost start: State, ghost offered0: seq<Share>)
    returns (contributed: set<string>, ghost taken: seq<nat>, ghost offered: seq<Share>)
    requires decoder.IsDecoder() && Collecting(decoder.DecoderState(), peers, before) && RoundOver(round, peers)
    requires Valid(start) && decoder.DecoderState() == Decoder.Run(start, offered0)
    modifies decoder
    ensures decoder.DecoderState() == Decoder.Run(start, offered)
    ensures forall sh :: sh in offered ==> sh in offered0 || sh in round.answers.Values
    ensures decoder.IsDecoder() && Collecting(decoder.DecoderState(), peers, contributed) && before <= contributed
    ensures HonestRound(round, pub, uuid, me) &&
            CollectingHonestly(old(decoder.DecoderState()), pub, before, taken0, bound) ==>
              CollectingHonestly(decoder.DecoderState(), pub, contributed, taken, bound + round.answers.Keys)
              && (!decoder.readyToDecode ==> contributed == before + round.answers.Keys)
  {
    hide Collecting, CollectingHonestly, HonestRound, Submit, Populate, Shamir.ShamirSecret.IsDecoder, Remaining;
    hide Valid, Decoder.Run;
    ghost var honest := HonestRound(round, pub, uuid, me) &&
        CollectingHonestly(decoder.DecoderState(), pub, before, taken0, bound);
    ghost var bound' := bound + round.answers.Keys;
    contributed, taken, offered := before, taken0, offered0;
    var candidates := Remaining(round.order, before);
    BoundGrows(decoder.DecoderState(), pub, before, taken, bound, bound');
    var i := 0;
    while i < |candidates|
      invariant i <= |candidates| && decoder.IsDecoder() && Collecting(decoder.DecoderState(), peers, contributed)
      invariant before <= contributed <= before + round.answers.Keys
      invariant forall j :: i <= j < |candidates| ==> candidates[j] !in contributed
      invariant decoder.DecoderState() == Decoder.Run(start, offered)
      invariant forall sh :: sh in offered ==> sh in offered0 || sh in round.answers.Values
      invariant honest ==> CollectingHonestly(decoder.DecoderState(), pub, contributed, taken, bound')
      invariant honest ==> forall j :: 0 <= j < i && candidates[j] in round.answers ==> candidates[j] in contributed
    {
      if decoder.readyToDecode {
        return;
      }
      var peer := candidates[i];
      if peer in round.answers {
        if honest {
          HonestOffer(decoder.DecoderState(), pub, uuid, me, round, contributed, taken, bound', peer);
        }
        RunOneMore(start, offered, round.answers[peer]);
        offered := offered + [round.answers[peer]];
        var accepted := Offer(decoder, round.answers[peer], peers, contributed, peer);
        if accepted {
          contributed := contributed + {peer};
          if honest {
            taken := taken + [pub.seats[peer]];
          }
        }
      }
      i := i + 1;
    }
  }

  lemma BoundGrows(st: State, pub: Publication, contributed: set<string>, taken: seq<nat>, bound: set<string>,
                   bound': set<string>)
    requires bound <= bound'
    ensures CollectingHonestly(st, pub, contributed, taken, bound) ==>
              CollectingHonestly(st, pub, contributed, taken, bound')
  {
    hide CollectedFrom;
  }

  /** An honest answer of a peer that has not contributed is accepted. */
  lemma HonestOffer(st: State, pub: Publication, uuid: string, me: Self, round: Round,
                    contributed: set<string>, taken: seq<nat>, bound: set<string>, p: string)
    requires HonestRound(round, pub, uuid, me) && CollectingHonestly(st, pub, contributed, taken, bound)
    requires p in round.answers && p !in contributed && p in bound
    ensures p in pub.seats && Valid(st) && Populate(st, round.answers[p]).Success?
    ensures CollectingHonestly(Submit(st, round.answers[p]), pub, contributed + {p}, taken + [pub.seats[p]], bound)
  {
    CollectOneMore(st, pub, uuid, me, contributed, taken, p);
    hide CollectedFrom, PublicationShape, Populate, Valid, Decode;
    CollectionResult(Submit(st, round.answers[p]), pub, uuid, me, contributed + {p}, taken + [pub.seats[p]]);
  }

  method Offer(decoder: Shamir.ShamirSecret, share: Share, ghost peers: seq<string>, ghost contributed: set<string>,
               ghost peer: string)
    returns (accepted: bool)
    requires decoder.IsDecoder() && Collecting(decoder.DecoderState(), peers, contributed) && peer in peers &&
             peer !in contributed
    modifies decoder
    ensures decoder.IsDecoder()
    ensures Collecting(decoder.DecoderState(), peers, if accepted then contributed + {peer} else contributed)
    ensures decoder.DecoderState() == Submit(old(decoder.DecoderState()), share)
    ensures accepted <==> Populate(old(decoder.DecoderState()), share).Success?
  {
    SubmitKeepsValid(decoder.DecoderState(), share);
    hide Valid;
    var answer := decoder.PopulateDecoder(share);
    return answer.Success?;
  }

  /** The errors `_collect_key1` raises before it asks anyone. */
  function Refused(metadata: Option<Key1Config>, peers: seq<string>): Option<CollectError> {
    if metadata == None then Some(NoMetadata)
    else if peers == [] then Some(NoPeers)
    else if !ValidParameters(metadata.value.shares, metadata.value.treshold) then Some(InvalidParameters)
    else None
  }

  /** A decoder that expects the configured name and this host, after the given submissions, all of them
      answers of some round. */
  ghost predicate Offered(key1: Key1Config, owner: string, rounds: seq<Round>, offered: seq<Share>, end: State)
    requires ValidParameters(key1.shares, key1.treshold)
  {
    && end == Decoder.Run(Fresh(key1.name, owner, "", key1.shares, key1.treshold), offered)
    && forall sh :: sh in offered ==> exists k :: 0 <= k < |rounds| && sh in rounds[k].answers.Values
  }

  /** What the collection reports for the state of its decoder. */
  ghost predicate Reports(r: Result<seq<byte>, CollectError>, end: State, lib: Library)
    requires Valid(end)
  {
    match r
    case Success(key1) => end.ready && Decode(end, lib) == Success(key1)
    case Failure(DecodingFailed(e)) => end.ready && Decode(end, lib) == Failure(e)
    case Failure(StillCollecting(n)) => !end.ready && |end.rows| == n
    case Failure(_) => false
  }

  /** `_collect_key1`. Whatever the answers are, it reports what a decoder makes of some of them: the bytes
      if it decodes them, the error if they do not combine, and otherwise how many it accepted. With
      honest answers it returns the published key as soon as treshold different
      peers have answered in some round, whichever rounds those are, and keeps collecting otherwise. */
  method CollectKey1(metadata: Option<Key1Config>, owner: string, peers: seq<string>, rounds: seq<Round>, lib: Library,
                     ghost pub: Publication, ghost me: Self)
    returns (r: Result<seq<byte>, CollectError>)
    requires forall k :: 0 <= k < |rounds| ==> RoundOver(rounds[k], peers)
    ensures metadata == None <==> r == Failure(NoMetadata)
    ensures metadata.Some? && peers == [] <==> r == Failure(NoPeers)
    ensures metadata.Some? && peers != [] && !ValidParameters(metadata.value.shares, metadata.value.treshold) <==>
              r == Failure(InvalidParameters)
    ensures Refused(metadata, peers).None? ==>
              exists offered, end :: Offered(metadata.value, owner, rounds, offered, end) && Valid(end) &&
                     Reports(r, end, lib)
    ensures Refused(metadata, peers).None? && HonestCollection(metadata.value, owner, rounds, pub, me) &&
            lib == me.lib ==>
              r == if |Answerers(rounds, |rounds|)| >= pub.deal.treshold then Success(pub.deal.raw)
                   else Failure(StillCollecting(|Answerers(rounds, |rounds|)|))
  {
    if metadata == None {
      return Failure(NoMetadata);
    }
    if peers == [] {
      return Failure(NoPeers);
    }
    var key1 := metadata.value;
    var created := Shamir.ShamirSecret.New(key1.name, owner, key1.shares, key1.treshold, "");
    if created.Failure? {
      return Failure(InvalidParameters);
    }
    var decoder := created.value;
    hide RoundOver, HonestRound, PublicationShape, Decode, Decoder.Valid, Offered, Decoder.Run;
    DecoderIsValid(decoder);
    ghost var honest := HonestCollection(key1, owner, rounds, pub, me) && lib == me.lib;
    ghost var start := decoder.DecoderState();
    var contributed, offered := CollectRounds(decoder, peers, rounds, pub, key1.uuid, me, honest);
    DecoderIsValid(decoder);
    ghost var end := decoder.DecoderState();
    OfferedFrom(key1, owner, rounds, offered, start, end);
    if !decoder.readyToDecode {
      r := Failure(StillCollecting(|contributed|));
      assert Reports(r, end, lib);
      return;
    }
    var secret := decoder.DecodeSecret(lib);
    r := if secret.Failure? then Failure(DecodingFailed(secret.error)) else Success(secret.value);
    assert Reports(r, end, lib);
  }

  lemma OfferedFrom(key1: Key1Config, owner: string, rounds: seq<Round>, offered: seq<Share>, start: State, end: State)
    requires ValidParameters(key1.shares, key1.treshold)
    requires start == Fresh(key1.name, owner, "", key1.shares, key1.treshold) && Valid(start)
    requires end == Decoder.Run(start, offered)
    requires forall sh :: sh in offered ==> exists k :: 0 <= k < |rounds| && sh in rounds[k].answers.Values
    ensures Offered(key1, owner, rounds, offered, end)
  {
  }

  /** The rounds, until the decoder is ready or the given ones are over. */
  method CollectRounds(decoder: Shamir.ShamirSecret, peers: seq<string>, rounds: seq<Round>,
                       ghost pub: Publication, ghost uuid: string, ghost me: Self, ghost honest: bool)
    returns (contributed: set<string>, ghost offered: seq<Share>)
    requires decoder.IsDecoder() && decoder.decodingParticipantsKeys == []
    requires forall k :: 0 <= k < |rounds| ==> RoundOver(rounds[k], peers)
    requires honest ==>
               PublicationShape(pub, uuid, me) && decoder.name == pub.deal.name && decoder.owner == pub.deal.owner
    requires honest ==> forall k :: 0 <= k < |rounds| ==> HonestRound(rounds[k], pub, uuid, me)
    modifies decoder
    ensures decoder.IsDecoder() && |decoder.decodingParticipantsKeys| == |contributed|
    ensures Valid(old(decoder.DecoderState())) &&
            decoder.DecoderState() == Decoder.Run(old(decoder.DecoderState()), offered)
    ensures forall sh :: sh in offered ==> exists k :: 0 <= k < |rounds| && sh in rounds[k].answers.Values
    ensures honest ==> (decoder.readyToDecode <==> |Answerers(rounds, |rounds|)| >= pub.deal.treshold)
    ensures honest && decoder.readyToDecode ==> Decode(decoder.DecoderState(), me.lib) == Success(pub.deal.raw)
    ensures honest && !decoder.readyToDecode ==> contributed == Answerers(rounds, |rounds|)
  {
    hide Collecting, CollectingHonestly, HonestRound, Shamir.ShamirSecret.IsDecoder, Decode, RoundOver;
    hide PublicationShape, Decoder.Run, Valid;
    DecoderIsValid(decoder);
    ghost var start := decoder.DecoderState();
    StartCollecting(start, pub, uuid, me, peers, honest);
    contributed, offered := {}, [];
    NothingSubmitted(start, offered);
    ghost var taken: seq<nat> := [];
    var k := 0;
    while k < |rounds| && !decoder.readyToDecode
      invariant k <= |rounds| && decoder.IsDecoder() && Collecting(decoder.DecoderState(), peers, contributed)
      invariant honest ==> CollectingHonestly(decoder.DecoderState(), pub, contributed, taken, Answerers(rounds, k))
      invariant honest && !decoder.readyToDecode ==> contributed == Answerers(rounds, k)
      invariant decoder.DecoderState() == Decoder.Run(start, offered)
      invariant forall sh :: sh in offered ==> exists j :: 0 <= j < k && sh in rounds[j].answers.Values
    {
      contributed, taken, offered := CollectRound(decoder, rounds[k], peers, contributed, pub, uuid, me, taken,
                                                  Answerers(rounds, k), start, offered);
      k := k + 1;
    }
    OneRowEach(decoder.DecoderState(), peers, contributed);
    if honest {
      EndCollecting(decoder.DecoderState(), pub, uuid, me, rounds, k, contributed, taken);
    }
  }

  lemma NothingSubmitted(st: State, submissions: seq<Share>)
    requires Valid(st) && submissions == []
    ensures Decoder.Run(st, submissions) == st
  {
  }

  lemma DecoderIsValid(decoder: Shamir.ShamirSecret)
    requires decoder.IsDecoder()
    ensures Valid(decoder.DecoderState())
  {
  }

  lemma OneRowEach(st: State, peers: seq<string>, contributed: set<string>)
    requires Collecting(st, peers, contributed)
    ensures |st.rows| == |contributed|
  {
  }

  /** The configuration names the publication and every answer is honest. */
  ghost predicate HonestCollection(key1: Key1Config, owner: string, rounds: seq<Round>, pub: Publication, me: Self)
  {
    && PublicationShape(pub, key1.uuid, me)
    && pub.deal.name == key1.name && pub.deal.owner == owner
    && forall k :: 0 <= k < |rounds| ==> HonestRound(rounds[k], pub, key1.uuid, me)
  }

  lemma StartCollecting(st: State, pub: Publication, uuid: string, me: Self, peers: seq<string>, honest: bool)
    requires Valid(st) && st.rows == []
    requires honest ==> PublicationShape(pub, uuid, me) && st.name == pub.deal.name && st.owner == pub.deal.owner
    ensures Collecting(st, peers, {})
    ensures honest ==> CollectingHonestly(st, pub, {}, [], {})
  {
    if honest {
      NothingCollected(st, pub);
      hide CollectedFrom, PublicationShape, Valid, Decode;
      CollectionResult(st, pub, uuid, me, {}, []);
    }
  }

  lemma EndCollecting(st: State, pub: Publication, uuid: string, me: Self, rounds: seq<Round>, k: nat,
                      contributed: set<string>, taken: seq<nat>)
    requires k <= |rounds| && PublicationShape(pub, uuid, me)
    requires CollectingHonestly(st, pub, contributed, taken, Answerers(rounds, k))
    requires !st.ready ==> k == |rounds| && contributed == Answerers(rounds, k)
    ensures st.ready <==> |Answerers(rounds, |rounds|)| >= pub.deal.treshold
    ensures Valid(st) && (st.ready ==> Decode(st, me.lib) == Success(pub.deal.raw))
  {
    AnsweredMonotone(rounds, k, |rounds|);
    Quorum.SubsetSize(contributed, Answerers(rounds, |rounds|));
    CollectionResult(st, pub, uuid, me, contributed, taken);
  }

  // ---------- where honest rounds come from ----------

  /** The round in which the peers serve what their stores hold in the world w. */
  ghost function RoundIn(w: World, me: Self, uuid: string, order: seq<string>, up: seq<bool>): (r: Round)
    requires |order| == |up|
    ensures r.order == order
  {
    Round(order, map p | p in Asked(order, up, |order|) && Serves(w.stores, me, uuid, p)
                   :: GetShare(w.stores[p], uuid, me.commonName).share)
  }

  /** In every valid world, so in every reachable one, the answers are honest. */
  lemma RoundsInValidWorldsAreHonest(w: World, me: Self, uuid: string, order: seq<string>, up: seq<bool>)
    requires WorldValid(w, me) && uuid in w.published && |order| == |up|
    ensures HonestRound(RoundIn(w, me, uuid, order, up), w.published[uuid], uuid, me)
  {
    PublishedShape(w, uuid, me);
    hide WorldValid, PublicationShape, Serves, ShareFor;
    var round := RoundIn(w, me, uuid, order, up);
    forall p | p in round.answers
      ensures p in w.published[uuid].seats && round.answers[p] == ShareFor(w.published[uuid], p)
    {
      ServedShareIsOwn(w, me, uuid, p);
    }
  }

  /** A round answers with as many shares as a single pass over the same peers obtains. */
  lemma RoundServesAsMany(w: World, me: Self, uuid: string, order: seq<string>, up: seq<bool>)
    requires NoRepeats(order) && |order| == |up|
    ensures |RoundIn(w, me, uuid, order, up).answers.Keys| == Serving(w.stores, me, uuid, order, up, |order|)
  {
    ServingPeersCount(w.stores, me, uuid, order, up, |order|);
    assert RoundIn(w, me, uuid, order, up).answers.Keys == ServingPeers(w.stores, me, uuid, Asked(order, up, |order|));
  }

  lemma FirstRoundAnswersEnough(w: World, me: Self, uuid: string, order: seq<string>, up: seq<bool>,
                                rounds: seq<Round>, t: nat)
    requires NoRepeats(order) && |order| == |up| && rounds != [] && rounds[0] == RoundIn(w, me, uuid, order, up)
    requires Serving(w.stores, me, uuid, order, up, |order|) >= t
    ensures |Answerers(rounds, |rounds|)| >= t
  {
    RoundServesAsMany(w, me, uuid, order, up);
    AnsweredMonotone(rounds, 1, |rounds|);
    Quorum.SubsetSize(Answerers(rounds, 1), Answerers(rounds, |rounds|));
    assert Answerers(rounds, 1) == {} + rounds[0].answers.Keys == rounds[0].answers.Keys;
  }
}
