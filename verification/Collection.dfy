/** The state of a decoder while the shares of one publication are collected from its peers. */
module Collection {
  import opened Wrappers
  import opened Shares
  import opened Decoder
  import opened Dealing
  import opened ShareStore
  import opened Network
  import opened Retrieval
  import Shamir

  /** The decoder has accepted the shares of the seats listed, all of different peers among those
      asked so far. */
  ghost predicate CollectedFrom(st: State, pub: Publication, asked: set<string>, taken: seq<nat>) {
    && HonestState(st, pub.deal, taken)
    && forall a :: 0 <= a < |taken| ==> SeatAmong(pub, asked, taken[a])
  }

  ghost predicate SeatAmong(pub: Publication, asked: set<string>, seat: nat) {
    exists p :: p in asked && p in pub.seats && pub.seats[p] == seat
  }

  lemma NothingCollected(st: State, pub: Publication)
    requires st.rows == [] && !st.ready && ValidParameters(st.shares, st.treshold)
    requires (st.name == "" || st.name == pub.deal.name) && (st.owner == "" || st.owner == pub.deal.owner)
    ensures CollectedFrom(st, pub, {}, [])
  {
    assert Rows(pub.deal, []) == [];
  }

  lemma AskMore(st: State, pub: Publication, asked: set<string>, more: set<string>, taken: seq<nat>)
    requires CollectedFrom(st, pub, asked, taken) && asked <= more
    ensures CollectedFrom(st, pub, more, taken)
  {
    hide HonestState;
    forall a | 0 <= a < |taken|
      ensures SeatAmong(pub, more, taken[a])
    {
      assert SeatAmong(pub, asked, taken[a]);
    }
  }

  /** The share of a peer not asked before is accepted. */
  lemma CollectOneMore(st: State, pub: Publication, uuid: string, me: Self, asked: set<string>, taken: seq<nat>,
                       p: string)
    requires PublicationShape(pub, uuid, me) && CollectedFrom(st, pub, asked, taken)
    requires p in pub.seats && p !in asked
    ensures Valid(st) && Populate(st, ShareFor(pub, p)).Success?
    ensures CollectedFrom(Submit(st, ShareFor(pub, p)), pub, asked + {p}, taken + [pub.seats[p]])
  {
    var seat := pub.seats[p];
    forall a | 0 <= a < |taken|
      ensures taken[a] != seat
    {
      assert SeatAmong(pub, asked, taken[a]);
    }
    HonestShareAccepted(st, pub.deal, me.lib, taken, seat);
    hide HonestState, ValidDeal, Populate, Valid, HasParticipant;
    assert SeatAmong(pub, asked + {p}, seat);
    forall a | 0 <= a < |taken|
      ensures SeatAmong(pub, asked + {p}, taken[a])
    {
      assert SeatAmong(pub, asked, taken[a]);
    }
  }

  /** populate_decoder on the share of a peer not asked before: a share of the publication is taken,
      and where the decoder's parameters do not fit what is served, nothing changes. */
  method TakeShare(decoder: Shamir.ShamirSecret, share: Share, ghost fits: bool, ghost pub: Publication,
                   ghost uuid: string,
                   ghost me: Self, ghost asked: set<string>, ghost taken: seq<nat>, ghost p: string)
    returns (answer: Result<int, InvalidShare>)
    requires decoder.IsDecoder()
    requires fits ==>
               && PublicationShape(pub, uuid, me) && CollectedFrom(decoder.DecoderState(), pub, asked, taken)
               && p in pub.seats && p !in asked && share == ShareFor(pub, p)
    requires !fits ==> Populate(decoder.DecoderState(), share).Failure?
    modifies decoder
    ensures decoder.IsDecoder() && (answer.Success? <==> fits)
    ensures fits ==> CollectedFrom(decoder.DecoderState(), pub, asked + {p}, taken + [pub.seats[p]])
    ensures fits ==> (decoder.readyToDecode <==> |taken| + 1 >= pub.deal.treshold)
    ensures !fits ==> decoder.DecoderState() == old(decoder.DecoderState())
  {
    if fits {
      CollectOneMore(decoder.DecoderState(), pub, uuid, me, asked, taken, p);
    }
    hide CollectedFrom, PublicationShape, ShareFor;
    answer := decoder.PopulateDecoder(share);
    if fits {
      CollectionResult(decoder.DecoderState(), pub, uuid, me, asked + {p}, taken + [pub.seats[p]]);
    }
  }

  /** A decoder that expects another secret name than the publication's. */
  lemma OtherNameRejected(st: State, pub: Publication, uuid: string, me: Self, p: string)
    requires PublicationShape(pub, uuid, me) && p in pub.seats
    requires Valid(st) && st.rows == [] && st.name != "" && st.name != pub.deal.name
    ensures Populate(st, ShareFor(pub, p)).Failure?
  {
    hide PointsFit, ValidDeal;
  }

  /** Once treshold shares are collected the decoder is ready and decodes to the published bytes. */
  lemma CollectionResult(st: State, pub: Publication, uuid: string, me: Self, asked: set<string>, taken: seq<nat>)
    requires PublicationShape(pub, uuid, me) && CollectedFrom(st, pub, asked, taken)
    ensures Valid(st) && (st.ready <==> |taken| >= pub.deal.treshold) && |st.rows| == |taken|
    ensures st.ready ==> Decode(st, me.lib) == Success(pub.deal.raw)
  {
    DecodeRecovers(st, pub.deal, me.lib, taken);
    hide ValidDeal, Decode;
  }

  lemma ServingMonotone(stores: map<string, Store>, me: Self, uuid: string, order: seq<string>, up: seq<bool>, i: nat,
                        k: nat)
    requires i <= k <= |order| == |up|
    ensures Serving(stores, me, uuid, order, up, i) <= Serving(stores, me, uuid, order, up, k)
    decreases k
  {
    hide Serves;
    if i < k {
      ServingMonotone(stores, me, uuid, order, up, i, k - 1);
    }
  }

  lemma OwnPublication(pub: Publication, uuid: string, me: Self)
    requires PublicationShape(pub, uuid, me)
    ensures pub.deal.owner == me.owner
  {
  }

  /** The facts get-secret starts from. */
  lemma RecordFacts(w: World, me: Self, name: string)
    requires WorldValid(w, me) && name in w.records.memory
    ensures var rec := w.records.memory[name];
      && rec.uuid in w.published && PublicationShape(w.published[rec.uuid], rec.uuid, me)
      && w.published[rec.uuid].deal.name == name && w.published[rec.uuid].deal.owner == me.owner
      && w.published[rec.uuid].deal.treshold == rec.treshold
      && ValidParameters(rec.sharesSaved, rec.treshold)
  {
    assert RecordValid(w, name, w.records.memory[name]);
    assert PublicationValid(w.stores, w.published[w.records.memory[name].uuid], w.records.memory[name].uuid, me);
  }
}
