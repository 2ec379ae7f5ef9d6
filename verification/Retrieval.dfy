/** get-secret on any reachable world, and the round trip over whole runs of the network. */
module Retrieval {
  import opened Wrappers
  import opened Identity
  import opened Dealing
  import opened ByteCodec
  import opened ShareStore
  import opened Network
  import Quorum

  datatype GetError = LookupFailed | ParametersRefused | NotEnough(obtained: nat, treshold: int)

  // ---------- what a collection obtains ----------

  /** The peer answers this host's GET for the uuid with a share. */
  predicate Serves(stores: map<string, Store>, me: Self, uuid: string, p: string) {
    p in stores && GetShare(stores[p], uuid, me.commonName).Found?
  }

  /** How many of the first k peers asked are reachable and hold a share for this host. */
  function Serving(stores: map<string, Store>, me: Self, uuid: string, order: seq<string>, up: seq<bool>,
                   k: nat): (n: nat)
    requires k <= |order| == |up|
    ensures n <= k
  {
    if k == 0 then 0
    else Serving(stores, me, uuid, order, up, k - 1)
         + if up[k - 1] && Serves(stores, me, uuid, order[k - 1]) then 1 else 0
  }

  /** The result of get-secret: the bytes of the recorded publication if at least its treshold of the
      peers asked serve a share, and an explicit failure otherwise. */
  ghost function Retrieve(w: World, me: Self, name: string, order: seq<string>, up: seq<bool>):
    Result<seq<byte>, GetError>
    requires WorldValid(w, me) && |order| == |up|
  {
    if !OwnerMatches(me.commonName, me.owner) || name !in w.records.memory then Failure(LookupFailed)
    else
      var rec := w.records.memory[name];
      var n := Serving(w.stores, me, rec.uuid, order, up, |order|);
      if n >= rec.treshold then Success(w.published[rec.uuid].deal.raw) else Failure(NotEnough(n, rec.treshold))
  }

  ghost predicate NoRepeats(order: seq<string>) {
    forall i, j :: 0 <= i < j < |order| ==> order[i] != order[j]
  }

  /** The peers of a group that were asked and could be reached. */
  function Asked(order: seq<string>, up: seq<bool>, k: nat): (s: set<string>)
    requires k <= |order| == |up|
    ensures forall p :: p in s <==> exists i :: 0 <= i < k && order[i] == p && up[i]
  {
    set i | 0 <= i < k && up[i] :: order[i]
  }

  /** A reachable peer that acknowledged its share serves it. */
  lemma HolderServes(w: World, me: Self, uuid: string, p: string)
    requires WorldValid(w, me) && uuid in w.published && p in w.published[uuid].holders
    requires OwnerMatches(me.commonName, me.owner)
    ensures Serves(w.stores, me, uuid, p)
    ensures PublicationShape(w.published[uuid], uuid, me) && p in w.published[uuid].seats
    ensures GetShare(w.stores[p], uuid, me.commonName) == Found(ShareFor(w.published[uuid], p))
  {
    assert PublicationValid(w.stores, w.published[uuid], uuid, me);
    assert HeldBy(w.published[uuid], uuid, p, w.stores[p], me);
    assert StoreValid(w.stores[p]);
    hide Acceptable, OwnerMatches, ValidDeal, HasParticipant;
  }

  /** Whatever any peer serves under a published uuid is that peer's own share. */
  lemma ServedShareIsOwn(w: World, me: Self, uuid: string, p: string)
    requires WorldValid(w, me) && uuid in w.published && Serves(w.stores, me, uuid, p)
    ensures PublicationShape(w.published[uuid], uuid, me) && p in w.published[uuid].seats
    ensures GetShare(w.stores[p], uuid, me.commonName) == Found(ShareFor(w.published[uuid], p))
  {
    assert PublicationValid(w.stores, w.published[uuid], uuid, me);
    assert OnlyOwnShare(w.published[uuid], uuid, p, w.stores[p], me);
    hide Acceptable, OwnerMatches, ValidDeal, HasParticipant, StoreValid;
  }

  /** At least as many shares are served as acknowledged holders are asked and reachable. */
  lemma {:induction false} HoldersAreServing(w: World, me: Self, uuid: string, order: seq<string>, up: seq<bool>,
                                             k: nat)
    requires WorldValid(w, me) && uuid in w.published && OwnerMatches(me.commonName, me.owner)
    requires k <= |order| == |up|
    ensures Serving(w.stores, me, uuid, order, up, k) >= |Asked(order, up, k) * w.published[uuid].holders|
  {
    hide WorldValid, OwnerMatches, Serves;
    if k > 0 {
      HoldersAreServing(w, me, uuid, order, up, k - 1);
      if up[k - 1] && order[k - 1] in w.published[uuid].holders {
        HolderServes(w, me, uuid, order[k - 1]);
      }
      AskedStep(order, up, k, w.published[uuid].holders);
    }
  }

  lemma AskedStep(order: seq<string>, up: seq<bool>, k: nat, group: set<string>)
    requires 0 < k <= |order| == |up|
    ensures |Asked(order, up, k) * group|
         <= |Asked(order, up, k - 1) * group| + if up[k - 1] && order[k - 1] in group then 1 else 0
  {
    var before, after, p := Asked(order, up, k - 1) * group, Asked(order, up, k) * group, order[k - 1];
    if up[k - 1] && p in group {
      assert after == before + {p};
    } else {
      assert after == before;
    }
  }

  // ---------- the peers that serve ----------

  function ServingPeers(stores: map<string, Store>, me: Self, uuid: string, peers: set<string>): (s: set<string>)
    ensures forall p :: p in s <==> p in peers && Serves(stores, me, uuid, p)
  {
    set p | p in peers && Serves(stores, me, uuid, p)
  }

  lemma ServingPeersGrow(stores: map<string, Store>, me: Self, uuid: string, peers: set<string>, p: string)
    requires p !in peers
    ensures |ServingPeers(stores, me, uuid, peers + {p})|
         == |ServingPeers(stores, me, uuid, peers)| + if Serves(stores, me, uuid, p) then 1 else 0
  {
    hide Serves;
    var before, after := ServingPeers(stores, me, uuid, peers), ServingPeers(stores, me, uuid, peers + {p});
    assert after == if Serves(stores, me, uuid, p) then before + {p} else before;
  }

  lemma {:induction false} ServingPeersCount(stores: map<string, Store>, me: Self, uuid: string, order: seq<string>,
                                             up: seq<bool>, k: nat)
    requires NoRepeats(order) && k <= |order| == |up|
    ensures |ServingPeers(stores, me, uuid, Asked(order, up, k))| == Serving(stores, me, uuid, order, up, k)
  {
    hide Serves, ServingPeers;
    if k == 0 {
      assert ServingPeers(stores, me, uuid, Asked(order, up, k)) == {};
    } else {
      hide Asked;
      ServingPeersCount(stores, me, uuid, order, up, k - 1);
      AskedGrows(order, up, k);
      if up[k - 1] {
        ServingPeersGrow(stores, me, uuid, Asked(order, up, k - 1), order[k - 1]);
      } else {
        assert Asked(order, up, k) == Asked(order, up, k - 1);
      }
    }
  }

  lemma AskedGrows(order: seq<string>, up: seq<bool>, k: nat)
    requires NoRepeats(order) && 0 < k <= |order| == |up|
    ensures Asked(order, up, k) == Asked(order, up, k - 1) + if up[k - 1] then {order[k - 1]} else {}
    ensures order[k - 1] !in Asked(order, up, k - 1)
  {
  }

  // ---------- get-secret in a valid world ----------

  /** For every recorded name: get-secret returns exactly the bytes of the publication the record names
      as soon as treshold of the peers that acknowledged it are asked and reachable, and an explicit
      failure when fewer than treshold peers serve a share. */
  lemma RecordedIsRetrievable(w: World, me: Self, name: string, order: seq<string>, up: seq<bool>)
    requires WorldValid(w, me) && name in w.records.memory
    requires OwnerMatches(me.commonName, me.owner) && |order| == |up|
    ensures var rec := w.records.memory[name];
      && rec.uuid in w.published && w.published[rec.uuid].deal.name == name
      && (|Asked(order, up, |order|) * w.published[rec.uuid].holders| >= rec.treshold
          ==> Retrieve(w, me, name, order, up) == Success(w.published[rec.uuid].deal.raw))
      && (Serving(w.stores, me, rec.uuid, order, up, |order|) < rec.treshold
          ==> Retrieve(w, me, name, order, up).Failure?)
  {
    hide PublicationValid, StoresValid;
    var rec := w.records.memory[name];
    assert RecordValid(w, name, rec);
    HoldersAreServing(w, me, rec.uuid, order, up, |order|);
  }

  /** The publishing half of store-secret got no recording: too few acknowledgements, or the record
      request did not get through. */
  ghost predicate NotRecorded(w: World, me: Self, deal: Deal, targets: seq<string>, attempts: seq<Attempt>,
                              recording: Attempt)
    requires Publishable(w, me, deal, targets) && |targets| == |attempts|
  {
    SendAll(w, me, deal, targets, attempts, |targets|).1 < deal.treshold || recording.Unreachable?
  }

  /** A store-secret that was not recorded leaves every earlier secret retrievable from its holders. */
  lemma UnrecordedPublishKeepsPrevious(w: World, me: Self, deal: Deal, targets: seq<string>, attempts: seq<Attempt>,
                                       recording: Attempt, name: string, order: seq<string>, up: seq<bool>)
    requires WorldValid(w, me) && Publishable(w, me, deal, targets) && |targets| == |attempts|
    requires NotRecorded(w, me, deal, targets, attempts, recording)
    requires name in w.records.memory && OwnerMatches(me.commonName, me.owner) && |order| == |up|
    ensures w.records.memory[name].uuid in w.published
    ensures WorldValid(Publish(w, me, deal, targets, attempts, recording), me)
    ensures var (w', rec) := (Publish(w, me, deal, targets, attempts, recording), w.records.memory[name]);
      |Asked(order, up, |order|) * w.published[rec.uuid].holders| >= rec.treshold ==>
        Retrieve(w', me, name, order, up) == Success(w.published[rec.uuid].deal.raw)
  {
    hide WorldValid, Publishable, SendAll, Retrieve;
    var w' := Publish(w, me, deal, targets, attempts, recording);
    PublishKeepsWorld(w, me, deal, targets, attempts, recording);
    UnrecordedKeepsRecords(w, me, deal, targets, attempts, recording);
    RecordedIsRetrievable(w, me, name, order, up);
    RecordedIsRetrievable(w', me, name, order, up);
  }

  lemma UnrecordedKeepsRecords(w: World, me: Self, deal: Deal, targets: seq<string>, attempts: seq<Attempt>,
                               recording: Attempt)
    requires WorldValid(w, me) && Publishable(w, me, deal, targets) && |targets| == |attempts|
    requires NotRecorded(w, me, deal, targets, attempts, recording)
    ensures Publish(w, me, deal, targets, attempts, recording).records == w.records
  {
    hide WorldValid, SendAll, Progress, OwnerMatches;
    PublishableTargets(w, me, deal, targets);
    SendAllKeepsWorld(w, me, deal, targets, attempts, |targets|);
  }

  // ---------- whose shares are accepted ----------

  /** As soon as some peer can save and answer, a host gets acknowledgements exactly if its name in
      hosts.json is the host label of its certificate, up to case. */
  lemma PublishesIffOwnerMatches(w: World, me: Self, deal: Deal, targets: seq<string>, attempts: seq<Attempt>, k: nat)
    requires WorldValid(w, me) && Publishable(w, me, deal, targets) && k <= |targets| == |attempts|
    ensures Saves(attempts, k) > 0 ==>
              (SendAll(w, me, deal, targets, attempts, k).1 > 0 <==> OwnerMatches(me.commonName, me.owner))
    ensures Saves(attempts, k) == 0 ==> SendAll(w, me, deal, targets, attempts, k).1 == 0
  {
    hide SendAll, WorldValid, Publishable, OwnerMatches;
    AcknowledgedExactly(w, me, deal, targets, attempts, k);
  }

  /** A host whose name in hosts.json has a dot gets no acknowledgement at all, whatever its
      certificate, while under the label of its certificate it gets them all. */
  lemma DottedNamePublishesNothing(w: World, me: Self, deal: Deal, targets: seq<string>, attempts: seq<Attempt>, k: nat)
    requires WorldValid(w, me) && Publishable(w, me, deal, targets) && k <= |targets| == |attempts|
    ensures '.' in me.owner ==> SendAll(w, me, deal, targets, attempts, k).1 == 0
    ensures me.commonName.Some? && me.owner == HostLabel(me.commonName.value) ==>
              SendAll(w, me, deal, targets, attempts, k).1 == Saves(attempts, k)
  {
    if OwnerMatches(me.commonName, me.owner) {
      OwnerIsBareLabel(me.commonName, me.owner);
    }
    hide SendAll, WorldValid, Publishable;
    AcknowledgedExactly(w, me, deal, targets, attempts, k);
  }
}
