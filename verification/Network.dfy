/** One host's secrets on the network: store-secret publishes shares to peers and records the secret
    locally, get-secret collects them again. Peers and other hosts act in between. */
module Network {
  import opened Wrappers
  import opened Identity
  import opened Shares
  import opened Decoder
  import opened Dealing
  import opened ShareStore

  datatype Record = Record(uuid: string, treshold: int, sharesSaved: int)

  datatype Records = Records(memory: map<string, Record>, disk: map<string, Record>)

  /** A dealing that was sent out: which participant each addressed peer is, and which peers
      acknowledged. */
  datatype Publication = Publication(deal: Deal, seats: map<string, nat>, holders: set<string>)

  /** What becomes of one request: it never arrives, it is answered, or it takes effect and the answer
      is lost. */
  datatype Attempt = Unreachable | Answered(save: SaveOutcome) | AnswerLost(save: SaveOutcome)

  datatype World = World(stores: map<string, Store>, records: Records, published: map<string, Publication>)

  /** The host that owns the secrets: its name in hosts.json and its certificate. */
  datatype Self = Self(owner: string, commonName: Option<string>, lib: Library)

  // ---------- the invariant ----------

  ghost predicate PublicationShape(pub: Publication, uuid: string, me: Self) {
    && ValidDeal(pub.deal, me.lib) && pub.deal.uuid == uuid && pub.deal.owner == me.owner
    && (forall p :: p in pub.seats ==> HasParticipant(pub.deal, pub.seats[p]))
    && (forall p, q :: p in pub.seats && q in pub.seats && p != q ==> pub.seats[p] != pub.seats[q])
    && pub.holders <= pub.seats.Keys
  }

  /** The share of the publication a peer is to hold. */
  function ShareFor(pub: Publication, p: string): Share
    requires p in pub.seats && HasParticipant(pub.deal, pub.seats[p])
  {
    ParticipantShare(pub.deal, pub.seats[p])
  }

  /** Whatever a peer would hand to this host under the uuid is that peer's own share. */
  ghost predicate OnlyOwnShare(pub: Publication, uuid: string, p: string, s: Store, me: Self)
    requires PublicationShape(pub, uuid, me)
  {
    uuid in s.memory && OwnerMatches(me.commonName, s.memory[uuid].owner) ==>
      p in pub.seats && s.memory[uuid] == ShareFor(pub, p)
  }

  /** Every peer that acknowledged has its share on disk. */
  ghost predicate HeldBy(pub: Publication, uuid: string, p: string, s: Store, me: Self)
    requires PublicationShape(pub, uuid, me) && p in pub.holders
  {
    uuid in s.disk && s.disk[uuid] == ShareFor(pub, p)
  }

  ghost predicate PublicationValid(stores: map<string, Store>, pub: Publication, uuid: string, me: Self) {
    && PublicationShape(pub, uuid, me)
    && (forall p :: p in stores ==> OnlyOwnShare(pub, uuid, p, stores[p], me))
    && (forall p :: p in pub.holders ==> p in stores && HeldBy(pub, uuid, p, stores[p], me))
  }

  /** A record names a publication of that secret name that enough peers acknowledged. */
  ghost predicate RecordValid(w: World, name: string, rec: Record) {
    && rec.uuid in w.published
    && w.published[rec.uuid].deal.name == name
    && rec.treshold == w.published[rec.uuid].deal.treshold
    && rec.sharesSaved == |w.published[rec.uuid].holders|
    && ValidParameters(rec.sharesSaved, rec.treshold)
  }

  ghost predicate RecordsValid(w: World) {
    && (forall name :: name in w.records.memory ==> RecordValid(w, name, w.records.memory[name]))
    && (forall name :: name in w.records.disk ==> RecordValid(w, name, w.records.disk[name]))
  }

  ghost predicate StoresValid(stores: map<string, Store>) {
    forall p :: p in stores ==> StoreValid(stores[p])
  }

  /** Whatever a peer would hand to this host, this host has published. */
  ghost predicate OwnIsPublished(w: World, me: Self) {
    forall p, uuid ::
      && p in w.stores && uuid in w.stores[p].memory
      && OwnerMatches(me.commonName, w.stores[p].memory[uuid].owner)
      ==> uuid in w.published
  }

  ghost predicate WorldValid(w: World, me: Self) {
    && StoresValid(w.stores) && OwnIsPublished(w, me)
    && (forall uuid :: uuid in w.published ==> PublicationValid(w.stores, w.published[uuid], uuid, me))
    && RecordsValid(w)
  }

  // ---------- one store changes ----------

  /** A peer's store may change in any way that keeps its disk entries and does not add, under a
      published uuid, an entry it would hand to this host, except that peer's own share. */
  lemma StoreChangeKeepsWorld(w: World, me: Self, p: string, s': Store)
    requires WorldValid(w, me) && p in w.stores
    requires StoreValid(s') && SubDocument(w.stores[p].disk, s'.disk)
    requires forall uuid :: uuid in s'.memory && OwnerMatches(me.commonName, s'.memory[uuid].owner) ==>
        || (uuid in w.stores[p].memory && s'.memory[uuid] == w.stores[p].memory[uuid])
        || (uuid in w.published && IsSeatShare(w, uuid, p, s'.memory[uuid], me))
    ensures WorldValid(w.(stores := w.stores[p := s']), me)
  {
    var w' := w.(stores := w.stores[p := s']);
    hide StoreValid, OwnerMatches, PublicationShape, ShareFor;
    forall uuid | uuid in w'.published
      ensures PublicationValid(w'.stores, w'.published[uuid], uuid, me)
    {
      assert PublicationValid(w.stores, w.published[uuid], uuid, me);
      var pub := w.published[uuid];
      assert OnlyOwnShare(pub, uuid, p, w.stores[p], me);
      assert OnlyOwnShare(pub, uuid, p, s', me);
      assert p in pub.holders ==> HeldBy(pub, uuid, p, w.stores[p], me);
    }
  }

  ghost predicate IsSeatShare(w: World, uuid: string, p: string, sh: Share, me: Self)
    requires uuid in w.published
  {
    var pub := w.published[uuid];
    PublicationShape(pub, uuid, me) && p in pub.seats && sh == ShareFor(pub, p)
  }

  /** An entry after a step was there before unless this step posted it. */
  lemma StepMemory(s: Store, e: Event)
    requires StoreValid(s)
    ensures forall uuid :: uuid in Step(s, e).0.memory ==>
              (uuid in s.memory && Step(s, e).0.memory[uuid] == s.memory[uuid])
              || (e.Post? && e.path == uuid && e.payload == Some(Step(s, e).0.memory[uuid])
                  && OwnerMatches(e.commonName, Step(s, e).0.memory[uuid].owner))
  {
    hide Acceptable, OwnerMatches;
  }

  ghost predicate Unrecorded(w: World, uuid: string) {
    && (forall name :: name in w.records.memory ==> w.records.memory[name].uuid != uuid)
    && (forall name :: name in w.records.disk ==> w.records.disk[name].uuid != uuid)
  }

  /** A publication that no record refers to may be added or changed into another valid one. */
  lemma PublishedChangeKeepsWorld(w: World, me: Self, uuid: string, pub: Publication)
    requires WorldValid(w, me) && Unrecorded(w, uuid)
    requires PublicationValid(w.stores, pub, uuid, me)
    ensures WorldValid(w.(published := w.published[uuid := pub]), me)
  {
    var w' := w.(published := w.published[uuid := pub]);
    hide PublicationValid, StoreValid;
    assert forall u :: u in w'.published && u != uuid ==> w'.published[u] == w.published[u];
  }

  // ---------- steps of others ----------

  /** A request by a certificate that does not act for this host, or a crash of a peer. */
  ghost predicate Foreign(e: Event, me: Self) {
    e.Post? && e.payload.Some? && OwnerMatches(e.commonName, e.payload.value.owner) ==>
      !OwnerMatches(me.commonName, e.payload.value.owner)
  }

  /** Whatever other hosts send to a peer, whether or not it crashes: every publication stays as
      retrievable as it was. */
  lemma ForeignStepKeepsWorld(w: World, me: Self, p: string, e: Event)
    requires WorldValid(w, me) && p in w.stores && Foreign(e, me)
    ensures WorldValid(w.(stores := w.stores[p := Step(w.stores[p], e).0]), me)
  {
    StepKeeps(w.stores[p], e);
    StepMemory(w.stores[p], e);
    hide Step, StoreValid, OwnerMatches, PublicationValid, RecordsValid;
    StoreChangeKeepsWorld(w, me, p, Step(w.stores[p], e).0);
  }

  /** This host's own server dies and restarts with the records on disk. */
  lemma OwnCrashKeepsWorld(w: World, me: Self)
    requires WorldValid(w, me)
    ensures WorldValid(w.(records := Records(w.records.disk, w.records.disk)), me)
  {
    hide StoreValid, PublicationValid;
  }

  // ---------- store-secret ----------

  /** No peer has seen the uuid. */
  ghost predicate FreshUuid(w: World, uuid: string) {
    uuid !in w.published && forall p :: p in w.stores ==> uuid !in w.stores[p].memory
  }

  /** Peers addressed by a dealing, in order: the i-th peer is to hold the i-th participant's share. */
  ghost predicate Targets(w: World, targets: seq<string>) {
    && (forall i :: 0 <= i < |targets| ==> targets[i] in w.stores)
    && (forall i, j :: 0 <= i < j < |targets| ==> targets[i] != targets[j])
  }

  function Seats(targets: seq<string>): (m: map<string, nat>)
    requires forall i, j :: 0 <= i < j < |targets| ==> targets[i] != targets[j]
    ensures forall i :: 0 <= i < |targets| ==> targets[i] in m && m[targets[i]] == i
    ensures forall p :: p in m ==> m[p] < |targets| && targets[m[p]] == p
  {
    if targets == [] then map[] else
      var n := |targets| - 1;
      Seats(targets[..n])[targets[n] := n]
  }

  ghost function Announce(w: World, deal: Deal, targets: seq<string>): World
    requires Targets(w, targets)
  {
    w.(published := w.published[deal.uuid := Publication(deal, Seats(targets), {})])
  }

  lemma AnnounceKeepsWorld(w: World, me: Self, deal: Deal, targets: seq<string>)
    requires WorldValid(w, me) && FreshUuid(w, deal.uuid) && Targets(w, targets)
    requires ValidDeal(deal, me.lib) && deal.owner == me.owner && |targets| == deal.shares
    ensures WorldValid(Announce(w, deal, targets), me)
  {
    hide ValidDeal, HasParticipant, StoreValid, OwnerMatches, WorldValid, PublicationValid, Seats;
    var pub := Publication(deal, Seats(targets), {});
    forall p | p in pub.seats
      ensures HasParticipant(deal, pub.seats[p])
    {
      ValidDealShape(deal, me.lib, pub.seats[p]);
    }
    FreshIsValid(w, me, deal.uuid, pub);
    PublishedChangeKeepsWorld(w, me, deal.uuid, pub);
  }

  lemma FreshIsValid(w: World, me: Self, uuid: string, pub: Publication)
    requires WorldValid(w, me) && FreshUuid(w, uuid) && PublicationShape(pub, uuid, me) && pub.holders == {}
    ensures PublicationValid(w.stores, pub, uuid, me) && Unrecorded(w, uuid)
  {
    hide PublicationShape, StoreValid, OwnerMatches;
  }

  /** One POST of a peer's share, with the acknowledgement noted. */
  ghost function Send(w: World, me: Self, uuid: string, p: string, attempt: Attempt): (World, bool)
    requires uuid in w.published && p in w.published[uuid].seats && p in w.stores
    requires HasParticipant(w.published[uuid].deal, w.published[uuid].seats[p])
  {
    if attempt.Unreachable? then (w, false)
    else
      var pub := w.published[uuid];
      var (s, reply) := PostShare(w.stores[p], uuid, Some(ShareFor(pub, p)), me.commonName, attempt.save);
      var w' := w.(stores := w.stores[p := s]);
      if attempt.Answered? && (reply == Stored || reply == AlreadyStored) then
        (Acknowledge(w', uuid, p), true)
      else (w', false)
  }

  lemma DeliveryKeepsWorld(w: World, me: Self, uuid: string, p: string, save: SaveOutcome)
    requires WorldValid(w, me) && uuid in w.published && p in w.published[uuid].seats && p in w.stores
    ensures PublicationShape(w.published[uuid], uuid, me)
    ensures var s := PostShare(w.stores[p], uuid, Some(ShareFor(w.published[uuid], p)), me.commonName, save).0;
      WorldValid(w.(stores := w.stores[p := s]), me)
  {
    assert PublicationValid(w.stores, w.published[uuid], uuid, me);
    var pub := w.published[uuid];
    var e := Post(uuid, Some(ShareFor(pub, p)), me.commonName, save);
    StepKeeps(w.stores[p], e);
    StepMemory(w.stores[p], e);
    var s := Step(w.stores[p], e).0;
    hide Step, PostShare, StoreValid, OwnerMatches, PublicationValid, RecordsValid, ShareFor, PublicationShape;
    StoreChangeKeepsWorld(w, me, p, s);
  }

  ghost function Acknowledge(w: World, uuid: string, p: string): World
    requires uuid in w.published
  {
    var pub := w.published[uuid];
    w.(published := w.published[uuid := pub.(holders := pub.holders + {p})])
  }

  lemma AcknowledgedPublicationValid(w: World, me: Self, uuid: string, p: string)
    requires uuid in w.published && PublicationValid(w.stores, w.published[uuid], uuid, me) && p in w.stores &&
             p in w.published[uuid].seats
    requires uuid in w.stores[p].disk && w.stores[p].disk[uuid] == ShareFor(w.published[uuid], p)
    ensures PublicationValid(w.stores, Acknowledge(w, uuid, p).published[uuid], uuid, me)
  {
    var pub := w.published[uuid];
    var pub' := pub.(holders := pub.holders + {p});
    SeatsDecideShares(pub, pub', uuid, me);
    hide OwnerMatches, PublicationShape, ShareFor;
    var w' := Acknowledge(w, uuid, p);
    assert w'.published[uuid] == pub' && w'.stores == w.stores;
    forall q | q in w.stores
      ensures OnlyOwnShare(pub', uuid, q, w.stores[q], me)
    {
      assert OnlyOwnShare(pub, uuid, q, w.stores[q], me);
    }
    forall q | q in pub'.holders
      ensures q in w.stores && HeldBy(pub', uuid, q, w.stores[q], me)
    {
      assert q in pub.holders ==> HeldBy(pub, uuid, q, w.stores[q], me);
    }
  }

  lemma AcknowledgeKeepsWorld(w: World, me: Self, uuid: string, p: string)
    requires WorldValid(w, me) && uuid in w.published && Unrecorded(w, uuid)
    requires p in w.stores && p in w.published[uuid].seats
    requires PublicationShape(w.published[uuid], uuid, me)
    requires uuid in w.stores[p].disk && w.stores[p].disk[uuid] == ShareFor(w.published[uuid], p)
    ensures WorldValid(Acknowledge(w, uuid, p), me)
  {
    assert PublicationValid(w.stores, w.published[uuid], uuid, me);
    AcknowledgedPublicationValid(w, me, uuid, p);
    var pub := w.published[uuid];
    hide PublicationValid, PublicationShape, ShareFor, RecordsValid, StoresValid;
    PublishedChangeKeepsWorld(w, me, uuid, pub.(holders := pub.holders + {p}));
  }

  /** Which peers acknowledged does not change whose share is whose. */
  lemma SeatsDecideShares(pub: Publication, pub': Publication, uuid: string, me: Self)
    requires PublicationShape(pub, uuid, me) && pub' == pub.(holders := pub'.holders)
    requires pub'.holders <= pub.seats.Keys
    ensures PublicationShape(pub', uuid, me)
    ensures forall q :: q in pub.seats ==> ShareFor(pub', q) == ShareFor(pub, q)
  {
  }

  /** The peer holds nothing under the uuid that it would hand to this host. */
  ghost predicate Untouched(s: Store, uuid: string, me: Self) {
    uuid in s.memory ==> !OwnerMatches(me.commonName, s.memory[uuid].owner)
  }

  /** A POST to a peer that has nothing of this host under the uuid: it is acknowledged only once it is
      on disk. */
  lemma SendKeepsWorld(w: World, me: Self, uuid: string, p: string, attempt: Attempt)
    requires WorldValid(w, me) && uuid in w.published && Unrecorded(w, uuid)
    requires p in w.published[uuid].seats && p in w.stores && Untouched(w.stores[p], uuid, me)
    ensures PublicationShape(w.published[uuid], uuid, me)
    ensures WorldValid(Send(w, me, uuid, p, attempt).0, me)
  {
    assert PublicationValid(w.stores, w.published[uuid], uuid, me);
    hide PostShare, OwnerMatches, PublicationShape, PublicationValid, ShareFor, StoreValid, Unrecorded, StoresValid;
    hide RecordsValid;
    hide WorldValid;
    if !attempt.Unreachable? {
      var sh := ShareFor(w.published[uuid], p);
      DeliveryKeepsWorld(w, me, uuid, p, attempt.save);
      PostAcknowledgedOnDisk(w.stores[p], uuid, sh, me, attempt.save);
      var (s, reply) := PostShare(w.stores[p], uuid, Some(sh), me.commonName, attempt.save);
      if attempt.Answered? && (reply == Stored || reply == AlreadyStored) {
        StoresDoNotRecord(w, uuid, w.stores[p := s]);
        AcknowledgeKeepsWorld(w.(stores := w.stores[p := s]), me, uuid, p);
      }
    }
  }

  lemma StoresDoNotRecord(w: World, uuid: string, stores: map<string, Store>)
    requires Unrecorded(w, uuid)
    ensures Unrecorded(w.(stores := stores), uuid)
  {
  }

  /** What one POST to p changes: p's store, and p's acknowledgement. */
  ghost predicate SendEffect(w: World, w': World, ok: bool, uuid: string, p: string)
    requires uuid in w.published
  {
    && w'.records == w.records && w'.stores.Keys == w.stores.Keys
    && w'.published.Keys == w.published.Keys
    && (forall u :: u in w.published && u != uuid ==> w'.published[u] == w.published[u])
    && w'.published[uuid] == w.published[uuid].(holders :=
         if ok then w.published[uuid].holders + {p} else w.published[uuid].holders)
    && (forall q :: q in w.stores && q != p ==> w'.stores[q] == w.stores[q])
  }

  lemma SendFrame(w: World, me: Self, uuid: string, p: string, attempt: Attempt)
    requires uuid in w.published && p in w.published[uuid].seats && p in w.stores
    requires HasParticipant(w.published[uuid].deal, w.published[uuid].seats[p])
    ensures var (w', ok) := Send(w, me, uuid, p, attempt); SendEffect(w, w', ok, uuid, p)
  {
    hide PostShare, ShareFor;
  }

  lemma PostAcknowledgedOnDisk(s: Store, uuid: string, sh: Share, me: Self, save: SaveOutcome)
    requires Untouched(s, uuid, me)
    ensures var (s', reply) := PostShare(s, uuid, Some(sh), me.commonName, save);
      && reply != AlreadyStored
      && (reply == Stored ==> uuid in s'.disk && s'.disk[uuid] == sh)
  {
    hide Acceptable, OwnerMatches;
  }

  // ---------- when a share is accepted ----------

  /** A blank decoder takes every share of a valid dealing. */
  lemma OwnShareAcceptable(deal: Deal, lib: Library, i: nat)
    requires ValidDeal(deal, lib) && HasParticipant(deal, i)
    ensures Acceptable(ParticipantShare(deal, i))
  {
    assert Rows(deal, []) == [];
    HonestShareAccepted(Blank(), deal, lib, [], i);
  }

  /** The reply to an acceptable share, at a peer that holds nothing of this host under the uuid. */
  lemma ReplyToNewShare(s: Store, uuid: string, sh: Share, me: Self, save: SaveOutcome)
    requires sh.uuid == uuid && Untouched(s, uuid, me) && Acceptable(sh)
    ensures PostShare(s, uuid, Some(sh), me.commonName, save).1
         == if !OwnerMatches(me.commonName, sh.owner) then Forbidden
            else if uuid in s.memory then Conflict
            else Persist(s, save).1
  {
    hide Acceptable, OwnerMatches;
  }

  /** A POST of this host's own share to a peer that holds nothing of this host under the uuid is
      acknowledged exactly if the owner name matches the host's certificate, the uuid is not in use at
      the peer, the save succeeds and the answer arrives. */
  lemma AcknowledgedIff(w: World, me: Self, uuid: string, p: string, attempt: Attempt)
    requires uuid in w.published && PublicationShape(w.published[uuid], uuid, me)
    requires p in w.published[uuid].seats && p in w.stores && Untouched(w.stores[p], uuid, me)
    ensures Send(w, me, uuid, p, attempt).1 <==>
              OwnerMatches(me.commonName, me.owner) && uuid !in w.stores[p].memory && attempt == Answered(Saved)
  {
    var pub := w.published[uuid];
    OwnShareAcceptable(pub.deal, me.lib, pub.seats[p]);
    hide Acceptable, OwnerMatches, ValidDeal, PostShare, Untouched;
    if !attempt.Unreachable? {
      ReplyToNewShare(w.stores[p], uuid, ShareFor(pub, p), me, attempt.save);
    }
  }

  // ---------- a whole publication ----------

  ghost predicate Publishable(w: World, me: Self, deal: Deal, targets: seq<string>) {
    && FreshUuid(w, deal.uuid) && Targets(w, targets)
    && ValidDeal(deal, me.lib) && deal.owner == me.owner && |targets| == deal.shares
  }

  /** The world and the number of acknowledgements after the first k requests. */
  ghost function SendAll(w: World, me: Self, deal: Deal, targets: seq<string>, attempts: seq<Attempt>,
                         k: nat): (r: (World, nat))
    requires Publishable(w, me, deal, targets) && k <= |targets| == |attempts|
    ensures deal.uuid in r.0.published && r.0.published[deal.uuid].deal == deal
    ensures r.0.published[deal.uuid].seats == Seats(targets) && r.0.stores.Keys == w.stores.Keys
  {
    if k == 0 then (Announce(w, deal, targets), 0)
    else
      var (w1, count) := SendAll(w, me, deal, targets, attempts, k - 1);
      ValidDealShape(deal, me.lib, k - 1);
      SendFrame(w1, me, deal.uuid, targets[k - 1], attempts[k - 1]);
      var (w2, ok) := Send(w1, me, deal.uuid, targets[k - 1], attempts[k - 1]);
      (w2, if ok then count + 1 else count)
  }

  lemma BeforeFirstSend(w: World, me: Self, deal: Deal, targets: seq<string>, attempts: seq<Attempt>, i: nat)
    requires Publishable(w, me, deal, targets) && |targets| == |attempts| && i == 0
    ensures Targets(w, targets) && deal.owner == me.owner && |targets| == deal.shares
    ensures SendAll(w, me, deal, targets, attempts, i) == (Announce(w, deal, targets), 0)
  {
    hide ValidDeal, FreshUuid;
  }

  /** The request after the first i. */
  lemma NextSend(w: World, me: Self, deal: Deal, targets: seq<string>, attempts: seq<Attempt>, i: nat)
    requires Publishable(w, me, deal, targets) && i < |targets| == |attempts|
    ensures HasParticipant(deal, i)
    ensures var (w1, count) := SendAll(w, me, deal, targets, attempts, i);
      && deal.uuid in w1.published && w1.published[deal.uuid].deal == deal
      && targets[i] in w1.published[deal.uuid].seats && w1.published[deal.uuid].seats[targets[i]] == i
      && targets[i] in w1.stores
      && var (w2, ok) := Send(w1, me, deal.uuid, targets[i], attempts[i]);
        && SendEffect(w1, w2, ok, deal.uuid, targets[i])
        && SendAll(w, me, deal, targets, attempts, i + 1) == (w2, if ok then count + 1 else count)
  {
    hide Send, ValidDeal, SendEffect;
    ValidDealShape(deal, me.lib, i);
    SendFrame(SendAll(w, me, deal, targets, attempts, i).0, me, deal.uuid, targets[i], attempts[i]);
  }

  /** Where a publication of w stands after k requests, count of them acknowledged. */
  ghost predicate AfterSends(w: World, w': World, count: nat, deal: Deal, targets: seq<string>, k: nat)
    requires Targets(w, targets) && k <= |targets|
  {
    OthersUnchanged(w, w', deal.uuid) && Progress(w', count, deal, targets, k)
  }

  /** The publications before that of the uuid, and the records, which do not name it. */
  ghost predicate OthersUnchanged(w: World, w': World, uuid: string) {
    && w'.records == w.records && Unrecorded(w', uuid) && w'.stores.Keys == w.stores.Keys
    && (forall u :: u in w.published ==> u != uuid && u in w'.published && w'.published[u] == w.published[u])
    && (forall u :: u in w'.published ==> u in w.published || u == uuid)
  }

  ghost predicate Progress(w: World, count: nat, deal: Deal, targets: seq<string>, k: nat)
    requires forall i, j :: 0 <= i < j < |targets| ==> targets[i] != targets[j]
    requires k <= |targets|
  {
    && deal.uuid in w.published && w.published[deal.uuid].deal == deal
    && w.published[deal.uuid].seats == Seats(targets)
    && count == |w.published[deal.uuid].holders|
    && (forall p :: p in w.published[deal.uuid].holders ==> p in Seats(targets) && Seats(targets)[p] < k)
    && (forall j :: k <= j < |targets| ==> targets[j] in w.stores && deal.uuid !in w.stores[targets[j]].memory)
  }

  lemma AfterAnnounce(w: World, me: Self, deal: Deal, targets: seq<string>)
    requires WorldValid(w, me) && FreshUuid(w, deal.uuid) && Targets(w, targets)
    ensures AfterSends(w, Announce(w, deal, targets), 0, deal, targets, 0)
  {
    hide PublicationValid, StoresValid, Seats;
  }

  lemma AfterOneMore(w: World, w1: World, count: nat, w2: World, ok: bool, deal: Deal, targets: seq<string>, k: nat)
    requires Targets(w, targets) && k < |targets| && AfterSends(w, w1, count, deal, targets, k)
    requires SendEffect(w1, w2, ok, deal.uuid, targets[k])
    ensures AfterSends(w, w2, if ok then count + 1 else count, deal, targets, k + 1)
  {
    hide Progress;
    ProgressOneMore(w1, count, w2, ok, deal, targets, k);
  }

  lemma ProgressOneMore(w1: World, count: nat, w2: World, ok: bool, deal: Deal, targets: seq<string>, k: nat)
    requires forall i, j :: 0 <= i < j < |targets| ==> targets[i] != targets[j]
    requires k < |targets| && Progress(w1, count, deal, targets, k) && SendEffect(w1, w2, ok, deal.uuid, targets[k])
    ensures Progress(w2, if ok then count + 1 else count, deal, targets, k + 1)
  {
    hide Seats;
    var holders := w1.published[deal.uuid].holders;
    assert targets[k] !in holders;
    assert |holders + {targets[k]}| == |holders| + 1;
  }

  lemma {:induction false} SendAllKeepsWorld(w: World, me: Self, deal: Deal, targets: seq<string>,
                                             attempts: seq<Attempt>, k: nat)
    requires WorldValid(w, me) && Publishable(w, me, deal, targets) && k <= |targets| == |attempts|
    ensures var (w', count) := SendAll(w, me, deal, targets, attempts, k);
      WorldValid(w', me) && AfterSends(w, w', count, deal, targets, k)
  {
    hide Send, SendAll, Publishable, WorldValid, HasParticipant, Seats, SendEffect, AfterSends, Announce;
    PublishableTargets(w, me, deal, targets);
    if k == 0 {
      BeforeFirstSend(w, me, deal, targets, attempts, k);
      AnnounceKeepsWorld(w, me, deal, targets);
      AfterAnnounce(w, me, deal, targets);
    } else {
      SendAllKeepsWorld(w, me, deal, targets, attempts, k - 1);
      NextSend(w, me, deal, targets, attempts, k - 1);
      var (w1, count) := SendAll(w, me, deal, targets, attempts, k - 1);
      var p, attempt := targets[k - 1], attempts[k - 1];
      BeforeNextSend(w, w1, count, deal, targets, k - 1);
      SendKeepsWorld(w1, me, deal.uuid, p, attempt);
      var (w2, ok) := Send(w1, me, deal.uuid, p, attempt);
      AfterOneMore(w, w1, count, w2, ok, deal, targets, k - 1);
    }
  }

  lemma PublishableTargets(w: World, me: Self, deal: Deal, targets: seq<string>)
    requires Publishable(w, me, deal, targets)
    ensures FreshUuid(w, deal.uuid) && Targets(w, targets) && ValidDeal(deal, me.lib)
    ensures deal.owner == me.owner && |targets| == deal.shares
  {
    hide ValidDeal, FreshUuid;
  }

  lemma BeforeNextSend(w: World, w1: World, count: nat, deal: Deal, targets: seq<string>, k: nat)
    requires Targets(w, targets) && k < |targets| && AfterSends(w, w1, count, deal, targets, k)
    ensures Unrecorded(w1, deal.uuid) && deal.uuid in w1.published && w1.published[deal.uuid].deal == deal
    ensures targets[k] in w1.published[deal.uuid].seats && w1.published[deal.uuid].seats[targets[k]] == k
    ensures targets[k] in w1.stores && deal.uuid !in w1.stores[targets[k]].memory
  {
  }

  /** How many of the first k requests the peer could save and answer. */
  function Saves(attempts: seq<Attempt>, k: nat): (n: nat)
    requires k <= |attempts|
    ensures n <= k
  {
    if k == 0 then 0 else Saves(attempts, k - 1) + if attempts[k - 1] == Answered(Saved) then 1 else 0
  }

  /** The peers addressed by those requests. */
  function Savers(targets: seq<string>, attempts: seq<Attempt>, k: nat): (s: set<string>)
    requires k <= |targets| == |attempts|
    ensures forall p :: p in s <==> exists i :: 0 <= i < k && targets[i] == p && attempts[i] == Answered(Saved)
  {
    set i | 0 <= i < k && attempts[i] == Answered(Saved) :: targets[i]
  }

  /** What the first k requests achieve: all that could be saved and answered are acknowledged, or
      none. */
  ghost predicate Acknowledgements(w: World, count: nat, uuid: string, me: Self, targets: seq<string>,
                                   attempts: seq<Attempt>, k: nat)
    requires uuid in w.published && k <= |targets| == |attempts|
  {
    if OwnerMatches(me.commonName, me.owner)
    then count == Saves(attempts, k) && w.published[uuid].holders == Savers(targets, attempts, k)
    else count == 0 && w.published[uuid].holders == {}
  }

  /** Exactly the requests that a peer could save and answer are acknowledged, provided the host's name
      matches its certificate; otherwise none is. */
  lemma {:induction false} AcknowledgedExactly(w: World, me: Self, deal: Deal, targets: seq<string>,
                                               attempts: seq<Attempt>, k: nat)
    requires WorldValid(w, me) && Publishable(w, me, deal, targets) && k <= |targets| == |attempts|
    ensures var (w', count) := SendAll(w, me, deal, targets, attempts, k);
      Acknowledgements(w', count, deal.uuid, me, targets, attempts, k)
  {
    hide Send, SendAll, Publishable, WorldValid, HasParticipant, Seats, SendEffect, AfterSends, OwnerMatches;
    hide PublicationShape;
    hide Announce, Acknowledgements;
    PublishableTargets(w, me, deal, targets);
    if k == 0 {
      BeforeFirstSend(w, me, deal, targets, attempts, k);
      NoHolders(w, me, deal, targets, attempts, k);
    } else {
      AcknowledgedExactly(w, me, deal, targets, attempts, k - 1);
      SendAllKeepsWorld(w, me, deal, targets, attempts, k - 1);
      NextSend(w, me, deal, targets, attempts, k - 1);
      var (w1, count) := SendAll(w, me, deal, targets, attempts, k - 1);
      var p, attempt := targets[k - 1], attempts[k - 1];
      BeforeNextSend(w, w1, count, deal, targets, k - 1);
      PublishedShape(w1, deal.uuid, me);
      AcknowledgedIff(w1, me, deal.uuid, p, attempt);
      var (w2, ok) := Send(w1, me, deal.uuid, p, attempt);
      AcknowledgedOneMore(w1, count, w2, ok, deal.uuid, me, targets, attempts, k);
    }
  }

  lemma AcknowledgedOneMore(w1: World, count: nat, w2: World, ok: bool, uuid: string, me: Self,
                            targets: seq<string>, attempts: seq<Attempt>, k: nat)
    requires 0 < k <= |targets| == |attempts| && uuid in w1.published
    requires Acknowledgements(w1, count, uuid, me, targets, attempts, k - 1)
    requires SendEffect(w1, w2, ok, uuid, targets[k - 1])
    requires ok <==> OwnerMatches(me.commonName, me.owner) && attempts[k - 1] == Answered(Saved)
    ensures uuid in w2.published
    ensures Acknowledgements(w2, if ok then count + 1 else count, uuid, me, targets, attempts, k)
  {
    hide OwnerMatches, Savers;
    SaversStep(targets, attempts, k);
  }

  lemma SaversStep(targets: seq<string>, attempts: seq<Attempt>, k: nat)
    requires 0 < k <= |targets| == |attempts|
    ensures Savers(targets, attempts, k)
         == Savers(targets, attempts, k - 1) + if attempts[k - 1] == Answered(Saved) then {targets[k - 1]} else {}
  {
  }

  lemma NoHolders(w: World, me: Self, deal: Deal, targets: seq<string>, attempts: seq<Attempt>, k: nat)
    requires Targets(w, targets) && |targets| == |attempts| && k == 0
    ensures Acknowledgements(Announce(w, deal, targets), 0, deal.uuid, me, targets, attempts, k)
  {
  }

  lemma PublishedShape(w: World, uuid: string, me: Self)
    requires WorldValid(w, me) && uuid in w.published
    ensures PublicationShape(w.published[uuid], uuid, me)
  {
    assert PublicationValid(w.stores, w.published[uuid], uuid, me);
  }

  /** POST /secrets/<name>: the record replaces any earlier one of that name, in memory first. */
  function PersistRecord(r: Records, name: string, rec: Record, save: SaveOutcome): Records {
    var memory := r.memory[name := rec];
    match save
    case Saved => Records(memory, memory)
    case SaveRaised => Records(memory, r.disk)
    case CrashedBeforeRename => Records(r.disk, r.disk)
    case CrashedAfterRename => Records(memory, memory)
  }

  /** The records after the attempt to record a secret locally, and whether it was confirmed. */
  function RecordSecret(r: Records, me: Self, name: string, rec: Record, attempt: Attempt): (Records, bool) {
    if attempt.Unreachable? || !OwnerMatches(me.commonName, me.owner) then (r, false)
    else (PersistRecord(r, name, rec, attempt.save), attempt == Answered(Saved))
  }

  /** The record of the name is in memory and on disk. */
  ghost predicate RecordedAs(r: Records, name: string, rec: Record) {
    && name in r.memory && r.memory[name] == rec
    && name in r.disk && r.disk[name] == rec
  }

  /** What the attempt to record a secret does, for every way it can end: the record is in memory and on
      disk after a save, in memory only after a failed one, nowhere or on disk after a crash. */
  lemma RecordOutcome(r: Records, me: Self, name: string, rec: Record, attempt: Attempt)
    ensures var (r', ok) := RecordSecret(r, me, name, rec, attempt);
      && (ok <==> attempt == Answered(Saved) && OwnerMatches(me.commonName, me.owner))
      && (attempt.Unreachable? || !OwnerMatches(me.commonName, me.owner) ==> r' == r)
      && (!attempt.Unreachable? && OwnerMatches(me.commonName, me.owner) ==>
            && (attempt.save in {Saved, CrashedAfterRename} ==> r'.memory == r'.disk == r.memory[name := rec])
            && (attempt.save == SaveRaised ==> r'.memory == r.memory[name := rec] && r'.disk == r.disk)
            && (attempt.save == CrashedBeforeRename ==> r'.memory == r'.disk == r.disk))
      && (ok ==> RecordedAs(r', name, rec))
  {
    hide OwnerMatches;
  }

  /** store-secret once the secret is split: every target is tried, and the secret is recorded only if
      at least treshold of them acknowledged. */
  ghost function Publish(w: World, me: Self, deal: Deal, targets: seq<string>, attempts: seq<Attempt>,
                         recording: Attempt): World
    requires Publishable(w, me, deal, targets) && |targets| == |attempts|
  {
    var (w1, count) := SendAll(w, me, deal, targets, attempts, |targets|);
    if count < deal.treshold then w1
    else w1.(records := RecordSecret(w1.records, me, deal.name, Record(deal.uuid, deal.treshold, count), recording).0)
  }

  /** Every publication, however it fails, keeps the world valid and every earlier publication. */
  lemma PublishKeepsWorld(w: World, me: Self, deal: Deal, targets: seq<string>, attempts: seq<Attempt>,
                          recording: Attempt)
    requires WorldValid(w, me) && Publishable(w, me, deal, targets) && |targets| == |attempts|
    ensures WorldValid(Publish(w, me, deal, targets, attempts, recording), me)
    ensures var w' := Publish(w, me, deal, targets, attempts, recording);
      && (forall u :: u in w.published ==> u in w'.published && w'.published[u] == w.published[u])
      && (w'.records == w.records || (deal.uuid in w'.published && |w'.published[deal.uuid].holders| >= deal.treshold))
  {
    hide WorldValid, Unrecorded, Seats;
    SendAllKeepsWorld(w, me, deal, targets, attempts, |targets|);
    var (w1, count) := SendAll(w, me, deal, targets, attempts, |targets|);
    if count >= deal.treshold {
      RecordKeepsWorld(w1, me, deal, Record(deal.uuid, deal.treshold, count), recording);
    }
  }

  /** What a publication does to the records: a confirmed one is recorded with the number of peers that
      acknowledged, one that does not reach the recording step changes none. */
  lemma PublishRecords(w: World, me: Self, deal: Deal, targets: seq<string>, attempts: seq<Attempt>, recording: Attempt)
    requires WorldValid(w, me) && Publishable(w, me, deal, targets) && |targets| == |attempts|
    ensures var (w', n) := (Publish(w, me, deal, targets, attempts, recording), Saves(attempts, |attempts|));
      && (OwnerMatches(me.commonName, me.owner) && n >= deal.treshold && recording == Answered(Saved) ==>
            && w'.records.memory == w'.records.disk ==
                 w.records.memory[deal.name := Record(deal.uuid, deal.treshold, n)]
            && RecordedAs(w'.records, deal.name, Record(deal.uuid, deal.treshold, n)))
      && (!OwnerMatches(me.commonName, me.owner) || n < deal.treshold || recording.Unreachable? ==>
          w'.records == w.records)
  {
    hide WorldValid, SendAll, Progress, OwnerMatches, Savers, RecordSecret, Publishable;
    PublishableTargets(w, me, deal, targets);
    SendAllKeepsWorld(w, me, deal, targets, attempts, |targets|);
    AcknowledgedExactly(w, me, deal, targets, attempts, |targets|);
    var (w1, count) := SendAll(w, me, deal, targets, attempts, |targets|);
    RecordOutcome(w1.records, me, deal.name, Record(deal.uuid, deal.treshold, count), recording);
  }

  lemma RecordKeepsWorld(w: World, me: Self, deal: Deal, rec: Record, recording: Attempt)
    requires WorldValid(w, me) && ValidParameters(deal.shares, deal.treshold)
    requires rec.uuid == deal.uuid && deal.uuid in w.published && w.published[deal.uuid].deal == deal
    requires rec.sharesSaved == |w.published[deal.uuid].holders| >= deal.treshold == rec.treshold
    ensures WorldValid(w.(records := RecordSecret(w.records, me, deal.name, rec, recording).0), me)
  {
    hide StoresValid, PublicationValid, OwnerMatches;
    var w' := w.(records := RecordSecret(w.records, me, deal.name, rec, recording).0);
    assert RecordValid(w', deal.name, rec);
    assert RecordsValid(w');
  }
}
