/** Runs of the whole network: requests of any hosts, crashes, and any number of publications of this
    host, secrets as well as its KEY1, interleaved request by request. */
module NetworkRuns {
  import opened Wrappers
  import opened Identity
  import opened Shares
  import opened Decoder
  import opened Dealing
  import opened ShareStore
  import opened Network
  import opened Retrieval
  import Quorum

  /** A publication in progress: its targets and how many of them have been tried. */
  datatype Sending = Sending(targets: seq<string>, next: nat)

  datatype Net = Net(world: World, open: map<string, Sending>)

  /** What happens on the network, in any order: another host's request or a crash at a peer; a crash of
      this host's server; a publication begins, sends its next request, ends with the request that
      records it, or ends without. */
  datatype Action =
    | AtPeer(peer: string, event: Event)
    | OwnCrash
    | Begin(deal: Deal, targets: seq<string>)
    | SendNext(uuid: string, attempt: Attempt)
    | Conclude(uuid: string, recording: Attempt)
    | Abandon(uuid: string)

  ghost predicate Enabled(n: Net, me: Self, a: Action) {
    match a
    case AtPeer(p, e) => p in n.world.stores && Foreign(e, me)
    case OwnCrash => true
    case Begin(deal, targets) => Publishable(n.world, me, deal, targets)
    case SendNext(uuid, _) => uuid in n.open && n.open[uuid].next < |n.open[uuid].targets|
                              && Addressed(n.world, uuid, n.open[uuid].targets[n.open[uuid].next])
    case Conclude(uuid, _) => uuid in n.open && n.open[uuid].next == |n.open[uuid].targets| && uuid in n.world.published
                              && |n.world.published[uuid].holders| >= n.world.published[uuid].deal.treshold
    case Abandon(uuid) => uuid in n.open
  }

  /** The peer is one of those the publication addresses. */
  ghost predicate Addressed(w: World, uuid: string, p: string) {
    && uuid in w.published && p in w.published[uuid].seats && p in w.stores
    && HasParticipant(w.published[uuid].deal, w.published[uuid].seats[p])
  }

  /** The record of a publication that enough peers acknowledged. */
  function RecordOf(pub: Publication): Record {
    Record(pub.deal.uuid, pub.deal.treshold, |pub.holders|)
  }

  ghost function Act(n: Net, me: Self, a: Action): Net
    requires Enabled(n, me, a)
  {
    var w := n.world;
    match a
    case AtPeer(p, e) => n.(world := w.(stores := w.stores[p := Step(w.stores[p], e).0]))
    case OwnCrash => n.(world := w.(records := Records(w.records.disk, w.records.disk)))
    case Begin(deal, targets) => Net(Announce(w, deal, targets), n.open[deal.uuid := Sending(targets, 0)])
    case SendNext(uuid, attempt) =>
      var s := n.open[uuid];
      Net(Send(w, me, uuid, s.targets[s.next], attempt).0, n.open[uuid := Sending(s.targets, s.next + 1)])
    case Conclude(uuid, recording) =>
      var pub := w.published[uuid];
      Net(w.(records := RecordSecret(w.records, me, pub.deal.name, RecordOf(pub), recording).0), n.open - {uuid})
    case Abandon(uuid) => n.(open := n.open - {uuid})
  }

  /** The run from n that ends in n'. */
  ghost predicate Runs(n: Net, me: Self, actions: seq<Action>, n': Net)
    decreases |actions|
  {
    if actions == [] then n' == n
    else Enabled(n, me, actions[0]) && Runs(Act(n, me, actions[0]), me, actions[1..], n')
  }

  // ---------- the invariant ----------

  /** A publication in progress: no record names it, and the peers still to be tried hold nothing of
      this host under its uuid. */
  ghost predicate SendingValid(w: World, uuid: string, s: Sending, me: Self) {
    && uuid in w.published && Unrecorded(w, uuid)
    && Targets(w, s.targets) && s.next <= |s.targets| == w.published[uuid].deal.shares
    && w.published[uuid].seats == Seats(s.targets)
    && forall j :: s.next <= j < |s.targets| ==> Untouched(w.stores[s.targets[j]], uuid, me)
  }

  ghost predicate NetValid(n: Net, me: Self) {
    WorldValid(n.world, me) && forall uuid :: uuid in n.open ==> SendingValid(n.world, uuid, n.open[uuid], me)
  }

  /** In a valid network the next request of a publication in progress can always be sent. */
  lemma NextIsAddressed(n: Net, me: Self, uuid: string, attempt: Attempt)
    requires NetValid(n, me) && uuid in n.open && n.open[uuid].next < |n.open[uuid].targets|
    ensures Enabled(n, me, SendNext(uuid, attempt))
  {
    assert SendingValid(n.world, uuid, n.open[uuid], me);
    PublishedShape(n.world, uuid, me);
  }

  /** What keeps a publication in progress valid, besides its own requests. */
  lemma SendingFrame(w: World, w': World, uuid: string, s: Sending, me: Self)
    requires SendingValid(w, uuid, s, me) && Unrecorded(w', uuid) && w'.stores.Keys == w.stores.Keys
    requires uuid in w'.published && w'.published[uuid].deal == w.published[uuid].deal
    requires w'.published[uuid].seats == w.published[uuid].seats
    requires forall p :: p in w.stores && Untouched(w.stores[p], uuid, me) ==> Untouched(w'.stores[p], uuid, me)
    ensures SendingValid(w', uuid, s, me)
  {
    hide Untouched, Unrecorded, Seats;
  }

  lemma ForeignKeepsUntouched(s: Store, e: Event, uuid: string, me: Self)
    requires StoreValid(s) && Foreign(e, me) && Untouched(s, uuid, me)
    ensures Untouched(Step(s, e).0, uuid, me)
  {
    StepMemory(s, e);
    hide Step, OwnerMatches, StoreValid;
  }

  /** A POST under another uuid adds nothing under this one. */
  lemma PostKeepsUntouched(s: Store, posted: string, payload: Option<Share>, commonName: Option<string>,
                           save: SaveOutcome, uuid: string, me: Self)
    requires StoreValid(s) && posted != uuid && Untouched(s, uuid, me)
    ensures Untouched(PostShare(s, posted, payload, commonName, save).0, uuid, me)
  {
    StepMemory(s, Post(posted, payload, commonName, save));
    hide PostShare, OwnerMatches, StoreValid;
  }

  // ---------- every action keeps the invariant ----------

  lemma AtPeerKeepsNet(n: Net, me: Self, p: string, e: Event)
    requires NetValid(n, me) && p in n.world.stores && Foreign(e, me)
    ensures NetValid(Act(n, me, AtPeer(p, e)), me)
  {
    hide WorldValid, Step, Foreign, Untouched, SendingValid;
    var w := n.world;
    var w' := w.(stores := w.stores[p := Step(w.stores[p], e).0]);
    ForeignStepKeepsWorld(w, me, p, e);
    StoreOf(w, me, p);
    forall uuid | uuid in n.open
      ensures SendingValid(w', uuid, n.open[uuid], me)
    {
      if Untouched(w.stores[p], uuid, me) {
        ForeignKeepsUntouched(w.stores[p], e, uuid, me);
      }
      SameRecords(w, w', uuid, n.open[uuid], me);
      SendingFrame(w, w', uuid, n.open[uuid], me);
    }
  }

  lemma StoreOf(w: World, me: Self, p: string)
    requires WorldValid(w, me) && p in w.stores
    ensures StoreValid(w.stores[p])
  {
  }

  lemma SameRecords(w: World, w': World, uuid: string, s: Sending, me: Self)
    requires SendingValid(w, uuid, s, me) && w'.records == w.records
    ensures uuid in w.published && Unrecorded(w', uuid)
  {
  }

  lemma OwnCrashKeepsNet(n: Net, me: Self)
    requires NetValid(n, me)
    ensures NetValid(Act(n, me, OwnCrash), me)
  {
    hide WorldValid, Untouched, Seats;
    OwnCrashKeepsWorld(n.world, me);
  }

  lemma BeginKeepsNet(n: Net, me: Self, deal: Deal, targets: seq<string>)
    requires NetValid(n, me) && Publishable(n.world, me, deal, targets)
    ensures NetValid(Act(n, me, Begin(deal, targets)), me)
  {
    hide WorldValid, ValidDeal, Untouched, Unrecorded, SendingValid, Announce, FreshUuid, Seats;
    var w := n.world;
    var w' := Announce(w, deal, targets);
    AnnounceKeepsWorld(w, me, deal, targets);
    BeginIsValid(w, me, deal, targets);
    forall uuid | uuid in n.open
      ensures SendingValid(w', uuid, n.open[uuid], me) && uuid != deal.uuid
    {
      BeginFrame(w, me, deal, targets, uuid, n.open[uuid]);
      SendingFrame(w, w', uuid, n.open[uuid], me);
    }
  }

  lemma BeginIsValid(w: World, me: Self, deal: Deal, targets: seq<string>)
    requires WorldValid(w, me) && Publishable(w, me, deal, targets)
    ensures SendingValid(Announce(w, deal, targets), deal.uuid, Sending(targets, 0), me)
  {
    AfterAnnounce(w, me, deal, targets);
    hide WorldValid, ValidDeal, Seats;
  }

  lemma BeginFrame(w: World, me: Self, deal: Deal, targets: seq<string>, uuid: string, s: Sending)
    requires FreshUuid(w, deal.uuid) && Targets(w, targets) && SendingValid(w, uuid, s, me)
    ensures var w' := Announce(w, deal, targets);
      && uuid != deal.uuid && uuid in w'.published && w'.published[uuid] == w.published[uuid]
      && Unrecorded(w', uuid) && w'.stores == w.stores
  {
    hide Seats, Untouched;
  }

  lemma SendNextKeepsNet(n: Net, me: Self, uuid: string, attempt: Attempt)
    requires NetValid(n, me) && Enabled(n, me, SendNext(uuid, attempt))
    ensures NetValid(Act(n, me, SendNext(uuid, attempt)), me)
  {
    hide WorldValid, Send, Seats, Unrecorded, Untouched, SendingValid, SendEffect;
    var w, s := n.world, n.open[uuid];
    var p := s.targets[s.next];
    var (w', ok) := Send(w, me, uuid, p, attempt);
    SendingParts(w, uuid, s, me);
    SendKeepsWorld(w, me, uuid, p, attempt);
    SendFrame(w, me, uuid, p, attempt);
    SentIsValid(w, w', ok, uuid, s, me);
    forall u | u in n.open && u != uuid
      ensures SendingValid(w', u, n.open[u], me)
    {
      SendLeavesOthers(w, me, uuid, p, attempt, u, n.open[u]);
      SendingFrame(w, w', u, n.open[u], me);
    }
  }

  lemma SendingParts(w: World, uuid: string, s: Sending, me: Self)
    requires SendingValid(w, uuid, s, me)
    ensures uuid in w.published && Unrecorded(w, uuid) && Targets(w, s.targets)
    ensures s.next < |s.targets| ==> Untouched(w.stores[s.targets[s.next]], uuid, me)
  {
  }

  lemma SentIsValid(w: World, w': World, ok: bool, uuid: string, s: Sending, me: Self)
    requires SendingValid(w, uuid, s, me) && s.next < |s.targets| && SendEffect(w, w', ok, uuid, s.targets[s.next])
    ensures SendingValid(w', uuid, Sending(s.targets, s.next + 1), me)
  {
    hide Untouched, Seats;
  }

  lemma SendLeavesOthers(w: World, me: Self, uuid: string, p: string, attempt: Attempt, u: string, s: Sending)
    requires WorldValid(w, me) && Addressed(w, uuid, p) && SendingValid(w, u, s, me) && u != uuid
    ensures var w' := Send(w, me, uuid, p, attempt).0;
      && Unrecorded(w', u) && w'.stores.Keys == w.stores.Keys && u in w'.published && w'.published[u] == w.published[u]
      && forall q :: q in w.stores && Untouched(w.stores[q], u, me) ==> Untouched(w'.stores[q], u, me)
  {
    hide WorldValid, Untouched, Seats, HasParticipant, PostShare, ShareFor;
    StoreOf(w, me, p);
    if !attempt.Unreachable? && Untouched(w.stores[p], u, me) {
      PostKeepsUntouched(w.stores[p], uuid, Some(ShareFor(w.published[uuid], p)), me.commonName, attempt.save, u, me);
    }
  }

  lemma ConcludeKeepsNet(n: Net, me: Self, uuid: string, recording: Attempt)
    requires NetValid(n, me) && Enabled(n, me, Conclude(uuid, recording))
    ensures NetValid(Act(n, me, Conclude(uuid, recording)), me)
  {
    hide WorldValid, RecordSecret, Seats, Untouched, SendingValid, PublicationShape, Unrecorded;
    var w, pub := n.world, n.world.published[uuid];
    var w' := Act(n, me, Conclude(uuid, recording)).world;
    PublishedShape(w, uuid, me);
    ShapeParameters(pub, uuid, me);
    RecordKeepsWorld(w, me, pub.deal, RecordOf(pub), recording);
    forall u | u in n.open && u != uuid
      ensures SendingValid(w', u, n.open[u], me)
    {
      SendingParts(w, u, n.open[u], me);
      OthersUnrecorded(w, me, pub.deal.name, RecordOf(pub), recording, u);
      SendingFrame(w, w', u, n.open[u], me);
    }
  }

  lemma ShapeParameters(pub: Publication, uuid: string, me: Self)
    requires PublicationShape(pub, uuid, me)
    ensures ValidParameters(pub.deal.shares, pub.deal.treshold) && pub.deal.uuid == uuid
  {
  }

  lemma OthersUnrecorded(w: World, me: Self, name: string, rec: Record, recording: Attempt, u: string)
    requires Unrecorded(w, u) && u != rec.uuid
    ensures Unrecorded(w.(records := RecordSecret(w.records, me, name, rec, recording).0), u)
  {
    hide OwnerMatches;
  }

  /** Every action keeps the network valid, keeps every publication's dealing and its holders, and
      changes nothing of a publication that is not in progress. */
  lemma ActKeepsNet(n: Net, me: Self, a: Action)
    requires NetValid(n, me) && Enabled(n, me, a)
    ensures NetValid(Act(n, me, a), me)
    ensures Later(n, Act(n, me, a))
  {
    hide NetValid;
    ActMovesOn(n, me, a);
    match a
    case AtPeer(p, e) => AtPeerKeepsNet(n, me, p, e);
    case OwnCrash => OwnCrashKeepsNet(n, me);
    case Begin(deal, targets) => BeginKeepsNet(n, me, deal, targets);
    case SendNext(uuid, attempt) => SendNextKeepsNet(n, me, uuid, attempt);
    case Conclude(uuid, recording) => ConcludeKeepsNet(n, me, uuid, recording);
    case Abandon(uuid) => AbandonKeepsNet(n, me, uuid);
  }

  lemma AbandonKeepsNet(n: Net, me: Self, uuid: string)
    requires NetValid(n, me) && uuid in n.open
    ensures NetValid(n.(open := n.open - {uuid}), me)
  {
    hide SendingValid, WorldValid;
  }

  /** What no run takes back. */
  ghost predicate Later(n: Net, n': Net) {
    forall u :: u in n.world.published ==>
      && u in n'.world.published
      && n'.world.published[u].deal == n.world.published[u].deal
      && n'.world.published[u].seats == n.world.published[u].seats
      && n.world.published[u].holders <= n'.world.published[u].holders
      && (u !in n.open ==> u !in n'.open && n'.world.published[u] == n.world.published[u])
  }

  lemma ActMovesOn(n: Net, me: Self, a: Action)
    requires Enabled(n, me, a)
    ensures Later(n, Act(n, me, a))
  {
    hide Send, SendEffect, Publishable, Announce, Step, Foreign, RecordSecret, HasParticipant;
    match a
    case Begin(deal, targets) => AnnounceMovesOn(n, me, deal, targets);
    case SendNext(uuid, attempt) =>
      var s := n.open[uuid];
      var (w', ok) := Send(n.world, me, uuid, s.targets[s.next], attempt);
      SendFrame(n.world, me, uuid, s.targets[s.next], attempt);
      SendMovesOn(n, uuid, s.targets[s.next], w', ok, Sending(s.targets, s.next + 1));
    case _ =>
  }

  lemma AnnounceMovesOn(n: Net, me: Self, deal: Deal, targets: seq<string>)
    requires Publishable(n.world, me, deal, targets)
    ensures Later(n, Net(Announce(n.world, deal, targets), n.open[deal.uuid := Sending(targets, 0)]))
  {
    hide ValidDeal, Seats;
  }

  lemma SendMovesOn(n: Net, uuid: string, p: string, w': World, ok: bool, s: Sending)
    requires uuid in n.open && uuid in n.world.published && SendEffect(n.world, w', ok, uuid, p)
    ensures Later(n, Net(w', n.open[uuid := s]))
  {
  }

  lemma {:induction false} RunKeepsNet(n: Net, me: Self, actions: seq<Action>, n': Net)
    requires NetValid(n, me) && Runs(n, me, actions, n')
    ensures NetValid(n', me) && Later(n, n')
    decreases |actions|
  {
    hide NetValid, Act, Enabled;
    if actions != [] {
      ActKeepsNet(n, me, actions[0]);
      RunKeepsNet(Act(n, me, actions[0]), me, actions[1..], n');
    }
  }

  // ---------- reachable networks ----------

  /** A network on which nothing has been stored. */
  function EmptyNet(peers: set<string>): Net {
    Net(World(map p | p in peers :: Store(map[], map[]), Records(map[], map[]), map[]), map[])
  }

  lemma StartIsValid(peers: set<string>, me: Self)
    ensures NetValid(EmptyNet(peers), me)
  {
  }

  /** In every reachable network every recorded secret is well recorded, so get-secret never builds an
      invalid decoder: 2 <= treshold <= shares_saved <= the number of peers. */
  lemma EveryReachableRecordIsSound(peers: set<string>, me: Self, actions: seq<Action>, n: Net, name: string)
    requires Runs(EmptyNet(peers), me, actions, n) && name in n.world.records.memory
    ensures NetValid(n, me)
    ensures var rec := n.world.records.memory[name];
      ValidParameters(rec.sharesSaved, rec.treshold) && rec.sharesSaved <= |n.world.stores|
  {
    hide Runs, EmptyNet;
    StartIsValid(peers, me);
    RunKeepsNet(EmptyNet(peers), me, actions, n);
    RecordIsSound(n.world, me, name);
  }

  lemma RecordIsSound(w: World, me: Self, name: string)
    requires WorldValid(w, me) && name in w.records.memory
    ensures var rec := w.records.memory[name];
      ValidParameters(rec.sharesSaved, rec.treshold) && rec.sharesSaved <= |w.stores|
  {
    var rec := w.records.memory[name];
    assert RecordValid(w, name, rec);
    assert PublicationValid(w.stores, w.published[rec.uuid], rec.uuid, me);
    var holders := w.published[rec.uuid].holders;
    assert holders <= w.stores.Keys;
    Quorum.SubsetSize(holders, w.stores.Keys);
  }

  /** In every reachable network, for every recorded name: get-secret returns exactly the bytes of the
      publication the record names as soon as treshold of the peers that acknowledged it are asked and
      reachable, and an explicit failure when fewer than treshold peers serve a share. */
  lemma ReachableSecretIsRetrievable(peers: set<string>, me: Self, actions: seq<Action>, n: Net, name: string,
                                     order: seq<string>, up: seq<bool>)
    requires Runs(EmptyNet(peers), me, actions, n) && name in n.world.records.memory
    requires OwnerMatches(me.commonName, me.owner) && |order| == |up|
    ensures NetValid(n, me)
    ensures var (w, rec) := (n.world, n.world.records.memory[name]);
      && rec.uuid in w.published && w.published[rec.uuid].deal.name == name
      && (|Asked(order, up, |order|) * w.published[rec.uuid].holders| >= rec.treshold
          ==> Retrieve(w, me, name, order, up) == Success(w.published[rec.uuid].deal.raw))
      && (Serving(w.stores, me, rec.uuid, order, up, |order|) < rec.treshold
          ==> Retrieve(w, me, name, order, up).Failure?)
  {
    hide Runs, EmptyNet, Retrieve, WorldValid, SendingValid;
    StartIsValid(peers, me);
    RunKeepsNet(EmptyNet(peers), me, actions, n);
    RecordedIsRetrievable(n.world, me, name, order, up);
  }

  // ---------- the round trip over whole runs ----------

  /** The action does not reach the recording step for that name. */
  ghost predicate DoesNotRecord(n: Net, me: Self, a: Action, name: string)
    requires Enabled(n, me, a)
  {
    a.Conclude? && n.world.published[a.uuid].deal.name == name ==> a.recording.Unreachable?
  }

  ghost predicate RunsWithoutRecording(n: Net, me: Self, actions: seq<Action>, n': Net, name: string)
    decreases |actions|
  {
    if actions == [] then n' == n
    else Enabled(n, me, actions[0]) && DoesNotRecord(n, me, actions[0], name)
         && RunsWithoutRecording(Act(n, me, actions[0]), me, actions[1..], n', name)
  }

  lemma OtherRecordsKept(r: Records, me: Self, name: string, rec: Record, recording: Attempt, other: string,
                         kept: Record)
    requires RecordedAs(r, other, kept) && (name != other || recording.Unreachable?)
    ensures RecordedAs(RecordSecret(r, me, name, rec, recording).0, other, kept)
  {
    hide OwnerMatches;
  }

  lemma ActKeepsRecord(n: Net, me: Self, a: Action, name: string, rec: Record)
    requires Enabled(n, me, a) && DoesNotRecord(n, me, a, name) && RecordedAs(n.world.records, name, rec)
    ensures RecordedAs(Act(n, me, a).world.records, name, rec)
  {
    hide PostShare, ShareFor, Seats, Step, Foreign, RecordSecret, RecordedAs, HasParticipant;
    match a
    case Conclude(uuid, recording) =>
      var pub := n.world.published[uuid];
      OtherRecordsKept(n.world.records, me, pub.deal.name, RecordOf(pub), recording, name, rec);
    case OwnCrash => CrashKeepsRecord(n.world.records, name, rec);
    case _ =>
  }

  lemma CrashKeepsRecord(r: Records, name: string, rec: Record)
    requires RecordedAs(r, name, rec)
    ensures RecordedAs(Records(r.disk, r.disk), name, rec)
  {
  }

  lemma {:induction false} RunKeepsRecord(n: Net, me: Self, actions: seq<Action>, n': Net, name: string, rec: Record)
    requires NetValid(n, me) && RunsWithoutRecording(n, me, actions, n', name) && RecordedAs(n.world.records, name, rec)
    ensures NetValid(n', me) && Later(n, n') && RecordedAs(n'.world.records, name, rec)
    decreases |actions|
  {
    hide NetValid, Act, Enabled, DoesNotRecord, RecordedAs;
    if actions != [] {
      ActKeepsNet(n, me, actions[0]);
      ActKeepsRecord(n, me, actions[0], name, rec);
      RunKeepsRecord(Act(n, me, actions[0]), me, actions[1..], n', name, rec);
    }
  }

  /** The whole-network round trip. In any valid network a publication concludes with a confirmed
      record. Any run follows in which nothing is recorded under the same name: other hosts' requests,
      crashes of peers and of this host, publications of other names, unrecorded ones of the same name,
      all interleaved. Then get-secret, asking the peers in any order, returns exactly the published
      bytes as soon as treshold of the peers that acknowledged can be reached. */
  lemma RecordedSecretIsRetrievable(n: Net, me: Self, uuid: string, later: seq<Action>, n': Net,
                                    order: seq<string>, up: seq<bool>)
    requires NetValid(n, me) && Enabled(n, me, Conclude(uuid, Answered(Saved))) && OwnerMatches(me.commonName, me.owner)
    requires RunsWithoutRecording(Act(n, me, Conclude(uuid, Answered(Saved))), me, later, n',
                                  n.world.published[uuid].deal.name)
    requires |order| == |up|
    ensures NetValid(n', me)
    ensures var pub := n.world.published[uuid];
      |Asked(order, up, |order|) * pub.holders| >= pub.deal.treshold ==>
        Retrieve(n'.world, me, pub.deal.name, order, up) == Success(pub.deal.raw)
  {
    hide NetValid, Enabled, Act, RunsWithoutRecording, RecordedAs, Retrieve, WorldValid;
    ConcludedIsRecorded(n, me, uuid);
    var pub := n.world.published[uuid];
    var n1 := Act(n, me, Conclude(uuid, Answered(Saved)));
    ActKeepsNet(n, me, Conclude(uuid, Answered(Saved)));
    RunKeepsRecord(n1, me, later, n', pub.deal.name, RecordOf(pub));
    RecordNamesPublication(n', pub.deal.name, RecordOf(pub));
    ValidParts(n', me);
    RecordedIsRetrievable(n'.world, me, pub.deal.name, order, up);
  }

  /** The same from any valid network in which the name is recorded, in memory and on disk. */
  lemma RecordStaysRetrievable(n: Net, me: Self, name: string, rec: Record, later: seq<Action>, n': Net,
                               order: seq<string>, up: seq<bool>)
    requires NetValid(n, me) && RecordedAs(n.world.records, name, rec) && OwnerMatches(me.commonName, me.owner)
    requires rec.uuid in n.world.published && rec.uuid !in n.open
    requires RunsWithoutRecording(n, me, later, n', name) && |order| == |up|
    ensures NetValid(n', me)
    ensures var pub := n.world.published[rec.uuid];
      |Asked(order, up, |order|) * pub.holders| >= rec.treshold ==>
        Retrieve(n'.world, me, name, order, up) == Success(pub.deal.raw)
  {
    hide NetValid, RunsWithoutRecording, RecordedAs, Retrieve, WorldValid;
    RunKeepsRecord(n, me, later, n', name, rec);
    RecordNamesPublication(n', name, rec);
    ValidParts(n', me);
    RecordedIsRetrievable(n'.world, me, name, order, up);
  }

  lemma ConcludedIsRecorded(n: Net, me: Self, uuid: string)
    requires NetValid(n, me) && Enabled(n, me, Conclude(uuid, Answered(Saved))) && OwnerMatches(me.commonName, me.owner)
    ensures uuid in n.world.published
    ensures var (pub, n1) := (n.world.published[uuid], Act(n, me, Conclude(uuid, Answered(Saved))));
      && pub.deal.uuid == uuid && uuid !in n1.open && uuid in n1.world.published && n1.world.published[uuid] == pub
      && RecordedAs(n1.world.records, pub.deal.name, RecordOf(pub))
  {
    hide OwnerMatches, SendingValid, WorldValid, PublicationShape;
    PublishedShape(n.world, uuid, me);
    ShapeParameters(n.world.published[uuid], uuid, me);
  }

  lemma RecordNamesPublication(n: Net, name: string, rec: Record)
    requires RecordedAs(n.world.records, name, rec)
    ensures name in n.world.records.memory && n.world.records.memory[name] == rec
  {
  }

  lemma ValidParts(n: Net, me: Self)
    requires NetValid(n, me)
    ensures WorldValid(n.world, me)
  {
  }

  // ---------- one command at a time ----------

  lemma {:induction false} RunAppend(n: Net, me: Self, actions: seq<Action>, n1: Net, a: Action)
    requires Runs(n, me, actions, n1) && Enabled(n1, me, a)
    ensures Runs(n, me, actions + [a], Act(n1, me, a))
    decreases |actions|
  {
    hide Act, Enabled;
    if actions == [] {
      assert ([] + [a])[1..] == [];
    } else {
      assert (actions + [a])[1..] == actions[1..] + [a];
      RunAppend(Act(n, me, actions[0]), me, actions[1..], n1, a);
    }
  }

  /** The first k requests of a publication nothing interrupts are a run. */
  lemma {:induction false} SendAllIsRun(n: Net, me: Self, deal: Deal, targets: seq<string>, attempts: seq<Attempt>,
                                        k: nat)
    returns (actions: seq<Action>)
    requires NetValid(n, me) && Publishable(n.world, me, deal, targets) && k <= |targets| == |attempts|
    ensures Runs(n, me, actions, Net(SendAll(n.world, me, deal, targets, attempts, k).0,
                                     n.open[deal.uuid := Sending(targets, k)]))
  {
    hide SendAll, NetValid, Send, SendEffect, Announce, Act, Runs, Enabled, Publishable;
    if k == 0 {
      BeforeFirstSend(n.world, me, deal, targets, attempts, k);
      FirstStep(n, me, deal, targets);
      actions := [Begin(deal, targets)];
    } else {
      var before := SendAllIsRun(n, me, deal, targets, attempts, k - 1);
      var w1 := SendAll(n.world, me, deal, targets, attempts, k - 1).0;
      NextSend(n.world, me, deal, targets, attempts, k - 1);
      SendStep(n.open, w1, me, deal.uuid, targets, k - 1, attempts[k - 1]);
      RunAppend(n, me, before, Net(w1, n.open[deal.uuid := Sending(targets, k - 1)]),
                SendNext(deal.uuid, attempts[k - 1]));
      actions := before + [SendNext(deal.uuid, attempts[k - 1])];
    }
  }

  lemma FirstStep(n: Net, me: Self, deal: Deal, targets: seq<string>)
    requires Publishable(n.world, me, deal, targets)
    ensures Runs(n, me, [Begin(deal, targets)],
                 Net(Announce(n.world, deal, targets), n.open[deal.uuid := Sending(targets, 0)]))
  {
    hide Publishable, Announce;
    assert [Begin(deal, targets)][1..] == [];
  }

  lemma SendStep(open: map<string, Sending>, w: World, me: Self, uuid: string, targets: seq<string>, i: nat,
                 attempt: Attempt)
    requires i < |targets| && Addressed(w, uuid, targets[i])
    ensures var n := Net(w, open[uuid := Sending(targets, i)]);
      && Enabled(n, me, SendNext(uuid, attempt))
      && Act(n, me, SendNext(uuid, attempt)) ==
           Net(Send(w, me, uuid, targets[i], attempt).0, open[uuid := Sending(targets, i + 1)])
  {
    hide Send, Addressed;
    var n := Net(w, open[uuid := Sending(targets, i)]);
    assert n.open[uuid := Sending(targets, i + 1)] == open[uuid := Sending(targets, i + 1)];
  }

  /** The publishing half of store-secret is a run: so what holds after every run holds after any
      sequence of commands. */
  lemma PublishIsRun(n: Net, me: Self, deal: Deal, targets: seq<string>, attempts: seq<Attempt>, recording: Attempt)
    returns (actions: seq<Action>)
    requires NetValid(n, me) && Publishable(n.world, me, deal, targets) && |targets| == |attempts|
    ensures Runs(n, me, actions, Net(Publish(n.world, me, deal, targets, attempts, recording), n.open))
  {
    hide SendAll, Publishable, NetValid, RecordSecret, AfterSends, WorldValid, Enabled, Act, Runs;
    var sends := SendAllIsRun(n, me, deal, targets, attempts, |targets|);
    var (w1, count) := SendAll(n.world, me, deal, targets, attempts, |targets|);
    ValidParts(n, me);
    PublishableTargets(n.world, me, deal, targets);
    SendAllKeepsWorld(n.world, me, deal, targets, attempts, |targets|);
    NotYetOpen(n, me, deal.uuid);
    CountIsHolders(n.world, w1, count, deal, targets);
    var last := LastStep(n.open, w1, me, count, deal, targets, recording);
    RunAppend(n, me, sends, Net(w1, n.open[deal.uuid := Sending(targets, |targets|)]), last);
    actions := sends + [last];
  }

  /** After the last request the command records the secret or gives up. */
  lemma LastStep(open: map<string, Sending>, w1: World, me: Self, count: nat, deal: Deal, targets: seq<string>,
                 recording: Attempt)
    returns (last: Action)
    requires deal.uuid !in open && deal.uuid in w1.published && w1.published[deal.uuid].deal == deal
    requires count == |w1.published[deal.uuid].holders|
    ensures var n1 := Net(w1, open[deal.uuid := Sending(targets, |targets|)]);
      && Enabled(n1, me, last)
      && Act(n1, me, last) == Net(if count < deal.treshold then w1
            else
              var rec := Record(deal.uuid, deal.treshold, count);
              w1.(records := RecordSecret(w1.records, me, deal.name, rec, recording).0), open)
  {
    hide RecordSecret;
    var n1 := Net(w1, open[deal.uuid := Sending(targets, |targets|)]);
    assert n1.open - {deal.uuid} == open;
    last := if count < deal.treshold then Abandon(deal.uuid) else Conclude(deal.uuid, recording);
  }

  lemma NotYetOpen(n: Net, me: Self, uuid: string)
    requires NetValid(n, me) && FreshUuid(n.world, uuid)
    ensures uuid !in n.open
  {
    hide WorldValid;
    if uuid in n.open {
      SendingParts(n.world, uuid, n.open[uuid], me);
    }
  }

  lemma CountIsHolders(w: World, w': World, count: nat, deal: Deal, targets: seq<string>)
    requires Targets(w, targets) && AfterSends(w, w', count, deal, targets, |targets|)
    ensures deal.uuid in w'.published && w'.published[deal.uuid].deal == deal
    ensures count == |w'.published[deal.uuid].holders|
  {
  }
}
