/** From the bootstrap to the boot: KEY1 is published, anything may happen on the network, and the host
    collects its KEY1 again. */
module EndToEnd {
  import opened Wrappers
  import opened ByteCodec
  import opened CryptoFile
  import opened Decoder
  import opened Dealing
  import opened Network
  import opened Retrieval
  import opened NetworkRuns
  import opened Initiator
  import opened Setup
  import Client
  import ShareServer

  /** In this round the peers that are up serve what they hold in some network reachable from n. */
  ghost predicate RoundFrom(n: Net, me: Self, uuid: string, round: Round) {
    exists actions, n', order, up ::
      Runs(n, me, actions, n') && |order| == |up| && round == RoundIn(n'.world, me, uuid, order, up)
  }

  ghost predicate RoundsFrom(n: Net, me: Self, uuid: string, rounds: seq<Round>) {
    forall k :: 0 <= k < |rounds| ==> RoundFrom(n, me, uuid, rounds[k])
  }

  /** All answers of such rounds are honest, for a publication that is not in progress. */
  lemma RoundsAreHonest(n: Net, me: Self, uuid: string, rounds: seq<Round>)
    requires NetValid(n, me) && uuid in n.world.published && uuid !in n.open && RoundsFrom(n, me, uuid, rounds)
    ensures forall k :: 0 <= k < |rounds| ==> HonestRound(rounds[k], n.world.published[uuid], uuid, me)
  {
    hide NetValid, Runs, HonestRound, RoundIn, WorldValid;
    forall k | 0 <= k < |rounds|
      ensures HonestRound(rounds[k], n.world.published[uuid], uuid, me)
    {
      assert RoundFrom(n, me, uuid, rounds[k]);
      var actions, n', order, up :|
        Runs(n, me, actions, n') && |order| == |up| && rounds[k] == RoundIn(n'.world, me, uuid, order, up);
      RunKeepsNet(n, me, actions, n');
      ValidParts(n', me);
      RoundsInValidWorldsAreHonest(n'.world, me, uuid, order, up);
    }
  }

  /** get-key1 and the collection at boot, for the same configuration: where the first round asks the
      peers get-key1 asks, whatever later rounds meet, the boot returns the bytes get-key1 returns
      whenever get-key1 succeeds; and a collection of that one round succeeds exactly then. */
  method BootAgreesWithGetKey1(client: Client.Client, key1: Key1Config, peers: seq<string>, order: seq<string>,
                               up: seq<bool>, rounds: seq<Round>)
    returns (got: Result<seq<byte>, GetError>, booted: Result<seq<byte>, CollectError>)
    requires WorldValid(client.W(), client.me) && |order| == |up| && NoRepeats(order) && peers != []
    requires key1.uuid in client.published && client.published[key1.uuid].deal.name == key1.name
    requires rounds != [] && rounds[0] == RoundIn(client.W(), client.me, key1.uuid, order, up)
    requires RoundsFrom(Net(client.W(), map[]), client.me, key1.uuid, rounds)
    requires forall k :: 0 <= k < |rounds| ==> RoundOver(rounds[k], peers)
    ensures got.Success? ==> booted == Success(got.value)
    ensures |rounds| == 1 ==> (booted.Success? <==> got.Success?)
  {
    hide WorldValid, RoundIn, PublicationShape, HonestRound, RoundOver, RoundsFrom;
    ghost var w := client.W();
    client.WorldFields();
    ghost var pub := w.published[key1.uuid];
    NothingOpen(w, client.me);
    RoundsAreHonest(Net(w, map[]), client.me, key1.uuid, rounds);
    PublishedShape(w, key1.uuid, client.me);
    ShapeParameters(pub, key1.uuid, client.me);
    got := client.GetKey1Cmd(Some(key1), order, up);
    OwnerOfPublication(w, client.me, key1.uuid);
    booted := CollectKey1(Some(key1), client.me.owner, peers, rounds, client.me.lib, pub, client.me);
    ServingPeersCount(w.stores, client.me, key1.uuid, order, up, |order|);
    FirstRoundAnswered(w, client.me, key1.uuid, order, up, rounds, pub.deal.treshold);
  }

  lemma NothingOpen(w: World, me: Self)
    requires WorldValid(w, me)
    ensures NetValid(Net(w, map[]), me)
  {
  }

  lemma OwnerOfPublication(w: World, me: Self, uuid: string)
    requires WorldValid(w, me) && uuid in w.published
    ensures w.published[uuid].deal.owner == me.owner
  {
    PublishedShape(w, uuid, me);
    hide WorldValid;
  }

  lemma FirstRoundAnswered(w: World, me: Self, uuid: string, order: seq<string>, up: seq<bool>, rounds: seq<Round>,
                           t: int)
    requires NoRepeats(order) && |order| == |up| && rounds != [] && rounds[0] == RoundIn(w, me, uuid, order, up)
    ensures Serving(w.stores, me, uuid, order, up, |order|) >= t ==> |Answerers(rounds, |rounds|)| >= t
    ensures |rounds| == 1 ==> |Answerers(rounds, |rounds|)| == Serving(w.stores, me, uuid, order, up, |order|)
  {
    hide RoundIn, Serving;
    var n := Serving(w.stores, me, uuid, order, up, |order|);
    FirstRoundAnswersEnough(w, me, uuid, order, up, rounds, n);
    RoundServesAsMany(w, me, uuid, order, up);
    if |rounds| == 1 {
      OneRoundAnswers(rounds, |rounds|);
    }
  }

  lemma OneRoundAnswers(rounds: seq<Round>, k: nat)
    requires |rounds| == k == 1
    ensures Answerers(rounds, k) == rounds[0].answers.Keys
  {
    assert Answerers(rounds, k - 1) == {};
  }

  /** store-secret and a later get-secret. After a store-secret that reports a record, whatever happens on
      the network without another record under the same name: other hosts' requests, crashes, further
      publications. Then get-secret, asking the peers in any order, returns the very bytes as soon as
      treshold of the peers that saved their share and answered are reachable. `after` is the state of
      the host and the network that the run leads to. */
  method StoreThenGet(client: Client.Client, peers: seq<string>, name: string, raw: seq<byte>, shares: Option<int>,
                      treshold: Option<int>, uuid: string, now: string, draws: seq<nat>, attempts: seq<Attempt>,
                      recording: Attempt, after: Client.Client, ghost later: seq<Action>, ghost open: map<string,
                          Sending>,
                      order: seq<string>, up: seq<bool>)
    returns (stored: Client.PublishResult, ghost deal: Deal, got: Result<seq<byte>, GetError>)
    requires client != after && client.me == after.me && WorldValid(client.W(), client.me) && client.me.lib.utf8(raw)
    requires Targets(client.W(), peers) && FreshUuid(client.W(), uuid) && |attempts| == |peers|
    requires WorldValid(after.W(), after.me) && |order| == |up| && NoRepeats(order)
    modifies client`stores, client`published, client`records
    ensures stored.Recorded? ==> 0 <= deal.shares <= |peers|
    ensures stored.Recorded?
            && RunsWithoutRecording(Net(client.W(), map[]), client.me, later, Net(after.W(), open), name)
            && |Asked(order, up, |order|) * Savers(peers[..deal.shares], attempts[..deal.shares],
                                                   deal.shares)| >= deal.treshold
            ==> got == Success(raw)
  {
    hide WorldValid, RunsWithoutRecording, RecordedAs, Retrieve, FreshUuid, Targets, Savers, Asked;
    stored, deal := client.StoreSecretCmd(peers, name, raw, shares, treshold, uuid, now, draws, attempts, recording);
    got := after.GetSecretCmd(name, true, order, up);
    ghost var n := Net(client.W(), map[]);
    NothingOpen(client.W(), client.me);
    if stored.Recorded? && RunsWithoutRecording(n, client.me, later, Net(after.W(), open), name) {
      RecordStaysRetrievable(n, client.me, name, Record(uuid, deal.treshold, stored.successes), later,
                             Net(after.W(), open), order, up);
    }
  }

  /** The bootstrap and a later boot. After a bootstrap that completed, whatever happens on the network:
      other hosts' requests, crashes, further publications. A boot whose rounds meet networks reachable
      from there returns the very KEY1 of the bootstrap as soon as a majority of the other hosts has
      answered in some round, and keeps collecting until then. */
  method BootAfterSetup(client: Client.Client, dir: FileSystem, platform: ShareServer.Platform, config: ConfigIni,
                        others: seq<string>, b: Bootstrap, rounds: seq<Round>)
    returns (outcome: Outcome, booted: Result<seq<byte>, CollectError>)
    requires WorldValid(client.W(), client.me) && client.me.lib.utf8(b.raw)
    requires Targets(client.W(), others) && |b.attempts| == |others|
    requires FreshUuid(client.W(), b.uuid) && (config.key1.Some? ==> config.key1.value.uuid != b.uuid)
    requires ShareServer.PlatformCorrect(platform) && |b.nonce| == NONCE_SIZE
    requires b.tmp !in dir.files && b.tmp !in DATA_FILENAMES && b.tmp != SHARES_FILENAME &&
             b.written.Keys <= DATA_FILENAMES
    requires forall k :: 0 <= k < |rounds| ==> RoundOver(rounds[k], others)
    modifies client`stores, client`published, dir
    ensures outcome.Completed? <==> Completes(client.me, platform, old(dir.files), others, b)
    ensures outcome.Completed? && RoundsFrom(Net(client.W(), map[]), client.me, b.uuid, rounds) ==>
              booted == if |Answerers(rounds, |rounds|)| >= |others| / 2 + 1 then Success(b.raw)
                        else Failure(StillCollecting(|Answerers(rounds, |rounds|)|))
  {
    hide WorldValid, HonestRound, RoundOver, RoundsFrom, Completes, PublicationShape, HeldByAll, FreshUuid, Targets;
    var config';
    config', outcome := RunSetup(client, dir, platform, config, others, b);
    if !outcome.Completed? {
      return outcome, Failure(NoMetadata);
    }
    ghost var w := client.W();
    HeldFacts(w, client.me, outcome.key1, b.raw, others);
    ghost var pub := w.published[outcome.key1.uuid];
    NothingOpen(w, client.me);
    if RoundsFrom(Net(w, map[]), client.me, outcome.key1.uuid, rounds) {
      RoundsAreHonest(Net(w, map[]), client.me, outcome.key1.uuid, rounds);
    }
    booted := CollectKey1(config'.key1, client.me.owner, others, rounds, client.me.lib, pub, client.me);
  }

  lemma HeldFacts(w: World, me: Self, key1: Key1Config, raw: seq<byte>, others: seq<string>)
    requires WorldValid(w, me) && HeldByAll(w, key1, raw, others)
    ensures key1.uuid in w.published && PublicationShape(w.published[key1.uuid], key1.uuid, me)
    ensures var deal := w.published[key1.uuid].deal;
      deal.raw == raw && deal.name == key1.name && deal.owner == me.owner && deal.treshold == key1.treshold
    ensures ValidParameters(key1.shares, key1.treshold) && key1.treshold == |others| / 2 + 1 && others != []
  {
    PublishedShape(w, key1.uuid, me);
    hide WorldValid;
  }
}
