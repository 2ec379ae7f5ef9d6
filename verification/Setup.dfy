/** The bootstrap of one host (setup_secretweb.py): publishing KEY1 to every other host, and the order
    in which config.ini is written. */
module Setup {
  import opened Wrappers
  import opened ByteCodec
  import opened CryptoFile
  import opened Shares
  import opened Decoder
  import opened Dealing
  import opened ShareStore
  import opened Network
  import opened Retrieval
  import opened Initiator
  import opened Quorum
  import ShareServer
  import Client
  import Identity

  function Elements(targets: seq<string>): (s: set<string>)
    ensures forall p :: p in s <==> p in targets
  {
    set p | p in targets
  }

  /** A publication every one of the other hosts acknowledged. */
  ghost predicate HeldByAll(w: World, key1: Key1Config, raw: seq<byte>, others: seq<string>) {
    && key1.uuid in w.published
    && var pub := w.published[key1.uuid];
       && pub.holders == Elements(others) && pub.deal.raw == raw && pub.deal.name == key1.name
       && pub.deal.treshold == key1.treshold && pub.deal.shares == key1.shares == |others|
       && (key1.shares, key1.treshold) == Key1Parameters(|others|)
  }

  datatype PublishError = TooFewHosts | NotSplit | StoreFailed(host: string)

  /** The POST of a share is acknowledged. */
  predicate Accepted(me: Self, attempt: Attempt) {
    Identity.OwnerMatches(me.commonName, me.owner) && attempt == Answered(Saved)
  }

  /** What KEY1 needs to be published: at least two other hosts, a KEY1 that can be dealt, and that every
      host acknowledges its share. */
  ghost predicate Publishes(me: Self, others: seq<string>, raw: seq<byte>, draws: seq<nat>, attempts: seq<Attempt>) {
    && |others| >= 2 && |raw| <= MAX_SECRET_BYTES && EnoughDraws(draws, raw, |others|, Key1Parameters(|others|).1)
    && |attempts| == |others| && forall i :: 0 <= i < |attempts| ==> Accepted(me, attempts[i])
  }

  lemma PublishesIff(me: Self, others: seq<string>, raw: seq<byte>, draws: seq<nat>, attempts: seq<Attempt>)
    requires |attempts| == |others|
    ensures Publishes(me, others, raw, draws, attempts) <==>
              && |others| >= 2 && |raw| <= MAX_SECRET_BYTES && EnoughDraws(draws, raw, |others|, |others| / 2 + 1)
              && Identity.OwnerMatches(me.commonName, me.owner)
              && forall i :: 0 <= i < |others| ==> attempts[i] == Answered(Saved)
  {
    hide EnoughDraws, Identity.OwnerMatches;
    if Publishes(me, others, raw, draws, attempts) {
      assert Accepted(me, attempts[0]);
    }
  }

  /** The host whose POST is the first without an acknowledgement. */
  ghost predicate FirstRefusing(me: Self, others: seq<string>, attempts: seq<Attempt>, host: string, i: nat) {
    && i < |others| == |attempts| && others[i] == host && !Accepted(me, attempts[i])
    && forall j :: 0 <= j < i ==> Accepted(me, attempts[j])
  }

  /** `_publish_key1_to_network`: every store has to succeed; the first failure ends the program and is
      the one reported. It succeeds exactly if KEY1 can be dealt and every host acknowledges. */
  method PublishKey1(client: Client.Client, others: seq<string>, raw: seq<byte>, uuid: string, now: string,
                     draws: seq<nat>, attempts: seq<Attempt>)
    returns (r: Result<Key1Config, PublishError>, ghost deal: Deal, ghost tried: nat)
    requires WorldValid(client.W(), client.me) && client.me.lib.utf8(raw)
    requires Targets(client.W(), others) && FreshUuid(client.W(), uuid) && |attempts| == |others|
    modifies client`stores, client`published
    ensures WorldValid(client.W(), client.me) && client.W().records == old(client.W()).records
    ensures forall u :: u in old(client.W()).published ==>
              u in client.W().published && client.W().published[u] == old(client.W()).published[u]
    ensures forall u :: u in client.W().published ==> u in old(client.W()).published || u == uuid
    ensures r == Failure(TooFewHosts) <==> |others| < 2
    ensures r.Success? <==> Publishes(client.me, others, raw, draws, attempts)
    ensures r.Success? ==> r.value.uuid == uuid && r.value.name == "key1" && HeldByAll(client.W(), r.value, raw, others)
    ensures r.Failure? && r.error.StoreFailed? ==>
              tried > 0 && FirstRefusing(client.me, others, attempts, r.error.host, tried - 1)
    ensures r.Failure? && !r.error.StoreFailed? ==> client.W() == old(client.W())
    ensures r.Success? || r.error.StoreFailed? ==>
              && Publishable(old(client.W()), client.me, deal, others) && deal.uuid == uuid && tried <= |others|
              && DealtWith(deal, draws) && deal.raw == raw && (deal.shares, deal.treshold) == Key1Parameters(|others|)
              && client.W() == SendAll(old(client.W()), client.me, deal, others, attempts, tried).0
  {
    hide WorldValid, ValidDeal, HasParticipant, Seats, FreshUuid, EnoughDraws, AfterSends, SendAll, OthersUnchanged;
    hide DealtWith;
    tried := 0;
    deal := Deal(raw, [], "key1", client.me.owner, uuid, now, 0, 0, "");
    var (shares, treshold) := Key1Parameters(|others|);
    if !ValidParameters(shares, treshold) {
      return Failure(TooFewHosts), deal, tried;
    }
    var participants;
    participants, deal := Client.SplitSecret("key1", client.me.owner, shares, treshold, uuid, raw, client.me.lib, now,
                                             draws);
    if participants.Failure? {
      return Failure(NotSplit), deal, tried;
    }
    ghost var w := client.W();
    var failed;
    failed, tried := SendUntilFailure(client, deal, others, participants.value, attempts);
    AfterSendsFrame(w, client.W(), SendAll(w, client.me, deal, others, attempts, tried).1, deal, others, tried);
    if failed.Some? {
      return Failure(StoreFailed(failed.value)), deal, tried;
    }
    AllAcknowledged(w, client.W(), deal, others);
    return Success(Key1Config("key1", uuid, treshold, shares)), deal, tried;
  }

  /** The loop: one POST to each other host, up to the first that is not acknowledged. */
  method SendUntilFailure(client: Client.Client, ghost deal: Deal, others: seq<string>, participants: seq<Share>,
                          attempts: seq<Attempt>)
    returns (failed: Option<string>, ghost tried: nat)
    requires WorldValid(client.W(), client.me) && Publishable(client.W(), client.me, deal, others)
    requires |others| == |attempts| == |participants|
    requires forall i :: 0 <= i < deal.shares ==>
               HasParticipant(deal, i) && participants[i] == ParticipantShare(deal, i)
    modifies client`stores, client`published
    ensures WorldValid(client.W(), client.me)
    ensures tried <= |others| && client.W() == SendAll(old(client.W()), client.me, deal, others, attempts, tried).0
    ensures AfterSends(old(client.W()), client.W(),
                       SendAll(old(client.W()), client.me, deal, others, attempts, tried).1, deal, others, tried)
    ensures failed.None? ==> tried == |others| && forall j :: 0 <= j < |others| ==> Accepted(client.me, attempts[j])
    ensures failed.None? ==> AfterSends(old(client.W()), client.W(), |others|, deal, others, |others|)
    ensures failed.Some? ==> tried > 0 && FirstRefusing(client.me, others, attempts, failed.value, tried - 1)
  {
    hide WorldValid, ValidDeal, HasParticipant, Send, Seats, AfterSends, FreshUuid, SendAll, Publishable, Accepted;
    hide SendEffect, ShareFor;
    ghost var w := client.W();
    tried := 0;
    PublishableTargets(w, client.me, deal, others);
    BeforeFirstSend(w, client.me, deal, others, attempts, tried);
    client.published := Announce(w, deal, others).published;
    SendAllKeepsWorld(w, client.me, deal, others, attempts, tried);
    var i := 0;
    while i < |others|
      invariant i <= |others| && (client.W(), i) == SendAll(w, client.me, deal, others, attempts, i) && tried == i
      invariant WorldValid(client.W(), client.me) && AfterSends(w, client.W(), i, deal, others, i)
      invariant forall j :: 0 <= j < i ==> Accepted(client.me, attempts[j])
    {
      NextSend(w, client.me, deal, others, attempts, i);
      SendAllKeepsWorld(w, client.me, deal, others, attempts, i + 1);
      AcknowledgedStep(w, client.me, deal, others, attempts, i);
      Client.Client.SeatShare(client.published[deal.uuid], others[i], participants[i], i);
      var ok := client.SendShare(participants[i].uuid, others[i], participants[i], attempts[i]);
      tried := i + 1;
      if !ok {
        return Some(others[i]), tried;
      }
      i := i + 1;
    }
    return None, tried;
  }

  /** While all requests so far are acknowledged, the next one is acknowledged exactly if it is saved
      and answered and the host's name matches its certificate. */
  lemma AcknowledgedStep(w: World, me: Self, deal: Deal, others: seq<string>, attempts: seq<Attempt>, i: nat)
    requires WorldValid(w, me) && Publishable(w, me, deal, others) && i < |others| == |attempts|
    requires SendAll(w, me, deal, others, attempts, i).1 == i
    ensures SendAll(w, me, deal, others, attempts, i + 1).1 == i + 1 <==> Accepted(me, attempts[i])
  {
    hide WorldValid, Publishable, SendAll, Savers;
    AcknowledgedExactly(w, me, deal, others, attempts, i);
    AcknowledgedExactly(w, me, deal, others, attempts, i + 1);
  }

  lemma AfterSendsFrame(w: World, w': World, count: nat, deal: Deal, others: seq<string>, k: nat)
    requires Targets(w, others) && k <= |others| && AfterSends(w, w', count, deal, others, k)
    ensures w'.records == w.records
    ensures forall u :: u in w.published ==> u in w'.published && w'.published[u] == w.published[u]
    ensures forall u :: u in w'.published ==> u in w.published || u == deal.uuid
  {
  }

  /** As many acknowledgements as hosts means that every host acknowledged. */
  lemma AllAcknowledged(w: World, w': World, deal: Deal, others: seq<string>)
    requires Targets(w, others) && AfterSends(w, w', |others|, deal, others, |others|)
    ensures deal.uuid in w'.published && w'.published[deal.uuid].deal == deal
    ensures w'.published[deal.uuid].holders == Elements(others)
    ensures w'.records == w.records
    ensures forall u :: u in w.published ==> u in w'.published && w'.published[u] == w.published[u]
  {
    var holders, all := w'.published[deal.uuid].holders, Elements(others);
    DistinctElements(others);
    assert holders <= all;
    assert all == holders + (all - holders);
    assert all - holders == {};
  }

  lemma {:induction false} DistinctElements(others: seq<string>)
    requires forall i, j :: 0 <= i < j < |others| ==> others[i] != others[j]
    ensures |Elements(others)| == |others|
    decreases |others|
  {
    if others != [] {
      var n := |others| - 1;
      DistinctElements(others[..n]);
      assert others == others[..n] + [others[n]];
      assert Elements(others) == Elements(others[..n]) + {others[n]};
    }
  }

  /** The bootstrap takes any listed name with the host label of its certificate as this host's own, but
      KEY1 can be published only under one without a dot. */
  lemma OwnNameDecidesPublication(me: Self, others: seq<string>, raw: seq<byte>, draws: seq<nat>,
                                  attempts: seq<Attempt>)
    requires me.commonName.Some? && Identity.HostLabel(me.owner) == Identity.HostLabel(me.commonName.value)
    ensures Publishes(me, others, raw, draws, attempts) <==> (
              && '.' !in me.owner
              && |others| >= 2 && |raw| <= MAX_SECRET_BYTES
              && EnoughDraws(draws, raw, |others|, Key1Parameters(|others|).1)
              && |attempts| == |others| && forall i :: 0 <= i < |attempts| ==> attempts[i] == Answered(Saved))
  {
    hide EnoughDraws, Identity.OwnerMatches;
    Identity.OwnHostMatchesIffNoDot(me.commonName.value, me.owner);
    if Publishes(me, others, raw, draws, attempts) {
      assert Accepted(me, attempts[0]);
    }
  }

  /** Any treshold of the other hosts serve enough shares for the boot. */
  lemma AnyTresholdOfHostsSuffices(w: World, me: Self, key1: Key1Config, raw: seq<byte>, others: seq<string>,
                                   order: seq<string>, up: seq<bool>)
    requires WorldValid(w, me) && HeldByAll(w, key1, raw, others) && Identity.OwnerMatches(me.commonName, me.owner)
    requires |order| == |up| && |Asked(order, up, |order|) * Elements(others)| >= key1.treshold
    ensures Serving(w.stores, me, key1.uuid, order, up, |order|) >= key1.treshold
  {
    HoldersAreServing(w, me, key1.uuid, order, up, |order|);
  }

  // ---------- the bootstrap of one host ----------

  /** The entries of config.ini that matter at boot. */
  datatype ConfigIni = ConfigIni(initiated: bool, key1: Option<Key1Config>)

  /** Where the bootstrap ends. */
  datatype Outcome =
    | NotConfirmed | NotPrepared | ServerNotStarted | StoppedWaiting
    | NotPublished(error: PublishError)
    | Completed(key1: Key1Config)

  /** What one run of the bootstrap meets: the operator's confirmation; whether the host list is entered
      and the data files are written, and what is written; whether the startup stages of the server
      before and after shares.dta succeed, and the fault, if any, of the write that creates shares.dta;
      whether all other hosts come online; the new KEY1; and the parameters of its publication. */
  datatype Bootstrap = Bootstrap(
    confirmed: bool, prepared: bool, written: map<string, Bytes>,
    firstStages: bool, nonce: Bytes, tmp: string, fault: Fault, lastStages: bool,
    allOnline: bool, raw: seq<byte>, uuid: string, now: string, draws: seq<nat>, attempts: seq<Attempt>)

  const DATA_FILENAMES: set<string> := {"hosts.dta", "hosts.json", "sites.dta", "sites.json", "secrets.dta"}

  const SHARES_FILENAME: string := "shares.dta"

  lemma SharesFileIsNoDataFile()
    ensures SHARES_FILENAME !in DATA_FILENAMES
  {
    assert "shares.dta"[1] == 'h' && "sites.dta"[1] == 'i' && "sites.json"[1] == 'i' && "secrets.dta"[1] == 'e';
    assert "hosts.dta"[0] == 'h' && "hosts.json"[0] == 'h';
  }

  /** The data directory once the old data files are moved aside and the new ones are written. */
  function Replaced(files: map<string, Bytes>, b: Bootstrap): (r: map<string, Bytes>)
    ensures forall name :: name in DATA_FILENAMES ==>
              (name in r <==> name in b.written) && (name in r ==> r[name] == b.written[name])
    ensures forall name :: name !in DATA_FILENAMES && name !in b.written ==>
              (name in r <==> name in files) && (name in r ==> r[name] == files[name])
  {
    (files - DATA_FILENAMES) + b.written
  }

  /** Existing data files are only replaced on confirmation. */
  predicate Proceeds(files: map<string, Bytes>, b: Bootstrap) {
    (files.Keys * DATA_FILENAMES == {} || b.confirmed) && b.prepared
  }

  /** The server starts: its stages before and after shares.dta succeed, and that file, which is not among
      the files moved aside, loads with the new KEY1 or, where there is none, can be created. */
  predicate ServerStarts(platform: ShareServer.Platform, files: map<string, Bytes>, b: Bootstrap) {
    && b.firstStages && b.lastStages
    && if SHARES_FILENAME in files then ShareServer.LoadBlob(platform, b.raw, files[SHARES_FILENAME]).Some?
       else b.fault == NoFault
  }

  /** The run gets to its end. */
  ghost predicate Completes(me: Self, platform: ShareServer.Platform, files: map<string, Bytes>, others: seq<string>,
                            b: Bootstrap) {
    && Proceeds(files, b) && ServerStarts(platform, files, b) && b.allOnline
    && Publishes(me, others, b.raw, b.draws, b.attempts)
  }

  /** The key1-* entries lead to the given KEY1. */
  ghost predicate LeadsTo(w: World, config: ConfigIni, raw: seq<byte>) {
    config.key1.Some? && config.key1.value.uuid in w.published && w.published[config.key1.value.uuid].deal.raw == raw
  }

  /** How far a run gets. */
  predicate EndsAt(outcome: Outcome, platform: ShareServer.Platform, files: map<string, Bytes>, b: Bootstrap) {
    match outcome
    case NotConfirmed => files.Keys * DATA_FILENAMES != {} && !b.confirmed
    case NotPrepared => (files.Keys * DATA_FILENAMES == {} || b.confirmed) && !b.prepared
    case ServerNotStarted => Proceeds(files, b) && !ServerStarts(platform, files, b)
    case StoppedWaiting => Proceeds(files, b) && ServerStarts(platform, files, b) && !b.allOnline
    case _ => Proceeds(files, b) && ServerStarts(platform, files, b) && b.allOnline
  }

  /** What decides how far a run gets, in full: existing data files are replaced only on confirmation, and
      the server starts only if shares.dta loads with the new KEY1 or, where there is none, can be
      created. */
  lemma EndsAtIff(outcome: Outcome, platform: ShareServer.Platform, files: map<string, Bytes>, b: Bootstrap)
    ensures var erases := exists name :: name in files && name in DATA_FILENAMES;
      var loads := if SHARES_FILENAME in files then ShareServer.LoadBlob(platform, b.raw, files[SHARES_FILENAME]).Some?
                   else b.fault == NoFault;
      EndsAt(outcome, platform, files, b) <==>
        if erases && !b.confirmed then outcome.NotConfirmed?
        else if !b.prepared then outcome.NotPrepared?
        else if !(b.firstStages && loads && b.lastStages) then outcome.ServerNotStarted?
        else if !b.allOnline then outcome.StoppedWaiting?
        else outcome.NotPublished? || outcome.Completed?
  {
    hide ShareServer.LoadBlob, DATA_FILENAMES, SHARES_FILENAME;
    DataFilesExist(files);
  }

  lemma DataFilesExist(files: map<string, Bytes>)
    ensures files.Keys * DATA_FILENAMES != {} <==> exists name :: name in files && name in DATA_FILENAMES
  {
    hide DATA_FILENAMES;
    var erased := files.Keys * DATA_FILENAMES;
    if name :| name in files && name in DATA_FILENAMES {
      assert name in erased;
    }
    if erased != {} {
      var name :| name in erased;
      assert name in files && name in DATA_FILENAMES;
    }
  }

  /** What a run needs to get to its end, in full. */
  lemma CompletesIff(me: Self, platform: ShareServer.Platform, files: map<string, Bytes>, others: seq<string>,
                     b: Bootstrap)
    requires |b.attempts| == |others|
    ensures Completes(me, platform, files, others, b) <==>
              && ((exists name :: name in files && name in DATA_FILENAMES) ==> b.confirmed) && b.prepared
              && b.firstStages && b.lastStages && b.allOnline
              && (SHARES_FILENAME in files ==> ShareServer.LoadBlob(platform, b.raw, files[SHARES_FILENAME]).Some?)
              && (SHARES_FILENAME !in files ==> b.fault == NoFault)
              && |others| >= 2 && |b.raw| <= MAX_SECRET_BYTES && EnoughDraws(b.draws, b.raw, |others|, |others| / 2 + 1)
              && Identity.OwnerMatches(me.commonName, me.owner)
              && forall i :: 0 <= i < |others| ==> b.attempts[i] == Answered(Saved)
  {
    hide Publishes, EnoughDraws, Identity.OwnerMatches, ShareServer.LoadBlob, DATA_FILENAMES, SHARES_FILENAME;
    PublishesIff(me, others, b.raw, b.draws, b.attempts);
    DataFilesExist(files);
  }

  /** `main` of the bootstrap: the data files are replaced, `initiated` is written, the server is
      started, the other hosts are awaited, KEY1 is published, and only then are the key1-* entries
      written; nothing ever removes them. For a KEY1 that differs from every published one the entries
      lead to it afterwards exactly if the run completes. */
  method RunSetup(client: Client.Client, dir: FileSystem, platform: ShareServer.Platform, config: ConfigIni,
                  others: seq<string>, b: Bootstrap)
    returns (config': ConfigIni, outcome: Outcome)
    requires WorldValid(client.W(), client.me) && client.me.lib.utf8(b.raw)
    requires Targets(client.W(), others) && |b.attempts| == |others|
    requires FreshUuid(client.W(), b.uuid) && (config.key1.Some? ==> config.key1.value.uuid != b.uuid)
    requires ShareServer.PlatformCorrect(platform) && |b.nonce| == NONCE_SIZE
    requires b.tmp !in dir.files && b.tmp !in DATA_FILENAMES && b.tmp != SHARES_FILENAME &&
             b.written.Keys <= DATA_FILENAMES
    modifies client`stores, client`published, dir
    ensures WorldValid(client.W(), client.me) && client.W().records == old(client.W()).records
    ensures outcome.Completed? <==> Completes(client.me, platform, old(dir.files), others, b)
    ensures EndsAt(outcome, platform, old(dir.files), b)
    ensures outcome == NotConfirmed ==> dir.files == old(dir.files)
    ensures config'.key1 == if outcome.Completed? then Some(outcome.key1) else config.key1
    ensures config'.initiated <==> config.initiated || (!outcome.NotConfirmed? && !outcome.NotPrepared?)
    ensures outcome.Completed? ==>
              && outcome.key1.uuid == b.uuid && outcome.key1.name == "key1"
              && HeldByAll(client.W(), outcome.key1, b.raw, others)
    ensures (forall u :: u in old(client.W()).published ==> old(client.W()).published[u].deal.raw != b.raw) ==>
              (LeadsTo(client.W(), config', b.raw) <==> Completes(client.me, platform, old(dir.files), others, b))
    ensures outcome.StoppedWaiting? || outcome.NotPublished? || outcome.Completed? ==> SHARES_FILENAME in dir.files
    ensures SHARES_FILENAME in old(dir.files) ==>
              SHARES_FILENAME in dir.files && dir.files[SHARES_FILENAME] == old(dir.files)[SHARES_FILENAME]
    ensures SHARES_FILENAME !in old(dir.files)
            && (outcome.StoppedWaiting? || outcome.NotPublished? || outcome.Completed?) ==>
              ShareServer.SealedUnder(platform, b.raw, dir.files[SHARES_FILENAME])
    ensures outcome.Completed? || outcome.NotPublished? || client.W() == old(client.W())
    ensures SameApartFrom(dir.files, if outcome.NotConfirmed? then old(dir.files) else Replaced(old(dir.files), b),
                          {SHARES_FILENAME, b.tmp})
  {
    hide WorldValid, Publishes, FreshUuid, Targets, HeldByAll, ShareServer.SealedUnder, ServerStarts, SendAll;
    hide Publishable;
    hide FirstRefusing;
    config' := config;
    if dir.files.Keys * DATA_FILENAMES != {} && !b.confirmed {
      return config', NotConfirmed;
    }
    ReplacedFilesKeepShares(platform, dir.files, b);
    dir.files := Replaced(dir.files, b);
    if !b.prepared {
      return config', NotPrepared;
    }
    config' := config'.(initiated := true);
    var started := StartServer(dir, platform, b);
    if !started {
      return config', ServerNotStarted;
    }
    if !b.allOnline {
      return config', StoppedWaiting;
    }
    var published, _, _ := PublishKey1(client, others, b.raw, b.uuid, b.now, b.draws, b.attempts);
    if published.Failure? {
      return config', NotPublished(published.error);
    }
    config' := config'.(key1 := Some(published.value));
    HeldLeadsTo(client.W(), published.value, b.raw, others);
    return config', Completed(published.value);
  }

  lemma ReplacedFilesKeepShares(platform: ShareServer.Platform, files: map<string, Bytes>, b: Bootstrap)
    requires b.written.Keys <= DATA_FILENAMES
    ensures var files' := Replaced(files, b);
      && (SHARES_FILENAME in files' <==> SHARES_FILENAME in files)
      && (SHARES_FILENAME in files ==> files'[SHARES_FILENAME] == files[SHARES_FILENAME])
      && (ServerStarts(platform, files', b) <==> ServerStarts(platform, files, b))
  {
    SharesFileIsNoDataFile();
    hide ShareServer.LoadBlob, DATA_FILENAMES, SHARES_FILENAME;
  }

  lemma HeldLeadsTo(w: World, key1: Key1Config, raw: seq<byte>, others: seq<string>)
    requires HeldByAll(w, key1, raw, others)
    ensures LeadsTo(w, ConfigIni(true, Some(key1)), raw)
  {
  }

  /** The startup of the server as far as shares.dta decides it. */
  method StartServer(dir: FileSystem, platform: ShareServer.Platform, b: Bootstrap) returns (started: bool)
    requires ShareServer.PlatformCorrect(platform) && |b.nonce| == NONCE_SIZE
    requires b.tmp !in dir.files && b.tmp != SHARES_FILENAME
    modifies dir
    ensures started <==> ServerStarts(platform, old(dir.files), b)
    ensures started ==> SHARES_FILENAME in dir.files
    ensures SHARES_FILENAME in old(dir.files) ==>
              SHARES_FILENAME in dir.files && dir.files[SHARES_FILENAME] == old(dir.files)[SHARES_FILENAME]
    ensures SHARES_FILENAME !in old(dir.files) && started ==>
              ShareServer.SealedUnder(platform, b.raw, dir.files[SHARES_FILENAME])
    ensures SameApartFrom(dir.files, old(dir.files), {SHARES_FILENAME, b.tmp})
  {
    if !b.firstStages {
      return false;
    }
    var server := new ShareServer.Server(platform, dir, SHARES_FILENAME, b.raw);
    var shares := server.EnsureSharesFile(b.nonce, b.tmp, b.fault);
    return shares == ShareServer.Started && b.lastStages;
  }

  // ---------- repeating the bootstrap ----------

  /** A document sealed under the other key cannot be opened with this one. */
  ghost predicate Rejects(platform: ShareServer.Platform, key1: Bytes, other: Bytes) {
    forall blob :: ShareServer.SealedUnder(platform, other, blob) ==> ShareServer.LoadBlob(platform, key1, blob) == None
  }

  /** With a shares.dta of another KEY1 in place no bootstrap completes: every one that is confirmed and
      prepared ends when the server fails to start. */
  lemma SharesFileOfOtherKeyBlocks(me: Self, platform: ShareServer.Platform, files: map<string, Bytes>,
                                   others: seq<string>, b: Bootstrap, oldKey: Bytes)
    requires SHARES_FILENAME in files && ShareServer.SealedUnder(platform, oldKey, files[SHARES_FILENAME])
    requires Rejects(platform, b.raw, oldKey)
    ensures !Completes(me, platform, files, others, b)
    ensures Proceeds(files, b) ==> EndsAt(ServerNotStarted, platform, files, b)
  {
  }

  /** Repeating the bootstrap after one that got as far as starting the server, while its shares.dta is
      still there: the run never completes and changes no publication, but it marks the host initiated,
      and the key1-* entries stay what they were. Entries that led to the old KEY1 still do, and not to
      the new one. The next run meets the same shares.dta. */
  method RerunSetup(client: Client.Client, dir: FileSystem, platform: ShareServer.Platform, config: ConfigIni,
                    others: seq<string>, b: Bootstrap, ghost oldKey: seq<byte>)
    returns (config': ConfigIni, outcome: Outcome)
    requires WorldValid(client.W(), client.me) && client.me.lib.utf8(b.raw)
    requires Targets(client.W(), others) && |b.attempts| == |others|
    requires FreshUuid(client.W(), b.uuid) && (config.key1.Some? ==> config.key1.value.uuid != b.uuid)
    requires ShareServer.PlatformCorrect(platform) && |b.nonce| == NONCE_SIZE
    requires b.tmp !in dir.files && b.tmp !in DATA_FILENAMES && b.tmp != SHARES_FILENAME &&
             b.written.Keys <= DATA_FILENAMES
    requires SHARES_FILENAME in dir.files && ShareServer.SealedUnder(platform, oldKey, dir.files[SHARES_FILENAME])
    requires Rejects(platform, b.raw, oldKey) && b.raw != oldKey
    modifies client`stores, client`published, dir
    ensures outcome in {NotConfirmed, NotPrepared, ServerNotStarted}
    ensures Proceeds(old(dir.files), b) <==> outcome == ServerNotStarted
    ensures client.W() == old(client.W())
    ensures config' == if outcome == ServerNotStarted then config.(initiated := true) else config
    ensures LeadsTo(client.W(), config, oldKey) ==>
              LeadsTo(client.W(), config', oldKey) && !LeadsTo(client.W(), config', b.raw)
    ensures SHARES_FILENAME in dir.files && ShareServer.SealedUnder(platform, oldKey, dir.files[SHARES_FILENAME])
  {
    hide WorldValid, Publishes, FreshUuid, Targets, HeldByAll, ShareServer.SealedUnder, ShareServer.LoadBlob, Rejects;
    SharesFileOfOtherKeyBlocks(client.me, platform, dir.files, others, b, oldKey);
    config', outcome := RunSetup(client, dir, platform, config, others, b);
  }
}
