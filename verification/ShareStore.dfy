/** The share store of one host (server.py): the document in memory, the document on disk, and the
    POST and GET routes with every outcome a save can have. */
module ShareStore {
  import opened Wrappers
  import opened Identity
  import opened MersennePrime
  import opened Interpolation
  import opened Shares
  import opened Decoder

  type Document = map<string, Share>

  /** What a load of the file would return, beside the document the server works on. */
  datatype Store = Store(memory: Document, disk: Document)

  /** How persisting ends: normally, with an exception, or with a crash before or after the rename. */
  datatype SaveOutcome = Saved | SaveRaised | CrashedBeforeRename | CrashedAfterRename

  datatype Reply =
    | Stored            // 201
    | AlreadyStored     // 200
    | BadRequest        // 400
    | Forbidden         // 403
    | NotFound          // 404
    | Conflict          // 409
    | ServerError       // 500
    | Found(share: Share)
    | NoReply           // the server died

  datatype Event =
    | Post(path: string, payload: Option<Share>, commonName: Option<string>, save: SaveOutcome)
    | Get(path: string, commonName: Option<string>)
    | CrashAndReload

  /** A decoder created with no expected name or owner and the default parameters. */
  function Blank(): State {
    Fresh("", "", "", 5, 3)
  }

  /** The share on its own is well-formed: a blank decoder takes it. */
  ghost predicate Acceptable(share: Share) {
    Populate(Blank(), share).Success?
  }

  /** The reply of store_share where it does not reach the save. */
  ghost function Refusal(memory: Document, path: string, payload: Option<Share>,
                         commonName: Option<string>): Option<Reply> {
    if payload.None? || payload.value.uuid != path then Some(BadRequest)
    else if !Acceptable(payload.value) then Some(BadRequest)
    else if !OwnerMatches(commonName, payload.value.owner) then Some(Forbidden)
    else if path !in memory then None
    else if SameShare(memory[path], payload.value) then Some(AlreadyStored)
    else Some(Conflict)
  }

  /** A host that died restarts with the document on disk. */
  function Reload(s: Store): Store {
    Store(s.disk, s.disk)
  }

  /** Memory changes before the save, and a failed save does not undo it. */
  function Persist(s: Store, save: SaveOutcome): (Store, Reply) {
    match save
    case Saved => (Store(s.memory, s.memory), Stored)
    case SaveRaised => (s, ServerError)
    case CrashedBeforeRename => (Reload(s), NoReply)
    case CrashedAfterRename => (Reload(Store(s.memory, s.memory)), NoReply)
  }

  ghost function PostShare(s: Store, path: string, payload: Option<Share>, commonName: Option<string>,
                           save: SaveOutcome): (Store, Reply) {
    match Refusal(s.memory, path, payload, commonName)
    case Some(reply) => (s, reply)
    case None => Persist(s.(memory := s.memory[path := payload.value]), save)
  }

  function GetShare(s: Store, path: string, commonName: Option<string>): Reply {
    if path !in s.memory then NotFound
    else if !OwnerMatches(commonName, s.memory[path].owner) then Forbidden
    else Found(s.memory[path])
  }

  ghost function Step(s: Store, e: Event): (Store, Reply) {
    match e
    case Post(path, payload, commonName, save) => PostShare(s, path, payload, commonName, save)
    case Get(path, commonName) => (s, GetShare(s, path, commonName))
    case CrashAndReload => (Reload(s), NoReply)
  }

  ghost function Run(s: Store, events: seq<Event>): Store
    decreases |events|
  {
    if events == [] then s else Run(Step(s, events[0]).0, events[1..])
  }

  // ---------- the replies ----------

  /** The share on its own is well-formed: integer parameters with 2 <= t <= n, and a non-empty list of
      points with x in [1, PRIME - 1]. */
  ghost predicate WellFormed(share: Share) {
    exists t, n, pts :: WellFormedAs(share, t, n, pts)
  }

  ghost predicate WellFormedAs(share: Share, t: int, n: int, pts: seq<Point>) {
    && IsInteger(share.treshold, t) && IsInteger(share.shares, n) && 2 <= t <= n
    && IsKeys(share.keys, pts) && forall k :: 0 <= k < |pts| ==> 1 <= pts[k].x <= PRIME - 1
  }

  lemma AcceptableIff(share: Share)
    ensures Acceptable(share) <==> WellFormed(share)
  {
    RejectedIff(Blank(), share);
    if t, n, pts :| Fitting(Blank(), share, t, n, pts) {
      assert WellFormedAs(share, t, n, pts);
    }
    if t, n, pts :| WellFormedAs(share, t, n, pts) {
      assert Fitting(Blank(), share, t, n, pts);
    }
  }

  /** Each reply of store_share is given in exactly its case. A refused or repeated POST changes nothing;
      any other adds its payload to memory, and a normal save writes all of memory to disk. */
  lemma PostReplies(s: Store, path: string, payload: Option<Share>, commonName: Option<string>, save: SaveOutcome)
    ensures var (s', reply) := PostShare(s, path, payload, commonName, save);
      && (reply == BadRequest <==> payload.None? || payload.value.uuid != path || !WellFormed(payload.value))
      && (payload.Some? && payload.value.uuid == path && WellFormed(payload.value) ==>
            && (reply == Forbidden <==> !OwnerMatches(commonName, payload.value.owner))
            && (OwnerMatches(commonName, payload.value.owner) ==>
                  && (reply == AlreadyStored <==> path in s.memory && SameShare(s.memory[path], payload.value))
                  && (reply == Conflict <==> path in s.memory && !SameShare(s.memory[path], payload.value))
                  && (reply == Stored <==> path !in s.memory && save == Saved)
                  && (reply == ServerError <==> path !in s.memory && save == SaveRaised)
                  && (reply == NoReply <==> path !in s.memory && save in {CrashedBeforeRename, CrashedAfterRename})))
      && (reply in {BadRequest, Forbidden, AlreadyStored, Conflict} ==> s' == s)
      && (reply == Stored ==> s'.memory == s'.disk == s.memory[path := payload.value])
      && (reply == ServerError ==> s'.memory == s.memory[path := payload.value] && s'.disk == s.disk)
      && (reply == NoReply ==>
            && s'.memory == s'.disk
            && s'.disk == if save == CrashedBeforeRename then s.disk else s.memory[path := payload.value])
  {
    hide OwnerMatches, SameShare, WellFormed, Acceptable;
    if payload.Some? {
      AcceptableIff(payload.value);
    }
  }

  // ---------- what every step keeps ----------

  ghost predicate SubDocument(d: Document, e: Document) {
    forall uuid :: uuid in d ==> uuid in e && e[uuid] == d[uuid]
  }

  /** Every stored payload is filed under its own uuid and is accepted by a blank decoder. */
  ghost predicate WellFiled(d: Document) {
    forall uuid :: uuid in d ==> d[uuid].uuid == uuid && Acceptable(d[uuid])
  }

  ghost predicate StoreValid(s: Store) {
    SubDocument(s.disk, s.memory) && WellFiled(s.memory)
  }

  /** A new entry, however its save ends. */
  lemma PersistKeeps(s: Store, share: Share, save: SaveOutcome)
    requires StoreValid(s) && share.uuid !in s.memory && Acceptable(share)
    ensures var (s', reply) := Persist(s.(memory := s.memory[share.uuid := share]), save);
      && StoreValid(s') && SubDocument(s.disk, s'.disk)
      && (reply != NoReply ==> SubDocument(s.memory, s'.memory))
      && reply in {Stored, ServerError, NoReply}
      && (reply == Stored ==> s'.disk == s'.memory && share.uuid in s'.disk && s'.disk[share.uuid] == share)
      && forall uuid :: uuid in s'.memory ==>
           (uuid in s.memory && s'.memory[uuid] == s.memory[uuid]) || (uuid == share.uuid && s'.memory[uuid] == share)
  {
    hide Acceptable;
  }

  /** Every step keeps disk a part of memory and never loses or changes what is on disk; a step
      without a crash never loses or changes what is in memory; only a POST adds, and only its own uuid. */
  lemma StepKeeps(s: Store, e: Event)
    requires StoreValid(s)
    ensures StoreValid(Step(s, e).0)
    ensures SubDocument(s.disk, Step(s, e).0.disk)
    ensures Step(s, e).1 != NoReply ==> SubDocument(s.memory, Step(s, e).0.memory)
    ensures Step(s, e).1 == Stored ==>
              Step(s, e).0.disk == Step(s, e).0.memory && e.payload == Some(Step(s, e).0.disk[e.path])
    ensures forall uuid :: uuid in Step(s, e).0.memory && uuid !in s.memory ==>
              e.Post? && e.path == uuid && e.payload == Some(Step(s, e).0.memory[uuid])
              && OwnerMatches(e.commonName, Step(s, e).0.memory[uuid].owner)
  {
    hide Acceptable, OwnerMatches, SameShare, Persist, WellFiled;
    if e.Post? && Refusal(s.memory, e.path, e.payload, e.commonName).None? {
      PersistKeeps(s, e.payload.value, e.save);
    } else if e.CrashAndReload? {
      ReloadKeeps(s);
    }
  }

  lemma ReloadKeeps(s: Store)
    requires StoreValid(s)
    ensures StoreValid(Reload(s))
  {
    hide Acceptable;
  }

  lemma {:induction false} RunKeeps(s: Store, events: seq<Event>)
    requires StoreValid(s)
    ensures StoreValid(Run(s, events)) && SubDocument(s.disk, Run(s, events).disk)
    decreases |events|
  {
    if events != [] {
      StepKeeps(s, events[0]);
      RunKeeps(Step(s, events[0]).0, events[1..]);
    }
  }

  // ---------- durability ----------

  /** A share acknowledged with 201 is returned unchanged to its owner after any further requests,
      failed saves, crashes and reloads. */
  lemma AcknowledgedShareSurvives(s: Store, post: Event, later: seq<Event>, commonName: Option<string>)
    requires StoreValid(s) && Step(s, post).1 == Stored
    requires OwnerMatches(commonName, post.payload.value.owner)
    ensures post.Post? && post.payload.Some?
    ensures GetShare(Run(Step(s, post).0, later), post.path, commonName) == Found(post.payload.value)
  {
    hide OwnerMatches, Acceptable, SameShare, WellFiled;
    StepKeeps(s, post);
    RunKeeps(Step(s, post).0, later);
  }

  // ---------- first payload wins ----------

  ghost predicate NoCrash(s: Store, events: seq<Event>)
    decreases |events|
  {
    events == [] || (Step(s, events[0]).1 != NoReply && NoCrash(Step(s, events[0]).0, events[1..]))
  }

  /** While the server stays up, the first payload stored for a uuid never changes, whoever posts. */
  lemma {:induction false} FirstPayloadWins(s: Store, events: seq<Event>, uuid: string)
    requires StoreValid(s) && uuid in s.memory && NoCrash(s, events)
    ensures uuid in Run(s, events).memory && Run(s, events).memory[uuid] == s.memory[uuid]
    decreases |events|
  {
    if events != [] {
      StepKeeps(s, events[0]);
      FirstPayloadWins(Step(s, events[0]).0, events[1..], uuid);
    }
  }

  // ---------- what is on disk while the server stays up ----------

  ghost predicate SomeStored(s: Store, events: seq<Event>)
    decreases |events|
  {
    events != [] && (Step(s, events[0]).1 == Stored || SomeStored(Step(s, events[0]).0, events[1..]))
  }

  /** Only a step answered 201 writes, and it writes everything in memory. */
  lemma DiskStep(s: Store, e: Event)
    requires Step(s, e).1 != NoReply
    ensures Step(s, e).0.disk == if Step(s, e).1 == Stored then Step(s, e).0.memory else s.disk
  {
    hide Acceptable, OwnerMatches, SameShare;
  }

  /** While the server stays up, a share in memory gets to disk exactly if some POST, of whatever
      share, is answered 201. */
  lemma {:induction false} OnDiskIffSomeStored(s: Store, events: seq<Event>, uuid: string)
    requires StoreValid(s) && uuid in s.memory && NoCrash(s, events)
    ensures uuid in Run(s, events).disk <==> uuid in s.disk || SomeStored(s, events)
    decreases |events|
  {
    if events != [] {
      hide Step;
      var s' := Step(s, events[0]).0;
      DiskStep(s, events[0]);
      StepKeeps(s, events[0]);
      OnDiskIffSomeStored(s', events[1..], uuid);
      if Step(s, events[0]).1 == Stored {
        RunKeeps(s', events[1..]);
      }
    }
  }

  /** A share that a POST put into memory, and whose re-post is later answered 200 "already-stored",
      survives a crash exactly if one of the POSTs in between, its own first one included, was
      answered 201: the 200 itself writes nothing. */
  lemma AlreadyStoredSurvivesIffSaved(s: Store, first: Event, later: seq<Event>, again: Event,
                                      commonName: Option<string>)
    requires StoreValid(s) && first.Post? && Step(s, first).1 in {Stored, ServerError}
    requires NoCrash(Step(s, first).0, later)
    requires again.Post? && again.path == first.path && Step(Run(Step(s, first).0, later), again).1 == AlreadyStored
    requires OwnerMatches(commonName, first.payload.value.owner)
    ensures first.payload.Some?
    ensures GetShare(Reload(Step(Run(Step(s, first).0, later), again).0), first.path, commonName)
         == if Step(s, first).1 == Stored || SomeStored(Step(s, first).0, later) then Found(first.payload.value)
            else NotFound
  {
    hide Step, OwnerMatches;
    var s1 := Step(s, first).0;
    var s2 := Run(s1, later);
    NewInMemory(s, first);
    StepKeeps(s, first);
    FirstPayloadWins(s1, later, first.path);
    OnDiskIffSomeStored(s1, later, first.path);
    RunKeeps(s1, later);
    AlreadyStoredChangesNothing(s2, again);
  }

  lemma AlreadyStoredChangesNothing(s: Store, post: Event)
    requires Step(s, post).1 == AlreadyStored
    ensures Step(s, post).0 == s
  {
    hide Refusal, OwnerMatches;
  }

  /** A POST answered 201 or 500 was for a new uuid: its payload is now in memory, and on disk exactly
      after a 201. */
  lemma NewInMemory(s: Store, post: Event)
    requires StoreValid(s) && post.Post? && Step(s, post).1 in {Stored, ServerError}
    ensures post.payload.Some? && post.path !in s.memory && post.path !in s.disk
    ensures post.path in Step(s, post).0.memory && Step(s, post).0.memory[post.path] == post.payload.value
    ensures post.path in Step(s, post).0.disk <==> Step(s, post).1 == Stored
  {
    hide Acceptable, OwnerMatches, SameShare;
  }

  /** So a 200 is no proof of durability: when the save of the first POST raised, the identical
      re-post is answered 200 and the share is gone after a crash. */
  lemma RepostAfterFailedSaveIsLost(s: Store, share: Share, commonName: Option<string>)
    requires StoreValid(s) && share.uuid !in s.memory
    requires Acceptable(share) && OwnerMatches(commonName, share.owner)
    ensures var first := Post(share.uuid, Some(share), commonName, SaveRaised);
      var second := Post(share.uuid, Some(share), commonName, Saved);
      var s1 := Step(s, first);
      var s2 := Step(s1.0, second);
      && s1.1 == ServerError && s2.1 == AlreadyStored
      && GetShare(s2.0, share.uuid, commonName) == Found(share)
      && GetShare(Step(s2.0, CrashAndReload).0, share.uuid, commonName) == NotFound
  {
    SameValueReflexive(share.keys);
    SameValueReflexive(share.treshold);
    SameValueReflexive(share.shares);
    hide Acceptable, OwnerMatches;
  }

  /** A 200 to a GET carries exactly the stored payload, and only to a certificate of its owner. */
  lemma GetReturnsStoredPayload(s: Store, path: string, commonName: Option<string>)
    requires StoreValid(s)
    ensures GetShare(s, path, commonName).Found? <==>
              path in s.memory && OwnerMatches(commonName, s.memory[path].owner)
    ensures GetShare(s, path, commonName) == NotFound <==> path !in s.memory
    ensures GetShare(s, path, commonName) == Forbidden <==>
              path in s.memory && !OwnerMatches(commonName, s.memory[path].owner)
    ensures GetShare(s, path, commonName).Found? ==>
              var share := GetShare(s, path, commonName).share;
              share == s.memory[path] && share.uuid == path && Acceptable(share)
  {
    hide Acceptable;
  }
}
