# A verified model of secretweb

secretweb lets hosts keep Shamir shares of each other's secrets, so that a host can boot unattended by
collecting enough shares of its own disk key (KEY1) from its peers. This project models that system in
Dafny, from the arithmetic of one share up to the network, and proves what it is for: a recorded secret
comes back exactly, fewer shares than the treshold say nothing about it, a share answered 201 is never
lost, and the circular boot dependency is resolved exactly when enough hosts are up.

`dafny verify dfyconfig.toml` checks everything.

## Structure

| files | content |
|---|---|
| ModularArithmetic, Polynomial, Interpolation | residues and inverses, root bound, interpolation, hiding of one chunk; generic in the prime |
| MersenneTest, LucasLehmerResidues, MersennePrime | the proof that the modulus 2^127 - 1 is prime |
| FieldSharing, ByteCodec, ShamirSecret | the loops and the class of `shamir.py` |
| Shares, Decoder, Dealing, Hiding, RoundTrip | the decoder as a state machine, what a dealing is, hiding of whole shares, the class-level round trip |
| Identity, ShareStore, CryptoFile, ShareServer | owner check, share routes, atomic encrypted files, and the server that refines the store |
| Quorum, Network, Retrieval, NetworkRuns | publication, records and retrieval, and whole runs of the network, interleaved request by request |
| Collection, Client | collecting the shares of one publication; the client commands |
| Initiator, Boot | the boot-time collection of KEY1 and the boot of a whole network |
| Setup, Handoff | the bootstrap of one host and the startup handoff |
| EndToEnd | from the bootstrap over any run of the network to the boot |

The loops and objects of the source are methods and classes; each is proved against a function or a
relation about which the theorems are stated. `FieldSharing.ReconstructSecret`, for instance, is the nested
Lagrange loop, and its contract says that it returns the constant of the polynomial through the points.
Randomness is a finite list of draws and every theorem holds for every list; a rejection loop that needs
more draws than the list holds is reported as still drawing.

## What the proofs show about the code

- A reply 200 "already-stored" is no proof that a share is on disk: after a save that failed, the identical
  POST is answered 200 without a write, and a crash then loses the share unless some POST in between was
  answered 201. A 201 is durable as far as a rename is: the directory is not synchronised after it, which is
  not modelled (`ShareStore.AlreadyStoredSurvivesIffSaved`, `ShareStore.RepostAfterFailedSaveIsLost`).
- A bootstrap that got as far as starting its server cannot be repeated: `shares.dta` is not moved aside with
  the other data files, so the server with the next KEY1 fails to start. The advice to fix the problem and
  rerun the script therefore does not hold while that file is there. Each such attempt marks the host as
  initiated and leaves the key1 entries of the bootstrap before, so the next boot reconstructs the old KEY1
  (`Setup.RerunSetup`).
- A host entered under a name with a dot can store nothing anywhere, because only the certificate name is
  cut at the first dot; the bootstrap, which cuts both, accepts such a name and then fails at the first share
  (`Retrieval.DottedNamePublishesNothing`, `Setup.OwnNameDecidesPublication`).
- An expected owner is checked on the first share only (`Decoder.OwnerNotKept`), and the test for repeated
  keys after it never decides (`Decoder.RepeatedKeysAreMalformed`).
- If the wait for the startup status times out, the server normally dies when it cannot send its status; it
  runs without a pidfile only if it sends the status between the expiry and the closing of the other end
  (`Handoff.StartServer`).
- The docstring of the ShamirSecret constructor says that only the integers after the length word are
  shared; the code shares the length word too, and the model follows the code.

## Model

| member | source | states |
|---|---|---|
| MersennePrime.PrimeIsPrime | shamir.py:13-14 | The modulus 2^127 - 1 is prime, as the source says of it; nothing below assumes it. |
| MersenneTest.LucasLehmerTest | shamir.py:13-14 | For every e >= 1, a zero Lucas-Lehmer residue at step e makes 2^(e+2) - 1 prime. |
| MersenneTest.GroupTooLarge | shamir.py:13-14 | An element whose 2^e-th power is -1 modulo d forces 2^(e+1) <= d^2: its powers are pairwise different residues. |
| MersenneTest.LucasLehmerIsPower | shamir.py:13-14 | The n-th residue is twice the rational part of (2 + sqrt 3)^(2^n), an element of norm 1. |
| LucasLehmerResidues.LastResidueIsZero | shamir.py:13-14 | The residue that decides the primality of 2^127 - 1 is 0. |
| ModularArithmetic.ModInverse | shamir.py:337-338 | `pow(a, -1, p)`: an inverse in [0, p), or no value exactly where a and p share a divisor. |
| ModularArithmetic.InvertibleIffNonZero | shamir.py:337-342 | Modulo a prime the inverse exists exactly for non-zero residues. |
| ModularArithmetic.NoZeroDivisors | shamir.py:335-338 | A product that is 0 modulo a prime has a factor that is. |
| Polynomial.Division | shamir.py:348-359 | f(x) - f(r) = (x - r) q(x) for the synthetic quotient q of the polynomial of one chunk. |
| Polynomial.RootBound | shamir.py:319-345 | A polynomial with n coefficients and n roots different modulo a prime has only zero coefficients. |
| Polynomial.PolynomialUnique | shamir.py:319-345 | Two polynomials with n coefficients that agree at n points different modulo a prime have the same coefficients. |
| Interpolation.DenominatorInvertible | shamir.py:331-338 | The j-th Lagrange denominator is invertible exactly when no other point has the x of point j. |
| Interpolation.LagrangeAtPoint | shamir.py:328-345 | At the x of one point the Lagrange sum is that point's y. |
| Interpolation.InterpolationExists | shamir.py:319-345 | Through n points with different x goes a polynomial with n coefficients. |
| Interpolation.ConstantRecovered | shamir.py:319-345 | Any polynomial of degree below the number of points it passes through has the constant those points determine. |
| Interpolation.LagrangeSumIsConstant | shamir.py:327-345 | The Lagrange sum at 0 is the constant of the polynomial through the points. |
| Interpolation.OrderIrrelevant | shamir.py:319-345 | Points listed in another order determine the same constant. |
| Interpolation.TamperChangesConstant | shamir.py:328-345 | Replacing one y by a value different modulo the prime always changes the constant. |
| Interpolation.ThresholdHiding | shamir.py:348-395 | For t - 1 points with different non-zero x and every candidate constant exactly one choice of the t - 1 random coefficients yields the points. |
| Hiding.OtherRow | shamir.py:379-395 | A dealt row can be replaced by a row dealt for any other integer that fewer than t chosen participants cannot tell apart. |
| Hiding.SharesExcludeNoSecret | shamir.py:120-171 | Fewer than t participants hold keys that some dealing of any other list of as many integers, with the same x values for everyone, gives them too. |
| Hiding.RowDetermined | shamir.py:362-395 | t - 1 points and the shared integer determine the point at every other x. |
| Hiding.AlternativeIsUnique | shamir.py:120-171 | For exactly t - 1 participants there is one such dealing for every other list: any two that agree on their keys and on the x values are equal. |
| Hiding.DrawsHideConstant | shamir.py:362-395 | For t - 1 points at different non-zero x and every constant, exactly one list of t - 1 draws makes the drawn polynomial pass through them. |
| Hiding.OtherDraws | shamir.py:120-137 | Fewer than t participants' keys of a whole dealing are those of a dealing of any other list of as many integers, drawn with other coefficients and the same x values. |
| Hiding.DrawsHideSecret | shamir.py:120-137 | For t - 1 participants exactly one stream of draws does so. |
| Hiding.DealHidesSecret | shamir.py:120-171 | The same for deals of byte strings with as many chunks, of which the hash is not part. |
| FieldSharing.Polynom | shamir.py:348-359 | The power-sum loop gives the value, modulo p, of the polynomial whose constant is the last coefficient (Horner evaluation of the reversed list). |
| FieldSharing.EvalExtend | shamir.py:355-358 | One more coefficient adds one power term to the Horner value. |
| FieldSharing.Coeff | shamir.py:362-376 | The t - 1 draws, highest degree first, followed by the secret; missing exactly while draws are missing. |
| FieldSharing.RandomCoefficients | shamir.py:374 | The coefficients are the draws, the first draw being that of the highest degree. |
| FieldSharing.XOf | shamir.py:389 | A drawn x lies in [1, p - 1] and is the draw plus 1. |
| FieldSharing.DrawsNeeded | shamir.py:388-393 | The draws looked at hold n different x values, and one draw fewer does not. |
| FieldSharing.ShortestPrefix | shamir.py:388-393 | No other prefix of the draws is the shortest with n different x values. |
| FieldSharing.DrawOneMore | shamir.py:389-393 | One pass of the rejection loop: a new x adds the point of the polynomial there, a known x adds nothing. |
| FieldSharing.GenerateShares | shamir.py:379-395 | The points of the drawn polynomial at the first n different x values drawn, and the unused draws; n points with pairwise different x in [1, p - 1]; the loop ends exactly if the draws supply n different x values. |
| FieldSharing.DrawnRowIsShares | shamir.py:379-395 | A drawn row consists of n points of the polynomial whose coefficients were drawn. |
| FieldSharing.RepeatedDrawIsSkipped | shamir.py:390-391 | A draw that repeats an x value changes no point. |
| FieldSharing.RowWithoutRejection | shamir.py:379-395 | Where nothing is rejected, the first t - 1 draws are the coefficients and the next n, plus 1, the x values; the others are left. |
| FieldSharing.MatrixWithoutRejection | shamir.py:131-136 | Draws in blocks of t - 1 coefficients and n different x values always suffice, and each integer is shared with a block of its own. |
| FieldSharing.LagrangeProducts | shamir.py:330-336 | The inner loop computes numerator and denominator of the j-th coefficient at 0. |
| FieldSharing.ReconstructSecret | shamir.py:319-345 | Fails exactly when two points share an x modulo p; otherwise returns the constant of the polynomial through the points. |
| FieldSharing.SharesRecoverSecret | shamir.py:319-395 | For every prime, t or more points of a polynomial with t coefficients at different x determine its constant. |
| ByteCodec.ToBigEndian | shamir.py:60 | `to_bytes` gives w bytes that `from_bytes` reads back. |
| ByteCodec.StringToIntegers | shamir.py:38-50 | The loop gives the length followed by the padded chunks. |
| ByteCodec.ChunkAt | shamir.py:46-49 | The k-th chunk is the number of the bytes from k * w on, padded on the right with zeros. |
| ByteCodec.MostSignificantFirst | shamir.py:49 | Numbers are read with the most significant byte first. |
| ByteCodec.IntegerListToString | shamir.py:52-61 | IndexError exactly for the empty list, OverflowError exactly for a chunk that does not fit, and otherwise the joined bytes cut to the length word if they are UTF-8. |
| ByteCodec.ChunksOfJoin | shamir.py:46-61 | Chunking the joined bytes gives the chunks back. |
| ByteCodec.CodecRoundTrip | shamir.py:38-61 | For every chunk width the second function inverts the first. |
| ByteCodec.ChunkCount | shamir.py:44-49 | The list has 1 + ceil(n / w) entries. |
| ByteCodec.EntriesBelow | shamir.py:121-128 | With 8-byte chunks and the size cap every entry is below the modulus. |
| Shares.AsKeys | shamir.py:182-191 | A value counts as keys exactly if it is a non-empty list of two-integer lists. |
| Shares.KeysRoundTrip | shamir.py:162-171 | The keys a dealer sends are read back as its points. |
| Shares.ParsesIff | shamir.py:182-191 | A value is parsed as an integer or as points exactly if it is that integer (True is 1) or the list of those pairs. |
| Shares.SameShareSameKeys | server.py:117 | Payloads that compare equal, where True equals 1, stand for the same points and parameters. |
| Shares.SameMeaningSameShare | server.py:117 | Well-formed payloads with the same points, parameters and metadata compare equal. |
| Decoder.SubmitKeepsValid | shamir.py:199-282 | Every submission keeps: rows of equal length, x pairwise different and in [1, P - 1] per chunk, 2 <= treshold <= shares, ready exactly at treshold rows; a rejection changes nothing, an acceptance returns rows - treshold. |
| Decoder.AcceptedIff | shamir.py:199-282 | A share is accepted exactly if parameters, points and metadata fit, and then state and return value are these. |
| Decoder.RejectedIff | shamir.py:228-266 | A share is rejected exactly if nothing fits, with the error of the first test it fails. |
| Decoder.SameShareSameEffect | server.py:117-118 | Payloads that compare equal have the same effect on every decoder, and among accepted ones only they have. |
| Decoder.MetadataFixedByFirstShare | shamir.py:246-276 | After the first accepted share treshold, shares, uuid, name, date and hash never change, over any run. |
| Decoder.ExpectedNameKept | shamir.py:240-242 | A decoder that expects a name keeps it over any run. |
| Decoder.OwnerNotKept | shamir.py:243-271 | The expected owner is enforced on the first share only; a later share replaces it with any name. |
| Decoder.RepeatedKeysAreMalformed | shamir.py:194-262 | Keys that repeat an accepted row are already refused by the x check. |
| Decoder.ColumnsAreInterpolable | shamir.py:188-196 | From every reachable state the x values of a chunk differ modulo P and are not 0. |
| Decoder.DecodeIsChecked | shamir.py:284-317 | `decode` never reports colliding coordinates, and a value it returns is valid UTF-8 with the accepted hash. |
| Decoder.TamperedChunkDecodesDifferently | shamir.py:297-301 | Changing one y of one accepted share changes the integer of that chunk and of no other. |
| Dealing.HonestShareAccepted | shamir.py:199-282 | A further participant's share is accepted in any order and the count runs to the dealer's treshold. |
| Dealing.RepeatedShareRejected | shamir.py:194-196 | A participant who contributed is rejected. |
| Dealing.BlocksAreEnough | shamir.py:131-136 | A block of t - 1 coefficients and n different x values for each integer is always enough to deal a secret. |
| Dealing.DealtWithoutRejection | shamir.py:131-136 | Where no draw is rejected, row k lies on the polynomial of the k-th block of draws. |
| Dealing.RowRecovered | shamir.py:297-301 | The points of any treshold participants determine the dealt integer. |
| Dealing.DecodeRecovers | shamir.py:284-317 | Treshold or more participants, in any order, decode to the dealt bytes; fewer leave the decoder unready. |
| Shamir.ShamirSecret.New | shamir.py:71-118 | `__init__`: an empty decoder with the given parameters exactly if 2 <= treshold <= shares, otherwise the first test that fails. |
| Shamir.ShamirSecret.CreateSecret | shamir.py:120-137 | The matrix grows by the rows drawn for the chunk integers, on any object; an oversized secret changes nothing; it succeeds exactly if the draws suffice. |
| Shamir.ShamirSecret.DealRows | shamir.py:131-136 | One row of points for each integer, each with draws of its own. |
| Shamir.ShamirSecret.IterateParticipants | shamir.py:139-171 | Participant i receives column i of the matrix with the metadata; an object that has not dealt yields nothing. |
| Shamir.ShamirSecret.ValidateKeys | shamir.py:173-197 | Accepts exactly the keys that fit beside the accepted rows. |
| Shamir.ShamirSecret.MatchesAccepted | shamir.py:239-259 | The comparison with the expected or accepted metadata. |
| Shamir.ShamirSecret.PopulateDecoder | shamir.py:199-282 | New state, return value and error are those of the submission function; a rejection changes nothing. |
| Shamir.ShamirSecret.DecodeSecret | shamir.py:284-317 | The empty string before treshold; then the bytes of the interpolated integers, or exactly the error for bytes that are no secret or have another hash; never a collision. |
| RoundTrip.DealAndDecode | shamir.py:120-317 | Dealing, handing out, accepting any different participants in any order and decoding returns the secret from treshold shares on. |
| Identity.HostLabel | server.py:75-81 | The part of the common name before its first dot. |
| Identity.OwnerMatchesIff | server.py:84-92 | A certificate matches exactly the owners that equal its host label letter by letter up to case; without a common name it matches none. |
| Identity.OwnerIsBareLabel | server.py:84-92 | Only an owner name without a dot matches a certificate. |
| Identity.OwnersOfOneCertificate | server.py:84-92 | Owners matched by one certificate differ at most in capitalisation, and a bare label is matched by its own certificate. |
| Identity.OwnHostMatchesIffNoDot | setup_secretweb.py:177-187 | The name the bootstrap takes for this host matches its certificate at the peers exactly if it has no dot. |
| ShareStore.StepKeeps | server.py:95-141 | Each request or crash keeps disk a part of memory and every disk entry; 201 means disk equals memory; only a POST adds, under its own uuid and for a matching owner. |
| ShareStore.RunKeeps | server.py:95-141 | The same over any run. |
| ShareStore.AcknowledgedShareSurvives | server.py:122-136 | A share answered 201 is returned unchanged after any further requests, failed saves, crashes and reloads. |
| ShareStore.OnDiskIffSomeStored | server.py:115-125 | While the server stays up, a share in memory gets to disk exactly if some POST, of whatever share, is answered 201. |
| ShareStore.AlreadyStoredSurvivesIffSaved | server.py:115-125 | A share whose re-post is answered 200 survives a crash exactly if its first POST or one of those after it was answered 201. |
| ShareStore.RepostAfterFailedSaveIsLost | server.py:115-123 | A concrete run in which a share answered 200 is lost. |
| ShareStore.FirstPayloadWins | server.py:115-122 | While the server stays up the first payload of a uuid never changes. |
| ShareStore.AcceptableIff | server.py:108-111 | A blank decoder accepts exactly the well-formed payloads. |
| ShareStore.PostReplies | server.py:95-125 | Each reply is given in exactly its case, and changes memory and disk exactly so. |
| ShareStore.GetReturnsStoredPayload | server.py:128-136 | A GET answers 404, 403 or the stored payload in exactly their cases, the payload only to a certificate of its owner. |
| CryptoFile.EnvelopeRoundTrip | cryptofile.py:64-95 | Decrypting an encrypted document with the same key and purpose gives it back. |
| CryptoFile.DecryptsIff | cryptofile.py:73-95 | A document decrypts exactly if it is magic, version, nonce and a text the cipher opens with the key of the purpose and magic, version and purpose as associated data. |
| CryptoFile.DecryptedWasEncrypted | cryptofile.py:64-95 | With a cipher that opens only what was sealed, whatever decrypts is an encryption of the result. |
| CryptoFile.FileSystem.AtomicWriteBytes | cryptofile.py:98-117 | For every failure and crash the path holds the complete old or new document; no third file changes. |
| ShareServer.SealedDocumentLoads | cryptofile.py:120-131 | Loading a saved document gives it back. |
| ShareServer.Server.PersistShares | server.py:139-141 | After a save the file holds memory; after a failure or early crash it is as before. |
| ShareServer.Server.StoreShare | server.py:95-125 | For every fault of the write, reply and store are those of the abstract share store. |
| ShareServer.AcceptedByBlankDecoder | server.py:108-111 | A blank decoder object accepts exactly the acceptable shares. |
| ShareServer.Server.RetrieveShare | server.py:128-136 | The reply of the abstract store. |
| ShareServer.Server.EnsureSharesFile | server.py:367-372 | Starts exactly if the existing file loads or a missing one can be written; it reloads what was on disk. |
| Quorum.SharesAndTreshold | secretweb_client.py:64-80 | By default one share for every peer and a majority of the shares as treshold; refused exactly for more shares than peers or a treshold outside [2, shares]. |
| Quorum.DefaultTresholdIsMajority | secretweb_client.py:65-72 | The default treshold is the least for which any two groups of that many holders intersect, and it is reached exactly while at most (shares - 1) / 2 holders are lost. |
| Network.ForeignStepKeepsWorld | server.py:95-136 | Whatever other certificates send to a peer, and whenever it crashes, every publication stays as it was. |
| Network.OwnCrashKeepsWorld | server.py:203-205 | A restart of this host's server keeps every record well recorded. |
| Network.AnnounceKeepsWorld | secretweb_client.py:147-152 | Addressing peers under a fresh uuid breaks nothing. |
| Network.PostAcknowledgedOnDisk | server.py:115-125 | A POST of this host's share is acknowledged only once the share is on disk. |
| Network.OwnShareAcceptable | server.py:108-111 | A blank decoder takes every share of a valid dealing. |
| Network.AcknowledgedIff | server.py:95-125 | A share of this host is acknowledged exactly if the owner matches the certificate, the uuid is unused at the peer, the save succeeds and the answer arrives. |
| Network.SendKeepsWorld | secretweb_client.py:152-161 | One POST, answered, lost or failed, keeps the world valid. |
| Network.SendAllKeepsWorld | secretweb_client.py:151-161 | After any number of POSTs the count equals the peers that acknowledged, and earlier publications and records are unchanged. |
| Network.AcknowledgedExactly | secretweb_client.py:151-161 | Exactly the peers that save and answer acknowledge and are counted, if the host name matches its certificate; otherwise none. |
| Network.RecordKeepsWorld | server.py:144-180 | Recording a publication that enough peers acknowledged keeps every record well recorded. |
| Network.PublishKeepsWorld | secretweb_client.py:145-182 | A store-secret, however it fails, keeps the world valid and all earlier publications. |
| Network.PublishRecords | secretweb_client.py:163-189 | A confirmed publication is recorded, in memory and on disk, with the number of acknowledgements; one without the recording request changes no record. |
| Retrieval.HolderServes | server.py:128-136 | A peer that acknowledged serves its own share. |
| Retrieval.ServedShareIsOwn | server.py:128-136 | Whatever a peer serves under a published uuid is that peer's own share. |
| Retrieval.HoldersAreServing | secretweb_client.py:236-253 | At least as many shares are served as acknowledged holders are asked and reachable. |
| Retrieval.ServingPeersCount | secretweb_client.py:236-253 | What one pass obtains is the number of different peers that are reachable and serve. |
| Retrieval.RecordedIsRetrievable | secretweb_client.py:219-266 | In any valid world a recorded secret is returned when treshold acknowledged peers are reachable, and refused explicitly when too few serve. |
| Retrieval.UnrecordedPublishKeepsPrevious | secretweb_client.py:163-169 | A publication that was not recorded leaves every earlier secret retrievable from its holders. |
| Retrieval.PublishesIffOwnerMatches | server.py:91-92 | As soon as some peer can save and answer, a host gets acknowledgements exactly if its listed name is the host label of its certificate up to case. |
| Retrieval.DottedNamePublishesNothing | server.py:91-92 | A host whose name has a dot gets no acknowledgement, and under the label of its certificate it gets every one a peer can give. |
| NetworkRuns.NextIsAddressed | secretweb_client.py:151-161 | In a valid network the next request of a publication in progress can always be sent. |
| NetworkRuns.SendNextKeepsNet | secretweb_client.py:152-161 | One request of a publication, between any actions of others, keeps every publication and record valid. |
| NetworkRuns.ActKeepsNet | secretweb_client.py:145-189 | Every action keeps the network valid, never takes back an acknowledgement, and changes nothing of a publication that is not in progress. |
| NetworkRuns.RunKeepsNet | secretweb_client.py:145-189 | The same over every run of interleaved requests, crashes and publications. |
| NetworkRuns.EveryReachableRecordIsSound | secretweb_client.py:163-234 | Every record of every reachable network satisfies 2 <= treshold <= shares_saved <= peers, so the decoder of get-secret is always valid. |
| NetworkRuns.ReachableSecretIsRetrievable | secretweb_client.py:145-266 | After every run from an empty network, a recorded secret is returned when treshold acknowledged peers are reachable, and refused explicitly when too few serve. |
| NetworkRuns.RunKeepsRecord | server.py:171-180 | A confirmed record survives any run that records nothing else under its name. |
| NetworkRuns.RecordedSecretIsRetrievable | secretweb_client.py:145-266 | A confirmed publication, then any interleaved run that does not record that name again: get-secret returns exactly those bytes from treshold reachable holders in any order. |
| NetworkRuns.RecordStaysRetrievable | secretweb_client.py:145-266 | The same from any valid network in which the name is recorded. |
| NetworkRuns.PublishIsRun | secretweb_client.py:145-182 | The publishing half of store-secret is one of these runs. |
| Client.SplitSecret | secretweb_client.py:147-148 | The shares of a valid dealing of the secret; refusal exactly for oversize or missing draws. |
| Client.Client.SendShare | secretweb_client.py:152-161 | One POST has the effect and success of the network model. |
| Client.Client.ServerPost | server.py:95-125 | The peer's reply and store are those of the share store. |
| Client.Client.PublishShares | secretweb_client.py:151-161 | Every target is tried once; world and count are those of all the POSTs. |
| Client.Client.RecordLocally | server.py:144-180 | Confirmed exactly after a saved and answered request of a matching host, and then recorded in memory and on disk. |
| Client.Client.PublishAndRecord | secretweb_client.py:151-189 | Reports a record exactly if treshold peers acknowledge and the recording is confirmed; then that record is in memory and on disk. |
| Client.Client.StoreSecretCmd | secretweb_client.py:118-189 | Each result in exactly its case; nothing changes before the first POST; a reported record is in memory and on disk, and the holders are the peers that saved and answered. |
| Client.Client.LookUp | server.py:183-200 | The record in memory, to this host's own certificate only. |
| Client.Client.RetrieveShare | secretweb_client.py:240-246 | One GET, which may not be answered. |
| Client.Client.AskPeers | secretweb_client.py:236-259 | One pass obtains every share served up to treshold; a ready decoder decodes to the published bytes. |
| Client.Client.GetSecretCmd | secretweb_client.py:205-266 | The lookup fails exactly for an unreachable server, a foreign certificate or an unrecorded name; otherwise the recorded bytes come back exactly if treshold different reachable peers serve. |
| Client.Client.UnfittingGetsNothing | secretweb_client.py:326-338 | Entries that name no publication, or another secret name, are offered no acceptable share. |
| Client.Client.GetKey1Cmd | secretweb_client.py:281-348 | For whatever the entries name: the published KEY1 if treshold peers serve a share of a publication that fits, an explicit failure otherwise. |
| Collection.CollectOneMore | initiator.py:110-114 | The share of a peer not asked before is accepted. |
| Collection.CollectionResult | initiator.py:98-118 | The decoder is ready exactly at treshold contributions and then decodes to the published bytes. |
| Collection.TakeShare | secretweb_client.py:247-253 | Populating with a share of the publication adds one row; with one that does not fit it changes nothing. |
| Initiator.CollectRound | initiator.py:99-114 | For arbitrary answers each peer contributes at most once and rows equal contributors; with honest ones every answering peer contributes unless the decoder became ready. |
| Initiator.CollectRounds | initiator.py:97-116 | Accepted rows equal contributors; decoder and contributors survive from round to round; the loop ends exactly when treshold peers have answered in some round. |
| Initiator.CollectKey1 | initiator.py:63-118 | The errors before the first question, exactly; for any answers what a decoder makes of some of them; with honest answers the published KEY1 as soon as treshold different peers have answered, in whatever rounds. |
| Initiator.RoundsInValidWorldsAreHonest | initiator.py:104-114 | In every valid world the answers are honest. |
| Initiator.RoundServesAsMany | initiator.py:99-114 | A round answers with as many shares as one pass of get-key1 obtains. |
| Boot.BootStepDecreases | initiator.py:97-118 | Every boot step lowers the number of steps left. |
| Boot.MajorityIsNotStuck | initiator.py:98-109 | With t hosts up, a host that is not up has a boot step. |
| Boot.MajorityBringsAllUp | setup_secretweb.py:225-234 | With t hosts up, boot steps alone bring every host up. |
| Boot.MaximalBootRunEndsAllUp | initiator.py:97-118 | They do so in every order, within the number of steps left. |
| Boot.WedgedStaysWedged | initiator.py:97-118 | A wedged network stays wedged under every step, crashes included. |
| Boot.WedgedForever | ansible/restart.yml:8-15 | From a wedged network no host ever completes its boot. |
| Boot.SomeoneCanFinishIffNotWedged | initiator.py:97-118 | Some host can still complete a boot exactly if the network is not wedged. |
| Boot.RestartCompletes | ansible/restart.yml:8-15 | After one host is stopped in an all-up network, every run of boot steps has at most n + 2 of them, and where none is left every host is up. |
| Boot.RestartsInTurnComplete | ansible/restart.yml:8-15 | In every run that stops a host only while all are up, at most one host is ever not up, and where no boot step is left every host is up. |
| Boot.RestartsOneAtATime | ansible/restart.yml:8-15 | Any list of hosts can be restarted in turn: some such run stops exactly these hosts in order and ends with all up. |
| Boot.RestartTogetherIffMajorityStays | ansible/restart.yml:8-15 | Hosts restarted together recover in every order of boot steps if t others stay up, and otherwise the network is wedged for good. |
| Handoff.Socket.Recv | key_handoff.py:68-69 | Any non-empty part of the stream up to the requested size. |
| Handoff.RecvExact | key_handoff.py:64-73 | Exactly the next bytes for every fragmentation, or the reason why not. |
| Handoff.Frame | key_handoff.py:9-24 | Four bytes with the length, most significant first, and the payload. |
| Handoff.RecvFrame | key_handoff.py:47-50 | Exactly the framed payload; a cut stream is never taken for a message. |
| Handoff.FrameUnique | key_handoff.py:9-26 | A stream begins with at most one frame. |
| Handoff.ReceiveKey1 | key_handoff.py:43-50 | Exactly the key that was sent; an error exactly for a cut stream. |
| Handoff.SendKey1 | key_handoff.py:21-40 | Returns normally exactly if the OK byte comes before the wait expires; fails to get a status exactly if it expires or nothing comes; an error message arrives intact. |
| Handoff.OkStatusIffAllOk | server.py:226-265 | The OK byte is sent exactly by a startup in which every stage succeeded. |
| Handoff.StatusOfTrouble | server.py:375-386 | The first stage that raises decides the status: its own message. |
| Handoff.RunStartup | server.py:424-448 | One status at most: that of the first stage that raises, or OK after the port is bound; the server serves exactly if every stage succeeds and the status can be sent. |
| Handoff.StartServer | initiator.py:135-170 | The pidfile is written exactly if every stage succeeds, the status can be sent, the wait does not expire and the file can be written; a stage that raises is reported with its message. |
| Setup.SendUntilFailure | setup_secretweb.py:287-296 | The hosts are tried in order up to the first that does not acknowledge, which is the one returned; all before it acknowledged. |
| Setup.AcknowledgedStep | setup_secretweb.py:287-296 | While all before acknowledged, the next host acknowledges exactly if it saves and answers and the host name matches its certificate. |
| Setup.PublishKey1 | setup_secretweb.py:265-299 | Succeeds exactly if there are two other hosts, KEY1 can be dealt and every host acknowledges; then every other host holds its own share of one dealing of this KEY1. |
| Setup.OwnNameDecidesPublication | setup_secretweb.py:177-187 | Among the names the bootstrap takes for this host, KEY1 can be published exactly under those without a dot. |
| Setup.AllAcknowledged | setup_secretweb.py:287-299 | As many acknowledgements as hosts means every host. |
| Setup.AnyTresholdOfHostsSuffices | setup_secretweb.py:225-234 | Any treshold reachable hosts serve enough shares for the boot. |
| Setup.RunSetup | setup_secretweb.py:353-414 | Where a run ends and what it changes, from its inputs and the files it finds; the key1 entries lead to a new KEY1 afterwards exactly if the run completes, and then every other host holds its share. |
| Setup.StartServer | server.py:367-372 | The server starts exactly if its other stages succeed and shares.dta loads under the new KEY1 or, where there is none, can be created. |
| Setup.RerunSetup | setup_secretweb.py:353-414 | Repeating the bootstrap over such a file: the run never completes, marks the host initiated all the same, and leaves entries that lead to the old KEY1. |
| EndToEnd.RoundsAreHonest | initiator.py:104-114 | Rounds that meet networks reachable from a publication get honest answers. |
| EndToEnd.BootAgreesWithGetKey1 | initiator.py:93-118 | Where get-key1 succeeds, a boot whose first round asks the same peers returns the same bytes, whatever its later rounds meet; with that one round it succeeds exactly then. |
| EndToEnd.StoreThenGet | secretweb_client.py:118-266 | A store-secret that reports a record, any run without another record of the name, and get-secret returns the very bytes from treshold of the peers that saved and answered. |
| EndToEnd.BootAfterSetup | initiator.py:63-118 | A completed bootstrap, then any run of the network: the boot returns the very KEY1 of the bootstrap as soon as a majority of the other hosts has answered in some round. |

## Left out

- TLS, sockets below the byte stream, HTTP, routing and `peer_client.py`: a request is answered, fails, or takes effect while its answer is lost; a host serves requests one after the other.
- AES-GCM, HKDF and SHA-256 are given functions. The only assumption about the cipher is that opening a sealed document with the same key, nonce and associated data gives it back, and, for `Setup.RerunSetup` alone, that the new KEY1 does not open documents sealed under the old one. No collision resistance is assumed, and the secret hash is outside the hiding theorems.
- UTF-8 and JSON: strings of secrets are their UTF-8 bytes and validity is a given predicate; a share is a record of the eight fields, of which keys, treshold and shares are untyped JSON values. A share with a missing field, which populate_decoder would notice only after appending its keys, and JSON numbers that are not integers are not modelled.
- Quality of randomness, generation of uuids (fresh by hypothesis) and timestamps.
- Dishonest peers: the decoder and the share store are proved for arbitrary input, and `Initiator.CollectRound` bounds contributions for arbitrary answers; that a collection succeeds is proved for peers that answer with what they stored.
- Interactive prompts, command-line options, systemd, signals, certificate parsing, the hosts and sites files with their plaintext mirrors, and directory synchronisation after a rename.
- Boot.Next: a host is up, down or booting, and every host is taken to hold a share of every other host's KEY1; a question that is not answered is a step that does not happen.
- Identity.OwnerMatches: lower-casing is that of ASCII letters.
- Client.Client.AskPeers: peers do not change what they hold during one pass of get-secret or get-key1; between the rounds at boot they may.
- Handoff.StartServer: the two processes run one after the other on each stream, in the order in which they wait for each other; when the wait expires is an input, and a server that dies before KEY1 is written to it is not modelled.
- Setup.RunSetup: the startup of the server is derived from the files as far as shares.dta decides it; its other stages, the writing of the other data files and the names of temporary files are inputs.
- ShareStore.Refusal: a payload is compared in its eight fields; further fields a client may send are not modelled.
- ModularArithmetic.ModInverse: it stands for the built-in pow with exponent -1 and is computed by extended Euclid.
