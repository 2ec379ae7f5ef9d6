/** The class-level round trip: a dealer object, its participants, a decoder object. */
module RoundTrip {
  import opened Wrappers
  import opened FieldSharing
  import opened ByteCodec
  import opened Shares
  import opened Decoder
  import opened Dealing
  import Shamir

  /** Deals a secret, feeds any different participants' shares in any order to a decoder that expects
      that name and owner or none, and decodes. The result is the secret as soon as treshold shares are
      in, and the empty string before. */
  method DealAndDecode(raw: seq<byte>, lib: Library, name: string, owner: string, uuid: string, now: string,
                       shares: int, treshold: int, draws: seq<nat>, order: seq<nat>,
                       expectedName: string, expectedOwner: string)
    returns (r: Result<seq<byte>, ReconstructionError>)
    requires ValidParameters(shares, treshold) && lib.utf8(raw) && |raw| <= MAX_SECRET_BYTES
    requires EnoughDraws(draws, raw, shares, treshold)
    requires expectedName in {"", name} && expectedOwner in {"", owner}
    requires forall a :: 0 <= a < |order| ==> order[a] < shares
    requires forall a, b :: 0 <= a < b < |order| ==> order[a] != order[b]
    ensures r == Success(if |order| >= treshold then raw else [])
  {
    hide DrawnMatrix, Supplies, DealtMatrix, ToIntegers;
    var dealer := new Shamir.ShamirSecret(name, owner, shares, treshold, uuid);
    var created := dealer.CreateSecret(raw, lib, now, draws);
    ghost var deal := dealer.DealOf(raw);
    assert ValidDeal(deal, lib);
    forall i | 0 <= i < shares
      ensures HasParticipant(deal, i)
    {
      ValidDealShape(deal, lib, i);
    }
    assert HasParticipant(deal, 0);
    var participants := dealer.IterateParticipants(raw);
    var decoder := new Shamir.ShamirSecret(expectedName, expectedOwner, 5, 3, "");
    assert Rows(deal, []) == [];
    r := Feed(decoder, deal, participants.value, order, lib);
  }

  method Feed(decoder: Shamir.ShamirSecret, ghost deal: Deal, participants: seq<Share>, order: seq<nat>, lib: Library)
    returns (r: Result<seq<byte>, ReconstructionError>)
    requires ValidDeal(deal, lib) && decoder.IsDecoder() && HonestState(decoder.DecoderState(), deal, [])
    requires |participants| == deal.shares && Participants(deal, order)
    requires forall a :: 0 <= a < |order| ==> order[a] < deal.shares
    requires forall i :: 0 <= i < deal.shares ==>
               HasParticipant(deal, i) && participants[i] == ParticipantShare(deal, i)
    modifies decoder
    ensures r == Success(if |order| >= deal.treshold then deal.raw else [])
  {
    hide ValidDeal, HonestState, HasParticipant, Decode, Populate, Decoder.Valid;
    assert order[..0] == [];
    for a := 0 to |order|
      invariant decoder.IsDecoder() && HonestState(decoder.DecoderState(), deal, order[..a])
    {
      assert order[..a + 1] == order[..a] + [order[a]];
      HonestShareAccepted(decoder.DecoderState(), deal, lib, order[..a], order[a]);
      var _ := decoder.PopulateDecoder(participants[order[a]]);
    }
    assert order[..|order|] == order;
    DecodeRecovers(decoder.DecoderState(), deal, lib, order);
    r := decoder.DecodeSecret(lib);
  }
}
