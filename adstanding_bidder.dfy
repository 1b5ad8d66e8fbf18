/** The OpenRTB Adstanding bidder: it sends the bid request as it is to the endpoint and keeps
    the response bids whose impression it can find in the request it sent, typed by that
    impression's banner or video. */
module AdstandingBidder {
  import opened Wrappers
  import opened OpenRtb
  import Prebid

  datatype BidType = Banner | Video | Audio | XNative

  datatype BidderError = BadInput(message: string) | BadServerResponse(message: string)

  /** `Result`: the values and the errors met on the way. */
  datatype BidderResult<T> = BidderResult(value: seq<T>, errors: seq<BidderError>)

  datatype HttpRequest<X> = HttpRequest(httpMethod: Prebid.HttpMethod, uri: string, body: string, payload: BidRequest<X>)

  /** A finished call: the request that was sent and the body that came back. */
  datatype HttpCall<X> = HttpCall(request: HttpRequest<X>, responseBody: string)

  datatype BidderBid<E> = BidderBid(bid: RtbBid<E>, bidType: BidType, bidCurrency: Option<string>)

  /** What escapes `Json.encode`: a `PreBidException` or any other exception. */
  datatype Thrown = ThrownPreBidException(message: string) | ThrownOther(message: string)

  /** The outcome of `Json.encode` on the bid request. */
  datatype Encoding = Encoded(body: string) | EncodeThrew(thrown: Thrown)

  /** The outcome of `Json.decodeValue` on a response body: the response (null for a JSON
      `null`) or the message of its `DecodeException`. */
  datatype Decoding<E> = Decoded(response: Option<BidResponse<E>>) | DecodeFailed(message: string)

  // ---------------------------------------------------------------------------
  // makeHttpRequests
  // ---------------------------------------------------------------------------

  /** `makeHttpRequests`: one POST of the encoded bid request with the request as payload, or,
      when encoding throws a `PreBidException`, no request and one bad-input error. Any other
      exception escapes. */
  method MakeHttpRequests<X>(bidRequest: BidRequest<X>, endpointUrl: string, encoding: Encoding)
    returns (r: Result<BidderResult<HttpRequest<X>>, Thrown>)
    ensures encoding.Encoded? ==>
      r == Success(BidderResult([HttpRequest(Prebid.Post, endpointUrl, encoding.body, bidRequest)], []))
    ensures encoding.EncodeThrew? && encoding.thrown.ThrownPreBidException? ==>
      r == Success(BidderResult([], [BadInput(encoding.thrown.message)]))
    ensures encoding.EncodeThrew? && encoding.thrown.ThrownOther? ==> r == Failure(encoding.thrown)
    ensures r.Success? ==> (|r.value.value| == 1 && r.value.errors == []) ||
                           (r.value.value == [] && |r.value.errors| == 1 && r.value.errors[0].BadInput?)
  {
    var httpRequests: seq<HttpRequest<X>> := [];
    var errors: seq<BidderError> := [];
    match encoding {
      case Encoded(body) =>
        httpRequests := httpRequests + [HttpRequest(Prebid.Post, endpointUrl, body, bidRequest)];
        assert httpRequests == [HttpRequest(Prebid.Post, endpointUrl, body, bidRequest)];
      case EncodeThrew(ThrownPreBidException(message)) =>
        errors := errors + [BadInput(message)];
        assert errors == [BadInput(message)];
      case EncodeThrew(other) =>
        return Failure(other);
    }
    return Success(BidderResult(httpRequests, errors));
  }

  // ---------------------------------------------------------------------------
  // resolveBidType
  // ---------------------------------------------------------------------------

  /** The type an impression gives a bid: banner if it has a banner, else video if it has a
      video, else none. */
  function TypeOf<X>(imp: Imp<X>): Option<BidType>
  {
    if imp.banner.Some? then Some(Banner) else if imp.video.Some? then Some(Video) else None
  }

  /** An impression with id `impid` that gives a type. */
  predicate TypedMatch<X>(imp: Imp<X>, impid: string)
  {
    imp.id == impid && TypeOf(imp).Some?
  }

  /** The type of a bid for impression `impid`: that of the first impression with that id that
      gives one; impressions with that id and neither banner nor video are passed over. */
  function ResolvedType<X>(imps: seq<Imp<X>>, impid: string): (r: Option<BidType>)
    ensures r.Some? ==> r.value == Banner || r.value == Video
  {
    if imps == [] then None
    else if TypedMatch(imps[0], impid) then TypeOf(imps[0])
    else ResolvedType(imps[1..], impid)
  }

  /** A bid's type is that of the first impression with its id that has a banner or a video,
      and there is none exactly when no such impression exists; `i` is that impression. */
  lemma {:induction false} ResolvedTypeIsFirstTypedMatch<X>(imps: seq<Imp<X>>, impid: string) returns (i: nat)
    ensures ResolvedType(imps, impid).None? <==> forall k :: 0 <= k < |imps| ==> !TypedMatch(imps[k], impid)
    ensures ResolvedType(imps, impid).Some? ==>
      && i < |imps| && TypedMatch(imps[i], impid) && ResolvedType(imps, impid) == TypeOf(imps[i])
      && (forall j :: 0 <= j < i ==> !TypedMatch(imps[j], impid))
      && (ResolvedType(imps, impid).value == Banner || ResolvedType(imps, impid).value == Video)
  {
    if imps == [] {
      i := 0;
    } else if TypedMatch(imps[0], impid) {
      i := 0;
    } else {
      var rest := ResolvedTypeIsFirstTypedMatch(imps[1..], impid);
      assert forall k :: 1 <= k < |imps| ==> imps[k] == imps[1..][k - 1];
      i := rest + 1;
    }
  }

  /** `resolveBidType`: scans the impressions in order and returns at the first one with the
      bid's impression id that has a banner or a video. */
  method ResolveBidType<X, E>(bidRequest: BidRequest<X>, bid: RtbBid<E>) returns (r: Option<BidType>)
    ensures r == ResolvedType(bidRequest.imp, bid.impid)
  {
    var imps := bidRequest.imp;
    for i := 0 to |imps|
      invariant ResolvedType(imps[i..], bid.impid) == ResolvedType(imps, bid.impid)
    {
      assert imps[i..][1..] == imps[i + 1..];
      var imp := imps[i];
      if imp.id == bid.impid {
        if imp.banner.Some? {
          return Some(Banner);
        } else if imp.video.Some? {
          return Some(Video);
        }
      }
    }
    return None;
  }

  // ---------------------------------------------------------------------------
  // bidsFromResponse
  // ---------------------------------------------------------------------------

  /** The bids of `bids` whose type resolves against `imps`, in order, each with its type and
      the currency `cur`. */
  function Kept<X, E>(imps: seq<Imp<X>>, bids: seq<RtbBid<E>>, cur: Option<string>): (r: seq<BidderBid<E>>)
    ensures |r| <= |bids|
  {
    if bids == [] then []
    else
      var last := bids[|bids| - 1];
      var bidType := ResolvedType(imps, last.impid);
      Kept(imps, bids[..|bids| - 1], cur) + (if bidType.Some? then [BidderBid(last, bidType.value, cur)] else [])
  }

  /** The bids `bidsFromResponse` returns for a decoded response: nothing for a null response
      or a null seat-bid list, otherwise the kept bids of all the seat bids' bids. */
  function KeptBids<X, E>(imps: seq<Imp<X>>, response: Option<BidResponse<E>>): (r: seq<BidderBid<E>>)
    ensures response.None? || response.value.seatbid.None? ==> r == []
    ensures response.Some? && response.value.seatbid.Some? ==> |r| <= |AllBids(response.value.seatbid.value)|
  {
    match response
    case None => []
    case Some(resp) =>
      match resp.seatbid
      case None => []
      case Some(seatbids) => Kept(imps, AllBids(seatbids), resp.cur)
  }

  /** `kept` is the order-preserving selection of `bids` at positions `idx`, which are exactly
      the positions whose type resolves; each kept bid carries its resolved type and `cur`. */
  ghost predicate SelectsResolved<X, E>(imps: seq<Imp<X>>, bids: seq<RtbBid<E>>, cur: Option<string>,
                                        kept: seq<BidderBid<E>>, idx: seq<nat>)
  {
    && |idx| == |kept| <= |bids|
    && (forall k :: 0 <= k < |idx| ==>
          && idx[k] < |bids|
          && kept[k].bid == bids[idx[k]]
          && Some(kept[k].bidType) == ResolvedType(imps, bids[idx[k]].impid)
          && kept[k].bidCurrency == cur)
    && (forall k, l :: 0 <= k < l < |idx| ==> idx[k] < idx[l])
    && (forall i :: 0 <= i < |bids| ==> (i in idx <==> ResolvedType(imps, bids[i].impid).Some?))
  }

  /** The kept bids are an order-preserving selection of the bids: `idx` lists the positions
      kept, which are exactly those whose type resolves. Each kept bid carries its resolved type
      and the response currency, so there are never more kept bids than bids. */
  lemma {:induction false} KeptIsOrderedSelection<X, E>(imps: seq<Imp<X>>, bids: seq<RtbBid<E>>, cur: Option<string>)
    returns (idx: seq<nat>)
    ensures |idx| == |Kept(imps, bids, cur)| <= |bids|
    ensures forall k :: 0 <= k < |idx| ==>
      && idx[k] < |bids|
      && Kept(imps, bids, cur)[k].bid == bids[idx[k]]
      && Some(Kept(imps, bids, cur)[k].bidType) == ResolvedType(imps, bids[idx[k]].impid)
      && Kept(imps, bids, cur)[k].bidCurrency == cur
    ensures forall k, l :: 0 <= k < l < |idx| ==> idx[k] < idx[l]
    ensures forall i :: 0 <= i < |bids| ==> (i in idx <==> ResolvedType(imps, bids[i].impid).Some?)
  {
    idx := KeptSelection(imps, bids, cur);
  }

  lemma {:induction false} KeptSelection<X, E>(imps: seq<Imp<X>>, bids: seq<RtbBid<E>>, cur: Option<string>)
    returns (idx: seq<nat>)
    ensures SelectsResolved(imps, bids, cur, Kept(imps, bids, cur), idx)
  {
    if bids == [] {
      idx := [];
    } else {
      var n := |bids| - 1;
      var front := KeptSelection(imps, bids[..n], cur);
      var bidType := ResolvedType(imps, bids[n].impid);
      assert Kept(imps, bids, cur) == Kept(imps, bids[..n], cur) +
        (if bidType.Some? then [BidderBid(bids[n], bidType.value, cur)] else []);
      idx := SelectionExtends(imps, bids, cur, Kept(imps, bids[..n], cur), front);
    }
  }

  /** One step of the selection: extending the bids by one keeps it when the new bid's type
      resolves, and keeps the same positions when it does not. */
  lemma SelectionExtends<X, E>(imps: seq<Imp<X>>, bids: seq<RtbBid<E>>, cur: Option<string>,
                               before: seq<BidderBid<E>>, front: seq<nat>)
    returns (idx: seq<nat>)
    requires bids != []
    requires SelectsResolved(imps, bids[..|bids| - 1], cur, before, front)
    ensures var bidType := ResolvedType(imps, bids[|bids| - 1].impid);
      SelectsResolved(imps, bids, cur,
                      before + (if bidType.Some? then [BidderBid(bids[|bids| - 1], bidType.value, cur)] else []), idx)
  {
    var n := |bids| - 1;
    var bidType := ResolvedType(imps, bids[n].impid);
    if bidType.Some? {
      SelectionTakesLast(imps, bids, cur, before, front, bidType.value);
      idx := front + [n];
    } else {
      SelectionSkipsLast(imps, bids, cur, before, front);
      assert before + [] == before;
      idx := front;
    }
  }

  lemma SelectionTakesLast<X, E>(imps: seq<Imp<X>>, bids: seq<RtbBid<E>>, cur: Option<string>,
                                 before: seq<BidderBid<E>>, front: seq<nat>, bidType: BidType)
    requires bids != []
    requires SelectsResolved(imps, bids[..|bids| - 1], cur, before, front)
    requires ResolvedType(imps, bids[|bids| - 1].impid) == Some(bidType)
    ensures SelectsResolved(imps, bids, cur, before + [BidderBid(bids[|bids| - 1], bidType, cur)], front + [|bids| - 1])
  {
    var n := |bids| - 1;
    var kept := before + [BidderBid(bids[n], bidType, cur)];
    var idx := front + [n];
    forall k | 0 <= k < |idx|
      ensures && idx[k] < |bids|
              && kept[k].bid == bids[idx[k]]
              && Some(kept[k].bidType) == ResolvedType(imps, bids[idx[k]].impid)
              && kept[k].bidCurrency == cur
    {
      if k < |front| {
        assert idx[k] == front[k] && kept[k] == before[k];
        assert bids[front[k]] == bids[..n][front[k]];
      } else {
        assert idx[k] == n && kept[k] == BidderBid(bids[n], bidType, cur);
      }
    }
    forall k, l | 0 <= k < l < |idx| ensures idx[k] < idx[l] {
      assert idx[k] == front[k];
      if l < |front| {
        assert idx[l] == front[l];
      }
    }
    forall i | 0 <= i < |bids|
      ensures i in idx <==> ResolvedType(imps, bids[i].impid).Some?
    {
      if i < n {
        assert bids[..n][i] == bids[i];
        assert i in idx <==> i in front;
      }
    }
  }

  lemma SelectionSkipsLast<X, E>(imps: seq<Imp<X>>, bids: seq<RtbBid<E>>, cur: Option<string>,
                                 before: seq<BidderBid<E>>, front: seq<nat>)
    requires bids != []
    requires SelectsResolved(imps, bids[..|bids| - 1], cur, before, front)
    requires ResolvedType(imps, bids[|bids| - 1].impid).None?
    ensures SelectsResolved(imps, bids, cur, before, front)
  {
    var n := |bids| - 1;
    forall k | 0 <= k < |front|
      ensures front[k] < |bids| && before[k].bid == bids[front[k]]
              && Some(before[k].bidType) == ResolvedType(imps, bids[front[k]].impid)
    {
      assert bids[front[k]] == bids[..n][front[k]];
    }
    forall i | 0 <= i < |bids|
      ensures i in front <==> ResolvedType(imps, bids[i].impid).Some?
    {
      if i < n {
        assert bids[..n][i] == bids[i];
      } else {
        assert n !in front;
      }
    }
  }

  /** Kept bids of a list with one more bid at its end. */
  lemma KeptAppend<X, E>(imps: seq<Imp<X>>, bids: seq<RtbBid<E>>, bid: RtbBid<E>, cur: Option<string>)
    ensures Kept(imps, bids + [bid], cur) == Kept(imps, bids, cur) +
      (if ResolvedType(imps, bid.impid).Some? then [BidderBid(bid, ResolvedType(imps, bid.impid).value, cur)] else [])
  {
    assert (bids + [bid])[..|bids|] == bids;
  }

  /** The bids of the seat bids up to one more seat bid. */
  lemma AllBidsAppend<E>(seatbids: seq<SeatBid<E>>, i: nat)
    requires i < |seatbids|
    ensures AllBids(seatbids[..i + 1]) ==
      AllBids(seatbids[..i]) + (if seatbids[i].bid.Some? then seatbids[i].bid.value else [])
  {
    assert seatbids[..i + 1][..i] == seatbids[..i];
  }

  /** `bidsFromResponse`: walks the seat bids and their bids in order and appends every bid
      whose type resolves against the request's impressions. */
  method BidsFromResponse<X, E>(bidRequest: BidRequest<X>, bidResponse: Option<BidResponse<E>>)
    returns (bids: seq<BidderBid<E>>)
    ensures bids == KeptBids(bidRequest.imp, bidResponse)
  {
    if bidResponse.None? {
      return [];
    }
    var response := bidResponse.value;
    var imps := bidRequest.imp;
    bids := [];
    if response.seatbid.Some? {
      var seatbids := response.seatbid.value;
      for i := 0 to |seatbids|
        invariant bids == Kept(imps, AllBids(seatbids[..i]), response.cur)
      {
        ghost var before := AllBids(seatbids[..i]);
        AllBidsAppend(seatbids, i);
        var seatbid := seatbids[i];
        if seatbid.bid.Some? {
          var seatBids := seatbid.bid.value;
          assert before + seatBids[..0] == before;
          for j := 0 to |seatBids|
            invariant bids == Kept(imps, before + seatBids[..j], response.cur)
          {
            var bid := seatBids[j];
            assert before + seatBids[..j + 1] == (before + seatBids[..j]) + [bid];
            KeptAppend(imps, before + seatBids[..j], bid, response.cur);
            var bidType := ResolveBidType(bidRequest, bid);
            if bidType.Some? {
              bids := bids + [BidderBid(bid, bidType.value, response.cur)];
            }
          }
          assert seatBids[..|seatBids|] == seatBids;
        } else {
          assert before + [] == before;
        }
      }
      assert seatbids[..|seatbids|] == seatbids;
    }
  }

  /** The empty cases: a null response, or one with a null seat-bid list, gives no bids, and a
      seat bid with a null bid list adds nothing to the bids of the others. */
  lemma NullSeatBidsContributeNothing<X, E>(imps: seq<Imp<X>>, response: BidResponse<E>, k: nat)
    requires response.seatbid.Some? && k < |response.seatbid.value| && response.seatbid.value[k].bid.None?
    ensures KeptBids<X, E>(imps, None) == []
    ensures KeptBids(imps, Some(response.(seatbid := None))) == []
    ensures var seatbids := response.seatbid.value;
      KeptBids(imps, Some(response)) == KeptBids(imps, Some(response.(seatbid := Some(seatbids[..k] + seatbids[k + 1..]))))
  {
    var seatbids := response.seatbid.value;
    AllBidsWithout(seatbids, k);
  }

  /** Leaving out a seat bid with a null bid list does not change the bids. */
  lemma {:induction false} AllBidsWithout<E>(seatbids: seq<SeatBid<E>>, k: nat)
    requires k < |seatbids| && seatbids[k].bid.None?
    ensures AllBids(seatbids) == AllBids(seatbids[..k] + seatbids[k + 1..])
  {
    var n := |seatbids| - 1;
    if k == n {
      assert seatbids[..k] + seatbids[k + 1..] == seatbids[..n];
    } else {
      AllBidsWithout(seatbids[..n], k);
      var rest := seatbids[..k] + seatbids[k + 1..];
      assert rest[..|rest| - 1] == seatbids[..n][..k] + seatbids[..n][k + 1..];
      assert rest[|rest| - 1] == seatbids[n];
    }
  }

  // ---------------------------------------------------------------------------
  // makeBids and extractTargeting
  // ---------------------------------------------------------------------------

  /** `makeBids`: the bids of the decoded response, resolved against the request that was sent
      (the call's payload, not the `bidRequest` argument), and no errors; or, when the body does
      not decode, no bids and one bad-server-response error. */
  method MakeBids<X, E>(httpCall: HttpCall<X>, decoding: Decoding<E>, bidRequest: BidRequest<X>)
    returns (r: BidderResult<BidderBid<E>>)
    ensures decoding.Decoded? ==> r == BidderResult(KeptBids(httpCall.request.payload.imp, decoding.response), [])
    ensures decoding.DecodeFailed? ==> r == BidderResult([], [BadServerResponse(decoding.message)])
  {
    match decoding {
      case Decoded(bidResponse) =>
        var bids := BidsFromResponse(httpCall.request.payload, bidResponse);
        return BidderResult(bids, []);
      case DecodeFailed(message) =>
        return BidderResult([], [BadServerResponse(message)]);
    }
  }

  /** `extractTargeting`: Adstanding bids carry no targeting keys. */
  function ExtractTargeting<J>(extBidBidder: J): (r: map<string, string>)
    ensures forall key :: key !in r
  {
    map[]
  }

  // ---------------------------------------------------------------------------
  // The impression-id comparison as written
  // ---------------------------------------------------------------------------

  /** A Java `String` reference: the object's identity and its characters. */
  datatype StringRef = StringRef(identity: nat, chars: string)

  /** `resolveBidType` as written: `imp.getId() == bid.getImpid()` compares references, so an
      impression matches only when its id is the very object the bid's impression id is.
      `impIds[i]` is the reference held by `imps[i]`. */
  function ResolvedTypeAsWritten<X>(imps: seq<Imp<X>>, impIds: seq<StringRef>, impid: StringRef): (r: Option<BidType>)
    requires |impIds| == |imps|
    ensures r.Some? ==> r.value == Banner || r.value == Video
  {
    if imps == [] then None
    else if impIds[0].identity == impid.identity && TypeOf(imps[0]).Some? then TypeOf(imps[0])
    else ResolvedTypeAsWritten(imps[1..], impIds[1..], impid)
  }

  /** A bid decoded from the response body holds a new `String` for its impression id, an
      object no impression of the request holds, so the code as written never resolves it. */
  lemma {:induction false} FreshImpidNeverResolves<X>(imps: seq<Imp<X>>, impIds: seq<StringRef>, impid: StringRef)
    requires |impIds| == |imps|
    requires forall i :: 0 <= i < |impIds| ==> impIds[i].identity != impid.identity
    ensures ResolvedTypeAsWritten(imps, impIds, impid) == None
  {
    if imps != [] {
      FreshImpidNeverResolves(imps[1..], impIds[1..], impid);
    }
  }

  /** Where identity and equal characters agree, the code as written resolves as intended. */
  lemma {:induction false} AsWrittenAgreesWhenIdentitiesMatch<X>(imps: seq<Imp<X>>, impIds: seq<StringRef>, impid: StringRef)
    requires |impIds| == |imps|
    requires forall i :: 0 <= i < |imps| ==> impIds[i].chars == imps[i].id
    requires forall i :: 0 <= i < |impIds| ==> (impIds[i].identity == impid.identity <==> impIds[i].chars == impid.chars)
    ensures ResolvedTypeAsWritten(imps, impIds, impid) == ResolvedType(imps, impid.chars)
  {
    if imps != [] {
      AsWrittenAgreesWhenIdentitiesMatch(imps[1..], impIds[1..], impid);
    }
  }

  /** The discrepancy on one input: a banner impression with id "1" held as object 0, and a bid
      for impression "1" decoded into object 1. The code as written drops the bid; compared by
      characters, it is a banner bid. */
  lemma EqualIdsDifferentObjects(imp: Imp<()>, bid: RtbBid<()>)
    requires imp.id == "1" && imp.banner.Some?
    requires bid.impid == "1"
    ensures ResolvedTypeAsWritten([imp], [StringRef(0, imp.id)], StringRef(1, bid.impid)) == None
    ensures ResolvedType([imp], bid.impid) == Some(Banner)
    ensures Kept([imp], [bid], None) == [BidderBid(bid, Banner, None)]
  {
    assert [bid][..0] == [];
  }
}
