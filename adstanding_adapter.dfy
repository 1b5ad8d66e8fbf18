/** The legacy Adstanding adapter. Parameter validation is all or nothing: every ad unit needs
    params with a non-zero `zone_id`. Ad units without a banner or video media type are
    dropped, and every other ad unit becomes one impression carrying its banner and/or video.
    On the response side each bid's `ext.adstanding.bid_ad_type` code names its media type. */
module AdstandingAdapter {
  import opened Wrappers
  import opened JavaText
  import opened OpenRtb
  import opened Prebid
  import opened Sequences

  const AdstandingMediaTypes: set<MediaType> := {Banner, Video}

  const ParamsMissingMessage := "Adstanding params section is missing"
  const NoZoneMessage := "No zone provided"
  const ExtMissingMessage := "bidResponse.bid.ext should be defined for adstanding"
  const AdstandingMissingMessage := "bidResponse.bid.ext.adstanding should be defined"
  const BidAdTypeMissingMessage := "bidResponse.bid.ext.adstanding.bid_ad_type should be defined"
  const UnrecognizedPrefix := "Unrecognized bid_ad_type in response from adstanding: "

  function UnrecognizedBidAdTypeMessage(bidAdType: Int32): string
  {
    UnrecognizedPrefix + ShowInt(bidAdType)
  }

  /** `AdstandingParams`: the bidder params of an ad unit. */
  datatype AdstandingParams = AdstandingParams(zoneId: Option<Int32>)

  /** `AdstandingImpExt`: the `ext` of an impression. */
  datatype AdstandingImpExt = AdstandingImpExt(zoneId: Option<Int32>)

  datatype AdstandingBidExtAdstanding = AdstandingBidExtAdstanding(bidAdType: Option<Int32>)

  datatype AdstandingBidExt = AdstandingBidExt(adstanding: Option<AdstandingBidExtAdstanding>)

  type AdstandingAdUnit = AdUnitBid<Conversion<AdstandingParams>>

  type UnitWithParams = AdUnitBidWithParams<Conversion<AdstandingParams>, AdstandingParams>

  type AdstandingImp = Imp<AdstandingImpExt>

  /** A response bid; its `ext` is what `treeToValue` makes of the JSON node. */
  type AdstandingBid = RtbBid<Conversion<AdstandingBidExt>>

  datatype AdapterHttpRequest = AdapterHttpRequest(httpMethod: HttpMethod, uri: string, payload: BidRequest<AdstandingImpExt>)

  // ---------------------------------------------------------------------------
  // parseAndValidateParams and createAdUnitBidsWithParams
  // ---------------------------------------------------------------------------

  /** `parseAndValidateParams`: the params, unchanged, when they are present, convert and carry
      a zone id other than 0; otherwise the exception for the first check that fails. */
  function ParseAndValidateParams(unit: AdstandingAdUnit): (r: Result<AdstandingParams, Exception>)
    ensures r.Success? <==> unit.params.Some? && unit.params.value.Converted?
                            && unit.params.value.value.zoneId.Some? && unit.params.value.value.zoneId.value != 0
    ensures r.Success? ==> r.value == unit.params.value.value
    ensures unit.params.None? ==> r == Failure(PreBidException(ParamsMissingMessage))
    ensures unit.params.Some? && unit.params.value.ConversionFailed? ==>
      r == Failure(PreBidException(unit.params.value.message))
    ensures unit.params.Some? && unit.params.value.Converted? && r.Failure? ==> r == Failure(PreBidException(NoZoneMessage))
  {
    match unit.params
    case None => Failure(PreBidException(ParamsMissingMessage))
    case Some(ConversionFailed(message)) => Failure(PreBidException(message))
    case Some(Converted(params)) =>
      if params.zoneId.None? || params.zoneId.value == 0 then Failure(PreBidException(NoZoneMessage))
      else Success(params)
  }

  /** `createAdUnitBidsWithParams`: all ad units with their params, in order, or the exception
      of the first ad unit whose params are invalid. */
  function CreateAdUnitBidsWithParams(units: seq<AdstandingAdUnit>): (r: Result<seq<UnitWithParams>, Exception>)
    ensures r.Success? <==> forall i :: 0 <= i < |units| ==> ParseAndValidateParams(units[i]).Success?
    ensures r.Success? ==> |r.value| == |units| && forall i :: 0 <= i < |units| ==>
      r.value[i] == AdUnitBidWithParams(units[i], ParseAndValidateParams(units[i]).value)
    ensures r.Failure? ==> exists i :: 0 <= i < |units| && ParseAndValidateParams(units[i]) == Failure(r.error)
                                       && forall j :: 0 <= j < i ==> ParseAndValidateParams(units[j]).Success?
  {
    if units == [] then Success([])
    else
      assert forall i :: 1 <= i < |units| ==> units[i] == units[1..][i - 1];
      var params :- ParseAndValidateParams(units[0]);
      var rest :- CreateAdUnitBidsWithParams(units[1..]);
      Success([AdUnitBidWithParams(units[0], params)] + rest)
  }

  // ---------------------------------------------------------------------------
  // makeImps, containsAnyAllowedMediaType and makeImp
  // ---------------------------------------------------------------------------

  /** `containsAnyAllowedMediaType`: the ad unit has a banner or a video media type. */
  predicate ContainsAnyAllowedMediaType(w: UnitWithParams)
    ensures ContainsAnyAllowedMediaType(w) <==> Banner in w.adUnitBid.mediaTypes || Video in w.adUnitBid.mediaTypes
  {
    var both := w.adUnitBid.mediaTypes * AdstandingMediaTypes;
    assert both != {} <==> Banner in both || Video in both by {
      if both != {} {
        var t :| t in both;
      }
    }
    both != {}
  }

  /** The impression `makeImp` builds for an ad unit. */
  function ImpFor(w: UnitWithParams, ctx: PreBidRequestContext): (imp: AdstandingImp)
    ensures imp.id == w.adUnitBid.adUnitCode && imp.instl == w.adUnitBid.instl && imp.secure == ctx.secure
    ensures imp.ext == Some(AdstandingImpExt(w.params.zoneId)) && imp.tagid.None?
    ensures imp.banner.Some? <==> Banner in w.adUnitBid.mediaTypes
    ensures imp.banner.Some? ==> imp.banner.value == BannerFor(w.adUnitBid)
    ensures imp.video.Some? <==> Video in w.adUnitBid.mediaTypes
    ensures imp.video.Some? ==> imp.video.value == VideoFor(w.adUnitBid)
  {
    var unit := w.adUnitBid;
    var mediaTypes := AllowedMediaTypes(unit, AdstandingMediaTypes);
    Imp(unit.adUnitCode,
        if Banner in mediaTypes then Some(BannerFor(unit)) else None,
        if Video in mediaTypes then Some(VideoFor(unit)) else None,
        unit.instl, ctx.secure, None, Some(AdstandingImpExt(w.params.zoneId)))
  }

  /** `makeImp`: fills the impression builder field by field, adding banner and video only for
      the allowed media types the ad unit has. */
  method MakeImp(w: UnitWithParams, ctx: PreBidRequestContext) returns (imp: AdstandingImp)
    ensures imp == ImpFor(w, ctx)
  {
    var unit := w.adUnitBid;
    imp := Imp(unit.adUnitCode, None, None, None, None, None, None);
    imp := imp.(instl := unit.instl);
    imp := imp.(secure := ctx.secure);
    imp := imp.(ext := Some(AdstandingImpExt(w.params.zoneId)));
    var mediaTypes := AllowedMediaTypes(unit, AdstandingMediaTypes);
    if Banner in mediaTypes {
      imp := imp.(banner := Some(BannerFor(unit)));
    }
    if Video in mediaTypes {
      imp := imp.(video := Some(VideoFor(unit)));
    }
  }

  /** `makeImps`: one impression per ad unit that has a banner or video media type. */
  function MakeImps(ws: seq<UnitWithParams>, ctx: PreBidRequestContext): (r: seq<AdstandingImp>)
    ensures |r| <= |ws|
    ensures forall k :: 0 <= k < |r| ==> r[k].banner.Some? || r[k].video.Some?
  {
    var kept := Filter(ws, ContainsAnyAllowedMediaType);
    seq(|kept|, k requires 0 <= k < |kept| => ImpFor(kept[k], ctx))
  }

  /** The impressions are those of exactly the ad units with a banner or video media type, in
      their order: `idx` lists those ad units. Each impression carries a banner or a video. */
  lemma MakeImpsKeepsMediaUnits(ws: seq<UnitWithParams>, ctx: PreBidRequestContext) returns (idx: seq<nat>)
    ensures |idx| == |MakeImps(ws, ctx)|
    ensures forall k :: 0 <= k < |idx| ==> idx[k] < |ws| && MakeImps(ws, ctx)[k] == ImpFor(ws[idx[k]], ctx)
    ensures forall k, l :: 0 <= k < l < |idx| ==> idx[k] < idx[l]
    ensures forall i :: 0 <= i < |ws| ==> (i in idx <==> ContainsAnyAllowedMediaType(ws[i]))
    ensures forall k :: 0 <= k < |idx| ==> MakeImps(ws, ctx)[k].banner.Some? || MakeImps(ws, ctx)[k].video.Some?
  {
    idx := FilterPositions(ws, ContainsAnyAllowedMediaType);
    var imps := MakeImps(ws, ctx);
    forall k | 0 <= k < |idx|
      ensures imps[k].banner.Some? || imps[k].video.Some?
    {
      var types := ws[idx[k]].adUnitBid.mediaTypes;
      assert types * AdstandingMediaTypes != {};
      assert Banner in types || Video in types;
    }
  }

  // ---------------------------------------------------------------------------
  // createBidRequest and makeHttpRequests
  // ---------------------------------------------------------------------------

  /** `createBidRequest`: fills the bid-request builder. The params are parsed before the media
      types are checked, so a params error wins; then the impressions must not be empty.
      `checkMediaTypes` stands for the parent's `validateAdUnitBidsMediaTypes`: the message it
      throws, or `None`. */
  method CreateBidRequest(units: seq<AdstandingAdUnit>, ctx: PreBidRequestContext,
                          checkMediaTypes: seq<AdstandingAdUnit> -> Option<string>)
    returns (r: Result<BidRequest<AdstandingImpExt>, Exception>)
    ensures CreateAdUnitBidsWithParams(units).Failure? ==> r == Failure(CreateAdUnitBidsWithParams(units).error)
    ensures CreateAdUnitBidsWithParams(units).Success? && checkMediaTypes(units).Some? ==>
      r == Failure(PreBidException(checkMediaTypes(units).value))
    ensures CreateAdUnitBidsWithParams(units).Success? && checkMediaTypes(units).None? ==>
      (r.Failure? <==> MakeImps(CreateAdUnitBidsWithParams(units).value, ctx) == [])
    ensures r.Failure? && CreateAdUnitBidsWithParams(units).Success? && checkMediaTypes(units).None? ==>
      r.error == PreBidException(NoImpsMessage)
    ensures r.Success? ==>
      && r.value.id == ctx.tid && r.value.at == Some(1) && r.value.tmax == ctx.timeoutMillis
      && r.value.app == ctx.app && r.value.regs == ctx.regs
      && CreateAdUnitBidsWithParams(units).Success?
      && r.value.imp == MakeImps(CreateAdUnitBidsWithParams(units).value, ctx)
      && r.value.imp != []
  {
    var withParams := CreateAdUnitBidsWithParams(units);
    if withParams.Failure? {
      return Failure(withParams.error);
    }
    var mediaTypesError := checkMediaTypes(units);
    if mediaTypesError.Some? {
      return Failure(PreBidException(mediaTypesError.value));
    }
    var imps := MakeImps(withParams.value, ctx);
    var impsError := ValidateImps(imps);
    if impsError.Some? {
      return Failure(impsError.value);
    }
    var brb := BidRequest(ctx.tid, None, None, [], None, None);
    brb := brb.(at := Some(1));
    brb := brb.(tmax := ctx.timeoutMillis);
    brb := brb.(imp := imps);
    brb := brb.(app := ctx.app);
    brb := brb.(regs := ctx.regs);
    return Success(brb);
  }

  /** `makeHttpRequests`: a single POST of the bid request to the endpoint, or the exception
      `createBidRequest` throws. */
  method MakeHttpRequests(units: seq<AdstandingAdUnit>, ctx: PreBidRequestContext,
                          checkMediaTypes: seq<AdstandingAdUnit> -> Option<string>, endpointUrl: string)
    returns (r: Result<seq<AdapterHttpRequest>, Exception>)
    ensures r.Failure? <==> CreateAdUnitBidsWithParams(units).Failure? || checkMediaTypes(units).Some?
                            || MakeImps(CreateAdUnitBidsWithParams(units).value, ctx) == []
    ensures CreateAdUnitBidsWithParams(units).Failure? ==> r == Failure(CreateAdUnitBidsWithParams(units).error)
    ensures CreateAdUnitBidsWithParams(units).Success? && checkMediaTypes(units).Some? ==>
      r == Failure(PreBidException(checkMediaTypes(units).value))
    ensures r.Failure? && CreateAdUnitBidsWithParams(units).Success? && checkMediaTypes(units).None? ==>
      r.error == PreBidException(NoImpsMessage)
    ensures r.Success? ==>
      && |r.value| == 1 && r.value[0].httpMethod == Post && r.value[0].uri == endpointUrl
      && var request := r.value[0].payload;
      && request.id == ctx.tid && request.at == Some(1) && request.tmax == ctx.timeoutMillis
      && request.app == ctx.app && request.regs == ctx.regs
      && request.imp == MakeImps(CreateAdUnitBidsWithParams(units).value, ctx)
  {
    var bidRequest := CreateBidRequest(units, ctx, checkMediaTypes);
    if bidRequest.Failure? {
      return Failure(bidRequest.error);
    }
    return Success([AdapterHttpRequest(Post, endpointUrl, bidRequest.value)]);
  }

  // ---------------------------------------------------------------------------
  // extractBids, toBidBuilder, mediaTypeFor and parseAdstandingBidExt
  // ---------------------------------------------------------------------------

  /** `parseAdstandingBidExt`: the converted `ext`, or an exception when it is missing or does
      not convert. */
  function ParseAdstandingBidExt(ext: Option<Conversion<AdstandingBidExt>>): (r: Result<AdstandingBidExt, Exception>)
    ensures ext.None? ==> r == Failure(PreBidException(ExtMissingMessage))
    ensures ext.Some? && ext.value.ConversionFailed? ==> r == Failure(PreBidException(ext.value.message))
    ensures ext.Some? && ext.value.Converted? ==> r == Success(ext.value.value)
  {
    match ext
    case None => Failure(PreBidException(ExtMissingMessage))
    case Some(ConversionFailed(message)) => Failure(PreBidException(message))
    case Some(Converted(bidExt)) => Success(bidExt)
  }

  /** The `bid_ad_type` code of a bid `ext`, when the `ext` is there, converts, and has an
      `adstanding` object with the code. */
  function BidAdType(ext: Option<Conversion<AdstandingBidExt>>): Option<Int32>
  {
    if ext.Some? && ext.value.Converted? && ext.value.value.adstanding.Some? then ext.value.value.adstanding.value.bidAdType
    else None
  }

  /** `mediaTypeFor`: code 0 is banner and code 1 is video; a missing `adstanding` object, a
      missing code and any other code each raise their own exception. */
  function MediaTypeFor(ext: Option<Conversion<AdstandingBidExt>>): (r: Result<MediaType, Exception>)
    ensures r == Success(Banner) <==> BidAdType(ext) == Some(0)
    ensures r == Success(Video) <==> BidAdType(ext) == Some(1)
    ensures r.Success? ==> r.value != Native
    ensures ParseAdstandingBidExt(ext).Failure? ==> r == Failure(ParseAdstandingBidExt(ext).error)
    ensures ParseAdstandingBidExt(ext).Success? && ParseAdstandingBidExt(ext).value.adstanding.None? ==>
      r == Failure(PreBidException(AdstandingMissingMessage))
    ensures ParseAdstandingBidExt(ext).Success? && ParseAdstandingBidExt(ext).value.adstanding.Some? && BidAdType(ext).None? ==>
      r == Failure(PreBidException(BidAdTypeMissingMessage))
    ensures BidAdType(ext).Some? && BidAdType(ext).value != 0 && BidAdType(ext).value != 1 ==>
      r == Failure(PreBidException(UnrecognizedBidAdTypeMessage(BidAdType(ext).value)))
  {
    var bidExt :- ParseAdstandingBidExt(ext);
    match bidExt.adstanding
    case None => Failure(PreBidException(AdstandingMissingMessage))
    case Some(adstanding) =>
      match adstanding.bidAdType
      case None => Failure(PreBidException(BidAdTypeMissingMessage))
      case Some(bidAdType) =>
        if bidAdType == 0 then Success(Banner)
        else if bidAdType == 1 then Success(Video)
        else Failure(PreBidException(UnrecognizedBidAdTypeMessage(bidAdType)))
  }

  /** The message for an unrecognized code names it: the code can be read back from the
      message, so two codes never share a message. */
  lemma UnrecognizedMessageNamesCode(bidAdType: Int32, other: Int32)
    ensures |UnrecognizedBidAdTypeMessage(bidAdType)| > |UnrecognizedPrefix|
    ensures ParseInt(UnrecognizedBidAdTypeMessage(bidAdType)[|UnrecognizedPrefix|..]) == Some(bidAdType)
    ensures UnrecognizedBidAdTypeMessage(bidAdType) == UnrecognizedBidAdTypeMessage(other) ==> bidAdType == other
  {
    var message := UnrecognizedBidAdTypeMessage(bidAdType);
    ShowIntChars(bidAdType);
    assert message[|UnrecognizedPrefix|..] == ShowInt(bidAdType);
    ParseShowInt(bidAdType);
    if message == UnrecognizedBidAdTypeMessage(other) {
      assert UnrecognizedBidAdTypeMessage(other)[|UnrecognizedPrefix|..] == ShowInt(other);
      ParseShowInt(other);
    }
  }

  /** The three missing-field exceptions and the unrecognized-code exception all differ. */
  lemma MediaTypeErrorsDistinct(bidAdType: Int32)
    ensures ExtMissingMessage != AdstandingMissingMessage
    ensures ExtMissingMessage != BidAdTypeMissingMessage
    ensures AdstandingMissingMessage != BidAdTypeMissingMessage
    ensures UnrecognizedBidAdTypeMessage(bidAdType) != ExtMissingMessage
    ensures UnrecognizedBidAdTypeMessage(bidAdType) != AdstandingMissingMessage
    ensures UnrecognizedBidAdTypeMessage(bidAdType) != BidAdTypeMissingMessage
  {
    assert ExtMissingMessage[19] == ' ' && AdstandingMissingMessage[19] == '.';
    assert ExtMissingMessage[19] == ' ' && BidAdTypeMissingMessage[19] == '.';
    assert |AdstandingMissingMessage| != |BidAdTypeMissingMessage|;
    var message := UnrecognizedBidAdTypeMessage(bidAdType);
    assert UnrecognizedPrefix[19] == '_';
    assert message[19] == '_';
    assert BidAdTypeMissingMessage[19] == '.';
  }

  /** The prebid bid for a response bid: bidder code and bid id from its ad unit, media type
      from its `ext`, everything else copied from the response bid. */
  function BidFor(bid: AdstandingBid, units: seq<AdstandingAdUnit>): (r: Result<PrebidBid, Exception>)
    ensures LookupBid(units, bid.impid).Failure? ==> r == Failure(LookupBid(units, bid.impid).error)
    ensures LookupBid(units, bid.impid).Success? && MediaTypeFor(bid.ext).Failure? ==> r == Failure(MediaTypeFor(bid.ext).error)
    ensures r.Success? ==>
      && LookupBid(units, bid.impid).Success?
      && r.value.bidder == LookupBid(units, bid.impid).value.bidderCode
      && r.value.bidId == LookupBid(units, bid.impid).value.bidId
      && r.value.code == bid.impid && r.value.price == bid.price && r.value.adm == bid.adm
      && r.value.creativeId == bid.crid && r.value.width == bid.w && r.value.height == bid.h
      && r.value.dealId == bid.dealid && r.value.nurl == bid.nurl
      && r.value.mediaType.Some? && MediaTypeFor(bid.ext) == Success(r.value.mediaType.value)
  {
    var unit :- LookupBid(units, bid.impid);
    var mediaType :- MediaTypeFor(bid.ext);
    Success(PrebidBid(unit.bidderCode, unit.bidId, bid.impid, bid.price, bid.adm, bid.crid,
                      Some(mediaType), bid.w, bid.h, bid.dealid, bid.nurl))
  }

  /** `toBidBuilder`: looks the ad unit up, then fills the bid builder field by field; the media
      type is worked out in between, where its exception is thrown. */
  method ToBidBuilder(bid: AdstandingBid, units: seq<AdstandingAdUnit>) returns (r: Result<PrebidBid, Exception>)
    ensures r == BidFor(bid, units)
  {
    var adUnitBid := LookupBid(units, bid.impid);
    if adUnitBid.Failure? {
      return Failure(adUnitBid.error);
    }
    var unit := adUnitBid.value;
    var bb := PrebidBid(unit.bidderCode, unit.bidId, bid.impid, bid.price, None, None, None, None, None, None, None);
    bb := bb.(adm := bid.adm);
    bb := bb.(creativeId := bid.crid);
    var mediaType := MediaTypeFor(bid.ext);
    if mediaType.Failure? {
      return Failure(mediaType.error);
    }
    bb := bb.(mediaType := Some(mediaType.value));
    bb := bb.(width := bid.w);
    bb := bb.(height := bid.h);
    bb := bb.(dealId := bid.dealid);
    bb := bb.(nurl := bid.nurl);
    return Success(bb);
  }

  /** The prebid bids of the response bids, in order; the first failing bid throws. */
  function BidsOf(bids: seq<AdstandingBid>, units: seq<AdstandingAdUnit>): (r: Result<seq<PrebidBid>, Exception>)
    ensures r.Success? ==> |r.value| == |bids| && forall k :: 0 <= k < |bids| ==> BidFor(bids[k], units) == Success(r.value[k])
    ensures r.Failure? ==> exists k :: 0 <= k < |bids| && BidFor(bids[k], units) == Failure(r.error)
                                       && forall l :: 0 <= l < k ==> BidFor(bids[l], units).Success?
  {
    if bids == [] then Success([])
    else
      var first :- BidFor(bids[0], units);
      assert forall k :: 1 <= k < |bids| ==> bids[k] == bids[1..][k - 1];
      match BidsOf(bids[1..], units)
      case Failure(e) =>
        BidsOfFailureShifts(bids, units, e);
        Failure(e)
      case Success(rest) => Success([first] + rest)
  }

  /** A failure of the bids after the first, when the first succeeds, is a failure of the
      whole list at the next position. */
  lemma BidsOfFailureShifts(bids: seq<AdstandingBid>, units: seq<AdstandingAdUnit>, e: Exception)
    requires bids != [] && BidFor(bids[0], units).Success?
    requires exists k :: 0 <= k < |bids[1..]| && BidFor(bids[1..][k], units) == Failure(e)
                         && forall l :: 0 <= l < k ==> BidFor(bids[1..][l], units).Success?
    ensures exists k :: 0 <= k < |bids| && BidFor(bids[k], units) == Failure(e)
                        && forall l :: 0 <= l < k ==> BidFor(bids[l], units).Success?
  {
    var k :| 0 <= k < |bids[1..]| && BidFor(bids[1..][k], units) == Failure(e)
             && forall l :: 0 <= l < k ==> BidFor(bids[1..][l], units).Success?;
    assert bids[k + 1] == bids[1..][k];
    forall l | 0 <= l < k + 1 ensures BidFor(bids[l], units).Success? {
      if l > 0 {
        assert bids[l] == bids[1..][l - 1];
      }
    }
  }

  /** `extractBids`: one prebid bid per bid of the response, in order, each with a banner or
      video media type. */
  function ExtractBids(units: seq<AdstandingAdUnit>, response: Option<BidResponse<Conversion<AdstandingBidExt>>>)
    : (r: Result<seq<PrebidBid>, Exception>)
    ensures r.Success? ==> |r.value| == |ResponseBids(response)|
    ensures r.Success? ==> forall k :: 0 <= k < |r.value| ==>
      && r.value[k].code == ResponseBids(response)[k].impid
      && r.value[k].mediaType.Some? && r.value[k].mediaType.value in AdstandingMediaTypes
  {
    BidsOf(ResponseBids(response), units)
  }
}
