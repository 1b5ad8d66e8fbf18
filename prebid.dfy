/** What the legacy `/auction` adapters share: the ad units routed to a bidder, the request
    context, the prebid bid they return, the exceptions they throw, and the helpers of their
    parent class `OpenrtbAdapter`. That parent class is not part of this model; each helper
    below carries the behaviour this model assumes of it. */
module Prebid {
  import opened Wrappers
  import opened OpenRtb

  datatype MediaType = Banner | Video | Native

  datatype UnitVideo = UnitVideo(mimes: seq<string>, minDuration: Option<int>, maxDuration: Option<int>)

  /** An ad unit as routed to one bidder; `P` is what the JSON conversion makes of its
      bidder `params` object. */
  datatype AdUnitBid<P> = AdUnitBid(
    adUnitCode: string,
    bidId: string,
    bidderCode: string,
    sizes: seq<Format>,
    topframe: Option<int>,
    instl: Option<int>,
    mediaTypes: set<MediaType>,
    video: Option<UnitVideo>,
    params: Option<P>)

  datatype AdUnitBidWithParams<P, Q> = AdUnitBidWithParams(adUnitBid: AdUnitBid<P>, params: Q)

  /** The outcome of Jackson's `convertValue` or `treeToValue` on a JSON node: the typed value,
      or the message of the exception it threw. */
  datatype Conversion<T> = Converted(value: T) | ConversionFailed(message: string)

  /** The request context, with the fields of its `PreBidRequest` that the adapters read. */
  datatype PreBidRequestContext = PreBidRequestContext(
    tid: string,
    timeoutMillis: Option<int>,
    app: Option<App>,
    regs: Option<Regs>,
    secure: Option<int>,
    domain: Option<string>)

  /** The exceptions the adapters let escape. */
  datatype Exception = PreBidException(message: string) | IndexOutOfBounds

  /** A bid of the legacy prebid response. */
  datatype PrebidBid = PrebidBid(
    bidder: string,
    bidId: string,
    code: string,
    price: Price,
    adm: Option<string>,
    creativeId: Option<string>,
    mediaType: Option<MediaType>,
    width: Option<int>,
    height: Option<int>,
    dealId: Option<string>,
    nurl: Option<string>)

  datatype HttpMethod = Get | Post

  /** `allowedMediaTypes`, assumed to give the ad unit's media types that the adapter allows,
      each once, in the enum's declaration order. */
  function AllowedMediaTypes<P>(unit: AdUnitBid<P>, allowed: set<MediaType>): (r: seq<MediaType>)
    ensures forall t :: t in r <==> t in unit.mediaTypes && t in allowed
    ensures forall i, j :: 0 <= i < j < |r| ==> r[i] != r[j]
  {
    var both := unit.mediaTypes * allowed;
    var r := (if Banner in both then [Banner] else [])
      + (if Video in both then [Video] else [])
      + (if Native in both then [Native] else []);
    assert forall t :: t in r <==>
        ((t == Banner && Banner in both) || (t == Video && Video in both) || (t == Native && Native in both));
    r
  }

  /** `videoBuilder(adUnitBid).build()`, assumed to copy the ad unit's video section. An ad
      unit without a video section is assumed to give a video with no mimes and no durations;
      what the parent class does then is not part of this model. */
  function VideoFor<P>(unit: AdUnitBid<P>): (r: VideoObject)
    ensures unit.video.Some? ==>
      r.mimes == unit.video.value.mimes && r.minDuration == unit.video.value.minDuration
      && r.maxDuration == unit.video.value.maxDuration
    ensures unit.video.None? ==> r.mimes == [] && r.minDuration.None? && r.maxDuration.None?
  {
    match unit.video
    case Some(v) => VideoObject(v.mimes, v.minDuration, v.maxDuration)
    case None => VideoObject([], None, None)
  }

  /** `bannerBuilder(adUnitBid).build()`, assumed to offer every size of the ad unit as a
      format, the first one as `w`/`h`, and to keep its `topframe`. An ad unit without sizes is
      assumed to give a banner without `w`/`h` rather than to throw; what the parent class does
      then is not part of this model. */
  function BannerFor<P>(unit: AdUnitBid<P>): (r: BannerObject)
    ensures r.format == Some(unit.sizes) && r.topframe == unit.topframe
    ensures unit.sizes != [] ==> r.w == Some(unit.sizes[0].w) && r.h == Some(unit.sizes[0].h)
    ensures unit.sizes == [] ==> r.w.None? && r.h.None?
  {
    if unit.sizes == [] then BannerObject(None, None, Some(unit.sizes), unit.topframe)
    else BannerObject(Some(unit.sizes[0].w), Some(unit.sizes[0].h), Some(unit.sizes), unit.topframe)
  }

  const NoImpsMessage := "openRTB bids need at least one Imp"

  /** `validateImps`, assumed to reject an empty impression list. */
  function ValidateImps<X>(imps: seq<Imp<X>>): (r: Option<Exception>)
    ensures r.Some? <==> imps == []
    ensures r.Some? ==> r.value == PreBidException(NoImpsMessage)
  {
    if imps == [] then Some(PreBidException(NoImpsMessage)) else None
  }

  function UnknownAdUnitMessage(code: string): string
  {
    "Unknown ad unit code '" + code + "'"
  }

  /** `lookupBid`, assumed to give the first ad unit whose code is `code` and to throw
      otherwise. */
  function LookupBid<P>(units: seq<AdUnitBid<P>>, code: string): (r: Result<AdUnitBid<P>, Exception>)
    ensures r.Failure? <==> forall i :: 0 <= i < |units| ==> units[i].adUnitCode != code
    ensures r.Failure? ==> r.error == PreBidException(UnknownAdUnitMessage(code))
    ensures r.Success? ==> exists i :: 0 <= i < |units| && units[i] == r.value && units[i].adUnitCode == code
                                       && forall j :: 0 <= j < i ==> units[j].adUnitCode != code
  {
    if units == [] then Failure(PreBidException(UnknownAdUnitMessage(code)))
    else if units[0].adUnitCode == code then Success(units[0])
    else
      var r := LookupBid(units[1..], code);
      assert forall i :: 1 <= i < |units| ==> units[1..][i - 1] == units[i];
      r
  }

  /** `responseBidStream`, assumed to give the bids of every seat bid in order, and nothing for
      a null response or a null seat-bid list. */
  function ResponseBids<E>(response: Option<BidResponse<E>>): (r: seq<RtbBid<E>>)
    ensures response.None? || response.value.seatbid.None? ==> r == []
    ensures response.Some? && response.value.seatbid.Some? ==> r == AllBids(response.value.seatbid.value)
  {
    if response.None? || response.value.seatbid.None? then []
    else AllBids(response.value.seatbid.value)
  }
}
