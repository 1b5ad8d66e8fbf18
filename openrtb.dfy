/** The OpenRTB 2.5 request and response objects the adapters read or build, reduced to the
    fields they touch. A JSON `null` is `None`. */
module OpenRtb {
  import opened Wrappers

  datatype Format = Format(w: int, h: int)

  datatype BannerObject = BannerObject(
    w: Option<int>,
    h: Option<int>,
    format: Option<seq<Format>>,
    topframe: Option<int>)

  datatype VideoObject = VideoObject(
    mimes: seq<string>,
    minDuration: Option<int>,
    maxDuration: Option<int>)

  /** An impression; `X` is the type of its bidder-specific `ext` object. */
  datatype Imp<X> = Imp(
    id: string,
    banner: Option<BannerObject>,
    video: Option<VideoObject>,
    instl: Option<int>,
    secure: Option<int>,
    tagid: Option<string>,
    ext: Option<X>)

  datatype Publisher = Publisher(id: Option<string>, domain: Option<string>)

  datatype App = App(id: Option<string>, bundle: Option<string>, publisher: Option<Publisher>)

  datatype Regs = Regs(coppa: Option<int>)

  /** A bid request, without `site`, `device`, `user` and `source`. */
  datatype BidRequest<X> = BidRequest(
    id: string,
    at: Option<int>,
    tmax: Option<int>,
    imp: seq<Imp<X>>,
    app: Option<App>,
    regs: Option<Regs>)

  /** A `BigDecimal` price, as unscaled value and scale; the adapters only copy it. */
  datatype Price = Price(unscaled: int, scale: int)

  /** A bid of a bid response; `E` is the type of its `ext` object. */
  datatype RtbBid<E> = RtbBid(
    id: string,
    impid: string,
    price: Price,
    adm: Option<string>,
    nurl: Option<string>,
    crid: Option<string>,
    dealid: Option<string>,
    w: Option<int>,
    h: Option<int>,
    ext: Option<E>)

  datatype SeatBid<E> = SeatBid(seat: Option<string>, bid: Option<seq<RtbBid<E>>>)

  datatype BidResponse<E> = BidResponse(id: string, seatbid: Option<seq<SeatBid<E>>>, cur: Option<string>)

  /** The bids of the seat bids, seat by seat and in order; a seat bid whose bid list is null
      contributes nothing. */
  function AllBids<E>(seatbids: seq<SeatBid<E>>): seq<RtbBid<E>>
  {
    if seatbids == [] then []
    else
      var last := seatbids[|seatbids| - 1];
      AllBids(seatbids[..|seatbids| - 1]) + (if last.bid.Some? then last.bid.value else [])
  }

  /** Every bid of every seat bid is among all the bids, and every one of all the bids comes
      from some seat bid's list: `origin[i]` is the seat bid the `i`-th bid comes from. */
  lemma AllBidsMembers<E>(seatbids: seq<SeatBid<E>>) returns (origin: seq<nat>)
    ensures forall k, j :: 0 <= k < |seatbids| && seatbids[k].bid.Some? && 0 <= j < |seatbids[k].bid.value| ==>
      seatbids[k].bid.value[j] in AllBids(seatbids)
    ensures |origin| == |AllBids(seatbids)|
    ensures forall i :: 0 <= i < |origin| ==>
      origin[i] < |seatbids| && seatbids[origin[i]].bid.Some? && AllBids(seatbids)[i] in seatbids[origin[i]].bid.value
  {
    AllBidsHasEverySeatBid(seatbids);
    origin := AllBidsOrigins(seatbids);
  }

  lemma {:induction false} AllBidsHasEverySeatBid<E>(seatbids: seq<SeatBid<E>>)
    ensures forall k, j :: 0 <= k < |seatbids| && seatbids[k].bid.Some? && 0 <= j < |seatbids[k].bid.value| ==>
      seatbids[k].bid.value[j] in AllBids(seatbids)
  {
    if seatbids != [] {
      var n := |seatbids| - 1;
      var front := AllBids(seatbids[..n]);
      var last: seq<RtbBid<E>> := if seatbids[n].bid.Some? then seatbids[n].bid.value else [];
      assert AllBids(seatbids) == front + last;
      AllBidsHasEverySeatBid(seatbids[..n]);
      forall k, j | 0 <= k < |seatbids| && seatbids[k].bid.Some? && 0 <= j < |seatbids[k].bid.value|
        ensures seatbids[k].bid.value[j] in AllBids(seatbids)
      {
        if k < n {
          assert seatbids[..n][k] == seatbids[k];
          assert seatbids[k].bid.value[j] in front;
        } else {
          assert seatbids[k].bid.value[j] == last[j];
        }
      }
    }
  }

  lemma {:induction false} AllBidsOrigins<E>(seatbids: seq<SeatBid<E>>) returns (origin: seq<nat>)
    ensures |origin| == |AllBids(seatbids)|
    ensures forall i :: 0 <= i < |origin| ==>
      origin[i] < |seatbids| && seatbids[origin[i]].bid.Some? && AllBids(seatbids)[i] in seatbids[origin[i]].bid.value
  {
    if seatbids == [] {
      origin := [];
    } else {
      var n := |seatbids| - 1;
      var front := AllBids(seatbids[..n]);
      var last: seq<RtbBid<E>> := if seatbids[n].bid.Some? then seatbids[n].bid.value else [];
      assert AllBids(seatbids) == front + last;
      var frontOrigin := AllBidsOrigins(seatbids[..n]);
      origin := frontOrigin + seq(|last|, _ => n);
      forall i | 0 <= i < |origin|
        ensures origin[i] < |seatbids| && seatbids[origin[i]].bid.Some? && AllBids(seatbids)[i] in seatbids[origin[i]].bid.value
      {
        if i < |front| {
          assert origin[i] == frontOrigin[i] && AllBids(seatbids)[i] == front[i];
          assert seatbids[..n][frontOrigin[i]] == seatbids[frontOrigin[i]];
        } else {
          assert origin[i] == n && AllBids(seatbids)[i] == last[i - |front|];
        }
      }
    }
  }
}
