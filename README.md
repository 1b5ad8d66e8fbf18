# Prebid Server bidder translation layer, in Dafny

This project models how Prebid Server (Java) translates requests and responses for two
bidders, and proves properties of that model:

- the legacy `/auction` adapter for **Pubmatic** (`PubmaticAdapter`);
- the legacy adapter for **Adstanding** (`AdstandingAdapter`);
- the OpenRTB bidder for **Adstanding** (`AdstandingBidder`).

An adapter turns the ad units routed to its bidder into one OpenRTB bid request, and turns the
bidder's response back into prebid bids. The model covers four parts of that work:

- parameter parsing and validation (Pubmatic's `tagId@WxH[:suffix]` ad slot, Adstanding's
  non-zero zone id);
- building impressions and the bid request;
- the single HTTP request each adapter sends;
- reading the bids of the response.

Modules:

- `Wrappers`: `Option`, and `Result`, which stands for a Java exception escaping.
- `JavaText`: the Java library calls the parsers rely on, with Java's own edge cases.
  - `String.trim`, `StringUtils.trimToNull`, ASCII `toLowerCase`.
  - `String.split(char)`, which drops trailing empty pieces and returns the whole string when
    the separator is absent.
  - `Integer.parseInt`, limited to the 32-bit range, and `Integer.toString`.
- `OpenRtb`: the bid request and response records the adapters read and write.
- `Sequences`: a stream `filter`, and the positions it keeps.
- `Prebid`: what the adapters share.
  - The ad unit, the request context, the prebid bid and the exceptions.
  - The helpers of their parent class. Each helper is a definition stating what the model
    assumes of it.
- `PubmaticAdapter`: pure functions, like the source's stream pipelines and early returns.
- `AdstandingAdapter`: functions for the stream code. Methods fill the request, impression and
  bid builders field by field. `MakeImp` and `ToBidBuilder` are proved equal to specification
  functions. `CreateBidRequest` and `MakeHttpRequests` state their results and errors directly
  in their contracts.
- `AdstandingBidder`: methods with the source's loops. `resolveBidType` has an early return;
  `bidsFromResponse` has two nested loops that append to `bids`. Each loop is proved against a
  recursive specification function, whose own properties are lemmas.

Models of the inputs:

- Jackson conversions are inputs of type `Conversion<T>`: the converted value or the
  exception's message.
- JSON encoding and decoding are inputs of type `Encoding` and `Decoding`.
- `validateAdUnitBidsMediaTypes` is a function parameter.

## Model

| member | source | states |
|---|---|---|
| `PubmaticAdapter.ParseAndValidateParams` | src/main/java/org/prebid/server/adapter/pubmatic/PubmaticAdapter.java:141-199 | Params it returns always have a non-empty publisher id, an ad slot, a tag id, a width and a height. |
| `PubmaticAdapter.ParsedParamsFacts` | src/main/java/org/prebid/server/adapter/pubmatic/PubmaticAdapter.java:141-199 | The params are null when they are missing or do not convert, when the publisher id is empty, or when the ad slot is absent or blank after trimming. Parsed params keep the publisher id and hold the trimmed ad slot. Their tag id is non-empty, has no `@`, and is the part of the slot before its first `@`. Width and height are present. |
| `PubmaticAdapter.ParamsRoundTrip` | src/main/java/org/prebid/server/adapter/pubmatic/PubmaticAdapter.java:163-198 | A slot `T@WxH`, `T@WXH` or `T@WxH:s` parses to (publisher id, trimmed slot, `T`, `W`, `H`), for any 32-bit `W` and `H` as Java prints them. Trimming drops only the trailing blanks of `s`, so a slot that does not end in a blank comes back unchanged. |
| `PubmaticAdapter.SlotParsing` | src/main/java/org/prebid/server/adapter/pubmatic/PubmaticAdapter.java:163-198 | Take any trimmed slot `T@W(x or X)H[:s]`. `T` is non-empty without `@`; `W` and `H` have no `@`, `x` or `X`; `H` has no `:`; `s` is empty or starts with `:`. The params are present iff trimmed `W` and trimmed `H` both parse as ints. They then hold the publisher id, the trimmed slot, `T` and those two ints. |
| `PubmaticAdapter.NoAtSignRejected` | src/main/java/org/prebid/server/adapter/pubmatic/PubmaticAdapter.java:169-173 | A slot without `@` is rejected. |
| `PubmaticAdapter.MissingSizeRejected` | src/main/java/org/prebid/server/adapter/pubmatic/PubmaticAdapter.java:169-173 | `T@` with no other `@` (such as `x@`) is rejected, because the split drops the empty size part. |
| `PubmaticAdapter.MissingTagRejected` | src/main/java/org/prebid/server/adapter/pubmatic/PubmaticAdapter.java:169-173 | A slot that starts with `@` is rejected. |
| `PubmaticAdapter.SizeWithoutSeparatorRejected` | src/main/java/org/prebid/server/adapter/pubmatic/PubmaticAdapter.java:175-179 | A size part without `x` or `X` (such as `300`) is rejected. |
| `PubmaticAdapter.ThreeSizePiecesRejected` | src/main/java/org/prebid/server/adapter/pubmatic/PubmaticAdapter.java:175-179 | A size part with two `x` separators and a non-empty last piece (such as `3x4x5`) is rejected. |
| `PubmaticAdapter.PublisherAndTrimmedSlot` | src/main/java/org/prebid/server/adapter/pubmatic/PubmaticAdapter.java:157-167 | A non-empty publisher id and an unpadded slot pass the first checks unchanged. |
| `PubmaticAdapter.SlotSplits` | src/main/java/org/prebid/server/adapter/pubmatic/PubmaticAdapter.java:169-175 | `tag@width(x or X)height` splits into the tag, the width text and the lower-cased height text. |
| `PubmaticAdapter.SizeParses` | src/main/java/org/prebid/server/adapter/pubmatic/PubmaticAdapter.java:181-196 | For a printed width, and a printed height followed by a text that is empty or starts with `:`, the size is those two ints. |
| `PubmaticAdapter.TwoAtSignsRejected` | src/main/java/org/prebid/server/adapter/pubmatic/PubmaticAdapter.java:169-173 | A slot with three non-trivial `@`-separated parts is rejected. |
| `PubmaticAdapter.TrailingAtSignIgnored` | src/main/java/org/prebid/server/adapter/pubmatic/PubmaticAdapter.java:169-173 | A trailing `@` after a slot that has an `@` changes nothing, because Java's split drops the empty last piece. |
| `PubmaticAdapter.RoundTripSplits` | src/main/java/org/prebid/server/adapter/pubmatic/PubmaticAdapter.java:169-175 | A slot written `tag@<width>(x or X)<height><suffix>` splits into the tag, the printed width and the printed height followed by the lower-cased suffix. |
| `PubmaticAdapter.RoundTripSlotEnds` | src/main/java/org/prebid/server/adapter/pubmatic/PubmaticAdapter.java:163-167 | Such a slot, from a tag with a non-blank first character and a suffix with a non-blank last character, is not changed by trimming. |
| `PubmaticAdapter.ParseAndValidateParamsAsWritten` | src/main/java/org/prebid/server/adapter/pubmatic/PubmaticAdapter.java:141-199 | The only exception it throws is the index-out-of-bounds one. Params it returns have a tag id, a width and a height. |
| `PubmaticAdapter.SizeAsWrittenOnlyAddsTheThrow` | src/main/java/org/prebid/server/adapter/pubmatic/PubmaticAdapter.java:181-196 | The size parse as written matches the corrected one, except that it throws. It throws exactly when the width parses and the height text is all colons. |
| `PubmaticAdapter.AsWrittenOnlyAddsTheThrow` | src/main/java/org/prebid/server/adapter/pubmatic/PubmaticAdapter.java:141-199 | The parser as written returns what the corrected parser returns, or throws where the corrected parser returns no params. |
| `PubmaticAdapter.ColonOnlyHeightThrows` | src/main/java/org/prebid/server/adapter/pubmatic/PubmaticAdapter.java:189-196 | For `tag@<W>x:` (any number of colons) the code as written throws an index-out-of-bounds error. The corrected parser ignores the ad unit. |
| `PubmaticAdapter.ColonOnlyHeightPiece` | src/main/java/org/prebid/server/adapter/pubmatic/PubmaticAdapter.java:189-196 | A height piece made only of colons: as written it throws; corrected, it gives no size. |
| `PubmaticAdapter.IsValidParams` | src/main/java/org/prebid/server/adapter/pubmatic/PubmaticAdapter.java:130-139 | Valid params are present. For an ad unit without the banner type, any present params are valid. |
| `PubmaticAdapter.ParsedParamsValidIffPresent` | src/main/java/org/prebid/server/adapter/pubmatic/PubmaticAdapter.java:130-139 | A parsed entry is valid iff its params are present. Parsed params always have tag id, width and height, so the banner rule never rejects them. |
| `PubmaticAdapter.CreateAdUnitBidsWithParams` | src/main/java/org/prebid/server/adapter/pubmatic/PubmaticAdapter.java:116-128 | Keeps length and order and pairs each ad unit with its parsed params. Throws "Incorrect adSlot / Publisher param" exactly when no ad unit has params. |
| `PubmaticAdapter.PairedAsWrittenOnlyAddsTheThrow` | src/main/java/org/prebid/server/adapter/pubmatic/PubmaticAdapter.java:118-120 | Pairing on the parser as written throws the index-out-of-bounds error iff some ad unit's params make that parser throw. Otherwise it pairs each ad unit with its corrected params. |
| `PubmaticAdapter.CreateAsWrittenOnlyAddsTheThrow` | src/main/java/org/prebid/server/adapter/pubmatic/PubmaticAdapter.java:116-128 | `createAdUnitBidsWithParams` on the parser as written throws the index-out-of-bounds error iff some ad unit's params make that parser throw. Otherwise it returns or throws what the corrected version does. |
| `PubmaticAdapter.PairedWithParamsAsWritten` | src/main/java/org/prebid/server/adapter/pubmatic/PubmaticAdapter.java:118-120 | Pairing on the parser as written throws only the index-out-of-bounds error; otherwise each ad unit is kept, in order. The rest of its behaviour is stated by `PubmaticAdapter.PairedAsWrittenOnlyAddsTheThrow`. |
| `PubmaticAdapter.CreateAdUnitBidsWithParamsAsWritten` | src/main/java/org/prebid/server/adapter/pubmatic/PubmaticAdapter.java:116-128 | As written, it throws only the index-out-of-bounds error or "Incorrect adSlot / Publisher param"; otherwise each ad unit is kept, in order. The rest of its behaviour is stated by `PubmaticAdapter.CreateAsWrittenOnlyAddsTheThrow`. |
| `PubmaticAdapter.MakeBanner` | src/main/java/org/prebid/server/adapter/pubmatic/PubmaticAdapter.java:244-253 | Throws exactly when the ad unit has no sizes. With params: w/h from the params and no format. Without params: w/h of the first size, and all sizes as formats. `topframe` is kept. |
| `PubmaticAdapter.ImpWithMedia` | src/main/java/org/prebid/server/adapter/pubmatic/PubmaticAdapter.java:219-242 | The imp for one media type has the ad unit code as id, its `instl`, the request's `secure`, a banner iff the type is banner (from `makeBanner`), a video iff it is video, and a tag id only for a banner with params. Fails, with the index-out-of-bounds error, exactly for a banner without sizes. |
| `PubmaticAdapter.MakeImpsForAdUnitBid` | src/main/java/org/prebid/server/adapter/pubmatic/PubmaticAdapter.java:214-226 | One imp per allowed media type of the ad unit, in order, each following those imp rules. Fails exactly when the ad unit has the banner type and no sizes. |
| `PubmaticAdapter.ImpsForMediaTypes` | src/main/java/org/prebid/server/adapter/pubmatic/PubmaticAdapter.java:214-242 | One imp per media type, each following the imp rules. Fails exactly when a banner is asked for and there are no sizes. |
| `PubmaticAdapter.ImpPlanCovers` | src/main/java/org/prebid/server/adapter/pubmatic/PubmaticAdapter.java:207-226 | The (ad unit, media type) pairs are exactly the ad units paired with their allowed media types. |
| `PubmaticAdapter.MakeImps` | src/main/java/org/prebid/server/adapter/pubmatic/PubmaticAdapter.java:207-226 | Any exception it throws is the index-out-of-bounds one. |
| `PubmaticAdapter.MakeImpsFollowsPlan` | src/main/java/org/prebid/server/adapter/pubmatic/PubmaticAdapter.java:207-242 | One imp per (ad unit, allowed media type), flattened in ad-unit order, each following the imp rules for its ad unit and media type. |
| `PubmaticAdapter.MakeImpsFailsIffBannerWithoutSizes` | src/main/java/org/prebid/server/adapter/pubmatic/PubmaticAdapter.java:207-253 | It throws exactly when some ad unit asks for a banner and has no sizes. |
| `PubmaticAdapter.MakeImpsIdsAndTagIds` | src/main/java/org/prebid/server/adapter/pubmatic/PubmaticAdapter.java:214-226 | Every imp id is an ad unit code. `tagid` is set only on banner imps whose params are present. |
| `PubmaticAdapter.LastPublisherId` | src/main/java/org/prebid/server/adapter/pubmatic/PubmaticAdapter.java:255-261 | The publisher id of the last entry whose params have a publisher id and an ad slot. None iff there is no such entry. |
| `PubmaticAdapter.MakePublisher` | src/main/java/org/prebid/server/adapter/pubmatic/PubmaticAdapter.java:255-267 | A publisher with that id and the request's domain, and none iff there is no such id. |
| `PubmaticAdapter.MakeApp` | src/main/java/org/prebid/server/adapter/pubmatic/PubmaticAdapter.java:269-274 | The request's app with its publisher replaced, and none iff the request has no app. |
| `PubmaticAdapter.BidRequestFor` | src/main/java/org/prebid/server/adapter/pubmatic/PubmaticAdapter.java:98-113 | Fails iff building the imps fails or there are no imps. Otherwise: id = tid, at = 1, tmax = the timeout, the imps, no regs, and the app with the publisher. |
| `PubmaticAdapter.CreateBidRequest` | src/main/java/org/prebid/server/adapter/pubmatic/PubmaticAdapter.java:90-114 | The media-type check comes first. Then "Incorrect adSlot / Publisher param" when no ad unit has params. Then an error of `createAdUnitBidsWithParams` is thrown unchanged. Otherwise the result is the bid request for the paired ad units: makeImps' index-out-of-bounds error, or "openRTB bids need at least one Imp" when makeImps returns no imps. On success the imps are exactly makeImps of the paired ad units; also id = tid, at = 1, tmax, no regs, and the app with the publisher of `makePublisher`, present iff the request has an app. |
| `PubmaticAdapter.BidRequestImpsFromUnits` | src/main/java/org/prebid/server/adapter/pubmatic/PubmaticAdapter.java:90-114 | Every imp of the request is named after one of the ad units. |
| `PubmaticAdapter.BidRequestPublisherIsLastValid` | src/main/java/org/prebid/server/adapter/pubmatic/PubmaticAdapter.java:101-108 | With an app, its publisher has the request's domain and the publisher id of the last ad unit with valid params. |
| `PubmaticAdapter.LastPublisherIsLastValid` | src/main/java/org/prebid/server/adapter/pubmatic/PubmaticAdapter.java:255-261 | When publisher presence coincides with params presence, the chosen id is that of the last entry with params. |
| `PubmaticAdapter.MakeHttpRequests` | src/main/java/org/prebid/server/adapter/pubmatic/PubmaticAdapter.java:80-88 | Exactly one request to the endpoint, carrying the built bid request; otherwise the exception building it threw. |
| `PubmaticAdapter.ToBidBuilder` | src/main/java/org/prebid/server/adapter/pubmatic/PubmaticAdapter.java:295-307 | Throws iff no ad unit has the bid's impid. Otherwise it copies impid, price, adm, crid, w, h and dealid, takes bidder and bid id from the first ad unit with that code, and sets no media type or nurl. |
| `PubmaticAdapter.BidsOf` | src/main/java/org/prebid/server/adapter/pubmatic/PubmaticAdapter.java:289-293 | One prebid bid per response bid, in order. Fails iff some bid fails. |
| `PubmaticAdapter.ExtractBids` | src/main/java/org/prebid/server/adapter/pubmatic/PubmaticAdapter.java:288-293 | One bid per response bid, with its code and price. Fails iff some response bid names an unknown ad unit. |
| `AdstandingAdapter.ParseAndValidateParams` | src/main/java/org/prebid/server/bidder/adstanding/AdstandingAdapter.java:88-108 | Succeeds iff the params convert and the zone id is present and non-zero; the params are then returned unchanged. Each failure has its own message: params missing, the conversion's message, or "No zone provided". |
| `AdstandingAdapter.CreateAdUnitBidsWithParams` | src/main/java/org/prebid/server/bidder/adstanding/AdstandingAdapter.java:82-86 | All or nothing. On success the units are kept in order with their params. Otherwise the error is that of the first failing unit. |
| `AdstandingAdapter.ImpFor` | src/main/java/org/prebid/server/bidder/adstanding/AdstandingAdapter.java:120-141 | id = ad unit code, instl, secure, and `ext.zone_id` = the zone id. Banner present iff banner is allowed, video present iff video is allowed, each built from the ad unit. |
| `AdstandingAdapter.MakeImp` | src/main/java/org/prebid/server/bidder/adstanding/AdstandingAdapter.java:120-141 | Filling the builder field by field gives exactly that impression. |
| `AdstandingAdapter.ContainsAnyAllowedMediaType` | src/main/java/org/prebid/server/bidder/adstanding/AdstandingAdapter.java:116-118 | True iff the ad unit has the banner or the video media type. |
| `AdstandingAdapter.MakeImps` | src/main/java/org/prebid/server/bidder/adstanding/AdstandingAdapter.java:110-114 | At most one imp per ad unit, and each imp has a banner or a video. `MakeImpsKeepsMediaUnits` states which ad units give imps, and in which order. |
| `AdstandingAdapter.MakeImpsKeepsMediaUnits` | src/main/java/org/prebid/server/bidder/adstanding/AdstandingAdapter.java:110-118 | The imps are those of exactly the ad units with a banner or video type, in order. Each has a banner or a video. |
| `AdstandingAdapter.CreateBidRequest` | src/main/java/org/prebid/server/bidder/adstanding/AdstandingAdapter.java:57-80 | Params errors take precedence over the media-type check, which takes precedence over "no imps". On success: id = tid, at = 1, tmax, app and regs passed through, and the imps of the units. |
| `AdstandingAdapter.MakeHttpRequests` | src/main/java/org/prebid/server/bidder/adstanding/AdstandingAdapter.java:48-55 | Fails iff building the request fails. The error is that of the params, else that of the media-type check, else "no imps". Otherwise exactly one POST to the endpoint, with that request. |
| `AdstandingAdapter.ParseAdstandingBidExt` | src/main/java/org/prebid/server/bidder/adstanding/AdstandingAdapter.java:192-204 | A missing ext and a failed conversion each raise their own error. Otherwise the converted ext is returned. |
| `AdstandingAdapter.MediaTypeFor` | src/main/java/org/prebid/server/bidder/adstanding/AdstandingAdapter.java:170-190 | Banner iff the code is 0, video iff the code is 1, never native. A missing ext, a missing `adstanding`, a missing code and any other code each raise their own error. |
| `AdstandingAdapter.UnrecognizedMessageNamesCode` | src/main/java/org/prebid/server/bidder/adstanding/AdstandingAdapter.java:186-188 | The unrecognised-code message ends with the code, which parses back to it, so different codes give different messages. |
| `AdstandingAdapter.MediaTypeErrorsDistinct` | src/main/java/org/prebid/server/bidder/adstanding/AdstandingAdapter.java:170-204 | The four media-type error messages are pairwise distinct. |
| `AdstandingAdapter.BidFor` | src/main/java/org/prebid/server/bidder/adstanding/AdstandingAdapter.java:150-168 | The ad-unit lookup error wins, then the media-type error. Otherwise bidder and bid id come from the ad unit, impid, price, adm, crid, w, h, dealid and nurl are copied, and the media type is the one the code names. |
| `AdstandingAdapter.ToBidBuilder` | src/main/java/org/prebid/server/bidder/adstanding/AdstandingAdapter.java:150-168 | Filling the bid builder field by field gives exactly that bid or error. |
| `AdstandingAdapter.BidsOf` | src/main/java/org/prebid/server/bidder/adstanding/AdstandingAdapter.java:143-148 | One bid per response bid, in order. Otherwise the error of the first failing bid. |
| `AdstandingAdapter.ExtractBids` | src/main/java/org/prebid/server/bidder/adstanding/AdstandingAdapter.java:143-148 | One bid per response bid, with its code. Each bid's media type is banner or video. |
| `AdstandingBidder.MakeHttpRequests` | src/main/java/org/prebid/server/bidder/adstanding/AdstandingBidder.java:50-64 | Either one POST (endpoint, body, the request as payload) and no errors, or no request and exactly one bad-input error. Any other exception escapes. |
| `AdstandingBidder.ResolvedType` | src/main/java/org/prebid/server/bidder/adstanding/AdstandingBidder.java:105-116 | A resolved type is banner or video. |
| `AdstandingBidder.ResolvedTypeIsFirstTypedMatch` | src/main/java/org/prebid/server/bidder/adstanding/AdstandingBidder.java:105-116 | The type is that of the first imp with the bid's id that has a banner (banner) or else a video (video). Matching imps with neither are skipped. None iff there is no such imp. |
| `AdstandingBidder.ResolveBidType` | src/main/java/org/prebid/server/bidder/adstanding/AdstandingBidder.java:105-116 | The loop with its early return computes exactly that type. |
| `AdstandingBidder.KeptIsOrderedSelection` | src/main/java/org/prebid/server/bidder/adstanding/AdstandingBidder.java:89-100 | The kept bids are an order-preserving subsequence of the flattened bids, no longer than it. A bid is kept iff its type resolves, and each kept bid carries its type and the response currency. |
| `AdstandingBidder.KeptBids` | src/main/java/org/prebid/server/bidder/adstanding/AdstandingBidder.java:82-103 | A null response or a null seat-bid list gives no bids. Otherwise there are never more bids than the seat bids hold together. |
| `AdstandingBidder.BidsFromResponse` | src/main/java/org/prebid/server/bidder/adstanding/AdstandingBidder.java:82-103 | The nested loops return exactly the kept bids of the flattened seat bids, or none for a null response or a null seat-bid list. |
| `AdstandingBidder.NullSeatBidsContributeNothing` | src/main/java/org/prebid/server/bidder/adstanding/AdstandingBidder.java:83-91 | A null response and a null seat-bid list give no bids. Removing a seat bid whose bid list is null changes nothing. |
| `AdstandingBidder.AllBidsWithout` | src/main/java/org/prebid/server/bidder/adstanding/AdstandingBidder.java:89-91 | Flattening skips a seat bid with a null bid list. |
| `AdstandingBidder.MakeBids` | src/main/java/org/prebid/server/bidder/adstanding/AdstandingBidder.java:66-75 | A decode failure gives no bids and exactly one bad-server-response error. A decoded response gives the kept bids, resolved against the request actually sent, and no errors. |
| `AdstandingBidder.ExtractTargeting` | src/main/java/org/prebid/server/bidder/adstanding/AdstandingBidder.java:77-80 | The targeting map is empty. |
| `AdstandingBidder.ResolvedTypeAsWritten` | src/main/java/org/prebid/server/bidder/adstanding/AdstandingBidder.java:105-116 | A type resolved by comparing references is banner or video. |
| `AdstandingBidder.FreshImpidNeverResolves` | src/main/java/org/prebid/server/bidder/adstanding/AdstandingBidder.java:107 | Comparing references as written, a bid whose impid is an object no imp holds never resolves. |
| `AdstandingBidder.AsWrittenAgreesWhenIdentitiesMatch` | src/main/java/org/prebid/server/bidder/adstanding/AdstandingBidder.java:107 | Where equal text means the same object, the code as written resolves like the corrected comparison. |
| `AdstandingBidder.EqualIdsDifferentObjects` | src/main/java/org/prebid/server/bidder/adstanding/AdstandingBidder.java:105-116 | A banner imp "1" and a decoded bid for "1": as written the type is unresolved, corrected it is banner and the bid is kept. |
| `OpenRtb.AllBidsMembers` | src/main/java/org/prebid/server/bidder/adstanding/AdstandingBidder.java:89-100 | Every bid of every non-null bid list is among the flattened bids. Every flattened bid comes from a seat bid: `origin[i]` is the seat bid the i-th flattened bid comes from. |
| `Sequences.FilterPositions` | src/main/java/org/prebid/server/bidder/adstanding/AdstandingAdapter.java:110-114 | The filtered list is the order-preserving subsequence of exactly the elements that pass. |
| `Prebid.AllowedMediaTypes` | src/main/java/org/prebid/server/adapter/pubmatic/PubmaticAdapter.java:219 | Assumed helper: the ad unit's media types within the allowed set, each once. |
| `Prebid.LookupBid` | src/main/java/org/prebid/server/adapter/pubmatic/PubmaticAdapter.java:296 | Assumed helper: the first ad unit with the code. Throws "Unknown ad unit code" iff there is none. |
| `Prebid.BannerFor` | src/main/java/org/prebid/server/bidder/adstanding/AdstandingAdapter.java:134 | Assumed helper: every size as a format, `topframe` kept, and `w`/`h` of the first size. Without sizes there is no `w`/`h`. |
| `Prebid.VideoFor` | src/main/java/org/prebid/server/bidder/adstanding/AdstandingAdapter.java:137 | Assumed helper: the mimes and durations of the ad unit's video section. Without one, no mimes and no durations. |
| `Prebid.ValidateImps` | src/main/java/org/prebid/server/adapter/pubmatic/PubmaticAdapter.java:99 | Assumed helper: rejects exactly an empty imp list, with "openRTB bids need at least one Imp". |
| `Prebid.ResponseBids` | src/main/java/org/prebid/server/adapter/pubmatic/PubmaticAdapter.java:290 | Assumed helper: the bids of every seat bid, flattened in order. None for a null response or a null seat-bid list. |
| `JavaText.Trim` | src/main/java/org/prebid/server/adapter/pubmatic/PubmaticAdapter.java:183 | The trimmed string is the string with its leading and trailing blanks removed: it is a window of the string, with only blanks before and after it, and it neither starts nor ends with a blank. |
| `JavaText.TrimToNull` | src/main/java/org/prebid/server/adapter/pubmatic/PubmaticAdapter.java:163 | Null for an absent or blank string, otherwise the non-empty trimmed string. |
| `JavaText.TrimIdempotent` | src/main/java/org/prebid/server/adapter/pubmatic/PubmaticAdapter.java:163 | Trimming twice is trimming once. |
| `JavaText.JavaSplit` | src/main/java/org/prebid/server/adapter/pubmatic/PubmaticAdapter.java:169 | No piece contains the separator. |
| `JavaText.SplitJoin` | src/main/java/org/prebid/server/adapter/pubmatic/PubmaticAdapter.java:169-175 | Joining the pieces of a split gives back the string without all of its trailing separators: a prefix of the string, followed in the string only by separators, and not itself ending with one. |
| `JavaText.SplitPrefix` | src/main/java/org/prebid/server/adapter/pubmatic/PubmaticAdapter.java:169 | With two or more pieces, the first piece is the text before the first separator. |
| `JavaText.SplitOfSeparators` | src/main/java/org/prebid/server/adapter/pubmatic/PubmaticAdapter.java:190 | Splitting a string made only of separators gives no pieces. |
| `JavaText.SplitAround` | src/main/java/org/prebid/server/adapter/pubmatic/PubmaticAdapter.java:169 | `a<sep>b` with a non-empty `b` and no other separator gives exactly `[a, b]`. |
| `JavaText.SplitWithOneTrailingSeparator` | src/main/java/org/prebid/server/adapter/pubmatic/PubmaticAdapter.java:169 | `a<sep>` with no other separator gives just `[a]`, or no piece when `a` is empty. |
| `JavaText.ToLowerCase` | src/main/java/org/prebid/server/adapter/pubmatic/PubmaticAdapter.java:175 | Same length, and each character lowered on its own. |
| `JavaText.ParseTrimmedLower` | src/main/java/org/prebid/server/adapter/pubmatic/PubmaticAdapter.java:175-192 | Lower-casing before trimming and parsing does not change the parsed int. |
| `JavaText.ParseInt` | src/main/java/org/prebid/server/adapter/pubmatic/PubmaticAdapter.java:183 | An int is parsed only from a non-empty text with no blank at either end. |
| `JavaText.ShowInt` | src/main/java/org/prebid/server/bidder/adstanding/AdstandingAdapter.java:187 | For a non-negative int, exactly its decimal digits without leading zeros. For a negative int, `-` followed by the digits of its absolute value; only then does it start with `-`. |
| `JavaText.ParseShowInt` | src/main/java/org/prebid/server/adapter/pubmatic/PubmaticAdapter.java:181-196 | Parsing Java's rendering of any 32-bit int gives it back. |

## Left out

- HTTP headers, the Pubmatic `KADUSERCOOKIE` cookie, usersync URLs, `code()` and `cookieFamily()`: header maps, cookie encoding and URL encoding are foreign calls with no logic to prove.
- Logging in `logWrongParams`: a side effect only; the model returns the same null.
- `site`, `device`, `user` and `source` of the bid requests: `siteBuilder`, `deviceBuilder`, `makeUser` and `makeSource` live in the parent class `OpenrtbAdapter`, which is not part of this model.
- The parent-class helpers `allowedMediaTypes`, `bannerBuilder`, `videoBuilder`, `validateImps`, `lookupBid` and `responseBidStream`: their code is not part of this model. The definitions in `Prebid` state the behaviour assumed of them.
- `validateAdUnitBidsMediaTypes` is not part of this model either. It is a function parameter that gives the exception message or nothing.
- Jackson `convertValue`/`treeToValue`, Vert.x `Json.encode`/`Json.decodeValue`, and `Json.mapper.valueToTree` of the imp ext. These are foreign library calls. They are inputs (`Conversion`, `Encoding`, `Decoding`), and the imp ext is kept as its record.
- Endpoint URL validation in the constructors (`HttpUtil.validateUrl`), and the bidder's constant header map: configuration, not translation.
- `BigDecimal` prices: they are only copied, so they are an opaque `Price` value.
- JavaText.ParseInt: accepts ASCII digits only. Java's `Integer.parseInt` also accepts other Unicode decimal digits.
- JavaText.ToLowerCase: lowers only ASCII letters. `String.toLowerCase` lowers every Unicode letter. This could matter only for non-ASCII text next to the `x` of an ad-slot size.
- PubmaticAdapter.ExtractBids: states only the code and price of each bid. The other copied fields are stated by `PubmaticAdapter.ToBidBuilder` and linked by `PubmaticAdapter.BidsOf`.
- AdstandingAdapter.ExtractBids: states each bid's code and media type, but not its failure. The failure is stated by `AdstandingAdapter.BidsOf`.
- AdstandingBidder.BidsFromResponse: seat-bid and bid lists are modelled without null elements. Jackson decodes `"seatbid":[null]` or `"bid":[null]` into a list that holds null, and then `seatBid.getBid()` (AdstandingBidder.java:90) or `bid.getImpid()` (:107, when the request has an imp) throws a `NullPointerException`. `makeBids` catches only `DecodeException` (:72), so that exception escapes. The model has no such element, so `AdstandingBidder.MakeBids` does not capture that path.
- AdstandingBidder.MakeHttpRequests: any exception other than `PreBidException` escapes as a `Failure`; the model does not name its Java type.
- PubmaticAdapter.CreateAdUnitBidsWithParams: uses the corrected parser, so it does not throw for an ad slot such as `slot@300x:`. `PubmaticAdapter.CreateAdUnitBidsWithParamsAsWritten` models the code as written and `PubmaticAdapter.CreateAsWrittenOnlyAddsTheThrow` relates the two.
- PubmaticAdapter.CreateBidRequest: builds on the corrected parser; as written, the index-out-of-bounds error of `CreateAdUnitBidsWithParamsAsWritten` escapes it unchanged.
- PubmaticAdapter.MakeHttpRequests: builds on the corrected parser; as written, that same error escapes it unchanged.
- Prebid.BannerFor: for an ad unit without sizes the model assumes a banner without `w`/`h`. What the parent's `bannerBuilder` does then is not part of this model. Pubmatic builds its banners with `makeBanner`, which throws there.
- Prebid.VideoFor: for an ad unit without a video section the model assumes a video with no mimes and no durations. What the parent's `videoBuilder` does then is not part of this model.
- The order of impressions that Pubmatic builds per ad unit follows the assumed order of `allowedMediaTypes` (banner before video). The source gets that order from a helper that is not part of this model.

## Findings

| source | as written | input that shows it | evidently intended | confidence | as-written member | corrected member |
|---|---|---|---|---|---|---|
| src/main/java/org/prebid/server/adapter/pubmatic/PubmaticAdapter.java:190-192 | When the height piece of the size is made only of colons, `split(":")` returns an empty array. Indexing its element 0 then throws an index-out-of-bounds exception, which the `NumberFormatException` handler does not catch, so the whole Pubmatic request fails. | Ad slot `slot@300x:` with a non-empty publisher id | The ad unit is ignored (null params), like every other malformed size | not executed; high | `PubmaticAdapter.ParseAndValidateParamsAsWritten`, `PubmaticAdapter.ColonOnlyHeightThrows`, `PubmaticAdapter.CreateAdUnitBidsWithParamsAsWritten`, `PubmaticAdapter.CreateAsWrittenOnlyAddsTheThrow` | `PubmaticAdapter.ParseAndValidateParams`, `PubmaticAdapter.ParsedParamsFacts`, `PubmaticAdapter.SlotParsing`, `PubmaticAdapter.ParamsRoundTrip`; `PubmaticAdapter.CreateAdUnitBidsWithParams`, `PubmaticAdapter.CreateBidRequest` and `PubmaticAdapter.MakeHttpRequests` use it |
| src/main/java/org/prebid/server/bidder/adstanding/AdstandingBidder.java:107 | `imp.getId() == bid.getImpid()` compares `String` references. A bid decoded from the response body holds a new `String`, so it never matches an impression of the request, and every bid is dropped. | A request with a banner impression `"1"`, and a response whose bid has impid `"1"` | Compare the ids with `equals`: the bid is kept as a banner bid | not executed; high | `AdstandingBidder.ResolvedTypeAsWritten`, `AdstandingBidder.FreshImpidNeverResolves`, `AdstandingBidder.EqualIdsDifferentObjects` | `AdstandingBidder.ResolvedType`, `AdstandingBidder.ResolveBidType`; `AdstandingBidder.KeptBids`, `AdstandingBidder.KeptIsOrderedSelection`, `AdstandingBidder.BidsFromResponse` and `AdstandingBidder.MakeBids` use it |
