/** The legacy Pubmatic adapter. Each ad unit's `publisherId` and `adSlot` params are validated
    on their own and a bad one only drops that ad unit's params; the whole bidder fails only when
    no ad unit has valid params. Each ad unit becomes one OpenRTB impression per allowed media
    type. Everything here is a pure function of its inputs. */
module PubmaticAdapter {
  import opened Wrappers
  import opened JavaText
  import opened OpenRtb
  import opened Prebid

  const PubmaticMediaTypes: set<MediaType> := {Banner, Video}

  const IncorrectParamsMessage := "Incorrect adSlot / Publisher param"

  /** An ad unit's `params` object, as Jackson converts it. */
  datatype PubmaticParams = PubmaticParams(publisherId: Option<string>, adSlot: Option<string>)

  /** The validated params. */
  datatype Params = Params(
    publisherId: Option<string>,
    adSlot: Option<string>,
    tagId: Option<string>,
    width: Option<int>,
    height: Option<int>)

  type PubmaticAdUnit = AdUnitBid<Conversion<PubmaticParams>>

  type UnitWithParams = AdUnitBidWithParams<Conversion<PubmaticParams>, Option<Params>>

  /** Pubmatic impressions carry no `ext`. */
  type PubmaticImp = Imp<()>

  datatype HttpRequest = HttpRequest(uri: string, bidRequest: BidRequest<()>)

  // ---------------------------------------------------------------------------
  // parseAndValidateParams
  // ---------------------------------------------------------------------------

  /** The converted params of an ad unit, if it has params and they convert. */
  function ConvertedParams(unit: PubmaticAdUnit): Option<PubmaticParams>
  {
    match unit.params
    case Some(Converted(p)) => Some(p)
    case _ => None
  }

  /** The publisher id and the trimmed ad slot, when the params convert, the publisher id is
      not empty and the ad slot is not blank. */
  function PublisherAndSlot(unit: PubmaticAdUnit): Option<(string, string)>
  {
    match ConvertedParams(unit)
    case None => None
    case Some(p) =>
      if IsEmpty(p.publisherId) then None
      else
        var adSlot := TrimToNull(p.adSlot);
        if IsEmpty(adSlot) then None else Some((p.publisherId.value, adSlot.value))
  }

  datatype SlotParts = SlotParts(tagId: string, widthText: string, heightText: string)

  /** The tag id before the ad slot's only '@', and the two pieces of the lower-cased size part
      around its only 'x'. */
  function SplitSlot(adSlot: string): Option<SlotParts>
  {
    var adSlots := JavaSplit(adSlot, '@');
    if |adSlots| != 2 || adSlots[0] == [] || adSlots[1] == [] then None
    else
      var adSizes := JavaSplit(ToLowerCase(adSlots[1]), 'x');
      if |adSizes| != 2 then None else Some(SlotParts(adSlots[0], adSizes[0], adSizes[1]))
  }

  /** Width and height of the size pieces: the width is the trimmed first piece as an `int`, the
      height the trimmed text before the first ':' of the second piece. A second piece made only
      of ':' has no text before a ':', and is rejected like any other height that is not an
      `int`. */
  function ParseSize(parts: SlotParts): Option<(Int32, Int32)>
  {
    match ParseInt(Trim(parts.widthText))
    case None => None
    case Some(width) =>
      var heights := JavaSplit(parts.heightText, ':');
      if heights == [] then None
      else
        match ParseInt(Trim(heights[0]))
        case None => None
        case Some(height) => Some((width, height))
  }

  /** `parseAndValidateParams`: the ad unit's params, validated, or null (`None`) when they are
      missing or malformed in any way. It never throws. */
  function ParseAndValidateParams(unit: PubmaticAdUnit): (r: Option<Params>)
    ensures r.Some? ==> r.value.publisherId.Some? && r.value.publisherId.value != [] && r.value.adSlot.Some?
    ensures r.Some? ==> r.value.tagId.Some? && r.value.width.Some? && r.value.height.Some?
  {
    match PublisherAndSlot(unit)
    case None => None
    case Some((publisherId, adSlot)) =>
      match SplitSlot(adSlot)
      case None => None
      case Some(parts) =>
        match ParseSize(parts)
        case None => None
        case Some((width, height)) =>
          Some(Params(Some(publisherId), Some(adSlot), Some(parts.tagId), Some(width), Some(height)))
  }

  /** The params are null when the params are missing or do not convert, when the publisher id
      is empty and when the ad slot is missing or blank. Parsed params keep the publisher id,
      hold the trimmed ad slot, and carry a tag id, a width and a height; the tag id is the
      non-empty text before the slot's first '@'. */
  lemma ParsedParamsFacts(unit: PubmaticAdUnit)
    ensures var r := ParseAndValidateParams(unit);
      && (ConvertedParams(unit).None? ==> r.None?)
      && (ConvertedParams(unit).Some? && IsEmpty(ConvertedParams(unit).value.publisherId) ==> r.None?)
      && (ConvertedParams(unit).Some? && ConvertedParams(unit).value.adSlot.None? ==> r.None?)
      && ((ConvertedParams(unit).Some? && ConvertedParams(unit).value.adSlot.Some? &&
           Trim(ConvertedParams(unit).value.adSlot.value) == []) ==> r.None?)
    ensures var r := ParseAndValidateParams(unit);
      r.Some? ==>
        && ConvertedParams(unit).Some? && ConvertedParams(unit).value.adSlot.Some?
        && r.value.publisherId == ConvertedParams(unit).value.publisherId
        && r.value.adSlot == Some(Trim(ConvertedParams(unit).value.adSlot.value))
        && r.value.tagId.Some? && r.value.width.Some? && r.value.height.Some?
    ensures var r := ParseAndValidateParams(unit);
      r.Some? ==>
        var slot, tag := r.value.adSlot.value, r.value.tagId.value;
        && tag != [] && '@' !in tag && |tag| < |slot| && slot[..|tag|] == tag && slot[|tag|] == '@'
  {
    if PublisherAndSlot(unit).Some? {
      TagIsSlotPrefix(PublisherAndSlot(unit).value.1);
    }
  }

  /** The tag id a slot splits off is the non-empty text before the slot's first '@'. */
  lemma TagIsSlotPrefix(slot: string)
    ensures SplitSlot(slot).Some? ==>
      var tag := SplitSlot(slot).value.tagId;
      && tag != [] && '@' !in tag && |tag| < |slot| && slot[..|tag|] == tag && slot[|tag|] == '@'
  {
    if SplitSlot(slot).Some? {
      SplitPrefix(slot, '@');
    }
  }

  /** Parsed params have a publisher id and an ad slot. */
  lemma ParsedParamsHavePublisher(unit: PubmaticAdUnit)
    ensures ParseAndValidateParams(unit).Some? ==>
      ParseAndValidateParams(unit).value.publisherId.Some? && ParseAndValidateParams(unit).value.adSlot.Some?
  {
  }

  /** The ad slot text `<width><x or X><height><suffix>` that follows the tag id. */
  function SizeText(width: int, sizeSeparator: char, height: int, suffix: string): string
  {
    ShowInt(width) + [sizeSeparator] + ShowInt(height) + suffix
  }

  /** A suffix after the height that the parser ignores: empty or starting with ':', and free
      of the separators '@', 'x' and 'X'. */
  predicate IsSizeSuffix(suffix: string)
  {
    (suffix == [] || suffix[0] == ':') && '@' !in suffix && 'x' !in suffix && 'X' !in suffix
  }

  lemma ShowIntIsPlain(n: int)
    ensures ToLowerCase(ShowInt(n)) == ShowInt(n)
    ensures '@' !in ShowInt(n) && 'x' !in ShowInt(n) && 'X' !in ShowInt(n) && ':' !in ShowInt(n)
    ensures !IsBlank(ShowInt(n)[0]) && !IsBlank(ShowInt(n)[|ShowInt(n)| - 1])
  {
    ShowIntChars(n);
  }

  /** A slot `tag@<width><x or X><height>` splits into the tag, the width text and the
      lower-cased height text. */
  lemma SlotSplits(tag: string, widthText: string, sizeSeparator: char, heightText: string)
    requires tag != [] && '@' !in tag
    requires sizeSeparator == 'x' || sizeSeparator == 'X'
    requires ToLowerCase(widthText) == widthText && '@' !in widthText && 'x' !in widthText
    requires heightText != [] && '@' !in heightText && 'x' !in heightText && 'X' !in heightText
    ensures SplitSlot(tag + "@" + widthText + [sizeSeparator] + heightText)
         == Some(SlotParts(tag, widthText, ToLowerCase(heightText)))
  {
    var sizePart := widthText + [sizeSeparator] + heightText;
    assert tag + "@" + widthText + [sizeSeparator] + heightText == tag + ['@'] + sizePart;
    SplitAround(tag, sizePart, '@');
    ToLowerCaseAppend(widthText + [sizeSeparator], heightText);
    ToLowerCaseAppend(widthText, [sizeSeparator]);
    assert ToLowerCase([sizeSeparator]) == ['x'];
    var lowerHeight := ToLowerCase(heightText);
    assert 'x' !in lowerHeight by {
      forall i | 0 <= i < |lowerHeight| ensures lowerHeight[i] != 'x' {
        assert heightText[i] in heightText;
      }
    }
    assert ToLowerCase(sizePart) == widthText + ['x'] + lowerHeight;
    SplitAround(widthText, lowerHeight, 'x');
  }

  /** The size pieces of a printed width and a printed height followed by an ignored suffix
      parse back to that width and height. */
  lemma SizeParses(tag: string, width: Int32, height: Int32, suffix: string)
    requires suffix == [] || suffix[0] == ':'
    ensures ParseSize(SlotParts(tag, ShowInt(width), ShowInt(height) + suffix)) == Some((width, height))
  {
    PrintedIntParses(width);
    PrintedIntParses(height);
    HeightPieceIsPrinted(height, suffix);
  }

  /** The text before the first ':' of a printed height followed by the suffix is the printed
      height. */
  lemma HeightPieceIsPrinted(height: Int32, suffix: string)
    requires suffix == [] || suffix[0] == ':'
    ensures JavaSplit(ShowInt(height) + suffix, ':') != []
    ensures JavaSplit(ShowInt(height) + suffix, ':')[0] == ShowInt(height)
  {
    ShowIntIsPlain(height);
    SplitHead(ShowInt(height), suffix, ':');
  }

  /** A printed `int` has no blank ends and parses back to itself. */
  lemma PrintedIntParses(n: Int32)
    ensures ParseInt(Trim(ShowInt(n))) == Some(n)
  {
    ShowIntIsPlain(n);
    TrimUnpadded(ShowInt(n));
    ParseShowInt(n);
  }

  /** Round trip: params whose ad slot is written `tag@<width>x<height>[:suffix]` from a tag id,
      a width and a height parse back to that publisher id, tag id, width and height, and to
      the slot without the suffix's trailing blanks; a suffix that ends with a non-blank
      character gives back exactly the slot written. */
  lemma ParamsRoundTrip(unit: PubmaticAdUnit, publisherId: string, tag: string,
                        width: Int32, sizeSeparator: char, height: Int32, suffix: string)
    requires publisherId != []
    requires tag != [] && !IsBlank(tag[0]) && '@' !in tag
    requires sizeSeparator == 'x' || sizeSeparator == 'X'
    requires IsSizeSuffix(suffix)
    requires unit.params == Some(Converted(PubmaticParams(Some(publisherId),
                                                          Some(tag + "@" + SizeText(width, sizeSeparator, height, suffix)))))
    ensures ParseAndValidateParams(unit)
         == Some(Params(Some(publisherId), Some(Trim(tag + "@" + SizeText(width, sizeSeparator, height, suffix))),
                        Some(tag), Some(width), Some(height)))
    ensures Trim(tag + "@" + SizeText(width, sizeSeparator, height, suffix))
         == tag + "@" + SizeText(width, sizeSeparator, height, TrimEnd(suffix))
    ensures suffix == [] || !IsBlank(suffix[|suffix| - 1]) ==>
      Trim(tag + "@" + SizeText(width, sizeSeparator, height, suffix))
      == tag + "@" + SizeText(width, sizeSeparator, height, suffix)
  {
    var slot := tag + "@" + SizeText(width, sizeSeparator, height, suffix);
    var kept := TrimEnd(suffix);
    RoundTripTrim(tag, width, sizeSeparator, height, suffix);
    KeptSuffix(suffix);
    ShowIntIsPlain(width);
    ShowIntIsPlain(height);
    SlotLayout(tag, width, sizeSeparator, height, kept);
    SlotParsing(unit, publisherId, slot, tag, ShowInt(width), sizeSeparator, ShowInt(height), kept);
    PrintedIntParses(width);
    PrintedIntParses(height);
  }

  /** The written slot, spelled out piece by piece. */
  lemma SlotLayout(tag: string, width: Int32, sizeSeparator: char, height: Int32, suffix: string)
    ensures tag + "@" + SizeText(width, sizeSeparator, height, suffix)
         == tag + "@" + ShowInt(width) + [sizeSeparator] + ShowInt(height) + suffix
  {
  }

  /** Dropping a suffix's trailing blanks leaves a suffix. */
  lemma KeptSuffix(suffix: string)
    requires IsSizeSuffix(suffix)
    ensures IsSizeSuffix(TrimEnd(suffix))
  {
    var kept := TrimEnd(suffix);
    forall i | 0 <= i < |kept| ensures kept[i] in suffix {
      assert kept[i] == suffix[i];
    }
  }

  /** Trimming a written slot drops only the suffix's trailing blanks. */
  lemma RoundTripTrim(tag: string, width: Int32, sizeSeparator: char, height: Int32, suffix: string)
    requires tag != [] && !IsBlank(tag[0])
    ensures Trim(tag + "@" + SizeText(width, sizeSeparator, height, suffix))
         == tag + "@" + SizeText(width, sizeSeparator, height, TrimEnd(suffix))
  {
    var front := tag + "@" + SizeText(width, sizeSeparator, height, []);
    RoundTripSlotEnds(tag, width, sizeSeparator, height, []);
    SizeTextAppend(tag, width, sizeSeparator, height, suffix);
    SizeTextAppend(tag, width, sizeSeparator, height, TrimEnd(suffix));
    TrimAfterUnpadded(front, suffix);
  }

  /** A written slot is the slot without a suffix, then the suffix. */
  lemma SizeTextAppend(tag: string, width: Int32, sizeSeparator: char, height: Int32, suffix: string)
    ensures tag + "@" + SizeText(width, sizeSeparator, height, suffix)
         == tag + "@" + SizeText(width, sizeSeparator, height, []) + suffix
  {
  }

  /** A slot written from a tag that starts with a non-blank character and a suffix that ends
      with one is not changed by trimming. */
  lemma RoundTripSlotEnds(tag: string, width: Int32, sizeSeparator: char, height: Int32, suffix: string)
    requires tag != [] && !IsBlank(tag[0])
    requires suffix == [] || !IsBlank(suffix[|suffix| - 1])
    ensures var slot := tag + "@" + SizeText(width, sizeSeparator, height, suffix);
      slot != [] && !IsBlank(slot[0]) && !IsBlank(slot[|slot| - 1])
  {
    var sizeText := SizeText(width, sizeSeparator, height, suffix);
    var front := tag + "@";
    FirstOfConcat(tag, "@");
    FirstOfConcat(front, sizeText);
    var sized := ShowInt(width) + [sizeSeparator] + ShowInt(height);
    assert sizeText == sized + suffix;
    LastOfConcat(front, sizeText);
    if suffix == [] {
      ShowIntIsPlain(height);
      assert sizeText == sized;
      LastOfConcat(ShowInt(width) + [sizeSeparator], ShowInt(height));
    } else {
      LastOfConcat(sized, suffix);
    }
  }

  lemma FirstOfConcat(a: string, b: string)
    requires a != []
    ensures (a + b)[0] == a[0]
  {
  }

  lemma LastOfConcat(a: string, b: string)
    requires b != []
    ensures (a + b)[|a + b| - 1] == b[|b| - 1]
  {
  }

  /** The '@' and size splits of a round-trip slot. */
  lemma RoundTripSplits(tag: string, width: Int32, sizeSeparator: char, height: Int32, suffix: string)
    requires tag != [] && '@' !in tag
    requires sizeSeparator == 'x' || sizeSeparator == 'X'
    requires IsSizeSuffix(suffix)
    ensures SplitSlot(tag + "@" + SizeText(width, sizeSeparator, height, suffix))
         == Some(SlotParts(tag, ShowInt(width), ShowInt(height) + ToLowerCase(suffix)))
  {
    ShowIntIsPlain(width);
    ShowIntIsPlain(height);
    var heightText := ShowInt(height) + suffix;
    assert tag + "@" + SizeText(width, sizeSeparator, height, suffix)
        == tag + "@" + ShowInt(width) + [sizeSeparator] + heightText;
    SlotSplits(tag, ShowInt(width), sizeSeparator, heightText);
    ToLowerCaseAppend(ShowInt(height), suffix);
  }

  /** A publisher id and an ad slot with no blank ends come out of the conversion unchanged. */
  lemma PublisherAndTrimmedSlot(unit: PubmaticAdUnit, publisherId: string, slot: string)
    requires publisherId != [] && slot != [] && !IsBlank(slot[0]) && !IsBlank(slot[|slot| - 1])
    requires unit.params == Some(Converted(PubmaticParams(Some(publisherId), Some(slot))))
    ensures PublisherAndSlot(unit) == Some((publisherId, slot))
  {
    TrimUnpadded(slot);
  }

  /** A slot with two '@'s splits into three pieces and is rejected. */
  lemma TwoAtSignsRejected(a: string, b: string, c: string)
    requires '@' !in a && '@' !in b && '@' !in c && c != []
    ensures SplitSlot(a + "@" + b + "@" + c) == None
  {
    var s := a + "@" + b + "@" + c;
    assert s == a + ['@'] + (b + ['@'] + c);
    PiecesAfterSeparator(a, b + ['@'] + c, '@');
    PiecesAfterSeparator(b, c, '@');
    PiecesWithoutSeparator(c, '@');
    assert s[|a|] == '@';
  }

  /** The '@' rule lets trailing '@'s through, since the split drops the empty pieces they
      leave: `a@300x250@` is read as `a@300x250`. */
  lemma TrailingAtSignIgnored(slot: string)
    requires '@' in slot
    ensures SplitSlot(slot + "@") == SplitSlot(slot)
  {
    SplitWithTrailingSeparator(slot, '@');
  }

  // ---------------------------------------------------------------------------
  // parseAndValidateParams on any ad slot
  // ---------------------------------------------------------------------------

  /** The layout of a size part: a width text, 'x' or 'X', a height text and an ignored
      suffix, where the texts hold none of the separators '@', 'x' and 'X', and the height text
      no ':'. */
  predicate IsSizeLayout(widthText: string, sizeSeparator: char, heightText: string, suffix: string)
  {
    && (sizeSeparator == 'x' || sizeSeparator == 'X')
    && '@' !in widthText && 'x' !in widthText && 'X' !in widthText
    && '@' !in heightText && 'x' !in heightText && 'X' !in heightText && ':' !in heightText
    && IsSizeSuffix(suffix)
  }

  /** Params whose trimmed ad slot is `T@W(x|X)H[:s]` are parsed exactly when the trimmed `W`
      and the trimmed `H` are `int`s; the parsed params then hold the publisher id, the trimmed
      slot, `T` and those two `int`s. So a width or a height that is not an `int` (empty,
      `abc`, out of range) gives null. */
  lemma SlotParsing(unit: PubmaticAdUnit, publisherId: string, rawSlot: string, tag: string,
                    widthText: string, sizeSeparator: char, heightText: string, suffix: string)
    requires publisherId != []
    requires unit.params == Some(Converted(PubmaticParams(Some(publisherId), Some(rawSlot))))
    requires tag != [] && '@' !in tag
    requires IsSizeLayout(widthText, sizeSeparator, heightText, suffix)
    requires Trim(rawSlot) == tag + "@" + widthText + [sizeSeparator] + heightText + suffix
    ensures ParseAndValidateParams(unit) ==
      if ParseInt(Trim(widthText)).Some? && ParseInt(Trim(heightText)).Some? then
        Some(Params(Some(publisherId), Some(Trim(rawSlot)), Some(tag),
                    Some(ParseInt(Trim(widthText)).value), Some(ParseInt(Trim(heightText)).value)))
      else None
  {
    var slot := Trim(rawSlot);
    PublisherAndLaidOutSlot(unit, publisherId, rawSlot);
    SlotOfLayout(slot, tag, widthText, sizeSeparator, heightText, suffix);
  }

  /** A non-empty publisher id and an ad slot that is not blank pass the first checks, the slot
      trimmed. */
  lemma PublisherAndLaidOutSlot(unit: PubmaticAdUnit, publisherId: string, rawSlot: string)
    requires publisherId != [] && Trim(rawSlot) != []
    requires unit.params == Some(Converted(PubmaticParams(Some(publisherId), Some(rawSlot))))
    ensures PublisherAndSlot(unit) == Some((publisherId, Trim(rawSlot)))
  {
  }

  /** The split and the size of a slot `T@W(x|X)H[:s]`: present exactly when the trimmed `W` and
      `H` are `int`s, and then `T` with those `int`s. */
  lemma SlotOfLayout(slot: string, tag: string, widthText: string, sizeSeparator: char, heightText: string,
                     suffix: string)
    requires tag != [] && '@' !in tag
    requires IsSizeLayout(widthText, sizeSeparator, heightText, suffix)
    requires slot == tag + "@" + widthText + [sizeSeparator] + heightText + suffix
    ensures SplitSlot(slot).Some? && ParseSize(SplitSlot(slot).value).Some? <==>
      ParseInt(Trim(widthText)).Some? && ParseInt(Trim(heightText)).Some?
    ensures SplitSlot(slot).Some? ==> SplitSlot(slot).value.tagId == tag
    ensures SplitSlot(slot).Some? && ParseSize(SplitSlot(slot).value).Some? ==>
      ParseSize(SplitSlot(slot).value).value == (ParseInt(Trim(widthText)).value, ParseInt(Trim(heightText)).value)
  {
    var sizePart := widthText + [sizeSeparator] + heightText + suffix;
    assert slot == tag + "@" + sizePart;
    SplitSlotAfterTag(tag, sizePart);
    SizeOfLayout(tag, widthText, sizeSeparator, heightText, suffix);
  }

  /** A non-empty tag without '@', one '@' and a non-empty size part without '@': the slot
      splits into the tag and the pieces of the lower-cased size part around 'x'. */
  lemma SplitSlotAfterTag(tag: string, sizePart: string)
    requires tag != [] && '@' !in tag && sizePart != [] && '@' !in sizePart
    ensures SplitSlot(tag + "@" + sizePart) ==
      var adSizes := JavaSplit(ToLowerCase(sizePart), 'x');
      if |adSizes| != 2 then None else Some(SlotParts(tag, adSizes[0], adSizes[1]))
  {
    SplitAround(tag, sizePart, '@');
  }

  /** The size of a size part laid out as `W(x|X)H[:s]`: the `int`s of the trimmed `W` and the
      trimmed `H`, or none when either is not an `int`. */
  lemma SizeOfLayout(tag: string, widthText: string, sizeSeparator: char, heightText: string, suffix: string)
    requires IsSizeLayout(widthText, sizeSeparator, heightText, suffix)
    ensures var adSizes := JavaSplit(ToLowerCase(widthText + [sizeSeparator] + heightText + suffix), 'x');
      (if |adSizes| != 2 then None else ParseSize(SlotParts(tag, adSizes[0], adSizes[1]))) ==
      if ParseInt(Trim(widthText)).Some? && ParseInt(Trim(heightText)).Some? then
        Some((ParseInt(Trim(widthText)).value, ParseInt(Trim(heightText)).value))
      else None
  {
    var rest := heightText + suffix;
    assert widthText + [sizeSeparator] + heightText + suffix == widthText + [sizeSeparator] + rest;
    SizePieces(widthText, sizeSeparator, rest);
    if rest != [] {
      SizeOfPieces(tag, widthText, heightText, suffix);
    } else {
      assert heightText == [];
      assert Trim([]) == [];
    }
  }

  /** The size parsed from the lower-cased width text and height piece `H[:s]`. */
  lemma SizeOfPieces(tag: string, widthText: string, heightText: string, suffix: string)
    requires ':' !in heightText && (suffix == [] || suffix[0] == ':') && heightText + suffix != []
    ensures ParseSize(SlotParts(tag, ToLowerCase(widthText), ToLowerCase(heightText + suffix))) ==
      if ParseInt(Trim(widthText)).Some? && ParseInt(Trim(heightText)).Some? then
        Some((ParseInt(Trim(widthText)).value, ParseInt(Trim(heightText)).value))
      else None
  {
    ParseTrimmedLower(widthText);
    HeightOfLayout(heightText, suffix);
    SizeFromParses(SlotParts(tag, ToLowerCase(widthText), ToLowerCase(heightText + suffix)),
                   ParseInt(Trim(widthText)), ParseInt(Trim(heightText)));
  }

  /** The size is the pair of the width and the height read from the pieces, when both are
      there. */
  lemma SizeFromParses(parts: SlotParts, width: Option<Int32>, height: Option<Int32>)
    requires ParseInt(Trim(parts.widthText)) == width
    requires var heights := JavaSplit(parts.heightText, ':');
      (if heights == [] then None else ParseInt(Trim(heights[0]))) == height
    ensures ParseSize(parts) == if width.Some? && height.Some? then Some((width.value, height.value)) else None
  {
  }

  /** The pieces of a lower-cased size part `W(x|X)R` around 'x', for `W` and `R` without 'x'
      and 'X': the lower-cased `W` and `R`, or only the lower-cased `W` when `R` is empty. */
  lemma SizePieces(widthText: string, sizeSeparator: char, rest: string)
    requires sizeSeparator == 'x' || sizeSeparator == 'X'
    requires 'x' !in widthText && 'X' !in widthText && 'x' !in rest && 'X' !in rest
    ensures JavaSplit(ToLowerCase(widthText + [sizeSeparator] + rest), 'x') ==
      if rest != [] then [ToLowerCase(widthText), ToLowerCase(rest)]
      else if widthText == [] then [] else [ToLowerCase(widthText)]
  {
    ToLowerCaseAppend(widthText + [sizeSeparator], rest);
    ToLowerCaseAppend(widthText, [sizeSeparator]);
    assert ToLowerCase([sizeSeparator]) == ['x'];
    NoLowerX(widthText);
    NoLowerX(rest);
    if rest == [] {
      assert ToLowerCase(widthText) + ['x'] + ToLowerCase(rest) == ToLowerCase(widthText) + ['x'];
      SplitWithOneTrailingSeparator(ToLowerCase(widthText), 'x');
    } else {
      SplitAround(ToLowerCase(widthText), ToLowerCase(rest), 'x');
    }
  }

  /** Lower-casing a text without 'x' and 'X' gives a text without 'x'. */
  lemma NoLowerX(s: string)
    requires 'x' !in s && 'X' !in s
    ensures 'x' !in ToLowerCase(s)
  {
    forall i | 0 <= i < |s| ensures ToLowerCase(s)[i] != 'x' {
      assert s[i] in s;
    }
  }

  /** The height read from a lower-cased height piece `H[:s]` is the `int` of the trimmed `H`,
      or none when that is not an `int`. */
  lemma HeightOfLayout(heightText: string, suffix: string)
    requires ':' !in heightText && (suffix == [] || suffix[0] == ':') && heightText + suffix != []
    ensures var heights := JavaSplit(ToLowerCase(heightText + suffix), ':');
      (if heights == [] then None else ParseInt(Trim(heights[0]))) == ParseInt(Trim(heightText))
  {
    if heightText != [] {
      HeightPieceOfText(heightText, suffix);
      ParseTrimmedLower(heightText);
    } else {
      assert heightText + suffix == suffix;
      HeightPieceOfSuffix(suffix);
      assert Trim([]) == [];
    }
  }

  /** A non-empty height text without ':' is the first piece of its lower-cased height piece. */
  lemma HeightPieceOfText(heightText: string, suffix: string)
    requires ':' !in heightText && heightText != [] && (suffix == [] || suffix[0] == ':')
    ensures var heights := JavaSplit(ToLowerCase(heightText + suffix), ':');
      heights != [] && heights[0] == ToLowerCase(heightText)
  {
    ToLowerCaseAppend(heightText, suffix);
    forall i | 0 <= i < |heightText| ensures ToLowerCase(heightText)[i] != ':' {
      assert heightText[i] in heightText;
    }
    SplitHead(ToLowerCase(heightText), ToLowerCase(suffix), ':');
  }

  /** A height piece that starts with ':' has no height text: its first piece is empty. */
  lemma HeightPieceOfSuffix(suffix: string)
    requires suffix != [] && suffix[0] == ':'
    ensures var heights := JavaSplit(ToLowerCase(suffix), ':'); heights == [] || heights[0] == []
  {
    SplitOfLeadingSeparator(ToLowerCase(suffix), ':');
  }

  /** A slot without '@' is rejected. */
  lemma NoAtSignRejected(slot: string)
    requires '@' !in slot
    ensures SplitSlot(slot) == None
  {
  }

  /** A tag followed by a lone '@' (`x@`) is rejected: the split drops the empty size part. */
  lemma MissingSizeRejected(tag: string)
    requires '@' !in tag
    ensures SplitSlot(tag + "@") == None
  {
    SplitWithOneTrailingSeparator(tag, '@');
  }

  /** A slot that starts with '@' has no tag and is rejected. */
  lemma MissingTagRejected(rest: string)
    ensures SplitSlot("@" + rest) == None
  {
    SplitOfLeadingSeparator("@" + rest, '@');
  }

  /** A size part without 'x' or 'X' (`300`) is rejected. */
  lemma SizeWithoutSeparatorRejected(tag: string, size: string)
    requires tag != [] && '@' !in tag
    requires size != [] && '@' !in size && 'x' !in size && 'X' !in size
    ensures SplitSlot(tag + "@" + size) == None
  {
    SplitSlotAfterTag(tag, size);
    NoLowerX(size);
  }

  /** A size part with two 'x's and a non-empty last piece (`3x4x5`) is rejected. */
  lemma ThreeSizePiecesRejected(tag: string, a: string, b: string, c: string)
    requires tag != [] && '@' !in tag
    requires '@' !in a && '@' !in b && '@' !in c && c != []
    requires 'x' !in a && 'X' !in a && 'x' !in b && 'X' !in b && 'x' !in c && 'X' !in c
    ensures SplitSlot(tag + "@" + (a + "x" + b + "x" + c)) == None
  {
    var size := a + "x" + b + "x" + c;
    SplitSlotAfterTag(tag, size);
    LowerOfThree(a, b, c);
    NoLowerX(a);
    NoLowerX(b);
    NoLowerX(c);
    SplitOfThree(ToLowerCase(a), ToLowerCase(b), ToLowerCase(c), 'x');
  }

  /** Lower-casing three pieces joined by 'x' lower-cases each piece. */
  lemma LowerOfThree(a: string, b: string, c: string)
    ensures ToLowerCase(a + "x" + b + "x" + c) == ToLowerCase(a) + ['x'] + ToLowerCase(b) + ['x'] + ToLowerCase(c)
  {
    ToLowerCaseAppend(a + "x" + b + "x", c);
    ToLowerCaseAppend(a + "x" + b, "x");
    ToLowerCaseAppend(a + "x", b);
    ToLowerCaseAppend(a, "x");
  }

  // ---------------------------------------------------------------------------
  // parseAndValidateParams as written
  // ---------------------------------------------------------------------------

  /** The size rule as written: when the second size piece is made only of ':' its split is
      empty and `adSizeHeights[0]` throws `ArrayIndexOutOfBoundsException`, which the
      `NumberFormatException` handler does not catch. */
  function ParseSizeAsWritten(parts: SlotParts): Result<Option<(Int32, Int32)>, Exception>
  {
    match ParseInt(Trim(parts.widthText))
    case None => Success(None)
    case Some(width) =>
      var heights := JavaSplit(parts.heightText, ':');
      if heights == [] then Failure(IndexOutOfBounds)
      else
        match ParseInt(Trim(heights[0]))
        case None => Success(None)
        case Some(height) => Success(Some((width, height)))
  }

  /** `parseAndValidateParams` as written: like the corrected version, except that it throws on
      a size part whose height piece is made only of ':'. */
  function ParseAndValidateParamsAsWritten(unit: PubmaticAdUnit): (r: Result<Option<Params>, Exception>)
    ensures r.Failure? ==> r.error == IndexOutOfBounds
    ensures r.Success? && r.value.Some? ==>
      r.value.value.tagId.Some? && r.value.value.width.Some? && r.value.value.height.Some?
  {
    match PublisherAndSlot(unit)
    case None => Success(None)
    case Some((publisherId, adSlot)) =>
      match SplitSlot(adSlot)
      case None => Success(None)
      case Some(parts) =>
        match ParseSizeAsWritten(parts)
        case Failure(e) => Failure(e)
        case Success(None) => Success(None)
        case Success(Some((width, height))) =>
          Success(Some(Params(Some(publisherId), Some(adSlot), Some(parts.tagId), Some(width), Some(height))))
  }

  /** The size rules differ only in the throw, and the code as written throws exactly when the
      width parses and the height piece is all ':'. */
  lemma SizeAsWrittenOnlyAddsTheThrow(parts: SlotParts)
    ensures ParseSizeAsWritten(parts) == Success(ParseSize(parts))
         || (ParseSizeAsWritten(parts) == Failure(IndexOutOfBounds) && ParseSize(parts).None?)
    ensures ParseSizeAsWritten(parts).Failure? <==>
      && ParseInt(Trim(parts.widthText)).Some?
      && parts.heightText != []
      && forall i :: 0 <= i < |parts.heightText| ==> parts.heightText[i] == ':'
  {
    var heights := JavaSplit(parts.heightText, ':');
    if heights == [] {
      SplitJoin(parts.heightText, ':');
      assert ':' in parts.heightText;
    }
    if parts.heightText != [] && forall i :: 0 <= i < |parts.heightText| ==> parts.heightText[i] == ':' {
      SplitOfSeparators(parts.heightText, ':');
    }
  }

  /** Everywhere else the two agree: the code as written either returns what the corrected
      parser returns, or throws where the corrected one ignores the ad unit. */
  lemma AsWrittenOnlyAddsTheThrow(unit: PubmaticAdUnit)
    ensures ParseAndValidateParamsAsWritten(unit) == Success(ParseAndValidateParams(unit))
         || (ParseAndValidateParamsAsWritten(unit) == Failure(IndexOutOfBounds) && ParseAndValidateParams(unit).None?)
  {
    match PublisherAndSlot(unit)
    case None =>
    case Some((publisherId, adSlot)) =>
      match SplitSlot(adSlot)
      case None =>
      case Some(parts) =>
        SizeAsWrittenOnlyAddsTheThrow(parts);
  }

  /** The discrepancy: a well-formed tag and width followed by a height piece of ':'s only
      (such as `slot@300x:`) makes the code as written throw, where every other malformed size
      only drops the ad unit's params; the corrected parser drops them too. */
  lemma ColonOnlyHeightThrows(unit: PubmaticAdUnit, publisherId: string, tag: string, width: Int32, colons: string)
    requires publisherId != []
    requires tag != [] && !IsBlank(tag[0]) && '@' !in tag
    requires colons != [] && forall i :: 0 <= i < |colons| ==> colons[i] == ':'
    requires unit.params == Some(Converted(PubmaticParams(Some(publisherId),
                                                          Some(tag + "@" + ShowInt(width) + "x" + colons))))
    ensures ParseAndValidateParamsAsWritten(unit) == Failure(IndexOutOfBounds)
    ensures ParseAndValidateParams(unit) == None
  {
    var slot := tag + "@" + ShowInt(width) + "x" + colons;
    ColonOnlySlotParts(tag, width, colons);
    ShowIntIsPlain(width);
    assert slot[0] == tag[0];
    assert slot[|slot| - 1] == colons[|colons| - 1];
    PublisherAndTrimmedSlot(unit, publisherId, slot);
    var parts := SlotParts(tag, ShowInt(width), colons);
    ColonOnlyHeightPiece(parts, width);
  }

  /** That slot splits into the tag, the width text and the colons. */
  lemma ColonOnlySlotParts(tag: string, width: Int32, colons: string)
    requires tag != [] && '@' !in tag
    requires colons != [] && forall i :: 0 <= i < |colons| ==> colons[i] == ':'
    ensures SplitSlot(tag + "@" + ShowInt(width) + "x" + colons) == Some(SlotParts(tag, ShowInt(width), colons))
  {
    ShowIntIsPlain(width);
    assert '@' !in colons && 'x' !in colons && 'X' !in colons by {
      forall i | 0 <= i < |colons| ensures colons[i] == ':' { }
    }
    assert tag + "@" + ShowInt(width) + "x" + colons == tag + "@" + ShowInt(width) + ['x'] + colons;
    SlotSplits(tag, ShowInt(width), 'x', colons);
    assert ToLowerCase(colons) == colons;
  }

  /** The size pieces of that slot: the width parses and the height piece is all ':'. */
  lemma ColonOnlyHeightPiece(parts: SlotParts, width: Int32)
    requires parts.widthText == ShowInt(width)
    requires parts.heightText != [] && forall i :: 0 <= i < |parts.heightText| ==> parts.heightText[i] == ':'
    ensures ParseSizeAsWritten(parts) == Failure(IndexOutOfBounds)
    ensures ParseSize(parts) == None
  {
    ShowIntIsPlain(width);
    TrimUnpadded(ShowInt(width));
    ParseShowInt(width);
    SplitOfSeparators(parts.heightText, ':');
  }

  // ---------------------------------------------------------------------------
  // isValidParams and createAdUnitBidsWithParams
  // ---------------------------------------------------------------------------

  /** `isValidParams`: params must be present, and a banner ad unit's params must carry a tag
      id, a width and a height. */
  predicate IsValidParams(w: UnitWithParams)
    ensures IsValidParams(w) ==> w.params.Some?
    ensures Banner !in w.adUnitBid.mediaTypes ==> (IsValidParams(w) <==> w.params.Some?)
  {
    && w.params.Some?
    && (Banner !in w.adUnitBid.mediaTypes ||
        (w.params.value.tagId.Some? && w.params.value.width.Some? && w.params.value.height.Some?))
  }

  /** For params that `parseAndValidateParams` produced, validity is presence: the banner check
      never fails, since parsed params always carry tag id, width and height. */
  lemma ParsedParamsValidIffPresent(unit: PubmaticAdUnit)
    ensures IsValidParams(AdUnitBidWithParams(unit, ParseAndValidateParams(unit)))
        <==> ParseAndValidateParams(unit).Some?
  {
    ParsedParamsFacts(unit);
  }

  /** No ad unit has valid params exactly when none has params. */
  lemma NoValidParamsIffNone(units: seq<PubmaticAdUnit>)
    ensures (forall i :: 0 <= i < |units| ==> !IsValidParams(AdUnitBidWithParams(units[i], ParseAndValidateParams(units[i]))))
        <==> (forall i :: 0 <= i < |units| ==> ParseAndValidateParams(units[i]).None?)
  {
    forall i | 0 <= i < |units| {
      ParsedParamsValidIffPresent(units[i]);
    }
  }

  /** Every ad unit paired with its parsed params, in order. */
  function PairedWithParams(units: seq<PubmaticAdUnit>): (ws: seq<UnitWithParams>)
    ensures |ws| == |units|
    ensures forall i :: 0 <= i < |units| ==> ws[i] == AdUnitBidWithParams(units[i], ParseAndValidateParams(units[i]))
  {
    seq(|units|, i requires 0 <= i < |units| => AdUnitBidWithParams(units[i], ParseAndValidateParams(units[i])))
  }

  /** `createAdUnitBidsWithParams`: every ad unit with its parsed params (null for bad ones), in
      order; it throws exactly when no ad unit has valid params. */
  function CreateAdUnitBidsWithParams(units: seq<PubmaticAdUnit>): (r: Result<seq<UnitWithParams>, Exception>)
    ensures r.Success? ==> |r.value| == |units| && forall i :: 0 <= i < |units| ==>
      r.value[i].adUnitBid == units[i] && r.value[i].params == ParseAndValidateParams(units[i])
    ensures r.Failure? <==> forall i :: 0 <= i < |units| ==> ParseAndValidateParams(units[i]).None?
    ensures r.Failure? ==> r.error == PreBidException(IncorrectParamsMessage)
  {
    var withParams := PairedWithParams(units);
    if forall i :: 0 <= i < |withParams| ==> !IsValidParams(withParams[i]) then
      NoValidParamsIffNone(units);
      Failure(PreBidException(IncorrectParamsMessage))
    else
      NoValidParamsIffNone(units);
      Success(withParams)
  }

  /** The ad units paired with their params by the parser as written: the first ad unit whose
      parse throws stops the stream with that exception. */
  function PairedWithParamsAsWritten(units: seq<PubmaticAdUnit>): (r: Result<seq<UnitWithParams>, Exception>)
    ensures r.Failure? ==> r.error == IndexOutOfBounds
    ensures r.Success? ==> |r.value| == |units| && forall i :: 0 <= i < |units| ==> r.value[i].adUnitBid == units[i]
  {
    if units == [] then Success([])
    else
      match ParseAndValidateParamsAsWritten(units[0])
      case Failure(e) => Failure(e)
      case Success(params) =>
        match PairedWithParamsAsWritten(units[1..])
        case Failure(e) => Failure(e)
        case Success(rest) => Success([AdUnitBidWithParams(units[0], params)] + rest)
  }

  /** `createAdUnitBidsWithParams` as written, on the parser as written. */
  function CreateAdUnitBidsWithParamsAsWritten(units: seq<PubmaticAdUnit>): (r: Result<seq<UnitWithParams>, Exception>)
    ensures r.Failure? ==> r.error == IndexOutOfBounds || r.error == PreBidException(IncorrectParamsMessage)
    ensures r.Success? ==> |r.value| == |units| && forall i :: 0 <= i < |units| ==> r.value[i].adUnitBid == units[i]
  {
    match PairedWithParamsAsWritten(units)
    case Failure(e) => Failure(e)
    case Success(withParams) =>
      if forall i :: 0 <= i < |withParams| ==> !IsValidParams(withParams[i]) then
        Failure(PreBidException(IncorrectParamsMessage))
      else Success(withParams)
  }

  /** The ad unit's params make the parser as written throw. */
  predicate ParamsThrow(unit: PubmaticAdUnit)
  {
    ParseAndValidateParamsAsWritten(unit).Failure?
  }

  /** Some ad unit's params make the parser as written throw. */
  predicate SomeParamsThrow(units: seq<PubmaticAdUnit>)
  {
    exists i :: 0 <= i < |units| && ParamsThrow(units[i])
  }

  /** The pairing as written throws `ArrayIndexOutOfBoundsException` exactly when some ad unit's
      parse throws, and otherwise pairs every ad unit with its corrected params. */
  lemma {:induction false} PairedAsWrittenOnlyAddsTheThrow(units: seq<PubmaticAdUnit>)
    ensures PairedWithParamsAsWritten(units) ==
      if SomeParamsThrow(units) then Failure(IndexOutOfBounds) else Success(PairedWithParams(units))
  {
    if units != [] {
      PairedAsWrittenOnlyAddsTheThrow(units[1..]);
      AsWrittenOnlyAddsTheThrow(units[0]);
      SomeParamsThrowHeadOrTail(units);
      PairedWithParamsCons(units);
    }
  }

  /** Some ad unit's params throw exactly when the first one's do or some later one's do. */
  lemma SomeParamsThrowHeadOrTail(units: seq<PubmaticAdUnit>)
    requires units != []
    ensures SomeParamsThrow(units) <==> ParamsThrow(units[0]) || SomeParamsThrow(units[1..])
  {
    var tail := units[1..];
    if SomeParamsThrow(tail) {
      var j :| 0 <= j < |tail| && ParamsThrow(tail[j]);
      assert tail[j] == units[j + 1];
    }
    if SomeParamsThrow(units) && !ParamsThrow(units[0]) {
      var i :| 0 <= i < |units| && ParamsThrow(units[i]);
      assert units[i] == tail[i - 1];
    }
  }

  /** Pairing a non-empty list pairs its first ad unit, then the rest. */
  lemma PairedWithParamsCons(units: seq<PubmaticAdUnit>)
    requires units != []
    ensures PairedWithParams(units)
         == [AdUnitBidWithParams(units[0], ParseAndValidateParams(units[0]))] + PairedWithParams(units[1..])
  {
  }

  /** `createAdUnitBidsWithParams` as written throws `ArrayIndexOutOfBoundsException` exactly
      when some ad unit's ad slot makes the parser as written throw; otherwise it returns or
      throws what the corrected version does. */
  lemma CreateAsWrittenOnlyAddsTheThrow(units: seq<PubmaticAdUnit>)
    ensures CreateAdUnitBidsWithParamsAsWritten(units) ==
      if SomeParamsThrow(units) then Failure(IndexOutOfBounds) else CreateAdUnitBidsWithParams(units)
  {
    PairedAsWrittenOnlyAddsTheThrow(units);
  }

  // ---------------------------------------------------------------------------
  // makeImps, makeImpsForAdUnitBid and makeBanner
  // ---------------------------------------------------------------------------

  /** `makeBanner`: `w`/`h` from the params when there are params, else from the first size;
      the sizes as formats only when there are no params. The first size is read either way, so
      an ad unit without sizes throws. */
  function MakeBanner(unit: PubmaticAdUnit, params: Option<Params>): (r: Result<BannerObject, Exception>)
    ensures r.Failure? <==> unit.sizes == []
    ensures r.Failure? ==> r.error == IndexOutOfBounds
    ensures r.Success? ==> r.value.topframe == unit.topframe
    ensures r.Success? && params.Some? ==>
      r.value.w == params.value.width && r.value.h == params.value.height && r.value.format.None?
    ensures r.Success? && params.None? ==>
      r.value.w == Some(unit.sizes[0].w) && r.value.h == Some(unit.sizes[0].h) && r.value.format == Some(unit.sizes)
  {
    if unit.sizes == [] then Failure(IndexOutOfBounds)
    else
      var format := unit.sizes[0];
      Success(BannerObject(
        if params.Some? then params.value.width else Some(format.w),
        if params.Some? then params.value.height else Some(format.h),
        if params.Some? then None else Some(unit.sizes),
        unit.topframe))
  }

  /** The impression for one media type of one ad unit. */
  function ImpWithMedia(mediaType: MediaType, w: UnitWithParams, ctx: PreBidRequestContext): (r: Result<PubmaticImp, Exception>)
    ensures r.Success? ==> ImpFollows(r.value, w, mediaType, ctx)
    ensures r.Failure? <==> mediaType == Banner && w.adUnitBid.sizes == []
    ensures r.Failure? ==> r.error == IndexOutOfBounds
  {
    var unit := w.adUnitBid;
    if mediaType == Banner then
      match MakeBanner(unit, w.params)
      case Failure(e) => Failure(e)
      case Success(banner) =>
        var tagid := if w.params.Some? then w.params.value.tagId else None;
        Success(Imp(unit.adUnitCode, Some(banner), None, unit.instl, ctx.secure, tagid, None))
    else if mediaType == Video then
      Success(Imp(unit.adUnitCode, None, Some(VideoFor(unit)), unit.instl, ctx.secure, None, None))
    else
      Success(Imp(unit.adUnitCode, None, None, unit.instl, ctx.secure, None, None))
  }

  /** What the impression for media type `t` of `w` must be. */
  ghost predicate ImpFollows(imp: PubmaticImp, w: UnitWithParams, t: MediaType, ctx: PreBidRequestContext)
  {
    && imp.id == w.adUnitBid.adUnitCode
    && imp.instl == w.adUnitBid.instl
    && imp.secure == ctx.secure
    && imp.ext.None?
    && (imp.banner.Some? <==> t == Banner)
    && (imp.banner.Some? ==> MakeBanner(w.adUnitBid, w.params) == Success(imp.banner.value))
    && imp.video == (if t == Video then Some(VideoFor(w.adUnitBid)) else None)
    && imp.tagid == (if t == Banner && w.params.Some? then w.params.value.tagId else None)
  }

  /** The impressions for the given media types of one ad unit, in that order. */
  function ImpsForMediaTypes(types: seq<MediaType>, w: UnitWithParams, ctx: PreBidRequestContext)
    : (r: Result<seq<PubmaticImp>, Exception>)
    ensures r.Success? ==> |r.value| == |types| && forall k :: 0 <= k < |types| ==> ImpFollows(r.value[k], w, types[k], ctx)
    ensures r.Failure? <==> Banner in types && w.adUnitBid.sizes == []
    ensures r.Failure? ==> r.error == IndexOutOfBounds
  {
    if types == [] then Success([])
    else
      match ImpWithMedia(types[0], w, ctx)
      case Failure(e) => Failure(e)
      case Success(imp) =>
        match ImpsForMediaTypes(types[1..], w, ctx)
        case Failure(e) => assert types == [types[0]] + types[1..]; Failure(e)
        case Success(rest) => assert types == [types[0]] + types[1..]; Success([imp] + rest)
  }

  /** `makeImpsForAdUnitBid`: one impression per media type of the ad unit that Pubmatic allows. */
  function MakeImpsForAdUnitBid(w: UnitWithParams, ctx: PreBidRequestContext): (r: Result<seq<PubmaticImp>, Exception>)
    ensures r.Success? ==> |r.value| == |AllowedMediaTypes(w.adUnitBid, PubmaticMediaTypes)|
    ensures r.Success? ==> forall k :: 0 <= k < |r.value| ==>
      ImpFollows(r.value[k], w, AllowedMediaTypes(w.adUnitBid, PubmaticMediaTypes)[k], ctx)
    ensures r.Failure? <==> Banner in w.adUnitBid.mediaTypes && w.adUnitBid.sizes == []
    ensures r.Failure? ==> r.error == IndexOutOfBounds
  {
    ImpsForMediaTypes(AllowedMediaTypes(w.adUnitBid, PubmaticMediaTypes), w, ctx)
  }

  /** The (ad unit, media type) pairs in the order `makeImps` turns them into impressions. */
  function ImpPlan(ws: seq<UnitWithParams>): (plan: seq<(UnitWithParams, MediaType)>)
  {
    if ws == [] then []
    else
      var types := AllowedMediaTypes(ws[0].adUnitBid, PubmaticMediaTypes);
      seq(|types|, k requires 0 <= k < |types| => (ws[0], types[k])) + ImpPlan(ws[1..])
  }

  /** Every pair of the plan is an ad unit of the list with one of its allowed media types, and
      every such combination is in the plan. */
  lemma ImpPlanCovers(ws: seq<UnitWithParams>)
    ensures forall k :: 0 <= k < |ImpPlan(ws)| ==>
      ImpPlan(ws)[k].0 in ws && ImpPlan(ws)[k].1 in ImpPlan(ws)[k].0.adUnitBid.mediaTypes * PubmaticMediaTypes
    ensures forall i, t :: 0 <= i < |ws| && t in ws[i].adUnitBid.mediaTypes * PubmaticMediaTypes ==> (ws[i], t) in ImpPlan(ws)
  {
    ImpPlanSound(ws);
    ImpPlanComplete(ws);
  }

  lemma {:induction false} ImpPlanSound(ws: seq<UnitWithParams>)
    ensures forall k :: 0 <= k < |ImpPlan(ws)| ==>
      ImpPlan(ws)[k].0 in ws && ImpPlan(ws)[k].1 in ImpPlan(ws)[k].0.adUnitBid.mediaTypes * PubmaticMediaTypes
  {
    if ws != [] {
      ImpPlanSound(ws[1..]);
      var types := AllowedMediaTypes(ws[0].adUnitBid, PubmaticMediaTypes);
      var head := seq(|types|, k requires 0 <= k < |types| => (ws[0], types[k]));
      var plan := ImpPlan(ws);
      assert plan == head + ImpPlan(ws[1..]);
      forall k | 0 <= k < |plan|
        ensures plan[k].0 in ws && plan[k].1 in plan[k].0.adUnitBid.mediaTypes * PubmaticMediaTypes
      {
        if k < |head| {
          assert plan[k] == (ws[0], types[k]);
          assert types[k] in types;
        } else {
          assert plan[k] == ImpPlan(ws[1..])[k - |head|];
          assert plan[k].0 in ws[1..];
        }
      }
    }
  }

  lemma {:induction false} ImpPlanComplete(ws: seq<UnitWithParams>)
    ensures forall i, t :: 0 <= i < |ws| && t in ws[i].adUnitBid.mediaTypes * PubmaticMediaTypes ==> (ws[i], t) in ImpPlan(ws)
  {
    if ws != [] {
      ImpPlanComplete(ws[1..]);
      var types := AllowedMediaTypes(ws[0].adUnitBid, PubmaticMediaTypes);
      var head := seq(|types|, k requires 0 <= k < |types| => (ws[0], types[k]));
      assert ImpPlan(ws) == head + ImpPlan(ws[1..]);
      forall i, t | 0 <= i < |ws| && t in ws[i].adUnitBid.mediaTypes * PubmaticMediaTypes
        ensures (ws[i], t) in ImpPlan(ws)
      {
        if i == 0 {
          var k :| 0 <= k < |types| && types[k] == t;
          assert head[k] == (ws[0], t);
        } else {
          assert ws[i] == ws[1..][i - 1];
        }
      }
    }
  }

  /** `makeImps`: the impressions of every ad unit, flattened in ad-unit order. */
  function MakeImps(ws: seq<UnitWithParams>, ctx: PreBidRequestContext): (r: Result<seq<PubmaticImp>, Exception>)
    ensures r.Failure? ==> r.error == IndexOutOfBounds
  {
    if ws == [] then Success([])
    else
      match MakeImpsForAdUnitBid(ws[0], ctx)
      case Failure(e) => Failure(e)
      case Success(first) =>
        match MakeImps(ws[1..], ctx)
        case Failure(e) => Failure(e)
        case Success(rest) => Success(first + rest)
  }

  /** The impressions follow the plan one for one. */
  lemma MakeImpsFollowsPlan(ws: seq<UnitWithParams>, ctx: PreBidRequestContext)
    ensures MakeImps(ws, ctx).Success? ==>
      && |MakeImps(ws, ctx).value| == |ImpPlan(ws)|
      && forall k :: 0 <= k < |ImpPlan(ws)| ==>
           ImpFollows(MakeImps(ws, ctx).value[k], ImpPlan(ws)[k].0, ImpPlan(ws)[k].1, ctx)
  {
    if MakeImps(ws, ctx).Success? {
      MakeImpsFollow(ws, ctx);
    }
  }

  ghost predicate FollowsPlan(imps: seq<PubmaticImp>, plan: seq<(UnitWithParams, MediaType)>, ctx: PreBidRequestContext)
  {
    |imps| == |plan| && forall k :: 0 <= k < |plan| ==> ImpFollows(imps[k], plan[k].0, plan[k].1, ctx)
  }

  lemma {:induction false} MakeImpsFollow(ws: seq<UnitWithParams>, ctx: PreBidRequestContext)
    requires MakeImps(ws, ctx).Success?
    ensures FollowsPlan(MakeImps(ws, ctx).value, ImpPlan(ws), ctx)
  {
    if ws != [] {
      var first := MakeImpsForAdUnitBid(ws[0], ctx).value;
      var rest := MakeImps(ws[1..], ctx).value;
      MakeImpsFollow(ws[1..], ctx);
      var types := AllowedMediaTypes(ws[0].adUnitBid, PubmaticMediaTypes);
      var head := seq(|types|, k requires 0 <= k < |types| => (ws[0], types[k]));
      assert ImpPlan(ws) == head + ImpPlan(ws[1..]);
      assert MakeImps(ws, ctx).value == first + rest;
      assert FollowsPlan(first, head, ctx);
      FollowsPlanConcat(first, head, rest, ImpPlan(ws[1..]), ctx);
    }
  }

  lemma FollowsPlanConcat(a: seq<PubmaticImp>, p: seq<(UnitWithParams, MediaType)>,
                          b: seq<PubmaticImp>, q: seq<(UnitWithParams, MediaType)>, ctx: PreBidRequestContext)
    requires FollowsPlan(a, p, ctx) && FollowsPlan(b, q, ctx)
    ensures FollowsPlan(a + b, p + q, ctx)
  {
    forall k | 0 <= k < |p + q| ensures ImpFollows((a + b)[k], (p + q)[k].0, (p + q)[k].1, ctx) {
      if k < |p| {
        assert (a + b)[k] == a[k] && (p + q)[k] == p[k];
      } else {
        assert (a + b)[k] == b[k - |a|] && (p + q)[k] == q[k - |p|];
      }
    }
  }

  /** `makeImps` throws exactly when some ad unit asks for a banner and has no sizes. */
  lemma {:induction false} MakeImpsFailsIffBannerWithoutSizes(ws: seq<UnitWithParams>, ctx: PreBidRequestContext)
    ensures MakeImps(ws, ctx).Failure? <==>
      exists i :: 0 <= i < |ws| && Banner in ws[i].adUnitBid.mediaTypes && ws[i].adUnitBid.sizes == []
  {
    if ws != [] {
      MakeImpsFailsIffBannerWithoutSizes(ws[1..], ctx);
      var types := AllowedMediaTypes(ws[0].adUnitBid, PubmaticMediaTypes);
      assert Banner in types <==> Banner in ws[0].adUnitBid.mediaTypes;
      assert forall i :: 1 <= i < |ws| ==> ws[i] == ws[1..][i - 1];
      match MakeImpsForAdUnitBid(ws[0], ctx)
      case Failure(_) =>
      case Success(first) =>
        match MakeImps(ws[1..], ctx)
        case Failure(_) =>
          var i :| 0 <= i < |ws[1..]| && Banner in ws[1..][i].adUnitBid.mediaTypes && ws[1..][i].adUnitBid.sizes == [];
          assert ws[i + 1] == ws[1..][i];
        case Success(rest) =>
    }
  }

  /** The impression-level promises of `makeImps`: every impression's id is its ad unit's code,
      and only banner impressions of ad units with params carry a `tagid`. */
  lemma MakeImpsIdsAndTagIds(ws: seq<UnitWithParams>, ctx: PreBidRequestContext)
    requires MakeImps(ws, ctx).Success?
    ensures |MakeImps(ws, ctx).value| == |ImpPlan(ws)|
    ensures forall k :: 0 <= k < |MakeImps(ws, ctx).value| ==>
      var imp := MakeImps(ws, ctx).value[k];
      && (exists i :: 0 <= i < |ws| && imp.id == ws[i].adUnitBid.adUnitCode)
      && (imp.tagid.Some? ==> imp.banner.Some? && ImpPlan(ws)[k].0.params.Some?)
  {
    ImpPlanCovers(ws);
    MakeImpsFollowsPlan(ws, ctx);
    var imps := MakeImps(ws, ctx).value;
    forall k | 0 <= k < |imps|
      ensures exists i :: 0 <= i < |ws| && imps[k].id == ws[i].adUnitBid.adUnitCode
    {
      var i :| 0 <= i < |ws| && ws[i] == ImpPlan(ws)[k].0;
    }
  }

  // ---------------------------------------------------------------------------
  // makePublisher and makeApp
  // ---------------------------------------------------------------------------

  predicate HasPublisher(params: Option<Params>)
  {
    params.Some? && params.value.publisherId.Some? && params.value.adSlot.Some?
  }

  /** The publisher id of the last ad unit whose params have a publisher id and an ad slot. */
  function LastPublisherId(ws: seq<UnitWithParams>): (r: Option<string>)
    ensures r.None? <==> forall i :: 0 <= i < |ws| ==> !HasPublisher(ws[i].params)
    ensures r.Some? ==> exists i :: 0 <= i < |ws| && HasPublisher(ws[i].params)
                                   && r.value == ws[i].params.value.publisherId.value
                                   && forall j :: i < j < |ws| ==> !HasPublisher(ws[j].params)
  {
    if ws == [] then None
    else
      var last := ws[|ws| - 1];
      if HasPublisher(last.params) then Some(last.params.value.publisherId.value)
      else
        assert forall i :: 0 <= i < |ws| - 1 ==> ws[..|ws| - 1][i] == ws[i];
        LastPublisherId(ws[..|ws| - 1])
  }

  /** `makePublisher`: a publisher with the last valid publisher id and the request's domain,
      or null when no ad unit has one. */
  function MakePublisher(ctx: PreBidRequestContext, ws: seq<UnitWithParams>): (r: Option<Publisher>)
    ensures r.Some? ==> r.value.id == LastPublisherId(ws) && r.value.domain == ctx.domain
    ensures r.None? <==> LastPublisherId(ws).None?
  {
    match LastPublisherId(ws)
    case None => None
    case Some(id) => Some(Publisher(Some(id), ctx.domain))
  }

  /** `makeApp`: the request's app with the publisher set, or null when there is no app. */
  function MakeApp(ctx: PreBidRequestContext, publisher: Option<Publisher>): (r: Option<App>)
    ensures r.None? <==> ctx.app.None?
    ensures r.Some? ==> r.value == ctx.app.value.(publisher := publisher)
  {
    match ctx.app
    case None => None
    case Some(app) => Some(app.(publisher := publisher))
  }

  // ---------------------------------------------------------------------------
  // createBidRequest and makeHttpRequests
  // ---------------------------------------------------------------------------

  /** The bid request for ad units whose params have been parsed: the impressions must be
      made and must not be empty. */
  function BidRequestFor(ws: seq<UnitWithParams>, ctx: PreBidRequestContext): (r: Result<BidRequest<()>, Exception>)
    ensures r.Failure? <==> MakeImps(ws, ctx).Failure? || MakeImps(ws, ctx).value == []
    ensures r.Success? ==>
      && r.value.id == ctx.tid && r.value.at == Some(1) && r.value.tmax == ctx.timeoutMillis
      && r.value.imp == MakeImps(ws, ctx).value && r.value.regs.None?
      && r.value.app == MakeApp(ctx, MakePublisher(ctx, ws))
  {
    var imps :- MakeImps(ws, ctx);
    if ValidateImps(imps).Some? then Failure(ValidateImps(imps).value)
    else Success(BidRequest(ctx.tid, Some(1), ctx.timeoutMillis, imps, MakeApp(ctx, MakePublisher(ctx, ws)), None))
  }

  /** `createBidRequest`. `checkMediaTypes` stands for the parent's
      `validateAdUnitBidsMediaTypes`: the message it throws, or `None`. */
  function CreateBidRequest(units: seq<PubmaticAdUnit>, ctx: PreBidRequestContext,
                            checkMediaTypes: seq<PubmaticAdUnit> -> Option<string>)
    : (r: Result<BidRequest<()>, Exception>)
    ensures checkMediaTypes(units).Some? ==> r == Failure(PreBidException(checkMediaTypes(units).value))
    ensures checkMediaTypes(units).None? && (forall i :: 0 <= i < |units| ==> ParseAndValidateParams(units[i]).None?) ==>
      r == Failure(PreBidException(IncorrectParamsMessage))
    ensures r.Success? ==>
      && r.value.id == ctx.tid && r.value.at == Some(1) && r.value.tmax == ctx.timeoutMillis
      && r.value.imp != [] && r.value.regs.None?
      && (r.value.app.Some? <==> ctx.app.Some?)
    ensures checkMediaTypes(units).None? && CreateAdUnitBidsWithParams(units).Failure? ==>
      r == Failure(CreateAdUnitBidsWithParams(units).error)
    ensures checkMediaTypes(units).None? && CreateAdUnitBidsWithParams(units).Success? ==>
      var ws := CreateAdUnitBidsWithParams(units).value;
      && r == BidRequestFor(ws, ctx)
      && (MakeImps(ws, ctx).Failure? ==> r == Failure(IndexOutOfBounds))
      && (MakeImps(ws, ctx) == Success([]) ==> r == Failure(PreBidException(NoImpsMessage)))
      && (r.Success? ==> r.value.imp == MakeImps(ws, ctx).value
                         && r.value.app == MakeApp(ctx, MakePublisher(ctx, ws)))
  {
    match checkMediaTypes(units)
    case Some(message) => Failure(PreBidException(message))
    case None =>
      match CreateAdUnitBidsWithParams(units)
      case Failure(e) => Failure(e)
      case Success(ws) => BidRequestFor(ws, ctx)
  }

  /** Every impression of the bid request belongs to one of the ad units. */
  lemma BidRequestImpsFromUnits(units: seq<PubmaticAdUnit>, ctx: PreBidRequestContext,
                                checkMediaTypes: seq<PubmaticAdUnit> -> Option<string>)
    requires CreateBidRequest(units, ctx, checkMediaTypes).Success?
    ensures var imps := CreateBidRequest(units, ctx, checkMediaTypes).value.imp;
      forall k :: 0 <= k < |imps| ==> exists i :: 0 <= i < |units| && imps[k].id == units[i].adUnitCode
  {
    var ws := CreateAdUnitBidsWithParams(units).value;
    MakeImpsIdsAndTagIds(ws, ctx);
    var imps := CreateBidRequest(units, ctx, checkMediaTypes).value.imp;
    forall k | 0 <= k < |imps|
      ensures exists i :: 0 <= i < |units| && imps[k].id == units[i].adUnitCode
    {
      var i :| 0 <= i < |ws| && imps[k].id == ws[i].adUnitBid.adUnitCode;
      assert ws[i].adUnitBid == units[i];
    }
  }

  /** With an app, the bid request always names a publisher: the one of the last ad unit whose
      params are valid, with the request's domain. */
  lemma BidRequestPublisherIsLastValid(units: seq<PubmaticAdUnit>, ctx: PreBidRequestContext,
                                       checkMediaTypes: seq<PubmaticAdUnit> -> Option<string>)
    requires CreateBidRequest(units, ctx, checkMediaTypes).Success?
    requires ctx.app.Some?
    ensures var app := CreateBidRequest(units, ctx, checkMediaTypes).value.app;
      && app.Some? && app.value.publisher.Some? && app.value.publisher.value.domain == ctx.domain
      && exists i :: 0 <= i < |units| && ParseAndValidateParams(units[i]).Some?
                  && app.value.publisher.value.id == ParseAndValidateParams(units[i]).value.publisherId
                  && forall j :: i < j < |units| ==> ParseAndValidateParams(units[j]).None?
  {
    assert CreateAdUnitBidsWithParams(units).Success?;
    var ws := CreateAdUnitBidsWithParams(units).value;
    var request := CreateBidRequest(units, ctx, checkMediaTypes).value;
    assert BidRequestFor(ws, ctx) == Success(request);
    forall i | 0 <= i < |ws| ensures HasPublisher(ws[i].params) <==> ws[i].params.Some? {
      assert ws[i].params == ParseAndValidateParams(units[i]);
      ParsedParamsHavePublisher(units[i]);
    }
    var some :| 0 <= some < |units| && ParseAndValidateParams(units[some]).Some?;
    assert ws[some].params.Some?;
    var i := LastPublisherIsLastValid(ws);
    assert ws[i].params == ParseAndValidateParams(units[i]);
    forall j | i < j < |units| ensures ParseAndValidateParams(units[j]).None? {
      assert ws[j].params == ParseAndValidateParams(units[j]);
    }
  }

  /** When every present params carries a publisher id and an ad slot, as parsed params do,
      the last publisher id is the one of the last params present: `i` is that ad unit. */
  lemma LastPublisherIsLastValid(ws: seq<UnitWithParams>) returns (i: nat)
    requires forall i :: 0 <= i < |ws| ==> (HasPublisher(ws[i].params) <==> ws[i].params.Some?)
    requires exists i :: 0 <= i < |ws| && ws[i].params.Some?
    ensures i < |ws| && ws[i].params.Some? && LastPublisherId(ws) == ws[i].params.value.publisherId
    ensures forall j :: i < j < |ws| ==> ws[j].params.None?
  {
    i :| 0 <= i < |ws| && HasPublisher(ws[i].params)
         && LastPublisherId(ws).value == ws[i].params.value.publisherId.value
         && forall j :: i < j < |ws| ==> !HasPublisher(ws[j].params);
  }

  /** `makeHttpRequests`: a single request to the endpoint carrying the bid request, or the
      exception `createBidRequest` throws. */
  function MakeHttpRequests(units: seq<PubmaticAdUnit>, ctx: PreBidRequestContext,
                            checkMediaTypes: seq<PubmaticAdUnit> -> Option<string>, endpointUrl: string)
    : (r: Result<seq<HttpRequest>, Exception>)
    ensures r.Success? ==> |r.value| == 1 && r.value[0].uri == endpointUrl
                           && CreateBidRequest(units, ctx, checkMediaTypes) == Success(r.value[0].bidRequest)
    ensures r.Failure? ==> CreateBidRequest(units, ctx, checkMediaTypes) == Failure(r.error)
  {
    var bidRequest :- CreateBidRequest(units, ctx, checkMediaTypes);
    Success([HttpRequest(endpointUrl, bidRequest)])
  }

  // ---------------------------------------------------------------------------
  // extractBids and toBidBuilder
  // ---------------------------------------------------------------------------

  /** `toBidBuilder`: the prebid bid for a response bid, with bidder code and bid id from its ad
      unit and everything else copied from the response bid. */
  function ToBidBuilder<E>(bid: RtbBid<E>, units: seq<PubmaticAdUnit>): (r: Result<PrebidBid, Exception>)
    ensures r.Failure? <==> forall i :: 0 <= i < |units| ==> units[i].adUnitCode != bid.impid
    ensures r.Success? ==>
      && r.value.code == bid.impid && r.value.price == bid.price && r.value.adm == bid.adm
      && r.value.creativeId == bid.crid && r.value.width == bid.w && r.value.height == bid.h
      && r.value.dealId == bid.dealid && r.value.mediaType.None? && r.value.nurl.None?
    ensures r.Success? ==> exists i :: 0 <= i < |units| && units[i].adUnitCode == bid.impid
                                       && (forall j :: 0 <= j < i ==> units[j].adUnitCode != bid.impid)
                                       && r.value.bidder == units[i].bidderCode && r.value.bidId == units[i].bidId
  {
    var unit :- LookupBid(units, bid.impid);
    Success(PrebidBid(unit.bidderCode, unit.bidId, bid.impid, bid.price, bid.adm, bid.crid, None,
                      bid.w, bid.h, bid.dealid, None))
  }

  /** The prebid bids of the response bids, in order; the first unknown impression id throws. */
  function BidsOf<E>(bids: seq<RtbBid<E>>, units: seq<PubmaticAdUnit>): (r: Result<seq<PrebidBid>, Exception>)
    ensures r.Success? ==> |r.value| == |bids| && forall k :: 0 <= k < |bids| ==> Success(r.value[k]) == ToBidBuilder(bids[k], units)
    ensures r.Failure? <==> exists k :: 0 <= k < |bids| && ToBidBuilder(bids[k], units).Failure?
  {
    if bids == [] then Success([])
    else
      match ToBidBuilder(bids[0], units)
      case Failure(e) => Failure(e)
      case Success(first) =>
        assert forall k :: 1 <= k < |bids| ==> bids[k] == bids[1..][k - 1];
        match BidsOf(bids[1..], units)
        case Failure(e) =>
          BidsOfFailureShifts(bids, units);
          Failure(e)
        case Success(rest) => Success([first] + rest)
  }

  /** A failing bid after the first is a failing bid of the whole list, one position later. */
  lemma BidsOfFailureShifts<E>(bids: seq<RtbBid<E>>, units: seq<PubmaticAdUnit>)
    requires bids != []
    requires exists k :: 0 <= k < |bids[1..]| && ToBidBuilder(bids[1..][k], units).Failure?
    ensures exists k :: 0 <= k < |bids| && ToBidBuilder(bids[k], units).Failure?
  {
    var k :| 0 <= k < |bids[1..]| && ToBidBuilder(bids[1..][k], units).Failure?;
    assert bids[k + 1] == bids[1..][k];
  }

  /** `extractBids`: one prebid bid per bid of the response, in order. */
  function ExtractBids<E>(units: seq<PubmaticAdUnit>, response: Option<BidResponse<E>>): (r: Result<seq<PrebidBid>, Exception>)
    ensures r.Success? ==> |r.value| == |ResponseBids(response)|
    ensures r.Success? ==> forall k :: 0 <= k < |r.value| ==>
      r.value[k].code == ResponseBids(response)[k].impid && r.value[k].price == ResponseBids(response)[k].price
    ensures r.Failure? <==> exists k :: 0 <= k < |ResponseBids(response)| &&
                                        forall i :: 0 <= i < |units| ==> units[i].adUnitCode != ResponseBids(response)[k].impid
  {
    BidsOf(ResponseBids(response), units)
  }
}
