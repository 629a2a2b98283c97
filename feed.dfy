/**
 * The RSS 2.0 document of src/app/rss.xml/route.ts: one `<item>` per feed
 * item, in input order, and the channel's `lastBuildDate`. Date parsing and
 * formatting are kept abstract in a `Clock`.
 */
module Feed {
  import opened Text
  import opened Common
  import opened XmlEscape
  import opened Seqs

  /** What an item of the feed carries. */
  datatype FeedItem = FeedItem(
    title: string,
    url: string,
    publishedAt: string,
    updatedAt: Option<string>,
    summary: string,
    tags: Option<seq<string>>)

  /** `Date.parse` (`None` for `NaN`), `toUTCString` of a parsed time, and
      `new Date().toUTCString()` at the time of the request. */
  datatype Clock = Clock(parse: string -> Option<int>, utc: int -> string, now: string)

  /** The route's own copy of the entity escape, the same chain of five
      replacements as `escapeXml`. */
  function EscapeForXml(value: string): (r: string)
    ensures r == EscapeXml(value)
    ensures forall i :: 0 <= i < |r| ==> !Markup(r[i])
    ensures forall i :: 0 <= i < |r| && r[i] == '&' ==> EntityAt(r, i)
    ensures DecodeEntities(r) == value
  {
    var amp := ReplaceAll(value, "&", "&amp;");
    var lt := ReplaceAll(amp, "<", "&lt;");
    var gt := ReplaceAll(lt, ">", "&gt;");
    var quot := ReplaceAll(gt, "\"", "&quot;");
    EscapeXmlSafe(value);
    ReplaceAll(quot, "'", "&apos;")
  }

  /** The route's own copy of the CDATA wrapper. */
  function WrapInCdata(value: string): (r: string)
    ensures r == WrapCdata(value)
    ensures r == Sections(CdataBodies(value)) && Concat(CdataBodies(value)) == value
    ensures forall k :: 0 <= k < |CdataBodies(value)| ==> !Contains(CdataBodies(value)[k], CdataClose)
  {
    var safeValue := ReplaceAll(value, "]]>", "]]]]><![CDATA[>");
    WrapCdataSections(value);
    "<![CDATA[" + safeValue + "]]>"
  }

  /** `formatRfc822`: the parsed date in UTC form, the current time when the
      text does not parse. */
  function FormatRfc822(dateString: string, clock: Clock): (r: string)
    ensures clock.parse(dateString).None? ==> r == clock.now
    ensures clock.parse(dateString).Some? ==> r == clock.utc(clock.parse(dateString).value)
  {
    match clock.parse(dateString)
    case None => clock.now
    case Some(t) => clock.utc(t)
  }

  /** `determineLastBuildDate`: the first item's `updatedAt`, or its
      `publishedAt` when it has none; the current time for an empty feed. */
  function DetermineLastBuildDate(items: seq<FeedItem>, clock: Clock): (r: string)
    ensures items == [] ==> r == clock.now
    ensures items != [] && items[0].updatedAt.Some? ==> r == FormatRfc822(items[0].updatedAt.value, clock)
    ensures items != [] && items[0].updatedAt.None? ==> r == FormatRfc822(items[0].publishedAt, clock)
  {
    if items == [] then clock.now
    else FormatRfc822(items[0].updatedAt.GetOr(items[0].publishedAt), clock)
  }

  /** Only the first item decides the build date: the items after it,
      whatever they are, play no part. */
  lemma BuildDateFromFirst(items: seq<FeedItem>, more: seq<FeedItem>, clock: Clock)
    requires items != []
    ensures DetermineLastBuildDate(items + more, clock) == DetermineLastBuildDate(items[..1], clock)
  {
    assert (items + more)[0] == items[..1][0];
  }

  /** One `<category>` per tag. */
  function Category(tag: string): string {
    "<category>" + EscapeForXml(tag) + "</category>"
  }

  function Categories(tags: seq<string>): (r: string)
    ensures tags == [] ==> r == []
  {
    if tags == [] then [] else Category(tags[0]) + Categories(tags[1..])
  }

  /** A reader of a run of `<category>` elements: the decoded text of each. */
  function ReadCategories(s: string): Option<seq<string>>
    decreases |s|
  {
    if s == [] then Some([])
    else if StartsWith(s, "<category>") && '<' in s[10..] then
      var text := UpTo(s[10..], '<');
      var after := s[10 + |text|..];
      if StartsWith(after, "</category>") then
        match ReadCategories(after[11..])
        case Some(ts) => Some([DecodeEntities(text)] + ts)
        case None => None
      else None
    else None
  }

  lemma CategoryStep(tag: string, rest: string)
    ensures ReadCategories(Category(tag) + rest).Some? <==> ReadCategories(rest).Some?
    ensures ReadCategories(rest).Some? ==>
      ReadCategories(Category(tag) + rest).value == [tag] + ReadCategories(rest).value
  {
    var e := EscapeForXml(tag);
    CategoryShape(tag, rest);
    ReadCategoriesUnfold(Category(tag) + rest, e, rest);
  }

  /** An element written by `Category` is read as one element whose text is
      the escaped tag. */
  lemma CategoryShape(tag: string, rest: string)
    ensures var s := Category(tag) + rest;
      && StartsWith(s, "<category>") && '<' in s[10..]
      && UpTo(s[10..], '<') == EscapeForXml(tag)
      && 10 + |EscapeForXml(tag)| <= |s| && s[10 + |EscapeForXml(tag)|..] == "</category>" + rest
  {
    var e := EscapeForXml(tag);
    var c := "</category>";
    Framed("<category>", e, c, rest);
    assert '<' !in e by {
      forall i | 0 <= i < |e| ensures e[i] != '<' { assert !Markup(e[i]); }
    }
    assert (c + rest)[0] == '<';
    UpToBefore(e, '<', c + rest);
  }

  /** One step of the reader over a well-formed element. */
  lemma ReadCategoriesUnfold(s: string, text: string, rest: string)
    requires StartsWith(s, "<category>") && '<' in s[10..]
    requires UpTo(s[10..], '<') == text
    requires 10 + |text| <= |s| && s[10 + |text|..] == "</category>" + rest
    ensures ReadCategories(s) == match ReadCategories(rest)
      case Some(ts) => Some([DecodeEntities(text)] + ts)
      case None => None
  {
    var after := s[10 + |text|..];
    assert StartsWith(after, "</category>");
    assert after[11..] == rest;
  }

  /** The categories read back are the item's tags, in order. */
  lemma {:induction false} CategoriesRoundTrip(tags: seq<string>)
    ensures ReadCategories(Categories(tags)) == Some(tags)
  {
    if tags != [] {
      CategoriesRoundTrip(tags[1..]);
      CategoryStep(tags[0], Categories(tags[1..]));
      HeadTail(tags);
    }
  }

  const ItemIndent: string := "\n      "

  /** The pieces of `renderItem`'s template, in order. */
  function ItemParts(item: FeedItem, clock: Clock): seq<string> {
    var escapedUrl := EscapeForXml(item.url);
    [ "<item>",
      ItemIndent, "<title>" + EscapeForXml(item.title) + "</title>",
      ItemIndent, "<link>" + escapedUrl + "</link>",
      ItemIndent, "<guid isPermaLink=\"true\">" + escapedUrl + "</guid>",
      ItemIndent, "<pubDate>" + FormatRfc822(item.publishedAt, clock) + "</pubDate>",
      ItemIndent, Categories(item.tags.GetOr([])),
      ItemIndent, "<description>" + WrapInCdata(item.summary) + "</description>",
      "\n    </item>" ]
  }

  /** `renderItem`. */
  function RenderItem(item: FeedItem, clock: Clock): (r: string)
    ensures StartsWith(r, "<item>") && EndsWith(r, "\n    </item>")
  {
    var parts := ItemParts(item, clock);
    ConcatStartsWithFirst(parts);
    ConcatEndsWithLast(parts);
    Concat(parts)
  }

  /** An item's `<link>` and `<guid>` hold the same escaped URL, which
      decodes to the item's URL. */
  lemma ItemLinkAndGuid(item: FeedItem, clock: Clock)
    ensures var u := EscapeForXml(item.url);
      var r := RenderItem(item, clock);
      DecodeEntities(u) == item.url
      && Contains(r, "<link>" + u + "</link>")
      && Contains(r, "<guid isPermaLink=\"true\">" + u + "</guid>")
  {
    var parts := ItemParts(item, clock);
    ItemPartsShape(item, clock);
    ConcatHasPart(parts, 4);
    ConcatHasPart(parts, 6);
  }

  /** Where the link, the guid and the categories sit among the pieces. */
  lemma ItemPartsShape(item: FeedItem, clock: Clock)
    ensures var parts := ItemParts(item, clock);
      var u := EscapeForXml(item.url);
      && |parts| == 14
      && parts[4] == "<link>" + u + "</link>"
      && parts[6] == "<guid isPermaLink=\"true\">" + u + "</guid>"
      && parts[8] == "<pubDate>" + FormatRfc822(item.publishedAt, clock) + "</pubDate>"
      && parts[10] == Categories(item.tags.GetOr([]))
  {
    var escapedUrl := EscapeForXml(item.url);
    Pieces14("<item>",
      ItemIndent, "<title>" + EscapeForXml(item.title) + "</title>",
      ItemIndent, "<link>" + escapedUrl + "</link>",
      ItemIndent, "<guid isPermaLink=\"true\">" + escapedUrl + "</guid>",
      ItemIndent, "<pubDate>" + FormatRfc822(item.publishedAt, clock) + "</pubDate>",
      ItemIndent, Categories(item.tags.GetOr([])),
      ItemIndent, "<description>" + WrapInCdata(item.summary) + "</description>",
      "\n    </item>");
  }

  /** Positions in a list of fourteen pieces. */
  lemma Pieces14<T>(a0: T, a1: T, a2: T, a3: T, a4: T, a5: T, a6: T, a7: T, a8: T, a9: T, a10: T, a11: T, a12: T, a13: T)
    ensures var l := [a0, a1, a2, a3, a4, a5, a6, a7, a8, a9, a10, a11, a12, a13];
      |l| == 14 && l[4] == a4 && l[6] == a6 && l[8] == a8 && l[10] == a10
  {
  }

  /** An item carries one `<category>` per tag, in tag order, and none
      when the item has no tags. */
  lemma ItemCategories(item: FeedItem, clock: Clock)
    ensures var c := Categories(item.tags.GetOr([]));
      Contains(RenderItem(item, clock), c) && ReadCategories(c) == Some(item.tags.GetOr([]))
  {
    ItemPartsShape(item, clock);
    ConcatHasPart(ItemParts(item, clock), 10);
    CategoriesRoundTrip(item.tags.GetOr([]));
  }

  /** An item carries its publication date, formatted. */
  lemma ItemPubDate(item: FeedItem, clock: Clock)
    ensures Contains(RenderItem(item, clock), "<pubDate>" + FormatRfc822(item.publishedAt, clock) + "</pubDate>")
  {
    ItemPartsShape(item, clock);
    ConcatHasPart(ItemParts(item, clock), 8);
  }

  /** When the newest item was never updated, the channel's
      `<lastBuildDate>` is the text of that item's `<pubDate>`, and that
      item opens the list of items. */
  lemma BuildDateIsFirstPubDate(meta: SiteMetadata, items: seq<FeedItem>, clock: Clock)
    requires items != [] && items[0].updatedAt.None?
    ensures var d := DetermineLastBuildDate(items, clock);
      && Contains(RenderFeed(meta, items, clock), "<lastBuildDate>" + d + "</lastBuildDate>")
      && Contains(RenderItem(items[0], clock), "<pubDate>" + d + "</pubDate>")
      && StartsWith(ItemsXml(items, clock), RenderItem(items[0], clock))
  {
    FeedContents(meta, items, clock);
    ItemPubDate(items[0], clock);
    var first, rest := RenderItem(items[0], clock), ItemsXml(items[1..], clock);
    assert ItemsXml(items, clock) == first + rest;
    assert (first + rest)[..|first|] == first;
  }

  /** A newest item whose date does not parse is stamped with the current
      time, and so is the whole feed: its `<pubDate>` and the feed's
      `<lastBuildDate>` both show `now`, as for a feed with no items. */
  lemma UnparsableDateShowsNow(meta: SiteMetadata, items: seq<FeedItem>, clock: Clock)
    requires items != [] && items[0].updatedAt.None? && clock.parse(items[0].publishedAt).None?
    ensures Contains(RenderFeed(meta, items, clock), "<lastBuildDate>" + clock.now + "</lastBuildDate>")
    ensures Contains(RenderItem(items[0], clock), "<pubDate>" + clock.now + "</pubDate>")
  {
    BuildDateIsFirstPubDate(meta, items, clock);
  }

  /** `feedItems.map(renderItem).join("")`. */
  function ItemsXml(items: seq<FeedItem>, clock: Clock): (r: string)
    ensures items == [] ==> r == []
  {
    if items == [] then [] else RenderItem(items[0], clock) + ItemsXml(items[1..], clock)
  }

  /** Items are emitted in input order: the feed of two lists is the feed
      of the first followed by the feed of the second. */
  lemma {:induction false} ItemsXmlAppend(a: seq<FeedItem>, b: seq<FeedItem>, clock: Clock)
    ensures ItemsXml(a + b, clock) == ItemsXml(a, clock) + ItemsXml(b, clock)
  {
    if a == [] {
      assert a + b == b;
    } else {
      assert (a + b)[1..] == a[1..] + b;
      ItemsXmlAppend(a[1..], b, clock);
    }
  }

  const XmlHead: string :=
    "<?xml version=\"1.0\" encoding=\"UTF-8\"?>\n<rss version=\"2.0\" xmlns:atom=\"http://www.w3.org/2005/Atom\">\n  <channel>\n    <title>"

  /** The pieces of the document `GET` responds with, in order. */
  function FeedParts(meta: SiteMetadata, items: seq<FeedItem>, clock: Clock): seq<string> {
    var site := EscapeForXml(meta.siteUrl);
    [ XmlHead, EscapeForXml(meta.title),
      "</title>\n    <link>", site,
      "</link>\n    <description>", EscapeForXml(meta.feedDescription),
      "</description>\n    <language>en-us</language>\n    ",
      "<lastBuildDate>" + DetermineLastBuildDate(items, clock) + "</lastBuildDate>",
      "\n    <atom:link href=\"", site, "/rss.xml\" rel=\"self\" type=\"application/rss+xml\" />\n    ",
      ItemsXml(items, clock),
      "\n  </channel>\n</rss>" ]
  }

  /** The document `GET` responds with: the XML declaration and channel
      head first, the build date element, and every item. The site's
      metadata is a parameter. */
  function RenderFeed(meta: SiteMetadata, items: seq<FeedItem>, clock: Clock): (r: string)
    ensures StartsWith(r, XmlHead)
  {
    var parts := FeedParts(meta, items, clock);
    ConcatStartsWithFirst(parts);
    Concat(parts)
  }

  /** The document carries the build date element and every item. */
  lemma FeedContents(meta: SiteMetadata, items: seq<FeedItem>, clock: Clock)
    ensures var r := RenderFeed(meta, items, clock);
      && Contains(r, "<lastBuildDate>" + DetermineLastBuildDate(items, clock) + "</lastBuildDate>")
      && Contains(r, ItemsXml(items, clock))
  {
    var parts := FeedParts(meta, items, clock);
    FeedPartsShape(meta, items, clock);
    ConcatHasPart(parts, 7);
    ConcatHasPart(parts, 11);
  }

  /** Where the build date and the items sit among the pieces. */
  lemma FeedPartsShape(meta: SiteMetadata, items: seq<FeedItem>, clock: Clock)
    ensures var parts := FeedParts(meta, items, clock);
      && |parts| == 13
      && parts[7] == "<lastBuildDate>" + DetermineLastBuildDate(items, clock) + "</lastBuildDate>"
      && parts[11] == ItemsXml(items, clock)
  {
    var site := EscapeForXml(meta.siteUrl);
    Pieces13(XmlHead, EscapeForXml(meta.title),
      "</title>\n    <link>", site,
      "</link>\n    <description>", EscapeForXml(meta.feedDescription),
      "</description>\n    <language>en-us</language>\n    ",
      "<lastBuildDate>" + DetermineLastBuildDate(items, clock) + "</lastBuildDate>",
      "\n    <atom:link href=\"", site, "/rss.xml\" rel=\"self\" type=\"application/rss+xml\" />\n    ",
      ItemsXml(items, clock),
      "\n  </channel>\n</rss>");
  }

  /** Positions in a list of thirteen pieces. */
  lemma Pieces13<T>(a0: T, a1: T, a2: T, a3: T, a4: T, a5: T, a6: T, a7: T, a8: T, a9: T, a10: T, a11: T, a12: T)
    ensures var l := [a0, a1, a2, a3, a4, a5, a6, a7, a8, a9, a10, a11, a12];
      |l| == 13 && l[7] == a7 && l[11] == a11
  {
  }
}
