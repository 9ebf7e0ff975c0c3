/**
 The link-discovery scraper (scraper_selenium.py): open the portrait listing,
 scroll until the page stops growing, take the portrait links from the page,
 scrape each linked portrait and write the records as a CSV whose header is
 the union of their keys in no particular order.

 The listing is what navigating to https://www.schlussgang.ch/portraet gives; the browser on the
 portrait pages is an oracle `site` from URL to what navigating there gives;
 the CSV file is the `Table` returned.
 */
module LinkScraper {
  import opened Seqs
  import opened Wrappers
  import opened PyStr
  import opened Records
  import opened Csv
  import NameListScraper

  const SiteRoot := "https://www.schlussgang.ch"
  const LinkMarker := "portraet"
  const ListingPath := "/portraet"

  /** An `a` element of the listing page, with its `href` attribute if it has one. */
  datatype Anchor = Anchor(href: Option<string>)

  /**
   What navigating to the listing gives: the document heights observed
   (`heights[0]` before the first scroll, `heights[k]` after the k-th) and the
   anchors the document holds after k scrolls; or a timeout or a driver error.
   */
  datatype Listing =
    | Listed(heights: seq<int>, snapshot: nat -> seq<Anchor>)
    | ListingTimeout
    | ListingDriverError

  /** Some scroll leaves the height where it was. */
  predicate Stabilizes(heights: seq<int>) {
    exists i :: 1 <= i < |heights| && heights[i] == heights[i - 1]
  }

  /**
   The scroll loop of `get_portrait_links`: scroll, read the height, stop as
   soon as it equals the previous reading. Returns how many scrolls were made:
   the first one that did not grow the page.
   */
  method ScrollUntilStable(heights: seq<int>) returns (scrolls: nat)
    requires Stabilizes(heights)
    ensures 1 <= scrolls < |heights|
    ensures heights[scrolls] == heights[scrolls - 1]
    ensures forall j :: 1 <= j < scrolls ==> heights[j] != heights[j - 1]
  {
    var lastHeight := heights[0];
    scrolls := 1;
    while true
      invariant 1 <= scrolls < |heights|
      invariant lastHeight == heights[scrolls - 1]
      invariant forall j :: 1 <= j < scrolls ==> heights[j] != heights[j - 1]
      invariant exists i :: scrolls <= i < |heights| && heights[i] == heights[i - 1]
      decreases |heights| - scrolls
    {
      var newHeight := heights[scrolls];
      if newHeight == lastHeight {
        break;
      }
      lastHeight := newHeight;
      scrolls := scrolls + 1;
    }
  }

  /** An anchor the CSS selector `a[href*='portraet']` picks and the filter keeps: its link. */
  predicate IsPortraitLink(anchor: Anchor) {
    anchor.href.Some? && Contains(anchor.href.value, LinkMarker) && anchor.href.value != ListingPath
  }

  /** The `href`s of the portrait links among `anchors`, in document order, duplicates kept. */
  function PortraitLinks(anchors: seq<Anchor>): (links: seq<string>)
    ensures |links| <= |anchors|
    ensures forall l :: l in links ==> Contains(l, LinkMarker) && l != ListingPath
    decreases |anchors|
  {
    if anchors == [] then []
    else
      var init, last := anchors[..|anchors| - 1], anchors[|anchors| - 1];
      if IsPortraitLink(last) then PortraitLinks(init) + [last.href.value] else PortraitLinks(init)
  }

  lemma {:induction false} PortraitLinksAppend(a: seq<Anchor>, b: seq<Anchor>)
    ensures PortraitLinks(a + b) == PortraitLinks(a) + PortraitLinks(b)
    decreases |b|
  {
    if b == [] {
      assert a + b == a;
    } else {
      var init := b[..|b| - 1];
      LastOfAppend(a, b);
      PortraitLinksAppend(a, init);
    }
  }

  /** A link is returned exactly when some anchor of the page carries it and passes the filter. */
  lemma {:induction false} PortraitLinksMembers(anchors: seq<Anchor>, l: string)
    ensures l in PortraitLinks(anchors) <==>
      exists i :: 0 <= i < |anchors| && IsPortraitLink(anchors[i]) && anchors[i].href.value == l
    decreases |anchors|
  {
    if anchors != [] {
      var init, last := anchors[..|anchors| - 1], anchors[|anchors| - 1];
      PortraitLinksMembers(init, l);
      if exists i :: 0 <= i < |anchors| && IsPortraitLink(anchors[i]) && anchors[i].href.value == l {
        var i :| 0 <= i < |anchors| && IsPortraitLink(anchors[i]) && anchors[i].href.value == l;
        if i < |anchors| - 1 {
          assert init[i] == anchors[i];
        }
      }
      if exists i :: 0 <= i < |init| && IsPortraitLink(init[i]) && init[i].href.value == l {
        var i :| 0 <= i < |init| && IsPortraitLink(init[i]) && init[i].href.value == l;
        assert anchors[i] == init[i];
      }
    }
  }

  /**
   `get_portrait_links`: nothing when loading the listing times out or the
   driver fails; otherwise the portrait links of the page as it stands after
   the first scroll that did not grow it. `scrolls` is 0 when nothing was loaded.
   */
  method GetPortraitLinks(listing: Listing) returns (links: seq<string>, scrolls: nat)
    requires listing.Listed? ==> Stabilizes(listing.heights)
    ensures !listing.Listed? ==> links == [] && scrolls == 0
    ensures listing.Listed? ==>
      1 <= scrolls < |listing.heights|
      && listing.heights[scrolls] == listing.heights[scrolls - 1]
      && (forall j :: 1 <= j < scrolls ==> listing.heights[j] != listing.heights[j - 1])
      && links == PortraitLinks(listing.snapshot(scrolls))
  {
    match listing
    case Listed(heights, snapshot) =>
      scrolls := ScrollUntilStable(heights);
      links := PortraitLinks(snapshot(scrolls));
    case ListingTimeout =>
      links, scrolls := [], 0;
    case ListingDriverError =>
      links, scrolls := [], 0;
  }

  /** What `scrape_portrait` returns when it returns: the page's record once a table body is present, nothing otherwise. */
  function Scraped(fetch: Fetch): Option<Record> {
    if fetch.Rendered? && fetch.page.tbody.Some? then Some(RecordOf(fetch.page)) else None
  }

  /** How a call of `scrape_portrait` ends: it returns a value, or an exception escapes it. */
  datatype Attempt = Returned(data: Option<Record>) | Raised

  /**
   `scrape_portrait`: waits for a table body only, so a load timeout, a driver
   error or a page without one gives nothing; any error banner is ignored.
   Both exception handlers log a piece of `driver.page_source`, so after a
   lost session the handler itself raises and the exception escapes.
   */
  method ScrapePortrait(fetch: Fetch) returns (outcome: Attempt)
    ensures outcome.Raised? <==> fetch.SessionLost?
    ensures outcome.Returned? ==> (outcome.data.None? <==> !fetch.Rendered? || fetch.page.tbody.None?)
    ensures outcome.Returned? && outcome.data.Some? ==>
      outcome.data.value == RecordOf(fetch.page) && NameKey in outcome.data.value
      && outcome.data.value.Keys == {NameKey} + Labels(fetch.page.tbody.value)
    ensures outcome.Returned? ==> outcome.data == Scraped(fetch)
  {
    match fetch
    case Rendered(page) =>
      if page.tbody.None? {
        return Returned(None);
      }
      var record := ExtractRecord(page);
      return Returned(Some(record));
    case LoadTimeout =>
      return Returned(None);
    case DriverError =>
      return Returned(None);
    case SessionLost =>
      return Raised;
  }

  /** Without an error banner the two scrapers read a portrait page the same way. */
  lemma AgreeWithoutBanner(fetch: Fetch)
    requires fetch.Rendered? ==> fetch.page.banner.None?
    ensures Scraped(fetch) == NameListScraper.Scraped(fetch)
  {
  }

  /** A "not found" banner over a table stops the name-list scraper but not this one. */
  lemma BannerIgnored(fetch: Fetch)
    requires fetch.Rendered? && fetch.page.tbody.Some? && NameListScraper.NotFound(fetch.page)
    ensures Scraped(fetch) == Some(RecordOf(fetch.page))
    ensures NameListScraper.Scraped(fetch) == None
  {
  }

  /** The URL of a portrait link: the site root followed by the link. */
  function FullUrl(link: string): string {
    SiteRoot + link
  }

  /** What one pass of the loop of `main` gets for a link, when `scrape_portrait` returns. */
  function Found(site: string -> Fetch): string -> Option<Record> {
    link => Scraped(site(FullUrl(link)))
  }

  /** What the loop of `main` collects: one record per link whose page gave one, in link order. */
  function Collected(site: string -> Fetch, links: seq<string>): (all: seq<Record>)
    ensures |all| <= |links|
  {
    Gather(Found(site), links)
  }

  /** Every collected record carries `Name`, so each is truthy and none is dropped by the `if` of `main`. */
  lemma CollectedHaveName(site: string -> Fetch, links: seq<string>)
    ensures forall r :: r in Collected(site, links) ==> NameKey in r
  {
    forall r | r in Collected(site, links) ensures NameKey in r {
      GatherFrom(Found(site), links, r);
      var i :| 0 <= i < |links| && Found(site)(links[i]) == Some(r);
      assert Found(site)(links[i]) == Scraped(site(FullUrl(links[i])));
    }
  }

  /** Collecting distributes over concatenation of the link list. */
  lemma CollectedAppend(site: string -> Fetch, a: seq<string>, b: seq<string>)
    ensures Collected(site, a + b) == Collected(site, a) + Collected(site, b)
  {
    GatherAppend(Found(site), a, b);
  }

  /** The CSV `save_to_csv` writes for this scraper: the records' keys each once, in any order. */
  ghost predicate UnorderedCsv(data: seq<Record>, table: Table) {
    NoDuplicates(table.header)
    && (forall k :: k in table.header <==> SomeRecordHas(data, k))
    && RowsOf(data, table)
  }

  /**
   `save_to_csv`: nothing for no records; otherwise a header listing the union
   of the records' keys (in the iteration order of a set) and one row per record.
   */
  method SaveToCsv(data: seq<Record>) returns (table: Option<Table>)
    ensures table.None? <==> data == []
    ensures table.Some? ==> UnorderedCsv(data, table.value)
  {
    if data == [] {
      return None;
    }
    var keys := UnionKeys(data);
    var header := ListOf(keys);
    var rows := seq(|data|, i requires 0 <= i < |data| => Cells(data[i], header));
    UnorderedTable(data, keys, header, rows);
    return Some(Table(header, rows));
  }

  lemma UnorderedTable(data: seq<Record>, keys: set<string>, header: seq<string>, rows: seq<seq<string>>)
    requires forall i :: 0 <= i < |data| ==> data[i].Keys <= keys
    requires forall k :: k in keys ==> SomeRecordHas(data, k)
    requires NoDuplicates(header) && forall k :: k in header <==> k in keys
    requires |rows| == |data| && forall i :: 0 <= i < |data| ==> rows[i] == Cells(data[i], header)
    ensures UnorderedCsv(data, Table(header, rows))
  {
    forall k | SomeRecordHas(data, k) ensures k in keys {
      var i :| 0 <= i < |data| && k in data[i];
      assert k in data[i].Keys;
    }
  }

  /** Each written row reads back as its record without the empty fields. */
  lemma UnorderedReadsBack(data: seq<Record>, table: Table, i: int)
    requires UnorderedCsv(data, table) && 0 <= i < |data|
    ensures ReadBack(table.header, table.rows[i]) == map k | k in data[i] && data[i][k] != "" :: data[i][k]
  {
    RowReadsBack(data, table, i);
  }

  /**
   For records that all carry `Name`, this scraper's header and the name-list
   scraper's hold the same keys, each once: they differ only in order.
   */
  lemma HeadersAgree(data: seq<Record>, t1: Table, t2: Table)
    requires data != [] && forall i :: 0 <= i < |data| ==> NameKey in data[i]
    requires UnorderedCsv(data, t1) && NameListScraper.NameListCsv(data, t2)
    ensures multiset(t1.header) == multiset(t2.header)
  {
    assert NameKey in data[0];
    forall k ensures multiset(t1.header)[k] == multiset(t2.header)[k] {
      CountDistinct(t1.header, k);
      CountDistinct(t2.header, k);
    }
  }

  /** In a list without duplicates a key occurs once if it is there and never otherwise. */
  lemma {:induction false} CountDistinct(s: seq<string>, k: string)
    requires NoDuplicates(s)
    ensures multiset(s)[k] == if k in s then 1 else 0
    decreases |s|
  {
    if s != [] {
      var init := s[..|s| - 1];
      assert s == init + [s[|s| - 1]];
      assert NoDuplicates(init) by {
        forall i, j | 0 <= i < j < |init| ensures init[i] != init[j] {
          assert init[i] == s[i] && init[j] == s[j];
        }
      }
      CountDistinct(init, k);
      if k == s[|s| - 1] {
        assert k !in init by {
          forall i | 0 <= i < |init| ensures init[i] != k {
            assert init[i] == s[i];
          }
        }
      }
    }
  }

  /** Whether scraping a link loses the browser session. */
  function Lost(site: string -> Fetch): string -> bool {
    link => site(FullUrl(link)).SessionLost?
  }

  /**
   The body of `main`: take the portrait links; with none, stop without
   writing anything; otherwise scrape each link's full URL in order and keep
   the truthy records. If a scrape raises (a lost session), the exception
   reaches the handler of `main` and nothing is written; otherwise the records
   are written when there are any.
   */
  method Run(listing: Listing, site: string -> Fetch)
    returns (links: seq<string>, scrolls: nat, allData: seq<Record>, table: Option<Table>)
    requires listing.Listed? ==> Stabilizes(listing.heights)
    ensures !listing.Listed? ==> links == [] && scrolls == 0
    ensures listing.Listed? ==>
      1 <= scrolls < |listing.heights|
      && listing.heights[scrolls] == listing.heights[scrolls - 1]
      && (forall j :: 1 <= j < scrolls ==> listing.heights[j] != listing.heights[j - 1])
      && links == PortraitLinks(listing.snapshot(scrolls))
    ensures allData == Collected(site, links[..FirstWhere(Lost(site), links)])
    ensures FirstWhere(Lost(site), links) < |links| ==> table.None?
    ensures FirstWhere(Lost(site), links) == |links| ==> (table.Some? <==> allData != [])
    ensures table.Some? ==> UnorderedCsv(allData, table.value)
  {
    links, scrolls := GetPortraitLinks(listing);
    allData := [];
    if links == [] {
      return links, scrolls, allData, None;
    }
    for n := 0 to |links|
      invariant allData == Collected(site, links[..n])
      invariant forall j :: 0 <= j < n ==> !Lost(site)(links[j])
    {
      var outcome := ScrapePortrait(site(FullUrl(links[n])));
      FirstWhereStep(Lost(site), links, n);
      if outcome.Raised? {
        return links, scrolls, allData, None;
      }
      var data := outcome.data;
      GatherStep(Found(site), links, n);
      assert Found(site)(links[n]) == data;
      assert data.Some? ==> NameKey in data.value;
      if data.Some? && data.value != map[] {
        allData := allData + [data.value];
      }
    }
    FirstWhereAt(Lost(site), links, |links|);
    assert links[..|links|] == links;
    if allData != [] {
      table := SaveToCsv(allData);
    } else {
      table := None;
    }
  }
}
