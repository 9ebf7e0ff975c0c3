/**
 The name-list scraper (scraper_selenium_namelist.py): for each name in a file,
 derive the portrait URL, scrape it (falling back once to the "-0" variant),
 collect the records that came back and write them as a CSV whose header is
 `Name` followed by the other keys in ascending order.

 The browser is an oracle `site` from URL to what navigating there gives; the
 file of names is a sequence of lines; the CSV file is the `Table` returned.
 */
module NameListScraper {
  import opened Seqs
  import opened Wrappers
  import opened PyStr
  import opened Order
  import opened Records
  import opened Csv

  const BaseUrl := "https://www.schlussgang.ch/portraet/"
  const NotFoundPhrase := "Seite nicht gefunden"
  const RetrySuffix := "-0"

  /** `name.strip().lower().replace(" ", "-")`: no transliteration of umlauts happens here. */
  function NormalizeName(line: string): string {
    ReplaceAll(Lower(Strip(line)), ' ', "-")
  }

  /**
   The URL name is the stripped line, character for character: each space
   turned into "-", every other character lowercased, so no space is left.
   */
  lemma NormalizeNameChars(line: string)
    ensures ' ' !in NormalizeName(line)
    ensures |NormalizeName(line)| == |Strip(line)|
    ensures forall i :: 0 <= i < |Strip(line)| ==>
      NormalizeName(line)[i] == (if Strip(line)[i] == ' ' then '-' else LowerChar(Strip(line)[i]))
  {
    ReplaceByCharAt(Lower(Strip(line)), ' ', '-');
  }

  /** Normalising keeps an umlaut as it is: the line "Hans Müller" becomes "hans-müller", not "hans-mueller". */
  lemma NormalizeKeepsUmlaut(line: string)
    requires line == "Hans Müller\n"
    ensures NormalizeName(line) == "hans-müller"
  {
    StripExample(line);
    NormalizeExample(Strip(line));
  }

  /** Lowercasing "Hans Müller" and turning its space into "-" gives "hans-müller". */
  lemma NormalizeExample(stripped: string)
    requires stripped == "Hans Müller"
    ensures ReplaceAll(Lower(stripped), ' ', "-") == "hans-müller"
  {
    var lowered := Lower(stripped);
    ReplaceByCharAt(lowered, ' ', '-');
    var name := ReplaceAll(lowered, ' ', "-");
    assert |name| == 11;
    assert name[0] == 'h' && name[1] == 'a' && name[2] == 'n' && name[3] == 's';
    assert name[4] == '-';
    assert name[5] == 'm' && name[6] == 'ü' && name[7] == 'l';
    assert name[8] == 'l' && name[9] == 'e' && name[10] == 'r';
  }

  lemma StripExample(line: string)
    requires line == "Hans Müller\n"
    ensures Strip(line) == "Hans Müller"
  {
    assert TrimStart(line) == line;
    var name := line[..|line| - 1];
    assert name == "Hans Müller";
    assert TrimEnd(name) == name by { assert name[|name| - 1] == 'r'; }
    assert TrimEnd(line) == TrimEnd(name) by { assert line[|line| - 1] == '\n'; }
  }

  /** The portrait URL derived from a line of the names file. */
  function PortraitUrl(line: string): string {
    BaseUrl + NormalizeName(line)
  }

  /** `generate_urls_from_names`: two URLs per line, in line order, the plain one first and then its "-0" variant. */
  method GenerateUrls(lines: seq<string>) returns (urls: seq<string>)
    ensures |urls| == 2 * |lines|
    ensures forall i :: 0 <= i < |lines| ==>
      urls[2 * i] == PortraitUrl(lines[i]) && urls[2 * i + 1] == PortraitUrl(lines[i]) + RetrySuffix
  {
    var baseUrl := BaseUrl;
    urls := [];
    for n := 0 to |lines|
      invariant |urls| == 2 * n
      invariant forall i :: 0 <= i < n ==>
        urls[2 * i] == PortraitUrl(lines[i]) && urls[2 * i + 1] == PortraitUrl(lines[i]) + RetrySuffix
    {
      var name := NormalizeName(lines[n]);
      ghost var before := urls;
      urls := urls + [baseUrl + name];
      urls := urls + [baseUrl + name + RetrySuffix];
      assert urls == before + [PortraitUrl(lines[n]), PortraitUrl(lines[n]) + RetrySuffix];
      forall i | 0 <= i < n + 1
        ensures urls[2 * i] == PortraitUrl(lines[i]) && urls[2 * i + 1] == PortraitUrl(lines[i]) + RetrySuffix
      {
        if i < n {
          assert urls[2 * i] == before[2 * i] && urls[2 * i + 1] == before[2 * i + 1];
        }
      }
    }
  }

  /** The wait of `scrape_portrait` ends when a table body or an error banner is present. */
  predicate Waited(page: Page) {
    page.tbody.Some? || page.banner.Some?
  }

  /** The error banner says the page does not exist. */
  predicate NotFound(page: Page) {
    page.banner.Some? && Contains(page.banner.value, NotFoundPhrase)
  }

  /** What `scrape_portrait` returns for what navigation gave. */
  function Scraped(fetch: Fetch): Option<Record> {
    match fetch
    case Rendered(page) => if !Waited(page) || NotFound(page) then None else Some(RecordOf(page))
    case _ => None
  }

  /**
   `scrape_portrait`: nothing on a load timeout, a driver error or a lost
   session (its handlers only log the URL), when neither a
   table nor a banner appears, or when the banner reports a missing page;
   otherwise the page's record, even under a banner with other text.
   */
  method ScrapePortrait(fetch: Fetch) returns (data: Option<Record>)
    ensures data.None? <==> !fetch.Rendered? || !Waited(fetch.page) || NotFound(fetch.page)
    ensures data.Some? ==> data.value == RecordOf(fetch.page) && NameKey in data.value
    ensures data == Scraped(fetch)
  {
    match fetch
    case Rendered(page) =>
      if page.tbody.None? && page.banner.None? {
        return None;
      }
      if page.banner.Some? && Contains(page.banner.value, NotFoundPhrase) {
        return None;
      }
      var record := ExtractRecord(page);
      return Some(record);
    case LoadTimeout =>
      return None;
    case DriverError =>
      return None;
    case SessionLost =>
      return None;
  }

  /**
   What navigation to `url` gives: the site's answer while the browser
   session lives; once it is lost, every `driver.get` raises as a lost
   session does.
   */
  function Visit(site: string -> Fetch, url: string, alive: bool): Fetch {
    if alive then site(url) else SessionLost
  }

  /** What `scrape_name` returns on a live session: the first of the two attempts that produced a record. */
  function FirstFound(site: string -> Fetch, base: string, name: string): Option<Record> {
    var first := site(base + name);
    if Scraped(first).Some? then Scraped(first)
    else Scraped(Visit(site, base + name + RetrySuffix, !first.SessionLost?))
  }

  /** Scraping `name` on a live session loses the session, on the plain URL or on the "-0" URL tried after it. */
  predicate LosesSession(site: string -> Fetch, base: string, name: string) {
    site(base + name).SessionLost?
    || (Scraped(site(base + name)).None? && site(base + name + RetrySuffix).SessionLost?)
  }

  /** What scraping a URL name under `base` gets on a live session. */
  function Found(site: string -> Fetch, base: string): string -> Option<Record> {
    name => FirstFound(site, base, name)
  }

  /** Whether scraping a URL name under `base` on a live session loses it. */
  function Lost(site: string -> Fetch, base: string): string -> bool {
    name => LosesSession(site, base, name)
  }

  /**
   `scrape_name`: tries `base + name`, and only when that gives nothing tries
   `base + name + "-0"`; returns what the last attempt gave. `tried` lists the
   URLs visited, in order; `alive` says whether the session lives before the
   call, `stillAlive` whether it lives after it.
   */
  method ScrapeName(site: string -> Fetch, base: string, name: string, alive: bool)
    returns (data: Option<Record>, tried: seq<string>, stillAlive: bool)
    ensures 1 <= |tried| <= 2 && tried[0] == base + name
    ensures |tried| == 2 <==> !alive || Scraped(site(base + name)).None?
    ensures |tried| == 2 ==> tried[1] == base + name + RetrySuffix
    ensures data.Some? ==> alive && data == Scraped(site(tried[|tried| - 1])) && NameKey in data.value
    ensures alive ==> data == Found(site, base)(name)
    ensures !alive ==> data.None?
    ensures stillAlive <==> alive && !Lost(site, base)(name)
  {
    var url := base + name;
    tried := [url];
    var fetch := Visit(site, url, alive);
    data := ScrapePortrait(fetch);
    stillAlive := alive && !fetch.SessionLost?;
    if data.None? {
      var withSuffix := url + RetrySuffix;
      tried := tried + [withSuffix];
      fetch := Visit(site, withSuffix, stillAlive);
      data := ScrapePortrait(fetch);
      stillAlive := stillAlive && !fetch.SessionLost?;
    }
  }

  /**
   A "not found" banner on the plain URL leaves the result entirely to the
   "-0" URL: a record comes from that page and from nowhere else.
   */
  lemma NotFoundFallsBackToSuffix(site: string -> Fetch, base: string, name: string)
    requires site(base + name).Rendered? && NotFound(site(base + name).page)
    ensures FirstFound(site, base, name) == Scraped(site(base + name + RetrySuffix))
    ensures FirstFound(site, base, name).Some? ==>
      FirstFound(site, base, name).value == RecordOf(site(base + name + RetrySuffix).page)
  {
  }

  /** The URL names `main` derives from the lines of the name list, one per line. */
  function Names(lines: seq<string>): (names: seq<string>)
    ensures |names| == |lines|
    decreases |lines|
  {
    if lines == [] then [] else Names(lines[..|lines| - 1]) + [NormalizeName(lines[|lines| - 1])]
  }

  /** The name at position `i` is line `i` normalised. */
  lemma {:induction false} NamesAt(lines: seq<string>, i: int)
    requires 0 <= i < |lines|
    ensures Names(lines)[i] == NormalizeName(lines[i])
    decreases |lines|
  {
    if i < |lines| - 1 {
      NamesAt(lines[..|lines| - 1], i);
    }
  }

  /** What the loop of `main` collects: one record per name that gave one, in name order. */
  function Collected(site: string -> Fetch, names: seq<string>): (all: seq<Record>)
    ensures |all| <= |names|
  {
    Gather(Found(site, BaseUrl), names)
  }

  /** Every collected record carries `Name`, so each is truthy and none is dropped by the `if` of `main`. */
  lemma CollectedHaveName(site: string -> Fetch, names: seq<string>)
    ensures forall r :: r in Collected(site, names) ==> NameKey in r
  {
    forall r | r in Collected(site, names) ensures NameKey in r {
      GatherFrom(Found(site, BaseUrl), names, r);
      var i :| 0 <= i < |names| && Found(site, BaseUrl)(names[i]) == Some(r);
      assert Found(site, BaseUrl)(names[i]) == FirstFound(site, BaseUrl, names[i]);
    }
  }

  /** Collecting distributes over concatenation of the name list: records keep the order of their names. */
  lemma CollectedAppend(site: string -> Fetch, a: seq<string>, b: seq<string>)
    ensures Collected(site, a + b) == Collected(site, a) + Collected(site, b)
  {
    GatherAppend(Found(site, BaseUrl), a, b);
  }

  /** The CSV `save_to_csv` writes for the name-list scraper. */
  ghost predicate NameListCsv(data: seq<Record>, table: Table) {
    |table.header| > 0 && table.header[0] == NameKey
    && StrictlySorted(table.header[1..])
    && NoDuplicates(table.header)
    && (forall k :: k in table.header <==> k == NameKey || SomeRecordHas(data, k))
    && RowsOf(data, table)
  }

  /** The header is fixed by the records: two such CSVs of the same records are the same. */
  lemma NameListCsvUnique(data: seq<Record>, t1: Table, t2: Table)
    requires NameListCsv(data, t1) && NameListCsv(data, t2)
    ensures t1 == t2
  {
    var h1, h2 := t1.header[1..], t2.header[1..];
    forall k | k in h1 ensures k in h2 {
      TailMember(data, t1, t2, k);
    }
    forall k | k in h2 ensures k in h1 {
      TailMember(data, t2, t1, k);
    }
    SortedUnique(h1, h2);
    assert t1.header == [NameKey] + h1 && t2.header == [NameKey] + h2;
    assert t1.rows == t2.rows;
  }

  lemma TailMember(data: seq<Record>, t1: Table, t2: Table, k: string)
    requires NameListCsv(data, t1) && NameListCsv(data, t2)
    requires k in t1.header[1..]
    ensures k in t2.header[1..]
  {
    var i :| 1 <= i < |t1.header| && t1.header[i] == k;
    assert t1.header[0] != t1.header[i];
    assert k in t1.header;
    var j :| 0 <= j < |t2.header| && t2.header[j] == k;
    assert j != 0;
    assert t2.header[1..][j - 1] == k;
  }

  /** `['Name'] + sorted(key for key in keys if key != 'Name')` holds each key once and no other. */
  lemma NameFirstHeader(data: seq<Record>, keys: set<string>, rest: seq<string>)
    requires forall i :: 0 <= i < |data| ==> data[i].Keys <= keys
    requires forall k :: k in keys ==> SomeRecordHas(data, k)
    requires StrictlySorted(rest)
    requires forall k :: k in rest <==> k in keys && k != NameKey
    ensures NoDuplicates([NameKey] + rest)
    ensures forall k :: k in [NameKey] + rest <==> k == NameKey || SomeRecordHas(data, k)
  {
    var header := [NameKey] + rest;
    forall i, j | 0 <= i < j < |header| ensures header[i] != header[j] {
      if i > 0 {
        SortedNoDuplicates(rest, i - 1, j - 1);
      } else {
        assert header[j] in rest;
      }
    }
    forall k ensures k in header <==> k == NameKey || SomeRecordHas(data, k) {
      if SomeRecordHas(data, k) {
        var i :| 0 <= i < |data| && k in data[i];
        assert k in data[i].Keys;
      }
    }
  }

  /**
   `save_to_csv`: nothing for no records; otherwise the header is `Name` and
   then every other key of the records in ascending order, each once, and one
   row per record in record order with "" for missing keys.
   */
  method SaveToCsv(data: seq<Record>) returns (table: Option<Table>)
    ensures table.None? <==> data == []
    ensures table.Some? ==> NameListCsv(data, table.value)
  {
    if data == [] {
      return None;
    }
    var keys := UnionKeys(data);
    var others := keys - {NameKey};
    var rest := SortKeys(others);
    var header := [NameKey] + rest;
    var rows := seq(|data|, i requires 0 <= i < |data| => Cells(data[i], header));
    NameListTable(data, keys, rest, rows);
    return Some(Table(header, rows));
  }

  lemma NameListTable(data: seq<Record>, keys: set<string>, rest: seq<string>, rows: seq<seq<string>>)
    requires forall i :: 0 <= i < |data| ==> data[i].Keys <= keys
    requires forall k :: k in keys ==> SomeRecordHas(data, k)
    requires StrictlySorted(rest)
    requires forall k :: k in rest <==> k in keys && k != NameKey
    requires |rows| == |data| && forall i :: 0 <= i < |data| ==> rows[i] == Cells(data[i], [NameKey] + rest)
    ensures NameListCsv(data, Table([NameKey] + rest, rows))
  {
    assert ([NameKey] + rest)[1..] == rest;
    NameFirstHeader(data, keys, rest);
  }

  /** Each written row reads back as its record without the empty fields. */
  lemma NameListReadsBack(data: seq<Record>, table: Table, i: int)
    requires NameListCsv(data, table) && 0 <= i < |data|
    ensures ReadBack(table.header, table.rows[i]) == map k | k in data[i] && data[i][k] != "" :: data[i][k]
  {
    RowReadsBack(data, table, i);
  }

  /**
   One pass of the loop of `main` over a URL name: scrape it and keep the
   record when it is truthy. On a live session the record is what `Found`
   gives, and the session survives unless the name loses it; on a lost one
   nothing is kept.
   */
  method Pass(site: string -> Fetch, name: string, alive: bool, allData: seq<Record>)
    returns (allData': seq<Record>, stillAlive: bool)
    ensures allData' == allData + (if alive && Found(site, BaseUrl)(name).Some? then [Found(site, BaseUrl)(name).value] else [])
    ensures stillAlive <==> alive && !Lost(site, BaseUrl)(name)
  {
    var data, _, after := ScrapeName(site, BaseUrl, name, alive);
    allData' := allData;
    if data.Some? && data.value != map[] {
      allData' := allData' + [data.value];
    }
    stillAlive := after;
  }

  /**
   The loop of `main`: each line normalised and scraped, a record kept when it
   is truthy, in line order; the CSV written only when something was collected.
   Once a name loses the browser session, every later scrape fails and is
   logged, so the records are those of the names before it.
   */
  method Run(site: string -> Fetch, lines: seq<string>) returns (allData: seq<Record>, table: Option<Table>)
    ensures allData == Collected(site, Names(lines)[..FirstWhere(Lost(site, BaseUrl), Names(lines))])
    ensures table.Some? <==> allData != []
    ensures table.Some? ==> NameListCsv(allData, table.value)
  {
    var names := Names(lines);
    ghost var k := FirstWhere(Lost(site, BaseUrl), names);
    var alive := true;
    allData := [];
    for n := 0 to |names|
      invariant alive ==> allData == Collected(site, names[..n])
      invariant alive ==> forall j :: 0 <= j < n ==> !Lost(site, BaseUrl)(names[j])
      invariant !alive ==> k < n && allData == Collected(site, names[..k])
    {
      var name := names[n];
      if alive {
        GatherStep(Found(site, BaseUrl), names, n);
        FirstWhereStep(Lost(site, BaseUrl), names, n);
      }
      allData, alive := Pass(site, name, alive, allData);
    }
    if alive {
      assert names[..|names|] == names;
      FirstWhereAt(Lost(site, BaseUrl), names, |names|);
    }
    if allData != [] {
      table := SaveToCsv(allData);
    } else {
      table := None;
    }
  }
}
