# Schlussgang portrait scrapers and name changer, modelled in Dafny

This project models three Python scripts:

- `namechanger.py` cleans up a list of wrestlers' names. It drops every line
  that mentions "portrait" in any letter case. It replaces the German umlauts
  ü, ä, ö, Ü, Ä, Ö with ue, ae, oe, Ue, Ae, Oe. For a line of two or more
  words, it moves the last word (the first name) to the front.
- `scraper_selenium_namelist.py` turns each name of a names file into a
  portrait URL on schlussgang.ch. It scrapes that URL, and falls back once to
  the "-0" variant of the URL. It then writes the records it collected as a
  CSV file. The header is `Name` followed by every other key in ascending
  order. The script also defines `generate_urls_from_names`, which builds
  the plain and "-0" URL of each name, but nothing calls it: `main`
  normalises each line itself (scraper_selenium_namelist.py:198).
- `scraper_selenium.py` opens the portrait listing and scrolls until the page
  stops growing. It collects the portrait links, scrapes each one, and writes
  a CSV file whose header is the union of the keys in set order.

The browser, the HTML parser and the files are not modelled as such:

- A portrait page as the parser sees it is a `Page`: the text of the first
  `h1`, the text of the first error banner (`alert-danger`), and the rows of
  the first `tbody`. Each row has an optional `th` text and an optional `td`
  text.
- Navigating to a URL gives a `Fetch`: a rendered page, a load timeout, a
  driver error after which the browser still answers, or a lost session
  after which every further call on the driver raises as well. The browser
  is an oracle `site: string -> Fetch`.
- The link scraper's exception handlers log a piece of `driver.page_source`.
  After a lost session that call raises, the exception leaves
  `scrape_portrait` and reaches the handler of `main`, and no CSV is
  written. The model's `LinkScraper.Run` ends the same way. The name-list
  scraper's handlers only log the URL, so there a lost session gives no
  record and the loop goes on; but every later navigation raises too, so
  no later name gives a record either. `NameListScraper.Run` carries
  whether the session still lives from one name to the next.
- The explicit wait is part of the model. The name-list scraper proceeds once a
  table body or a banner is present. The link scraper waits for a table body
  only. So in the link scraper the "table not found" branch cannot be reached
  after a successful wait.
- The listing page is a `Listing`: the heights the document reports before and
  after each scroll, and the anchors it holds after k scrolls.
- A text file is the sequence of its lines, each with its line terminator, as
  Python's file iteration gives them. A written file is the value returned.
  A CSV file is a `Table`: a header and one row of cells per record.

Both scrapers share their row-extraction code line for line, so it is
modelled once, in `Records`. The Python string operations used
(`isspace`, `strip`, `split`, `join`, `lower`, `replace`, `in`, `<` on `str`)
are modelled in `PyStr` and `Order`.

Turning a name into its URL form keeps umlauts: the code only strips,
lowercases and replaces spaces, so "Hans Müller" becomes "hans-müller", not
"hans-mueller". `NameListScraper.NormalizeKeepsUmlaut` proves this.

## Model

| member | source | states |
|---|---|---|
| `PyStr.Lower` | scraper_selenium_namelist.py:198 | `str.lower` keeps the length, leaves no ASCII or Latin-1 capital, turns each capital into its small letter and keeps every other character in place |
| `PyStr.ContainsOccurs` | namechanger.py:15 | `sub in s` holds exactly when `sub` occurs in `s` at some position |
| `PyStr.Strip` | namechanger.py:21 | `str.strip` returns a slice of the text; only whitespace is cut off before and after it, and the slice neither starts nor ends with whitespace |
| `PyStr.TrimStart` | namechanger.py:21 | the leading part `strip` removes is all whitespace, and what is left starts with a non-space |
| `PyStr.TrimEnd` | namechanger.py:21 | the trailing part `strip` removes is all whitespace, and what is left ends with a non-space |
| `PyStr.Words` | namechanger.py:21 | every word of `str.split()` is non-empty, holds no whitespace, and takes its characters from the text |
| `PyStr.WordsEmpty` | namechanger.py:21 | `str.split()` gives no words exactly when the text is all whitespace |
| `PyStr.WordsSplitAtSpace` | namechanger.py:21 | a whitespace character splits the text: the words are those before it followed by those after it |
| `PyStr.WordsOfJoin` | namechanger.py:24 | splitting words joined by single spaces gives the same words back |
| `PyStr.WordsTrailingSpace` | namechanger.py:24 | trailing whitespace such as the added newline does not change the words |
| `PyStr.ReplaceAllAppend` | namechanger.py:18 | `str.replace` of one character distributes over concatenation |
| `PyStr.ReplaceAllAbsent` | namechanger.py:18 | replacing a character that does not occur changes nothing |
| `PyStr.ReplaceByCharAt` | scraper_selenium_namelist.py:198 | replacing a character by one character keeps the length and changes exactly the positions that held it |
| `NameChanger.TransliterateRemovesUmlauts` | namechanger.py:17-18 | after the umlaut replacement no ü, ä, ö, Ü, Ä or Ö remains |
| `NameChanger.TransliterateIdentity` | namechanger.py:17-18 | a line without umlauts is left as it is |
| `NameChanger.TransliterateAppend` | namechanger.py:17-18 | the replacement works character by character, so it distributes over concatenation |
| `NameChanger.ApplyPairsIsTranslate` | namechanger.py:17-18 | one `replace` per table entry in turn equals a single pass mapping each character, when no replacement text holds a later entry's character |
| `NameChanger.TranslateUmlautMap` | namechanger.py:4-11 | the six-entry umlaut table maps each umlaut to its two-letter form and leaves other characters alone |
| `NameChanger.UmlautLoopIsTransliterate` | namechanger.py:17-18 | the replacement loop over the umlaut table equals replacing each umlaut by its digraph in one pass |
| `NameChanger.LastFirst` | namechanger.py:23 | moving the last word to the front keeps the number of words and the words themselves |
| `NameChanger.Rewrite` | namechanger.py:16-24 | a rewritten line holds no umlaut; a line of at most one word is only transliterated and keeps its own line ending |
| `NameChanger.RotatedWordsNoUmlaut` | namechanger.py:23-24 | rejoining umlaut-free words with the last word first gives a line without umlauts |
| `NameChanger.WordsNoUmlaut` | namechanger.py:21 | the words of a line without umlauts have none either |
| `NameChanger.WordOfNoUmlaut` | namechanger.py:21 | a single word of a line without umlauts has none |
| `NameChanger.JoinNoUmlaut` | namechanger.py:24 | joining umlaut-free words with spaces gives a line without umlauts |
| `NameChanger.RewriteMovesLastWordFirst` | namechanger.py:21-24 | a line of two or more words comes out as its last word, then the others in order, joined by single spaces and ended by a newline; its words are the rotated words |
| `NameChanger.RotatedLine` | namechanger.py:23-24 | words joined by single spaces after moving the last one first, plus a newline, split back into exactly the rotated words |
| `NameChanger.RewriteKeepsWords` | namechanger.py:21-24 | rewriting keeps the number of words and the words themselves |
| `NameChanger.WordsOfStrip` | namechanger.py:21 | stripping a line before splitting it does not change its words |
| `NameChanger.WordsOfTrimStart` | namechanger.py:21 | removing leading whitespace does not change the words |
| `NameChanger.WordsOfTrimEnd` | namechanger.py:21 | removing trailing whitespace does not change the words |
| `NameChanger.WordsOfLeadingSpace` | namechanger.py:21 | whitespace in front of a text does not change its words |
| `NameChanger.Kept` | namechanger.py:14-15 | a line is written exactly when its lowercase form does not contain "portrait"; no line is added |
| `NameChanger.KeptAppend` | namechanger.py:14-15 | the filter works line by line, in file order |
| `NameChanger.OutputOfKept` | namechanger.py:14-26 | the written lines are the kept lines, each rewritten, in order |
| `NameChanger.OutputStep` | namechanger.py:14-26 | each further input line adds its rewritten form to the output, unless it mentions "portrait" |
| `NameChanger.ReplaceUmlauts` | namechanger.py:17-18 | the substitution loop over the umlaut table leaves the line transliterated |
| `NameChanger.ProcessText` | namechanger.py:13-26 | the loop writes one line per kept input line, in order, each rewritten |
| `Order.LessIrreflexive` | scraper_selenium_namelist.py:176 | no string sorts before itself |
| `Order.LessTransitive` | scraper_selenium_namelist.py:176 | string order is transitive |
| `Order.LessTotal` | scraper_selenium_namelist.py:176 | of two different strings one sorts before the other |
| `Order.SortedNoDuplicates` | scraper_selenium_namelist.py:176 | a strictly ascending list holds no key twice |
| `Order.SortedCons` | scraper_selenium_namelist.py:176 | a key smaller than everything in a sorted list can go in front |
| `Order.Insert` | scraper_selenium_namelist.py:176 | inserting into a sorted list keeps it sorted and adds exactly that key |
| `Order.SortedUnique` | scraper_selenium_namelist.py:176 | two sorted lists with the same keys are equal, so `sorted` of a set has one answer |
| `Order.SortKeys` | scraper_selenium_namelist.py:176 | `sorted` of a set lists each key once, in strictly ascending order |
| `Records.LabelsSnoc` | scraper_selenium_namelist.py:138-144 | another row adds its label to the record's keys exactly when it has both cells |
| `Records.Fields` | scraper_selenium_namelist.py:133-144 | the record built from a heading and rows always has `Name` |
| `Records.FieldsStep` | scraper_selenium_namelist.py:138-144 | one turn of the row loop sets the row's label to its value when it has both cells, and skips it otherwise |
| `Records.FieldsKeys` | scraper_selenium_namelist.py:133-144 | the record's keys are `Name` and the labels of the complete rows, and nothing else |
| `Records.FieldsValues` | scraper_selenium_namelist.py:133-144 | each field holds the value of the last complete row with its label, or the heading when no row has it |
| `Records.LastValueAt` | scraper_selenium_namelist.py:138-144 | the last complete row with a label supplies that label's value |
| `Records.LastRowWins` | scraper_selenium_namelist.py:138-144 | a field keeps the value of the last complete row with its label |
| `Records.NameFromHeading` | scraper_selenium_namelist.py:133 | without a row labelled `Name`, the field `Name` keeps the heading value it was seeded with |
| `Records.NoTableRecord` | scraper_selenium.py:118-132 | a page without a table body gives just `{Name: heading}` |
| `Records.ExtractRecord` | scraper_selenium_namelist.py:133-145 | the record has `Name` and the label of every complete row and no other key; each holds the last such row's value, or the heading |
| `Csv.UnionKeys` | scraper_selenium_namelist.py:172-174 | the key set holds every key of every record, and only such keys |
| `Csv.Cells` | scraper_selenium_namelist.py:179-181 | a written row has one cell per header column |
| `Csv.CellsRoundTrip` | scraper_selenium_namelist.py:179-181 | reading a row back under a header that holds each key once gives the record minus its empty fields |
| `Csv.RowReadsBack` | scraper_selenium_namelist.py:179-181 | each row of a table whose header covers all keys reads back as its record minus its empty fields |
| `Csv.ListOf` | scraper_selenium.py:240 | `list(keys)` holds each key of the set once, in some order |
| `NameListScraper.NormalizeNameChars` | scraper_selenium_namelist.py:198 | the URL name has no space; it is the stripped line with each space turned into "-" and each other character lowercased |
| `NameListScraper.StripExample` | scraper_selenium_namelist.py:198 | stripping the line "Hans Müller" with its newline gives "Hans Müller" |
| `NameListScraper.NormalizeKeepsUmlaut` | scraper_selenium_namelist.py:198 | the line "Hans Müller" with its newline becomes "hans-müller": the umlaut is kept |
| `NameListScraper.NormalizeExample` | scraper_selenium_namelist.py:198 | lowercasing "Hans Müller" and turning its space into "-" gives "hans-müller" |
| `NameListScraper.GenerateUrls` | scraper_selenium_namelist.py:65-73 | two URLs per line in line order: the base URL plus the name, then the same with "-0" |
| `NameListScraper.ScrapePortrait` | scraper_selenium_namelist.py:112-156 | no record exactly on a timeout, a driver error, a lost session, a page with neither table nor banner, or a "Seite nicht gefunden" banner; otherwise the page's record, which has `Name` |
| `NameListScraper.ScrapeName` | scraper_selenium_namelist.py:158-165 | the plain URL is tried first and the "-0" URL only when the session is lost or the plain URL gives nothing; on a live session the result is the first record found (`Found`), it comes from the last URL tried and has `Name`; on a lost session there is no record; the session survives exactly when it was alive and neither attempt lost it |
| `NameListScraper.NotFoundFallsBackToSuffix` | scraper_selenium_namelist.py:158-165 | after a "not found" banner on the plain URL the result comes from the "-0" page alone |
| `NameListScraper.NamesAt` | scraper_selenium_namelist.py:197-198 | the URL name of each line is that line normalised, position by position |
| `NameListScraper.Collected` | scraper_selenium_namelist.py:199-204 | at most one record per URL name |
| `NameListScraper.CollectedHaveName` | scraper_selenium_namelist.py:199-201 | every collected record has `Name`, so none is dropped as empty |
| `NameListScraper.CollectedAppend` | scraper_selenium_namelist.py:199-204 | records are collected name by name, in name order |
| `NameListScraper.NameListCsvUnique` | scraper_selenium_namelist.py:176-181 | the CSV written for a list of records is fully determined by the records |
| `NameListScraper.TailMember` | scraper_selenium_namelist.py:176 | a key after `Name` in one valid header is after `Name` in any other |
| `NameListScraper.NameFirstHeader` | scraper_selenium_namelist.py:176 | `Name` followed by the sorted other keys holds each key of the records once, and `Name` |
| `NameListScraper.SaveToCsv` | scraper_selenium_namelist.py:167-181 | nothing is written for no records; otherwise the header is `Name` then the other keys in strictly ascending order, each once, with one row per record |
| `NameListScraper.NameListTable` | scraper_selenium_namelist.py:176-181 | the header and rows built by `save_to_csv` form the CSV described above |
| `NameListScraper.NameListReadsBack` | scraper_selenium_namelist.py:178-181 | each row of the written CSV reads back as its record minus its empty fields |
| `NameListScraper.Pass` | scraper_selenium_namelist.py:199-204 | one pass of the loop appends the name's record exactly when the session is alive and the name gives one, and the session survives exactly when the name does not lose it |
| `NameListScraper.Run` | scraper_selenium_namelist.py:194-211 | the collected records are those of the normalised names before the first name that loses the session, in line order, and a CSV is written exactly when there are some |
| `LinkScraper.ScrollUntilStable` | scraper_selenium.py:75-82 | scrolling stops at the first scroll that leaves the height unchanged |
| `LinkScraper.PortraitLinks` | scraper_selenium.py:85-88 | at most one link per anchor; each contains "portraet" and is not "/portraet" |
| `LinkScraper.PortraitLinksAppend` | scraper_selenium.py:88 | links keep the document order of their anchors, duplicates included |
| `LinkScraper.PortraitLinksMembers` | scraper_selenium.py:85-88 | a string is returned exactly when some anchor has it as `href`, it contains "portraet" and it is not "/portraet" |
| `LinkScraper.GetPortraitLinks` | scraper_selenium.py:65-100 | no links on a timeout or driver error; otherwise the links of the page as it stands after the first scroll that did not grow it |
| `LinkScraper.ScrapePortrait` | scraper_selenium.py:102-143 | an exception escapes exactly after a lost session; otherwise no record exactly on a timeout, a driver error or a page without a table body, and else the page's record, keyed by `Name` and the row labels |
| `LinkScraper.AgreeWithoutBanner` | scraper_selenium.py:107-109 | on pages without an error banner both scrapers return the same record |
| `LinkScraper.BannerIgnored` | scraper_selenium.py:107-109 | a "not found" banner over a table stops the name-list scraper but not the link scraper |
| `LinkScraper.Collected` | scraper_selenium.py:261-266 | at most one record per link |
| `LinkScraper.CollectedHaveName` | scraper_selenium.py:264-266 | every collected record has `Name`, so none is dropped as empty |
| `LinkScraper.CollectedAppend` | scraper_selenium.py:262-266 | records are collected link by link, in link order |
| `LinkScraper.SaveToCsv` | scraper_selenium.py:230-242 | nothing is written for no records; otherwise a header holding every key of the records once, in any order, with one row per record |
| `LinkScraper.UnorderedTable` | scraper_selenium.py:235-242 | the header and rows built by `save_to_csv` form the CSV described above |
| `LinkScraper.UnorderedReadsBack` | scraper_selenium.py:240-242 | each row of the written CSV reads back as its record minus its empty fields |
| `LinkScraper.HeadersAgree` | scraper_selenium.py:235-240 | for records that all have `Name`, both scrapers' headers are permutations of each other |
| `LinkScraper.CountDistinct` | scraper_selenium.py:240 | in a header without duplicates each key occurs once or not at all |
| `Seqs.FirstWhere` | scraper_selenium.py:261-267 | the position of the first link (or name) that loses the session: no earlier one does, and the one there does, or there is none |
| `Seqs.FirstWhereAt` | scraper_selenium_namelist.py:196-204 | the first lost position is unique: a position with no lost session before it and one at it, or the end of the list, is that position |
| `LinkScraper.Run` | scraper_selenium.py:253-276 | the links come from the page after the first scroll that did not grow it; nothing is scraped without links; the records are those of the links before the first lost session, in order; after a lost session no CSV is written, and otherwise one is written exactly when there are records |

## Left out

- Browser setup (`setup_driver`, `download_ublock`), the sleeps between
  requests and `driver.quit` are not modelled. Logging is not modelled
  except where a log message reads the browser, as the link scraper's
  handlers do; that is the `SessionLost` outcome. The wait timeouts
  (30 s, 45 s) are a `LoadTimeout` outcome.
- HTML parsing and CSS selection are library code. A page is given already
  parsed (`Page`, `Anchor`). The text of an element is taken as given.
- Reading and writing files, CSV quoting and escaping, and the command-line
  handling of `namechanger.py` (lines 28-37) are I/O. Files are sequences of
  lines and written tables are returned values.
- The outer `try`/`except` of both `main` functions is modelled only for
  the exception a lost session raises in the link scraper. Other failures
  of the browser are `Fetch` and `Listing` outcomes. A failure while
  writing the CSV is not modelled.
- The key order inside a record is not modelled, since Python's dict order
  does not reach the output: the header order comes from `save_to_csv`.
- PyStr.Lower: lowercases ASCII and Latin-1 capitals only; other scripts'
  capitals are kept. The "portrait" test is unaffected, but a name in another
  script would be normalised differently.
- LinkScraper.ScrollUntilStable: requires that some scroll leaves the height
  unchanged; on a page that grows forever the Python loop never ends.
- LinkScraper.GetPortraitLinks: the anchors present after each scroll are
  given with the listing; how scrolling loads them is not modelled.
- `get_portrait_links` also appears in scraper_selenium_namelist.py:75-110,
  where nothing calls it; it is modelled once, in `LinkScraper`.
- stats.py and the debug scripts are not part of this model.
