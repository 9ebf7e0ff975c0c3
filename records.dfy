/**
 A portrait page as both scrapers see it once the browser has rendered it and
 the HTML has been parsed, and the record (a Python dict from field name to
 field value) that they build from it. Both scripts share the extraction code
 word for word (scraper_selenium_namelist.py:133-145 and
 scraper_selenium.py:118-130), so it is modelled once here.
 */
module Records {
  import opened Wrappers
  import opened PyStr

  /** A scraped record. Python's dict keeps insertion order, but nothing downstream depends on it. */
  type Record = map<string, string>

  /** One `tr` of the table body: the text of its first `th` and of its first `td`, when present. */
  datatype Row = Row(th: Option<string>, td: Option<string>)

  /**
   A rendered page: the text of the first `h1`, the text of the first element of
   class `alert-danger` (the site's error banner), and the rows of the first `tbody`.
   */
  datatype Page = Page(h1: Option<string>, banner: Option<string>, tbody: Option<seq<Row>>)

  /**
   What navigating to a URL gives: a rendered page, a timeout, a browser-driver
   error after which the browser still answers, or a lost session, after which
   every further call on the driver (reading the page source, say) raises too.
   */
  datatype Fetch = Rendered(page: Page) | LoadTimeout | DriverError | SessionLost

  const NameKey := "Name"
  const NamePlaceholder := "N/A"

  /** The value `Name` starts with: the stripped heading, or "N/A" without one. */
  function Heading(page: Page): string {
    if page.h1.Some? then Strip(page.h1.value) else NamePlaceholder
  }

  function Rows(page: Page): seq<Row> {
    if page.tbody.Some? then page.tbody.value else []
  }

  /** A row that has both a label cell and a value cell; other rows are skipped. */
  predicate Complete(row: Row) {
    row.th.Some? && row.td.Some?
  }

  function Label(row: Row): string
    requires Complete(row)
  {
    Strip(row.th.value)
  }

  function Cell(row: Row): string
    requires Complete(row)
  {
    Strip(row.td.value)
  }

  /** The stripped labels of the complete rows. */
  function Labels(rows: seq<Row>): set<string> {
    set row | row in rows && Complete(row) :: Label(row)
  }

  /** The value of the last complete row labelled `key`, if there is one. */
  function LastValue(rows: seq<Row>, key: string): Option<string>
    decreases |rows|
  {
    if rows == [] then None
    else
      var row := rows[|rows| - 1];
      if Complete(row) && Label(row) == key then Some(Cell(row)) else LastValue(rows[..|rows| - 1], key)
  }

  /**
   The record built from a heading value and table rows, row after row:
   `Name` first, then each complete row sets its label to its value.
   */
  function Fields(heading: string, rows: seq<Row>): (record: Record)
    ensures NameKey in record
    decreases |rows|
  {
    if rows == [] then map[NameKey := heading]
    else
      var m := Fields(heading, rows[..|rows| - 1]);
      var row := rows[|rows| - 1];
      if Complete(row) then m[Label(row) := Cell(row)] else m
  }

  /** The record a page yields. */
  function RecordOf(page: Page): Record {
    Fields(Heading(page), Rows(page))
  }

  lemma LabelsSnoc(rows: seq<Row>, row: Row)
    ensures Labels(rows + [row]) == Labels(rows) + (if Complete(row) then {Label(row)} else {})
  {
    var all := rows + [row];
    forall r | r in all ensures r in rows || r == row {
    }
    forall r | r in rows ensures r in all {
    }
  }

  /** One turn of the row loop: the next row acts as `data[key] = value`, or is skipped when a cell is missing. */
  lemma FieldsStep(heading: string, rows: seq<Row>, i: int)
    requires 0 <= i < |rows|
    ensures Fields(heading, rows[..i + 1])
         == if Complete(rows[i]) then Fields(heading, rows[..i])[Label(rows[i]) := Cell(rows[i])]
            else Fields(heading, rows[..i])
  {
    var upTo := rows[..i + 1];
    assert upTo[..|upTo| - 1] == rows[..i] && upTo[|upTo| - 1] == rows[i];
  }

  /** The record's keys are `Name` and the labels of the complete rows. */
  lemma {:induction false} FieldsKeys(heading: string, rows: seq<Row>)
    ensures Fields(heading, rows).Keys == {NameKey} + Labels(rows)
    decreases |rows|
  {
    if rows != [] {
      var init, last := rows[..|rows| - 1], rows[|rows| - 1];
      assert rows == init + [last];
      FieldsKeys(heading, init);
      LabelsSnoc(init, last);
    }
  }

  /** Each field holds the value of the last complete row with its label, or the heading when no row has it. */
  lemma {:induction false} FieldsValues(heading: string, rows: seq<Row>, key: string)
    requires key in Fields(heading, rows)
    ensures Fields(heading, rows)[key] == if LastValue(rows, key).Some? then LastValue(rows, key).value else heading
    decreases |rows|
  {
    if rows != [] {
      var init, last := rows[..|rows| - 1], rows[|rows| - 1];
      if !(Complete(last) && Label(last) == key) {
        FieldsValues(heading, init, key);
      }
    }
  }

  /** The last complete row with a label supplies that label's value. */
  lemma {:induction false} LastValueAt(rows: seq<Row>, i: int)
    requires 0 <= i < |rows| && Complete(rows[i])
    requires forall j :: i < j < |rows| && Complete(rows[j]) ==> Label(rows[j]) != Label(rows[i])
    ensures LastValue(rows, Label(rows[i])) == Some(Cell(rows[i]))
    decreases |rows|
  {
    if i < |rows| - 1 {
      var init := rows[..|rows| - 1];
      assert init[i] == rows[i];
      forall j | i < j < |init| && Complete(init[j]) ensures Label(init[j]) != Label(init[i]) {
        assert init[j] == rows[j];
      }
      LastValueAt(init, i);
    }
  }

  /** A complete row with no complete row of the same label after it decides that field. */
  lemma LastRowWins(heading: string, rows: seq<Row>, i: int)
    requires 0 <= i < |rows| && Complete(rows[i])
    requires forall j :: i < j < |rows| && Complete(rows[j]) ==> Label(rows[j]) != Label(rows[i])
    ensures Label(rows[i]) in Fields(heading, rows)
    ensures Fields(heading, rows)[Label(rows[i])] == Cell(rows[i])
  {
    LastValueAt(rows, i);
    FieldsKeys(heading, rows);
    assert rows[i] in rows;
    FieldsValues(heading, rows, Label(rows[i]));
  }

  /** Without a row labelled `Name`, the field `Name` holds the heading. */
  lemma {:induction false} NameFromHeading(heading: string, rows: seq<Row>)
    requires forall j :: 0 <= j < |rows| && Complete(rows[j]) ==> Label(rows[j]) != NameKey
    ensures NameKey in Fields(heading, rows) && Fields(heading, rows)[NameKey] == heading
    decreases |rows|
  {
    if rows != [] {
      NameFromHeading(heading, rows[..|rows| - 1]);
    }
  }

  /** A page without a table gives just `{Name: heading}`. */
  lemma NoTableRecord(page: Page)
    requires page.tbody.None?
    ensures RecordOf(page) == map[NameKey := Heading(page)]
  {
  }

  /**
   The row loop of `scrape_portrait`: `Name` seeded from the heading, then each
   complete row's stripped label set to its stripped value, in table order.
   */
  method ExtractRecord(page: Page) returns (data: Record)
    ensures NameKey in data
    ensures data.Keys == {NameKey} + Labels(Rows(page))
    ensures forall key :: key in data ==>
      data[key] == if LastValue(Rows(page), key).Some? then LastValue(Rows(page), key).value else Heading(page)
    ensures data == RecordOf(page)
  {
    data := map[NameKey := Heading(page)];
    assert data == Fields(Heading(page), []);
    if page.tbody.Some? {
      var rows := page.tbody.value;
      for i := 0 to |rows|
        invariant data == Fields(Heading(page), rows[..i])
      {
        var row := rows[i];
        FieldsStep(Heading(page), rows, i);
        if row.th.Some? && row.td.Some? {
          var key := Strip(row.th.value);
          var value := Strip(row.td.value);
          data := data[key := value];
        }
      }
      assert rows[..|rows|] == rows;
    }
    FieldsKeys(Heading(page), Rows(page));
    forall key | key in data
      ensures data[key] == if LastValue(Rows(page), key).Some? then LastValue(Rows(page), key).value else Heading(page)
    {
      FieldsValues(Heading(page), Rows(page), key);
    }
  }
}
