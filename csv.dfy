/**
 What both `save_to_csv` functions hand to `csv.DictWriter`: a header (the
 union of the records' keys, in an order each scraper chooses) and, per record,
 the cells in header order with "" for a key the record lacks (the writer's
 default `restval`). Quoting and escaping of the bytes are the library's and are
 not modelled.
 */
module Csv {
  import opened Records

  datatype Table = Table(header: seq<string>, rows: seq<seq<string>>)

  predicate NoDuplicates(s: seq<string>) {
    forall i, j :: 0 <= i < j < |s| ==> s[i] != s[j]
  }

  /** The keys of some record of `data`. */
  predicate SomeRecordHas(data: seq<Record>, key: string) {
    exists i :: 0 <= i < |data| && key in data[i]
  }

  /** `keys = set(); for item in data: keys.update(item.keys())` */
  method UnionKeys(data: seq<Record>) returns (keys: set<string>)
    ensures forall i :: 0 <= i < |data| ==> data[i].Keys <= keys
    ensures forall k :: k in keys ==> SomeRecordHas(data, k)
  {
    keys := {};
    for n := 0 to |data|
      invariant forall i :: 0 <= i < n ==> data[i].Keys <= keys
      invariant forall k :: k in keys ==> SomeRecordHas(data[..n], k)
    {
      forall k | k in keys ensures SomeRecordHas(data[..n + 1], k) {
        var i :| 0 <= i < n && k in data[..n][i];
        assert data[..n + 1][i] == data[i];
      }
      assert data[..n + 1][n] == data[n];
      keys := keys + data[n].Keys;
    }
    assert data[..|data|] == data;
  }

  /** The cells `DictWriter` writes for one record: its value under each header key, "" where it has none. */
  function Cells(record: Record, header: seq<string>): (cells: seq<string>)
    ensures |cells| == |header|
  {
    seq(|header|, i requires 0 <= i < |header| => if header[i] in record then record[header[i]] else "")
  }

  /** Reading one written row back into a dict, taking a blank cell as an absent key. */
  function ReadBack(header: seq<string>, cells: seq<string>): Record
    requires NoDuplicates(header) && |cells| == |header|
  {
    map i | 0 <= i < |header| && cells[i] != "" :: header[i] := cells[i]
  }

  /** The rows of a table are the records' cells under its header, one row per record, in record order. */
  predicate RowsOf(data: seq<Record>, table: Table) {
    |table.rows| == |data| && forall i :: 0 <= i < |data| ==> table.rows[i] == Cells(data[i], table.header)
  }

  /**
   Writing a record under a header that holds each of its keys once loses
   nothing but the fields whose value is empty: reading the row back gives
   the record without them.
   */
  lemma CellsRoundTrip(record: Record, header: seq<string>)
    requires NoDuplicates(header)
    requires forall k :: k in record ==> k in header
    ensures ReadBack(header, Cells(record, header)) == map k | k in record && record[k] != "" :: record[k]
  {
    var cells := Cells(record, header);
    var back := ReadBack(header, cells);
    var kept := map k | k in record && record[k] != "" :: record[k];
    forall k | k in kept ensures k in back && back[k] == kept[k] {
      var i :| 0 <= i < |header| && header[i] == k;
      assert cells[i] == record[k];
    }
    forall k | k in back ensures k in kept {
      var i :| 0 <= i < |header| && cells[i] != "" && header[i] == k;
    }
  }

  /**
   Every row of a table whose header holds each key of the records once reads
   back as its record without the empty fields.
   */
  lemma RowReadsBack(data: seq<Record>, table: Table, i: int)
    requires NoDuplicates(table.header) && RowsOf(data, table)
    requires forall k :: SomeRecordHas(data, k) ==> k in table.header
    requires 0 <= i < |data|
    ensures |table.rows[i]| == |table.header|
    ensures ReadBack(table.header, table.rows[i]) == map k | k in data[i] && data[i][k] != "" :: data[i][k]
  {
    forall k | k in data[i] ensures k in table.header {
      assert SomeRecordHas(data, k);
    }
    CellsRoundTrip(data[i], table.header);
  }

  /** `list(keys)`: the keys of a set, each once, in an order Python leaves unspecified. */
  method ListOf(keys: set<string>) returns (r: seq<string>)
    ensures NoDuplicates(r)
    ensures forall k :: k in r <==> k in keys
  {
    r := [];
    var rest := keys;
    while rest != {}
      invariant rest <= keys
      invariant NoDuplicates(r)
      invariant forall k :: k in r <==> k in keys - rest
      decreases rest
    {
      var k :| k in rest;
      assert k !in r;
      r := r + [k];
      rest := rest - {k};
    }
  }
}
