/**
 * The price history CSV file as rows of fields: appending one row, with the
 * header on the file's first write, and finding the last logged price of a product.
 */
module History {
  import opened Wrappers
  import opened Prices

  /** One CSV record, as `csv.reader` returns it. */
  type Row = seq<string>

  const CsvHeaders: Row := ["Timestamp", "Product Name", "Price (USD)", "Product URL", "Product ID"]

  /** The history file: not yet created, or its rows in file order. */
  datatype HistoryFile = Absent | File(rows: seq<Row>)

  function Rows(f: HistoryFile): seq<Row>
  {
    if f.Absent? then [] else f.rows
  }

  /** The record written for one observation; the price column is its two-decimal text. */
  function PriceRow(timestamp: string, name: string, price: real, url: string, id: string): Row
  {
    [timestamp, name, FormatCents(price), url, id]
  }

  /** The record for an observation is matched by its id and reads back as the price rounded to cents. */
  lemma PriceRowReadsBack(timestamp: string, name: string, price: real, url: string, id: string)
    ensures var row := PriceRow(timestamp, name, price, url, id);
      |row| == |CsvHeaders| && Matches(row, id) && ParsePrice(row[2]) == Some(RoundCents(price))
  {
    ParseFormatCents(price);
  }

  /**
   * The file after one successful append: earlier rows kept, the new row last,
   * and the header written first only when the file did not exist.
   */
  function Appended(f: HistoryFile, row: Row): (g: HistoryFile)
    ensures g.File?
    ensures |Rows(g)| == |Rows(f)| + (if f.Absent? then 2 else 1)
    ensures Rows(f) == Rows(g)[..|Rows(f)|]
    ensures Rows(g)[|Rows(g)| - 1] == row
    ensures f.Absent? ==> Rows(g)[0] == CsvHeaders
  {
    match f
    case Absent => File([CsvHeaders, row])
    case File(rows) => File(rows + [row])
  }

  /** A row that is long enough and whose fifth column is the product id. */
  predicate Matches(row: Row, id: string)
  {
    |row| >= 5 && row[4] == id
  }

  /** The index of the last row of `rows` that matches `id`. */
  function LastMatch(rows: seq<Row>, id: string): (r: Option<nat>)
    ensures r.Some? ==>
      r.value < |rows| && Matches(rows[r.value], id) && forall j :: r.value < j < |rows| ==> !Matches(rows[j], id)
    ensures r.None? ==> forall j :: 0 <= j < |rows| ==> !Matches(rows[j], id)
  {
    if rows == [] then None
    else if Matches(rows[|rows| - 1], id) then Some(|rows| - 1)
    else LastMatch(rows[..|rows| - 1], id)
  }

  /** The last match is the matching row that no later row matches. */
  lemma LastMatchIs(rows: seq<Row>, id: string, k: nat)
    requires k < |rows| && Matches(rows[k], id)
    requires forall j :: k < j < |rows| ==> !Matches(rows[j], id)
    ensures LastMatch(rows, id) == Some(k)
  {
  }

  /**
   * The price column of the last data row (after the header) for `id`, read
   * with `float`; `None` when the file is absent, holds at most one row, has no
   * matching row, or when that column does not parse (the error path).
   */
  function LastLoggedPrice(f: HistoryFile, id: string): Option<real>
  {
    match f
    case Absent => None
    case File(rows) =>
      if |rows| <= 1 then None
      else
        match LastMatch(rows[1..], id)
        case None => None
        case Some(k) => ParsePrice(rows[1..][k][2])
  }

  /**
   * When row `k`, after the header, is the last row for `id`, the last logged
   * price is its price column read with `float`.
   */
  lemma LastLoggedPriceFound(f: HistoryFile, id: string, k: nat)
    requires f.File? && 1 <= k < |f.rows| && Matches(f.rows[k], id)
    requires forall j :: k < j < |f.rows| ==> !Matches(f.rows[j], id)
    ensures LastLoggedPrice(f, id) == ParsePrice(f.rows[k][2])
  {
    var data := f.rows[1..];
    assert data[k - 1] == f.rows[k];
    forall j | k - 1 < j < |data| ensures !Matches(data[j], id) {
      assert data[j] == f.rows[j + 1];
    }
    LastMatchIs(data, id, k - 1);
  }

  /** When no row after the header is for `id`, nothing is found. */
  lemma LastLoggedPriceNotFound(f: HistoryFile, id: string)
    requires forall j :: 1 <= j < |Rows(f)| ==> !Matches(Rows(f)[j], id)
    ensures LastLoggedPrice(f, id) == None
  {
    if f.File? && |f.rows| > 1 {
      var data := f.rows[1..];
      assert Rows(f) == f.rows;
      forall j | 0 <= j < |data| ensures !Matches(data[j], id) {
        assert data[j] == f.rows[j + 1];
      }
    }
  }

  /** The reverse scan over the data rows that stops at the first match. */
  method GetLastLoggedPrice(f: HistoryFile, id: string) returns (price: Option<real>)
    ensures price == LastLoggedPrice(f, id)
  {
    if f.Absent? {
      return None;
    }
    var rows := f.rows;
    if |rows| <= 1 {
      return None;
    }
    var i := |rows|;
    while i > 1
      invariant 1 <= i <= |rows|
      invariant forall j :: i <= j < |rows| ==> !Matches(rows[j], id)
    {
      i := i - 1;
      if |rows[i]| >= 5 && rows[i][4] == id {
        assert rows[1..][i - 1] == rows[i];
        LastMatchIs(rows[1..], id, i - 1);
        price := ParsePrice(rows[i][2]);
        return;
      }
    }
    assert LastMatch(rows[1..], id).None? by {
      assert forall j :: 0 <= j < |rows| - 1 ==> rows[1..][j] == rows[j + 1];
    }
    return None;
  }

  /** After appending a product's row, its last logged price is the appended price rounded to cents. */
  lemma LastLoggedPriceOfAppended(f: HistoryFile, timestamp: string, name: string, price: real, url: string, id: string)
    requires f != File([])
    ensures LastLoggedPrice(Appended(f, PriceRow(timestamp, name, price, url, id)), id) == Some(RoundCents(price))
  {
    var row := PriceRow(timestamp, name, price, url, id);
    var rows := Rows(Appended(f, row));
    assert |rows| >= 2;
    assert rows[1..][|rows| - 2] == row;
    LastMatchIs(rows[1..], id, |rows| - 2);
    assert row[2] == FormatCents(price);
    ParseFormatCents(price);
  }

  /** Appending a row for another product does not change what is found for `id`. */
  lemma LastLoggedPriceIgnoresOthers(f: HistoryFile, row: Row, id: string)
    requires !Matches(row, id)
    ensures LastLoggedPrice(Appended(f, row), id) == LastLoggedPrice(f, id)
  {
    if f.File? && |f.rows| >= 1 {
      var data := f.rows[1..];
      assert (f.rows + [row])[1..] == data + [row];
      assert (data + [row])[..|data|] == data;
      var r := LastMatch(data, id);
      if r.Some? {
        assert (data + [row])[r.value] == data[r.value];
      }
    }
  }

  /**
   * An existing but empty file never receives the header, so its first data
   * row is then read as the header and nothing is found.
   */
  lemma EmptyFileHidesFirstRow(row: Row, id: string)
    ensures LastLoggedPrice(Appended(File([]), row), id) == None
  {
  }
}
