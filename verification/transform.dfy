/** `read_and_transform` (etl.py:52-77) on a CSV file already read into a
    header and rows of optional cells. */
module Transform {
  import opened Wrappers
  import opened AsciiText
  import opened Keywords
  import opened Merchant
  import opened Dates
  import opened Amounts
  import opened Schema
  import opened Paths

  /** A CSV file as `pd.read_csv` sees it: raw column names, and rows whose
      cells are text or missing (an empty field, read as NaN). */
  datatype Csv = Csv(header: seq<string>, rows: seq<seq<Option<string>>>)

  /** The three cells the transform looks at in one row. */
  datatype RawRow = RawRow(date: Option<string>, description: Option<string>, amount: Option<string>)

  /** One row of the output frame: `txn_date, merchant, description, amount,
      category, src_file`. */
  datatype Transaction = Transaction(
    txnDate: Date,
    merchant: Option<string>,
    description: Option<string>,
    amount: Decimal,
    category: Option<string>,
    srcFile: string)

  /** The frame returned for one file, and how many rows `dropna` removed. */
  datatype FileOutput = FileOutput(records: seq<Transaction>, dropped: nat)

  /** The cell in column `j`; a short row is padded with missing cells. */
  function Cell(row: seq<Option<string>>, j: nat): Option<string> {
    if j < |row| then row[j] else None
  }

  /** The first column with the normalized name `name`. */
  function ColumnOf(cols: seq<string>, name: string): (j: nat)
    requires name in cols
    ensures j < |cols| && cols[j] == name
  {
    ColumnIndex(cols, name).value
  }

  /** The date, description and amount cells of every row. */
  function Project(cols: seq<string>, rows: seq<seq<Option<string>>>): (raw: seq<RawRow>)
    requires "date" in cols && "description" in cols && "amount" in cols
    ensures |raw| == |rows|
    ensures forall i :: 0 <= i < |rows| ==> raw[i].date == Cell(rows[i], ColumnOf(cols, "date"))
    ensures forall i :: 0 <= i < |rows| ==> raw[i].description == Cell(rows[i], ColumnOf(cols, "description"))
    ensures forall i :: 0 <= i < |rows| ==> raw[i].amount == Cell(rows[i], ColumnOf(cols, "amount"))
  {
    var d, s, a := ColumnOf(cols, "date"), ColumnOf(cols, "description"), ColumnOf(cols, "amount");
    seq(|rows|, i requires 0 <= i < |rows| => RawRow(Cell(rows[i], d), Cell(rows[i], s), Cell(rows[i], a)))
  }

  /** The `txn_date` of a row: NaT (None) for a missing or unparseable cell. */
  function CoerceDate(c: Option<string>): (r: Option<Date>)
    ensures r.Some? ==> c.Some? && ParseDate(c.value) == r
    ensures c.Some? && ParseDate(c.value).Some? ==> r == ParseDate(c.value)
  {
    match c
    case None => None
    case Some(s) => ParseDate(s)
  }

  /** The coerced `amount` of a row: NaN (None) for a missing or unparseable cell. */
  function CoerceAmount(c: Option<string>): (r: Option<Decimal>)
    ensures r.Some? ==> c.Some? && ParseAmount(c.value) == r
    ensures c.Some? && ParseAmount(c.value).Some? ==> r == ParseAmount(c.value)
  {
    match c
    case None => None
    case Some(s) => ParseAmount(s)
  }

  /** `to_datetime(..., format="%m/%d/%Y", errors="coerce")` on one cell: the
      cell yields a date exactly when it is present, spells that date in the
      format, and the date is a real calendar day a timestamp can hold. */
  lemma CoerceDateSpec(c: Option<string>, d: Date)
    ensures CoerceDate(c) == Some(d) <==> c.Some? && Spells(c.value, d) && ValidDate(d) && InTimestampRange(d)
  {
    if c.Some? {
      ParseDateSpec(c.value, d);
    }
  }

  /** `to_numeric(..., errors="coerce")` on one cell: the cell yields a number
      exactly when it is present, readable, and a decimal literal once stripped. */
  lemma CoerceAmountSpec(c: Option<string>)
    ensures CoerceAmount(c).Some? <==> c.Some? && Readable(c.value) && IsAmountLiteral(Strip(c.value))
  {
    if c.Some? {
      AmountAccepts(c.value);
    }
  }

  /** A row after `to_datetime` and `to_numeric`. */
  datatype Coerced = Coerced(txnDate: Option<Date>, description: Option<string>, amount: Option<Decimal>)

  function CoerceRow(r: RawRow): (c: Coerced)
    ensures c.description == r.description
  {
    Coerced(CoerceDate(r.date), r.description, CoerceAmount(r.amount))
  }

  function CoerceRows(raw: seq<RawRow>): (rows: seq<Coerced>)
    ensures |rows| == |raw|
    ensures forall i :: 0 <= i < |raw| ==> rows[i] == CoerceRow(raw[i])
  {
    seq(|raw|, i requires 0 <= i < |raw| => CoerceRow(raw[i]))
  }

  /** `dropna(subset=["txn_date", "amount"])` keeps the row. */
  predicate Keeps(r: Coerced) {
    r.txnDate.Some? && r.amount.Some?
  }

  /** The positions, in order, of the rows from `from` on that survive `dropna`. */
  function KeptFrom(rows: seq<Coerced>, from: nat): (kept: seq<nat>)
    requires from <= |rows|
    ensures |kept| <= |rows| - from
    decreases |rows| - from
  {
    if from == |rows| then []
    else if Keeps(rows[from]) then [from] + KeptFrom(rows, from + 1)
    else KeptFrom(rows, from + 1)
  }

  /** The positions are increasing, each names a surviving row, and every
      surviving row from `from` on is among them. */
  lemma {:induction false} KeptFromSpec(rows: seq<Coerced>, from: nat)
    requires from <= |rows|
    ensures forall k :: 0 <= k < |KeptFrom(rows, from)| ==>
              from <= KeptFrom(rows, from)[k] < |rows| && Keeps(rows[KeptFrom(rows, from)[k]])
    ensures forall k :: 0 < k < |KeptFrom(rows, from)| ==> KeptFrom(rows, from)[k - 1] < KeptFrom(rows, from)[k]
    ensures forall i :: from <= i < |rows| && Keeps(rows[i]) ==> i in KeptFrom(rows, from)
    decreases |rows| - from
  {
    if from < |rows| {
      KeptFromSpec(rows, from + 1);
      var rest := KeptFrom(rows, from + 1);
      if Keeps(rows[from]) {
        var kept := [from] + rest;
        assert KeptFrom(rows, from) == kept;
        assert forall k :: 0 < k < |kept| ==> kept[k] == rest[k - 1];
      } else {
        assert KeptFrom(rows, from) == rest;
      }
    }
  }

  function KeptRows(rows: seq<Coerced>): (kept: seq<nat>)
    ensures forall k :: 0 <= k < |kept| ==> kept[k] < |rows| && Keeps(rows[kept[k]])
    ensures forall k :: 0 < k < |kept| ==> kept[k - 1] < kept[k]
    ensures forall i :: 0 <= i < |rows| && Keeps(rows[i]) ==> i in kept
  {
    KeptFromSpec(rows, 0);
    KeptFrom(rows, 0)
  }

  /** One surviving row with its derived columns. */
  function Enrich(table: KeywordTable, src: string, r: Coerced): (t: Transaction)
    requires WellFormed(table) && Keeps(r)
    ensures t.txnDate == r.txnDate.value && t.amount == r.amount.value && t.description == r.description
    ensures t.merchant.None? <==> r.description.None? || Strip(r.description.value) == []
    ensures t.merchant.Some? ==> t.merchant.value != [] && NoSpace(t.merchant.value)
    ensures t.category.None? <==> t.merchant.None?
    ensures t.category.Some? ==> t.category.value == Other || exists i :: 0 <= i < |table| && table[i].1 == t.category.value
    ensures t.srcFile == src
  {
    var m := NormalizeMerchant(table, r.description);
    Transaction(r.txnDate.value, m, r.description, r.amount.value, Categorize(table, m), src)
  }

  /** The frame built from the coerced rows: one enriched record per row that
      survives `dropna`, in row order, and the count of the others. */
  function FileRecords(table: KeywordTable, src: string, rows: seq<Coerced>): (out: FileOutput)
    requires WellFormed(table)
    ensures |out.records| + out.dropped == |rows|
    ensures out.dropped == |DroppedSet(rows, 0)|
  {
    var kept := KeptRows(rows);
    KeptRowsFit(rows);
    FileOutput(seq(|kept|, k requires 0 <= k < |kept| => Enrich(table, src, rows[kept[k]])), |rows| - |kept|)
  }

  /** The rows of a file that passed the column check, coerced. */
  function CoercedRows(path: string, csv: Csv): (rows: seq<Coerced>)
    requires CheckColumns(path, csv.header).Success?
    ensures |rows| == |csv.rows|
  {
    CoerceRows(Project(Columns(path, csv), csv.rows))
  }

  /** `read_and_transform(csv_path)`: the column check, then the coerced,
      filtered and enriched rows, or the `ValueError` for missing columns. */
  function ReadAndTransform(table: KeywordTable, path: string, csv: Csv): (r: Result<FileOutput, SchemaError>)
    requires WellFormed(table)
    ensures r.Failure? <==> exists n :: n in Required && !HasColumn(csv.header, n)
    ensures r.Failure? ==> r.error.path == path
    ensures r.Failure? ==> forall n :: n in Required ==> (n in r.error.missing <==> !HasColumn(csv.header, n))
    ensures r.Success? ==> CheckColumns(path, csv.header).Success?
    ensures r.Success? ==> |r.value.records| + r.value.dropped == |csv.rows|
  {
    CheckColumnsSpec(path, csv.header);
    match CheckColumns(path, csv.header)
    case Failure(e) => Failure(e)
    case Success(_) => Success(FileRecords(table, Basename(path), CoercedRows(path, csv)))
  }

  lemma ColumnsPresent(path: string, header: seq<string>)
    ensures CheckColumns(path, header).Success? ==>
      var cols := CheckColumns(path, header).value;
      "date" in cols && "description" in cols && "amount" in cols
  {
    if CheckColumns(path, header).Success? {
      var cols := CheckColumns(path, header).value;
      forall n | n in Required
        ensures n in cols
      {
        var i :| 0 <= i < |cols| && cols[i] == n;
      }
    }
  }

  // ---------------------------------------------------------------------------
  // Counting the dropped rows
  // ---------------------------------------------------------------------------

  function KeptSet(rows: seq<Coerced>, from: nat): set<nat> {
    set i: nat | from <= i < |rows| && Keeps(rows[i])
  }

  function DroppedSet(rows: seq<Coerced>, from: nat): set<nat> {
    set i: nat | from <= i < |rows| && !Keeps(rows[i])
  }

  /** How the kept and dropped positions from `from` on relate to those from
      `from + 1` on. */
  lemma SetsStep(rows: seq<Coerced>, from: nat)
    requires from < |rows|
    ensures from !in KeptSet(rows, from + 1) && from !in DroppedSet(rows, from + 1)
    ensures Keeps(rows[from]) ==> KeptSet(rows, from) == KeptSet(rows, from + 1) + {from}
    ensures Keeps(rows[from]) ==> DroppedSet(rows, from) == DroppedSet(rows, from + 1)
    ensures !Keeps(rows[from]) ==> KeptSet(rows, from) == KeptSet(rows, from + 1)
    ensures !Keeps(rows[from]) ==> DroppedSet(rows, from) == DroppedSet(rows, from + 1) + {from}
  {
  }

  /** The kept positions are exactly the surviving rows, listed once each, and
      together with the dropped ones they account for every row. */
  lemma {:induction false} KeptFromCounts(rows: seq<Coerced>, from: nat)
    requires from <= |rows|
    ensures |KeptFrom(rows, from)| == |KeptSet(rows, from)|
    ensures |KeptSet(rows, from)| + |DroppedSet(rows, from)| == |rows| - from
    decreases |rows| - from
  {
    if from < |rows| {
      KeptFromCounts(rows, from + 1);
      SetsStep(rows, from);
    } else {
      assert KeptSet(rows, from) == {};
      assert DroppedSet(rows, from) == {};
    }
  }

  lemma KeptRowsFit(rows: seq<Coerced>)
    ensures |KeptRows(rows)| <= |rows|
    ensures |rows| - |KeptRows(rows)| == |DroppedSet(rows, 0)|
  {
    KeptFromCounts(rows, 0);
  }

  // ---------------------------------------------------------------------------
  // What the frame holds
  // ---------------------------------------------------------------------------

  /** The column positions of a file that passed the column check. */
  function Columns(path: string, csv: Csv): (cols: seq<string>)
    requires CheckColumns(path, csv.header).Success?
    ensures "date" in cols && "description" in cols && "amount" in cols
  {
    ColumnsPresent(path, csv.header);
    CheckColumns(path, csv.header).value
  }

  /** A raw row survives `dropna`: its date cell parses and its amount cell does. */
  predicate Survives(cols: seq<string>, row: seq<Option<string>>)
    requires "date" in cols && "amount" in cols
  {
    && CoerceDate(Cell(row, ColumnOf(cols, "date"))).Some?
    && CoerceAmount(Cell(row, ColumnOf(cols, "amount"))).Some?
  }

  /** What a record says about the raw row it came from. */
  predicate RecordOf(table: KeywordTable, path: string, cols: seq<string>, row: seq<Option<string>>, t: Transaction)
    requires WellFormed(table)
    requires "date" in cols && "description" in cols && "amount" in cols
  {
    var date, desc, amount := Cell(row, ColumnOf(cols, "date")), Cell(row, ColumnOf(cols, "description")), Cell(row, ColumnOf(cols, "amount"));
    && date.Some? && ParseDate(date.value) == Some(t.txnDate)
    && amount.Some? && ParseAmount(amount.value) == Some(t.amount)
    && t.description == desc
    && t.merchant == NormalizeMerchant(table, desc)
    && t.category == Categorize(table, t.merchant)
    && t.srcFile == Basename(path)
  }

  /** The surviving rows' positions, in order. */
  function SurvivorPositions(path: string, csv: Csv): (kept: seq<nat>)
    requires CheckColumns(path, csv.header).Success?
    ensures forall k :: 0 <= k < |kept| ==> kept[k] < |csv.rows| && Survives(Columns(path, csv), csv.rows[kept[k]])
    ensures forall k :: 0 < k < |kept| ==> kept[k - 1] < kept[k]
    ensures forall i :: 0 <= i < |csv.rows| && Survives(Columns(path, csv), csv.rows[i]) ==> i in kept
  {
    KeptAreSurvivors(path, csv);
    KeptRows(CoercedRows(path, csv))
  }

  /** The rows `dropna` keeps are exactly the surviving raw rows. */
  lemma KeptAreSurvivors(path: string, csv: Csv)
    ensures CheckColumns(path, csv.header).Success? ==>
      var kept := KeptRows(CoercedRows(path, csv));
      && (forall k :: 0 <= k < |kept| ==> kept[k] < |csv.rows| && Survives(Columns(path, csv), csv.rows[kept[k]]))
      && (forall i :: 0 <= i < |csv.rows| && Survives(Columns(path, csv), csv.rows[i]) ==> i in kept)
  {
    if CheckColumns(path, csv.header).Success? {
      var rows, cols := CoercedRows(path, csv), Columns(path, csv);
      var kept := KeptRows(rows);
      KeepsIffSurvives(path, csv);
      forall k | 0 <= k < |kept|
        ensures kept[k] < |csv.rows| && Survives(cols, csv.rows[kept[k]])
      {
        assert Keeps(rows[kept[k]]);
      }
      forall i | 0 <= i < |csv.rows| && Survives(cols, csv.rows[i])
        ensures i in kept
      {
        assert Keeps(rows[i]);
      }
    }
  }

  lemma KeepsIffSurvives(path: string, csv: Csv)
    ensures CheckColumns(path, csv.header).Success? ==>
              forall i :: 0 <= i < |csv.rows| ==>
                (Keeps(CoercedRows(path, csv)[i]) <==> Survives(Columns(path, csv), csv.rows[i]))
  {
    if CheckColumns(path, csv.header).Success? {
      var cols := Columns(path, csv);
      var raw := Project(cols, csv.rows);
      var rows := CoercedRows(path, csv);
      forall i | 0 <= i < |csv.rows|
        ensures Keeps(rows[i]) <==> Survives(cols, csv.rows[i])
      {
        assert rows[i] == CoerceRow(raw[i]);
      }
    }
  }

  /** Record `k` of the frame comes from the `k`-th surviving row, so the
      records are the surviving rows, in file order, each carrying its parsed
      date and amount, its description, the merchant and category derived from
      that description, and the file's base name. */
  lemma RecordsFollowRows(table: KeywordTable, path: string, csv: Csv)
    requires WellFormed(table)
    ensures ReadAndTransform(table, path, csv).Success? ==>
      var out := ReadAndTransform(table, path, csv).value;
      var kept := SurvivorPositions(path, csv);
      && |out.records| == |kept|
      && forall k :: 0 <= k < |kept| ==> RecordOf(table, path, Columns(path, csv), csv.rows[kept[k]], out.records[k])
  {
    if ReadAndTransform(table, path, csv).Success? {
      var out := ReadAndTransform(table, path, csv).value;
      var rows := CoercedRows(path, csv);
      var kept := SurvivorPositions(path, csv);
      var records := FileRecords(table, Basename(path), rows).records;
      assert out.records == records;
      assert |records| == |kept|;
      forall k | 0 <= k < |kept|
        ensures RecordOf(table, path, Columns(path, csv), csv.rows[kept[k]], records[k])
      {
        assert records[k] == Enrich(table, Basename(path), rows[kept[k]]);
      }
    }
  }

  /** The positions of the rows whose date or amount fails to parse. */
  function BadRows(path: string, csv: Csv): set<nat>
    requires CheckColumns(path, csv.header).Success?
  {
    set i: nat | i < |csv.rows| && !Survives(Columns(path, csv), csv.rows[i])
  }

  lemma DroppedSetIsBadRows(path: string, csv: Csv)
    ensures CheckColumns(path, csv.header).Success? ==>
              DroppedSet(CoercedRows(path, csv), 0) == BadRows(path, csv)
  {
    KeepsIffSurvives(path, csv);
  }

  /** `dropped` counts exactly the rows whose date or amount fails to parse. */
  lemma DroppedCountsBadRows(table: KeywordTable, path: string, csv: Csv)
    requires WellFormed(table)
    ensures ReadAndTransform(table, path, csv).Success? ==>
              ReadAndTransform(table, path, csv).value.dropped == |BadRows(path, csv)|
  {
    if ReadAndTransform(table, path, csv).Success? {
      assert ReadAndTransform(table, path, csv).value == FileRecords(table, Basename(path), CoercedRows(path, csv));
      DroppedSetIsBadRows(path, csv);
    }
  }

  /** Every record carries a real calendar date in the Timestamp range, and a
      category exactly when it has a merchant. */
  lemma RecordsWellFormed(table: KeywordTable, path: string, csv: Csv)
    requires WellFormed(table)
    ensures ReadAndTransform(table, path, csv).Success? ==>
              forall t :: t in ReadAndTransform(table, path, csv).value.records ==>
                && ValidDate(t.txnDate) && InTimestampRange(t.txnDate)
                && '/' !in t.srcFile
                && (t.category.None? <==> t.merchant.None?)
  {
    if ReadAndTransform(table, path, csv).Success? {
      var out := ReadAndTransform(table, path, csv).value;
      RecordsFollowRows(table, path, csv);
      BasenameIsLastPart(path);
      forall t | t in out.records
        ensures ValidDate(t.txnDate) && InTimestampRange(t.txnDate)
        ensures '/' !in t.srcFile && (t.category.None? <==> t.merchant.None?)
      {
        var k :| 0 <= k < |out.records| && out.records[k] == t;
        CategoryNullIffMerchantNull(table, t.description);
      }
    }
  }
}
