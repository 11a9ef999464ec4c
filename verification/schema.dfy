/** The header handling of `read_and_transform` (etl.py:55-60): column names
    are stripped and lower-cased, and the three required columns must all be
    present. */
module Schema {
  import opened Wrappers
  import opened AsciiText

  /** The columns the transform reads. */
  const Required: set<string> := {"date", "description", "amount"}

  /** The `ValueError` raised for a file that lacks required columns. */
  datatype SchemaError = SchemaError(path: string, missing: set<string>)

  /** `df.columns.str.strip().str.lower()` on one name. */
  function NormalizeHeader(h: string): (r: string)
    ensures |r| <= |h|
    ensures forall i :: 0 <= i < |r| ==> !IsUpperLetter(r[i])
    ensures r == [] || (!IsSpace(r[0]) && !IsSpace(r[|r| - 1]))
  {
    Lower(Strip(h))
  }

  function NormalizeHeaders(header: seq<string>): (cols: seq<string>)
    ensures |cols| == |header|
    ensures forall i :: 0 <= i < |header| ==> cols[i] == NormalizeHeader(header[i])
  {
    seq(|header|, i requires 0 <= i < |header| => NormalizeHeader(header[i]))
  }

  /** `set(df.columns)`. */
  function ColumnSet(cols: seq<string>): set<string> {
    set i | 0 <= i < |cols| :: cols[i]
  }

  /** Some column of the raw header normalizes to `name`. */
  predicate HasColumn(header: seq<string>, name: string) {
    exists i :: 0 <= i < |header| && NormalizeHeader(header[i]) == name
  }

  lemma ColumnSetOfHeaders(header: seq<string>, name: string)
    ensures name in ColumnSet(NormalizeHeaders(header)) <==> HasColumn(header, name)
  {
    var cols := NormalizeHeaders(header);
    if HasColumn(header, name) {
      var i :| 0 <= i < |header| && NormalizeHeader(header[i]) == name;
      assert cols[i] == name;
    }
  }

  /** The column check: the normalized names, or the error naming exactly
      the required columns that are absent. */
  function CheckColumns(path: string, header: seq<string>): (r: Result<seq<string>, SchemaError>)
    ensures r.Success? ==> r.value == NormalizeHeaders(header)
    ensures r.Failure? ==> r.error.path == path && r.error.missing != {} && r.error.missing <= Required
  {
    var names := ColumnSet(NormalizeHeaders(header));
    if Required <= names then Success(NormalizeHeaders(header))
    else
      var missing := Required - names;
      assert missing != {} by {
        var n :| n in Required && n !in names;
        assert n in missing;
      }
      Failure(SchemaError(path, missing))
  }

  /** The check passes exactly when each required name is some column's
      normalized name, and on failure reports exactly the names no column has. */
  lemma CheckColumnsSpec(path: string, header: seq<string>)
    ensures CheckColumns(path, header).Success? <==> forall n :: n in Required ==> HasColumn(header, n)
    ensures CheckColumns(path, header).Failure? ==>
              forall n :: n in Required ==> (n in CheckColumns(path, header).error.missing <==> !HasColumn(header, n))
  {
    forall n | n in Required
      ensures n in ColumnSet(NormalizeHeaders(header)) <==> HasColumn(header, n)
    {
      ColumnSetOfHeaders(header, n);
    }
  }

  /** Extra columns never cause a failure: appending columns can only shrink
      the set of missing names. */
  lemma ExtraColumnsHarmless(path: string, header: seq<string>, extra: seq<string>)
    ensures CheckColumns(path, header).Success? ==> CheckColumns(path, header + extra).Success?
    ensures CheckColumns(path, header + extra).Failure? ==>
              CheckColumns(path, header + extra).error.missing <= CheckColumns(path, header).error.missing
  {
    var h := header + extra;
    CheckColumnsSpec(path, header);
    CheckColumnsSpec(path, h);
    forall n | HasColumn(header, n)
      ensures HasColumn(h, n)
    {
      var i :| 0 <= i < |header| && NormalizeHeader(header[i]) == n;
      assert h[i] == header[i];
    }
  }

  /** Column order does not matter to the check. */
  lemma ColumnOrderIrrelevant(path: string, h1: seq<string>, h2: seq<string>)
    requires multiset(h1) == multiset(h2)
    ensures CheckColumns(path, h1).Success? == CheckColumns(path, h2).Success?
    ensures CheckColumns(path, h1).Failure? ==> CheckColumns(path, h1) == CheckColumns(path, h2)
  {
    forall n
      ensures HasColumn(h1, n) <==> HasColumn(h2, n)
    {
      if HasColumn(h1, n) {
        var i :| 0 <= i < |h1| && NormalizeHeader(h1[i]) == n;
        assert h1[i] in multiset(h2);
        var j :| 0 <= j < |h2| && h2[j] == h1[i];
      }
      if HasColumn(h2, n) {
        var j :| 0 <= j < |h2| && NormalizeHeader(h2[j]) == n;
        assert h2[j] in multiset(h1);
        var i :| 0 <= i < |h1| && h1[i] == h2[j];
      }
    }
    CheckColumnsSpec(path, h1);
    CheckColumnsSpec(path, h2);
    ColumnSetsAgree(h1, h2);
  }

  lemma ColumnSetsAgree(h1: seq<string>, h2: seq<string>)
    requires forall n :: HasColumn(h1, n) <==> HasColumn(h2, n)
    ensures ColumnSet(NormalizeHeaders(h1)) == ColumnSet(NormalizeHeaders(h2))
  {
    forall n
      ensures n in ColumnSet(NormalizeHeaders(h1)) <==> n in ColumnSet(NormalizeHeaders(h2))
    {
      ColumnSetOfHeaders(h1, n);
      ColumnSetOfHeaders(h2, n);
    }
  }

  /** Surrounding whitespace and letter case do not matter to a column name. */
  lemma HeaderPaddingAndCase(a: string, m: string, b: string)
    requires AllSpace(a) && AllSpace(b)
    requires m == [] || (!IsSpace(m[0]) && !IsSpace(m[|m| - 1]))
    ensures NormalizeHeader(a + m + b) == Lower(m)
  {
    StripUnique(a, m, b);
  }

  /** The position of the first column called `name`, if any. */
  function ColumnIndex(cols: seq<string>, name: string): (r: Option<nat>)
    ensures r.Some? ==> r.value < |cols| && cols[r.value] == name
    ensures r.Some? ==> forall j :: 0 <= j < r.value ==> cols[j] != name
    ensures r.None? <==> name !in cols
  {
    if |cols| == 0 then None
    else if cols[0] == name then Some(0)
    else match ColumnIndex(cols[1..], name)
      case Some(j) => Some(j + 1)
      case None => None
  }

  // ---------------------------------------------------------------------------
  // Worked examples
  // ---------------------------------------------------------------------------

  lemma DateLower(m: string, r: string)
    requires m == "Date" && r == "date"
    ensures Lower(m) == r
  {
  }

  lemma DatePadding(h: string, pad: string, m: string)
    requires h == " Date " && pad == " " && m == "Date"
    ensures h == pad + m + pad && AllSpace(pad)
    ensures !IsSpace(m[0]) && !IsSpace(m[|m| - 1])
  {
  }

  lemma PaddedHeaderExample(h: string)
    requires h == " Date "
    ensures NormalizeHeader(h) == "date"
  {
    var pad, m, r := " ", "Date", "date";
    DatePadding(h, pad, m);
    HeaderPaddingAndCase(pad, m, pad);
    DateLower(m, r);
  }

  /** A name already trimmed and in lower case is its own normal form. */
  lemma PlainHeader(h: string)
    requires NoSpace(h) && forall i :: 0 <= i < |h| ==> !IsUpperLetter(h[i])
    ensures NormalizeHeader(h) == h
  {
    StripNoSpace(h);
    LowerOfNoUpper(h);
  }

  lemma PlainHeaders(header: seq<string>)
    requires forall i :: 0 <= i < |header| ==> NoSpace(header[i])
    requires forall i, j :: 0 <= i < |header| && 0 <= j < |header[i]| ==> !IsUpperLetter(header[i][j])
    ensures NormalizeHeaders(header) == header
  {
    forall i | 0 <= i < |header|
      ensures NormalizeHeader(header[i]) == header[i]
    {
      PlainHeader(header[i]);
    }
  }

  lemma ExampleColumns(header: seq<string>)
    requires header == ["date", "description", "memo"]
    ensures NormalizeHeaders(header) == header
  {
    PlainHeaders(header);
  }

  lemma ExampleColumnSet(cols: seq<string>)
    requires cols == ["date", "description", "memo"]
    ensures ColumnSet(cols) == {"date", "description", "memo"}
  {
    assert forall n :: n in ColumnSet(cols) ==> n == cols[0] || n == cols[1] || n == cols[2];
    assert cols[0] in ColumnSet(cols) && cols[1] in ColumnSet(cols) && cols[2] in ColumnSet(cols);
  }

  lemma ExampleMissing()
    ensures Required - {"date", "description", "memo"} == {"amount"}
    ensures !(Required <= {"date", "description", "memo"})
  {
    assert "amount" != "memo" && "amount" != "date";
  }

  /** A file without an amount column fails, naming just that column. */
  lemma MissingAmountExample(header: seq<string>)
    requires header == ["date", "description", "memo"]
    ensures CheckColumns("a.csv", header) == Failure(SchemaError("a.csv", {"amount"}))
  {
    ExampleColumns(header);
    ExampleColumnSet(header);
    ExampleMissing();
  }
}
