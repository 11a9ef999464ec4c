/** `main` (etl.py:100-115): the CSV files in path order, each transformed and,
    when it has rows, appended to the warehouse table, with a running count. */
module Pipeline {
  import opened Wrappers
  import opened Keywords
  import opened Schema
  import opened Paths
  import opened Transform

  /** One file of the input directory: its path and its parsed contents. */
  datatype SourceFile = SourceFile(path: string, csv: Csv)

  /** How a run ends. `loads` lists, in order, the frames handed to
      `load_to_postgres`, each one appended to the table. */
  datatype Outcome =
    | NoFiles
    | Completed(loads: seq<seq<Transaction>>, total: nat)
    | Aborted(loads: seq<seq<Transaction>>, failed: string, error: SchemaError)

  // ---------------------------------------------------------------------------
  // `sorted(glob(...))`
  // ---------------------------------------------------------------------------

  predicate SortedByPath(files: seq<SourceFile>) {
    forall i :: 0 < i < |files| ==> NotAbove(files[i - 1].path, files[i].path)
  }

  /** One step of the insertion sort: `f` goes before the first file whose
      path it does not exceed. */
  function InsertByPath(f: SourceFile, files: seq<SourceFile>): (r: seq<SourceFile>)
    ensures |r| == |files| + 1
  {
    if |files| == 0 then [f]
    else if NotAbove(f.path, files[0].path) then [f] + files
    else [files[0]] + InsertByPath(f, files[1..])
  }

  /** `sorted(glob(...))`: the directory listing in Python's string order of
      the paths. */
  function SortByPath(files: seq<SourceFile>): (r: seq<SourceFile>)
    ensures |r| == |files|
  {
    if |files| == 0 then [] else InsertByPath(files[0], SortByPath(files[1..]))
  }

  lemma SortedTail(files: seq<SourceFile>)
    requires SortedByPath(files) && |files| > 0
    ensures SortedByPath(files[1..])
  {
    var tail := files[1..];
    forall i | 0 < i < |tail|
      ensures NotAbove(tail[i - 1].path, tail[i].path)
    {
      assert tail[i - 1] == files[i] && tail[i] == files[i + 1];
    }
  }

  /** Inserting into a sorted listing keeps it sorted; the new first file is
      `f` or the old first file. */
  lemma {:induction false} InsertByPathSorted(f: SourceFile, files: seq<SourceFile>)
    requires SortedByPath(files)
    ensures SortedByPath(InsertByPath(f, files))
    ensures InsertByPath(f, files)[0] == f || (|files| > 0 && InsertByPath(f, files)[0] == files[0])
    decreases |files|
  {
    var r := InsertByPath(f, files);
    if |files| > 0 && NotAbove(f.path, files[0].path) {
      assert r == [f] + files;
      forall i | 1 < i < |r|
        ensures NotAbove(r[i - 1].path, r[i].path)
      {
        assert r[i - 1] == files[i - 2] && r[i] == files[i - 1];
      }
    } else if |files| > 0 {
      NotAboveTotal(f.path, files[0].path);
      SortedTail(files);
      var rest := InsertByPath(f, files[1..]);
      InsertByPathSorted(f, files[1..]);
      assert r == [files[0]] + rest;
      forall i | 1 < i < |r|
        ensures NotAbove(r[i - 1].path, r[i].path)
      {
        assert r[i - 1] == rest[i - 2] && r[i] == rest[i - 1];
      }
    }
  }

  /** The listing comes out sorted. */
  lemma {:induction false} SortByPathSorted(files: seq<SourceFile>)
    ensures SortedByPath(SortByPath(files))
    decreases |files|
  {
    if |files| > 0 {
      SortByPathSorted(files[1..]);
      InsertByPathSorted(files[0], SortByPath(files[1..]));
    }
  }

  /** Inserting adds exactly the one file. */
  lemma {:induction false} InsertByPathPermutes(f: SourceFile, files: seq<SourceFile>)
    ensures multiset(InsertByPath(f, files)) == multiset(files) + multiset{f}
    decreases |files|
  {
    if |files| > 0 && !NotAbove(f.path, files[0].path) {
      InsertByPathPermutes(f, files[1..]);
      assert files == [files[0]] + files[1..];
    }
  }

  /** Sorting keeps every file, each as often as it occurs. */
  lemma {:induction false} SortByPathPermutes(files: seq<SourceFile>)
    ensures multiset(SortByPath(files)) == multiset(files)
    decreases |files|
  {
    if |files| > 0 {
      SortByPathPermutes(files[1..]);
      InsertByPathPermutes(files[0], SortByPath(files[1..]));
      assert files == [files[0]] + files[1..];
    }
  }

  // ---------------------------------------------------------------------------
  // The loop
  // ---------------------------------------------------------------------------

  /** Loads and rows done before `o` happened. */
  function After(loads: seq<seq<Transaction>>, total: nat, o: Outcome): Outcome {
    match o
    case NoFiles => NoFiles
    case Completed(l, n) => Completed(loads + l, total + n)
    case Aborted(l, f, e) => Aborted(loads + l, f, e)
  }

  lemma AfterAfter(a: seq<seq<Transaction>>, t: nat, b: seq<seq<Transaction>>, s: nat, o: Outcome)
    ensures After(a, t, After(b, s, o)) == After(a + b, t + s, o)
  {
    match o
    case NoFiles =>
    case Completed(l, n) =>
      assert a + (b + l) == (a + b) + l;
    case Aborted(l, f, e) =>
      assert a + (b + l) == (a + b) + l;
  }

  /** The frame one file contributes: loaded only when it has rows. */
  function Batch(records: seq<Transaction>): (b: seq<seq<Transaction>>)
    ensures |b| <= 1
    ensures forall j :: 0 <= j < |b| ==> |b[j]| > 0
  {
    if |records| == 0 then [] else [records]
  }

  /** What `read_and_transform` gave for one file. */
  datatype FileResult = FileResult(path: string, result: Result<FileOutput, SchemaError>)

  function Results(table: KeywordTable, files: seq<SourceFile>): (rs: seq<FileResult>)
    requires WellFormed(table)
    ensures |rs| == |files|
    ensures forall i :: 0 <= i < |files| ==>
              rs[i] == FileResult(files[i].path, ReadAndTransform(table, files[i].path, files[i].csv))
  {
    seq(|files|, i requires 0 <= i < |files| =>
      FileResult(files[i].path, ReadAndTransform(table, files[i].path, files[i].csv)))
  }

  /** The `for f in files` loop over the files from here on: a file that
      fails the column check stops the run with its error. */
  function Process(rs: seq<FileResult>): (o: Outcome)
    ensures !o.NoFiles?
    ensures |o.loads| <= |rs|
  {
    if |rs| == 0 then
      Completed([], 0)
    else
      match rs[0].result
      case Failure(e) => Aborted([], rs[0].path, e)
      case Success(out) =>
        After(Batch(out.records), |out.records|, Process(rs[1..]))
  }

  /** `main()`: nothing to do without files, otherwise the loop over the
      sorted listing. */
  function Main(table: KeywordTable, listing: seq<SourceFile>): (o: Outcome)
    requires WellFormed(table)
    ensures o.NoFiles? <==> |listing| == 0
  {
    var files := SortByPath(listing);
    if |files| == 0 then
      NoFiles
    else
      Process(Results(table, files))
  }

  /** One turn of the loop: what is left of the run from file `i` on. */
  lemma ProcessStep(rs: seq<FileResult>, i: nat)
    requires i < |rs|
    ensures rs[i].result.Failure? ==> Process(rs[i..]) == Aborted([], rs[i].path, rs[i].result.error)
    ensures rs[i].result.Success? ==>
              Process(rs[i..]) == After(Batch(rs[i].result.value.records), |rs[i].result.value.records|, Process(rs[i + 1..]))
  {
    assert rs[i..][1..] == rs[i + 1..];
  }

  /** The loop invariant survives a file that passes the column check. */
  lemma LoopStep(rs: seq<FileResult>, i: nat, loads: seq<seq<Transaction>>, total: nat)
    requires i < |rs| && rs[i].result.Success?
    requires Process(rs) == After(loads, total, Process(rs[i..]))
    ensures Process(rs) == After(loads + Batch(rs[i].result.value.records),
                                 total + |rs[i].result.value.records|, Process(rs[i + 1..]))
  {
    var records := rs[i].result.value.records;
    ProcessStep(rs, i);
    AfterAfter(loads, total, Batch(records), |records|, Process(rs[i + 1..]));
  }

  /** The `for f in files` loop as the source runs it, accumulating the
      loads and the row count as it goes. */
  method RunLoop(rs: seq<FileResult>) returns (o: Outcome)
    ensures o == Process(rs)
  {
    var loads: seq<seq<Transaction>> := [];
    var total: nat := 0;
    var i := 0;
    while i < |rs|
      invariant 0 <= i <= |rs|
      invariant Process(rs) == After(loads, total, Process(rs[i..]))
    {
      if rs[i].result.Failure? {
        assert Process(rs) == Aborted(loads, rs[i].path, rs[i].result.error) by {
          ProcessStep(rs, i);
          assert loads + [] == loads;
        }
        return Aborted(loads, rs[i].path, rs[i].result.error);
      }
      var records := rs[i].result.value.records;
      var next := if |records| > 0 then loads + [records] else loads;
      assert Process(rs) == After(next, total + |records|, Process(rs[i + 1..])) by {
        LoopStep(rs, i, loads, total);
        assert loads + Batch(records) == next;
      }
      loads, total, i := next, total + |records|, i + 1;
    }
    assert rs[i..] == [];
    return Completed(loads, total);
  }

  /** `main()`: sort the listing, stop early when it is empty, otherwise
      transform every file and run the loop. */
  method RunPipeline(table: KeywordTable, listing: seq<SourceFile>) returns (o: Outcome)
    requires WellFormed(table)
    ensures o == Main(table, listing)
  {
    var files := SortByPath(listing);
    if |files| == 0 {
      return NoFiles;
    }
    o := RunLoop(Results(table, files));
  }

  // ---------------------------------------------------------------------------
  // What a run does
  // ---------------------------------------------------------------------------

  /** The rows in a list of loads, in load order. */
  function Flatten(loads: seq<seq<Transaction>>): seq<Transaction> {
    if |loads| == 0 then [] else loads[0] + Flatten(loads[1..])
  }

  /** Every record of the files, in file order: what the table gains when no
      file fails. */
  function AllRecords(rs: seq<FileResult>): seq<Transaction> {
    if |rs| == 0 then []
    else
      match rs[0].result
      case Failure(_) => []
      case Success(out) => out.records + AllRecords(rs[1..])
  }

  lemma {:induction false} FlattenAppend(a: seq<seq<Transaction>>, b: seq<seq<Transaction>>)
    ensures Flatten(a + b) == Flatten(a) + Flatten(b)
    decreases |a|
  {
    if |a| == 0 {
      assert a + b == b;
    } else {
      assert (a + b)[1..] == a[1..] + b;
      FlattenAppend(a[1..], b);
    }
  }

  lemma FlattenBatch(records: seq<Transaction>)
    ensures Flatten(Batch(records)) == records
  {
    if |records| > 0 {
      assert Batch(records)[1..] == [];
    }
  }

  /** The run completes exactly when every file passes the column check; it
      then appends every record of every file, in file order, and never hands
      an empty frame to the loader. */
  lemma {:induction false} ProcessCompletes(rs: seq<FileResult>)
    ensures Process(rs).Completed? <==> forall i :: 0 <= i < |rs| ==> rs[i].result.Success?
    ensures Process(rs).Completed? ==> Flatten(Process(rs).loads) == AllRecords(rs)
    ensures forall j :: 0 <= j < |Process(rs).loads| ==> |Process(rs).loads[j]| > 0
    decreases |rs|
  {
    if |rs| > 0 {
      ProcessCompletes(rs[1..]);
      match rs[0].result
      case Failure(e) =>
      case Success(out) =>
        var b := Batch(out.records);
        FlattenAppend(b, Process(rs[1..]).loads);
        FlattenBatch(out.records);
        assert forall i :: 0 < i < |rs| ==> rs[i] == rs[1..][i - 1];
    }
  }

  /** `main` reports what it loaded: the total is the number of rows in the
      frames handed to the loader. */
  lemma {:induction false} TotalIsRowsLoaded(rs: seq<FileResult>)
    requires Process(rs).Completed?
    ensures Process(rs).total == |Flatten(Process(rs).loads)|
    decreases |rs|
  {
    if |rs| > 0 {
      match rs[0].result
      case Success(out) =>
        TotalIsRowsLoaded(rs[1..]);
        FlattenAppend(Batch(out.records), Process(rs[1..]).loads);
        FlattenBatch(out.records);
    }
  }

  /** A run that stops names the first file, in path order, to fail the
      column check; every earlier file passed. */
  lemma {:induction false} ProcessAborts(rs: seq<FileResult>)
    requires Process(rs).Aborted?
    ensures exists j :: 0 <= j < |rs|
              && rs[j] == FileResult(Process(rs).failed, Failure(Process(rs).error))
              && forall i :: 0 <= i < j ==> rs[i].result.Success?
    decreases |rs|
  {
    match rs[0].result
    case Failure(e) =>
      assert rs[0] == FileResult(Process(rs).failed, Failure(Process(rs).error));
    case Success(out) =>
      ProcessAborts(rs[1..]);
      var j :| 0 <= j < |rs[1..]|
        && rs[1..][j] == FileResult(Process(rs[1..]).failed, Failure(Process(rs[1..]).error))
        && forall i :: 0 <= i < j ==> rs[1..][i].result.Success?;
      assert rs[j + 1] == rs[1..][j];
      assert forall i :: 0 < i < j + 1 ==> rs[i] == rs[1..][i - 1];
  }
}
