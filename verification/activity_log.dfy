/**
 The custom-log reader of sex_stats.py without its file handling:
 `read_activity_log` takes the lines `readlines()` returned, drops the first
 `header` of them with a Python slice, and maps `parse_log_line` over the
 rest in order. The extension test of the entry point that picks this
 reader or the health-export one is modelled here too.
 */
module ActivityLog {
  import opened Wrappers
  import opened TimeStamps
  import opened LogLines

  /** `xs[start:]` with Python's slice rules: a start past the end gives the
      empty list, and a negative start counts from the end. */
  function SliceFrom<T>(xs: seq<T>, start: int): (r: seq<T>)
    ensures |r| <= |xs| && r == xs[|xs| - |r|..]
    ensures 0 <= start <= |xs| ==> |r| == |xs| - start
    ensures start > |xs| ==> r == []
    ensures start < 0 ==> |r| == if -start <= |xs| then -start else |xs|
  {
    if start >= 0 then
      (if start <= |xs| then xs[start..] else [])
    else
      (if -start <= |xs| then xs[|xs| + start..] else xs)
  }

  /** Applying `f` to each element in order, the first failure ending the
      traversal. */
  function MapUntilFailure<A, B, E>(xs: seq<A>, f: A -> Result<B, E>): (r: Result<seq<B>, E>)
    ensures r.Success? <==> forall k :: 0 <= k < |xs| ==> f(xs[k]).Success?
    ensures r.Success? ==> |r.value| == |xs| && forall k :: 0 <= k < |xs| ==> f(xs[k]) == Success(r.value[k])
    ensures r.Failure? ==>
      exists k :: 0 <= k < |xs| && f(xs[k]) == Failure(r.error) && forall j :: 0 <= j < k ==> f(xs[j]).Success?
  {
    if |xs| == 0 then Success([])
    else
      match f(xs[0])
      case Failure(e) => Failure(e)
      case Success(head) =>
        var rest := MapUntilFailure(xs[1..], f);
        assert forall k :: 1 <= k < |xs| ==> xs[1..][k - 1] == xs[k];
        match rest
        case Failure(e) =>
          assert exists k :: 0 <= k < |xs| && f(xs[k]) == Failure(e) && forall j :: 0 <= j < k ==> f(xs[j]).Success? by {
            var k :| 0 <= k < |xs[1..]| && f(xs[1..][k]) == Failure(e) && forall j :: 0 <= j < k ==> f(xs[1..][j]).Success?;
            assert f(xs[k + 1]) == Failure(e);
          }
          Failure(e)
        case Success(tail) => Success([head] + tail)
  }

  /** `map(parse_log_line, lines)` as the DataFrame constructor consumes it:
      line by line, in order, the first exception ending the read. */
  function ParseLines(lines: seq<string>): (r: Result<seq<Option<LogLine>>, Fault>)
    ensures r.Success? <==> forall k :: 0 <= k < |lines| ==> ParseLogLine(lines[k]).Success?
    ensures r.Success? ==>
      |r.value| == |lines| && forall k :: 0 <= k < |lines| ==> ParseLogLine(lines[k]) == Success(r.value[k])
    ensures r.Failure? ==>
      exists k :: 0 <= k < |lines| && ParseLogLine(lines[k]) == Failure(r.error)
                  && forall j :: 0 <= j < k ==> ParseLogLine(lines[j]).Success?
  {
    MapUntilFailure(lines, ParseLogLine)
  }

  /** `read_activity_log(fp, header)` given the lines of the file. */
  function ReadActivityLog(lines: seq<string>, header: int := 1): (r: Result<seq<Option<LogLine>>, Fault>)
    ensures r.Success? <==> forall k :: 0 <= k < |SliceFrom(lines, header)| ==> ParseLogLine(SliceFrom(lines, header)[k]).Success?
    ensures r.Success? ==>
      && |r.value| == |SliceFrom(lines, header)|
      && forall k :: 0 <= k < |r.value| ==> ParseLogLine(SliceFrom(lines, header)[k]) == Success(r.value[k])
    ensures header >= |lines| ==> r == Success([])
    ensures 0 <= header <= |lines| && r.Success? ==>
      && |r.value| == |lines| - header
      && forall k :: 0 <= k < |r.value| ==> ParseLogLine(lines[header + k]) == Success(r.value[k])
    ensures 0 <= header && r.Failure? ==>
      exists k :: header <= k < |lines| && ParseLogLine(lines[k]) == Failure(r.error)
  {
    ParseLines(SliceFrom(lines, header))
  }

  /** Whatever the header lines say, only the lines after them are parsed. */
  lemma HeaderNeverParsed(head: seq<string>, other: seq<string>, body: seq<string>)
    requires |head| == |other|
    ensures ReadActivityLog(head + body, |head|) == ReadActivityLog(other + body, |other|) == ParseLines(body)
  {
    assert (head + body)[|head|..] == body;
    assert (other + body)[|other|..] == body;
  }

  /** Which reader the entry point picks. */
  datatype Reader = HealthExportReader | ActivityLogReader

  /** `path.rsplit('.', 1)[-1]`: the text after the last dot, or the whole
      path when it has no dot. */
  function LastDotField(path: string): (r: string)
    ensures |r| <= |path| && r == path[|path| - |r|..]
    ensures '.' !in r
    ensures |r| < |path| ==> path[|path| - |r| - 1] == '.'
  {
    if |path| == 0 then ""
    else if path[|path| - 1] == '.' then ""
    else LastDotField(path[..|path| - 1]) + [path[|path| - 1]]
  }

  /** The dispatch of the entry point on `args.file`. */
  function ReaderFor(path: string): Reader {
    if LastDotField(path) == "csv" then HealthExportReader else ActivityLogReader
  }

  /** The CSV reader is chosen exactly for a path ending in `.csv` and for
      the bare name `csv`; the test is case-sensitive. */
  lemma CsvRouting(path: string)
    ensures ReaderFor(path) == HealthExportReader <==>
      path == "csv" || (|path| >= 4 && path[|path| - 4..] == ".csv")
  {
    var r := LastDotField(path);
    if |path| >= 4 && path[|path| - 4..] == ".csv" {
      assert path[|path| - 1] == 'v' && path[|path| - 2] == 's' && path[|path| - 3] == 'c' && path[|path| - 4] == '.';
      assert LastDotField(path[..|path| - 3]) == "";
      assert path[..|path| - 2] == path[..|path| - 3] + [path[|path| - 3]];
      assert path[..|path| - 1] == path[..|path| - 2] + [path[|path| - 2]];
      assert r == "csv";
    }
    if r == "csv" && path != "csv" {
      assert |r| < |path|;
      assert path[|path| - 4..] == [path[|path| - 4]] + r;
    }
  }

  lemma CsvRoutingExamples()
    ensures ReaderFor("export.csv") == HealthExportReader
    ensures ReaderFor("csv") == HealthExportReader
    ensures ReaderFor("export.CSV") == ActivityLogReader
    ensures ReaderFor("log.txt") == ActivityLogReader
  {
    CsvRouting("export.csv");
    CsvRouting("csv");
    CsvRouting("export.CSV");
    CsvRouting("log.txt");
  }
}
