/**
 * Batch ingestion, `parse_records`: the buffer is split on newlines, empty
 * lines are skipped, every other line is parsed, successes are added to
 * the store in line order and failures are skipped (and, when verbose,
 * reported with their 1-based line number).
 */
module Ingest {
  import opened Wrappers
  import opened Decimal
  import opened Text
  import opened RecordParser
  import opened RecordStore
  import opened Sorting

  /** What the verbose mode reports about a skipped line. */
  datatype Diagnostic = Diagnostic(line: nat, error: ParseError, raw: string)

  function DiagnosticLine(d: Diagnostic): int
  {
    d.line
  }

  /** The line is non-empty and parses to a record with id k. */
  ghost predicate Adds(line: string, k: int)
  {
    line != [] && ParseRecord(line).Ok? && ParseRecord(line).value.id == k
  }

  /** The line is non-empty and does not parse. */
  ghost predicate Rejected(line: string)
  {
    line != [] && ParseRecord(line).Err?
  }

  /** The effect of one line on the store. */
  function Step(store: map<Int32, Record>, line: string): map<Int32, Record>
  {
    if line == [] then store
    else
      match ParseRecord(line)
      case Ok(r) => store[r.id := r]
      case Err(_) => store
  }

  /** The store after the lines, taken in order, starting from an empty store. */
  function IngestLines(lines: seq<string>): map<Int32, Record>
  {
    if lines == [] then map[] else Step(IngestLines(lines[..|lines| - 1]), lines[|lines| - 1])
  }

  /** The diagnostics for the lines, in order. */
  function LineDiagnostics(lines: seq<string>): seq<Diagnostic>
  {
    if lines == [] then []
    else
      var n := |lines|;
      var line := lines[n - 1];
      LineDiagnostics(lines[..n - 1])
        + match ParseRecord(line)
          case Err(e) => if line != [] then [Diagnostic(n, e, line)] else []
          case Ok(_) => []
  }

  /** The store `parse_records` builds from a buffer. */
  function Load(buffer: string): map<Int32, Record>
  {
    IngestLines(Split(buffer, '\n'))
  }

  // ---------------------------------------------------------------------
  // What ingestion computes

  /** Every record is stored under its own id. */
  lemma {:induction false} IngestValid(lines: seq<string>)
    ensures forall k :: k in IngestLines(lines) ==> IngestLines(lines)[k].id == k
  {
    if lines != [] {
      IngestValid(lines[..|lines| - 1]);
    }
  }

  /**
   * The store holds exactly the ids of the non-empty lines that parse;
   * a failing line never stops the lines after it.
   */
  lemma {:induction false} IngestKeys(lines: seq<string>, k: int)
    ensures k in IngestLines(lines) <==> exists i :: 0 <= i < |lines| && Adds(lines[i], k)
  {
    if lines != [] {
      var n := |lines| - 1;
      var prefix := lines[..n];
      IngestKeys(prefix, k);
      assert k in IngestLines(lines) <==> k in IngestLines(prefix) || Adds(lines[n], k);
      assert forall i :: 0 <= i < n ==> prefix[i] == lines[i];
    }
  }

  /** For a repeated id, the record of the last line carrying it wins. */
  lemma {:induction false} IngestLastWins(lines: seq<string>, i: nat, k: int)
    requires i < |lines| && Adds(lines[i], k)
    requires forall j :: i < j < |lines| ==> !Adds(lines[j], k)
    ensures k in IngestLines(lines) && IngestLines(lines)[k] == ParseRecord(lines[i]).value
  {
    var n := |lines| - 1;
    if i < n {
      var prefix := lines[..n];
      forall j | i < j < n ensures !Adds(prefix[j], k) {
        assert prefix[j] == lines[j];
      }
      IngestLastWins(prefix, i, k);
    }
  }

  /** Removing an empty or malformed line does not change the resulting store. */
  lemma {:induction false} IngestSkipsRejected(lines: seq<string>, i: nat)
    requires i < |lines| && (lines[i] == [] || ParseRecord(lines[i]).Err?)
    ensures IngestLines(lines) == IngestLines(lines[..i] + lines[i + 1..])
  {
    var n := |lines| - 1;
    var without := lines[..i] + lines[i + 1..];
    if i == n {
      assert without == lines[..n];
    } else {
      var prefix := lines[..n];
      IngestSkipsRejected(prefix, i);
      assert prefix[..i] + prefix[i + 1..] == without[..|without| - 1];
      assert without[|without| - 1] == lines[n];
    }
  }

  /** d is the diagnostic for the line with 0-based index i. */
  ghost predicate ReportedAt(line: string, i: nat, d: Diagnostic)
  {
    Rejected(line) && d == Diagnostic(i + 1, ParseRecord(line).error, line)
  }

  /**
   * A diagnostic is reported for exactly the non-empty lines that fail,
   * with the 1-based line number, the error and the raw line.
   */
  lemma {:induction false} DiagnosticsExact(lines: seq<string>, d: Diagnostic)
    ensures d in LineDiagnostics(lines) <==> exists i :: 0 <= i < |lines| && ReportedAt(lines[i], i, d)
  {
    if lines != [] {
      var n := |lines| - 1;
      var prefix := lines[..n];
      DiagnosticsExact(prefix, d);
      assert forall i :: 0 <= i < n ==> prefix[i] == lines[i];
      assert d in LineDiagnostics(lines) <==> d in LineDiagnostics(prefix) || ReportedAt(lines[n], n, d);
    }
  }

  /** Diagnostics come out in line order, each line at most once, and never past the last line. */
  lemma {:induction false} DiagnosticsInLineOrder(lines: seq<string>)
    ensures StrictlySortedBy(LineDiagnostics(lines), DiagnosticLine)
    ensures forall i :: 0 <= i < |LineDiagnostics(lines)| ==> 1 <= LineDiagnostics(lines)[i].line <= |lines|
  {
    if lines != [] {
      DiagnosticsInLineOrder(lines[..|lines| - 1]);
    }
  }

  /**
   * Two well-formed lines around one whose id field is empty (the buffer
   * `"1,Alice\n,NoId\n2,Bob\n"` is an instance): both ids are loaded, the
   * middle line is reported once, as line 2, and does not stop line 3.
   */
  lemma LoadSkipsMalformedLine(a: Int32, nameA: string, bad: string, b: Int32, nameB: string)
    requires nameA != [] && ',' !in nameA && '\n' !in nameA
    requires nameB != [] && ',' !in nameB && '\n' !in nameB
    requires bad != [] && bad[0] == ',' && '\n' !in bad
    ensures var buffer := FormatInt(a) + [','] + nameA + ['\n'] + bad + ['\n'] + FormatInt(b) + [','] + nameB + ['\n'];
      && Load(buffer).Keys == {a, b}
      && Load(buffer)[b] == Record(b, nameB, None)
      && (a != b ==> Load(buffer)[a] == Record(a, nameA, None))
      && LineDiagnostics(Split(buffer, '\n')) == [Diagnostic(2, InvalidId(Empty), bad)]
  {
    var lineA, lineB := FormatInt(a) + [','] + nameA, FormatInt(b) + [','] + nameB;
    var lines := [lineA, bad, lineB, []];
    var buffer := FormatInt(a) + [','] + nameA + ['\n'] + bad + ['\n'] + FormatInt(b) + [','] + nameB + ['\n'];
    FormatIntHasNoSeparator(a, '\n');
    FormatIntHasNoSeparator(b, '\n');
    assert buffer == Join(lines, '\n') by {
      assert Join(lines[3..], '\n') == [];
      assert Join(lines[2..], '\n') == lineB + ['\n'];
      assert Join(lines[1..], '\n') == bad + ['\n'] + lineB + ['\n'];
    }
    SplitJoin(lines, '\n');
    var recA, recB := Record(a, nameA, None), Record(b, nameB, None);
    ParseIdName(a, nameA);
    ParseRecordEmptyId(bad);
    ParseIdName(b, nameB);
    assert lines[..1] == [lineA] && lines[..1][..0] == [];
    assert lines[..2][..1] == lines[..1] && lines[..3][..2] == lines[..2] && lines[..4][..3] == lines[..3];
    assert lines[..4] == lines;
    assert IngestLines(lines[..1]) == map[a := recA];
    assert IngestLines(lines[..2]) == map[a := recA];
    assert IngestLines(lines[..3]) == map[a := recA][b := recB];
    assert IngestLines(lines) == map[a := recA][b := recB];
    var diag := Diagnostic(2, InvalidId(Empty), bad);
    assert LineDiagnostics(lines[..1]) == [];
    assert LineDiagnostics(lines[..2]) == [diag];
    assert LineDiagnostics(lines[..3]) == [diag];
    assert LineDiagnostics(lines) == [diag];
  }

  // ---------------------------------------------------------------------
  // The imperative ingestion loop

  /**
   * `parse_records(buffer, verbose)`: a fresh store holding what the lines
   * add, in line order, and the diagnostics the verbose mode reports.
   */
  method ParseRecords(buffer: string, verbose: bool) returns (records: Records, log: seq<Diagnostic>)
    ensures fresh(records) && records.Valid()
    ensures records.inner == Load(buffer)
    ensures log == if verbose then LineDiagnostics(Split(buffer, '\n')) else []
  {
    records := new Records();
    log := [];
    var lines := Split(buffer, '\n');
    var num := 0;
    while num < |lines|
      invariant 0 <= num <= |lines|
      invariant records.Valid()
      invariant records.inner == IngestLines(lines[..num])
      invariant log == if verbose then LineDiagnostics(lines[..num]) else []
    {
      var record := lines[num];
      assert lines[..num + 1][..num] == lines[..num];
      if record != [] {
        match ParseRecord(record) {
          case Ok(r) =>
            records.Add(r);
          case Err(e) =>
            if verbose {
              log := log + [Diagnostic(num + 1, e, record)];
            }
        }
      }
      num := num + 1;
    }
    assert lines[..num] == lines;
  }
}
