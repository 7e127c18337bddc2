/** What `TDSSolverView` extracts from an uploaded file: `_process_file`
    picks a handler by the file name's suffix, `_process_csv_file` turns one
    CSV file into its rows or an error text, and `_process_zip_file` gathers
    the CSV files of an extracted archive into a map keyed by base name.

    The file system and the CSV parser are not modelled: what `pd.read_csv`
    and `to_dict(orient='records')` give for a file is an input (`Parse`), and
    the directories `os.walk` visits after `extractall` are an input too, one
    sequence of entries per directory in walk order. */
module FileContent {
  import opened Text
  import opened Wrappers

  /** One CSV row: column name to cell, with each cell kept as its text. */
  type Record = map<string, string>

  /** What parsing one file with pandas gives: its rows, or the text of the
      exception it raised. */
  datatype Parse = Parsed(rows: seq<Record>) | ParseFailed(cause: string)

  /** The result of `_process_csv_file`: the rows, or an error text. */
  datatype CsvContent = Rows(rows: seq<Record>) | CsvError(message: string)

  /** A non-`None` result of `_process_file`: one CSV file's content, or the
      map from base name to content built for an archive. */
  datatype Content = Table(table: CsvContent) | Archive(files: map<string, CsvContent>)

  /** A file reported by `os.walk`: its base name and what parsing it gives. */
  datatype WalkEntry = WalkEntry(name: string, parse: Parse)

  /** The branch `_process_file` takes. */
  datatype Handler = ZipHandler | CsvHandler | NoHandler

  const CsvErrorPrefix: string := "Error processing CSV: "

  /** `_process_csv_file`: a parse failure is caught and reported as
      "Error processing CSV: " followed by the exception's text. */
  function ProcessCsv(parse: Parse): (content: CsvContent)
    ensures parse.Parsed? <==> content.Rows?
    ensures parse.Parsed? ==> content.rows == parse.rows
    ensures parse.ParseFailed? ==>
      && CsvErrorPrefix <= content.message
      && content.message[|CsvErrorPrefix|..] == parse.cause
  {
    match parse
    case Parsed(rows) => Rows(rows)
    case ParseFailed(cause) => CsvError(CsvErrorPrefix + cause)
  }

  /** `_process_file`'s choice: ".zip" is tested first, then ".csv"; any
      other name (the test is case-sensitive) gets no handler. */
  function Dispatch(path: string): (handler: Handler)
    ensures handler == ZipHandler <==> EndsWith(path, ".zip")
    ensures handler == CsvHandler <==> EndsWith(path, ".csv") && !EndsWith(path, ".zip")
    ensures handler == NoHandler <==> !EndsWith(path, ".csv") && !EndsWith(path, ".zip")
  {
    if EndsWith(path, ".zip") then ZipHandler
    else if EndsWith(path, ".csv") then CsvHandler
    else NoHandler
  }

  /** No name ends in both ".zip" and ".csv". */
  lemma SuffixesExclusive(path: string)
    ensures !(EndsWith(path, ".zip") && EndsWith(path, ".csv"))
  {
    if EndsWith(path, ".zip") {
      assert path[|path| - 1] == 'p';
    }
  }

  /** Since the suffixes exclude each other, testing ".csv" first would choose
      the same handler for every name. */
  lemma DispatchOrderIrrelevant(path: string)
    ensures Dispatch(path) ==
      if EndsWith(path, ".csv") then CsvHandler
      else if EndsWith(path, ".zip") then ZipHandler
      else NoHandler
  {
    SuffixesExclusive(path);
  }

  /** "a.csv.zip" is an archive, "a.zip.csv" a CSV file, "data.CSV" neither. */
  lemma DispatchExamples()
    ensures Dispatch("a.csv.zip") == ZipHandler
    ensures Dispatch("a.zip.csv") == CsvHandler
    ensures Dispatch("data.CSV") == NoHandler
  {
    assert "a.csv.zip"[5..] == ".zip";
    assert "a.zip.csv"[5..] == ".csv";
    assert "data.CSV"[4..] != ".csv";
    assert "data.CSV"[4..] != ".zip";
  }

  /** The test `file.endswith('.csv')` applied to each walked base name. */
  predicate IsCsvName(name: string) {
    EndsWith(name, ".csv")
  }

  /** The files of all walked directories, in walk order. */
  function Flatten(walk: seq<seq<WalkEntry>>): (entries: seq<WalkEntry>)
    decreases |walk|
  {
    if |walk| == 0 then [] else Flatten(walk[..|walk| - 1]) + walk[|walk| - 1]
  }

  /** The `results` dictionary after visiting `entries` in order: each CSV
      name is stored with its content, a later entry replacing an earlier one
      with the same name; other names are skipped. */
  function ZipResults(entries: seq<WalkEntry>): (results: map<string, CsvContent>)
    ensures forall name :: name in results ==> IsCsvName(name)
    decreases |entries|
  {
    if |entries| == 0 then map[]
    else
      var before := ZipResults(entries[..|entries| - 1]);
      var entry := entries[|entries| - 1];
      if IsCsvName(entry.name) then before[entry.name := ProcessCsv(entry.parse)] else before
  }

  /** The names the result map holds. */
  function CsvNames(entries: seq<WalkEntry>): set<string> {
    set i | 0 <= i < |entries| && IsCsvName(entries[i].name) :: entries[i].name
  }

  /** The map's keys are exactly the walked names that end in ".csv". */
  lemma {:induction false} ZipKeys(entries: seq<WalkEntry>)
    ensures ZipResults(entries).Keys == CsvNames(entries)
    decreases |entries|
  {
    if |entries| > 0 {
      var front := entries[..|entries| - 1];
      ZipKeys(front);
      var entry := entries[|entries| - 1];
      forall name | name in CsvNames(entries) ensures name in ZipResults(entries) {
        var i :| 0 <= i < |entries| && IsCsvName(entries[i].name) && entries[i].name == name;
        if i < |entries| - 1 {
          assert front[i] == entries[i];
        }
      }
      forall name | name in CsvNames(front) ensures name in CsvNames(entries) {
        var i :| 0 <= i < |front| && IsCsvName(front[i].name) && front[i].name == name;
        assert entries[i] == front[i];
      }
    }
  }

  /** Last one wins: for the last entry carrying a given CSV name, the map
      holds that entry's content. */
  lemma {:induction false} ZipLastWins(entries: seq<WalkEntry>, k: nat)
    requires k < |entries| && IsCsvName(entries[k].name)
    requires forall j :: k < j < |entries| ==> entries[j].name != entries[k].name
    ensures entries[k].name in ZipResults(entries)
    ensures ZipResults(entries)[entries[k].name] == ProcessCsv(entries[k].parse)
    decreases |entries|
  {
    if k < |entries| - 1 {
      var front := entries[..|entries| - 1];
      assert front[k] == entries[k];
      ZipLastWins(front, k);
    }
  }

  /** A non-CSV entry anywhere in the walk leaves the map as it would be
      without it. */
  lemma {:induction false} NonCsvEntryIgnored(before: seq<WalkEntry>, entry: WalkEntry, after: seq<WalkEntry>)
    requires !IsCsvName(entry.name)
    ensures ZipResults(before + [entry] + after) == ZipResults(before + after)
    decreases |after|
  {
    if |after| == 0 {
      assert before + [entry] + after == before + [entry];
      assert (before + [entry])[..|before|] == before;
      assert before + after == before;
    } else {
      var front := after[..|after| - 1];
      NonCsvEntryIgnored(before, entry, front);
      assert (before + [entry] + after)[..|before + [entry] + after| - 1] == before + [entry] + front;
      assert (before + after)[..|before + after| - 1] == before + front;
    }
  }

  /** One more visited entry updates the map as the loop body does. */
  lemma ZipResultsStep(entries: seq<WalkEntry>, entry: WalkEntry)
    ensures ZipResults(entries + [entry]) ==
      if IsCsvName(entry.name) then ZipResults(entries)[entry.name := ProcessCsv(entry.parse)]
      else ZipResults(entries)
  {
    assert (entries + [entry])[..|entries|] == entries;
  }

  /** The nested loops of `_process_zip_file`: over the directories `os.walk`
      visits and, within each, over its files, storing each CSV file's
      content under its base name. */
  method ProcessZip(walk: seq<seq<WalkEntry>>) returns (results: map<string, CsvContent>)
    ensures results == ZipResults(Flatten(walk))
  {
    results := map[];
    for d := 0 to |walk|
      invariant results == ZipResults(Flatten(walk[..d]))
    {
      var files := walk[d];
      ghost var visited := Flatten(walk[..d]);
      assert visited + files[..0] == visited;
      for f := 0 to |files|
        invariant results == ZipResults(visited + files[..f])
      {
        var file := files[f];
        assert visited + files[..f + 1] == (visited + files[..f]) + [file];
        ZipResultsStep(visited + files[..f], file);
        if IsCsvName(file.name) {
          results := results[file.name := ProcessCsv(file.parse)];
        }
      }
      assert walk[..d + 1][..d] == walk[..d];
      assert files[..|files|] == files;
    }
    assert walk[..|walk|] == walk;
  }

  /** `_process_file`: the archive's map, one CSV file's content, or `None`.
      `parse` is what parsing the uploaded file itself gives; `walk` is what
      walking the extracted archive gives. */
  function ProcessFile(path: string, parse: Parse, walk: seq<seq<WalkEntry>>): (content: Option<Content>)
    ensures content.None? <==> Dispatch(path) == NoHandler
    ensures content.Some? && content.value.Archive? <==> Dispatch(path) == ZipHandler
    ensures content.Some? && content.value.Archive? ==> content.value.files == ZipResults(Flatten(walk))
    ensures content.Some? && content.value.Archive? ==> content.value.files.Keys == CsvNames(Flatten(walk))
    ensures content.Some? && content.value.Table? ==> content.value.table == ProcessCsv(parse)
  {
    match Dispatch(path)
    case ZipHandler =>
      ZipKeys(Flatten(walk));
      Some(Archive(ZipResults(Flatten(walk))))
    case CsvHandler => Some(Table(ProcessCsv(parse)))
    case NoHandler => None
  }

  /** "x.csv" and "y.csv" are two different CSV names. */
  lemma TwoCsvNames()
    ensures IsCsvName("x.csv") && IsCsvName("y.csv") && "x.csv" != "y.csv"
  {
    assert "x.csv"[1..] == ".csv" && "y.csv"[1..] == ".csv";
    assert "x.csv"[0] != "y.csv"[0];
  }

  /** An archive holding "x.csv" and "y.csv" gives a map with exactly those
      two keys, each mapped to its own file's content. */
  lemma TwoCsvArchive(x: Parse, y: Parse)
    ensures var results := ZipResults([WalkEntry("x.csv", x), WalkEntry("y.csv", y)]);
      && results.Keys == {"x.csv", "y.csv"}
      && results["x.csv"] == ProcessCsv(x)
      && results["y.csv"] == ProcessCsv(y)
  {
    TwoCsvNames();
    ZipResultsStep([], WalkEntry("x.csv", x));
    ZipResultsStep([WalkEntry("x.csv", x)], WalkEntry("y.csv", y));
  }
}
