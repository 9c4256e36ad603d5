/** The plain CSV-to-Parquet converter: the same output naming, a smaller
    clean-up (percentages and theoretical quantities only), no row filter,
    and its own directory-wide loop. */
module BasicConversion {
  import opened Wrappers
  import opened Text
  import opened Normalise
  import GlueConversion

  function CleanCell(column: string, v: string): string {
    if column == "participacao_pct" then CleanPercent(v)
    else if column == "quantidade_teorica" then CleanThousands(v)
    else v
  }

  function CleanRow(row: map<string, string>): (r: map<string, string>)
    ensures r.Keys == row.Keys
  {
    map k | k in row :: CleanCell(k, row[k])
  }

  /** The clean-up of `convert_csv_to_parquet`: every row is kept, in order,
      with only its two numeric text columns rewritten. */
  function CleanTable(t: Table): (r: Table)
    ensures r.columns == t.columns
    ensures |r.rows| == |t.rows|
    ensures forall i :: 0 <= i < |r.rows| ==> r.rows[i].Keys == t.rows[i].Keys
    ensures forall i :: 0 <= i < |r.rows| && "participacao_pct" in r.rows[i] ==>
      ',' !in r.rows[i]["participacao_pct"] && '%' !in r.rows[i]["participacao_pct"]
    ensures forall i :: 0 <= i < |r.rows| && "quantidade_teorica" in r.rows[i] ==>
      ',' !in r.rows[i]["quantidade_teorica"]
    ensures forall i, k ::
      (0 <= i < |r.rows| && k in t.rows[i] && k != "participacao_pct" && k != "quantidade_teorica")
      ==> r.rows[i][k] == t.rows[i][k]
    ensures forall i :: 0 <= i < |r.rows| && "participacao_pct" in t.rows[i] ==>
      r.rows[i]["participacao_pct"] == CleanPercent(t.rows[i]["participacao_pct"])
    ensures forall i :: 0 <= i < |r.rows| && "quantidade_teorica" in t.rows[i] ==>
      r.rows[i]["quantidade_teorica"] == CleanThousands(t.rows[i]["quantidade_teorica"])
  {
    Table(t.columns, seq(|t.rows|, i requires 0 <= i < |t.rows| => CleanRow(t.rows[i])))
  }

  /** Both converters rewrite percentages and theoretical quantities the same
      way; they differ on `volume`, which only the Glue converter cleans. */
  lemma SharedRewritesAgree(v: string)
    ensures CleanCell("participacao_pct", v) == GlueConversion.CleanCell("participacao_pct", v)
    ensures CleanCell("quantidade_teorica", v) == GlueConversion.CleanCell("quantidade_teorica", v)
    ensures CleanCell("volume", v) == v
    ensures GlueConversion.CleanCell("volume", v) == CleanThousands(v)
  {
  }

  /** One CSV file: its path, its contents (`None` when reading fails), and
      whether writing the Parquet file succeeds. */
  datatype CsvSource = CsvSource(path: string, contents: Option<Table>, writable: bool)

  datatype BasicResult = Written(path: string, table: Table) | Failed {
    /** What the source returns: the output path, or "" on any failure. */
    function ReturnedPath(): string {
      match this
      case Written(p, _) => p
      case Failed => ""
    }
  }

  /** `convert_csv_to_parquet`: any failure yields "". */
  function ConvertCsvToParquet(src: CsvSource, outputDir: Option<string>): (r: BasicResult)
    ensures r.Written? <==> src.contents.Some? && src.writable
    ensures r.ReturnedPath() == "" <==> r.Failed?
    ensures r.Written? ==> EndsWith(r.path, ".parquet")
    ensures r.Written? ==> r.path == ParquetPath(src.path, outputDir)
    ensures r.Written? ==> r.table == CleanTable(src.contents.value)
    ensures r.Written? ==> |r.table.rows| == |src.contents.value.rows|
  {
    match src.contents
    case None => Failed
    case Some(t) =>
      if !src.writable then Failed
      else Written(ParquetPath(src.path, outputDir), CleanTable(t))
  }

  function ReturnedPathOf(src: CsvSource): (p: string)
    ensures p == "" || EndsWith(p, ".parquet")
  {
    ConvertCsvToParquet(src, None).ReturnedPath()
  }

  function ReturnedPaths(files: seq<CsvSource>): (r: seq<string>)
    ensures |r| == |files|
  {
    if files == [] then [] else [ReturnedPathOf(files[0])] + ReturnedPaths(files[1..])
  }

  lemma {:induction false} ReturnedPathsAppend(files: seq<CsvSource>, f: CsvSource)
    ensures ReturnedPaths(files + [f]) == ReturnedPaths(files) + [ReturnedPathOf(f)]
  {
    if files != [] {
      assert (files + [f])[1..] == files[1..] + [f];
      ReturnedPathsAppend(files[1..], f);
    } else {
      assert ReturnedPaths([f]) == [ReturnedPathOf(f)] by {
        assert [f][1..] == [];
      }
    }
  }

  lemma ConvertedStep(files: seq<CsvSource>, i: nat)
    requires i < |files|
    ensures NonEmpty(ReturnedPaths(files[..i + 1]))
         == NonEmpty(ReturnedPaths(files[..i]))
            + (if ReturnedPathOf(files[i]) == "" then [] else [ReturnedPathOf(files[i])])
  {
    assert files[..i + 1] == files[..i] + [files[i]];
    ReturnedPathsAppend(files[..i], files[i]);
    NonEmptyAppend(ReturnedPaths(files[..i]), ReturnedPathOf(files[i]));
  }

  /** `convert_all_csv_in_directory`: for a missing directory or no CSV
      files, nothing; otherwise only the successful paths, in input order. */
  method ConvertAllCsvInDirectory(directoryExists: bool, csvFiles: seq<CsvSource>)
    returns (converted: seq<string>)
    ensures !directoryExists ==> converted == []
    ensures directoryExists ==> converted == NonEmpty(ReturnedPaths(csvFiles))
    ensures |converted| <= |csvFiles|
  {
    if !directoryExists || |csvFiles| == 0 {
      return [];
    }
    converted := [];
    var i := 0;
    while i < |csvFiles|
      invariant 0 <= i <= |csvFiles|
      invariant converted == NonEmpty(ReturnedPaths(csvFiles[..i]))
    {
      var parquetFile := ReturnedPathOf(csvFiles[i]);
      ConvertedStep(csvFiles, i);
      if parquetFile != "" {
        converted := converted + [parquetFile];
      }
      i := i + 1;
    }
    assert csvFiles[..i] == csvFiles;
  }
}
