/** The Glue-compatible converter: cleaning of an IBOV CSV, the Arrow schema
    chosen per column, output naming, and the directory-wide loop. */
module GlueConversion {
  import opened Wrappers
  import opened Text
  import opened Normalise

  /** The pandas dtype family of a column after cleaning. */
  datatype ColumnKind = DatetimeKind | IntegerKind | FloatKind | BoolKind | OtherKind

  datatype ArrowType = TimestampMs | Int64 | Float64 | Boolean | Utf8

  datatype Field = Field(name: string, arrowType: ArrowType)

  /** A column absent from the dtype map is an `object` column. */
  function KindOf(dtypes: map<string, ColumnKind>, column: string): ColumnKind {
    if column in dtypes then dtypes[column] else OtherKind
  }

  /** The Arrow type of one column: `data_coleta` is always a string;
      otherwise each numeric, temporal or boolean family has its own type
      and everything else is a string. */
  function ArrowTypeFor(name: string, kind: ColumnKind): (t: ArrowType)
    ensures name == "data_coleta" ==> t == Utf8
    ensures name != "data_coleta" ==>
      && (t == TimestampMs <==> kind == DatetimeKind)
      && (t == Int64 <==> kind == IntegerKind)
      && (t == Float64 <==> kind == FloatKind)
      && (t == Boolean <==> kind == BoolKind)
      && (t == Utf8 <==> kind == OtherKind)
  {
    if name == "data_coleta" then Utf8
    else
      match kind
      case DatetimeKind => TimestampMs
      case IntegerKind => Int64
      case FloatKind => Float64
      case BoolKind => Boolean
      case OtherKind => Utf8
  }

  /** `create_glue_compatible_schema`: one field per column, in column order. */
  function GlueSchema(columns: seq<string>, dtypes: map<string, ColumnKind>): (r: seq<Field>)
    ensures |r| == |columns|
  {
    if columns == [] then []
    else [Field(columns[0], ArrowTypeFor(columns[0], KindOf(dtypes, columns[0])))]
         + GlueSchema(columns[1..], dtypes)
  }

  /** The i-th field of the schema is named after the i-th column and has
      the type `ArrowTypeFor` gives that column's dtype. */
  lemma {:induction false} GlueSchemaFields(columns: seq<string>, dtypes: map<string, ColumnKind>, i: nat)
    requires i < |columns|
    ensures GlueSchema(columns, dtypes)[i].name == columns[i]
    ensures GlueSchema(columns, dtypes)[i].arrowType == ArrowTypeFor(columns[i], KindOf(dtypes, columns[i]))
  {
    if i > 0 {
      GlueSchemaFields(columns[1..], dtypes, i - 1);
    }
  }

  /** Whatever the dtypes, the schema never gives `data_coleta` a type other
      than string, and never gives a non-temporal column a timestamp type. */
  lemma SchemaKeepsCollectionDateString(columns: seq<string>, dtypes: map<string, ColumnKind>)
    ensures forall i :: 0 <= i < |columns| && columns[i] == "data_coleta" ==>
      GlueSchema(columns, dtypes)[i].arrowType == Utf8
    ensures forall i :: 0 <= i < |columns| && GlueSchema(columns, dtypes)[i].arrowType == TimestampMs ==>
      KindOf(dtypes, columns[i]) == DatetimeKind
  {
    forall i | 0 <= i < |columns|
      ensures GlueSchema(columns, dtypes)[i].arrowType == ArrowTypeFor(columns[i], KindOf(dtypes, columns[i]))
    {
      GlueSchemaFields(columns, dtypes, i);
    }
  }

  const TextFields: seq<string> := ["codigo", "nome", "empresa", "tipo", "url_fonte", "data_coleta"]

  /** The rewrite the converter applies to one cell of a given column. */
  function CleanCell(column: string, v: string): string {
    if column == "participacao_pct" then CleanPercent(v)
    else if column == "quantidade_teorica" || column == "volume" then CleanThousands(v)
    else if column == "preco" || column == "variacao" then CleanDecimal(v)
    else if column in TextFields then NanToEmpty(v)
    else v
  }

  function CleanRow(row: map<string, string>): (r: map<string, string>)
    ensures r.Keys == row.Keys
  {
    map k | k in row :: CleanCell(k, row[k])
  }

  /** Each known column gets its own rewrite: percentages, thousands-separated
      quantities and volumes, decimal prices and variations, and the
      'nan'-to-empty replacement on the text columns; any other column is
      left alone. */
  lemma CleanRowColumns(row: map<string, string>)
    ensures "participacao_pct" in row ==>
      CleanRow(row)["participacao_pct"] == CleanPercent(row["participacao_pct"])
    ensures "quantidade_teorica" in row ==>
      CleanRow(row)["quantidade_teorica"] == CleanThousands(row["quantidade_teorica"])
    ensures "volume" in row ==> CleanRow(row)["volume"] == CleanThousands(row["volume"])
    ensures "preco" in row ==> CleanRow(row)["preco"] == CleanDecimal(row["preco"])
    ensures "variacao" in row ==> CleanRow(row)["variacao"] == CleanDecimal(row["variacao"])
  {
  }

  /** No column gets both a numeric and a text rewrite. */
  lemma TextFieldsAreNotNumeric(column: string)
    requires column in TextFields
    ensures column !in NumericFields
  {
    assert forall i, j :: 0 <= i < |TextFields| && 0 <= j < |NumericFields| ==>
      |TextFields[i]| != |NumericFields[j]| || TextFields[i][0] != NumericFields[j][0];
  }

  /** The text columns lose a whole-value "nan". */
  lemma CleanRowTextColumns(row: map<string, string>)
    ensures forall k :: k in row && k in TextFields ==> CleanRow(row)[k] == NanToEmpty(row[k])
  {
    forall k | k in row && k in TextFields
      ensures CleanRow(row)[k] == NanToEmpty(row[k])
    {
      TextFieldsAreNotNumeric(k);
    }
  }

  /** A column that is neither numeric nor text is left alone. */
  lemma CleanRowOtherColumns(row: map<string, string>)
    ensures forall k :: k in row && k !in TextFields && k !in NumericFields ==> CleanRow(row)[k] == row[k]
  {
  }

  /** The columns given a numeric rewrite. */
  const NumericFields: seq<string> := ["participacao_pct", "quantidade_teorica", "volume", "preco", "variacao"]

  function CleanRows(rows: seq<map<string, string>>): (r: seq<map<string, string>>)
    ensures |r| == |rows|
    ensures forall i :: 0 <= i < |r| ==> r[i] == CleanRow(rows[i])
  {
    if rows == [] then [] else [CleanRow(rows[0])] + CleanRows(rows[1..])
  }

  /** The row filter: `codigo` is neither "" nor "nan". */
  predicate HasCode(row: map<string, string>) {
    "codigo" in row && row["codigo"] != "" && row["codigo"] != "nan"
  }

  function KeepWithCode(rows: seq<map<string, string>>): (r: seq<map<string, string>>)
    ensures |r| <= |rows|
    ensures forall i :: 0 <= i < |r| ==> HasCode(r[i]) && r[i] in rows
  {
    if rows == [] then []
    else if HasCode(rows[0]) then [rows[0]] + KeepWithCode(rows[1..])
    else KeepWithCode(rows[1..])
  }

  /** Every row with a code is kept. */
  lemma {:induction false} KeepWithCodeKeepsCoded(rows: seq<map<string, string>>, i: nat)
    requires i < |rows| && HasCode(rows[i])
    ensures rows[i] in KeepWithCode(rows)
  {
    if i > 0 {
      KeepWithCodeKeepsCoded(rows[1..], i - 1);
    }
  }

  /** The filter works row by row and keeps the input order: filtering a
      concatenation concatenates the filtered parts. */
  lemma {:induction false} KeepWithCodeAppend(a: seq<map<string, string>>, b: seq<map<string, string>>)
    ensures KeepWithCode(a + b) == KeepWithCode(a) + KeepWithCode(b)
  {
    if a != [] {
      assert (a + b)[1..] == a[1..] + b;
      KeepWithCodeAppend(a[1..], b);
    } else {
      assert a + b == b;
    }
  }

  /** The cleaning and row filtering of `convert_csv_to_glue_parquet`. */
  function CleanForGlue(t: Table): (r: Table)
    ensures r.columns == t.columns
    ensures |r.rows| <= |t.rows|
    ensures "codigo" in t.columns ==> forall i :: 0 <= i < |r.rows| ==> HasCode(r.rows[i])
    ensures "codigo" in t.columns ==> r.rows == KeepWithCode(CleanRows(t.rows))
    ensures "codigo" !in t.columns ==> r.rows == CleanRows(t.rows)
    ensures forall j :: 0 <= j < |t.rows| && HasCode(t.rows[j]) ==> CleanRow(t.rows[j]) in r.rows
    ensures WellFormed(t) ==> WellFormed(r)
  {
    var cleaned := CleanRows(t.rows);
    var kept := if "codigo" in t.columns then KeepWithCode(cleaned) else cleaned;
    assert forall i :: 0 <= i < |kept| ==> exists j :: 0 <= j < |t.rows| && kept[i] == CleanRow(t.rows[j]);
    forall j | 0 <= j < |t.rows| && HasCode(t.rows[j])
      ensures CleanRow(t.rows[j]) in kept
    {
      CleanRowKeepsFilterVerdict(t.rows[j]);
      if "codigo" in t.columns {
        KeepWithCodeKeepsCoded(cleaned, j);
      } else {
        assert cleaned[j] == CleanRow(t.rows[j]);
      }
    }
    Table(t.columns, kept)
  }

  /** Cleaning a row does not change whether it passes the filter: "nan"
      turns into "" and "" stays "". */
  lemma CleanRowKeepsFilterVerdict(row: map<string, string>)
    ensures HasCode(CleanRow(row)) <==> HasCode(row)
  {
  }

  /** Filtering after cleaning, as the converter does, keeps the same rows
      as filtering the raw rows first. */
  lemma {:induction false} FilterCommutesWithCleaning(rows: seq<map<string, string>>)
    ensures KeepWithCode(CleanRows(rows)) == CleanRows(KeepWithCode(rows))
  {
    if rows != [] {
      var tail := rows[1..];
      FilterCommutesWithCleaning(tail);
      CleanRowKeepsFilterVerdict(rows[0]);
      var cleaned := CleanRows(rows);
      assert cleaned == [CleanRow(rows[0])] + CleanRows(tail);
      assert cleaned[1..] == CleanRows(tail);
      if HasCode(rows[0]) {
        assert KeepWithCode(rows) == [rows[0]] + KeepWithCode(tail);
        assert CleanRows([rows[0]] + KeepWithCode(tail))[1..] == CleanRows(KeepWithCode(tail)) by {
          assert ([rows[0]] + KeepWithCode(tail))[1..] == KeepWithCode(tail);
        }
      } else {
        assert KeepWithCode(rows) == KeepWithCode(tail);
      }
    }
  }

  /** Once the text clean-up has run, the filter's comparison with "nan" is
      redundant: a cleaned code is never "nan". */
  lemma NanComparisonRedundant(row: map<string, string>)
    ensures HasCode(CleanRow(row)) <==> "codigo" in row && CleanRow(row)["codigo"] != ""
  {
  }

  /** One CSV file as the converter finds it: its path, its contents
      (`None` when reading fails), the dtypes pandas infers after cleaning,
      and whether writing the Parquet file succeeds. */
  datatype CsvSource = CsvSource(
    path: string,
    contents: Option<Table>,
    dtypes: map<string, ColumnKind>,
    writable: bool)

  datatype GlueResult = Written(path: string, table: Table, schema: seq<Field>) | Failed {
    /** What the source returns: the output path, or "" on any failure. */
    function ReturnedPath(): string {
      match this
      case Written(p, _, _) => p
      case Failed => ""
    }
  }

  /** `convert_csv_to_glue_parquet`. */
  function ConvertCsvToGlueParquet(src: CsvSource, outputDir: Option<string>): (r: GlueResult)
    ensures r.Written? <==> src.contents.Some? && src.writable
    ensures r.ReturnedPath() == "" <==> r.Failed?
    ensures r.Written? ==> EndsWith(r.path, ".parquet")
    ensures r.Written? ==> r.path == ParquetPath(src.path, outputDir)
    ensures r.Written? ==> r.table == CleanForGlue(src.contents.value)
    ensures r.Written? ==> r.schema == GlueSchema(r.table.columns, src.dtypes)
    ensures r.Written? ==> |r.schema| == |r.table.columns| == |src.contents.value.columns|
    ensures r.Written? && "codigo" in r.table.columns ==>
      forall i :: 0 <= i < |r.table.rows| ==> HasCode(r.table.rows[i])
  {
    match src.contents
    case None => Failed
    case Some(t) =>
      if !src.writable then Failed
      else
        var cleaned := CleanForGlue(t);
        Written(ParquetPath(src.path, outputDir), cleaned, GlueSchema(cleaned.columns, src.dtypes))
  }

  /** The value `convert_csv_to_glue_parquet(csv_file)` returns inside the
      directory-wide loop (no output directory given). */
  function ReturnedPathOf(src: CsvSource): (p: string)
    ensures p == "" || EndsWith(p, ".parquet")
  {
    ConvertCsvToGlueParquet(src, None).ReturnedPath()
  }

  function ReturnedPaths(files: seq<CsvSource>): (r: seq<string>)
    ensures |r| == |files|
  {
    if files == [] then [] else [ReturnedPathOf(files[0])] + ReturnedPaths(files[1..])
  }

  lemma {:induction false} ReturnedPathsAppend(files: seq<CsvSource>, f: CsvSource)
    ensures ReturnedPaths(files + [f]) == ReturnedPaths(files) + [ReturnedPathOf(f)]
  {
    if files != [] {
      assert (files + [f])[1..] == files[1..] + [f];
      ReturnedPathsAppend(files[1..], f);
    } else {
      assert ReturnedPaths([f]) == [ReturnedPathOf(f)] by {
        assert [f][1..] == [];
      }
    }
  }

  /** `convert_all_csv_for_glue`: for a missing directory or no CSV files,
      nothing; otherwise the output paths of the conversions that succeeded,
      in the order the files were listed. */
  method ConvertAllCsvForGlue(directoryExists: bool, csvFiles: seq<CsvSource>)
    returns (converted: seq<string>)
    ensures !directoryExists ==> converted == []
    ensures directoryExists ==> converted == NonEmpty(ReturnedPaths(csvFiles))
    ensures |converted| <= |csvFiles|
    ensures forall k :: 0 <= k < |converted| ==> EndsWith(converted[k], ".parquet")
  {
    if !directoryExists || |csvFiles| == 0 {
      return [];
    }
    converted := [];
    var i := 0;
    while i < |csvFiles|
      invariant 0 <= i <= |csvFiles|
      invariant converted == NonEmpty(ReturnedPaths(csvFiles[..i]))
    {
      var parquetFile := ReturnedPathOf(csvFiles[i]);
      ConvertedStep(csvFiles, i);
      if parquetFile != "" {
        converted := converted + [parquetFile];
      }
      i := i + 1;
    }
    assert csvFiles[..i] == csvFiles;
    ConvertedAreParquet(csvFiles);
  }

  lemma ConvertedStep(files: seq<CsvSource>, i: nat)
    requires i < |files|
    ensures NonEmpty(ReturnedPaths(files[..i + 1]))
         == NonEmpty(ReturnedPaths(files[..i]))
            + (if ReturnedPathOf(files[i]) == "" then [] else [ReturnedPathOf(files[i])])
  {
    assert files[..i + 1] == files[..i] + [files[i]];
    ReturnedPathsAppend(files[..i], files[i]);
    NonEmptyAppend(ReturnedPaths(files[..i]), ReturnedPathOf(files[i]));
  }

  lemma {:induction false} ConvertedAreParquet(files: seq<CsvSource>)
    ensures forall k :: 0 <= k < |NonEmpty(ReturnedPaths(files))| ==>
      EndsWith(NonEmpty(ReturnedPaths(files))[k], ".parquet")
  {
    var paths := ReturnedPaths(files);
    forall k | 0 <= k < |NonEmpty(paths)|
      ensures EndsWith(NonEmpty(paths)[k], ".parquet")
    {
      var p := NonEmpty(paths)[k];
      assert p in paths && p != "";
      var j :| 0 <= j < |paths| && paths[j] == p;
      ReturnedPathsAt(files, j);
    }
  }

  lemma {:induction false} ReturnedPathsAt(files: seq<CsvSource>, j: nat)
    requires j < |files|
    ensures ReturnedPaths(files)[j] == ReturnedPathOf(files[j])
  {
    if j > 0 {
      ReturnedPathsAt(files[1..], j - 1);
    }
  }
}
