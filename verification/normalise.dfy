/** What the two CSV-to-Parquet converters share: the locale clean-up of
    numeric text done before `pd.to_numeric`, the whole-value `'nan'`
    replacement on text columns, the naming of the output file, and the
    table of string cells they operate on. */
module Normalise {
  import opened Wrappers
  import opened Text
  import opened PosixPath

  /** A CSV read with every cell as the text `astype(str)` gives it (a
      missing cell reads as "nan"); each row maps column name to cell. */
  datatype Table = Table(columns: seq<string>, rows: seq<map<string, string>>)

  /** Every row has exactly the table's columns as keys. */
  ghost predicate WellFormed(t: Table) {
    forall i :: 0 <= i < |t.rows| ==> t.rows[i].Keys == set c | c in t.columns
  }

  /** `participacao_pct`: every `,` becomes `.`, then every `%` is removed. */
  function CleanPercent(s: string): (r: string)
    ensures ',' !in r && '%' !in r
    ensures |r| == |s| - Count(s, '%')
    ensures Count(r, '.') == Count(s, '.') + Count(s, ',')
  {
    var replaced := ReplaceChar(s, ',', '.');
    CountReplaced(s, ',', '.');
    CountZeroIffAbsent(RemoveChar(replaced, '%'), ',');
    RemoveChar(replaced, '%')
  }

  /** `quantidade_teorica` and `volume`: every `.` (thousands separator) is
      removed, then every `,` (decimal comma) becomes `.`. */
  function CleanThousands(s: string): (r: string)
    ensures ',' !in r
    ensures |r| == |s| - Count(s, '.')
    ensures Count(r, '.') == Count(s, ',')
    ensures forall c :: c != ',' && c != '.' ==> Count(r, c) == Count(s, c)
  {
    var stripped := RemoveChar(s, '.');
    CountZeroIffAbsent(stripped, '.');
    CountReplaced(stripped, ',', '.');
    CountZeroIffAbsent(ReplaceChar(stripped, ',', '.'), ',');
    ReplaceChar(stripped, ',', '.')
  }

  /** `preco` and `variacao`: only the decimal comma is rewritten. */
  function CleanDecimal(s: string): (r: string)
    ensures ',' !in r
    ensures |r| == |s|
    ensures forall i :: 0 <= i < |s| && s[i] != ',' ==> r[i] == s[i]
    ensures Count(r, '.') == Count(s, '.') + Count(s, ',')
  {
    CountReplaced(s, ',', '.');
    CountZeroIffAbsent(ReplaceChar(s, ',', '.'), ',');
    ReplaceChar(s, ',', '.')
  }

  /** `Series.replace('nan', '')` on a text column: whole-value replacement,
      so only a cell that is exactly "nan" changes. */
  function NanToEmpty(s: string): (r: string)
    ensures s == "nan" ==> r == ""
    ensures r != "nan"
    ensures s != "nan" ==> r == s
    ensures |r| <= |s|
  {
    if s == "nan" then "" else s
  }

  /** The text clean-up is a fixed point: applying it again changes nothing,
      and a cell that merely contains "nan" (such as "banana") is kept. */
  lemma NanToEmptyIdempotent(s: string)
    ensures NanToEmpty(NanToEmpty(s)) == NanToEmpty(s)
    ensures NanToEmpty("banana") == "banana"
  {
  }

  /** The percentage clean-up could equally drop `%` first and rewrite the
      comma afterwards. */
  lemma CleanPercentOrderIrrelevant(s: string)
    ensures CleanPercent(s) == ReplaceChar(RemoveChar(s, '%'), ',', '.')
  {
    ReplaceRemoveCommute(s, ',', '.', '%');
  }

  lemma {:induction false} RemoveCharAppend(a: string, b: string, c: char)
    ensures RemoveChar(a + b, c) == RemoveChar(a, c) + RemoveChar(b, c)
  {
    if a != [] {
      assert (a + b)[1..] == a[1..] + b;
      RemoveCharAppend(a[1..], b, c);
    } else {
      assert a + b == b;
    }
  }

  lemma {:induction false} ReplaceCharAppend(a: string, b: string, x: char, y: char)
    ensures ReplaceChar(a + b, x, y) == ReplaceChar(a, x, y) + ReplaceChar(b, x, y)
  {
    if a != [] {
      assert (a + b)[1..] == a[1..] + b;
      ReplaceCharAppend(a[1..], b, x, y);
    } else {
      assert a + b == b;
    }
  }

  lemma {:induction false} ReplaceAbsent(s: string, x: char, y: char)
    requires x !in s
    ensures ReplaceChar(s, x, y) == s
  {
  }

  /** On a Brazilian numeral `whole,fraction` (thousands grouped with points,
      one decimal comma) the clean-up keeps the digits and turns the comma
      into the only decimal point: "1.234.567,89" becomes "1234567.89". */
  lemma CleanThousandsOfNumeral(whole: string, fraction: string)
    requires ',' !in whole && ',' !in fraction
    ensures CleanThousands(whole + "," + fraction)
         == RemoveChar(whole, '.') + "." + RemoveChar(fraction, '.')
  {
    var w := RemoveChar(whole, '.');
    var f := RemoveChar(fraction, '.');
    RemoveCharAppend(whole + ",", fraction, '.');
    RemoveCharAppend(whole, ",", '.');
    assert RemoveChar(",", '.') == ",";
    assert RemoveChar(whole + "," + fraction, '.') == w + "," + f;
    ReplaceCharAppend(w + ",", f, ',', '.');
    ReplaceCharAppend(w, ",", ',', '.');
    assert ',' !in w by { CountZeroIffAbsent(whole, ','); CountZeroIffAbsent(w, ','); }
    assert ',' !in f by { CountZeroIffAbsent(fraction, ','); CountZeroIffAbsent(f, ','); }
    ReplaceAbsent(w, ',', '.');
    ReplaceAbsent(f, ',', '.');
  }

  /** The output file of a conversion, `os.path.join(output_dir,
      f"{base_name}.parquet")`, with `output_dir` defaulting to the CSV's own
      directory. It always ends in ".parquet"; `ParquetPathShape` gives its
      base name and directory. */
  function ParquetPath(csvPath: string, outputDir: Option<string>): (r: string)
    ensures EndsWith(r, ".parquet")
  {
    var dir := OutputDir(csvPath, outputDir);
    var name := Stem(csvPath) + ".parquet";
    JoinEndsWithName(dir, name);
    EndsWithSuffix(Join(dir, name), Stem(csvPath), ".parquet");
    Join(dir, name)
  }

  function OutputDir(csvPath: string, outputDir: Option<string>): string {
    match outputDir
    case Some(d) => d
    case None => Dirname(csvPath)
  }

  /** The output file's base name is the CSV's stem plus ".parquet", and it
      lies in the chosen directory: the CSV's own when none is given. */
  lemma ParquetPathShape(csvPath: string, outputDir: Option<string>)
    ensures Basename(ParquetPath(csvPath, outputDir)) == Stem(csvPath) + ".parquet"
    ensures outputDir.None? ==> Dirname(ParquetPath(csvPath, outputDir)) == Dirname(csvPath)
    ensures outputDir.Some? && IsNormalDir(outputDir.value) ==>
      Dirname(ParquetPath(csvPath, outputDir)) == outputDir.value
  {
    var dir := OutputDir(csvPath, outputDir);
    var name := Stem(csvPath) + ".parquet";
    SuffixedNameIsSlashFree(Stem(csvPath));
    BasenameOfJoin(dir, name);
    if outputDir.None? || IsNormalDir(outputDir.value) {
      DirnameOfJoin(dir, name);
    }
  }

  /** `dir/name.csv` is converted to `name.parquet` beside it. */
  lemma ParquetPathOfPlainName(dir: string, name: string, ext: string)
    requires name != [] && '/' !in name && '.' !in name
    requires |ext| > 0 && ext[0] == '.' && '/' !in ext && '.' !in ext[1..]
    ensures Basename(ParquetPath(Join(dir, name + ext), None)) == name + ".parquet"
  {
    ParquetPathShape(Join(dir, name + ext), None);
    StemOfPlainName(dir, name, ext);
  }

  lemma SuffixedNameIsSlashFree(stem: string)
    requires forall k :: 0 <= k < |stem| ==> stem[k] != '/'
    ensures forall k :: 0 <= k < |stem + ".parquet"| ==> (stem + ".parquet")[k] != '/'
  {
  }

  lemma JoinEndsWithName(a: string, b: string)
    ensures EndsWith(Join(a, b), b)
  {
    var j := Join(a, b);
    assert j[|j| - |b|..] == b;
  }

  lemma EndsWithSuffix(s: string, x: string, y: string)
    requires EndsWith(s, x + y)
    ensures EndsWith(s, y)
  {
    assert s[|s| - |y|..] == s[|s| - |x + y|..][|x|..];
  }

  /** The converted paths a directory-wide conversion reports: the
      non-empty results, in input order (a failed conversion returns ""). */
  function NonEmpty(paths: seq<string>): (r: seq<string>)
    ensures |r| <= |paths|
    ensures forall k :: 0 <= k < |r| ==> r[k] != "" && r[k] in paths
  {
    if paths == [] then []
    else if paths[0] == "" then NonEmpty(paths[1..])
    else [paths[0]] + NonEmpty(paths[1..])
  }

  lemma {:induction false} NonEmptyAppend(paths: seq<string>, p: string)
    ensures NonEmpty(paths + [p]) == NonEmpty(paths) + (if p == "" then [] else [p])
  {
    if paths != [] {
      assert (paths + [p])[1..] == paths[1..] + [p];
      NonEmptyAppend(paths[1..], p);
    } else {
      assert NonEmpty([p]) == (if p == "" then [] else [p]) by {
        assert [p][1..] == [];
      }
    }
  }
}
