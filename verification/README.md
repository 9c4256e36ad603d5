# IBOV scraper and conversion pipeline, modelled in Dafny

The project scrapes the composition of the Ibovespa index from the B3
website, writes the constituents to CSV, converts the CSV files to Parquet
for AWS Glue, and runs these stages in sequence. This Dafny project models
the decision logic of those stages and proves properties of it:

- **the scraper** (`src/ibov_scraper.py`), over an immutable snapshot of
  the rendered page (module `Browser`). The model covers:
  - the wait for the table (`Extraction.TableReady`);
  - the row extractor (`Extraction`);
  - the search for a "next page" control and its numeric fallback
    (`Pagination`);
  - the last-page detector (`Pagination.IsLastPage`);
  - the page-size choice (`Density`);
  - the page loop (`Session`);
  - the sorting, de-duplication and file naming of `save_to_csv`, and the
    counts of `get_summary` (`Dataset`);
- **the CSV normalisation** shared by `src/02_csv_to_parquet_glue.py` and
  `src/csv_to_parquet.py`. This is the locale clean-up of numeric text, the
  whole-value `'nan'` replacement, the `codigo` row filter, the Arrow schema
  mapping and the output path (`Normalise`, `GlueConversion`,
  `BasicConversion`, with Python's `posixpath` functions in `PosixPath`);
- **the pipeline driver** (`src/main_pipeline.py`): the existence check,
  then each script in order, stopping at the first failure (`Pipeline`).

Supporting modules are `Wrappers` (`Option`), `Text` (strip, split,
lower-casing, character rewrites) and `Numerals` (`int()` and `str()` on
integers).

The browser is an oracle. Every lookup the scraper makes has a fixed
answer in the snapshot: the elements found, or `Broken` when the driver
call raises. A click either goes through or not. The page loop takes
`view`, a function from a page number to the snapshot shown once the loop
has reached that page. The landing page, on which the page size is chosen,
is passed separately.

## Model

| member | source | states |
|---|---|---|
| Extraction.TableReady | src/ibov_scraper.py:78-99 | The table counts as loaded only if a `<table>` appeared. It does count as loaded whenever `table tbody tr` finds a row. |
| Extraction.ReadyOnConsistentCounts | src/ibov_scraper.py:89-95 | When every `tbody` row is also a `table tr` row, readiness means the table appeared and `table tr` finds at least one row. |
| Extraction.FirstTable | src/ibov_scraper.py:114-133 | The table is the one found by the first selector, in list order, that finds one; there is none exactly when no selector finds one. |
| Extraction.RecordFromCells | src/ibov_scraper.py:154-177 | A record needs at least five cells. Its fields are the stripped cells 0-4, in that order, and it carries the page number, URL and read time. It is emitted if and only if the stripped code and company are non-empty and the code is not "Código". |
| Extraction.ExtraCellsIgnored | src/ibov_scraper.py:155-164 | Cells after the fifth never change the record. |
| Extraction.ExtractRowsValid | src/ibov_scraper.py:136-181 | The extractor yields at most one record per row. Every record is valid and carries the page number and URL. |
| Extraction.AfterHeaderAllRowsAreData | src/ibov_scraper.py:146-152 | Once a header has been seen, later th-only rows are not skipped. Every row then goes through the data filters. |
| Extraction.SkipFirstHeaderStep | src/ibov_scraper.py:142-152 | In the independent description, a row before the first readable th-only row contributes what it yields as data, ahead of the rest. |
| Extraction.SkipFirstHeaderAtHeader | src/ibov_scraper.py:146-152 | In the independent description, a readable th-only first row is skipped and every later row is read as data. |
| Extraction.ExtractSkipsOnlyFirstHeader | src/ibov_scraper.py:142-181 | The extractor equals the independent description `SkipFirstHeader`. Every row is read as data, in row order, except the first readable th-only row, which is skipped. |
| Extraction.RepeatedHeaderYieldsNothing | src/ibov_scraper.py:166 | A row whose first cell reads "Código" yields no record. |
| Extraction.ExtractTableData | src/ibov_scraper.py:101-188 | Every record is valid and has `pagina` equal to the page-number argument. When no table selector finds a table, or the row listing raises, the result is empty. Otherwise it is exactly what the independent description `SkipFirstHeader` gives for the found table's rows. |
| Pagination.ArgumentOfContainsSelector | src/ibov_scraper.py:224 | For `tag:contains(arg)`, the two `split` calls recover `arg` exactly. |
| Pagination.ContainsXPathAsWrittenIsMalformed | src/ibov_scraper.py:222-225 | As written, `a:contains('Next')` becomes `//a[contains(text(), ''Next'')]`. No quote-free literal gives a text test of that shape. |
| Pagination.ContainsXPathTestsText | src/ibov_scraper.py:222-225 | With the quotes of the argument removed, the XPath tests whether the link text contains the intended literal. |
| Pagination.NextLocator | src/ibov_scraper.py:222-227 | A selector is looked up by XPath exactly when it contains `:contains(`, and the XPath is the one the scraper builds, quotes included. Otherwise the selector itself is looked up as CSS. |
| Pagination.FirstUsable | src/ibov_scraper.py:229-236 | Returns the first usable control: displayed, enabled, no non-empty `disabled`, `aria-disabled` not "true", and no "disabled" in the lower-cased class. It returns none exactly when no control is usable. |
| Pagination.SelectorClick | src/ibov_scraper.py:219-255 | A selector succeeds only through its first usable control, and only when the direct click or the script click goes through. Conversely, when the lookup succeeds and its first usable control can be clicked, that control is the one clicked. A lookup that raises gives nothing. |
| Pagination.FirstClick | src/ibov_scraper.py:219-255 | Selectors are tried in list order and the first that clicks wins. Every earlier selector clicked nothing, and when none clicks, none of them could. |
| Pagination.NumericFallback | src/ibov_scraper.py:257-288 | An advance needs numbered links. The current page is the indicator's text, or "1" when there is none. The target is that number plus one, and the link to the target must be displayed, enabled and clickable. Conversely, when all of that holds, the link to the target is clicked. |
| Pagination.FallbackAdvancesWhenNoControlClicks | src/ibov_scraper.py:219-288 | When no selector clicks a control and the next numbered link is ready, the scraper advances to the current page number plus one. |
| Pagination.FindNextPage | src/ibov_scraper.py:190-294 | Reports a control click exactly when some selector clicks, naming the first such selector. Otherwise it reports the numeric fallback's target, or no advance when the fallback fails. |
| Pagination.ClickedControlIsUsable | src/ibov_scraper.py:229-251 | The control that was clicked passed the usability test. |
| Pagination.EmptyPageHasNoNext | src/ibov_scraper.py:219-290 | A page where every lookup finds nothing offers no way forward. |
| Pagination.ScanDisabled | src/ibov_scraper.py:305-318 | The six disabled selectors are looked up in order. The scan is a hit exactly when some selector finds an element after all earlier ones found nothing. It comes out raised exactly when some lookup raises after all earlier ones found nothing, and clear exactly when every selector finds nothing. |
| Pagination.DisabledMatchMeansLastPage | src/ibov_scraper.py:314-318 | When the first disabled selector that finds anything does find an element, the page is the last one. |
| Pagination.IsLastPage | src/ibov_scraper.py:296-338 | A disabled-selector hit means the last page, and a lookup that raises before any hit means not last. Otherwise the page is last if and only if the page source is readable and, once lower-cased, contains one of the four end-of-list markers. |
| Pagination.MarkersMatchAnyCase | src/ibov_scraper.py:321-332 | The marker test ignores case. Once the disabled scan is clear, any text in the source that lower-cases to a marker, such as "LAST PAGE", marks the last page. |
| Density.FirstApplicable | src/ibov_scraper.py:370-396 | The choice is the first candidate that is offered and selectable, by value or else by visible text. It is by value exactly when selecting by value works. There is no choice exactly when no candidate applies. |
| Density.SetItemsPerPage | src/ibov_scraper.py:340-403 | Without a clickable control nothing is chosen. A choice is always one of the candidates and applicable. There is no choice exactly when none of the four candidates applies. Otherwise the choice is the first applicable candidate in the order requested count, "60", "40", "20" (`FirstApplicable`, whose own contract states that every earlier candidate fails to apply). |
| Density.RequestedCountWins | src/ibov_scraper.py:368-380 | A requested count that is offered and selectable by value is the one chosen. |
| Density.NothingOfferedNothingChosen | src/ibov_scraper.py:398-399 | A control without options leaves the default paging. |
| Session.PageRowsNumbered | src/ibov_scraper.py:444-449 | Every record page k yields is valid and carries the page number k. |
| Session.HarvestNumbered | src/ibov_scraper.py:446-449 | When each page's records carry that page's number, the records of pages 1 to n are valid and numbered between 1 and n. |
| Session.Decide | src/ibov_scraper.py:437-478 | After a page, the loop moves on if and only if it is below the ceiling and the page loaded, is not the last, and has a way forward. It stops as "not ready" exactly when the table did not load, as "last page" exactly when a loaded page is the last, at the ceiling exactly when a loaded, non-last page is at or above `max_pages`, and as "no next page" exactly when such a page is below the ceiling and has no way forward. |
| Session.StopsAt | src/ibov_scraper.py:437-478 | A recursive account of the loop. The stop page lies between the start and the ceiling, every page before it moves on, and the stop decision on it has the stated reason. |
| Session.CeilingBoundsTheRun | src/ibov_scraper.py:468-478 | When every page up to the ceiling moves on, the run stops exactly at `max_pages`, with the ceiling as the reason. |
| Session.LoopStep | src/ibov_scraper.py:437-478 | Where the loop stops, seen from a page, is that page when the decision there is to stop, and otherwise where it stops seen from the next page. |
| Session.GatheredRecordsValid | src/ibov_scraper.py:441-449 | The records a run ends with are valid and come from pages 1 to the stop page. |
| Session.PageLoop | src/ibov_scraper.py:437-478 | The loop stops where `StopsAt` says. Its data is the harvest of the pages before the stop page, plus the stop page's records unless its table never loaded. |
| Session.ScrapeAllPages | src/ibov_scraper.py:405-485 | If navigation fails, the run returns nothing. The page size is chosen on the landing page. A ceiling below 1 visits no page. Otherwise the loop stops where `StopsAt` says, and the data is exactly the harvest of pages 1 to the stop page, minus a stop page whose table never loaded. An empty page does not stop the loop. |
| Dataset.StrLtTotal | src/ibov_scraper.py:513 | Python's string order is total. |
| Dataset.StrLtTransitive | src/ibov_scraper.py:513 | Python's string order is transitive. |
| Dataset.Insert | src/ibov_scraper.py:513 | Insertion adds exactly the one record. |
| Dataset.Sort | src/ibov_scraper.py:513 | The sort is a permutation of its input. |
| Dataset.SortSorted | src/ibov_scraper.py:513 | The output is ordered by `(pagina, codigo)`. |
| Dataset.SortStable | src/ibov_scraper.py:513 | Records with equal `(pagina, codigo)` keep their input order. |
| Dataset.DropDuplicates | src/ibov_scraper.py:516 | The output is no longer than the input. Every kept record comes from the input, and no two kept records share a key. |
| Dataset.DropDuplicatesKeepsFirst | src/ibov_scraper.py:516 | For every key, exactly the first input record with that key is kept. |
| Dataset.DropDuplicatesSorted | src/ibov_scraper.py:513-516 | De-duplicating a sorted table leaves it sorted. |
| Dataset.CsvRowsShape | src/ibov_scraper.py:509-516 | The written table is sorted, drawn from the input, and holds each key once. For every key, it holds exactly the first scraped record with that key, so every input key is covered. |
| Dataset.InDataDir | src/ibov_scraper.py:503-505 | The file name ends up under `data/` and still ends with the given name. |
| Dataset.InDataDirIdempotent | src/ibov_scraper.py:503-505 | Adding the `data/` prefix twice is the same as adding it once. |
| Dataset.SaveToCsv | src/ibov_scraper.py:487-528 | The returned path is "" exactly when there is no data or writing fails. Otherwise it is under `data/` and ends with the given name, or with the timestamped default name when none is given, and the written rows are the sorted, de-duplicated table. |
| Dataset.Distinct | src/ibov_scraper.py:539-541 | The distinct values of a column number at most the rows. |
| Dataset.MinString | src/ibov_scraper.py:542 | The first collection time is one of the values and no value is smaller. |
| Dataset.MaxString | src/ibov_scraper.py:543 | The last collection time is one of the values and no value is larger. |
| Dataset.TallyCounts | src/ibov_scraper.py:547 | The per-page tally, built record by record, lists exactly the pages present. Each page's entry equals an independent count of that page's records. |
| Dataset.GetSummary | src/ibov_scraper.py:530-549 | No data gives the empty summary. Otherwise the total is the record count. The unique codes, pages and companies are the numbers of distinct values in those fields, each between 1 and the total. The first and last collection times are collection times of some record, with none earlier than the first and none later than the last. |
| Dataset.SummaryPerPage | src/ibov_scraper.py:537-547 | The per-page counts name exactly the processed pages, one entry per page, and count each page's records. |
| Text.IndexOfFirst | src/ibov_scraper.py:224 | `find` returns an occurrence with none before it, and finds nothing only when there is no occurrence. |
| Text.TrimStartShape | src/ibov_scraper.py:158 | `lstrip()` drops a leading run of whitespace and leaves a suffix that does not start with whitespace. |
| Text.TrimEndShape | src/ibov_scraper.py:158 | `rstrip()` drops a trailing run of whitespace and leaves a prefix that does not end with whitespace. |
| Text.StripIsTrimmedInfix | src/ibov_scraper.py:158 | `strip()` leaves the infix between a leading and a trailing run of whitespace, and the result neither starts nor ends with whitespace. |
| Text.StripIdempotent | src/ibov_scraper.py:158 | Stripping twice is the same as stripping once. |
| Text.LowerPreservesContains | src/ibov_scraper.py:321 | A substring of the text is, once lower-cased, a substring of the lower-cased text. |
| Text.SplitJoinRoundTrip | src/ibov_scraper.py:224 | Joining the pieces of `split` with the separator gives back the string. |
| Numerals.ParseIntToString | src/ibov_scraper.py:273-277 | `int()` reads back any integer that `str()` wrote. |
| PosixPath.BasenameOfJoin | src/02_csv_to_parquet_glue.py:66-67 | The base name of `join(d, name)` is `name` when the name has no slash. |
| PosixPath.DirnameOfJoin | src/02_csv_to_parquet_glue.py:62-67 | The directory of `join(d, name)` is `d` when `d` is a normalised directory. |
| PosixPath.Splitext | src/02_csv_to_parquet_glue.py:66 | The root and the extension concatenate to the path. The extension is empty, or it starts with its only dot and has no slash. A non-empty extension needs a non-dot character earlier in the last component. |
| PosixPath.SplitextHasExtension | src/02_csv_to_parquet_glue.py:66 | A dot in the last component with a non-dot character before it gives a non-empty extension. With `Splitext`, the extension is then the part from the last dot. |
| PosixPath.StemOfPlainName | src/02_csv_to_parquet_glue.py:66 | The stem of `dir/name.ext` is `name` for a non-empty name without dots or slashes and a one-dot extension. |
| Normalise.ParquetPathOfPlainName | src/02_csv_to_parquet_glue.py:62-67 | `dir/name.csv` is converted to a file named `name.parquet`. |
| Normalise.ParquetPath | src/02_csv_to_parquet_glue.py:62-67 | The output path always ends in ".parquet". |
| Normalise.ParquetPathShape | src/02_csv_to_parquet_glue.py:62-67 | The output file's base name is the CSV's stem plus ".parquet". It lies in the given directory, or in the CSV's own directory when none is given. The plain converter (src/csv_to_parquet.py, lines 33-39) names its output by the same rule. |
| Normalise.CleanPercent | src/02_csv_to_parquet_glue.py:89-92 | The result has no `,` and no `%`. Its length drops by the number of `%`, and its dots are the old dots plus the old commas. |
| Normalise.CleanPercentOrderIrrelevant | src/csv_to_parquet.py:54-57 | Dropping `%` first and replacing `,` afterwards gives the same result. |
| Normalise.CleanThousands | src/02_csv_to_parquet_glue.py:93-96 | The result has no `,`, loses exactly the old dots, has as many dots as the input had commas, and keeps every other character count. |
| Normalise.CleanThousandsOfNumeral | src/csv_to_parquet.py:59-62 | A Brazilian numeral `1.234.567,89` becomes `1234567.89`: dots dropped from both parts, and the comma turned into the decimal point. |
| Normalise.CleanDecimal | src/02_csv_to_parquet_glue.py:97-100 | Only commas change, each into a dot. The length and every other character stay the same. |
| Normalise.NanToEmpty | src/02_csv_to_parquet_glue.py:103-106 | The whole value "nan" becomes "". Every other value is kept, including ones that merely contain "nan". |
| Normalise.NanToEmptyIdempotent | src/02_csv_to_parquet_glue.py:106 | The replacement applied twice is the same as once, and "banana" is left intact. |
| Normalise.NonEmptyAppend | src/02_csv_to_parquet_glue.py:204-209 | Collecting results keeps each non-empty path, in order, and drops each "". |
| GlueConversion.ArrowTypeFor | src/02_csv_to_parquet_glue.py:33-51 | `data_coleta` is always a string. Otherwise datetime maps to timestamp(ms), integer to int64, float to float64, bool to bool, and anything else to string. |
| GlueConversion.GlueSchema | src/02_csv_to_parquet_glue.py:23-53 | The schema has one field per column. |
| GlueConversion.GlueSchemaFields | src/02_csv_to_parquet_glue.py:23-53 | The i-th field is named after the i-th column and carries the type mapped from that column's dtype. |
| GlueConversion.SchemaKeepsCollectionDateString | src/02_csv_to_parquet_glue.py:33-38 | The collection date is never a timestamp. Every timestamp field comes from a datetime column. |
| GlueConversion.CleanRowColumns | src/02_csv_to_parquet_glue.py:85-100 | Each numeric cell gets its column's rewrite: the percentage clean-up for `participacao_pct`, the thousands clean-up for `quantidade_teorica` and `volume`, and the decimal-comma clean-up for `preco` and `variacao`. |
| GlueConversion.CleanRowTextColumns | src/02_csv_to_parquet_glue.py:102-106 | Each of the six text columns gets the whole-value "nan" replacement. |
| GlueConversion.CleanRowOtherColumns | src/02_csv_to_parquet_glue.py:85-106 | A column that is neither numeric nor text is unchanged. |
| GlueConversion.KeepWithCodeKeepsCoded | src/02_csv_to_parquet_glue.py:108-110 | Every row with a code other than "" and "nan" passes the filter. |
| GlueConversion.KeepWithCodeAppend | src/02_csv_to_parquet_glue.py:108-110 | The filter works row by row and keeps the order: filtering a concatenation concatenates the filtered parts. |
| GlueConversion.CleanForGlue | src/02_csv_to_parquet_glue.py:85-110 | Columns are unchanged and rows never increase. With a `codigo` column, every kept row has a code other than "" and "nan". With a `codigo` column, the rows are exactly `KeepWithCode` of the cleaned input rows: each input row with a code appears once, cleaned, in input order (`KeepWithCodeKeepsCoded`, `KeepWithCodeAppend`). Without one, the rows are exactly the cleaned input rows. Every input row with a code is kept, cleaned. |
| GlueConversion.CleanRowKeepsFilterVerdict | src/02_csv_to_parquet_glue.py:106-110 | Cleaning a row does not change whether it passes the `codigo` filter. |
| GlueConversion.FilterCommutesWithCleaning | src/02_csv_to_parquet_glue.py:103-110 | Filtering after cleaning keeps the same rows as cleaning after filtering. |
| GlueConversion.NanComparisonRedundant | src/02_csv_to_parquet_glue.py:110 | After cleaning, the test against "nan" adds nothing to the test against "". |
| GlueConversion.ConvertCsvToGlueParquet | src/02_csv_to_parquet_glue.py:56-149 | Writes exactly when the CSV reads and the file can be written. It then writes the cleaned, filtered table (`CleanForGlue`) with the schema `GlueSchema` gives for its columns, to the path `ParquetPath` gives, which ends in `.parquet`. Any failure returns "". |
| GlueConversion.ConvertAllCsvForGlue | src/02_csv_to_parquet_glue.py:184-209 | A missing directory gives nothing. Otherwise the result is the non-empty conversion results in listing order, each a `.parquet` path. |
| GlueConversion.ConvertedAreParquet | src/02_csv_to_parquet_glue.py:204-209 | Every collected path ends in `.parquet`. |
| BasicConversion.CleanTable | src/csv_to_parquet.py:49-67 | Rows and columns are kept. In every row, `participacao_pct` becomes its percentage clean-up and `quantidade_teorica` its thousands clean-up. Every other column is unchanged. |
| BasicConversion.SharedRewritesAgree | src/csv_to_parquet.py:54-62 | Both converters clean the two shared columns alike. Only the Glue converter touches `volume`. |
| BasicConversion.ConvertCsvToParquet | src/csv_to_parquet.py:21-91 | Writes exactly when the CSV reads and the file can be written. It then writes the `CleanTable` of the contents, keeping every row, to the path `ParquetPath` gives. Any failure returns "". |
| BasicConversion.ConvertAllCsvInDirectory | src/csv_to_parquet.py:94-125 | A missing directory gives nothing. Otherwise the result is the successful output paths, in listing order. |
| Pipeline.RunScript | src/main_pipeline.py:30-82 | A script succeeds if and only if its process exits with code 0. A timeout or an exception is a failure. |
| Pipeline.Missing | src/main_pipeline.py:102-108 | Lists exactly the absent scripts, in order, and is empty if and only if every script exists. |
| Pipeline.RunPipeline | src/main_pipeline.py:85-148 | If a script is missing, nothing runs. Scripts run in order, and execution stops right after the first failure, which is the only failed script. The success count is the length of the successful prefix. The result is true if and only if every script exists and succeeds. |
| Pipeline.PipelineScenarios | src/main_pipeline.py:95-127 | With all four stages succeeding, the pipeline succeeds. When the second stage times out, only two stages start and the Glue converter is the one reported as failed. |

## Left out

- Selenium itself is not modelled: the driver construction, `WebDriverWait` timeouts, `time.sleep`, `scrollIntoView` and logging. Each lookup's answer is part of the page snapshot, and a timeout shows up as the table not appearing.
- The behaviour of the browser's XPath engine is not modelled. The lookup for numbered links uses `matches()`, which needs XPath 2.0, and most browsers will raise on it. The model takes the lookup's answer from the snapshot, `Broken` included, rather than deciding what a browser does with it.
- Extraction.ExtractSkipsOnlyFirstHeader: the header handling follows the code. Only the first th-only row is skipped as a header. Later th-only rows are read as data, and a repeated "Código" row is dropped by the cell filter. A description that says every header row is skipped is wider than the code.
- Pagination.NumericFallback: the indicator text is read by a model of `int()` that accepts an optional sign followed by ASCII digits. Python also accepts digit-separating underscores and non-ASCII decimal digits; those are not modelled. Surrounding whitespace does not matter, because the text is stripped first.
- Session.ScrapeAllPages: the "next" selector list is a parameter, which the scraper fixes to `Pagination.NextSelectors`. The page checks are gathered into a `Visit` per page, and the loop runs over those visits. The clock readings are inputs. These are the `data_coleta` of each row and the timestamp in the default file name. The pages the browser shows are a function `view` of the page number, so what the loop clicks does not itself change the page.
- The sort is modelled as stable. `sort_values` on two columns uses pandas' stable multi-key sort, and `drop_duplicates(keep='first')` then keeps the first record of each key in input order.
- Dataset.SaveToCsv: CSV rendering, the UTF-8 BOM and the write itself are one input (`written`). The model returns the rows that would be written.
- Text.LowerChar: only the Latin-1 range is lower-cased, where Python's `str.lower` covers all of Unicode. No character outside Latin-1 lower-cases into the end-of-list markers or into "disabled", so the two lower-casing checks are unaffected.
- Dataset.GetSummary: the summary is a record rather than a dict. Collection times are compared as strings, which matches ISO timestamps.
- The converters' `pd.to_numeric`, `pd.to_datetime`, the `YYYYMMDD` formatting and the fill with today's date for `data_coleta` are not modelled. They are floating-point or clock-dependent; only the string rewrites before them are modelled.
- Reading CSVs and writing Parquet (pyarrow, compression, statistics, `validate_parquet_file`) are not modelled, nor are the file-size and reduction percentages. The file's contents and whether writing succeeds are inputs.
- The `main` functions of the scraper and converters (console output, `pip install pyarrow`) are not modelled, nor is the pipeline's timing report.
- `src/03_s3_client.py`, `src/minio_client.py`, `src/04_cleanup_data.py`, `src/scheduler.py`, `src/run_pipeline.py` and `src/main.py` are not part of this model. They are network, filesystem or scheduling wrappers.
- The log-only branches for pages with 40 or more and 60 or more records are not modelled, because they change nothing. The second of them cannot be reached.

## Findings

| source | as written | input that shows it | evidently intended | confidence | as-written member | corrected member |
|---|---|---|---|---|---|---|
| src/ibov_scraper.py:222-225 | The argument of `:contains(...)` is pasted, quotes included, between another pair of quotes. `Pagination.NextLocator` looks up this XPath as written, and the snapshot gives the driver's answer to it. | `a:contains('Next')` becomes `//a[contains(text(), ''Next'')]`, which does not test for the text `Next` | `//a[contains(text(), 'Next')]`, a link whose text contains the literal | medium (not executed) | Pagination.ContainsXPathAsWrittenIsMalformed | Pagination.ContainsXPathTestsText |
