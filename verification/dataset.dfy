/** What the scraper does with the records once the page loop is over:
    the sorted, de-duplicated table it writes to CSV, the file name it
    writes to, and the summary it reports. */
module Dataset {
  import opened Wrappers
  import opened Text
  import opened Browser

  // ---------------------------------------------------------------------
  // String order (Python compares strings code point by code point)
  // ---------------------------------------------------------------------

  /** `a < b` on Python strings. */
  predicate StrLt(a: string, b: string)
    decreases |a|
  {
    if a == [] then b != []
    else if b == [] then false
    else if a[0] != b[0] then a[0] < b[0]
    else StrLt(a[1..], b[1..])
  }

  lemma {:induction false} StrLtIrreflexive(a: string)
    ensures !StrLt(a, a)
    decreases |a|
  {
    if a != [] {
      StrLtIrreflexive(a[1..]);
    }
  }

  lemma {:induction false} StrLtTransitive(a: string, b: string, c: string)
    requires StrLt(a, b) && StrLt(b, c)
    ensures StrLt(a, c)
    decreases |a|
  {
    if a != [] && b != [] && c != [] && a[0] == b[0] && b[0] == c[0] {
      StrLtTransitive(a[1..], b[1..], c[1..]);
    }
  }

  /** Any two different strings are ordered one way or the other. */
  lemma {:induction false} StrLtTotal(a: string, b: string)
    ensures a == b || StrLt(a, b) || StrLt(b, a)
    decreases |a|
  {
    if a != [] && b != [] && a[0] == b[0] {
      StrLtTotal(a[1..], b[1..]);
      if a[1..] == b[1..] {
        assert a == [a[0]] + a[1..] && b == [b[0]] + b[1..];
      }
    }
  }

  lemma {:induction false} StrLtAsymmetric(a: string, b: string)
    requires StrLt(a, b)
    ensures !StrLt(b, a)
  {
    if StrLt(b, a) {
      StrLtTransitive(a, b, a);
      StrLtIrreflexive(a);
    }
  }

  // ---------------------------------------------------------------------
  // Sorting by (pagina, codigo)
  // ---------------------------------------------------------------------

  /** The columns the written table is sorted on and de-duplicated by. */
  datatype Key = Key(pagina: int, codigo: string)

  function KeyOf(r: Record): Key {
    Key(r.pagina, r.codigo)
  }

  /** Strictly before, in `sort_values(['pagina', 'codigo'])` order. */
  predicate KeyLt(x: Key, y: Key) {
    x.pagina < y.pagina || (x.pagina == y.pagina && StrLt(x.codigo, y.codigo))
  }

  predicate KeyLe(x: Key, y: Key) {
    x == y || KeyLt(x, y)
  }

  lemma KeyLeTotal(x: Key, y: Key)
    ensures KeyLe(x, y) || KeyLe(y, x)
  {
    StrLtTotal(x.codigo, y.codigo);
  }

  lemma KeyLeTransitive(x: Key, y: Key, z: Key)
    requires KeyLe(x, y) && KeyLe(y, z)
    ensures KeyLe(x, z)
  {
    if x.pagina == y.pagina == z.pagina && x != y && y != z {
      StrLtTransitive(x.codigo, y.codigo, z.codigo);
    }
  }

  predicate Sorted(s: seq<Record>) {
    forall i, j :: 0 <= i < j < |s| ==> KeyLe(KeyOf(s[i]), KeyOf(s[j]))
  }

  /** Inserts `x` in front of the first record whose key is not below its
      own, so that `x` precedes the records of equal key already in `s`. */
  function Insert(x: Record, s: seq<Record>): (r: seq<Record>)
    ensures multiset(r) == multiset(s) + multiset{x}
  {
    if s == [] || KeyLe(KeyOf(x), KeyOf(s[0])) then [x] + s
    else
      assert s == [s[0]] + s[1..];
      [s[0]] + Insert(x, s[1..])
  }

  lemma {:induction false} InsertSorted(x: Record, s: seq<Record>)
    requires Sorted(s)
    ensures Sorted(Insert(x, s))
  {
    var r := Insert(x, s);
    if s == [] {
    } else if KeyLe(KeyOf(x), KeyOf(s[0])) {
      forall j | 1 <= j < |r|
        ensures KeyLe(KeyOf(r[0]), KeyOf(r[j]))
      {
        if j > 1 {
          KeyLeTransitive(KeyOf(x), KeyOf(s[0]), KeyOf(s[j - 1]));
        }
      }
    } else {
      KeyLeTotal(KeyOf(x), KeyOf(s[0]));
      InsertSorted(x, s[1..]);
      var t := Insert(x, s[1..]);
      forall j | 0 <= j < |t|
        ensures KeyLe(KeyOf(s[0]), KeyOf(t[j]))
      {
        assert t[j] in multiset(t);
        if t[j] != x {
          assert t[j] in multiset(s[1..]);
          var m :| 0 <= m < |s[1..]| && s[1..][m] == t[j];
          assert s[m + 1] == t[j];
        }
      }
      assert r == [s[0]] + t;
    }
  }

  /** A stable sort on (pagina, codigo). */
  function Sort(s: seq<Record>): (r: seq<Record>)
    ensures multiset(r) == multiset(s)
    ensures |r| == |s|
  {
    if s == [] then []
    else
      var r := Insert(s[0], Sort(s[1..]));
      assert s == [s[0]] + s[1..];
      assert |r| == |multiset(r)|;
      r
  }

  lemma {:induction false} SortSorted(s: seq<Record>)
    ensures Sorted(Sort(s))
  {
    if s != [] {
      SortSorted(s[1..]);
      InsertSorted(s[0], Sort(s[1..]));
    }
  }

  /** The records of `s` with key `k`, in their order in `s`. */
  function WithKey(s: seq<Record>, k: Key): seq<Record> {
    if s == [] then []
    else (if KeyOf(s[0]) == k then [s[0]] else []) + WithKey(s[1..], k)
  }

  lemma {:induction false} WithKeyInsert(x: Record, s: seq<Record>, k: Key)
    ensures WithKey(Insert(x, s), k) == (if KeyOf(x) == k then [x] else []) + WithKey(s, k)
  {
    var t := Insert(x, s);
    if s != [] && !KeyLe(KeyOf(x), KeyOf(s[0])) {
      WithKeyInsert(x, s[1..], k);
      assert t == [s[0]] + Insert(x, s[1..]);
      assert t[0] == s[0] && t[1..] == Insert(x, s[1..]);
      var head := if KeyOf(s[0]) == k then [s[0]] else [];
      var mine := if KeyOf(x) == k then [x] else [];
      assert WithKey(t, k) == head + (mine + WithKey(s[1..], k));
      assert WithKey(s, k) == head + WithKey(s[1..], k);
      // the two keys differ, so at most one of them is `k`
      assert KeyOf(x) != KeyOf(s[0]);
      if KeyOf(x) == k {
        assert head == [];
      } else {
        assert mine == [];
      }
    } else {
      assert t == [x] + s;
      assert t[0] == x && t[1..] == s;
    }
  }

  /** The sort is stable: records sharing a key keep their input order. */
  lemma {:induction false} SortStable(s: seq<Record>, k: Key)
    ensures WithKey(Sort(s), k) == WithKey(s, k)
  {
    if s != [] {
      SortStable(s[1..], k);
      WithKeyInsert(s[0], Sort(s[1..]), k);
    }
  }

  // ---------------------------------------------------------------------
  // drop_duplicates(subset=['codigo', 'pagina'], keep='first')
  // ---------------------------------------------------------------------

  /** Keeps the first record of each key not in `seen`. */
  function DropDuplicates(s: seq<Record>, seen: set<Key>): (r: seq<Record>)
    ensures |r| <= |s|
    ensures forall i :: 0 <= i < |r| ==> r[i] in s && KeyOf(r[i]) !in seen
    ensures forall i, j :: 0 <= i < j < |r| ==> KeyOf(r[i]) != KeyOf(r[j])
  {
    if s == [] then []
    else if KeyOf(s[0]) in seen then DropDuplicates(s[1..], seen)
    else [s[0]] + DropDuplicates(s[1..], seen + {KeyOf(s[0])})
  }

  /** The first record with key `k`, or nothing. */
  function FirstWithKey(s: seq<Record>, k: Key): seq<Record> {
    var w := WithKey(s, k);
    if w == [] then [] else [w[0]]
  }

  lemma {:induction false} DropDuplicatesKeepsFirst(s: seq<Record>, seen: set<Key>, k: Key)
    ensures WithKey(DropDuplicates(s, seen), k) == if k in seen then [] else FirstWithKey(s, k)
  {
    if s != [] {
      var r := DropDuplicates(s, seen);
      if KeyOf(s[0]) in seen {
        DropDuplicatesKeepsFirst(s[1..], seen, k);
      } else {
        DropDuplicatesKeepsFirst(s[1..], seen + {KeyOf(s[0])}, k);
        assert r[1..] == DropDuplicates(s[1..], seen + {KeyOf(s[0])});
      }
    }
  }

  lemma {:induction false} DropDuplicatesSorted(s: seq<Record>, seen: set<Key>)
    requires Sorted(s)
    ensures Sorted(DropDuplicates(s, seen))
  {
    if s != [] {
      var t := s[1..];
      assert Sorted(t) by {
        forall i, j | 0 <= i < j < |t| ensures KeyLe(KeyOf(t[i]), KeyOf(t[j])) {
          assert t[i] == s[i + 1] && t[j] == s[j + 1];
        }
      }
      if KeyOf(s[0]) in seen {
        DropDuplicatesSorted(t, seen);
      } else {
        var rest := DropDuplicates(t, seen + {KeyOf(s[0])});
        DropDuplicatesSorted(t, seen + {KeyOf(s[0])});
        forall j | 0 <= j < |rest| ensures KeyLe(KeyOf(s[0]), KeyOf(rest[j])) {
          var m :| 0 <= m < |t| && t[m] == rest[j];
          assert s[m + 1] == rest[j];
        }
      }
    }
  }

  /** The table `save_to_csv` writes: sorted by (pagina, codigo), then the
      first record of each (codigo, pagina) pair. */
  function CsvRows(data: seq<Record>): seq<Record> {
    DropDuplicates(Sort(data), {})
  }

  /** The written table is sorted, holds each key once, and for each key
      holds exactly the first scraped record with that key. */
  lemma CsvRowsShape(data: seq<Record>)
    ensures Sorted(CsvRows(data))
    ensures |CsvRows(data)| <= |data|
    ensures forall i :: 0 <= i < |CsvRows(data)| ==> CsvRows(data)[i] in data
    ensures forall i, j :: 0 <= i < j < |CsvRows(data)| ==> KeyOf(CsvRows(data)[i]) != KeyOf(CsvRows(data)[j])
    ensures forall k :: WithKey(CsvRows(data), k) == FirstWithKey(data, k)
  {
    SortSorted(data);
    DropDuplicatesSorted(Sort(data), {});
    forall i | 0 <= i < |CsvRows(data)| ensures CsvRows(data)[i] in data {
      assert CsvRows(data)[i] in multiset(Sort(data));
    }
    forall k ensures WithKey(CsvRows(data), k) == FirstWithKey(data, k) {
      DropDuplicatesKeepsFirst(Sort(data), {}, k);
      SortStable(data, k);
    }
  }

  // ---------------------------------------------------------------------
  // save_to_csv
  // ---------------------------------------------------------------------

  const DataDir := "data/"

  /** The name used when none is given; `timestamp` is the current time
      formatted as `%Y%m%d_%H%M%S`. */
  function DefaultFileName(timestamp: string): string {
    "ibov_complete_data_" + timestamp + ".csv"
  }

  /** Puts a name under `data/` unless it already starts with it. */
  function InDataDir(name: string): (r: string)
    ensures StartsWith(r, DataDir)
    ensures EndsWith(r, name)
  {
    if StartsWith(name, DataDir) then name else DataDir + name
  }

  lemma InDataDirIdempotent(name: string)
    ensures InDataDir(InDataDir(name)) == InDataDir(name)
  {
  }

  /** What `save_to_csv` leaves behind: the path it returns ("" when
      nothing was saved) and the rows it wrote. */
  datatype Saved = Saved(path: string, rows: seq<Record>)

  /** `save_to_csv`. `filename` is the argument (Python treats both `None`
      and "" as absent); `written` says whether building and writing the
      frame succeeded. */
  function SaveToCsv(allData: seq<Record>, filename: Option<string>, timestamp: string, written: bool): (s: Saved)
    ensures allData == [] || !written <==> s.path == ""
    ensures s.path != "" ==> StartsWith(s.path, DataDir) && s.rows == CsvRows(allData)
    ensures s.path == "" ==> s.rows == []
    ensures s.path != "" && filename.Some? && filename.value != "" ==> EndsWith(s.path, filename.value)
    ensures s.path != "" && (filename.None? || filename.value == "") ==> EndsWith(s.path, DefaultFileName(timestamp))
  {
    if allData == [] then Saved("", [])
    else
      var name := if filename.Some? && filename.value != "" then filename.value else DefaultFileName(timestamp);
      var path := InDataDir(name);
      if written then Saved(path, CsvRows(allData)) else Saved("", [])
  }

  // ---------------------------------------------------------------------
  // get_summary
  // ---------------------------------------------------------------------

  /** The distinct values of a column. */
  function Distinct<T>(xs: seq<T>): (r: set<T>)
    ensures r == set x | x in xs
    ensures |r| <= |xs|
  {
    if xs == [] then {}
    else
      var rest := Distinct(xs[1..]);
      assert xs == [xs[0]] + xs[1..];
      rest + {xs[0]}
  }

  function Codes(s: seq<Record>): seq<string> {
    seq(|s|, i requires 0 <= i < |s| => s[i].codigo)
  }

  function Pages(s: seq<Record>): seq<int> {
    seq(|s|, i requires 0 <= i < |s| => s[i].pagina)
  }

  function Companies(s: seq<Record>): seq<string> {
    seq(|s|, i requires 0 <= i < |s| => s[i].empresa)
  }

  function Collected(s: seq<Record>): seq<string> {
    seq(|s|, i requires 0 <= i < |s| => s[i].dataColeta)
  }

  /** The least string of a non-empty column. */
  function MinString(xs: seq<string>): (r: string)
    requires xs != []
    ensures r in xs
    ensures forall i :: 0 <= i < |xs| ==> !StrLt(xs[i], r)
  {
    if |xs| == 1 then (StrLtIrreflexive(xs[0]); xs[0])
    else
      var m := MinString(xs[1..]);
      if StrLt(xs[0], m) then
        (assert forall i :: 1 <= i < |xs| ==> !StrLt(xs[i], xs[0]) by {
           forall i | 1 <= i < |xs| ensures !StrLt(xs[i], xs[0]) {
             assert xs[i] == xs[1..][i - 1];
             if StrLt(xs[i], xs[0]) { StrLtTransitive(xs[i], xs[0], m); }
           }
         }
         StrLtIrreflexive(xs[0]);
         xs[0])
      else
        (assert forall i :: 1 <= i < |xs| ==> !StrLt(xs[i], m) by {
           forall i | 1 <= i < |xs| ensures !StrLt(xs[i], m) {
             assert xs[i] == xs[1..][i - 1];
           }
         }
         m)
  }

  /** The greatest string of a non-empty column. */
  function MaxString(xs: seq<string>): (r: string)
    requires xs != []
    ensures r in xs
    ensures forall i :: 0 <= i < |xs| ==> !StrLt(r, xs[i])
  {
    if |xs| == 1 then (StrLtIrreflexive(xs[0]); xs[0])
    else
      var m := MaxString(xs[1..]);
      if StrLt(m, xs[0]) then
        (assert forall i :: 1 <= i < |xs| ==> !StrLt(xs[0], xs[i]) by {
           forall i | 1 <= i < |xs| ensures !StrLt(xs[0], xs[i]) {
             assert xs[i] == xs[1..][i - 1];
             if StrLt(xs[0], xs[i]) { StrLtTransitive(m, xs[0], xs[i]); }
           }
         }
         StrLtIrreflexive(xs[0]);
         xs[0])
      else
        (assert forall i :: 1 <= i < |xs| ==> !StrLt(m, xs[i]) by {
           forall i | 1 <= i < |xs| ensures !StrLt(m, xs[i]) {
             assert xs[i] == xs[1..][i - 1];
           }
         }
         m)
  }

  /** How many records come from page `p`. */
  function CountOnPage(s: seq<Record>, p: int): nat {
    if s == [] then 0
    else (if s[0].pagina == p then 1 else 0) + CountOnPage(s[1..], p)
  }

  /** `groupby('pagina').size()`, built one record at a time. */
  function Tally(s: seq<Record>): (m: map<int, nat>)
    decreases |s|
  {
    if s == [] then map[]
    else
      var m := Tally(s[..|s| - 1]);
      var p := s[|s| - 1].pagina;
      m[p := (if p in m then m[p] else 0) + 1]
  }

  lemma {:induction false} CountOnPageSnoc(s: seq<Record>, p: int)
    requires s != []
    ensures CountOnPage(s, p) == CountOnPage(s[..|s| - 1], p) + (if s[|s| - 1].pagina == p then 1 else 0)
  {
    if |s| > 1 {
      CountOnPageSnoc(s[1..], p);
      assert s[1..][..|s[1..]| - 1] == s[..|s| - 1][1..];
    }
  }

  /** The tally lists exactly the pages seen, each with its record count. */
  lemma {:induction false} TallyCounts(s: seq<Record>, p: int)
    ensures p in Tally(s) <==> p in Pages(s)
    ensures p in Tally(s) ==> Tally(s)[p] == CountOnPage(s, p) >= 1
    ensures p !in Tally(s) ==> CountOnPage(s, p) == 0
    decreases |s|
  {
    if s != [] {
      var init := s[..|s| - 1];
      TallyCounts(init, p);
      CountOnPageSnoc(s, p);
      assert Pages(s) == Pages(init) + [s[|s| - 1].pagina];
    }
  }

  datatype Summary = Summary(
    total: nat,             // total_registros
    uniqueCodes: nat,       // registros_unicos
    pages: nat,             // paginas_processadas
    companies: nat,         // empresas_unicas
    firstCollected: string, // primeira_coleta
    lastCollected: string,  // ultima_coleta
    perPage: map<int, nat>) // registros_por_pagina

  /** The distinct values of a column are the values the records carry in
      that field. */
  lemma DistinctCodes(s: seq<Record>)
    ensures Distinct(Codes(s)) == set k | 0 <= k < |s| :: s[k].codigo
  {
    var c := Codes(s);
    var d := set k | 0 <= k < |s| :: s[k].codigo;
    assert forall k :: 0 <= k < |s| ==> c[k] == s[k].codigo;
    assert forall x :: x in c <==> x in d;
  }

  lemma DistinctPages(s: seq<Record>)
    ensures Distinct(Pages(s)) == set k | 0 <= k < |s| :: s[k].pagina
  {
    var c := Pages(s);
    var d := set k | 0 <= k < |s| :: s[k].pagina;
    assert forall k :: 0 <= k < |s| ==> c[k] == s[k].pagina;
    assert forall x :: x in c <==> x in d;
  }

  lemma DistinctCompanies(s: seq<Record>)
    ensures Distinct(Companies(s)) == set k | 0 <= k < |s| :: s[k].empresa
  {
    var c := Companies(s);
    var d := set k | 0 <= k < |s| :: s[k].empresa;
    assert forall k :: 0 <= k < |s| ==> c[k] == s[k].empresa;
    assert forall x :: x in c <==> x in d;
  }

  /** The least and greatest collection times are those of some record, and
      bound every record's. */
  lemma CollectedBounds(s: seq<Record>)
    requires s != []
    ensures exists k :: 0 <= k < |s| && s[k].dataColeta == MinString(Collected(s))
    ensures forall k :: 0 <= k < |s| ==> !StrLt(s[k].dataColeta, MinString(Collected(s)))
    ensures exists k :: 0 <= k < |s| && s[k].dataColeta == MaxString(Collected(s))
    ensures forall k :: 0 <= k < |s| ==> !StrLt(MaxString(Collected(s)), s[k].dataColeta)
  {
    var c := Collected(s);
    var i :| 0 <= i < |c| && c[i] == MinString(c);
    var j :| 0 <= j < |c| && c[j] == MaxString(c);
    assert s[i].dataColeta == c[i] && s[j].dataColeta == c[j];
    assert forall k :: 0 <= k < |s| ==> s[k].dataColeta == c[k];
  }

  /** `get_summary`; `None` stands for the empty dict returned when nothing
      was collected. */
  function GetSummary(allData: seq<Record>): (r: Option<Summary>)
    ensures r.None? <==> allData == []
    ensures r.Some? ==> r.value.total == |allData|
    ensures r.Some? ==> 1 <= r.value.uniqueCodes <= r.value.total
    ensures r.Some? ==> 1 <= r.value.pages <= r.value.total
    ensures r.Some? ==> 1 <= r.value.companies <= r.value.total
    ensures r.Some? ==> !StrLt(r.value.lastCollected, r.value.firstCollected)
    ensures r.Some? ==> r.value.uniqueCodes == |set k | 0 <= k < |allData| :: allData[k].codigo|
    ensures r.Some? ==> r.value.pages == |set k | 0 <= k < |allData| :: allData[k].pagina|
    ensures r.Some? ==> r.value.companies == |set k | 0 <= k < |allData| :: allData[k].empresa|
    ensures r.Some? ==> exists k :: 0 <= k < |allData| && allData[k].dataColeta == r.value.firstCollected
    ensures r.Some? ==> forall k :: 0 <= k < |allData| ==> !StrLt(allData[k].dataColeta, r.value.firstCollected)
    ensures r.Some? ==> exists k :: 0 <= k < |allData| && allData[k].dataColeta == r.value.lastCollected
    ensures r.Some? ==> forall k :: 0 <= k < |allData| ==> !StrLt(r.value.lastCollected, allData[k].dataColeta)
  {
    if allData == [] then None
    else
      var codes := Distinct(Codes(allData));
      var pages := Distinct(Pages(allData));
      var companies := Distinct(Companies(allData));
      DistinctCodes(allData);
      DistinctPages(allData);
      DistinctCompanies(allData);
      var first := MinString(Collected(allData));
      var last := MaxString(Collected(allData));
      assert !StrLt(last, first) by {
        var i :| 0 <= i < |Collected(allData)| && Collected(allData)[i] == first;
      }
      CollectedBounds(allData);
      Some(Summary(|allData|, |codes|, |pages|, |companies|, first, last, Tally(allData)))
  }

  /** The per-page counts name exactly the processed pages and count the
      records of each. */
  lemma SummaryPerPage(allData: seq<Record>, p: int)
    requires allData != []
    ensures p in GetSummary(allData).value.perPage <==> p in Pages(allData)
    ensures p in GetSummary(allData).value.perPage ==> GetSummary(allData).value.perPage[p] == CountOnPage(allData, p)
    ensures |GetSummary(allData).value.perPage.Keys| == GetSummary(allData).value.pages
  {
    forall q ensures q in Tally(allData) <==> q in Pages(allData) {
      TallyCounts(allData, q);
    }
    TallyCounts(allData, p);
    assert Tally(allData).Keys == Distinct(Pages(allData));
  }
}
