/** The income-statistics fetch of the ingestion pipeline
    (pipelines/ingest_all.py, `fetch_all_income_stats`): read the metric codes and
    the latest year from the SCB table metadata, query the occupation codes in
    batches of 50, and fold every answered row into one stats dictionary per code.
    The GET and POST requests are parameters: the parsed metadata, or None when
    fetching it raised, and a function from the query to the parsed answer, None
    when the request or its decoding raised. */
module IncomePipeline {
  import opened Optional
  import Batching
  import opened Income

  const DefaultYear: string := "2023"
  const IncomeBatchSize: nat := 50
  const OccupationDimension: string := "Yrke2012"
  const ContentsDimension: string := "ContentsCode"
  const TimeDimension: string := "Tid"

  // ---------------------------------------------------------------- metadata

  /** One entry of the metadata's `variables` list. */
  datatype Variable = Variable(code: string, values: seq<string>, valueTexts: seq<string>)

  /** What the metadata loop produces: `code_to_text`, `all_content_codes` and
      `latest_year`. */
  datatype MetricCodes = MetricCodes(
    codeToText: map<string, string>,
    contentCodes: seq<string>,
    latestYear: string)

  const NoMetricCodes: MetricCodes := MetricCodes(map[], [], DefaultYear)

  function Min(a: nat, b: nat): nat {
    if a <= b then a else b
  }

  /** The first `k` pairs of `zip(values, texts)` recorded, in order. */
  function AddPairs(st: MetricCodes, values: seq<string>, texts: seq<string>, k: nat): (r: MetricCodes)
    requires k <= |values| && k <= |texts|
    ensures r.latestYear == st.latestYear
    ensures r.contentCodes == st.contentCodes + values[..k]
  {
    if k == 0 then st
    else
      var prev := AddPairs(st, values, texts, k - 1);
      assert values[..k] == values[..k - 1] + [values[k - 1]];
      MetricCodes(prev.codeToText[values[k - 1] := texts[k - 1]],
                  prev.contentCodes + [values[k - 1]], prev.latestYear)
  }

  /** One turn of the metadata loop; None where `variable["values"][-1]` raises
      IndexError on an empty `Tid` list. */
  function ApplyVariable(st: MetricCodes, v: Variable): Option<MetricCodes> {
    var st' := if v.code == ContentsDimension
               then AddPairs(st, v.values, v.valueTexts, Min(|v.values|, |v.valueTexts|))
               else st;
    if v.code != TimeDimension then Some(st')
    else if v.values == [] then None
    else Some(st'.(latestYear := v.values[|v.values| - 1]))
  }

  /** The metadata loop over the first `n` variables. */
  function ReadMetadata(vars: seq<Variable>, n: nat): Option<MetricCodes>
    requires n <= |vars|
  {
    if n == 0 then Some(NoMetricCodes)
    else
      match ReadMetadata(vars, n - 1)
      case None => None
      case Some(st) => ApplyVariable(st, vars[n - 1])
  }

  /** The metadata loop of `fetch_all_income_stats`: pairs the `ContentsCode` values
      with their texts and takes the last `Tid` value as the year. */
  method ParseMetadata(vars: seq<Variable>) returns (r: Option<MetricCodes>)
    ensures r == ReadMetadata(vars, |vars|)
  {
    var codeToText: map<string, string> := map[];
    var contentCodes: seq<string> := [];
    var latestYear := DefaultYear;
    for n := 0 to |vars|
      invariant ReadMetadata(vars, n) == Some(MetricCodes(codeToText, contentCodes, latestYear))
    {
      var v := vars[n];
      ghost var before := MetricCodes(codeToText, contentCodes, latestYear);
      if v.code == ContentsDimension {
        var pairs := Min(|v.values|, |v.valueTexts|);
        for k := 0 to pairs
          invariant AddPairs(before, v.values, v.valueTexts, k)
                 == MetricCodes(codeToText, contentCodes, latestYear)
        {
          codeToText := codeToText[v.values[k] := v.valueTexts[k]];
          contentCodes := contentCodes + [v.values[k]];
        }
      }
      if v.code == TimeDimension {
        if v.values == [] {
          ReadMetadataFails(vars, |vars|);
          return None;
        }
        latestYear := v.values[|v.values| - 1];
      }
    }
    r := Some(MetricCodes(codeToText, contentCodes, latestYear));
  }

  /** The metadata loop fails exactly when some `Tid` variable has no values. */
  lemma {:induction false} ReadMetadataFails(vars: seq<Variable>, n: nat)
    requires n <= |vars|
    ensures ReadMetadata(vars, n).None?
        <==> exists j :: 0 <= j < n && vars[j].code == TimeDimension && vars[j].values == []
  {
    if n > 0 {
      ReadMetadataFails(vars, n - 1);
    }
  }

  /** `latest_year` stays "2023" when there is no `Tid` variable. */
  lemma {:induction false} LatestYearDefault(vars: seq<Variable>, n: nat)
    requires n <= |vars| && ReadMetadata(vars, n).Some?
    requires forall j :: 0 <= j < n ==> vars[j].code != TimeDimension
    ensures ReadMetadata(vars, n).value.latestYear == DefaultYear
  {
    if n > 0 {
      LatestYearDefault(vars, n - 1);
    }
  }

  /** `latest_year` is the last value of the last `Tid` variable. */
  lemma {:induction false} LatestYear(vars: seq<Variable>, n: nat, j: nat)
    requires j < n <= |vars| && ReadMetadata(vars, n).Some?
    requires vars[j].code == TimeDimension
    requires forall l :: j < l < n ==> vars[l].code != TimeDimension
    ensures vars[j].values != []
    ensures ReadMetadata(vars, n).value.latestYear == vars[j].values[|vars[j].values| - 1]
  {
    if j < n - 1 {
      LatestYear(vars, n - 1, j);
    }
  }

  /** Every content code has a text, and every code with a text is a content code. */
  lemma {:induction false} AddPairsKeys(st: MetricCodes, values: seq<string>, texts: seq<string>, k: nat)
    requires k <= |values| && k <= |texts|
    requires forall c :: c in st.codeToText <==> c in st.contentCodes
    ensures forall c :: c in AddPairs(st, values, texts, k).codeToText
                    <==> c in AddPairs(st, values, texts, k).contentCodes
  {
    if k > 0 {
      AddPairsKeys(st, values, texts, k - 1);
    }
  }

  lemma {:induction false} MetadataKeys(vars: seq<Variable>, n: nat)
    requires n <= |vars| && ReadMetadata(vars, n).Some?
    ensures forall c :: c in ReadMetadata(vars, n).value.codeToText
                    <==> c in ReadMetadata(vars, n).value.contentCodes
  {
    if n > 0 {
      var st := ReadMetadata(vars, n - 1).value;
      MetadataKeys(vars, n - 1);
      var v := vars[n - 1];
      if v.code == ContentsDimension {
        AddPairsKeys(st, v.values, v.valueTexts, Min(|v.values|, |v.valueTexts|));
      }
    }
  }

  /** With distinct codes, each code is named by the text at its own position. */
  lemma {:induction false} AddPairsText(st: MetricCodes, values: seq<string>, texts: seq<string>, k: nat, i: nat)
    requires k <= |values| && k <= |texts| && i < k
    requires forall a, b :: 0 <= a < b < k ==> values[a] != values[b]
    ensures values[i] in AddPairs(st, values, texts, k).codeToText
    ensures AddPairs(st, values, texts, k).codeToText[values[i]] == texts[i]
  {
    if i < k - 1 {
      AddPairsText(st, values, texts, k - 1, i);
    }
  }

  // --------------------------------------------------------------- the query

  /** One entry of the query's `query` list: a dimension and the selected values. */
  datatype Selection = Selection(code: string, values: seq<string>)

  /** The query for one batch of occupation codes: all sectors ("0"), both sexes
      ("1+2"), every metric and the latest year. */
  function Query(batch: seq<string>, contentCodes: seq<string>, year: string): seq<Selection> {
    [ Selection(OccupationDimension, batch),
      Selection("Sektor", ["0"]),
      Selection("Kon", ["1+2"]),
      Selection(ContentsDimension, contentCodes),
      Selection(TimeDimension, [year]) ]
  }

  // ------------------------------------------------------------ the answers

  /** One entry of an answer's `columns` list: its `code` and `type`. */
  datatype Column = Column(code: string, kind: Option<string>)
  /** One entry of an answer's `data` list. */
  datatype DataRow = DataRow(key: seq<string>, values: seq<string>)
  /** A decoded answer; `data` is None when the key is missing (a KeyError). */
  datatype Answer = Answer(columns: seq<Column>, data: Option<seq<DataRow>>)

  type Post = seq<Selection> -> Option<Answer>

  type AllStats = map<string, Stats>

  /** `col_codes.index("Yrke2012")`: the first position, None for ValueError. */
  function IndexOf(codes: seq<string>, x: string): (r: Option<nat>)
    ensures r.Some? ==> r.value < |codes| && codes[r.value] == x
    ensures r.Some? ==> forall j :: 0 <= j < r.value ==> codes[j] != x
    ensures r.None? ==> forall j :: 0 <= j < |codes| ==> codes[j] != x
  {
    if codes == [] then None
    else if codes[0] == x then Some(0)
    else match IndexOf(codes[1..], x)
         case None => None
         case Some(j) => Some(j + 1)
  }

  function ColumnCodes(columns: seq<Column>): (codes: seq<string>)
    ensures |codes| == |columns|
    ensures forall j :: 0 <= j < |columns| ==> codes[j] == columns[j].code
  {
    seq(|columns|, j requires 0 <= j < |columns| => columns[j].code)
  }

  /** The metric name of a measure column: its text from the metadata, else its code. */
  function MetricName(codeToText: map<string, string>, code: string): string {
    if code in codeToText then codeToText[code] else code
  }

  /** `measure_indices`: the k-th column of type "c" names `values[k]`. */
  function MeasureNames(columns: seq<Column>, codeToText: map<string, string>): seq<string> {
    if columns == [] then []
    else
      (if columns[0].kind == Some("c") then [MetricName(codeToText, columns[0].code)] else [])
      + MeasureNames(columns[1..], codeToText)
  }

  /** A cell that is stored: neither empty nor the placeholder "..". */
  predicate Usable(value: string) {
    value != "" && value != ".."
  }

  /** What one cell stores: `int(val)` or the raw text for a usable cell, nothing
      for the others. */
  function Cell(value: string): Option<StatValue> {
    if Usable(value) then Some(Convert(value)) else None
  }

  /** The row's cells, position by position. */
  function Cells(values: seq<string>): (cells: seq<Option<StatValue>>)
    ensures |cells| == |values|
    ensures forall j :: 0 <= j < |values| ==> cells[j] == Cell(values[j])
  {
    if values == [] then [] else [Cell(values[0])] + Cells(values[1..])
  }

  /** The measure loop for one row over its first `k` measures: each stored cell is
      written under its metric name, later ones overwriting earlier ones; a measure
      past the end of the row stores nothing. */
  function ApplyMeasures(stats: Stats, names: seq<string>, cells: seq<Option<StatValue>>, k: nat): Stats
    requires k <= |names|
  {
    if k == 0 then stats
    else
      var prev := ApplyMeasures(stats, names, cells, k - 1);
      if k - 1 < |cells| && cells[k - 1].Some?
      then prev[names[k - 1] := cells[k - 1].value]
      else prev
  }

  /** One row: None when `keys[yrke_idx]` raises IndexError (the rest of the batch
      is then abandoned); otherwise the row's code gets `{"year": latest_year}` when
      first seen and then the row's measures. */
  function ApplyRow(all: AllStats, yrkeIdx: nat, names: seq<string>, year: string, row: DataRow)
    : Option<AllStats>
  {
    if yrkeIdx >= |row.key| then None
    else
      var code := row.key[yrkeIdx];
      var base := if code in all then all[code] else map["year" := TextStat(year)];
      Some(all[code := ApplyMeasures(base, names, Cells(row.values), |names|)])
  }

  /** The row loop from the first row on, stopping at the first row that raises. */
  function FoldRows(all: AllStats, yrkeIdx: nat, names: seq<string>, year: string, rows: seq<DataRow>)
    : AllStats
    decreases rows
  {
    if rows == [] then all
    else
      match ApplyRow(all, yrkeIdx, names, year, rows[0])
      case None => all
      case Some(next) => FoldRows(next, yrkeIdx, names, year, rows[1..])
  }

  /** What one batch does to the stats: nothing when the request failed, when the
      answer has no `Yrke2012` column, or when it has no `data`; else the row loop. */
  function ApplyAnswer(all: AllStats, answer: Option<Answer>, m: MetricCodes): AllStats {
    match answer
    case None => all
    case Some(a) =>
      match IndexOf(ColumnCodes(a.columns), OccupationDimension)
      case None => all
      case Some(yrkeIdx) =>
        match a.data
        case None => all
        case Some(rows) => FoldRows(all, yrkeIdx, MeasureNames(a.columns, m.codeToText), m.latestYear, rows)
  }

  /** The batch loop, batch after batch in order. */
  function ApplyBatches(all: AllStats, batches: seq<seq<string>>, m: MetricCodes, post: Post): AllStats
    decreases batches
  {
    if batches == [] then all
    else
      ApplyBatches(ApplyAnswer(all, post(Query(batches[0], m.contentCodes, m.latestYear)), m),
                   batches[1..], m, post)
  }

  /** A metric not written by any usable cell of the row is left as it was: empty
      cells, ".." placeholders and cells past the end of the row change nothing. */
  lemma {:induction false} MeasuresUnwritten(stats: Stats, names: seq<string>, cells: seq<Option<StatValue>>, k: nat, m: string)
    requires k <= |names|
    requires forall j :: 0 <= j < k && j < |cells| && cells[j].Some? ==> names[j] != m
    ensures m in ApplyMeasures(stats, names, cells, k) <==> m in stats
    ensures m in stats ==> ApplyMeasures(stats, names, cells, k)[m] == stats[m]
  {
    if k > 0 {
      MeasuresUnwritten(stats, names, cells, k - 1, m);
    }
  }

  /** Empty cells, ".." placeholders and cells past the end of the row store nothing. */
  lemma UnusableCells(values: seq<string>, j: nat)
    ensures j < |values| && Usable(values[j]) <==> j < |Cells(values)| && Cells(values)[j].Some?
    ensures j < |values| && Usable(values[j]) ==> Cells(values)[j].value == Convert(values[j])
  {
  }

  /** A metric keeps the value its write at position `j` gave it while no later
      usable cell names it. */
  lemma {:induction false} MeasuresKept(stats: Stats, names: seq<string>, cells: seq<Option<StatValue>>, k: nat, j: nat)
    requires k <= |names| && j < k && j < |cells| && cells[j].Some?
    requires forall l :: j < l < k && l < |cells| && cells[l].Some? ==> names[l] != names[j]
    ensures names[j] in ApplyMeasures(stats, names, cells, k)
    ensures ApplyMeasures(stats, names, cells, k)[names[j]] == cells[j].value
  {
    if j < k - 1 {
      MeasuresKept(stats, names, cells, k - 1, j);
      if k - 1 < |cells| && cells[k - 1].Some? {
        assert names[k - 1] != names[j];
      }
    }
  }

  /** The last usable cell naming a metric decides its stored value. */
  lemma MeasuresLastWriter(stats: Stats, names: seq<string>, values: seq<string>, k: nat, j: nat)
    requires k <= |names| && j < k && j < |values| && Usable(values[j])
    requires forall l :: j < l < k && l < |values| && Usable(values[l]) ==> names[l] != names[j]
    ensures names[j] in ApplyMeasures(stats, names, Cells(values), k)
    ensures ApplyMeasures(stats, names, Cells(values), k)[names[j]] == Convert(values[j])
  {
    var cells := Cells(values);
    forall l | j < l < k && l < |cells| && cells[l].Some? ensures names[l] != names[j] {
      assert Usable(values[l]);
    }
    MeasuresKept(stats, names, cells, k, j);
  }

  /** Storing measures never removes a key. */
  lemma {:induction false} MeasuresKeysGrow(stats: Stats, names: seq<string>, cells: seq<Option<StatValue>>, k: nat)
    requires k <= |names|
    ensures stats.Keys <= ApplyMeasures(stats, names, cells, k).Keys
  {
    if k > 0 {
      MeasuresKeysGrow(stats, names, cells, k - 1);
    }
  }

  /** Every code's stats carry a "year" entry. */
  predicate HasYear(all: AllStats) {
    forall c :: c in all ==> "year" in all[c]
  }

  /** A row adds exactly its own code, keeps every other code's stats, and keeps the
      "year" entries. */
  lemma RowKeepsYear(all: AllStats, yrkeIdx: nat, names: seq<string>, year: string, row: DataRow)
    requires ApplyRow(all, yrkeIdx, names, year, row).Some?
    ensures yrkeIdx < |row.key|
    ensures ApplyRow(all, yrkeIdx, names, year, row).value.Keys == all.Keys + {row.key[yrkeIdx]}
    ensures forall c :: c in all && c != row.key[yrkeIdx]
              ==> ApplyRow(all, yrkeIdx, names, year, row).value[c] == all[c]
    ensures HasYear(all) ==> HasYear(ApplyRow(all, yrkeIdx, names, year, row).value)
  {
    var code := row.key[yrkeIdx];
    var base := if code in all then all[code] else map["year" := TextStat(year)];
    MeasuresKeysGrow(base, names, Cells(row.values), |names|);
  }

  lemma {:induction false} FoldRowsKeepsYear(all: AllStats, yrkeIdx: nat, names: seq<string>, year: string, rows: seq<DataRow>)
    ensures all.Keys <= FoldRows(all, yrkeIdx, names, year, rows).Keys
    ensures HasYear(all) ==> HasYear(FoldRows(all, yrkeIdx, names, year, rows))
    decreases rows
  {
    if rows != [] {
      match ApplyRow(all, yrkeIdx, names, year, rows[0]) {
        case None =>
        case Some(next) =>
          RowKeepsYear(all, yrkeIdx, names, year, rows[0]);
          FoldRowsKeepsYear(next, yrkeIdx, names, year, rows[1..]);
      }
    }
  }

  /** One batch never drops a code and never leaves a code without its year. */
  lemma AnswerKeepsYear(all: AllStats, answer: Option<Answer>, m: MetricCodes)
    ensures all.Keys <= ApplyAnswer(all, answer, m).Keys
    ensures HasYear(all) ==> HasYear(ApplyAnswer(all, answer, m))
  {
    if answer.Some? {
      var a := answer.value;
      var yrke := IndexOf(ColumnCodes(a.columns), OccupationDimension);
      if yrke.Some? && a.data.Some? {
        FoldRowsKeepsYear(all, yrke.value, MeasureNames(a.columns, m.codeToText), m.latestYear, a.data.value);
      }
    }
  }

  /** Every code in the saved dictionary has a "year" entry, so none of them has
      empty stats. */
  lemma {:induction false} BatchesKeepYear(all: AllStats, batches: seq<seq<string>>, m: MetricCodes, post: Post)
    ensures all.Keys <= ApplyBatches(all, batches, m, post).Keys
    ensures HasYear(all) ==> HasYear(ApplyBatches(all, batches, m, post))
    decreases batches
  {
    if batches != [] {
      var answer := post(Query(batches[0], m.contentCodes, m.latestYear));
      AnswerKeepsYear(all, answer, m);
      BatchesKeepYear(ApplyAnswer(all, answer, m), batches[1..], m, post);
    }
  }

  /** A failed request, an answer without a `Yrke2012` column and an answer without
      `data` leave the stats as they were. */
  lemma UnusableAnswers(all: AllStats, answer: Option<Answer>, m: MetricCodes)
    requires || answer.None?
             || (forall j :: 0 <= j < |answer.value.columns| ==> answer.value.columns[j].code != OccupationDimension)
             || answer.value.data.None?
    ensures ApplyAnswer(all, answer, m) == all
  {
  }

  datatype FetchOutcome =
    | MetadataUnavailable      // the metadata request raised: nothing written
    | MetadataMalformed        // an empty `Tid` list raised IndexError
    | NoMetrics                // "Could not resolve metric codes.": nothing written
    | Saved(stats: AllStats)   // the dictionary written to income_stats.json

  /** One more measure: the cell at `k` is written when it is usable. */
  lemma MeasureStep(stats: Stats, names: seq<string>, values: seq<string>, k: nat)
    requires k < |names|
    ensures var prev := ApplyMeasures(stats, names, Cells(values), k);
            ApplyMeasures(stats, names, Cells(values), k + 1)
            == if k < |values| && Usable(values[k]) then prev[names[k] := Convert(values[k])] else prev
  {
    UnusableCells(values, k);
  }

  /** The measure loop of one row, as a method. */
  method StoreMeasures(stats: Stats, names: seq<string>, values: seq<string>) returns (r: Stats)
    ensures r == ApplyMeasures(stats, names, Cells(values), |names|)
  {
    r := stats;
    for k := 0 to |names|
      invariant r == ApplyMeasures(stats, names, Cells(values), k)
    {
      MeasureStep(stats, names, values, k);
      if k < |values| {
        var val := values[k];
        if val != "" && val != ".." {
          r := r[names[k] := Convert(val)];
        }
      }
    }
  }

  /** The `measure_indices` loop. */
  method FindMeasures(columns: seq<Column>, codeToText: map<string, string>) returns (names: seq<string>)
    ensures names == MeasureNames(columns, codeToText)
  {
    names := [];
    var n := |columns|;
    for j := 0 to n
      invariant names + MeasureNames(columns[j..], codeToText) == MeasureNames(columns, codeToText)
    {
      assert columns[j..][1..] == columns[j + 1..];
      ghost var rest := MeasureNames(columns[j + 1..], codeToText);
      if columns[j].kind == Some("c") {
        var name := MetricName(codeToText, columns[j].code);
        assert MeasureNames(columns[j..], codeToText) == [name] + rest;
        assert names + ([name] + rest) == (names + [name]) + rest;
        names := names + [name];
      } else {
        assert MeasureNames(columns[j..], codeToText) == rest;
      }
    }
    assert columns[n..] == [];
  }

  /** The body of the `try` for one decoded answer. */
  method StoreAnswer(all: AllStats, a: Answer, m: MetricCodes) returns (r: AllStats)
    ensures r == ApplyAnswer(all, Some(a), m)
  {
    var yrke := IndexOf(ColumnCodes(a.columns), OccupationDimension);
    if yrke.None? {
      return all;
    }
    var names := FindMeasures(a.columns, m.codeToText);
    if a.data.None? {
      return all;
    }
    var rows := a.data.value;
    r := all;
    var i := 0;
    while i < |rows|
      invariant 0 <= i <= |rows|
      invariant FoldRows(r, yrke.value, names, m.latestYear, rows[i..]) == ApplyAnswer(all, Some(a), m)
    {
      assert rows[i..][1..] == rows[i + 1..];
      ghost var before := r;
      var keys := rows[i].key;
      if yrke.value >= |keys| {
        assert ApplyRow(before, yrke.value, names, m.latestYear, rows[i]).None?;
        return r;
      }
      var code := keys[yrke.value];
      var stats := if code in r then r[code] else map["year" := TextStat(m.latestYear)];
      stats := StoreMeasures(stats, names, rows[i].values);
      r := r[code := stats];
      assert ApplyRow(before, yrke.value, names, m.latestYear, rows[i]) == Some(r);
      assert FoldRows(before, yrke.value, names, m.latestYear, rows[i..])
          == FoldRows(r, yrke.value, names, m.latestYear, rows[i + 1..]);
      i := i + 1;
    }
    assert rows[i..] == [];
  }

  /** `fetch_all_income_stats(ssyk_codes)`. */
  method FetchAllIncomeStats(codes: seq<string>, metadata: Option<seq<Variable>>, post: Post)
    returns (outcome: FetchOutcome)
    ensures metadata.None? ==> outcome == MetadataUnavailable
    ensures metadata.Some? ==>
      match ReadMetadata(metadata.value, |metadata.value|)
      case None => outcome == MetadataMalformed
      case Some(m) =>
        if m.contentCodes == [] then outcome == NoMetrics
        else
          outcome == Saved(ApplyBatches(map[], Batching.Batches(codes, IncomeBatchSize), m, post))
  {
    if metadata.None? {
      return MetadataUnavailable;
    }
    var parsed := ParseMetadata(metadata.value);
    if parsed.None? {
      return MetadataMalformed;
    }
    var m := parsed.value;
    if m.contentCodes == [] {
      return NoMetrics;
    }
    var all: AllStats := map[];
    var i := 0;
    assert codes[i..] == codes;
    while i < |codes|
      invariant 0 <= i <= |codes|
      invariant ApplyBatches(all, Batching.Batches(codes[i..], IncomeBatchSize), m, post)
             == ApplyBatches(map[], Batching.Batches(codes, IncomeBatchSize), m, post)
      decreases |codes| - i
    {
      var end := Batching.Min(i + IncomeBatchSize, |codes|);
      var batch := codes[i..end];
      Batching.BatchesStep(codes, IncomeBatchSize, i);
      assert Batching.Batches(codes[i..], IncomeBatchSize)[0] == batch;
      assert Batching.Batches(codes[i..], IncomeBatchSize)[1..] == Batching.Batches(codes[end..], IncomeBatchSize);
      var answer := post(Query(batch, m.contentCodes, m.latestYear));
      if answer.Some? {
        all := StoreAnswer(all, answer.value, m);
      }
      i := end;
    }
    assert codes[i..] == [];
    outcome := Saved(all);
  }
}
