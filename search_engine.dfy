/** The hybrid search engine (services/mcp_server/src/ssyk_mcp/search.py, class
    `SearchEngine`) and the query the `classify_occupation` tool builds for it
    (services/mcp_server/src/ssyk_mcp/server.py).

    The engine loads the occupation table lazily, tokenizes one text per row for the
    BM25 index, and answers each query by fusing BM25 scores with optional cosine
    scores. What lies outside the process or inside libraries is a parameter:
    whether the parquet file exists and what it holds (`source`), whether
    OPENAI_API_KEY is set (`apiKeySet`), the fitted BM25 scorer (`bm25`, one score
    per corpus row) and the embedding request followed by the cosine similarity
    against the `embedding` column (`embed`, None when it raised). */
module SearchEngine {
  import opened Optional
  import Text
  import Tokenizer
  import Fusion

  /** One row of the occupation table, as far as the engine reads it; any cell may be null. */
  datatype Row = Row(
    code: Option<string>,
    title: Option<string>,
    description: Option<string>,
    searchText: Option<string>,
    embedding: Option<seq<real>>)

  /** The table in the parquet file; `hasSearchText` tells whether it has a
      `search_text` column at all. */
  datatype Table = Table(rows: seq<Row>, hasSearchText: bool)

  /** One entry of a search answer. */
  datatype ScoredResult = ScoredResult(
    code: Option<string>,
    title: Option<string>,
    description: Option<string>,
    score: real)

  /** The text row `i` contributes to the BM25 corpus: its `search_text` when the
      table has that column, else its `title`, a null cell counting as "". */
  function CorpusText(t: Table, i: nat): string
    requires i < |t.rows|
  {
    if t.hasSearchText then t.rows[i].searchText.GetOr("") else t.rows[i].title.GetOr("")
  }

  /** The tokenized corpus the BM25 index is fitted on: one token list per row, in row
      order, so that the scores it yields line up with the rows. */
  function TokenizedCorpus(t: Table): (corpus: seq<seq<string>>)
    ensures |corpus| == |t.rows|
  {
    seq(|t.rows|, i requires 0 <= i < |t.rows| => Tokenizer.Tokenize(CorpusText(t, i)))
  }

  /** The query after `(query or "").strip()`. */
  function CleanQuery(query: Option<string>): string {
    Text.Strip(query.GetOr(""))
  }

  function ResultAt(row: Row, score: real): ScoredResult {
    ScoredResult(row.code, row.title, row.description, score)
  }

  /** The answer for the chosen row indices, in their order. */
  function Render(rows: seq<Row>, scores: seq<real>, top: seq<nat>): (results: seq<ScoredResult>)
    requires |scores| == |rows| && Fusion.InRange(top, |rows|)
    ensures |results| == |top|
    ensures forall k :: 0 <= k < |top| ==> results[k] == ResultAt(rows[top[k]], scores[top[k]])
  {
    seq(|top|, k requires 0 <= k < |top| => ResultAt(rows[top[k]], scores[top[k]]))
  }

  /** What a search answers once the final scores are known: nothing when no score
      is positive, else min(n, N) entries for distinct rows, best first, each
      carrying its row's code, title and description and its final score. */
  lemma RenderTop(rows: seq<Row>, scores: seq<real>, n: nat, top: seq<nat>)
    requires |scores| == |rows|
    requires Fusion.IsTopSelection(scores, n, top)
    ensures |Render(rows, scores, top)| == (if n < |rows| then n else |rows|)
    ensures forall a, b :: 0 <= a < b < |top| ==>
      Render(rows, scores, top)[a].score >= Render(rows, scores, top)[b].score
    ensures forall j | 0 <= j < |rows| && j !in top ::
      forall k | 0 <= k < |top| :: scores[j] <= Render(rows, scores, top)[k].score
  {
  }

  /** `classify_occupation`'s query: title and description joined by ": ", whatever
      the description holds. */
  function ClassifyQuery(title: string, description: string): string {
    title + ": " + description
  }

  /** A classification query is never blank, so the engine always scores it. */
  lemma ClassifyQueryNotBlank(title: string, description: string)
    ensures CleanQuery(Some(ClassifyQuery(title, description))) != []
  {
    var q := ClassifyQuery(title, description);
    assert q[|title|] == ':';
    assert !Text.IsSpace(q[|title|]);
  }

  /** The ": " glue adds no token: the query's tokens are the title's followed by the
      description's. */
  lemma ClassifyQueryTokens(title: string, description: string)
    ensures Tokenizer.Tokenize(ClassifyQuery(title, description))
         == Tokenizer.Tokenize(title) + Tokenizer.Tokenize(description)
  {
    assert ClassifyQuery(title, description) == title + [':'] + ([' '] + description);
    Tokenizer.TokenizeSeparator(title, ':', [' '] + description);
    Tokenizer.TokenizeSeparator([], ' ', description);
    assert [] + [' '] + description == [' '] + description;
  }

  class Engine {
    var df: Option<Table>
    /** The tokenized corpus the BM25 index was fitted on (`self.bm25`). */
    var index: Option<seq<seq<string>>>
    /** `self.client is not None`. */
    var hasClient: bool
    var isReady: bool
    var warnedEmbeddingDisabled: bool
    var warnedVectorFailure: bool
    /** How many times the "vector search disabled" notice has been printed. */
    ghost var disabledNotices: nat
    /** How many times the DNS and HTTP diagnostics have run. */
    ghost var diagnosticRuns: nat

    /** The engine's invariant: a ready engine holds a non-empty table and the index
        built from exactly that table; an engine that is not ready holds neither; and
        each notice has been emitted once if its flag is set and never otherwise. */
    ghost predicate Valid()
      reads this
    {
      && (isReady ==> df.Some? && |df.value.rows| > 0 && index == Some(TokenizedCorpus(df.value)))
      && (!isReady ==> df.None? && index.None?)
      && disabledNotices == (if warnedEmbeddingDisabled then 1 else 0)
      && diagnosticRuns == (if warnedVectorFailure then 1 else 0)
    }

    constructor ()
      ensures Valid()
      ensures df.None? && index.None? && !hasClient && !isReady
      ensures !warnedEmbeddingDisabled && !warnedVectorFailure
      ensures disabledNotices == 0 && diagnosticRuns == 0
    {
      df := None;
      index := None;
      hasClient := false;
      isReady := false;
      warnedEmbeddingDisabled := false;
      warnedVectorFailure := false;
      disabledNotices := 0;
      diagnosticRuns := 0;
    }

    /** `load_data`: a missing file leaves the engine as it was; otherwise the table
        and its index are installed together, a client is created when the API key
        is set, and the engine becomes ready. */
    method LoadData(source: Option<Table>, apiKeySet: bool)
      requires Valid()
      requires source.Some? ==> |source.value.rows| > 0
      modifies this
      ensures Valid()
      ensures source.None? ==> unchanged(this)
      ensures source.Some? ==> isReady && df == source
      ensures source.Some? ==> index == Some(TokenizedCorpus(source.value))
      ensures source.Some? ==> hasClient == (old(hasClient) || apiKeySet)
      ensures warnedEmbeddingDisabled == old(warnedEmbeddingDisabled)
      ensures warnedVectorFailure == old(warnedVectorFailure)
      ensures disabledNotices == old(disabledNotices) && diagnosticRuns == old(diagnosticRuns)
    {
      if source.None? {
        return;
      }
      var table := source.value;
      df := Some(table);
      index := Some(TokenizedCorpus(table));
      if apiKeySet {
        hasClient := true;
      }
      isReady := true;
    }

    /** `search(query, n)`. */
    method Search(
      query: Option<string>,
      n: nat,
      source: Option<Table>,
      apiKeySet: bool,
      bm25: (seq<seq<string>>, seq<string>) -> seq<real>,
      embed: (seq<Row>, string) -> Option<seq<real>>)
      returns (results: seq<ScoredResult>, ghost top: seq<nat>)
      requires Valid()
      requires source.Some? ==> |source.value.rows| > 0
      requires forall corpus, tokens :: |bm25(corpus, tokens)| == |corpus|
      requires forall rows, q :: embed(rows, q).Some? ==> |embed(rows, q).value| == |rows|
      modifies this
      ensures Valid()
      // lazy load: retried on every call until it succeeds, never repeated afterwards
      ensures old(isReady) ==> isReady && df == old(df) && index == old(index)
      ensures old(isReady) ==> hasClient == old(hasClient)
      ensures !old(isReady) && source.None? ==> unchanged(this) && results == []
      ensures !old(isReady) && source.Some? ==>
        isReady && df == source && hasClient == (old(hasClient) || apiKeySet)
      // blank queries
      ensures isReady && CleanQuery(query) == [] ==> results == []
      // ranking
      ensures isReady && CleanQuery(query) != [] ==>
        var q := CleanQuery(query);
        var rows := df.value.rows;
        var semantic := if hasClient then embed(rows, q) else None;
        var final := Fusion.Fuse(bm25(index.value, Tokenizer.Tokenize(q)), semantic);
        && (Fusion.Max(final) <= 0.0 ==> results == [])
        && (Fusion.Max(final) > 0.0 ==>
              Fusion.IsTopSelection(final, n, top) && results == Render(rows, final, top))
      // notices: each flag is raised by the first query that meets its cause
      ensures warnedEmbeddingDisabled
        == (old(warnedEmbeddingDisabled) || (isReady && CleanQuery(query) != [] && !hasClient))
      ensures warnedVectorFailure
        == (old(warnedVectorFailure)
            || (isReady && CleanQuery(query) != [] && hasClient
                && embed(df.value.rows, CleanQuery(query)).None?))
    {
      top := [];
      if !isReady {
        LoadData(source, apiKeySet);
        if !isReady {
          return [], top;
        }
      }

      var q := CleanQuery(query);
      if q == [] {
        return [], top;
      }

      var tokens := Tokenizer.Tokenize(q);
      var lexical := bm25(index.value, tokens);
      var semantic := SemanticScores(q, embed);
      var final := Fusion.Fuse(lexical, semantic);
      results, top := Rank(df.value.rows, final, n);
    }

    /** The optional vector step of `search`: without a client, BM25 only and the
        "disabled" notice the first time; with one, the cosine scores, or BM25 only
        for this query when the embedding call fails, with the diagnostics run the
        first time. The client is kept either way. */
    method SemanticScores(q: string, embed: (seq<Row>, string) -> Option<seq<real>>)
      returns (semantic: Option<seq<real>>)
      requires Valid() && isReady
      modifies this
      ensures Valid()
      ensures df == old(df) && index == old(index) && isReady
      ensures hasClient == old(hasClient)
      ensures semantic == (if hasClient then embed(df.value.rows, q) else None)
      ensures warnedEmbeddingDisabled == (old(warnedEmbeddingDisabled) || !hasClient)
      ensures warnedVectorFailure
        == (old(warnedVectorFailure) || (hasClient && embed(df.value.rows, q).None?))
    {
      semantic := None;
      if !hasClient {
        if !warnedEmbeddingDisabled {
          disabledNotices := disabledNotices + 1;
          warnedEmbeddingDisabled := true;
        }
      } else {
        var outcome := embed(df.value.rows, q);
        if outcome.Some? {
          semantic := outcome;
        } else if !warnedVectorFailure {
          warnedVectorFailure := true;
          diagnosticRuns := diagnosticRuns + 1;
        }
      }
    }
  }

  /** The end of `search`: the "no positive score" rule, then the top-n indices
      turned into results. */
  method Rank(rows: seq<Row>, final: seq<real>, n: nat)
    returns (results: seq<ScoredResult>, ghost top: seq<nat>)
    requires |rows| > 0 && |final| == |rows|
    ensures Fusion.Max(final) <= 0.0 ==> results == []
    ensures Fusion.Max(final) > 0.0 ==>
      Fusion.IsTopSelection(final, n, top) && results == Render(rows, final, top)
  {
    top := [];
    if Fusion.Max(final) <= 0.0 {
      return [], top;
    }
    var topIdx := Fusion.TopN(final, n);
    top := topIdx;
    results := RenderRows(rows, final, topIdx);
  }

  /** The loop of `search` that appends one result per chosen row, in the order of
      the chosen indices. */
  method RenderRows(rows: seq<Row>, final: seq<real>, topIdx: seq<nat>)
    returns (results: seq<ScoredResult>)
    requires |final| == |rows| && Fusion.InRange(topIdx, |rows|)
    ensures results == Render(rows, final, topIdx)
  {
    results := [];
    var i := 0;
    while i < |topIdx|
      invariant 0 <= i <= |topIdx|
      invariant |results| == i
      invariant forall k :: 0 <= k < i ==> results[k] == ResultAt(rows[topIdx[k]], final[topIdx[k]])
    {
      var idx := topIdx[i];
      results := results + [ResultAt(rows[idx], final[idx])];
      i := i + 1;
    }
  }

  /** However many searches run, the "disabled" notice and the failure diagnostics
      each run at most once in the engine's lifetime. This follows from Valid(), which
      ties each count to its flag; SemanticScores is what raises the flags. */
  lemma NoticesAtMostOnce(e: Engine)
    requires e.Valid()
    ensures e.disabledNotices <= 1 && e.diagnosticRuns <= 1
  {
  }
}
