/** The taxonomy part of ingestion: picking the SSYK level-4 occupations out of the
    concept tree (`extract_ssyk_level_4`, the same code in
    services/mcp_server/src/ssyk_mcp/ingestion.py and pipelines/ingest_all.py), the
    text each occupation is embedded and searched by, and the steps of `run_ingestion`
    that turn them into the occupation table the search engine loads. */
module Taxonomy {
  import opened Optional
  import Text
  import Tokenizer
  import Batching
  import SearchEngine

  /** One node of the concept tree, as far as extraction reads it. A missing key is
      None; a node without a `narrower` key has no children, which extraction treats
      exactly like an empty `narrower` list. */
  datatype Concept = Concept(
    kind: Option<string>,
    ssykCode: Option<string>,
    preferredLabel: Option<string>,
    definition: Option<string>,
    id: Option<string>,
    narrower: seq<Concept>)

  /** One extracted occupation: `ssyk_code`, `title`, `description` and `id`. */
  datatype Occupation = Occupation(
    ssykCode: Option<string>,
    title: Option<string>,
    description: Option<string>,
    id: Option<string>)

  const Level4Type: string := "ssyk-level-4"

  predicate IsLevel4(c: Concept) {
    c.kind == Some(Level4Type)
  }

  /** The record made for a level-4 node, each field renamed. */
  function Record(c: Concept): (o: Occupation)
    ensures o.ssykCode == c.ssykCode && o.title == c.preferredLabel
    ensures o.description == c.definition && o.id == c.id
  {
    Occupation(c.ssykCode, c.preferredLabel, c.definition, c.id)
  }

  /** The occupations of a list of nodes: for each node in order, its own record when
      it is a level-4 node, then those of everything below it. */
  function Level4(concepts: seq<Concept>): seq<Occupation>
    decreases concepts
  {
    if concepts == [] then []
    else
      var c := concepts[0];
      (if IsLevel4(c) then [Record(c)] else [])
      + Level4(c.narrower)
      + Level4(concepts[1..])
  }

  /** Every node of a forest in pre-order: a node, then its descendants, then its
      following siblings. */
  function PreOrder(concepts: seq<Concept>): seq<Concept>
    decreases concepts
  {
    if concepts == [] then []
    else
      var c := concepts[0];
      [c] + PreOrder(c.narrower)
      + PreOrder(concepts[1..])
  }

  /** The records of the level-4 nodes of a list, in its order. */
  function RecordsOf(nodes: seq<Concept>): seq<Occupation> {
    if nodes == [] then []
    else (if IsLevel4(nodes[0]) then [Record(nodes[0])] else []) + RecordsOf(nodes[1..])
  }

  lemma {:induction false} RecordsOfAppend(a: seq<Concept>, b: seq<Concept>)
    ensures RecordsOf(a + b) == RecordsOf(a) + RecordsOf(b)
  {
    if a == [] {
      assert a + b == b;
    } else {
      var own := if IsLevel4(a[0]) then [Record(a[0])] else [];
      assert (a + b)[0] == a[0];
      assert (a + b)[1..] == a[1..] + b;
      assert RecordsOf(a + b) == own + RecordsOf(a[1..] + b);
      RecordsOfAppend(a[1..], b);
      assert own + (RecordsOf(a[1..]) + RecordsOf(b)) == (own + RecordsOf(a[1..])) + RecordsOf(b);
    }
  }

  /** Extraction keeps exactly the level-4 nodes, in pre-order, and records each:
      the tree is searched all the way down, also below level-4 nodes. */
  lemma {:induction false} Level4IsPreOrderFilter(concepts: seq<Concept>)
    ensures Level4(concepts) == RecordsOf(PreOrder(concepts))
    decreases concepts
  {
    if concepts != [] {
      var c := concepts[0];
      var below := PreOrder(c.narrower);
      Level4IsPreOrderFilter(c.narrower);
      Level4IsPreOrderFilter(concepts[1..]);
      RecordsOfAppend([c] + below, PreOrder(concepts[1..]));
      RecordsOfAppend([c], below);
      assert RecordsOf([c]) == (if IsLevel4(c) then [Record(c)] else []);
    }
  }

  /** Extraction distributes over a concatenation of sibling lists. */
  lemma {:induction false} Level4Append(a: seq<Concept>, b: seq<Concept>)
    ensures Level4(a + b) == Level4(a) + Level4(b)
    decreases a
  {
    if a == [] {
      assert a + b == b;
    } else {
      var c := a[0];
      var own := (if IsLevel4(c) then [Record(c)] else []) + Level4(c.narrower);
      assert (a + b)[0] == c;
      assert (a + b)[1..] == a[1..] + b;
      assert Level4(a + b) == own + Level4(a[1..] + b);
      Level4Append(a[1..], b);
      assert own + (Level4(a[1..]) + Level4(b)) == (own + Level4(a[1..])) + Level4(b);
    }
  }

  /** The forest's records up to and including tree `i`. */
  lemma Level4Next(concepts: seq<Concept>, i: nat)
    requires i < |concepts|
    ensures var c := concepts[i];
            Level4(concepts[..i + 1])
            == Level4(concepts[..i]) + ((if IsLevel4(c) then [Record(c)] else []) + Level4(c.narrower))
  {
    var c := concepts[i];
    assert [c][1..] == [];
    Level4Append(concepts[..i], [c]);
    assert concepts[..i + 1] == concepts[..i] + [c];
  }

  /** `extract_ssyk_level_4(concepts)`: a loop over the nodes that appends the record
      of each level-4 node and then extends the result with the recursive answer for
      its `narrower` list. */
  method ExtractLevel4(concepts: seq<Concept>) returns (results: seq<Occupation>)
    ensures results == Level4(concepts)
    decreases concepts
  {
    results := [];
    for i := 0 to |concepts|
      invariant results == Level4(concepts[..i])
    {
      var c := concepts[i];
      ghost var prev := results;
      var own := if IsLevel4(c) then [Record(c)] else [];
      results := results + own;
      var below: seq<Occupation> := [];
      if c.narrower != [] {
        below := ExtractLevel4(c.narrower);
        results := results + below;
      }
      Level4Next(concepts, i);
      assert results == prev + (own + below);
    }
    assert concepts[..|concepts|] == concepts;
  }

  /** How an f-string renders a field: the text itself, or "None" for a null. */
  function Render(field: Option<string>): string {
    match field
    case None => "None"
    case Some(text) => text
  }

  /** `f"{item['title']}: {item['description']}"`, the text embedded for an
      occupation and stored as its `search_text`. */
  function SearchText(o: Occupation): string {
    Render(o.title) + ": " + Render(o.description)
  }

  /** For an occupation with both fields, the stored text is exactly the query that
      `classify_occupation` sends for the same title and description. */
  lemma SearchTextIsClassifyQuery(o: Occupation)
    requires o.title.Some? && o.description.Some?
    ensures SearchText(o) == SearchEngine.ClassifyQuery(o.title.value, o.description.value)
  {
  }

  /** The tokens of the stored text are the title's followed by the description's. */
  lemma SearchTextTokens(o: Occupation)
    ensures Tokenizer.Tokenize(SearchText(o))
         == Tokenizer.Tokenize(Render(o.title)) + Tokenizer.Tokenize(Render(o.description))
  {
    SearchEngine.ClassifyQueryTokens(Render(o.title), Render(o.description));
  }

  /** The parsed taxonomy file: `data.get("data", {}).get("concepts", [])`. */
  datatype TaxonomyData = TaxonomyData(concepts: Option<seq<Concept>>)
  datatype TaxonomyFile = TaxonomyFile(data: Option<TaxonomyData>)

  function Concepts(f: TaxonomyFile): seq<Concept> {
    match f.data
    case None => []
    case Some(d) => d.concepts.GetOr([])
  }

  datatype IngestOutcome =
    | MissingApiKey       // `raise ValueError("OPENAI_API_KEY not found ...")`
    | EmbeddingFailed     // a batch request raised
    | LengthMismatch      // `df["embedding"] = embeddings` with a different length
    | Ingested(table: SearchEngine.Table)

  /** The saved row of an occupation: its fields, its search text and its vector. */
  function TableRow(o: Occupation, embedding: seq<real>): SearchEngine.Row {
    SearchEngine.Row(o.ssykCode, o.title, o.description, Some(SearchText(o)), Some(embedding))
  }

  function TableOf(items: seq<Occupation>, embeddings: seq<seq<real>>): (t: SearchEngine.Table)
    requires |embeddings| == |items|
    ensures |t.rows| == |items| && t.hasSearchText
    ensures forall i :: 0 <= i < |items| ==> t.rows[i] == TableRow(items[i], embeddings[i])
  {
    SearchEngine.Table(seq(|items|, i requires 0 <= i < |items| => TableRow(items[i], embeddings[i])), true)
  }

  /** `if not OPENAI_API_KEY`: a key that is set and non-empty. */
  predicate HasKey(apiKey: Option<string>) {
    apiKey.Some? && apiKey.value != ""
  }

  /** What `generate_embeddings(texts_to_embed, client)` returns for the occupations. */
  function Embedded(items: seq<Occupation>, embed: Batching.EmbedRequest): Option<seq<seq<real>>> {
    Batching.EmbedBatches(Batching.Batches(TextsToEmbed(items), Batching.EmbeddingBatchSize), embed)
  }

  /** `run_ingestion()` of services/mcp_server/src/ssyk_mcp/ingestion.py, from the parsed
      file on: extract the occupations, build their texts, refuse to go on without an
      API key, embed the texts batch by batch and assemble the table. Each outcome
      happens exactly in its own case, and a well-behaved embedding service always
      leads to the table. */
  method RunIngestion(file: TaxonomyFile, apiKey: Option<string>, embed: Batching.EmbedRequest)
    returns (outcome: IngestOutcome)
    ensures outcome == MissingApiKey <==> !HasKey(apiKey)
    ensures outcome == EmbeddingFailed <==>
      HasKey(apiKey) && Embedded(Level4(Concepts(file)), embed).None?
    ensures outcome == LengthMismatch <==>
      var items := Level4(Concepts(file));
      var e := Embedded(items, embed);
      HasKey(apiKey) && e.Some? && |e.value| != |items|
    ensures
      var items := Level4(Concepts(file));
      var e := Embedded(items, embed);
      HasKey(apiKey) && e.Some? && |e.value| == |items| ==> outcome == Ingested(TableOf(items, e.value))
    ensures HasKey(apiKey) && (forall batch :: embed(batch).Some? && |embed(batch).value| == |batch|)
      ==> outcome.Ingested?
  {
    var items := ExtractLevel4(Concepts(file));
    var texts := TextsToEmbed(items);
    if apiKey.None? || apiKey == Some("") {
      return MissingApiKey;
    }
    if forall batch :: embed(batch).Some? && |embed(batch).value| == |batch| {
      IngestionSucceeds(file, embed);
    }
    var embeddings := Batching.GenerateEmbeddings(texts, embed);
    if embeddings.None? {
      return EmbeddingFailed;
    }
    if |embeddings.value| != |items| {
      return LengthMismatch;
    }
    outcome := Ingested(TableOf(items, embeddings.value));
  }

  /** `texts_to_embed`: one text per occupation, in order. */
  function TextsToEmbed(items: seq<Occupation>): (texts: seq<string>)
    ensures |texts| == |items|
    ensures forall i :: 0 <= i < |items| ==> texts[i] == SearchText(items[i])
  {
    seq(|items|, i requires 0 <= i < |items| => SearchText(items[i]))
  }

  /** When the embedding service answers one vector per text, the embedding run gives
      one vector per occupation, so `RunIngestion` with a key reaches the table. */
  lemma IngestionSucceeds(file: TaxonomyFile, embed: Batching.EmbedRequest)
    requires forall batch :: embed(batch).Some? && |embed(batch).value| == |batch|
    ensures
      var e := Embedded(Level4(Concepts(file)), embed);
      e.Some? && |e.value| == |Level4(Concepts(file))|
  {
    var texts := TextsToEmbed(Level4(Concepts(file)));
    var batches := Batching.Batches(texts, Batching.EmbeddingBatchSize);
    Batching.EmbedBatchesAligned(batches, embed);
    Batching.BatchesCover(texts, Batching.EmbeddingBatchSize);
  }

  /** The table ingestion writes makes the engine search each occupation by its
      "title: description" text, row by row. */
  lemma IngestedCorpus(items: seq<Occupation>, embeddings: seq<seq<real>>, i: nat)
    requires |embeddings| == |items| && i < |items|
    ensures SearchEngine.CorpusText(TableOf(items, embeddings), i) == SearchText(items[i])
    ensures TableOf(items, embeddings).rows[i].embedding == Some(embeddings[i])
  {
  }

  /** `[item["ssyk_code"] for item in ssyk_items if item.get("ssyk_code")]` in
      pipelines/ingest_all.py: the codes that are present and non-empty, in order. */
  function PipelineCodes(items: seq<Occupation>): (codes: seq<string>)
    ensures |codes| <= |items|
    ensures forall k :: 0 <= k < |codes| ==> codes[k] != []
  {
    if items == [] then []
    else
      var c := items[0].ssykCode;
      (if c.Some? && c.value != [] then [c.value] else []) + PipelineCodes(items[1..])
  }

  /** A code reaches the income fetch exactly when some occupation carries it. */
  lemma {:induction false} PipelineCodesMembers(items: seq<Occupation>, code: string)
    ensures code in PipelineCodes(items) <==>
      code != [] && exists i :: 0 <= i < |items| && items[i].ssykCode == Some(code)
  {
    if items != [] {
      PipelineCodesMembers(items[1..], code);
      if exists i :: 0 <= i < |items[1..]| && items[1..][i].ssykCode == Some(code) {
        var i :| 0 <= i < |items[1..]| && items[1..][i].ssykCode == Some(code);
        assert items[i + 1].ssykCode == Some(code);
      }
      if exists i :: 0 <= i < |items| && items[i].ssykCode == Some(code) {
        var i :| 0 <= i < |items| && items[i].ssykCode == Some(code);
        if i > 0 {
          assert items[1..][i - 1].ssykCode == Some(code);
        }
      }
    }
  }
}
