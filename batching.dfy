/** Fixed-size batching, used for the embedding requests (batches of 100 texts in
    `generate_embeddings`, services/mcp_server/src/ssyk_mcp/ingestion.py and
    pipelines/ingest_all.py) and for the income queries (batches of 50 codes in
    `fetch_all_income_stats`, pipelines/ingest_all.py). */
module Batching {
  import opened Optional

  const EmbeddingBatchSize: nat := 100

  function Min(a: int, b: int): int {
    if a <= b then a else b
  }

  /** The slices `s[i:i + k]` for `i` in `range(0, len(s), k)`. */
  function Batches<T>(s: seq<T>, k: nat): seq<seq<T>>
    requires k > 0
    decreases |s|
  {
    if s == [] then [] else [s[..Min(k, |s|)]] + Batches(s[Min(k, |s|)..], k)
  }

  /** Every batch holds between one and `k` items. */
  lemma {:induction false} BatchSizes<T>(s: seq<T>, k: nat)
    requires k > 0
    ensures forall j :: 0 <= j < |Batches(s, k)| ==> 0 < |Batches(s, k)[j]| <= k
    decreases |s|
  {
    if s != [] {
      BatchSizes(s[Min(k, |s|)..], k);
    }
  }

  /** The concatenation of a list of lists. */
  function Flatten<T>(ss: seq<seq<T>>): seq<T> {
    if ss == [] then [] else ss[0] + Flatten(ss[1..])
  }

  lemma {:induction false} FlattenAppend<T>(a: seq<seq<T>>, b: seq<seq<T>>)
    ensures Flatten(a + b) == Flatten(a) + Flatten(b)
  {
    if a == [] {
      assert a + b == b;
    } else {
      assert (a + b)[1..] == a[1..] + b;
      FlattenAppend(a[1..], b);
    }
  }

  /** The batches cover the input, in order, with nothing repeated or left out. */
  lemma {:induction false} BatchesCover<T>(s: seq<T>, k: nat)
    requires k > 0
    ensures Flatten(Batches(s, k)) == s
    decreases |s|
  {
    if s != [] {
      var m := Min(k, |s|);
      BatchesCover(s[m..], k);
      assert s == s[..m] + s[m..];
    }
  }

  /** There are ceil(len(s) / k) batches: the fewest batches of at most k items
      that hold the whole input. */
  lemma {:induction false} BatchesCount<T>(s: seq<T>, k: nat)
    requires k > 0
    ensures |Batches(s, k)| * k >= |s|
    ensures s != [] ==> (|Batches(s, k)| - 1) * k < |s|
  {
    var n := |Batches(s, k)|;
    BatchesReach(s, k);
    OffsetIsProduct(n, k);
    if s != [] {
      OffsetIsProduct(n - 1, k);
    }
  }

  /** `BatchesCount` with the products written as repeated additions. */
  lemma {:induction false} BatchesReach<T>(s: seq<T>, k: nat)
    requires k > 0
    ensures Offset(|Batches(s, k)|, k) >= |s|
    ensures s != [] ==> Offset(|Batches(s, k)| - 1, k) < |s|
    decreases |s|
  {
    if s != [] {
      var rest := s[Min(k, |s|)..];
      BatchesReach(rest, k);
      assert |Batches(s, k)| == |Batches(rest, k)| + 1;
    }
  }

  /** `j * k`, counted up one batch at a time. */
  function Offset(j: nat, k: nat): nat {
    if j == 0 then 0 else Offset(j - 1, k) + k
  }

  lemma {:induction false} OffsetIsProduct(j: nat, k: nat)
    ensures Offset(j, k) == j * k
  {
    if j > 0 {
      OffsetIsProduct(j - 1, k);
      assert (j - 1) * k + k == j * k;
    }
  }

  lemma {:induction false} BatchAtOffset<T>(s: seq<T>, k: nat, j: nat)
    requires k > 0 && j < |Batches(s, k)|
    ensures Offset(j, k) < |s|
    ensures Batches(s, k)[j] == s[Offset(j, k)..Min(Offset(j, k) + k, |s|)]
    decreases |s|
  {
    if j > 0 {
      var rest := s[k..];
      assert Batches(s, k) == [s[..k]] + Batches(rest, k);
      assert Batches(s, k)[j] == Batches(rest, k)[j - 1];
      BatchAtOffset(rest, k, j - 1);
      var start := Offset(j - 1, k);
      var stop := Min(start + k, |rest|);
      SliceShift(s, k, start, stop);
      assert Min(Offset(j, k) + k, |s|) == k + stop;
    }
  }

  lemma SliceShift<T>(s: seq<T>, m: nat, a: nat, b: nat)
    requires a <= b && m + b <= |s|
    ensures s[m..][a..b] == s[m + a..m + b]
  {
  }

  /** Batch `j` is the slice that starts at `j * k`: every batch but the last is full. */
  lemma BatchAt<T>(s: seq<T>, k: nat, j: nat)
    requires k > 0 && j < |Batches(s, k)|
    ensures j * k < |s|
    ensures Batches(s, k)[j] == s[j * k..Min(j * k + k, |s|)]
  {
    BatchAtOffset(s, k, j);
    OffsetIsProduct(j, k);
  }

  /** The batch starting at `i` (a multiple of `k` inside the input) is followed by the
      batches of the rest. */
  lemma BatchesStep<T>(s: seq<T>, k: nat, i: nat)
    requires k > 0 && i < |s|
    ensures Batches(s[i..], k) == [s[i..Min(i + k, |s|)]] + Batches(s[Min(i + k, |s|)..], k)
  {
    var t := s[i..];
    var m := Min(k, |t|);
    assert t[..m] == s[i..Min(i + k, |s|)];
    assert t[m..] == s[Min(i + k, |s|)..];
  }

  /** What one embedding request answers: one vector per input text, or None when
      the request raised. */
  type EmbedRequest = seq<string> -> Option<seq<seq<real>>>

  /** The embeddings of the whole input, batch after batch: None as soon as one
      request raises, else the concatenation of the answers in batch order. */
  function EmbedBatches(batches: seq<seq<string>>, embed: EmbedRequest): Option<seq<seq<real>>> {
    if batches == [] then Some([])
    else
      match embed(batches[0])
      case None => None
      case Some(vs) =>
        match EmbedBatches(batches[1..], embed)
        case None => None
        case Some(rest) => Some(vs + rest)
  }

  /** A failed request fails the whole run: no partial list is ever produced. */
  lemma {:induction false} EmbedBatchesFails(batches: seq<seq<string>>, embed: EmbedRequest)
    ensures EmbedBatches(batches, embed).None?
        <==> exists j :: 0 <= j < |batches| && embed(batches[j]).None?
  {
    if batches != [] {
      EmbedBatchesFails(batches[1..], embed);
      if embed(batches[0]).None? {
        assert 0 < |batches| && embed(batches[0]).None?;
      } else if exists j :: 0 <= j < |batches[1..]| && embed(batches[1..][j]).None? {
        var j :| 0 <= j < |batches[1..]| && embed(batches[1..][j]).None?;
        assert embed(batches[j + 1]).None?;
      } else {
        forall j | 0 <= j < |batches| ensures embed(batches[j]).Some? {
          if j > 0 {
            assert batches[j] == batches[1..][j - 1];
          }
        }
      }
    }
  }

  /** When every request answers one vector per text, the run yields one vector per
      input text, the answers for each batch in place. */
  lemma {:induction false} EmbedBatchesAligned(batches: seq<seq<string>>, embed: EmbedRequest)
    requires forall j :: 0 <= j < |batches| ==>
      embed(batches[j]).Some? && |embed(batches[j]).value| == |batches[j]|
    ensures EmbedBatches(batches, embed).Some?
    ensures |EmbedBatches(batches, embed).value| == |Flatten(batches)|
  {
    if batches != [] {
      assert embed(batches[0]).Some?;
      EmbedBatchesAligned(batches[1..], embed);
    }
  }

  /** `acc` followed by the outcome of the remaining requests. */
  function Extend(acc: seq<seq<real>>, rest: Option<seq<seq<real>>>): Option<seq<seq<real>>> {
    match rest
    case None => None
    case Some(vs) => Some(acc + vs)
  }

  /** `generate_embeddings(texts, client)`: one request per batch of 100 texts, in
      order, extending the result; a raising request raises out of the function. */
  method GenerateEmbeddings(texts: seq<string>, embed: EmbedRequest)
    returns (embeddings: Option<seq<seq<real>>>)
    ensures embeddings == EmbedBatches(Batches(texts, EmbeddingBatchSize), embed)
  {
    var acc: seq<seq<real>> := [];
    var i := 0;
    assert texts[i..] == texts;
    match EmbedBatches(Batches(texts, EmbeddingBatchSize), embed) {
      case None =>
      case Some(vs) => assert acc + vs == vs;
    }
    while i < |texts|
      invariant 0 <= i <= |texts|
      invariant EmbedBatches(Batches(texts, EmbeddingBatchSize), embed)
        == Extend(acc, EmbedBatches(Batches(texts[i..], EmbeddingBatchSize), embed))
      decreases |texts| - i
    {
      var end := Min(i + EmbeddingBatchSize, |texts|);
      var batch := texts[i..end];
      BatchesStep(texts, EmbeddingBatchSize, i);
      var answer := embed(batch);
      if answer.None? {
        return None;
      }
      assert Batches(texts[i..], EmbeddingBatchSize)[0] == batch;
      assert Batches(texts[i..], EmbeddingBatchSize)[1..] == Batches(texts[end..], EmbeddingBatchSize);
      var rest := EmbedBatches(Batches(texts[end..], EmbeddingBatchSize), embed);
      assert EmbedBatches(Batches(texts[i..], EmbeddingBatchSize), embed) == Extend(answer.value, rest);
      match rest {
        case None =>
        case Some(vs) => assert acc + (answer.value + vs) == (acc + answer.value) + vs;
      }
      acc := acc + answer.value;
      i := end;
    }
    assert texts[i..] == [];
    assert acc + [] == acc;
    embeddings := Some(acc);
  }
}
