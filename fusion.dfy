/** Score fusion and ranking of the search engine (services/mcp_server/src/ssyk_mcp/search.py,
    inside `SearchEngine.search`): min-max normalisation, the 0.3 / 0.7 weighted sum
    and the top-n selection. Scores are exact reals; the BM25 and cosine vectors that
    feed them are inputs of length N, one score per corpus row. */
module Fusion {
  import opened Optional

  const LexicalWeight: real := 0.3
  const SemanticWeight: real := 0.7

  function Max(s: seq<real>): (m: real)
    requires |s| > 0
    ensures m in s
    ensures forall i :: 0 <= i < |s| ==> s[i] <= m
  {
    if |s| == 1 then s[0]
    else
      var m := Max(s[1..]);
      assert s[1..][0] == s[1];
      if s[0] >= m then s[0] else m
  }

  function Min(s: seq<real>): (m: real)
    requires |s| > 0
    ensures m in s
    ensures forall i :: 0 <= i < |s| ==> m <= s[i]
  {
    if |s| == 1 then s[0]
    else
      var m := Min(s[1..]);
      if s[0] <= m then s[0] else m
  }

  /** Every entry of `s` equals every other. */
  predicate Constant(s: seq<real>) {
    forall i, j :: 0 <= i < |s| && 0 <= j < |s| ==> s[i] == s[j]
  }

  predicate InUnitInterval(s: seq<real>) {
    forall i :: 0 <= i < |s| ==> 0.0 <= s[i] <= 1.0
  }

  lemma ScaleMonotone(x: real, y: real, d: real)
    requires d > 0.0 && x <= y
    ensures x / d <= y / d
  {
    assert y / d - x / d == (y - x) / d;
  }

  lemma ScaleStrict(x: real, y: real, d: real)
    requires d > 0.0 && x < y
    ensures x / d < y / d
  {
    assert y / d - x / d == (y - x) / d;
  }

  lemma ScaleAtMostOne(x: real, d: real)
    requires 0.0 < d && x <= d
    ensures x / d <= 1.0
  {
    assert d / d == 1.0;
    ScaleMonotone(x, d, d);
  }

  /** Where `x` sits between `lo` and `hi`, as a fraction of the distance. */
  function Rescale(x: real, lo: real, hi: real): real
    requires lo < hi
  {
    (x - lo) / (hi - lo)
  }

  lemma RescaleMonotone(x: real, y: real, lo: real, hi: real)
    requires lo < hi
    ensures x <= y ==> Rescale(x, lo, hi) <= Rescale(y, lo, hi)
    ensures x < y ==> Rescale(x, lo, hi) < Rescale(y, lo, hi)
  {
    if x <= y { ScaleMonotone(x - lo, y - lo, hi - lo); }
    if x < y { ScaleStrict(x - lo, y - lo, hi - lo); }
  }

  lemma RescaleEnds(lo: real, hi: real)
    requires lo < hi
    ensures Rescale(lo, lo, hi) == 0.0 && Rescale(hi, lo, hi) == 1.0
  {
    assert (hi - lo) / (hi - lo) == 1.0;
  }

  /** `normalize(scores)`: all zeros for a constant vector (no division by zero),
      otherwise a min-max rescaling into [0, 1]. NormalizeEnds and
      NormalizeKeepsOrder state what the rescaling preserves. */
  function Normalize(s: seq<real>): (r: seq<real>)
    requires |s| > 0
    ensures |r| == |s|
    ensures InUnitInterval(r)
    ensures Constant(s) ==> forall i :: 0 <= i < |r| ==> r[i] == 0.0
    ensures !Constant(s) ==> forall i :: 0 <= i < |r| ==> r[i] == Rescale(s[i], Min(s), Max(s))
  {
    var lo, hi := Min(s), Max(s);
    ConstantIffMaxMin(s);
    if hi == lo then
      seq(|s|, _ => 0.0)
    else
      var r := seq(|s|, i requires 0 <= i < |s| => Rescale(s[i], lo, hi));
      forall i | 0 <= i < |s| ensures 0.0 <= r[i] <= 1.0 {
        RescaleMonotone(lo, s[i], lo, hi);
        RescaleMonotone(s[i], hi, lo, hi);
        RescaleEnds(lo, hi);
      }
      r
  }

  /** For a vector that is not constant, the minimum is sent to 0 and the maximum to 1. */
  lemma NormalizeEnds(s: seq<real>)
    requires |s| > 0 && !Constant(s)
    ensures forall i :: 0 <= i < |s| && s[i] == Min(s) ==> Normalize(s)[i] == 0.0
    ensures forall i :: 0 <= i < |s| && s[i] == Max(s) ==> Normalize(s)[i] == 1.0
  {
    ConstantIffMaxMin(s);
    RescaleEnds(Min(s), Max(s));
  }

  /** Normalising never reverses the order of two entries, and keeps strict order
      whenever the vector is not constant. */
  lemma NormalizeKeepsOrder(s: seq<real>, i: nat, j: nat)
    requires i < |s| && j < |s|
    ensures s[i] <= s[j] ==> Normalize(s)[i] <= Normalize(s)[j]
    ensures !Constant(s) && s[i] < s[j] ==> Normalize(s)[i] < Normalize(s)[j]
  {
    ConstantIffMaxMin(s);
    if !Constant(s) {
      RescaleMonotone(s[i], s[j], Min(s), Max(s));
    }
  }

  /** The final score vector: the normalised BM25 scores alone when there is no
      semantic vector, else `0.3 * norm_bm25 + 0.7 * norm_vector`. */
  function Fuse(lexical: seq<real>, semantic: Option<seq<real>>): (r: seq<real>)
    requires |lexical| > 0
    requires semantic.Some? ==> |semantic.value| == |lexical|
    ensures |r| == |lexical|
    ensures InUnitInterval(r)
  {
    var nl := Normalize(lexical);
    match semantic
    case None => nl
    case Some(v) =>
      var nv := Normalize(v);
      seq(|lexical|, i requires 0 <= i < |lexical| => LexicalWeight * nl[i] + SemanticWeight * nv[i])
  }

  /** Without a semantic vector the final scores are exactly the normalised BM25
      scores; with one, each final score is the 0.3 / 0.7 weighted sum. This only
      spells out Fuse case by case; FuseMonotone and NoPositiveScoreIff are the
      properties built on it. */
  lemma FuseParts(lexical: seq<real>, semantic: Option<seq<real>>)
    requires |lexical| > 0
    requires semantic.Some? ==> |semantic.value| == |lexical|
    ensures semantic.None? ==> Fuse(lexical, semantic) == Normalize(lexical)
    ensures semantic.Some? ==> forall i :: 0 <= i < |lexical| ==>
      Fuse(lexical, semantic)[i]
        == 0.3 * Normalize(lexical)[i] + 0.7 * Normalize(semantic.value)[i]
  {
  }

  /** A document that is at least as good as another on both signals is ranked at
      least as high. */
  lemma FuseMonotone(lexical: seq<real>, semantic: Option<seq<real>>, i: nat, j: nat)
    requires |lexical| > 0
    requires semantic.Some? ==> |semantic.value| == |lexical|
    requires i < |lexical| && j < |lexical|
    requires lexical[i] <= lexical[j]
    requires semantic.Some? ==> semantic.value[i] <= semantic.value[j]
    ensures Fuse(lexical, semantic)[i] <= Fuse(lexical, semantic)[j]
  {
    NormalizeKeepsOrder(lexical, i, j);
    if semantic.Some? {
      NormalizeKeepsOrder(semantic.value, i, j);
    }
  }

  lemma ConstantIffMaxMin(s: seq<real>)
    requires |s| > 0
    ensures Constant(s) <==> Max(s) == Min(s)
  {
    if Max(s) == Min(s) {
      forall i, j | 0 <= i < |s| && 0 <= j < |s| ensures s[i] == s[j] {
      }
    }
  }

  /** The final scores have a positive maximum exactly when some signal that takes
      part varies across the corpus; when none does, the search returns nothing. */
  lemma {:induction false} NoPositiveScoreIff(lexical: seq<real>, semantic: Option<seq<real>>)
    requires |lexical| > 0
    requires semantic.Some? ==> |semantic.value| == |lexical|
    ensures Max(Fuse(lexical, semantic)) <= 0.0
      <==> Constant(lexical) && (semantic.None? || Constant(semantic.value))
  {
    var r := Fuse(lexical, semantic);
    if Constant(lexical) && (semantic.None? || Constant(semantic.value)) {
      assert forall i :: 0 <= i < |r| ==> r[i] == 0.0;
    } else if !Constant(lexical) {
      ConstantIffMaxMin(lexical);
      var top :| top in lexical && top == Max(lexical);
      var i :| 0 <= i < |lexical| && lexical[i] == top;
      NormalizeEnds(lexical);
      assert Normalize(lexical)[i] == 1.0;
      assert r[i] > 0.0;
    } else {
      var v := semantic.value;
      var i :| 0 <= i < |v| && v[i] == Max(v);
      NormalizeEnds(v);
      assert Normalize(v)[i] == 1.0;
      assert r[i] > 0.0;
    }
  }

  // ---------------------------------------------------------------------------
  // Top-n selection: `np.argsort(final_scores)[::-1][:n]`. NumPy's default sort is
  // not stable, so the order among equal scores is not promised; the model sorts
  // indices by insertion and its contract promises only what the source does.

  predicate InRange(idx: seq<nat>, n: nat) {
    forall a :: 0 <= a < |idx| ==> idx[a] < n
  }

  predicate Distinct(idx: seq<nat>) {
    forall a, b :: 0 <= a < b < |idx| ==> idx[a] != idx[b]
  }

  /** Scores read through `idx` never increase. */
  predicate SortedDesc(scores: seq<real>, idx: seq<nat>)
    requires InRange(idx, |scores|)
  {
    forall a, b :: 0 <= a < b < |idx| ==> scores[idx[a]] >= scores[idx[b]]
  }

  /** `top` is an admissible answer of `argsort(scores)[::-1][:n]`: min(n, N)
      distinct row indices, scores non-increasing, and no row left out scores
      higher than a row taken. */
  predicate IsTopSelection(scores: seq<real>, n: nat, top: seq<nat>) {
    && |top| == (if n < |scores| then n else |scores|)
    && InRange(top, |scores|)
    && Distinct(top)
    && SortedDesc(scores, top)
    && forall j | 0 <= j < |scores| && j !in top ::
         forall k | 0 <= k < |top| :: scores[j] <= scores[top[k]]
  }

  lemma ConsSorted(scores: seq<real>, x: nat, rest: seq<nat>)
    requires x < |scores| && InRange(rest, |scores|)
    requires Distinct(rest) && x !in rest
    requires SortedDesc(scores, rest)
    requires forall y :: y in rest ==> scores[x] >= scores[y]
    ensures InRange([x] + rest, |scores|) && Distinct([x] + rest)
    ensures SortedDesc(scores, [x] + rest)
  {
    var r := [x] + rest;
    assert forall b :: 0 < b < |r| ==> r[b] == rest[b - 1];
    forall a, b | 0 <= a < b < |r| ensures scores[r[a]] >= scores[r[b]] && r[a] != r[b] {
      if a == 0 {
        assert r[b] in rest;
      }
    }
  }

  function InsertDesc(scores: seq<real>, i: nat, sorted: seq<nat>): (r: seq<nat>)
    requires i < |scores| && InRange(sorted, |scores|)
    requires SortedDesc(scores, sorted) && Distinct(sorted) && i !in sorted
    ensures |r| == |sorted| + 1
    ensures forall x :: x in r <==> x == i || x in sorted
    ensures InRange(r, |scores|) && Distinct(r) && SortedDesc(scores, r)
  {
    if sorted == [] then [i]
    else if scores[i] >= scores[sorted[0]] then
      assert forall y :: y in sorted ==> scores[sorted[0]] >= scores[y];
      ConsSorted(scores, i, sorted);
      [i] + sorted
    else
      var head, tail := sorted[0], sorted[1..];
      assert sorted == [head] + tail;
      assert forall y :: y in tail ==> scores[head] >= scores[y];
      assert head !in tail;
      var rest := InsertDesc(scores, i, tail);
      assert forall y :: y in rest ==> scores[head] >= scores[y];
      ConsSorted(scores, head, rest);
      [head] + rest
  }

  function SortIndicesDesc(scores: seq<real>, idx: seq<nat>): (r: seq<nat>)
    requires InRange(idx, |scores|) && Distinct(idx)
    ensures |r| == |idx|
    ensures forall x :: x in r <==> x in idx
    ensures InRange(r, |scores|) && Distinct(r) && SortedDesc(scores, r)
  {
    if idx == [] then []
    else
      assert idx[0] !in idx[1..];
      InsertDesc(scores, idx[0], SortIndicesDesc(scores, idx[1..]))
  }

  function Range(n: nat): (r: seq<nat>)
    ensures |r| == n
    ensures forall k :: 0 <= k < n ==> r[k] == k
  {
    seq(n, k requires 0 <= k < n => k)
  }

  /** The row indices of the top `n` final scores. */
  function TopN(scores: seq<real>, n: nat): (top: seq<nat>)
    ensures IsTopSelection(scores, n, top)
  {
    var all := SortIndicesDesc(scores, Range(|scores|));
    var m := if n < |scores| then n else |scores|;
    var top := all[..m];
    forall j | 0 <= j < |scores| && j !in top
      ensures forall k | 0 <= k < |top| :: scores[j] <= scores[top[k]]
    {
      assert Range(|scores|)[j] == j;
      assert j in all;
      var p :| 0 <= p < |all| && all[p] == j;
      assert p >= m;
    }
    top
  }
}
