/**
  `semantic_search` of backend/app.py. The embedding model and the cosine
  similarities are given: a `Ranking` holds the similarity of the query to
  every catalog entry and the order `np.argsort(similarities)[::-1]`
  produced. That order is only known to be a permutation sorted by
  descending score; among equal scores it is left open.
*/
module Search {

  /** One search result: a catalog index and its similarity to the query. */
  datatype Hit = Hit(index: nat, score: real)

  datatype Ranking = Ranking(scores: seq<real>, order: seq<nat>) {
    /** `order` lists every catalog index once, by non-increasing score. */
    ghost predicate Valid() {
      && |order| == |scores|
      && (forall k :: 0 <= k < |order| ==> order[k] < |scores|)
      && (forall k, l :: 0 <= k < l < |order| ==> order[k] != order[l])
      && (forall j: nat :: j < |scores| ==> j in order)
      && (forall k, l :: 0 <= k < l < |order| ==> scores[order[k]] >= scores[order[l]])
    }
  }

  function Min(a: int, b: int): int {
    if a <= b then a else b
  }

  /** The catalog indices of a list of hits. */
  function Indices(hits: seq<Hit>): seq<nat> {
    seq(|hits|, k requires 0 <= k < |hits| => hits[k].index)
  }

  /** `[(i, s[i]) for i in idx if s[i] >= threshold]`. */
  function AboveThreshold(scores: seq<real>, idx: seq<nat>, threshold: real): (r: seq<Hit>)
    requires forall k :: 0 <= k < |idx| ==> idx[k] < |scores|
    ensures |r| <= |idx|
    ensures forall k :: 0 <= k < |r| ==>
      r[k].index < |scores| && r[k].score == scores[r[k].index] && r[k].score >= threshold
  {
    if idx == [] then []
    else
      var rest := AboveThreshold(scores, idx[1..], threshold);
      if scores[idx[0]] >= threshold then [Hit(idx[0], scores[idx[0]])] + rest else rest
  }

  /** Filtering an index list sorted by descending score keeps a prefix of
      it: everything up to the first score below the threshold. */
  lemma {:induction false} DescendingFilterIsPrefix(scores: seq<real>, idx: seq<nat>, threshold: real)
    requires forall k :: 0 <= k < |idx| ==> idx[k] < |scores|
    requires forall k, l :: 0 <= k < l < |idx| ==> scores[idx[k]] >= scores[idx[l]]
    ensures var r := AboveThreshold(scores, idx, threshold);
      && (forall k :: 0 <= k < |r| ==> r[k] == Hit(idx[k], scores[idx[k]]))
      && (|r| < |idx| ==> scores[idx[|r|]] < threshold)
    decreases |idx|
  {
    if idx != [] {
      TailStaysDescending(scores, idx);
      DescendingFilterIsPrefix(scores, idx[1..], threshold);
      if scores[idx[0]] >= threshold {
        FilterKeepsHead(scores, idx, threshold);
      } else {
        FilterDropsHead(scores, idx, threshold);
      }
    }
  }

  /** Dropping the first index of a list sorted by descending score keeps it sorted. */
  lemma TailStaysDescending(scores: seq<real>, idx: seq<nat>)
    requires idx != []
    requires forall k :: 0 <= k < |idx| ==> idx[k] < |scores|
    requires forall k, l :: 0 <= k < l < |idx| ==> scores[idx[k]] >= scores[idx[l]]
    ensures var tail := idx[1..];
      && (forall k :: 0 <= k < |tail| ==> tail[k] < |scores|)
      && (forall k, l :: 0 <= k < l < |tail| ==> scores[tail[k]] >= scores[tail[l]])
  {
    var tail := idx[1..];
    forall k, l | 0 <= k < l < |tail| ensures scores[tail[k]] >= scores[tail[l]] {
      assert tail[k] == idx[k + 1] && tail[l] == idx[l + 1];
    }
  }

  /** The step of `DescendingFilterIsPrefix` when the first score reaches the threshold. */
  lemma FilterKeepsHead(scores: seq<real>, idx: seq<nat>, threshold: real)
    requires idx != [] && forall k :: 0 <= k < |idx| ==> idx[k] < |scores|
    requires scores[idx[0]] >= threshold
    requires var rest := AboveThreshold(scores, idx[1..], threshold);
      && (forall k :: 0 <= k < |rest| ==> rest[k] == Hit(idx[1..][k], scores[idx[1..][k]]))
      && (|rest| < |idx| - 1 ==> scores[idx[1..][|rest|]] < threshold)
    ensures var r := AboveThreshold(scores, idx, threshold);
      && (forall k :: 0 <= k < |r| ==> r[k] == Hit(idx[k], scores[idx[k]]))
      && (|r| < |idx| ==> scores[idx[|r|]] < threshold)
  {
    var tail := idx[1..];
    var rest := AboveThreshold(scores, tail, threshold);
    var r := AboveThreshold(scores, idx, threshold);
    assert r == [Hit(idx[0], scores[idx[0]])] + rest;
    forall k | 0 < k < |r| ensures r[k] == Hit(idx[k], scores[idx[k]]) {
      assert r[k] == rest[k - 1] && tail[k - 1] == idx[k];
    }
    if |r| < |idx| {
      assert tail[|rest|] == idx[|r|];
    }
  }

  /** The step of `DescendingFilterIsPrefix` when the first score is below
      the threshold: so are all the others, and nothing is kept. */
  lemma FilterDropsHead(scores: seq<real>, idx: seq<nat>, threshold: real)
    requires idx != [] && forall k :: 0 <= k < |idx| ==> idx[k] < |scores|
    requires scores[idx[0]] < threshold
    requires forall k, l :: 0 <= k < l < |idx| ==> scores[idx[k]] >= scores[idx[l]]
    requires var rest := AboveThreshold(scores, idx[1..], threshold);
      forall k :: 0 <= k < |rest| ==> rest[k] == Hit(idx[1..][k], scores[idx[1..][k]])
    ensures AboveThreshold(scores, idx, threshold) == []
  {
    var tail := idx[1..];
    if tail != [] {
      assert tail[0] == idx[1] && scores[idx[0]] >= scores[idx[1]];
    }
  }

  /** `semantic_search(query, top_k, threshold)` over the given ranking: the
      first `top_k` indices of the order, then those whose score reaches
      the threshold. */
  function SemanticSearch(ranking: Ranking, topK: nat, threshold: real): (r: seq<Hit>)
    requires ranking.Valid()
    ensures |r| <= topK
    ensures forall k :: 0 <= k < |r| ==>
      r[k].index < |ranking.scores| && r[k].score == ranking.scores[r[k].index] && r[k].score >= threshold
    ensures |r| <= |ranking.order| && forall k :: 0 <= k < |r| ==> r[k].index == ranking.order[k]
    ensures forall k, l :: 0 <= k < l < |r| ==> r[k].index != r[l].index
    ensures forall k, l :: 0 <= k < l < |r| ==> r[k].score >= r[l].score
  {
    var top := ranking.order[..Min(topK, |ranking.order|)];
    DescendingFilterIsPrefix(ranking.scores, top, threshold);
    AboveThreshold(ranking.scores, top, threshold)
  }

  /** Nothing better was left behind: an index the search did not return
      scores no higher than any index it did return, and if it reaches the
      threshold the result is already `top_k` long. */
  lemma SemanticSearchKeepsBest(ranking: Ranking, topK: nat, threshold: real, j: nat)
    requires ranking.Valid()
    requires j < |ranking.scores| && j !in Indices(SemanticSearch(ranking, topK, threshold))
    ensures var r := SemanticSearch(ranking, topK, threshold);
      && (forall k :: 0 <= k < |r| ==> ranking.scores[j] <= r[k].score)
      && (ranking.scores[j] >= threshold ==> |r| == topK)
  {
    var r := SemanticSearch(ranking, topK, threshold);
    forall k | 0 <= k < |r| ensures r[k].index != j {
      assert Indices(r)[k] == r[k].index;
    }
    var order := ranking.order;
    assert j in order;
    var top := order[..Min(topK, |order|)];
    DescendingFilterIsPrefix(ranking.scores, top, threshold);
  }
}
