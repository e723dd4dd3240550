/**
  The result loops of the two search endpoints of backend/app.py:
  `get_medicines` (filter by required fields and allergy similarity,
  annotate region availability, stop at `top_k`) and `nlp_search` (map
  every hit to a response entry).

  The allergy similarity is given as `allergySimilarity`: for the request's
  allergy text, the cosine similarity of its embedding with the embedding
  of a side-effects text.
*/
module Recommend {
  import opened Wrappers
  import opened Text
  import opened Catalog
  import opened Search
  import opened Regions

  /** A candidate whose allergy similarity exceeds this is dropped. */
  const AllergyCutoff: real := 0.4

  /** `semantic_search`'s default threshold, the one `nlp_search` uses. */
  const DefaultThreshold: real := 0.3

  /** One entry of the `get_medicines` response. */
  datatype Medicine = Medicine(
    drugName: string,
    medicalCondition: string,
    sideEffects: string,
    rating: string,
    drugLink: string,
    confidenceScore: real,
    allergyRisk: real,
    availableInRegion: Option<bool>)

  /** One entry of the `nlp_search` response. */
  datatype Match = Match(
    drugName: string,
    medicalCondition: string,
    sideEffects: string,
    rating: string,
    drugLink: string,
    confidenceScore: real)

  /** Every hit names an entry of the catalog. */
  predicate WithinCatalog(hits: seq<Hit>, catalog: seq<Record>) {
    forall k :: 0 <= k < |hits| ==> hits[k].index < |catalog|
  }

  predicate HasRequiredFields(med: Record) {
    "drug_name" in med && "medical_condition" in med && "side_effects" in med
  }

  /** The side-effects text the allergy is compared with: cleaned, lower-cased. */
  function SideEffectsText(cc: CharClasses, med: Record): string
    requires cc.Valid()
  {
    Lower(Clean(cc, Get(med, "side_effects", "")))
  }

  /** A hit `get_medicines` keeps: a catalog entry with all three fields
      present and an allergy similarity not above the cutoff. */
  predicate Admissible(cc: CharClasses, catalog: seq<Record>, allergySimilarity: string -> real, h: Hit)
    requires cc.Valid()
  {
    && h.index < |catalog|
    && HasRequiredFields(catalog[h.index])
    && allergySimilarity(SideEffectsText(cc, catalog[h.index])) <= AllergyCutoff
  }

  /** Scores never increase along the list. */
  predicate Descending(hits: seq<Hit>) {
    forall k, l :: 0 <= k < l < |hits| ==> hits[k].score >= hits[l].score
  }

  /** The admissible hits, in the order of `hits`. */
  function Kept(cc: CharClasses, catalog: seq<Record>, allergySimilarity: string -> real, hits: seq<Hit>): (r: seq<Hit>)
    requires cc.Valid()
    ensures |r| <= |hits| && WithinCatalog(r, catalog)
    ensures forall k :: 0 <= k < |r| ==> Admissible(cc, catalog, allergySimilarity, r[k])
    decreases |hits|
  {
    if hits == [] then []
    else
      var rest := Kept(cc, catalog, allergySimilarity, hits[..|hits| - 1]);
      var last := hits[|hits| - 1];
      if Admissible(cc, catalog, allergySimilarity, last) then rest + [last] else rest
  }

  /** A hit is kept exactly when it is one of the hits and admissible. */
  lemma {:induction false} KeptExactlyAdmissible(cc: CharClasses, catalog: seq<Record>, allergySimilarity: string -> real,
                                                 hits: seq<Hit>, h: Hit)
    requires cc.Valid()
    ensures h in Kept(cc, catalog, allergySimilarity, hits) <==> h in hits && Admissible(cc, catalog, allergySimilarity, h)
    decreases |hits|
  {
    if hits != [] {
      var init := hits[..|hits| - 1];
      var last := hits[|hits| - 1];
      KeptExactlyAdmissible(cc, catalog, allergySimilarity, init, h);
      assert hits == init + [last];
      assert h in hits <==> h in init || h == last;
    }
  }

  /** The positions in `hits` of the admissible hits, in increasing order. */
  function KeptPositions(cc: CharClasses, catalog: seq<Record>, allergySimilarity: string -> real, hits: seq<Hit>): seq<nat>
    requires cc.Valid()
    decreases |hits|
  {
    if hits == [] then []
    else
      var rest := KeptPositions(cc, catalog, allergySimilarity, hits[..|hits| - 1]);
      if Admissible(cc, catalog, allergySimilarity, hits[|hits| - 1]) then rest + [|hits| - 1] else rest
  }

  /** The kept hits are the hits at strictly increasing positions: filtering
      drops hits but never reorders them. */
  lemma {:induction false} KeptKeepsOrder(cc: CharClasses, catalog: seq<Record>, allergySimilarity: string -> real,
                                          hits: seq<Hit>)
    requires cc.Valid()
    ensures var r := Kept(cc, catalog, allergySimilarity, hits);
      var pos := KeptPositions(cc, catalog, allergySimilarity, hits);
      && |pos| == |r|
      && (forall k :: 0 <= k < |pos| ==> pos[k] < |hits| && r[k] == hits[pos[k]])
      && (forall k, l :: 0 <= k < l < |pos| ==> pos[k] < pos[l])
    decreases |hits|
  {
    if hits != [] {
      var init := hits[..|hits| - 1];
      KeptKeepsOrder(cc, catalog, allergySimilarity, init);
      var rest := Kept(cc, catalog, allergySimilarity, init);
      var restPos := KeptPositions(cc, catalog, allergySimilarity, init);
      forall k | 0 <= k < |restPos| ensures restPos[k] < |hits| - 1 && rest[k] == hits[restPos[k]] {
        assert init[restPos[k]] == hits[restPos[k]];
      }
    }
  }

  /** Filtering keeps the order of the hits, so descending scores stay descending. */
  lemma {:induction false} KeptStaysDescending(cc: CharClasses, catalog: seq<Record>, allergySimilarity: string -> real,
                                               hits: seq<Hit>)
    requires cc.Valid() && Descending(hits)
    ensures Descending(Kept(cc, catalog, allergySimilarity, hits))
    decreases |hits|
  {
    if hits != [] {
      var init := hits[..|hits| - 1];
      var last := hits[|hits| - 1];
      var rest := Kept(cc, catalog, allergySimilarity, init);
      KeptStaysDescending(cc, catalog, allergySimilarity, init);
      if Admissible(cc, catalog, allergySimilarity, last) {
        forall k | 0 <= k < |rest| ensures rest[k].score >= last.score {
          KeptExactlyAdmissible(cc, catalog, allergySimilarity, init, rest[k]);
          var j :| 0 <= j < |init| && init[j] == rest[k];
          assert hits[j] == init[j];
        }
        var r := rest + [last];
        forall k, l | 0 <= k < l < |r| ensures r[k].score >= r[l].score {
          if l < |rest| {
            assert r[k] == rest[k] && r[l] == rest[l];
          }
        }
      }
    }
  }

  /** The response entry `get_medicines` builds for a kept hit. */
  function Respond(cc: CharClasses, med: Record, score: real, allergySimilarity: string -> real, region: Option<string>): (m: Medicine)
    requires cc.Valid()
  {
    var drugName := Clean(cc, Get(med, "drug_name", "Unknown"));
    Medicine(
      drugName := drugName,
      medicalCondition := Lower(Clean(cc, Get(med, "medical_condition", ""))),
      sideEffects := SideEffectsText(cc, med),
      rating := Clean(cc, Get(med, "rating", "N/A")),
      drugLink := Clean(cc, Get(med, "drug_link", "")),
      confidenceScore := score,
      allergyRisk := allergySimilarity(SideEffectsText(cc, med)),
      availableInRegion := AvailableInRegion(region, Lower(drugName)))
  }

  /** The response entries for a list of kept hits. */
  function Responses(cc: CharClasses, catalog: seq<Record>, allergySimilarity: string -> real, region: Option<string>, kept: seq<Hit>): (r: seq<Medicine>)
    requires cc.Valid() && WithinCatalog(kept, catalog)
    ensures |r| == |kept|
  {
    seq(|kept|, k requires 0 <= k < |kept| => Respond(cc, catalog[kept[k].index], kept[k].score, allergySimilarity, region))
  }

  function Max(a: nat, b: nat): nat {
    if a < b then b else a
  }

  /** The first `n` elements, or all of them. */
  function Take<T>(s: seq<T>, n: nat): seq<T> {
    if |s| <= n then s else s[..n]
  }

  /** One more hit extends `Kept` by that hit exactly when it is admissible. */
  lemma KeptStep(cc: CharClasses, catalog: seq<Record>, allergySimilarity: string -> real, hits: seq<Hit>, i: nat)
    requires cc.Valid()
    requires i < |hits|
    ensures Kept(cc, catalog, allergySimilarity, hits[..i + 1]) ==
      Kept(cc, catalog, allergySimilarity, hits[..i])
        + (if Admissible(cc, catalog, allergySimilarity, hits[i]) then [hits[i]] else [])
  {
    assert hits[..i + 1][..i] == hits[..i];
  }

  /** Responding to one more kept hit appends its entry. */
  lemma ResponsesAppend(cc: CharClasses, catalog: seq<Record>, allergySimilarity: string -> real, region: Option<string>,
                        kept: seq<Hit>, h: Hit)
    requires cc.Valid() && WithinCatalog(kept, catalog)
    requires h.index < |catalog|
    ensures Responses(cc, catalog, allergySimilarity, region, kept + [h]) ==
      Responses(cc, catalog, allergySimilarity, region, kept) + [Respond(cc, catalog[h.index], h.score, allergySimilarity, region)]
  {
  }

  /** One more hit extends the response by its entry exactly when its
      record has the three fields and its allergy similarity is not above
      the cutoff. */
  lemma RespondStep(cc: CharClasses, catalog: seq<Record>, allergySimilarity: string -> real, region: Option<string>,
                    hits: seq<Hit>, i: nat)
    requires cc.Valid() && i < |hits| && hits[i].index < |catalog|
    ensures var med := catalog[hits[i].index];
      Responses(cc, catalog, allergySimilarity, region, Kept(cc, catalog, allergySimilarity, hits[..i + 1])) ==
      Responses(cc, catalog, allergySimilarity, region, Kept(cc, catalog, allergySimilarity, hits[..i]))
        + (if HasRequiredFields(med) && allergySimilarity(SideEffectsText(cc, med)) <= AllergyCutoff
           then [Respond(cc, med, hits[i].score, allergySimilarity, region)]
           else [])
  {
    KeptStep(cc, catalog, allergySimilarity, hits, i);
    if Admissible(cc, catalog, allergySimilarity, hits[i]) {
      ResponsesAppend(cc, catalog, allergySimilarity, region, Kept(cc, catalog, allergySimilarity, hits[..i]), hits[i]);
    }
  }

  /** `Kept` of a prefix of the hits is a prefix of `Kept` of all of them. */
  lemma {:induction false} KeptOfPrefix(cc: CharClasses, catalog: seq<Record>, allergySimilarity: string -> real, hits: seq<Hit>, i: nat)
    requires cc.Valid()
    requires i <= |hits|
    ensures var whole := Kept(cc, catalog, allergySimilarity, hits);
      var part := Kept(cc, catalog, allergySimilarity, hits[..i]);
      |part| <= |whole| && part == whole[..|part|]
    decreases |hits|
  {
    if i < |hits| {
      var init := hits[..|hits| - 1];
      assert hits[..i] == init[..i];
      KeptOfPrefix(cc, catalog, allergySimilarity, init, i);
    } else {
      assert hits[..i] == hits;
    }
  }

  /** Stopping after the hits `hits[..j]` once `top_k` entries are
      collected gives the first `top_k` entries of the whole response. */
  lemma {:induction false} StopAtTopK(cc: CharClasses, catalog: seq<Record>, allergySimilarity: string -> real,
                                      region: Option<string>, hits: seq<Hit>, j: nat, topK: nat)
    requires cc.Valid() && j <= |hits|
    requires |Kept(cc, catalog, allergySimilarity, hits[..j])| == topK
    ensures Responses(cc, catalog, allergySimilarity, region, Kept(cc, catalog, allergySimilarity, hits[..j])) ==
      Take(Responses(cc, catalog, allergySimilarity, region, Kept(cc, catalog, allergySimilarity, hits)), topK)
  {
    KeptOfPrefix(cc, catalog, allergySimilarity, hits, j);
    var whole := Kept(cc, catalog, allergySimilarity, hits);
    var part := Kept(cc, catalog, allergySimilarity, hits[..j]);
    assert part == whole[..topK];
    var all := Responses(cc, catalog, allergySimilarity, region, whole);
    var got := Responses(cc, catalog, allergySimilarity, region, part);
    assert |got| == topK <= |all|;
    forall k | 0 <= k < topK ensures got[k] == all[k] {
      assert part[k] == whole[k];
    }
  }

  /** The loop of `get_medicines` over the search hits: skip hits lacking a
      required field or too similar to the allergy, annotate the rest, and
      stop once `top_k` entries are collected. The length test follows the
      append, so with `top_k == 0` the first admissible hit still gets in. */
  method CollectMedicines(cc: CharClasses, catalog: seq<Record>, allergySimilarity: string -> real,
                          region: Option<string>, results: seq<Hit>, topK: nat)
    returns (medicines: seq<Medicine>)
    requires cc.Valid() && WithinCatalog(results, catalog)
    ensures medicines ==
      Take(Responses(cc, catalog, allergySimilarity, region, Kept(cc, catalog, allergySimilarity, results)), Max(topK, 1))
  {
    medicines := [];
    for i := 0 to |results|
      invariant medicines == Responses(cc, catalog, allergySimilarity, region, Kept(cc, catalog, allergySimilarity, results[..i]))
      invariant |medicines| < topK || medicines == []
    {
      var idx := results[i].index;
      var score := results[i].score;
      var med := catalog[idx];
      RespondStep(cc, catalog, allergySimilarity, region, results, i);
      if !HasRequiredFields(med) {
        continue;
      }
      var sideEffects := SideEffectsText(cc, med);
      var similarity := allergySimilarity(sideEffects);
      if similarity > AllergyCutoff {
        continue;
      }
      medicines := medicines + [Respond(cc, med, score, allergySimilarity, region)];
      if |medicines| >= topK {
        StopAtTopK(cc, catalog, allergySimilarity, region, results, i + 1, Max(topK, 1));
        return;
      }
    }
    assert results[..|results|] == results;
  }

  /** The request handled by `get_medicines`: ask `semantic_search` for
      `2 * top_k` hits at `min_confidence` and collect up to `top_k`
      response entries from them. */
  method GetMedicines(cc: CharClasses, catalog: seq<Record>, ranking: Ranking, allergySimilarity: string -> real,
                      region: Option<string>, topK: nat, minConfidence: real)
    returns (medicines: seq<Medicine>)
    requires cc.Valid() && ranking.Valid() && |ranking.scores| == |catalog|
    ensures var hits := SemanticSearch(ranking, 2 * topK, minConfidence);
      medicines == Take(Responses(cc, catalog, allergySimilarity, region, Kept(cc, catalog, allergySimilarity, hits)), topK)
    ensures |medicines| <= topK
    ensures forall k :: 0 <= k < |medicines| ==>
      medicines[k].confidenceScore >= minConfidence && medicines[k].allergyRisk <= AllergyCutoff
    ensures forall k, l :: 0 <= k < l < |medicines| ==>
      medicines[k].confidenceScore >= medicines[l].confidenceScore
    ensures var hits := SemanticSearch(ranking, 2 * topK, minConfidence);
      forall k :: 0 <= k < |medicines| ==> RespondsToAdmissible(cc, catalog, allergySimilarity, region, hits, medicines[k])
  {
    var results := SemanticSearch(ranking, 2 * topK, minConfidence);
    medicines := CollectMedicines(cc, catalog, allergySimilarity, region, results, topK);
    if topK == 0 {
      // a search for no hits finds none, so the first admissible hit never comes
      assert results == [];
      assert Kept(cc, catalog, allergySimilarity, results) == [];
    }
    assert medicines == Take(Responses(cc, catalog, allergySimilarity, region, Kept(cc, catalog, allergySimilarity, results)), topK);
    GetMedicinesResultShape(cc, catalog, allergySimilarity, region, results, topK, minConfidence, medicines);
  }

  /** `m` is the response entry for an admissible hit among `hits`. */
  predicate RespondsToAdmissible(cc: CharClasses, catalog: seq<Record>, allergySimilarity: string -> real,
                                 region: Option<string>, hits: seq<Hit>, m: Medicine)
    requires cc.Valid()
  {
    exists j :: 0 <= j < |hits| && Admissible(cc, catalog, allergySimilarity, hits[j]) &&
                m == Respond(cc, catalog[hits[j].index], hits[j].score, allergySimilarity, region)
  }

  /** What every entry of a `get_medicines` response satisfies. */
  lemma GetMedicinesResultShape(cc: CharClasses, catalog: seq<Record>, allergySimilarity: string -> real,
                                region: Option<string>, hits: seq<Hit>, topK: nat, minConfidence: real,
                                medicines: seq<Medicine>)
    requires cc.Valid()
    requires forall k :: 0 <= k < |hits| ==> hits[k].score >= minConfidence
    requires Descending(hits)
    requires medicines == Take(Responses(cc, catalog, allergySimilarity, region, Kept(cc, catalog, allergySimilarity, hits)), topK)
    ensures forall k :: 0 <= k < |medicines| ==>
      medicines[k].confidenceScore >= minConfidence && medicines[k].allergyRisk <= AllergyCutoff
    ensures forall k, l :: 0 <= k < l < |medicines| ==>
      medicines[k].confidenceScore >= medicines[l].confidenceScore
    ensures forall k :: 0 <= k < |medicines| ==> RespondsToAdmissible(cc, catalog, allergySimilarity, region, hits, medicines[k])
  {
    var kept := Kept(cc, catalog, allergySimilarity, hits);
    var pos := KeptPositions(cc, catalog, allergySimilarity, hits);
    KeptStaysDescending(cc, catalog, allergySimilarity, hits);
    KeptKeepsOrder(cc, catalog, allergySimilarity, hits);
    forall k | 0 <= k < |medicines|
      ensures medicines[k].confidenceScore >= minConfidence && medicines[k].allergyRisk <= AllergyCutoff
      ensures RespondsToAdmissible(cc, catalog, allergySimilarity, region, hits, medicines[k])
    {
      KeptExactlyAdmissible(cc, catalog, allergySimilarity, hits, kept[k]);
      var j := pos[k];
      assert hits[j] == kept[k];
      assert medicines[k] == Respond(cc, catalog[kept[k].index], kept[k].score, allergySimilarity, region);
      assert Admissible(cc, catalog, allergySimilarity, hits[j]);
    }
  }

  /** The entry `nlp_search` builds for a hit: every field cleaned, none lower-cased. */
  function MatchOf(cc: CharClasses, med: Record, score: real): Match
    requires cc.Valid()
  {
    Match(
      drugName := Clean(cc, Get(med, "drug_name", "Unknown")),
      medicalCondition := Clean(cc, Get(med, "medical_condition", "")),
      sideEffects := Clean(cc, Get(med, "side_effects", "")),
      rating := Clean(cc, Get(med, "rating", "N/A")),
      drugLink := Clean(cc, Get(med, "drug_link", "")),
      confidenceScore := score)
  }

  /** The request handled by `nlp_search`: one entry per hit of
      `semantic_search(prompt, top_k)` at the default threshold, no filter. */
  method NlpSearch(cc: CharClasses, catalog: seq<Record>, ranking: Ranking, topK: nat)
    returns (matches: seq<Match>)
    requires cc.Valid() && ranking.Valid() && |ranking.scores| == |catalog|
    ensures var hits := SemanticSearch(ranking, topK, DefaultThreshold);
      |matches| == |hits| &&
      forall k :: 0 <= k < |hits| ==> matches[k] == MatchOf(cc, catalog[hits[k].index], hits[k].score)
    ensures |matches| <= topK
    ensures forall k :: 0 <= k < |matches| ==> matches[k].confidenceScore >= DefaultThreshold
    ensures forall k, l :: 0 <= k < l < |matches| ==> matches[k].confidenceScore >= matches[l].confidenceScore
  {
    var results := SemanticSearch(ranking, topK, DefaultThreshold);
    matches := [];
    for i := 0 to |results|
      invariant |matches| == i
      invariant forall k :: 0 <= k < i ==> matches[k] == MatchOf(cc, catalog[results[k].index], results[k].score)
    {
      var idx := results[i].index;
      var score := results[i].score;
      var med := catalog[idx];
      matches := matches + [Match(
        drugName := Clean(cc, Get(med, "drug_name", "Unknown")),
        medicalCondition := Clean(cc, Get(med, "medical_condition", "")),
        sideEffects := Clean(cc, Get(med, "side_effects", "")),
        rating := Clean(cc, Get(med, "rating", "N/A")),
        drugLink := Clean(cc, Get(med, "drug_link", "")),
        confidenceScore := score)];
    }
  }
}
