# Medicine recommender: search, filter and annotate

A Dafny model of the request logic of the medicine recommendation API in
`backend/app.py`. It covers:

- `clean_text`, the text normaliser that every catalog field goes through;
- the loop that builds one cleaned "name condition side-effects" text per
  catalog record (the input of the embedding model);
- `semantic_search`, a top-`k` selection by descending similarity followed by
  a threshold filter;
- the `get_medicines` loop. It asks for `2 * top_k` hits, skips records
  lacking `drug_name`, `medical_condition` or `side_effects`, and skips those
  whose side effects are too similar to the allergy (above 0.4). It annotates
  region availability from `MOCK_PHARMACIES` and stops at `top_k` entries;
- the `nlp_search` loop, which maps every hit to a response entry without
  filtering;
- the `MOCK_PHARMACIES` table and the region lookup
  `drug_name.capitalize() in p['available_medicines']`.

Modules:

- `Text` (`text.dfy`): `clean_text` and ASCII `lower`/`capitalize`.
- `Catalog` (`catalog.dfy`): records as maps from keys to values, and the
  catalog text loop.
- `Search` (`search.dfy`): `semantic_search`.
- `Regions` (`regions.dfy`): the pharmacy table and the availability lookup.
- `Recommend` (`recommend.dfy`): the two endpoints' result loops.

The embedding model is replaced by given inputs:

- A `Search.Ranking` holds the query's similarity to every catalog entry. It
  also holds the order that `np.argsort(similarities)[::-1]` produced. That
  order is only required to be a permutation of the catalog indices by
  non-increasing score, because `np.argsort` is not stable. Ties are left
  open, and every result holds for every such order.
- `allergySimilarity: string -> real` is the cosine similarity of the request's
  allergy text with a side-effects text. It is applied to the cleaned,
  lower-cased side effects, as at lines 188-192.

Python's `\w` and `\s` classes are given as `Text.CharClasses`. The only
assumption about them is that the blank is whitespace. `str.strip` uses the
same whitespace class.

Behaviour of `backend/app.py` that the model follows and a reader might
not expect:

- The allergy cutoff is 0.4 and is applied even when the allergy text is
  empty.
- Equal scores have no tie-break, by allergy risk or otherwise.
- Region availability is `None` only when no region (or `""`) is given.
  Otherwise it is a real true/false lookup in the mock table, and an
  unknown region code gives `false`.
- There is no fingerprint-keyed embedding cache.

## Model

| member | source | states |
|---|---|---|
| Text.Clean | backend/app.py:14-22 | `clean_text`: definition, no contract of its own (its properties are the lemmas below) |
| Text.ReplaceSpecials | backend/app.py:19 | the first substitution, character by character: definition, no contract of its own |
| Text.TrimStart | backend/app.py:22 | `lstrip` never lengthens its input |
| Text.TrimEnd | backend/app.py:22 | `rstrip` never lengthens its input |
| Text.TrimStartShape | backend/app.py:22 | `lstrip` returns a suffix of its input that does not start with whitespace, and every character it drops is whitespace |
| Text.TrimEndShape | backend/app.py:22 | `rstrip` returns a prefix of its input that does not end with whitespace, and every character it drops is whitespace |
| Text.TrimKeepsNonSpace | backend/app.py:22 | stripping either end keeps every non-whitespace character, in order |
| Text.CollapseRuns | backend/app.py:21 | collapsing whitespace runs never lengthens the text |
| Text.CollapseRunsShape | backend/app.py:21 | after collapsing, every whitespace character is a blank and no two blanks are adjacent; the output is empty only for empty input and starts with a blank exactly when the input starts with whitespace; a text of kept characters stays one; the non-whitespace characters are all kept, in order (where each run's blank goes is `CollapseReplacesRun`) |
| Text.CollapseKeepsNonSpace | backend/app.py:21 | collapsing whitespace runs keeps every non-whitespace character, in order |
| Text.CollapseReplacesRun | backend/app.py:21 | each maximal whitespace run is replaced by exactly one blank in its place: the text on either side collapses on its own and the two results are joined by one blank, so words stay apart |
| Text.CollapsedCharsAllowed | backend/app.py:19-21 | after both substitutions every character is a blank or a non-whitespace word or punctuation character |
| Text.StrippedIsClean | backend/app.py:22 | stripping a text of kept characters and single blanks leaves no blank at either end and keeps the other properties |
| Text.CleanOutputIsClean | backend/app.py:14-22 | a non-string gives `""`; every output contains only word characters, `.,;:!?-` and single blanks, with no blank at either end |
| Text.CleanKeepsContent | backend/app.py:19-22 | the output of `clean_text` holds exactly the non-whitespace characters of the input after the first substitution, in order |
| Text.CleanJoinsAtRun | backend/app.py:16-22 | cleaning two pieces of text separated by a run of whitespace or of characters the first substitution turns into blanks, which the run meets with kept non-whitespace characters, gives the two cleaned pieces joined by one blank |
| Text.CleanNeverLonger | backend/app.py:19-22 | `clean_text` never lengthens a string |
| Text.ReplaceFixesClean | backend/app.py:19 | the first substitution leaves clean text unchanged |
| Text.CollapseFixesSingleBlanks | backend/app.py:21 | the second substitution leaves text whose only whitespace is isolated blanks unchanged |
| Text.CleanFixesExactlyCleanText | backend/app.py:14-22 | `clean_text(t) == t` holds if and only if `t` is clean |
| Text.CleanIdempotent | backend/app.py:14-22 | applying `clean_text` to its own output changes nothing |
| Text.Lower | backend/app.py:187-189 | `lower` keeps the length |
| Text.Capitalize | backend/app.py:199 | `capitalize` keeps the length |
| Text.CapitalizeFixesCapitalizedWord | backend/app.py:199 | a word with a capital first letter and lower-case letters after it is unchanged by `capitalize` |
| Text.CapitalizeMatchesIgnoringCase | backend/app.py:199 | for a name already in capitalized form, the capitalized drug name equals it if and only if both are equal in lower case |
| Catalog.RecordText | backend/app.py:69 | the f-string of name, condition and side effects, missing fields as `""`: definition, no contract of its own |
| Catalog.BuildCatalogTexts | backend/app.py:67-70 | one text per record, in catalog order; each is `clean_text` of the record's three fields joined by blanks, and each is clean |
| Catalog.EmptyRecordGivesEmptyText | backend/app.py:69-70 | a record without any of the three fields gives the empty text |
| Search.Ranking.Valid | backend/app.py:127 | what `np.argsort(similarities)[::-1]` gives: every catalog index once, by non-increasing score, ties in any order; definition, no contract of its own |
| Search.AboveThreshold | backend/app.py:128-130 | the filter keeps at most its input's length; each hit carries a valid index, that index's score, and a score at or above the threshold |
| Search.DescendingFilterIsPrefix | backend/app.py:127-128 | filtering an index list sorted by descending score keeps exactly the prefix before the first score below the threshold |
| Search.TailStaysDescending | backend/app.py:127 | dropping the first index of a list sorted by descending score keeps it sorted |
| Search.FilterKeepsHead | backend/app.py:128 | when the first score reaches the threshold, the filter keeps it and then the kept prefix of the rest |
| Search.FilterDropsHead | backend/app.py:128 | when the first score of a descending list is below the threshold, the filter keeps nothing |
| Search.SemanticSearch | backend/app.py:115-130 | at most `top_k` hits with distinct, valid indices; each score is the index's similarity and at least the threshold; scores are non-increasing; the hits are a prefix of the descending order |
| Search.SemanticSearchKeepsBest | backend/app.py:127-128 | an index not returned scores no higher than any returned one; if it reaches the threshold, `top_k` hits were returned |
| Regions.AvailableInRegion | backend/app.py:196-199 | the annotation is `None` exactly when the region is absent or empty |
| Regions.TableListsFourMedicines | backend/app.py:141-159 | every medicine the table lists is Aspirin, Ibuprofen, Paracetamol or Cetirizine |
| Regions.TableNamesCapitalized | backend/app.py:141-159 | every listed name is already in capitalized form |
| Regions.CapitalizedLookupIgnoresCase | backend/app.py:199 | against capitalized names, the capitalized-name lookup is a case-insensitive lookup (both directions) |
| Regions.AvailabilityIgnoresCase | backend/app.py:196-199 | for a given region, availability is true exactly when some pharmacy there lists a name equal to the drug name ignoring case |
| Regions.UnknownRegionUnavailable | backend/app.py:198-199 | an unknown, non-empty region code gives `false`, not `None` |
| Regions.AvailableOnlyForListedMedicines | backend/app.py:196-199 | only the four medicines of the table are ever reported available |
| Regions.NewYorkStocksEveryKnownMedicine | backend/app.py:142-145 | in NY a drug is available exactly when it is one of the four medicines, in any letter case |
| Recommend.Admissible | backend/app.py:185-194 | the two `continue` tests passed: all three fields present and allergy similarity of the cleaned, lower-cased side effects at most 0.4; definition, no contract of its own |
| Recommend.Respond | backend/app.py:187-209 | the response entry built for a kept hit; definition, no contract of its own |
| Recommend.Kept | backend/app.py:185-194 | the kept hits are no more than the hits, and each kept hit has all three fields and an allergy similarity at most 0.4 |
| Recommend.KeptExactlyAdmissible | backend/app.py:185-194 | a hit is kept if and only if it is one of the hits, has all three fields and has an allergy similarity at most 0.4 |
| Recommend.KeptKeepsOrder | backend/app.py:183-194 | the kept hits are the hits at strictly increasing positions: filtering never reorders |
| Recommend.KeptStaysDescending | backend/app.py:183-194 | filtering hits sorted by descending score leaves them sorted |
| Recommend.KeptStep | backend/app.py:183-194 | one more hit extends the kept list by that hit exactly when it is admissible |
| Recommend.Responses | backend/app.py:200-210 | one response entry per kept hit |
| Recommend.ResponsesAppend | backend/app.py:200-210 | responding to one more kept hit appends its entry |
| Recommend.RespondStep | backend/app.py:183-210 | one more hit appends its entry to the response exactly when its record has the three fields and its allergy similarity is not above 0.4 |
| Recommend.KeptOfPrefix | backend/app.py:211-212 | the kept hits of a prefix of the hits are a prefix of the kept hits of all of them |
| Recommend.StopAtTopK | backend/app.py:210-212 | breaking once `n` entries are collected gives the first `n` entries of the unbroken response |
| Recommend.CollectMedicines | backend/app.py:182-213 | the loop returns the first `max(top_k, 1)` entries for the kept hits, in hit order; the length test follows the append |
| Recommend.GetMedicines | backend/app.py:179-213 | the response is the first `top_k` entries for the admissible hits of a `2 * top_k` search; at most `top_k` entries; each has confidence at least `min_confidence` and allergy risk at most 0.4; confidences non-increasing; each entry is the response for an admissible hit |
| Recommend.GetMedicinesResultShape | backend/app.py:181-213 | every entry of such a response comes from an admissible hit, carries its score (at least the threshold) and an allergy risk at most 0.4, and confidences never increase |
| Recommend.MatchOf | backend/app.py:227-234 | the entry `nlp_search` builds for a hit, every field cleaned and none lower-cased; definition, no contract of its own |
| Recommend.NlpSearch | backend/app.py:217-237 | one entry per hit of a `top_k` search at threshold 0.3, in hit order, with every field cleaned; at most `top_k` entries; confidences at least 0.3 and non-increasing |

## Left out

- HTTP plumbing is not modelled: the FastAPI app, the CORS middleware, the routes `/regions` and `/pharmacies`, the 500 wrapping with `HTTPException`, and the `uvicorn` start-up.
- The sentence-transformer model and `cosine_similarity` are floating-point library calls. They are replaced by the given `Ranking` and `allergySimilarity`. So the query string built at line 180 and the allergy encoding at line 190 do not appear.
- Scores are `real`, so float rounding and NaN are not modelled.
- Reading `drugs_data.json`, the regex fallback after a JSON error, and the pickle cache of embeddings are I/O and are not modelled. The model starts from the catalog as a list of records. The fallback reads from a handle that is already consumed.
- `MOCK_REGIONS` is static data served only by `/regions`, so it is not modelled.
- `top_k` is a natural number. A negative `top_k` makes Python's slicing at line 127 count from the end, and the test at line 211 always succeeds. That case is not modelled.
- Text.Lower, Text.Capitalize: ASCII letters only. Python's Unicode case mapping, including characters whose case mapping changes the length, is not modelled.
- Text.CharClasses: `\w` and `\s` are parameters, not Python's Unicode tables. `str.strip` is taken to strip the same whitespace class that `\s` matches.
- Search.SemanticSearch: `np.argsort` is represented by its contract: a permutation by non-increasing score. Which of several equal-score indices comes first is not fixed.
- Catalog.BuildCatalogTexts: a non-string field is interpolated by its given `str()` rendering (`Value.Other`); Python's rendering rules themselves are not modelled.
