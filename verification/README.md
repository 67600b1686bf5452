# Verified models of Spectral's evaluation, retrieval and graph algorithms

Spectral is a memory system for language-model agents, with a benchmark harness around it. This
project models its self-contained algorithms in Dafny and proves what they promise, for all inputs,
all runs and all orders of events. Each module follows one source component:

| module | models |
|---|---|
| `Binomial`, `McNemar`, `TossCounts`, `Compare`, `CompareMeaning` | the exact paired significance test, in its Rust and its Python form, and the join that feeds it |
| `Windows`, `Canonicalize`, `CanonicalizeText`, `CanonicalizeResults`, `CanonicalizeNames`, `CanonicalizeMeaning`, `CanonicalizeWhole` | tokenizer, alias matching and fuzzy pass of the ontology canonicalizer |
| `Hits`, `Merge`, `Bfs`, `BfsResults`, `BfsOutcome` | bounded breadth-first expansion of a hit list and the merge that displaces its tail |
| `Keys`, `Adjacency` | turn keys and the emission of neighbouring dialogue turns |
| `Positions`, `Rerank` | reranking by an activation prior |
| `Diversity` | interleaving of episodes |
| `Report`, `ReportMeaning`, `EvalRun`, `EvalProgress`, `EvalOutcome` | the evaluation report, and the loop that resumes, skips, halts and checkpoints |
| `JsonScan`, `NaiveScan` | the string-aware and the naive extractor of a JSON object |
| `Ranks`, `SignedRank`, `SignedRankValue` | tie-averaged ranks and the exact signed-rank test |
| `Wilson` | the Wilson interval and its lower bound |
| `Payload` | length-prefixed signing payloads |
| `GraphExport`, `ExportLabels` | the scoped, sorted graph export |
| `Retry` | retry with exponential backoff |
| `Options`, `Orders`, `Sorting` | shared: optional values, string order, stable sorting and filtering |

`dafny verify dfyconfig.toml` checks the whole project.

## How the model relates to the code

- Code that updates variables, vectors or fields in loops is a method with the same loops, proved
  equal to a specification function or predicate; the theorems are about that specification.
- The specification functions that the methods are proved equal to follow the code's own steps. What they
  amount to is stated again without them, from the inputs alone: `EvalOutcome`, `ReportMeaning`,
  `CanonicalizeNames`, `CanonicalizeMeaning`, `CanonicalizeWhole`, `BfsOutcome`, `SignedRankValue`,
  `TossCounts`, `ExportLabels`, `CompareMeaning`, and the last part of `Merge`, `Keys`, `Adjacency`, `Rerank`,
  `Diversity`, `Wilson`, `Payload` and `Retry`.
- `f64` is exact `real`. A square root is any non-negative number with the given square.
- Everything the code calls but does not define is a parameter, and the theorems hold for every value
  of it: lower-casing, character classes and edit-distance similarity; the stores asked for
  neighbours, memories and keys; what evaluating a question returns; what each attempt of a retried
  call returns, how its error is classified, and what the clock reads. A failed store lookup is `None`.
  A single token is assumed to contain a word after lower-casing, which holds of the real functions.
- Iteration over a hash set takes the elements in an arbitrary order.
- A crash can happen between any two steps of the evaluation loop. Writing the temporary file and
  renaming it are two steps; a write cut short leaves a file that is not a whole report, and such a file
  loads as if it were missing. A step that panics has an outcome of its own, `Panicked`.
- Numbers are unbounded except where a width can be seen in the result: field lengths are cut to 32
  bits; turn indices, and the accuracy denominator of a report whose counters contradict each other, have
  64 bits and the wrap-around of a release build.
- The JSON scanners look at characters where the judge's looks at bytes; every character either one
  reacts to is ASCII.

## What the proofs found

- `merge_displacing_tail` is documented as never growing its list (`retrieval.rs:505-506`) and asserts
  it in debug builds. It grows exactly when the cap and the number of new candidate ids both exceed the
  number of hits (`Merge.MergeLength`, `Merge.MergeCanGrow`).
- The checkpoint is documented as losing at most the question in flight on an interruption
  (`eval.rs:441-443`). The failure that a run halts on is in the report
  that the run returns, and missing from the checkpoint file, so the next run evaluates that question
  again. Everything else reaches the file (`EvalProgress.DiskLagsByAtMostOne`), and the error streak
  starts from zero on resuming, so a halted run still leaves two new results there
  (`EvalProgress.HaltedRunMakesProgress`).
- The comparison tolerance in `paired_mcnemar.py` changes the p-value: `McNemar.ToleranceEffect` says
  exactly when, and `McNemar.ToleranceDiffers` that it does on every one-sided table of fifty or more.
- The script counts a question whose grading failed as answered wrongly, where the comparison tool
  drops it (`Compare.CountsAgree`), so one can report significance where the other finds no evidence at
  all (`Compare.AllLost`, `Compare.ToolsDiffer`).
- The naive JSON extractor counts braces inside strings, so it cuts short, or misses, exactly the objects
  whose braces do not first balance at their end (`NaiveScan.NaiveRecovers`, `NaiveScan.NaiveTruncates`).
- The length prefix of a signing payload keeps 32 bits of the length, so "no field-boundary ambiguity"
  needs fields shorter than 2^32 bytes (`Payload.FieldsRoundTrip`, `Payload.LongFieldsCollide`).
- `resolve_one` tries fuzzy matching on mentions of any length, `canonicalize` only on words of at least
  three bytes (`CanonicalizeResults.SingleTokenAgrees`, `CanonicalizeResults.ShortTokenDiffers`). A token
  of at most two bytes that is no alias has a normalized edit-distance score of at most 2/3, so the
  difference needs a custom threshold and never shows at the default of 0.85.
- The windows of the exact phase are as wide as the widest name, counted in whitespace-separated parts, while
  the text is cut at every character that is no letter, digit, hyphen or apostrophe. A name such as "a&b" has
  more words than parts, and is not found even when the text is that name, unless some other name is wide
  enough (`CanonicalizeWhole.WholeNameIff`, `CanonicalizeWhole.PunctuatedNameMissed`).
- A threshold of zero is documented as allowed (`canonicalize.rs:173`), and with it, or a negative one,
  a leftover word that resembles no alias at all panics the canonicalizer
  (`CanonicalizeResults.CanonicalizePanics`, `CanonicalizeResults.PanicExample`). No other text does, and
  every other theorem about it holds for every threshold.
- `with_retry` with zero attempts reaches its `unreachable!`; with one or more it never does.
- The ledger and the comparison use slightly different critical values, 1.96 and 1.95996...
  (`Wilson.ShippedBoundsOrdered`).

## Model

| member | source | states |
|---|---|---|
| McNemar.McNemarExactP | crates/spectral-bench-accuracy/src/compare.rs:123-134 | the iterated terms sum to the binomial lower tail: the result is min(1, 2 P(X <= k)), and 1 with no discordant pair |
| McNemar.PValueRange | crates/spectral-bench-accuracy/src/compare.rs:117-134 | the p-value lies in (0, 1], and is 1 exactly when the two discordant counts differ by at most one |
| McNemar.PValueRises | crates/spectral-bench-accuracy/src/compare.rs:123-134 | it rises with the smaller count, strictly until it reaches 1 |
| McNemar.DefinitionsAgree | scripts/paired_mcnemar.py:24-34 | for all counts, the sum of every outcome no likelier than the observed one (tolerance aside) is the doubled tail of the Rust code |
| McNemar.ToleranceEffect | scripts/paired_mcnemar.py:24-34 | with a tolerance the Python value is never smaller, and equal exactly when the counts are within one of each other or the next mass clears the tolerance |
| McNemar.ToleranceDiffers | scripts/paired_mcnemar.py:33-34 | with the shipped tolerance the two values differ on every table of fifty or more pairs that all favour one arm |
| Binomial.ChooseOrder | scripts/paired_mcnemar.py:29-34 | binomial coefficients are unimodal: C(n, i) <= C(n, k) holds exactly in the two tails that k cuts off |
| Binomial.MassesSumToOne | scripts/paired_mcnemar.py:29-31 | the masses of the null distribution sum to 1 |
| McNemar.PValuesCoincide | crates/spectral-bench-accuracy/src/compare.rs:123-134 | different discordant counts can share a p-value below 1: (0, 4) and (1, 6) both give 0.125 |
| TossCounts.ChooseCounts | scripts/paired_mcnemar.py:29-31 | a binomial coefficient counts the outcomes of n tosses with exactly k heads |
| TossCounts.PValueCounts | crates/spectral-bench-accuracy/src/compare.rs:117-134 | 2^n times the p-value is twice the number of outcomes of n tosses with at most k heads, cut at 2^n |
| Compare.Analyse | crates/spectral-bench-accuracy/src/compare.rs:48-115 | every list holds, in id order, exactly the questions of its kind, and every tally counts them |
| CompareMeaning.AnalysisMeans | crates/spectral-bench-accuracy/src/compare.rs:48-110 | from the last result each report has for a question: the discordant lists hold those graded in both with opposite marks, the dropped list those whose transport, authentication or judging failed in either, the unmatched lists those of one report only; each in order and once |
| CompareMeaning.TalliesMean | crates/spectral-bench-accuracy/src/compare.rs:80-115 | the tallies are the numbers of questions right in both, wrong in both, and discordant |
| Compare.CellSwaps | crates/spectral-bench-accuracy/src/compare.rs:75-101 | swapping the reports swaps the discordant cells and changes no list |
| Compare.PSymmetric | crates/spectral-bench-accuracy/src/compare.rs:41-43 | the p-value does not depend on which report is called A |
| Compare.CountsAgree | scripts/paired_mcnemar.py:52-62 | tool and script count the same discordant pairs exactly when the questions whose grading failed in an arm carry the same mark in both |
| Compare.ToolsAgree | scripts/paired_mcnemar.py:24-34 | under that condition both programs reach the same p-value from the same two reports |
| Compare.AllLost | scripts/paired_mcnemar.py:18-34 | of n questions right in one arm and lost in the other the tool has no evidence (p = 1) and the script reports p = 2^(1 - n) |
| Compare.ToolsDiffer | scripts/paired_mcnemar.py:18-34 | with six questions right in one arm and lost in the other the tool reports p = 1 and the script p = 0.03125 |
| Canonicalize.ExtractWords | crates/spectral-graph/src/canonicalize.rs:383-399 | the words are all the maximal runs of word characters and nothing else, left to right |
| Canonicalize.WordListUnique | crates/spectral-graph/src/canonicalize.rs:383-399 | a text has only one such list |
| Canonicalize.BuildAliasIndex | crates/spectral-graph/src/canonicalize.rs:351-373 | the index lists every name of every entity, canonical name first, in declaration order |
| Canonicalize.BestFuzzyMatch | crates/spectral-graph/src/canonicalize.rs:331-349 | the nested loops compute the best score over the alias index |
| Canonicalize.BestIsFirstMaximum | crates/spectral-graph/src/canonicalize.rs:331-349 | no alias scores higher; the entity is the first one to reach the score, and is missing exactly when every score is zero |
| Canonicalize.ResolveOne | crates/spectral-graph/src/canonicalize.rs:277-314 | the early-returning search is the lookup in the alias index followed by the best fuzzy match, panics included |
| Canonicalize.FindNearest | crates/spectral-graph/src/canonicalize.rs:317-329 | the suggestion is the best fuzzy match, from a score of one half |
| Canonicalize.ResolveOnePanics | crates/spectral-graph/src/canonicalize.rs:298-302 | resolving a mention panics exactly when it is no alias, the threshold is not positive, and no alias resembles it at all |
| CanonicalizeNames.LookupFindsFirst | crates/spectral-graph/src/canonicalize.rs:282-296 | a lookup finds the first entity that has the text as a name in lower case, canonical or not, whenever there is one |
| CanonicalizeNames.BestMeans | crates/spectral-graph/src/canonicalize.rs:331-349 | the best fuzzy match is the greatest similarity of the lowered mention to any lowered name of any entity, with the first entity reaching it; there is none exactly when nothing is alike at all |
| CanonicalizeNames.AliasWindowMeans | crates/spectral-graph/src/canonicalize.rs:198-215 | the windows taken for aliases are exactly those whose text is a name up to case and which have no more words than the widest lowered name has whitespace-separated parts |
| CanonicalizeMeaning.ResolveOneMeans | crates/spectral-graph/src/canonicalize.rs:277-329 | one mention resolves to the first entity so named, failing that to the one whose name resembles it most, if by the threshold; it panics or finds nothing exactly otherwise; a suggestion needs half |
| Windows.GreedyUnique | crates/spectral-graph/src/canonicalize.rs:203-229 | only one choice of disjoint windows is such that every other alias window overlaps a chosen one that is longer, or equally long and further left |
| CanonicalizeText.ExactPhase | crates/spectral-graph/src/canonicalize.rs:198-229 | the exact matches are that choice among the windows of CanonicalizeNames.AliasWindowMeans, in its order, and `consumed` marks exactly the words they cover |
| CanonicalizeText.TryWindow | crates/spectral-graph/src/canonicalize.rs:206-227 | one step keeps the search decided up to the next window |
| CanonicalizeText.FuzzyPhase | crates/spectral-graph/src/canonicalize.rs:231-267 | the fuzzy matches and the suggestions are those of the uncovered words of at least three bytes, by threshold, in text order; or the phase panics, exactly when one of the matches has no entity |
| CanonicalizeText.CanonicalizeAll | crates/spectral-graph/src/canonicalize.rs:180-273 | both phases together have an outcome described without reference to the search; what it reports is stated from the text in CanonicalizeMeaning and CanonicalizeWhole |
| CanonicalizeMeaning.ExactChoice | crates/spectral-graph/src/canonicalize.rs:203-229 | every alias window is an exact match, or overlaps one that has more words, or as many and begins further left |
| CanonicalizeMeaning.MatchMeans | crates/spectral-graph/src/canonicalize.rs:203-253 | every match runs from the start of a word to the end of one, with its byte range; an exact one names its entity, a fuzzy one is a single word of at least three bytes whose entity has the most similar name |
| CanonicalizeMeaning.SuggestionMeans | crates/spectral-graph/src/canonicalize.rs:254-266 | every suggestion is for a single word of at least three bytes, by at least half and less than the threshold |
| CanonicalizeMeaning.WordAccounted | crates/spectral-graph/src/canonicalize.rs:231-267 | every word of at least three bytes lies in an exact match, is a fuzzy match, has a suggestion, or resembles no name by half nor by the threshold |
| CanonicalizeMeaning.ByteLenMeans | crates/spectral-graph/src/canonicalize.rs:383-399 | offsets count the bytes of UTF-8: one for each character and one more from U+0080, U+0800 and U+10000 on |
| CanonicalizeWhole.WholeNameMatches | crates/spectral-graph/src/canonicalize.rs:198-229 | a text that is a name from end to end, however many words it has, up to the parts of the widest name, yields exactly one match of the whole text, with the first entity so named |
| CanonicalizeWhole.TwoWordName | crates/spectral-graph/src/canonicalize.rs:198-229 | in particular two words with one space between them that spell a name of two parts are that one match |
| CanonicalizeResults.ResultUnique | crates/spectral-graph/src/canonicalize.rs:180-273 | that description fits one outcome per text |
| CanonicalizeResults.CanonicalizePanics | crates/spectral-graph/src/canonicalize.rs:231-253 | the call panics exactly when the threshold is not positive and some word of at least three bytes that the exact matches leave over resembles no alias at all |
| CanonicalizeResults.PanicExample | crates/spectral-graph/src/canonicalize.rs:243-244 | with no entities and a threshold of zero, the text of three hyphens panics |
| CanonicalizeResults.SpansDisjoint | crates/spectral-graph/src/canonicalize.rs:203-267 | the spans of all reported mentions, matched or not, are nonempty, inside the text and pairwise disjoint |
| CanonicalizeResults.SingleTokenAgrees | crates/spectral-graph/src/canonicalize.rs:180-329 | on a single token, canonicalize does what resolve_one does, panics included, exactly when the token has three bytes, is an alias or scores below the threshold; an unmatched token of three bytes carries find_nearest's suggestion |
| CanonicalizeResults.ShortTokenDiffers | crates/spectral-graph/src/canonicalize.rs:237-304 | with an entity "ab" and a threshold of one half, resolve_one matches the mention "ax", and canonicalize finds nothing in the text "ax" |
| CanonicalizeWhole.WholeNameIff | crates/spectral-graph/src/canonicalize.rs:198-229 | a text that begins and ends with a word and is a name up to case is matched as a whole exactly when it has no more words than the widest name has whitespace-separated parts |
| CanonicalizeWhole.PunctuatedNameMissed | crates/spectral-graph/src/canonicalize.rs:198-229 | with "a&b" as the only name, the text "a&b" is not an exact match |
| Merge.MergeDisplacingTail | crates/spectral-bench-accuracy/src/retrieval.rs:507-528 | the list afterwards is its kept head followed by the admitted candidates |
| Merge.MergedTail | crates/spectral-bench-accuracy/src/retrieval.rs:507-528 | the tail of the list is given up for exactly the first cap candidates whose ids neither a hit nor an earlier candidate has, in their order; the rest of the list stays |
| Merge.AdmitFacts | crates/spectral-bench-accuracy/src/retrieval.rs:508-519 | admitted candidates are new and distinct, and below the cap nothing new is left out |
| Merge.AdmitSize | crates/spectral-bench-accuracy/src/retrieval.rs:508-519 | as many candidates are admitted as there are new ids, up to the cap |
| Merge.MergeLength | crates/spectral-bench-accuracy/src/retrieval.rs:505-528 | the list grows exactly when the cap and the number of new candidate ids both exceed the number of hits; otherwise its length stays |
| Merge.MergeCanGrow | crates/spectral-bench-accuracy/src/retrieval.rs:505-528 | one hit and two new candidates: the list grows |
| Merge.MergeKeepsDistinct | crates/spectral-bench-accuracy/src/retrieval.rs:507-528 | distinct ids stay distinct and the kept head stays in place |
| Bfs.ApplyBfsExpansion | crates/spectral-bench-accuracy/src/retrieval.rs:455-503 | the list afterwards is the old one merged with the best ten discoveries of the level-by-level search, which BfsOutcome.ExpansionIs describes from the two stores |
| BfsOutcome.ExpansionIs | crates/spectral-bench-accuracy/src/retrieval.rs:455-503 | from the two stores: the search starts at the first five hits and goes hop by hop as in BfsOutcome.HopIs; the memories of its ten best discoveries that are stored and of new ids, each once and in that order, displace the tail of the list |
| BfsOutcome.HopIs | crates/spectral-bench-accuracy/src/retrieval.rs:465-489 | a hop visits exactly the nodes that either store links to the frontier, records those that are no hits with the weight of their heaviest edge, and keeps the strongest fifty as the next frontier |
| Bfs.SearchHops | crates/spectral-bench-accuracy/src/retrieval.rs:465-493 | stopping at an empty frontier loses no discovery |
| BfsResults.DiscoveriesAreSound | crates/spectral-bench-accuracy/src/retrieval.rs:459-493 | on every graph, discovered ids are distinct and outside the hits, each hop is the length of a real walk from a seed, and each weight is the heaviest edge from the frontier of that hop |
| BfsResults.DiscoveriesAreComplete | crates/spectral-bench-accuracy/src/retrieval.rs:459-493 | if no level before the last overflows the frontier cap, the discoveries are exactly the nodes at shortest distance 1 to hops not already hit, with their true distances |
| BfsResults.OneHopIsComplete | crates/spectral-bench-accuracy/src/retrieval.rs:465-489 | a one-hop search finds every neighbour of the seeds not already hit, on every graph |
| BfsResults.TopIsBest | crates/spectral-bench-accuracy/src/retrieval.rs:453-500 | the ten looked up are the best: none left out is nearer, or equally near and heavier, or equal in both and earlier by id |
| BfsResults.ExpandedHits | crates/spectral-bench-accuracy/src/retrieval.rs:495-503 | the expanded list is never shorter, is at most ten long unless it already was longer, and keeps distinct ids distinct |
| Keys.KeyRoundTrip | crates/spectral-bench-accuracy/src/ingest.rs:30-40 | a printed turn key of a colon-free session parses back to its session and index, as far as a signed 64-bit index reaches; a session key never parses |
| Keys.TurnKeyInjective | crates/spectral-bench-accuracy/src/ingest.rs:37 | different turns have different keys, whatever the session ids are made of, as long as the roles hold no colon |
| Keys.KeyExample | crates/spectral-bench-accuracy/src/ingest.rs:36-39 | turn 1204 of session s1 by the user has the key s1:turn:1204:user, and the session the key s1:session |
| Keys.ParseMeans | crates/spectral-bench-accuracy/src/retrieval.rs:673-681 | a key parses exactly when it is a session id without a colon, the word turn, a 64-bit number and at least one more part between colons, and to that id and number |
| Keys.NumbersMean | crates/spectral-bench-accuracy/src/retrieval.rs:679 | a number is an optional sign and then digits, each worth ten times the next |
| Adjacency.ApplyTurnAdjacency | crates/spectral-bench-accuracy/src/retrieval.rs:659-706 | whatever the order of the key set, the output is the hits followed by every stored neighbour not already present, once, in key order |
| Adjacency.AddNeighbours | crates/spectral-bench-accuracy/src/retrieval.rs:672-702 | the loops over offsets and roles add exactly the wanted neighbours of one key |
| Adjacency.EmissionUnique | crates/spectral-bench-accuracy/src/retrieval.rs:668-705 | there is only one such output, so the hash order cannot be seen in it |
| Adjacency.NeighboursOfPrintedKey | crates/spectral-bench-accuracy/src/retrieval.rs:672-694 | on printed keys the neighbours are the same session's other turns within the radius, in both roles |
| Adjacency.SessionKeysHaveNoNeighbours | crates/spectral-bench-accuracy/src/retrieval.rs:674-680 | session keys have none |
| Adjacency.EmittedTurns | crates/spectral-bench-accuracy/src/retrieval.rs:659-706 | for hits that are turns: after them come, each once and in key order, exactly the stored turns of their sessions within the radius, by user or assistant, whose keys no hit has |
| Rerank.ApplyActrRerank | crates/spectral-bench-accuracy/src/retrieval.rs:708-750 | the list afterwards is the old one in the order of the blended scores, or unchanged when the activations are all equal |
| Rerank.RerankedOrder | crates/spectral-bench-accuracy/src/retrieval.rs:727-750 | the list is the hits in the order of 0.8 (1 - i / (n - 1)) plus 0.2 times the activation scaled to 0 and 1, equal scores in list order; unchanged below two hits or when all activations are the same |
| Rerank.RerankPermutes | crates/spectral-bench-accuracy/src/retrieval.rs:741-749 | no hit is lost or invented |
| Rerank.StaysAhead | crates/spectral-bench-accuracy/src/retrieval.rs:532-534 | the prior is small: a hit is overtaken only by one of higher activation fewer than (n - 1) / 4 positions behind it |
| Rerank.StaysAheadInList | crates/spectral-bench-accuracy/src/retrieval.rs:532-534 | the same in the list that comes out |
| Rerank.BoundIsExact | crates/spectral-bench-accuracy/src/retrieval.rs:733-747 | that distance is the exact bound: from any nearer position some activations do overtake |
| Rerank.ScaleInvariant | crates/spectral-bench-accuracy/src/retrieval.rs:727-740 | rescaling and shifting all activations, as another unit of age or logarithm does, changes nothing |
| Diversity.ApplyEpisodeDiversity | crates/spectral-graph/src/cascade_layers.rs:130-162 | the drained list is rebuilt as the first `cap` hits of every episode followed by the rest |
| Diversity.DiverseIs | crates/spectral-graph/src/cascade_layers.rs:130-162 | first the hits with fewer than cap earlier ones of their episode, in order, then the others, in order |
| Diversity.EpisodeMeans | crates/spectral-graph/src/cascade_layers.rs:140-148 | the episode of a hit is its id, or failing that what its key has before the first colon, or the whole key |
| Diversity.DiversePermutes | crates/spectral-graph/src/cascade_layers.rs:140-161 | the hits are permuted |
| Diversity.KeptCounts | crates/spectral-graph/src/cascade_layers.rs:150-156 | exactly min(cap, size) hits of every episode stand before all overflow |
| Diversity.EpisodeOrderKept | crates/spectral-graph/src/cascade_layers.rs:140-161 | inside every episode the relative order is unchanged |
| Diversity.DiverseIdempotent | crates/spectral-graph/src/cascade_layers.rs:130-162 | applying it twice is applying it once |
| Report.EvalReport.Record | crates/spectral-bench-accuracy/src/report.rs:258-344 | the whole new state of the report after one result |
| Report.EvalReport.Finalize | crates/spectral-bench-accuracy/src/report.rs:352-364 | the whole new state of the report, for any counters |
| ReportMeaning.CountersMean | crates/spectral-bench-accuracy/src/report.rs:278-364 | in a report whose counters are true, each counts the results of one kind, told by their fields; the accuracy is the share of correct answers among the graded ones, and 0 when none is graded |
| ReportMeaning.CategoryMeans | crates/spectral-bench-accuracy/src/report.rs:303-320 | the table lists the categories with graded answers, with their numbers, correct ones and shares |
| Report.RecordedConsistent | crates/spectral-bench-accuracy/src/report.rs:278-343 | recording keeps every counter equal to the number of results of its kind |
| Report.FinalizedConsistent | crates/spectral-bench-accuracy/src/report.rs:352-364 | finalizing keeps the counters true |
| Report.RecordAllConsistent | crates/spectral-bench-accuracy/src/report.rs:278-343 | so does any sequence of records, which appends its results in order |
| Report.CountsAddUp | crates/spectral-bench-accuracy/src/report.rs:280-301 | total, results and the outcome counters add up, the subtraction in finalize does not underflow, and the graded questions are at least the correct ones |
| Report.CategoriesAddUp | crates/spectral-bench-accuracy/src/report.rs:303-320 | the category table accounts for every graded and every correct answer |
| Report.OverallIsWeightedMean | crates/spectral-bench-accuracy/src/report.rs:352-364 | overall accuracy is the mean of the category accuracies weighted by their totals, and a fraction |
| EvalRun.StepOk | crates/spectral-bench-accuracy/src/eval.rs:281-455 | every step, failed save, crash and restart keeps the invariant: checkpoint and memory hold the results of a prefix of the questions, with the counters that go with them, and a temporary file about to be renamed is whole |
| EvalRun.EveryHistoryAgrees | crates/spectral-bench-accuracy/src/eval.rs:277-455 | with distinct ids, every history of steps, failed saves, crashes and restarts that completes ends with the same report; when no three failures come in a row, every history that ends does |
| EvalRun.ReportIsPlanned | crates/spectral-bench-accuracy/src/eval.rs:281-331 | in every reachable state the report holds a prefix of the planned results, so nothing from a checkpoint of another configuration is in it |
| EvalRun.CheckpointNeverLost | crates/spectral-bench-accuracy/src/report.rs:589-600 | crashes in the middle of a save, and saves that fail, never cost an existing checkpoint |
| EvalOutcome.RunReports | crates/spectral-bench-accuracy/src/eval.rs:256-456 | from any files and whatever becomes of the saves, a crash-free run returns what a checkpoint of this configuration held and then, in order, what evaluating each open question gave, a local error as a transport failure; it halts exactly at the third failure in a row |
| EvalOutcome.RunAddsUp | crates/spectral-bench-accuracy/src/report.rs:278-364 | its counters count its results and its accuracy is their share |
| EvalOutcome.CompleteHolds | crates/spectral-bench-accuracy/src/eval.rs:342-455 | the report that all completing histories agree on holds, in order, what evaluating every question of known type gave |
| EvalOutcome.CheckpointAddsUp | crates/spectral-bench-accuracy/src/eval.rs:439-450 | through steps, failed saves, crashes and restarts the checkpoint only ever holds reports whose counters and accuracy add up |
| EvalProgress.Run | crates/spectral-bench-accuracy/src/eval.rs:256-456 | in a run without a crash, from any files and whatever becomes of each save, the loop over the report object and the checkpoint file does what the step-by-step process does; EvalOutcome.RunReports says what the report then holds |
| EvalProgress.SaveReport | crates/spectral-bench-accuracy/src/report.rs:594-600 | writing the temporary file and renaming it leaves the report in the checkpoint file and no temporary file; a write that fails leaves the checkpoint and a temporary file that is not a whole report; a rename that fails leaves the checkpoint and a whole temporary file |
| EvalProgress.UndisturbedRun | crates/spectral-bench-accuracy/src/eval.rs:342-455 | the report all histories agree on is the one a run without a crash returns, whatever becomes of its saves |
| EvalProgress.DiskLagsByAtMostOne | crates/spectral-bench-accuracy/src/eval.rs:394-450 | while saves succeed, through crashes at any step, those of a save included, and restarts, the file holds every result except possibly the last, which awaits its save or is the failure the run halted on |
| EvalProgress.HaltedRunMakesProgress | crates/spectral-bench-accuracy/src/eval.rs:332-450 | when saves succeed, a run that halts leaves at least two new results in the file, exactly two when everything fails; a run that completes leaves nothing open |
| EvalProgress.RestartsAreBounded | crates/spectral-bench-accuracy/src/eval.rs:332-450 | with m open questions, max(1, ceil(m / 2)) runs without crashes or failed saves reach completion whatever evaluation returns each time, and exactly that many when everything fails |
| JsonScan.FirstJsonObject | crates/spectral-bench-accuracy/src/judge.rs:32-69 | the byte loop returns the slice where the depth outside strings first comes back to zero, and its checked subtraction cannot fail |
| JsonScan.SliceIsShortestBalanced | crates/spectral-bench-accuracy/src/judge.rs:25-30 | that is the shortest slice from the first brace that balances once its string literals are removed, and nothing is returned exactly when there is none |
| JsonScan.TrailingTextIgnored | crates/spectral-bench-accuracy/src/judge.rs:18-23 | text appended after a found object changes nothing |
| JsonScan.PrintedObjectRecovered | crates/spectral-bench-accuracy/src/judge.rs:25-30 | every object of RFC 8259 (sections 2 to 5 and 7), with any prose without a brace before it and anything after it, is returned exactly |
| NaiveScan.ExtractJsonBlock | crates/spectral-graph/src/extract.rs:101-117 | the brace-counting loop returns the slice where the depth, strings included, first comes back to zero |
| NaiveScan.NaiveIsShortest | crates/spectral-graph/src/extract.rs:101-117 | that is the shortest slice from the first brace with as many closing braces as opening ones, and nothing is returned exactly when there is none |
| NaiveScan.NaiveRecovers | crates/spectral-graph/src/extract.rs:100-117 | of an RFC 8259 object in any surroundings, the naive scanner returns exactly the object precisely when its braces, those in its strings counted too, first balance at its end |
| NaiveScan.ScannersAgree | crates/spectral-graph/src/extract.rs:101-117 | both scanners return the same exactly when the shortest slice that balances outright is the shortest that balances outside strings, or neither exists |
| NaiveScan.AgreeWithoutQuotes | crates/spectral-graph/src/extract.rs:101-117 | in particular when the naive one reads no quote |
| NaiveScan.NaiveTruncates | crates/spectral-graph/src/extract.rs:101-117 | a closing brace inside a key makes the naive scanner cut a valid object short, where the judge's returns it whole |
| Ranks.RankAll | scripts/score_r24.py:36-49 | every value gets (number smaller) + (number equal + 1) / 2 |
| Ranks.RanksRespectOrder | scripts/score_r24.py:36-49 | larger values have larger ranks and ties share one |
| Ranks.RanksSum | scripts/score_r24.py:36-49 | the ranks of n values sum to n (n + 1) / 2, ties or not |
| SignedRank.Wilcoxon | scripts/score_r24.py:52-72 | the outcome is the smaller signed rank sum, the share of sign assignments at least as extreme (up to twenty pairs), and the number of nonzero pairs, as SignedRankValue.OutcomeIs states from the differences |
| SignedRankValue.OutcomeIs | scripts/score_r24.py:52-72 | from the differences alone: W is the smaller of the rank sums of the positive and of the negative ones, ranks being counts of smaller and equal magnitudes, and up to twenty pairs p times 2^n is the number of sign assignments one of whose rank sums is at most W |
| SignedRankValue.OneSided | scripts/score_r24.py:63-72 | n differences of one sign give W = 0 and p = 2^(1 - n) |
| SignedRank.CountHits | scripts/score_r24.py:65-71 | the enumeration visits every sign assignment and counts the extreme ones |
| SignedRank.ProductHasAll | scripts/score_r24.py:67 | no sign assignment is missing from the enumeration |
| SignedRank.ExtremeFlips | scripts/score_r24.py:68-71 | the extreme assignments are closed under flipping all signs |
| SignedRank.PValueFloor | scripts/score_r24.py:63-72 | for n nonzero pairs, 2^(1 - n) <= p <= 1 |
| SignedRank.NegationInvariant | scripts/score_r24.py:52-72 | negating every difference changes nothing in the outcome, zero differences included |
| SignedRank.PermutationInvariant | scripts/score_r24.py:52-72 | nor does listing the pairs in another order |
| Wilson.IntervalInvertsScoreTest | crates/spectral-bench-accuracy/src/compare.rs:137-149 | a rate lies in the interval exactly when the score test does not reject it |
| Wilson.BoundsMean | crates/spectral-graph/src/ledger_stats.rs:34-52 | for every count: no deliveries give the bound 0 and the interval (0, 1), more uses than deliveries the bound 0; otherwise both functions return one lower end, and a rate lies between the ends exactly when the score test does not reject it |
| Wilson.LowerBoundIsLowerEnd | crates/spectral-graph/src/ledger_stats.rs:41-52 | the bound lies between 0 and the observed rate, no clamp changes anything, and it is the lower end of the comparison's interval at the same z |
| Wilson.LowerBoundRisesWithUse | crates/spectral-graph/src/ledger_stats.rs:41-52 | more uses out of the same deliveries raise it strictly |
| Wilson.LowerBoundRisesWithEvidence | crates/spectral-graph/src/ledger_stats.rs:27-34 | counts in the same proportion, on more deliveries, never lower it |
| Wilson.ShippedBoundsOrdered | crates/spectral-graph/src/ledger_stats.rs:35-37 | with the two critical values as shipped, the ledger's bound never exceeds the comparison's lower end |
| Payload.MemorySigningPayload | crates/spectral-core/src/identity.rs:270-291 | the buffer is the tag, the brain id and the three fields after their lengths, the payload of the statement |
| Payload.MemorySigningPayloadV2 | crates/spectral-core/src/identity.rs:298-321 | the same with the key first, the payload of the statement |
| Payload.FederationObjectPayload | crates/spectral-core/src/identity.rs:346-348 | tag and object hash, the payload of the statement |
| Payload.FederationTombstonePayload | crates/spectral-core/src/identity.rs:353-355 | tag, wing, target and time, the payload of the statement |
| Payload.AppendFields | crates/spectral-core/src/identity.rs:328-337 | the loop appends every field after its length |
| Payload.PayloadLayout | crates/spectral-core/src/identity.rs:250-355 | byte for byte: the tag, for a memory the 32 bytes of the brain, then every field after its length in four bytes, lowest first, in the order of the code and with nothing after the last |
| Payload.FieldsRoundTrip | crates/spectral-core/src/identity.rs:328-337 | fields can be read back exactly when each is shorter than 2^32 bytes |
| Payload.KindsNeverCollide | crates/spectral-core/src/identity.rs:250-326 | payloads of different kinds are never equal, whatever their fields |
| Payload.PayloadInjective | crates/spectral-core/src/identity.rs:263-355 | a payload identifies its kind, brain and fields |
| Payload.LongFieldsCollide | crates/spectral-core/src/identity.rs:333 | two different retractions with a field of 2^32 bytes have the same payload |
| GraphExport.ExportNeighborhood | crates/spectral-graph/src/graph_export.rs:154-208 | nodes and edges are the admissible ones, sorted; exported and filtered-out elements add up to the input; ExportLabels spells the labels out |
| GraphExport.NodeExported | crates/spectral-graph/src/graph_export.rs:160-177 | a node is exported exactly when it shows an admissible entity or document, which ExportLabels.ExportedNode restates label by label |
| GraphExport.EdgeExported | crates/spectral-graph/src/graph_export.rs:180-190 | an edge is exported exactly when it shows an admissible triple between admissible entities |
| GraphExport.ExportSorted | crates/spectral-graph/src/graph_export.rs:192-193 | nodes come in id order, edges by source, target and predicate |
| ExportLabels.ExportedNode | crates/spectral-graph/src/graph_export.rs:160-177 | with the labels spelled out: a node is exported exactly when an entity or document admitted at the scope (private admits all, team all but private, org org and public, public only public) is printed as that node, field by field |
| ExportLabels.ExportedEdge | crates/spectral-graph/src/graph_export.rs:180-190 | an edge is exported exactly when an admitted triple between two admitted entities is printed as it, field by field |
| ExportLabels.ExportSizes | crates/spectral-graph/src/graph_export.rs:154-208 | every admitted element is exported exactly once |
| ExportLabels.ExportInOrder | crates/spectral-graph/src/graph_export.rs:192-193 | nodes in id order, edges by source, then target, then predicate |
| ExportLabels.TiesStay | crates/spectral-graph/src/graph_export.rs:192-193 | nodes with one id, and edges with one key, keep their input order |
| Orders.LexMeans | crates/spectral-graph/src/graph_export.rs:192-193 | strings compare by the first character in which they differ, and a proper prefix comes first |
| GraphExport.ExportDependsOnShown | crates/spectral-graph/src/graph_export.rs:147-153 | with distinct ids and edge keys, reordering the input or adding, removing or changing inadmissible elements changes no node, no edge and no count of what is exported |
| GraphExport.NoDanglingEdges | crates/spectral-graph/src/graph_export.rs:150-153 | both ends of every exported edge are exported entities |
| GraphExport.StricterIsSubsequence | crates/spectral-core/src/visibility.rs:87-89 | on every neighbourhood, repeated ids included, a stricter scope exports the looser export with elements deleted, which its own labels determine |
| Retry.WithRetry | crates/spectral-bench-accuracy/src/retry.rs:59-119 | at most min(max_attempts, 10) calls, at most a minute slept, no power of two above the eighth; the outcome reports the last call, retries are calls minus one, and giving up needs the attempts or the minute used up |
| Retry.DelayMeans | crates/spectral-bench-accuracy/src/retry.rs:88-98 | the waits are exactly the values within a quarter of 1, 2, 4, 8 and then always 16 seconds |
| Retry.SleptMeans | crates/spectral-bench-accuracy/src/retry.rs:98-105 | the time slept is the sum of the waits, cut at sixty seconds |
| Retry.TenCallsHappen | crates/spectral-bench-accuracy/src/retry.rs:81-105 | with the least jitter the ninth retry is the one that uses up the minute |
| Retry.KeepFailing | crates/spectral-bench-accuracy/src/retry.rs:59-119 | ten calls is the exact bound: with the least jitter and calls that keep failing, exactly min(max_attempts, 10) are made |

## Left out

- SignedRank.Wilcoxon: above twenty nonzero pairs the source switches to a normal approximation; the model returns no p-value there.
- Compare.ToolsAgree: one direction only, because different discordant counts can share a p-value, below 1 too (McNemar.PValuesCoincide); the counts themselves are characterised both ways by Compare.CountsAgree.
- Rounding of floating-point numbers, and the underflow of 0.5^n beyond n of about 1074.
- The activation, volume and boost formulas (powers and logarithms); the reranker takes activations as given.
- Position-corrected rates, the exposure curve and the other scores of the ledger.
- Clocks, durations and token statistics in the report; texts and telemetry copied into results.
- The parsing of reports.
- Environment switches: the adjacency radius is a parameter within the range the switch accepts.
- Integer types other than those named above, and a debug build's overflow panics on turn indices near 2^63 and on contradictory counters.
- Entity ids, hashes and signatures; only the bytes to be signed are modelled.
- Classification of error messages, which the retry theorems leave arbitrary.
- HTTP actors and judges, prompts, SQL queries, the graph store, ranking, federation sync and redaction.
- Printing of reports and comparisons, command lines, dataset loading and question filters.
