# PageRank over a crawled link graph — a Dafny model

This project models the PageRank core of a small search application, the
class `Pr` in `Assignments5/A5/models/Pr.py`. It has two parts:

- **`url_extractor`** reads the crawled pages. Each page is a record with a
  `url` and an outbound link list `url_lists`. It returns two things: the set
  of all URLs, meaning every crawled URL plus every link target, and a map
  from each crawled URL to its distinct links.
- **`pr_calc`** builds an N×N transition matrix over those URLs with damping
  `alpha`, as a data frame:
  - A URL with links has `(1-alpha)/N` in every column, plus `alpha/k` in the
    column of each of its k distinct links.
  - Every other row is still all NaN after that loop, and is then set
    uniformly to `1/N`. This covers crawled pages with no links and link
    targets that were never crawled. The uniform row is not damped.
  - It then runs power iteration `x := x·P` from the uniform vector until no
    component moves by more than `1e-8`. It prints the number of loop rounds
    (Pr.py:66) and stores only the final vector, as the scores in
    `pr_result` (Pr.py:69). The model returns the round count alongside the
    scores.

The model works on in-memory records and exact `real` arithmetic:

| file | module | models |
|---|---|---|
| `seqs.dfy` | `Seqs` | duplicate-free lists, the list view of Python's `set` |
| `vectors.dfy` | `Vectors` | sums, inner products, the step `x·P`, and the facts that it keeps total mass and non-negativity |
| `link_graph.dfy` | `LinkGraph` | `url_extractor`: vertex list, adjacency map, last-record-wins overwrite |
| `transition.dfy` | `Transition` | the transition matrix: linked rows, unset rows (NaN), the uniform fill, and row-stochasticity |
| `page_rank.dfy` | `PageRank` | the iterates `x·P^k`, the capped convergence loop, `pr_calc`, and the two-page example |

Choices made where the code leaves things open:

- **Vertex order.** Python's `list(set(...))` has no fixed order. The model
  lists the vertices in order of first occurrence. No matrix or iteration
  fact depends on that choice, because those lemmas assume only a
  duplicate-free vertex list that contains every source and every target.
- **Deduplicated links.** `list(set(url_lists))` is modelled in the same
  first-occurrence order.
- **Record order.** The order of records is the order in which the folder is
  globbed. For a URL crawled more than once, the last record fixes its
  adjacency entry (`LastIndex`). Links from earlier records still stay
  vertices, since they were already added to the URL set.
- **Empty corpus.** With no records, the code divides by `len(all_urls) == 0`
  and raises `ZeroDivisionError`. The model returns `Err(EmptyCorpus)` instead
  of requiring a non-empty input.
- **Loop cap.** The code's loop has no cap. The model takes `maxRounds` and
  returns `Err(NotConverged(maxRounds))` when the test has failed after
  `maxRounds` rounds. With a large enough cap, the success result is exactly
  the uncapped loop's result.

Notes on the code:

- Besides I/O and JSON errors, the code raises three kinds of error.
  `KeyError` comes from a record without a `url` key (Pr.py:23) or without a
  `url_lists` key (Pr.py:25). `TypeError` comes from a `url_lists` that is
  null or otherwise not iterable (Pr.py:25). `ZeroDivisionError` comes from
  the empty corpus above. Nothing raises an
  error when the loop does not converge, and the loop has no round limit.
- The rows of the matrix, not its columns, sum to 1.
- The dangling row is the literal undamped `1/N` row, not the textbook
  redistribution of dangling mass.

## Model

| member | source | states |
|---|---|---|
| `LinkGraph.Dedup` | Assignments5/A5/models/Pr.py:28 | `list(set(links))`: no repeats, exactly the same URLs as the input, and empty exactly when the input is empty |
| `LinkGraph.LastIndex` | Assignments5/A5/models/Pr.py:20-28 | the record whose write to `url_maps[url]` survives: it has source `u`, no later record has source `u`, and it is -1 exactly when `u` was never crawled |
| `LinkGraph.VertexList` | Assignments5/A5/models/Pr.py:17-30 | `all_urls` as a list: no repeats, and a URL is in it exactly when it is some record's source or appears in some record's link list |
| `LinkGraph.Adjacency` | Assignments5/A5/models/Pr.py:16-28 | `url_maps`: keys are exactly the crawled source URLs, and each value is the deduplicated link list of the last record with that source |
| `LinkGraph.UrlExtractor` | Assignments5/A5/models/Pr.py:14-31 | the extracted graph is valid: distinct vertices, distinct links, every source and target a vertex. Vertices and keys are as above. Each key's link set equals its last record's `url_lists` as a set. There is at least one vertex exactly when there is at least one record |
| `Transition.HasLinksIffSomeLink` | Assignments5/A5/models/Pr.py:41-42 | the truth test on `url_maps[url]`: it holds exactly when `u` is a crawled URL whose link list has at least one element |
| `Transition.LinkedRow` | Assignments5/A5/models/Pr.py:42-47 | the row of a URL with links sums to exactly 1 when the vertices are distinct, the links are distinct and every link is a vertex. It is non-negative when `0 <= alpha <= 1`. Its entry j is `Damped` = `(1-alpha)*(1/N)`, plus `Share` = `alpha*(1/k)` when vertex j is one of the k links |
| `Transition.MatrixRow` | Assignments5/A5/models/Pr.py:41-50 | row i of the matrix is the linked row of vertex i when it has links, and the uniform `1/N` row otherwise |
| `Transition.LinkRows` | Assignments5/A5/models/Pr.py:41-47 | after the link loop, a row is written exactly for the vertices that are crawled and have a non-empty link list; every other row is still unset (NaN) |
| `Transition.FillDangling` | Assignments5/A5/models/Pr.py:50 | rows the loop filled come through unchanged; every unset row becomes the uniform `1/N` row |
| `Transition.SumSpread` | Assignments5/A5/models/Pr.py:44-47 | a row with `base` everywhere plus `bonus` on the link columns sums to N·base plus one bonus per vertex that is a link |
| `Transition.DampedTotal` | Assignments5/A5/models/Pr.py:44 | N columns of `(1-alpha)·(1/N)` add up to `1-alpha` |
| `Transition.ShareTotal` | Assignments5/A5/models/Pr.py:46-47 | k link shares `alpha·(1/k)` add up to `alpha` |
| `Transition.SpreadStochastic` | Assignments5/A5/models/Pr.py:42-47 | with distinct vertices, distinct links and every link a vertex, the N damped weights plus the k link shares add up to `(1-alpha) + alpha = 1` |
| `Transition.SpreadNonNegative` | Assignments5/A5/models/Pr.py:44-47 | with `0 <= alpha <= 1`, the damped base and the link shares are non-negative, so every entry is |
| `Transition.TransitionRows` | Assignments5/A5/models/Pr.py:41-50 | the filled matrix is N×N, every row sums to 1, and every entry is non-negative when `0 <= alpha <= 1` |
| `Transition.TransitionMatrix` | Assignments5/A5/models/Pr.py:38-50 | the transition matrix `P` of a valid, non-empty graph is square and row-stochastic; it is non-negative for `0 <= alpha <= 1` |
| `Transition.EntryRule` | Assignments5/A5/models/Pr.py:42-50 | entry `P[i][j]`: `(1-alpha)/N + alpha/k` if vertex j is one of vertex i's k links; `(1-alpha)/N` if vertex i has links but not to j; `1/N` if vertex i has no links |
| `Transition.LinkedEntryOfMatrix` | Assignments5/A5/models/Pr.py:44-47 | for a vertex with links, entry `P[i][j]` is `(1-alpha)/N + alpha/k` when vertex j is a link and `(1-alpha)/N` otherwise |
| `Transition.DanglingEntryOfMatrix` | Assignments5/A5/models/Pr.py:50 | for a vertex without links, every entry `P[i][j]` is `1/N` |
| `Transition.LinkedEntry` | Assignments5/A5/models/Pr.py:44-47 | entry j of a linked row in the code's literal arithmetic `(1-alpha)*(1/N)` plus `alpha*(1/k)` on a link column |
| `Transition.DanglingRows` | Assignments5/A5/models/Pr.py:28-50 | on an extracted graph, a row is uniform `1/N` when its URL was never crawled or its last record has an empty link list; otherwise it is the linked row of that record's distinct links |
| `Vectors.Uniform` | Assignments5/A5/models/Pr.py:53 | the start vector `x0`, `1/N` per vertex, is a probability distribution |
| `Vectors.ProductKeepsSum` | Assignments5/A5/models/Pr.py:58-63 | `x·P` has the same total as `x` when every row of `P` sums to 1 |
| `Vectors.ProductKeepsNonNegative` | Assignments5/A5/models/Pr.py:58-63 | `x·P` is non-negative when `x` and `P` are |
| `Vectors.ProductIsSum` | Assignments5/A5/models/Pr.py:58-63 | component j of `x·P` is the sum over i of `x[i]·P[i][j]`, a termwise reference formula independent of the recursive inner product |
| `Vectors.ProductInvariants` | Assignments5/A5/models/Pr.py:58-63 | `x·P` keeps the total of `x` when every row of `P` sums to 1, and keeps non-negativity when `x` and `P` are non-negative |
| `Vectors.Step` | Assignments5/A5/models/Pr.py:58-63 | one power-iteration step keeps the sum under a row-stochastic `P`, keeps non-negativity under a non-negative `P`, and so maps distributions to distributions |
| `PageRank.Converged` | Assignments5/A5/models/Pr.py:60 | the loop test: the loop goes on exactly when some component moved up or down by more than the tolerance |
| `PageRank.Power` | Assignments5/A5/models/Pr.py:57-63 | every iterate `x·P^k` has N components, keeps the start vector's total under a row-stochastic `P`, and stays non-negative under a non-negative `P` |
| `PageRank.PowerIteration` | Assignments5/A5/models/Pr.py:56-63 | on success it returns `x0·P^(k+1)` and k. Here k is the number of loop rounds, k <= cap, and `x0·P^(k+1)` is within the tolerance of `x0·P^k` componentwise. No earlier pair of iterates passed the test. It fails exactly when none of the first cap+1 tests passes |
| `PageRank.PrCalc` | Assignments5/A5/models/Pr.py:33-69 | it fails with `EmptyCorpus` exactly when there are no records. On success the scores are indexed by the vertex list and sum to 1, and for `0 <= alpha <= 1` they form a probability distribution. The scores are `x0·P^(k+1)`, where k <= cap is the reported round count. They are within `1e-8` of `x0·P^k`, and no earlier pair of iterates passed the test. Any other failure is `NotConverged(cap)`, and it happens exactly when none of the first cap+1 tests passes |
| `PageRank.MutualLinksGraph` | Assignments5/A5/models/Pr.py:14-31 | records A→[B] and B→[A] give vertices [A, B] and adjacency A↦[B], B↦[A] |
| `PageRank.MutualLinksMatrix` | Assignments5/A5/models/Pr.py:38-50 | with `alpha = 0.85` that graph's matrix is `[[0.075, 0.925], [0.925, 0.075]]` |
| `PageRank.MutualLinksFixed` | Assignments5/A5/models/Pr.py:58 | the uniform vector `[0.5, 0.5]` is fixed by that matrix |
| `PageRank.MutualLinks` | Assignments5/A5/models/Pr.py:33-63 | for the two mutually linking pages, the first convergence test already passes, with both scores 1/2, so the loop runs no round |

## Left out

- Floating point. The matrix, the iteration and the `1e-8` test use exact reals. Rounding can make the real loop stop earlier or later than the model.
- The NaN fill of pandas and the `np.around` print at Pr.py:66. Unset rows are the `Unset` row value, and printing is output only.
- Reading the crawl folder (`glob`, `open`, `json.load`) and the constructor's folder path. Records are an input sequence, in glob order.
- Records without a `url` or `url_lists` key, or whose `url_lists` is not a list of URLs. The code raises `KeyError` on a missing key and `TypeError` on a null list, and iterates the characters of a string as if each were a URL; here the record type always has both fields and the links are a sequence of URLs.
- Termination of the uncapped loop. It depends on spectral properties of the chain and is not proved. The loop takes a round cap instead.
- `Assignments5/A5/models/Elastic_Pr.py` and `Assignments5/A5/models/TfIdf_Ranker.py`: index creation, bulk indexing, search calls and pickle caching against an external search service. Their only arithmetic is the sum `pagerank + tfidf_score`.
- `Assignments5/A5/app.py`: request handling, template rendering, and query highlighting built on a regular-expression library that is not modelled.
