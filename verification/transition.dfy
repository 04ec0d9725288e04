/** The transition matrix of `Pr.pr_calc`: an N-by-N matrix over the vertex
    order, with a damped row for each crawled vertex that has links and a
    uniform 1/N row for every other vertex. */
module Transition {
  import opened Seqs
  import opened Vectors
  import opened LinkGraph

  /** A matrix row while the matrix is being filled: `Unset` is a row the
      link loop never wrote (all NaN in the data frame). */
  datatype Row = Unset | Filled(entries: Vector)

  /** `u` is a crawled vertex whose link list is non-empty, the truth test
      on `url_maps[url]`. */
  predicate HasLinks(g: Graph, u: Url) {
    u in g.adjacency && |g.adjacency[u]| > 0
  }

  /** The truth test holds exactly when `u` is crawled and links somewhere. */
  lemma HasLinksIffSomeLink(g: Graph, u: Url)
    ensures HasLinks(g, u) <==> u in g.adjacency && exists v :: v in g.adjacency[u]
  {
    if u in g.adjacency && |g.adjacency[u]| > 0 {
      assert g.adjacency[u][0] in g.adjacency[u];
    }
  }

  /** Every column gets `base`, and a column whose vertex is in `links` gets
      `bonus` on top. */
  function Spread(vs: seq<Url>, links: seq<Url>, base: real, bonus: real): Vector {
    seq(|vs|, j requires 0 <= j < |vs| => base + (if vs[j] in links then bonus else 0.0))
  }

  /** The row of a vertex with distinct links `links`: (1 - alpha) / N in
      every column, plus alpha / k in the column of each of the k links. It
      sums to 1 when the vertices and links are distinct and every link is a
      vertex, and it is non-negative when 0 <= alpha <= 1. */
  function LinkedRow(vs: seq<Url>, links: seq<Url>, alpha: real): (row: Vector)
    requires |vs| > 0 && |links| > 0
    ensures |row| == |vs|
    // The entries in terms of `Damped` and `Share`, so that callers need not
    // unfold `Spread`; this keeps the entry lemmas below cheap to prove.
    ensures forall j :: 0 <= j < |vs| ==>
      row[j] == Damped(alpha, |vs|) + (if vs[j] in links then Share(alpha, |links|) else 0.0)
    ensures NoDup(vs) && NoDup(links) && (forall u :: u in links ==> u in vs) ==> Sum(row) == 1.0
    ensures 0.0 <= alpha <= 1.0 ==> NonNegative(row)
  {
    SpreadInvariants(vs, links, alpha);
    Spread(vs, links, Damped(alpha, |vs|), Share(alpha, |links|))
  }

  /** The damped teleport weight (1 - alpha) * (1 / n). */
  function Damped(alpha: real, n: nat): real
    requires n > 0
  {
    (1.0 - alpha) * (1.0 / n as real)
  }

  /** One link's share alpha * (1 / k) of the followed-link weight. */
  function Share(alpha: real, k: nat): real
    requires k > 0
  {
    alpha * (1.0 / k as real)
  }

  /** The rows after the link loop: filled exactly for the vertices with links. */
  function LinkRows(g: Graph, alpha: real): (rows: seq<Row>)
    requires |g.vertices| > 0
    ensures |rows| == |g.vertices|
    ensures forall i :: 0 <= i < |rows| ==> (rows[i].Filled? <==> HasLinks(g, g.vertices[i]))
  {
    seq(|g.vertices|, i requires 0 <= i < |g.vertices| =>
      var u := g.vertices[i];
      if HasLinks(g, u) then Filled(LinkedRow(g.vertices, g.adjacency[u], alpha)) else Unset)
  }

  /** Every row still unset becomes uniform 1/n; filled rows are kept. */
  function FillDangling(rows: seq<Row>, n: nat): (P: Matrix)
    requires n > 0
    ensures |P| == |rows|
    ensures forall i :: 0 <= i < |rows| && rows[i].Filled? ==> P[i] == rows[i].entries
    ensures forall i :: 0 <= i < |rows| && rows[i].Unset? ==> P[i] == Uniform(n)
  {
    seq(|rows|, i requires 0 <= i < |rows| =>
      if rows[i].Unset? then Uniform(n) else rows[i].entries)
  }

  /** The transition matrix of a valid, non-empty graph: square, every row
      sums to 1, and every entry is non-negative when 0 <= alpha <= 1. */
  function TransitionMatrix(g: Graph, alpha: real): (P: Matrix)
    requires g.Valid() && |g.vertices| > 0
    ensures IsSquare(P, |g.vertices|)
    ensures RowsSumToOne(P)
    ensures 0.0 <= alpha <= 1.0 ==> NonNegativeMatrix(P)
  {
    TransitionRows(g, alpha);
    FillDangling(LinkRows(g, alpha), |g.vertices|)
  }

  /** A spread row sums to N copies of `base` plus one `bonus` per column
      whose vertex is in `links`. */
  lemma {:induction false} SumSpread(vs: seq<Url>, links: seq<Url>, base: real, bonus: real)
    ensures Sum(Spread(vs, links, base, bonus)) ==
              Sum(Constant(|vs|, base)) + Sum(Constant(Count(vs, links), bonus))
  {
    if |vs| > 0 {
      var k := |vs| - 1;
      var row := Spread(vs, links, base, bonus);
      assert row[..k] == Spread(vs[..k], links, base, bonus);
      SumSpread(vs[..k], links, base, bonus);
      assert Constant(|vs|, base)[..k] == Constant(k, base);
      var c := Count(vs[..k], links);
      if vs[k] in links {
        assert Constant(c + 1, bonus)[..c] == Constant(c, bonus);
      }
    }
  }

  /** The two facts about the linked row, as implications. */
  lemma SpreadInvariants(vs: seq<Url>, links: seq<Url>, alpha: real)
    requires |vs| > 0 && |links| > 0
    ensures var row := Spread(vs, links, Damped(alpha, |vs|), Share(alpha, |links|));
      && (NoDup(vs) && NoDup(links) && (forall u :: u in links ==> u in vs) ==> Sum(row) == 1.0)
      && (0.0 <= alpha <= 1.0 ==> NonNegative(row))
  {
    if NoDup(vs) && NoDup(links) && (forall u :: u in links ==> u in vs) {
      SpreadStochastic(vs, links, alpha);
    }
    if 0.0 <= alpha <= 1.0 {
      SpreadNonNegative(vs, links, alpha);
    }
  }

  /** The linked row sums to exactly 1. This needs the links to be distinct
      and all to be vertices, and the vertices to be distinct. */
  lemma SpreadStochastic(vs: seq<Url>, links: seq<Url>, alpha: real)
    requires |vs| > 0 && |links| > 0
    requires NoDup(vs) && NoDup(links)
    requires forall u :: u in links ==> u in vs
    ensures Sum(Spread(vs, links, Damped(alpha, |vs|), Share(alpha, |links|))) == 1.0
  {
    var d, b := Damped(alpha, |vs|), Share(alpha, |links|);
    SumSpread(vs, links, d, b);
    CountOfSubset(vs, links);
    DampedTotal(alpha, |vs|);
    ShareTotal(alpha, |links|);
    calc {
      Sum(Spread(vs, links, d, b));
      Sum(Constant(|vs|, d)) + Sum(Constant(|links|, b));
      (1.0 - alpha) + alpha;
    }
  }

  /** N columns of the damped weight add up to 1 - alpha. */
  lemma DampedTotal(alpha: real, n: nat)
    requires n > 0
    ensures Sum(Constant(n, Damped(alpha, n))) == 1.0 - alpha
  {
    SumConstant(n, Damped(alpha, n));
    ScaleByInverse(n as real, 1.0 - alpha);
  }

  /** The k shares of the link weight add up to alpha. */
  lemma ShareTotal(alpha: real, k: nat)
    requires k > 0
    ensures Sum(Constant(k, Share(alpha, k))) == alpha
  {
    SumConstant(k, Share(alpha, k));
    ScaleByInverse(k as real, alpha);
  }

  /** With 0 <= alpha <= 1 every entry of the linked row is non-negative. */
  lemma SpreadNonNegative(vs: seq<Url>, links: seq<Url>, alpha: real)
    requires |vs| > 0 && |links| > 0
    requires 0.0 <= alpha <= 1.0
    ensures NonNegative(Spread(vs, links, Damped(alpha, |vs|), Share(alpha, |links|)))
  {
    var base := Damped(alpha, |vs|);
    var bonus := Share(alpha, |links|);
    assert 0.0 <= base && 0.0 <= bonus;
  }

  /** n * (c * (1 / n)) == c for positive n. */
  lemma ScaleByInverse(n: real, c: real)
    requires n > 0.0
    ensures n * (c * (1.0 / n)) == c
  {
    var inv := 1.0 / n;
    assert n * inv == 1.0;
    calc {
      n * (c * inv);
      c * (n * inv);
      c;
    }
  }

  /** Row by row, the filled-in matrix is stochastic. */
  lemma TransitionRows(g: Graph, alpha: real)
    requires g.Valid() && |g.vertices| > 0
    ensures var P := FillDangling(LinkRows(g, alpha), |g.vertices|);
      && IsSquare(P, |g.vertices|)
      && RowsSumToOne(P)
      && (0.0 <= alpha <= 1.0 ==> NonNegativeMatrix(P))
  {
    var vs := g.vertices;
    var rows := LinkRows(g, alpha);
    var P := FillDangling(rows, |vs|);
    forall i | 0 <= i < |vs|
      ensures |P[i]| == |vs| && Sum(P[i]) == 1.0
      ensures 0.0 <= alpha <= 1.0 ==> NonNegative(P[i])
    {
      if HasLinks(g, vs[i]) {
        var row := LinkedRow(vs, g.adjacency[vs[i]], alpha);
      }
    }
  }

  /** The entry rule: P[i][j] is (1 - alpha) / N + alpha / k when vertex j
      is one of the k links of vertex i, (1 - alpha) / N when vertex i has
      links but not to j, and 1 / N when vertex i has none. */
  lemma EntryRule(g: Graph, alpha: real, i: nat, j: nat)
    requires g.Valid() && 0 <= i < |g.vertices| && 0 <= j < |g.vertices|
    ensures TransitionMatrix(g, alpha)[i][j] ==
        if !HasLinks(g, g.vertices[i]) then 1.0 / |g.vertices| as real
        else if g.vertices[j] in g.adjacency[g.vertices[i]] then
          (1.0 - alpha) * (1.0 / |g.vertices| as real) + alpha * (1.0 / |g.adjacency[g.vertices[i]]| as real)
        else (1.0 - alpha) * (1.0 / |g.vertices| as real)
  {
    if HasLinks(g, g.vertices[i]) {
      LinkedEntryOfMatrix(g, alpha, i, j);
    } else {
      DanglingEntryOfMatrix(g, alpha, i, j);
    }
  }

  /** The entry rule for a vertex with links. */
  lemma LinkedEntryOfMatrix(g: Graph, alpha: real, i: nat, j: nat)
    requires g.Valid() && 0 <= i < |g.vertices| && 0 <= j < |g.vertices|
    requires HasLinks(g, g.vertices[i])
    ensures TransitionMatrix(g, alpha)[i][j] ==
      if g.vertices[j] in g.adjacency[g.vertices[i]] then
        (1.0 - alpha) * (1.0 / |g.vertices| as real) + alpha * (1.0 / |g.adjacency[g.vertices[i]]| as real)
      else (1.0 - alpha) * (1.0 / |g.vertices| as real)
  {
    var links := g.adjacency[g.vertices[i]];
    var row := LinkedRow(g.vertices, links, alpha);
    assert TransitionMatrix(g, alpha)[i] == row by {
      MatrixRow(g, alpha, i);
    }
    LinkedEntry(g.vertices, links, alpha, j);
  }

  /** The entry rule for a vertex without links. */
  lemma DanglingEntryOfMatrix(g: Graph, alpha: real, i: nat, j: nat)
    requires g.Valid() && 0 <= i < |g.vertices| && 0 <= j < |g.vertices|
    requires !HasLinks(g, g.vertices[i])
    ensures TransitionMatrix(g, alpha)[i][j] == 1.0 / |g.vertices| as real
  {
    MatrixRow(g, alpha, i);
    assert Uniform(|g.vertices|)[j] == 1.0 / |g.vertices| as real;
  }

  /** Entry `j` of a linked row in the literal arithmetic of the matrix fill. */
  lemma LinkedEntry(vs: seq<Url>, links: seq<Url>, alpha: real, j: nat)
    requires |vs| > 0 && |links| > 0 && j < |vs|
    ensures LinkedRow(vs, links, alpha)[j] ==
      if vs[j] in links then (1.0 - alpha) * (1.0 / |vs| as real) + alpha * (1.0 / |links| as real)
      else (1.0 - alpha) * (1.0 / |vs| as real)
  {
    var d, b := Damped(alpha, |vs|), Share(alpha, |links|);
    assert LinkedRow(vs, links, alpha)[j] == d + (if vs[j] in links then b else 0.0);
    assert d == (1.0 - alpha) * (1.0 / |vs| as real);
    assert b == alpha * (1.0 / |links| as real);
  }

  /** Row i of the transition matrix: the linked row when vertex i has
      links, the uniform row otherwise. */
  lemma MatrixRow(g: Graph, alpha: real, i: nat)
    requires g.Valid() && 0 <= i < |g.vertices|
    ensures TransitionMatrix(g, alpha)[i] ==
      if HasLinks(g, g.vertices[i]) then LinkedRow(g.vertices, g.adjacency[g.vertices[i]], alpha)
      else Uniform(|g.vertices|)
  {
    var rows := LinkRows(g, alpha);
    assert TransitionMatrix(g, alpha) == FillDangling(rows, |g.vertices|);
  }

  /** On an extracted graph the uniform rows are exactly those of the link
      targets never crawled and of the URLs whose last record has no links;
      every other row is the linked row of the last record's distinct links. */
  lemma DanglingRows(records: seq<Record>, alpha: real, i: nat)
    requires |records| > 0
    requires i < |UrlExtractor(records).vertices|
    ensures var g := UrlExtractor(records);
      var u := g.vertices[i];
      var last := LastIndex(records, u);
      var P := TransitionMatrix(g, alpha);
      if last == -1 || |records[last].urlLists| == 0 then
        P[i] == Uniform(|g.vertices|)
      else
        P[i] == LinkedRow(g.vertices, Dedup(records[last].urlLists), alpha)
  {
    var g := UrlExtractor(records);
    var u := g.vertices[i];
    var last := LastIndex(records, u);
    if last != -1 {
      assert u in g.adjacency;
      assert g.adjacency[u] == Dedup(records[last].urlLists);
    }
  }
}
