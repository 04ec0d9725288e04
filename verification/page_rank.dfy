/** Power iteration and `Pr.pr_calc`: starting from the uniform vector,
    repeat x := x * P until no component moves by more than the tolerance,
    and report the last iterate with the number of loop rounds. */
module PageRank {
  import opened Seqs
  import opened Vectors
  import opened LinkGraph
  import opened Transition

  /** The convergence tolerance 1e-8 of the loop test, as an exact real. */
  const Tolerance: real := 0.00000001

  datatype Error =
    | EmptyCorpus                     // no records: 1 / N divides by zero
    | NotConverged(iterations: nat)   // the round cap was reached

  datatype Result<T> = Ok(value: T) | Err(error: Error)

  /** The scores `pr_result`: `scores[i]` belongs to `urls[i]`. */
  datatype Ranking = Ranking(urls: seq<Url>, scores: Vector, iterations: nat)

  function Abs(r: real): real {
    if r < 0.0 then -r else r
  }

  /** No component moved by more than `tol` between two iterates. The loop
      keeps going exactly while some component moved up or down by more. */
  predicate Converged(prev: Vector, cur: Vector, tol: real)
    requires |prev| == |cur|
    ensures !Converged(prev, cur, tol) <==>
      exists j :: 0 <= j < |cur| && (prev[j] - cur[j] > tol || cur[j] - prev[j] > tol)
  {
    forall j :: 0 <= j < |cur| ==> Abs(prev[j] - cur[j]) <= tol
  }

  /** The k-th iterate x * P^k. Every step keeps the total mass when the
      rows of P sum to 1, and keeps non-negativity when P is non-negative. */
  function Power(P: Matrix, x: Vector, k: nat): (y: Vector)
    requires IsSquare(P, |x|)
    ensures |y| == |x|
    ensures RowsSumToOne(P) ==> Sum(y) == Sum(x)
    ensures NonNegative(x) && NonNegativeMatrix(P) ==> NonNegative(y)
  {
    if k == 0 then x
    else
      Step(Power(P, x, k - 1), P)
  }

  /** The loop of `pr_calc` with a cap of `maxRounds` rounds. On success
      it returns the first iterate x * P^(k+1) within `tol` of its
      predecessor, together with k, the number of rounds; it fails exactly
      when none of the first maxRounds + 1 tests passes. */
  method PowerIteration(P: Matrix, x0: Vector, tol: real, maxRounds: nat)
    returns (r: Result<(Vector, nat)>)
    requires IsSquare(P, |x0|)
    ensures r.Ok? ==>
      var (x, k) := r.value;
      && k <= maxRounds
      && x == Power(P, x0, k + 1)
      && Converged(Power(P, x0, k), x, tol)
      && forall i :: 0 <= i < k ==> !Converged(Power(P, x0, i), Power(P, x0, i + 1), tol)
    ensures r.Err? ==>
      && r.error == NotConverged(maxRounds)
      && forall i :: 0 <= i <= maxRounds ==> !Converged(Power(P, x0, i), Power(P, x0, i + 1), tol)
  {
    var prev := x0;
    var cur := Step(x0, P);
    var k: nat := 0;
    while !Converged(prev, cur, tol)
      invariant k <= maxRounds
      invariant prev == Power(P, x0, k) && cur == Power(P, x0, k + 1)
      invariant forall i :: 0 <= i < k ==> !Converged(Power(P, x0, i), Power(P, x0, i + 1), tol)
      decreases maxRounds - k
    {
      if k == maxRounds {
        return Err(NotConverged(maxRounds));
      }
      k := k + 1;
      prev := cur;
      cur := Step(cur, P);
    }
    return Ok((cur, k));
  }

  /** `Pr.pr_calc` over in-memory records, with damping `alpha` and a cap of
      `maxRounds` loop rounds. The result is the converged iterate of the
      transition matrix from the uniform vector: a vector summing to 1, and
      a probability distribution when 0 <= alpha <= 1. No earlier iterate
      passed the test, and it fails only when none of the first
      maxRounds + 1 tests passes. */
  method PrCalc(records: seq<Record>, alpha: real, maxRounds: nat) returns (r: Result<Ranking>)
    ensures |records| == 0 <==> r == Err(EmptyCorpus)
    ensures r.Ok? ==>
      var g := UrlExtractor(records);
      var P, x0 := TransitionMatrix(g, alpha), Uniform(|g.vertices|);
      forall i :: 0 <= i < r.value.iterations ==> !Converged(Power(P, x0, i), Power(P, x0, i + 1), Tolerance)
    ensures r.Ok? ==>
      var g := UrlExtractor(records);
      var n := |g.vertices|;
      && n > 0
      && r.value.urls == g.vertices
      && |r.value.scores| == n
      && Sum(r.value.scores) == 1.0
      && (0.0 <= alpha <= 1.0 ==> IsDistribution(r.value.scores))
      && r.value.iterations <= maxRounds
      && r.value.scores == Power(TransitionMatrix(g, alpha), Uniform(n), r.value.iterations + 1)
      && Converged(Power(TransitionMatrix(g, alpha), Uniform(n), r.value.iterations),
                   r.value.scores, Tolerance)
    ensures r.Err? && |records| > 0 ==>
      var g := UrlExtractor(records);
      var P, x0 := TransitionMatrix(g, alpha), Uniform(|g.vertices|);
      && r.error == NotConverged(maxRounds)
      && forall i :: 0 <= i <= maxRounds ==> !Converged(Power(P, x0, i), Power(P, x0, i + 1), Tolerance)
  {
    if |records| == 0 {
      return Err(EmptyCorpus);
    }
    var g := UrlExtractor(records);
    var n := |g.vertices|;
    var P := TransitionMatrix(g, alpha);
    var x0 := Uniform(n);
    var run := PowerIteration(P, x0, Tolerance, maxRounds);
    match run {
      case Err(e) =>
        return Err(e);
      case Ok((x, k)) =>
        return Ok(Ranking(g.vertices, x, k));
    }
  }

  /** Two pages linking to each other, alpha = 0.85: each row puts 0.075 on
      itself and 0.925 on the other page, the uniform start vector is already
      fixed by one step, so the loop runs no round and both scores are 1/2. */
  lemma MutualLinks()
    ensures var g := UrlExtractor([Record("A", ["B"]), Record("B", ["A"])]);
      var P := TransitionMatrix(g, 0.85);
      && g.vertices == ["A", "B"]
      && P == [[0.075, 0.925], [0.925, 0.075]]
      && Power(P, Uniform(2), 1) == [0.5, 0.5]
      && Converged(Power(P, Uniform(2), 0), Power(P, Uniform(2), 1), Tolerance)
  {
    var g := UrlExtractor([Record("A", ["B"]), Record("B", ["A"])]);
    MutualLinksGraph();
    var P := TransitionMatrix(g, 0.85);
    MutualLinksMatrix();
    var u := Uniform(2);
    assert u == [0.5, 0.5];
    MutualLinksFixed();
    assert Power(P, u, 1) == Step(u, P);
  }

  /** The uniform vector is fixed by the mutual-links matrix. */
  lemma MutualLinksFixed()
    ensures Step([0.5, 0.5], [[0.075, 0.925], [0.925, 0.075]]) == [0.5, 0.5]
  {
    var P := [[0.075, 0.925], [0.925, 0.075]];
    var y := Step([0.5, 0.5], P);
    assert Column(P, 0) == [0.075, 0.925];
    assert Column(P, 1) == [0.925, 0.075];
    assert y[0] == Dot([0.5, 0.5], [0.075, 0.925]) == 0.5;
    assert y[1] == Dot([0.5, 0.5], [0.925, 0.075]) == 0.5;
  }

  /** The graph of the two mutually linking pages. */
  lemma MutualLinksGraph()
    ensures UrlExtractor([Record("A", ["B"]), Record("B", ["A"])]) ==
              Graph(["A", "B"], map["A" := ["B"], "B" := ["A"]])
  {
    var r0, r1 := Record("A", ["B"]), Record("B", ["A"]);
    var records := [r0, r1];
    assert records[..1] == [r0];
    assert [r0][..0] == [];
    assert Extend([], ["A", "B"]) == ["A", "B"] by {
      assert ["A", "B"][1..] == ["B"];
      assert "B" != "A";
    }
    assert VertexList([r0]) == ["A", "B"];
    assert Extend(["A", "B"], ["B", "A"]) == ["A", "B"] by {
      assert ["B", "A"][1..] == ["A"];
    }
    assert VertexList(records) == ["A", "B"];
    assert Dedup(["B"]) == ["B"];
    assert Dedup(["A"]) == ["A"];
    assert Adjacency([r0]) == map["A" := ["B"]];
    assert Adjacency(records) == map["A" := ["B"], "B" := ["A"]];
  }

  /** Its transition matrix at alpha = 0.85. */
  lemma MutualLinksMatrix()
    ensures TransitionMatrix(Graph(["A", "B"], map["A" := ["B"], "B" := ["A"]]), 0.85) ==
              [[0.075, 0.925], [0.925, 0.075]]
  {
    var g := Graph(["A", "B"], map["A" := ["B"], "B" := ["A"]]);
    var vs := g.vertices;
    assert "A" != "B";
    assert HasLinks(g, "A") && HasLinks(g, "B");
    MatrixRow(g, 0.85, 0);
    MatrixRow(g, 0.85, 1);
    assert Damped(0.85, 2) == 0.075;
    assert Share(0.85, 1) == 0.85;
    var r0 := LinkedRow(vs, ["B"], 0.85);
    assert r0[0] == 0.075 && r0[1] == 0.925;
    assert r0 == [0.075, 0.925];
    var r1 := LinkedRow(vs, ["A"], 0.85);
    assert r1[0] == 0.925 && r1[1] == 0.075;
    assert r1 == [0.925, 0.075];
  }
}
