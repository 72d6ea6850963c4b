/** The classical reference solver of check.py (get_challenge_solutions, its brute-force
    and balanced parts) and the shot tally of print_shots. A graph is its node count n,
    with nodes 0 .. n-1, and its edge list as networkx reports it: every undirected edge
    once, in one orientation. */
module Challenge {
  import opened Gates
  import opened CutSize

  // ---------------------------------------------------------------- partitions

  /** 2 to the power n: the number of partitions the solver enumerates. */
  function Pow2(n: nat): (p: nat)
    ensures p >= 1
  {
    if n == 0 then 1 else 2 * Pow2(n - 1)
  }

  /** Every entry is 0 or 1. */
  predicate Binary(x: seq<nat>)
  {
    forall i :: 0 <= i < |x| ==> x[i] <= 1
  }

  /** `reversed(bin(b)[2:].zfill(n))` read digit by digit: the n low bits of b, least
      significant first. The solver only calls it with b < 2^n, where zfill pads to
      exactly n digits. */
  function Bits(b: nat, n: nat): (x: seq<nat>)
    ensures |x| == n
  {
    if n == 0 then [] else [b % 2] + Bits(b / 2, n - 1)
  }

  /** Every entry of a bit list is a bit. */
  lemma {:induction false} BitsBinary(b: nat, n: nat)
    ensures Binary(Bits(b, n))
  {
    if n > 0 {
      BitsBinary(b / 2, n - 1);
      assert Bits(b, n)[1..] == Bits(b / 2, n - 1);
    }
  }

  /** The number a little-endian bit list stands for. */
  function Value(x: seq<nat>): nat
  {
    if x == [] then 0 else x[0] + 2 * Value(x[1..])
  }

  /** Reading the bits back gives the partition number. */
  lemma {:induction false} BitsValue(b: nat, n: nat)
    requires b < Pow2(n)
    ensures Value(Bits(b, n)) == b
  {
    if n > 0 {
      BitsValue(b / 2, n - 1);
      assert Bits(b, n)[1..] == Bits(b / 2, n - 1);
    }
  }

  /** ... and writing a bit list out and reading it again gives the list back. */
  lemma {:induction false} ValueBits(x: seq<nat>)
    requires Binary(x)
    ensures Value(x) < Pow2(|x|)
    ensures Bits(Value(x), |x|) == x
  {
    if x != [] {
      ValueBits(x[1..]);
      assert x == [x[0]] + x[1..];
    }
  }

  /** Distinct partition numbers below 2^n give distinct bit lists. */
  lemma BitsInjective(b1: nat, b2: nat, n: nat)
    requires b1 < Pow2(n) && b2 < Pow2(n)
    requires Bits(b1, n) == Bits(b2, n)
    ensures b1 == b2
  {
    BitsValue(b1, n);
    BitsValue(b2, n);
  }

  /** `"".join(str(i) for i in x)`: the bit string of a list of bits. */
  function Spell(x: seq<nat>): (bs: seq<char>)
    ensures |bs| == |x|
  {
    seq(|x|, i requires 0 <= i < |x| => if x[i] == 0 then '0' else '1')
  }

  /** Different binary lists of one length spell different strings. */
  lemma SpellInjective(x: seq<nat>, y: seq<nat>)
    requires Binary(x) && Binary(y) && |x| == |y|
    requires Spell(x) == Spell(y)
    ensures x == y
  {
    forall i | 0 <= i < |x| ensures x[i] == y[i] {
      assert Spell(x)[i] == Spell(y)[i];
    }
  }

  /** The number of positions holding d: the size of side d of the partition. */
  function Count(x: seq<nat>, d: nat): nat
  {
    if x == [] then 0 else (if x[0] == d then 1 else 0) + Count(x[1..], d)
  }

  /** On a binary list the two sides make up all nodes. */
  lemma {:induction false} CountSides(x: seq<nat>)
    requires Binary(x)
    ensures Count(x, 0) + Count(x, 1) == |x|
  {
    if x != [] {
      CountSides(x[1..]);
    }
  }

  /** Both subgraphs of the partition have a node: only such partitions are scored. */
  predicate Scored(x: seq<nat>)
  {
    Count(x, 0) > 0 && Count(x, 1) > 0
  }

  /** The two sides differ in size by at most one: (|S1| - |S0|)^2 <= 1. */
  predicate IsBalanced(x: seq<nat>)
  {
    (Count(x, 1) - Count(x, 0)) * (Count(x, 1) - Count(x, 0)) <= 1
  }

  /** Side 1 is empty exactly for the partition 0. */
  lemma {:induction false} NoOnes(b: nat, n: nat)
    requires b < Pow2(n)
    ensures Count(Bits(b, n), 1) == 0 <==> b == 0
  {
    if n > 0 {
      NoOnes(b / 2, n - 1);
      assert Bits(b, n)[1..] == Bits(b / 2, n - 1);
    }
  }

  /** Side 0 is empty exactly for the partition 2^n - 1. */
  lemma {:induction false} NoZeros(b: nat, n: nat)
    requires b < Pow2(n)
    ensures Count(Bits(b, n), 0) == 0 <==> b == Pow2(n) - 1
  {
    if n > 0 {
      NoZeros(b / 2, n - 1);
      assert Bits(b, n)[1..] == Bits(b / 2, n - 1);
    }
  }

  /** The scored partitions are exactly b = 1 .. 2^n - 2. */
  lemma ScoredRange(b: nat, n: nat)
    requires b < Pow2(n)
    ensures Scored(Bits(b, n)) <==> 0 < b < Pow2(n) - 1
  {
    NoOnes(b, n);
    NoZeros(b, n);
  }

  /** For an even node count a balanced partition splits the nodes in halves, for an odd
      one the sides differ by one. */
  lemma BalancedSides(x: seq<nat>)
    requires Binary(x)
    ensures IsBalanced(x) <==> (Count(x, 1) == Count(x, 0) || Count(x, 1) == Count(x, 0) + 1
                                || Count(x, 0) == Count(x, 1) + 1)
  {
    SquareAtMostOne(Count(x, 1) - Count(x, 0));
  }

  lemma SquareAtMostOne(d: int)
    ensures d * d <= 1 <==> -1 <= d <= 1
  {
    if d >= 2 {
      assert d * d >= 2 * d;
    } else if d <= -2 {
      assert d * d >= -2 * d;
    }
  }

  // ---------------------------------------------------------------- cost

  /** `w[i, j]`: 1 when the graph has an edge between i and j (get_edge_data returns the
      edge's attribute dictionary, which is never 0), otherwise 0. */
  function Weight(edges: seq<Edge>, i: Node, j: Node): nat
  {
    if (i, j) in edges || (j, i) in edges then 1 else 0
  }

  /** One summand of the cost: `w[i, j] * x[i] * (1 - x[j])`. */
  function Term(edges: seq<Edge>, x: seq<nat>, i: nat, j: nat): int
    requires i < |x| && j < |x|
  {
    Weight(edges, i, j) * x[i] * (1 - x[j] as int)
  }

  /** The inner sum over j < m for row i. */
  function RowCost(edges: seq<Edge>, x: seq<nat>, i: nat, m: nat): int
    requires i < |x| && m <= |x|
  {
    if m == 0 then 0 else RowCost(edges, x, i, m - 1) + Term(edges, x, i, m - 1)
  }

  /** The outer sum over the rows i < k. */
  function CostUpTo(edges: seq<Edge>, x: seq<nat>, k: nat): int
    requires k <= |x|
  {
    if k == 0 then 0 else CostUpTo(edges, x, k - 1) + RowCost(edges, x, k - 1, |x|)
  }

  /** The cost of a partition: the double sum over all ordered node pairs. */
  function Cost(edges: seq<Edge>, x: seq<nat>): int
  {
    CostUpTo(edges, x, |x|)
  }

  /** networkx's edge list of a simple graph: endpoints are nodes, and no undirected edge
      is listed twice, in either orientation. */
  predicate SimpleEdges(n: nat, edges: seq<Edge>)
  {
    && (forall e :: e in edges ==> e.0 < n && e.1 < n)
    && (forall i, j :: 0 <= i < j < |edges| ==> edges[i] != edges[j] && edges[i] != Flipped(edges[j]))
  }

  /** What adding edge e changes in one summand. */
  function Delta(e: Edge, x: seq<nat>, i: nat, j: nat): int
    requires i < |x| && j < |x|
  {
    if (i, j) == e || (j, i) == e then x[i] * (1 - x[j] as int) else 0
  }

  lemma TermSnoc(front: seq<Edge>, e: Edge, x: seq<nat>, i: nat, j: nat)
    requires i < |x| && j < |x|
    requires e !in front && Flipped(e) !in front
    ensures Term(front + [e], x, i, j) == Term(front, x, i, j) + Delta(e, x, i, j)
  {
    if (i, j) == e || (j, i) == e {
      assert (i, j) !in front && (j, i) !in front;
    }
  }

  /** What adding edge e changes in the sum of row i up to column m. */
  function RowDelta(e: Edge, x: seq<nat>, i: nat, m: nat): int
    requires e.0 < |x| && e.1 < |x|
  {
    (if i == e.0 && e.1 < m then x[e.0] * (1 - x[e.1] as int) else 0)
      + (if i == e.1 && e.0 < m && e.0 != e.1 then x[e.1] * (1 - x[e.0] as int) else 0)
  }

  lemma {:induction false} RowSnoc(front: seq<Edge>, e: Edge, x: seq<nat>, i: nat, m: nat)
    requires i < |x| && m <= |x| && e.0 < |x| && e.1 < |x|
    requires e !in front && Flipped(e) !in front
    ensures RowCost(front + [e], x, i, m) == RowCost(front, x, i, m) + RowDelta(e, x, i, m)
  {
    if m > 0 {
      RowSnoc(front, e, x, i, m - 1);
      TermSnoc(front, e, x, i, m - 1);
    }
  }

  /** What adding edge e changes in the sum of the rows below k. */
  function ColumnDelta(e: Edge, x: seq<nat>, k: nat): int
    requires e.0 < |x| && e.1 < |x|
  {
    (if e.0 < k then x[e.0] * (1 - x[e.1] as int) else 0)
      + (if e.1 < k && e.0 != e.1 then x[e.1] * (1 - x[e.0] as int) else 0)
  }

  lemma {:induction false} CostUpToSnoc(front: seq<Edge>, e: Edge, x: seq<nat>, k: nat)
    requires k <= |x| && e.0 < |x| && e.1 < |x|
    requires e !in front && Flipped(e) !in front
    ensures CostUpTo(front + [e], x, k) == CostUpTo(front, x, k) + ColumnDelta(e, x, k)
  {
    if k > 0 {
      CostUpToSnoc(front, e, x, k - 1);
      RowSnoc(front, e, x, k - 1, |x|);
    }
  }

  /** Adding an edge that is new in both orientations adds one exactly when it is cut. */
  lemma CostSnoc(front: seq<Edge>, e: Edge, x: seq<nat>)
    requires Binary(x) && e.0 < |x| && e.1 < |x|
    requires e !in front && Flipped(e) !in front
    ensures Cost(front + [e], x) == Cost(front, x) + (if x[e.0] != x[e.1] then 1 else 0)
  {
    CostUpToSnoc(front, e, x, |x|);
    assert x[e.0] <= 1 && x[e.1] <= 1;
  }

  lemma {:induction false} RowCostEmpty(x: seq<nat>, i: nat, m: nat)
    requires i < |x| && m <= |x|
    ensures RowCost([], x, i, m) == 0
  {
    if m > 0 {
      RowCostEmpty(x, i, m - 1);
    }
  }

  lemma {:induction false} CostUpToEmpty(x: seq<nat>, k: nat)
    requires k <= |x|
    ensures CostUpTo([], x, k) == 0
  {
    if k > 0 {
      CostUpToEmpty(x, k - 1);
      RowCostEmpty(x, k - 1, |x|);
    }
  }

  /** The solver's cost of a partition is compute_cut_size of its bit string: every cut
      edge is counted once, in the orientation that leads from side 1 to side 0. */
  lemma {:induction false} CostIsCutSize(n: nat, edges: seq<Edge>, x: seq<nat>)
    requires |x| == n && Binary(x) && SimpleEdges(n, edges)
    ensures InRange(edges, Spell(x))
    ensures Cost(edges, x) == CutCount(edges, Spell(x))
  {
    if edges == [] {
      CostUpToEmpty(x, |x|);
    } else {
      var front: seq<Edge> := edges[..|edges| - 1];
      var e: Edge := edges[|edges| - 1];
      assert edges == front + [e];
      assert e in edges;
      assert SimpleEdges(n, front) by {
        forall i, j | 0 <= i < j < |front|
          ensures front[i] != front[j] && front[i] != Flipped(front[j])
        {
          assert front[i] == edges[i] && front[j] == edges[j];
        }
      }
      forall i | 0 <= i < |front| ensures front[i] != e && front[i] != Flipped(e) {
        assert front[i] == edges[i];
      }
      CostIsCutSize(n, front, x);
      CostSnoc(front, e, x);
      assert Spell(x)[e.0] != Spell(x)[e.1] <==> x[e.0] != x[e.1];
    }
  }

  // ---------------------------------------------------------------- the solver

  /** The adjacency matrix `w`, filled cell by cell. */
  method AdjacencyMatrix(n: nat, edges: seq<Edge>) returns (w: array2<nat>)
    ensures fresh(w) && w.Length0 == n && w.Length1 == n
    ensures forall i, j :: 0 <= i < n && 0 <= j < n ==> w[i, j] == Weight(edges, i, j)
  {
    w := new nat[n, n]((i, j) => 0);
    for i := 0 to n
      invariant forall i', j :: 0 <= i' < n && 0 <= j < n ==>
                  w[i', j] == if i' < i then Weight(edges, i', j) else 0
    {
      for j := 0 to n
        invariant forall i', j' :: 0 <= i' < n && 0 <= j' < n ==>
                    w[i', j'] == if i' < i || (i' == i && j' < j) then Weight(edges, i', j') else 0
      {
        if (i, j) in edges || (j, i) in edges {
          w[i, j] := 1;
        }
      }
    }
  }

  /** The nested cost loop over the matrix. */
  method PartitionCost(w: array2<nat>, x: seq<nat>, ghost edges: seq<Edge>) returns (cost: int)
    requires w.Length0 == |x| && w.Length1 == |x|
    requires forall i, j :: 0 <= i < |x| && 0 <= j < |x| ==> w[i, j] == Weight(edges, i, j)
    ensures cost == Cost(edges, x)
  {
    var n := |x|;
    cost := 0;
    for i := 0 to n
      invariant cost == CostUpTo(edges, x, i)
    {
      for j := 0 to n
        invariant cost == CostUpTo(edges, x, i) + RowCost(edges, x, i, j)
      {
        cost := cost + w[i, j] * x[i] * (1 - x[j] as int);
      }
    }
  }

  /** The two searches: all scored partitions, and the balanced ones among them. */
  datatype Kind = Brute | Balanced

  predicate Eligible(kind: Kind, x: seq<nat>)
  {
    Scored(x) && (kind == Balanced ==> IsBalanced(x))
  }

  /** The cost of partition b. */
  function CostAt(n: nat, edges: seq<Edge>, b: nat): int
  {
    Cost(edges, Bits(b, n))
  }

  /** Reference: the first partition below k that the search scores. */
  function First(kind: Kind, n: nat, edges: seq<Edge>, k: nat): (f: Option<nat>)
    ensures f.Some? ==> f.value < k && Eligible(kind, Bits(f.value, n))
  {
    if k == 0 then None
    else if First(kind, n, edges, k - 1).Some? then First(kind, n, edges, k - 1)
    else if Eligible(kind, Bits(k - 1, n)) then Some(k - 1)
    else None
  }

  /** Reference: the largest cost of a scored partition below k, or 0 when there is none. */
  function MaxCost(kind: Kind, n: nat, edges: seq<Edge>, k: nat): int
  {
    if k == 0 then 0
    else
      var m := MaxCost(kind, n, edges, k - 1);
      if Eligible(kind, Bits(k - 1, n)) && m < CostAt(n, edges, k - 1) then CostAt(n, edges, k - 1)
      else m
  }

  /** Reference: the bit strings of the scored partitions below k whose cost is m, in
      increasing partition number. */
  function Attaining(kind: Kind, n: nat, edges: seq<Edge>, m: int, k: nat): seq<seq<char>>
  {
    if k == 0 then []
    else
      var rest := Attaining(kind, n, edges, m, k - 1);
      if Eligible(kind, Bits(k - 1, n)) && CostAt(n, edges, k - 1) == m then rest + [Spell(Bits(k - 1, n))]
      else rest
  }

  /** The search ends in an UnboundLocalError: its list is never assigned before it is
      used, because there is no scored partition at all or the first one has cost 0. */
  predicate BindFails(kind: Kind, n: nat, edges: seq<Edge>)
  {
    var f := First(kind, n, edges, Pow2(n));
    f.None? || CostAt(n, edges, f.value) == 0
  }

  /** What get_challenge_solutions ends with. */
  datatype Outcome =
    | Solved(bestBrute: int, xsBrut: seq<seq<char>>, bestBalanced: int, xsBalanced: seq<seq<char>>)
    | Unbound(search: Kind)   // UnboundLocalError on that search's XS list or xbest

  /** One search's running state: `best_cost_*` and `XS_*` (None while unassigned). */
  datatype Tracker = Tracker(best: int, xs: Option<seq<seq<char>>>)

  /** One scored partition offered to a search: a larger cost restarts the list, an equal
      cost is appended to it, and appending to the unassigned list fails (None). */
  function Offer(t: Tracker, cost: int, bs: seq<char>): Option<Tracker>
  {
    var t' := if t.best < cost then Tracker(cost, Some([])) else t;
    if t'.best != cost then Some(t')
    else if t'.xs.None? then None
    else Some(Tracker(t'.best, Some(t'.xs.value + [bs])))
  }

  /** Lines 105-110 (and 116-121) of the loop body: offer one scored partition to a
      search; `bound` is false when the list is appended to before it was assigned. */
  method KeepBest(best: int, xs: Option<seq<seq<char>>>, cost: int, bs: seq<char>)
    returns (best': int, xs': Option<seq<seq<char>>>, bound: bool)
    ensures bound <==> Offer(Tracker(best, xs), cost, bs).Some?
    ensures bound ==> Offer(Tracker(best, xs), cost, bs) == Some(Tracker(best', xs'))
  {
    best', xs' := best, xs;
    if best' < cost {
      best' := cost;
      xs' := Some([]);
    }
    bound := true;
    if best' == cost {
      if xs'.None? {
        return best', xs', false;
      }
      xs' := Some(xs'.value + [bs]);
    }
  }

  /** The state of a search after the partitions below k (None once it has failed). */
  function Tracked(kind: Kind, n: nat, edges: seq<Edge>, k: nat): Option<Tracker>
  {
    if k == 0 then Some(Tracker(0, None))
    else
      match Tracked(kind, n, edges, k - 1)
      case None => None
      case Some(t) =>
        var x := Bits(k - 1, n);
        if Eligible(kind, x) then Offer(t, CostAt(n, edges, k - 1), Spell(x)) else Some(t)
  }

  /** One more partition: the search's state after partition b, from its state before. */
  lemma TrackedNext(kind: Kind, n: nat, edges: seq<Edge>, b: nat, t: Tracker)
    requires Tracked(kind, n, edges, b) == Some(t)
    ensures Tracked(kind, n, edges, b + 1) ==
              if Eligible(kind, Bits(b, n)) then Offer(t, CostAt(n, edges, b), Spell(Bits(b, n))) else Some(t)
  {
  }

  /** One more partition: the first scored partition below b + 1. */
  lemma FirstNext(kind: Kind, n: nat, edges: seq<Edge>, b: nat)
    ensures First(kind, n, edges, b + 1) ==
              if First(kind, n, edges, b).Some? then First(kind, n, edges, b)
              else if Eligible(kind, Bits(b, n)) then Some(b) else None
  {
  }

  /** get_challenge_solutions, base and balanced parts: enumerate every partition, score
      the ones with two non-empty sides, and keep the best cost of each search with the
      bit strings that reach it. */
  method GetChallengeSolutions(n: nat, edges: seq<Edge>) returns (r: Outcome)
    ensures r == Unbound(Brute) <==> BindFails(Brute, n, edges)
    ensures r == Unbound(Balanced) <==> !BindFails(Brute, n, edges) && BindFails(Balanced, n, edges)
    ensures r.Solved? ==>
              && r.bestBrute == MaxCost(Brute, n, edges, Pow2(n))
              && r.xsBrut == Attaining(Brute, n, edges, r.bestBrute, Pow2(n))
              && r.bestBalanced == MaxCost(Balanced, n, edges, Pow2(n))
              && r.xsBalanced == Attaining(Balanced, n, edges, r.bestBalanced, Pow2(n))
  {
    var w := AdjacencyMatrix(n, edges);
    var bestBrute: int := 0;
    var bestBalanced: int := 0;
    var xsBrut: Option<seq<seq<char>>> := None;
    var xsBalanced: Option<seq<seq<char>>> := None;
    var total := Pow2(n);
    for b := 0 to total
      invariant forall i, j :: 0 <= i < n && 0 <= j < n ==> w[i, j] == Weight(edges, i, j)
      invariant Tracked(Brute, n, edges, b) == Some(Tracker(bestBrute, xsBrut))
      invariant Tracked(Balanced, n, edges, b) == Some(Tracker(bestBalanced, xsBalanced))
    {
      var x := Bits(b, n);
      var bs := Spell(x);
      TrackedNext(Brute, n, edges, b, Tracker(bestBrute, xsBrut));
      TrackedNext(Balanced, n, edges, b, Tracker(bestBalanced, xsBalanced));
      if Scored(x) {
        var cost := PartitionCost(w, x, edges);
        var bound;
        bestBrute, xsBrut, bound := KeepBest(bestBrute, xsBrut, cost, bs);
        if !bound {
          FailedEarly(Brute, n, edges, b + 1);
          return Unbound(Brute);
        }
        if IsBalanced(x) {
          bestBalanced, xsBalanced, bound := KeepBest(bestBalanced, xsBalanced, cost, bs);
          if !bound {
            FirstNext(Brute, n, edges, b);
            BoundEarly(Brute, n, edges, b + 1);
            FailedEarly(Balanced, n, edges, b + 1);
            return Unbound(Balanced);
          }
        }
      }
    }
    AtEnd(Brute, n, edges);
    AtEnd(Balanced, n, edges);
    if xsBrut.None? {
      return Unbound(Brute);
    }
    if xsBalanced.None? {
      return Unbound(Balanced);
    }
    r := Solved(bestBrute, xsBrut.value, bestBalanced, xsBalanced.value);
  }

  // ---------------------------------------------------------------- the search's meaning

  /** Every cost the solver computes is a cut size, hence never negative. */
  lemma CostNonNegative(n: nat, edges: seq<Edge>, b: nat)
    ensures CostAt(n, edges, b) >= 0
  {
    var x := Bits(b, n);
    assert CostUpTo(edges, x, |x|) >= 0 by {
      BitsBinary(b, n);
      CostUpToNonNegative(edges, x, |x|);
    }
  }

  lemma {:induction false} RowCostNonNegative(edges: seq<Edge>, x: seq<nat>, i: nat, m: nat)
    requires Binary(x) && i < |x| && m <= |x|
    ensures RowCost(edges, x, i, m) >= 0
  {
    if m > 0 {
      RowCostNonNegative(edges, x, i, m - 1);
      assert x[m - 1] <= 1;
    }
  }

  lemma {:induction false} CostUpToNonNegative(edges: seq<Edge>, x: seq<nat>, k: nat)
    requires Binary(x) && k <= |x|
    ensures CostUpTo(edges, x, k) >= 0
  {
    if k > 0 {
      CostUpToNonNegative(edges, x, k - 1);
      RowCostNonNegative(edges, x, k - 1, |x|);
    }
  }

  /** No scored partition below k: the running maximum is still 0. */
  lemma {:induction false} MaxCostBeforeFirst(kind: Kind, n: nat, edges: seq<Edge>, k: nat)
    requires First(kind, n, edges, k).None?
    ensures MaxCost(kind, n, edges, k) == 0
    ensures forall m :: Attaining(kind, n, edges, m, k) == []
  {
    if k > 0 {
      MaxCostBeforeFirst(kind, n, edges, k - 1);
    }
  }

  /** MaxCost bounds the cost of every scored partition below k ... */
  lemma {:induction false} MaxCostBound(kind: Kind, n: nat, edges: seq<Edge>, k: nat)
    ensures forall b :: 0 <= b < k && Eligible(kind, Bits(b, n)) ==> CostAt(n, edges, b) <= MaxCost(kind, n, edges, k)
  {
    if k > 0 {
      MaxCostBound(kind, n, edges, k - 1);
    }
  }

  /** ... and, once some partition is scored, one of them reaches it. */
  lemma {:induction false} MaxCostAttained(kind: Kind, n: nat, edges: seq<Edge>, k: nat)
    requires First(kind, n, edges, k).Some?
    ensures exists b :: 0 <= b < k && Eligible(kind, Bits(b, n)) && CostAt(n, edges, b) == MaxCost(kind, n, edges, k)
  {
    var last := k - 1;
    if Eligible(kind, Bits(last, n)) && MaxCost(kind, n, edges, last) < CostAt(n, edges, last) {
      assert CostAt(n, edges, last) == MaxCost(kind, n, edges, k);
    } else if First(kind, n, edges, last).Some? {
      MaxCostAttained(kind, n, edges, last);
      var b :| 0 <= b < last && Eligible(kind, Bits(b, n)) && CostAt(n, edges, b) == MaxCost(kind, n, edges, last);
      assert CostAt(n, edges, b) == MaxCost(kind, n, edges, k);
    } else {
      MaxCostBeforeFirst(kind, n, edges, last);
      CostNonNegative(n, edges, last);
      assert CostAt(n, edges, last) == MaxCost(kind, n, edges, k);
    }
  }

  /** No scored partition costs more than the maximum. */
  lemma {:induction false} AttainingAboveMax(kind: Kind, n: nat, edges: seq<Edge>, m: int, k: nat)
    requires m > MaxCost(kind, n, edges, k)
    ensures Attaining(kind, n, edges, m, k) == []
  {
    if k > 0 {
      AttainingAboveMax(kind, n, edges, m, k - 1);
    }
  }

  /** The state the reference definitions predict after the partitions below k. */
  function Expected(kind: Kind, n: nat, edges: seq<Edge>, k: nat): Option<Tracker>
  {
    var f := First(kind, n, edges, k);
    if f.None? then Some(Tracker(0, None))
    else if CostAt(n, edges, f.value) == 0 then None
    else Some(Tracker(MaxCost(kind, n, edges, k), Some(Attaining(kind, n, edges, MaxCost(kind, n, edges, k), k))))
  }

  /** A search's state is determined by the reference definitions: untouched until the
      first scored partition, failed if that one costs 0, otherwise the maximum with the
      strings that reach it. */
  lemma {:induction false} TrackedMeaning(kind: Kind, n: nat, edges: seq<Edge>, k: nat)
    ensures Tracked(kind, n, edges, k) == Expected(kind, n, edges, k)
  {
    if k > 0 {
      TrackedMeaning(kind, n, edges, k - 1);
      if First(kind, n, edges, k - 1).None? {
        StepBeforeFirst(kind, n, edges, k);
      } else if CostAt(n, edges, First(kind, n, edges, k - 1).value) != 0 {
        StepAfterFirst(kind, n, edges, k);
      } else {
        StepFailed(kind, n, edges, k);
      }
    }
  }

  /** Partition k - 1 is the first one scored, or not scored at all. */
  lemma StepBeforeFirst(kind: Kind, n: nat, edges: seq<Edge>, k: nat)
    requires 0 < k && First(kind, n, edges, k - 1).None?
    requires Tracked(kind, n, edges, k - 1) == Expected(kind, n, edges, k - 1)
    ensures Tracked(kind, n, edges, k) == Expected(kind, n, edges, k)
  {
    var x := Bits(k - 1, n);
    if Eligible(kind, x) {
      var c := CostAt(n, edges, k - 1);
      MaxCostBeforeFirst(kind, n, edges, k - 1);
      CostNonNegative(n, edges, k - 1);
      assert First(kind, n, edges, k) == Some(k - 1);
      if c > 0 {
        assert MaxCost(kind, n, edges, k) == c;
        assert Attaining(kind, n, edges, c, k - 1) == [];
        assert Attaining(kind, n, edges, c, k) == [Spell(x)];
      }
    }
  }

  /** Partition k - 1 comes after a first scored partition of cost 0: the search has failed. */
  lemma StepFailed(kind: Kind, n: nat, edges: seq<Edge>, k: nat)
    requires 0 < k && First(kind, n, edges, k - 1).Some?
    requires CostAt(n, edges, First(kind, n, edges, k - 1).value) == 0
    requires Tracked(kind, n, edges, k - 1) == Expected(kind, n, edges, k - 1)
    ensures Tracked(kind, n, edges, k) == Expected(kind, n, edges, k)
  {
    assert First(kind, n, edges, k) == First(kind, n, edges, k - 1);
  }

  /** Partition k - 1 comes after a first scored partition of positive cost. */
  lemma StepAfterFirst(kind: Kind, n: nat, edges: seq<Edge>, k: nat)
    requires 0 < k && First(kind, n, edges, k - 1).Some?
    requires CostAt(n, edges, First(kind, n, edges, k - 1).value) != 0
    requires Tracked(kind, n, edges, k - 1) == Expected(kind, n, edges, k - 1)
    ensures Tracked(kind, n, edges, k) == Expected(kind, n, edges, k)
  {
    var m := MaxCost(kind, n, edges, k - 1);
    var c := CostAt(n, edges, k - 1);
    assert First(kind, n, edges, k) == First(kind, n, edges, k - 1);
    if Eligible(kind, Bits(k - 1, n)) && m < c {
      AttainingAboveMax(kind, n, edges, c, k - 1);
    }
  }

  /** A search that has failed stays failed. */
  lemma FailedEarly(kind: Kind, n: nat, edges: seq<Edge>, k: nat)
    requires k <= Pow2(n)
    requires Tracked(kind, n, edges, k).None?
    ensures BindFails(kind, n, edges)
  {
    TrackedMeaning(kind, n, edges, k);
    FirstStable(kind, n, edges, k, Pow2(n));
  }

  /** A search whose list is assigned never fails. */
  lemma BoundEarly(kind: Kind, n: nat, edges: seq<Edge>, k: nat)
    requires k <= Pow2(n)
    requires Tracked(kind, n, edges, k).Some? && First(kind, n, edges, k).Some?
    ensures !BindFails(kind, n, edges)
  {
    TrackedMeaning(kind, n, edges, k);
    FirstStable(kind, n, edges, k, Pow2(n));
  }

  /** The final state of a search after all 2^n partitions. */
  lemma AtEnd(kind: Kind, n: nat, edges: seq<Edge>)
    ensures var t := Tracked(kind, n, edges, Pow2(n));
            && (t.None? || t.value.xs.None? <==> BindFails(kind, n, edges))
            && (t.Some? && t.value.xs.Some? ==>
                  && t.value.best == MaxCost(kind, n, edges, Pow2(n))
                  && t.value.xs.value == Attaining(kind, n, edges, t.value.best, Pow2(n)))
  {
    TrackedMeaning(kind, n, edges, Pow2(n));
  }

  /** Once found, the first scored partition stays the first. */
  lemma {:induction false} FirstStable(kind: Kind, n: nat, edges: seq<Edge>, k: nat, k': nat)
    requires k <= k'
    ensures First(kind, n, edges, k).Some? ==> First(kind, n, edges, k') == First(kind, n, edges, k)
    decreases k' - k
  {
    if k < k' {
      FirstStable(kind, n, edges, k, k' - 1);
    }
  }

  /** The result lists hold exactly the bit strings of the scored partitions of cost m. */
  lemma {:induction false} AttainingMembers(kind: Kind, n: nat, edges: seq<Edge>, m: int, k: nat)
    ensures forall s :: s in Attaining(kind, n, edges, m, k) <==>
              exists b :: 0 <= b < k && Eligible(kind, Bits(b, n)) && CostAt(n, edges, b) == m && s == Spell(Bits(b, n))
  {
    if k > 0 {
      AttainingMembers(kind, n, edges, m, k - 1);
    }
  }

  /** No bit string is listed twice. */
  lemma {:induction false} AttainingDistinct(kind: Kind, n: nat, edges: seq<Edge>, m: int, k: nat)
    requires k <= Pow2(n)
    ensures Distinct(Attaining(kind, n, edges, m, k))
  {
    if k > 0 {
      AttainingDistinct(kind, n, edges, m, k - 1);
      var rest := Attaining(kind, n, edges, m, k - 1);
      var s := Spell(Bits(k - 1, n));
      if s in rest {
        AttainingMembers(kind, n, edges, m, k - 1);
        var b :| 0 <= b < k - 1 && Eligible(kind, Bits(b, n)) && CostAt(n, edges, b) == m && s == Spell(Bits(b, n));
        BitsBinary(b, n);
        BitsBinary(k - 1, n);
        SpellInjective(Bits(b, n), Bits(k - 1, n));
        BitsInjective(b, k - 1, n);
      }
      DistinctAppend(rest, s);
    }
  }

  /** The balanced optimum never beats the unrestricted one. */
  lemma {:induction false} BalancedBelowBrute(n: nat, edges: seq<Edge>, k: nat)
    ensures MaxCost(Balanced, n, edges, k) <= MaxCost(Brute, n, edges, k)
  {
    if k > 0 {
      BalancedBelowBrute(n, edges, k - 1);
    }
  }

  /** Fewer than two nodes leave no partition with two non-empty sides, so the solver
      fails. */
  lemma SmallGraphFails(n: nat, edges: seq<Edge>)
    requires n < 2
    ensures BindFails(Brute, n, edges)
  {
    NothingScored(n, edges, Pow2(n));
  }

  lemma {:induction false} NothingScored(n: nat, edges: seq<Edge>, k: nat)
    requires n < 2
    ensures First(Brute, n, edges, k).None?
  {
    if k > 0 {
      NothingScored(n, edges, k - 1);
      var x := Bits(k - 1, n);
      if n == 1 {
        assert x == [x[0]];
        assert Count(x, 0) == 0 || Count(x, 1) == 0;
      }
    }
  }

  /** The first scored partition is b = 1, which puts node 0 alone on side 1; its cost is
      the number of edges from node 0 to another node. So the solver fails exactly when
      node 0 has no neighbour besides itself (an edgeless graph among them). */
  lemma FirstPartitionIsNodeZero(n: nat, edges: seq<Edge>)
    requires n >= 2
    ensures First(Brute, n, edges, Pow2(n)) == Some(1)
  {
    var x0 := Bits(0, n);
    var x1 := Bits(1, n);
    ScoredRange(0, n);
    ScoredRange(1, n);
    assert Pow2(n) >= 4 by {
      assert Pow2(n) == 4 * Pow2(n - 2);
    }
    assert First(Brute, n, edges, 2) == Some(1);
    FirstStable(Brute, n, edges, 2, Pow2(n));
  }

  /** Partition 1 puts node 0 alone on side 1. */
  lemma {:induction false} BitsOne(n: nat)
    requires n >= 1
    ensures forall i :: 0 <= i < n ==> Bits(1, n)[i] == if i == 0 then 1 else 0
  {
    ZeroBits(n - 1);
    assert Bits(1, n) == [1] + Bits(0, n - 1);
  }

  lemma {:induction false} ZeroBits(n: nat)
    ensures forall i :: 0 <= i < n ==> Bits(0, n)[i] == 0
  {
    if n > 0 {
      ZeroBits(n - 1);
      assert Bits(0, n) == [0] + Bits(0, n - 1);
    }
  }

  /** With at least two nodes, the brute-force search ends in an UnboundLocalError exactly
      when node 0 has no neighbour other than itself. */
  lemma BruteFailsIffNodeZeroIsolated(n: nat, edges: seq<Edge>)
    requires n >= 2 && SimpleEdges(n, edges)
    ensures BindFails(Brute, n, edges) <==> forall e :: e in edges ==> (e.0 == 0 <==> e.1 == 0)
  {
    FirstPartitionIsNodeZero(n, edges);
    var x := Bits(1, n);
    BitsBinary(1, n);
    BitsOne(n);
    CostIsCutSize(n, edges, x);
    NoCutEdges(edges, Spell(x));
    forall e | e in edges ensures IsCut(e, Spell(x)) <==> (e.0 == 0 <==> e.1 != 0) {
      assert Spell(x)[e.0] == (if e.0 == 0 then '1' else '0');
      assert Spell(x)[e.1] == (if e.1 == 0 then '1' else '0');
    }
  }

  // ---------------------------------------------------------------- print_shots

  /** The sampled counts: each measured bit string with its number of shots, in the
      dictionary's iteration order. */
  type Counts = seq<(seq<char>, nat)>

  /** The shots on bit strings of `xs`. */
  function Tally(counts: Counts, xs: seq<seq<char>>): nat
  {
    if counts == [] then 0
    else
      var (bs, c) := counts[|counts| - 1];
      Tally(counts[..|counts| - 1], xs) + (if bs in xs then c else 0)
  }

  /** All shots. */
  function TotalShots(counts: Counts): nat
  {
    if counts == [] then 0 else TotalShots(counts[..|counts| - 1]) + counts[|counts| - 1].1
  }

  /** print_shots: the shots that fall on the brute-force and on the balanced optima. */
  method PrintShots(counts: Counts, shots: nat, xsBrut: seq<seq<char>>, xsBalanced: seq<seq<char>>)
    returns (sumCounts: nat, sumBalancedCounts: nat)
    ensures sumCounts == Tally(counts, xsBrut) && sumCounts <= TotalShots(counts)
    ensures sumBalancedCounts == Tally(counts, xsBalanced) && sumBalancedCounts <= TotalShots(counts)
  {
    sumCounts := 0;
    for i := 0 to |counts|
      invariant sumCounts == Tally(counts[..i], xsBrut)
    {
      assert counts[..i + 1][..i] == counts[..i];
      var (bs, c) := counts[i];
      if bs in xsBrut {
        sumCounts := sumCounts + c;
      }
    }
    assert counts[..|counts|] == counts;
    sumBalancedCounts := 0;
    for i := 0 to |counts|
      invariant sumBalancedCounts == Tally(counts[..i], xsBalanced)
    {
      assert counts[..i + 1][..i] == counts[..i];
      var (bs, c) := counts[i];
      if bs in xsBalanced {
        sumBalancedCounts := sumBalancedCounts + c;
      }
    }
    TallyBound(counts, xsBrut);
    TallyBound(counts, xsBalanced);
  }

  /** A tally never exceeds the number of shots. */
  lemma {:induction false} TallyBound(counts: Counts, xs: seq<seq<char>>)
    ensures Tally(counts, xs) <= TotalShots(counts)
  {
    if counts != [] {
      TallyBound(counts[..|counts| - 1], xs);
    }
  }

  /** Listing more bit strings never lowers the tally. */
  lemma {:induction false} TallyMonotone(counts: Counts, xs: seq<seq<char>>, ys: seq<seq<char>>)
    requires forall s :: s in xs ==> s in ys
    ensures Tally(counts, xs) <= Tally(counts, ys)
  {
    if counts != [] {
      TallyMonotone(counts[..|counts| - 1], xs, ys);
      var (bs, c) := counts[|counts| - 1];
      if bs in xs {
        assert bs in ys;
      }
    }
  }

  /** When every sampled string is listed, the tally is all shots. */
  lemma {:induction false} TallyAll(counts: Counts, xs: seq<seq<char>>)
    requires forall i :: 0 <= i < |counts| ==> counts[i].0 in xs
    ensures Tally(counts, xs) == TotalShots(counts)
  {
    if counts != [] {
      TallyAll(counts[..|counts| - 1], xs);
    }
  }
}
