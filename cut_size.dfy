/** The cut size of a graph partition given as a bit string (utils.py, compute_cut_size). */
module CutSize {
  import opened Gates

  /** Every endpoint of every edge is a position of the bit string. */
  predicate InRange(edges: seq<Edge>, s: seq<char>)
  {
    forall e :: e in edges ==> e.0 < |s| && e.1 < |s|
  }

  /** Does the partition `s` separate the endpoints of `e`? */
  predicate IsCut(e: Edge, s: seq<char>)
    requires e.0 < |s| && e.1 < |s|
  {
    s[e.0] != s[e.1]
  }

  /** Reference definition: the number of edges of the list whose endpoints carry
      different characters, counting repeated list entries once per entry. */
  function CutCount(edges: seq<Edge>, s: seq<char>): nat
    requires InRange(edges, s)
  {
    if edges == [] then 0
    else CutCount(edges[..|edges| - 1], s) + (if IsCut(edges[|edges| - 1], s) then 1 else 0)
  }

  /** compute_cut_size: a running counter over the edge list. */
  method ComputeCutSize(edges: seq<Edge>, bitstring: seq<char>) returns (cutSz: nat)
    requires InRange(edges, bitstring)
    ensures cutSz == CutCount(edges, bitstring)
    ensures cutSz <= |edges|
  {
    cutSz := 0;
    for i := 0 to |edges|
      invariant cutSz == CutCount(edges[..i], bitstring)
      invariant cutSz <= i
    {
      assert edges[..i + 1][..i] == edges[..i];
      var (u, v) := edges[i];
      if bitstring[u] != bitstring[v] {
        cutSz := cutSz + 1;
      }
    }
    assert edges[..|edges|] == edges;
  }

  /** The count is exactly the number of list positions holding a cut edge. */
  lemma {:induction false} CutCountIsCardinality(edges: seq<Edge>, s: seq<char>)
    requires InRange(edges, s)
    ensures CutCount(edges, s) == |set i | 0 <= i < |edges| && IsCut(edges[i], s)|
  {
    if edges != [] {
      var k := |edges| - 1;
      var front := edges[..k];
      CutCountIsCardinality(front, s);
      var before := set i | 0 <= i < k && IsCut(front[i], s);
      var all := set i | 0 <= i < |edges| && IsCut(edges[i], s);
      assert before == set i | 0 <= i < k && IsCut(edges[i], s);
      if IsCut(edges[k], s) {
        assert all == before + {k};
      } else {
        assert all == before;
      }
    }
  }

  /** 0 <= cut size <= number of edges. */
  lemma {:induction false} CutCountBound(edges: seq<Edge>, s: seq<char>)
    requires InRange(edges, s)
    ensures CutCount(edges, s) <= |edges|
  {
    if edges != [] {
      CutCountBound(edges[..|edges| - 1], s);
    }
  }

  /** Cut size is additive over concatenated edge lists. */
  lemma {:induction false} CutCountAppend(a: seq<Edge>, b: seq<Edge>, s: seq<char>)
    requires InRange(a, s) && InRange(b, s)
    ensures InRange(a + b, s)
    ensures CutCount(a + b, s) == CutCount(a, s) + CutCount(b, s)
    decreases |b|
  {
    if b == [] {
      assert a + b == a;
    } else {
      var b' := b[..|b| - 1];
      assert (a + b)[..|a + b| - 1] == a + b';
      CutCountAppend(a, b', s);
    }
  }

  /** A bit string that is constant on the nodes of the edges cuts nothing. */
  lemma {:induction false} CutCountConstant(edges: seq<Edge>, s: seq<char>, c: char)
    requires InRange(edges, s)
    requires forall i :: 0 <= i < |s| ==> s[i] == c
    ensures CutCount(edges, s) == 0
  {
    if edges != [] {
      CutCountConstant(edges[..|edges| - 1], s, c);
    }
  }

  /** Exchange '0' and '1', leaving any other character alone. */
  function FlipBit(c: char): char
  {
    if c == '0' then '1' else if c == '1' then '0' else c
  }

  /** The complementary partition: every bit flipped. */
  function Complement(s: seq<char>): (t: seq<char>)
    ensures |t| == |s|
  {
    seq(|s|, i requires 0 <= i < |s| => FlipBit(s[i]))
  }

  /** Swapping the two sides of the partition does not change the cut. */
  lemma {:induction false} CutCountComplement(edges: seq<Edge>, s: seq<char>)
    requires InRange(edges, s)
    ensures InRange(edges, Complement(s))
    ensures CutCount(edges, Complement(s)) == CutCount(edges, s)
  {
    if edges != [] {
      CutCountComplement(edges[..|edges| - 1], s);
      var e := edges[|edges| - 1];
      assert IsCut(e, Complement(s)) == IsCut(e, s);
    }
  }

  /** Every edge in the other orientation. */
  function FlipAll(edges: seq<Edge>): (r: seq<Edge>)
    ensures |r| == |edges|
  {
    seq(|edges|, i requires 0 <= i < |edges| => Flipped(edges[i]))
  }

  /** The orientation of the edges does not change the cut. */
  lemma {:induction false} CutCountFlipped(edges: seq<Edge>, s: seq<char>)
    requires InRange(edges, s)
    ensures InRange(FlipAll(edges), s)
    ensures CutCount(FlipAll(edges), s) == CutCount(edges, s)
  {
    var r := FlipAll(edges);
    assert forall e :: e in r ==> exists i :: 0 <= i < |edges| && e == Flipped(edges[i]);
    if edges != [] {
      var k := |edges| - 1;
      assert FlipAll(edges)[..k] == FlipAll(edges[..k]);
      CutCountFlipped(edges[..k], s);
    }
  }

  /** A cut size is 0 exactly when no edge is cut. */
  lemma {:induction false} NoCutEdges(edges: seq<Edge>, s: seq<char>)
    requires InRange(edges, s)
    ensures CutCount(edges, s) == 0 <==> forall e :: e in edges ==> !IsCut(e, s)
  {
    if edges != [] {
      var front := edges[..|edges| - 1];
      assert edges == front + [edges[|edges| - 1]];
      NoCutEdges(front, s);
    }
  }
}
