/** Vocabulary shared by every assembler and analysis of the model: graph nodes, edges,
    the instruction set of an assembled circuit, and small sequence helpers. */
module Gates {

  /** A graph node; the source's graphs number their nodes 0..n-1. */
  type Node = nat

  /** An edge as the source stores it: an ordered pair of nodes. */
  type Edge = (Node, Node)

  /** One instruction of an assembled circuit. A rotation's `param` is the position of its
      angle in the circuit's parameter vector, not a numeric value. */
  datatype Gate =
    | H(q: Node)
    | CX(control: Node, target: Node)
    | RY(param: nat, q: Node)
    | RZ(param: nat, q: Node)
    | Barrier
    | MeasureAll

  /** An assembled circuit: its qubit count, the length of its parameter vector and its
      instructions in order. */
  datatype Ansatz = Ansatz(numQubits: nat, numParams: nat, ops: seq<Gate>)

  /** The instruction that `h(range(n))` appends: a Hadamard on each qubit, in ascending order. */
  function HLayer(n: nat): (ops: seq<Gate>)
  {
    seq(n, q requires 0 <= q => H(q))
  }

  function Min(a: nat, b: nat): nat
  {
    if a <= b then a else b
  }

  datatype Option<T> = None | Some(value: T)

  /** No element occurs twice. */
  predicate Distinct<T(==)>(s: seq<T>)
  {
    forall i, j :: 0 <= i < j < |s| ==> s[i] != s[j]
  }

  lemma DistinctAppend<T>(s: seq<T>, x: T)
    ensures Distinct(s) && x !in s ==> Distinct(s + [x])
  {
  }

  lemma AppendAssoc<T>(a: seq<T>, b: seq<T>, c: seq<T>)
    ensures a + b + c == a + (b + c)
  {
  }

  /** The integers lo .. hi-1 as a set. */
  function Interval(lo: nat, hi: nat): (r: set<nat>)
    requires lo <= hi
    ensures forall t :: t in r <==> lo <= t < hi
    ensures |r| == hi - lo
    decreases hi - lo
  {
    if lo == hi then {} else Interval(lo, hi - 1) + {hi - 1}
  }

  /** A subset is no larger than its superset. */
  lemma {:induction false} SubsetCardinality<T>(a: set<T>, b: set<T>)
    requires a <= b
    ensures |a| <= |b|
  {
    if a != {} {
      var x :| x in a;
      SubsetCardinality(a - {x}, b - {x});
    }
  }

  /** No edge of the list joins a node to itself. */
  predicate NoSelfLoops(edges: seq<Edge>)
  {
    forall e :: e in edges ==> e.0 != e.1
  }

  /** The same edge in the other orientation. */
  function Flipped(e: Edge): Edge
  {
    (e.1, e.0)
  }

  /** The distinct endpoints of a list of edges: the node set of the graph they span. */
  function NodesOf(edges: seq<Edge>): (nodes: set<Node>)
    ensures forall e :: e in edges ==> e.0 in nodes && e.1 in nodes
  {
    if edges == [] then {}
    else NodesOf(edges[..|edges| - 1]) + {edges[|edges| - 1].0, edges[|edges| - 1].1}
  }

  /** Adding an edge adds its two endpoints. */
  lemma NodesOfAppend(edges: seq<Edge>, e: Edge)
    ensures NodesOf(edges + [e]) == NodesOf(edges) + {e.0, e.1}
  {
    assert (edges + [e])[..|edges|] == edges;
  }

  /** `a` can be obtained from `b` by deleting elements, keeping the order of the rest. */
  predicate IsSubseq<T(==)>(a: seq<T>, b: seq<T>)
    decreases |b|
  {
    if a == [] then true
    else if b == [] then false
    else if a[|a| - 1] == b[|b| - 1] then IsSubseq(a[..|a| - 1], b[..|b| - 1])
    else IsSubseq(a, b[..|b| - 1])
  }

  /** Appending an element to the longer sequence keeps a subsequence. */
  lemma {:induction false} SubseqExtend<T>(a: seq<T>, b: seq<T>, x: T)
    requires IsSubseq(a, b)
    ensures IsSubseq(a, b + [x])
    decreases |b|, 1
  {
    if a == [] {
    } else if a[|a| - 1] == x {
      assert (b + [x])[..|b|] == b;
      SubseqDropLast(a, b);
    } else {
      assert (b + [x])[..|b|] == b;
    }
  }

  /** Dropping the last element of the shorter sequence keeps a subsequence. */
  lemma {:induction false} SubseqDropLast<T>(a: seq<T>, b: seq<T>)
    requires a != [] && IsSubseq(a, b)
    ensures IsSubseq(a[..|a| - 1], b)
    decreases |b|, 0
  {
    var a' := a[..|a| - 1];
    if a[|a| - 1] == b[|b| - 1] {
      if a' != [] {
        SubseqExtend(a', b[..|b| - 1], b[|b| - 1]);
        assert b[..|b| - 1] + [b[|b| - 1]] == b;
      }
    } else {
      SubseqDropLast(a, b[..|b| - 1]);
      if a' != [] {
        SubseqExtend(a', b[..|b| - 1], b[|b| - 1]);
        assert b[..|b| - 1] + [b[|b| - 1]] == b;
      }
    }
  }

  /** Appending the same element to both sides keeps a subsequence. */
  lemma SubseqAppendBoth<T>(a: seq<T>, b: seq<T>, x: T)
    requires IsSubseq(a, b)
    ensures IsSubseq(a + [x], b + [x])
  {
    assert (a + [x])[..|a|] == a;
    assert (b + [x])[..|b|] == b;
  }

  /** Every element of a subsequence occurs in the sequence it was taken from. */
  lemma {:induction false} SubseqElements<T>(a: seq<T>, b: seq<T>)
    requires IsSubseq(a, b)
    ensures forall x :: x in a ==> x in b
    decreases |b|
  {
    if a != [] {
      if a[|a| - 1] == b[|b| - 1] {
        SubseqElements(a[..|a| - 1], b[..|b| - 1]);
        assert a == a[..|a| - 1] + [a[|a| - 1]];
      } else {
        SubseqElements(a, b[..|b| - 1]);
      }
    }
  }
}
