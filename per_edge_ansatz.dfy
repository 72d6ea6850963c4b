/** The per-edge ansatz and the MaxCut Hamiltonian (build_graph.py). */
module PerEdgeAnsatz {
  import opened Gates
  import opened CutSize

  /** build_ansatz: Hadamards on all n qubits, then for edge i the block
      cx(u, v); ry(theta[i], v); cx(u, v), one parameter per edge. qiskit rejects
      cx(u, u), so a self-loop makes the call raise and nothing is returned. */
  method BuildAnsatz(n: nat, edges: seq<Edge>) returns (r: Option<Ansatz>)
    ensures r.None? <==> !NoSelfLoops(edges)
    ensures r.Some? ==> r.value.numQubits == n && r.value.numParams == |edges|
    ensures r.Some? ==> |r.value.ops| == n + 3 * |edges|
    ensures r.Some? ==> r.value.ops[..n] == HLayer(n)
    ensures r.Some? ==> forall i :: 0 <= i < |edges| ==>
              && r.value.ops[n + 3 * i] == CX(edges[i].0, edges[i].1)
              && r.value.ops[n + 3 * i + 1] == RY(i, edges[i].1)
              && r.value.ops[n + 3 * i + 2] == CX(edges[i].0, edges[i].1)
  {
    var ops := HLayer(n);
    for i := 0 to |edges|
      invariant |ops| == n + 3 * i
      invariant ops[..n] == HLayer(n)
      invariant NoSelfLoops(edges[..i])
      invariant forall j :: 0 <= j < i ==>
                  && ops[n + 3 * j] == CX(edges[j].0, edges[j].1)
                  && ops[n + 3 * j + 1] == RY(j, edges[j].1)
                  && ops[n + 3 * j + 2] == CX(edges[j].0, edges[j].1)
    {
      var (u, v) := edges[i];
      if u == v {
        assert edges[i] in edges;
        return None;
      }
      assert edges[..i + 1] == edges[..i] + [edges[i]];
      ops := ops + [CX(u, v), RY(i, v), CX(u, v)];
    }
    assert edges[..|edges|] == edges;
    r := Some(Ansatz(n, |edges|, ops));
  }

  /** A Pauli string with its real coefficient. */
  type PauliTerm = (seq<char>, real)

  /** The pauli of the identity on n qubits. */
  function Identity(n: nat): (pauli: seq<char>)
  {
    seq(n, _ => 'I')
  }

  /** The label of edge e's term on n qubits: 'Z' on both endpoints, 'I' everywhere else. */
  predicate IsEdgeLabel(n: nat, e: Edge, pauli: seq<char>)
  {
    && |pauli| == n
    && forall q :: 0 <= q < n ==> pauli[q] == (if q == e.0 || q == e.1 then 'Z' else 'I')
  }

  /** The per-edge `z_term` list: all 'I', then 'Z' written at u and at v. */
  method ZTerm(n: nat, u: Node, v: Node) returns (pauli: seq<char>)
    requires u < n && v < n
    ensures IsEdgeLabel(n, (u, v), pauli)
  {
    var zTerm := new char[n](_ => 'I');
    zTerm[u] := 'Z';
    zTerm[v] := 'Z';
    pauli := zTerm[..];
  }

  /** Sum of the coefficients of a list of terms. */
  function CoeffSum(terms: seq<PauliTerm>): real
  {
    if terms == [] then 0.0 else CoeffSum(terms[..|terms| - 1]) + terms[|terms| - 1].1
  }

  /** The shape that build_maxcut_hamiltonian gives its result: the identity with
      coefficient -|E|/2, then one ZZ term with coefficient 1/2 per edge, in edge order. */
  ghost predicate IsMaxcutHamiltonian(n: nat, edges: seq<Edge>, terms: seq<PauliTerm>)
  {
    && |terms| == |edges| + 1
    && terms[0] == (Identity(n), -(|edges| as real) / 2.0)
    && forall i :: 1 <= i < |terms| ==> terms[i].1 == 0.5 && IsEdgeLabel(n, edges[i - 1], terms[i].0)
  }

  /** build_maxcut_hamiltonian: the pauli and coefficient lists are filled in step, then
      zipped. The coefficients cancel out exactly. */
  method BuildMaxcutHamiltonian(n: nat, edges: seq<Edge>) returns (terms: seq<PauliTerm>)
    requires forall e :: e in edges ==> e.0 < n && e.1 < n
    ensures IsMaxcutHamiltonian(n, edges, terms)
    ensures CoeffSum(terms) == 0.0
  {
    var numEdges := |edges|;
    var pauliTerms := [Identity(n)];
    var coeffs := [-(numEdges as real) / 2.0];
    for i := 0 to |edges|
      invariant |pauliTerms| == |coeffs| == i + 1
      invariant pauliTerms[0] == Identity(n) && coeffs[0] == -(numEdges as real) / 2.0
      invariant forall j :: 1 <= j <= i ==> coeffs[j] == 0.5 && IsEdgeLabel(n, edges[j - 1], pauliTerms[j])
    {
      var (u, v) := edges[i];
      var zTerm := ZTerm(n, u, v);
      pauliTerms := pauliTerms + [zTerm];
      coeffs := coeffs + [0.5];
    }
    terms := seq(|pauliTerms|, k requires 0 <= k < |pauliTerms| => (pauliTerms[k], coeffs[k]));
    HamiltonianCoeffsCancel(n, edges, terms, |edges|);
    assert terms[..|edges| + 1] == terms;
  }

  /** Over the first k edge terms the coefficients sum to -|E|/2 + k/2. */
  lemma {:induction false} HamiltonianCoeffsCancel(n: nat, edges: seq<Edge>, terms: seq<PauliTerm>, k: nat)
    requires IsMaxcutHamiltonian(n, edges, terms) && k <= |edges|
    ensures CoeffSum(terms[..k + 1]) == -(|edges| as real) / 2.0 + (k as real) / 2.0
  {
    if k == 0 {
      assert terms[..1][..0] == [];
    } else {
      HamiltonianCoeffsCancel(n, edges, terms, k - 1);
      assert terms[..k + 1][..k] == terms[..k];
    }
  }

  // ---------------------------------------------------------------------------------
  // Energy of a diagonal Hamiltonian on a basis state: a reference semantics for the
  // labels and coefficients above.

  /** Number of positions below k where the pauli has 'Z' and the basis state has '1'. */
  function ZOnes(pauli: seq<char>, x: seq<char>, k: nat): nat
    requires k <= |pauli| && k <= |x|
  {
    if k == 0 then 0
    else ZOnes(pauli, x, k - 1) + (if pauli[k - 1] == 'Z' && x[k - 1] == '1' then 1 else 0)
  }

  /** Eigenvalue (+1 or -1) of a Z/I string on the basis state x. */
  function Sign(pauli: seq<char>, x: seq<char>): int
    requires |pauli| == |x|
  {
    if ZOnes(pauli, x, |x|) % 2 == 0 then 1 else -1
  }

  /** Every term acts on as many qubits as the basis state has. */
  predicate SameWidth(terms: seq<PauliTerm>, x: seq<char>)
  {
    forall t :: t in terms ==> |t.0| == |x|
  }

  /** Expectation of a sum of Z/I strings on the basis state x. */
  function Energy(terms: seq<PauliTerm>, x: seq<char>): real
    requires SameWidth(terms, x)
  {
    if terms == [] then 0.0
    else Energy(terms[..|terms| - 1], x) + terms[|terms| - 1].1 * (Sign(terms[|terms| - 1].0, x) as real)
  }

  predicate IsBinary(x: seq<char>)
  {
    forall i :: 0 <= i < |x| ==> x[i] == '0' || x[i] == '1'
  }

  /** The identity pauli has no 'Z'. */
  lemma {:induction false} ZOnesIdentity(x: seq<char>, k: nat)
    requires k <= |x|
    ensures ZOnes(Identity(|x|), x, k) == 0
  {
    if k > 0 {
      ZOnesIdentity(x, k - 1);
    }
  }

  /** A pauli with 'Z' exactly on u and v counts those of u and v that are '1'. */
  lemma {:induction false} ZOnesEdge(pauli: seq<char>, x: seq<char>, u: Node, v: Node, k: nat)
    requires IsEdgeLabel(|x|, (u, v), pauli) && k <= |x| && u != v
    ensures ZOnes(pauli, x, k) ==
              (if u < k && x[u] == '1' then 1 else 0) + (if v < k && x[v] == '1' then 1 else 0)
  {
    if k > 0 {
      ZOnesEdge(pauli, x, u, v, k - 1);
    }
  }

  /** An edge term's sign is -1 exactly when the edge is cut. */
  lemma EdgeTermSign(pauli: seq<char>, x: seq<char>, e: Edge)
    requires IsEdgeLabel(|x|, e, pauli) && IsBinary(x) && e.0 < |x| && e.1 < |x| && e.0 != e.1
    ensures Sign(pauli, x) == if IsCut(e, x) then -1 else 1
  {
    ZOnesEdge(pauli, x, e.0, e.1, |x|);
  }

  /** Energy of the first k edge terms (after the identity term). */
  lemma {:induction false} EnergyPrefix(n: nat, edges: seq<Edge>, terms: seq<PauliTerm>, x: seq<char>, k: nat)
    requires IsMaxcutHamiltonian(n, edges, terms) && |x| == n && IsBinary(x)
    requires forall e :: e in edges ==> e.0 < n && e.1 < n && e.0 != e.1
    requires k <= |edges|
    ensures SameWidth(terms[..k + 1], x) && InRange(edges[..k], x)
    ensures Energy(terms[..k + 1], x)
              == -(|edges| as real) / 2.0 + ((k as real) - 2.0 * (CutCount(edges[..k], x) as real)) / 2.0
  {
    assert forall j :: 0 <= j < k + 1 ==> |terms[j].0| == n;
    if k == 0 {
      assert terms[..1][..0] == [];
      ZOnesIdentity(x, n);
    } else {
      EnergyPrefix(n, edges, terms, x, k - 1);
      assert terms[..k + 1][..k] == terms[..k];
      assert edges[..k][..k - 1] == edges[..k - 1];
      var e := edges[k - 1];
      assert e in edges;
      EdgeTermSign(terms[k].0, x, e);
      var prev := Energy(terms[..k], x);
      var cutPrev := CutCount(edges[..k - 1], x);
      var cut: nat := if IsCut(e, x) then 1 else 0;
      assert Energy(terms[..k + 1], x) == prev + 0.5 * (if cut == 1 then -1.0 else 1.0);
      assert CutCount(edges[..k], x) == cutPrev + cut;
    }
  }

  /** The built Hamiltonian's energy on a basis state is minus the cut size of that
      partition: minimising it maximises the cut. */
  lemma MaxcutEnergyIsMinusCut(n: nat, edges: seq<Edge>, terms: seq<PauliTerm>, x: seq<char>)
    requires IsMaxcutHamiltonian(n, edges, terms) && |x| == n && IsBinary(x)
    requires forall e :: e in edges ==> e.0 < n && e.1 < n && e.0 != e.1
    ensures SameWidth(terms, x) && InRange(edges, x)
    ensures Energy(terms, x) == -(CutCount(edges, x) as real)
  {
    EnergyPrefix(n, edges, terms, x, |edges|);
    assert terms[..|edges| + 1] == terms;
    assert edges[..|edges|] == edges;
  }
}
