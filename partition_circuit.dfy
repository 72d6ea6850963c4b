/** The partition-based circuit assembler (circuit.py, class Circuit). The parameter
    vector is represented by its indices; qiskit's QuantumCircuit by the list of
    instructions appended to it. */
module PartitionCircuit {
  import opened Gates

  /** The exceptions the source raises on its malformed branches. */
  datatype CircuitError =
    | AngleIsVector   // rz is handed the whole parameter vector (optimize=False)
    | ListHasNoKeys   // .keys() is called on the flattened residual list (undo_gates=True)
    | InvalidQubits   // an instruction names a qubit the circuit lacks, or a cx names one twice

  /** Does qiskit accept the instruction on a circuit of n qubits? Every qubit it names
      must be below n, and a cx must name two different qubits. A barrier and a final
      measurement span whatever qubits the circuit has. */
  predicate Fits(g: Gate, n: nat)
  {
    match g
    case H(q) => q < n
    case CX(a, b) => a < n && b < n && a != b
    case RY(_, q) => q < n
    case RZ(_, q) => q < n
    case Barrier => true
    case MeasureAll => true
  }

  /** Every instruction of the list fits. */
  predicate AllFit(ops: seq<Gate>, n: nat)
  {
    ops == [] || (Fits(ops[0], n) && AllFit(ops[1..], n))
  }

  /** A list fits when each of its instructions does. */
  lemma {:induction false} AllFitEach(ops: seq<Gate>, n: nat)
    requires forall i :: 0 <= i < |ops| ==> Fits(ops[i], n)
    ensures AllFit(ops, n)
  {
    if ops != [] {
      AllFitEach(ops[1..], n);
    }
  }

  /** What a run of appends leaves behind on a circuit of n qubits: qiskit raises at the
      first instruction that names a missing qubit, before adding it, so the run keeps
      exactly the longest prefix whose instructions all fit. */
  function FitPrefix(ops: seq<Gate>, n: nat): seq<Gate>
  {
    if ops == [] || !Fits(ops[0], n) then [] else [ops[0]] + FitPrefix(ops[1..], n)
  }

  /** The run keeps a prefix of the list in which everything fits, and it stops only at
      the end or at an instruction that does not fit: the longest such prefix. */
  lemma {:induction false} FitPrefixIsLongest(ops: seq<Gate>, n: nat)
    ensures FitPrefix(ops, n) <= ops && AllFit(FitPrefix(ops, n), n)
    ensures FitPrefix(ops, n) == ops || (|FitPrefix(ops, n)| < |ops| && !Fits(ops[|FitPrefix(ops, n)|], n))
    ensures FitPrefix(ops, n) == ops <==> AllFit(ops, n)
  {
    if ops != [] && Fits(ops[0], n) {
      var rest := FitPrefix(ops[1..], n);
      FitPrefixIsLongest(ops[1..], n);
      assert ops == [ops[0]] + ops[1..];
      assert ([ops[0]] + rest)[1..] == rest;
    }
  }

  lemma {:induction false} AllFitAppend(a: seq<Gate>, b: seq<Gate>, n: nat)
    ensures AllFit(a + b, n) <==> AllFit(a, n) && AllFit(b, n)
  {
    if a == [] {
      assert a + b == b;
    } else {
      assert (a + b)[0] == a[0] && (a + b)[1..] == a[1..] + b;
      AllFitAppend(a[1..], b, n);
    }
  }

  /** Instructions that all fit go through, and the run goes on with what follows. */
  lemma {:induction false} FitPrefixAppend(a: seq<Gate>, b: seq<Gate>, n: nat)
    requires AllFit(a, n)
    ensures FitPrefix(a + b, n) == a + FitPrefix(b, n)
  {
    if a == [] {
      assert a + b == b;
    } else {
      assert (a + b)[0] == a[0] && (a + b)[1..] == a[1..] + b;
      FitPrefixAppend(a[1..], b, n);
      assert a == [a[0]] + a[1..];
    }
  }

  /** A run that fails inside `a` never reaches `b`. */
  lemma {:induction false} FitPrefixStop(a: seq<Gate>, b: seq<Gate>, n: nat)
    requires !AllFit(a, n)
    ensures FitPrefix(a + b, n) == FitPrefix(a, n)
  {
    assert (a + b)[0] == a[0];
    if Fits(a[0], n) {
      assert (a + b)[1..] == a[1..] + b;
      FitPrefixStop(a[1..], b, n);
    }
  }

  /** A run over done + block + rest that fails inside block keeps done and the part of
      block before the failing instruction. */
  lemma FitPrefixInBlock(done: seq<Gate>, block: seq<Gate>, rest: seq<Gate>, n: nat)
    requires AllFit(done, n) && !AllFit(block, n)
    ensures !AllFit(done + block + rest, n)
    ensures FitPrefix(done + block + rest, n) == done + FitPrefix(block, n)
  {
    AllFitAppend(done, block, n);
    AllFitAppend(done + block, rest, n);
    FitPrefixStop(done + block, rest, n);
    FitPrefixAppend(done, block, n);
  }

  lemma HLayerFits(n: nat)
    ensures AllFit(HLayer(n), n)
  {
    AllFitEach(HLayer(n), n);
  }

  /** The concatenation of the dictionary's value lists, in key order. */
  function Flatten(groups: seq<seq<Edge>>): (flat: seq<Edge>)
  {
    if groups == [] then [] else Flatten(groups[..|groups| - 1]) + groups[|groups| - 1]
  }

  /** The indices lo, lo+1, ..., hi-1. */
  function Range(lo: nat, hi: nat): (r: seq<nat>)
    requires lo <= hi
    ensures |r| == hi - lo && forall i :: 0 <= i < |r| ==> r[i] == lo + i
  {
    seq(hi - lo, i requires 0 <= i < hi - lo => lo + i)
  }

  /** The indices of `gamma[:k]` for a vector of length p. */
  function Head(p: nat, k: nat): seq<nat>
  {
    Range(0, Min(k, p))
  }

  /** The indices of `gamma[-k:]` for a vector of length p: for k = 0 the slice `[-0:]`
      is the whole vector. */
  function Tail(p: nat, k: nat): seq<nat>
    requires k <= p
  {
    if k == 0 then Range(0, p) else Range(p - k, p)
  }

  /** Python's zip: pairs up to the length of the shorter list. */
  function Zip(ids: seq<nat>, edges: seq<Edge>): (z: seq<(nat, Edge)>)
    ensures |z| == Min(|ids|, |edges|)
    ensures forall i :: 0 <= i < |z| ==> z[i] == (ids[i], edges[i])
  {
    seq(Min(|ids|, |edges|), i requires 0 <= i < Min(|ids|, |edges|) => (ids[i], edges[i]))
  }

  /** The two instructions the optimize branch appends for one edge. */
  function OptPair(t: nat, e: Edge): seq<Gate>
  {
    [RZ(t, e.1), CX(e.0, e.1)]
  }

  /** The optimize-branch block: rz(t, e[1]); cx(e[0], e[1]) per pair. */
  function OptGates(pairs: seq<(nat, Edge)>): seq<Gate>
  {
    if pairs == [] then []
    else
      var (t, e) := pairs[|pairs| - 1];
      OptGates(pairs[..|pairs| - 1]) + [RZ(t, e.1), CX(e.0, e.1)]
  }

  /** The residual block: cx(e[0], e[1]); rz(t, e[1]); cx(e[0], e[1]) per pair. */
  function ResidualGates(pairs: seq<(nat, Edge)>): seq<Gate>
  {
    if pairs == [] then []
    else
      var (t, e) := pairs[|pairs| - 1];
      ResidualGates(pairs[..|pairs| - 1]) + [CX(e.0, e.1), RZ(t, e.1), CX(e.0, e.1)]
  }

  /** The optimizable block: rz/cx pairs over the first |res| parameters. */
  function OptBlock(opt: seq<Edge>, res: seq<Edge>): seq<Gate>
  {
    OptGates(Zip(Head(|opt| + |res|, |res|), opt))
  }

  /** The residual block: cx/rz/cx triples over the last |res| parameters. */
  function ResBlock(opt: seq<Edge>, res: seq<Edge>): seq<Gate>
  {
    ResidualGates(Zip(Tail(|opt| + |res|, |res|), res))
  }

  /** Without optimizable edges the optimizable block is empty. */
  lemma NoOptimizableEdges(res: seq<Edge>)
    ensures OptBlock([], res) == []
  {
  }

  /** Everything create_circuit appends before its final instruction. */
  function Body(opt: seq<Edge>, res: seq<Edge>, numQubits: nat): seq<Gate>
  {
    HLayer(numQubits) + OptBlock(opt, res) + ResBlock(opt, res)
  }

  /** The circuit create_circuit(optimize=True, undo_gates=False) appends. */
  function Program(opt: seq<Edge>, res: seq<Edge>, numQubits: nat): seq<Gate>
  {
    Body(opt, res, numQubits) + [MeasureAll]
  }

  /** What create_circuit appends after its Hadamard layer once the optimize=False
      failure is out of the way, block by block: the run stops inside the optimizable
      block, or inside the residual block; when everything fits, undo_gates adds a
      barrier and fails on `.keys()`, and without it the measurement closes the circuit. */
  function Blocks(opt: seq<Edge>, res: seq<Edge>, n: nat, undoGates: bool): (seq<Gate>, Option<CircuitError>)
  {
    var o, r := OptBlock(opt, res), ResBlock(opt, res);
    if !AllFit(o, n) then (FitPrefix(o, n), Some(InvalidQubits))
    else if !AllFit(r, n) then (o + FitPrefix(r, n), Some(InvalidQubits))
    else if undoGates then (o + r + [Barrier], Some(ListHasNoKeys))
    else (o + r + [MeasureAll], None)
  }

  /** What create_circuit appends to a circuit of n qubits, and the error it raises.
      With optimize=False and an optimizable edge, the Hadamard layer and that edge's cx
      go in before rz fails on the whole parameter vector (unless the cx itself names a
      missing qubit); otherwise the Hadamard layer is followed by the blocks. */
  function Created(opt: seq<Edge>, res: seq<Edge>, n: nat, optimize: bool, undoGates: bool)
    : (seq<Gate>, Option<CircuitError>)
  {
    if !optimize && opt != [] then
      if Fits(CX(opt[0].0, opt[0].1), n) then (HLayer(n) + [CX(opt[0].0, opt[0].1)], Some(AngleIsVector))
      else (HLayer(n), Some(InvalidQubits))
    else (HLayer(n) + Blocks(opt, res, n, undoGates).0, Blocks(opt, res, n, undoGates).1)
  }

  /** Past the optimize=False failure, create_circuit appends the longest prefix of its
      body whose instructions all name existing qubits; it fails with InvalidQubits
      exactly when that prefix is not the whole body, and otherwise ends as undo_gates
      says. */
  lemma CreatedRun(opt: seq<Edge>, res: seq<Edge>, n: nat, optimize: bool, undoGates: bool)
    requires optimize || opt == []
    ensures !AllFit(Body(opt, res, n), n) ==>
              Created(opt, res, n, optimize, undoGates) == (FitPrefix(Body(opt, res, n), n), Some(InvalidQubits))
    ensures AllFit(Body(opt, res, n), n) && undoGates ==>
              Created(opt, res, n, optimize, undoGates) == (Body(opt, res, n) + [Barrier], Some(ListHasNoKeys))
    ensures AllFit(Body(opt, res, n), n) && !undoGates ==>
              Created(opt, res, n, optimize, undoGates) == (Program(opt, res, n), None)
  {
    var h, o, r := HLayer(n), OptBlock(opt, res), ResBlock(opt, res);
    HLayerFits(n);
    BodyRun(h, o, r, n);
    if AllFit(o, n) {
      if AllFit(r, n) {
        AppendAssoc(h, o + r, [Barrier]);
        AppendAssoc(h, o + r, [MeasureAll]);
        AppendAssoc(h, o, r);
      } else {
        AppendAssoc(h, o, FitPrefix(r, n));
      }
    }
  }

  class Circuit {
    var optEdges: seq<Edge>
    var noOptEdges: seq<Edge>
    var numParams: nat
    var numQubits: nat
    var qc: seq<Gate>

    /** The parameter vector has one entry per edge and the circuit one qubit per
        distinct endpoint. */
    ghost predicate Valid()
      reads this
    {
      && numParams == |optEdges| + |noOptEdges|
      && numQubits == |NodesOf(optEdges + noOptEdges)|
    }

    /** __init__: flattens the residual dictionary (given as its value lists in key
        order), sizes the parameter vector and counts the nodes of the graph spanned
        by all edges. The `gamma` argument is overwritten by the source and omitted. */
    constructor (optEdges: seq<Edge>, noOptGroups: seq<seq<Edge>>)
      ensures Valid()
      ensures this.optEdges == optEdges && noOptEdges == Flatten(noOptGroups)
      ensures numParams == |optEdges| + |Flatten(noOptGroups)|
      ensures qc == []
    {
      var flat: seq<Edge> := [];
      for k := 0 to |noOptGroups|
        invariant flat == Flatten(noOptGroups[..k])
      {
        assert noOptGroups[..k + 1][..k] == noOptGroups[..k];
        flat := flat + noOptGroups[k];
      }
      assert noOptGroups[..|noOptGroups|] == noOptGroups;
      var edges := optEdges;
      for i := 0 to |flat|
        invariant edges == optEdges + flat[..i]
      {
        assert flat[..i + 1] == flat[..i] + [flat[i]];
        edges := edges + [flat[i]];
      }
      assert flat[..|flat|] == flat;
      this.optEdges := optEdges;
      noOptEdges := flat;
      numParams := |optEdges| + |flat|;
      numQubits := |NodesOf(edges)|;
      qc := [];
    }

    /** One qiskit append: the instruction's qubits are checked first, and an instruction
        naming a missing qubit raises without being added. */
    method Emit(g: Gate) returns (ok: bool)
      modifies this`qc
      ensures ok == Fits(g, numQubits)
      ensures qc == if ok then old(qc) + [g] else old(qc)
    {
      ok := Fits(g, numQubits);
      if ok {
        qc := qc + [g];
      }
    }

    /** One optimizable edge: rz(t, e[1]); cx(e[0], e[1]), stopping at the first that
        names a missing qubit. */
    method EmitOptEdge(t: nat, edge: Edge) returns (ok: bool)
      modifies this`qc
      ensures ok == AllFit(OptPair(t, edge), numQubits)
      ensures qc == old(qc) + FitPrefix(OptPair(t, edge), numQubits)
    {
      var rz, cx := RZ(t, edge.1), CX(edge.0, edge.1);
      assert OptPair(t, edge)[1..] == [cx] && [cx][1..] == [];
      assert FitPrefix([cx], numQubits) == if Fits(cx, numQubits) then [cx] else [];
      assert AllFit([cx], numQubits) == Fits(cx, numQubits);
      ok := Emit(rz);
      if ok {
        ok := Emit(cx);
      }
    }

    /** One residual edge: cx(e[0], e[1]); rz(t, e[1]); cx(e[0], e[1]). The rz and the
        closing cx name qubits of the opening cx, so only the opening one can fail. */
    method EmitResidualEdge(t: nat, edge: Edge) returns (ok: bool)
      modifies this`qc
      ensures ok == Fits(CX(edge.0, edge.1), numQubits)
      ensures qc == if ok then old(qc) + [CX(edge.0, edge.1), RZ(t, edge.1), CX(edge.0, edge.1)] else old(qc)
    {
      ghost var start := qc;
      ok := Emit(CX(edge.0, edge.1));
      if ok {
        var fits := Emit(RZ(t, edge.1));
        fits := Emit(CX(edge.0, edge.1));
        AppendThree(start, CX(edge.0, edge.1), RZ(t, edge.1), CX(edge.0, edge.1));
      }
    }

    /** The residual loop over (parameter, edge) pairs: a cx/rz/cx triple per pair,
        stopping at the first triple whose opening cx names a missing qubit. */
    method EmitResidualPairs(pairs: seq<(nat, Edge)>) returns (ok: bool)
      modifies this`qc
      ensures ok == AllFit(ResidualGates(pairs), numQubits)
      ensures qc == old(qc) + FitPrefix(ResidualGates(pairs), numQubits)
    {
      ghost var start := qc;
      for i := 0 to |pairs|
        invariant qc == start + ResidualGates(pairs[..i])
        invariant AllFit(ResidualGates(pairs[..i]), numQubits)
      {
        ResidualGatesSnoc(pairs, i);
        var t, edge := pairs[i].0, pairs[i].1;
        ok := EmitResidualEdge(t, edge);
        if !ok {
          ResidualStopsAt(pairs, i, numQubits);
          return;
        }
        AppendAssoc(start, ResidualGates(pairs[..i]), [CX(edge.0, edge.1), RZ(t, edge.1), CX(edge.0, edge.1)]);
        ResidualFitsOn(ResidualGates(pairs[..i]), t, edge, numQubits);
      }
      assert pairs[..|pairs|] == pairs;
      FitPrefixIsLongest(ResidualGates(pairs), numQubits);
      ok := true;
    }

    /** _add_unoptimized_edges: the residual block over the last |noOptEdges| parameters;
        with undo_gates a barrier is appended and then the source fails on `.keys()`. An
        edge naming a missing qubit stops the block at its first such instruction. */
    method AddUnoptimizedEdges(undoGates: bool) returns (err: Option<CircuitError>)
      requires Valid()
      modifies this`qc
      ensures !AllFit(ResBlock(optEdges, noOptEdges), numQubits) ==>
                err == Some(InvalidQubits) && qc == old(qc) + FitPrefix(ResBlock(optEdges, noOptEdges), numQubits)
      ensures AllFit(ResBlock(optEdges, noOptEdges), numQubits) && !undoGates ==>
                err == None && qc == old(qc) + ResBlock(optEdges, noOptEdges)
      ensures AllFit(ResBlock(optEdges, noOptEdges), numQubits) && undoGates ==>
                err == Some(ListHasNoKeys) && qc == old(qc) + ResBlock(optEdges, noOptEdges) + [Barrier]
    {
      var pairs := Zip(Tail(numParams, |noOptEdges|), noOptEdges);
      ghost var block := ResidualGates(pairs);
      assert block == ResBlock(optEdges, noOptEdges);
      var ok := EmitResidualPairs(pairs);
      if !ok {
        return Some(InvalidQubits);
      }
      FitPrefixIsLongest(block, numQubits);
      err := None;
      if undoGates {
        qc := qc + [Barrier];
        err := Some(ListHasNoKeys);
      }
    }

    /** The optimize=True loop over (parameter, edge) pairs: rz(t, e[1]); cx(e[0], e[1])
        per pair, stopping at the first instruction that names a missing qubit. */
    method EmitOptPairs(pairs: seq<(nat, Edge)>) returns (ok: bool)
      modifies this`qc
      ensures ok == AllFit(OptGates(pairs), numQubits)
      ensures qc == old(qc) + FitPrefix(OptGates(pairs), numQubits)
    {
      ghost var start := qc;
      for i := 0 to |pairs|
        invariant qc == start + OptGates(pairs[..i])
        invariant AllFit(OptGates(pairs[..i]), numQubits)
      {
        OptGatesSnoc(pairs, i);
        var t, edge := pairs[i].0, pairs[i].1;
        ok := EmitOptEdge(t, edge);
        if !ok {
          OptStopsAt(pairs, i, numQubits);
          AppendAssoc(start, OptGates(pairs[..i]), FitPrefix(OptPair(t, edge), numQubits));
          return;
        }
        FitPrefixIsLongest(OptPair(t, edge), numQubits);
        AppendAssoc(start, OptGates(pairs[..i]), [RZ(t, edge.1), CX(edge.0, edge.1)]);
        OptFitsOn(OptGates(pairs[..i]), t, edge, numQubits);
      }
      assert pairs[..|pairs|] == pairs;
      FitPrefixIsLongest(OptGates(pairs), numQubits);
      ok := true;
    }

    /** The optimize=True block of create_circuit: the pairs over the first
        |noOptEdges| parameters zipped with the optimizable edges. */
    method AddOptimizedEdges() returns (ok: bool)
      requires Valid()
      modifies this`qc
      ensures ok == AllFit(OptBlock(optEdges, noOptEdges), numQubits)
      ensures qc == old(qc) + FitPrefix(OptBlock(optEdges, noOptEdges), numQubits)
    {
      ok := EmitOptPairs(Zip(Head(numParams, |noOptEdges|), optEdges));
    }

    /** create_circuit: Hadamards on every qubit, the optimizable block (optimize=True)
        or per-edge blocks (optimize=False, which fails at the first rz), the residual
        block, and the final measurement when undo_gates is off. An instruction naming
        a qubit the circuit does not have raises where it occurs. */
    method CreateCircuit(optimize: bool, undoGates: bool) returns (err: Option<CircuitError>)
      requires Valid()
      modifies this`qc
      ensures qc == old(qc) + Created(optEdges, noOptEdges, numQubits, optimize, undoGates).0
      ensures err == Created(optEdges, noOptEdges, numQubits, optimize, undoGates).1
    {
      ghost var q0 := qc;
      qc := qc + HLayer(numQubits);
      if !optimize && optEdges != [] {
        var edge := optEdges[0];
        var fits := Emit(CX(edge.0, edge.1));
        return if fits then Some(AngleIsVector) else Some(InvalidQubits);
      }
      err := AddBlocks(optimize, undoGates);
      AppendAssoc(q0, HLayer(numQubits), Blocks(optEdges, noOptEdges, numQubits, undoGates).0);
    }

    /** The part of create_circuit after the Hadamard layer on the paths that do not
        fail on rz's angle: the optimizable block (empty unless optimize), the residual
        block, then the barrier or the measurement. */
    method AddBlocks(optimize: bool, undoGates: bool) returns (err: Option<CircuitError>)
      requires Valid()
      requires optimize || optEdges == []
      modifies this`qc
      ensures qc == old(qc) + Blocks(optEdges, noOptEdges, numQubits, undoGates).0
      ensures err == Blocks(optEdges, noOptEdges, numQubits, undoGates).1
    {
      ghost var q0 := qc;
      ghost var o, r := OptBlock(optEdges, noOptEdges), ResBlock(optEdges, noOptEdges);
      if optimize {
        var fits := AddOptimizedEdges();
        if !fits {
          return Some(InvalidQubits);
        }
        FitPrefixIsLongest(o, numQubits);
      } else {
        NoOptimizableEdges(noOptEdges);
        assert q0 + o == q0;
      }
      err := AddUnoptimizedEdges(undoGates);
      AppendAssoc(q0, o, FitPrefix(r, numQubits));
      AppendAssoc(q0, o, r);
      if err.Some? {
        AppendAssoc(q0, o + r, [Barrier]);
        return;
      }
      qc := qc + [MeasureAll];
      AppendAssoc(q0, o + r, [MeasureAll]);
    }
  }

  /** The run over the body: the Hadamard layer always fits, so the run stops inside the
      optimizable block, or passes it and stops inside the residual block, or fits. */
  lemma BodyRun(h: seq<Gate>, o: seq<Gate>, r: seq<Gate>, n: nat)
    requires AllFit(h, n)
    ensures !AllFit(o, n) ==> !AllFit(h + o + r, n) && FitPrefix(h + o + r, n) == h + FitPrefix(o, n)
    ensures AllFit(o, n) ==> (AllFit(h + o + r, n) <==> AllFit(r, n))
    ensures AllFit(o, n) ==> FitPrefix(h + o + r, n) == h + o + FitPrefix(r, n)
  {
    AllFitAppend(h, o, n);
    AllFitAppend(h + o, r, n);
    if !AllFit(o, n) {
      FitPrefixInBlock(h, o, r, n);
    } else {
      FitPrefixAppend(h + o, r, n);
    }
  }

  /** Three single appends add the three instructions in order. */
  lemma AppendThree<T>(s: seq<T>, a: T, b: T, c: T)
    ensures s + [a] + [b] + [c] == s + [a, b, c]
  {
  }

  lemma {:induction false} OptGatesAppend(a: seq<(nat, Edge)>, b: seq<(nat, Edge)>)
    ensures OptGates(a + b) == OptGates(a) + OptGates(b)
    decreases |b|
  {
    if b == [] {
      assert a + b == a;
    } else {
      var front := b[..|b| - 1];
      assert (a + b)[..|a + b| - 1] == a + front;
      OptGatesAppend(a, front);
      AppendAssoc(OptGates(a), OptGates(front), OptGates(b)[|OptGates(front)|..]);
    }
  }

  lemma {:induction false} ResidualGatesAppend(a: seq<(nat, Edge)>, b: seq<(nat, Edge)>)
    ensures ResidualGates(a + b) == ResidualGates(a) + ResidualGates(b)
    decreases |b|
  {
    if b == [] {
      assert a + b == a;
    } else {
      var front := b[..|b| - 1];
      assert (a + b)[..|a + b| - 1] == a + front;
      ResidualGatesAppend(a, front);
      AppendAssoc(ResidualGates(a), ResidualGates(front), ResidualGates(b)[|ResidualGates(front)|..]);
    }
  }

  /** A fitting rz/cx pair keeps a fitting list fitting. */
  lemma OptFitsOn(done: seq<Gate>, t: nat, edge: Edge, n: nat)
    requires AllFit(done, n) && Fits(RZ(t, edge.1), n) && Fits(CX(edge.0, edge.1), n)
    ensures AllFit(done + [RZ(t, edge.1), CX(edge.0, edge.1)], n)
  {
    AllFitEach([RZ(t, edge.1), CX(edge.0, edge.1)], n);
    AllFitAppend(done, [RZ(t, edge.1), CX(edge.0, edge.1)], n);
  }

  /** A residual triple whose cx fits keeps a fitting list fitting. */
  lemma ResidualFitsOn(done: seq<Gate>, t: nat, edge: Edge, n: nat)
    requires AllFit(done, n) && Fits(CX(edge.0, edge.1), n)
    ensures AllFit(done + [CX(edge.0, edge.1), RZ(t, edge.1), CX(edge.0, edge.1)], n)
  {
    AllFitEach([CX(edge.0, edge.1), RZ(t, edge.1), CX(edge.0, edge.1)], n);
    AllFitAppend(done, [CX(edge.0, edge.1), RZ(t, edge.1), CX(edge.0, edge.1)], n);
  }

  /** The optimizable loop stops inside pair i: the run keeps the earlier pairs, and the
      rz of pair i when that one fits. */
  lemma OptStopsAt(pairs: seq<(nat, Edge)>, i: nat, n: nat)
    requires i < |pairs| && AllFit(OptGates(pairs[..i]), n)
    requires !AllFit(OptPair(pairs[i].0, pairs[i].1), n)
    ensures !AllFit(OptGates(pairs), n)
    ensures FitPrefix(OptGates(pairs), n) == OptGates(pairs[..i]) + FitPrefix(OptPair(pairs[i].0, pairs[i].1), n)
  {
    assert pairs == pairs[..i + 1] + pairs[i + 1..];
    OptGatesAppend(pairs[..i + 1], pairs[i + 1..]);
    OptGatesSnoc(pairs, i);
    FitPrefixInBlock(OptGates(pairs[..i]), OptPair(pairs[i].0, pairs[i].1), OptGates(pairs[i + 1..]), n);
  }

  /** The residual loop stops at the opening cx of triple i: the run keeps the earlier
      triples. */
  lemma ResidualStopsAt(pairs: seq<(nat, Edge)>, i: nat, n: nat)
    requires i < |pairs| && AllFit(ResidualGates(pairs[..i]), n)
    requires !Fits(CX(pairs[i].1.0, pairs[i].1.1), n)
    ensures !AllFit(ResidualGates(pairs), n)
    ensures FitPrefix(ResidualGates(pairs), n) == ResidualGates(pairs[..i])
  {
    var block := [CX(pairs[i].1.0, pairs[i].1.1), RZ(pairs[i].0, pairs[i].1.1), CX(pairs[i].1.0, pairs[i].1.1)];
    assert pairs == pairs[..i + 1] + pairs[i + 1..];
    ResidualGatesAppend(pairs[..i + 1], pairs[i + 1..]);
    ResidualGatesSnoc(pairs, i);
    FitPrefixInBlock(ResidualGates(pairs[..i]), block, ResidualGates(pairs[i + 1..]), n);
    assert ResidualGates(pairs[..i]) + [] == ResidualGates(pairs[..i]);
  }

  lemma OptGatesSnoc(pairs: seq<(nat, Edge)>, i: nat)
    requires i < |pairs|
    ensures OptGates(pairs[..i + 1])
              == OptGates(pairs[..i]) + [RZ(pairs[i].0, pairs[i].1.1), CX(pairs[i].1.0, pairs[i].1.1)]
  {
    assert pairs[..i + 1][..i] == pairs[..i];
  }

  lemma ResidualGatesSnoc(pairs: seq<(nat, Edge)>, i: nat)
    requires i < |pairs|
    ensures ResidualGates(pairs[..i + 1])
              == ResidualGates(pairs[..i])
                 + [CX(pairs[i].1.0, pairs[i].1.1), RZ(pairs[i].0, pairs[i].1.1), CX(pairs[i].1.0, pairs[i].1.1)]
  {
    assert pairs[..i + 1][..i] == pairs[..i];
  }

  // ---------------------------------------------------------------------------------
  // What the emitted blocks contain.

  /** The optimizable block holds the pair rz(t_i, e_i[1]); cx(e_i) for each zipped pair i. */
  lemma {:induction false} OptGatesAt(pairs: seq<(nat, Edge)>)
    ensures |OptGates(pairs)| == 2 * |pairs|
    ensures forall i :: 0 <= i < |pairs| ==>
              && OptGates(pairs)[2 * i] == RZ(pairs[i].0, pairs[i].1.1)
              && OptGates(pairs)[2 * i + 1] == CX(pairs[i].1.0, pairs[i].1.1)
  {
    if pairs != [] {
      OptGatesAt(pairs[..|pairs| - 1]);
    }
  }

  /** The residual block holds cx(e_i); rz(t_i, e_i[1]); cx(e_i) for each zipped pair i. */
  lemma {:induction false} ResidualGatesAt(pairs: seq<(nat, Edge)>)
    ensures |ResidualGates(pairs)| == 3 * |pairs|
    ensures forall i :: 0 <= i < |pairs| ==>
              && ResidualGates(pairs)[3 * i] == CX(pairs[i].1.0, pairs[i].1.1)
              && ResidualGates(pairs)[3 * i + 1] == RZ(pairs[i].0, pairs[i].1.1)
              && ResidualGates(pairs)[3 * i + 2] == CX(pairs[i].1.0, pairs[i].1.1)
  {
    if pairs != [] {
      ResidualGatesAt(pairs[..|pairs| - 1]);
    }
  }

  /** The parameter index a gate refers to, if it is a rotation. */
  function GateParams(g: Gate): set<nat>
  {
    match g
    case RZ(t, _) => {t}
    case RY(t, _) => {t}
    case _ => {}
  }

  /** The parameter indices that the rotations of an instruction list refer to. */
  function ParamsOf(ops: seq<Gate>): set<nat>
  {
    if ops == [] then {} else ParamsOf(ops[..|ops| - 1]) + GateParams(ops[|ops| - 1])
  }

  lemma {:induction false} ParamsOfAppend(a: seq<Gate>, b: seq<Gate>)
    ensures ParamsOf(a + b) == ParamsOf(a) + ParamsOf(b)
    decreases |b|
  {
    if b == [] {
      assert a + b == a;
    } else {
      assert (a + b)[..|a + b| - 1] == a + b[..|b| - 1];
      ParamsOfAppend(a, b[..|b| - 1]);
    }
  }

  /** The parameter indices a list of zipped pairs hands out. */
  function PairParams(pairs: seq<(nat, Edge)>): set<nat>
  {
    if pairs == [] then {} else PairParams(pairs[..|pairs| - 1]) + {pairs[|pairs| - 1].0}
  }

  /** Pairs whose indices count up from lo hand out exactly lo .. lo + |pairs| - 1. */
  lemma {:induction false} PairParamsInterval(pairs: seq<(nat, Edge)>, lo: nat)
    requires forall i :: 0 <= i < |pairs| ==> pairs[i].0 == lo + i
    ensures PairParams(pairs) == Interval(lo, lo + |pairs|)
  {
    if pairs != [] {
      PairParamsInterval(pairs[..|pairs| - 1], lo);
    }
  }

  /** The rotations of the optimizable block use exactly the zipped indices. */
  lemma {:induction false} OptParamsAre(pairs: seq<(nat, Edge)>)
    ensures ParamsOf(OptGates(pairs)) == PairParams(pairs)
  {
    if pairs != [] {
      var (t, e) := pairs[|pairs| - 1];
      OptParamsAre(pairs[..|pairs| - 1]);
      ParamsOfAppend(OptGates(pairs[..|pairs| - 1]), [RZ(t, e.1), CX(e.0, e.1)]);
      assert [RZ(t, e.1), CX(e.0, e.1)][..1] == [RZ(t, e.1)];
      assert [RZ(t, e.1)][..0] == [];
      assert ParamsOf([RZ(t, e.1)]) == {t};
      assert ParamsOf([RZ(t, e.1), CX(e.0, e.1)]) == {t};
    }
  }

  /** The rotations of the residual block use exactly the zipped indices. */
  lemma {:induction false} ResidualParamsAre(pairs: seq<(nat, Edge)>)
    ensures ParamsOf(ResidualGates(pairs)) == PairParams(pairs)
  {
    if pairs != [] {
      var (t, e) := pairs[|pairs| - 1];
      ResidualParamsAre(pairs[..|pairs| - 1]);
      var block := [CX(e.0, e.1), RZ(t, e.1), CX(e.0, e.1)];
      ParamsOfAppend(ResidualGates(pairs[..|pairs| - 1]), block);
      assert block[..2] == [CX(e.0, e.1), RZ(t, e.1)];
      assert block[..2][..1] == [CX(e.0, e.1)];
      assert block[..2][..1][..0] == [];
      assert ParamsOf([CX(e.0, e.1)]) == {};
      assert ParamsOf(block[..2]) == {t};
      assert ParamsOf(block) == {t};
    }
  }

  /** The optimizable block uses parameters 0 .. min(|opt|, |res|) - 1 and stops after
      that many edges: the remaining optimizable edges get no gates. */
  lemma OptBlockParams(opt: seq<Edge>, res: seq<Edge>)
    ensures |OptBlock(opt, res)| == 2 * Min(|opt|, |res|)
    ensures ParamsOf(OptBlock(opt, res)) == Interval(0, Min(|opt|, |res|))
  {
    var pairs := Zip(Head(|opt| + |res|, |res|), opt);
    OptGatesAt(pairs);
    OptParamsAre(pairs);
    PairParamsInterval(pairs, 0);
  }

  /** The residual block of edge i uses parameter |opt| + i: the last |res| parameters. */
  lemma ResidualBlockParams(opt: seq<Edge>, res: seq<Edge>)
    ensures |ResBlock(opt, res)| == 3 * |res|
    ensures forall i :: 0 <= i < |res| ==> ResBlock(opt, res)[3 * i + 1] == RZ(|opt| + i, res[i].1)
    ensures ParamsOf(ResBlock(opt, res)) == Interval(|opt|, |opt| + |res|)
  {
    var pairs := Zip(Tail(|opt| + |res|, |res|), res);
    TailPairs(opt, res);
    ResidualGatesAt(pairs);
    assert ResBlock(opt, res) == ResidualGates(pairs);
    forall i | 0 <= i < |res|
      ensures ResBlock(opt, res)[3 * i + 1] == RZ(|opt| + i, res[i].1)
    {
      assert pairs[i] == (|opt| + i, res[i]);
      assert ResidualGates(pairs)[3 * i + 1] == RZ(pairs[i].0, pairs[i].1.1);
    }
    ResidualParamsAre(pairs);
    PairParamsInterval(pairs, |opt|);
  }

  /** The residual edges are zipped with the parameters |opt| .. |opt| + |res| - 1. */
  lemma TailPairs(opt: seq<Edge>, res: seq<Edge>)
    ensures |Zip(Tail(|opt| + |res|, |res|), res)| == |res|
    ensures forall i :: 0 <= i < |res| ==> Zip(Tail(|opt| + |res|, |res|), res)[i] == (|opt| + i, res[i])
  {
  }

  /** The two blocks never share a parameter, and together they stay inside the vector. */
  lemma ParamsDisjoint(opt: seq<Edge>, res: seq<Edge>)
    ensures ParamsOf(OptBlock(opt, res)) !! ParamsOf(ResBlock(opt, res))
    ensures ParamsOf(OptBlock(opt, res)) + ParamsOf(ResBlock(opt, res)) <= Interval(0, |opt| + |res|)
  {
    OptBlockParams(opt, res);
    ResidualBlockParams(opt, res);
  }

  /** The instructions before the final one: Hadamards first, no measurement anywhere. */
  lemma BodyShape(opt: seq<Edge>, res: seq<Edge>, numQubits: nat)
    ensures |Body(opt, res, numQubits)| == numQubits + 2 * Min(|opt|, |res|) + 3 * |res|
    ensures Body(opt, res, numQubits)[..numQubits] == HLayer(numQubits)
    ensures MeasureAll !in Body(opt, res, numQubits)
  {
    var p := |opt| + |res|;
    NoMeasureInOpt(Zip(Head(p, |res|), opt));
    NoMeasureInResidual(Zip(Tail(p, |res|), res));
    var h := HLayer(numQubits);
    assert MeasureAll !in h;
    var rest := OptBlock(opt, res) + ResBlock(opt, res);
    assert MeasureAll !in rest;
    AppendAssoc(h, OptBlock(opt, res), ResBlock(opt, res));
    assert (h + rest)[..numQubits] == h;
  }

  /** The circuit opens with a Hadamard on every qubit, has exactly one measurement and
      that measurement is its last instruction: nothing follows the residual block but it. */
  lemma ProgramShape(opt: seq<Edge>, res: seq<Edge>, numQubits: nat)
    ensures |Program(opt, res, numQubits)| == numQubits + 2 * Min(|opt|, |res|) + 3 * |res| + 1
    ensures Program(opt, res, numQubits)[..numQubits] == HLayer(numQubits)
    ensures forall i :: 0 <= i < |Program(opt, res, numQubits)| ==>
              (Program(opt, res, numQubits)[i] == MeasureAll <==> i == |Program(opt, res, numQubits)| - 1)
  {
    var body := Body(opt, res, numQubits);
    BodyShape(opt, res, numQubits);
    var prog := Program(opt, res, numQubits);
    assert prog[..numQubits] == body[..numQubits];
    forall i | 0 <= i < |prog| - 1 ensures prog[i] != MeasureAll {
      assert prog[i] == body[i];
    }
  }

  lemma {:induction false} NoMeasureInOpt(pairs: seq<(nat, Edge)>)
    ensures |OptGates(pairs)| == 2 * |pairs|
    ensures MeasureAll !in OptGates(pairs)
  {
    if pairs != [] {
      NoMeasureInOpt(pairs[..|pairs| - 1]);
    }
  }

  lemma {:induction false} NoMeasureInResidual(pairs: seq<(nat, Edge)>)
    ensures |ResidualGates(pairs)| == 3 * |pairs|
    ensures MeasureAll !in ResidualGates(pairs)
  {
    if pairs != [] {
      NoMeasureInResidual(pairs[..|pairs| - 1]);
    }
  }

  /** Every edge of the list joins two different qubits among the first n. */
  predicate EdgesFit(edges: seq<Edge>, n: nat)
  {
    forall e :: e in edges ==> e.0 < n && e.1 < n && e.0 != e.1
  }

  lemma {:induction false} OptGatesFit(pairs: seq<(nat, Edge)>, n: nat)
    requires forall i :: 0 <= i < |pairs| ==> pairs[i].1.0 < n && pairs[i].1.1 < n && pairs[i].1.0 != pairs[i].1.1
    ensures AllFit(OptGates(pairs), n)
  {
    if pairs != [] {
      var (t, e) := pairs[|pairs| - 1];
      OptGatesFit(pairs[..|pairs| - 1], n);
      assert e.0 < n && e.1 < n && e.0 != e.1;
      assert [RZ(t, e.1), CX(e.0, e.1)][1..] == [CX(e.0, e.1)] && [CX(e.0, e.1)][1..] == [];
      assert AllFit([RZ(t, e.1), CX(e.0, e.1)], n);
      AllFitAppend(OptGates(pairs[..|pairs| - 1]), [RZ(t, e.1), CX(e.0, e.1)], n);
      assert OptGates(pairs) == OptGates(pairs[..|pairs| - 1]) + [RZ(t, e.1), CX(e.0, e.1)];
    }
  }

  lemma {:induction false} ResidualGatesFit(pairs: seq<(nat, Edge)>, n: nat)
    requires forall i :: 0 <= i < |pairs| ==> pairs[i].1.0 < n && pairs[i].1.1 < n && pairs[i].1.0 != pairs[i].1.1
    ensures AllFit(ResidualGates(pairs), n)
  {
    if pairs != [] {
      var (t, e) := pairs[|pairs| - 1];
      var triple := [CX(e.0, e.1), RZ(t, e.1), CX(e.0, e.1)];
      ResidualGatesFit(pairs[..|pairs| - 1], n);
      assert triple[1..] == [RZ(t, e.1), CX(e.0, e.1)];
      assert triple[1..][1..] == [CX(e.0, e.1)] && [CX(e.0, e.1)][1..] == [];
      assert e.0 < n && e.1 < n && e.0 != e.1;
      assert AllFit(triple[1..][1..], n);
      assert AllFit(triple[1..], n);
      assert AllFit(triple, n);
      AllFitAppend(ResidualGates(pairs[..|pairs| - 1]), triple, n);
      assert ResidualGates(pairs) == ResidualGates(pairs[..|pairs| - 1]) + triple;
    }
  }

  /** When every edge joins two different existing qubits, no instruction of the body fails. */
  lemma BodyFits(opt: seq<Edge>, res: seq<Edge>, n: nat)
    requires EdgesFit(opt + res, n)
    ensures AllFit(Body(opt, res, n), n)
  {
    var o := Zip(Head(|opt| + |res|, |res|), opt);
    var r := Zip(Tail(|opt| + |res|, |res|), res);
    forall i | 0 <= i < |o| ensures o[i].1.0 < n && o[i].1.1 < n && o[i].1.0 != o[i].1.1 {
      assert o[i].1 == opt[i] && opt[i] in opt + res;
    }
    forall i | 0 <= i < |r| ensures r[i].1.0 < n && r[i].1.1 < n && r[i].1.0 != r[i].1.1 {
      assert r[i].1 == res[i] && res[i] in opt + res;
    }
    OptGatesFit(o, n);
    ResidualGatesFit(r, n);
    HLayerFits(n);
    AllFitAppend(HLayer(n), OptBlock(opt, res), n);
    AllFitAppend(HLayer(n) + OptBlock(opt, res), ResBlock(opt, res), n);
  }

  /** With the nodes labelled 0 .. k-1 and no self-loop, the circuit of k qubits holds
      every instruction: create_circuit(optimize=True) raises only on undo_gates'
      `.keys()`, and without it returns the whole program. */
  lemma ContiguousLabelsFit(opt: seq<Edge>, res: seq<Edge>, optimize: bool, undoGates: bool)
    requires optimize || opt == []
    requires NodesOf(opt + res) == Interval(0, |NodesOf(opt + res)|)
    requires NoSelfLoops(opt + res)
    ensures var n := |NodesOf(opt + res)|;
            Created(opt, res, n, optimize, undoGates)
            == if undoGates then (Body(opt, res, n) + [Barrier], Some(ListHasNoKeys)) else (Program(opt, res, n), None)
  {
    var n := |NodesOf(opt + res)|;
    forall e | e in opt + res ensures e.0 < n && e.1 < n && e.0 != e.1 {
      assert e.0 in Interval(0, n) && e.1 in Interval(0, n);
    }
    BodyFits(opt, res, n);
    CreatedRun(opt, res, n, optimize, undoGates);
  }

  /** A gap in the labels overflows the register: the edges (0,1) and (1,3) span three
      nodes, so the circuit has qubits 0..2 and the residual cx(1, 3) fails, after the
      Hadamard layer and the optimizable pair went in. */
  lemma LabelGapOverflows()
    ensures |NodesOf([(0, 1)] + [(1, 3)])| == 3
    ensures Created([(0, 1)], [(1, 3)], 3, true, false)
            == (HLayer(3) + [RZ(0, 1), CX(0, 1)], Some(InvalidQubits))
  {
    var opt: seq<Edge>, res: seq<Edge> := [(0, 1)], [(1, 3)];
    assert ([(0, 1)] + [(1, 3)])[..1] == [(0, 1)];
    assert NodesOf([(0, 1)]) == {0, 1} by {
      assert [(0, 1)][..0] == [];
    }
    assert NodesOf(opt + res) == {0, 1, 3};
    assert Head(2, 1) == [0];
    assert Tail(2, 1) == [1];
    var o, r := [(0, (0, 1))], [(1, (1, 3))];
    assert Zip(Head(2, 1), opt) == o;
    assert Zip(Tail(2, 1), res) == r;
    assert OptGates(o) == [RZ(0, 1), CX(0, 1)] by {
      assert o[..0] == [];
    }
    assert ResidualGates(r) == [CX(1, 3), RZ(1, 3), CX(1, 3)] by {
      assert r[..0] == [];
    }
    assert AllFit([RZ(0, 1), CX(0, 1)], 3) by {
      assert [RZ(0, 1), CX(0, 1)][1..] == [CX(0, 1)];
    }
    assert !AllFit([CX(1, 3), RZ(1, 3), CX(1, 3)], 3);
    assert FitPrefix([CX(1, 3), RZ(1, 3), CX(1, 3)], 3) == [];
    assert [RZ(0, 1), CX(0, 1)] + [] == [RZ(0, 1), CX(0, 1)];
  }

  /** A self-loop among the residual edges fails at its cx: with the edges (0,1) and
      (1,1) the circuit has qubits 0 and 1, the triple of (0,1) goes in, and cx(1, 1)
      is rejected for naming qubit 1 twice. */
  lemma SelfLoopFails()
    ensures |NodesOf([(0, 1), (1, 1)])| == 2
    ensures Created([], [(0, 1), (1, 1)], 2, true, false)
            == (HLayer(2) + [CX(0, 1), RZ(0, 1), CX(0, 1)], Some(InvalidQubits))
  {
    var res: seq<Edge> := [(0, 1), (1, 1)];
    assert [] + res == res;
    assert res[..1] == [(0, 1)] && res[..1][..0] == [];
    assert NodesOf(res) == {0, 1};
    assert Tail(2, 2) == [0, 1];
    var r: seq<(nat, Edge)> := [(0, (0, 1)), (1, (1, 1))];
    assert Zip(Tail(2, 2), res) == r;
    NoOptimizableEdges(res);
    var triple := [CX(0, 1), RZ(0, 1), CX(0, 1)];
    assert ResidualGates(r) == triple + [CX(1, 1), RZ(1, 1), CX(1, 1)] by {
      assert r[..1] == [(0, (0, 1))] && |r[..1][..0]| == 0;
    }
    assert AllFit(triple, 2) by {
      assert triple[1..] == [RZ(0, 1), CX(0, 1)] && triple[1..][1..] == [CX(0, 1)];
    }
    FitPrefixAppend(triple, [CX(1, 1), RZ(1, 1), CX(1, 1)], 2);
    AllFitAppend(triple, [CX(1, 1), RZ(1, 1), CX(1, 1)], 2);
    assert FitPrefix([CX(1, 1), RZ(1, 1), CX(1, 1)], 2) == [];
    assert triple + [] == triple;
  }
}
