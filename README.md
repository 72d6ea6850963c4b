# QITE MaxCut circuits: a Dafny model

This project models the classical logic of the QITE MaxCut experiments: the code around
the quantum parts that decides which gates go into a variational circuit, and how a
classical search scores and sorts the partitions of a graph. Nodes are the integers
0..n-1. Edges are ordered pairs. A circuit is a list of instructions (`Gates.Gate`)
whose rotation angles are indices into a parameter vector.

The model has six parts, one per module:

- `EdgeColoring` (ansatz1.py) colours the graph's edges with a simplified Misra–Gries
  procedure. The colouring is a dictionary keyed by ordered edges. The module then emits
  one `cx; ry(θ[colour]); cx` block per edge, layer by layer in ascending colour order.
- `DfsPartition` (dfs.py) splits a depth-first traversal into *optimizable* edges (those
  that reach a node not seen before) and *residual* edges (graph edges that have neither
  orientation among the optimizable ones).
- `PartitionCircuit` (circuit.py) is the `Circuit` class. It flattens the residual
  groups, sizes the parameter vector and counts the qubits. It then appends the Hadamard
  layer, the `rz; cx` pairs of the optimizable edges, the `cx; rz; cx` triples of the
  residual edges and a final measurement.
- `PerEdgeAnsatz` (build_graph.py) builds the one-parameter-per-edge ansatz and the Pauli
  terms of the MaxCut Hamiltonian, with exact `real` coefficients.
- `CutSize` (utils.py) counts the edges whose two endpoints carry different bits.
- `Challenge` (check.py) enumerates every bit vector LSB first and builds the 0/1
  adjacency matrix. It computes each partition's cost and keeps the best cost and the
  list of best bitstrings, for all partitions and for balanced ones. It also tallies
  measured shot counts over those lists.

Each imperative routine is a `method` with loops, proved against a reference function:
`OptEdges`, `Flatten`, `OptBlock`/`ResBlock` with `FitPrefix`, `Blocks` and `Created`,
`LeastFreeColor`, `Walk`, `Invert`, `ColorStep` and the fold `Coloring` that applies
`ColorStep` to every popped edge, `Dedup(Reverse(..))`, `ByColor`, `CutCount`, `Cost`,
`MaxCost`/`Attaining` and `Tally`. Lemmas then state what those functions mean. For the
colouring they show that the keys are the graph's edges in pop order, each coloured at
most the maximum degree, and that on the edges as `G.edges()` reports them the path
inversion never changes a colour, so each edge keeps the colour its own iteration's
first walk chose (`EdgeColoring.ColoringFinalColor`).

Where the code and its own comments disagree, the model follows the code:

- The identity term of the Hamiltonian has coefficient −|E|/2, as build_graph.py:34
  computes. The docstring at build_graph.py:27 says +|E|/2.
- In check.py the lists of best bitstrings are only bound when a cost first exceeds the
  running best, which starts at 0. The first scored partition therefore decides: if it
  costs 0, its append reaches a list that was never bound and raises. The model returns
  `Challenge.Outcome.Unbound` exactly then, and also when no partition is scored at all
  (fewer than two nodes). In that case the loop completes, and check.py:138 raises on
  `xbest_brute`, which is bound only together with the list. A later
  partition of cost 0 is harmless once the list is bound. With at least two nodes the
  first scored partition is node 0 alone (`Challenge.FirstPartitionIsNodeZero`), so on
  a simple graph the brute list fails exactly when node 0 is isolated
  (`Challenge.BruteFailsIffNodeZeroIsolated`). Example: nodes 0, 1, 2 with the single
  edge (1, 2) fail, although the partition {1} | {0, 2} costs 1.
- On the `undo_gates=True` branch, circuit.py:49 calls `.keys()` on the flattened
  residual list. The model returns `ListHasNoKeys` after the barrier.
- On the `optimize=False` branch, circuit.py:63 passes the whole parameter vector to
  `rz`. The model returns `AngleIsVector` after the first `cx`.
- circuit.py:29 sizes the register by the number of distinct endpoints of the edges, but
  the gates address qubits by node label. qiskit rejects an instruction naming a qubit
  the register does not have, before adding it. The model returns `InvalidQubits` at
  the first such instruction and keeps exactly what was appended before it
  (`PartitionCircuit.FitPrefix`). With labels 0..k−1 nothing fails
  (`PartitionCircuit.ContiguousLabelsFit`). A gap in the labels, for example a graph
  whose node 2 has no edge, makes the register too small
  (`PartitionCircuit.LabelGapOverflows`).
- qiskit also rejects a `cx` whose control and target are the same qubit. A self-loop
  therefore makes each circuit builder raise at its `cx`. `PartitionCircuit` reports
  it as `InvalidQubits` (`PartitionCircuit.SelfLoopFails`).
  `PerEdgeAnsatz.BuildAnsatz` returns no circuit, and `EdgeColoring.BuildAnsatz`
  returns `SelfLoop`.

## Model

| member | source | states |
|---|---|---|
| CutSize.ComputeCutSize | utils.py:4-13 | the result is the number of edge-list entries whose endpoints carry different characters, and it is at most the number of edges |
| CutSize.CutCountIsCardinality | utils.py:9-13 | the cut size is the size of the set of positions of cut edges |
| CutSize.CutCountBound | utils.py:9-12 | the cut size never exceeds the number of edges |
| CutSize.CutCountAppend | utils.py:10-12 | the cut size is additive over concatenated edge lists |
| CutSize.CutCountConstant | utils.py:11 | a bitstring with one repeated character cuts no edge |
| CutSize.CutCountComplement | utils.py:11 | complementing every bit leaves the cut size unchanged |
| CutSize.CutCountFlipped | utils.py:10-11 | reversing the orientation of every edge leaves the cut size unchanged |
| PerEdgeAnsatz.BuildAnsatz | build_graph.py:7-19 | no circuit exactly when some edge is a self-loop, whose cx qiskit rejects; otherwise one qubit per node and one parameter per edge; Hadamards on every qubit first; edge i then gets `cx(u,v); ry(θ[i],v); cx(u,v)` in edge order, for n + 3·len(E) instructions |
| PerEdgeAnsatz.ZTerm | build_graph.py:37-40 | the label has length n, with 'Z' exactly at u and v and 'I' everywhere else |
| PerEdgeAnsatz.BuildMaxcutHamiltonian | build_graph.py:25-43 | len(E)+1 terms: first "I"·n with coefficient −len(E)/2, then one term per edge in edge order with its Z-label and coefficient 0.5; the coefficients sum to zero |
| PerEdgeAnsatz.HamiltonianCoeffsCancel | build_graph.py:34-41 | after the identity term and k edge terms, the coefficients add up to −len(E)/2 + k/2 |
| PerEdgeAnsatz.ZOnesEdge | build_graph.py:37-40 | an edge label meets a bitstring's ones exactly at those of the edge's two endpoints |
| PerEdgeAnsatz.EnergyPrefix | build_graph.py:33-41 | the energy of the identity term and the first k edge terms is minus the cut size of the first k edges |
| PerEdgeAnsatz.MaxcutEnergyIsMinusCut | build_graph.py:25-43 | on every bitstring, the Hamiltonian's diagonal energy equals minus the cut size, for a graph without self-loops |
| DfsPartition.GetOptEdges | dfs.py:19-33 | the kept edges are exactly the traversal edges whose second endpoint was unvisited when examined, in traversal order; an edge accepted by the first test is never appended again by the second |
| DfsPartition.GetNoOptEdges | dfs.py:35-40 | the residual edges are an order-preserving subsequence of the graph's edges, holding exactly those with neither orientation among the kept edges |
| DfsPartition.OptEdgesSubseq | dfs.py:24-31 | the kept edges are traversal edges in traversal order |
| DfsPartition.OptEdgesReachNewNodes | dfs.py:25-31 | each kept edge reaches a node that no earlier kept edge touches |
| DfsPartition.OptTargetsDistinct | dfs.py:25-31 | the second endpoints of the kept edges are pairwise distinct |
| DfsPartition.OptEdgesNodeCount | dfs.py:21-31 | without self-loops a non-empty kept list touches at least one more node than it has edges, so it is shorter than `visited` |
| PartitionCircuit.NoOptimizableEdges | circuit.py:71-73 | with no optimizable edges the optimizable block is empty |
| PartitionCircuit.Circuit.constructor | circuit.py:9-29 | the residual list is the groups' concatenation in key order; the parameter count is len(opt) + len(residual); the qubit count is the number of distinct endpoints of all edges; the circuit starts empty |
| PartitionCircuit.FitPrefixIsLongest | circuit.py:41-44 | what a run of appends keeps is a prefix of the instructions that qiskit accepts (every qubit exists and a cx names two different ones); it stops only at the end or at an instruction qiskit rejects, and it is the whole list exactly when every instruction fits |
| PartitionCircuit.Circuit.Emit | circuit.py:72 | one append: the instruction is added exactly when qiskit accepts it (all its qubits exist, and a cx names two different ones), and otherwise the circuit is unchanged and the call fails |
| PartitionCircuit.Circuit.EmitOptEdge | circuit.py:72-73 | appends `rz(t, e[1]); cx(e)` up to the first instruction qiskit rejects, and succeeds exactly when both fit |
| PartitionCircuit.Circuit.EmitResidualEdge | circuit.py:42-44 | appends the whole `cx; rz; cx` triple exactly when the opening cx fits, and nothing otherwise |
| PartitionCircuit.Circuit.EmitOptPairs | circuit.py:71-73 | the loop appends the longest fitting prefix of the rz/cx pairs and succeeds exactly when all of them fit |
| PartitionCircuit.Circuit.EmitResidualPairs | circuit.py:41-44 | the loop appends the longest fitting prefix of the cx/rz/cx triples and succeeds exactly when all of them fit |
| PartitionCircuit.OptStopsAt | circuit.py:71-73 | when pair i does not fit, the optimizable block does not fit and its run keeps the earlier pairs and the fitting part of pair i |
| PartitionCircuit.ResidualStopsAt | circuit.py:41-44 | when the cx of triple i does not fit, the residual block does not fit and its run keeps exactly the earlier triples |
| PartitionCircuit.Circuit.AddOptimizedEdges | circuit.py:71-73 | appends the longest fitting prefix of the optimizable block, reports whether that is the whole block, and changes nothing else |
| PartitionCircuit.Circuit.AddUnoptimizedEdges | circuit.py:41-49 | appends the residual block up to the first instruction qiskit rejects and then fails with InvalidQubits; when all of it fits, undo_gates appends a barrier and then fails on `.keys()` |
| PartitionCircuit.Circuit.AddBlocks | circuit.py:66-90 | after the Hadamard layer: the optimizable block (optimize=True), then the residual block, each stopping the run at the first instruction qiskit rejects; when all fits, a barrier and the `.keys()` failure, or the measurement and no error |
| PartitionCircuit.Circuit.CreateCircuit | circuit.py:56-90 | the circuit grows by exactly `Created`'s instructions and the call returns `Created`'s error: with optimize=False and an optimizable edge, the Hadamard layer and the first cx (only the layer if qiskit rejects that cx) and then the error; otherwise the Hadamard layer followed by what `AddBlocks` appends |
| PartitionCircuit.BodyRun | circuit.py:58-75 | the Hadamard layer always fits, so a run over the body stops inside the optimizable block, or passes it whole and then runs over the residual block |
| PartitionCircuit.CreatedRun | circuit.py:58-90 | past the optimize=False failure, create_circuit appends the longest fitting prefix of its body and fails with InvalidQubits exactly when that is not the whole body; otherwise it ends with the barrier and the `.keys()` failure, or with the measurement and no error |
| PartitionCircuit.BodyFits | circuit.py:58-75 | when every edge joins two different nodes below n, qiskit accepts every instruction of the body |
| PartitionCircuit.ContiguousLabelsFit | circuit.py:22-90 | with the nodes labelled 0..k−1 and no self-loop the circuit has k qubits and create_circuit with optimize=True (or no optimizable edges) gives the whole program, failing only on undo_gates' `.keys()` |
| PartitionCircuit.LabelGapOverflows | circuit.py:22-44 | the edges (0,1) and (1,3) give a circuit of 3 qubits, and create_circuit(optimize=True, undo_gates=False) fails at cx(1, 3) after the Hadamard layer and the optimizable pair |
| PartitionCircuit.SelfLoopFails | circuit.py:29-44 | the residual edges (0,1) and (1,1) give a circuit of 2 qubits, and create_circuit(optimize=True, undo_gates=False) fails at cx(1, 1) after the Hadamard layer and the triple of (0,1) |
| PartitionCircuit.OptGatesAt | circuit.py:71-73 | pair i of the optimizable block is `rz(t_i, e_i.1); cx(e_i)` |
| PartitionCircuit.ResidualGatesAt | circuit.py:41-44 | triple i of the residual block is `cx(e_i); rz(t_i, e_i.1); cx(e_i)` |
| PartitionCircuit.OptBlockParams | circuit.py:71 | the optimizable block has 2·min(len(opt), len(res)) instructions; later optimizable edges are dropped, and it uses exactly the parameters 0 .. min−1 |
| PartitionCircuit.ResidualBlockParams | circuit.py:41-44 | the residual block has 3·len(res) instructions; residual edge i rotates with parameter len(opt)+i, so the block uses exactly the last len(res) parameters |
| PartitionCircuit.TailPairs | circuit.py:41 | the last len(res) identifiers paired with the residual edges give (len(opt)+i, res[i]) |
| PartitionCircuit.ParamsDisjoint | circuit.py:20-71 | the two blocks use disjoint parameter indices, all below the length of the parameter vector (one entry per edge of either list) |
| PartitionCircuit.BodyShape | circuit.py:58-75 | before the final instruction the circuit opens with a Hadamard on every qubit, has the computed length and holds no measurement |
| PartitionCircuit.ProgramShape | circuit.py:58-90 | the finished circuit opens with the Hadamard layer and has exactly one measure-all, as its last instruction, so nothing comes between the residual block and the measurement |
| EdgeColoring.Edges | ansatz1.py:4 | every reported edge joins two nodes of the graph, from its lower endpoint to a neighbour |
| EdgeColoring.EdgesMembers | ansatz1.py:4 | (u, v) is reported exactly when v is a neighbour of u and u ≤ v |
| EdgeColoring.EdgesDistinct | ansatz1.py:4 | with neighbour lists free of repeats, no edge is reported twice |
| EdgeColoring.ColoringKeysReversed | ansatz1.py:4-7 | with neighbour lists free of repeats, the colouring's keys are the edge list reversed, with nothing dropped |
| EdgeColoring.PutWellFormed | ansatz1.py:49-54 | a dictionary write keeps the key list and the map in step |
| EdgeColoring.UsedColorsBound | ansatz1.py:11-12 | a node has at most as many used colours as neighbours |
| EdgeColoring.UsedColorsMembers | ansatz1.py:11-12 | a colour is used at u exactly when some neighbour x has the key (u, x) stored with that colour |
| EdgeColoring.LeastFree | ansatz1.py:15-22 | the counter stops at the least colour not in the used set, which is `LeastFreeColor` |
| EdgeColoring.LeastFreeFrom | ansatz1.py:15-22 | counting upwards from a colour below which every colour is used reaches the least colour not in the used set |
| EdgeColoring.LeastFreeBound | ansatz1.py:15-22 | the least free colour is at most the number of used colours |
| EdgeColoring.DegreeBound | ansatz1.py:11-22 | the least free colour at a node is at most the maximum degree |
| EdgeColoring.ColoredNeighbors | ansatz1.py:44-45 | every listed neighbour has its edge stored with the sought colour |
| EdgeColoring.InvertWrite | ansatz1.py:49 | one write of the inversion keeps the key set, and keeps every value either its old value or one of c, d |
| EdgeColoring.FindColoredNeighbor | ansatz1.py:31-37 | finds a neighbour iff one other than u carries colour c, and then returns the first one |
| EdgeColoring.WalkAlternating | ansatz1.py:25-38 | the walk stays on graph nodes, leaves (c, d) either as they were or swapped, and stops where no neighbour other than u carries c; it ends exactly where `Walk` ends, with `Walk`'s colours: each step goes to the first neighbour other than u whose key holds c and then swaps c and d; on keys stored from their lower endpoint it never moves to a lower node and ends within twice the node count of steps |
| EdgeColoring.WalkEndStuck | ansatz1.py:42-47 | where the walk stopped above u, on keys stored from their lower endpoint, no neighbour at all carries c, so the inversion loop stops at once |
| EdgeColoring.InvertPath | ansatz1.py:41-51 | inversion rewrites only existing keys, never adds one, and writes only the two colours c and d; started at v, or where no neighbour carries c, it changes nothing; the result is `Invert`'s: each step stores d under the key of the first neighbour holding c, moves there and swaps c and d |
| EdgeColoring.ColorEdge | ansatz1.py:7-54 | c and d are the least free colours at u and v; the popped edge is stored with one of them; the key set grows by exactly (u, v); every other value is unchanged or one of c, d; on keys stored from their lower endpoint, with fuel of at least twice the node count it always ends, and the popped edge is the only entry that changes; the result is `ColorStep`'s: the popped edge gets the c left by the two walks, which on keys stored from their lower endpoint is the first walk's final c; c and d are `LeastFreeColor` of the used sets |
| EdgeColoring.TwoEdgeStep | ansatz1.py:7-54 | on the edges (0,1) and (0,2), after (0,2) got colour 0, the free colours are 1 at node 0 and 0 at node 1, and (0,1) gets colour 1 |
| EdgeColoring.DedupProperties | ansatz1.py:6-54 | the popped keys hold no repetition and are exactly the listed edges |
| EdgeColoring.ColorPopped | ansatz1.py:7-54 | one pass of the loop body is `ColorStep` with the least free colours at the popped edge's endpoints, and keeps the loop invariant (keys in pop order, every colour at most the maximum degree) |
| EdgeColoring.ColorAll | ansatz1.py:6-54 | pops the edges from the end; the dictionary and the outcome are those of `Coloring`, one `ColorStep` per popped edge; with fuel of at least twice the node count it always finishes, and then the keys are the popped edges in pop order without repeats, each coloured at most the maximum degree |
| EdgeColoring.ColoringFailStays | ansatz1.py:6-54 | once a walk of some iteration has not finished, the whole colouring is reported unfinished |
| EdgeColoring.MisraGriesColoring | ansatz1.py:2-56 | pops `G.edges()` from the end until the list is empty; the result is `Coloring` of `G.edges()`; with fuel of at least twice the node count it always finishes; the keys are the edges in pop order without repeats; exactly the graph's edges are coloured; every colour is at most the maximum degree |
| EdgeColoring.WalkEnd | ansatz1.py:25-38 | a finished walk stops where no neighbour other than u carries its c, never below its start on upward keys, with the starting colours or their swap |
| EdgeColoring.StepWritesOnlyEdge | ansatz1.py:41-54 | on upward keys and an upward popped edge, an iteration only stores the first walk's final c under (u, v) |
| EdgeColoring.PoppedColor | ansatz1.py:11-38 | the colour the first walk leaves for a popped edge is the least free colour at one of its endpoints in the dictionary built before it |
| EdgeColoring.ColoringKeys | ansatz1.py:6-54 | on edges listed from their lower endpoint, the keys after popping down to any position are exactly the popped edges |
| EdgeColoring.ColoringKeepsColors | ansatz1.py:41-54 | on such edges without repeats, a popped edge keeps the colour its own iteration stored through every later iteration: the inversion never rewrites an earlier edge |
| EdgeColoring.ColoringFinalColor | ansatz1.py:6-56 | on such edges, as `G.edges()` lists them, every edge of the finished colouring holds `PoppedColor`: the final c of the first walk of its own iteration |
| EdgeColoring.MaxColor | ansatz1.py:59 | the largest stored colour, attained by some item |
| EdgeColoring.Select | ansatz1.py:67 | a layer holds only edges of its colour |
| EdgeColoring.EmitLayer | ansatz1.py:69-72 | appends `cx; ry(θ[colour]); cx` for each edge of the layer, in order |
| EdgeColoring.EdgeGatesAt | ansatz1.py:69-72 | the block of the i-th layered edge is `cx(u,v); ry(θ[colour], v); cx(u,v)` |
| EdgeColoring.ColorLayers | ansatz1.py:58-74 | no circuit for an empty colouring; otherwise max_color parameters, Hadamards on every qubit, then the layers for colours 0 .. max_color−1 |
| EdgeColoring.ByColorPermutation | ansatz1.py:66-67 | the layers together hold every coloured edge exactly once |
| EdgeColoring.ByColorSorted | ansatz1.py:66 | the layers come in ascending colour order |
| EdgeColoring.LayeredLength | ansatz1.py:66-72 | the layered blocks hold three instructions per coloured edge |
| EdgeColoring.ColorsBounded | ansatz1.py:59 | max_color − 1 is at most the maximum degree |
| EdgeColoring.EmptyColoring | ansatz1.py:4-59 | the colouring is empty exactly when the graph has no edges |
| EdgeColoring.BuildAnsatz | ansatz1.py:1-74 | no circuit exactly when the graph has no edges; a self-loop makes the cx emission fail; with fuel of at least twice the node count a circuit is built exactly when the graph has edges and no self-loop; a circuit has one qubit per node, between 1 and maxdegree+1 parameters and the Hadamard layer first; it is exactly `Coloring`'s colouring emitted by layers: max_color parameters, then `cx(u,v); ry(θ[colour], v); cx(u,v)` for each edge of colour 0, then colour 1, and so on up to max_color − 1 |
| Challenge.BitsValue | check.py:91 | the bit list of b < 2ⁿ, read LSB first, is worth b |
| Challenge.ValueBits | check.py:91 | every 0/1 list of length n is the bit list of its value, which is below 2ⁿ |
| Challenge.BitsInjective | check.py:91 | distinct b < 2ⁿ give distinct bit lists |
| Challenge.SpellInjective | check.py:97 | distinct bit lists of one length spell distinct strings |
| Challenge.CountSides | check.py:94-95 | every node lies on exactly one side |
| Challenge.ScoredRange | check.py:94-100 | a partition is scored exactly when 0 < b < 2ⁿ−1 |
| Challenge.BalancedSides | check.py:114 | balanced means the sides differ in size by at most one |
| Challenge.CostIsCutSize | check.py:101-104 | on a simple graph the matrix cost equals `compute_cut_size` of the spelled bitstring |
| Challenge.AdjacencyMatrix | check.py:77-82 | w[i,j] is 1 exactly when (i,j) or (j,i) is an edge, and 0 otherwise |
| Challenge.PartitionCost | check.py:101-104 | the nested loop computes the cost of the partition |
| Challenge.KeepBest | check.py:105-110 | one step of the arg-max bookkeeping: raise and reset, then append on a tie; fails exactly when appending to an unbound list |
| Challenge.GetChallengeSolutions | check.py:76-121 | fails on the brute list exactly when its first append precedes its binding, and on the balanced list likewise; otherwise the best costs are the maxima and the lists are exactly the bitstrings attaining them, in increasing b |
| Challenge.TrackedMeaning | check.py:105-121 | after b partitions the running state is the maximum so far and its attaining list, or the failure |
| Challenge.MaxCostBound | check.py:105-107 | no eligible partition costs more than the best cost |
| Challenge.MaxCostAttained | check.py:105-107 | once some partition is eligible, one of them attains the best cost |
| Challenge.AttainingMembers | check.py:108-110 | a bitstring is listed exactly when it spells an eligible partition of that cost |
| Challenge.AttainingDistinct | check.py:108-110 | no bitstring is listed twice |
| Challenge.BalancedBelowBrute | check.py:114-121 | the best balanced cost is at most the best cost |
| Challenge.SmallGraphFails | check.py:100-110 | with fewer than two nodes nothing is scored and the brute list is never bound |
| Challenge.FirstPartitionIsNodeZero | check.py:90-100 | with at least two nodes the first scored partition is b = 1, node 0 alone |
| CutSize.NoCutEdges | utils.py:9-12 | the cut size is 0 exactly when no edge is cut |
| Challenge.BruteFailsIffNodeZeroIsolated | check.py:105-110 | on a simple graph with at least two nodes, the brute list is used unbound exactly when node 0 has no edges |
| Challenge.PrintShots | check.py:156-171 | each total is the sum of the counts over the bitstrings in its list, and at most the sum of all counts |
| Challenge.TallyBound | check.py:159-162 | a tally never exceeds the total shot count |
| Challenge.TallyMonotone | check.py:159-162 | a longer list of bitstrings tallies at least as many shots |
| Challenge.TallyAll | check.py:159-162 | a list holding every measured bitstring tallies all shots |

## Left out

- qiskit objects are not modelled (QuantumCircuit, ParameterVector, transpile, the simulator, `SparsePauliOp.from_list`). Circuits are instruction lists, parameters are indices and Pauli operators are (label, coefficient) lists.
- `build_solution`, `final_score` and `interpret_solution` in check.py are left out. They run a simulator, compute a float score or plot.
- The connected search (check.py:123-130) is left out: `nx.is_connected` is networkx code. The model's `Challenge.Outcome` therefore has no connected list. The third `print_shots` total is dropped with it. That search has the same unbound-list pattern and can raise an UnboundLocalError of its own, at check.py:130 or when its list is returned. So `Challenge.Outcome.Solved`, or `Unbound` for the balanced list, does not promise that the source function returns.
- Timing, `print` and `plt` calls in check.py are output only and are left out. So is the `shots` argument of `print_shots`, which is only printed.
- `draw_graph` (build_graph.py), and `get_ising_energies` and `expected_energy` (utils.py), are left out as numpy or plotting code. `PerEdgeAnsatz.Energy` gives an exact diagonal energy instead.
- `nx.dfs_edges` is an input sequence of `DfsPartition.GetOptEdges`. `G.edges`, `G.neighbors` and `G.get_edge_data` are read from `EdgeColoring.Graph` or from an edge list.
- `DFS.dfs_ansatz` (dfs.py:43-56) is glue. It passes the graph as the first argument of `Circuit` and is not modelled. main.py is not part of this model.
- The `gamma` argument of `Circuit.__init__` is overwritten by the source and is not modelled.
- The residual dictionary of `Circuit.__init__` is given as its value lists in key order.
- Graph nodes are 0..n-1 in insertion order, so `G.edges()` reports each edge once, from its lower endpoint.
- The float matrix `w` and float costs of check.py are modelled as integers. Only the values 0 and 1 ever enter them.
- check.py:91 pads with `zfill(n)`. The model takes the n low bits. For n ≥ 1 the two agree for every b < 2ⁿ, which is all the loop visits. For n = 0, `bin(0)[2:].zfill(0)` is `'0'`, so the source's x is [0] where the model's is empty. The outcome is the same: node 0 is not in the empty graph, so both sides are empty and nothing is scored.
- EdgeColoring.MisraGriesColoring: does not state that the colouring is proper. Keys are ordered pairs, so the used-colour sets and the walks only see edges stored in the orientation they look up, and adjacent edges can share a colour.
- EdgeColoring.MisraGriesColoring: the two walks (ansatz1.py:26, 42) are `while` loops whose termination the source does not make evident. Dafny needs a decreasing measure, so each walk is bounded by a `fuel` step count, and running out of it is reported as `Diverges` (`ok == false` inside the colouring). The model proves that with fuel of at least twice the node count this never happens (`EdgeColoring.ColorEdge`, `ColorAll`, `MisraGriesColoring`, `BuildAnsatz`), so the fuel bound hides no run of the source.
- `fan` and `adjacent_colors` (ansatz1.py:8, 28) are never used and are not modelled.
- The inner loops of the source are separate methods in the model: `EdgeColoring.LeastFree`, `FindColoredNeighbor`, `WalkAlternating`, `InvertPath`, `EmitLayer`, `PartitionCircuit.Circuit.EmitOptPairs`, `EmitResidualPairs`, `Challenge.PartitionCost` and `KeepBest`. The main colouring loop is `EdgeColoring.ColorAll`, and its body (ansatz1.py:7-54) is the method `EdgeColoring.ColorPopped`. A qiskit append is `PartitionCircuit.Circuit.Emit`.
- The undo branches after circuit.py:49 (lines 50-53 and 77-88) cannot be reached, because line 49 always fails. They are not modelled.
