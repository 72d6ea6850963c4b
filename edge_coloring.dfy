/** The colour-layered ansatz (ansatz1.py): a Misra-Gries-style edge colouring filled into a
    dictionary keyed by ordered node pairs, then one parameter per colour, the edges of
    each colour emitted layer by layer. */
module EdgeColoring {
  import opened Gates

  // ---------------------------------------------------------------------------------
  // The graph.

  /** A networkx graph whose nodes were added as 0, 1, ..., n-1: `adj[u]` lists the
      neighbours of u in adjacency order. */
  datatype Graph = Graph(adj: seq<seq<Node>>)
  {
    /** Every neighbour is a node of the graph. */
    predicate Valid()
    {
      forall u, i :: 0 <= u < |adj| && 0 <= i < |adj[u]| ==> adj[u][i] < |adj|
    }
  }

  /** The edges that `G.edges()` reports at node u: (u, v) for each neighbour v not
      visited before u, in adjacency order. */
  function Incident(u: Node, nbrs: seq<Node>): (es: seq<Edge>)
    ensures forall e :: e in es ==> e.0 == u && e.1 in nbrs && u <= e.1
  {
    if nbrs == [] then []
    else
      var v := nbrs[|nbrs| - 1];
      Incident(u, nbrs[..|nbrs| - 1]) + (if u <= v then [(u, v)] else [])
  }

  /** The edges reported at the first k nodes. */
  function EdgesBelow(adj: seq<seq<Node>>, k: nat): (es: seq<Edge>)
    requires k <= |adj|
    ensures forall e :: e in es ==> e.0 < k && e.1 in adj[e.0] && e.0 <= e.1
  {
    if k == 0 then [] else EdgesBelow(adj, k - 1) + Incident(k - 1, adj[k - 1])
  }

  /** `G.edges()`: every edge once, from its endpoint added first, nodes in order. */
  function Edges(g: Graph): (es: seq<Edge>)
    requires g.Valid()
    ensures forall e :: e in es ==> e.0 < |g.adj| && e.1 < |g.adj| && e.0 <= e.1 && e.1 in g.adj[e.0]
  {
    var es := EdgesBelow(g.adj, |g.adj|);
    assert forall e :: e in es ==> e.1 in g.adj[e.0];
    es
  }

  /** `G.edges()` reports exactly the adjacency pairs (u, v) with u <= v. */
  lemma EdgesMembers(g: Graph)
    requires g.Valid()
    ensures forall e: Edge :: e in Edges(g) <==> e.0 < |g.adj| && e.1 in g.adj[e.0] && e.0 <= e.1
  {
    forall e: Edge | e.0 < |g.adj| && e.1 in g.adj[e.0] && e.0 <= e.1
      ensures e in Edges(g)
    {
      IncidentComplete(e.0, g.adj[e.0], e.1);
      EdgesBelowComplete(g.adj, |g.adj|, e.0, e.1);
    }
  }

  lemma {:induction false} IncidentComplete(u: Node, nbrs: seq<Node>, v: Node)
    requires v in nbrs && u <= v
    ensures (u, v) in Incident(u, nbrs)
  {
    var front := nbrs[..|nbrs| - 1];
    if nbrs[|nbrs| - 1] != v {
      assert nbrs == front + [nbrs[|nbrs| - 1]];
      IncidentComplete(u, front, v);
    }
  }

  lemma {:induction false} EdgesBelowComplete(adj: seq<seq<Node>>, k: nat, u: Node, v: Node)
    requires k <= |adj| && u < k && (u, v) in Incident(u, adj[u])
    ensures (u, v) in EdgesBelow(adj, k)
  {
    if u < k - 1 {
      EdgesBelowComplete(adj, k - 1, u, v);
    }
  }

  /** With duplicate-free adjacency lists, as a networkx graph has, no edge is reported twice. */
  lemma EdgesDistinct(g: Graph)
    requires g.Valid() && forall u :: 0 <= u < |g.adj| ==> Distinct(g.adj[u])
    ensures Distinct(Edges(g))
  {
    EdgesBelowDistinct(g.adj, |g.adj|);
  }

  lemma {:induction false} IncidentDistinct(u: Node, nbrs: seq<Node>)
    requires Distinct(nbrs)
    ensures Distinct(Incident(u, nbrs))
  {
    if nbrs != [] {
      var front := nbrs[..|nbrs| - 1];
      var v := nbrs[|nbrs| - 1];
      assert Distinct(front) by {
        forall i, j | 0 <= i < j < |front| ensures front[i] != front[j] {
          assert front[i] == nbrs[i] && front[j] == nbrs[j];
        }
      }
      assert v !in front by {
        forall i | 0 <= i < |front| ensures front[i] != v {
          assert front[i] == nbrs[i];
        }
      }
      IncidentDistinct(u, front);
      DistinctAppend(Incident(u, front), (u, v));
    }
  }

  lemma {:induction false} EdgesBelowDistinct(adj: seq<seq<Node>>, k: nat)
    requires k <= |adj| && forall u :: 0 <= u < |adj| ==> Distinct(adj[u])
    ensures Distinct(EdgesBelow(adj, k))
  {
    if k > 0 {
      EdgesBelowDistinct(adj, k - 1);
      IncidentDistinct(k - 1, adj[k - 1]);
      DistinctConcat(EdgesBelow(adj, k - 1), Incident(k - 1, adj[k - 1]));
    }
  }

  lemma DistinctConcat<T>(a: seq<T>, b: seq<T>)
    requires Distinct(a) && Distinct(b) && forall x :: x in a ==> x !in b
    ensures Distinct(a + b)
  {
    forall i, j | 0 <= i < j < |a + b| ensures (a + b)[i] != (a + b)[j] {
      if j < |a| {
        assert (a + b)[i] == a[i] && (a + b)[j] == a[j];
      } else if i < |a| {
        assert (a + b)[i] == a[i] && a[i] in a;
        assert (a + b)[j] == b[j - |a|];
      } else {
        assert (a + b)[i] == b[i - |a|] && (a + b)[j] == b[j - |a|];
      }
    }
  }

  /** The largest neighbour count among the first k nodes. */
  function MaxDegreeBelow(adj: seq<seq<Node>>, k: nat): (m: nat)
    requires k <= |adj|
    ensures forall u :: 0 <= u < k ==> |adj[u]| <= m
  {
    if k == 0 then 0
    else
      var m := MaxDegreeBelow(adj, k - 1);
      if |adj[k - 1]| <= m then m else |adj[k - 1]|
  }

  function MaxDegree(g: Graph): nat
  {
    MaxDegreeBelow(g.adj, |g.adj|)
  }

  // ---------------------------------------------------------------------------------
  // The colour dictionary.

  /** A Python dict from edges to colours: its keys in insertion order beside the map. */
  datatype ColorMap = ColorMap(keys: seq<Edge>, vals: map<Edge, nat>)

  ghost predicate WellFormed(d: ColorMap)
  {
    Distinct(d.keys) && forall e :: e in d.keys <==> e in d.vals
  }

  /** `d[e] = c`: a new key goes to the end, an existing key keeps its place. */
  function Put(d: ColorMap, e: Edge, c: nat): (r: ColorMap)
  {
    ColorMap(if e in d.vals then d.keys else d.keys + [e], d.vals[e := c])
  }

  lemma PutWellFormed(d: ColorMap, e: Edge, c: nat)
    requires WellFormed(d)
    ensures WellFormed(Put(d, e, c))
  {
    DistinctAppend(d.keys, e);
  }

  /** `edge_colors.get((x, y)) == c`: the key is present and holds colour c. */
  predicate HasColor(vals: map<Edge, nat>, x: Node, y: Node, c: nat)
  {
    (x, y) in vals && vals[(x, y)] == c
  }

  /** Every key runs from its lower endpoint to its higher one, as `G.edges()` reports
      the edges that are popped. */
  predicate KeysUp(vals: map<Edge, nat>)
  {
    forall e :: e in vals ==> e.0 <= e.1
  }

  /** `{edge_colors[e] for e in G.edges(u) if e in edge_colors}`: the colours stored under
      the keys (u, x) for the neighbours x of u. */
  function UsedColors(vals: map<Edge, nat>, u: Node, nbrs: seq<Node>): (used: set<nat>)
  {
    if nbrs == [] then {}
    else
      var x := nbrs[|nbrs| - 1];
      UsedColors(vals, u, nbrs[..|nbrs| - 1]) + (if (u, x) in vals then {vals[(u, x)]} else {})
  }

  /** A node has no more used colours than neighbours. */
  lemma {:induction false} UsedColorsBound(vals: map<Edge, nat>, u: Node, nbrs: seq<Node>)
    ensures |UsedColors(vals, u, nbrs)| <= |nbrs|
  {
    if nbrs != [] {
      var front := nbrs[..|nbrs| - 1];
      var x := nbrs[|nbrs| - 1];
      UsedColorsBound(vals, u, front);
      var before := UsedColors(vals, u, front);
      if (u, x) in vals {
        assert |before + {vals[(u, x)]}| <= |before| + 1;
      }
    }
  }

  /** A colour is used at u exactly when some neighbour x of u has (u, x) stored with it. */
  lemma {:induction false} UsedColorsMembers(vals: map<Edge, nat>, u: Node, nbrs: seq<Node>, k: nat)
    ensures k in UsedColors(vals, u, nbrs) <==> exists x :: x in nbrs && HasColor(vals, u, x, k)
  {
    if nbrs != [] {
      var front := nbrs[..|nbrs| - 1];
      var last := nbrs[|nbrs| - 1];
      UsedColorsMembers(vals, u, front, k);
      assert nbrs == front + [last];
      var before := UsedColors(vals, u, front);
      assert k in UsedColors(vals, u, nbrs) <==> k in before || HasColor(vals, u, last, k);
      if exists x :: x in nbrs && HasColor(vals, u, x, k) {
        var x :| x in nbrs && HasColor(vals, u, x, k);
        if x != last {
          assert x in front;
        }
      }
      if exists x :: x in front && HasColor(vals, u, x, k) {
        var x :| x in front && HasColor(vals, u, x, k);
        assert x in nbrs;
      }
    }
  }

  /** c is the least colour missing from `used`. */
  predicate IsLeastFree(c: nat, used: set<nat>)
  {
    c !in used && forall k :: 0 <= k < c ==> k in used
  }

  /** If 0 .. m-1 are all in s, then s has at least m elements. */
  lemma InitialSegmentBound(s: set<nat>, m: nat)
    requires forall k :: 0 <= k < m ==> k in s
    ensures m <= |s|
  {
    SubsetCardinality(Interval(0, m), s);
  }

  /** The least free colour never exceeds the number of used colours. */
  lemma LeastFreeBound(c: nat, used: set<nat>)
    requires IsLeastFree(c, used)
    ensures c <= |used|
  {
    InitialSegmentBound(used, c);
  }

  /** The least colour missing from `used`, searched upwards from k. */
  function LeastFreeFrom(used: set<nat>, k: nat): (c: nat)
    requires forall j :: 0 <= j < k ==> j in used
    ensures IsLeastFree(c, used)
    decreases |used| - k
  {
    if k !in used then k
    else
      InitialSegmentBound(used, k + 1);
      LeastFreeFrom(used, k + 1)
  }

  /** The least colour missing from `used`. */
  function LeastFreeColor(used: set<nat>): nat
  {
    LeastFreeFrom(used, 0)
  }

  /** A set has only one least missing colour. */
  lemma LeastFreeUnique(a: nat, b: nat, used: set<nat>)
    requires IsLeastFree(a, used) && IsLeastFree(b, used)
    ensures a == b
  {
  }

  /** `c = 0; while c in used: c += 1`. */
  method LeastFree(used: set<nat>) returns (c: nat)
    ensures IsLeastFree(c, used)
    ensures c == LeastFreeColor(used)
  {
    c := 0;
    while c in used
      invariant forall k :: 0 <= k < c ==> k in used
      invariant c <= |used|
      decreases |used| - c
    {
      InitialSegmentBound(used, c + 1);
      c := c + 1;
    }
    LeastFreeUnique(c, LeastFreeColor(used), used);
  }

  /** `[y for y in G.neighbors(x) if edge_colors.get((x, y)) == c]`, leaving out `avoid`. */
  function ColoredNeighbors(vals: map<Edge, nat>, x: Node, nbrs: seq<Node>, c: nat, avoid: Option<Node>): (r: seq<Node>)
    ensures forall y :: y in r ==> y in nbrs && HasColor(vals, x, y, c) && avoid != Some(y)
  {
    if nbrs == [] then []
    else
      var y := nbrs[0];
      (if HasColor(vals, x, y, c) && avoid != Some(y) then [y] else [])
        + ColoredNeighbors(vals, x, nbrs[1..], c, avoid)
  }

  lemma {:induction false} ColoredNeighborsAppend(vals: map<Edge, nat>, x: Node, a: seq<Node>, b: seq<Node>, c: nat, avoid: Option<Node>)
    ensures ColoredNeighbors(vals, x, a + b, c, avoid)
              == ColoredNeighbors(vals, x, a, c, avoid) + ColoredNeighbors(vals, x, b, c, avoid)
  {
    if a == [] {
      assert a + b == b;
    } else {
      var head := if HasColor(vals, x, a[0], c) && avoid != Some(a[0]) then [a[0]] else [];
      assert (a + b)[0] == a[0] && (a + b)[1..] == a[1..] + b;
      ColoredNeighborsAppend(vals, x, a[1..], b, c, avoid);
      AppendAssoc(head, ColoredNeighbors(vals, x, a[1..], c, avoid), ColoredNeighbors(vals, x, b, c, avoid));
    }
  }

  /** The inner `for neighbor in G.neighbors(w)` loop of the first walk: the first
      neighbour other than u whose key (w, neighbour) holds colour c. */
  method FindColoredNeighbor(vals: map<Edge, nat>, w: Node, nbrs: seq<Node>, c: nat, u: Node)
    returns (found: bool, next: Node)
    ensures found == (ColoredNeighbors(vals, w, nbrs, c, Some(u)) != [])
    ensures found ==> next == ColoredNeighbors(vals, w, nbrs, c, Some(u))[0]
  {
    for i := 0 to |nbrs|
      invariant ColoredNeighbors(vals, w, nbrs[..i], c, Some(u)) == []
    {
      var neighbor := nbrs[i];
      if (w, neighbor) in vals && vals[(w, neighbor)] == c && neighbor != u {
        FirstColoredNeighbor(vals, w, nbrs, c, Some(u), i);
        return true, neighbor;
      }
      NoColoredNeighborYet(vals, w, nbrs, c, Some(u), i);
    }
    assert nbrs[..|nbrs|] == nbrs;
    return false, w;
  }

  /** A neighbour that does not qualify leaves the search empty-handed one step further. */
  lemma NoColoredNeighborYet(vals: map<Edge, nat>, x: Node, nbrs: seq<Node>, c: nat, avoid: Option<Node>, i: nat)
    requires i < |nbrs| && ColoredNeighbors(vals, x, nbrs[..i], c, avoid) == []
    requires !(HasColor(vals, x, nbrs[i], c) && avoid != Some(nbrs[i]))
    ensures ColoredNeighbors(vals, x, nbrs[..i + 1], c, avoid) == []
  {
    assert nbrs[..i + 1] == nbrs[..i] + [nbrs[i]];
    ColoredNeighborsAppend(vals, x, nbrs[..i], [nbrs[i]], c, avoid);
  }

  /** The first qualifying neighbour heads the list of qualifying neighbours. */
  lemma FirstColoredNeighbor(vals: map<Edge, nat>, x: Node, nbrs: seq<Node>, c: nat, avoid: Option<Node>, i: nat)
    requires i < |nbrs| && ColoredNeighbors(vals, x, nbrs[..i], c, avoid) == []
    requires HasColor(vals, x, nbrs[i], c) && avoid != Some(nbrs[i])
    ensures ColoredNeighbors(vals, x, nbrs, c, avoid) != []
    ensures ColoredNeighbors(vals, x, nbrs, c, avoid)[0] == nbrs[i]
  {
    assert nbrs == nbrs[..i] + nbrs[i..];
    ColoredNeighborsAppend(vals, x, nbrs[..i], nbrs[i..], c, avoid);
    assert nbrs[i..][0] == nbrs[i];
  }

  // ---------------------------------------------------------------------------------
  // One iteration of the colouring loop.

  /** Where the first walk ends and with which colours: from w, step to the first
      neighbour other than u whose key holds colour c and swap c and d, until no such
      neighbour is left. The last component is false when more than `fuel` steps would
      be needed; the walk then stops where it is. */
  function Walk(g: Graph, vals: map<Edge, nat>, u: Node, w: Node, c: nat, d: nat, fuel: nat)
    : (r: (Node, nat, nat, bool))
    requires g.Valid() && w < |g.adj|
    ensures r.0 < |g.adj|
    decreases fuel
  {
    var next := ColoredNeighbors(vals, w, g.adj[w], c, Some(u));
    if next == [] then (w, c, d, true)
    else if fuel == 0 then (w, c, d, false)
    else
      assert next[0] in next;
      Walk(g, vals, u, next[0], d, c, fuel - 1)
  }

  /** What the second walk leaves behind: from x, until v is reached, store d under the
      key (x, y) of the first neighbour y whose key holds colour c, move to y and swap c
      and d; stop early where no such neighbour is left. The last component is false
      when more than `fuel` steps would be needed. */
  function Invert(g: Graph, r: ColorMap, v: Node, x: Node, c: nat, d: nat, fuel: nat)
    : (ColorMap, nat, nat, bool)
    requires g.Valid() && x < |g.adj|
    decreases fuel
  {
    if x == v then (r, c, d, true)
    else
      var next := ColoredNeighbors(r.vals, x, g.adj[x], c, None);
      if next == [] then (r, c, d, true)
      else if fuel == 0 then (r, c, d, false)
      else
        assert next[0] in next;
        Invert(g, Put(r, (x, next[0]), d), v, next[0], d, c, fuel - 1)
  }

  /** One iteration of the colouring loop for the popped edge (u, v), given the least
      free colours c0 at u and d0 at v: the first walk from v, the second walk back from
      where it ended, and `edge_colors[(u, v)] = c` with the c the second walk left. */
  function ColorStep(g: Graph, colors: ColorMap, u: Node, v: Node, c0: nat, d0: nat, fuel: nat)
    : (ColorMap, bool)
    requires g.Valid() && v < |g.adj|
  {
    var walked := Walk(g, colors.vals, u, v, c0, d0, fuel);
    if !walked.3 then (colors, false)
    else
      var inverted := Invert(g, colors, v, walked.0, walked.1, walked.2, fuel);
      if !inverted.3 then (colors, false)
      else (Put(inverted.0, (u, v), inverted.1), true)
  }

  /** The first walk (the `while True` loop): from v, follow the first neighbour other
      than u whose key holds colour c, swapping c and d after each step, until no such
      neighbour is left. Nothing is written. `ok` is false when the walk would take more
      than `fuel` steps. While every key runs upwards the walk never moves to a lower
      node, and when d0 is free at v it ends within 2 * |adj| steps: it can only stay
      at a node along a self-loop, and never twice in a row. */
  method WalkAlternating(g: Graph, vals: map<Edge, nat>, u: Node, v: Node, c0: nat, d0: nat, fuel: nat)
    returns (w: Node, c: nat, d: nat, ok: bool)
    requires g.Valid() && v < |g.adj|
    ensures w < |g.adj|
    ensures (c == c0 && d == d0) || (c == d0 && d == c0)
    ensures ok ==> ColoredNeighbors(vals, w, g.adj[w], c, Some(u)) == []
    ensures KeysUp(vals) ==> v <= w
    ensures KeysUp(vals) && IsLeastFree(d0, UsedColors(vals, v, g.adj[v])) && 2 * |g.adj| <= fuel ==> ok
    ensures (w, c, d, ok) == Walk(g, vals, u, v, c0, d0, fuel)
  {
    w, c, d := v, c0, d0;
    var steps := 0;
    ghost var bounded := KeysUp(vals) && IsLeastFree(d0, UsedColors(vals, v, g.adj[v]));
    ghost var stayed := false;
    while true
      invariant w < |g.adj| && steps <= fuel
      invariant (c == c0 && d == d0) || (c == d0 && d == c0)
      invariant KeysUp(vals) ==> v <= w
      invariant steps == 0 ==> w == v && c == c0 && d == d0
      invariant stayed ==> 0 < steps && HasColor(vals, w, w, d)
      invariant bounded && 0 < steps ==> c != d
      invariant bounded ==> steps <= 2 * (w - v) + (if stayed then 1 else 0)
      invariant Walk(g, vals, u, w, c, d, fuel - steps) == Walk(g, vals, u, v, c0, d0, fuel)
      decreases fuel - steps
    {
      var found, next := FindColoredNeighbor(vals, w, g.adj[w], c, u);
      if !found {
        break;
      }
      if steps == fuel {
        return w, c, d, false;
      }
      assert next in ColoredNeighbors(vals, w, g.adj[w], c, Some(u));
      if bounded && steps == 0 {
        assert next in g.adj[v] && HasColor(vals, v, next, c0);
        UsedColorsMembers(vals, v, g.adj[v], c0);
      }
      assert Walk(g, vals, u, w, c, d, fuel - steps) == Walk(g, vals, u, next, d, c, fuel - steps - 1);
      stayed := next == w;
      w := next;
      c, d := d, c;
      steps := steps + 1;
    }
    ok := true;
  }

  /** Where the first walk stops, no key (w, y) holds colour c at all: the only neighbour
      the walk skips is u, and (w, u) is no key when keys run upwards and u < w. */
  lemma {:induction false} WalkEndStuck(vals: map<Edge, nat>, w: Node, nbrs: seq<Node>, c: nat, u: Node)
    requires KeysUp(vals) && u < w
    requires ColoredNeighbors(vals, w, nbrs, c, Some(u)) == []
    ensures ColoredNeighbors(vals, w, nbrs, c, None) == []
  {
    if nbrs != [] {
      WalkEndStuck(vals, w, nbrs[1..], c, u);
    }
  }

  /** The second walk (the `while x != v` loop): from w, follow the first neighbour y whose
      key (x, y) holds colour c and store d under that key, swapping c and d after each
      step, until v is reached or no such neighbour is left. Only keys that are already
      present are written, and only with c or d. Starting at v, or at a node with no key
      of colour c, it writes nothing. */
  method InvertPath(g: Graph, colors: ColorMap, v: Node, w: Node, c0: nat, d0: nat, fuel: nat)
    returns (r: ColorMap, c: nat, d: nat, ok: bool)
    requires g.Valid() && w < |g.adj| && WellFormed(colors)
    ensures (c == c0 && d == d0) || (c == d0 && d == c0)
    ensures ok ==> WellFormed(r) && r.keys == colors.keys && r.vals.Keys == colors.vals.Keys
    ensures ok ==> forall e :: e in r.vals ==> r.vals[e] == c0 || r.vals[e] == d0 || r.vals[e] == colors.vals[e]
    ensures (w == v || ColoredNeighbors(colors.vals, w, g.adj[w], c0, None) == []) ==> ok && r == colors && c == c0
    ensures (r, c, d, ok) == Invert(g, colors, v, w, c0, d0, fuel)
  {
    r, c, d := colors, c0, d0;
    var x: Node := w;
    var steps := 0;
    ghost var stuck := w == v || ColoredNeighbors(colors.vals, w, g.adj[w], c0, None) == [];
    while x != v
      invariant x < |g.adj| && steps <= fuel
      invariant (c == c0 && d == d0) || (c == d0 && d == c0)
      invariant WellFormed(r) && r.keys == colors.keys && r.vals.Keys == colors.vals.Keys
      invariant forall e :: e in r.vals ==> r.vals[e] == c0 || r.vals[e] == d0 || r.vals[e] == colors.vals[e]
      invariant stuck ==> x == w && r == colors && c == c0
      invariant Invert(g, r, v, x, c, d, fuel - steps) == Invert(g, colors, v, w, c0, d0, fuel)
      decreases fuel - steps
    {
      var nextNodes := ColoredNeighbors(r.vals, x, g.adj[x], c, None);
      if nextNodes == [] {
        break;
      }
      if steps == fuel {
        return r, c, d, false;
      }
      var y := nextNodes[0];
      assert y in nextNodes;
      InvertWrite(colors, r, (x, y), d, c0, d0);
      r := Put(r, (x, y), d);
      x := y;
      c, d := d, c;
      steps := steps + 1;
    }
    ok := true;
  }

  /** On the graph with edges (0, 1) and (0, 2), once (0, 2) holds colour 0, popping
      (0, 1) finds colour 1 free at node 0 and colour 0 free at node 1; the walk from 1
      cannot move, so (0, 1) gets colour 1 and the two edges land in different layers. */
  lemma TwoEdgeStep()
    ensures var g, colors := Graph([[1, 2], [0], [0]]), ColorMap([(0, 2)], map[(0, 2) := 0]);
            && IsLeastFree(1, UsedColors(colors.vals, 0, g.adj[0]))
            && IsLeastFree(0, UsedColors(colors.vals, 1, g.adj[1]))
            && ColorStep(g, colors, 0, 1, 1, 0, 4) == (Put(colors, (0, 1), 1), true)
  {
    var g, colors := Graph([[1, 2], [0], [0]]), ColorMap([(0, 2)], map[(0, 2) := 0]);
    assert [1, 2][..1] == [1] && [1][..0] == [] && [0][..0] == [];
    assert UsedColors(colors.vals, 0, g.adj[0]) == {0};
    assert UsedColors(colors.vals, 1, g.adj[1]) == {};
    assert [0][1..] == [];
    assert ColoredNeighbors(colors.vals, 1, g.adj[1], 1, Some(0)) == [];
    assert Walk(g, colors.vals, 0, 1, 1, 0, 4) == (1, 1, 0, true);
  }

  /** One write of the second walk rewrites a present key with c0 or d0, so the key
      order and the key set stay as they were. */
  lemma InvertWrite(colors: ColorMap, r: ColorMap, e: Edge, d: nat, c0: nat, d0: nat)
    requires WellFormed(r) && r.keys == colors.keys && r.vals.Keys == colors.vals.Keys
    requires forall e :: e in r.vals ==> r.vals[e] == c0 || r.vals[e] == d0 || r.vals[e] == colors.vals[e]
    requires e in r.vals && (d == c0 || d == d0)
    ensures var r' := Put(r, e, d);
            && WellFormed(r') && r'.keys == colors.keys && r'.vals.Keys == colors.vals.Keys
            && forall e :: e in r'.vals ==> r'.vals[e] == c0 || r'.vals[e] == d0 || r'.vals[e] == colors.vals[e]
  {
    PutWellFormed(r, e, d);
  }

  /** One iteration of the colouring loop for the popped edge (u, v): the least free
      colours c at u and d at v, the two walks, and finally `edge_colors[(u, v)] = c`.
      `ok` is false when a walk has not ended within `fuel` steps. When every key and
      the popped edge run upwards, 2 * |adj| steps are always enough, and the second
      walk never changes a colour: only the popped edge is written. */
  method ColorEdge(g: Graph, colors: ColorMap, u: Node, v: Node, fuel: nat)
    returns (r: ColorMap, ok: bool, c0: nat, d0: nat)
    requires g.Valid() && u < |g.adj| && v < |g.adj| && WellFormed(colors)
    ensures IsLeastFree(c0, UsedColors(colors.vals, u, g.adj[u]))
    ensures IsLeastFree(d0, UsedColors(colors.vals, v, g.adj[v]))
    ensures ok ==> WellFormed(r)
    ensures ok ==> r.keys == colors.keys + (if (u, v) in colors.vals then [] else [(u, v)])
    ensures ok ==> r.vals.Keys == colors.vals.Keys + {(u, v)}
    ensures ok ==> r.vals[(u, v)] == c0 || r.vals[(u, v)] == d0
    ensures ok ==> forall e :: e in r.vals ==>
              r.vals[e] == c0 || r.vals[e] == d0 || (e in colors.vals && r.vals[e] == colors.vals[e])
    ensures KeysUp(colors.vals) && u <= v && 2 * |g.adj| <= fuel ==> ok
    ensures KeysUp(colors.vals) && u <= v && ok ==> r == Put(colors, (u, v), r.vals[(u, v)])
    ensures c0 == LeastFreeColor(UsedColors(colors.vals, u, g.adj[u]))
    ensures d0 == LeastFreeColor(UsedColors(colors.vals, v, g.adj[v]))
    ensures (r, ok) == ColorStep(g, colors, u, v, c0, d0, fuel)
    ensures KeysUp(colors.vals) && u <= v && ok ==> r.vals[(u, v)] == Walk(g, colors.vals, u, v, c0, d0, fuel).1
  {
    var usedColorsU := UsedColors(colors.vals, u, g.adj[u]);
    var usedColorsV := UsedColors(colors.vals, v, g.adj[v]);
    c0 := LeastFree(usedColorsU);
    d0 := LeastFree(usedColorsV);
    var w, c, d;
    w, c, d, ok := WalkAlternating(g, colors.vals, u, v, c0, d0, fuel);
    if !ok {
      return colors, false, c0, d0;
    }
    if KeysUp(colors.vals) && u <= v && w != v {
      WalkEndStuck(colors.vals, w, g.adj[w], c, u);
    }
    var inverted;
    inverted, c, d, ok := InvertPath(g, colors, v, w, c, d, fuel);
    if !ok {
      return colors, false, c0, d0;
    }
    r := Put(inverted, (u, v), c);
    FinalWrite(colors, inverted, u, v, c, c0, d0);
  }

  /** `edge_colors[(u, v)] = c` after the second walk: the popped edge joins the keys
      and every colour is c0, d0 or the one stored before the iteration. */
  lemma FinalWrite(colors: ColorMap, inverted: ColorMap, u: Node, v: Node, c: nat, c0: nat, d0: nat)
    requires WellFormed(inverted) && inverted.keys == colors.keys && inverted.vals.Keys == colors.vals.Keys
    requires forall e :: e in inverted.vals ==>
               inverted.vals[e] == c0 || inverted.vals[e] == d0 || inverted.vals[e] == colors.vals[e]
    requires c == c0 || c == d0
    ensures var r := Put(inverted, (u, v), c);
            && WellFormed(r)
            && r.keys == colors.keys + (if (u, v) in colors.vals then [] else [(u, v)])
            && r.vals.Keys == colors.vals.Keys + {(u, v)}
            && r.vals[(u, v)] == c
            && forall e :: e in r.vals ==>
                 r.vals[e] == c0 || r.vals[e] == d0 || (e in colors.vals && r.vals[e] == colors.vals[e])
  {
    PutWellFormed(inverted, (u, v), c);
  }

  // ---------------------------------------------------------------------------------
  // The whole colouring.

  /** The sequence in the opposite order. */
  function Reverse<T>(s: seq<T>): (r: seq<T>)
    ensures |r| == |s|
  {
    if s == [] then [] else Reverse(s[1..]) + [s[0]]
  }

  lemma {:induction false} ReverseMembers<T>(s: seq<T>)
    ensures forall x :: x in Reverse(s) <==> x in s
  {
    if s != [] {
      ReverseMembers(s[1..]);
      assert s == [s[0]] + s[1..];
    }
  }

  lemma {:induction false} ReverseDistinct<T>(s: seq<T>)
    requires Distinct(s)
    ensures Distinct(Reverse(s))
  {
    if s != [] {
      var t := s[1..];
      assert Distinct(t) by {
        forall i, j | 0 <= i < j < |t| ensures t[i] != t[j] {
          assert t[i] == s[i + 1] && t[j] == s[j + 1];
        }
      }
      assert s[0] !in t by {
        forall i | 0 <= i < |t| ensures t[i] != s[0] {
          assert t[i] == s[i + 1];
        }
      }
      ReverseDistinct(t);
      ReverseMembers(t);
      DistinctAppend(Reverse(t), s[0]);
    }
  }

  /** The sequence with every repeated occurrence after the first removed. */
  function Dedup<T(==)>(s: seq<T>): (r: seq<T>)
  {
    if s == [] then []
    else
      var front := s[..|s| - 1];
      Dedup(front) + (if s[|s| - 1] in front then [] else [s[|s| - 1]])
  }

  lemma {:induction false} DedupProperties<T>(s: seq<T>)
    ensures Distinct(Dedup(s))
    ensures forall x :: x in Dedup(s) <==> x in s
  {
    if s != [] {
      var front := s[..|s| - 1];
      DedupProperties(front);
      assert s == front + [s[|s| - 1]];
      DistinctAppend(Dedup(front), s[|s| - 1]);
    }
  }

  /** A list without repetitions is its own deduplication. */
  lemma {:induction false} DedupDistinct<T>(s: seq<T>)
    requires Distinct(s)
    ensures Dedup(s) == s
  {
    if s != [] {
      var front := s[..|s| - 1];
      DedupDistinct(front);
      assert s == front + [s[|s| - 1]];
    }
  }

  /** misra_gries_coloring: edges are popped from the end of `G.edges()` and coloured one
      at a time. Every walk ends within 2 * |adj| steps. When the walks end within
      `fuel` steps the keys are the graph's edges in the order they were popped, and
      every colour is at most the maximum degree. */
  method MisraGriesColoring(g: Graph, fuel: nat) returns (edgeColors: ColorMap, ok: bool)
    requires g.Valid()
    ensures Edges(g) == [] ==> ok
    ensures 2 * |g.adj| <= fuel ==> ok
    ensures ok == Coloring(g, Edges(g), 0, fuel).1
    ensures ok ==> edgeColors == Coloring(g, Edges(g), 0, fuel).0
    ensures ok ==> WellFormed(edgeColors)
    ensures ok ==> edgeColors.keys == Dedup(Reverse(Edges(g)))
    ensures ok ==> forall e :: e in edgeColors.vals <==> e in Edges(g)
    ensures ok ==> forall e :: e in edgeColors.vals ==> edgeColors.vals[e] <= MaxDegree(g)
  {
    var edges := Edges(g);
    edgeColors, ok := ColorAll(g, edges, fuel);
    if ok {
      ColoringDone(g, edges, edgeColors);
    }
  }

  /** The colouring loop of ansatz1.py: pops the edges from the back of the list and
      colours each, giving up when a walk runs out of fuel. */
  method ColorAll(g: Graph, edges: seq<Edge>, fuel: nat) returns (edgeColors: ColorMap, ok: bool)
    requires g.Valid()
    requires forall e :: e in edges ==> e.0 < |g.adj| && e.1 < |g.adj| && e.0 <= e.1
    ensures edges == [] ==> ok
    ensures 2 * |g.adj| <= fuel ==> ok
    ensures ok ==> ColoredFrom(g, edges, 0, edgeColors)
    ensures ok == Coloring(g, edges, 0, fuel).1
    ensures ok ==> edgeColors == Coloring(g, edges, 0, fuel).0
  {
    edgeColors := ColorMap([], map[]);
    ok := true;
    var uncoloredEdges := edges;
    while uncoloredEdges != []
      invariant ok
      invariant |uncoloredEdges| <= |edges| && uncoloredEdges == edges[..|uncoloredEdges|]
      invariant ColoredFrom(g, edges, |uncoloredEdges|, edgeColors)
      invariant Coloring(g, edges, |uncoloredEdges|, fuel) == (edgeColors, true)
    {
      ghost var m := |uncoloredEdges|;
      var k := |uncoloredEdges| - 1;
      var (u, v) := uncoloredEdges[k];
      assert uncoloredEdges[..k] == edges[..k];
      uncoloredEdges := uncoloredEdges[..k];
      assert edges[k] in edges;
      edgeColors, ok := ColorPopped(g, edges, m, edgeColors, u, v, fuel);
      if !ok {
        ColoringFailStays(g, edges, k, fuel);
        return;
      }
    }
  }

  /** The colouring after popping the edges from the back of the list down to position m:
      one `ColorStep` per popped edge, each with the least free colours at its endpoints
      in the dictionary built so far. The flag turns false at the first walk that runs
      out of fuel, and the dictionary then stays as it was before that edge. */
  ghost function Coloring(g: Graph, edges: seq<Edge>, m: nat, fuel: nat): (ColorMap, bool)
    requires g.Valid() && m <= |edges|
    requires forall e :: e in edges ==> e.0 < |g.adj| && e.1 < |g.adj|
    decreases |edges| - m
  {
    if m == |edges| then (ColorMap([], map[]), true)
    else
      var before := Coloring(g, edges, m + 1, fuel);
      if !before.1 then before
      else
        assert edges[m] in edges;
        var (u, v) := edges[m];
        ColorStep(g, before.0, u, v, LeastFreeColor(UsedColors(before.0.vals, u, g.adj[u])),
                  LeastFreeColor(UsedColors(before.0.vals, v, g.adj[v])), fuel)
  }

  /** The colour the first walk leaves for the popped edge edges[m], on the dictionary
      built before it was popped: the least free colour at one of its two endpoints. */
  ghost function PoppedColor(g: Graph, edges: seq<Edge>, m: nat, fuel: nat): (c: nat)
    requires g.Valid() && m < |edges|
    requires forall e :: e in edges ==> e.0 < |g.adj| && e.1 < |g.adj|
    ensures var before := Coloring(g, edges, m + 1, fuel).0;
            || c == LeastFreeColor(UsedColors(before.vals, edges[m].0, g.adj[edges[m].0]))
            || c == LeastFreeColor(UsedColors(before.vals, edges[m].1, g.adj[edges[m].1]))
  {
    assert edges[m] in edges;
    var before := Coloring(g, edges, m + 1, fuel).0;
    var (u, v) := edges[m];
    var c0 := LeastFreeColor(UsedColors(before.vals, u, g.adj[u]));
    var d0 := LeastFreeColor(UsedColors(before.vals, v, g.adj[v]));
    WalkEnd(g, before.vals, u, v, c0, d0, fuel);
    Walk(g, before.vals, u, v, c0, d0, fuel).1
  }

  /** Where a finished walk stops no neighbour other than u carries its colour c; on
      upward keys it never moves below its start; its colours are the pair it started
      with, possibly swapped. */
  lemma {:induction false} WalkEnd(g: Graph, vals: map<Edge, nat>, u: Node, w: Node, c: nat, d: nat, fuel: nat)
    requires g.Valid() && w < |g.adj|
    ensures var r := Walk(g, vals, u, w, c, d, fuel);
            && (r.3 ==> ColoredNeighbors(vals, r.0, g.adj[r.0], r.1, Some(u)) == [])
            && (KeysUp(vals) ==> w <= r.0)
            && ((r.1 == c && r.2 == d) || (r.1 == d && r.2 == c))
    decreases fuel
  {
    var next := ColoredNeighbors(vals, w, g.adj[w], c, Some(u));
    if next != [] && fuel != 0 {
      assert next[0] in next;
      WalkEnd(g, vals, u, next[0], d, c, fuel - 1);
    }
  }

  /** With every key and the popped edge running upwards, the second walk of an
      iteration writes nothing: the iteration only stores the first walk's colour
      under (u, v). */
  lemma StepWritesOnlyEdge(g: Graph, colors: ColorMap, u: Node, v: Node, c0: nat, d0: nat, fuel: nat)
    requires g.Valid() && v < |g.adj| && KeysUp(colors.vals) && u <= v
    requires ColorStep(g, colors, u, v, c0, d0, fuel).1
    ensures ColorStep(g, colors, u, v, c0, d0, fuel).0 == Put(colors, (u, v), Walk(g, colors.vals, u, v, c0, d0, fuel).1)
  {
    var walked := Walk(g, colors.vals, u, v, c0, d0, fuel);
    WalkEnd(g, colors.vals, u, v, c0, d0, fuel);
    if walked.0 != v {
      WalkEndStuck(colors.vals, walked.0, g.adj[walked.0], walked.1, u);
    }
  }

  /** On upward keys, popping the upward edge edges[m] only stores its popped colour. */
  lemma ColoringPop(g: Graph, edges: seq<Edge>, m: nat, fuel: nat)
    requires g.Valid() && m < |edges|
    requires forall e :: e in edges ==> e.0 < |g.adj| && e.1 < |g.adj|
    requires Coloring(g, edges, m, fuel).1 && edges[m].0 <= edges[m].1
    requires KeysUp(Coloring(g, edges, m + 1, fuel).0.vals)
    ensures Coloring(g, edges, m + 1, fuel).1
    ensures Coloring(g, edges, m, fuel).0
              == Put(Coloring(g, edges, m + 1, fuel).0, edges[m], PoppedColor(g, edges, m, fuel))
  {
    assert edges[m] in edges;
    var before := Coloring(g, edges, m + 1, fuel).0;
    var u, v := edges[m].0, edges[m].1;
    StepWritesOnlyEdge(g, before, u, v, LeastFreeColor(UsedColors(before.vals, u, g.adj[u])),
                       LeastFreeColor(UsedColors(before.vals, v, g.adj[v])), fuel);
  }

  /** On upward edges, the keys of the colouring are exactly the popped edges. */
  lemma {:induction false} ColoringKeys(g: Graph, edges: seq<Edge>, m: nat, fuel: nat)
    requires g.Valid() && m <= |edges|
    requires forall e :: e in edges ==> e.0 < |g.adj| && e.1 < |g.adj| && e.0 <= e.1
    requires Coloring(g, edges, m, fuel).1
    ensures forall e :: e in Coloring(g, edges, m, fuel).0.vals <==> e in edges[m..]
    decreases |edges| - m
  {
    if m < |edges| {
      assert Coloring(g, edges, m + 1, fuel).1;
      ColoringKeys(g, edges, m + 1, fuel);
      var before := Coloring(g, edges, m + 1, fuel).0.vals;
      PoppedKeysUp(before, edges, m + 1);
      ColoringPop(g, edges, m, fuel);
      PutPopped(before, Coloring(g, edges, m, fuel).0.vals, edges, m, PoppedColor(g, edges, m, fuel));
    }
  }

  /** Keys drawn from a list of upward edges run upwards. */
  lemma PoppedKeysUp(vals: map<Edge, nat>, edges: seq<Edge>, m: nat)
    requires m <= |edges| && forall e :: e in edges ==> e.0 <= e.1
    requires forall e :: e in vals <==> e in edges[m..]
    ensures KeysUp(vals)
  {
    forall e | e in vals ensures e.0 <= e.1 {
      assert e in edges[m..];
    }
  }

  /** Storing under edges[m] turns the keys edges[m + 1..] into the keys edges[m..]. */
  lemma PutPopped(before: map<Edge, nat>, after: map<Edge, nat>, edges: seq<Edge>, m: nat, x: nat)
    requires m < |edges| && (forall e :: e in before <==> e in edges[m + 1..])
    requires after == before[edges[m] := x]
    ensures forall e :: e in after <==> e in edges[m..]
  {
    assert edges[m..] == [edges[m]] + edges[m + 1..];
  }

  /** On upward edges, every iteration only stores its popped colour under its edge. */
  lemma ColoringPopUp(g: Graph, edges: seq<Edge>, m: nat, fuel: nat)
    requires g.Valid() && m < |edges|
    requires forall e :: e in edges ==> e.0 < |g.adj| && e.1 < |g.adj| && e.0 <= e.1
    requires Coloring(g, edges, m, fuel).1
    ensures Coloring(g, edges, m + 1, fuel).1
    ensures Coloring(g, edges, m, fuel).0
              == Put(Coloring(g, edges, m + 1, fuel).0, edges[m], PoppedColor(g, edges, m, fuel))
  {
    assert Coloring(g, edges, m + 1, fuel).1;
    ColoringKeys(g, edges, m + 1, fuel);
    PoppedKeysUp(Coloring(g, edges, m + 1, fuel).0.vals, edges, m + 1);
    assert edges[m] in edges;
    ColoringPop(g, edges, m, fuel);
  }

  /** On upward edges, an iteration adds its own edge and leaves every other entry alone. */
  lemma ColoringOnlyAdds(g: Graph, edges: seq<Edge>, m: nat, fuel: nat)
    requires g.Valid() && m < |edges|
    requires forall e :: e in edges ==> e.0 < |g.adj| && e.1 < |g.adj| && e.0 <= e.1
    requires Coloring(g, edges, m, fuel).1
    ensures Coloring(g, edges, m + 1, fuel).1
    ensures edges[m] in Coloring(g, edges, m, fuel).0.vals
    ensures Coloring(g, edges, m, fuel).0.vals
              == Coloring(g, edges, m + 1, fuel).0.vals[edges[m] := Coloring(g, edges, m, fuel).0.vals[edges[m]]]
  {
    ColoringPopUp(g, edges, m, fuel);
  }

  /** On edges without repeats running upwards, the popped edge edges[j] keeps the colour
      its own iteration gave it through every later iteration. */
  lemma {:induction false} ColoringKeepsColors(g: Graph, edges: seq<Edge>, m: nat, j: nat, fuel: nat)
    requires g.Valid() && m <= j < |edges| && Distinct(edges)
    requires forall e :: e in edges ==> e.0 < |g.adj| && e.1 < |g.adj| && e.0 <= e.1
    requires Coloring(g, edges, m, fuel).1
    ensures Coloring(g, edges, j, fuel).1
    ensures edges[j] in Coloring(g, edges, m, fuel).0.vals
    ensures Coloring(g, edges, m, fuel).0.vals[edges[j]] == Coloring(g, edges, j, fuel).0.vals[edges[j]]
    decreases j - m
  {
    ColoringOnlyAdds(g, edges, m, fuel);
    if m < j {
      ColoringKeepsColors(g, edges, m + 1, j, fuel);
      assert edges[j] != edges[m];
    }
  }

  /** On edges listed from their lower endpoint without repeats, as `G.edges()` lists
      them, the path inversion never changes a colour: when the whole list is coloured,
      every edge holds the colour the first walk of its own iteration chose. */
  lemma ColoringFinalColor(g: Graph, edges: seq<Edge>, j: nat, fuel: nat)
    requires g.Valid() && j < |edges| && Distinct(edges)
    requires forall e :: e in edges ==> e.0 < |g.adj| && e.1 < |g.adj| && e.0 <= e.1
    requires Coloring(g, edges, 0, fuel).1
    ensures edges[j] in Coloring(g, edges, 0, fuel).0.vals
    ensures Coloring(g, edges, 0, fuel).0.vals[edges[j]] == PoppedColor(g, edges, j, fuel)
  {
    ColoringKeepsColors(g, edges, 0, j, fuel);
    ColoringPopUp(g, edges, j, fuel);
  }

  /** Once a walk has run out of fuel, the whole colouring reports it. */
  lemma {:induction false} ColoringFailStays(g: Graph, edges: seq<Edge>, m: nat, fuel: nat)
    requires g.Valid() && m <= |edges|
    requires forall e :: e in edges ==> e.0 < |g.adj| && e.1 < |g.adj|
    requires !Coloring(g, edges, m, fuel).1
    ensures !Coloring(g, edges, 0, fuel).1
  {
    if 0 < m {
      ColoringFailStays(g, edges, m - 1, fuel);
    }
  }

  /** The loop invariant after popping down to position m: the keys are the popped edges
      in pop order and every colour is at most the maximum degree. */
  ghost predicate ColoredFrom(g: Graph, edges: seq<Edge>, m: nat, d: ColorMap)
  {
    && m <= |edges|
    && WellFormed(d)
    && d.keys == Dedup(Reverse(edges[m..]))
    && forall e :: e in d.vals ==> d.vals[e] <= MaxDegree(g)
  }

  /** The loop body for the popped edge (u, v) = edges[m - 1]: colour it and keep the
      loop invariant. */
  method ColorPopped(g: Graph, ghost edges: seq<Edge>, ghost m: nat, colors: ColorMap, u: Node, v: Node, fuel: nat)
    returns (r: ColorMap, ok: bool)
    requires g.Valid() && u < |g.adj| && v < |g.adj|
    requires 0 < m <= |edges| && edges[m - 1] == (u, v)
    requires ColoredFrom(g, edges, m, colors)
    requires forall e :: e in edges ==> e.0 <= e.1
    ensures ok ==> ColoredFrom(g, edges, m - 1, r)
    ensures 2 * |g.adj| <= fuel ==> ok
    ensures (r, ok) == ColorStep(g, colors, u, v, LeastFreeColor(UsedColors(colors.vals, u, g.adj[u])),
                                 LeastFreeColor(UsedColors(colors.vals, v, g.adj[v])), fuel)
  {
    KeysFromEdges(g, edges, m, colors);
    assert edges[m - 1] in edges;
    var c0, d0;
    r, ok, c0, d0 := ColorEdge(g, colors, u, v, fuel);
    if ok {
      ColoringStep(g, edges, m, colors, r, c0, d0);
    }
  }

  /** The keys come from the list, so they run upwards when the listed edges do. */
  lemma KeysFromEdges(g: Graph, edges: seq<Edge>, m: nat, d: ColorMap)
    requires ColoredFrom(g, edges, m, d) && forall e :: e in edges ==> e.0 <= e.1
    ensures KeysUp(d.vals)
  {
    DedupReverseMembers(edges[m..]);
    forall e | e in d.vals ensures e.0 <= e.1 {
      assert e in edges[m..];
    }
  }

  /** Once every edge is popped, the keys are the edges in pop order and the coloured
      edges are exactly the listed ones. */
  lemma ColoringDone(g: Graph, edges: seq<Edge>, d: ColorMap)
    requires ColoredFrom(g, edges, 0, d)
    ensures d.keys == Dedup(Reverse(edges))
    ensures forall e :: e in d.vals <==> e in edges
  {
    DedupReverseMembers(edges);
    assert edges[0..] == edges;
  }

  /** One iteration of the colouring loop keeps the invariant. */
  lemma ColoringStep(g: Graph, edges: seq<Edge>, m: nat, before: ColorMap, after: ColorMap, c0: nat, d0: nat)
    requires 0 < m <= |edges| && edges[m - 1].0 < |g.adj| && edges[m - 1].1 < |g.adj|
    requires ColoredFrom(g, edges, m, before)
    requires IsLeastFree(c0, UsedColors(before.vals, edges[m - 1].0, g.adj[edges[m - 1].0]))
    requires IsLeastFree(d0, UsedColors(before.vals, edges[m - 1].1, g.adj[edges[m - 1].1]))
    requires WellFormed(after)
    requires after.keys == before.keys + (if edges[m - 1] in before.vals then [] else [edges[m - 1]])
    requires forall e :: e in after.vals ==>
               after.vals[e] == c0 || after.vals[e] == d0 || (e in before.vals && after.vals[e] == before.vals[e])
    ensures ColoredFrom(g, edges, m - 1, after)
  {
    DegreeBound(g, before.vals, edges[m - 1].0, c0);
    DegreeBound(g, before.vals, edges[m - 1].1, d0);
    BoundKept(before.vals, after.vals, c0, d0, MaxDegree(g));
    PopStep(edges, m, before.keys);
  }

  /** Writing only c0 and d0, both at most m, keeps every stored colour at most m. */
  lemma BoundKept(before: map<Edge, nat>, after: map<Edge, nat>, c0: nat, d0: nat, m: nat)
    requires c0 <= m && d0 <= m
    requires forall e :: e in before ==> before[e] <= m
    requires forall e :: e in after ==> after[e] == c0 || after[e] == d0 || (e in before && after[e] == before[e])
    ensures forall e :: e in after ==> after[e] <= m
  {
  }

  /** Popping edges[m - 1] appends it to the keys unless it is already one of them. */
  lemma PopStep(edges: seq<Edge>, m: nat, keys: seq<Edge>)
    requires 0 < m <= |edges| && keys == Dedup(Reverse(edges[m..]))
    ensures keys + (if edges[m - 1] in keys then [] else [edges[m - 1]]) == Dedup(Reverse(edges[m - 1..]))
  {
    var k := m - 1;
    var popped := Reverse(edges[m..]);
    assert edges[k..][1..] == edges[m..];
    assert Reverse(edges[k..]) == popped + [edges[k]];
    DedupSnoc(popped, edges[k]);
    DedupProperties(popped);
  }

  lemma DedupSnoc<T>(s: seq<T>, x: T)
    ensures Dedup(s + [x]) == Dedup(s) + (if x in s then [] else [x])
  {
    assert (s + [x])[..|s|] == s;
  }

  /** The popped keys are exactly the elements of the list. */
  lemma DedupReverseMembers(s: seq<Edge>)
    ensures forall x :: x in Dedup(Reverse(s)) <==> x in s
  {
    DedupProperties(Reverse(s));
    ReverseMembers(s);
  }

  /** A least free colour at u is at most the maximum degree. */
  lemma DegreeBound(g: Graph, vals: map<Edge, nat>, u: Node, c: nat)
    requires u < |g.adj| && IsLeastFree(c, UsedColors(vals, u, g.adj[u]))
    ensures c <= MaxDegree(g)
  {
    LeastFreeBound(c, UsedColors(vals, u, g.adj[u]));
    UsedColorsBound(vals, u, g.adj[u]);
  }

  // ---------------------------------------------------------------------------------
  // The colour-layered assembly.

  /** `edge_coloring.items()`: (edge, colour) pairs in key insertion order. */
  function Items(d: ColorMap): (items: seq<(Edge, nat)>)
    requires forall e :: e in d.keys ==> e in d.vals
    ensures |items| == |d.keys|
    ensures forall i :: 0 <= i < |items| ==> items[i] == (d.keys[i], d.vals[d.keys[i]])
  {
    seq(|d.keys|, i requires 0 <= i < |d.keys| => (d.keys[i], d.vals[d.keys[i]]))
  }

  /** `max(edge_coloring.values())`, defined only for a non-empty dictionary. */
  function MaxColor(items: seq<(Edge, nat)>): (m: nat)
    requires items != []
    ensures forall i :: 0 <= i < |items| ==> items[i].1 <= m
    ensures exists i :: 0 <= i < |items| && items[i].1 == m
  {
    if |items| == 1 then items[0].1
    else
      var m := MaxColor(items[..|items| - 1]);
      if items[|items| - 1].1 <= m then m else items[|items| - 1].1
  }

  /** `[e for e, c in edge_coloring.items() if c == color]`, each edge kept with its colour. */
  function Select(items: seq<(Edge, nat)>, color: nat): (layer: seq<(Edge, nat)>)
    ensures forall x :: x in layer ==> x.1 == color
  {
    if items == [] then []
    else
      var last := items[|items| - 1];
      Select(items[..|items| - 1], color) + (if last.1 == color then [last] else [])
  }

  /** The layers of colours 0 .. m-1, one after the other. */
  function ByColor(items: seq<(Edge, nat)>, m: nat): (r: seq<(Edge, nat)>)
    ensures forall x :: x in r ==> x.1 < m
  {
    if m == 0 then [] else ByColor(items, m - 1) + Select(items, m - 1)
  }

  /** cx(u, v); ry(theta[colour], v); cx(u, v) for each edge (u, v) in turn. */
  function EdgeGates(xs: seq<(Edge, nat)>): seq<Gate>
  {
    if xs == [] then []
    else
      var (e, color) := xs[|xs| - 1];
      EdgeGates(xs[..|xs| - 1]) + [CX(e.0, e.1), RY(color, e.1), CX(e.0, e.1)]
  }

  lemma EdgeGatesSnoc(xs: seq<(Edge, nat)>, j: nat)
    requires j < |xs|
    ensures EdgeGates(xs[..j + 1])
              == EdgeGates(xs[..j]) + [CX(xs[j].0.0, xs[j].0.1), RY(xs[j].1, xs[j].0.1), CX(xs[j].0.0, xs[j].0.1)]
  {
    assert xs[..j + 1][..j] == xs[..j];
  }

  lemma {:induction false} EdgeGatesAppend(a: seq<(Edge, nat)>, b: seq<(Edge, nat)>)
    ensures EdgeGates(a + b) == EdgeGates(a) + EdgeGates(b)
    decreases |b|
  {
    if b == [] {
      assert a + b == a;
    } else {
      var front := b[..|b| - 1];
      assert (a + b)[..|a + b| - 1] == a + front;
      EdgeGatesAppend(a, front);
      AppendAssoc(EdgeGates(a), EdgeGates(front), EdgeGates(b)[|EdgeGates(front)|..]);
    }
  }

  /** The inner loop of the emission: the block of each edge of one colour layer. */
  method EmitLayer(ansatz: seq<Gate>, edges: seq<(Edge, nat)>, color: nat) returns (r: seq<Gate>)
    requires forall x :: x in edges ==> x.1 == color
    ensures r == ansatz + EdgeGates(edges)
  {
    r := ansatz;
    for j := 0 to |edges|
      invariant r == ansatz + EdgeGates(edges[..j])
    {
      assert edges[j] in edges;
      var (e, _) := edges[j];
      var (u, v) := e;
      EdgeGatesSnoc(edges, j);
      r := r + [CX(u, v), RY(color, v), CX(u, v)];
    }
    assert edges[..|edges|] == edges;
  }

  /** The colour-layered emission of build_ansatz: Hadamards on every node, then for each
      colour 0 .. max_color-1 the block of every edge of that colour, in key order. An
      empty colouring has no maximum colour and fails. */
  method ColorLayers(n: nat, edgeColoring: ColorMap) returns (r: Option<Ansatz>)
    requires WellFormed(edgeColoring)
    ensures r.None? <==> edgeColoring.keys == []
    ensures r.Some? ==>
              var items := Items(edgeColoring);
              && r.value.numQubits == n
              && r.value.numParams == MaxColor(items) + 1
              && r.value.ops == HLayer(n) + EdgeGates(ByColor(items, MaxColor(items) + 1))
  {
    var items := Items(edgeColoring);
    if items == [] {
      return None;
    }
    var maxColor := MaxColor(items) + 1;
    var ansatz := HLayer(n);
    for color := 0 to maxColor
      invariant ansatz == HLayer(n) + EdgeGates(ByColor(items, color))
    {
      var edges := Select(items, color);
      ansatz := EmitLayer(ansatz, edges, color);
      EdgeGatesAppend(ByColor(items, color), edges);
      AppendAssoc(HLayer(n), EdgeGates(ByColor(items, color)), EdgeGates(edges));
    }
    return Some(Ansatz(n, maxColor, ansatz));
  }

  /** Each edge of the layered list gets cx; ry(theta[its colour], its target); cx. */
  lemma {:induction false} EdgeGatesAt(xs: seq<(Edge, nat)>)
    ensures |EdgeGates(xs)| == 3 * |xs|
    ensures forall i :: 0 <= i < |xs| ==>
              && EdgeGates(xs)[3 * i] == CX(xs[i].0.0, xs[i].0.1)
              && EdgeGates(xs)[3 * i + 1] == RY(xs[i].1, xs[i].0.1)
              && EdgeGates(xs)[3 * i + 2] == CX(xs[i].0.0, xs[i].0.1)
  {
    if xs != [] {
      EdgeGatesAt(xs[..|xs| - 1]);
    }
  }

  /** The items whose colour is below m, in order. */
  function Below(items: seq<(Edge, nat)>, m: nat): seq<(Edge, nat)>
  {
    if items == [] then []
    else
      var last := items[|items| - 1];
      Below(items[..|items| - 1], m) + (if last.1 < m then [last] else [])
  }

  /** Raising the bound from m - 1 to m adds exactly the layer of colour m - 1. */
  lemma {:induction false} BelowStep(items: seq<(Edge, nat)>, m: nat)
    requires 0 < m
    ensures multiset(Below(items, m)) == multiset(Below(items, m - 1)) + multiset(Select(items, m - 1))
  {
    if items != [] {
      BelowStep(items[..|items| - 1], m);
    }
  }

  lemma {:induction false} ByColorBelow(items: seq<(Edge, nat)>, m: nat)
    ensures multiset(ByColor(items, m)) == multiset(Below(items, m))
  {
    if m == 0 {
      BelowNone(items);
      assert ByColor(items, 0) == [];
    } else {
      ByColorBelow(items, m - 1);
      ByColorStep(items, m);
      BelowStep(items, m);
    }
  }

  /** Raising the bound from m - 1 to m adds the layer of colour m - 1 to the layers. */
  lemma ByColorStep(items: seq<(Edge, nat)>, m: nat)
    requires 0 < m
    ensures multiset(ByColor(items, m)) == multiset(ByColor(items, m - 1)) + multiset(Select(items, m - 1))
  {
    var earlier := ByColor(items, m - 1);
    var layer := Select(items, m - 1);
    assert ByColor(items, m) == earlier + layer;
  }

  lemma {:induction false} BelowNone(items: seq<(Edge, nat)>)
    ensures Below(items, 0) == []
  {
    if items != [] {
      BelowNone(items[..|items| - 1]);
    }
  }

  lemma {:induction false} BelowAll(items: seq<(Edge, nat)>, m: nat)
    requires forall i :: 0 <= i < |items| ==> items[i].1 < m
    ensures Below(items, m) == items
  {
    if items != [] {
      BelowAll(items[..|items| - 1], m);
    }
  }

  /** When every colour is below m, the layers hold every item exactly once. */
  lemma ByColorPermutation(items: seq<(Edge, nat)>, m: nat)
    requires forall i :: 0 <= i < |items| ==> items[i].1 < m
    ensures multiset(ByColor(items, m)) == multiset(items)
    ensures |ByColor(items, m)| == |items|
  {
    ByColorBelow(items, m);
    BelowAll(items, m);
    assert |multiset(ByColor(items, m))| == |ByColor(items, m)|;
  }

  /** The layers come in ascending colour order. */
  lemma {:induction false} ByColorSorted(items: seq<(Edge, nat)>, m: nat)
    ensures forall i, j :: 0 <= i < j < |ByColor(items, m)| ==> ByColor(items, m)[i].1 <= ByColor(items, m)[j].1
  {
    if m > 0 {
      ByColorSorted(items, m - 1);
      var front := ByColor(items, m - 1);
      var layer := Select(items, m - 1);
      var all := ByColor(items, m);
      forall i, j | 0 <= i < j < |all| ensures all[i].1 <= all[j].1 {
        if j < |front| {
          assert all[i] == front[i] && all[j] == front[j];
        } else if i < |front| {
          assert all[i] == front[i] && front[i] in front;
          assert all[j] == layer[j - |front|] && layer[j - |front|] in layer;
        } else {
          assert all[i] == layer[i - |front|] && layer[i - |front|] in layer;
          assert all[j] == layer[j - |front|] && layer[j - |front|] in layer;
        }
      }
    }
  }

  /** What build_ansatz returns, or why it returns nothing. */
  datatype Outcome =
    | Built(ansatz: Ansatz)
    | NoColors    // the graph has no edges: max() of the empty value list fails
    | Diverges    // a walk of the colouring did not end within the step bound
    | SelfLoop    // the cx of a self-loop names one qubit twice, which qiskit rejects

  /** build_ansatz: colour the edges, then emit the layers. One qubit per node, one
      parameter per colour of the reference colouring, at most max degree + 1 of them,
      and after the Hadamards the cx/ry/cx block of every coloured edge, layer by layer
      in ascending colour order. Every coloured edge gets a cx, so a self-loop makes
      qiskit raise. */
  method BuildAnsatz(g: Graph, fuel: nat) returns (r: Outcome)
    requires g.Valid()
    ensures r.NoColors? <==> Edges(g) == []
    ensures r.SelfLoop? ==> Edges(g) != [] && !NoSelfLoops(Edges(g))
    ensures 2 * |g.adj| <= fuel ==> (r.Built? <==> Edges(g) != [] && NoSelfLoops(Edges(g)))
    ensures r.Built? ==> NoSelfLoops(Edges(g))
    ensures r.Built? ==>
              && r.ansatz.numQubits == |g.adj|
              && 1 <= r.ansatz.numParams <= MaxDegree(g) + 1
              && |r.ansatz.ops| == |g.adj| + 3 * |Dedup(Reverse(Edges(g)))|
              && r.ansatz.ops[..|g.adj|] == HLayer(|g.adj|)
    ensures r.Built? ==>
              var colors := Coloring(g, Edges(g), 0, fuel).0;
              && WellFormed(colors) && colors.keys != []
              && var items := Items(colors);
                 r.ansatz == Ansatz(|g.adj|, MaxColor(items) + 1, HLayer(|g.adj|) + EdgeGates(ByColor(items, MaxColor(items) + 1)))
  {
    var edgeColoring, ok := MisraGriesColoring(g, fuel);
    if !ok {
      return Diverges;
    }
    var built := ColorLayers(|g.adj|, edgeColoring);
    if built.None? {
      EmptyColoring(g, edgeColoring.keys);
      return NoColors;
    }
    assert NoSelfLoops(edgeColoring.keys) <==> NoSelfLoops(Edges(g));
    if !NoSelfLoops(edgeColoring.keys) {
      return SelfLoop;
    }
    var items := Items(edgeColoring);
    ColorsBounded(g, edgeColoring);
    LayeredLength(items, MaxColor(items) + 1);
    assert (HLayer(|g.adj|) + EdgeGates(ByColor(items, MaxColor(items) + 1)))[..|g.adj|] == HLayer(|g.adj|);
    r := Built(built.value);
  }

  /** With duplicate-free adjacency lists no popped edge is already a key, so the
      colouring's keys are `G.edges()` in reverse. */
  lemma ColoringKeysReversed(g: Graph)
    requires g.Valid() && forall u :: 0 <= u < |g.adj| ==> Distinct(g.adj[u])
    ensures Dedup(Reverse(Edges(g))) == Reverse(Edges(g))
  {
    EdgesDistinct(g);
    ReverseDistinct(Edges(g));
    DedupDistinct(Reverse(Edges(g)));
  }

  /** The keys are empty exactly when the graph has no edges. */
  lemma EmptyColoring(g: Graph, keys: seq<Edge>)
    requires g.Valid() && keys == Dedup(Reverse(Edges(g)))
    ensures keys == [] <==> Edges(g) == []
  {
    DedupReverseMembers(Edges(g));
    if Edges(g) != [] {
      assert Edges(g)[0] in Edges(g);
    }
  }

  /** Every colour at most the maximum degree bounds the largest one. */
  lemma ColorsBounded(g: Graph, edgeColoring: ColorMap)
    requires WellFormed(edgeColoring) && edgeColoring.keys != []
    requires forall e :: e in edgeColoring.vals ==> edgeColoring.vals[e] <= MaxDegree(g)
    ensures MaxColor(Items(edgeColoring)) <= MaxDegree(g)
  {
    var items := Items(edgeColoring);
    var i :| 0 <= i < |items| && items[i].1 == MaxColor(items);
    assert edgeColoring.keys[i] in edgeColoring.keys;
  }

  /** The layered blocks hold three instructions per coloured edge. */
  lemma LayeredLength(items: seq<(Edge, nat)>, m: nat)
    requires forall i :: 0 <= i < |items| ==> items[i].1 < m
    ensures |EdgeGates(ByColor(items, m))| == 3 * |items|
  {
    ByColorPermutation(items, m);
    EdgeGatesAt(ByColor(items, m));
  }
}
