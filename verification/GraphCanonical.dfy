/** What valid artifacts guarantee: lookups agree with the plain edge list, and
    the constructor is canonical. */
module GraphCanonical {
  import opened Bytes
  import opened Sorting
  import opened Csr
  import opened GraphArtifact

  // ---------- Lookups agree with the edge list ----------

  function EdgesFrom(edges: seq<Edge>, d: Digest): seq<Edge> {
    if edges == [] then []
    else
      var e := edges[|edges| - 1];
      EdgesFrom(edges[..|edges| - 1], d) + (if e.source == d then [e] else [])
  }

  function EdgesTo(edges: seq<Edge>, d: Digest): seq<Edge> {
    if edges == [] then []
    else
      var e := edges[|edges| - 1];
      EdgesTo(edges[..|edges| - 1], d) + (if e.target == d then [e] else [])
  }

  /** `outgoing`: a slice of the edges delimited by the forward offsets. */
  function Outgoing(h: Hash, g: Graph, d: Digest): (r: seq<Edge>)
    requires Valid(h, g)
    ensures r == EdgesFrom(g.edges, d)
  {
    match NodeIndex(g.nodes, d)
    case None =>
      NoEdgesFromStranger(g.nodes, g.edges, d);
      []
    case Some(i) =>
      SliceIsFilter(g.nodes, g.edges, i);
      g.edges[g.forwardOffsets[i]..g.forwardOffsets[i + 1]]
  }

  /** `incoming`: the edges that one row of the reverse index names. */
  function Incoming(h: Hash, g: Graph, d: Digest): (r: seq<Edge>)
    requires Valid(h, g)
    ensures r == EdgesTo(g.edges, d)
  {
    match NodeIndex(g.nodes, d)
    case None =>
      NoEdgesToStranger(g.nodes, g.edges, d);
      []
    case Some(i) =>
      var keys := Indexes(g.nodes, Targets(g.edges));
      TransposeRow(keys, |g.nodes|, i);
      RowIsFilter(g.nodes, g.edges, i);
      Pick(g.edges, g.reverseEdges[g.reverseOffsets[i]..g.reverseOffsets[i + 1]])
  }

  function Pick(edges: seq<Edge>, positions: seq<nat>): (r: seq<Edge>)
    requires forall j :: 0 <= j < |positions| ==> positions[j] < |edges|
    ensures |r| == |positions| && forall j :: 0 <= j < |positions| ==> r[j] == edges[positions[j]]
  {
    seq(|positions|, j requires 0 <= j < |positions| => edges[positions[j]])
  }

  lemma {:induction false} NoEdgesFromStranger(nodes: seq<Node>, edges: seq<Edge>, d: Digest)
    requires Known(nodes, Sources(edges)) && NodeIndex(nodes, d).None?
    ensures EdgesFrom(edges, d) == []
  {
    if edges != [] {
      assert Sources(edges)[|edges| - 1] == edges[|edges| - 1].source;
      assert Sources(edges[..|edges| - 1]) == Sources(edges)[..|edges| - 1];
      NoEdgesFromStranger(nodes, edges[..|edges| - 1], d);
    }
  }

  lemma {:induction false} NoEdgesToStranger(nodes: seq<Node>, edges: seq<Edge>, d: Digest)
    requires Known(nodes, Targets(edges)) && NodeIndex(nodes, d).None?
    ensures EdgesTo(edges, d) == []
  {
    if edges != [] {
      assert Targets(edges)[|edges| - 1] == edges[|edges| - 1].target;
      assert Targets(edges[..|edges| - 1]) == Targets(edges)[..|edges| - 1];
      NoEdgesToStranger(nodes, edges[..|edges| - 1], d);
    }
  }

  /** If the edges of one source are those in [a, b), filtering finds that slice. */
  lemma FilterOfSlice(edges: seq<Edge>, d: Digest, a: nat, b: nat)
    requires a <= b <= |edges|
    requires forall p :: 0 <= p < |edges| ==> (edges[p].source == d <==> a <= p < b)
    ensures EdgesFrom(edges, d) == edges[a..b]
  {
    FilterThree(edges[..a], edges[a..b], edges[b..], d);
    ThreeWay(edges, a, b);
  }

  lemma ThreeWay<T>(s: seq<T>, a: nat, b: nat)
    requires a <= b <= |s|
    ensures s == s[..a] + s[a..b] + s[b..]
  {
  }

  lemma FilterThree(x: seq<Edge>, y: seq<Edge>, z: seq<Edge>, d: Digest)
    requires forall p :: 0 <= p < |x| ==> x[p].source != d
    requires forall p :: 0 <= p < |y| ==> y[p].source == d
    requires forall p :: 0 <= p < |z| ==> z[p].source != d
    ensures EdgesFrom(x + y + z, d) == y
  {
    FilterOutside(x, d);
    FilterInside(y, d);
    FilterOutside(z, d);
    FilterAppend(x, y, d);
    FilterAppend(x + y, z, d);
  }

  lemma {:induction false} FilterOutside(edges: seq<Edge>, d: Digest)
    requires forall p :: 0 <= p < |edges| ==> edges[p].source != d
    ensures EdgesFrom(edges, d) == []
  {
    if edges != [] { FilterOutside(edges[..|edges| - 1], d); }
  }

  lemma {:induction false} FilterInside(edges: seq<Edge>, d: Digest)
    requires forall p :: 0 <= p < |edges| ==> edges[p].source == d
    ensures EdgesFrom(edges, d) == edges
  {
    if edges != [] { FilterInside(edges[..|edges| - 1], d); }
  }

  lemma {:induction false} FilterAppend(s: seq<Edge>, t: seq<Edge>, d: Digest)
    ensures EdgesFrom(s + t, d) == EdgesFrom(s, d) + EdgesFrom(t, d)
  {
    if t == [] {
      assert s + t == s;
    } else {
      hide EdgesFrom;
      var n := |t| - 1;
      FilterAppend(s, t[..n], d);
      FilterSnoc(s + t[..n], t[n], d);
      FilterSnoc(t[..n], t[n], d);
      assert t == t[..n] + [t[n]];
      Associates(s, t[..n], [t[n]]);
      Associates(EdgesFrom(s, d), EdgesFrom(t[..n], d), if t[n].source == d then [t[n]] else []);
    }
  }

  lemma Associates<T>(a: seq<T>, b: seq<T>, c: seq<T>)
    ensures (a + b) + c == a + (b + c)
  {
  }

  lemma FilterSnoc(s: seq<Edge>, e: Edge, d: Digest)
    ensures EdgesFrom(s + [e], d) == EdgesFrom(s, d) + (if e.source == d then [e] else [])
  {
    assert (s + [e])[..|s|] == s;
  }

  lemma SliceIsFilter(nodes: seq<Node>, edges: seq<Edge>, i: nat)
    requires StrictlySorted(nodes) && i < |nodes| && ForwardIndex(nodes, edges).Some?
    ensures var o := ForwardIndex(nodes, edges).value;
            o[i] <= o[i + 1] <= |edges| && EdgesFrom(edges, nodes[i].id) == edges[o[i]..o[i + 1]]
  {
    var keys := Indexes(nodes, Sources(edges));
    BelowMonotone(keys, i, i + 1);
    forall p | 0 <= p < |edges|
      ensures edges[p].source == nodes[i].id <==> Below(keys, i) <= p < Below(keys, i + 1)
    {
      GroupedRow(keys, i, p);
      IndexOfOwnId(nodes, i);
      IndexOrderIsDigestOrder(nodes, edges[p].source, nodes[i].id);
    }
    FilterOfSlice(edges, nodes[i].id, Below(keys, i), Below(keys, i + 1));
  }

  lemma IndexOfOwnId(nodes: seq<Node>, i: nat)
    requires StrictlySorted(nodes) && i < |nodes|
    ensures NodeIndex(nodes, nodes[i].id) == Some(i)
  {
    var j := NodeIndex(nodes, nodes[i].id).value;
    if i < j { StrictlySortedOrder(nodes, i, j); }
    if j < i { StrictlySortedOrder(nodes, j, i); }
  }

  lemma {:induction false} PickIsFilter(edges: seq<Edge>, keys: seq<nat>, row: nat, d: Digest)
    requires |keys| == |edges|
    requires forall p :: 0 <= p < |edges| ==> (edges[p].target == d <==> keys[p] == row)
    ensures Pick(edges, Positions(keys, row)) == EdgesTo(edges, d)
  {
    if edges != [] {
      var n := |edges| - 1;
      PickIsFilter(edges[..n], keys[..n], row, d);
      assert Pick(edges, Positions(keys[..n], row)) == Pick(edges[..n], Positions(keys[..n], row));
      if keys[n] == row {
        assert Pick(edges, Positions(keys, row)) == Pick(edges, Positions(keys[..n], row)) + [edges[n]];
      }
    }
  }

  lemma RowIsFilter(nodes: seq<Node>, edges: seq<Edge>, i: nat)
    requires StrictlySorted(nodes) && i < |nodes| && Known(nodes, Targets(edges))
    ensures Pick(edges, Positions(Indexes(nodes, Targets(edges)), i)) == EdgesTo(edges, nodes[i].id)
  {
    var keys := Indexes(nodes, Targets(edges));
    forall p | 0 <= p < |edges| ensures edges[p].target == nodes[i].id <==> keys[p] == i {
      assert Targets(edges)[p] == edges[p].target;
      IndexOfOwnId(nodes, i);
      IndexOrderIsDigestOrder(nodes, edges[p].target, nodes[i].id);
    }
    PickIsFilter(edges, keys, i, nodes[i].id);
  }

  /** The reverse index names every edge exactly once, and never a position past the last. */
  lemma ReverseIndexIsPermutation(h: Hash, g: Graph)
    requires Valid(h, g)
    ensures multiset(g.reverseEdges) == multiset(Range(|g.edges|))
    ensures forall p :: 0 <= p < |g.reverseEdges| ==> g.reverseEdges[p] < |g.edges|
  {
    var keys := Indexes(g.nodes, Targets(g.edges));
    TransposePermutes(keys, |g.nodes|);
    TransposeInRange(keys, |g.nodes|);
  }

  /** Forward offsets are the only ones that put each edge in its source's row. */
  lemma ForwardOffsetsUnique(h: Hash, g: Graph, offsets: seq<u32>)
    requires Valid(h, g)
    requires |offsets| == |g.nodes| + 1 && offsets[0] == 0 && offsets[|g.nodes|] == |g.edges|
    requires forall i, j :: 0 <= i <= j <= |g.nodes| ==> offsets[i] <= offsets[j]
    requires forall i, p :: 0 <= i < |g.nodes| && offsets[i] <= p < offsets[i + 1]
               ==> g.edges[p].source == g.nodes[i].id
    ensures offsets == g.forwardOffsets
  {
    RowsMatchKeys(g.nodes, g.edges, offsets);
    OffsetsUnique(Indexes(g.nodes, Sources(g.edges)), |g.nodes|, offsets);
  }

  lemma RowsMatchKeys(nodes: seq<Node>, edges: seq<Edge>, offsets: seq<u32>)
    requires StrictlySorted(nodes) && Known(nodes, Sources(edges))
    requires |offsets| == |nodes| + 1 && offsets[|nodes|] == |edges|
    requires forall i, j :: 0 <= i <= j <= |nodes| ==> offsets[i] <= offsets[j]
    requires forall i, p :: 0 <= i < |nodes| && offsets[i] <= p < offsets[i + 1] ==> edges[p].source == nodes[i].id
    ensures forall i, p :: 0 <= i < |nodes| && offsets[i] <= p < offsets[i + 1]
              ==> Indexes(nodes, Sources(edges))[p] == i
  {
    forall i, p | 0 <= i < |nodes| && offsets[i] <= p < offsets[i + 1]
      ensures Indexes(nodes, Sources(edges))[p] == i
    {
      assert p < |edges|;
      IndexOfOwnId(nodes, i);
    }
  }

  // ---------- The constructor is canonical ----------

  lemma NodeOrderIsPreorder()
    ensures TotalPreorder(NodeLeq)
  {
    forall a, b ensures NodeLeq(a, b) || NodeLeq(b, a) { LexTotal(a.id, b.id); }
    forall a, b, c | NodeLeq(a, b) && NodeLeq(b, c) ensures NodeLeq(a, c) { LexTransitive(a.id, b.id, c.id); }
  }

  lemma StrictlySortedIsSorted(nodes: seq<Node>)
    requires StrictlySorted(nodes)
    ensures Sorted(NodeLeq, nodes)
    ensures NoTies(NodeLeq, nodes)
  {
    forall i, j | 0 <= i < j < |nodes| ensures LexLess(nodes[i].id, nodes[j].id) { StrictlySortedOrder(nodes, i, j); }
    forall x, y | x in nodes && y in nodes && NodeLeq(x, y) && NodeLeq(y, x) ensures x == y {
      LexTotal(x.id, y.id);
    }
  }

  lemma ValidEdgesSorted(nodes: seq<Node>, edges: seq<Edge>)
    requires StrictlySorted(nodes) && EdgesOk(nodes, edges)
    ensures Sorted(EdgeLeq, edges) && NoDuplicates(edges)
  {
    EdgeLessIsTransitive();
    AdjacentEdgesAscend(nodes, edges);
    forall p, q | 0 <= p < q < |edges| ensures EdgeLess(edges[p], edges[q]) {
      ChainAscends(EdgeLess, edges, p, q);
    }
  }

  lemma AdjacentEdgesAscend(nodes: seq<Node>, edges: seq<Edge>)
    requires StrictlySorted(nodes) && EdgesOk(nodes, edges)
    ensures forall p :: 0 < p < |edges| ==> EdgeLess(edges[p - 1], edges[p])
  {
    forall p | 0 < p < |edges| ensures EdgeLess(edges[p - 1], edges[p]) {
      DigestOrderIsIndexOrder(nodes, edges[p - 1], edges[p]);
    }
  }

  lemma SortedNodesAgree(nodes: seq<Node>, nodes': seq<Node>)
    requires multiset(nodes) == multiset(nodes')
    requires StrictlySorted(SortBy(NodeLeq, nodes))
    ensures SortBy(NodeLeq, nodes) == SortBy(NodeLeq, nodes')
  {
    NodeOrderIsPreorder();
    SortBySorts(NodeLeq, nodes);
    SortBySorts(NodeLeq, nodes');
    SortByPermutes(NodeLeq, nodes);
    SortByPermutes(NodeLeq, nodes');
    StrictlySortedIsSorted(SortBy(NodeLeq, nodes));
    SortedUnique(NodeLeq, SortBy(NodeLeq, nodes), SortBy(NodeLeq, nodes'));
  }

  /** Input order, and so the iteration order of any hash map behind it, does not matter. */
  lemma NewIgnoresOrder(
    h: Hash, corpus: Digest, nodes: seq<Node>, nodes': seq<Node>, edges: seq<Edge>, edges': seq<Edge>)
    requires multiset(nodes) == multiset(nodes') && multiset(edges) == multiset(edges')
    ensures New(h, corpus, nodes, edges) == New(h, corpus, nodes', edges')
  {
    EdgeOrderIsTotal();
    SortByIgnoresOrder(EdgeLeq, edges, edges');
    if New(h, corpus, nodes, edges).Some? { SortedNodesAgree(nodes, nodes'); }
    if New(h, corpus, nodes', edges').Some? { SortedNodesAgree(nodes', nodes); }
  }

  /** A valid artifact is what the constructor makes of its own nodes and edges. */
  lemma ValidIsCanonical(h: Hash, g: Graph)
    requires Valid(h, g)
    ensures New(h, g.corpus, g.nodes, g.edges) == Some(g)
  {
    StrictlySortedIsSorted(g.nodes);
    ValidEdgesSorted(g.nodes, g.edges);
    SortBySorted(NodeLeq, g.nodes);
    SortBySorted(EdgeLeq, g.edges);
  }

  // ---------- When the constructor succeeds ----------

  ghost predicate DistinctIds(nodes: seq<Node>) {
    forall i, j :: 0 <= i < j < |nodes| ==> nodes[i].id != nodes[j].id
  }

  /** What a caller can check of the unsorted input. */
  ghost predicate Admissible(h: Hash, nodes: seq<Node>, edges: seq<Edge>) {
    && |nodes| <= MAX_NODES && |edges| <= MAX_EDGES
    && DistinctIds(nodes) && NoDuplicates(edges)
    && (forall i | 0 <= i < |nodes| :: NodeOk(h, nodes[i]))
    && (forall p | 0 <= p < |edges| :: EdgeOk(nodes, edges[p]))
  }

  lemma DistinctIdsPermuted(a: seq<Node>, b: seq<Node>)
    requires DistinctIds(a) && multiset(a) == multiset(b)
    ensures DistinctIds(b)
  {
    NoDuplicatesPermuted(a, b);
    forall i, j | 0 <= i < j < |b| ensures b[i].id != b[j].id {
      assert b[i] in multiset(a) && b[j] in multiset(a) && b[i] != b[j];
    }
  }

  lemma LookupPermuted(a: seq<Node>, b: seq<Node>, d: Digest)
    requires DistinctIds(a) && multiset(a) == multiset(b)
    ensures NodeIndex(a, d).Some? <==> NodeIndex(b, d).Some?
    ensures NodeIndex(a, d).Some? ==> a[NodeIndex(a, d).value] == b[NodeIndex(b, d).value]
  {
    if NodeIndex(a, d).Some? { assert a[NodeIndex(a, d).value] in multiset(b); }
    if NodeIndex(b, d).Some? { assert b[NodeIndex(b, d).value] in multiset(a); }
  }

  lemma EdgeOkPermuted(a: seq<Node>, b: seq<Node>, e: Edge)
    requires DistinctIds(a) && multiset(a) == multiset(b)
    ensures EdgeOk(a, e) <==> EdgeOk(b, e)
  {
    LookupPermuted(a, b, e.source);
    LookupPermuted(a, b, e.target);
    LookupPermuted(a, b, e.evidence.node);
  }

  lemma SortedEdgesGrouped(nodes: seq<Node>, edges: seq<Edge>)
    requires StrictlySorted(nodes) && Sorted(EdgeLeq, edges)
    requires forall p :: 0 <= p < |edges| ==> EdgeOk(nodes, edges[p])
    ensures Known(nodes, Sources(edges)) && Grouped(Indexes(nodes, Sources(edges)))
    ensures Known(nodes, Targets(edges))
  {
    forall p | 0 <= p < |edges|
      ensures NodeIndex(nodes, Sources(edges)[p]).Some? && NodeIndex(nodes, Targets(edges)[p]).Some?
    {
      assert EndpointsKnown(nodes, edges[p]);
    }
    forall p | 0 < p < |edges|
      ensures Indexes(nodes, Sources(edges))[p - 1] <= Indexes(nodes, Sources(edges))[p]
    {
      var a, b := edges[p - 1], edges[p];
      assert EdgeLeq(a, b);
      IndexOrderIsDigestOrder(nodes, a.source, b.source);
      IndexOrderIsDigestOrder(nodes, b.source, a.source);
      LexTotal(a.source, b.source);
    }
  }

  /** The constructor succeeds on exactly the admissible inputs, whatever their order. */
  lemma NewSucceedsIff(h: Hash, corpus: Digest, nodes: seq<Node>, edges: seq<Edge>)
    ensures New(h, corpus, nodes, edges).Some? <==> Admissible(h, nodes, edges)
  {
    if Admissible(h, nodes, edges) { AdmissibleSucceeds(h, corpus, nodes, edges); }
    if New(h, corpus, nodes, edges).Some? { SuccessIsAdmissible(h, corpus, nodes, edges); }
  }

  lemma AdmissibleSucceeds(h: Hash, corpus: Digest, nodes: seq<Node>, edges: seq<Edge>)
    requires Admissible(h, nodes, edges)
    ensures New(h, corpus, nodes, edges).Some?
  {
    hide NodeLeq, EdgeLeq, NodeOk, EdgesOk, ForwardIndex, ReverseIndex, SortBy;
    NodeOrderIsPreorder();
    EdgeOrderIsTotal();
    SortByPermutes(NodeLeq, nodes);
    SortByPermutes(EdgeLeq, edges);
    SortBySorts(NodeLeq, nodes);
    SortBySorts(EdgeLeq, edges);
    AdmissibleSorts(h, nodes, edges, SortBy(NodeLeq, nodes), SortBy(EdgeLeq, edges));
  }

  lemma SuccessIsAdmissible(h: Hash, corpus: Digest, nodes: seq<Node>, edges: seq<Edge>)
    requires New(h, corpus, nodes, edges).Some?
    ensures Admissible(h, nodes, edges)
  {
    SortByPermutes(NodeLeq, nodes);
    SortByPermutes(EdgeLeq, edges);
    ValidUnsorts(h, New(h, corpus, nodes, edges).value, nodes, edges);
  }

  lemma AdmissibleSorts(h: Hash, nodes: seq<Node>, edges: seq<Edge>, ns: seq<Node>, es: seq<Edge>)
    requires Admissible(h, nodes, edges)
    requires multiset(ns) == multiset(nodes) && multiset(es) == multiset(edges)
    requires Sorted(NodeLeq, ns) && Sorted(EdgeLeq, es)
    ensures StrictlySorted(ns) && EdgesOk(ns, es)
    ensures forall i :: 0 <= i < |ns| ==> NodeOk(h, ns[i])
    ensures ForwardIndex(ns, es).Some? && ReverseIndex(ns, es).Some?
  {
    assert |es| == |multiset(es)| == |edges|;
    AdmissibleNodesSort(h, nodes, ns);
    AdmissibleEdgesSort(nodes, edges, ns, es);
    SortedEdgesGrouped(ns, es);
  }

  lemma AdmissibleNodesSort(h: Hash, nodes: seq<Node>, ns: seq<Node>)
    requires DistinctIds(nodes) && multiset(ns) == multiset(nodes) && Sorted(NodeLeq, ns)
    requires forall i :: 0 <= i < |nodes| ==> NodeOk(h, nodes[i])
    ensures StrictlySorted(ns)
    ensures forall i :: 0 <= i < |ns| ==> NodeOk(h, ns[i])
  {
    DistinctIdsPermuted(nodes, ns);
    forall i | 0 < i < |ns| ensures LexLess(ns[i - 1].id, ns[i].id) { assert NodeLeq(ns[i - 1], ns[i]); }
    forall i | 0 <= i < |ns| ensures NodeOk(h, ns[i]) { assert ns[i] in multiset(nodes); }
  }

  lemma AdmissibleEdgesSort(nodes: seq<Node>, edges: seq<Edge>, ns: seq<Node>, es: seq<Edge>)
    requires DistinctIds(nodes) && StrictlySorted(ns) && multiset(ns) == multiset(nodes)
    requires NoDuplicates(edges) && Sorted(EdgeLeq, es) && multiset(es) == multiset(edges)
    requires forall p :: 0 <= p < |edges| ==> EdgeOk(nodes, edges[p])
    ensures EdgesOk(ns, es)
  {
    NoDuplicatesPermuted(edges, es);
    forall p | 0 <= p < |es| ensures EdgeOk(ns, es[p]) {
      assert es[p] in multiset(edges);
      EdgeOkPermuted(nodes, ns, es[p]);
    }
    forall p | 0 < p < |es| ensures IndexLess(ns, es[p - 1], es[p]) {
      assert EdgeOk(ns, es[p - 1]) && EdgeOk(ns, es[p]) && EdgeLess(es[p - 1], es[p]);
      DigestOrderIsIndexOrder(ns, es[p - 1], es[p]);
    }
  }

  lemma ValidUnsorts(h: Hash, g: Graph, nodes: seq<Node>, edges: seq<Edge>)
    requires Valid(h, g)
    requires multiset(g.nodes) == multiset(nodes) && multiset(g.edges) == multiset(edges)
    requires |g.nodes| == |nodes| && |g.edges| == |edges|
    ensures Admissible(h, nodes, edges)
  {
    NodesUnsort(h, g.nodes, nodes);
    ValidEdgesSorted(g.nodes, g.edges);
    NoDuplicatesPermuted(g.edges, edges);
    assert NoDuplicates(edges);
    forall p | 0 <= p < |edges| ensures EdgeOk(nodes, edges[p]) {
      assert edges[p] in multiset(g.edges);
      EdgeOkPermuted(g.nodes, nodes, edges[p]);
    }
  }

  lemma NodesUnsort(h: Hash, ns: seq<Node>, nodes: seq<Node>)
    requires StrictlySorted(ns) && multiset(ns) == multiset(nodes)
    requires forall i :: 0 <= i < |ns| ==> NodeOk(h, ns[i])
    ensures DistinctIds(ns) && DistinctIds(nodes)
    ensures forall i :: 0 <= i < |nodes| ==> NodeOk(h, nodes[i])
  {
    forall i, j | 0 <= i < j < |ns| ensures ns[i].id != ns[j].id { StrictlySortedOrder(ns, i, j); }
    DistinctIdsPermuted(ns, nodes);
    forall i | 0 <= i < |nodes| ensures NodeOk(h, nodes[i]) { assert nodes[i] in multiset(ns); }
  }
}
