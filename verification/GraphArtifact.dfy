/** The graph artifact: provenance-carrying nodes, evidence-carrying edges, and
    the forward and reverse CSR indexes over the edges. This module says what a
    valid artifact is and how `GraphArtifact::new` builds one. */
module GraphArtifact {
  import opened Bytes
  import opened Text
  import opened Sorting
  import opened Csr

  const MAX_NODES: nat := 10_000_000
  const MAX_EDGES: nat := 50_000_000
  const MAX_STRING_BYTES: nat := 0x10_0000

  // b"vesc-graph-node-v1\0"
  const NODE_PREFIX: seq<byte> :=
    [0x76, 0x65, 0x73, 0x63, 0x2D, 0x67, 0x72, 0x61, 0x70, 0x68, 0x2D,
     0x6E, 0x6F, 0x64, 0x65, 0x2D, 0x76, 0x31, 0x00]

  datatype Span = Span(startLine: u32, endLine: u32, startByte: u32, endByte: u32) {
    predicate Ordered() { startLine <= endLine && startByte <= endByte }
  }

  datatype Node = Node(
    id: Digest, repository: Str, revision: Str, path: Str, span: Span, symbol: Str, kind: Str)

  datatype Evidence = Evidence(node: Digest, span: Span)

  datatype Edge = Edge(
    source: Digest, target: Digest, evidence: Evidence,
    relation: Str, extractor: Str, confidence: byte, verified: bool)

  datatype Graph = Graph(
    corpus: Digest, nodes: seq<Node>, edges: seq<Edge>,
    forwardOffsets: seq<u32>, reverseOffsets: seq<u32>, reverseEdges: seq<u32>)

  // ---------- Node identity ----------

  function U64Le(x: nat): seq<byte>
    requires x < 0x1_0000_0000_0000_0000
  {
    U32Le(x % 0x1_0000_0000) + U32Le(x / 0x1_0000_0000)
  }

  function Sized(s: seq<byte>): seq<byte> {
    U64Le(Min(|s|, 0xFFFF_FFFF_FFFF_FFFF)) + s
  }

  function SpanLe(span: Span): seq<byte> {
    U32Le(span.startLine) + U32Le(span.endLine) + U32Le(span.startByte) + U32Le(span.endByte)
  }

  function Identity(repository: Str, revision: Str, path: Str, span: Span, symbol: Str, kind: Str): seq<byte> {
    NODE_PREFIX
    + (Sized(repository) + (Sized(revision) + (Sized(path) + (Sized(symbol) + (Sized(kind) + SpanLe(span))))))
  }

  /** `GraphNode::new`: the identity is the digest of the provenance. */
  function NewNode(h: Hash, repository: Str, revision: Str, path: Str, span: Span, symbol: Str, kind: Str): Node {
    Node(h(Identity(repository, revision, path, span, symbol, kind)), repository, revision, path, span, symbol, kind)
  }

  predicate SmallText(s: seq<byte>) { |s| <= MAX_STRING_BYTES }

  /** `validate_node` together with the identity check of `validate`. */
  predicate NodeOk(h: Hash, n: Node) {
    && !Blank(n.repository) && !Blank(n.revision) && !Blank(n.path) && !Blank(n.symbol) && !Blank(n.kind)
    && !IsAbsolutePath(n.path) && !HasParentDir(n.path)
    && n.span.Ordered()
    && SmallText(n.repository) && SmallText(n.revision) && SmallText(n.path)
    && SmallText(n.symbol) && SmallText(n.kind)
    && n == NewNode(h, n.repository, n.revision, n.path, n.span, n.symbol, n.kind)
  }

  // ---------- Node lookup ----------

  /** What a map built from (id, index) pairs in order answers: the last index with the id. */
  function NodeIndex(nodes: seq<Node>, d: Digest): (r: Option<nat>)
    ensures r.Some? ==> r.value < |nodes| && nodes[r.value].id == d
    ensures r.None? ==> forall i :: 0 <= i < |nodes| ==> nodes[i].id != d
  {
    if nodes == [] then None
    else if nodes[|nodes| - 1].id == d then Some(|nodes| - 1)
    else NodeIndex(nodes[..|nodes| - 1], d)
  }

  predicate Known(nodes: seq<Node>, ids: seq<Digest>) {
    forall p | 0 <= p < |ids| :: NodeIndex(nodes, ids[p]).Some?
  }

  function Indexes(nodes: seq<Node>, ids: seq<Digest>): (keys: seq<nat>)
    requires Known(nodes, ids)
    ensures |keys| == |ids|
    ensures forall p :: 0 <= p < |ids| ==> keys[p] == NodeIndex(nodes, ids[p]).value
    ensures Bounded(keys, |nodes|)
  {
    seq(|ids|, p requires 0 <= p < |ids| => NodeIndex(nodes, ids[p]).value)
  }

  function Sources(edges: seq<Edge>): (ids: seq<Digest>)
    ensures |ids| == |edges| && forall p :: 0 <= p < |edges| ==> ids[p] == edges[p].source
  {
    seq(|edges|, p requires 0 <= p < |edges| => edges[p].source)
  }

  function Targets(edges: seq<Edge>): (ids: seq<Digest>)
    ensures |ids| == |edges| && forall p :: 0 <= p < |edges| ==> ids[p] == edges[p].target
  {
    seq(|edges|, p requires 0 <= p < |edges| => edges[p].target)
  }

  predicate StrictlySorted(nodes: seq<Node>) {
    forall i | 0 < i < |nodes| :: LexLess(nodes[i - 1].id, nodes[i].id)
  }

  lemma {:induction false} StrictlySortedOrder(nodes: seq<Node>, i: nat, j: nat)
    requires StrictlySorted(nodes) && i < j < |nodes|
    ensures LexLess(nodes[i].id, nodes[j].id)
    decreases j
  {
    if i < j - 1 {
      StrictlySortedOrder(nodes, i, j - 1);
      LexLessTransitive(nodes[i].id, nodes[j - 1].id, nodes[j].id);
    }
  }

  /** Among strictly sorted nodes, digests compare like the indexes they are found at. */
  lemma IndexOrderIsDigestOrder(nodes: seq<Node>, a: Digest, b: Digest)
    requires StrictlySorted(nodes) && NodeIndex(nodes, a).Some? && NodeIndex(nodes, b).Some?
    ensures LexLess(a, b) <==> NodeIndex(nodes, a).value < NodeIndex(nodes, b).value
    ensures a == b <==> NodeIndex(nodes, a) == NodeIndex(nodes, b)
  {
    var i, j := NodeIndex(nodes, a).value, NodeIndex(nodes, b).value;
    if i < j { StrictlySortedOrder(nodes, i, j); }
    if j < i { StrictlySortedOrder(nodes, j, i); }
    LexTotal(a, b);
  }

  // ---------- Edges ----------

  function SpanKey(s: Span): seq<seq<int>> { [[s.startLine], [s.endLine], [s.startByte], [s.endByte]] }

  function TailKey(e: Edge): seq<seq<int>> {
    [e.evidence.node] + SpanKey(e.evidence.span)
    + [e.relation, e.extractor, [e.confidence], [if e.verified then 1 else 0]]
  }

  /** The chain of comparisons by which edges are sorted, as a tuple. */
  function EdgeKey(e: Edge): seq<seq<int>> { [e.source, e.target] + TailKey(e) }

  predicate EdgeLeq(a: Edge, b: Edge) { TupleLeq(EdgeKey(a), EdgeKey(b)) }

  predicate EdgeLess(a: Edge, b: Edge) { a != b && EdgeLeq(a, b) }

  /** The tuple that `validate_edges` demands to increase: indexes in place of endpoints. */
  function IndexKey(nodes: seq<Node>, e: Edge): seq<seq<int>>
    requires EndpointsKnown(nodes, e)
  {
    [[NodeIndex(nodes, e.source).value], [NodeIndex(nodes, e.target).value]] + TailKey(e)
  }

  predicate IndexLess(nodes: seq<Node>, a: Edge, b: Edge)
    requires EndpointsKnown(nodes, a) && EndpointsKnown(nodes, b)
  {
    TupleLess(IndexKey(nodes, a), IndexKey(nodes, b))
  }

  predicate EndpointsKnown(nodes: seq<Node>, e: Edge) {
    NodeIndex(nodes, e.source).Some? && NodeIndex(nodes, e.target).Some? && NodeIndex(nodes, e.evidence.node).Some?
  }

  predicate SameScope(a: Node, b: Node) { a.repository == b.repository && a.revision == b.revision }

  predicate EdgeOk(nodes: seq<Node>, e: Edge) {
    && EndpointsKnown(nodes, e)
    && SameScope(nodes[NodeIndex(nodes, e.source).value], nodes[NodeIndex(nodes, e.target).value])
    && SameScope(nodes[NodeIndex(nodes, e.source).value], nodes[NodeIndex(nodes, e.evidence.node).value])
    && e.evidence.span.Ordered()
    && !Blank(e.relation) && !Blank(e.extractor)
  }

  /** `validate_edges`. */
  predicate EdgesOk(nodes: seq<Node>, edges: seq<Edge>) {
    && (forall p | 0 <= p < |edges| :: EdgeOk(nodes, edges[p]))
    && (forall p | 0 < p < |edges| :: IndexLess(nodes, edges[p - 1], edges[p]))
  }

  lemma KeysInjective(a: Edge, b: Edge)
    requires EdgeKey(a) == EdgeKey(b)
    ensures a == b
  {
    var k, l := EdgeKey(a), EdgeKey(b);
    assert k[0] == l[0] && k[1] == l[1] && k[2] == l[2] && k[3] == l[3] && k[4] == l[4] && k[5] == l[5]
        && k[6] == l[6] && k[7] == l[7] && k[8] == l[8] && k[9] == l[9] && k[10] == l[10];
  }

  lemma EdgeOrderIsTotal()
    ensures TotalOrder(EdgeLeq)
  {
    forall a, b ensures EdgeLeq(a, b) || EdgeLeq(b, a)
      ensures EdgeLeq(a, b) && EdgeLeq(b, a) ==> a == b
    {
      TupleTotal(EdgeKey(a), EdgeKey(b));
      if EdgeKey(a) == EdgeKey(b) { KeysInjective(a, b); }
    }
    forall a, b, c | EdgeLeq(a, b) && EdgeLeq(b, c) ensures EdgeLeq(a, c) {
      TupleTransitive(EdgeKey(a), EdgeKey(b), EdgeKey(c));
    }
  }

  lemma EdgeLessIsTransitive()
    ensures forall a, b, c :: EdgeLess(a, b) && EdgeLess(b, c) ==> EdgeLess(a, c)
  {
    EdgeOrderIsTotal();
    forall a, b, c | EdgeLess(a, b) && EdgeLess(b, c) ensures EdgeLess(a, c) {
      TotalOrderStrict(EdgeLeq, a, b, c);
    }
  }

  lemma TotalOrderStrict<T(!new)>(le: (T, T) -> bool, a: T, b: T, c: T)
    requires TotalOrder(le) && le(a, b) && le(b, c) && b != c
    ensures le(a, c) && a != c
  {
  }

  lemma TupleLessPair(x: seq<int>, u: seq<int>, s: seq<seq<int>>, y: seq<int>, v: seq<int>, t: seq<seq<int>>)
    ensures TupleLess([x, u] + s, [y, v] + t)
       <==> LexLess(x, y) || (x == y && (LexLess(u, v) || (u == v && TupleLess(s, t))))
  {
    TupleLeqCons(x, [u] + s, y, [v] + t);
    TupleLeqCons(u, s, v, t);
    assert [x, u] + s == [x] + ([u] + s) && [y, v] + t == [y] + ([v] + t);
  }

  /** Sorting by digests yields the order on node indexes that `validate_edges` checks. */
  lemma DigestOrderIsIndexOrder(nodes: seq<Node>, a: Edge, b: Edge)
    requires StrictlySorted(nodes) && EndpointsKnown(nodes, a) && EndpointsKnown(nodes, b)
    ensures IndexLess(nodes, a, b) <==> EdgeLess(a, b)
  {
    var i, j := NodeIndex(nodes, a.source).value, NodeIndex(nodes, b.source).value;
    var k, l := NodeIndex(nodes, a.target).value, NodeIndex(nodes, b.target).value;
    IndexOrderIsDigestOrder(nodes, a.source, b.source);
    IndexOrderIsDigestOrder(nodes, a.target, b.target);
    LexSingle(i, j);
    LexSingle(k, l);
    TupleLessPair(a.source, a.target, TailKey(a), b.source, b.target, TailKey(b));
    TupleLessPair([i], [k], TailKey(a), [j], [l], TailKey(b));
    if EdgeKey(a) == EdgeKey(b) { KeysInjective(a, b); }
  }

  // ---------- CSR indexes ----------

  /** `build_forward_index`: fails unless every source is a node and edges are grouped by it. */
  function ForwardIndex(nodes: seq<Node>, edges: seq<Edge>): (r: Option<seq<u32>>)
  {
    if && Known(nodes, Sources(edges))
       && Grouped(Indexes(nodes, Sources(edges)))
       && |edges| <= U32_MAX
    then Some(Offsets(Indexes(nodes, Sources(edges)), |nodes|))
    else None
  }

  /** `build_reverse_index` for edges in sorted order: (offsets, edge positions row by row). */
  function ReverseIndex(nodes: seq<Node>, edges: seq<Edge>): (r: Option<(seq<u32>, seq<u32>)>)
  {
    if Known(nodes, Targets(edges)) && |edges| <= U32_MAX then
      var keys := Indexes(nodes, Targets(edges));
      TransposeInRange(keys, |nodes|);
      Some((Offsets(keys, |nodes|), Transpose(keys, |nodes|)))
    else None
  }

  lemma {:induction false} TransposeInRange(keys: seq<nat>, rows: nat)
    ensures forall p :: 0 <= p < |Transpose(keys, rows)| ==> Transpose(keys, rows)[p] < |keys|
  {
    if rows > 0 { TransposeInRange(keys, rows - 1); }
  }

  // ---------- Validity and construction ----------

  /** `validate`: order, provenance, endpoints, bounds and both indexes. */
  predicate Valid(h: Hash, g: Graph) {
    && |g.nodes| <= MAX_NODES && |g.edges| <= MAX_EDGES
    && StrictlySorted(g.nodes)
    && (forall i | 0 <= i < |g.nodes| :: NodeOk(h, g.nodes[i]))
    && EdgesOk(g.nodes, g.edges)
    && ForwardIndex(g.nodes, g.edges) == Some(g.forwardOffsets)
    && ReverseIndex(g.nodes, g.edges) == Some((g.reverseOffsets, g.reverseEdges))
  }

  predicate NodeLeq(a: Node, b: Node) { LexLeq(a.id, b.id) }

  /** `GraphArtifact::new`. */
  function New(h: Hash, corpus: Digest, nodes: seq<Node>, edges: seq<Edge>): Option<Graph> {
    var ns := SortBy(NodeLeq, nodes);
    var es := SortBy(EdgeLeq, edges);
    var forward :- ForwardIndex(ns, es);
    var reverse :- ReverseIndex(ns, es);
    var g := Graph(corpus, ns, es, forward, reverse.0, reverse.1);
    if Valid(h, g) then Some(g) else None
  }
}
