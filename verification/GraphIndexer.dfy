/** The loops of the artifact code: building both CSR indexes, and validating. */
module GraphIndexer {
  import opened Bytes
  import opened Sorting
  import opened Csr
  import opened GraphArtifact
  import opened GraphCanonical

  // What a map from node ids to indexes must answer.
  ghost predicate IndexesNodes(m: map<Digest, nat>, nodes: seq<Node>) {
    forall d: Digest :: if d in m then NodeIndex(nodes, d) == Some(m[d]) else NodeIndex(nodes, d) == None
  }

  method CollectNodeIndexes(nodes: seq<Node>) returns (m: map<Digest, nat>)
    ensures IndexesNodes(m, nodes)
  {
    m := map[];
    for i := 0 to |nodes|
      invariant IndexesNodes(m, nodes[..i])
    {
      m := m[nodes[i].id := i];
      assert nodes[..i + 1][..i] == nodes[..i];
    }
    assert nodes[..|nodes|] == nodes;
  }

  /** Looks every identifier up; fails when one is not a node. */
  method Resolve(nodes: seq<Node>, ids: seq<Digest>) returns (r: Option<seq<nat>>)
    ensures r == if Known(nodes, ids) then Some(Indexes(nodes, ids)) else None
  {
    hide NodeIndex;
    var nodeIndexes := CollectNodeIndexes(nodes);
    var keys: seq<nat> := [];
    for p := 0 to |ids|
      invariant |keys| == p
      invariant forall q :: 0 <= q < p ==> NodeIndex(nodes, ids[q]) == Some(keys[q])
    {
      if ids[p] !in nodeIndexes {
        return None;
      }
      keys := keys + [nodeIndexes[ids[p]]];
    }
    assert keys == Indexes(nodes, ids);
    r := Some(keys);
  }

  /** Counts the entries of each row; fails when rows are not visited in order. */
  method CountGrouped(keys: seq<nat>, rows: nat) returns (r: Option<seq<nat>>)
    requires Bounded(keys, rows)
    ensures r.Some? <==> Grouped(keys)
    ensures r.Some? ==> |r.value| == rows
    ensures r.Some? ==> forall i :: 0 <= i < rows ==> r.value[i] == |Positions(keys, i)|
  {
    var counts := new nat[rows](_ => 0);
    for p := 0 to |keys|
      invariant Grouped(keys[..p])
      invariant forall i :: 0 <= i < rows ==> counts[i] == |Positions(keys[..p], i)|
    {
      if p > 0 && keys[p] < keys[p - 1] {
        return None;
      }
      counts[keys[p]] := counts[keys[p]] + 1;
      CountStep(keys, p);
    }
    assert keys[..|keys|] == keys;
    r := Some(counts[..]);
  }

  lemma CountStep(keys: seq<nat>, p: nat)
    requires p < |keys|
    ensures forall i: nat :: Positions(keys[..p + 1], i)
              == Positions(keys[..p], i) + (if keys[p] == i then [p] else [])
  {
    assert keys[..p + 1] == keys[..p] + [keys[p]];
    forall i: nat
      ensures Positions(keys[..p + 1], i) == Positions(keys[..p], i) + (if keys[p] == i then [p] else [])
    {
      PositionsSnoc(keys[..p], keys[p], i);
    }
  }

  method PrefixSums(keys: seq<nat>, rows: nat, counts: seq<nat>) returns (r: Option<seq<u32>>)
    requires Bounded(keys, rows) && |counts| == rows
    requires forall i :: 0 <= i < rows ==> counts[i] == |Positions(keys, i)|
    ensures r == if |keys| <= U32_MAX then Some(Offsets(keys, rows)) else None
  {
    BelowEnds(keys, rows);
    var offsets: seq<u32> := [0];
    for i := 0 to rows
      invariant |offsets| == i + 1
      invariant forall j :: 0 <= j <= i ==> offsets[j] == Below(keys, j)
    {
      BelowStep(keys, i);
      var next := offsets[i] as int + counts[i];
      if next > U32_MAX {
        return None;
      }
      offsets := offsets + [next];
    }
    assert offsets == Offsets(keys, rows);
    r := Some(offsets);
  }

  method BuildForwardIndex(nodes: seq<Node>, edges: seq<Edge>) returns (r: Option<seq<u32>>)
    ensures r == ForwardIndex(nodes, edges)
  {
    hide Known, Indexes, Grouped, Offsets, Positions;
    var keys :- Resolve(nodes, Sources(edges));
    var counts :- CountGrouped(keys, |nodes|);
    r := PrefixSums(keys, |nodes|, counts);
  }

  function PositionLeq(edges: seq<Edge>): (nat, nat) -> bool {
    (p: nat, q: nat) => p < |edges| && q < |edges| && EdgeLeq(edges[p], edges[q])
  }

  /** The entries of one row in comparator order of their edges. */
  function SortedRow(edges: seq<Edge>, keys: seq<nat>, row: nat): (ps: seq<nat>)
    ensures |ps| == |Positions(keys, row)|
  {
    SortBy(PositionLeq(edges), Positions(keys, row))
  }

  function SortedRows(edges: seq<Edge>, keys: seq<nat>, rows: nat): seq<nat> {
    if rows == 0 then [] else SortedRows(edges, keys, rows - 1) + SortedRow(edges, keys, rows - 1)
  }

  lemma RowMembers(edges: seq<Edge>, keys: seq<nat>, row: nat)
    requires |keys| == |edges|
    ensures multiset(SortedRow(edges, keys, row)) == multiset(Positions(keys, row))
    ensures forall i :: 0 <= i < |SortedRow(edges, keys, row)| ==> SortedRow(edges, keys, row)[i] < |edges|
  {
    hide EdgeLeq, PositionLeq, SortBy;
    var ps, sorted := Positions(keys, row), SortedRow(edges, keys, row);
    SortByPermutes(PositionLeq(edges), ps);
    forall i | 0 <= i < |sorted| ensures sorted[i] < |edges| {
      assert sorted[i] in multiset(sorted) && sorted[i] in ps;
    }
  }

  /** Every row is in comparator order and holds exactly its entries. */
  lemma SortedRowFacts(edges: seq<Edge>, keys: seq<nat>, row: nat)
    requires |keys| == |edges|
    ensures multiset(SortedRow(edges, keys, row)) == multiset(Positions(keys, row))
    ensures Sorted(PositionOrder(edges), SortedRow(edges, keys, row))
  {
    hide EdgeLeq, SortBy, Sorted;
    var ps := Positions(keys, row);
    RowMembers(edges, keys, row);
    assert forall x, y :: x in ps && y in ps ==> PositionLeq(edges)(x, y) == PositionOrder(edges)(x, y);
    SortSame(PositionLeq(edges), PositionOrder(edges), ps);
    PositionOrderIsPreorder(edges);
    SortBySorts(PositionOrder(edges), ps);
  }

  // The comparator, with positions past the edges put last so that it orders all numbers.
  function PositionOrder(edges: seq<Edge>): (nat, nat) -> bool {
    (p: nat, q: nat) => if p < |edges| && q < |edges| then EdgeLeq(edges[p], edges[q]) else p <= q
  }

  lemma PositionOrderIsPreorder(edges: seq<Edge>)
    ensures TotalPreorder(PositionOrder(edges))
  {
    hide EdgeLeq;
    EdgeOrderIsTotal();
  }

  /** Sorting depends only on how the members compare. */
  lemma {:induction false} SortSame(le: (nat, nat) -> bool, le': (nat, nat) -> bool, s: seq<nat>)
    requires forall x, y :: x in s && y in s ==> le(x, y) == le'(x, y)
    ensures SortBy(le, s) == SortBy(le', s)
  {
    if s != [] {
      SortSame(le, le', s[1..]);
      SortByPermutes(le, s[1..]);
      forall y | y in SortBy(le, s[1..]) ensures le(s[0], y) == le'(s[0], y) {
        assert y in multiset(SortBy(le, s[1..])) && y in s[1..];
      }
      InsertSame(le, le', s[0], SortBy(le, s[1..]));
    }
  }

  lemma {:induction false} InsertSame(le: (nat, nat) -> bool, le': (nat, nat) -> bool, x: nat, s: seq<nat>)
    requires forall y :: y in s ==> le(x, y) == le'(x, y)
    ensures Insert(le, x, s) == Insert(le', x, s)
  {
    if s != [] {
      assert s[0] in s;
      InsertSame(le, le', x, s[1..]);
    }
  }

  /** In sorted edges the positions of one row are already in comparator order. */
  lemma PositionsSorted(edges: seq<Edge>, keys: seq<nat>, row: nat)
    requires Sorted(EdgeLeq, edges) && |keys| == |edges|
    ensures SortedRow(edges, keys, row) == Positions(keys, row)
  {
    hide EdgeLeq;
    PositionsExact(keys, row);
    SortBySorted(PositionLeq(edges), Positions(keys, row));
  }

  lemma {:induction false} SortedRowsTranspose(edges: seq<Edge>, keys: seq<nat>, rows: nat)
    requires Sorted(EdgeLeq, edges) && |keys| == |edges|
    ensures SortedRows(edges, keys, rows) == Transpose(keys, rows)
  {
    hide EdgeLeq, Positions;
    if rows > 0 {
      SortedRowsTranspose(edges, keys, rows - 1);
      PositionsSorted(edges, keys, rows - 1);
    }
  }

  /** Puts each entry in its row's bucket. */
  method Bucket(keys: seq<nat>, rows: nat) returns (incoming: array<seq<nat>>)
    requires Bounded(keys, rows)
    ensures fresh(incoming) && incoming.Length == rows
    ensures forall i :: 0 <= i < rows ==> incoming[i] == Positions(keys, i)
  {
    incoming := new seq<nat>[rows](_ => []);
    for p := 0 to |keys|
      invariant forall i :: 0 <= i < rows ==> incoming[i] == Positions(keys[..p], i)
    {
      incoming[keys[p]] := incoming[keys[p]] + [p];
      CountStep(keys, p);
    }
    assert keys[..|keys|] == keys;
  }

  /** The offsets, and row by row the positions in comparator order; on sorted edges, as both
      callers pass them, that is the plain transpose. The conversion of positions to 32 bits
      demands the size limit. */
  method BuildReverseIndex(nodes: seq<Node>, edges: seq<Edge>) returns (r: Option<(seq<u32>, seq<u32>)>)
    requires |edges| <= U32_MAX
    ensures r.Some? <==> Known(nodes, Targets(edges))
    ensures r.Some? ==>
              var keys := Indexes(nodes, Targets(edges));
              r.value == (Offsets(keys, |nodes|), SortedRows(edges, keys, |nodes|))
    ensures Sorted(EdgeLeq, edges) ==> r == ReverseIndex(nodes, edges)
  {
    hide Known, Indexes, EdgeLeq, Positions, SortedRow, Sorted;
    var keys :- Resolve(nodes, Targets(edges));
    var incoming := Bucket(keys, |nodes|);
    for i := 0 to |nodes|
      invariant forall j :: 0 <= j < i ==> incoming[j] == SortedRow(edges, keys, j)
      invariant forall j :: i <= j < |nodes| ==> incoming[j] == Positions(keys, j)
    {
      SortedRowIs(edges, keys, i);
      incoming[i] := SortBy(PositionLeq(edges), incoming[i]);
    }
    var index := Flatten(edges, keys, |nodes|, incoming);
    if Sorted(EdgeLeq, edges) { SortedRowsTranspose(edges, keys, |nodes|); }
    r := Some(index);
  }

  lemma SortedRowIs(edges: seq<Edge>, keys: seq<nat>, row: nat)
    ensures SortedRow(edges, keys, row) == SortBy(PositionLeq(edges), Positions(keys, row))
  {
  }

  lemma {:induction false} SortedRowsFit(edges: seq<Edge>, keys: seq<nat>, rows: nat)
    requires |keys| == |edges|
    ensures |SortedRows(edges, keys, rows)| == Below(keys, rows)
    ensures forall i :: 0 <= i < |SortedRows(edges, keys, rows)| ==> SortedRows(edges, keys, rows)[i] < |edges|
  {
    hide Positions, SortedRow, PositionOrder, Sorted;
    if rows == 0 {
      BelowZero(keys);
    } else {
      SortedRowsFit(edges, keys, rows - 1);
      RowMembers(edges, keys, rows - 1);
      BelowStep(keys, rows - 1);
    }
  }

  method Flatten(
    edges: seq<Edge>, keys: seq<nat>, rows: nat, incoming: array<seq<nat>>)
    returns (r: (seq<u32>, seq<u32>))
    requires |keys| == |edges| <= U32_MAX && incoming.Length == rows
    requires forall i :: 0 <= i < rows ==> incoming[i] == SortedRow(edges, keys, i)
    ensures r == (Offsets(keys, rows), SortedRows(edges, keys, rows))
  {
    hide Positions, SortedRow;
    var offsets: seq<u32> := [0];
    var indexes: seq<nat> := [];
    SortedRowsFit(edges, keys, 0);
    for i := 0 to rows
      invariant |offsets| == i + 1
      invariant forall j :: 0 <= j <= i ==> offsets[j] == Below(keys, j)
      invariant indexes == SortedRows(edges, keys, i)
    {
      SortedRowsFit(edges, keys, i + 1);
      indexes := indexes + incoming[i];
      offsets := offsets + [|indexes|];
    }
    SortedRowsFit(edges, keys, rows);
    assert offsets == Offsets(keys, rows);
    r := (offsets, indexes);
  }

  method CheckEdge(nodes: seq<Node>, nodeIndexes: map<Digest, nat>, e: Edge) returns (ok: bool)
    requires IndexesNodes(nodeIndexes, nodes)
    ensures ok <==> EdgeOk(nodes, e)
  {
    hide NodeIndex;
    if e.source !in nodeIndexes || e.target !in nodeIndexes || e.evidence.node !in nodeIndexes {
      return false;
    }
    var source := nodes[nodeIndexes[e.source]];
    var target := nodes[nodeIndexes[e.target]];
    var evidence := nodes[nodeIndexes[e.evidence.node]];
    if || source.repository != target.repository || source.revision != target.revision
       || source.repository != evidence.repository || source.revision != evidence.revision
    {
      return false;
    }
    if e.evidence.span.startLine > e.evidence.span.endLine || e.evidence.span.startByte > e.evidence.span.endByte {
      return false;
    }
    ok := !Text.Blank(e.relation) && !Text.Blank(e.extractor);
  }

  /** `validate_edges`. */
  method ValidateEdges(nodes: seq<Node>, nodeIndexes: map<Digest, nat>, edges: seq<Edge>) returns (ok: bool)
    requires IndexesNodes(nodeIndexes, nodes)
    ensures ok <==> EdgesOk(nodes, edges)
  {
    hide NodeIndex, IndexLess, SameScope, EndpointsKnown, IndexesNodes;
    for p := 0 to |edges|
      invariant forall q :: 0 <= q < p ==> EdgeOk(nodes, edges[q])
      invariant forall q :: 0 < q < p ==> IndexLess(nodes, edges[q - 1], edges[q])
    {
      var edgeOk := CheckEdge(nodes, nodeIndexes, edges[p]);
      if !edgeOk {
        return false;
      }
      if p > 0 && !IndexLess(nodes, edges[p - 1], edges[p]) {
        return false;
      }
    }
    ok := true;
  }

  /** `GraphArtifact::validate`. */
  method Validate(h: Hash, g: Graph) returns (ok: bool)
    ensures ok <==> Valid(h, g)
  {
    hide NodeOk, EdgesOk, ForwardIndex, ReverseIndex, Known, Indexes, SortedRows, Offsets;
    if |g.nodes| > MAX_NODES || |g.edges| > MAX_EDGES {
      return false;
    }
    for i := 0 to |g.nodes|
      invariant StrictlySorted(g.nodes[..i])
    {
      if i > 0 && !LexLess(g.nodes[i - 1].id, g.nodes[i].id) {
        return false;
      }
    }
    for i := 0 to |g.nodes|
      invariant forall j :: 0 <= j < i ==> NodeOk(h, g.nodes[j])
    {
      if !NodeOk(h, g.nodes[i]) {
        return false;
      }
    }
    var nodeIndexes := CollectNodeIndexes(g.nodes);
    var edgesOk := ValidateEdges(g.nodes, nodeIndexes, g.edges);
    if !edgesOk {
      return false;
    }
    var forward := BuildForwardIndex(g.nodes, g.edges);
    if forward != Some(g.forwardOffsets) {
      return false;
    }
    ValidEdgesSorted(g.nodes, g.edges);
    var reverse := BuildReverseIndex(g.nodes, g.edges);
    ok := reverse == Some((g.reverseOffsets, g.reverseEdges));
  }

  /** `GraphArtifact::new`. */
  method Construct(h: Hash, corpus: Digest, nodes: seq<Node>, edges: seq<Edge>) returns (r: Option<Graph>)
    ensures r == New(h, corpus, nodes, edges)
  {
    hide NodeOk, EdgesOk, Known, Indexes, Valid, ReverseIndex, NodeLeq, EdgeLeq, SortedRows, Offsets;
    var ns := SortBy(NodeLeq, nodes);
    var es := SortBy(EdgeLeq, edges);
    var forward :- BuildForwardIndex(ns, es);
    EdgeOrderIsTotal();
    SortBySorts(EdgeLeq, edges);
    var reverse :- BuildReverseIndex(ns, es);
    var g := Graph(corpus, ns, es, forward, reverse.0, reverse.1);
    var valid := Validate(h, g);
    r := if valid then Some(g) else None;
  }
}
