/** When a graph exists, and what the live graph holds: stated on the nodes, edges, chunks and
    sidecar records themselves. */
module GraphLive {
  import opened Bytes
  import opened Text
  import opened Sorting
  import opened GraphArtifact
  import opened GraphCanonical
  import opened GraphChunks
  import opened GraphIdentity
  import opened GraphBuilder

  // ---------- Nodes and edges that the constructor takes ----------

  ghost predicate FitText(s: seq<byte>) { !Blank(s) && |s| <= 1_048_576 }

  /** A node whose strings are non-blank and at most 1 MiB, whose path is relative and has no
      parent component, whose span is ordered, and whose id is the digest of all of that. */
  ghost predicate NodeSound(h: Hash, n: Node) {
    && FitText(n.repository) && FitText(n.revision) && FitText(n.path) && FitText(n.symbol) && FitText(n.kind)
    && !IsAbsolutePath(n.path) && !HasParentDir(n.path)
    && n.span.startLine <= n.span.endLine && n.span.startByte <= n.span.endByte
    && n.id == h(IdentityOf(n))
  }

  // Three nodes, of one repository and revision, that the edge names.
  ghost predicate Joins(e: Edge, s: Node, t: Node, w: Node) {
    && s.id == e.source && t.id == e.target && w.id == e.evidence.node
    && s.repository == t.repository == w.repository && s.revision == t.revision == w.revision
  }

  /** An edge whose source, target and evidence are nodes of one repository and revision, whose
      evidence span is ordered, and whose relation and extractor are named. */
  ghost predicate EdgeSound(nodes: seq<Node>, e: Edge) {
    && (exists s, t, w :: s in nodes && t in nodes && w in nodes && Joins(e, s, t, w))
    && e.evidence.span.startLine <= e.evidence.span.endLine && e.evidence.span.startByte <= e.evidence.span.endByte
    && !Blank(e.relation) && !Blank(e.extractor)
  }

  lemma NodeOkMeaning(h: Hash, n: Node)
    ensures NodeOk(h, n) <==> NodeSound(h, n)
  {
    hide Blank, IsAbsolutePath, HasParentDir, Identity;
  }

  lemma UniqueNode(nodes: seq<Node>, n: Node, d: Digest)
    requires DistinctIds(nodes)
    ensures n in nodes && n.id == d <==> NodeIndex(nodes, d).Some? && nodes[NodeIndex(nodes, d).value] == n
  {
  }

  lemma EdgeOkMeaning(nodes: seq<Node>, e: Edge)
    requires DistinctIds(nodes)
    ensures EdgeOk(nodes, e) <==> EdgeSound(nodes, e)
  {
    hide Blank, NodeIndex, DistinctIds;
    forall n: Node, d: Digest
      ensures n in nodes && n.id == d <==> NodeIndex(nodes, d).Some? && nodes[NodeIndex(nodes, d).value] == n
    {
      UniqueNode(nodes, n, d);
    }
    if EdgeOk(nodes, e) {
      var s, t, w := nodes[NodeIndex(nodes, e.source).value], nodes[NodeIndex(nodes, e.target).value],
        nodes[NodeIndex(nodes, e.evidence.node).value];
      assert Joins(e, s, t, w);
    }
    if EdgeSound(nodes, e) {
      var s, t, w :| s in nodes && t in nodes && w in nodes && Joins(e, s, t, w);
      assert s.id == e.source && t.id == e.target && w.id == e.evidence.node;
    }
  }

  /** The constructor succeeds exactly on at most 10 million sound nodes with different ids and
      at most 50 million different sound edges between them, in any order. */
  lemma NewSucceedsIff(h: Hash, corpus: Digest, nodes: seq<Node>, edges: seq<Edge>)
    ensures New(h, corpus, nodes, edges).Some?
       <==> && |nodes| <= 10_000_000 && |edges| <= 50_000_000
            && (forall i, j :: 0 <= i < j < |nodes| ==> nodes[i].id != nodes[j].id)
            && (forall i, j :: 0 <= i < j < |edges| ==> edges[i] != edges[j])
            && (forall n :: n in nodes ==> NodeSound(h, n)) && (forall e :: e in edges ==> EdgeSound(nodes, e))
  {
    GraphCanonical.NewSucceedsIff(h, corpus, nodes, edges);
    hide New, NodeOk, EdgeOk, NodeSound, EdgeSound;
    forall n ensures NodeOk(h, n) <==> NodeSound(h, n) { NodeOkMeaning(h, n); }
    if DistinctIds(nodes) {
      forall e ensures EdgeOk(nodes, e) <==> EdgeSound(nodes, e) { EdgeOkMeaning(nodes, e); }
    }
  }

  /** A graph is valid exactly when the constructor makes it of its own nodes and edges. */
  lemma ValidIff(h: Hash, g: Graph)
    ensures Valid(h, g) <==> New(h, g.corpus, g.nodes, g.edges) == Some(g)
  {
    if Valid(h, g) { ValidIsCanonical(h, g); }
  }

  // ---------- The order of edges ----------

  /** The comparisons by which edges are sorted: endpoints, evidence, relation, extractor,
      confidence, verification; the first difference decides. */
  ghost predicate EdgeBefore(a: Edge, b: Edge) {
    var s, t := a.evidence.span, b.evidence.span;
    if a.source != b.source then LexLess(a.source, b.source)
    else if a.target != b.target then LexLess(a.target, b.target)
    else if a.evidence.node != b.evidence.node then LexLess(a.evidence.node, b.evidence.node)
    else if s.startLine != t.startLine then s.startLine < t.startLine
    else if s.endLine != t.endLine then s.endLine < t.endLine
    else if s.startByte != t.startByte then s.startByte < t.startByte
    else if s.endByte != t.endByte then s.endByte < t.endByte
    else if a.relation != b.relation then LexLess(a.relation, b.relation)
    else if a.extractor != b.extractor then LexLess(a.extractor, b.extractor)
    else if a.confidence != b.confidence then a.confidence < b.confidence
    else !a.verified && b.verified
  }

  // What remains to compare after the first k parts of the key.
  ghost function Rest(e: Edge, k: nat): seq<seq<int>>
    requires k <= 11
  {
    EdgeKey(e)[k..]
  }

  lemma KeyStep(a: Edge, b: Edge, k: nat)
    requires k < 11
    ensures |EdgeKey(a)| == 11 == |EdgeKey(b)|
    ensures TupleLess(Rest(a, k), Rest(b, k))
       <==> if EdgeKey(a)[k] != EdgeKey(b)[k] then LexLess(EdgeKey(a)[k], EdgeKey(b)[k])
            else TupleLess(Rest(a, k + 1), Rest(b, k + 1))
  {
    hide LexLess, TupleLess;
    TupleStep(EdgeKey(a)[k], Rest(a, k + 1), EdgeKey(b)[k], Rest(b, k + 1));
    assert Rest(a, k) == [EdgeKey(a)[k]] + Rest(a, k + 1) && Rest(b, k) == [EdgeKey(b)[k]] + Rest(b, k + 1);
  }

  // The evidence span and below.
  lemma SpanOrder(a: Edge, b: Edge)
    requires a.source == b.source && a.target == b.target && a.evidence.node == b.evidence.node
    ensures TupleLess(Rest(a, 3), Rest(b, 3)) <==> EdgeBefore(a, b)
  {
    var s, t := a.evidence.span, b.evidence.span;
    KeyStep(a, b, 3);
    KeyStep(a, b, 4);
    KeyStep(a, b, 5);
    KeyStep(a, b, 6);
    LexSingle(s.startLine, t.startLine);
    LexSingle(s.endLine, t.endLine);
    LexSingle(s.startByte, t.startByte);
    LexSingle(s.endByte, t.endByte);
    if s == t { LabelOrder(a, b); }
    hide LexLess, TupleLess, Rest;
  }

  lemma LabelOrder(a: Edge, b: Edge)
    requires a.source == b.source && a.target == b.target && a.evidence == b.evidence
    ensures TupleLess(Rest(a, 7), Rest(b, 7)) <==> EdgeBefore(a, b)
  {
    KeyStep(a, b, 7);
    KeyStep(a, b, 8);
    KeyStep(a, b, 9);
    KeyStep(a, b, 10);
    LexSingle(a.confidence, b.confidence);
    LexSingle(if a.verified then 1 else 0, if b.verified then 1 else 0);
    assert Rest(a, 11) == [] && Rest(b, 11) == [];
    hide LexLess, Rest;
  }

  /** Edges are sorted by that chain of comparisons. */
  lemma EdgeOrderMeaning(a: Edge, b: Edge)
    ensures EdgeLess(a, b) <==> EdgeBefore(a, b)
  {
    if EdgeKey(a) == EdgeKey(b) { KeysInjective(a, b); }
    KeyStep(a, b, 0);
    KeyStep(a, b, 1);
    KeyStep(a, b, 2);
    assert Rest(a, 0) == EdgeKey(a) && Rest(b, 0) == EdgeKey(b);
    if a.source == b.source && a.target == b.target && a.evidence.node == b.evidence.node { SpanOrder(a, b); }
    hide LexLess, TupleLeq, Rest;
  }

  /** What the constructor makes: the same nodes in order of id and the same edges in order. */
  lemma NewResult(h: Hash, corpus: Digest, nodes: seq<Node>, edges: seq<Edge>)
    requires New(h, corpus, nodes, edges).Some?
    ensures var g := New(h, corpus, nodes, edges).value;
            && g.corpus == corpus && multiset(g.nodes) == multiset(nodes) && multiset(g.edges) == multiset(edges)
            && (forall i :: 0 < i < |nodes| ==> LexLess(g.nodes[i - 1].id, g.nodes[i].id))
            && (forall i :: 0 < i < |edges| ==> EdgeBefore(g.edges[i - 1], g.edges[i]))
  {
    ConstructedFrom(h, corpus, nodes, edges);
    hide NodeOk, EdgeLess, EdgeBefore, LexLess;
    var g := New(h, corpus, nodes, edges).value;
    assert |g.nodes| == |multiset(g.nodes)| == |nodes| && |g.edges| == |multiset(g.edges)| == |edges|;
    AdjacentEdgesAscend(g.nodes, g.edges);
    forall i | 0 < i < |edges| ensures EdgeBefore(g.edges[i - 1], g.edges[i]) {
      EdgeOrderMeaning(g.edges[i - 1], g.edges[i]);
    }
  }

  // ---------- The graph of a set of chunks ----------

  /** The edge from one chunk's node to the next's: evidence at the source, full confidence,
      verified. */
  ghost predicate EdgeFor(source: Node, target: Node, e: Edge) {
    && e.source == source.id && e.target == target.id && e.evidence.node == source.id && e.evidence.span == source.span
    && e.relation == Ascii("adjacent-next") && e.extractor == Ascii("chunk-adjacency-v1")
    && e.confidence == 255 && e.verified
  }

  // The edge is the one that the chunk's link stands for.
  ghost predicate LinkedBy(all: seq<Located>, c: Located, e: Edge) {
    exists l :: l in all && c.next == Some(l.id) && EdgeFor(c.node, l.node, e)
  }

  ghost predicate LinkedBySome(all: seq<Located>, cs: seq<Located>, e: Edge) {
    exists i :: 0 <= i < |cs| && LinkedBy(all, cs[i], e)
  }

  lemma LinkedBySomeSplit(all: seq<Located>, cs: seq<Located>, e: Edge)
    requires cs != []
    ensures LinkedBySome(all, cs, e)
       <==> LinkedBySome(all, cs[..|cs| - 1], e) || LinkedBy(all, cs[|cs| - 1], e)
  {
    hide LinkedBy;
    assert forall i :: 0 <= i < |cs| - 1 ==> cs[..|cs| - 1][i] == cs[i];
  }

  lemma {:induction false} AdjacencyMembers(all: seq<Located>, cs: seq<Located>, e: Edge)
    requires DistinctChunks(all) && Closed(all, cs)
    ensures e in Adjacency(all, cs) <==> LinkedBySome(all, cs, e)
  {
    if cs != [] {
      var n := |cs| - 1;
      LastLink(all, cs);
      AdjacencyMembers(all, cs[..n], e);
      EdgesOfMembers(all, cs[n], e);
      LinkedBySomeSplit(all, cs, e);
      hide *;
    }
  }

  lemma LastLink(all: seq<Located>, cs: seq<Located>)
    requires Closed(all, cs) && cs != []
    ensures var n := |cs| - 1;
            && Closed(all, cs[..n]) && (cs[n].next.Some? ==> Holds(all, cs[n].next.value))
            && Adjacency(all, cs) == Adjacency(all, cs[..n]) + EdgesOf(all, cs[n])
  {
    hide EdgesOf, Holds;
    assert forall i :: 0 <= i < |cs| - 1 ==> cs[..|cs| - 1][i] == cs[i];
  }

  lemma EdgesOfMembers(all: seq<Located>, c: Located, e: Edge)
    requires DistinctChunks(all) && (c.next.Some? ==> Holds(all, c.next.value))
    ensures e in EdgesOf(all, c) <==> LinkedBy(all, c, e)
    ensures |EdgesOf(all, c)| == (if c.next.Some? then 1 else 0)
  {
    if c.next.Some? {
      var l := Find(all, c.next.value);
      assert forall k :: k in all && k.id == l.id ==> k == l;
      assert EdgeFor(c.node, l.node, e) <==> e == Adjacent(c.node, l.node);
    }
  }

  /** Each source has at most one edge. */
  lemma {:induction false} OneEdgePerSource(all: seq<Located>, cs: seq<Located>)
    requires DistinctChunks(all) && Closed(all, cs) && DistinctIds(Nodes(cs))
    ensures |Adjacency(all, cs)| <= |cs|
    ensures forall i, j :: 0 <= i < j < |Adjacency(all, cs)| ==>
              Adjacency(all, cs)[i].source != Adjacency(all, cs)[j].source
  {
    if cs != [] {
      var n := |cs| - 1;
      assert Nodes(cs[..n]) == Nodes(cs)[..n];
      OneEdgePerSource(all, cs[..n]);
      LastLink(all, cs);
      hide Adjacency, EdgesOf, DistinctChunks, LinkedBy, Closed, EdgeFor;
      var init, last := Adjacency(all, cs[..n]), EdgesOf(all, cs[n]);
      forall e | e in last ensures e.source == cs[n].node.id && |last| <= 1 { LinkSource(all, cs[n], e); }
      forall e | e in init ensures e.source != cs[n].node.id { EarlierSource(all, cs, e); }
      assert |last| <= 1 by { if last != [] { assert last[0] in last; } }
      OneMoreSource(init, last, cs[n].node.id);
    }
  }

  lemma OneMoreSource(init: seq<Edge>, last: seq<Edge>, source: Digest)
    requires forall i, j :: 0 <= i < j < |init| ==> init[i].source != init[j].source
    requires forall e :: e in init ==> e.source != source
    requires |last| <= 1 && forall e :: e in last ==> e.source == source
    ensures forall i, j :: 0 <= i < j < |init + last| ==> (init + last)[i].source != (init + last)[j].source
  {
  }

  lemma EarlierSource(all: seq<Located>, cs: seq<Located>, e: Edge)
    requires cs != [] && DistinctChunks(all) && Closed(all, cs[..|cs| - 1]) && DistinctIds(Nodes(cs))
    requires e in Adjacency(all, cs[..|cs| - 1])
    ensures e.source != cs[|cs| - 1].node.id
  {
    hide Adjacency, DistinctChunks, LinkedBy, Closed;
    var n := |cs| - 1;
    AdjacencyMembers(all, cs[..n], e);
    var k :| 0 <= k < n && LinkedBy(all, cs[..n][k], e);
    assert cs[..n][k] == cs[k];
    LinkOrigin(all, cs[k], e);
    assert Nodes(cs)[k] == cs[k].node && Nodes(cs)[n] == cs[n].node;
  }

  lemma LinkOrigin(all: seq<Located>, c: Located, e: Edge)
    requires LinkedBy(all, c, e)
    ensures e.source == c.node.id
  {
  }

  lemma LinkSource(all: seq<Located>, c: Located, e: Edge)
    requires DistinctChunks(all) && (c.next.Some? ==> Holds(all, c.next.value)) && e in EdgesOf(all, c)
    ensures e.source == c.node.id && |EdgesOf(all, c)| <= 1
  {
    EdgesOfMembers(all, c, e);
    LinkOrigin(all, c, e);
  }

  /** A chunk that can become a node: repository, revision and path are named and fit, as does
      title, number sign and ordinal; the path is relative and stays below; and the span, with
      absent offsets zero, fits 32 bits and is ordered. */
  ghost predicate ChunkSound(c: GraphChunk) {
    && FitText(c.repository) && FitText(c.revision) && FitText(c.path)
    && |c.title| + 1 + |Decimal(c.ordinal)| <= 1_048_576
    && !IsAbsolutePath(c.path) && !HasParentDir(c.path)
    && (exists span :: Spans(c.span, span) && span.startLine <= span.endLine && span.startByte <= span.endByte)
  }

  // A blank string has no number sign in it.
  lemma {:induction false} BlankHasNoMark(s: seq<byte>)
    requires Blank(s)
    ensures HASH_SIGN !in s
  {
    if s != [] {
      var w := SpaceWidth(s);
      BlankHasNoMark(s[w..]);
      assert s == s[..w] + s[w..];
    }
  }

  lemma LetterIsNotBlank(s: seq<byte>)
    requires s != [] && 0x61 <= s[0] <= 0x7A
    ensures !Blank(s)
  {
  }

  lemma NodeSoundIff(h: Hash, c: GraphChunk, n: Node)
    requires NodeFor(h, c, n)
    ensures NodeSound(h, n) <==> ChunkSound(c)
  {
    hide Blank;
    LetterIsNotBlank(n.kind);
    assert n.symbol[|c.title|] == HASH_SIGN;
    if Blank(n.symbol) { BlankHasNoMark(n.symbol); }
    SpanMeaning(c.span, n.span);
    hide Decimal, IsAbsolutePath, HasParentDir, IdentityOf, GraphSpan, Spans;
    forall span | Spans(c.span, span) ensures span == n.span { SpanMeaning(c.span, span); }
  }

  lemma SoundChunkFits(c: GraphChunk)
    requires ChunkSound(c)
    ensures SpanFits(c) && CountableChunk(c)
  {
    SymbolParts(c);
    hide Symbol, Decimal, Blank, HasParentDir, IsAbsolutePath, GraphSpan, Spans;
    var span :| Spans(c.span, span);
    SpanMeaning(c.span, span);
  }

  // Distinct, sound chunks whose links join chunks of one repository and revision.
  ghost predicate Graphable(chunks: seq<GraphChunk>) {
    && |chunks| <= 10_000_000 && (forall c :: c in chunks ==> ChunkSound(c))
    && (forall i, j :: 0 <= i < j < |chunks| ==>
          chunks[i].id != chunks[j].id && !SameProvenance(chunks[i], chunks[j]))
    && (forall c :: c in chunks && c.next.Some? ==> exists d :: d in chunks && LinksTo(c, d))
  }

  ghost predicate LinksTo(c: GraphChunk, d: GraphChunk) {
    c.next == Some(d.id) && c.repository == d.repository && c.revision == d.revision
  }

  /** A set of chunks has a graph exactly when there are at most 10 million of them, each can
      become a node, no two share an id or their provenance, and every link leads to a chunk of the
      set in the same repository and revision; as long as the hash does not collide on them. */
  lemma FromChunksIff(h: Hash, corpus: Digest, chunks: seq<GraphChunk>)
    requires forall i, j :: 0 <= i < j < |chunks| ==> NoCollision(h, chunks[i], chunks[j])
    ensures FromChunks(h, corpus, chunks).Some? <==> Graphable(chunks)
  {
    if Graphable(chunks) { GraphableSucceeds(h, corpus, chunks); }
    if FromChunks(h, corpus, chunks).Some? { SuccessIsGraphable(h, corpus, chunks); }
  }

  lemma LocatedAt(h: Hash, chunks: seq<GraphChunk>, i: nat)
    requires i < |chunks| && SpanFits(chunks[i])
    ensures var l := MapSeq(Locate(h), chunks)[i];
            l == Locate(h)(chunks[i]) && l.id == chunks[i].id && l.next == chunks[i].next
            && NodeFor(h, chunks[i], l.node) && Nodes(MapSeq(Locate(h), chunks))[i] == l.node
  {
    LocateMeaning(h, chunks[i]);
    hide Locate, NodeFor;
  }

  lemma GraphableSucceeds(h: Hash, corpus: Digest, chunks: seq<GraphChunk>)
    requires forall i, j :: 0 <= i < j < |chunks| ==> NoCollision(h, chunks[i], chunks[j])
    requires Graphable(chunks)
    ensures FromChunks(h, corpus, chunks).Some?
  {
    hide ChunkSound, SpanFits, NoCollision, SameProvenance, Locate, NodeFor, New, LinksTo, CountableChunk, NodeSound,
         Adjacency, EdgeSound, LinkedBy;
    var ls := MapSeq(Locate(h), chunks);
    forall i | 0 <= i < |chunks|
      ensures SpanFits(chunks[i]) && CountableChunk(chunks[i]) && ls[i].id == chunks[i].id
      ensures ls[i].next == chunks[i].next && NodeSound(h, Nodes(ls)[i])
    {
      SoundChunkFits(chunks[i]);
      LocatedAt(h, chunks, i);
      NodeSoundIff(h, chunks[i], ls[i].node);
    }
    forall i, j | 0 <= i < j < |chunks| ensures Nodes(ls)[i].id != Nodes(ls)[j].id {
      LocatedAt(h, chunks, i);
      LocatedAt(h, chunks, j);
      NodeIdsIff(h, chunks[i], chunks[j]);
    }
    forall i | 0 <= i < |ls| && ls[i].next.Some? ensures Holds(ls, ls[i].next.value) {
      var d :| d in chunks && LinksTo(chunks[i], d);
      var j :| 0 <= j < |chunks| && chunks[j] == d;
      LinkFields(chunks[i], d);
      assert ls[j].id == d.id;
    }
    OneEdgePerSource(ls, ls);
    forall e | e in Adjacency(ls, ls) ensures EdgeSound(Nodes(ls), e) {
      AdjacencyMembers(ls, ls, e);
      var i :| 0 <= i < |ls| && LinkedBy(ls, ls[i], e);
      LinkIsSound(h, chunks, i, e);
    }
    NewSucceedsIff(h, corpus, Nodes(ls), Adjacency(ls, ls));
  }

  lemma LinkFields(c: GraphChunk, d: GraphChunk)
    ensures LinksTo(c, d) <==> c.next == Some(d.id) && c.repository == d.repository && c.revision == d.revision
  {
  }

  /** An edge between two sound nodes is sound exactly when they are of one repository and
      revision. */
  lemma EdgeSoundIff(h: Hash, nodes: seq<Node>, s: Node, t: Node, e: Edge)
    requires DistinctIds(nodes) && s in nodes && t in nodes && NodeSound(h, s) && EdgeFor(s, t, e)
    ensures EdgeSound(nodes, e) <==> s.repository == t.repository && s.revision == t.revision
  {
    LetterIsNotBlank(e.relation);
    LetterIsNotBlank(e.extractor);
    hide Blank, HasParentDir, IsAbsolutePath, Identity;
    if s.repository == t.repository && s.revision == t.revision { assert Joins(e, s, t, s); }
    if EdgeSound(nodes, e) {
      var x, y, z :| x in nodes && y in nodes && z in nodes && Joins(e, x, y, z);
      SameId(nodes, x, s);
      SameId(nodes, y, t);
    }
  }

  lemma SameId(nodes: seq<Node>, a: Node, b: Node)
    requires DistinctIds(nodes) && a in nodes && b in nodes && a.id == b.id
    ensures a == b
  {
  }

  lemma LinkIsSound(h: Hash, chunks: seq<GraphChunk>, i: nat, e: Edge)
    requires Graphable(chunks) && i < |chunks| && DistinctIds(Nodes(MapSeq(Locate(h), chunks)))
    requires forall j :: 0 <= j < |chunks| ==> SpanFits(chunks[j])
    requires var ls := MapSeq(Locate(h), chunks); LinkedBy(ls, ls[i], e)
    ensures EdgeSound(Nodes(MapSeq(Locate(h), chunks)), e)
  {
    hide Graphable, ChunkSound, SpanFits, Locate, EdgeFor, NodeFor, NodeSound, EdgeSound, LinksTo, DistinctIds;
    var ls := MapSeq(Locate(h), chunks);
    var l :| l in ls && ls[i].next == Some(l.id) && EdgeFor(ls[i].node, l.node, e);
    var k :| 0 <= k < |ls| && ls[k] == l;
    LocatedAt(h, chunks, i);
    LocatedAt(h, chunks, k);
    LinkTarget(chunks, i, k);
    NodeSoundIff(h, chunks[i], ls[i].node);
    NodeScope(h, chunks[i], ls[i].node);
    NodeScope(h, chunks[k], l.node);
    assert Nodes(ls)[i] in Nodes(ls) && Nodes(ls)[k] in Nodes(ls);
    EdgeSoundIff(h, Nodes(ls), ls[i].node, l.node, e);
  }

  // The chunk that a link of a graphable set names is of the same repository and revision.
  lemma LinkTarget(chunks: seq<GraphChunk>, i: nat, k: nat)
    requires Graphable(chunks) && i < |chunks| && k < |chunks| && chunks[i].next == Some(chunks[k].id)
    ensures ChunkSound(chunks[i])
    ensures chunks[i].repository == chunks[k].repository && chunks[i].revision == chunks[k].revision
  {
    hide ChunkSound, SameProvenance;
    assert chunks[i] in chunks;
    var d :| d in chunks && LinksTo(chunks[i], d);
    assert d == chunks[k];
  }

  lemma NodeScope(h: Hash, c: GraphChunk, n: Node)
    requires NodeFor(h, c, n)
    ensures n.repository == c.repository && n.revision == c.revision
  {
  }

  lemma SuccessIsGraphable(h: Hash, corpus: Digest, chunks: seq<GraphChunk>)
    requires forall i, j :: 0 <= i < j < |chunks| ==> NoCollision(h, chunks[i], chunks[j])
    requires FromChunks(h, corpus, chunks).Some?
    ensures Graphable(chunks)
  {
    hide ChunkSound, SpanFits, NoCollision, SameProvenance, Locate, NodeFor, New, LinksTo, CountableChunk, NodeSound,
         Adjacency, EdgeSound, LinkedBy;
    var ls := MapSeq(Locate(h), chunks);
    NewSucceedsIff(h, corpus, Nodes(ls), Adjacency(ls, ls));
    forall i | 0 <= i < |chunks|
      ensures ChunkSound(chunks[i]) && CountableChunk(chunks[i]) && ls[i].id == chunks[i].id
      ensures ls[i].next == chunks[i].next
    {
      LocatedAt(h, chunks, i);
      assert Nodes(ls)[i] in Nodes(ls);
      NodeSoundIff(h, chunks[i], ls[i].node);
      SoundChunkFits(chunks[i]);
    }
    forall i, j | 0 <= i < j < |chunks|
      ensures chunks[i].id != chunks[j].id && !SameProvenance(chunks[i], chunks[j])
    {
      LocatedAt(h, chunks, i);
      LocatedAt(h, chunks, j);
      NodeIdsIff(h, chunks[i], chunks[j]);
    }
    forall c | c in chunks && c.next.Some? ensures exists d :: d in chunks && LinksTo(c, d) {
      var i :| 0 <= i < |chunks| && chunks[i] == c;
      LinkJoinsScope(h, chunks, i);
    }
  }

  lemma LinkJoinsScope(h: Hash, chunks: seq<GraphChunk>, i: nat)
    requires i < |chunks| && chunks[i].next.Some? && forall j :: 0 <= j < |chunks| ==> SpanFits(chunks[j])
    requires var ls := MapSeq(Locate(h), chunks);
             && DistinctChunks(ls) && Closed(ls, ls) && DistinctIds(Nodes(ls)) && NodeSound(h, ls[i].node)
             && forall e :: e in Adjacency(ls, ls) ==> EdgeSound(Nodes(ls), e)
    ensures exists d :: d in chunks && LinksTo(chunks[i], d)
  {
    hide SpanFits, Locate, Adjacency, DistinctChunks, Blank, NodeSound, EdgeSound, LinksTo, DistinctIds, EdgeFor,
         LinkedBy;
    var ls := MapSeq(Locate(h), chunks);
    LocatedAt(h, chunks, i);
    var l := Find(ls, ls[i].next.value);
    var k :| 0 <= k < |ls| && ls[k] == l;
    LocatedAt(h, chunks, k);
    var e := Adjacent(ls[i].node, l.node);
    LinkOf(ls, ls[i], l, e);
    AdjacencyMembers(ls, ls, e);
    assert LinkedBySome(ls, ls, e);
    NodeScope(h, chunks[i], ls[i].node);
    NodeScope(h, chunks[k], l.node);
    assert Nodes(ls)[i] == ls[i].node && Nodes(ls)[k] == l.node;
    EdgeSoundIff(h, Nodes(ls), ls[i].node, l.node, e);
    LinkFields(chunks[i], chunks[k]);
  }

  lemma LinkOf(all: seq<Located>, c: Located, l: Located, e: Edge)
    requires l in all && c.next == Some(l.id) && e == Adjacent(c.node, l.node)
    ensures LinkedBy(all, c, e) && EdgeFor(c.node, l.node, e)
  {
    assert EdgeFor(c.node, l.node, e);
  }

  // ---------- The live graph ----------

  // The record that a projection makes of a live chunk's: links to chunks that are not live are cleared.
  ghost predicate Projected(live: set<ChunkId>, c: GraphChunk, p: GraphChunk) {
    && c.id in live && p.(next := c.next) == c
    && p.next == (if c.next.Some? && c.next.value in live then c.next else None)
  }

  ghost predicate ProjectedFrom(live: set<ChunkId>, sidecar: seq<GraphChunk>, p: GraphChunk) {
    exists c :: c in sidecar && Projected(live, c, p)
  }

  lemma {:induction false} ProjectionMembers(live: set<ChunkId>, sidecar: seq<GraphChunk>, p: GraphChunk)
    ensures p in ProjectAll(live, sidecar) <==> ProjectedFrom(live, sidecar, p)
  {
    if sidecar != [] {
      var n := |sidecar| - 1;
      ProjectionMembers(live, sidecar[..n], p);
      assert sidecar == sidecar[..n] + [sidecar[n]];
      assert Project(live, sidecar[n]) == Some(p) <==> Projected(live, sidecar[n], p);
      hide Project, Projected;
    }
  }

  lemma ProjectLast(live: set<ChunkId>, sidecar: seq<GraphChunk>)
    requires sidecar != []
    ensures var n := |sidecar| - 1;
            var init, all := ProjectAll(live, sidecar[..n]), ProjectAll(live, sidecar);
            && init <= all
            && (sidecar[n].id in live ==> |all| == |init| + 1 && all[|init|].id == sidecar[n].id)
  {
  }

  lemma {:induction false} LiveRecordsDistinct(live: set<ChunkId>, sidecar: seq<GraphChunk>, i: nat, j: nat)
    requires i < j < |sidecar| && sidecar[i].id in live
    requires var ps := ProjectAll(live, sidecar); forall k, l :: 0 <= k < l < |ps| ==> ps[k].id != ps[l].id
    ensures sidecar[i].id != sidecar[j].id
  {
    var n := |sidecar| - 1;
    var init, all := ProjectAll(live, sidecar[..n]), ProjectAll(live, sidecar);
    ProjectLast(live, sidecar);
    hide ProjectAll;
    assert forall k :: 0 <= k < |init| ==> all[k] == init[k];
    if j < n {
      LiveRecordsDistinct(live, sidecar[..n], i, j);
    } else if sidecar[n].id in live {
      var k := LiveRecordSurvives(live, sidecar[..n], i);
      assert all[k].id == sidecar[i].id;
    }
  }

  // The edge from the node of one live record to the node of the live record it links to.
  ghost predicate LiveEdge(h: Hash, live: set<ChunkId>, c: GraphChunk, d: GraphChunk, e: Edge) {
    && c.id in live && d.id in live && c.next == Some(d.id)
    && exists n, m :: NodeFor(h, c, n) && NodeFor(h, d, m) && EdgeFor(n, m, e)
  }

  // What is located when a live graph succeeds.
  ghost predicate LocatedLive(h: Hash, live: set<ChunkId>, sidecar: seq<GraphChunk>, ls: seq<Located>) {
    && Ids(ls) == live && DistinctChunks(ls) && DistinctIds(Nodes(ls)) && Closed(ls, ls)
    && var ps := ProjectAll(live, sidecar);
       && |ls| == |ps| == |Nodes(ls)|
       && (forall i :: 0 <= i < |ps| ==>
             && ls[i].id == ps[i].id && ls[i].next == ps[i].next && NodeFor(h, ps[i], ls[i].node)
             && Nodes(ls)[i] == ls[i].node)
  }

  lemma LiveIsLocated(h: Hash, corpus: Digest, live: set<ChunkId>, count: nat, sidecar: seq<GraphChunk>)
    returns (ls: seq<Located>)
    requires |live| <= count && LiveGraph(h, corpus, live, count, sidecar).Some?
    ensures var g := LiveGraph(h, corpus, live, count, sidecar).value;
            && |live| == count == |g.nodes| && LocatedLive(h, live, sidecar, ls)
            && multiset(g.nodes) == multiset(Nodes(ls)) && multiset(g.edges) == multiset(Adjacency(ls, ls))
  {
    LiveGraphParts(h, corpus, live, count, sidecar);
    hide LiveGraph, ProjectAll, Adjacency, DistinctChunks, DistinctIds, Closed, Ids, NodeFor, Nodes, LocateAll, Locate;
    ls := MapSeq(Locate(h), ProjectAll(live, sidecar));
    AllLocated(h, ProjectAll(live, sidecar));
  }

  lemma AllLocated(h: Hash, ps: seq<GraphChunk>)
    requires LocateAll(h, ps).Some?
    ensures var ls := MapSeq(Locate(h), ps);
            && |ls| == |ps| == |Nodes(ls)|
            && (forall i :: 0 <= i < |ps| ==>
                  && ls[i].id == ps[i].id && ls[i].next == ps[i].next && NodeFor(h, ps[i], ls[i].node)
                  && Nodes(ls)[i] == ls[i].node)
  {
    hide Locate, NodeFor, SpanFits;
    var ls := MapSeq(Locate(h), ps);
    forall i | 0 <= i < |ps|
      ensures ls[i].id == ps[i].id && ls[i].next == ps[i].next && NodeFor(h, ps[i], ls[i].node)
          && Nodes(ls)[i] == ls[i].node
    {
      LocatedAt(h, ps, i);
    }
  }

  lemma RecordIndex(live: set<ChunkId>, sidecar: seq<GraphChunk>, c: GraphChunk) returns (i: nat)
    requires c in sidecar && c.id in live
    ensures i < |ProjectAll(live, sidecar)| && Projected(live, c, ProjectAll(live, sidecar)[i])
  {
    var p := c.(next := if c.next.Some? && c.next.value in live then c.next else None);
    assert Projected(live, c, p);
    ProjectionMembers(live, sidecar, p);
    i :| 0 <= i < |ProjectAll(live, sidecar)| && ProjectAll(live, sidecar)[i] == p;
  }

  lemma IndexRecord(live: set<ChunkId>, sidecar: seq<GraphChunk>, i: nat) returns (c: GraphChunk)
    requires i < |ProjectAll(live, sidecar)|
    ensures c in sidecar && Projected(live, c, ProjectAll(live, sidecar)[i])
  {
    ProjectionMembers(live, sidecar, ProjectAll(live, sidecar)[i]);
    c :| c in sidecar && Projected(live, c, ProjectAll(live, sidecar)[i]);
  }

  /** The node of a live record is the one located for it. */
  lemma RecordNode(
    h: Hash, live: set<ChunkId>, sidecar: seq<GraphChunk>, ls: seq<Located>, c: GraphChunk, i: nat, n: Node)
    requires LocatedLive(h, live, sidecar, ls) && i < |ls| && Projected(live, c, ProjectAll(live, sidecar)[i])
    ensures NodeFor(h, c, n) <==> n == ls[i].node
    ensures ls[i].id == c.id && ls[i].next == (if c.next.Some? && c.next.value in live then c.next else None)
  {
    var p := ProjectAll(live, sidecar)[i];
    SameNodeFor(h, c, p, n);
    SameNodeFor(h, c, p, ls[i].node);
    NodeForUnique(h, p, n, ls[i].node);
    hide NodeFor, DistinctChunks, DistinctIds, Closed, Ids, ProjectAll;
  }

  lemma SameNodeFor(h: Hash, c: GraphChunk, p: GraphChunk, n: Node)
    requires p.(next := c.next) == c
    ensures NodeFor(h, c, n) <==> NodeFor(h, p, n)
  {
    hide Spans, Decimal, Identity;
  }

  lemma NodeForUnique(h: Hash, c: GraphChunk, n: Node, m: Node)
    requires NodeFor(h, c, m)
    ensures NodeFor(h, c, n) ==> n == m
  {
    hide Decimal, Identity;
  }

  lemma LiveNodes(h: Hash, live: set<ChunkId>, sidecar: seq<GraphChunk>, ls: seq<Located>, n: Node)
    requires LocatedLive(h, live, sidecar, ls)
    ensures n in Nodes(ls) <==> exists c :: c in sidecar && c.id in live && NodeFor(h, c, n)
  {
    hide NodeFor, Locate, DistinctChunks, DistinctIds, Closed, Ids;
    if n in Nodes(ls) {
      var i :| 0 <= i < |ls| && ls[i].node == n;
      var c := IndexRecord(live, sidecar, i);
      RecordNode(h, live, sidecar, ls, c, i, n);
    }
    if exists c :: c in sidecar && c.id in live && NodeFor(h, c, n) {
      var c :| c in sidecar && c.id in live && NodeFor(h, c, n);
      var i := RecordIndex(live, sidecar, c);
      RecordNode(h, live, sidecar, ls, c, i, n);
      assert Nodes(ls)[i] == n;
    }
  }

  lemma LiveEdges(h: Hash, live: set<ChunkId>, sidecar: seq<GraphChunk>, ls: seq<Located>, e: Edge)
    requires LocatedLive(h, live, sidecar, ls)
    ensures e in Adjacency(ls, ls) <==> exists c, d :: c in sidecar && d in sidecar && LiveEdge(h, live, c, d, e)
  {
    AdjacencyMembers(ls, ls, e);
    hide NodeFor, Locate, DistinctChunks, DistinctIds, Closed, Ids, EdgeFor, LinkedBy, LiveEdge, Projected;
    if e in Adjacency(ls, ls) {
      var i :| 0 <= i < |ls| && LinkedBy(ls, ls[i], e);
      var c := IndexRecord(live, sidecar, i);
      var d := LinkIsLiveEdge(h, live, sidecar, ls, i, c, e);
    }
    if exists c, d :: c in sidecar && d in sidecar && LiveEdge(h, live, c, d, e) {
      var c, d :| c in sidecar && d in sidecar && LiveEdge(h, live, c, d, e);
      var i := LiveEdgeIsLink(h, live, sidecar, ls, c, d, e);
      assert LinkedBySome(ls, ls, e);
    }
  }

  lemma LinkIsLiveEdge(
    h: Hash, live: set<ChunkId>, sidecar: seq<GraphChunk>, ls: seq<Located>, i: nat, c: GraphChunk, e: Edge)
    returns (d: GraphChunk)
    requires LocatedLive(h, live, sidecar, ls) && i < |ls| && LinkedBy(ls, ls[i], e)
    requires Projected(live, c, ProjectAll(live, sidecar)[i])
    ensures d in sidecar && LiveEdge(h, live, c, d, e)
  {
    hide NodeFor, DistinctChunks, DistinctIds, Closed, Ids, EdgeFor;
    var l :| l in ls && ls[i].next == Some(l.id) && EdgeFor(ls[i].node, l.node, e);
    var k :| 0 <= k < |ls| && ls[k] == l;
    d := IndexRecord(live, sidecar, k);
    RecordNode(h, live, sidecar, ls, c, i, ls[i].node);
    RecordNode(h, live, sidecar, ls, d, k, l.node);
  }

  lemma LiveEdgeIsLink(
    h: Hash, live: set<ChunkId>, sidecar: seq<GraphChunk>, ls: seq<Located>, c: GraphChunk, d: GraphChunk, e: Edge)
    returns (i: nat)
    requires LocatedLive(h, live, sidecar, ls) && c in sidecar && d in sidecar && LiveEdge(h, live, c, d, e)
    ensures i < |ls| && LinkedBy(ls, ls[i], e)
  {
    hide NodeFor, DistinctChunks, DistinctIds, Closed, Ids, EdgeFor;
    var n, m :| NodeFor(h, c, n) && NodeFor(h, d, m) && EdgeFor(n, m, e);
    i := RecordIndex(live, sidecar, c);
    var k := RecordIndex(live, sidecar, d);
    RecordNode(h, live, sidecar, ls, c, i, n);
    RecordNode(h, live, sidecar, ls, d, k, m);
    assert ls[k] in ls && ls[i].next == Some(ls[k].id);
  }

  /** A successful live graph is exact on the sidecar: every live chunk has one record there and
      one node, made of that record, and different records have different nodes; there is an edge
      exactly for each live record that links to a live record, between their nodes; and no source
      has two edges. */
  lemma LiveGraphIsExact(
    h: Hash, corpus: Digest, live: set<ChunkId>, count: nat, sidecar: seq<GraphChunk>, n: Node, e: Edge)
    requires |live| <= count
    requires LiveGraph(h, corpus, live, count, sidecar).Some?
    ensures var g := LiveGraph(h, corpus, live, count, sidecar).value;
            && |live| == count == |g.nodes|
            && (forall id :: id in live ==> exists c :: c in sidecar && c.id == id)
            && (forall i, j :: 0 <= i < j < |sidecar| && sidecar[i].id in live ==> sidecar[i].id != sidecar[j].id)
            && (n in g.nodes <==> exists c :: c in sidecar && c.id in live && NodeFor(h, c, n))
            && (e in g.edges <==> exists c, d :: c in sidecar && d in sidecar && LiveEdge(h, live, c, d, e))
            && (forall i, j :: 0 <= i < j < |g.nodes| ==> g.nodes[i].id != g.nodes[j].id)
            && (forall i, j :: 0 <= i < j < |g.edges| ==> g.edges[i].source != g.edges[j].source)
  {
    hide LiveGraph, NodeFor, LiveEdge, Adjacency, ProjectAll, Closed, DistinctChunks, Ids, Nodes;
    var ls := LiveIsLocated(h, corpus, live, count, sidecar);
    LiveNodes(h, live, sidecar, ls, n);
    LiveEdges(h, live, sidecar, ls, e);
    LiveRecords(h, live, sidecar, ls);
    OneEdgePerSource(ls, ls);
    hide LocatedLive;
    var g := LiveGraph(h, corpus, live, count, sidecar).value;
    SameMembers(g.nodes, Nodes(ls), n);
    SameMembers(g.edges, Adjacency(ls, ls), e);
    DistinctIdsPermuted(Nodes(ls), g.nodes);
    DistinctSourcesPermuted(Adjacency(ls, ls), g.edges);
  }

  lemma SameMembers<T>(a: seq<T>, b: seq<T>, x: T)
    requires multiset(a) == multiset(b)
    ensures x in a <==> x in b
  {
    assert x in multiset(a) <==> x in multiset(b);
  }

  lemma LiveRecords(h: Hash, live: set<ChunkId>, sidecar: seq<GraphChunk>, ls: seq<Located>)
    requires LocatedLive(h, live, sidecar, ls)
    ensures forall id :: id in live ==> exists c :: c in sidecar && c.id == id
    ensures forall i, j :: 0 <= i < j < |sidecar| && sidecar[i].id in live ==> sidecar[i].id != sidecar[j].id
  {
    hide NodeFor, Locate, DistinctIds, Closed;
    var ps := ProjectAll(live, sidecar);
    forall id | id in live ensures exists c :: c in sidecar && c.id == id {
      var k :| 0 <= k < |ls| && ls[k].id == id;
      var c := IndexRecord(live, sidecar, k);
    }
    forall k, l | 0 <= k < l < |ps| ensures ps[k].id != ps[l].id { assert ls[k].id == ps[k].id; }
    forall i, j | 0 <= i < j < |sidecar| && sidecar[i].id in live ensures sidecar[i].id != sidecar[j].id {
      LiveRecordsDistinct(live, sidecar, i, j);
    }
  }

  lemma DistinctSourcesPermuted(a: seq<Edge>, b: seq<Edge>)
    requires forall i, j :: 0 <= i < j < |a| ==> a[i].source != a[j].source
    requires multiset(a) == multiset(b)
    ensures forall i, j :: 0 <= i < j < |b| ==> b[i].source != b[j].source
  {
    NoDuplicatesPermuted(a, b);
    forall i, j | 0 <= i < j < |b| ensures b[i].source != b[j].source {
      assert b[i] in multiset(a) && b[j] in multiset(a) && b[i] != b[j];
    }
  }
}
