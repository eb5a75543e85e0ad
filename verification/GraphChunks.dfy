/** The structural graph that chunk metadata determines: one node per chunk, one
    verified edge per stored adjacency; and its projection onto the live chunks. */
module GraphChunks {
  import opened Bytes
  import opened Text
  import opened Sorting
  import opened GraphArtifact
  import opened GraphCanonical

  type ChunkId = Digest

  datatype SourceSpan = SourceSpan(startLine: u32, endLine: u32, startByte: Option<nat>, endByte: Option<nat>)

  datatype GraphChunk = GraphChunk(
    id: ChunkId, repository: Str, revision: Str, path: Str, title: Str, ordinal: u32,
    span: Option<SourceSpan>, next: Option<ChunkId>)

  // A chunk whose node has been made.
  datatype Located = Located(id: ChunkId, node: Node, next: Option<ChunkId>)

  /** `graph_span`: absent spans and offsets are zero, offsets beyond 32 bits an error. */
  function GraphSpan(source: Option<SourceSpan>): Option<Span> {
    match source
    case None => Some(Span(0, 0, 0, 0))
    case Some(s) =>
      var startByte := if s.startByte.Some? then s.startByte.value else 0;
      var endByte := if s.endByte.Some? then s.endByte.value else 0;
      if startByte > U32_MAX || endByte > U32_MAX then None
      else Some(Span(s.startLine, s.endLine, startByte, endByte))
  }

  function Symbol(c: GraphChunk): Str {
    var suffix := Ascii("#") + Decimal(c.ordinal);
    ConcatValid(Ascii("#"), Decimal(c.ordinal));
    ConcatValid(c.title, suffix);
    c.title + suffix
  }

  predicate SpanFits(c: GraphChunk) { GraphSpan(c.span).Some? }

  function Locate(h: Hash): GraphChunk -> Located {
    (c: GraphChunk) =>
      var span := if SpanFits(c) then GraphSpan(c.span).value else Span(0, 0, 0, 0);
      Located(c.id, NewNode(h, c.repository, c.revision, c.path, span, Symbol(c), Ascii("chunk")), c.next)
  }

  function LocateAll(h: Hash, chunks: seq<GraphChunk>): Option<seq<Located>> {
    if forall i | 0 <= i < |chunks| :: SpanFits(chunks[i]) then Some(MapSeq(Locate(h), chunks)) else None
  }

  ghost predicate DistinctChunks(ls: seq<Located>) {
    forall i, j :: 0 <= i < j < |ls| ==> ls[i].id != ls[j].id
  }

  predicate Holds(ls: seq<Located>, id: ChunkId) { exists i | 0 <= i < |ls| :: ls[i].id == id }

  /** The record with the given chunk id. */
  function Find(ls: seq<Located>, id: ChunkId): (r: Located)
    requires Holds(ls, id)
    ensures r in ls && r.id == id
  {
    if ls[|ls| - 1].id == id then ls[|ls| - 1] else Find(ls[..|ls| - 1], id)
  }

  /** No adjacency of cs points outside all. */
  predicate Closed(all: seq<Located>, cs: seq<Located>) {
    forall i | 0 <= i < |cs| && cs[i].next.Some? :: Holds(all, cs[i].next.value)
  }

  /** The edge for one stored adjacency. */
  function Adjacent(source: Node, target: Node): Edge {
    Edge(source.id, target.id, Evidence(source.id, source.span),
         Ascii("adjacent-next"), Ascii("chunk-adjacency-v1"), U8_MAX, true)
  }

  function EdgesOf(all: seq<Located>, c: Located): seq<Edge>
    requires c.next.Some? ==> Holds(all, c.next.value)
  {
    if c.next.None? then [] else [Adjacent(c.node, Find(all, c.next.value).node)]
  }

  function Adjacency(all: seq<Located>, cs: seq<Located>): seq<Edge>
    requires Closed(all, cs)
  {
    if cs == [] then [] else Adjacency(all, cs[..|cs| - 1]) + EdgesOf(all, cs[|cs| - 1])
  }

  function NodeOf(l: Located): Node { l.node }

  function Nodes(ls: seq<Located>): seq<Node> { MapSeq(NodeOf, ls) }

  /** `from_graph_chunks`. */
  ghost function FromChunks(h: Hash, corpus: Digest, chunks: seq<GraphChunk>): Option<Graph> {
    if |chunks| > MAX_NODES then None else
    var ls :- LocateAll(h, chunks);
    if DistinctChunks(ls) && Closed(ls, ls) then New(h, corpus, Nodes(ls), Adjacency(ls, ls)) else None
  }

  // ---------- Order does not matter ----------

  lemma {:induction false} AdjacencySplit(all: seq<Located>, cs: seq<Located>, i: nat)
    requires Closed(all, cs) && i < |cs|
    ensures Closed(all, cs[..i] + cs[i + 1..])
    ensures multiset(Adjacency(all, cs))
        == multiset(Adjacency(all, cs[..i] + cs[i + 1..])) + multiset(EdgesOf(all, cs[i]))
    decreases |cs|
  {
    hide EdgesOf, Holds;
    var n := |cs| - 1;
    if i == n {
      assert cs[..i] + cs[i + 1..] == cs[..n];
    } else {
      hide Adjacency;
      var init := cs[..n];
      var less := init[..i] + init[i + 1..];
      AdjacencySplit(all, init, i);
      SplitBeforeLast(cs, i);
      AdjacencySnoc(all, less, cs[n]);
      AdjacencySnoc(all, init, cs[n]);
      MultisetShift(Adjacency(all, init), Adjacency(all, less), EdgesOf(all, cs[i]), EdgesOf(all, cs[n]));
    }
  }

  lemma SplitBeforeLast<T>(cs: seq<T>, i: nat)
    requires i < |cs| - 1
    ensures var n := |cs| - 1;
            && cs == cs[..n] + [cs[n]]
            && cs[..i] + cs[i + 1..] == (cs[..n][..i] + cs[..n][i + 1..]) + [cs[n]]
  {
  }

  lemma MultisetShift<T>(a: seq<T>, b: seq<T>, taken: seq<T>, last: seq<T>)
    requires multiset(a) == multiset(b) + multiset(taken)
    ensures multiset(a + last) == multiset(b + last) + multiset(taken)
  {
  }

  lemma AdjacencySnoc(all: seq<Located>, cs: seq<Located>, c: Located)
    requires Closed(all, cs) && (c.next.Some? ==> Holds(all, c.next.value))
    ensures Closed(all, cs + [c]) && Adjacency(all, cs + [c]) == Adjacency(all, cs) + EdgesOf(all, c)
  {
    hide EdgesOf, Holds;
    assert (cs + [c])[..|cs|] == cs;
  }

  lemma {:induction false} AdjacencyPermuted(all: seq<Located>, a: seq<Located>, b: seq<Located>)
    requires Closed(all, a) && Closed(all, b) && multiset(a) == multiset(b)
    ensures multiset(Adjacency(all, a)) == multiset(Adjacency(all, b))
    decreases |a|
  {
    hide EdgesOf;
    if a == [] {
      assert |multiset(b)| == 0;
    } else {
      var i := FindLast(a, b);
      AdjacencySplit(all, b, i);
      AdjacencyPermuted(all, a[..|a| - 1], b[..i] + b[i + 1..]);
    }
  }

  lemma FindPermuted(a: seq<Located>, b: seq<Located>, id: ChunkId)
    requires DistinctChunks(a) && multiset(a) == multiset(b)
    ensures Holds(a, id) <==> Holds(b, id)
    ensures Holds(a, id) ==> Find(a, id) == Find(b, id)
  {
    if Holds(a, id) { assert Find(a, id) in multiset(b); }
    if Holds(b, id) { assert Find(b, id) in multiset(a); }
  }

  lemma {:induction false} AdjacencySameLookup(a: seq<Located>, b: seq<Located>, cs: seq<Located>)
    requires DistinctChunks(a) && multiset(a) == multiset(b)
    ensures Closed(a, cs) <==> Closed(b, cs)
    ensures Closed(a, cs) ==> Adjacency(a, cs) == Adjacency(b, cs)
  {
    if cs != [] {
      AdjacencySameLookup(a, b, cs[..|cs| - 1]);
      var c := cs[|cs| - 1];
      if c.next.Some? { FindPermuted(a, b, c.next.value); }
      assert forall all ::
          Closed(all, cs) <==> Closed(all, cs[..|cs| - 1]) && (c.next.Some? ==> Holds(all, c.next.value));
    }
  }

  lemma DistinctChunksPermuted(a: seq<Located>, b: seq<Located>)
    requires DistinctChunks(a) && multiset(a) == multiset(b)
    ensures DistinctChunks(b)
  {
    NoDuplicatesPermuted(a, b);
    forall i, j | 0 <= i < j < |b| ensures b[i].id != b[j].id {
      assert b[i] in multiset(a) && b[j] in multiset(a) && b[i] != b[j];
    }
  }

  lemma ClosedPermuted(all: seq<Located>, a: seq<Located>, b: seq<Located>)
    requires Closed(all, a) && multiset(a) == multiset(b)
    ensures Closed(all, b)
  {
    forall i | 0 <= i < |b| && b[i].next.Some? ensures Holds(all, b[i].next.value) {
      assert b[i] in multiset(a);
    }
  }

  /** Nodes and edges as the two orders see them, up to order. */
  lemma SameIngredients(a: seq<Located>, b: seq<Located>)
    requires DistinctChunks(a) && Closed(a, a) && multiset(a) == multiset(b)
    ensures DistinctChunks(b) && Closed(b, b)
    ensures multiset(Nodes(a)) == multiset(Nodes(b))
    ensures multiset(Adjacency(a, a)) == multiset(Adjacency(b, b))
  {
    DistinctChunksPermuted(a, b);
    AdjacencySameLookup(a, b, a);
    ClosedPermuted(b, a, b);
    AdjacencyPermuted(b, a, b);
    MapPermuted(NodeOf, a, b);
  }

  lemma LocateAllPermuted(h: Hash, a: seq<GraphChunk>, b: seq<GraphChunk>)
    requires multiset(a) == multiset(b)
    ensures LocateAll(h, a).Some? <==> LocateAll(h, b).Some?
    ensures LocateAll(h, a).Some? ==> multiset(LocateAll(h, a).value) == multiset(LocateAll(h, b).value)
  {
    hide SpanFits, Locate;
    MapPermuted(Locate(h), a, b);
    forall i | 0 <= i < |a| ensures a[i] in b { assert a[i] in multiset(b); }
    forall i | 0 <= i < |b| ensures b[i] in a { assert b[i] in multiset(a); }
  }

  /** The graph depends on the set of chunks, not on the order they arrive in. */
  lemma FromChunksIgnoresOrder(h: Hash, corpus: Digest, a: seq<GraphChunk>, b: seq<GraphChunk>)
    requires multiset(a) == multiset(b)
    ensures FromChunks(h, corpus, a) == FromChunks(h, corpus, b)
  {
    hide Locate, New;
    assert |a| == |multiset(a)| == |multiset(b)| == |b|;
    LocateAllPermuted(h, a, b);
    if LocateAll(h, a).Some? {
      var x, y := LocateAll(h, a).value, LocateAll(h, b).value;
      if DistinctChunks(x) && Closed(x, x) {
        SameIngredients(x, y);
        NewIgnoresOrder(h, corpus, Nodes(x), Nodes(y), Adjacency(x, x), Adjacency(y, y));
      } else if DistinctChunks(y) && Closed(y, y) {
        SameIngredients(y, x);
      }
    }
  }
}
