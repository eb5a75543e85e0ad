/** `GraphChunkBuilder`, which meets its hash map in any order, and the projection of
    the graph sidecar onto the chunks that the lexical index still holds. */
module GraphBuilder {
  import opened Bytes
  import opened Sorting
  import opened GraphArtifact
  import opened GraphCanonical
  import opened GraphChunks
  import GraphIndexer

  // `NodeLocator`.
  datatype Locator = Locator(index: nat, span: Span, next: Option<ChunkId>)

  predicate MapsTo(m: map<ChunkId, Locator>, l: Located, i: nat) {
    l.id in m && m[l.id] == Locator(i, l.node.span, l.next)
  }

  ghost predicate MapsChunks(m: map<ChunkId, Locator>, ls: seq<Located>) {
    && (forall i :: 0 <= i < |ls| ==> MapsTo(m, ls[i], i))
    && (forall id :: id in m ==> Holds(ls, id))
  }

  lemma MapGrows(m: map<ChunkId, Locator>, ls: seq<Located>, record: Located)
    requires MapsChunks(m, ls) && DistinctChunks(ls) && record.id !in m
    ensures MapsChunks(m[record.id := Locator(|ls|, record.node.span, record.next)], ls + [record])
    ensures DistinctChunks(ls + [record])
  {
    var ls' := ls + [record];
    forall id | id in m ensures Holds(ls', id) {
      var i :| 0 <= i < |ls| && ls[i].id == id;
      assert ls'[i].id == id;
    }
    assert ls'[|ls|].id == record.id;
    forall i | 0 <= i < |ls| ensures ls[i].id != record.id { assert MapsTo(m, ls[i], i); }
  }

  lemma MapAnswers(m: map<ChunkId, Locator>, ls: seq<Located>, id: ChunkId)
    requires MapsChunks(m, ls) && DistinctChunks(ls)
    ensures id in m <==> Holds(ls, id)
    ensures id in m ==> m[id].index < |ls| && ls[m[id].index] == Find(ls, id)
    ensures id in m ==> MapsTo(m, Find(ls, id), m[id].index)
  {
    if Holds(ls, id) {
      var i :| 0 <= i < |ls| && ls[i] == Find(ls, id);
      assert MapsTo(m, ls[i], i);
    }
  }

  lemma MapCovers(m: map<ChunkId, Locator>, ls: seq<Located>)
    requires MapsChunks(m, ls)
    ensures forall i :: 0 <= i < |ls| ==> ls[i].id in m
  {
    forall i | 0 <= i < |ls| ensures ls[i].id in m { assert MapsTo(m, ls[i], i); }
  }

  class GraphChunkBuilder {
    const hash: Hash
    const corpus: Digest
    var nodes: seq<Node>
    var nodeByChunk: map<ChunkId, Locator>
    ghost var pushed: seq<GraphChunk>
    ghost var located: seq<Located>

    ghost predicate Valid()
      reads this
    {
      && LocateAll(hash, pushed) == Some(located)
      && |pushed| <= MAX_NODES && DistinctChunks(located)
      && nodes == Nodes(located)
      && MapsChunks(nodeByChunk, located)
    }

    constructor (hash: Hash, corpus: Digest)
      ensures Valid() && pushed == []
      ensures this.hash == hash && this.corpus == corpus
    {
      this.hash := hash;
      this.corpus := corpus;
      nodes := [];
      nodeByChunk := map[];
      pushed := [];
      located := [];
    }

    method Push(chunk: GraphChunk) returns (ok: bool)
      requires Valid()
      modifies this
      ensures ok <==> |old(pushed)| < MAX_NODES && SpanFits(chunk) && chunk.id !in old(nodeByChunk)
      ensures ok ==> Valid() && pushed == old(pushed) + [chunk]
    {
      hide Symbol, GraphSpan, NewNode, MapsChunks, DistinctChunks;
      if |nodes| >= MAX_NODES || !SpanFits(chunk) {
        return false;
      }
      var record := Locate(hash)(chunk);
      if chunk.id in nodeByChunk {
        return false;
      }
      MapGrows(nodeByChunk, located, record);
      nodeByChunk := nodeByChunk[chunk.id := Locator(|nodes|, record.node.span, chunk.next)];
      nodes := nodes + [record.node];
      pushed := pushed + [chunk];
      located := located + [record];
      assert located == MapSeq(Locate(hash), pushed);
      assert nodes == Nodes(located);
      ok := true;
    }

    /** Whatever the iteration order of the map, the result is the same graph. */
    method Finish() returns (r: Option<Graph>)
      requires Valid()
      ensures r == FromChunks(hash, corpus, pushed)
    {
      hide New, Locate, Adjacent, MapsChunks, Visited;
      var edges: seq<Edge> := [];
      var todo := nodeByChunk.Keys;
      ghost var done: seq<Located> := [];
      MapCovers(nodeByChunk, located);
      NothingVisited(located, todo);
      while todo != {}
        invariant todo <= nodeByChunk.Keys && Visited(located, todo, done)
        invariant Closed(located, done) && edges == Adjacency(located, done)
        decreases |todo|
      {
        var id :| id in todo;
        var source := nodeByChunk[id];
        MapAnswers(nodeByChunk, located, id);
        ghost var l := Find(located, id);
        VisitOne(located, todo, done, id);
        todo := todo - {id};
        if source.next.Some? {
          MapAnswers(nodeByChunk, located, source.next.value);
          if source.next.value !in nodeByChunk {
            return None;
          }
          var target := nodeByChunk[source.next.value];
          edges := edges + [Adjacent(nodes[source.index], nodes[target.index])];
        }
        AdjacencySnoc(located, done, l);
        done := done + [l];
      }
      AllVisited(located, done);
      r := GraphIndexer.Construct(hash, corpus, nodes, edges);
      NewIgnoresOrder(hash, corpus, nodes, nodes, edges, Adjacency(located, located));
    }
  }

  // Each chunk is either still to do or already done, and done once.
  ghost predicate Visited(located: seq<Located>, todo: set<ChunkId>, done: seq<Located>) {
    && NoDuplicates(done)
    && (forall l :: l in done ==> l in located && l.id !in todo)
    && (forall i :: 0 <= i < |located| ==> located[i].id in todo || located[i] in done)
  }

  lemma NothingVisited(located: seq<Located>, todo: set<ChunkId>)
    requires forall i :: 0 <= i < |located| ==> located[i].id in todo
    ensures Visited(located, todo, [])
  {
  }

  lemma VisitOne(located: seq<Located>, todo: set<ChunkId>, done: seq<Located>, id: ChunkId)
    requires Visited(located, todo, done) && DistinctChunks(located) && id in todo && Holds(located, id)
    ensures Visited(located, todo - {id}, done + [Find(located, id)])
  {
    var l := Find(located, id);
    forall i | 0 <= i < |located| ensures located[i].id in todo - {id} || located[i] in done + [l] {
      if located[i].id == id { assert located[i] == l; }
    }
  }

  lemma AllVisited(located: seq<Located>, done: seq<Located>)
    requires DistinctChunks(located) && Visited(located, {}, done) && Closed(located, done)
    ensures Closed(located, located)
    ensures multiset(Adjacency(located, done)) == multiset(Adjacency(located, located))
  {
    SameElementsPermuted(done, located);
    ClosedPermuted(located, done, located);
    AdjacencyPermuted(located, done, located);
  }

  // ---------- The live projection ----------

  /** Drops chunks that are not live, and links to chunks that are not live. */
  function Project(live: set<ChunkId>, c: GraphChunk): Option<GraphChunk> {
    if c.id !in live then None
    else if c.next.Some? && c.next.value !in live then Some(c.(next := None))
    else Some(c)
  }

  function ProjectAll(live: set<ChunkId>, chunks: seq<GraphChunk>): seq<GraphChunk> {
    if chunks == [] then []
    else
      var init := ProjectAll(live, chunks[..|chunks| - 1]);
      match Project(live, chunks[|chunks| - 1])
      case None => init
      case Some(c) => init + [c]
  }

  /** The graph step of `finish_git_history_lexical_stage`: `count` is the number of
      chunk ids the index listed, `live` the set of them. */
  ghost function LiveGraph(
    h: Hash, corpus: Digest, live: set<ChunkId>, count: nat, sidecar: seq<GraphChunk>): Option<Graph> {
    var g :- FromChunks(h, corpus, ProjectAll(live, sidecar));
    if |g.nodes| == count then Some(g) else None
  }

  method BuildLiveGraph(h: Hash, corpus: Digest, live: set<ChunkId>, count: nat, sidecar: seq<GraphChunk>)
    returns (r: Option<Graph>)
    ensures r == LiveGraph(h, corpus, live, count, sidecar)
  {
    hide New, Locate, SpanFits;
    var builder := new GraphChunkBuilder(h, corpus);
    for i := 0 to |sidecar|
      invariant builder.Valid() && fresh(builder) && builder.hash == h && builder.corpus == corpus
      invariant builder.pushed == ProjectAll(live, sidecar[..i])
    {
      assert sidecar[..i + 1][..i] == sidecar[..i];
      match Project(live, sidecar[i]) {
        case None =>
        case Some(c) =>
          ghost var before := builder.pushed;
          ghost var located := builder.located;
          ghost var ids := builder.nodeByChunk;
          var ok := builder.Push(c);
          if !ok {
            ProjectionExtends(live, sidecar, i + 1);
            if c.id in ids { assert Holds(located, c.id); }
            PushFailureIsFatal(h, corpus, before, c, ProjectAll(live, sidecar));
            return None;
          }
      }
    }
    assert sidecar[..|sidecar|] == sidecar;
    var g :- builder.Finish();
    r := if |g.nodes| == count then Some(g) else None;
  }

  lemma {:induction false} ProjectionExtends(live: set<ChunkId>, sidecar: seq<GraphChunk>, i: nat)
    requires i <= |sidecar|
    ensures ProjectAll(live, sidecar[..i]) <= ProjectAll(live, sidecar)
    decreases |sidecar|
  {
    var n := |sidecar| - 1;
    if i <= n {
      ProjectionExtends(live, sidecar[..n], i);
      assert sidecar[..n][..i] == sidecar[..i];
    } else {
      assert sidecar[..i] == sidecar;
    }
  }

  lemma PushFailureIsFatal(h: Hash, corpus: Digest, before: seq<GraphChunk>, c: GraphChunk, all: seq<GraphChunk>)
    requires before + [c] <= all
    requires LocateAll(h, before).Some?
    requires |before| >= MAX_NODES || !SpanFits(c) || Holds(LocateAll(h, before).value, c.id)
    ensures FromChunks(h, corpus, all).None?
  {
    hide New, SpanFits;
    var n := |before|;
    assert all[n] == (before + [c])[n] == c;
    if n < MAX_NODES && SpanFits(c) && LocateAll(h, all).Some? {
      var ls := LocateAll(h, all).value;
      var i :| 0 <= i < n && LocateAll(h, before).value[i].id == c.id;
      assert all[i] == (before + [c])[i] == before[i];
      assert ls[i].id == ls[n].id;
    }
  }

  lemma {:induction false} ProjectedIsLive(live: set<ChunkId>, sidecar: seq<GraphChunk>, i: nat)
    requires i < |ProjectAll(live, sidecar)|
    ensures var p := ProjectAll(live, sidecar)[i]; p.id in live && (p.next.Some? ==> p.next.value in live)
  {
    var init := ProjectAll(live, sidecar[..|sidecar| - 1]);
    if i < |init| { ProjectedIsLive(live, sidecar[..|sidecar| - 1], i); }
  }

  lemma {:induction false} LiveRecordSurvives(live: set<ChunkId>, sidecar: seq<GraphChunk>, j: nat) returns (i: nat)
    requires j < |sidecar| && sidecar[j].id in live
    ensures i < |ProjectAll(live, sidecar)| && Project(live, sidecar[j]) == Some(ProjectAll(live, sidecar)[i])
  {
    var n := |sidecar| - 1;
    if j < n {
      i := LiveRecordSurvives(live, sidecar[..n], j);
    } else {
      i := |ProjectAll(live, sidecar[..n])|;
    }
  }

  ghost function Ids(ls: seq<Located>): set<ChunkId> { set i | 0 <= i < |ls| :: ls[i].id }

  lemma {:induction false} DistinctIdsCount(ls: seq<Located>)
    requires DistinctChunks(ls)
    ensures |Ids(ls)| == |ls|
  {
    if ls != [] {
      var n := |ls| - 1;
      DistinctIdsCount(ls[..n]);
      assert ls[n].id !in Ids(ls[..n]);
      assert Ids(ls) == Ids(ls[..n]) + {ls[n].id};
    }
  }

  lemma {:induction false} FullSubset<T>(a: set<T>, b: set<T>)
    requires a <= b && |a| >= |b|
    ensures a == b
  {
    assert |b - a| == |b| - |a|;
  }

  /** A successful projection has one node per live chunk and one edge per adjacency that the
      projected records keep. */
  lemma LiveGraphParts(h: Hash, corpus: Digest, live: set<ChunkId>, count: nat, sidecar: seq<GraphChunk>)
    requires |live| <= count
    requires LiveGraph(h, corpus, live, count, sidecar).Some?
    ensures var g := LiveGraph(h, corpus, live, count, sidecar).value;
            var ls := MapSeq(Locate(h), ProjectAll(live, sidecar));
            && LocateAll(h, ProjectAll(live, sidecar)) == Some(ls)
            && |live| == count == |g.nodes| && Ids(ls) == live && DistinctChunks(ls)
            && multiset(g.nodes) == multiset(Nodes(ls)) && DistinctIds(Nodes(ls))
            && Closed(ls, ls) && multiset(g.edges) == multiset(Adjacency(ls, ls)) && NoDuplicates(g.edges)
  {
    hide Locate, New, Valid, Adjacency;
    var g := LiveGraph(h, corpus, live, count, sidecar).value;
    var ps := ProjectAll(live, sidecar);
    var ls := MapSeq(Locate(h), ps);
    ConstructedFrom(h, corpus, Nodes(ls), Adjacency(ls, ls));
    LocateKeepsLinks(h, ps);
    DistinctIdsCount(ls);
    assert |g.nodes| == |multiset(g.nodes)| == |multiset(Nodes(ls))| == |ls|;
    assert Ids(ls) <= live by {
      forall i | 0 <= i < |ls| ensures ls[i].id in live { ProjectedIsLive(live, sidecar, i); }
    }
    FullSubset(Ids(ls), live);
  }

  lemma ConstructedFrom(h: Hash, corpus: Digest, nodes: seq<Node>, edges: seq<Edge>)
    requires New(h, corpus, nodes, edges).Some?
    ensures var g := New(h, corpus, nodes, edges).value;
            && Valid(h, g) && multiset(g.nodes) == multiset(nodes) && multiset(g.edges) == multiset(edges)
            && DistinctIds(nodes) && NoDuplicates(g.edges)
  {
    hide NodeOk, EdgesOk, ForwardIndex, ReverseIndex, NodeLeq, EdgeLeq;
    SortByPermutes(NodeLeq, nodes);
    SortByPermutes(EdgeLeq, edges);
    var g := New(h, corpus, nodes, edges).value;
    NodesUnsort(h, g.nodes, nodes);
    ValidEdgesSorted(g.nodes, g.edges);
  }

  /** When the sidecar has a record for every live chunk, no surviving link dangles. */
  lemma ProjectionIsClosed(h: Hash, live: set<ChunkId>, sidecar: seq<GraphChunk>)
    requires forall id :: id in live ==> exists j :: 0 <= j < |sidecar| && sidecar[j].id == id
    ensures var ls := MapSeq(Locate(h), ProjectAll(live, sidecar)); Closed(ls, ls)
  {
    hide Locate;
    var ps := ProjectAll(live, sidecar);
    var ls := MapSeq(Locate(h), ps);
    LocateKeepsLinks(h, ps);
    forall i | 0 <= i < |ls| && ls[i].next.Some? ensures Holds(ls, ls[i].next.value) {
      ProjectedIsLive(live, sidecar, i);
      var id := ps[i].next.value;
      var j :| 0 <= j < |sidecar| && sidecar[j].id == id;
      var k := LiveRecordSurvives(live, sidecar, j);
      assert ls[k].id == id;
    }
  }

  lemma LocateKeepsLinks(h: Hash, ps: seq<GraphChunk>)
    ensures var ls := MapSeq(Locate(h), ps);
            forall i :: 0 <= i < |ps| ==> ls[i].id == ps[i].id && ls[i].next == ps[i].next
  {
    hide Symbol, GraphSpan;
  }
}
