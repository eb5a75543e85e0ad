/** Fusing two ranked lists from end to end, and attaching the passages. */
module Hydration {
  import opened Bytes
  import opened Corpus
  import opened Text
  import opened Sorting
  import opened TextSets
  import opened Fusion
  import opened Selection

  /** The joined candidates in their final order. */
  ghost function Ordered(cfg: Config, m: map<Text, Candidate>): seq<Candidate> { SortBy(Before(cfg), Values(m)) }

  /** `fuse_candidate_metadata`. */
  ghost function Fused(
    cfg: Config, lexical: seq<LexicalCandidate>, semantic: seq<SemanticHit>, chunks: map<Text, Metadata>)
    : seq<Candidate> {
    Selected(cfg, Ordered(cfg, Joined(cfg.rrfK, lexical, semantic, chunks)))
  }

  method FuseCandidateMetadata(
    cfg: Config, lexical: seq<LexicalCandidate>, semantic: seq<SemanticHit>, chunks: map<Text, Metadata>)
    returns (output: seq<Candidate>)
    ensures output == Fused(cfg, lexical, semantic, chunks)
  {
    hide WithLexical, WithSemantic, Values, SortBy, Selected;
    var candidates: map<Text, Candidate> := map[];
    for rank := 0 to |lexical|
      invariant candidates == AddLexical(cfg.rrfK, lexical[..rank])
    {
      assert lexical[..rank + 1][..rank] == lexical[..rank];
      candidates := WithLexical(cfg.rrfK, candidates, rank, lexical[rank]);
    }
    assert lexical[..|lexical|] == lexical;
    for rank := 0 to |semantic|
      invariant candidates == AddSemantic(cfg.rrfK, AddLexical(cfg.rrfK, lexical), semantic[..rank], chunks)
    {
      assert semantic[..rank + 1][..rank] == semantic[..rank];
      candidates := WithSemantic(cfg.rrfK, candidates, rank, semantic[rank], chunks);
    }
    assert semantic[..|semantic|] == semantic;
    var values := ListValues(candidates);
    output := SelectDiverse(cfg, SortBy(Before(cfg), values));
  }

  // ---------- Order and origin ----------

  function IdOf(c: Candidate): Text { c.chunk.chunkId }

  ghost predicate KeyedByOwnId(m: map<Text, Candidate>) { forall id :: id in m ==> m[id].chunk.chunkId == id }

  /** The ordered candidates are the joined ones, each once, in strictly ascending order. */
  lemma OrderedFacts(cfg: Config, m: map<Text, Candidate>)
    requires KeyedByOwnId(m)
    ensures var s := Ordered(cfg, m);
            && (forall c :: c in s <==> c.chunk.chunkId in m && m[c.chunk.chunkId] == c)
            && NoDuplicates(MapSeq(IdOf, s))
            && forall i, j :: 0 <= i < j < |s| ==> Compare(cfg, s[i], s[j]) == Less
  {
    hide Compare, InOrder;
    var s, values := Ordered(cfg, m), Values(m);
    ComparatorIsTotalOrder(cfg);
    SortBySorts(Before(cfg), values);
    SortByPermutes(Before(cfg), values);
    KeysListed(m);
    assert MapSeq(IdOf, values) == InOrder(m.Keys);
    forall i, j | 0 <= i < j < |values| ensures MapSeq(IdOf, values)[i] != MapSeq(IdOf, values)[j] {
      AscendingOrder(InOrder(m.Keys), i, j);
    }
    MapPermuted(IdOf, values, s);
    NoDuplicatesPermuted(MapSeq(IdOf, values), MapSeq(IdOf, s));
    forall c ensures c in s <==> c.chunk.chunkId in m && m[c.chunk.chunkId] == c {
      assert c in multiset(s) <==> c in multiset(values);
      ValuesMembers(m, c);
    }
    forall i, j | 0 <= i < j < |s| ensures Compare(cfg, s[i], s[j]) == Less {
      assert Before(cfg)(s[i], s[j]);
      CompareOrder(cfg, s[i], s[j], s[i]);
      assert MapSeq(IdOf, s)[i] != MapSeq(IdOf, s)[j];
    }
  }

  lemma JoinedKeyed(k: u32, lexical: seq<LexicalCandidate>, semantic: seq<SemanticHit>, chunks: map<Text, Metadata>)
    requires KeyedByChunk(chunks)
    ensures KeyedByOwnId(Joined(k, lexical, semantic, chunks))
  {
    hide Joined, Contribution, LastRank;
    var m := Joined(k, lexical, semantic, chunks);
    forall id | id in m ensures m[id].chunk.chunkId == id { JoinedFacts(k, lexical, semantic, chunks, id); }
  }

  /** The output is strictly ordered and made of joined candidates. */
  lemma FusedFacts(cfg: Config, lexical: seq<LexicalCandidate>, semantic: seq<SemanticHit>, chunks: map<Text, Metadata>)
    requires KeyedByChunk(chunks)
    ensures var m, out := Joined(cfg.rrfK, lexical, semantic, chunks), Fused(cfg, lexical, semantic, chunks);
            && (forall i :: 0 <= i < |out| ==> out[i].chunk.chunkId in m && m[out[i].chunk.chunkId] == out[i])
            && (forall i, j :: 0 <= i < j < |out| ==> Compare(cfg, out[i], out[j]) == Less)
  {
    hide Joined, Compare, Picks, DocumentCount;
    JoinedKeyed(cfg.rrfK, lexical, semantic, chunks);
    var m := Joined(cfg.rrfK, lexical, semantic, chunks);
    var s := Ordered(cfg, m);
    OrderedFacts(cfg, m);
    PicksObeyCaps(s, Cap(cfg), cfg.maxPerDocument, |s|, []);
    var out := Selected(cfg, s);
    forall i | 0 <= i < |out| ensures out[i] in s {
      assert out[i] == s[Picks(s, Cap(cfg), cfg.maxPerDocument, |s|)[i]];
    }
  }

  // ---------- Hydration ----------

  datatype LexicalHit = LexicalHit(chunk: Chunk, score: real, exact: bool)

  datatype FusedHit = FusedHit(chunk: Chunk, candidate: Candidate)

  function CandidateOf(hit: LexicalHit): LexicalCandidate { LexicalCandidate(hit.chunk.metadata, hit.score, hit.exact) }

  /** Chunks by their own ids; a later one replaces an earlier one. */
  function ById(chunks: seq<Chunk>): map<Text, Chunk> {
    if chunks == [] then map[]
    else
      var n := |chunks| - 1;
      ById(chunks[..n])[chunks[n].metadata.chunkId := chunks[n]]
  }

  function MetadataOf(m: map<Text, Chunk>): map<Text, Metadata> { map id | id in m :: m[id].metadata }

  /** The known chunks, and those of lexical hits whose ids are not known. */
  function Hydrated(known: map<Text, Chunk>, hits: seq<LexicalHit>): map<Text, Chunk> {
    if hits == [] then known
    else
      var n := |hits| - 1;
      var m := Hydrated(known, hits[..n]);
      var id := hits[n].chunk.metadata.chunkId;
      if id in m then m else m[id := hits[n].chunk]
  }

  /** Attaches chunks; a candidate without one is dropped. */
  function Attach(hydrated: map<Text, Chunk>, cs: seq<Candidate>): seq<FusedHit> {
    if cs == [] then []
    else
      var n := |cs| - 1;
      Attach(hydrated, cs[..n])
      + (if cs[n].chunk.chunkId in hydrated then [FusedHit(hydrated[cs[n].chunk.chunkId], cs[n])] else [])
  }

  /** `fuse_candidates`. */
  ghost function FusedHits(
    cfg: Config, lexical: seq<LexicalHit>, semantic: seq<SemanticHit>, chunks: map<Text, Chunk>): seq<FusedHit> {
    var known := ById(Values(chunks));
    Attach(Hydrated(known, lexical), Fused(cfg, MapSeq(CandidateOf, lexical), semantic, MetadataOf(known)))
  }

  method FuseCandidates(cfg: Config, lexical: seq<LexicalHit>, semantic: seq<SemanticHit>, chunks: map<Text, Chunk>)
    returns (hits: seq<FusedHit>)
    ensures hits == FusedHits(cfg, lexical, semantic, chunks)
  {
    hide Values, Fused;
    var values := ListValues(chunks);
    var hydrated: map<Text, Chunk> := map[];
    for i := 0 to |values|
      invariant hydrated == ById(values[..i])
    {
      assert values[..i + 1][..i] == values[..i];
      hydrated := hydrated[values[i].metadata.chunkId := values[i]];
    }
    assert values[..|values|] == values;
    var metadata := MetadataOf(hydrated);
    for i := 0 to |lexical|
      invariant hydrated == Hydrated(ById(values), lexical[..i])
    {
      assert lexical[..i + 1][..i] == lexical[..i];
      var id := lexical[i].chunk.metadata.chunkId;
      if id !in hydrated {
        hydrated := hydrated[id := lexical[i].chunk];
      }
    }
    assert lexical[..|lexical|] == lexical;
    var candidates := FuseCandidateMetadata(cfg, MapSeq(CandidateOf, lexical), semantic, metadata);
    hits := [];
    for i := 0 to |candidates|
      invariant hits == Attach(hydrated, candidates[..i])
    {
      assert candidates[..i + 1][..i] == candidates[..i];
      var id := candidates[i].chunk.chunkId;
      if id in hydrated {
        hits := hits + [FusedHit(hydrated[id], candidates[i])];
      }
    }
    assert candidates[..|candidates|] == candidates;
  }

  lemma {:induction false} ByIdKeyed(chunks: seq<Chunk>)
    ensures KeyedByChunk(MetadataOf(ById(chunks)))
  {
    if chunks != [] {
      var before := ById(chunks[..|chunks| - 1]);
      ByIdKeyed(chunks[..|chunks| - 1]);
      forall id | id in ById(chunks) ensures ById(chunks)[id].metadata.chunkId == id {
        if id in before { assert MetadataOf(before)[id].chunkId == id; }
      }
    }
  }

  lemma {:induction false} HydratedFacts(known: map<Text, Chunk>, hits: seq<LexicalHit>, id: Text)
    requires KeyedByChunk(MetadataOf(known))
    ensures var m := Hydrated(known, hits);
            && (id in m <==> id in known || id in MapSeq(LexicalId, MapSeq(CandidateOf, hits)))
            && (id in m ==> m[id].metadata.chunkId == id)
  {
    if hits == [] {
      assert id in known ==> MetadataOf(known)[id].chunkId == id;
    } else {
      var n := |hits| - 1;
      HydratedFacts(known, hits[..n], id);
      HydratedFacts(known, hits[..n], hits[n].chunk.metadata.chunkId);
      assert MapSeq(LexicalId, MapSeq(CandidateOf, hits))
          == MapSeq(LexicalId, MapSeq(CandidateOf, hits[..n])) + [hits[n].chunk.metadata.chunkId];
    }
  }

  lemma {:induction false} AttachKeepsAll(hydrated: map<Text, Chunk>, cs: seq<Candidate>)
    requires forall i :: 0 <= i < |cs| ==> cs[i].chunk.chunkId in hydrated
    ensures var hits := Attach(hydrated, cs);
            && |hits| == |cs|
            && forall i :: 0 <= i < |cs| ==> hits[i] == FusedHit(hydrated[cs[i].chunk.chunkId], cs[i])
  {
    if cs != [] { AttachKeepsAll(hydrated, cs[..|cs| - 1]); }
  }

  /** Hydration drops nothing and reorders nothing: every fused candidate gets a chunk of its
      own id. */
  lemma HydrationDropsNothing(
    cfg: Config, lexical: seq<LexicalHit>, semantic: seq<SemanticHit>, chunks: map<Text, Chunk>)
    ensures var hits := FusedHits(cfg, lexical, semantic, chunks);
            var fused := Fused(cfg, MapSeq(CandidateOf, lexical), semantic, MetadataOf(ById(Values(chunks))));
            && |hits| == |fused|
            && forall i :: 0 <= i < |hits| ==>
                 hits[i].candidate == fused[i] && hits[i].chunk.metadata.chunkId == fused[i].chunk.chunkId
  {
    hide Values, Joined, Compare, Contribution, LastRank, Ordered, Selected;
    var known := ById(Values(chunks));
    var candidates := MapSeq(CandidateOf, lexical);
    var fused := Fused(cfg, candidates, semantic, MetadataOf(known));
    ByIdKeyed(Values(chunks));
    FusedFacts(cfg, candidates, semantic, MetadataOf(known));
    forall i | 0 <= i < |fused|
      ensures fused[i].chunk.chunkId in Hydrated(known, lexical)
      ensures Hydrated(known, lexical)[fused[i].chunk.chunkId].metadata.chunkId == fused[i].chunk.chunkId
    {
      JoinedFacts(cfg.rrfK, candidates, semantic, MetadataOf(known), fused[i].chunk.chunkId);
      HydratedFacts(known, lexical, fused[i].chunk.chunkId);
    }
    AttachKeepsAll(Hydrated(known, lexical), fused);
  }
}
