/** Reciprocal-rank fusion: joining two ranked lists and comparing the joined candidates.
    Scores are exact real numbers. */
module Fusion {
  import opened Bytes
  import opened Corpus
  import opened Text
  import opened Sorting

  const LEXICAL_FLOOR_DEPTH: nat := 2

  datatype Config = Config(rrfK: u32, maxPerDocument: nat, limit: nat, lexicalFloor: bool)

  datatype LexicalCandidate = LexicalCandidate(chunk: Metadata, score: real, exact: bool)

  datatype SemanticHit = SemanticHit(chunkId: Text, similarity: real)

  datatype Candidate = Candidate(
    chunk: Metadata, score: real, lexicalRank: Option<nat>, semanticRank: Option<nat>,
    lexicalScore: Option<real>, similarity: Option<real>, exact: bool)

  // ---------- Joining ----------

  /** What the place `rank` (from 0) contributes to a score. */
  function Rrf(k: u32, rank: nat): (r: real)
    ensures r > 0.0
  {
    1.0 / (k as real + Min(rank, U32_MAX) as real + 1.0)
  }

  function NewCandidate(chunk: Metadata): Candidate { Candidate(chunk, 0.0, None, None, None, None, false) }

  function AddLexical(k: u32, hits: seq<LexicalCandidate>): map<Text, Candidate> {
    if hits == [] then map[]
    else
      var n := |hits| - 1;
      WithLexical(k, AddLexical(k, hits[..n]), n, hits[n])
  }

  function WithLexical(k: u32, m: map<Text, Candidate>, rank: nat, hit: LexicalCandidate): map<Text, Candidate> {
    var id := hit.chunk.chunkId;
    var c := if id in m then m[id] else NewCandidate(hit.chunk);
    m[id := c.(lexicalRank := Some(rank + 1), lexicalScore := Some(hit.score), exact := c.exact || hit.exact,
               score := c.score + Rrf(k, rank))]
  }

  function AddSemantic(
    k: u32, m: map<Text, Candidate>, hits: seq<SemanticHit>, chunks: map<Text, Metadata>): map<Text, Candidate> {
    if hits == [] then m
    else
      var n := |hits| - 1;
      WithSemantic(k, AddSemantic(k, m, hits[..n], chunks), n, hits[n], chunks)
  }

  function WithSemantic(
    k: u32, m: map<Text, Candidate>, rank: nat, hit: SemanticHit, chunks: map<Text, Metadata>): map<Text, Candidate> {
    var id := hit.chunkId;
    if id !in chunks then m
    else
      var c := if id in m then m[id] else NewCandidate(chunks[id]);
      m[id := c.(semanticRank := Some(rank + 1), similarity := Some(hit.similarity), score := c.score + Rrf(k, rank))]
  }

  function Joined(
    k: u32, lexical: seq<LexicalCandidate>, semantic: seq<SemanticHit>, chunks: map<Text, Metadata>)
    : map<Text, Candidate> {
    AddSemantic(k, AddLexical(k, lexical), semantic, chunks)
  }

  function LexicalId(hit: LexicalCandidate): Text { hit.chunk.chunkId }

  function SemanticId(hit: SemanticHit): Text { hit.chunkId }

  /** The sum of what all places of an id contribute. */
  function Contribution(k: u32, ids: seq<Text>, id: Text): real {
    if ids == [] then 0.0
    else
      var n := |ids| - 1;
      Contribution(k, ids[..n], id) + (if ids[n] == id then Rrf(k, n) else 0.0)
  }

  /** The last rank (from 1) of an id. */
  function LastRank(ids: seq<Text>, id: Text): (r: Option<nat>)
    ensures r.Some? <==> id in ids
    ensures r.Some? ==> 0 < r.value <= |ids| && ids[r.value - 1] == id
  {
    if ids == [] then None
    else
      var n := |ids| - 1;
      if ids[n] == id then Some(n + 1) else LastRank(ids[..n], id)
  }

  ghost predicate ExactHit(hits: seq<LexicalCandidate>, id: Text) {
    exists i :: 0 <= i < |hits| && hits[i].chunk.chunkId == id && hits[i].exact
  }

  lemma OneMorePlace(k: u32, ids: seq<Text>, x: Text, id: Text)
    ensures Contribution(k, ids + [x], id) == Contribution(k, ids, id) + (if x == id then Rrf(k, |ids|) else 0.0)
    ensures LastRank(ids + [x], id) == if x == id then Some(|ids| + 1) else LastRank(ids, id)
  {
    assert (ids + [x])[..|ids|] == ids;
  }

  lemma {:induction false} LexicalFacts(k: u32, hits: seq<LexicalCandidate>, id: Text)
    ensures var m, ids := AddLexical(k, hits), MapSeq(LexicalId, hits);
            && (id in m <==> id in ids)
            && (id in m ==>
                  && m[id].chunk.chunkId == id
                  && m[id].score == Contribution(k, ids, id)
                  && m[id].lexicalRank == LastRank(ids, id) && m[id].semanticRank == None
                  && (m[id].exact <==> ExactHit(hits, id)))
            && (id !in m ==> Contribution(k, ids, id) == 0.0)
  {
    if hits != [] {
      var n := |hits| - 1;
      LexicalFacts(k, hits[..n], id);
      OneMorePlace(k, MapSeq(LexicalId, hits[..n]), hits[n].chunk.chunkId, id);
      assert hits == hits[..n] + [hits[n]];
      assert MapSeq(LexicalId, hits) == MapSeq(LexicalId, hits[..n]) + [hits[n].chunk.chunkId];
      assert ExactHit(hits, id) <==> ExactHit(hits[..n], id) || (hits[n].chunk.chunkId == id && hits[n].exact);
    }
  }

  // The entry of an id in m after semantic hits with these ids have been joined, giving m'.
  ghost predicate JoinedSemantic(
    k: u32, m: map<Text, Candidate>, ids: seq<Text>, chunks: map<Text, Metadata>, id: Text, m': map<Text, Candidate>)
  {
    && (id in m' <==> id in m || (id in chunks && id in ids))
    && (id in m' ==>
          && m'[id].chunk == (if id in m then m[id].chunk else chunks[id])
          && m'[id].score
            == (if id in m then m[id].score else 0.0) + (if id in chunks then Contribution(k, ids, id) else 0.0)
          && m'[id].lexicalRank == (if id in m then m[id].lexicalRank else None)
          && m'[id].semanticRank == (if id in chunks then LastRank(ids, id) else None)
          && (m'[id].exact <==> id in m && m[id].exact))
  }

  lemma JoinOne(
    k: u32, m: map<Text, Candidate>, ids: seq<Text>, chunks: map<Text, Metadata>, id: Text, m': map<Text, Candidate>,
    hit: SemanticHit)
    requires JoinedSemantic(k, m, ids, chunks, id, m')
    requires id !in ids ==> Contribution(k, ids, id) == 0.0
    ensures JoinedSemantic(k, m, ids + [hit.chunkId], chunks, id, WithSemantic(k, m', |ids|, hit, chunks))
  {
    hide Rrf, Contribution, LastRank;
    OneMorePlace(k, ids, hit.chunkId, id);
  }

  lemma {:induction false} AbsentContributesNothing(k: u32, ids: seq<Text>, id: Text)
    requires id !in ids
    ensures Contribution(k, ids, id) == 0.0
  {
    if ids != [] { AbsentContributesNothing(k, ids[..|ids| - 1], id); }
  }

  lemma {:induction false} SemanticFacts(
    k: u32, m: map<Text, Candidate>, hits: seq<SemanticHit>, chunks: map<Text, Metadata>, id: Text)
    requires id in m ==> m[id].semanticRank == None
    ensures JoinedSemantic(k, m, MapSeq(SemanticId, hits), chunks, id, AddSemantic(k, m, hits, chunks))
  {
    if hits != [] {
      hide JoinedSemantic, WithSemantic, Contribution;
      var n := |hits| - 1;
      var ids := MapSeq(SemanticId, hits[..n]);
      SemanticFacts(k, m, hits[..n], chunks, id);
      if id !in ids { AbsentContributesNothing(k, ids, id); }
      JoinOne(k, m, ids, chunks, id, AddSemantic(k, m, hits[..n], chunks), hits[n]);
      assert MapSeq(SemanticId, hits) == ids + [hits[n].chunkId];
    }
  }

  /** The chunk map names each chunk by its own id. */
  ghost predicate KeyedByChunk(chunks: map<Text, Metadata>) { forall id :: id in chunks ==> chunks[id].chunkId == id }

  /** Who is a candidate, and with what ranks, score and exactness. */
  lemma JoinedFacts(
    k: u32, lexical: seq<LexicalCandidate>, semantic: seq<SemanticHit>, chunks: map<Text, Metadata>, id: Text)
    ensures var m := Joined(k, lexical, semantic, chunks);
            var lex, sem := MapSeq(LexicalId, lexical), MapSeq(SemanticId, semantic);
            && (id in m <==> id in lex || (id in chunks && id in sem))
            && (id in m ==>
                  && (KeyedByChunk(chunks) ==> m[id].chunk.chunkId == id)
                  && m[id].lexicalRank == LastRank(lex, id)
                  && m[id].semanticRank == (if id in chunks then LastRank(sem, id) else None)
                  && m[id].score == Contribution(k, lex, id) + (if id in chunks then Contribution(k, sem, id) else 0.0)
                  && (m[id].exact <==> ExactHit(lexical, id)))
  {
    hide Contribution, LastRank;
    LexicalFacts(k, lexical, id);
    SemanticFacts(k, AddLexical(k, lexical), semantic, chunks, id);
    if id !in MapSeq(SemanticId, semantic) { AbsentContributesNothing(k, MapSeq(SemanticId, semantic), id); }
  }

  function RankTerm(k: u32, rank: Option<nat>): real {
    if rank.Some? && rank.value > 0 then Rrf(k, rank.value - 1) else 0.0
  }

  function Occurrences(ids: seq<Text>, id: Text): nat {
    if ids == [] then 0
    else
      var n := |ids| - 1;
      Occurrences(ids[..n], id) + (if ids[n] == id then 1 else 0)
  }

  lemma {:induction false} ContributionFacts(k: u32, ids: seq<Text>, id: Text)
    ensures Contribution(k, ids, id) >= RankTerm(k, LastRank(ids, id))
    ensures Contribution(k, ids, id) == RankTerm(k, LastRank(ids, id)) <==> Occurrences(ids, id) <= 1
    ensures Occurrences(ids, id) == 0 <==> Contribution(k, ids, id) == 0.0
  {
    if ids != [] {
      ContributionFacts(k, ids[..|ids| - 1], id);
    }
  }

  /** A score is the reciprocal-rank formula of the candidate's two ranks exactly when its id
      occurs at most once in each list that counts. */
  lemma ScoreIsFormula(
    k: u32, lexical: seq<LexicalCandidate>, semantic: seq<SemanticHit>, chunks: map<Text, Metadata>, id: Text)
    requires id in Joined(k, lexical, semantic, chunks)
    ensures var c := Joined(k, lexical, semantic, chunks)[id];
            var once := && Occurrences(MapSeq(LexicalId, lexical), id) <= 1
                        && (id in chunks ==> Occurrences(MapSeq(SemanticId, semantic), id) <= 1);
            c.score == RankTerm(k, c.lexicalRank) + RankTerm(k, c.semanticRank) <==> once
  {
    JoinedFacts(k, lexical, semantic, chunks, id);
    hide Contribution, LastRank, Occurrences, Joined;
    ContributionFacts(k, MapSeq(LexicalId, lexical), id);
    ContributionFacts(k, MapSeq(SemanticId, semantic), id);
  }

  /** One hit listed twice scores more than the formula of its rank. */
  lemma RepeatedHitBreaksFormula(k: u32, hit: LexicalCandidate)
    ensures var id := hit.chunk.chunkId;
            var m := Joined(k, [hit, hit], [], map[]);
            id in m && m[id].score != RankTerm(k, m[id].lexicalRank) + RankTerm(k, m[id].semanticRank)
  {
    var id, hits := hit.chunk.chunkId, [hit, hit];
    var ids := MapSeq(LexicalId, hits);
    var one: seq<Text> := [id];
    assert ids == [id, id] && ids[..1] == one && one[..0] == [];
    assert Occurrences(one, id) == 1;
    assert Occurrences(ids, id) == 2;
    hide Joined, Occurrences, RankTerm;
    JoinedFacts(k, hits, [], map[], id);
    ScoreIsFormula(k, hits, [], map[], id);
  }

  // ---------- The comparator ----------

  datatype Ordering = Less | Equal | Greater {
    function Then(next: Ordering): Ordering { if Equal? then next else this }

    function Reverse(): Ordering {
      match this
      case Less => Greater
      case Equal => Equal
      case Greater => Less
    }
  }

  function CompareInt(a: int, b: int): Ordering { if a < b then Less else if a == b then Equal else Greater }

  function CompareReal(a: real, b: real): Ordering { if a < b then Less else if a == b then Equal else Greater }

  function CompareText(a: Text, b: Text): Ordering { if a == b then Equal else if LexLeq(a, b) then Less else Greater }

  function Truth(b: bool): int { if b then 1 else 0 }

  // None comes before every rank.
  function RankNumber(r: Option<nat>): int { if r.None? then -1 else r.value }

  predicate Protected(c: Candidate) { c.lexicalRank.Some? && c.lexicalRank.value <= LEXICAL_FLOOR_DEPTH }

  /** The comparison of the final sort, level by level. */
  function Compare(cfg: Config, a: Candidate, b: Candidate): Ordering {
    CompareInt(Truth(b.exact), Truth(a.exact))
    .Then(if a.exact && b.exact then CompareInt(RankNumber(a.lexicalRank), RankNumber(b.lexicalRank)) else Equal)
    .Then(CompareInt(Truth(a.chunk.registeredId.None?), Truth(b.chunk.registeredId.None?)))
    .Then(if cfg.lexicalFloor then CompareInt(Truth(Protected(b)), Truth(Protected(a))) else Equal)
    .Then(if cfg.lexicalFloor && Protected(a) && Protected(b)
          then CompareInt(a.lexicalRank.value, b.lexicalRank.value) else Equal)
    .Then(CompareReal(b.score, a.score))
    .Then(CompareText(a.chunk.chunkId, b.chunk.chunkId))
  }

  /** The levels as one key, compared from the outside in. */
  datatype Key = End | Level(head: real, rest: Key)

  function KeyOf(cfg: Config, c: Candidate): Key {
    Level(-(Truth(c.exact) as real),
    Level(if c.exact then RankNumber(c.lexicalRank) as real else 0.0,
    Level(Truth(c.chunk.registeredId.None?) as real,
    Level(if cfg.lexicalFloor then -(Truth(Protected(c)) as real) else 0.0,
    Level(if cfg.lexicalFloor && Protected(c) then c.lexicalRank.value as real else 0.0,
    Level(-c.score, End))))))
  }

  function CompareKeys(a: Key, b: Key): Ordering {
    match (a, b)
    case (End, End) => Equal
    case (End, Level(_, _)) => Less
    case (Level(_, _), End) => Greater
    case (Level(x, s), Level(y, t)) => CompareReal(x, y).Then(CompareKeys(s, t))
  }

  lemma {:induction false} KeyOrder(a: Key, b: Key, c: Key)
    ensures CompareKeys(b, a) == CompareKeys(a, b).Reverse()
    ensures CompareKeys(a, b) == Equal <==> a == b
    ensures CompareKeys(a, b) == Less && CompareKeys(b, c) == Less ==> CompareKeys(a, c) == Less
  {
    if a.Level? && b.Level? && c.Level? {
      KeyOrder(a.rest, b.rest, c.rest);
    } else if a.Level? && b.Level? {
      KeyOrder(a.rest, b.rest, End);
    }
  }

  /** The cascade of conditional levels is the lexicographic order of keys, then ids. */
  lemma CompareIsKeyOrder(cfg: Config, a: Candidate, b: Candidate)
    ensures Compare(cfg, a, b)
        == CompareKeys(KeyOf(cfg, a), KeyOf(cfg, b)).Then(CompareText(a.chunk.chunkId, b.chunk.chunkId))
  {
    hide CompareText;
    var x, y := KeyOf(cfg, a), KeyOf(cfg, b);
    assert CompareKeys(x, y) == CompareReal(x.head, y.head).Then(CompareKeys(x.rest, y.rest));
    var x2, y2 := x.rest.rest, y.rest.rest;
    assert CompareKeys(x.rest, y.rest) == CompareReal(x.rest.head, y.rest.head).Then(CompareKeys(x2, y2));
    assert CompareKeys(x2, y2) == CompareReal(x2.head, y2.head).Then(CompareKeys(x2.rest, y2.rest));
    var x4, y4 := x2.rest.rest, y2.rest.rest;
    assert CompareKeys(x2.rest, y2.rest) == CompareReal(x2.rest.head, y2.rest.head).Then(CompareKeys(x4, y4));
    assert CompareKeys(x4, y4) == CompareReal(x4.head, y4.head).Then(CompareKeys(x4.rest, y4.rest));
    assert CompareKeys(x4.rest, y4.rest) == CompareReal(x4.rest.head, y4.rest.head).Then(CompareKeys(End, End));
  }

  function Before(cfg: Config): (Candidate, Candidate) -> bool { (a, b) => Compare(cfg, a, b) != Greater }

  lemma TextOrder(a: Text, b: Text, c: Text)
    ensures CompareText(b, a) == CompareText(a, b).Reverse()
    ensures CompareText(a, b) == Equal <==> a == b
    ensures CompareText(a, b) == Less && CompareText(b, c) == Less ==> CompareText(a, c) == Less
  {
    LexTotal(a, b);
    LexTotal(b, c);
    LexTotal(a, c);
    if LexLeq(a, b) && LexLeq(b, c) { LexTransitive(a, b, c); }
  }

  lemma CompareOrder(cfg: Config, a: Candidate, b: Candidate, c: Candidate)
    ensures Compare(cfg, b, a) == Compare(cfg, a, b).Reverse()
    ensures Compare(cfg, a, b) == Equal ==> a.chunk.chunkId == b.chunk.chunkId
    ensures Compare(cfg, a, b) != Greater && Compare(cfg, b, c) != Greater ==> Compare(cfg, a, c) != Greater
  {
    hide Compare, KeyOf, CompareKeys, CompareText;
    CompareIsKeyOrder(cfg, a, b);
    CompareIsKeyOrder(cfg, b, a);
    CompareIsKeyOrder(cfg, b, c);
    CompareIsKeyOrder(cfg, a, c);
    KeyOrder(KeyOf(cfg, a), KeyOf(cfg, b), KeyOf(cfg, c));
    KeyOrder(KeyOf(cfg, b), KeyOf(cfg, c), KeyOf(cfg, a));
    TextOrder(a.chunk.chunkId, b.chunk.chunkId, c.chunk.chunkId);
    TextOrder(b.chunk.chunkId, c.chunk.chunkId, a.chunk.chunkId);
  }

  /** The comparator orders all candidates, and ties only candidates of one chunk id. */
  lemma ComparatorIsTotalOrder(cfg: Config)
    ensures TotalPreorder(Before(cfg))
    ensures forall a, b :: Before(cfg)(a, b) && Before(cfg)(b, a) ==> a.chunk.chunkId == b.chunk.chunkId
  {
    hide Compare;
    forall a, b, c
      ensures Before(cfg)(a, b) || Before(cfg)(b, a)
      ensures Before(cfg)(a, b) && Before(cfg)(b, a) ==> a.chunk.chunkId == b.chunk.chunkId
      ensures Before(cfg)(a, b) && Before(cfg)(b, c) ==> Before(cfg)(a, c)
    {
      CompareOrder(cfg, a, b, c);
    }
  }
}
