/** What a fused score, a candidate's fields and the final order mean, on the two lists. */
module FusionMeaning {
  import opened Bytes
  import opened Corpus
  import opened Text
  import opened Sorting
  import opened Fusion
  import opened Hydration

  // ---------- Scores ----------

  // x is the reciprocal of n.
  ghost predicate Inverse(x: real, n: nat) { x * n as real == 1.0 }

  ghost predicate SumOfInverses(score: real, m: nat, n: nat) {
    exists x, y :: Inverse(x, m) && Inverse(y, n) && score == x + y
  }

  /** A place contributes the reciprocal of the smoothing constant plus its rank from 1, up to the
      32-bit cap on the place, where it stays. */
  lemma RrfMeaning(k: u32, place: nat)
    ensures place <= U32_MAX ==> Inverse(Rrf(k, place), k + place + 1)
    ensures place >= U32_MAX ==> Rrf(k, place) == Rrf(k, U32_MAX)
  {
    if place <= U32_MAX { Reciprocal((k + place + 1) as real); }
  }

  lemma Reciprocal(x: real)
    requires x > 0.0
    ensures 1.0 / x > 0.0 && 1.0 / x * x == 1.0
  {
  }

  lemma LargerHasSmallerReciprocal(x: real, y: real)
    requires 0.0 < x < y
    ensures 1.0 / y < 1.0 / x
  {
    Reciprocal(x);
    Reciprocal(y);
    Cross(1.0 / x, x, 1.0 / y, y);
  }

  lemma Cross(a: real, x: real, b: real, y: real)
    requires a > 0.0 && 0.0 < x < y && a * x == b * y
    ensures b < a
  {
    assert a * (y - x) > 0.0;
    assert (a - b) * y == a * (y - x);
    PositiveFactor(a - b, y);
  }

  lemma PositiveFactor(d: real, y: real)
    requires y > 0.0 && d * y > 0.0
    ensures d > 0.0
  {
  }

  /** Later places contribute less, up to the cap. */
  lemma RrfDecreases(k: u32, place: nat, later: nat)
    requires place < later <= U32_MAX
    ensures Rrf(k, later) < Rrf(k, place)
  {
    LargerHasSmallerReciprocal((k + place + 1) as real, (k + later + 1) as real);
  }

  // The id stands at the place and nowhere else.
  ghost predicate OnlyAt(ids: seq<Text>, id: Text, place: nat) {
    && place < |ids| && ids[place] == id
    && forall i :: 0 <= i < |ids| && ids[i] == id ==> i == place
  }

  lemma {:induction false} ContributionOfOne(k: u32, ids: seq<Text>, id: Text, place: nat)
    requires OnlyAt(ids, id, place)
    ensures Contribution(k, ids, id) == Rrf(k, place) && LastRank(ids, id) == Some(place + 1)
  {
    hide Rrf;
    var n := |ids| - 1;
    assert ids == ids[..n] + [ids[n]];
    if place == n {
      AbsentContributesNothing(k, ids[..n], id);
    } else {
      ContributionOfOne(k, ids[..n], id, place);
    }
  }

  /** A candidate that stands once in one list and in no other scores the reciprocal of the
      smoothing constant plus its rank; one that stands once in each, the sum of the two. */
  lemma ScoreMeaning(
    k: u32, lexical: seq<LexicalCandidate>, semantic: seq<SemanticHit>, chunks: map<Text, Metadata>, id: Text,
    i: nat, j: nat)
    requires id in Joined(k, lexical, semantic, chunks) && i <= U32_MAX && j <= U32_MAX
    ensures var c := Joined(k, lexical, semantic, chunks)[id];
            var lex, sem := MapSeq(LexicalId, lexical), MapSeq(SemanticId, semantic);
            && (OnlyAt(lex, id, i) && (id !in sem || id !in chunks) ==> Inverse(c.score, k + i + 1))
            && (OnlyAt(sem, id, j) && id !in lex ==> Inverse(c.score, k + j + 1))
            && (OnlyAt(lex, id, i) && OnlyAt(sem, id, j) && id in chunks ==>
                  SumOfInverses(c.score, k + i + 1, k + j + 1))
  {
    hide Inverse, Joined, Contribution, LastRank, Rrf;
    JoinedFacts(k, lexical, semantic, chunks, id);
    RrfMeaning(k, i);
    RrfMeaning(k, j);
    var lex, sem := MapSeq(LexicalId, lexical), MapSeq(SemanticId, semantic);
    if OnlyAt(lex, id, i) { ContributionOfOne(k, lex, id, i); }
    if OnlyAt(sem, id, j) { ContributionOfOne(k, sem, id, j); }
    if id !in lex { AbsentContributesNothing(k, lex, id); }
    if id !in sem { AbsentContributesNothing(k, sem, id); }
  }

  // ---------- Fields ----------

  // The hit at the place is the first, and the one at the other place the last, with the id.
  ghost predicate FirstAndLast(ids: seq<Text>, id: Text, first: nat, last: nat) {
    && first <= last < |ids| && ids[first] == ids[last] == id
    && forall i :: 0 <= i < |ids| && ids[i] == id ==> first <= i <= last
  }

  lemma {:induction false} LexicalFields(k: u32, hits: seq<LexicalCandidate>, id: Text, first: nat, last: nat)
    requires FirstAndLast(MapSeq(LexicalId, hits), id, first, last)
    ensures var m := AddLexical(k, hits);
            id in m && m[id].chunk == hits[first].chunk && m[id].lexicalScore == Some(hits[last].score)
              && m[id].similarity == None
  {
    hide Rrf, Contribution, LastRank, ExactHit;
    var n := |hits| - 1;
    var ids := MapSeq(LexicalId, hits[..n]);
    assert forall i :: 0 <= i < n ==> ids[i] == MapSeq(LexicalId, hits)[i];
    LexicalFacts(k, hits[..n], id);
    if first < n {
      var before := LastPlace(ids, id, first);
      LexicalFields(k, hits[..n], id, first, before);
    }
  }

  lemma {:induction false} LastPlace(ids: seq<Text>, id: Text, first: nat) returns (last: nat)
    requires first < |ids| && ids[first] == id && forall i :: 0 <= i < first ==> ids[i] != id
    ensures FirstAndLast(ids, id, first, last)
  {
    var n := |ids| - 1;
    if ids[n] == id {
      last := n;
    } else {
      last := LastPlace(ids[..n], id, first);
    }
  }

  lemma {:induction false} SemanticFields(
    k: u32, m: map<Text, Candidate>, hits: seq<SemanticHit>, chunks: map<Text, Metadata>, id: Text)
    requires id in m ==> m[id].similarity == None && m[id].semanticRank == None
    ensures var m' := AddSemantic(k, m, hits, chunks);
            && (id in m ==> id in m' && m'[id].chunk == m[id].chunk && m'[id].lexicalScore == m[id].lexicalScore)
            && (id in m' && id !in m ==> id in chunks && m'[id].chunk == chunks[id] && m'[id].lexicalScore == None)
            && (id in m' ==>
                  && (m'[id].semanticRank.Some? ==>
                        && 0 < m'[id].semanticRank.value <= |hits|
                        && m'[id].similarity == Some(hits[m'[id].semanticRank.value - 1].similarity))
                  && (m'[id].semanticRank.None? ==> m'[id].similarity == None))
  {
    hide Rrf;
    if hits != [] {
      var n := |hits| - 1;
      SemanticFields(k, m, hits[..n], chunks, id);
      assert forall i :: 0 <= i < n ==> hits[..n][i] == hits[i];
    }
  }

  /** A candidate's metadata is that of its first lexical hit, or of the known chunk; its lexical
      score is that of its last lexical hit, and its similarity that of the semantic hit it is
      ranked by. */
  lemma FieldsMeaning(
    k: u32, lexical: seq<LexicalCandidate>, semantic: seq<SemanticHit>, chunks: map<Text, Metadata>, id: Text,
    first: nat, last: nat)
    requires id in Joined(k, lexical, semantic, chunks)
    ensures var c, lex := Joined(k, lexical, semantic, chunks)[id], MapSeq(LexicalId, lexical);
            && (FirstAndLast(lex, id, first, last) ==>
                  c.chunk == lexical[first].chunk && c.lexicalScore == Some(lexical[last].score))
            && (id !in lex ==> id in chunks && c.chunk == chunks[id] && c.lexicalScore == None)
            && (match c.semanticRank
                case None => c.similarity == None
                case Some(r) => 0 < r <= |semantic| && c.similarity == Some(semantic[r - 1].similarity))
  {
    hide FirstAndLast, LastRank, Contribution;
    var lex := MapSeq(LexicalId, lexical);
    LexicalFacts(k, lexical, id);
    if FirstAndLast(lex, id, first, last) { LexicalFields(k, lexical, id, first, last); }
    NoSimilarity(k, lexical, id);
    SemanticFields(k, AddLexical(k, lexical), semantic, chunks, id);
  }

  lemma {:induction false} NoSimilarity(k: u32, hits: seq<LexicalCandidate>, id: Text)
    ensures id in AddLexical(k, hits) ==> AddLexical(k, hits)[id].similarity == None
  {
    hide Rrf;
    if hits != [] { NoSimilarity(k, hits[..|hits| - 1], id); }
  }

  // ---------- The order ----------

  // One of the first two lexical candidates.
  ghost predicate Floored(c: Candidate) { exists r :: c.lexicalRank == Some(r) && r <= 2 }

  // The lexical rank is better; having none is best.
  ghost predicate RankedAbove(a: Candidate, b: Candidate) {
    b.lexicalRank.Some? && (a.lexicalRank.Some? ==> a.lexicalRank.value < b.lexicalRank.value)
  }

  /** What decides between two candidates: exactness; between exact ones the lexical rank;
      registration; under the lexical floor, being one of the first two lexical candidates, and
      between two of those the lexical rank; the higher score; and last the chunk id. */
  ghost predicate Precedes(cfg: Config, a: Candidate, b: Candidate) {
    if a.exact != b.exact then a.exact
    else if a.exact && a.lexicalRank != b.lexicalRank then RankedAbove(a, b)
    else if a.chunk.registeredId.Some? != b.chunk.registeredId.Some? then a.chunk.registeredId.Some?
    else if cfg.lexicalFloor && Floored(a) != Floored(b) then Floored(a)
    else if cfg.lexicalFloor && Floored(a) && a.lexicalRank != b.lexicalRank then RankedAbove(a, b)
    else if a.score != b.score then a.score > b.score
    else LexLess(a.chunk.chunkId, b.chunk.chunkId)
  }

  lemma CompareMeaning(cfg: Config, a: Candidate, b: Candidate)
    ensures Compare(cfg, a, b) == Less <==> Precedes(cfg, a, b)
  {
    hide LexLeq;
    assert Floored(a) <==> Protected(a);
    assert Floored(b) <==> Protected(b);
  }

  /** The output is in that order. */
  lemma FusedInOrder(
    cfg: Config, lexical: seq<LexicalCandidate>, semantic: seq<SemanticHit>, chunks: map<Text, Metadata>,
    i: nat, j: nat)
    requires KeyedByChunk(chunks) && i < j < |Fused(cfg, lexical, semantic, chunks)|
    ensures Precedes(cfg, Fused(cfg, lexical, semantic, chunks)[i], Fused(cfg, lexical, semantic, chunks)[j])
  {
    FusedFacts(cfg, lexical, semantic, chunks);
    var out := Fused(cfg, lexical, semantic, chunks);
    hide Fused, Joined, Compare, Precedes;
    CompareMeaning(cfg, out[i], out[j]);
  }

  // The id stands in one list only, there once, at the given rank from 1.
  ghost predicate RankedOnce(
    lexical: seq<LexicalCandidate>, semantic: seq<SemanticHit>, chunks: map<Text, Metadata>, id: Text, rank: nat)
  {
    var lex, sem := MapSeq(LexicalId, lexical), MapSeq(SemanticId, semantic);
    && rank > 0
    && (|| (OnlyAt(lex, id, rank - 1) && (id !in sem || id !in chunks))
        || (OnlyAt(sem, id, rank - 1) && id !in lex && id in chunks))
  }

  // Alike in all that is compared before ranks.
  ghost predicate Alike(a: Candidate, b: Candidate) {
    && a.exact == b.exact && a.chunk.registeredId.Some? == b.chunk.registeredId.Some?
    && Floored(a) == Floored(b)
  }

  lemma OnceScored(
    k: u32, lexical: seq<LexicalCandidate>, semantic: seq<SemanticHit>, chunks: map<Text, Metadata>, id: Text,
    rank: nat)
    requires id in Joined(k, lexical, semantic, chunks) && RankedOnce(lexical, semantic, chunks, id, rank)
    ensures var c := Joined(k, lexical, semantic, chunks)[id];
            && c.score == Rrf(k, rank - 1) && (c.exact ==> c.lexicalRank == Some(rank))
            && (c.lexicalRank.Some? ==> c.lexicalRank.value == rank)
  {
    hide Joined, Contribution, LastRank, Rrf;
    JoinedFacts(k, lexical, semantic, chunks, id);
    var lex, sem := MapSeq(LexicalId, lexical), MapSeq(SemanticId, semantic);
    if OnlyAt(lex, id, rank - 1) && (id !in sem || id !in chunks) {
      ContributionOfOne(k, lex, id, rank - 1);
      if id !in sem { AbsentContributesNothing(k, sem, id); }
    } else {
      ContributionOfOne(k, sem, id, rank - 1);
      AbsentContributesNothing(k, lex, id);
      assert ExactHit(lexical, id) ==> id in lex;
    }
  }

  /** Of two outputs alike in exactness, registration and protection, each standing once in one
      list and in no other, the better ranked comes first. */
  lemma BetterRankFirst(
    cfg: Config, lexical: seq<LexicalCandidate>, semantic: seq<SemanticHit>, chunks: map<Text, Metadata>,
    i: nat, j: nat, r: nat, s: nat)
    requires KeyedByChunk(chunks)
    requires var out := Fused(cfg, lexical, semantic, chunks);
             && i < |out| && j < |out| && Alike(out[i], out[j])
             && RankedOnce(lexical, semantic, chunks, out[i].chunk.chunkId, r)
             && RankedOnce(lexical, semantic, chunks, out[j].chunk.chunkId, s)
    requires r < s <= U32_MAX + 1
    ensures i < j
  {
    FusedFacts(cfg, lexical, semantic, chunks);
    var out, m := Fused(cfg, lexical, semantic, chunks), Joined(cfg.rrfK, lexical, semantic, chunks);
    hide Fused, Joined, Compare, Rrf, RankedOnce;
    OnceScored(cfg.rrfK, lexical, semantic, chunks, out[i].chunk.chunkId, r);
    OnceScored(cfg.rrfK, lexical, semantic, chunks, out[j].chunk.chunkId, s);
    RrfDecreases(cfg.rrfK, r - 1, s - 1);
    CompareMeaning(cfg, out[i], out[j]);
    assert Precedes(cfg, out[i], out[j]);
    CompareOrder(cfg, out[i], out[j], out[i]);
  }
}
