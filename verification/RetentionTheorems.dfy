/** What per-facet retention guarantees. */
module RetentionTheorems {
  import opened Bytes
  import opened Text
  import opened Sorting
  import opened TextSets
  import opened Investigation
  import opened Completeness
  import opened RankedRows
  import opened Retention
  import opened Standing

  // ---------- The rows of a facet ----------

  /** The scored candidates that a facet accepts, in order. */
  function Matching(f: FacetRequirement, cs: seq<FacetCandidate>): seq<FacetCandidate> {
    if cs == [] then []
    else
      var n := |cs| - 1;
      Matching(f, cs[..n]) + (if Scored(cs[n]) && Fits(f, cs[n].evidence) then [cs[n]] else [])
  }

  lemma {:induction false} MatchingFacts(f: FacetRequirement, cs: seq<FacetCandidate>, x: FacetCandidate)
    ensures x in Matching(f, cs) <==> x in cs && Scored(x) && Fits(f, x.evidence)
  {
    if cs != [] {
      var n := |cs| - 1;
      MatchingFacts(f, cs[..n], x);
      assert cs == cs[..n] + [cs[n]];
    }
  }

  ghost predicate OneFacet(facets: seq<FacetRequirement>, k: nat) {
    k < |facets| && forall i :: 0 <= i < |facets| && i != k ==> facets[i].id != facets[k].id
  }

  lemma {:induction false} RowsOfOneFacet(facets: seq<FacetRequirement>, c: FacetCandidate, k: nat)
    requires OneFacet(facets, k)
    ensures RowsOfOne(facets, c, facets[k].id) == if Scored(c) && Fits(facets[k], c.evidence) then [c] else []
  {
    hide Fits, Scored;
    var n := |facets| - 1;
    if k < n {
      RowsOfOneFacet(facets[..n], c, k);
    } else {
      assert forall i :: 0 <= i < n ==> facets[..n][i].id != facets[k].id;
      if RowsOfOne(facets[..n], c, facets[k].id) != [] { RowsOfOneName(facets[..n], c, facets[k].id); }
    }
  }

  lemma {:induction false} RowsAreMatching(facets: seq<FacetRequirement>, cs: seq<FacetCandidate>, k: nat)
    requires OneFacet(facets, k)
    ensures Rows(facets, cs, facets[k].id) == Matching(facets[k], cs)
  {
    hide RowsOfOne, Fits, Scored;
    if cs != [] {
      var n := |cs| - 1;
      RowsAreMatching(facets, cs[..n], k);
      RowsOfOneFacet(facets, cs[n], k);
    }
  }

  /** Under a valid contract the rows of a facet are its own matching candidates. */
  lemma ContractRows(c: Contract, cs: seq<FacetCandidate>, id: Text)
    requires Valid(c)
    ensures Rows(Values(c.facets), cs, id) == if id in c.facets then Matching(c.facets[id], cs) else []
  {
    hide Rows, RowsOfOne, Matching, Valid, InOrder;
    ValidKeys(c);
    KeysListed(c.facets);
    var keys, facets := InOrder(c.facets.Keys), Values(c.facets);
    if id in c.facets {
      assert id in Elements(keys);
      var k :| 0 <= k < |keys| && keys[k] == id;
      forall i | 0 <= i < |facets| && i != k ensures facets[i].id != facets[k].id {
        AscendingOrder(keys, if i < k then i else k, if i < k then k else i);
      }
      RowsAreMatching(facets, cs, k);
    } else {
      assert forall i :: 0 <= i < |facets| ==> facets[i].id == keys[i] && keys[i] in c.facets;
      RowIdsAreFacetIds(facets, cs);
    }
  }

  // ---------- The whole result ----------

  ghost function Kept(c: Contract, cs: seq<FacetCandidate>, quota: nat, id: Text): seq<FacetCandidate>
    requires id in c.facets
  {
    Best(Matching(c.facets[id], cs), quota)
  }

  lemma {:induction false} ConcatMembers(
    facets: seq<FacetRequirement>, cs: seq<FacetCandidate>, quota: nat, ids: seq<Text>, r: Retained)
    ensures r in Concat(facets, cs, quota, ids)
       <==> r.facetId in ids && r in Numbered(r.facetId, Best(Rows(facets, cs, r.facetId), quota))
  {
    hide Best, Rows;
    if ids != [] {
      var n := |ids| - 1;
      ConcatMembers(facets, cs, quota, ids[..n], r);
      assert ids == ids[..n] + [ids[n]];
    }
  }

  /** The retained rows are exactly, for every facet, its kept candidates ranked from 1. */
  lemma RetentionFacts(c: Contract, cs: seq<FacetCandidate>, quota: nat, r: Retained)
    requires Valid(c)
    ensures r in RetainedRows(c, cs, quota)
       <==> && r.facetId in c.facets && 1 <= r.rank <= |Kept(c, cs, quota, r.facetId)|
            && r.candidate == Kept(c, cs, quota, r.facetId)[r.rank - 1]
  {
    hide Rows, Matching, Valid, Best, Concat;
    var facets := Values(c.facets);
    ContractRows(c, cs, r.facetId);
    BestFacts(Rows(facets, cs, r.facetId), quota);
    var ids := InOrder(RowIds(facets, cs));
    ConcatMembers(facets, cs, quota, ids, r);
    assert r.facetId in ids <==> r.facetId in Elements(ids);
    var rows := Numbered(r.facetId, Best(Rows(facets, cs, r.facetId), quota));
    if 1 <= r.rank <= |rows| { assert rows[r.rank - 1] in rows; }
  }

  /** A quota is accepted from 1 to 4; and so no facet keeps more than four rows. */
  lemma QuotaBounds(c: Contract, cs: seq<FacetCandidate>, value: nat, r: Retained)
    requires Valid(c)
    ensures NewQuota(value) == Some(value) <==> 1 <= value <= 4
    ensures NewQuota(value).Some? && r in RetainedRows(c, cs, value) ==> 1 <= r.rank <= 4
  {
    hide Valid, RetainedRows, Matching, Best;
    RetentionFacts(c, cs, value, r);
    if r.facetId in c.facets { BestFacts(Matching(c.facets[r.facetId], cs), value); }
  }

  // A scored candidate of the facet's repository and stage, at its revision if it names one.
  ghost predicate Eligible(f: FacetRequirement, x: FacetCandidate) {
    && x.retrieval != NonFinite && x.rerank != Some(NonFinite)
    && x.evidence.repository == f.repository && x.evidence.stage == f.stage
    && (f.era == Any || f.era == Exact(x.evidence.revision))
  }

  // The score that decides: the rerank score if there is one, else the retrieval score.
  ghost predicate Decides(x: FacetCandidate, score: real) {
    match x.rerank
    case Some(rerank) => rerank == Finite(score)
    case None => x.retrieval == Finite(score)
  }

  /** What is retained for a facet is an eligible candidate. */
  lemma RetainedIsEligible(c: Contract, cs: seq<FacetCandidate>, quota: nat, r: Retained)
    requires Valid(c) && r in RetainedRows(c, cs, quota)
    ensures r.facetId in c.facets && r.candidate in cs && Eligible(c.facets[r.facetId], r.candidate)
  {
    hide Valid, RetainedRows, Matching, Best, Scored, Fits, RowLeq;
    RetentionFacts(c, cs, quota, r);
    BestFacts(Matching(c.facets[r.facetId], cs), quota);
    assert r.candidate in Kept(c, cs, quota, r.facetId);
    MatchingFacts(c.facets[r.facetId], cs, r.candidate);
    EligibleIff(c.facets[r.facetId], r.candidate);
  }

  /** Of two candidates retained for one facet the better ranked has the higher deciding score; or
      an equal one and the higher retrieval score; or both equal and the smaller id. */
  lemma BetterScoreRanksHigher(
    c: Contract, cs: seq<FacetCandidate>, quota: nat, r: Retained, q: Retained, x: real, y: real, u: real, v: real)
    requires Valid(c) && r in RetainedRows(c, cs, quota) && q in RetainedRows(c, cs, quota)
    requires r.facetId == q.facetId && r.rank < q.rank
    requires Decides(r.candidate, x) && Decides(q.candidate, y)
    requires r.candidate.retrieval == Finite(u) && q.candidate.retrieval == Finite(v)
    ensures x > y || (x == y && (u > v || (u == v && LexLeq(r.candidate.evidence.id, q.candidate.evidence.id))))
  {
    hide Valid, RetainedRows, Matching, Best, Scored, Fits, RowLeq;
    RetentionFacts(c, cs, quota, r);
    RetentionFacts(c, cs, quota, q);
    BestFacts(Matching(c.facets[r.facetId], cs), quota);
    RowOrderMeaning(r.candidate, q.candidate, x, y, u, v);
  }

  /** The candidates that compete in a facet are exactly the eligible ones. */
  lemma EligibleIff(f: FacetRequirement, x: FacetCandidate)
    ensures Scored(x) && Fits(f, x.evidence) <==> Eligible(f, x)
  {
  }

  lemma RowOrderMeaning(a: FacetCandidate, b: FacetCandidate, x: real, y: real, u: real, v: real)
    requires Decides(a, x) && Decides(b, y) && a.retrieval == Finite(u) && b.retrieval == Finite(v)
    ensures RowLeq(a, b) <==> x > y || (x == y && (u > v || (u == v && LexLeq(a.evidence.id, b.evidence.id))))
  {
  }

  /** Each facet's rows depend only on its own matching candidates. */
  lemma FacetsAreIndependent(c: Contract, cs: seq<FacetCandidate>, ds: seq<FacetCandidate>, quota: nat, r: Retained)
    requires Valid(c)
        && (r.facetId in c.facets ==> Matching(c.facets[r.facetId], cs) == Matching(c.facets[r.facetId], ds))
    ensures r in RetainedRows(c, cs, quota) <==> r in RetainedRows(c, ds, quota)
  {
    hide RetainedRows, Best, Valid;
    RetentionFacts(c, cs, quota, r);
    RetentionFacts(c, ds, quota, r);
  }

  // One row comes before another in the output: by facet id, then by rank.
  predicate RowBefore(a: Retained, b: Retained) {
    LexLess(a.facetId, b.facetId) || (a.facetId == b.facetId && a.rank < b.rank)
  }

  lemma {:induction false} ConcatOrdered(
    facets: seq<FacetRequirement>, cs: seq<FacetCandidate>, quota: nat, ids: seq<Text>)
    requires Ascending(ids)
    ensures var out := Concat(facets, cs, quota, ids); forall i, j :: 0 <= i < j < |out| ==> RowBefore(out[i], out[j])
  {
    hide Best, Rows, LexLeq;
    if ids != [] {
      var n := |ids| - 1;
      ConcatOrdered(facets, cs, quota, ids[..n]);
      var before, last := Concat(facets, cs, quota, ids[..n]), Numbered(ids[n], Best(Rows(facets, cs, ids[n]), quota));
      forall i, j | 0 <= i < |before| && 0 <= j < |last| ensures RowBefore(before[i], last[j]) {
        ConcatMembers(facets, cs, quota, ids[..n], before[i]);
        var k :| 0 <= k < n && ids[k] == before[i].facetId;
        AscendingOrder(ids, k, n);
      }
    }
  }

  /** The rows are grouped by ascending facet id, each group by ascending rank; so no row
      appears twice. */
  lemma RetentionOrdered(c: Contract, cs: seq<FacetCandidate>, quota: nat)
    ensures var out := RetainedRows(c, cs, quota);
            && (forall i, j :: 0 <= i < j < |out| ==> RowBefore(out[i], out[j]))
            && NoDuplicates(out)
  {
    hide Rows, Concat, InOrder, LexLeq;
    var facets := Values(c.facets);
    ConcatOrdered(facets, cs, quota, InOrder(RowIds(facets, cs)));
    var out := RetainedRows(c, cs, quota);
    assert out == Concat(facets, cs, quota, InOrder(RowIds(facets, cs)));
    assert forall i, j :: 0 <= i < j < |out| ==> RowBefore(out[i], out[j]) && out[i] != out[j];
  }

  /** No facet lists an evidence id twice, exactly when in no facet two rows of one id lead
      within the quota; in particular when in no facet a row of another id lies between two of
      one id. */
  lemma OneRowPerId(c: Contract, cs: seq<FacetCandidate>, quota: nat)
    requires Valid(c)
    ensures IdsUnrepeated(RetainedRows(c, cs, quota))
       <==> forall g :: g in c.facets ==> !RepeatsWithin(Matching(c.facets[g], cs), quota)
    ensures (forall g :: g in c.facets ==> !Interrupted(Matching(c.facets[g], cs))) ==>
              IdsUnrepeated(RetainedRows(c, cs, quota))
  {
    hide Valid, RetainedRows, Best, Matching, RepeatsWithin, Interrupted;
    var out := RetainedRows(c, cs, quota);
    forall g | g in c.facets
      ensures !RepeatsWithin(Matching(c.facets[g], cs), quota) <==> DistinctRowIds(Kept(c, cs, quota, g))
      ensures !Interrupted(Matching(c.facets[g], cs)) ==> DistinctRowIds(Kept(c, cs, quota, g))
    {
      BestDistinctIff(Matching(c.facets[g], cs), quota);
      RankedDistinctIff(Matching(c.facets[g], cs));
    }
    if forall g :: g in c.facets ==> DistinctRowIds(Kept(c, cs, quota, g)) {
      forall r, q | r in out && q in out && SameEntry(r, q) ensures r == q {
        RetentionFacts(c, cs, quota, r);
        RetentionFacts(c, cs, quota, q);
      }
    }
    if IdsUnrepeated(out) {
      forall g | g in c.facets ensures DistinctRowIds(Kept(c, cs, quota, g)) { UnrepeatedInFacet(c, cs, quota, g); }
    }
  }

  // The same evidence id in the same facet.
  predicate SameEntry(r: Retained, q: Retained) {
    r.facetId == q.facetId && r.candidate.evidence.id == q.candidate.evidence.id
  }

  ghost predicate IdsUnrepeated(out: seq<Retained>) {
    forall r, q :: r in out && q in out && SameEntry(r, q) ==> r == q
  }

  lemma UnrepeatedInFacet(c: Contract, cs: seq<FacetCandidate>, quota: nat, g: Text)
    requires Valid(c) && g in c.facets && IdsUnrepeated(RetainedRows(c, cs, quota))
    ensures DistinctRowIds(Kept(c, cs, quota, g))
  {
    hide Valid, RetainedRows, Best, Matching;
    var kept := Kept(c, cs, quota, g);
    forall i, j | 0 <= i < j < |kept| ensures kept[i].evidence.id != kept[j].evidence.id {
      var r, q := Retained(g, i + 1, kept[i]), Retained(g, j + 1, kept[j]);
      RetentionFacts(c, cs, quota, r);
      RetentionFacts(c, cs, quota, q);
      assert r in RetainedRows(c, cs, quota) && q in RetainedRows(c, cs, quota) && r != q;
    }
  }

  // ---------- The audit before and after ----------

  function CandidateEvidence(x: FacetCandidate): Evidence { x.evidence }

  function RetainedEvidence(r: Retained): Evidence { r.candidate.evidence }

  lemma SupportedBy(c: Contract, evidence: seq<Evidence>, id: Text)
    requires Valid(c)
    ensures IsSupported(c, evidence, id)
       <==> id in c.facets && exists i :: 0 <= i < |evidence| && Usable(evidence[i]) && Fits(c.facets[id], evidence[i])
  {
    ValidKeys(c);
    hide Valid, Usable;
    if id in c.facets && exists i :: 0 <= i < |evidence| && Usable(evidence[i]) && Fits(c.facets[id], evidence[i]) {
      var i :| 0 <= i < |evidence| && Usable(evidence[i]) && Fits(c.facets[id], evidence[i]);
      assert Qualifies(c.facets[id], evidence[i]);
      assert id in Matched(c, evidence[i]);
    }
  }

  // A usable candidate of some facet, accepted by this facet too, leads within the quota.
  ghost predicate StandingSupport(c: Contract, cs: seq<FacetCandidate>, quota: nat, id: Text) {
    id in c.facets && exists g, j: nat ::
      g in c.facets && Supports(c.facets[id], Matching(c.facets[g], cs), quota, j)
  }

  predicate Supports(f: FacetRequirement, rows: seq<FacetCandidate>, quota: nat, j: nat) {
    WithinQuota(rows, quota, j) && Usable(rows[j].evidence) && Fits(f, rows[j].evidence)
  }

  /** After retention a facet is supported exactly when some usable candidate that it accepts
      stands, among the candidates of some facet, with fewer than the quota of leading rows
      before it. */
  lemma SupportAfterRetention(c: Contract, cs: seq<FacetCandidate>, quota: nat, id: Text)
    requires Valid(c)
    ensures IsSupported(c, MapSeq(RetainedEvidence, RetainedRows(c, cs, quota)), id)
        <==> StandingSupport(c, cs, quota, id)
  {
    hide Valid, Usable, RetainedRows, IsSupported, Fits, Best, WithinQuota, Matching;
    var out := RetainedRows(c, cs, quota);
    var after := MapSeq(RetainedEvidence, out);
    SupportedBy(c, after, id);
    if IsSupported(c, after, id) {
      var i :| 0 <= i < |after| && Usable(after[i]) && Fits(c.facets[id], after[i]);
      RetentionFacts(c, cs, quota, out[i]);
      var g := out[i].facetId;
      BestByStanding(Matching(c.facets[g], cs), quota);
      assert out[i].candidate in Kept(c, cs, quota, g);
      var j: nat :| WithinQuota(Matching(c.facets[g], cs), quota, j)
          && Matching(c.facets[g], cs)[j] == out[i].candidate;
      assert Supports(c.facets[id], Matching(c.facets[g], cs), quota, j);
    }
    if StandingSupport(c, cs, quota, id) {
      var g, j: nat :| g in c.facets && Supports(c.facets[id], Matching(c.facets[g], cs), quota, j);
      StandersAreKept(Matching(c.facets[g], cs), quota, j);
      var r := Retained(g, StandingOf(Matching(c.facets[g], cs), j) + 1, Matching(c.facets[g], cs)[j]);
      RetentionFacts(c, cs, quota, r);
      var i :| 0 <= i < |out| && out[i] == r;
      assert after[i] == r.candidate.evidence;
    }
  }

  /** Retention adds no support. */
  lemma RetentionAddsNoSupport(c: Contract, cs: seq<FacetCandidate>, quota: nat, id: Text)
    requires Valid(c) && IsSupported(c, MapSeq(RetainedEvidence, RetainedRows(c, cs, quota)), id)
    ensures IsSupported(c, MapSeq(CandidateEvidence, cs), id)
  {
    hide Valid, Usable, RetainedRows, IsSupported, Fits, Scored;
    var before, out := MapSeq(CandidateEvidence, cs), RetainedRows(c, cs, quota);
    var after := MapSeq(RetainedEvidence, out);
    SupportedBy(c, before, id);
    SupportedBy(c, after, id);
    var i :| 0 <= i < |after| && Usable(after[i]) && Fits(c.facets[id], after[i]);
    RetainedIsCandidate(c, cs, quota, i);
    var j :| 0 <= j < |cs| && cs[j] == out[i].candidate;
    assert before[j] == after[i];
  }

  lemma RetainedIsCandidate(c: Contract, cs: seq<FacetCandidate>, quota: nat, i: nat)
    requires Valid(c) && i < |RetainedRows(c, cs, quota)|
    ensures var x := RetainedRows(c, cs, quota)[i].candidate; x in cs && Scored(x)
  {
    hide Valid, RetainedRows, Matching, Best, Scored, Fits;
    var r := RetainedRows(c, cs, quota)[i];
    RetentionFacts(c, cs, quota, r);
    assert r.candidate in Kept(c, cs, quota, r.facetId);
    BestFacts(Matching(c.facets[r.facetId], cs), quota);
    MatchingFacts(c.facets[r.facetId], cs, r.candidate);
  }

  /** Retention leaves the audit's missing facets as they were exactly when, for every facet
      supported before, some usable candidate that it accepts leads within the quota among the
      candidates of some facet. */
  lemma MissingFacetsKeptIff(c: Contract, cs: seq<FacetCandidate>, quota: nat, rels: seq<EvidenceRelationship>)
    requires Valid(c)
    ensures AuditOf(c, MapSeq(RetainedEvidence, RetainedRows(c, cs, quota)), rels).missingFacets
         == AuditOf(c, MapSeq(CandidateEvidence, cs), rels).missingFacets
       <==> forall id :: IsSupported(c, MapSeq(CandidateEvidence, cs), id) ==> StandingSupport(c, cs, quota, id)
  {
    hide Valid, RetainedRows, IsSupported, StandingSupport, InOrder, AuditOf;
    var before, after := MapSeq(CandidateEvidence, cs), MapSeq(RetainedEvidence, RetainedRows(c, cs, quota));
    forall id ensures IsSupported(c, after, id) <==> StandingSupport(c, cs, quota, id)
      ensures IsSupported(c, after, id) ==> IsSupported(c, before, id)
    {
      SupportAfterRetention(c, cs, quota, id);
      if IsSupported(c, after, id) { RetentionAddsNoSupport(c, cs, quota, id); }
    }
    var s, t := SupportedFacets(c, after), SupportedFacets(c, before);
    SupportedAreFacets(c, before);
    MissingFacetsListed(c, after, rels);
    MissingFacetsListed(c, before, rels);
    if InOrder(c.facets.Keys - s) == InOrder(c.facets.Keys - t) {
      assert Elements(InOrder(c.facets.Keys - s)) == c.facets.Keys - s;
      assert Elements(InOrder(c.facets.Keys - t)) == c.facets.Keys - t;
      forall id | IsSupported(c, before, id) ensures StandingSupport(c, cs, quota, id) {
        assert id in t && id in c.facets.Keys;
        assert id !in c.facets.Keys - t;
        assert id in s;
      }
    } else {
      assert s != t;
    }
  }

  lemma MissingFacetsListed(c: Contract, evidence: seq<Evidence>, rels: seq<EvidenceRelationship>)
    ensures AuditOf(c, evidence, rels).missingFacets == InOrder(c.facets.Keys - SupportedFacets(c, evidence))
  {
    hide IsSupported, Supporters, InOrder, SupportedFacets;
    var qualifying := map f | f in SupportedFacets(c, evidence) :: InOrder(Supporters(c, evidence, f));
    assert AuditOf(c, evidence, rels).missingFacets == InOrder(c.facets.Keys - qualifying.Keys);
    assert qualifying.Keys == SupportedFacets(c, evidence);
  }

  lemma SupportedAreFacets(c: Contract, evidence: seq<Evidence>)
    requires Valid(c)
    ensures forall id :: IsSupported(c, evidence, id) ==> id in c.facets
  {
    hide IsSupported, Valid, Usable, Fits;
    forall id | IsSupported(c, evidence, id) ensures id in c.facets { SupportedBy(c, evidence, id); }
  }

  /** When every candidate is scored and usable, retention leaves the audit's missing facets
      as they were. */
  lemma RetentionKeepsMissingFacets(c: Contract, cs: seq<FacetCandidate>, value: nat, rels: seq<EvidenceRelationship>)
    requires Valid(c) && NewQuota(value).Some?
    requires forall x :: x in cs ==> Scored(x) && Usable(x.evidence)
    ensures AuditOf(c, MapSeq(RetainedEvidence, RetainedRows(c, cs, value)), rels).missingFacets
         == AuditOf(c, MapSeq(CandidateEvidence, cs), rels).missingFacets
  {
    hide Valid, Usable, RetainedRows, IsSupported, Fits, Matching, Best, Scored, InOrder;
    var before, after := MapSeq(CandidateEvidence, cs), MapSeq(RetainedEvidence, RetainedRows(c, cs, value));
    forall id ensures IsSupported(c, after, id) <==> IsSupported(c, before, id) {
      SupportAfterRetention(c, cs, value, id);
      if IsSupported(c, after, id) { RetentionAddsNoSupport(c, cs, value, id); }
      SupportedBy(c, before, id);
      if IsSupported(c, before, id) {
        var i :| 0 <= i < |before| && Usable(before[i]) && Fits(c.facets[id], before[i]);
        assert before[i] == cs[i].evidence && cs[i] in cs;
        MatchingFacts(c.facets[id], cs, cs[i]);
        SomeoneStands(c, cs, value, id);
      }
    }
    assert SupportedFacets(c, after) == SupportedFacets(c, before);
  }

  lemma SomeoneStands(c: Contract, cs: seq<FacetCandidate>, quota: nat, id: Text)
    requires id in c.facets && quota > 0 && Matching(c.facets[id], cs) != []
    requires forall x :: x in cs ==> Usable(x.evidence)
    ensures StandingSupport(c, cs, quota, id)
  {
    hide Usable, Best, WithinQuota, Matching, Fits, Scored;
    var rows := Matching(c.facets[id], cs);
    BestFacts(rows, quota);
    BestByStanding(rows, quota);
    var x := Best(rows, quota)[0];
    assert x in Best(rows, quota);
    var j: nat :| WithinQuota(rows, quota, j) && rows[j] == x;
    MatchingFacts(c.facets[id], cs, x);
    assert Supports(c.facets[id], rows, quota, j);
  }

  /** Without that, a better-scored candidate that supports nothing can displace the one that
      supports a facet, and the facet goes missing. */
  lemma DisplacedFacetGoesMissing(
    c: Contract, id: Text, a: FacetCandidate, b: FacetCandidate, rels: seq<EvidenceRelationship>)
    requires Valid(c) && id in c.facets && Fits(c.facets[id], a.evidence) && Fits(c.facets[id], b.evidence)
    requires Scored(a) && Scored(b) && Score(a).value > Score(b).value
    requires a.evidence.(id := b.evidence.id, path := b.evidence.path, decisive := b.evidence.decisive) == b.evidence
    requires !Usable(a.evidence) && Usable(b.evidence)
    ensures id !in AuditOf(c, MapSeq(CandidateEvidence, [a, b]), rels).missingFacets
    ensures id in AuditOf(c, MapSeq(RetainedEvidence, RetainedRows(c, [a, b], 1)), rels).missingFacets
  {
    hide Valid, Usable, RetainedRows, AuditOf, IsSupported, Kept, Score;
    var before, out := MapSeq(CandidateEvidence, [a, b]), RetainedRows(c, [a, b], 1);
    var after := MapSeq(RetainedEvidence, out);
    MissingFacetFacts(c, before, rels);
    MissingFacetFacts(c, after, rels);
    SupportedBy(c, before, id);
    assert before[1] == b.evidence;
    SupportedBy(c, after, id);
    forall i | 0 <= i < |after| ensures after[i] == a.evidence {
      RetentionFacts(c, [a, b], 1, out[i]);
      OnlyTheBetterIsKept(c, a, b, out[i].facetId);
      assert out[i].candidate in Kept(c, [a, b], 1, out[i].facetId);
    }
  }

  lemma OnlyTheBetterIsKept(c: Contract, a: FacetCandidate, b: FacetCandidate, g: Text)
    requires g in c.facets && Scored(a) && Scored(b) && Score(a).value > Score(b).value
    requires Fits(c.facets[g], a.evidence) <==> Fits(c.facets[g], b.evidence)
    ensures forall x :: x in Kept(c, [a, b], 1, g) ==> x == a
  {
    var f := c.facets[g];
    assert [a, b][..1] == [a] && [a][..0] == [];
    assert Matching(f, [a]) == if Fits(f, a.evidence) then [a] else [];
    var m := Matching(f, [a, b]);
    assert m == if Fits(f, a.evidence) then [a, b] else [];
    if m == [a, b] {
      SortBySorted(RowLeq, m);
      assert m[..1] == [a] && DedupById([a]) == [a];
      assert Ranked(m) == if a.evidence.id == b.evidence.id then [a] else [a] + [b];
      assert Best(m, 1) == [a];
    } else {
      BestFacts(m, 1);
    }
  }
}
