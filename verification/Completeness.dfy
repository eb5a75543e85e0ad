/** What the audit guarantees: its report characterised fact by fact, its monotonicity,
    and that extending a contract never makes completion or answering easier. */
module Completeness {
  import opened Bytes
  import opened Text
  import opened Sorting
  import opened TextSets
  import opened Investigation

  // ---------- The report, fact by fact ----------

  ghost predicate CoveredBy(
    c: Contract, evidence: seq<Evidence>, rels: seq<EvidenceRelationship>, r: RelationshipRequirement)
  {
    exists i :: 0 <= i < |rels| && rels[i].kind == r.kind
      && rels[i].fromEvidence in Supporters(c, evidence, r.fromFacet)
      && rels[i].toEvidence in Supporters(c, evidence, r.toFacet)
  }

  // A decisive item with a path, of the facet's repository and stage, at its revision if it names one.
  ghost predicate Answers(f: FacetRequirement, e: Evidence) {
    && e.decisive && !Blank(e.path) && e.repository == f.repository && e.stage == f.stage
    && (f.era == Any || f.era == Exact(e.revision))
  }

  lemma AnswersIff(f: FacetRequirement)
    ensures forall e :: Qualifies(f, e) <==> Answers(f, e)
  {
    hide Blank;
  }

  /** A facet of a valid contract is supported exactly when some item answers it. */
  lemma SupportedIff(c: Contract, evidence: seq<Evidence>, f: Text)
    requires Valid(c)
    ensures IsSupported(c, evidence, f)
       <==> f in c.facets && exists i :: 0 <= i < |evidence| && Answers(c.facets[f], evidence[i])
    ensures forall id :: id in Supporters(c, evidence, f) <==>
              && f in c.facets
              && exists i :: 0 <= i < |evidence| && evidence[i].id == id && Answers(c.facets[f], evidence[i])
  {
    ValidKeys(c);
    hide Valid, Blank;
    forall i | 0 <= i < |evidence|
      ensures f in Matched(c, evidence[i]) <==> f in c.facets && Answers(c.facets[f], evidence[i])
    {
      MatchedIff(c, evidence[i], f);
    }
    hide Matched, Answers;
  }

  lemma MatchedIff(c: Contract, e: Evidence, f: Text)
    requires forall k :: k in c.facets ==> c.facets[k].id == k
    ensures f in Matched(c, e) <==> f in c.facets && Answers(c.facets[f], e)
  {
    hide Blank;
    if f in c.facets { assert Qualifies(c.facets[f], e) <==> Answers(c.facets[f], e); }
  }

  lemma QualifyingFacts(c: Contract, evidence: seq<Evidence>, rels: seq<EvidenceRelationship>, f: Text)
    ensures var a := AuditOf(c, evidence, rels);
            && (f in a.qualifying <==> IsSupported(c, evidence, f))
            && (f in a.qualifying ==> Elements(a.qualifying[f]) == Supporters(c, evidence, f))
  {
    hide Supporters, IsSupported;
  }

  lemma MissingFacetFacts(c: Contract, evidence: seq<Evidence>, rels: seq<EvidenceRelationship>)
    ensures var a := AuditOf(c, evidence, rels);
            forall f :: f in a.missingFacets <==> f in c.facets && !IsSupported(c, evidence, f)
  {
    hide Supporters, IsSupported;
    var a := AuditOf(c, evidence, rels);
    forall f ensures f in a.missingFacets <==> f in c.facets && !IsSupported(c, evidence, f) {
      assert f in a.missingFacets <==> f in Elements(a.missingFacets);
    }
  }

  lemma {:induction false} UncoveredFacts(
    rs: map<Text, RelationshipRequirement>, keys: seq<Text>, qualifying: map<Text, seq<Text>>,
    rels: seq<EvidenceRelationship>, x: Text)
    requires forall i :: 0 <= i < |keys| ==> keys[i] in rs
    requires forall k :: k in rs ==> rs[k].id == k
    ensures x in Uncovered(rs, keys, qualifying, rels) <==> x in keys && !Covered(rs[x], qualifying, rels)
  {
    hide Covered;
    if keys != [] {
      var n := |keys| - 1;
      UncoveredFacts(rs, keys[..n], qualifying, rels, x);
      assert keys == keys[..n] + [keys[n]];
    }
  }

  lemma CoveredFacts(c: Contract, evidence: seq<Evidence>, rels: seq<EvidenceRelationship>, r: RelationshipRequirement)
    ensures Covered(r, AuditOf(c, evidence, rels).qualifying, rels) <==> CoveredBy(c, evidence, rels, r)
  {
    QualifyingFacts(c, evidence, rels, r.fromFacet);
    QualifyingFacts(c, evidence, rels, r.toFacet);
    var q := AuditOf(c, evidence, rels).qualifying;
    hide AuditOf, Matched;
    SupportersSupport(c, evidence, r.fromFacet);
    SupportersSupport(c, evidence, r.toFacet);
    assert r.fromFacet in q ==> forall x :: x in q[r.fromFacet] <==> x in Elements(q[r.fromFacet]);
    assert r.toFacet in q ==> forall x :: x in q[r.toFacet] <==> x in Elements(q[r.toFacet]);
  }

  lemma SupportersSupport(c: Contract, evidence: seq<Evidence>, f: Text)
    ensures IsSupported(c, evidence, f) <==> Supporters(c, evidence, f) != {}
  {
    hide Matched;
    if IsSupported(c, evidence, f) {
      var i :| 0 <= i < |evidence| && f in Matched(c, evidence[i]);
      assert evidence[i].id in Supporters(c, evidence, f);
    }
  }

  lemma MissingRelationshipFacts(c: Contract, evidence: seq<Evidence>, rels: seq<EvidenceRelationship>)
    requires Valid(c)
    ensures var a := AuditOf(c, evidence, rels);
            forall k :: k in a.missingRelationships
                <==> k in c.relationships && !CoveredBy(c, evidence, rels, c.relationships[k])
  {
    var a := AuditOf(c, evidence, rels);
    ValidKeys(c);
    KeysListed(c.relationships);
    var keys := InOrder(c.relationships.Keys);
    forall k
      ensures k in a.missingRelationships
          <==> k in c.relationships && !CoveredBy(c, evidence, rels, c.relationships[k])
    {
      hide CoveredBy, Covered;
      UncoveredFacts(c.relationships, keys, a.qualifying, rels, k);
      assert k in keys <==> k in Elements(keys);
      if k in c.relationships { CoveredFacts(c, evidence, rels, c.relationships[k]); }
    }
  }

  lemma ValidKeys(c: Contract)
    requires Valid(c)
    ensures forall k :: k in c.facets ==> c.facets[k].id == k
    ensures forall k :: k in c.relationships ==> c.relationships[k].id == k
    ensures forall k :: k in c.relationships ==>
              c.relationships[k].fromFacet in c.facets && c.relationships[k].toFacet in c.facets
  {
    hide Blank;
    forall k | k in c.facets ensures c.facets[k].id == k { assert FacetWellFormed(k, c.facets[k]); }
    forall k | k in c.relationships
      ensures c.relationships[k].id == k && c.relationships[k].fromFacet in c.facets
          && c.relationships[k].toFacet in c.facets
    {
      assert RelationshipWellFormed(c.facets, k, c.relationships[k]);
    }
  }

  lemma CompleteMeansNothingMissing(c: Contract, evidence: seq<Evidence>, rels: seq<EvidenceRelationship>)
    ensures var a := AuditOf(c, evidence, rels);
            a.complete <==> a.missingFacets == [] && a.missingRelationships == []
  {
  }

  /** Coverage is complete exactly when every facet has support and every relationship is covered. */
  lemma CompleteIff(c: Contract, evidence: seq<Evidence>, rels: seq<EvidenceRelationship>)
    requires Valid(c)
    ensures AuditOf(c, evidence, rels).complete
       <==> && (forall f :: f in c.facets ==> IsSupported(c, evidence, f))
            && (forall k :: k in c.relationships ==> CoveredBy(c, evidence, rels, c.relationships[k]))
  {
    hide CoveredBy, IsSupported, AuditOf;
    MissingFacetFacts(c, evidence, rels);
    MissingRelationshipFacts(c, evidence, rels);
    CompleteMeansNothingMissing(c, evidence, rels);
    var a := AuditOf(c, evidence, rels);
    assert a.missingFacets == [] <==> forall f :: f in c.facets ==> f !in a.missingFacets by {
      if a.missingFacets != [] { assert a.missingFacets[0] in a.missingFacets; }
    }
    assert a.missingRelationships == [] <==> forall k :: k in c.relationships ==> k !in a.missingRelationships by {
      if a.missingRelationships != [] { assert a.missingRelationships[0] in a.missingRelationships; }
    }
  }

  // ---------- Rejected evidence ----------

  // Why an item counts for nothing: the first of repository, stage and era that no facet shares with it.
  predicate Rejects(c: Contract, e: Evidence, reason: Reason) {
    match reason
    case Adjacent => !e.decisive || Blank(e.path)
    case WrongRepository =>
      e.decisive && !Blank(e.path) && forall k | k in c.facets :: c.facets[k].repository != e.repository
    case WrongStage =>
      && e.decisive && !Blank(e.path)
      && (exists k | k in c.facets :: c.facets[k].repository == e.repository)
      && (forall k | k in c.facets :: c.facets[k].repository == e.repository ==> c.facets[k].stage != e.stage)
    case WrongEra =>
      && e.decisive && !Blank(e.path)
      && (exists k | k in c.facets :: c.facets[k].repository == e.repository && c.facets[k].stage == e.stage)
      && (forall k | k in c.facets :: c.facets[k].repository == e.repository && c.facets[k].stage == e.stage ==>
            c.facets[k].era != Any && c.facets[k].era != Exact(e.revision))
  }

  lemma RejectionMeaning(c: Contract, e: Evidence, reason: Reason)
    ensures RejectionOf(c, e) == Some(Rejection(e.id, reason)) <==> Rejects(c, e, reason)
    ensures RejectionOf(c, e).None? <==> Matched(c, e) != {}
  {
    hide Blank;
    assert forall k :: k in c.facets && Qualifies(c.facets[k], e) ==> c.facets[k].id in Matched(c, e);
    if Matched(c, e) != {} {
      var f :| f in Matched(c, e);
      var k :| k in c.facets && Qualifies(c.facets[k], e) && c.facets[k].id == f;
    }
  }

  lemma {:induction false} RejectionsFacts(c: Contract, evidence: seq<Evidence>, r: Rejection)
    ensures r in Rejections(c, evidence) <==> exists i :: 0 <= i < |evidence| && RejectionOf(c, evidence[i]) == Some(r)
  {
    hide RejectionOf;
    if evidence != [] {
      var n := |evidence| - 1;
      RejectionsFacts(c, evidence[..n], r);
      assert forall i :: 0 <= i < n ==> evidence[..n][i] == evidence[i];
    }
  }

  // By id, then in the order wrong repository, wrong stage, wrong era, adjacent.
  ghost predicate RejectionBefore(a: Rejection, b: Rejection) {
    || LexLess(a.evidenceId, b.evidenceId)
    || (&& a.evidenceId == b.evidenceId
        && (|| a.reason == b.reason || a.reason == WrongRepository || b.reason == Adjacent
            || (a.reason == WrongStage && b.reason == WrongEra)))
  }

  lemma RejectionLeqMeaning(a: Rejection, b: Rejection)
    ensures RejectionLeq(a, b) <==> RejectionBefore(a, b)
  {
  }

  /** The audit lists a rejection exactly when an item of that id counts for nothing, for
      exactly that reason; in order of ids and reasons; and an item is rejected exactly when it
      supports no facet. */
  lemma RejectedFacts(c: Contract, evidence: seq<Evidence>, rels: seq<EvidenceRelationship>, r: Rejection)
    ensures var rejected := AuditOf(c, evidence, rels).rejected;
            && (r in rejected <==>
                  exists i :: 0 <= i < |evidence| && evidence[i].id == r.evidenceId
                    && Rejects(c, evidence[i], r.reason))
            && (forall i, j :: 0 <= i < j < |rejected| ==> RejectionBefore(rejected[i], rejected[j]))
            && (forall i :: 0 <= i < |evidence| ==>
                  ((exists reason :: Rejects(c, evidence[i], reason)) <==> Matched(c, evidence[i]) == {}))
  {
    var rows := Rejections(c, evidence);
    SortByPermutes(RejectionLeq, rows);
    RejectionOrder();
    SortBySorts(RejectionLeq, rows);
    hide Rejects, RejectionOf, Rejections, Matched, RejectionLeq, RejectionBefore;
    var rejected := AuditOf(c, evidence, rels).rejected;
    forall i, j | 0 <= i < j < |rejected| ensures RejectionBefore(rejected[i], rejected[j]) {
      RejectionLeqMeaning(rejected[i], rejected[j]);
    }
    assert r in AuditOf(c, evidence, rels).rejected <==> r in rows by {
      assert r in multiset(SortBy(RejectionLeq, rows)) <==> r in multiset(rows);
    }
    RejectionsFacts(c, evidence, r);
    forall i | 0 <= i < |evidence|
      ensures RejectionOf(c, evidence[i]) == Some(r)
          <==> evidence[i].id == r.evidenceId && Rejects(c, evidence[i], r.reason)
      ensures (exists reason :: Rejects(c, evidence[i], reason)) <==> Matched(c, evidence[i]) == {}
    {
      RejectedForReason(c, evidence[i], r);
    }
  }

  lemma RejectedForReason(c: Contract, e: Evidence, r: Rejection)
    ensures RejectionOf(c, e) == Some(r) <==> e.id == r.evidenceId && Rejects(c, e, r.reason)
    ensures (exists reason :: Rejects(c, e, reason)) <==> Matched(c, e) == {}
  {
    hide Rejects, Matched;
    forall reason ensures RejectionOf(c, e) == Some(Rejection(e.id, reason)) <==> Rejects(c, e, reason)
      ensures RejectionOf(c, e).None? <==> Matched(c, e) != {}
    {
      RejectionMeaning(c, e, reason);
    }
    assert RejectionOf(c, e).Some? ==> RejectionOf(c, e).value.evidenceId == e.id;
    if RejectionOf(c, e).Some? { assert Rejects(c, e, RejectionOf(c, e).value.reason); }
  }

  lemma RejectionOrder()
    ensures TotalPreorder(RejectionLeq)
  {
    forall a: Rejection, b: Rejection ensures RejectionLeq(a, b) || RejectionLeq(b, a) {
      LexTotal(a.evidenceId, b.evidenceId);
    }
    forall a: Rejection, b: Rejection, c: Rejection | RejectionLeq(a, b) && RejectionLeq(b, c)
      ensures RejectionLeq(a, c)
    {
      if LexLess(a.evidenceId, b.evidenceId) && LexLess(b.evidenceId, c.evidenceId) {
        LexLessTransitive(a.evidenceId, b.evidenceId, c.evidenceId);
      }
    }
  }

  // ---------- More evidence never hurts ----------

  ghost predicate Includes<T(!new)>(more: seq<T>, less: seq<T>) { forall x :: x in less ==> x in more }

  lemma SupportersGrow(c: Contract, evidence: seq<Evidence>, more: seq<Evidence>, f: Text)
    requires Includes(more, evidence)
    ensures Supporters(c, evidence, f) <= Supporters(c, more, f)
  {
    hide Matched;
    forall x | x in Supporters(c, evidence, f) ensures x in Supporters(c, more, f) {
      var i :| 0 <= i < |evidence| && f in Matched(c, evidence[i]) && evidence[i].id == x;
      assert evidence[i] in more;
      var j :| 0 <= j < |more| && more[j] == evidence[i];
    }
  }

  lemma CoverageGrows(
    c: Contract, evidence: seq<Evidence>, more: seq<Evidence>, rels: seq<EvidenceRelationship>,
    moreRels: seq<EvidenceRelationship>,
    r: RelationshipRequirement)
    requires Includes(more, evidence) && Includes(moreRels, rels)
    requires CoveredBy(c, evidence, rels, r)
    ensures CoveredBy(c, more, moreRels, r)
  {
    SupportersGrow(c, evidence, more, r.fromFacet);
    SupportersGrow(c, evidence, more, r.toFacet);
    hide Supporters;
    var i :| 0 <= i < |rels| && rels[i].kind == r.kind
      && rels[i].fromEvidence in Supporters(c, evidence, r.fromFacet)
      && rels[i].toEvidence in Supporters(c, evidence, r.toFacet);
    assert rels[i] in moreRels;
    var j :| 0 <= j < |moreRels| && moreRels[j] == rels[i];
  }

  /** The audit is monotone: with more evidence and relationships, nothing new goes missing. */
  lemma AuditMonotone(
    c: Contract, evidence: seq<Evidence>, more: seq<Evidence>, rels: seq<EvidenceRelationship>,
    moreRels: seq<EvidenceRelationship>)
    requires Valid(c) && Includes(more, evidence) && Includes(moreRels, rels)
    ensures var before, after := AuditOf(c, evidence, rels), AuditOf(c, more, moreRels);
            && Includes(before.missingFacets, after.missingFacets)
            && Includes(before.missingRelationships, after.missingRelationships)
            && (before.complete ==> after.complete)
  {
    hide AuditOf, Valid, CoveredBy, IsSupported;
    forall f | IsSupported(c, evidence, f) ensures IsSupported(c, more, f) {
      SupportersGrow(c, evidence, more, f);
      SupportersSupport(c, evidence, f);
      SupportersSupport(c, more, f);
    }
    forall k | k in c.relationships && CoveredBy(c, evidence, rels, c.relationships[k])
      ensures CoveredBy(c, more, moreRels, c.relationships[k])
    {
      CoverageGrows(c, evidence, more, rels, moreRels, c.relationships[k]);
    }
    MissingFacetFacts(c, evidence, rels);
    MissingFacetFacts(c, more, moreRels);
    MissingRelationshipFacts(c, evidence, rels);
    MissingRelationshipFacts(c, more, moreRels);
    CompleteIff(c, evidence, rels);
    CompleteIff(c, more, moreRels);
  }

  // ---------- Extensions never weaken ----------

  ghost predicate Keeps<K(!new), V>(old_: map<K, V>, new_: map<K, V>) {
    forall k :: k in old_ ==> k in new_ && new_[k] == old_[k]
  }

  /** c1 asks for everything c0 asks for, under the same budget. */
  ghost predicate Strengthens(c1: Contract, c0: Contract) {
    && c1.schema == c0.schema && c1.budget == c0.budget
    && Keeps(c0.facets, c1.facets) && Keeps(c0.relationships, c1.relationships)
  }

  lemma {:induction false} AddFacetsKeeps(m: map<Text, FacetRequirement>, fs: seq<FacetRequirement>)
    requires AddFacets(m, fs).Ok?
    ensures Keeps(m, AddFacets(m, fs).value)
    ensures forall f :: f in fs ==> f.id in AddFacets(m, fs).value && AddFacets(m, fs).value[f.id] == f
    decreases |fs|
  {
    if fs != [] {
      AddFacetsKeeps(InsertUnchangedOrNew(m, fs[0].id, fs[0]).value, fs[1..]);
      assert fs == [fs[0]] + fs[1..];
    }
  }

  lemma {:induction false} AddRelationshipsKeeps(
    facets: map<Text, FacetRequirement>, m: map<Text, RelationshipRequirement>, rs: seq<RelationshipRequirement>)
    requires AddRelationships(facets, m, rs).Ok?
    ensures Keeps(m, AddRelationships(facets, m, rs).value)
    ensures forall r :: r in rs ==>
              r.id in AddRelationships(facets, m, rs).value && AddRelationships(facets, m, rs).value[r.id] == r
    decreases |rs|
  {
    if rs != [] {
      AddRelationshipsKeeps(facets, InsertUnchangedOrNew(m, rs[0].id, rs[0]).value, rs[1..]);
      assert rs == [rs[0]] + rs[1..];
    }
  }

  /** An accepted extension keeps every requirement and the budget, and holds every addition. */
  lemma ExtensionStrengthens(c: Contract, fs: seq<FacetRequirement>, rs: seq<RelationshipRequirement>)
    requires Extended(c, fs, rs).Ok?
    ensures var c' := Extended(c, fs, rs).value;
            && Valid(c) && Valid(c') && Strengthens(c', c)
            && (forall f :: f in fs ==> f.id in c'.facets && c'.facets[f.id] == f)
            && (forall r :: r in rs ==> r.id in c'.relationships && c'.relationships[r.id] == r)
  {
    hide Validate;
    AddFacetsKeeps(c.facets, fs);
    AddRelationshipsKeeps(AddFacets(c.facets, fs).value, c.relationships, rs);
  }

  lemma StrengthensTransitive(c2: Contract, c1: Contract, c0: Contract)
    requires Strengthens(c2, c1) && Strengthens(c1, c0)
    ensures Strengthens(c2, c0)
  {
  }

  /** For a facet of the original contract, both contracts accept the same evidence. */
  lemma SameSupport(c1: Contract, c0: Contract, evidence: seq<Evidence>, f: Text)
    requires Valid(c0) && Valid(c1) && Strengthens(c1, c0) && f in c0.facets
    ensures Supporters(c1, evidence, f) == Supporters(c0, evidence, f)
  {
    ValidKeys(c0);
    ValidKeys(c1);
    hide Valid, Qualifies;
    forall e ensures f in Matched(c1, e) <==> f in Matched(c0, e) {
      assert f in Matched(c1, e) <==> Qualifies(c1.facets[f], e);
      assert f in Matched(c0, e) <==> Qualifies(c0.facets[f], e);
    }
  }

  /** Completeness and answer validity under the stronger contract imply both under the
      original, for the same evidence; and whatever the original misses is still missing. */
  lemma NeverWeakens(
    c1: Contract, c0: Contract, evidence: seq<Evidence>, rels: seq<EvidenceRelationship>, cited: set<Text>)
    requires Valid(c0) && Valid(c1) && Strengthens(c1, c0)
    ensures var a0, a1 := AuditOf(c0, evidence, rels), AuditOf(c1, evidence, rels);
            && Includes(a1.missingFacets, a0.missingFacets)
            && Includes(a1.missingRelationships, a0.missingRelationships)
            && (a1.complete ==> a0.complete)
            && (ValidateAnswer(c1, a1, cited).Ok? ==> ValidateAnswer(c0, a0, cited).Ok?)
  {
    hide AuditOf, Valid, CoveredBy, IsSupported, Supporters, Cites;
    forall f | f in c0.facets ensures IsSupported(c1, evidence, f) <==> IsSupported(c0, evidence, f) {
      SameSupport(c1, c0, evidence, f);
      SupportersSupport(c0, evidence, f);
      SupportersSupport(c1, evidence, f);
    }
    ValidKeys(c0);
    forall k | k in c0.relationships
      ensures CoveredBy(c1, evidence, rels, c0.relationships[k]) <==> CoveredBy(c0, evidence, rels, c0.relationships[k])
    {
      SameCoverage(c1, c0, evidence, rels, c0.relationships[k]);
    }
    MissingFacetFacts(c0, evidence, rels);
    MissingFacetFacts(c1, evidence, rels);
    MissingRelationshipFacts(c0, evidence, rels);
    MissingRelationshipFacts(c1, evidence, rels);
    CompleteIff(c0, evidence, rels);
    CompleteIff(c1, evidence, rels);
    forall f | f in c0.facets
      ensures Cites(AuditOf(c1, evidence, rels), f, cited) <==> Cites(AuditOf(c0, evidence, rels), f, cited)
    {
      SameCitation(c1, c0, evidence, rels, f, cited);
    }
  }

  lemma SameCoverage(
    c1: Contract, c0: Contract, evidence: seq<Evidence>, rels: seq<EvidenceRelationship>, r: RelationshipRequirement)
    requires Valid(c0) && Valid(c1) && Strengthens(c1, c0) && r.fromFacet in c0.facets && r.toFacet in c0.facets
    ensures CoveredBy(c1, evidence, rels, r) <==> CoveredBy(c0, evidence, rels, r)
  {
    hide Valid, Supporters;
    SameSupport(c1, c0, evidence, r.fromFacet);
    SameSupport(c1, c0, evidence, r.toFacet);
  }

  lemma SameCitation(
    c1: Contract, c0: Contract, evidence: seq<Evidence>, rels: seq<EvidenceRelationship>, f: Text, cited: set<Text>)
    requires Valid(c0) && Valid(c1) && Strengthens(c1, c0) && f in c0.facets
    ensures Cites(AuditOf(c1, evidence, rels), f, cited) <==> Cites(AuditOf(c0, evidence, rels), f, cited)
  {
    hide AuditOf, Valid, Supporters, Cites;
    SameSupport(c1, c0, evidence, f);
    CitationFacts(c1, evidence, rels, f, cited);
    CitationFacts(c0, evidence, rels, f, cited);
  }

  lemma CitationFacts(c: Contract, evidence: seq<Evidence>, rels: seq<EvidenceRelationship>, f: Text, cited: set<Text>)
    ensures Cites(AuditOf(c, evidence, rels), f, cited) <==> Supporters(c, evidence, f) * cited != {}
  {
    var a := AuditOf(c, evidence, rels);
    QualifyingFacts(c, evidence, rels, f);
    SupportersSupport(c, evidence, f);
    hide AuditOf, Supporters, IsSupported;
    if Cites(a, f, cited) {
      var id :| id in a.qualifying[f] && id in cited;
      assert id in Elements(a.qualifying[f]);
      assert id in Supporters(c, evidence, f) * cited;
    }
    if Supporters(c, evidence, f) * cited != {} {
      var id :| id in Supporters(c, evidence, f) * cited;
      assert id in Elements(a.qualifying[f]);
    }
  }
}
