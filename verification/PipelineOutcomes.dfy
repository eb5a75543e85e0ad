/** When a run succeeds, and what it then holds. */
module PipelineOutcomes {
  import opened Bytes
  import opened Text
  import opened Sorting
  import opened TextSets
  import opened Investigation
  import opened Completeness
  import opened Planning
  import opened Pipeline
  import opened PipelineSafety
  import opened PipelineAdmission
  import opened PipelineTheorems

  // ---------- What is held ----------

  ghost predicate ReturnedBefore(env: Environment, t: Trace, i: nat, x: Acquired)
    requires i <= |t.requests|
  {
    exists r: nat :: r < i && x in Reply(env, t, r).retained
  }

  ghost predicate RelatedBefore(env: Environment, t: Trace, i: nat, e: EvidenceRelationship)
    requires i <= |t.requests|
  {
    exists r: nat :: r < i && e in Reply(env, t, r).relationships
  }

  /** What is held before a round is exactly what the rounds before it returned. */
  lemma {:induction false} HeldIsReturned(
    c: Contract, env: Environment, queries: seq<SearchQuery>, calls: byte, t: Trace, i: nat, x: Acquired,
    e: EvidenceRelationship)
    requires Valid(c) && calls <= c.budget.maxModelCalls
    requires Chained(c, env, queries, calls, t) && i <= |t.states|
    ensures var st := At(c, calls, t.states, i);
            && (x in st.retained.Values <==> ReturnedBefore(env, t, i, x))
            && (e in st.relationships <==> RelatedBefore(env, t, i, e))
  {
    hide Valid, Sound, AfterRound, RequestOf, AuditOf;
    if i > 0 {
      HeldIsReturned(c, env, queries, calls, t, i - 1, x, e);
      StatesSound(c, env, queries, calls, t, i - 1);
      assert StateFollows(c, env, calls, t, i - 1);
      RoundAdds(c, At(c, calls, t.states, i - 1), i, Reply(env, t, i - 1), x, e);
      ReturnedStep(env, t, i - 1, x, e);
    }
  }

  lemma ReturnedStep(env: Environment, t: Trace, i: nat, x: Acquired, e: EvidenceRelationship)
    requires i < |t.requests|
    ensures ReturnedBefore(env, t, i + 1, x) <==> ReturnedBefore(env, t, i, x) || x in Reply(env, t, i).retained
    ensures RelatedBefore(env, t, i + 1, e) <==> RelatedBefore(env, t, i, e) || e in Reply(env, t, i).relationships
  {
    hide Reply;
    if ReturnedBefore(env, t, i, x) {
      var r: nat :| r < i && x in Reply(env, t, r).retained;
      assert r < i + 1;
    }
    if RelatedBefore(env, t, i, e) {
      var r: nat :| r < i && e in Reply(env, t, r).relationships;
      assert r < i + 1;
    }
  }

  // ---------- The order of relationships ----------

  // The kinds in the order of their declaration.
  function Place(k: RelationshipKind): nat {
    match k
    case Produces => 0
    case LoadedBy => 1
    case DispatchesTo => 2
    case RunsIn => 3
    case InvokedBy => 4
    case OtherKind(_) => 5
  }

  /** By source, target and kind; other kinds by name. */
  ghost predicate RelationBefore(a: EvidenceRelationship, b: EvidenceRelationship) {
    if a.fromEvidence != b.fromEvidence then LexLess(a.fromEvidence, b.fromEvidence)
    else if a.toEvidence != b.toEvidence then LexLess(a.toEvidence, b.toEvidence)
    else if a.kind.OtherKind? && b.kind.OtherKind? then LexLess(a.kind.name, b.kind.name)
    else Place(a.kind) < Place(b.kind)
  }

  function KeyOf(r: EvidenceRelationship): seq<seq<int>> { [r.fromEvidence, r.toEvidence] + KindKey(r.kind) }

  lemma KindOrder(a: RelationshipKind, b: RelationshipKind)
    ensures KindKey(a) == KindKey(b) ==> a == b
    ensures TupleLess(KindKey(a), KindKey(b))
       <==> if a.OtherKind? && b.OtherKind? then LexLess(a.name, b.name) else Place(a) < Place(b)
  {
    var s := if a.OtherKind? then [a.name] else [];
    var t := if b.OtherKind? then [b.name] else [];
    assert KindKey(a) == [[Place(a)]] + s && KindKey(b) == [[Place(b)]] + t;
    TupleStep([Place(a)], s, [Place(b)], t);
    TupleLeqCons([Place(a)], s, [Place(b)], t);
    LexSingle(Place(a), Place(b));
    if a.OtherKind? && b.OtherKind? {
      TupleStep(a.name, [], b.name, []);
      TupleLeqCons(a.name, [], b.name, []);
      assert [a.name] + [] == s && [b.name] + [] == t;
    }
  }

  lemma RelationOrder(a: EvidenceRelationship, b: EvidenceRelationship)
    ensures KeyOf(a) == KeyOf(b) ==> a == b
    ensures RelationLeq(a, b) && a != b <==> RelationBefore(a, b)
  {
    hide KindKey, LexLeq, TupleLeq;
    KindOrder(a.kind, b.kind);
    var s, t := [a.toEvidence] + KindKey(a.kind), [b.toEvidence] + KindKey(b.kind);
    assert KeyOf(a) == [a.fromEvidence] + s && KeyOf(b) == [b.fromEvidence] + t;
    TupleStep(a.fromEvidence, s, b.fromEvidence, t);
    TupleLeqCons(a.fromEvidence, s, b.fromEvidence, t);
    TupleStep(a.toEvidence, KindKey(a.kind), b.toEvidence, KindKey(b.kind));
    TupleLeqCons(a.toEvidence, KindKey(a.kind), b.toEvidence, KindKey(b.kind));
    StrictOrEqual(a, b);
  }

  lemma StrictOrEqual(a: EvidenceRelationship, b: EvidenceRelationship)
    ensures RelationLeq(a, b) <==> TupleLess(KeyOf(a), KeyOf(b)) || KeyOf(a) == KeyOf(b)
  {
    TupleTotal(KeyOf(a), KeyOf(a));
  }

  lemma RelationOrderIsTotal()
    ensures TotalOrder(RelationLeq)
  {
    forall a, b ensures RelationLeq(a, b) || RelationLeq(b, a)
      ensures RelationLeq(a, b) && RelationLeq(b, a) ==> a == b
    {
      TupleTotal(KeyOf(a), KeyOf(b));
      RelationOrder(a, b);
    }
    forall a, b, c | RelationLeq(a, b) && RelationLeq(b, c) ensures RelationLeq(a, c) {
      TupleTransitive(KeyOf(a), KeyOf(b), KeyOf(c));
    }
  }

  /** Recorded relationships are listed in that order, each once. */
  lemma RelationshipsInOrder(
    c: Contract, env: Environment, queries: seq<SearchQuery>, calls: byte, t: Trace, i: nat, j: nat, k: nat)
    requires Chained(c, env, queries, calls, t) && i <= |t.states|
    requires j < k < |At(c, calls, t.states, i).relationships|
    ensures RelationBefore(At(c, calls, t.states, i).relationships[j], At(c, calls, t.states, i).relationships[k])
  {
    hide AfterRound, RequestOf, AuditOf, RelationLeq, RelationBefore;
    if i > 0 {
      assert StateFollows(c, env, calls, t, i - 1);
      var before, reply := At(c, calls, t.states, i - 1), Reply(env, t, i - 1);
      RoundAdmits(c, before, i, reply);
      var all := before.relationships + reply.relationships;
      RelationOrderIsTotal();
      SortBySorts(RelationLeq, all);
      DedupStrict(RelationLeq, SortBy(RelationLeq, all), j, k);
      RelationOrder(t.states[i - 1].relationships[j], t.states[i - 1].relationships[k]);
    }
  }

  // ---------- When a run succeeds ----------

  // A cited and retained item answers the facet.
  ghost predicate FacetCited(c: Contract, st: State, cited: set<Text>, f: Text)
    requires f in c.facets
  {
    exists id :: id in cited && id in st.retained && Answers(c.facets[f], st.retained[id].evidence)
  }

  // For every facet, some cited and retained item answers it.
  ghost predicate AllCited(c: Contract, st: State, cited: set<Text>) {
    forall f :: f in c.facets ==> FacetCited(c, st, cited, f)
  }

  /** A draft that says something, cites retained evidence only and, for every facet, an item
      that qualifies for it, and claims recorded relationships only. */
  ghost predicate GoodDraft(c: Contract, st: State, draft: AnswerDraft) {
    && !Blank(draft.text) && draft.cited <= st.retained.Keys && AllCited(c, st, draft.cited)
    && (forall e :: e in draft.claimed ==> e in st.relationships)
  }

  lemma IdsOfValues(m: map<Text, Acquired>)
    requires KeyedById(m)
    ensures IdsOf(Values(m)) == m.Keys
  {
    hide Values;
    forall id ensures id in IdsOf(Values(m)) <==> id in m {
      if id in IdsOf(Values(m)) {
        var a :| a in Values(m) && a.evidence.id == id;
        ValuesMembers(m, a);
      }
      if id in m { ValuesMembers(m, m[id]); }
    }
  }

  /** A facet is cited exactly when a cited, retained item qualifies for it. */
  lemma CitedIff(c: Contract, st: State, cited: set<Text>, f: Text)
    requires Valid(c) && AuditCurrent(c, st) && KeyedById(st.retained) && f in c.facets
    ensures Cites(st.audit, f, cited) <==> FacetCited(c, st, cited, f)
  {
    var values := Values(st.retained);
    var evidence := MapSeq(EvidenceOf, values);
    CitationFacts(c, evidence, st.relationships, f, cited);
    ValidKeys(c);
    hide AuditOf, Cites, Valid, Answers, Values;
    forall id ensures id in Supporters(c, evidence, f)
        <==> id in st.retained && Answers(c.facets[f], st.retained[id].evidence)
    {
      SupporterIff(c, st.retained, f, id);
    }
    if Supporters(c, evidence, f) * cited != {} {
      var id :| id in Supporters(c, evidence, f) * cited;
      assert id in cited && id in st.retained;
    }
    if exists id :: id in cited && id in st.retained && Answers(c.facets[f], st.retained[id].evidence) {
      var id :| id in cited && id in st.retained && Answers(c.facets[f], st.retained[id].evidence);
      assert id in Supporters(c, evidence, f) * cited;
    }
  }

  lemma SupporterIff(c: Contract, m: map<Text, Acquired>, f: Text, id: Text)
    requires KeyedById(m) && f in c.facets && forall k :: k in c.facets ==> c.facets[k].id == k
    ensures id in Supporters(c, MapSeq(EvidenceOf, Values(m)), f) <==> id in m && Answers(c.facets[f], m[id].evidence)
  {
    AnswersIff(c.facets[f]);
    hide Qualifies, Answers, Values;
    var evidence := MapSeq(EvidenceOf, Values(m));
    if id in Supporters(c, evidence, f) {
      var i :| 0 <= i < |evidence| && f in Matched(c, evidence[i]) && evidence[i].id == id;
      ValuesMembers(m, Values(m)[i]);
    }
    if id in m && Answers(c.facets[f], m[id].evidence) {
      ValuesMembers(m, m[id]);
      var i :| 0 <= i < |Values(m)| && Values(m)[i] == m[id];
      assert f in Matched(c, evidence[i]);
    }
  }

  /** After a complete audit the answer is accepted exactly when the draft is good. */
  lemma JudgedIff(c: Contract, st: State, draft: AnswerDraft)
    requires Valid(c) && AuditCurrent(c, st) && KeyedById(st.retained) && st.audit.complete
    ensures Judge(c, st, Values(st.retained), draft).Ok? <==> GoodDraft(c, st, draft)
  {
    IdsOfValues(st.retained);
    ValidatedIff(c, st, draft.cited);
    hide Values, AuditCurrent, KeyedById, Valid, ValidateAnswer, AllCited, Blank, IdsOf, Judge;
    JudgeAccepts(c, st, Values(st.retained), draft);
  }

  lemma JudgeAccepts(c: Contract, st: State, evidence: seq<Acquired>, draft: AnswerDraft)
    ensures Judge(c, st, evidence, draft).Ok?
       <==> && !Blank(draft.text) && ValidateAnswer(c, st.audit, draft.cited).Ok? && draft.cited <= IdsOf(evidence)
            && (forall e :: e in draft.claimed ==> e in st.relationships)
  {
    hide ValidateAnswer, Blank, IdsOf;
    assert (forall e :: e in draft.claimed ==> e in st.relationships)
      <==> !exists i | 0 <= i < |draft.claimed| :: draft.claimed[i] !in st.relationships;
  }

  lemma ValidatedIff(c: Contract, st: State, cited: set<Text>)
    requires Valid(c) && AuditCurrent(c, st) && KeyedById(st.retained) && st.audit.complete
    ensures ValidateAnswer(c, st.audit, cited).Ok? <==> AllCited(c, st, cited)
  {
    hide Values, AuditCurrent, KeyedById, Valid, Cites, FacetCited, InOrder;
    var uncited := set k | k in c.facets && !Cites(st.audit, k, cited);
    assert uncited == {} <==> forall f :: f in c.facets ==> f !in uncited;
    forall f | f in c.facets
      ensures f in uncited <==> !FacetCited(c, st, cited, f)
    {
      CitedIff(c, st, cited, f);
    }
  }

  /** What is reported about a draft is so: that it is blank, that it cites for none or not all of
      the facets, that it cites what is not held, or that it claims what is not recorded. */
  lemma DraftFaults(c: Contract, st: State, draft: AnswerDraft)
    requires Valid(c) && AuditCurrent(c, st) && KeyedById(st.retained) && st.audit.complete
    requires Judge(c, st, Values(st.retained), draft).Err?
    ensures match Judge(c, st, Values(st.retained), draft).error
            case BlankAnswer => Blank(draft.text)
            case AnswerRejected(MissingFacetCitations(fs)) =>
              && Ascending(fs) && fs != []
              && forall f :: f in fs <==> f in c.facets && !FacetCited(c, st, draft.cited, f)
            case CitesUnretained => !(draft.cited <= st.retained.Keys)
            case UnsupportedRelationship => exists e :: e in draft.claimed && e !in st.relationships
            case _ => false
  {
    IdsOfValues(st.retained);
    if ValidateAnswer(c, st.audit, draft.cited).Err? { UncitedFacets(c, st, draft.cited); }
    hide Values, AuditCurrent, KeyedById, Valid, Blank, IdsOf, ValidateAnswer, FacetCited, Ascending, Judge;
    JudgeErrs(c, st, Values(st.retained), draft);
  }

  lemma UncitedFacets(c: Contract, st: State, cited: set<Text>)
    requires Valid(c) && AuditCurrent(c, st) && KeyedById(st.retained) && st.audit.complete
    requires ValidateAnswer(c, st.audit, cited).Err?
    ensures var e := ValidateAnswer(c, st.audit, cited).error;
            && e.MissingFacetCitations? && Ascending(e.facets) && e.facets != []
            && forall f :: f in e.facets <==> f in c.facets && !FacetCited(c, st, cited, f)
  {
    hide Values, AuditCurrent, KeyedById, Valid, Cites, FacetCited;
    forall f | f in c.facets ensures Cites(st.audit, f, cited) <==> FacetCited(c, st, cited, f) {
      CitedIff(c, st, cited, f);
    }
    var uncited := set k | k in c.facets && !Cites(st.audit, k, cited);
    hide InOrder;
    assert forall f :: f in InOrder(uncited) <==> f in Elements(InOrder(uncited));
    assert uncited != {} && Elements(InOrder(uncited)) == uncited;
  }

  lemma JudgeErrs(c: Contract, st: State, evidence: seq<Acquired>, draft: AnswerDraft)
    requires Judge(c, st, evidence, draft).Err?
    ensures match Judge(c, st, evidence, draft).error
            case BlankAnswer => Blank(draft.text)
            case AnswerRejected(e) => ValidateAnswer(c, st.audit, draft.cited) == Err(e)
            case CitesUnretained => !(draft.cited <= IdsOf(evidence))
            case UnsupportedRelationship => exists e :: e in draft.claimed && e !in st.relationships
            case _ => false
  {
    hide ValidateAnswer, Blank, IdsOf;
  }

  // Every completed round had an acceptable reply; and so had the last one asked for exactly if its round completed.
  lemma RepliesAcceptable(
    c: Contract, env: Environment, queries: seq<SearchQuery>, calls: byte, run: Run, i: nat)
    requires Valid(c) && calls <= c.budget.maxModelCalls
    requires Chained(c, env, queries, calls, run.trace.(asked := None)) && Ends(c, env, calls, run)
    requires i < |run.trace.requests|
    ensures i <= |run.trace.states|
    ensures Acceptable(c, At(c, calls, run.trace.states, i), Reply(env, run.trace, i)) <==> i < |run.trace.states|
  {
    hide Valid, Acceptable, Sound, AfterRound, AuditOf, Judge, RequestOf, Suggestions, Values;
    var t := run.trace.(asked := None);
    StatesSound(c, env, queries, calls, t, i);
    assert Reply(env, t, i) == Reply(env, run.trace, i);
    RoundAcceptedIff(c, At(c, calls, t.states, i), i + 1, Reply(env, t, i));
    if i < |t.states| { assert StateFollows(c, env, calls, t, i); }
  }

  lemma OutcomeIff(c: Contract, env: Environment, queries: seq<SearchQuery>, calls: byte, run: Run)
    requires Valid(c) && calls <= c.budget.maxModelCalls
    requires Chained(c, env, queries, calls, run.trace.(asked := None)) && Ends(c, env, calls, run)
    ensures var t := run.trace;
            && |t.states| <= |t.requests| <= |t.states| + 1 && t.requests != []
            && var last := At(c, calls, t.states, |t.states|);
            && (run.result.Ok? <==>
                  && (forall i :: 0 <= i < |t.requests| ==>
                        Acceptable(c, At(c, calls, t.states, i), Reply(env, t, i)))
                  && (last.audit.complete ==>
                        && last.usage.modelCalls < c.budget.maxModelCalls
                        && GoodDraft(c, last, env.answer(Values(last.retained), last.audit))))
            && (run.result.Ok? ==> (run.result.value.Answered? <==> last.audit.complete))
  {
    hide Valid, Acceptable, AfterRound, AuditOf, Judge, RequestOf, Suggestions, Values, GoodDraft, InitialState,
         PathsHeld, RetainedBytes, KeyedById, Reply, StateFollows, RequestFollows, AuditCurrent;
    var t := run.trace;
    forall i | 0 <= i < |t.requests|
      ensures i <= |t.states|
      ensures Acceptable(c, At(c, calls, t.states, i), Reply(env, t, i)) <==> i < |t.states|
    {
      RepliesAcceptable(c, env, queries, calls, run, i);
    }
    if |t.states| == |t.requests| {
      var last := t.states[|t.states| - 1];
      StatesSound(c, env, queries, calls, t.(asked := None), |t.states|);
      if last.audit.complete {
        var draft := env.answer(Values(last.retained), last.audit);
        JudgedIff(c, last, draft);
        JudgeNeverReportsInsufficiency(c, last, env);
      }
    } else {
      assert !Acceptable(c, At(c, calls, t.states, |t.states|), Reply(env, t, |t.states|));
    }
  }

  /** A prepared run succeeds exactly when every reply it got was acceptable and, if the audit
      became complete, a model call was left for an answer and the draft was good. It then
      answers exactly when the audit became complete. */
  lemma RunSucceedsIff(
    c: Contract, point: OperatingPoint, planner: Option<PlannerProposal>, critic: Option<CriticProposal>,
    env: Environment)
    requires Prepare(c, point, planner, critic).Ok?
    ensures var run := RunSpec(c, point, planner, critic, env);
            var t := run.trace;
            var (c', calls, _) := Prepare(c, point, planner, critic).value;
            && |t.states| <= |t.requests| <= |t.states| + 1 && t.requests != []
            && var last := At(c', calls, t.states, |t.states|);
            && (run.result.Ok? <==>
                  && (forall i :: 0 <= i < |t.requests| ==>
                        Acceptable(c', At(c', calls, t.states, i), Reply(env, t, i)))
                  && (last.audit.complete ==>
                        && last.usage.modelCalls < c.budget.maxModelCalls
                        && GoodDraft(c', last, env.answer(Values(last.retained), last.audit))))
            && (run.result.Ok? ==> (run.result.value.Answered? <==> last.audit.complete))
  {
    hide Prepare, RunSpec, Valid, Acceptable, Judge, Strengthens, Chained, GoodDraft;
    RunIsChain(c, point, planner, critic, env);
    PreparedFacts(c, point, planner, critic);
    var run := RunSpec(c, point, planner, critic, env);
    var (c', calls, queries) := Prepare(c, point, planner, critic).value;
    SameBudget(c', c);
    OutcomeIff(c', env, queries, calls, run);
  }
}
