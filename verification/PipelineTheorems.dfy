/** The guarantees of a whole investigation run. */
module PipelineTheorems {
  import opened Bytes
  import opened Text
  import opened Sorting
  import opened TextSets
  import opened Investigation
  import opened Completeness
  import opened Planning
  import opened Pipeline
  import opened PipelineSafety

  // ---------- Runs as chains of states ----------

  // The state before round i + 1.
  ghost function At(c: Contract, calls: byte, states: seq<State>, i: nat): State
    requires i <= |states|
  {
    if i == 0 then InitialState(c, calls) else states[i - 1]
  }

  function Reply(env: Environment, t: Trace, i: nat): Round
    requires i < |t.requests|
  {
    env.acquire(t.requests[..i + 1])
  }

  ghost predicate RequestFollows(
    c: Contract, env: Environment, queries: seq<SearchQuery>, calls: byte, t: Trace, i: nat)
    requires i < |t.requests| && i <= |t.states| && i < U8_MAX
  {
    t.requests[i] == RequestOf(c, env, queries, At(c, calls, t.states, i), i + 1)
  }

  ghost predicate StateFollows(c: Contract, env: Environment, calls: byte, t: Trace, i: nat)
    requires i < |t.states| && i < |t.requests| && i < U8_MAX
  {
    AfterRound(c, At(c, calls, t.states, i), i + 1, Reply(env, t, i)) == Ok(t.states[i])
  }

  /** Every request and every state in the trace follows from those before, and only the
      last state may be complete. */
  ghost predicate Chained(c: Contract, env: Environment, queries: seq<SearchQuery>, calls: byte, t: Trace) {
    && |t.states| <= |t.requests| <= |t.states| + 1
    && |t.requests| <= c.budget.maxRounds
    && (forall i :: 0 <= i < |t.requests| ==> RequestFollows(c, env, queries, calls, t, i))
    && (forall i :: 0 <= i < |t.states| ==> StateFollows(c, env, calls, t, i))
    && (forall i :: 0 <= i < |t.states| - 1 ==> !t.states[i].audit.complete)
  }

  /** How a run ends: refused with the error of its last reply; or, after a complete audit, for
      want of a model call or as the draft is judged; or with a report of insufficiency after the
      last round. */
  ghost predicate Ends(c: Contract, env: Environment, calls: byte, run: Run) {
    var t := run.trace;
    |t.requests| <= U8_MAX &&
    if |t.states| < |t.requests| then
      var refused := AfterRound(c, At(c, calls, t.states, |t.states|), |t.requests|, Reply(env, t, |t.requests| - 1));
      refused.Err? && t.asked.None? && run.result == Err(refused.error)
    else
      t.states != [] &&
      var st := t.states[|t.states| - 1];
      if !st.audit.complete then
        && |t.states| == c.budget.maxRounds && t.asked.None?
        && run.result == Ok(Insufficient(
             st.audit.missingFacets, st.audit.missingRelationships, Suggestions(c, env, st.audit), st.usage))
      else if st.usage.modelCalls == c.budget.maxModelCalls then
        t.asked.None? && run.result == Err(OverBudget(AnswererModelCall))
      else
        && t.asked == Some((Values(st.retained), st.audit))
        && run.result == Judge(c, st, Values(st.retained), env.answer(Values(st.retained), st.audit))
  }

  lemma ChainGrowsByRequest(
    c: Contract, env: Environment, queries: seq<SearchQuery>, calls: byte, t: Trace, request: Request)
    requires Chained(c, env, queries, calls, t) && |t.requests| == |t.states| < c.budget.maxRounds
    requires request == RequestOf(c, env, queries, At(c, calls, t.states, |t.states|), |t.states| + 1)
    ensures Chained(c, env, queries, calls, t.(requests := t.requests + [request]))
  {
    hide RequestOf, AfterRound, InitialState;
    var t' := t.(requests := t.requests + [request]);
    forall i | 0 <= i < |t.states| ensures StateFollows(c, env, calls, t', i) {
      assert StateFollows(c, env, calls, t, i);
      assert t'.requests[..i + 1] == t.requests[..i + 1];
    }
    forall i | 0 <= i < |t'.requests| ensures RequestFollows(c, env, queries, calls, t', i) {
      if i < |t.requests| { assert RequestFollows(c, env, queries, calls, t, i); }
    }
  }

  lemma ChainGrowsByState(c: Contract, env: Environment, queries: seq<SearchQuery>, calls: byte, t: Trace, st: State)
    requires Chained(c, env, queries, calls, t) && |t.requests| == |t.states| + 1
    requires AfterRound(c, At(c, calls, t.states, |t.states|), |t.states| + 1, env.acquire(t.requests)) == Ok(st)
    requires t.states != [] ==> !t.states[|t.states| - 1].audit.complete
    ensures Chained(c, env, queries, calls, t.(states := t.states + [st]))
  {
    hide RequestOf, AfterRound, InitialState;
    var t' := t.(states := t.states + [st]);
    assert t.requests[..|t.requests|] == t.requests;
    forall i | 0 <= i < |t'.states| ensures StateFollows(c, env, calls, t', i) {
      if i < |t.states| { assert StateFollows(c, env, calls, t, i); }
    }
    forall i | 0 <= i < |t'.requests| ensures RequestFollows(c, env, queries, calls, t', i) {
      assert RequestFollows(c, env, queries, calls, t, i);
    }
  }

  lemma {:induction false} RoundsChained(
    c: Contract, env: Environment, queries: seq<SearchQuery>, calls: byte, st: State, round: nat,
    requests: seq<Request>, states: seq<State>)
    requires 1 <= round <= c.budget.maxRounds as int + 1 && |requests| == |states| == round - 1
    requires 0 < c.budget.maxRounds < U8_MAX
    requires Chained(c, env, queries, calls, Trace(requests, states, None))
    requires st == At(c, calls, states, |states|)
    requires states != [] ==> !st.audit.complete
    ensures var run := Rounds(c, env, queries, st, round, requests, states);
            Chained(c, env, queries, calls, run.trace.(asked := None)) && Ends(c, env, calls, run)
    decreases c.budget.maxRounds - round
  {
    hide RequestOf, AfterRound, InitialState, Chained, Judge, Values, Suggestions;
    if round <= c.budget.maxRounds {
      var t := Trace(requests, states, None);
      var request := RequestOf(c, env, queries, st, round);
      ChainGrowsByRequest(c, env, queries, calls, t, request);
      var requests' := requests + [request];
      var played := AfterRound(c, st, round, env.acquire(requests'));
      assert requests'[..round] == requests';
      if played.Ok? {
        ChainGrowsByState(c, env, queries, calls, t.(requests := requests'), played.value);
        if !played.value.audit.complete {
          RoundsChained(c, env, queries, calls, played.value, round + 1, requests', states + [played.value]);
        }
      }
    }
  }

  /** The contract a run works under, and the model calls spent preparing it. */
  lemma PreparedFacts(
    c: Contract, point: OperatingPoint, planner: Option<PlannerProposal>, critic: Option<CriticProposal>)
    requires Prepare(c, point, planner, critic).Ok?
    ensures var (c', calls, queries) := Prepare(c, point, planner, critic).value;
            && Valid(c) && Valid(c') && Strengthens(c', c) && calls <= c'.budget.maxModelCalls
  {
    hide Investigation.Validate, Extended, QueryFault;
    if point != HardRulesOnly {
      AppliedStrengthens(planner.value, c);
      var c1 := Apply(planner.value, c).value;
      if point == PlannerAndCritic {
        var q := critic.value;
        var p := PlannerProposal(q.schema, q.facetAdditions, q.relationshipAdditions, q.searchQueries, false);
        AppliedStrengthens(p, c1);
        StrengthensTransitive(Apply(p, c1).value, c1, c);
      }
    }
  }

  lemma EmptyChain(c: Contract, env: Environment, queries: seq<SearchQuery>, calls: byte)
    ensures Chained(c, env, queries, calls, Trace([], [], None))
  {
  }

  /** Every run that starts its rounds is a chain with one of the three endings. */
  lemma RunIsChain(
    c: Contract, point: OperatingPoint, planner: Option<PlannerProposal>, critic: Option<CriticProposal>,
    env: Environment)
    requires Prepare(c, point, planner, critic).Ok?
    ensures var run := RunSpec(c, point, planner, critic, env);
            var (c', calls, queries) := Prepare(c, point, planner, critic).value;
            Chained(c', env, queries, calls, run.trace.(asked := None)) && Ends(c', env, calls, run)
  {
    PreparedFacts(c, point, planner, critic);
    var (c', calls, queries) := Prepare(c, point, planner, critic).value;
    ValidBudget(c');
    EmptyChain(c', env, queries, calls);
    hide Prepare, Valid, Chained, Ends, Rounds;
    RoundsChained(c', env, queries, calls, InitialState(c', calls), 1, [], []);
  }

  lemma RanIsPrepared(
    c: Contract, point: OperatingPoint, planner: Option<PlannerProposal>, critic: Option<CriticProposal>,
    env: Environment)
    requires var run := RunSpec(c, point, planner, critic, env); run.result.Ok? || run.trace.asked.Some?
    ensures Prepare(c, point, planner, critic).Ok?
  {
    hide Prepare, Rounds;
  }

  // ---------- Every state of a run ----------

  lemma {:induction false} StatesSound(
    c: Contract, env: Environment, queries: seq<SearchQuery>, calls: byte, t: Trace, i: nat)
    requires Valid(c) && calls <= c.budget.maxModelCalls
    requires Chained(c, env, queries, calls, t) && i <= |t.states|
    ensures Sound(c, At(c, calls, t.states, i), i)
  {
    hide Valid, Sound, AfterRound, RequestOf, InitialState;
    if i == 0 {
      InitialSound(c, calls);
    } else {
      StatesSound(c, env, queries, calls, t, i - 1);
      assert StateFollows(c, env, calls, t, i - 1);
      RoundKeepsInvariant(c, At(c, calls, t.states, i - 1), i, Reply(env, t, i - 1));
    }
  }

  lemma StatesAdvance(c: Contract, env: Environment, queries: seq<SearchQuery>, calls: byte, t: Trace, i: nat)
    requires Valid(c) && calls <= c.budget.maxModelCalls
    requires Chained(c, env, queries, calls, t) && i < |t.states|
    ensures var before, after := At(c, calls, t.states, i), At(c, calls, t.states, i + 1);
            Advances(before, after) && Counted(before, after, Reply(env, t, i))
  {
    hide Valid, Sound, AfterRound, RequestOf, InitialState, Advances, Counted, Keeps;
    StatesSound(c, env, queries, calls, t, i);
    assert StateFollows(c, env, calls, t, i);
    RoundKeepsInvariant(c, At(c, calls, t.states, i), i + 1, Reply(env, t, i));
  }

  lemma AdvancesTransitive(a: State, b: State, c: State)
    requires Advances(a, b) && Advances(b, c)
    ensures Advances(a, c)
  {
  }

  lemma {:induction false} StatesAdvanceFar(
    c: Contract, env: Environment, queries: seq<SearchQuery>, calls: byte, t: Trace, i: nat, j: nat)
    requires Valid(c) && calls <= c.budget.maxModelCalls
    requires Chained(c, env, queries, calls, t) && i <= j <= |t.states|
    ensures Advances(At(c, calls, t.states, i), At(c, calls, t.states, j))
    decreases j
  {
    hide Valid, Advances, Chained, InitialState;
    if i == j {
      AdvancesReflexive(At(c, calls, t.states, i));
    } else {
      StatesAdvanceFar(c, env, queries, calls, t, i, j - 1);
      StatesAdvance(c, env, queries, calls, t, j - 1);
      AdvancesTransitive(At(c, calls, t.states, i), At(c, calls, t.states, j - 1), At(c, calls, t.states, j));
    }
  }

  lemma AdvancesReflexive(a: State)
    ensures Advances(a, a)
  {
  }

  /** The queries of a request: one spelled-out query about each missing facet, and those of the
      models' own queries that are about a missing facet. */
  lemma RequestQueries(
    c: Contract, env: Environment, queries: seq<SearchQuery>, st: State, round: byte, q: SearchQuery)
    requires Valid(c) && AuditCurrent(c, st)
    ensures q in RequestOf(c, env, queries, st, round).queries
       <==> && q.facetId in c.facets && q.facetId in st.audit.missingFacets
            && (q.query == env.spellFacet(c.facets[q.facetId]) || q in queries)
  {
    hide HardCodedQueries, SortBy, Values, AuditOf, Valid, IsSupported;
    MissingFacetFacts(c, MapSeq(EvidenceOf, Values(st.retained)), st.relationships);
    var extra := AboutMissing(queries, Elements(st.audit.missingFacets));
    SortedMembers(QueryLeq, HardCodedQueries(c, st.audit, env.spellFacet) + extra, q);
    HardCodedFacts(c, st.audit, env.spellFacet, q);
    AboutMissingFacts(queries, Elements(st.audit.missingFacets), q);
  }

  /** They come in order of facet and text, each once. */
  lemma RequestQueriesOrdered(
    c: Contract, env: Environment, queries: seq<SearchQuery>, st: State, round: byte, i: nat, j: nat)
    requires i < j < |RequestOf(c, env, queries, st, round).queries|
    ensures var qs := RequestOf(c, env, queries, st, round).queries;
            LexLess(qs[i].facetId, qs[j].facetId)
              || (qs[i].facetId == qs[j].facetId && LexLess(qs[i].query, qs[j].query))
  {
    hide HardCodedQueries, AboutMissing;
    QueryOrderIsTotal();
    var all := HardCodedQueries(c, st.audit, env.spellFacet) + AboutMissing(queries, Elements(st.audit.missingFacets));
    SortBySorts(QueryLeq, all);
    DedupStrict(QueryLeq, SortBy(QueryLeq, all), i, j);
    var qs := RequestOf(c, env, queries, st, round).queries;
    QueryOrder(qs[i], qs[j]);
  }

  lemma QueryOrder(a: SearchQuery, b: SearchQuery)
    ensures QueryLeq(a, b) <==> LexLess(a.facetId, b.facetId) || (a.facetId == b.facetId && LexLeq(a.query, b.query))
  {
    assert [a.facetId, a.query][1..] == [a.query] && [b.facetId, b.query][1..] == [b.query];
    assert [a.query][1..] == [] && [b.query][1..] == [];
    assert TupleLeq([a.query], [b.query]) <==> LexLeq(a.query, b.query) by { LexReflexive(a.query); }
  }

  lemma QueryOrderIsTotal()
    ensures TotalOrder(QueryLeq)
  {
    forall a, b ensures QueryLeq(a, b) || QueryLeq(b, a)
      ensures QueryLeq(a, b) && QueryLeq(b, a) ==> a == b
    {
      TupleTotal([a.facetId, a.query], [b.facetId, b.query]);
      if [a.facetId, a.query] == [b.facetId, b.query] {
        assert [a.facetId, a.query][0] == a.facetId && [a.facetId, a.query][1] == a.query;
        assert [b.facetId, b.query][0] == b.facetId && [b.facetId, b.query][1] == b.query;
      }
    }
    forall a, b, c | QueryLeq(a, b) && QueryLeq(b, c) ensures QueryLeq(a, c) {
      TupleTransitive([a.facetId, a.query], [b.facetId, b.query], [c.facetId, c.query]);
    }
  }

  lemma {:induction false} AboutMissingFacts(queries: seq<SearchQuery>, missing: set<Text>, q: SearchQuery)
    ensures q in AboutMissing(queries, missing) <==> q in queries && q.facetId in missing
  {
    if queries != [] {
      var n := |queries| - 1;
      AboutMissingFacts(queries[..n], missing, q);
      assert queries == queries[..n] + [queries[n]];
    }
  }

  /** The run invariant. Between any two rounds, retained evidence and recorded relationships
      only grow and never change, and nothing new goes missing. At each round's end, what is
      retained under an id is an item of that id with a signal, positive ranks and one hop per
      edge of its path; every edge of the path is recorded and joins two retained ids; and the
      recorded audit is the audit of what is held. */
  lemma RunInvariant(
    c: Contract, point: OperatingPoint, planner: Option<PlannerProposal>, critic: Option<CriticProposal>,
    env: Environment,
    i: nat, j: nat, id: Text, e: EvidenceRelationship)
    requires Prepare(c, point, planner, critic).Ok?
    requires i <= j < |RunSpec(c, point, planner, critic, env).trace.states|
    ensures var t := RunSpec(c, point, planner, critic, env).trace;
            var before, st := t.states[i], t.states[j];
            && (id in before.retained ==> id in st.retained && st.retained[id] == before.retained[id])
            && (e in before.relationships ==> e in st.relationships)
            && (id in st.audit.missingFacets ==> id in before.audit.missingFacets)
            && (id in st.audit.missingRelationships ==> id in before.audit.missingRelationships)
            && (id in st.retained ==>
                  var p := st.retained[id].provenance;
                  && st.retained[id].evidence.id == id
                  && (p.lexicalRank.Some? || p.semanticRank.Some? || p.graphPath != [])
                  && (p.lexicalRank.Some? ==> p.lexicalRank.value > 0)
                  && (p.semanticRank.Some? ==> p.semanticRank.value > 0)
                  && p.rerankRank > 0 && p.graphHops == |p.graphPath| <= c.budget.maxGraphHops
                  && (e in p.graphPath ==>
                        e in st.relationships && e.fromEvidence in st.retained && e.toEvidence in st.retained))
            && var c' := Prepare(c, point, planner, critic).value.0;
               st.audit == AuditOf(c', MapSeq(EvidenceOf, Values(st.retained)), st.relationships)
  {
    hide Prepare, RunSpec, Rounds, Valid, AfterRound, RequestOf, AuditOf, InitialState, Judge, Suggestions, Values,
         Strengthens, SumReplies, RetainedBytes, KeyedById, Qualifies, ValidateAnswer, Blank, TotalBytes,
         TotalHops, Ends, PathsHeld, Advances;
    RunIsChain(c, point, planner, critic, env);
    PreparedFacts(c, point, planner, critic);
    var t := RunSpec(c, point, planner, critic, env).trace.(asked := None);
    var (c', calls, queries) := Prepare(c, point, planner, critic).value;
    StatesAdvanceFar(c', env, queries, calls, t, i + 1, j + 1);
    StatesSound(c', env, queries, calls, t, j + 1);
    SameBudget(c', c);
    Grown(t.states[i], t.states[j], id, e);
    if id in t.states[j].retained { HeldGrounded(c', t.states[j], id, e); }
  }

  lemma Grown(before: State, st: State, id: Text, e: EvidenceRelationship)
    requires Advances(before, st)
    ensures id in before.retained ==> id in st.retained && st.retained[id] == before.retained[id]
    ensures e in before.relationships ==> e in st.relationships
    ensures id in st.audit.missingFacets ==> id in before.audit.missingFacets
    ensures id in st.audit.missingRelationships ==> id in before.audit.missingRelationships
  {
  }

  lemma HeldGrounded(c: Contract, st: State, id: Text, e: EvidenceRelationship)
    requires PathsHeld(c.budget, st) && KeyedById(st.retained) && id in st.retained
    ensures var p := st.retained[id].provenance;
            && st.retained[id].evidence.id == id
            && (p.lexicalRank.Some? || p.semanticRank.Some? || p.graphPath != [])
            && (p.lexicalRank.Some? ==> p.lexicalRank.value > 0)
            && (p.semanticRank.Some? ==> p.semanticRank.value > 0)
            && p.rerankRank > 0 && p.graphHops == |p.graphPath| <= c.budget.maxGraphHops
            && (e in p.graphPath ==>
                  e in st.relationships && e.fromEvidence in st.retained && e.toEvidence in st.retained)
  {
  }

  /** Every request of a run, the first included: it reports what the audit of the evidence
      held at that moment misses; its queries are the spelled-out queries about each missing
      facet and the models' own queries about a missing facet, and no others; and it offers
      exactly the context bytes that are left. */
  lemma EveryRequestAsks(
    c: Contract, point: OperatingPoint, planner: Option<PlannerProposal>, critic: Option<CriticProposal>,
    env: Environment,
    i: nat, q: SearchQuery)
    requires Prepare(c, point, planner, critic).Ok?
    requires i < |RunSpec(c, point, planner, critic, env).trace.requests|
    ensures var t := RunSpec(c, point, planner, critic, env).trace;
            var (c', calls, queries) := Prepare(c, point, planner, critic).value;
            && i <= |t.states|
            && var st, request := At(c', calls, t.states, i), t.requests[i];
            && AuditCurrent(c', st) && request.round == i + 1
            && request.missingFacets == st.audit.missingFacets
            && request.missingRelationships == st.audit.missingRelationships
            && (q in request.queries <==>
                  && q.facetId in c'.facets && q.facetId in st.audit.missingFacets
                  && (q.query == env.spellFacet(c'.facets[q.facetId]) || q in queries))
            && request.remainingContextBytes == c.budget.maxContextBytes - st.usage.contextBytes
            && request.maxCandidates == c.budget.maxCandidatesPerRound
            && request.maxGraphHops == c.budget.maxGraphHops
  {
    hide Prepare, RunSpec, Rounds, Valid, AfterRound, RequestOf, AuditOf, InitialState, Judge, Suggestions, Values,
         Strengthens, SumReplies, RetainedBytes, KeyedById, Qualifies, ValidateAnswer, Blank, TotalBytes,
         TotalHops, Ends, PathsHeld, Advances, AuditCurrent, At;
    RunIsChain(c, point, planner, critic, env);
    PreparedFacts(c, point, planner, critic);
    var t := RunSpec(c, point, planner, critic, env).trace.(asked := None);
    var (c', calls, queries) := Prepare(c, point, planner, critic).value;
    ChainFollows(c', env, queries, calls, t, i);
    var st := At(c', calls, t.states, i);
    StatesSound(c', env, queries, calls, t, i);
    RequestQueries(c', env, queries, st, i + 1, q);
    RequestFields(c', env, queries, st, i + 1);
    SameBudget(c', c);
  }

  lemma ChainFollows(c: Contract, env: Environment, queries: seq<SearchQuery>, calls: byte, t: Trace, i: nat)
    requires Chained(c, env, queries, calls, t) && i < |t.requests|
    ensures i <= |t.states| && i < U8_MAX
    ensures t.requests[i] == RequestOf(c, env, queries, At(c, calls, t.states, i), i + 1)
  {
    hide RequestOf, At;
    assert RequestFollows(c, env, queries, calls, t, i);
  }

  lemma RequestFields(c: Contract, env: Environment, queries: seq<SearchQuery>, st: State, round: byte)
    requires st.usage.contextBytes <= c.budget.maxContextBytes
    ensures var request := RequestOf(c, env, queries, st, round);
            && request.round == round && request.missingFacets == st.audit.missingFacets
            && request.missingRelationships == st.audit.missingRelationships
            && request.maxCandidates == c.budget.maxCandidatesPerRound && request.maxGraphHops == c.budget.maxGraphHops
            && request.remainingContextBytes == c.budget.maxContextBytes - st.usage.contextBytes
  {
    hide HardCodedQueries, SortBy, AboutMissing;
  }

  // ---------- Fail closed ----------

  /** The answerer is asked only when the audit of exactly the evidence it is given is
      complete, under the working contract and so under the caller's; every earlier round
      ended incomplete. */
  lemma AnswererIsGated(
    c: Contract, point: OperatingPoint, planner: Option<PlannerProposal>, critic: Option<CriticProposal>,
    env: Environment)
    requires RunSpec(c, point, planner, critic, env).trace.asked.Some?
    ensures var t := RunSpec(c, point, planner, critic, env).trace;
            var (evidence, audit) := t.asked.value;
            && Prepare(c, point, planner, critic).Ok? && t.states != []
            && var (c', _, _) := Prepare(c, point, planner, critic).value;
               var st := t.states[|t.states| - 1];
            && evidence == Values(st.retained) && st.usage.modelCalls < c.budget.maxModelCalls
            && audit == AuditOf(c', MapSeq(EvidenceOf, evidence), st.relationships) && audit.complete
            && AuditOf(c, MapSeq(EvidenceOf, evidence), st.relationships).complete
            && (forall i :: 0 <= i < |t.states| - 1 ==> !t.states[i].audit.complete)
  {
    hide Prepare, RunSpec, Rounds, Valid, AfterRound, RequestOf, AuditOf, InitialState, Judge, Suggestions, Values,
         Strengthens, SumReplies, RetainedBytes, KeyedById, Qualifies, ValidateAnswer, Blank, TotalBytes,
         TotalHops, PathsHeld;
    RanIsPrepared(c, point, planner, critic, env);
    RunIsChain(c, point, planner, critic, env);
    PreparedFacts(c, point, planner, critic);
    var t := RunSpec(c, point, planner, critic, env).trace;
    var (c', calls, queries) := Prepare(c, point, planner, critic).value;
    var st := t.states[|t.states| - 1];
    StatesSound(c', env, queries, calls, t.(asked := None), |t.states|);
    NeverWeakens(c', c, MapSeq(EvidenceOf, Values(st.retained)), st.relationships, {});
    SameBudget(c', c);
  }

  /** What the checks on a draft establish. */
  lemma JudgedAnswer(c: Contract, st: State, draft: AnswerDraft)
    requires AuditCurrent(c, st)
    requires Judge(c, st, Values(st.retained), draft).Ok?
    ensures Judge(c, st, Values(st.retained), draft).value
         == Answered(draft, st.audit, Values(st.retained), st.relationships,
           st.usage.(modelCalls := st.usage.modelCalls + 1))
    ensures !Blank(draft.text) && draft.cited <= IdsOf(Values(st.retained))
    ensures ValidateAnswer(c, st.audit, draft.cited).Ok?
    ensures forall r :: r in draft.claimed ==> r in st.relationships
  {
    hide ValidateAnswer, Values, AuditOf, Blank;
  }

  /** A facet whose citation the validation accepted is supported by a cited item. */
  lemma CitedSupport(c: Contract, evidence: seq<Evidence>, rels: seq<EvidenceRelationship>, cited: set<Text>, f: Text)
    requires Valid(c) && f in c.facets && ValidateAnswer(c, AuditOf(c, evidence, rels), cited).Ok?
    ensures exists i :: 0 <= i < |evidence| && evidence[i].id in cited && Qualifies(c.facets[f], evidence[i])
  {
    AcceptedCitesAll(c, AuditOf(c, evidence, rels), cited, f);
    hide AuditOf, Valid, Cites, Qualifies, ValidateAnswer;
    CitationFacts(c, evidence, rels, f, cited);
    ValidKeys(c);
    var id :| id in Supporters(c, evidence, f) * cited;
    var i :| 0 <= i < |evidence| && f in Matched(c, evidence[i]) && evidence[i].id == id;
    var k :| k in c.facets && Qualifies(c.facets[k], evidence[i]) && c.facets[k].id == f;
  }

  lemma AcceptedCitesAll(c: Contract, audit: Audit, cited: set<Text>, f: Text)
    requires f in c.facets && ValidateAnswer(c, audit, cited).Ok?
    ensures Cites(audit, f, cited)
  {
    hide Cites, InOrder;
    var uncited := set k | k in c.facets && !Cites(audit, k, cited);
    assert uncited == {};
    assert f !in uncited;
  }

  /** An answered run returns the answerer's own draft; it cites only retained evidence, for
      every facet of the caller's contract a qualifying item, and claims only recorded
      relationships. */
  lemma AnswerIsGrounded(
    c: Contract, point: OperatingPoint, planner: Option<PlannerProposal>, critic: Option<CriticProposal>,
    env: Environment, f: Text)
    requires var r := RunSpec(c, point, planner, critic, env).result; r.Ok? && r.value.Answered?
    ensures var run := RunSpec(c, point, planner, critic, env);
            var a := run.result.value;
            && run.trace.asked == Some((a.evidence, a.audit)) && a.answer == env.answer(a.evidence, a.audit)
            && !Blank(a.answer.text)
            && a.answer.cited <= IdsOf(a.evidence)
            && (forall r :: r in a.answer.claimed ==> r in a.relationships)
            && (f in c.facets ==>
                  exists i :: 0 <= i < |a.evidence| && a.evidence[i].evidence.id in a.answer.cited
                    && Answers(c.facets[f], a.evidence[i].evidence))
  {
    hide Answers, Prepare, RunSpec, Rounds, Valid, AfterRound, RequestOf, AuditOf, InitialState, Judge,
         Suggestions, Values, Strengthens, SumReplies, RetainedBytes, KeyedById, Qualifies, ValidateAnswer, Blank,
         TotalBytes, TotalHops, PathsHeld;
    RanIsPrepared(c, point, planner, critic, env);
    RunIsChain(c, point, planner, critic, env);
    PreparedFacts(c, point, planner, critic);
    var run := RunSpec(c, point, planner, critic, env);
    var (c', calls, queries) := Prepare(c, point, planner, critic).value;
    var t := run.trace;
    var st := t.states[|t.states| - 1];
    StatesSound(c', env, queries, calls, t.(asked := None), |t.states|);
    var draft := env.answer(Values(st.retained), st.audit);
    JudgedAnswer(c', st, draft);
    if f in c.facets {
      CitedRetained(c', c, st, draft, f);
      AnswersIff(c.facets[f]);
    }
  }

  lemma CitedRetained(c': Contract, c: Contract, st: State, draft: AnswerDraft, f: Text)
    requires Valid(c') && Strengthens(c', c) && AuditCurrent(c', st) && f in c.facets
    requires ValidateAnswer(c', st.audit, draft.cited).Ok?
    ensures var values := Values(st.retained);
            exists i :: 0 <= i < |values| && values[i].evidence.id in draft.cited
              && Qualifies(c.facets[f], values[i].evidence)
  {
    hide Valid, AuditOf, ValidateAnswer, Qualifies, Values;
    var evidence := MapSeq(EvidenceOf, Values(st.retained));
    CitedSupport(c', evidence, st.relationships, draft.cited, f);
    var i :| 0 <= i < |evidence| && evidence[i].id in draft.cited && Qualifies(c'.facets[f], evidence[i]);
    assert evidence[i] == EvidenceOf(Values(st.retained)[i]);
  }

  // The query that is suggested about a relationship.
  function Suggested(env: Environment, r: RelationshipRequirement): SearchQuery {
    SearchQuery(r.fromFacet, env.spellRelationship(r))
  }

  /** Insufficiency is reported only after exactly the allowed rounds, each incomplete, without
      asking the answerer; something is missing; and exactly one query is suggested for each
      missing facet and each missing relationship, and no others. */
  lemma InsufficiencyIsExhaustion(
    c: Contract, point: OperatingPoint, planner: Option<PlannerProposal>, critic: Option<CriticProposal>,
    env: Environment, q: SearchQuery)
    requires var r := RunSpec(c, point, planner, critic, env).result; r.Ok? && r.value.Insufficient?
    ensures var run := RunSpec(c, point, planner, critic, env);
            var report := run.result.value;
            var t := run.trace;
            && Prepare(c, point, planner, critic).Ok?
            && t.asked == None && |t.requests| == |t.states| == c.budget.maxRounds
            && (forall i :: 0 <= i < |t.states| ==> !t.states[i].audit.complete)
            && (report.missingFacets != [] || report.missingRelationships != [])
            && var c' := Prepare(c, point, planner, critic).value.0;
               (q in report.suggestions <==>
                  || (&& q.facetId in c'.facets && q.facetId in report.missingFacets
                      && q.query == env.spellFacet(c'.facets[q.facetId]))
                  || (exists k :: k in c'.relationships && k in report.missingRelationships
                                  && q == Suggested(env, c'.relationships[k])))
  {
    hide Prepare, RunSpec, Rounds, Valid, AfterRound, RequestOf, AuditOf, InitialState, Judge, Suggestions, Values,
         Strengthens, SumReplies, RetainedBytes, KeyedById, Qualifies, ValidateAnswer, Blank, TotalBytes,
         TotalHops, PathsHeld;
    RanIsPrepared(c, point, planner, critic, env);
    RunIsChain(c, point, planner, critic, env);
    PreparedFacts(c, point, planner, critic);
    var run := RunSpec(c, point, planner, critic, env);
    var (c', calls, queries) := Prepare(c, point, planner, critic).value;
    var t := run.trace;
    if t.asked.Some? { JudgeNeverReportsInsufficiency(c', t.states[|t.states| - 1], env); }
    var st := t.states[|t.states| - 1];
    StatesSound(c', env, queries, calls, t.(asked := None), |t.states|);
    CompleteMeansNothingMissing(c', MapSeq(EvidenceOf, Values(st.retained)), st.relationships);
    SuggestionsExact(c', env, st.audit, q);
    SameBudget(c', c);
  }

  lemma JudgeNeverReportsInsufficiency(c: Contract, st: State, env: Environment)
    ensures var r := Judge(c, st, Values(st.retained), env.answer(Values(st.retained), st.audit));
            r.Ok? ==> r.value.Answered?
  {
    hide ValidateAnswer, Values, Blank;
  }

  lemma SuggestionsExact(c: Contract, env: Environment, audit: Audit, q: SearchQuery)
    requires Valid(c)
    ensures q in Suggestions(c, env, audit)
       <==> || (&& q.facetId in c.facets && q.facetId in audit.missingFacets
                && q.query == env.spellFacet(c.facets[q.facetId]))
            || (exists k :: k in c.relationships && k in audit.missingRelationships
                            && q == Suggested(env, c.relationships[k]))
  {
    ValidKeys(c);
    HardCodedFacts(c, audit, env.spellFacet, q);
    hide Valid, HardCodedQueries, SortBy, RelationshipQueries;
    KeysListed(c.relationships);
    var keys := InOrder(c.relationships.Keys);
    var base := HardCodedQueries(c, audit, env.spellFacet);
    var more := RelationshipQueries(c.relationships, keys, audit.missingRelationships, env.spellRelationship);
    SortedMembers(QueryLeq, base + more, q);
    RelationshipQueriesExact(c.relationships, keys, audit.missingRelationships, env, q);
    assert forall k :: k in keys <==> k in Elements(keys);
  }

  lemma {:induction false} RelationshipQueriesExact(
    rs: map<Text, RelationshipRequirement>, keys: seq<Text>, missing: seq<Text>, env: Environment, q: SearchQuery)
    requires forall i :: 0 <= i < |keys| ==> keys[i] in rs
    requires forall k :: k in rs ==> rs[k].id == k
    ensures q in RelationshipQueries(rs, keys, missing, env.spellRelationship)
       <==> exists k :: k in keys && k in missing && q == Suggested(env, rs[k])
  {
    if keys != [] {
      var n := |keys| - 1;
      assert keys == keys[..n] + [keys[n]];
      RelationshipQueriesExact(rs, keys[..n], missing, env, q);
    }
  }

  // ---------- Budgets ----------

  /** The sum of a measure over the first n replies. */
  function SumReplies(measure: Round -> nat, env: Environment, t: Trace, n: nat): nat
    requires n <= |t.requests|
  {
    if n == 0 then 0 else SumReplies(measure, env, t, n - 1) + measure(Reply(env, t, n - 1))
  }

  function ReturnedItems(r: Round): nat { |r.retained| }

  function ReturnedBytes(r: Round): nat { TotalBytes(r.retained) }

  function ReturnedHops(r: Round): nat { TotalHops(r.retained) }

  function ReturnedCalls(r: Round): nat { r.modelCalls }

  /** The counters are the exact sums over everything returned so far. */
  lemma {:induction false} CountersExact(
    c: Contract, env: Environment, queries: seq<SearchQuery>, calls: byte, t: Trace, i: nat)
    requires Valid(c) && calls <= c.budget.maxModelCalls
    requires Chained(c, env, queries, calls, t) && i <= |t.states|
    ensures var u := At(c, calls, t.states, i).usage;
            && u.candidates == SumReplies(ReturnedItems, env, t, i)
            && u.contextBytes == SumReplies(ReturnedBytes, env, t, i)
            && u.graphHops == SumReplies(ReturnedHops, env, t, i)
            && u.modelCalls == calls + SumReplies(ReturnedCalls, env, t, i)
  {
    hide Valid, Advances, StateFollows, RequestFollows, AuditOf;
    if i > 0 {
      CountersExact(c, env, queries, calls, t, i - 1);
      StatesAdvance(c, env, queries, calls, t, i - 1);
    }
  }

  /** On every outcome the counters are exact sums and lie within the caller's own budget, the
      answer call included; and counted bytes bound the bytes of the evidence retained. */
  lemma BudgetsHold(
    c: Contract, point: OperatingPoint, planner: Option<PlannerProposal>, critic: Option<CriticProposal>,
    env: Environment)
    requires RunSpec(c, point, planner, critic, env).result.Ok?
    ensures var run := RunSpec(c, point, planner, critic, env);
            var t, u := run.trace, run.result.value.usage;
            var answerCalls := if run.result.value.Answered? then 1 else 0;
            && Prepare(c, point, planner, critic).Ok? && |t.states| <= |t.requests|
            && var calls := Prepare(c, point, planner, critic).value.1;
            && u.rounds == |t.states| <= c.budget.maxRounds
            && u.candidates == SumReplies(ReturnedItems, env, t, |t.states|)
            && u.contextBytes == SumReplies(ReturnedBytes, env, t, |t.states|) <= c.budget.maxContextBytes
            && u.graphHops == SumReplies(ReturnedHops, env, t, |t.states|)
            && u.maxGraphHops <= c.budget.maxGraphHops
            && u.modelCalls
              == calls + SumReplies(ReturnedCalls, env, t, |t.states|) + answerCalls <= c.budget.maxModelCalls
            && (t.states != [] ==> RetainedBytes(t.states[|t.states| - 1].retained) <= u.contextBytes)
            && (forall i :: 0 <= i < |t.states| ==> |Reply(env, t, i).retained| <= c.budget.maxCandidatesPerRound)
  {
    hide Prepare, RunSpec, Rounds, Valid, AfterRound, RequestOf, AuditOf, InitialState, Judge, Suggestions, Values,
         Strengthens, SumReplies, RetainedBytes, KeyedById, Qualifies, ValidateAnswer, Blank, TotalBytes,
         TotalHops, PathsHeld;
    RanIsPrepared(c, point, planner, critic, env);
    RunIsChain(c, point, planner, critic, env);
    PreparedFacts(c, point, planner, critic);
    var run := RunSpec(c, point, planner, critic, env);
    var (c', calls, queries) := Prepare(c, point, planner, critic).value;
    var t := run.trace;
    SameBudget(c', c);
    if t.asked.Some? {
      var last := t.states[|t.states| - 1];
      JudgedUsage(c', last, env.answer(Values(last.retained), last.audit));
    }
    StatesSound(c', env, queries, calls, t.(asked := None), |t.states|);
    CountersExact(c', env, queries, calls, t.(asked := None), |t.states|);
    SumIgnoresAsked(env, t, |t.states|);
    RepliesWithinBudget(c', env, queries, calls, t.(asked := None));
    assert forall i :: 0 <= i < |t.states| ==> Reply(env, t, i) == Reply(env, t.(asked := None), i);
  }

  lemma SameBudget(c': Contract, c: Contract)
    requires Strengthens(c', c)
    ensures c'.budget == c.budget
  {
  }

  lemma RepliesWithinBudget(c: Contract, env: Environment, queries: seq<SearchQuery>, calls: byte, t: Trace)
    requires Chained(c, env, queries, calls, t)
    ensures forall i :: 0 <= i < |t.states| ==> |Reply(env, t, i).retained| <= c.budget.maxCandidatesPerRound
  {
    hide RequestFollows, AfterRound, InitialState, AuditCurrent, IdsOf;
    forall i | 0 <= i < |t.states| ensures |Reply(env, t, i).retained| <= c.budget.maxCandidatesPerRound {
      assert StateFollows(c, env, calls, t, i);
      RoundAdmits(c, At(c, calls, t.states, i), i + 1, Reply(env, t, i));
    }
  }

  lemma JudgedUsage(c: Contract, st: State, draft: AnswerDraft)
    requires Judge(c, st, Values(st.retained), draft).Ok?
    ensures var o := Judge(c, st, Values(st.retained), draft).value;
            o.Answered? && o.usage == st.usage.(modelCalls := st.usage.modelCalls + 1)
  {
    hide ValidateAnswer, Values, Blank;
  }

  lemma {:induction false} SumIgnoresAsked(env: Environment, t: Trace, n: nat)
    requires n <= |t.requests|
    ensures forall m: Round -> nat :: SumReplies(m, env, t.(asked := None), n) == SumReplies(m, env, t, n)
  {
    if n > 0 { SumIgnoresAsked(env, t, n - 1); }
  }
}
