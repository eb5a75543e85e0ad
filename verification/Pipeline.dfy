/** The bounded investigation run: rounds of acquisition from an arbitrary environment,
    a deterministic audit after each, and an answerer behind the audit. */
module Pipeline {
  import opened Bytes
  import opened Text
  import opened Sorting
  import opened TextSets
  import opened Investigation
  import opened Planning

  datatype OperatingPoint = HardRulesOnly | FastPlanner | PlannerAndCritic

  datatype Provenance = Provenance(
    lexicalRank: Option<u16>, semanticRank: Option<u16>, graphPath: seq<EvidenceRelationship>, graphHops: byte,
    rerankRank: u16, retrievalScoreMicros: int, rerankScoreMicros: Option<int>)

  datatype Acquired = Acquired(evidence: Evidence, contextBytes: u32, provenance: Provenance)

  datatype Request = Request(
    round: byte, missingFacets: seq<Text>, missingRelationships: seq<Text>, queries: seq<SearchQuery>,
    maxCandidates: u16, remainingContextBytes: u32, maxGraphHops: byte)

  datatype Round = Round(retained: seq<Acquired>, relationships: seq<EvidenceRelationship>, modelCalls: byte)

  datatype AnswerDraft = AnswerDraft(text: Text, cited: set<Text>, claimed: seq<EvidenceRelationship>)

  // Saturating additions keep candidates, contextBytes and graphHops within 32 bits and modelCalls within 8.
  datatype Usage = Usage(rounds: nat, candidates: nat, contextBytes: nat, graphHops: nat, maxGraphHops: nat,
    modelCalls: nat)

  datatype Outcome =
    | Answered(answer: AnswerDraft, audit: Audit, evidence: seq<Acquired>, relationships: seq<EvidenceRelationship>,
      usage: Usage)
    | Insufficient(missingFacets: seq<Text>, missingRelationships: seq<Text>, suggestions: seq<SearchQuery>,
      usage: Usage)

  datatype Limit = ModelCalls | Candidates | Relationships | GraphHops | ContextBytes | AnswererModelCall

  datatype PipelineError =
    | BadContract(contractError: ContractError) | MissingPlanner | MissingCritic
    | BadProposal(proposalError: ProposalError)
    | OverBudget(limit: Limit) | InvalidProvenance | ConflictingEvidence | BlankAnswer
    | AnswerRejected(answerError: AnswerError) | CitesUnretained | UnsupportedRelationship

  /** The environment. The acquirer may keep state, so its reply depends on every request
      so far; the answerer sees the evidence and the audit. The spellings are the debug
      formats of facets and relationships in query texts. */
  datatype Environment = Environment(
    acquire: seq<Request> -> Round,
    answer: (seq<Acquired>, Audit) -> AnswerDraft,
    spellFacet: FacetRequirement -> Text,
    spellRelationship: RelationshipRequirement -> Text)

  // What a run holds between rounds.
  datatype State = State(
    usage: Usage, retained: map<Text, Acquired>, relationships: seq<EvidenceRelationship>, audit: Audit)

  // What a run did: its requests, the state after each completed round, and what the answerer saw.
  datatype Trace = Trace(requests: seq<Request>, states: seq<State>, asked: Option<(seq<Acquired>, Audit)>)

  datatype Run = Run(result: Result<Outcome, PipelineError>, trace: Trace)

  // ---------- Ordered containers ----------

  function KindKey(k: RelationshipKind): seq<seq<int>> {
    match k
    case Produces => [[0]]
    case LoadedBy => [[1]]
    case DispatchesTo => [[2]]
    case RunsIn => [[3]]
    case InvokedBy => [[4]]
    case OtherKind(name) => [[5], name]
  }

  predicate RelationLeq(a: EvidenceRelationship, b: EvidenceRelationship) {
    TupleLeq([a.fromEvidence, a.toEvidence] + KindKey(a.kind), [b.fromEvidence, b.toEvidence] + KindKey(b.kind))
  }

  predicate QueryLeq(a: SearchQuery, b: SearchQuery) { TupleLeq([a.facetId, a.query], [b.facetId, b.query]) }

  /** Extending a BTreeSet, as its listing in order. */
  function Union(rows: seq<EvidenceRelationship>, more: seq<EvidenceRelationship>): seq<EvidenceRelationship> {
    Dedup(SortBy(RelationLeq, rows + more))
  }

  function EvidenceOf(a: Acquired): Evidence { a.evidence }

  // ---------- Before the rounds ----------

  /** Applies the proposals that the operating point calls for. */
  function Prepare(c: Contract, point: OperatingPoint, planner: Option<PlannerProposal>, critic: Option<CriticProposal>)
    : Result<(Contract, byte, seq<SearchQuery>), PipelineError>
  {
    match Investigation.Validate(c)
    case Err(e) => Err(BadContract(e))
    case Ok(_) =>
      if point == HardRulesOnly then Ok((c, 0, []))
      else if planner.None? then Err(MissingPlanner)
      else
        match Apply(planner.value, c)
        case Err(e) => Err(BadProposal(e))
        case Ok(c1) =>
          if point == FastPlanner then CheckedCalls(c1, 1, planner.value.searchQueries)
          else if critic.None? then Err(MissingCritic)
          else
            match ApplyCritic(critic.value, c1)
            case Err(e) => Err(BadProposal(e))
            case Ok(c2) => CheckedCalls(c2, 2, planner.value.searchQueries + critic.value.searchQueries)
  }

  function CheckedCalls(
    c: Contract, calls: byte, queries: seq<SearchQuery>): Result<(Contract, byte, seq<SearchQuery>), PipelineError> {
    if calls > c.budget.maxModelCalls then Err(OverBudget(ModelCalls)) else Ok((c, calls, queries))
  }

  ghost function InitialState(c: Contract, calls: byte): State {
    State(Usage(0, 0, 0, 0, 0, calls), map[], [], AuditOf(c, [], []))
  }

  // ---------- One round ----------

  function AboutMissing(queries: seq<SearchQuery>, missing: set<Text>): seq<SearchQuery> {
    if queries == [] then []
    else
      var n := |queries| - 1;
      AboutMissing(queries[..n], missing) + (if queries[n].facetId in missing then [queries[n]] else [])
  }

  ghost function RequestOf(
    c: Contract, env: Environment, modelQueries: seq<SearchQuery>, st: State, round: byte): Request {
    var queries := HardCodedQueries(c, st.audit, env.spellFacet)
        + AboutMissing(modelQueries, Elements(st.audit.missingFacets));
    Request(round, st.audit.missingFacets, st.audit.missingRelationships, Dedup(SortBy(QueryLeq, queries)),
            c.budget.maxCandidatesPerRound, Max(c.budget.maxContextBytes as int - st.usage.contextBytes, 0),
            c.budget.maxGraphHops)
  }

  /** `EvidenceProvenance::validate`. */
  predicate ProvenanceOk(p: Provenance) {
    && (p.lexicalRank.Some? || p.semanticRank.Some? || p.graphPath != [])
    && (p.lexicalRank.Some? ==> p.lexicalRank.value > 0)
    && (p.semanticRank.Some? ==> p.semanticRank.value > 0)
    && p.rerankRank > 0
    && p.graphHops == |p.graphPath|
  }

  predicate PathOk(path: seq<EvidenceRelationship>, rels: seq<EvidenceRelationship>, available: set<Text>) {
    forall i | 0 <= i < |path| :: path[i] in rels && path[i].fromEvidence in available
        && path[i].toEvidence in available
  }

  /** One returned item: checked, counted, and kept unless already held unchanged. */
  function Admit(
    b: RoundBudget, rels: seq<EvidenceRelationship>, available: set<Text>, usage: Usage, retained: map<Text, Acquired>,
    item: Acquired)
    : Result<(Usage, map<Text, Acquired>), PipelineError>
  {
    var p := item.provenance;
    if !ProvenanceOk(p) then Err(InvalidProvenance)
    else if p.graphHops > b.maxGraphHops then Err(OverBudget(GraphHops))
    else if !PathOk(p.graphPath, rels, available) then Err(InvalidProvenance)
    else
      var usage' := usage.(
        contextBytes := SaturatingAdd(usage.contextBytes, item.contextBytes, U32_MAX),
        graphHops := SaturatingAdd(usage.graphHops, p.graphHops, U32_MAX),
        maxGraphHops := Max(usage.maxGraphHops, p.graphHops));
      if usage'.contextBytes > b.maxContextBytes then Err(OverBudget(ContextBytes))
      else if item.evidence.id in retained then
        (if retained[item.evidence.id] == item then Ok((usage', retained)) else Err(ConflictingEvidence))
      else Ok((usage', retained[item.evidence.id := item]))
  }

  function AdmitAll(
    b: RoundBudget, rels: seq<EvidenceRelationship>, available: set<Text>, usage: Usage, retained: map<Text, Acquired>,
    items: seq<Acquired>)
    : Result<(Usage, map<Text, Acquired>), PipelineError>
    decreases |items|
  {
    if items == [] then Ok((usage, retained))
    else
      var (usage', retained') :- AdmitAll(b, rels, available, usage, retained, items[..|items| - 1]);
      Admit(b, rels, available, usage', retained', items[|items| - 1])
  }

  function IdsOf(items: seq<Acquired>): set<Text> { set a | a in items :: a.evidence.id }

  /** The state after a round, or the error that ends the run. */
  ghost function AfterRound(c: Contract, st: State, round: byte, result: Round): Result<State, PipelineError> {
    if |result.retained| > c.budget.maxCandidatesPerRound then Err(OverBudget(Candidates))
    else if |result.relationships| > c.budget.maxCandidatesPerRound then Err(OverBudget(Relationships))
    else
      var usage := st.usage.(
        rounds := round,
        candidates := SaturatingAdd(st.usage.candidates, |result.retained|, U32_MAX),
        modelCalls := SaturatingAdd(st.usage.modelCalls, result.modelCalls, U8_MAX));
      if usage.modelCalls > c.budget.maxModelCalls then Err(OverBudget(ModelCalls))
      else
        var available := st.retained.Keys + IdsOf(result.retained);
        var (usage', retained) :- AdmitAll(c.budget, result.relationships, available, usage, st.retained,
            result.retained);
        var relationships := Union(st.relationships, result.relationships);
        Ok(State(usage', retained, relationships, AuditOf(c, MapSeq(EvidenceOf, Values(retained)), relationships)))
  }

  // ---------- Ending a run ----------

  /** The answerer's turn, after a complete audit. */
  ghost function Finish(c: Contract, env: Environment, st: State, requests: seq<Request>, states: seq<State>): Run {
    if st.usage.modelCalls == c.budget.maxModelCalls then
      Run(Err(OverBudget(AnswererModelCall)), Trace(requests, states, None))
    else
      var evidence := Values(st.retained);
      var draft := env.answer(evidence, st.audit);
      Run(Judge(c, st, evidence, draft), Trace(requests, states, Some((evidence, st.audit))))
  }

  /** The checks on a drafted answer. */
  ghost function Judge(
    c: Contract, st: State, evidence: seq<Acquired>, draft: AnswerDraft): Result<Outcome, PipelineError> {
    if Blank(draft.text) then Err(BlankAnswer)
    else
      match ValidateAnswer(c, st.audit, draft.cited)
      case Err(e) => Err(AnswerRejected(e))
      case Ok(_) =>
        if !(draft.cited <= IdsOf(evidence)) then Err(CitesUnretained)
        else if exists i | 0 <= i < |draft.claimed| :: draft.claimed[i] !in st.relationships
            then Err(UnsupportedRelationship)
        else Ok(Answered(draft, st.audit, evidence, st.relationships, st.usage.(modelCalls := st.usage.modelCalls + 1)))
  }

  function RelationshipQueries(
    relationships: map<Text, RelationshipRequirement>, keys: seq<Text>, missing: seq<Text>,
    spell: RelationshipRequirement -> Text)
    : seq<SearchQuery>
    requires forall i :: 0 <= i < |keys| ==> keys[i] in relationships
  {
    if keys == [] then []
    else
      var n := |keys| - 1;
      var r := relationships[keys[n]];
      RelationshipQueries(relationships, keys[..n], missing, spell)
      + (if r.id in missing then [SearchQuery(r.fromFacet, spell(r))] else [])
  }

  ghost function Suggestions(c: Contract, env: Environment, audit: Audit): seq<SearchQuery> {
    KeysListed(c.relationships);
    Dedup(SortBy(QueryLeq,
      HardCodedQueries(c, audit, env.spellFacet)
      + RelationshipQueries(c.relationships, InOrder(c.relationships.Keys), audit.missingRelationships,
        env.spellRelationship)))
  }

  // ---------- The run ----------

  ghost function Rounds(
    c: Contract, env: Environment, modelQueries: seq<SearchQuery>, st: State, round: nat, requests: seq<Request>,
    states: seq<State>)
    : Run
    requires round >= 1
    decreases c.budget.maxRounds - round
  {
    if round > c.budget.maxRounds then
      Run(Ok(Insufficient(st.audit.missingFacets, st.audit.missingRelationships, Suggestions(c, env, st.audit),
        st.usage)),
          Trace(requests, states, None))
    else
      var requests' := requests + [RequestOf(c, env, modelQueries, st, round)];
      match AfterRound(c, st, round, env.acquire(requests'))
      case Err(e) => Run(Err(e), Trace(requests', states, None))
      case Ok(st') =>
        if st'.audit.complete then Finish(c, env, st', requests', states + [st'])
        else Rounds(c, env, modelQueries, st', round + 1, requests', states + [st'])
  }

  /** `InvestigationPipeline::run`. */
  ghost function RunSpec(
    c: Contract, point: OperatingPoint, planner: Option<PlannerProposal>, critic: Option<CriticProposal>,
    env: Environment): Run
  {
    match Prepare(c, point, planner, critic)
    case Err(e) => Run(Err(e), Trace([], [], None))
    case Ok((c', calls, queries)) => Rounds(c', env, queries, InitialState(c', calls), 1, [], [])
  }

  // ---------- The run as it is executed ----------

  method BuildRequest(
    c: Contract, env: Environment, modelQueries: seq<SearchQuery>, st: State, round: byte)
    returns (r: Request)
    ensures r == RequestOf(c, env, modelQueries, st, round)
  {
    hide SortBy, HardCodedQueries;
    var queries := HardCodedProposal(c, st.audit, env.spellFacet);
    var missing := Elements(st.audit.missingFacets);
    var extra: seq<SearchQuery> := [];
    for i := 0 to |modelQueries|
      invariant extra == AboutMissing(modelQueries[..i], missing)
    {
      assert modelQueries[..i + 1][..i] == modelQueries[..i];
      if modelQueries[i].facetId in missing {
        extra := extra + [modelQueries[i]];
      }
    }
    assert modelQueries[..|modelQueries|] == modelQueries;
    r := Request(
      round, st.audit.missingFacets, st.audit.missingRelationships, Dedup(SortBy(QueryLeq, queries + extra)),
      c.budget.maxCandidatesPerRound, Max(c.budget.maxContextBytes as int - st.usage.contextBytes, 0),
      c.budget.maxGraphHops);
  }

  method AdmitItems(b: RoundBudget, usage0: Usage, retained0: map<Text, Acquired>, result: Round)
    returns (r: Result<(Usage, map<Text, Acquired>), PipelineError>)
    ensures var available := retained0.Keys + IdsOf(result.retained);
            r == AdmitAll(b, result.relationships, available, usage0, retained0, result.retained)
  {
    hide ProvenanceOk, PathOk, AdmitAll, IdsOf;
    var usage, retained := usage0, retained0;
    var available := retained.Keys + IdsOf(result.retained);
    var items := result.retained;
    NothingToAdmit(b, result.relationships, available, usage0, retained0);
    for i := 0 to |items|
      invariant AdmitAll(b, result.relationships, available, usage0, retained0, items[..i]) == Ok((usage, retained))
    {
      var item := items[i];
      AdmitOneMore(b, result.relationships, available, usage0, retained0, items, i);
      AdmitFailureIsFinal(b, result.relationships, available, usage0, retained0, items, i + 1);
      if !ProvenanceOk(item.provenance) {
        return Err(InvalidProvenance);
      }
      if item.provenance.graphHops > b.maxGraphHops {
        return Err(OverBudget(GraphHops));
      }
      if !PathOk(item.provenance.graphPath, result.relationships, available) {
        return Err(InvalidProvenance);
      }
      usage := usage.(
        contextBytes := SaturatingAdd(usage.contextBytes, item.contextBytes, U32_MAX),
        graphHops := SaturatingAdd(usage.graphHops, item.provenance.graphHops, U32_MAX),
        maxGraphHops := Max(usage.maxGraphHops, item.provenance.graphHops));
      if usage.contextBytes > b.maxContextBytes {
        return Err(OverBudget(ContextBytes));
      }
      if item.evidence.id in retained {
        if retained[item.evidence.id] != item {
          return Err(ConflictingEvidence);
        }
      } else {
        retained := retained[item.evidence.id := item];
      }
    }
    assert items[..|items|] == items;
    r := Ok((usage, retained));
  }

  lemma NothingToAdmit(
    b: RoundBudget, rels: seq<EvidenceRelationship>, available: set<Text>, usage: Usage, retained: map<Text, Acquired>)
    ensures AdmitAll(b, rels, available, usage, retained, []) == Ok((usage, retained))
  {
  }

  lemma AdmitOneMore(
    b: RoundBudget, rels: seq<EvidenceRelationship>, available: set<Text>, usage: Usage, retained: map<Text, Acquired>,
    items: seq<Acquired>, i: nat)
    requires i < |items| && AdmitAll(b, rels, available, usage, retained, items[..i]).Ok?
    ensures var (u, m) := AdmitAll(b, rels, available, usage, retained, items[..i]).value;
            AdmitAll(b, rels, available, usage, retained, items[..i + 1]) == Admit(b, rels, available, u, m, items[i])
  {
    hide Admit;
    assert items[..i + 1][..i] == items[..i];
  }

  lemma {:induction false} AdmitFailureIsFinal(
    b: RoundBudget, rels: seq<EvidenceRelationship>, available: set<Text>, usage: Usage, retained: map<Text, Acquired>,
    items: seq<Acquired>, n: nat)
    requires n <= |items|
    ensures AdmitAll(b, rels, available, usage, retained, items[..n]).Err? ==>
              AdmitAll(b, rels, available, usage, retained, items)
                == AdmitAll(b, rels, available, usage, retained, items[..n])
    decreases |items|
  {
    hide Admit;
    if n == |items| {
      assert items[..n] == items;
    } else {
      assert items[..|items| - 1][..n] == items[..n];
      AdmitFailureIsFinal(b, rels, available, usage, retained, items[..|items| - 1], n);
    }
  }

  method PlayRound(c: Contract, st: State, round: byte, result: Round) returns (r: Result<State, PipelineError>)
    ensures r == AfterRound(c, st, round, result)
  {
    hide AuditOf, AdmitAll, Values, SortBy;
    if |result.retained| > c.budget.maxCandidatesPerRound {
      return Err(OverBudget(Candidates));
    }
    if |result.relationships| > c.budget.maxCandidatesPerRound {
      return Err(OverBudget(Relationships));
    }
    var usage := st.usage.(
      rounds := round,
      candidates := SaturatingAdd(st.usage.candidates, |result.retained|, U32_MAX),
      modelCalls := SaturatingAdd(st.usage.modelCalls, result.modelCalls, U8_MAX));
    if usage.modelCalls > c.budget.maxModelCalls {
      return Err(OverBudget(ModelCalls));
    }
    var admitted :- AdmitItems(c.budget, usage, st.retained, result);
    var relationships := Union(st.relationships, result.relationships);
    var values := ListValues(admitted.1);
    var audit := PerformAudit(c, MapSeq(EvidenceOf, values), relationships);
    r := Ok(State(admitted.0, admitted.1, relationships, audit));
  }

  method AskAnswerer(
    c: Contract, env: Environment, st: State, requests: seq<Request>, states: seq<State>)
    returns (r: Run)
    ensures r == Finish(c, env, st, requests, states)
  {
    hide ValidateAnswer, Values, Blank;
    if st.usage.modelCalls == c.budget.maxModelCalls {
      return Run(Err(OverBudget(AnswererModelCall)), Trace(requests, states, None));
    }
    var evidence := ListValues(st.retained);
    var draft := env.answer(evidence, st.audit);
    var trace := Trace(requests, states, Some((evidence, st.audit)));
    if Blank(draft.text) {
      return Run(Err(BlankAnswer), trace);
    }
    var verdict := CheckAnswer(c, st.audit, draft.cited);
    if verdict.Err? {
      return Run(Err(AnswerRejected(verdict.error)), trace);
    }
    if !(draft.cited <= IdsOf(evidence)) {
      return Run(Err(CitesUnretained), trace);
    }
    if exists i | 0 <= i < |draft.claimed| :: draft.claimed[i] !in st.relationships {
      return Run(Err(UnsupportedRelationship), trace);
    }
    r := Run(
      Ok(Answered(draft, st.audit, evidence, st.relationships, st.usage.(modelCalls := st.usage.modelCalls + 1))),
        trace);
  }

  method Suggest(c: Contract, env: Environment, audit: Audit) returns (suggestions: seq<SearchQuery>)
    ensures suggestions == Suggestions(c, env, audit)
  {
    hide SortBy, HardCodedQueries, InOrder, Dedup, QueryLeq;
    suggestions := HardCodedProposal(c, audit, env.spellFacet);
    ghost var base := suggestions;
    var keys := SortedKeys(c.relationships);
    KeysListed(c.relationships);
    for i := 0 to |keys|
      invariant suggestions == base
          + RelationshipQueries(c.relationships, keys[..i], audit.missingRelationships, env.spellRelationship)
    {
      assert keys[..i + 1][..i] == keys[..i];
      var r := c.relationships[keys[i]];
      if r.id in audit.missingRelationships {
        suggestions := suggestions + [SearchQuery(r.fromFacet, env.spellRelationship(r))];
      }
    }
    assert keys[..|keys|] == keys;
    suggestions := Dedup(SortBy(QueryLeq, suggestions));
  }

  method PrepareRun(
    c: Contract, point: OperatingPoint, planner: Option<PlannerProposal>, critic: Option<CriticProposal>)
    returns (r: Result<(Contract, byte, seq<SearchQuery>), PipelineError>)
    ensures r == Prepare(c, point, planner, critic)
  {
    hide Investigation.Validate, Apply, ApplyCritic;
    var verdict := Investigation.Validate(c);
    if verdict.Err? {
      return Err(BadContract(verdict.error));
    }
    var contract := c;
    var calls: byte := 0;
    var modelQueries: seq<SearchQuery> := [];
    if point != HardRulesOnly {
      if planner.None? {
        return Err(MissingPlanner);
      }
      var applied := ApplyPlanner(planner.value, contract);
      if applied.Err? {
        return Err(BadProposal(applied.error));
      }
      contract := applied.value;
      calls := 1;
      modelQueries := planner.value.searchQueries;
      if point == PlannerAndCritic {
        if critic.None? {
          return Err(MissingCritic);
        }
        var reviewed := ApplyCritic(critic.value, contract);
        if reviewed.Err? {
          return Err(BadProposal(reviewed.error));
        }
        contract := reviewed.value;
        calls := 2;
        modelQueries := modelQueries + critic.value.searchQueries;
      }
    }
    if calls > contract.budget.maxModelCalls {
      return Err(OverBudget(ModelCalls));
    }
    r := Ok((contract, calls, modelQueries));
  }

  method RunInvestigation(
    c: Contract, point: OperatingPoint, planner: Option<PlannerProposal>, critic: Option<CriticProposal>,
    env: Environment)
    returns (run: Run)
    ensures run == RunSpec(c, point, planner, critic, env)
  {
    hide Prepare, AfterRound, AuditOf, RequestOf, Finish, Suggestions;
    var prepared := PrepareRun(c, point, planner, critic);
    if prepared.Err? {
      return Run(Err(prepared.error), Trace([], [], None));
    }
    var (contract, calls, modelQueries) := prepared.value;
    var audit := PerformAudit(contract, [], []);
    var st := State(Usage(0, 0, 0, 0, 0, calls), map[], [], audit);
    var requests: seq<Request> := [];
    var states: seq<State> := [];
    for round := 1 to contract.budget.maxRounds as int + 1
      invariant Rounds(contract, env, modelQueries, st, round, requests, states)
             == Rounds(contract, env, modelQueries, InitialState(contract, calls), 1, [], [])
    {
      var request := BuildRequest(contract, env, modelQueries, st, round);
      requests := requests + [request];
      var played := PlayRound(contract, st, round, env.acquire(requests));
      if played.Err? {
        return Run(Err(played.error), Trace(requests, states, None));
      }
      st := played.value;
      states := states + [st];
      if st.audit.complete {
        run := AskAnswerer(contract, env, st, requests, states);
        return;
      }
    }
    var suggestions := Suggest(contract, env, st.audit);
    run := Run(
      Ok(Insufficient(st.audit.missingFacets, st.audit.missingRelationships, suggestions, st.usage)),
      Trace(requests, states, None));
  }
}
