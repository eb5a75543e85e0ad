/** Bounded proposals of optional planners and critics. */
module Planning {
  import opened Bytes
  import opened Text
  import opened Sorting
  import opened TextSets
  import opened Investigation
  import opened Completeness

  const PLANNER_SCHEMA: u16 := 1
  const MAX_ADDITIONS: nat := 8
  const MAX_SEARCH_QUERIES: nat := 8
  const MAX_QUERY_BYTES: nat := 256

  datatype SearchQuery = SearchQuery(facetId: Text, query: Text)

  datatype PlannerProposal = PlannerProposal(
    schema: u16, facetAdditions: seq<FacetRequirement>, relationshipAdditions: seq<RelationshipRequirement>,
    searchQueries: seq<SearchQuery>, requestCritic: bool)

  datatype CriticProposal = CriticProposal(
    schema: u16, facetAdditions: seq<FacetRequirement>, relationshipAdditions: seq<RelationshipRequirement>,
    searchQueries: seq<SearchQuery>, concerns: seq<Text>)

  datatype ProposalError =
    | InvalidSchema | LimitExceeded | UnknownQueryFacet | InvalidQuery | InvalidConcern
    | ContractFailure(error: ContractError)

  predicate BadText(t: Text) { Blank(t) || |t| > MAX_QUERY_BYTES || HasControl(t) }

  /** The first fault among the queries, scanned in order; `seen` are the earlier ones. */
  function QueryFault(
    facets: map<Text, FacetRequirement>, queries: seq<SearchQuery>, seen: set<SearchQuery>): Option<ProposalError>
    decreases |queries|
  {
    if queries == [] then None
    else if queries[0].facetId !in facets then Some(UnknownQueryFacet)
    else if BadText(queries[0].query) || queries[0] in seen then Some(InvalidQuery)
    else QueryFault(facets, queries[1..], seen + {queries[0]})
  }

  /** `PlannerProposal::apply`. */
  function Apply(p: PlannerProposal, c: Contract): Result<Contract, ProposalError> {
    if p.schema != PLANNER_SCHEMA then Err(InvalidSchema)
    else if || |p.facetAdditions| > MAX_ADDITIONS || |p.relationshipAdditions| > MAX_ADDITIONS
            || |p.searchQueries| > MAX_SEARCH_QUERIES then Err(ProposalError.LimitExceeded)
    else
      match Extended(c, p.facetAdditions, p.relationshipAdditions)
      case Err(e) => Err(ContractFailure(e))
      case Ok(extended) =>
        match QueryFault(extended.facets, p.searchQueries, {})
        case Some(e) => Err(e)
        case None => Ok(extended)
  }

  method ApplyPlanner(p: PlannerProposal, c: Contract) returns (r: Result<Contract, ProposalError>)
    ensures r == Apply(p, c)
  {
    hide BadText, Extended;
    if p.schema != PLANNER_SCHEMA {
      return Err(InvalidSchema);
    }
    if || |p.facetAdditions| > MAX_ADDITIONS || |p.relationshipAdditions| > MAX_ADDITIONS
       || |p.searchQueries| > MAX_SEARCH_QUERIES
    {
      return Err(ProposalError.LimitExceeded);
    }
    var extension := Extend(c, p.facetAdditions, p.relationshipAdditions);
    if extension.Err? {
      return Err(ContractFailure(extension.error));
    }
    var facets := extension.value.facets;
    var queries := p.searchQueries;
    var unique: set<SearchQuery> := {};
    assert queries[0..] == queries;
    for i := 0 to |queries|
      invariant QueryFault(facets, queries[i..], unique) == QueryFault(facets, queries, {})
    {
      assert queries[i..][1..] == queries[i + 1..];
      if queries[i].facetId !in facets {
        return Err(UnknownQueryFacet);
      }
      if BadText(queries[i].query) || queries[i] in unique {
        return Err(InvalidQuery);
      }
      unique := unique + {queries[i]};
    }
    r := Ok(extension.value);
  }

  /** `CriticProposal::apply`: the same additions, and bounded concerns that change nothing. */
  function ApplyCritic(p: CriticProposal, c: Contract): Result<Contract, ProposalError> {
    if |p.concerns| > MAX_ADDITIONS
      || exists i | 0 <= i < |p.concerns| :: BadText(p.concerns[i]) then Err(InvalidConcern)
    else Apply(PlannerProposal(p.schema, p.facetAdditions, p.relationshipAdditions, p.searchQueries, false), c)
  }

  /** An accepted proposal only adds. */
  lemma AppliedStrengthens(p: PlannerProposal, c: Contract)
    requires Apply(p, c).Ok?
    ensures Valid(c) && Valid(Apply(p, c).value) && Strengthens(Apply(p, c).value, c)
  {
    hide Valid, QueryFault;
    ExtensionStrengthens(c, p.facetAdditions, p.relationshipAdditions);
  }

  /** Accepted queries name known facets, are well formed and pairwise different. */
  lemma {:induction false} AcceptedQueries(
    facets: map<Text, FacetRequirement>, queries: seq<SearchQuery>, seen: set<SearchQuery>)
    ensures QueryFault(facets, queries, seen).None?
       <==> && (forall i :: 0 <= i < |queries| ==>
                  queries[i].facetId in facets && !BadText(queries[i].query) && queries[i] !in seen)
            && NoDuplicates(queries)
    decreases |queries|
  {
    hide BadText;
    if queries != [] {
      AcceptedQueries(facets, queries[1..], seen + {queries[0]});
      assert NoDuplicates(queries) <==> NoDuplicates(queries[1..]) && queries[0] !in queries[1..];
      assert forall i :: 0 < i < |queries| ==> queries[i] == queries[1..][i - 1];
    }
  }

  // ---------- Any number of proposals ----------

  datatype Proposal = FromPlanner(planner: PlannerProposal) | FromCritic(critic: CriticProposal)

  function ApplyOne(p: Proposal, c: Contract): Result<Contract, ProposalError> {
    match p
    case FromPlanner(planner) => Apply(planner, c)
    case FromCritic(critic) => ApplyCritic(critic, c)
  }

  function ApplyAll(ps: seq<Proposal>, c: Contract): Result<Contract, ProposalError> {
    if ps == [] then Ok(c)
    else
      var c' :- ApplyAll(ps[..|ps| - 1], c);
      ApplyOne(ps[|ps| - 1], c')
  }

  lemma {:induction false} AcceptedProposalsStrengthen(ps: seq<Proposal>, c: Contract)
    requires Valid(c) && ApplyAll(ps, c).Ok?
    ensures Valid(ApplyAll(ps, c).value) && Strengthens(ApplyAll(ps, c).value, c)
  {
    hide Valid, Apply;
    if ps != [] {
      var n := |ps| - 1;
      AcceptedProposalsStrengthen(ps[..n], c);
      var c' := ApplyAll(ps[..n], c).value;
      var p := match ps[n]
        case FromPlanner(planner) => planner
        case FromCritic(q) =>
          PlannerProposal(q.schema, q.facetAdditions, q.relationshipAdditions, q.searchQueries, false);
      AppliedStrengthens(p, c');
      StrengthensTransitive(ApplyAll(ps, c).value, c', c);
    }
  }

  /** No sequence of accepted proposals makes completion or answering easier. */
  lemma ProposalsNeverWeaken(
    ps: seq<Proposal>, c: Contract, evidence: seq<Evidence>, rels: seq<EvidenceRelationship>, cited: set<Text>)
    requires Valid(c) && ApplyAll(ps, c).Ok?
    ensures var c' := ApplyAll(ps, c).value;
            var a, a' := AuditOf(c, evidence, rels), AuditOf(c', evidence, rels);
            && c'.budget == c.budget
            && (a'.complete ==> a.complete)
            && (ValidateAnswer(c', a', cited).Ok? ==> ValidateAnswer(c, a, cited).Ok?)
  {
    hide Valid, AuditOf, ValidateAnswer, ApplyAll;
    AcceptedProposalsStrengthen(ps, c);
    NeverWeakens(ApplyAll(ps, c).value, c, evidence, rels, cited);
  }

  // ---------- The baseline ----------

  /** How a facet is spelled out as a query; the format plays no part. */
  type Spelling = FacetRequirement -> Text

  function QueriesFor(
    facets: map<Text, FacetRequirement>, keys: seq<Text>, missing: set<Text>, spell: Spelling): seq<SearchQuery>
    requires forall i :: 0 <= i < |keys| ==> keys[i] in facets
  {
    if keys == [] then []
    else
      var n := |keys| - 1;
      var f := facets[keys[n]];
      QueriesFor(facets, keys[..n], missing, spell) + (if f.id in missing then [SearchQuery(f.id, spell(f))] else [])
  }

  /** `hard_coded_proposal`: one query per missing facet, in key order. */
  ghost function HardCodedQueries(c: Contract, audit: Audit, spell: Spelling): seq<SearchQuery> {
    KeysListed(c.facets);
    QueriesFor(c.facets, InOrder(c.facets.Keys), Elements(audit.missingFacets), spell)
  }

  method HardCodedProposal(c: Contract, audit: Audit, spell: Spelling) returns (queries: seq<SearchQuery>)
    ensures queries == HardCodedQueries(c, audit, spell)
  {
    hide InOrder, LexLeq;
    var keys := SortedKeys(c.facets);
    KeysListed(c.facets);
    var missing := Elements(audit.missingFacets);
    queries := [];
    for i := 0 to |keys|
      invariant queries == QueriesFor(c.facets, keys[..i], missing, spell)
    {
      assert keys[..i + 1][..i] == keys[..i];
      var f := c.facets[keys[i]];
      if f.id in missing {
        queries := queries + [SearchQuery(f.id, spell(f))];
      }
    }
    assert keys[..|keys|] == keys;
  }

  lemma {:induction false} QueriesForFacts(
    facets: map<Text, FacetRequirement>, keys: seq<Text>, missing: set<Text>, spell: Spelling, q: SearchQuery)
    requires forall i :: 0 <= i < |keys| ==> keys[i] in facets
    requires forall k :: k in facets ==> facets[k].id == k
    ensures q in QueriesFor(facets, keys, missing, spell)
       <==> q.facetId in keys && q.facetId in missing && q.query == spell(facets[q.facetId])
  {
    if keys != [] {
      var n := |keys| - 1;
      QueriesForFacts(facets, keys[..n], missing, spell, q);
      assert keys == keys[..n] + [keys[n]];
    }
  }

  /** The baseline asks exactly one question about each missing facet and none about others. */
  lemma HardCodedFacts(c: Contract, audit: Audit, spell: Spelling, q: SearchQuery)
    requires Valid(c)
    ensures q in HardCodedQueries(c, audit, spell)
       <==> q.facetId in c.facets && q.facetId in audit.missingFacets && q.query == spell(c.facets[q.facetId])
  {
    ValidKeys(c);
    KeysListed(c.facets);
    var keys := InOrder(c.facets.Keys);
    QueriesForFacts(c.facets, keys, Elements(audit.missingFacets), spell, q);
    assert q.facetId in keys <==> q.facetId in Elements(keys);
  }
}
