/** When a contract, an extension, a proposal and a preparation are accepted, and what each
    then yields. */
module Acceptance {
  import opened Bytes
  import opened Text
  import opened Sorting
  import opened Investigation
  import opened Completeness
  import opened Planning
  import opened Pipeline

  // ---------- Contracts ----------

  // A facet with a name, and with a revision when its era is exact.
  ghost predicate Named(f: FacetRequirement) { !Blank(f.id) && forall r :: f.era == Exact(r) ==> !Blank(r) }

  ghost predicate FacetsNamed(facets: map<Text, FacetRequirement>) {
    forall k :: k in facets ==> facets[k].id == k && Named(facets[k])
  }

  ghost predicate RelationshipsJoin(facets: map<Text, FacetRequirement>, rs: map<Text, RelationshipRequirement>) {
    forall k :: k in rs ==> rs[k].id == k && !Blank(k) && {rs[k].fromFacet, rs[k].toFacet} <= facets.Keys
  }

  ghost predicate Affordable(b: RoundBudget) {
    && 1 <= b.maxRounds <= 16 && 1 <= b.maxCandidatesPerRound <= 4_096 && 1 <= b.maxContextBytes <= 4_194_304
    && b.maxGraphHops <= 16 && b.maxModelCalls <= 32
  }

  /** A contract is valid exactly when its schema is 1, it has 1 to 64 facets and at most 128
      relationships, its budget is within the limits, every facet is stored under its own name
      and every relationship under its own between two of the facets. */
  lemma ValidIff(c: Contract)
    ensures Valid(c)
       <==> && c.schema.major == 1 && 1 <= |c.facets| <= 64 && |c.relationships| <= 128 && Affordable(c.budget)
            && FacetsNamed(c.facets) && RelationshipsJoin(c.facets, c.relationships)
  {
    hide Blank;
    forall id | id in c.facets
      ensures FacetWellFormed(id, c.facets[id]) <==> c.facets[id].id == id && Named(c.facets[id])
    {
      FacetMeaning(id, c.facets[id]);
    }
    hide Named;
    if FacetsNamed(c.facets) && RelationshipsJoin(c.facets, c.relationships) {
      forall id | id in c.relationships ensures RelationshipWellFormed(c.facets, id, c.relationships[id]) {
        var r := c.relationships[id];
        assert r.fromFacet in {r.fromFacet, r.toFacet} && r.toFacet in {r.fromFacet, r.toFacet};
      }
    }
  }

  lemma FacetMeaning(id: Text, f: FacetRequirement)
    ensures FacetWellFormed(id, f) <==> f.id == id && Named(f)
  {
    hide Blank;
    if f.id == id && Named(f) && f.era.Exact? { assert f.era == Exact(f.era.revision); }
  }

  /** What validation reports is so. */
  lemma ContractFaults(c: Contract)
    requires Validate(c).Err?
    ensures match Validate(c).error
            case UnsupportedSchema => c.schema.major != 1
            case LimitExceeded => !(1 <= |c.facets| <= 64 && |c.relationships| <= 128)
            case BudgetOutOfBounds => !Affordable(c.budget)
            case InvalidFacet => !FacetsNamed(c.facets)
            case UnknownFacet => !RelationshipsJoin(c.facets, c.relationships)
            case ConflictingRequirement(_) => false
  {
    ValidIff(c);
    hide Blank, Valid, Named, RelationshipsJoin;
    if Validate(c).error == InvalidFacet {
      var id :| id in c.facets && !FacetWellFormed(id, c.facets[id]);
      FacetMeaning(id, c.facets[id]);
    }
    if Validate(c).error == UnknownFacet { RelationshipFault(c); }
  }

  lemma RelationshipFault(c: Contract)
    requires exists id :: id in c.relationships && !RelationshipWellFormed(c.facets, id, c.relationships[id])
    ensures !RelationshipsJoin(c.facets, c.relationships)
  {
    hide Blank;
    var id :| id in c.relationships && !RelationshipWellFormed(c.facets, id, c.relationships[id]);
    var r := c.relationships[id];
    assert r.fromFacet in {r.fromFacet, r.toFacet} && r.toFacet in {r.fromFacet, r.toFacet};
  }

  // ---------- Extensions ----------

  // Equal ids stand for equal requirements, among the additions and with what is there already.
  ghost predicate FacetsAgree(m: map<Text, FacetRequirement>, fs: seq<FacetRequirement>) {
    && (forall f :: f in fs && f.id in m ==> m[f.id] == f)
    && (forall f, g :: f in fs && g in fs && f.id == g.id ==> f == g)
  }

  ghost predicate RelationshipsAgree(m: map<Text, RelationshipRequirement>, rs: seq<RelationshipRequirement>) {
    && (forall r :: r in rs && r.id in m ==> m[r.id] == r)
    && (forall r, s :: r in rs && s in rs && r.id == s.id ==> r == s)
  }

  // What adding requirements leaves: the old ones and the additions, each under its id.
  ghost predicate FacetsAdded(
    m: map<Text, FacetRequirement>, fs: seq<FacetRequirement>, m': map<Text, FacetRequirement>)
  {
    && Keeps(m, m') && (forall f :: f in fs ==> f.id in m' && m'[f.id] == f)
    && (forall k :: k in m' ==> k in m || (m'[k] in fs && m'[k].id == k))
  }

  ghost predicate RelationshipsAdded(
    m: map<Text, RelationshipRequirement>, rs: seq<RelationshipRequirement>, m': map<Text, RelationshipRequirement>)
  {
    && Keeps(m, m') && (forall r :: r in rs ==> r.id in m' && m'[r.id] == r)
    && (forall k :: k in m' ==> k in m || (m'[k] in rs && m'[k].id == k))
  }

  lemma {:induction false} AddFacetsIff(m: map<Text, FacetRequirement>, fs: seq<FacetRequirement>)
    ensures AddFacets(m, fs).Ok? <==> FacetsAgree(m, fs)
    ensures AddFacets(m, fs).Ok? ==>
              FacetsAdded(m, fs, AddFacets(m, fs).value) && |AddFacets(m, fs).value| <= |m| + |fs|
    decreases |fs|
  {
    if fs != [] {
      assert fs == [fs[0]] + fs[1..];
      var inserted := InsertUnchangedOrNew(m, fs[0].id, fs[0]);
      if inserted.Ok? {
        AddFacetsIff(inserted.value, fs[1..]);
        FacetsAgreeSplit(m, inserted.value, fs);
        if AddFacets(m, fs).Ok? { FacetsAddedSplit(m, inserted.value, fs, AddFacets(m, fs).value); }
        assert |m[fs[0].id := fs[0]]| <= |m| + 1;
      } else {
        assert fs[0] in fs;
      }
    }
  }

  lemma FacetsAgreeSplit(
    m: map<Text, FacetRequirement>, m': map<Text, FacetRequirement>, fs: seq<FacetRequirement>)
    requires fs != [] && InsertUnchangedOrNew(m, fs[0].id, fs[0]) == Ok(m')
    ensures FacetsAgree(m, fs) <==> FacetsAgree(m', fs[1..])
  {
    assert fs == [fs[0]] + fs[1..];
    assert m' == m[fs[0].id := fs[0]];
    if FacetsAgree(m', fs[1..]) {
      forall f | f in fs && f.id in m ensures m[f.id] == f {
        if f != fs[0] { assert f in fs[1..]; }
      }
      forall f, g | f in fs && g in fs && f.id == g.id ensures f == g {
        if f != fs[0] { assert f in fs[1..]; }
        if g != fs[0] { assert g in fs[1..]; }
      }
    }
  }

  lemma FacetsAddedSplit(
    m: map<Text, FacetRequirement>, m': map<Text, FacetRequirement>, fs: seq<FacetRequirement>,
    r: map<Text, FacetRequirement>)
    requires fs != [] && InsertUnchangedOrNew(m, fs[0].id, fs[0]) == Ok(m') && FacetsAdded(m', fs[1..], r)
    ensures FacetsAdded(m, fs, r)
  {
    assert fs == [fs[0]] + fs[1..];
    assert m' == m[fs[0].id := fs[0]];
    forall k | k in r ensures k in m || (r[k] in fs && r[k].id == k) {
      if k == fs[0].id { assert r[k] == m'[k]; }
    }
  }

  lemma {:induction false} AddRelationshipsIff(
    facets: map<Text, FacetRequirement>, m: map<Text, RelationshipRequirement>, rs: seq<RelationshipRequirement>)
    ensures AddRelationships(facets, m, rs).Ok?
       <==> && (forall r :: r in rs ==> r.fromFacet in facets && r.toFacet in facets)
            && RelationshipsAgree(m, rs)
    ensures AddRelationships(facets, m, rs).Ok? ==>
              && RelationshipsAdded(m, rs, AddRelationships(facets, m, rs).value)
              && |AddRelationships(facets, m, rs).value| <= |m| + |rs|
    decreases |rs|
  {
    if rs != [] {
      assert rs == [rs[0]] + rs[1..];
      assert rs[0] in rs;
      var inserted := InsertUnchangedOrNew(m, rs[0].id, rs[0]);
      if rs[0].fromFacet in facets && rs[0].toFacet in facets && inserted.Ok? {
        AddRelationshipsIff(facets, inserted.value, rs[1..]);
        RelationshipsAgreeSplit(m, inserted.value, rs);
        if AddRelationships(facets, m, rs).Ok? {
          RelationshipsAddedSplit(m, inserted.value, rs, AddRelationships(facets, m, rs).value);
        }
        assert |m[rs[0].id := rs[0]]| <= |m| + 1;
      }
    }
  }

  lemma RelationshipsAgreeSplit(
    m: map<Text, RelationshipRequirement>, m': map<Text, RelationshipRequirement>, rs: seq<RelationshipRequirement>)
    requires rs != [] && InsertUnchangedOrNew(m, rs[0].id, rs[0]) == Ok(m')
    ensures RelationshipsAgree(m, rs) <==> RelationshipsAgree(m', rs[1..])
  {
    assert rs == [rs[0]] + rs[1..];
    assert m' == m[rs[0].id := rs[0]];
    if RelationshipsAgree(m', rs[1..]) {
      forall r | r in rs && r.id in m ensures m[r.id] == r {
        if r != rs[0] { assert r in rs[1..]; }
      }
      forall r, s | r in rs && s in rs && r.id == s.id ensures r == s {
        if r != rs[0] { assert r in rs[1..]; }
        if s != rs[0] { assert s in rs[1..]; }
      }
    }
  }

  lemma RelationshipsAddedSplit(
    m: map<Text, RelationshipRequirement>, m': map<Text, RelationshipRequirement>, rs: seq<RelationshipRequirement>,
    r: map<Text, RelationshipRequirement>)
    requires rs != [] && InsertUnchangedOrNew(m, rs[0].id, rs[0]) == Ok(m') && RelationshipsAdded(m', rs[1..], r)
    ensures RelationshipsAdded(m, rs, r)
  {
    assert rs == [rs[0]] + rs[1..];
    assert m' == m[rs[0].id := rs[0]];
    forall k | k in r ensures k in m || (r[k] in rs && r[k].id == k) {
      if k == rs[0].id { assert r[k] == m'[k]; }
    }
  }

  /** An extension is accepted exactly when the contract is valid, the limits leave room for all
      the additions, each addition is named, joins facets that are there or added, and differs
      from nothing of the same id; and it then adds those requirements and nothing else. */
  lemma ExtendedIff(c: Contract, fs: seq<FacetRequirement>, rs: seq<RelationshipRequirement>)
    ensures Extended(c, fs, rs).Ok?
       <==> && Valid(c) && |c.facets| + |fs| <= 64 && |c.relationships| + |rs| <= 128
            && (forall f :: f in fs ==> Named(f)) && FacetsAgree(c.facets, fs)
            && (forall r :: r in rs ==>
                  && !Blank(r.id)
                  && (r.fromFacet in c.facets || exists f :: f in fs && f.id == r.fromFacet)
                  && (r.toFacet in c.facets || exists f :: f in fs && f.id == r.toFacet))
            && RelationshipsAgree(c.relationships, rs)
    ensures Extended(c, fs, rs).Ok? ==>
              var c' := Extended(c, fs, rs).value;
              && c'.schema == c.schema && c'.budget == c.budget
              && FacetsAdded(c.facets, fs, c'.facets) && RelationshipsAdded(c.relationships, rs, c'.relationships)
  {
    hide Validate, Named, Blank, AddFacets, AddRelationships, FacetsAgree, RelationshipsAgree, FacetsAdded,
         RelationshipsAdded;
    AddFacetsIff(c.facets, fs);
    if Valid(c) && |c.facets| + |fs| <= 64 && |c.relationships| + |rs| <= 128 && AddFacets(c.facets, fs).Ok? {
      var facets := AddFacets(c.facets, fs).value;
      AddRelationshipsIff(facets, c.relationships, rs);
      FacetKeys(c.facets, fs, facets);
      if AddRelationships(facets, c.relationships, rs).Ok? {
        var c' := c.(facets := facets, relationships := AddRelationships(facets, c.relationships, rs).value);
        ExtensionValidIff(c, fs, rs, c');
      }
    }
  }

  lemma FacetKeys(m: map<Text, FacetRequirement>, fs: seq<FacetRequirement>, m': map<Text, FacetRequirement>)
    requires FacetsAdded(m, fs, m')
    ensures forall k :: k in m' <==> k in m || exists f :: f in fs && f.id == k
  {
    forall k | k in m' && k !in m ensures exists f :: f in fs && f.id == k {
      assert m'[k] in fs && m'[k].id == k;
    }
  }

  lemma ExtensionValidIff(c: Contract, fs: seq<FacetRequirement>, rs: seq<RelationshipRequirement>, c': Contract)
    requires Valid(c) && c'.schema == c.schema && c'.budget == c.budget
    requires FacetsAdded(c.facets, fs, c'.facets) && RelationshipsAdded(c.relationships, rs, c'.relationships)
    requires |c'.facets| <= 64 && |c'.relationships| <= 128
    requires forall r :: r in rs ==> r.fromFacet in c'.facets && r.toFacet in c'.facets
    ensures Valid(c') <==> (forall f :: f in fs ==> Named(f)) && (forall r :: r in rs ==> !Blank(r.id))
  {
    ValidIff(c);
    ValidIff(c');
    hide Valid, Named, Blank;
    var k :| k in c.facets;
    assert k in c'.facets;
    assert |c'.facets| >= 1 by { assert c'.facets.Keys != {}; }
    if (forall f :: f in fs ==> Named(f)) && (forall r :: r in rs ==> !Blank(r.id)) {
      forall k | k in c'.facets ensures c'.facets[k].id == k && Named(c'.facets[k]) {
        if k in c.facets { assert c'.facets[k] == c.facets[k]; }
      }
      forall k | k in c'.relationships
        ensures var r := c'.relationships[k]; r.id == k && !Blank(k) && {r.fromFacet, r.toFacet} <= c'.facets.Keys
      {
        if k in c.relationships { assert c'.relationships[k] == c.relationships[k]; }
      }
    }
  }

  // ---------- Proposals ----------

  // A query that a proposal may make: about a known facet, not blank, at most 256 bytes, no control characters.
  ghost predicate Askable(facets: map<Text, FacetRequirement>, q: SearchQuery) {
    q.facetId in facets && !Blank(q.query) && |q.query| <= 256 && !HasControl(q.query)
  }

  /** A planner's proposal is accepted exactly when its schema is 1, none of its lists is longer
      than 8, its extension is accepted, and its queries are askable of the extended contract and
      pairwise different; and it yields that extension. */
  lemma AppliedIff(p: PlannerProposal, c: Contract)
    ensures Apply(p, c).Ok?
       <==> && p.schema == 1 && |p.facetAdditions| <= 8 && |p.relationshipAdditions| <= 8 && |p.searchQueries| <= 8
            && Extended(c, p.facetAdditions, p.relationshipAdditions).Ok?
            && (forall q :: q in p.searchQueries ==>
                  Askable(Extended(c, p.facetAdditions, p.relationshipAdditions).value.facets, q))
            && NoDuplicates(p.searchQueries)
    ensures Apply(p, c).Ok? ==> Apply(p, c) == AsProposal(Extended(c, p.facetAdditions, p.relationshipAdditions))
  {
    hide Extended, NoDuplicates, Blank, HasControl;
    var extension := Extended(c, p.facetAdditions, p.relationshipAdditions);
    if extension.Ok? {
      var facets := extension.value.facets;
      AcceptedQueries(facets, p.searchQueries, {});
      forall i | 0 <= i < |p.searchQueries| && Askable(facets, p.searchQueries[i])
        ensures p.searchQueries[i].facetId in facets && !BadText(p.searchQueries[i].query)
      {
      }
      forall q | QueryFault(facets, p.searchQueries, {}).None? && q in p.searchQueries ensures Askable(facets, q) {
        var i :| 0 <= i < |p.searchQueries| && p.searchQueries[i] == q;
      }
    }
  }

  function AsProposal(r: Result<Contract, ContractError>): Result<Contract, ProposalError> {
    match r
    case Ok(c) => Ok(c)
    case Err(e) => Err(ContractFailure(e))
  }

  /** A critic's proposal is accepted exactly when the planner's with the same additions and
      queries is, and it raises at most 8 concerns, none blank, over 256 bytes or with control
      characters; and it yields the same. */
  lemma CriticAppliedIff(p: CriticProposal, c: Contract)
    ensures var same := PlannerProposal(p.schema, p.facetAdditions, p.relationshipAdditions, p.searchQueries, false);
            && (ApplyCritic(p, c).Ok? <==>
                  && Apply(same, c).Ok? && |p.concerns| <= 8
                  && (forall t :: t in p.concerns ==> !Blank(t) && |t| <= 256 && !HasControl(t)))
            && (ApplyCritic(p, c).Ok? ==> ApplyCritic(p, c) == Apply(same, c))
  {
    hide Apply, Blank, HasControl;
    forall t | t in p.concerns && ApplyCritic(p, c).Ok? ensures !BadText(t) {
      var i :| 0 <= i < |p.concerns| && p.concerns[i] == t;
    }
  }

  /** What is reported about a planner's proposal is so. */
  lemma ProposalFaults(p: PlannerProposal, c: Contract)
    requires Apply(p, c).Err?
    ensures match Apply(p, c).error
            case InvalidSchema => p.schema != 1
            case LimitExceeded => |p.facetAdditions| > 8 || |p.relationshipAdditions| > 8 || |p.searchQueries| > 8
            case ContractFailure(e) => Extended(c, p.facetAdditions, p.relationshipAdditions) == Err(e)
            case UnknownQueryFacet =>
              exists q :: q in p.searchQueries
                && q.facetId !in Extended(c, p.facetAdditions, p.relationshipAdditions).value.facets
            case InvalidQuery =>
              || (exists q :: q in p.searchQueries && (Blank(q.query) || |q.query| > 256 || HasControl(q.query)))
              || !NoDuplicates(p.searchQueries)
            case InvalidConcern => false
  {
    hide Extended, NoDuplicates, Blank, HasControl;
    var extension := Extended(c, p.facetAdditions, p.relationshipAdditions);
    if extension.Ok? { QueryFaults(extension.value.facets, p.searchQueries, {}); }
  }

  lemma {:induction false} QueryFaults(
    facets: map<Text, FacetRequirement>, queries: seq<SearchQuery>, seen: set<SearchQuery>)
    ensures var fault := QueryFault(facets, queries, seen);
            && (fault == None || fault == Some(UnknownQueryFacet) || fault == Some(InvalidQuery))
            && (fault == Some(UnknownQueryFacet) ==> exists q :: q in queries && q.facetId !in facets)
            && (fault == Some(InvalidQuery) ==>
                  || (exists q :: q in queries && (Blank(q.query) || |q.query| > 256 || HasControl(q.query)))
                  || (exists q :: q in queries && q in seen) || !NoDuplicates(queries))
    decreases |queries|
  {
    hide Blank, HasControl;
    if queries != [] {
      assert queries[0] in queries;
      var later := seen + {queries[0]};
      QueryFaults(facets, queries[1..], later);
      assert forall q :: q in queries[1..] ==> q in queries;
      if q :| q in queries[1..] && q in later && q !in seen {
        var i :| 0 <= i < |queries| - 1 && queries[1..][i] == q;
        assert queries[i + 1] == queries[0];
      }
      if !NoDuplicates(queries[1..]) {
        var i, j :| 0 <= i < j < |queries| - 1 && queries[1..][i] == queries[1..][j];
        assert queries[i + 1] == queries[j + 1];
      }
    }
  }

  /** What ends a preparation is so. */
  lemma PreparationFaults(
    c: Contract, point: OperatingPoint, planner: Option<PlannerProposal>, critic: Option<CriticProposal>)
    requires Prepare(c, point, planner, critic).Err?
    ensures match Prepare(c, point, planner, critic).error
            case BadContract(e) => Validate(c) == Err(e)
            case MissingPlanner => point != HardRulesOnly && planner == None
            case MissingCritic => point == PlannerAndCritic && critic == None
            case BadProposal(e) =>
              && planner.Some?
              && (|| Apply(planner.value, c) == Err(e)
                  || (&& Apply(planner.value, c).Ok? && critic.Some?
                      && ApplyCritic(critic.value, Apply(planner.value, c).value) == Err(e)))
            case OverBudget(limit) =>
              && limit == ModelCalls && point != HardRulesOnly
              && c.budget.maxModelCalls < (if point == FastPlanner then 1 else 2)
            case _ => false
  {
    hide Investigation.Validate, Apply, ApplyCritic;
    if planner.Some? && Apply(planner.value, c).Ok? {
      var c1 := Apply(planner.value, c).value;
      KeepsBudget(planner.value, c);
      if critic.Some? && ApplyCritic(critic.value, c1).Ok? {
        CriticAppliedIff(critic.value, c1);
        var q := critic.value;
        KeepsBudget(PlannerProposal(q.schema, q.facetAdditions, q.relationshipAdditions, q.searchQueries, false), c1);
      }
    }
  }

  // ---------- Preparation ----------

  /** Hard rules alone need a valid contract and spend nothing. The fast planner needs an
      accepted proposal and one model call; planner and critic need both proposals accepted, the
      critic's on the planner's contract, and two calls. The run starts from the contract, the
      calls and the queries so obtained. */
  lemma PreparedIff(
    c: Contract, point: OperatingPoint, planner: Option<PlannerProposal>, critic: Option<CriticProposal>)
    ensures var r := Prepare(c, point, planner, critic);
            match point
            case HardRulesOnly => (r.Ok? <==> Valid(c)) && (r.Ok? ==> r.value == (c, 0, []))
            case FastPlanner =>
              && (r.Ok? <==> Valid(c) && planner.Some? && Apply(planner.value, c).Ok? && 1 <= c.budget.maxModelCalls)
              && (r.Ok? ==> r.value == (Apply(planner.value, c).value, 1, planner.value.searchQueries))
            case PlannerAndCritic =>
              && (r.Ok? <==>
                    && Valid(c) && planner.Some? && Apply(planner.value, c).Ok?
                    && critic.Some? && ApplyCritic(critic.value, Apply(planner.value, c).value).Ok?
                    && 2 <= c.budget.maxModelCalls)
              && (r.Ok? ==>
                    r.value == (ApplyCritic(critic.value, Apply(planner.value, c).value).value, 2,
                                planner.value.searchQueries + critic.value.searchQueries))
  {
    hide Investigation.Validate, Apply, ApplyCritic;
    if planner.Some? && Apply(planner.value, c).Ok? {
      var c1 := Apply(planner.value, c).value;
      KeepsBudget(planner.value, c);
      if critic.Some? && ApplyCritic(critic.value, c1).Ok? {
        CriticAppliedIff(critic.value, c1);
        var q := critic.value;
        KeepsBudget(PlannerProposal(q.schema, q.facetAdditions, q.relationshipAdditions, q.searchQueries, false), c1);
      }
    }
  }

  lemma KeepsBudget(p: PlannerProposal, c: Contract)
    requires Apply(p, c).Ok?
    ensures Apply(p, c).value.budget == c.budget
  {
    hide Apply, Extended, FacetsAdded, RelationshipsAdded;
    AppliedIff(p, c);
    ExtendedIff(c, p.facetAdditions, p.relationshipAdditions);
  }
}
