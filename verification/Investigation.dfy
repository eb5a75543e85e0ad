/** Evidence-completeness contracts: requirements, the coverage audit, and the
    validation of answers against it. */
module Investigation {
  import opened Bytes
  import opened Text
  import opened Sorting
  import opened TextSets

  const SCHEMA_MAJOR: u16 := 1
  const MAX_FACETS: nat := 64
  const MAX_RELATIONSHIPS: nat := 128
  const MAX_ROUNDS: nat := 16
  const MAX_CANDIDATES_PER_ROUND: nat := 4_096
  const MAX_CONTEXT_BYTES: nat := 4 * 1024 * 1024
  const MAX_GRAPH_HOPS: nat := 16
  const MAX_MODEL_CALLS: nat := 32

  datatype SchemaVersion = SchemaVersion(major: u16, minor: u16)

  datatype Repository = VescPackageLib | VescFirmware | ChibiOs | Refloat | OtherRepository(name: Text)

  datatype Stage =
    | PackageFormat | GeneratedEntry | FirmwareLoader | AbiDispatch | RuntimeModuleLoading
    | ConsumerInvocation | Configuration | OtherStage(name: Text)

  datatype Era = Exact(revision: Text) | Any {
    predicate Matches(revision: Text) { Exact? ==> this.revision == revision }
  }

  datatype FacetRequirement = FacetRequirement(id: Text, repository: Repository, stage: Stage, era: Era)

  datatype RelationshipKind = Produces | LoadedBy | DispatchesTo | RunsIn | InvokedBy | OtherKind(name: Text)

  datatype RelationshipRequirement =
    RelationshipRequirement(id: Text, fromFacet: Text, toFacet: Text, kind: RelationshipKind)

  datatype RoundBudget = RoundBudget(
    maxRounds: byte, maxCandidatesPerRound: u16, maxContextBytes: u32, maxGraphHops: byte, maxModelCalls: byte)

  datatype Contract = Contract(
    schema: SchemaVersion, budget: RoundBudget,
    facets: map<Text, FacetRequirement>, relationships: map<Text, RelationshipRequirement>)

  datatype ContractError =
    | UnsupportedSchema | LimitExceeded | BudgetOutOfBounds | InvalidFacet | UnknownFacet
    | ConflictingRequirement(id: Text)

  datatype Unit = Unit

  // ---------- Contracts ----------

  predicate BudgetInBounds(b: RoundBudget) {
    && 0 < b.maxRounds <= MAX_ROUNDS
    && 0 < b.maxCandidatesPerRound <= MAX_CANDIDATES_PER_ROUND
    && 0 < b.maxContextBytes <= MAX_CONTEXT_BYTES
    && b.maxGraphHops <= MAX_GRAPH_HOPS
    && b.maxModelCalls <= MAX_MODEL_CALLS
  }

  predicate FacetWellFormed(id: Text, f: FacetRequirement) {
    !Blank(id) && id == f.id && (f.era.Exact? ==> !Blank(f.era.revision))
  }

  predicate RelationshipWellFormed(facets: map<Text, FacetRequirement>, id: Text, r: RelationshipRequirement) {
    !Blank(id) && id == r.id && r.fromFacet in facets && r.toFacet in facets
  }

  /** `validate`, its checks in order. */
  function Validate(c: Contract): Result<Unit, ContractError> {
    if c.schema.major != SCHEMA_MAJOR then Err(UnsupportedSchema)
    else if |c.facets| == 0 || |c.facets| > MAX_FACETS || |c.relationships| > MAX_RELATIONSHIPS then Err(LimitExceeded)
    else if !BudgetInBounds(c.budget) then Err(BudgetOutOfBounds)
    else if exists id | id in c.facets :: !FacetWellFormed(id, c.facets[id]) then Err(InvalidFacet)
    else if exists id | id in c.relationships :: !RelationshipWellFormed(c.facets, id, c.relationships[id])
        then Err(UnknownFacet)
    else Ok(Unit)
  }

  predicate Valid(c: Contract) { Validate(c).Ok? }

  /** `insert_unchanged_or_new`. */
  function InsertUnchangedOrNew<T(==)>(m: map<Text, T>, id: Text, value: T): Result<map<Text, T>, ContractError> {
    if id in m then (if m[id] == value then Ok(m) else Err(ConflictingRequirement(id)))
    else Ok(m[id := value])
  }

  function AddFacets(
    m: map<Text, FacetRequirement>, fs: seq<FacetRequirement>): Result<map<Text, FacetRequirement>, ContractError>
    decreases |fs|
  {
    if fs == [] then Ok(m)
    else
      var m' :- InsertUnchangedOrNew(m, fs[0].id, fs[0]);
      AddFacets(m', fs[1..])
  }

  function AddRelationships(
    facets: map<Text, FacetRequirement>, m: map<Text, RelationshipRequirement>, rs: seq<RelationshipRequirement>)
    : Result<map<Text, RelationshipRequirement>, ContractError>
    decreases |rs|
  {
    if rs == [] then Ok(m)
    else if rs[0].fromFacet !in facets || rs[0].toFacet !in facets then Err(UnknownFacet)
    else
      var m' :- InsertUnchangedOrNew(m, rs[0].id, rs[0]);
      AddRelationships(facets, m', rs[1..])
  }

  /** What `extend` computes: additions only, between two validations. */
  function Extended(
    c: Contract, fs: seq<FacetRequirement>, rs: seq<RelationshipRequirement>): Result<Contract, ContractError> {
    var _ :- Validate(c);
    if |c.facets| + |fs| > MAX_FACETS || |c.relationships| + |rs| > MAX_RELATIONSHIPS then Err(LimitExceeded)
    else
      var facets :- AddFacets(c.facets, fs);
      var relationships :- AddRelationships(facets, c.relationships, rs);
      var c' := c.(facets := facets, relationships := relationships);
      var _ :- Validate(c');
      Ok(c')
  }

  /** `extend`. */
  method Extend(c: Contract, fs: seq<FacetRequirement>, rs: seq<RelationshipRequirement>)
    returns (r: Result<Contract, ContractError>)
    ensures r == Extended(c, fs, rs)
  {
    hide Validate;
    var _ :- Validate(c);
    if |c.facets| + |fs| > MAX_FACETS || |c.relationships| + |rs| > MAX_RELATIONSHIPS {
      return Err(LimitExceeded);
    }
    var facets := c.facets;
    assert fs[0..] == fs;
    for i := 0 to |fs|
      invariant AddFacets(facets, fs[i..]) == AddFacets(c.facets, fs)
    {
      assert fs[i..][1..] == fs[i + 1..];
      facets :- InsertUnchangedOrNew(facets, fs[i].id, fs[i]);
    }
    var relationships := c.relationships;
    assert rs[0..] == rs;
    for i := 0 to |rs|
      invariant AddRelationships(facets, relationships, rs[i..]) == AddRelationships(facets, c.relationships, rs)
    {
      assert rs[i..][1..] == rs[i + 1..];
      if rs[i].fromFacet !in facets || rs[i].toFacet !in facets {
        return Err(UnknownFacet);
      }
      relationships :- InsertUnchangedOrNew(relationships, rs[i].id, rs[i]);
    }
    var c' := c.(facets := facets, relationships := relationships);
    var _ :- Validate(c');
    r := Ok(c');
  }

  // ---------- The audit ----------

  datatype Evidence = Evidence(
    id: Text, repository: Repository, stage: Stage, revision: Text, path: Text, decisive: bool)

  datatype EvidenceRelationship = EvidenceRelationship(fromEvidence: Text, toEvidence: Text, kind: RelationshipKind)

  datatype Reason = WrongRepository | WrongStage | WrongEra | Adjacent

  datatype Rejection = Rejection(evidenceId: Text, reason: Reason)

  datatype Audit = Audit(
    schema: SchemaVersion, complete: bool, qualifying: map<Text, seq<Text>>,
    missingFacets: seq<Text>, missingRelationships: seq<Text>, rejected: seq<Rejection>)

  predicate Usable(e: Evidence) { e.decisive && !Blank(e.path) }

  predicate Qualifies(f: FacetRequirement, e: Evidence) {
    Usable(e) && f.repository == e.repository && f.stage == e.stage && f.era.Matches(e.revision)
  }

  /** The facets that an item supports. */
  function Matched(c: Contract, e: Evidence): set<Text> {
    set k | k in c.facets && Qualifies(c.facets[k], e) :: c.facets[k].id
  }

  /** The ids of the evidence that supports a facet. */
  function Supporters(c: Contract, evidence: seq<Evidence>, facetId: Text): set<Text> {
    set i | 0 <= i < |evidence| && facetId in Matched(c, evidence[i]) :: evidence[i].id
  }

  ghost predicate IsSupported(c: Contract, evidence: seq<Evidence>, facetId: Text) {
    exists i :: 0 <= i < |evidence| && facetId in Matched(c, evidence[i])
  }

  ghost function SupportedFacets(c: Contract, evidence: seq<Evidence>): (r: set<Text>)
    ensures forall f :: f in r <==> IsSupported(c, evidence, f)
  {
    set i, f | 0 <= i < |evidence| && f in Matched(c, evidence[i]) :: f
  }

  predicate Covered(r: RelationshipRequirement, qualifying: map<Text, seq<Text>>, rels: seq<EvidenceRelationship>) {
    && r.fromFacet in qualifying && r.toFacet in qualifying
    && exists i | 0 <= i < |rels| ::
         && rels[i].kind == r.kind
         && rels[i].fromEvidence in qualifying[r.fromFacet]
         && rels[i].toEvidence in qualifying[r.toFacet]
  }

  function Uncovered(
    relationships: map<Text, RelationshipRequirement>, keys: seq<Text>, qualifying: map<Text, seq<Text>>,
    rels: seq<EvidenceRelationship>) : seq<Text>
    requires forall i :: 0 <= i < |keys| ==> keys[i] in relationships
  {
    if keys == [] then []
    else
      var n := |keys| - 1;
      Uncovered(relationships, keys[..n], qualifying, rels)
      + (if Covered(relationships[keys[n]], qualifying, rels) then [] else [relationships[keys[n]].id])
  }

  /** Why an item supports nothing, if it does not. */
  function RejectionOf(c: Contract, e: Evidence): Option<Rejection> {
    if !Usable(e) then Some(Rejection(e.id, Adjacent))
    else if Matched(c, e) != {} then None
    else if !exists k | k in c.facets :: c.facets[k].repository == e.repository
        then Some(Rejection(e.id, WrongRepository))
    else if !exists k | k in c.facets :: c.facets[k].repository == e.repository && c.facets[k].stage == e.stage then
      Some(Rejection(e.id, WrongStage))
    else Some(Rejection(e.id, WrongEra))
  }

  function Rejections(c: Contract, evidence: seq<Evidence>): seq<Rejection> {
    if evidence == [] then []
    else
      var n := |evidence| - 1;
      var init := Rejections(c, evidence[..n]);
      match RejectionOf(c, evidence[n])
      case None => init
      case Some(r) => init + [r]
  }

  function ReasonRank(r: Reason): int {
    match r
    case WrongRepository => 0
    case WrongStage => 1
    case WrongEra => 2
    case Adjacent => 3
  }

  predicate RejectionLeq(a: Rejection, b: Rejection) {
    LexLess(a.evidenceId, b.evidenceId)
      || (a.evidenceId == b.evidenceId && ReasonRank(a.reason) <= ReasonRank(b.reason))
  }

  /** What `audit` reports. */
  ghost function AuditOf(c: Contract, evidence: seq<Evidence>, rels: seq<EvidenceRelationship>): Audit {
    var qualifying := map f | f in SupportedFacets(c, evidence) :: InOrder(Supporters(c, evidence, f));
    var missingFacets := InOrder(c.facets.Keys - qualifying.Keys);
    KeysListed(c.relationships);
    var missingRelationships := Uncovered(c.relationships, InOrder(c.relationships.Keys), qualifying, rels);
    Audit(c.schema, missingFacets == [] && missingRelationships == [], qualifying, missingFacets, missingRelationships,
          SortBy(RejectionLeq, Rejections(c, evidence)))
  }

  // The vectors of ids that the audit has collected for the first items.
  ghost predicate Collected(c: Contract, evidence: seq<Evidence>, qualifying: map<Text, seq<Text>>) {
    && (forall f :: f in qualifying <==> IsSupported(c, evidence, f))
    && (forall f :: f in qualifying ==> Elements(qualifying[f]) == Supporters(c, evidence, f))
  }

  /** Sorts one item: the facets it supports, or the reason it supports none. */
  method Classify(c: Contract, keys: seq<Text>, e: Evidence) returns (matched: set<Text>, rejection: Option<Rejection>)
    requires Elements(keys) == c.facets.Keys
    ensures matched == Matched(c, e) && rejection == RejectionOf(c, e)
  {
    matched := {};
    if !e.decisive || Blank(e.path) {
      return matched, Some(Rejection(e.id, Adjacent));
    }
    var repositoryMatched, stageMatched := false, false;
    for i := 0 to |keys|
      invariant repositoryMatched
          <==> exists j :: 0 <= j < i && keys[j] in c.facets && c.facets[keys[j]].repository == e.repository
      invariant stageMatched <==>
        exists j :: 0 <= j < i && keys[j] in c.facets
          && c.facets[keys[j]].repository == e.repository && c.facets[keys[j]].stage == e.stage
      invariant matched == set j | 0 <= j < i && keys[j] in c.facets
          && Qualifies(c.facets[keys[j]], e) :: c.facets[keys[j]].id
    {
      assert keys[i] in Elements(keys);
      var facet := c.facets[keys[i]];
      if facet.repository == e.repository {
        repositoryMatched := true;
        if facet.stage == e.stage {
          stageMatched := true;
          if facet.era.Matches(e.revision) {
            matched := matched + {facet.id};
          }
        }
      }
    }
    assert forall k :: k in c.facets <==> exists j :: 0 <= j < |keys| && keys[j] == k by {
      forall k ensures k in c.facets <==> k in keys { assert k in Elements(keys) <==> k in c.facets.Keys; }
    }
    rejection :=
      if matched != {} then None
      else if !repositoryMatched then Some(Rejection(e.id, WrongRepository))
      else if !stageMatched then Some(Rejection(e.id, WrongStage))
      else Some(Rejection(e.id, WrongEra));
  }

  function WithSupporter(m: map<Text, seq<Text>>, facets: set<Text>, id: Text): map<Text, seq<Text>> {
    map f | f in m.Keys + facets :: (if f in m then m[f] else []) + (if f in facets then [id] else [])
  }

  method PushId(collected: map<Text, seq<Text>>, facets: set<Text>, id: Text) returns (m: map<Text, seq<Text>>)
    ensures m == WithSupporter(collected, facets, id)
  {
    m := collected;
    var todo := facets;
    assert facets - todo == {};
    assert forall f :: f in collected ==> collected[f] + [] == collected[f];
    while todo != {}
      invariant todo <= facets && m == WithSupporter(collected, facets - todo, id)
      decreases todo
    {
      var f :| f in todo;
      todo := todo - {f};
      m := m[f := (if f in m then m[f] else []) + [id]];
    }
    assert facets - {} == facets;
  }

  lemma CollectedStep(c: Contract, evidence: seq<Evidence>, e: Evidence, m: map<Text, seq<Text>>)
    requires Collected(c, evidence, m)
    ensures Collected(c, evidence + [e], WithSupporter(m, Matched(c, e), e.id))
  {
    hide Matched;
    var es, m' := evidence + [e], WithSupporter(m, Matched(c, e), e.id);
    forall f ensures IsSupported(c, es, f) <==> IsSupported(c, evidence, f) || f in Matched(c, e) {
      if f in Matched(c, e) { assert f in Matched(c, es[|evidence|]); }
      if IsSupported(c, evidence, f) {
        var i :| 0 <= i < |evidence| && f in Matched(c, evidence[i]);
        assert f in Matched(c, es[i]);
      }
    }
    forall f | f in m' ensures Elements(m'[f]) == Supporters(c, es, f) {
      SupportersStep(c, evidence, e, f);
      if f !in m { assert Supporters(c, evidence, f) == {}; }
    }
  }

  lemma SupportersStep(c: Contract, evidence: seq<Evidence>, e: Evidence, f: Text)
    ensures Supporters(c, evidence + [e], f) == Supporters(c, evidence, f) + (if f in Matched(c, e) then {e.id} else {})
  {
    hide Matched;
    var es := evidence + [e];
    forall x | x in Supporters(c, evidence, f) ensures x in Supporters(c, es, f) {
      var i :| 0 <= i < |evidence| && f in Matched(c, evidence[i]) && evidence[i].id == x;
      assert es[i] == evidence[i];
    }
    if f in Matched(c, e) { assert es[|evidence|] == e; }
  }

  /** The facet ids, in key order, that have no supporter. */
  method FindMissing(facets: map<Text, FacetRequirement>, keys: seq<Text>, qualifying: map<Text, seq<Text>>)
    returns (missing: seq<Text>)
    requires keys == InOrder(facets.Keys)
    ensures missing == InOrder(facets.Keys - qualifying.Keys)
  {
    hide InOrder, LexLeq;
    missing := [];
    for i := 0 to |keys|
      invariant Ascending(missing)
      invariant forall y :: y in missing <==> y in keys[..i] && y !in qualifying
    {
      assert keys[..i + 1] == keys[..i] + [keys[i]];
      if keys[i] !in qualifying {
        forall y | y in missing ensures LexLess(y, keys[i]) {
          var j :| 0 <= j < i && keys[j] == y;
          AscendingOrder(keys, j, i);
        }
        AscendingSnoc(missing, keys[i]);
        missing := missing + [keys[i]];
      }
    }
    assert keys[..|keys|] == keys;
    assert Elements(missing) == facets.Keys - qualifying.Keys by {
      forall y ensures y in missing <==> y in facets.Keys - qualifying.Keys {
        assert y in Elements(keys) <==> y in facets.Keys;
      }
    }
    AscendingUnique(missing, InOrder(facets.Keys - qualifying.Keys));
  }

  method FindUncovered(
    relationships: map<Text, RelationshipRequirement>, keys: seq<Text>, qualifying: map<Text, seq<Text>>,
    rels: seq<EvidenceRelationship>) returns (missing: seq<Text>)
    requires forall i :: 0 <= i < |keys| ==> keys[i] in relationships
    ensures missing == Uncovered(relationships, keys, qualifying, rels)
  {
    hide Covered;
    missing := [];
    for i := 0 to |keys|
      invariant missing == Uncovered(relationships, keys[..i], qualifying, rels)
    {
      assert keys[..i + 1][..i] == keys[..i];
      if !Covered(relationships[keys[i]], qualifying, rels) {
        missing := missing + [relationships[keys[i]].id];
      }
    }
    assert keys[..|keys|] == keys;
  }

  /** `audit`. */
  method PerformAudit(c: Contract, evidence: seq<Evidence>, rels: seq<EvidenceRelationship>) returns (audit: Audit)
    ensures audit == AuditOf(c, evidence, rels)
  {
    hide InOrder, Uncovered, SortBy, Matched, RejectionOf, Supporters;
    var keys := SortedKeys(c.facets);
    var collected: map<Text, seq<Text>> := map[];
    var rejected: seq<Rejection> := [];
    for i := 0 to |evidence|
      invariant Collected(c, evidence[..i], collected)
      invariant rejected == Rejections(c, evidence[..i])
    {
      var matched, rejection := Classify(c, keys, evidence[i]);
      CollectedStep(c, evidence[..i], evidence[i], collected);
      assert evidence[..i + 1] == evidence[..i] + [evidence[i]];
      assert evidence[..i + 1][..i] == evidence[..i];
      collected := PushId(collected, matched, evidence[i].id);
      if rejection.Some? {
        rejected := rejected + [rejection.value];
      }
    }
    assert evidence[..|evidence|] == evidence;
    var qualifying := map f | f in collected :: Dedup(SortBy(TextLeq, collected[f]));
    forall f | f in collected ensures qualifying[f] == InOrder(Supporters(c, evidence, f)) {
      SortDedup(collected[f]);
    }
    assert qualifying == map f | f in SupportedFacets(c, evidence) :: InOrder(Supporters(c, evidence, f));
    var missingFacets := FindMissing(c.facets, keys, qualifying);
    var relationshipKeys := SortedKeys(c.relationships);
    KeysListed(c.relationships);
    var missingRelationships := FindUncovered(c.relationships, relationshipKeys, qualifying, rels);
    audit := Audit(
      c.schema, missingFacets == [] && missingRelationships == [], qualifying, missingFacets, missingRelationships,
      SortBy(RejectionLeq, rejected));
  }

  // ---------- Answers ----------

  datatype AnswerError = IncompleteAudit | MissingFacetCitations(facets: seq<Text>)

  predicate Cites(audit: Audit, facet: Text, cited: set<Text>) {
    facet in audit.qualifying && exists id | id in audit.qualifying[facet] :: id in cited
  }

  /** `validate_answer`. */
  ghost function ValidateAnswer(c: Contract, audit: Audit, cited: set<Text>): Result<Unit, AnswerError> {
    if !audit.complete then Err(IncompleteAudit)
    else
      var uncited := set k | k in c.facets && !Cites(audit, k, cited);
      if uncited == {} then Ok(Unit) else Err(MissingFacetCitations(InOrder(uncited)))
  }

  method CheckAnswer(c: Contract, audit: Audit, cited: set<Text>) returns (r: Result<Unit, AnswerError>)
    ensures r == ValidateAnswer(c, audit, cited)
  {
    hide InOrder, LexLeq;
    if !audit.complete {
      return Err(IncompleteAudit);
    }
    var keys := SortedKeys(c.facets);
    var missing: seq<Text> := [];
    for i := 0 to |keys|
      invariant Ascending(missing)
      invariant forall y :: y in missing <==> y in keys[..i] && !Cites(audit, y, cited)
    {
      assert keys[..i + 1] == keys[..i] + [keys[i]];
      if !Cites(audit, keys[i], cited) {
        forall y | y in missing ensures LexLess(y, keys[i]) {
          var j :| 0 <= j < i && keys[j] == y;
          AscendingOrder(keys, j, i);
        }
        AscendingSnoc(missing, keys[i]);
        missing := missing + [keys[i]];
      }
    }
    assert keys[..|keys|] == keys;
    ghost var uncited := set k | k in c.facets && !Cites(audit, k, cited);
    assert Elements(missing) == uncited by {
      forall y ensures y in missing <==> y in uncited {
        assert y in Elements(keys) <==> y in c.facets.Keys;
      }
    }
    AscendingUnique(missing, InOrder(uncited));
    HeadIsElement(missing);
    r := if missing == [] then Ok(Unit) else Err(MissingFacetCitations(missing));
  }
}
