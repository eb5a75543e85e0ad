/** When a round is accepted, and why one is refused: stated on the reply itself. */
module PipelineAdmission {
  import opened Bytes
  import opened Text
  import opened TextSets
  import opened Investigation
  import opened Completeness
  import opened Pipeline
  import opened PipelineSafety

  // An id held before the round or returned in it.
  ghost predicate Obtainable(st: State, reply: Round, id: Text) {
    id in st.retained || exists i :: 0 <= i < |reply.retained| && reply.retained[i].evidence.id == id
  }

  // Every edge of the path was returned in the same round and joins obtainable ids.
  ghost predicate PathReturned(st: State, reply: Round, path: seq<EvidenceRelationship>) {
    forall e :: e in path ==>
      e in reply.relationships && Obtainable(st, reply, e.fromEvidence) && Obtainable(st, reply, e.toEvidence)
  }

  // The id of the item stands for nothing else, before the round or in it.
  ghost predicate Unambiguous(held: map<Text, Acquired>, items: seq<Acquired>, item: Acquired) {
    && (item.evidence.id in held ==> held[item.evidence.id] == item)
    && (forall i :: 0 <= i < |items| && items[i].evidence.id == item.evidence.id ==> items[i] == item)
  }

  lemma PathMeaning(st: State, reply: Round, path: seq<EvidenceRelationship>)
    ensures PathOk(path, reply.relationships, st.retained.Keys + IdsOf(reply.retained))
       <==> PathReturned(st, reply, path)
  {
    var available := st.retained.Keys + IdsOf(reply.retained);
    forall id ensures id in available <==> Obtainable(st, reply, id) { IdListed(reply.retained, id); }
    forall e | PathOk(path, reply.relationships, available) && e in path
      ensures e in reply.relationships && e.fromEvidence in available && e.toEvidence in available
    {
      var i :| 0 <= i < |path| && path[i] == e;
    }
  }

  lemma IdListed(items: seq<Acquired>, id: Text)
    ensures id in IdsOf(items) <==> exists i :: 0 <= i < |items| && items[i].evidence.id == id
  {
  }

  // ---------- The items in turn ----------

  // What an item must bring, whatever the others are.
  ghost predicate Eligible(b: RoundBudget, rels: seq<EvidenceRelationship>, available: set<Text>, item: Acquired) {
    && ProvenanceOk(item.provenance) && item.provenance.graphHops <= b.maxGraphHops
    && PathOk(item.provenance.graphPath, rels, available)
  }

  ghost predicate AllEligible(
    b: RoundBudget, rels: seq<EvidenceRelationship>, available: set<Text>, items: seq<Acquired>)
  {
    forall i :: 0 <= i < |items| ==> Eligible(b, rels, available, items[i])
  }

  ghost predicate AllUnambiguous(held: map<Text, Acquired>, items: seq<Acquired>) {
    forall i :: 0 <= i < |items| ==> Unambiguous(held, items, items[i])
  }

  // What the items must satisfy to be admitted.
  ghost predicate Fit(
    b: RoundBudget, rels: seq<EvidenceRelationship>, available: set<Text>, bytes: nat, held: map<Text, Acquired>,
    items: seq<Acquired>)
  {
    && AllEligible(b, rels, available, items) && bytes + TotalBytes(items) <= b.maxContextBytes
    && AllUnambiguous(held, items)
  }

  lemma EligibleSnoc(
    b: RoundBudget, rels: seq<EvidenceRelationship>, available: set<Text>, items: seq<Acquired>, item: Acquired)
    ensures AllEligible(b, rels, available, items + [item])
       <==> AllEligible(b, rels, available, items) && Eligible(b, rels, available, item)
  {
    hide Eligible;
    var all := items + [item];
    assert all[|items|] == item && forall i :: 0 <= i < |items| ==> all[i] == items[i];
  }

  lemma UnambiguousSnoc(held: map<Text, Acquired>, items: seq<Acquired>, item: Acquired)
    ensures AllUnambiguous(held, items + [item]) <==> AllUnambiguous(held, items) && Unambiguous(held, items, item)
  {
    var all := items + [item];
    assert all[|items|] == item && forall i :: 0 <= i < |items| ==> all[i] == items[i];
    if AllUnambiguous(held, all) {
      forall i | 0 <= i < |items| ensures Unambiguous(held, items, items[i]) {
        assert Unambiguous(held, all, all[i]);
      }
      assert Unambiguous(held, all, all[|items|]);
    }
    if AllUnambiguous(held, items) && Unambiguous(held, items, item) {
      forall i | 0 <= i < |all| ensures Unambiguous(held, all, all[i]) {
        if i < |items| { assert Unambiguous(held, items, items[i]); }
      }
    }
  }

  lemma TotalBytesSnoc(items: seq<Acquired>, item: Acquired)
    ensures TotalBytes(items + [item]) == TotalBytes(items) + item.contextBytes
  {
    assert (items + [item])[..|items|] == items;
  }

  lemma FitSnoc(
    b: RoundBudget, rels: seq<EvidenceRelationship>, available: set<Text>, bytes: nat, held: map<Text, Acquired>,
    items: seq<Acquired>, item: Acquired)
    ensures Fit(b, rels, available, bytes, held, items + [item])
       <==> && Fit(b, rels, available, bytes, held, items) && Eligible(b, rels, available, item)
            && bytes + TotalBytes(items) + item.contextBytes <= b.maxContextBytes
            && Unambiguous(held, items, item)
  {
    hide AllEligible, AllUnambiguous, Eligible, Unambiguous, TotalBytes;
    EligibleSnoc(b, rels, available, items, item);
    UnambiguousSnoc(held, items, item);
    TotalBytesSnoc(items, item);
  }

  // The faults that admission reports, each with its cause among the items.
  ghost predicate Explains(
    b: RoundBudget, rels: seq<EvidenceRelationship>, available: set<Text>, bytes: nat, held: map<Text, Acquired>,
    items: seq<Acquired>, error: PipelineError)
  {
    match error
    case InvalidProvenance =>
      exists i :: 0 <= i < |items|
        && !(ProvenanceOk(items[i].provenance) && PathOk(items[i].provenance.graphPath, rels, available))
    case OverBudget(GraphHops) => exists i :: 0 <= i < |items| && items[i].provenance.graphHops > b.maxGraphHops
    case OverBudget(ContextBytes) => bytes + TotalBytes(items) > b.maxContextBytes
    case ConflictingEvidence => exists i :: 0 <= i < |items| && !Unambiguous(held, items, items[i])
    case _ => false
  }

  lemma ExplainsSnoc(
    b: RoundBudget, rels: seq<EvidenceRelationship>, available: set<Text>, bytes: nat, held: map<Text, Acquired>,
    items: seq<Acquired>, item: Acquired, error: PipelineError)
    requires Explains(b, rels, available, bytes, held, items, error)
    ensures Explains(b, rels, available, bytes, held, items + [item], error)
  {
    hide ProvenanceOk, PathOk, TotalBytes;
    TotalBytesSnoc(items, item);
    var all := items + [item];
    assert forall i :: 0 <= i < |items| ==> all[i] == items[i];
    if error == ConflictingEvidence {
      var i :| 0 <= i < |items| && !Unambiguous(held, items, items[i]);
      assert !Unambiguous(held, all, all[i]);
    }
  }

  ghost predicate HoldsItems(m: map<Text, Acquired>, held: map<Text, Acquired>, items: seq<Acquired>) {
    && Keeps(held, m) && (forall k :: k in m ==> k in held || k in IdsOf(items))
    && (forall i :: 0 <= i < |items| ==> items[i].evidence.id in m && m[items[i].evidence.id] == items[i])
  }

  /** An id that is held stands for the item returned exactly when the item is unambiguous. */
  lemma HeldIffUnambiguous(m: map<Text, Acquired>, held: map<Text, Acquired>, items: seq<Acquired>, item: Acquired)
    requires HoldsItems(m, held, items)
    ensures Unambiguous(held, items, item) <==> (item.evidence.id in m ==> m[item.evidence.id] == item)
  {
    IdListed(items, item.evidence.id);
  }

  lemma HoldsItemsSnoc(
    b: RoundBudget, rels: seq<EvidenceRelationship>, available: set<Text>, u: Usage, m: map<Text, Acquired>,
    held: map<Text, Acquired>, items: seq<Acquired>, item: Acquired)
    requires HoldsItems(m, held, items) && Admit(b, rels, available, u, m, item).Ok?
    ensures HoldsItems(Admit(b, rels, available, u, m, item).value.1, held, items + [item])
  {
    hide ProvenanceOk, PathOk;
    var all := items + [item];
    assert IdsOf(all) == IdsOf(items) + {item.evidence.id};
    assert forall i :: 0 <= i < |items| ==> all[i] == items[i];
  }

  // Why an item by itself is turned away.
  ghost predicate Blamed(
    b: RoundBudget, rels: seq<EvidenceRelationship>, available: set<Text>, bytes: nat, m: map<Text, Acquired>,
    item: Acquired, error: PipelineError)
  {
    match error
    case InvalidProvenance =>
      !(ProvenanceOk(item.provenance) && PathOk(item.provenance.graphPath, rels, available))
    case OverBudget(GraphHops) => item.provenance.graphHops > b.maxGraphHops
    case OverBudget(ContextBytes) => bytes + item.contextBytes > b.maxContextBytes
    case ConflictingEvidence => item.evidence.id in m && m[item.evidence.id] != item
    case _ => false
  }

  /** One item is admitted exactly when it fits; otherwise the fault is its own. */
  lemma AdmitIff(
    b: RoundBudget, rels: seq<EvidenceRelationship>, available: set<Text>, u: Usage, m: map<Text, Acquired>,
    item: Acquired)
    requires b.maxContextBytes < U32_MAX
    ensures var r := Admit(b, rels, available, u, m, item);
            && (r.Ok? <==>
                  && Eligible(b, rels, available, item) && u.contextBytes + item.contextBytes <= b.maxContextBytes
                  && (item.evidence.id in m ==> m[item.evidence.id] == item))
            && (r.Err? ==> Blamed(b, rels, available, u.contextBytes, m, item, r.error))
  {
    hide ProvenanceOk, PathOk;
  }

  lemma BlamedExplains(
    b: RoundBudget, rels: seq<EvidenceRelationship>, available: set<Text>, bytes: nat, m: map<Text, Acquired>,
    held: map<Text, Acquired>, items: seq<Acquired>, item: Acquired, error: PipelineError)
    requires HoldsItems(m, held, items)
    requires Blamed(b, rels, available, bytes + TotalBytes(items), m, item, error)
    ensures Explains(b, rels, available, bytes, held, items + [item], error)
  {
    hide ProvenanceOk, PathOk, HoldsItems, Unambiguous, TotalBytes;
    TotalBytesSnoc(items, item);
    HeldIffUnambiguous(m, held, items, item);
    var all := items + [item];
    assert all[|items|] == item;
    if error == ConflictingEvidence {
      LaterConflicts(held, items, item);
      assert !Unambiguous(held, all, all[|items|]);
    }
  }

  lemma LaterConflicts(held: map<Text, Acquired>, items: seq<Acquired>, item: Acquired)
    requires !Unambiguous(held, items, item)
    ensures !Unambiguous(held, items + [item], item)
  {
    assert forall i :: 0 <= i < |items| ==> (items + [item])[i] == items[i];
  }

  lemma {:induction false} AdmitAllIff(
    b: RoundBudget, rels: seq<EvidenceRelationship>, available: set<Text>, usage: Usage, held: map<Text, Acquired>,
    items: seq<Acquired>)
    requires b.maxContextBytes < U32_MAX && usage.contextBytes <= b.maxContextBytes
    ensures var r := AdmitAll(b, rels, available, usage, held, items);
            && (r.Ok? <==> Fit(b, rels, available, usage.contextBytes, held, items))
            && (r.Ok? ==> HoldsItems(r.value.1, held, items)
                          && r.value.0.contextBytes == usage.contextBytes + TotalBytes(items))
            && (r.Err? ==> Explains(b, rels, available, usage.contextBytes, held, items, r.error))
    decreases |items|
  {
    hide Admit, Fit, Explains, Eligible, Unambiguous, HoldsItems, Blamed, TotalBytes;
    if items == [] {
      NothingFits(b, rels, available, usage.contextBytes, held);
    } else {
      var n := |items| - 1;
      assert items == items[..n] + [items[n]];
      AdmitAllIff(b, rels, available, usage, held, items[..n]);
      FitSnoc(b, rels, available, usage.contextBytes, held, items[..n], items[n]);
      TotalBytesSnoc(items[..n], items[n]);
      var r := AdmitAll(b, rels, available, usage, held, items[..n]);
      if r.Ok? {
        var (u, m) := r.value;
        AdmitIff(b, rels, available, u, m, items[n]);
        HeldIffUnambiguous(m, held, items[..n], items[n]);
        var last := Admit(b, rels, available, u, m, items[n]);
        if last.Ok? {
          HoldsItemsSnoc(b, rels, available, u, m, held, items[..n], items[n]);
          AdmitAdds(b, rels, available, u, m, items[n]);
        } else {
          BlamedExplains(b, rels, available, usage.contextBytes, m, held, items[..n], items[n], last.error);
        }
      } else {
        ExplainsSnoc(b, rels, available, usage.contextBytes, held, items[..n], items[n], r.error);
      }
    }
  }

  lemma AdmitAdds(
    b: RoundBudget, rels: seq<EvidenceRelationship>, available: set<Text>, u: Usage, m: map<Text, Acquired>,
    item: Acquired)
    requires b.maxContextBytes < U32_MAX && Admit(b, rels, available, u, m, item).Ok?
    ensures Admit(b, rels, available, u, m, item).value.0.contextBytes == u.contextBytes + item.contextBytes
  {
    hide ProvenanceOk, PathOk;
  }

  lemma NothingFits(
    b: RoundBudget, rels: seq<EvidenceRelationship>, available: set<Text>, bytes: nat, held: map<Text, Acquired>)
    requires bytes <= b.maxContextBytes
    ensures Fit(b, rels, available, bytes, held, []) && HoldsItems(held, held, []) && TotalBytes([]) == 0
  {
  }

  // ---------- The round ----------

  ghost predicate ItemAcceptable(b: RoundBudget, st: State, reply: Round, item: Acquired) {
    && HasSignal(item.provenance) && PathReturned(st, reply, item.provenance.graphPath)
    && |item.provenance.graphPath| <= b.maxGraphHops
    && Unambiguous(st.retained, reply.retained, item)
  }

  /** A reply that a round can accept: no more items and relationships than a round may return,
      model calls and context bytes within the budget, every item with a signal and a path, no
      longer than the budget allows, of returned edges between obtainable ids, and no id standing
      for two items. */
  ghost predicate Acceptable(c: Contract, st: State, reply: Round) {
    && |reply.retained| <= c.budget.maxCandidatesPerRound
    && |reply.relationships| <= c.budget.maxCandidatesPerRound
    && st.usage.modelCalls + reply.modelCalls <= c.budget.maxModelCalls
    && st.usage.contextBytes + TotalBytes(reply.retained) <= c.budget.maxContextBytes
    && (forall i :: 0 <= i < |reply.retained| ==> ItemAcceptable(c.budget, st, reply, reply.retained[i]))
  }

  /** A round goes on exactly with an acceptable reply. */
  lemma RoundAcceptedIff(c: Contract, st: State, round: nat, reply: Round)
    requires Valid(c) && 1 <= round <= c.budget.maxRounds && Sound(c, st, round - 1)
    ensures AfterRound(c, st, round, reply).Ok? <==> Acceptable(c, st, reply)
  {
    hide AfterRound, Sound, Valid, HasSignal, PathReturned, Unambiguous, Fit, TotalBytes, IdsOf, Explains,
         ItemAcceptable;
    RoundOutcome(c, st, round, reply);
    FitMeaning(c.budget, st, reply);
  }

  lemma FitMeaning(b: RoundBudget, st: State, reply: Round)
    ensures Fit(b, reply.relationships, st.retained.Keys + IdsOf(reply.retained), st.usage.contextBytes, st.retained,
                reply.retained)
       <==> && st.usage.contextBytes + TotalBytes(reply.retained) <= b.maxContextBytes
            && (forall i :: 0 <= i < |reply.retained| ==> ItemAcceptable(b, st, reply, reply.retained[i]))
  {
    hide ProvenanceOk, PathOk, HasSignal, PathReturned, Unambiguous, TotalBytes, IdsOf;
    forall i | 0 <= i < |reply.retained|
      ensures Eligible(b, reply.relationships, st.retained.Keys + IdsOf(reply.retained), reply.retained[i])
              && Unambiguous(st.retained, reply.retained, reply.retained[i])
          <==> ItemAcceptable(b, st, reply, reply.retained[i])
    {
      SignalMeaning(reply.retained[i].provenance);
      HopsArePath(reply.retained[i].provenance);
      PathMeaning(st, reply, reply.retained[i].provenance.graphPath);
    }
    hide Eligible, ItemAcceptable;
  }

  lemma HopsArePath(p: Provenance)
    ensures HasSignal(p) ==> p.graphHops == |p.graphPath|
  {
  }

  lemma RoundOutcome(c: Contract, st: State, round: nat, reply: Round)
    requires Valid(c) && 1 <= round <= c.budget.maxRounds && Sound(c, st, round - 1)
    ensures var r := AfterRound(c, st, round, reply);
            var available := st.retained.Keys + IdsOf(reply.retained);
            var calls := st.usage.modelCalls + reply.modelCalls;
            && (r.Ok? <==>
                  && |reply.retained| <= c.budget.maxCandidatesPerRound
                  && |reply.relationships| <= c.budget.maxCandidatesPerRound
                  && calls <= c.budget.maxModelCalls
                  && Fit(c.budget, reply.relationships, available, st.usage.contextBytes, st.retained, reply.retained))
            && (r.Err? && r.error == OverBudget(Candidates) ==> |reply.retained| > c.budget.maxCandidatesPerRound)
            && (r.Err? && r.error == OverBudget(Relationships) ==>
                  |reply.relationships| > c.budget.maxCandidatesPerRound)
            && (r.Err? && r.error == OverBudget(ModelCalls) ==> calls > c.budget.maxModelCalls)
            && (r.Err? && r.error !in {OverBudget(Candidates), OverBudget(Relationships), OverBudget(ModelCalls)} ==>
                  Explains(c.budget, reply.relationships, available, st.usage.contextBytes, st.retained,
                           reply.retained, r.error))
  {
    ValidBudget(c);
    assert c.budget.maxContextBytes < U32_MAX;
    RoundSteps(c, st, round, reply);
    hide AfterRound, Valid, AuditCurrent, PathsHeld, RetainedBytes, Fit, Explains, AdmitAll, KeyedById, IdsOf,
         HoldsItems, TotalBytes, BudgetInBounds;
    AdmitAllIff(c.budget, reply.relationships, st.retained.Keys + IdsOf(reply.retained),
                OpeningUsage(st.usage, round, reply), st.retained, reply.retained);
  }

  // The tests of a round, one after another.
  lemma RoundSteps(c: Contract, st: State, round: nat, reply: Round)
    requires round <= c.budget.maxRounds
    ensures var r := AfterRound(c, st, round, reply);
            var opening := OpeningUsage(st.usage, round, reply);
            var admitted := AdmitAll(
                c.budget, reply.relationships, st.retained.Keys + IdsOf(reply.retained), opening, st.retained,
                reply.retained);
            if |reply.retained| > c.budget.maxCandidatesPerRound then r == Err(OverBudget(Candidates))
            else if |reply.relationships| > c.budget.maxCandidatesPerRound then r == Err(OverBudget(Relationships))
            else if opening.modelCalls > c.budget.maxModelCalls then r == Err(OverBudget(ModelCalls))
            else if admitted.Err? then r == Err(admitted.error)
            else r.Ok?
  {
    hide AdmitAll, AuditOf, Values, Union, IdsOf;
  }

  // What an error of a round says has happened; the round reports no other.
  ghost predicate Caused(c: Contract, st: State, reply: Round, error: PipelineError) {
    match error
    case InvalidProvenance =>
      exists i :: 0 <= i < |reply.retained|
        && !(&& HasSignal(reply.retained[i].provenance)
             && PathReturned(st, reply, reply.retained[i].provenance.graphPath))
    case ConflictingEvidence =>
      exists i :: 0 <= i < |reply.retained| && !Unambiguous(st.retained, reply.retained, reply.retained[i])
    case OverBudget(Candidates) => |reply.retained| > c.budget.maxCandidatesPerRound
    case OverBudget(Relationships) => |reply.relationships| > c.budget.maxCandidatesPerRound
    case OverBudget(ModelCalls) => st.usage.modelCalls + reply.modelCalls > c.budget.maxModelCalls
    case OverBudget(GraphHops) =>
      exists i :: 0 <= i < |reply.retained| && reply.retained[i].provenance.graphHops > c.budget.maxGraphHops
    case OverBudget(ContextBytes) => st.usage.contextBytes + TotalBytes(reply.retained) > c.budget.maxContextBytes
    case _ => false
  }

  lemma ExplainedIsCaused(c: Contract, st: State, reply: Round, error: PipelineError)
    requires Explains(c.budget, reply.relationships, st.retained.Keys + IdsOf(reply.retained), st.usage.contextBytes,
                      st.retained, reply.retained, error)
    ensures Caused(c, st, reply, error)
  {
    hide ProvenanceOk, HasSignal, PathReturned, PathOk, Unambiguous, IdsOf, TotalBytes;
    if error == InvalidProvenance {
      var available := st.retained.Keys + IdsOf(reply.retained);
      var i :| 0 <= i < |reply.retained|
        && !(ProvenanceOk(reply.retained[i].provenance)
             && PathOk(reply.retained[i].provenance.graphPath, reply.relationships, available));
      SignalMeaning(reply.retained[i].provenance);
      PathMeaning(st, reply, reply.retained[i].provenance.graphPath);
    }
  }

  /** A refusal has its cause in the reply: each error is reported only when what it names has
      happened, and a round reports no other error. */
  lemma RefusalHasCause(c: Contract, st: State, round: nat, reply: Round)
    requires Valid(c) && 1 <= round <= c.budget.maxRounds && Sound(c, st, round - 1)
    requires AfterRound(c, st, round, reply).Err?
    ensures Caused(c, st, reply, AfterRound(c, st, round, reply).error)
  {
    RoundOutcome(c, st, round, reply);
    hide AfterRound, Sound, Valid, HasSignal, PathReturned, Unambiguous, Fit, Explains, TotalBytes, IdsOf;
    var error := AfterRound(c, st, round, reply).error;
    if error !in {OverBudget(Candidates), OverBudget(Relationships), OverBudget(ModelCalls)} {
      ExplainedIsCaused(c, st, reply, error);
    }
  }

  /** An accepted round adds what was returned to what was held, and nothing else. */
  lemma RoundAdds(c: Contract, st: State, round: nat, reply: Round, x: Acquired, e: EvidenceRelationship)
    requires Valid(c) && 1 <= round <= c.budget.maxRounds && Sound(c, st, round - 1)
    requires AfterRound(c, st, round, reply).Ok?
    ensures var st' := AfterRound(c, st, round, reply).value;
            && (x in st'.retained.Values <==> x in st.retained.Values || x in reply.retained)
            && (e in st'.relationships <==> e in st.relationships || e in reply.relationships)
  {
    ValidBudget(c);
    RoundAdmits(c, st, round, reply);
    hide Valid, AuditCurrent, PathsHeld, RetainedBytes, Fit, Explains, AdmitAll, AuditOf, Union, KeyedById, AfterRound,
         HoldsItems;
    AdmitAllIff(c.budget, reply.relationships, st.retained.Keys + IdsOf(reply.retained),
                OpeningUsage(st.usage, round, reply), st.retained, reply.retained);
    HeldValues(AfterRound(c, st, round, reply).value.retained, st.retained, reply.retained, x);
    UnionMembers(st.relationships, reply.relationships);
  }

  lemma HeldValues(m: map<Text, Acquired>, held: map<Text, Acquired>, items: seq<Acquired>, x: Acquired)
    requires HoldsItems(m, held, items)
    ensures x in m.Values <==> x in held.Values || x in items
  {
    if x in m.Values {
      var k :| k in m && m[k] == x;
      if k !in held { IdListed(items, k); }
    }
    if x in held.Values {
      var k :| k in held && held[k] == x;
      assert m[k] == x;
    }
  }
}
