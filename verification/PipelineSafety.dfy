/** What every run guarantees, for any acquirer and any answerer. */
module PipelineSafety {
  import opened Bytes
  import opened Text
  import opened Sorting
  import opened TextSets
  import opened Investigation
  import opened Completeness
  import opened Pipeline
  import opened Sums

  // ---------- Containers ----------

  lemma {:induction false} DedupMembers<T>(s: seq<T>, x: T)
    ensures x in Dedup(s) <==> x in s
  {
    if s != [] {
      var n := |s| - 1;
      DedupMembers(s[..n], x);
      assert s == s[..n] + [s[n]];
    }
  }

  /** Deduplicating what is sorted by a total order leaves it strictly ascending. */
  lemma {:induction false} DedupStrict<T(!new)>(le: (T, T) -> bool, s: seq<T>, i: nat, j: nat)
    requires TotalOrder(le) && Sorted(le, s) && i < j < |Dedup(s)|
    ensures le(Dedup(s)[i], Dedup(s)[j]) && Dedup(s)[i] != Dedup(s)[j]
  {
    var n := |s| - 1;
    var d := Dedup(s[..n]);
    if (n > 0 && s[n - 1] == s[n]) || j < |d| {
      DedupStrict(le, s[..n], i, j);
    } else {
      DedupMembers(s[..n], d[i]);
      assert s[..n][|s[..n]| - 1] == s[n - 1] == d[|d| - 1];
      if i < |d| - 1 { DedupStrict(le, s[..n], i, |d| - 1); }
      var k :| 0 <= k < n && s[k] == d[i];
      assert le(s[k], s[n - 1]) && le(s[n - 1], s[n]);
    }
  }

  lemma SortedMembers<T>(le: (T, T) -> bool, s: seq<T>, x: T)
    ensures x in Dedup(SortBy(le, s)) <==> x in s
  {
    DedupMembers(SortBy(le, s), x);
    SortByPermutes(le, s);
    assert x in SortBy(le, s) <==> x in multiset(SortBy(le, s));
  }

  // ---------- Admission ----------

  function TotalBytes(items: seq<Acquired>): nat {
    if items == [] then 0 else TotalBytes(items[..|items| - 1]) + items[|items| - 1].contextBytes
  }

  function TotalHops(items: seq<Acquired>): nat {
    if items == [] then 0 else TotalHops(items[..|items| - 1]) + items[|items| - 1].provenance.graphHops
  }

  ghost predicate KeyedById(m: map<Text, Acquired>) { forall k :: k in m ==> m[k].evidence.id == k }

  ghost function RetainedBytes(m: map<Text, Acquired>): nat { Total(map k | k in m :: m[k].contextBytes as nat) }

  lemma RetainedBytesGrow(m: map<Text, Acquired>, item: Acquired)
    requires item.evidence.id !in m
    ensures RetainedBytes(m[item.evidence.id := item]) == RetainedBytes(m) + item.contextBytes
  {
    var sizes := map k | k in m :: m[k].contextBytes as nat;
    var m' := m[item.evidence.id := item];
    TotalInsert(sizes, item.evidence.id, item.contextBytes);
    assert (map k | k in m' :: m'[k].contextBytes as nat) == sizes[item.evidence.id := item.contextBytes as nat];
  }

  // What admitting the items adds to the counters.
  ghost predicate CountedItems(b: RoundBudget, usage: Usage, items: seq<Acquired>, u: Usage) {
    && u.rounds == usage.rounds && u.candidates == usage.candidates && u.modelCalls == usage.modelCalls
    && u.contextBytes == usage.contextBytes + TotalBytes(items) <= b.maxContextBytes
    && u.graphHops == Min(usage.graphHops + TotalHops(items), U32_MAX)
    && u.maxGraphHops <= b.maxGraphHops
    && TotalHops(items) <= |items| * MAX_GRAPH_HOPS
  }

  // A signal, positive ranks, and one hop per edge of the path.
  ghost predicate HasSignal(p: Provenance) {
    && (p.lexicalRank == None && p.semanticRank == None ==> |p.graphPath| > 0)
    && p.lexicalRank != Some(0) && p.semanticRank != Some(0) && p.rerankRank != 0
    && |p.graphPath| == p.graphHops
  }

  lemma SignalMeaning(p: Provenance)
    ensures ProvenanceOk(p) <==> HasSignal(p)
  {
  }

  // Every edge of the path is among the relationships and joins two of the ids.
  ghost predicate PathWithin(path: seq<EvidenceRelationship>, rels: seq<EvidenceRelationship>, ids: set<Text>) {
    forall e :: e in path ==> e in rels && e.fromEvidence in ids && e.toEvidence in ids
  }

  lemma PathOkMeaning(path: seq<EvidenceRelationship>, rels: seq<EvidenceRelationship>, ids: set<Text>)
    ensures PathOk(path, rels, ids) <==> PathWithin(path, rels, ids)
  {
    forall e | PathOk(path, rels, ids) && e in path ensures e in rels && e.fromEvidence in ids && e.toEvidence in ids {
      var i :| 0 <= i < |path| && path[i] == e;
    }
  }

  // What admitting the items leaves in the retained map.
  ghost predicate KeptItems(
    b: RoundBudget, rels: seq<EvidenceRelationship>, available: set<Text>, retained: map<Text, Acquired>,
    items: seq<Acquired>, m: map<Text, Acquired>)
  {
    && KeyedById(m) && Keeps(retained, m) && m.Keys == retained.Keys + IdsOf(items)
    && RetainedBytes(m) <= RetainedBytes(retained) + TotalBytes(items)
    && (forall k :: k in m ==>
          k in retained
            || (&& HasSignal(m[k].provenance) && m[k].provenance.graphHops <= b.maxGraphHops
                && PathWithin(m[k].provenance.graphPath, rels, available)))
  }

  lemma AdmitCounts(
    b: RoundBudget, rels: seq<EvidenceRelationship>, available: set<Text>, usage: Usage, items: seq<Acquired>,
    item: Acquired,
    u: Usage, m: map<Text, Acquired>)
    requires b.maxContextBytes < U32_MAX && b.maxGraphHops <= MAX_GRAPH_HOPS
    requires CountedItems(b, usage, items, u) && Admit(b, rels, available, u, m, item).Ok?
    ensures CountedItems(b, usage, items + [item], Admit(b, rels, available, u, m, item).value.0)
  {
    hide ProvenanceOk, PathOk;
    assert (items + [item])[..|items|] == items;
  }

  lemma AdmitKeeps(
    b: RoundBudget, rels: seq<EvidenceRelationship>, available: set<Text>, retained: map<Text, Acquired>,
    items: seq<Acquired>, item: Acquired,
    u: Usage, m: map<Text, Acquired>)
    requires KeptItems(b, rels, available, retained, items, m) && Admit(b, rels, available, u, m, item).Ok?
    ensures KeptItems(b, rels, available, retained, items + [item], Admit(b, rels, available, u, m, item).value.1)
  {
    hide ProvenanceOk, PathOk, HasSignal, PathWithin, RetainedBytes;
    SignalMeaning(item.provenance);
    PathOkMeaning(item.provenance.graphPath, rels, available);
    if item.evidence.id !in m { RetainedBytesGrow(m, item); }
    assert (items + [item])[..|items|] == items;
    assert IdsOf(items + [item]) == IdsOf(items) + {item.evidence.id};
  }

  /** Admitting a round's items: exact accounting, growth without change, and checked paths. */
  lemma {:induction false} AdmitAllFacts(
    b: RoundBudget, rels: seq<EvidenceRelationship>, available: set<Text>, usage: Usage, retained: map<Text, Acquired>,
    items: seq<Acquired>)
    requires AdmitAll(b, rels, available, usage, retained, items).Ok?
    requires b.maxContextBytes < U32_MAX && b.maxGraphHops <= MAX_GRAPH_HOPS
    requires usage.contextBytes <= b.maxContextBytes && usage.graphHops <= U32_MAX
    requires usage.maxGraphHops <= b.maxGraphHops && KeyedById(retained)
    ensures var (u, m) := AdmitAll(b, rels, available, usage, retained, items).value;
            CountedItems(b, usage, items, u) && KeptItems(b, rels, available, retained, items, m)
    decreases |items|
  {
    hide Admit, CountedItems, KeptItems, KeyedById;
    if items == [] {
      NothingAdmitted(b, rels, available, usage, retained);
    } else {
      var n := |items| - 1;
      AdmitAllFacts(b, rels, available, usage, retained, items[..n]);
      var (u, m) := AdmitAll(b, rels, available, usage, retained, items[..n]).value;
      AdmitCounts(b, rels, available, usage, items[..n], items[n], u, m);
      AdmitKeeps(b, rels, available, retained, items[..n], items[n], u, m);
      assert items == items[..n] + [items[n]];
    }
  }

  lemma NothingAdmitted(
    b: RoundBudget, rels: seq<EvidenceRelationship>, available: set<Text>, usage: Usage, retained: map<Text, Acquired>)
    requires usage.contextBytes <= b.maxContextBytes && usage.graphHops <= U32_MAX
    requires usage.maxGraphHops <= b.maxGraphHops && KeyedById(retained)
    ensures CountedItems(b, usage, [], usage) && KeptItems(b, rels, available, retained, [], retained)
  {
    hide RetainedBytes, PathWithin, HasSignal;
    assert IdsOf([]) == {};
  }

  // ---------- Rounds ----------

  /** The provenance of retained evidence has a signal, positive ranks and as many hops as path
      edges; and every graph path uses recorded relationships between retained ids. */
  ghost predicate PathsHeld(b: RoundBudget, st: State) {
    forall k :: k in st.retained ==>
      && HasSignal(st.retained[k].provenance) && st.retained[k].provenance.graphHops <= b.maxGraphHops
      && PathWithin(st.retained[k].provenance.graphPath, st.relationships, st.retained.Keys)
  }

  ghost predicate AuditCurrent(c: Contract, st: State) {
    st.audit == AuditOf(c, MapSeq(EvidenceOf, Values(st.retained)), st.relationships)
  }

  // What holds of the counters at the end of `rounds` rounds.
  ghost predicate UsageSound(b: RoundBudget, u: Usage, rounds: nat) {
    && u.rounds == rounds
    && u.contextBytes <= b.maxContextBytes && u.maxGraphHops <= b.maxGraphHops && u.modelCalls <= b.maxModelCalls
    && u.candidates <= rounds * MAX_CANDIDATES_PER_ROUND
    && u.graphHops <= rounds * (MAX_CANDIDATES_PER_ROUND * MAX_GRAPH_HOPS)
  }

  // What holds of the state at the end of `rounds` rounds.
  ghost predicate Sound(c: Contract, st: State, rounds: nat) {
    && UsageSound(c.budget, st.usage, rounds)
    && RetainedBytes(st.retained) <= st.usage.contextBytes
    && KeyedById(st.retained) && PathsHeld(c.budget, st) && AuditCurrent(c, st)
  }

  // What one round adds, counted exactly.
  ghost predicate CountedUsage(before: Usage, after: Usage, result: Round) {
    && after.candidates == before.candidates + |result.retained|
    && after.contextBytes == before.contextBytes + TotalBytes(result.retained)
    && after.graphHops == before.graphHops + TotalHops(result.retained)
    && after.modelCalls == before.modelCalls + result.modelCalls
  }

  ghost predicate Counted(
    before: State, after: State, result: Round)
  {
    CountedUsage(before.usage, after.usage, result)
  }

  // How one state follows another: evidence and relationships only grow, nothing new goes missing.
  ghost predicate Advances(before: State, after: State) {
    && Keeps(before.retained, after.retained)
    && Includes(after.relationships, before.relationships)
    && Includes(before.audit.missingFacets, after.audit.missingFacets)
    && Includes(before.audit.missingRelationships, after.audit.missingRelationships)
    && (before.audit.complete ==> after.audit.complete)
  }

  lemma UnionMembers(rows: seq<EvidenceRelationship>, more: seq<EvidenceRelationship>)
    ensures forall x :: x in Union(rows, more) <==> x in rows || x in more
  {
    forall x ensures x in Union(rows, more) <==> x in rows || x in more {
      SortedMembers(RelationLeq, rows + more, x);
    }
  }

  lemma EvidenceGrows(m: map<Text, Acquired>, m': map<Text, Acquired>)
    requires Keeps(m, m')
    ensures Includes(MapSeq(EvidenceOf, Values(m')), MapSeq(EvidenceOf, Values(m)))
  {
    hide Values;
    forall x | x in MapSeq(EvidenceOf, Values(m)) ensures x in MapSeq(EvidenceOf, Values(m')) {
      var i :| 0 <= i < |Values(m)| && EvidenceOf(Values(m)[i]) == x;
      var v := Values(m)[i];
      assert v in Values(m);
      ValuesMembers(m, v);
      ValuesMembers(m', v);
      var k :| k in m && m[k] == v;
      assert m'[k] == v;
      var j :| 0 <= j < |Values(m')| && Values(m')[j] == v;
      assert MapSeq(EvidenceOf, Values(m'))[j] == x;
    }
  }

  /** One round keeps the invariant, counts exactly, and only adds. */
  lemma RoundKeepsInvariant(c: Contract, st: State, round: nat, result: Round)
    requires Valid(c) && 1 <= round <= c.budget.maxRounds && Sound(c, st, round - 1)
    requires AfterRound(c, st, round, result).Ok?
    ensures var st' := AfterRound(c, st, round, result).value;
            Sound(c, st', round) && Counted(st, st', result) && Advances(st, st')
  {
    hide AfterRound, Valid, AuditOf, PathsHeld, Values, Union, RetainedBytes, KeyedById, Counted, Keeps;
    var st' := AfterRound(c, st, round, result).value;
    RoundUsage(c, st, round, result);
    RoundContents(c, st, round, result);
    UnionMembers(st.relationships, result.relationships);
    EvidenceGrows(st.retained, st'.retained);
    AuditMonotone(c, MapSeq(EvidenceOf, Values(st.retained)), MapSeq(EvidenceOf, Values(st'.retained)),
                  st.relationships, st'.relationships);
  }

  // The usage that AfterRound starts a round with.
  function OpeningUsage(usage: Usage, round: nat, result: Round): Usage {
    usage.(rounds := round,
           candidates := SaturatingAdd(usage.candidates, |result.retained|, U32_MAX),
           modelCalls := SaturatingAdd(usage.modelCalls, result.modelCalls, U8_MAX))
  }

  /** An accepted round, taken apart. */
  lemma RoundAdmits(c: Contract, st: State, round: nat, result: Round)
    requires round <= c.budget.maxRounds && AfterRound(c, st, round, result).Ok?
    ensures var available := st.retained.Keys + IdsOf(result.retained);
            var st' := AfterRound(c, st, round, result).value;
            && |result.retained| <= c.budget.maxCandidatesPerRound
            && OpeningUsage(st.usage, round, result).modelCalls <= c.budget.maxModelCalls
            && AdmitAll(c.budget, result.relationships, available, OpeningUsage(st.usage, round, result), st.retained,
              result.retained)
               == Ok((st'.usage, st'.retained))
            && st'.relationships == Union(st.relationships, result.relationships)
            && AuditCurrent(c, st')
  {
    hide AdmitAll, AuditOf, Union, Values;
    var available := st.retained.Keys + IdsOf(result.retained);
    var r := AdmitAll(c.budget, result.relationships, available, OpeningUsage(st.usage, round, result), st.retained,
        result.retained);
    assert r.Ok? && r == Ok((r.value.0, r.value.1));
  }

  lemma ValidBudget(c: Contract)
    requires Valid(c)
    ensures BudgetInBounds(c.budget)
  {
    hide FacetWellFormed, RelationshipWellFormed;
  }

  lemma RoundAdmitted(c: Contract, st: State, round: nat, result: Round)
    requires Valid(c) && 1 <= round <= c.budget.maxRounds && Sound(c, st, round - 1)
    requires AfterRound(c, st, round, result).Ok?
    ensures var available := st.retained.Keys + IdsOf(result.retained);
            var st' := AfterRound(c, st, round, result).value;
            && CountedItems(c.budget, OpeningUsage(st.usage, round, result), result.retained, st'.usage)
            && KeptItems(c.budget, result.relationships, available, st.retained, result.retained, st'.retained)
  {
    ValidBudget(c);
    RoundAdmits(c, st, round, result);
    hide AfterRound, AdmitAll, AuditCurrent, PathsHeld, RetainedBytes, Valid, CountedItems, KeptItems, KeyedById;
    var available := st.retained.Keys + IdsOf(result.retained);
    AdmitAllFacts(c.budget, result.relationships, available, OpeningUsage(st.usage, round, result), st.retained,
                  result.retained);
  }

  /** The counters after a round, from the counters before it. */
  lemma UsageAfter(b: RoundBudget, before: Usage, round: nat, result: Round, u: Usage)
    requires BudgetInBounds(b) && 1 <= round <= b.maxRounds && UsageSound(b, before, round - 1)
    requires |result.retained| <= b.maxCandidatesPerRound
    requires OpeningUsage(before, round, result).modelCalls <= b.maxModelCalls
    requires CountedItems(b, OpeningUsage(before, round, result), result.retained, u)
    ensures UsageSound(b, u, round) && CountedUsage(before, u, result)
  {
    var n := |result.retained|;
    assert n * MAX_GRAPH_HOPS <= MAX_CANDIDATES_PER_ROUND * MAX_GRAPH_HOPS;
    assert before.candidates + n <= round * MAX_CANDIDATES_PER_ROUND;
  }

  lemma RoundUsage(c: Contract, st: State, round: nat, result: Round)
    requires Valid(c) && 1 <= round <= c.budget.maxRounds && Sound(c, st, round - 1)
    requires AfterRound(c, st, round, result).Ok?
    ensures var st' := AfterRound(c, st, round, result).value;
            && Counted(st, st', result) && UsageSound(c.budget, st'.usage, round)
            && RetainedBytes(st'.retained) <= st'.usage.contextBytes
            && KeyedById(st'.retained) && Keeps(st.retained, st'.retained)
  {
    hide AfterRound, AdmitAll, AuditCurrent, PathsHeld, RetainedBytes, Valid, KeyedById, CountedItems,
         KeptItems, UsageSound, CountedUsage, OpeningUsage, BudgetInBounds, Keeps, TotalBytes;
    ValidBudget(c);
    RoundAdmits(c, st, round, result);
    RoundAdmitted(c, st, round, result);
    var st' := AfterRound(c, st, round, result).value;
    UsageAfter(c.budget, st.usage, round, result, st'.usage);
    CountedBytes(st.usage, st'.usage, result);
    var available := st.retained.Keys + IdsOf(result.retained);
    KeptKeeps(c.budget, result.relationships, available, st.retained, result.retained, st'.retained);
  }

  lemma CountedBytes(before: Usage, after: Usage, result: Round)
    requires CountedUsage(before, after, result)
    ensures after.contextBytes == before.contextBytes + TotalBytes(result.retained)
  {
  }

  lemma KeptKeeps(
    b: RoundBudget, rels: seq<EvidenceRelationship>, available: set<Text>, retained: map<Text, Acquired>,
    items: seq<Acquired>, m: map<Text, Acquired>)
    requires KeptItems(b, rels, available, retained, items, m)
    ensures KeyedById(m) && Keeps(retained, m) && RetainedBytes(m) <= RetainedBytes(retained) + TotalBytes(items)
  {
    hide KeyedById, Keeps, RetainedBytes, TotalBytes, PathWithin, HasSignal;
  }

  lemma RoundContents(c: Contract, st: State, round: nat, result: Round)
    requires Valid(c) && 1 <= round <= c.budget.maxRounds && Sound(c, st, round - 1)
    requires AfterRound(c, st, round, result).Ok?
    ensures var st' := AfterRound(c, st, round, result).value;
            && PathsHeld(c.budget, st') && AuditCurrent(c, st')
            && st'.relationships == Union(st.relationships, result.relationships)
  {
    hide AfterRound, AdmitAll, AuditCurrent, RetainedBytes, Valid, PathsHeld, KeyedById, CountedItems, Union, KeptItems,
         IdsOf, UsageSound, OpeningUsage;
    RoundAdmits(c, st, round, result);
    RoundAdmitted(c, st, round, result);
    UnionMembers(st.relationships, result.relationships);
    PathsStillHeld(c.budget, st, result, AfterRound(c, st, round, result).value);
  }

  lemma PathsStillHeld(b: RoundBudget, st: State, result: Round, st': State)
    requires PathsHeld(b, st)
    requires KeptItems(b, result.relationships, st.retained.Keys + IdsOf(result.retained), st.retained,
                       result.retained, st'.retained)
    requires forall x :: x in st'.relationships <==> x in st.relationships || x in result.relationships
    ensures PathsHeld(b, st')
  {
    hide KeptItems, HasSignal, PathWithin, IdsOf;
    forall k | k in st'.retained
      ensures HasSignal(st'.retained[k].provenance) && st'.retained[k].provenance.graphHops <= b.maxGraphHops
      ensures PathWithin(st'.retained[k].provenance.graphPath, st'.relationships, st'.retained.Keys)
    {
      HeldPath(b, st, result, st', k);
    }
  }

  lemma HeldPath(b: RoundBudget, st: State, result: Round, st': State, k: Text)
    requires PathsHeld(b, st) && k in st'.retained
    requires KeptItems(b, result.relationships, st.retained.Keys + IdsOf(result.retained), st.retained,
                       result.retained, st'.retained)
    requires forall x :: x in st'.relationships <==> x in st.relationships || x in result.relationships
    ensures HasSignal(st'.retained[k].provenance) && st'.retained[k].provenance.graphHops <= b.maxGraphHops
    ensures PathWithin(st'.retained[k].provenance.graphPath, st'.relationships, st'.retained.Keys)
  {
    hide RetainedBytes, HasSignal, PathWithin, KeyedById, TotalBytes, IdsOf;
    var path := st'.retained[k].provenance.graphPath;
    if k in st.retained {
      PathWithinGrows(path, st.relationships, st'.relationships, st.retained.Keys, st'.retained.Keys);
    } else {
      PathWithinGrows(path, result.relationships, st'.relationships, st.retained.Keys + IdsOf(result.retained),
                      st'.retained.Keys);
    }
  }

  lemma PathWithinGrows(
    path: seq<EvidenceRelationship>, rels: seq<EvidenceRelationship>, more: seq<EvidenceRelationship>, ids: set<Text>,
    moreIds: set<Text>)
    requires PathWithin(path, rels, ids) && Includes(more, rels) && ids <= moreIds
    ensures PathWithin(path, more, moreIds)
  {
  }

  lemma InitialSound(c: Contract, calls: nat)
    requires calls <= c.budget.maxModelCalls
    ensures Sound(c, InitialState(c, calls), 0)
  {
    hide AuditOf;
    assert InOrder({}) == [];
    assert Values<Acquired>(map[]) == [];
    assert MapSeq(EvidenceOf, []) == [];
    NothingRetained();
  }

  lemma NothingRetained()
    ensures RetainedBytes(map[]) == 0
  {
  }
}
