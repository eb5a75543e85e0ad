/** Keeping the best few candidates of every facet. */
module Retention {
  import opened Bytes
  import opened Text
  import opened Sorting
  import opened TextSets
  import opened Investigation

  const MAX_FACET_QUOTA: nat := 4

  /** `FacetQuota::new`. */
  function NewQuota(value: nat): Option<nat> { if value == 0 || value > MAX_FACET_QUOTA then None else Some(value) }

  // A floating-point score: an exact number, or an infinity or not-a-number.
  datatype Float = Finite(value: real) | NonFinite

  datatype FacetCandidate = FacetCandidate(evidence: Evidence, retrieval: Float, rerank: Option<Float>)

  datatype Retained = Retained(facetId: Text, rank: nat, candidate: FacetCandidate)

  function Score(c: FacetCandidate): Float { if c.rerank.Some? then c.rerank.value else c.retrieval }

  predicate Scored(c: FacetCandidate) { Score(c).Finite? && c.retrieval.Finite? }

  predicate Fits(f: FacetRequirement, e: Evidence) {
    f.repository == e.repository && f.stage == e.stage && f.era.Matches(e.revision)
  }

  // ---------- One facet ----------

  /** The rows one candidate adds under a facet id. */
  function RowsOfOne(facets: seq<FacetRequirement>, c: FacetCandidate, id: Text): seq<FacetCandidate> {
    if facets == [] || !Scored(c) then []
    else
      var n := |facets| - 1;
      RowsOfOne(facets[..n], c, id) + (if facets[n].id == id && Fits(facets[n], c.evidence) then [c] else [])
  }

  function Rows(facets: seq<FacetRequirement>, cs: seq<FacetCandidate>, id: Text): seq<FacetCandidate> {
    if cs == [] then []
    else
      var n := |cs| - 1;
      Rows(facets, cs[..n], id) + RowsOfOne(facets, cs[n], id)
  }

  function Number(x: Float): real { if x.Finite? then x.value else 0.0 }

  /** Higher score first, then higher retrieval score, then smaller evidence id. */
  predicate RowLeq(a: FacetCandidate, b: FacetCandidate) {
    var x, y, u, v := Number(Score(a)), Number(Score(b)), Number(a.retrieval), Number(b.retrieval);
    x > y || (x == y && (u > v || (u == v && LexLeq(a.evidence.id, b.evidence.id))))
  }

  lemma RowOrderIsPreorder()
    ensures TotalPreorder(RowLeq)
  {
    forall a: FacetCandidate, b: FacetCandidate ensures RowLeq(a, b) || RowLeq(b, a) {
      LexTotal(a.evidence.id, b.evidence.id);
    }
    forall a: FacetCandidate, b: FacetCandidate, c: FacetCandidate | RowLeq(a, b) && RowLeq(b, c) ensures RowLeq(a, c) {
      if LexLeq(a.evidence.id, b.evidence.id) && LexLeq(b.evidence.id, c.evidence.id) {
        LexTransitive(a.evidence.id, b.evidence.id, c.evidence.id);
      }
    }
  }

  /** `dedup_by` on evidence ids: the first of every run of equal neighbors. */
  function DedupById(s: seq<FacetCandidate>): seq<FacetCandidate> {
    if s == [] then []
    else
      var n := |s| - 1;
      if n > 0 && s[n - 1].evidence.id == s[n].evidence.id then DedupById(s[..n]) else DedupById(s[..n]) + [s[n]]
  }

  function Ranked(rows: seq<FacetCandidate>): seq<FacetCandidate> { DedupById(SortBy(RowLeq, rows)) }

  function Best(rows: seq<FacetCandidate>, quota: nat): seq<FacetCandidate> {
    var s := Ranked(rows);
    if |s| <= quota then s else s[..quota]
  }

  function Numbered(id: Text, rows: seq<FacetCandidate>): (r: seq<Retained>)
    ensures |r| == |rows| && forall i :: 0 <= i < |rows| ==> r[i] == Retained(id, i + 1, rows[i])
  {
    seq(|rows|, i requires 0 <= i < |rows| => Retained(id, i + 1, rows[i]))
  }

  // ---------- All facets ----------

  function Concat(facets: seq<FacetRequirement>, cs: seq<FacetCandidate>, quota: nat, ids: seq<Text>): seq<Retained> {
    if ids == [] then []
    else
      var n := |ids| - 1;
      Concat(facets, cs, quota, ids[..n]) + Numbered(ids[n], Best(Rows(facets, cs, ids[n]), quota))
  }

  /** The facet ids under which some candidate has a row. */
  ghost function RowIds(facets: seq<FacetRequirement>, cs: seq<FacetCandidate>): (r: set<Text>)
    ensures forall id :: id in r <==> Rows(facets, cs, id) != []
  {
    RowIdsAreFacetIds(facets, cs);
    set i | 0 <= i < |facets| && Rows(facets, cs, facets[i].id) != [] :: facets[i].id
  }

  lemma {:induction false} RowsOfOneName(facets: seq<FacetRequirement>, c: FacetCandidate, id: Text)
    requires RowsOfOne(facets, c, id) != []
    ensures exists i :: 0 <= i < |facets| && facets[i].id == id
  {
    var n := |facets| - 1;
    if RowsOfOne(facets[..n], c, id) != [] {
      RowsOfOneName(facets[..n], c, id);
      var i :| 0 <= i < n && facets[..n][i].id == id;
      assert facets[i].id == id;
    }
  }

  lemma {:induction false} RowIdsAreFacetIds(facets: seq<FacetRequirement>, cs: seq<FacetCandidate>)
    ensures forall id :: Rows(facets, cs, id) != [] ==> exists i :: 0 <= i < |facets| && facets[i].id == id
  {
    if cs != [] {
      var n := |cs| - 1;
      RowIdsAreFacetIds(facets, cs[..n]);
      forall id | RowsOfOne(facets, cs[n], id) != [] ensures exists i :: 0 <= i < |facets| && facets[i].id == id {
        RowsOfOneName(facets, cs[n], id);
      }
    }
  }

  /** `retain_per_facet`. */
  ghost function RetainedRows(c: Contract, cs: seq<FacetCandidate>, quota: nat): seq<Retained> {
    var facets := Values(c.facets);
    Concat(facets, cs, quota, InOrder(RowIds(facets, cs)))
  }

  // ---------- As it is executed ----------

  function RowsIn(m: map<Text, seq<FacetCandidate>>, id: Text): seq<FacetCandidate> { if id in m then m[id] else [] }

  ghost predicate NoEmptyRows(m: map<Text, seq<FacetCandidate>>) { forall id :: id in m ==> m[id] != [] }

  // m is m0 with the candidate's rows under these facets pushed.
  ghost predicate RowsPushed(
    facets: seq<FacetRequirement>, c: FacetCandidate, m0: map<Text, seq<FacetCandidate>>,
    m: map<Text, seq<FacetCandidate>>)
  {
    NoEmptyRows(m) && forall id :: RowsIn(m, id) == RowsIn(m0, id) + RowsOfOne(facets, c, id)
  }

  lemma RowsOfOneSnoc(facets: seq<FacetRequirement>, f: FacetRequirement, c: FacetCandidate, id: Text)
    requires Scored(c)
    ensures RowsOfOne(facets + [f], c, id)
        == RowsOfOne(facets, c, id) + (if f.id == id && Fits(f, c.evidence) then [c] else [])
  {
    assert (facets + [f])[..|facets|] == facets;
  }

  lemma PushOne(
    facets: seq<FacetRequirement>, c: FacetCandidate, m0: map<Text, seq<FacetCandidate>>,
    m: map<Text, seq<FacetCandidate>>, f: FacetRequirement)
    requires Scored(c) && RowsPushed(facets, c, m0, m)
    ensures RowsPushed(facets + [f], c, m0, if Fits(f, c.evidence) then m[f.id := RowsIn(m, f.id) + [c]] else m)
  {
    hide Fits, Scored, RowsOfOne;
    var m' := if Fits(f, c.evidence) then m[f.id := RowsIn(m, f.id) + [c]] else m;
    forall id ensures RowsIn(m', id) == RowsIn(m0, id) + RowsOfOne(facets + [f], c, id) {
      var last := if f.id == id && Fits(f, c.evidence) then [c] else [];
      RowsOfOneSnoc(facets, f, c, id);
      assert RowsIn(m', id) == RowsIn(m, id) + last;
      assert RowsIn(m0, id) + RowsOfOne(facets, c, id) + last == RowsIn(m0, id) + (RowsOfOne(facets, c, id) + last);
    }
  }

  lemma PushNothing(facets: seq<FacetRequirement>, c: FacetCandidate, m: map<Text, seq<FacetCandidate>>)
    requires NoEmptyRows(m) && (facets == [] || !Scored(c))
    ensures RowsPushed(facets, c, m, m)
  {
    assert forall id :: RowsIn(m, id) + [] == RowsIn(m, id);
  }

  method PushRows(facets: seq<FacetRequirement>, c: FacetCandidate, m0: map<Text, seq<FacetCandidate>>)
    returns (m: map<Text, seq<FacetCandidate>>)
    requires NoEmptyRows(m0)
    ensures RowsPushed(facets, c, m0, m)
  {
    hide Fits, RowsPushed;
    m := m0;
    if !Scored(c) {
      PushNothing(facets, c, m);
      return;
    }
    PushNothing([], c, m);
    for i := 0 to |facets|
      invariant RowsPushed(facets[..i], c, m0, m)
    {
      assert facets[..i + 1] == facets[..i] + [facets[i]];
      var f := facets[i];
      PushOne(facets[..i], c, m0, m, f);
      if Fits(f, c.evidence) {
        m := m[f.id := RowsIn(m, f.id) + [c]];
      }
    }
    assert facets[..|facets|] == facets;
  }

  method RetainPerFacet(c: Contract, cs: seq<FacetCandidate>, quota: nat) returns (retained: seq<Retained>)
    ensures retained == RetainedRows(c, cs, quota)
  {
    hide RowsOfOne, SortBy, DedupById, InOrder, RowLeq, Best, Numbered, Values;
    var facets := ListValues(c.facets);
    var byFacet: map<Text, seq<FacetCandidate>> := map[];
    for i := 0 to |cs|
      invariant NoEmptyRows(byFacet) && forall id :: RowsIn(byFacet, id) == Rows(facets, cs[..i], id)
    {
      assert cs[..i + 1][..i] == cs[..i];
      byFacet := PushRows(facets, cs[i], byFacet);
    }
    assert cs[..|cs|] == cs;
    var ids := SortedKeys(byFacet);
    assert byFacet.Keys == RowIds(facets, cs);
    KeysListed(byFacet);
    retained := [];
    for i := 0 to |ids|
      invariant retained == Concat(facets, cs, quota, ids[..i])
    {
      assert ids[..i + 1][..i] == ids[..i];
      var rows := byFacet[ids[i]];
      retained := retained + Numbered(ids[i], Best(rows, quota));
    }
    assert ids[..|ids|] == ids;
  }
}
