/** Where a candidate stands among the rows of a facet, counted on the rows as they were given,
    and that sorting, deduplication and quota keep exactly the rows that stand high enough. */
module Standing {
  import opened Sorting
  import opened Retention

  /** Row i counts before row j: it is better, or it ties and was given earlier. */
  predicate Precedes(rows: seq<FacetCandidate>, i: nat, j: nat)
    requires i < |rows| && j < |rows|
  {
    RowLeq(rows[i], rows[j]) && (i < j || !RowLeq(rows[j], rows[i]))
  }

  predicate SameId(rows: seq<FacetCandidate>, i: nat, j: nat)
    requires i < |rows| && j < |rows|
  {
    rows[i].evidence.id == rows[j].evidence.id
  }

  /** A row of another id stands between the two. */
  predicate Parted(rows: seq<FacetCandidate>, i: nat, j: nat)
    requires i < |rows| && j < |rows|
  {
    exists k | 0 <= k < |rows| :: Precedes(rows, i, k) && Precedes(rows, k, j) && !SameId(rows, k, j)
  }

  /** Every row of the same id before this one is parted from it. */
  predicate Leads(rows: seq<FacetCandidate>, j: nat)
    requires j < |rows|
  {
    forall i | 0 <= i < |rows| && Precedes(rows, i, j) && SameId(rows, i, j) :: Parted(rows, i, j)
  }

  /** The number of leading rows before this one. */
  function StandingOf(rows: seq<FacetCandidate>, j: nat): nat
    requires j < |rows|
  {
    |set i | 0 <= i < |rows| && Precedes(rows, i, j) && Leads(rows, i)|
  }

  predicate WithinQuota(rows: seq<FacetCandidate>, quota: nat, j: nat): (r: bool)
    ensures r ==> j < |rows|
  {
    j < |rows| && Leads(rows, j) && StandingOf(rows, j) < quota
  }

  // ---------- Rows tagged with their places ----------

  datatype Tagged = Tagged(row: FacetCandidate, place: nat)

  function RowOf(t: Tagged): FacetCandidate { t.row }

  predicate TagLeq(a: Tagged, b: Tagged) {
    RowLeq(a.row, b.row) && (a.place <= b.place || !RowLeq(b.row, a.row))
  }

  lemma TagOrderIsPreorder()
    ensures TotalPreorder(TagLeq)
  {
    hide RowLeq;
    RowOrderIsPreorder();
  }

  ghost predicate PlacesAscend(t: seq<Tagged>) { forall i, j :: 0 <= i < j < |t| ==> t[i].place < t[j].place }

  /** Inserting before later places compares rows alone. */
  lemma {:induction false} InsertTagged(x: Tagged, s: seq<Tagged>)
    requires forall y :: y in s ==> x.place < y.place
    ensures MapSeq(RowOf, Insert(TagLeq, x, s)) == Insert(RowLeq, x.row, MapSeq(RowOf, s))
  {
    hide RowLeq;
    if s != [] && !TagLeq(x, s[0]) {
      InsertTagged(x, s[1..]);
      assert MapSeq(RowOf, s)[1..] == MapSeq(RowOf, s[1..]);
    } else {
      assert s != [] ==> s[0] in s;
    }
  }

  /** The stable sort of rows is the sort of tagged rows. */
  lemma {:induction false} SortTagged(t: seq<Tagged>)
    requires PlacesAscend(t)
    ensures MapSeq(RowOf, SortBy(TagLeq, t)) == SortBy(RowLeq, MapSeq(RowOf, t))
  {
    hide RowLeq, TagLeq;
    if t != [] {
      SortTagged(t[1..]);
      SortByPermutes(TagLeq, t[1..]);
      forall y | y in SortBy(TagLeq, t[1..]) ensures t[0].place < y.place {
        assert y in multiset(SortBy(TagLeq, t[1..]));
        assert y in t[1..];
      }
      InsertTagged(t[0], SortBy(TagLeq, t[1..]));
      assert MapSeq(RowOf, t)[1..] == MapSeq(RowOf, t[1..]);
    }
  }

  /** An arrangement of all places in which every place precedes the later ones. */
  ghost predicate Arranges(rows: seq<FacetCandidate>, ps: seq<nat>) {
    && |ps| == |rows|
    && (forall k :: 0 <= k < |ps| ==> ps[k] < |rows|)
    && (forall k, l :: 0 <= k < l < |ps| ==> Precedes(rows, ps[k], ps[l]))
    && (forall i :: 0 <= i < |rows| ==> i in ps)
  }

  lemma PlaceIn(rows: seq<FacetCandidate>, ps: seq<nat>, i: nat) returns (k: nat)
    requires Arranges(rows, ps) && i < |rows|
    ensures k < |ps| && ps[k] == i
  {
    assert i in ps;
    k :| 0 <= k < |ps| && ps[k] == i;
  }

  lemma SortedTags(rows: seq<FacetCandidate>) returns (s: seq<Tagged>)
    ensures |s| == |rows| && Sorted(TagLeq, s)
    ensures MapSeq(RowOf, s) == SortBy(RowLeq, rows)
    ensures forall k :: 0 <= k < |s| ==> s[k].place < |rows| && s[k].row == rows[s[k].place]
    ensures forall k, l :: 0 <= k < l < |s| ==> s[k].place != s[l].place
    ensures forall i :: 0 <= i < |rows| ==> Tagged(rows[i], i) in s
  {
    hide RowLeq, TagLeq, SortBy;
    var t := seq(|rows|, i requires 0 <= i < |rows| => Tagged(rows[i], i));
    s := SortBy(TagLeq, t);
    assert MapSeq(RowOf, t) == rows;
    SortTagged(t);
    SortByPermutes(TagLeq, t);
    TagOrderIsPreorder();
    SortBySorts(TagLeq, t);
    NoDuplicatesPermuted(t, s);
    forall x ensures x in s <==> x in t { assert x in multiset(s) <==> x in multiset(t); }
    forall k | 0 <= k < |s| ensures s[k].place < |rows| && s[k] == t[s[k].place] { assert s[k] in t; }
    forall i | 0 <= i < |rows| ensures Tagged(rows[i], i) in s { assert t[i] in t; }
  }

  lemma Arrangement(rows: seq<FacetCandidate>) returns (ps: seq<nat>)
    ensures Arranges(rows, ps)
    ensures forall k :: 0 <= k < |ps| ==> SortBy(RowLeq, rows)[k] == rows[ps[k]]
  {
    hide RowLeq, SortBy;
    var s := SortedTags(rows);
    ps := seq(|s|, k requires 0 <= k < |s| => s[k].place);
    forall i | 0 <= i < |rows| ensures i in ps {
      var k :| 0 <= k < |s| && s[k] == Tagged(rows[i], i);
      assert ps[k] == i;
    }
    forall k, l | 0 <= k < l < |ps| ensures Precedes(rows, ps[k], ps[l]) { assert TagLeq(s[k], s[l]); }
  }

  lemma OnlyOneWay(rows: seq<FacetCandidate>, i: nat, j: nat)
    requires i < |rows| && j < |rows| && Precedes(rows, i, j)
    ensures i != j && !Precedes(rows, j, i)
  {
  }

  // In an arrangement, one place precedes another exactly when it comes first.
  lemma ArrangedOrder(rows: seq<FacetCandidate>, ps: seq<nat>, k: nat, l: nat)
    requires Arranges(rows, ps) && k < |ps| && l < |ps|
    ensures Precedes(rows, ps[k], ps[l]) <==> k < l
  {
    hide Precedes;
    if l < k {
      OnlyOneWay(rows, ps[l], ps[k]);
    } else if k == l && Precedes(rows, ps[k], ps[l]) {
      OnlyOneWay(rows, ps[k], ps[l]);
    }
  }

  // ---------- Leading rows and deduplication ----------

  predicate IsHead(s: seq<FacetCandidate>, k: nat)
    requires k < |s|
  {
    k == 0 || s[k - 1].evidence.id != s[k].evidence.id
  }

  /** A row leads exactly when it starts a run of equal ids in the sorted rows. */
  lemma LeadsIffHead(rows: seq<FacetCandidate>, ps: seq<nat>, s: seq<FacetCandidate>, k: nat)
    requires Arranges(rows, ps) && k < |ps| == |s|
    requires forall l :: 0 <= l < |ps| ==> s[l] == rows[ps[l]]
    ensures Leads(rows, ps[k]) <==> IsHead(s, k)
  {
    hide Precedes;
    if IsHead(s, k) {
      forall i | 0 <= i < |rows| && Precedes(rows, i, ps[k]) && SameId(rows, i, ps[k]) ensures Parted(rows, i, ps[k]) {
        var l := PlaceIn(rows, ps, i);
        ArrangedOrder(rows, ps, l, k);
        assert l < k - 1;
        assert Precedes(rows, ps[l], ps[k - 1]) && Precedes(rows, ps[k - 1], ps[k]);
      }
    } else {
      assert Precedes(rows, ps[k - 1], ps[k]) && SameId(rows, ps[k - 1], ps[k]);
      forall m | 0 <= m < |rows| ensures !(Precedes(rows, ps[k - 1], m) && Precedes(rows, m, ps[k])) {
        var l := PlaceIn(rows, ps, m);
        ArrangedOrder(rows, ps, k - 1, l);
        ArrangedOrder(rows, ps, l, k);
      }
      assert !Parted(rows, ps[k - 1], ps[k]);
    }
  }

  /** Deduplication lists the heads of the runs in order. */
  lemma {:induction false} DedupListsHeads(s: seq<FacetCandidate>, k: nat)
    requires k < |s| && IsHead(s, k)
    ensures |DedupById(s[..k])| < |DedupById(s)| && DedupById(s)[|DedupById(s[..k])|] == s[k]
  {
    var n := |s| - 1;
    if k < n {
      DedupListsHeads(s[..n], k);
      assert s[..n][..k] == s[..k];
    }
  }

  lemma {:induction false} DedupHasHeads(s: seq<FacetCandidate>, n: nat) returns (k: nat)
    requires n < |DedupById(s)|
    ensures k < |s| && IsHead(s, k) && |DedupById(s[..k])| == n && DedupById(s)[n] == s[k]
  {
    var m := |s| - 1;
    if n < |DedupById(s[..m])| {
      k := DedupHasHeads(s[..m], n);
      assert s[..m][..k] == s[..k];
    } else {
      k := m;
    }
  }

  // The leading rows among the first k of an arrangement.
  ghost function LeadersBefore(rows: seq<FacetCandidate>, ps: seq<nat>, k: nat): set<nat>
    requires Arranges(rows, ps) && k <= |ps|
  {
    set l | 0 <= l < k && Leads(rows, ps[l]) :: ps[l]
  }

  lemma {:induction false} CountLeaders(rows: seq<FacetCandidate>, ps: seq<nat>, s: seq<FacetCandidate>, k: nat)
    requires Arranges(rows, ps) && k <= |ps| == |s|
    requires forall l :: 0 <= l < |ps| ==> s[l] == rows[ps[l]]
    ensures |LeadersBefore(rows, ps, k)| == |DedupById(s[..k])|
    decreases k
  {
    hide Leads, Precedes, DedupById, IsHead;
    if k == 0 {
      assert LeadersBefore(rows, ps, 0) == {};
      DedupNothing(s[..0]);
    } else {
      hide LeadersBefore, Arranges;
      CountLeaders(rows, ps, s, k - 1);
      PlacesKnown(rows, ps, k - 1);
      LeadsIffHead(rows, ps, s, k - 1);
      DedupStep(s, k);
      OneMoreLeader(rows, ps, k);
    }
  }

  lemma PlacesKnown(rows: seq<FacetCandidate>, ps: seq<nat>, k: nat)
    requires Arranges(rows, ps) && k < |ps|
    ensures ps[k] < |rows|
  {
  }

  lemma DedupNothing(s: seq<FacetCandidate>)
    requires s == []
    ensures DedupById(s) == []
  {
  }

  lemma OneMoreLeader(rows: seq<FacetCandidate>, ps: seq<nat>, k: nat)
    requires Arranges(rows, ps) && 0 < k <= |ps|
    ensures |LeadersBefore(rows, ps, k)|
         == |LeadersBefore(rows, ps, k - 1)| + (if Leads(rows, ps[k - 1]) then 1 else 0)
  {
    hide Leads, Precedes;
    assert ps[k - 1] !in LeadersBefore(rows, ps, k - 1) by {
      forall l | 0 <= l < k - 1 ensures ps[l] != ps[k - 1] { OnlyOneWay(rows, ps[l], ps[k - 1]); }
    }
    assert LeadersBefore(rows, ps, k)
        == LeadersBefore(rows, ps, k - 1) + (if Leads(rows, ps[k - 1]) then {ps[k - 1]} else {});
  }

  lemma DedupStep(s: seq<FacetCandidate>, k: nat)
    requires 0 < k <= |s|
    ensures |DedupById(s[..k])| == |DedupById(s[..k - 1])| + (if IsHead(s, k - 1) then 1 else 0)
  {
    assert s[..k][..k - 1] == s[..k - 1];
  }

  /** The standing of a row is its place among the deduplicated sorted rows. */
  lemma StandingIsRank(rows: seq<FacetCandidate>, ps: seq<nat>, s: seq<FacetCandidate>, k: nat)
    requires Arranges(rows, ps) && k < |ps| == |s|
    requires forall l :: 0 <= l < |ps| ==> s[l] == rows[ps[l]]
    ensures StandingOf(rows, ps[k]) == |DedupById(s[..k])|
  {
    hide Leads, Precedes, DedupById;
    CountLeaders(rows, ps, s, k);
    var before := set i | 0 <= i < |rows| && Precedes(rows, i, ps[k]) && Leads(rows, i);
    forall i ensures i in before <==> i in LeadersBefore(rows, ps, k) {
      if i in before || i in LeadersBefore(rows, ps, k) {
        var l := PlaceIn(rows, ps, i);
        ArrangedOrder(rows, ps, l, k);
      }
    }
    assert before == LeadersBefore(rows, ps, k);
  }

  lemma StandersAreKept(rows: seq<FacetCandidate>, quota: nat, j: nat)
    requires WithinQuota(rows, quota, j)
    ensures StandingOf(rows, j) < |Best(rows, quota)| && Best(rows, quota)[StandingOf(rows, j)] == rows[j]
  {
    hide Leads, Precedes, DedupById, RowLeq, StandingOf, SortBy;
    var s := SortBy(RowLeq, rows);
    var ps := Arrangement(rows);
    var k := PlaceIn(rows, ps, j);
    LeadsIffHead(rows, ps, s, k);
    StandingIsRank(rows, ps, s, k);
    DedupListsHeads(s, k);
  }

  lemma KeptOnesStand(rows: seq<FacetCandidate>, quota: nat, n: nat) returns (j: nat)
    requires n < |Best(rows, quota)|
    ensures WithinQuota(rows, quota, j) && StandingOf(rows, j) == n && Best(rows, quota)[n] == rows[j]
  {
    hide Leads, Precedes, DedupById, RowLeq, StandingOf, SortBy;
    var s := SortBy(RowLeq, rows);
    var ps := Arrangement(rows);
    var k := DedupHasHeads(s, n);
    LeadsIffHead(rows, ps, s, k);
    StandingIsRank(rows, ps, s, k);
    j := ps[k];
  }

  /** Of the given rows, exactly those that lead with a standing below the quota are kept, each
      at the place of its standing. */
  lemma BestByStanding(rows: seq<FacetCandidate>, quota: nat)
    ensures var kept := Best(rows, quota);
            && (forall j: nat :: WithinQuota(rows, quota, j) ==>
                  StandingOf(rows, j) < |kept| && kept[StandingOf(rows, j)] == rows[j])
            && (forall x :: x in kept <==> exists j: nat :: WithinQuota(rows, quota, j) && rows[j] == x)
  {
    hide Leads, Best, StandingOf;
    var kept := Best(rows, quota);
    forall j: nat | WithinQuota(rows, quota, j)
      ensures StandingOf(rows, j) < |kept| && kept[StandingOf(rows, j)] == rows[j]
    {
      StandersAreKept(rows, quota, j);
    }
    forall x | x in kept ensures exists j: nat :: WithinQuota(rows, quota, j) && rows[j] == x {
      var n :| 0 <= n < |kept| && kept[n] == x;
      var j := KeptOnesStand(rows, quota, n);
    }
  }

  /** Where no id is repeated, every row leads, and its standing is the number of rows before it. */
  lemma UnrepeatedRowsLead(rows: seq<FacetCandidate>, j: nat)
    requires j < |rows| && forall i, k :: 0 <= i < k < |rows| ==> !SameId(rows, i, k)
    ensures Leads(rows, j)
    ensures StandingOf(rows, j) == |set i | 0 <= i < |rows| && Precedes(rows, i, j)|
  {
    forall i, k | 0 <= i < |rows| && 0 <= k < |rows| && Precedes(rows, i, k) ensures !SameId(rows, i, k) {
      OnlyOneWay(rows, i, k);
      if k < i { assert !SameId(rows, k, i); }
    }
    assert (set i | 0 <= i < |rows| && Precedes(rows, i, j) && Leads(rows, i))
        == (set i | 0 <= i < |rows| && Precedes(rows, i, j));
  }
}
