/** The rows that one facet keeps: order, quota, and when an evidence id appears twice. */
module RankedRows {
  import opened Bytes
  import opened Sorting
  import opened Investigation
  import opened Retention
  import opened Standing

  // ---------- The best rows ----------

  /** Rows that tie have the same id. */
  lemma TiesShareIds(a: FacetCandidate, b: FacetCandidate)
    requires RowLeq(a, b) && RowLeq(b, a)
    ensures a.evidence.id == b.evidence.id
  {
    LexTotal(a.evidence.id, b.evidence.id);
  }

  ghost predicate Represented(x: FacetCandidate, s: seq<FacetCandidate>) {
    exists d :: d in s && d.evidence.id == x.evidence.id && RowLeq(d, x)
  }

  lemma {:induction false} DedupKeepsOrder(s: seq<FacetCandidate>)
    requires Sorted(RowLeq, s)
    ensures var d := DedupById(s);
            && |d| <= |s| && Sorted(RowLeq, d) && (forall x :: x in d ==> x in s)
            && (s != [] ==> d != [])
  {
    if s != [] {
      hide RowLeq;
      var n := |s| - 1;
      var before := DedupById(s[..n]);
      DedupKeepsOrder(s[..n]);
      assert s == s[..n] + [s[n]];
      forall x | x in before ensures RowLeq(x, s[n]) {
        var i :| 0 <= i < n && s[..n][i] == x;
        assert s[i] == x;
      }
    }
  }

  /** Every sorted row is represented among the deduplicated ones. */
  lemma {:induction false} DedupRepresents(s: seq<FacetCandidate>, x: FacetCandidate)
    requires Sorted(RowLeq, s) && x in s
    ensures Represented(x, DedupById(s))
  {
    hide RowLeq;
    var n := |s| - 1;
    var d := DedupById(s);
    RowOrderIsPreorder();
    assert s == s[..n] + [s[n]];
    if x in s[..n] {
      DedupRepresents(s[..n], x);
      var r :| r in DedupById(s[..n]) && r.evidence.id == x.evidence.id && RowLeq(r, x);
      assert r in d;
    } else if n > 0 && s[n - 1].evidence.id == s[n].evidence.id {
      assert s[n - 1] in s[..n];
      DedupRepresents(s[..n], s[n - 1]);
      var r :| r in d && r.evidence.id == s[n - 1].evidence.id && RowLeq(r, s[n - 1]);
      assert RowLeq(s[n - 1], s[n]);
    } else {
      assert RowLeq(x, x);
    }
  }

  ghost predicate RepeatsAreWorse(d: seq<FacetCandidate>) {
    forall i, j :: 0 <= i < j < |d| && d[i].evidence.id == d[j].evidence.id ==> !RowLeq(d[j], d[i])
  }

  /** A deduplicated row with the id of an earlier one is strictly worse than it. */
  lemma {:induction false} DedupRepeats(s: seq<FacetCandidate>)
    requires Sorted(RowLeq, s)
    ensures RepeatsAreWorse(DedupById(s))
  {
    if s != [] {
      hide RowLeq;
      var n := |s| - 1;
      var before := DedupById(s[..n]);
      DedupRepeats(s[..n]);
      DedupKeepsOrder(s[..n]);
      if n == 0 || s[n - 1].evidence.id != s[n].evidence.id {
        forall i | 0 <= i < |before| ensures !RowLeq(s[n], before[i]) {
          assert before[i] in s[..n];
          if RowLeq(s[n], before[i]) { SqueezedTie(s, before[i]); }
        }
      }
    }
  }

  lemma SqueezedTie(s: seq<FacetCandidate>, x: FacetCandidate)
    requires |s| > 1 && Sorted(RowLeq, s) && x in s[..|s| - 1] && RowLeq(s[|s| - 1], x)
    ensures s[|s| - 2].evidence.id == s[|s| - 1].evidence.id
  {
    hide RowLeq;
    RowOrderIsPreorder();
    var n := |s| - 1;
    var i :| 0 <= i < n && s[i] == x;
    assert i == n - 1 || RowLeq(s[i], s[n - 1]);
    assert RowLeq(s[n - 1], s[n]);
    TiesShareIds(s[n - 1], s[n]);
  }

  lemma RankedFacts(rows: seq<FacetCandidate>)
    ensures var d := Ranked(rows);
            && Sorted(RowLeq, d) && RepeatsAreWorse(d)
            && (forall x :: x in d ==> x in rows)
            && (forall x :: x in rows ==> Represented(x, d))
            && (d == [] <==> rows == [])
  {
    hide RowLeq, SortBy, DedupById, Represented, RepeatsAreWorse;
    var s := SortBy(RowLeq, rows);
    RowOrderIsPreorder();
    SortBySorts(RowLeq, rows);
    SortByPermutes(RowLeq, rows);
    forall x ensures x in s <==> x in rows { assert x in multiset(s) <==> x in multiset(rows); }
    DedupKeepsOrder(s);
    DedupRepeats(s);
    forall x | x in rows ensures Represented(x, DedupById(s)) { DedupRepresents(s, x); }
  }

  ghost predicate NoBetterLeftOut(x: FacetCandidate, kept: seq<FacetCandidate>, quota: nat) {
    Represented(x, kept) || (|kept| == quota && forall i :: 0 <= i < |kept| ==> RowLeq(kept[i], x))
  }

  lemma LeftOutIsWorse(d: seq<FacetCandidate>, quota: nat, x: FacetCandidate)
    requires Sorted(RowLeq, d) && Represented(x, d)
    ensures NoBetterLeftOut(x, if |d| <= quota then d else d[..quota], quota)
  {
    hide RowLeq;
    RowOrderIsPreorder();
    var r :| r in d && r.evidence.id == x.evidence.id && RowLeq(r, x);
    var j :| 0 <= j < |d| && d[j] == r;
    var kept := if |d| <= quota then d else d[..quota];
    if j < |kept| {
      assert kept[j] == r && r in kept;
    } else {
      forall i | 0 <= i < |kept| ensures RowLeq(kept[i], x) { assert RowLeq(d[i], d[j]); }
    }
  }

  /** At most the quota; from the given rows, best first; and no better row left out: a row
      missing from the best has its id there already with a row no worse, or the quota is
      filled with rows no worse. Rows that share an id differ in their scores. */
  lemma BestFacts(rows: seq<FacetCandidate>, quota: nat)
    ensures var kept := Best(rows, quota);
            && |kept| <= quota && Sorted(RowLeq, kept) && RepeatsAreWorse(kept)
            && (forall x :: x in kept ==> x in rows)
            && (forall x :: x in rows ==> NoBetterLeftOut(x, kept, quota))
            && (kept == [] <==> rows == [] || quota == 0)
  {
    hide RowLeq, Ranked, Represented, NoBetterLeftOut;
    RankedFacts(rows);
    forall x | x in rows ensures NoBetterLeftOut(x, Best(rows, quota), quota) {
      LeftOutIsWorse(Ranked(rows), quota, x);
    }
  }

  // ---------- Repeated ids ----------

  ghost predicate DistinctRowIds(s: seq<FacetCandidate>) {
    forall i, j :: 0 <= i < j < |s| ==> s[i].evidence.id != s[j].evidence.id
  }

  // Two rows of one id lead within the quota.
  ghost predicate RepeatsWithin(rows: seq<FacetCandidate>, quota: nat) {
    exists i: nat, j: nat :: WithinQuota(rows, quota, i) && WithinQuota(rows, quota, j) && i != j && SameId(rows, i, j)
  }

  /** The kept rows have different ids exactly when no two leading rows of one id stand within
      the quota. */
  lemma BestDistinctIff(rows: seq<FacetCandidate>, quota: nat)
    ensures DistinctRowIds(Best(rows, quota)) <==> !RepeatsWithin(rows, quota)
  {
    hide Best, WithinQuota, StandingOf, Leads;
    var kept := Best(rows, quota);
    if RepeatsWithin(rows, quota) {
      var i: nat, j: nat :| WithinQuota(rows, quota, i) && WithinQuota(rows, quota, j) && i != j && SameId(rows, i, j);
      StandersAreKept(rows, quota, i);
      StandersAreKept(rows, quota, j);
      StandingsDiffer(rows, quota, i, j);
    }
    forall a, b | 0 <= a < b < |kept| && kept[a].evidence.id == kept[b].evidence.id ensures RepeatsWithin(rows, quota) {
      var i := KeptOnesStand(rows, quota, a);
      var j := KeptOnesStand(rows, quota, b);
      assert SameId(rows, i, j);
    }
  }

  lemma StandingsDiffer(rows: seq<FacetCandidate>, quota: nat, i: nat, j: nat)
    requires WithinQuota(rows, quota, i) && WithinQuota(rows, quota, j) && i != j
    ensures StandingOf(rows, i) != StandingOf(rows, j)
  {
    hide Leads, RowLeq;
    RowOrderIsPreorder();
    var a, b := if Precedes(rows, i, j) then i else j, if Precedes(rows, i, j) then j else i;
    assert Precedes(rows, a, b);
    var before := set k | 0 <= k < |rows| && Precedes(rows, k, a) && Leads(rows, k);
    var more := set k | 0 <= k < |rows| && Precedes(rows, k, b) && Leads(rows, k);
    assert before + {a} <= more && a !in before;
    assert |before + {a}| == |before| + 1;
    SubsetSize(before + {a}, more);
  }

  lemma SubsetSize(a: set<nat>, b: set<nat>)
    requires a <= b
    ensures |a| <= |b|
  {
    assert a + (b - a) == b;
  }

  // A row of another id lies between two rows of one id.
  ghost predicate Interrupted(rows: seq<FacetCandidate>) {
    exists x, y, z :: x in rows && y in rows && z in rows
      && x.evidence.id == y.evidence.id != z.evidence.id && RowLeq(x, z) && RowLeq(z, y)
  }

  /** Adjacent deduplication of the sorted rows leaves different ids exactly when no row of
      another id lies between two rows of one id. */
  lemma RankedDistinctIff(rows: seq<FacetCandidate>)
    ensures DistinctRowIds(Ranked(rows)) <==> !Interrupted(rows)
    ensures forall quota: nat :: !Interrupted(rows) ==> DistinctRowIds(Best(rows, quota))
  {
    hide RowLeq, SortBy, DedupById;
    var s := SortBy(RowLeq, rows);
    RowOrderIsPreorder();
    SortBySorts(RowLeq, rows);
    SortByPermutes(RowLeq, rows);
    forall x ensures x in s <==> x in rows { assert x in multiset(s) <==> x in multiset(rows); }
    if Interrupted(rows) {
      var x, y, z :| x in rows && y in rows && z in rows
        && x.evidence.id == y.evidence.id != z.evidence.id && RowLeq(x, z) && RowLeq(z, y);
      InterruptionRepeats(s, x, y, z);
    }
    if !DistinctRowIds(Ranked(rows)) {
      var i, j :| 0 <= i < j < |Ranked(rows)| && Ranked(rows)[i].evidence.id == Ranked(rows)[j].evidence.id;
      RepetitionInterrupted(s, i, j);
    }
  }

  /** A row begins a run of its id at or before its place. */
  lemma {:induction false} RunStart(s: seq<FacetCandidate>, c: nat) returns (k: nat)
    requires c < |s|
    ensures k <= c && IsHead(s, k) && forall l :: k <= l <= c ==> s[l].evidence.id == s[c].evidence.id
  {
    if IsHead(s, c) { k := c; } else { k := RunStart(s, c - 1); }
  }

  lemma BetterComesFirst(s: seq<FacetCandidate>, a: nat, b: nat)
    requires Sorted(RowLeq, s) && a < |s| && b < |s|
    requires s[a].evidence.id != s[b].evidence.id && RowLeq(s[a], s[b])
    ensures a < b
  {
    hide RowLeq;
    if b < a { TiesShareIds(s[a], s[b]); }
  }

  lemma HeadsCountUp(s: seq<FacetCandidate>, k: nat, l: nat)
    requires k < |s| && l < |s| && IsHead(s, k) && IsHead(s, l)
    ensures k < l ==> |DedupById(s[..k])| < |DedupById(s[..l])|
    ensures l < k ==> |DedupById(s[..l])| < |DedupById(s[..k])|
  {
    hide DedupById;
    if k < l {
      DedupListsHeads(s[..l], k);
      assert s[..l][..k] == s[..k];
    } else if l < k {
      DedupListsHeads(s[..k], l);
      assert s[..k][..l] == s[..l];
    }
  }

  lemma TwoHeads(s: seq<FacetCandidate>, k: nat, l: nat)
    requires k < l < |s| && IsHead(s, k) && IsHead(s, l) && s[k].evidence.id == s[l].evidence.id
    ensures !DistinctRowIds(DedupById(s))
  {
    hide DedupById;
    DedupListsHeads(s, k);
    DedupListsHeads(s, l);
    HeadsCountUp(s, k, l);
  }

  lemma InterruptionRepeats(s: seq<FacetCandidate>, x: FacetCandidate, y: FacetCandidate, z: FacetCandidate)
    requires Sorted(RowLeq, s) && x in s && y in s && z in s
    requires x.evidence.id == y.evidence.id != z.evidence.id && RowLeq(x, z) && RowLeq(z, y)
    ensures !DistinctRowIds(DedupById(s))
  {
    hide RowLeq, DedupById;
    var a :| 0 <= a < |s| && s[a] == x;
    var b :| 0 <= b < |s| && s[b] == z;
    var c :| 0 <= c < |s| && s[c] == y;
    BetterComesFirst(s, a, b);
    BetterComesFirst(s, b, c);
    var k := RunStart(s, a);
    var l := RunStart(s, c);
    assert b < l;
    TwoHeads(s, k, l);
  }

  lemma RepetitionInterrupted(s: seq<FacetCandidate>, i: nat, j: nat)
    requires Sorted(RowLeq, s) && i < j < |DedupById(s)| && DedupById(s)[i].evidence.id == DedupById(s)[j].evidence.id
    ensures Interrupted(s)
  {
    hide RowLeq, DedupById;
    var k := DedupHasHeads(s, i);
    var l := DedupHasHeads(s, j);
    HeadsCountUp(s, k, l);
    assert k < l - 1;
    assert s[k] in s && s[l] in s && s[l - 1] in s && RowLeq(s[k], s[l - 1]) && RowLeq(s[l - 1], s[l]);
  }

  /** Such a case: three rows of descending score, the first and the last of one id, are all
      kept. */
  lemma RepeatedIdIsKept()
    ensures var a := Evidence([1], VescFirmware, FirmwareLoader, [], [1], true);
            var rows := [FacetCandidate(a, Finite(3.0), None),
                         FacetCandidate(a.(id := [2]), Finite(2.0), None),
                         FacetCandidate(a, Finite(1.0), None)];
            Ranked(rows) == rows && !DistinctRowIds(Ranked(rows))
  {
    var a := Evidence([1], VescFirmware, FirmwareLoader, [], [1], true);
    var x, y, z := FacetCandidate(a, Finite(3.0), None), FacetCandidate(a.(id := [2]), Finite(2.0), None),
                   FacetCandidate(a, Finite(1.0), None);
    assert y.evidence.id[0] != x.evidence.id[0];
    var rows := [x, y, z];
    SortBySorted(RowLeq, rows);
    assert rows[..2] == [x, y] && [x, y][..1] == [x] && [x][..0] == [];
    assert DedupById([x]) == [x] && DedupById([x, y]) == [x, y];
    assert rows[0].evidence.id == rows[2].evidence.id;
  }
}
