/** Retrieval metrics of one judged query: recall, reciprocal rank and normalised discounted
    gain over the first ten results. The logarithm of the discount is a parameter. */
module Evaluation {
  import opened Bytes
  import opened Text
  import opened Sorting
  import opened TextSets

  type Judgments = map<Text, byte>

  // Logarithm to base 2 of the integers from 2 on.
  type Log = nat -> real

  ghost predicate Logarithmic(log: Log) {
    && (forall i: nat :: 2 <= i ==> log(i) > 0.0)
    && (forall i: nat, j: nat :: 2 <= i < j ==> log(i) < log(j))
  }

  const CUTOFF: nat := 10

  function Grade(judged: Judgments): Text -> nat { id => if id in judged then judged[id] else 0 }

  function Pow2(n: nat): (r: nat)
    ensures r >= 1
  {
    if n == 0 then 1 else 2 * Pow2(n - 1)
  }

  // The power of two is computed in 32 bits.
  predicate GradesFit(judged: Judgments) { forall id | id in judged :: judged[id] < 32 }

  function Gain(grade: nat): nat { Pow2(grade) - 1 }

  function Top<T>(s: seq<T>, n: nat): (r: seq<T>)
    ensures |r| == Min(n, |s|) && r <= s
  {
    s[..Min(n, |s|)]
  }

  function Positive(gs: seq<nat>): seq<nat> {
    if gs == [] then []
    else Positive(gs[..|gs| - 1]) + (if gs[|gs| - 1] > 0 then [gs[|gs| - 1]] else [])
  }

  predicate AtLeast(a: nat, b: nat) { a >= b }

  /** The positive grades, best first. */
  ghost function Ideal(judged: Judgments): seq<nat> {
    SortBy(AtLeast, Positive(MapSeq(Grade(judged), InOrder(judged.Keys))))
  }

  function Gains(gs: seq<nat>): seq<nat> { MapSeq(Gain, gs) }

  function Over(x: real, l: real): real
    requires l > 0.0
  {
    x / l
  }

  /** Gains in the order given, each divided by the logarithm of its place. */
  function Discounted(log: Log, gains: seq<nat>): real
    requires forall i: nat :: 2 <= i ==> log(i) > 0.0
  {
    if gains == [] then 0.0
    else
      var n := |gains| - 1;
      Discounted(log, gains[..n]) + Over(gains[n] as real, log(n + 2))
  }

  /** The discounted gain of the judged results among those given. */
  function DiscountedResults(log: Log, judged: Judgments, ids: seq<Text>): real
    requires forall i: nat :: 2 <= i ==> log(i) > 0.0
  {
    if ids == [] then 0.0
    else
      var n := |ids| - 1;
      DiscountedResults(log, judged, ids[..n])
        + (if ids[n] in judged then Over(Gain(judged[ids[n]]) as real, log(n + 2)) else 0.0)
  }

  function Found(judged: Judgments, ids: seq<Text>): nat { |Positive(MapSeq(Grade(judged), ids))| }

  function Saturated(n: nat): real { Min(n, U32_MAX) as real }

  function Ratio(n: nat, d: nat): real { if d == 0 then 0.0 else Saturated(n) / Saturated(d) }

  /** The first place of a relevant result. */
  function FirstRelevant(judged: Judgments, ids: seq<Text>): (r: Option<nat>)
    ensures r.Some? ==> r.value < |ids| && Grade(judged)(ids[r.value]) > 0
    ensures r.Some? ==> forall i :: 0 <= i < r.value ==> Grade(judged)(ids[i]) == 0
    ensures r.None? ==> forall i :: 0 <= i < |ids| ==> Grade(judged)(ids[i]) == 0
  {
    if ids == [] then None
    else
      var n := |ids| - 1;
      var before := FirstRelevant(judged, ids[..n]);
      if before.Some? then before
      else if Grade(judged)(ids[n]) > 0 then Some(n) else None
  }

  datatype Metrics = Metrics(recallAt5: real, recallAt10: real, reciprocalRankAt10: real, ndcgAt10: real)

  /** `evaluate_query_with_hits`. */
  ghost function Evaluate(log: Log, judged: Judgments, ranked: seq<Text>): Metrics
    requires Logarithmic(log) && GradesFit(judged)
  {
    var relevant := |Ideal(judged)|;
    var top := Top(ranked, CUTOFF);
    var first := FirstRelevant(judged, top);
    var dcg, idcg := DiscountedResults(log, judged, top), Discounted(log, Gains(Top(Ideal(judged), CUTOFF)));
    Metrics(
      Ratio(Found(judged, Top(ranked, 5)), relevant), Ratio(Found(judged, top), relevant),
      if first.Some? then 1.0 / Saturated(first.value + 1) else 0.0,
      if idcg == 0.0 then 0.0 else dcg / idcg)
  }

  // ---------- Sums ----------

  function Sum(xs: seq<nat>): nat {
    if xs == [] then 0 else Sum(xs[..|xs| - 1]) + xs[|xs| - 1]
  }

  lemma {:induction false} SumCons(x: nat, xs: seq<nat>)
    ensures Sum([x] + xs) == x + Sum(xs)
  {
    if xs == [] {
      assert [x] + xs == [x];
    } else {
      SumCons(x, xs[..|xs| - 1]);
      assert ([x] + xs)[..|xs|] == [x] + xs[..|xs| - 1];
    }
  }

  lemma {:induction false} SumPrefix(xs: seq<nat>, m: nat, n: nat)
    requires m <= n <= |xs|
    ensures Sum(xs[..m]) <= Sum(xs[..n])
    decreases n
  {
    if m < n {
      SumPrefix(xs, m, n - 1);
      assert xs[..n][..n - 1] == xs[..n - 1];
    }
  }

  lemma {:induction false} GainMonotone(a: nat, b: nat)
    requires a <= b
    ensures Gain(a) <= Gain(b)
    ensures a < b ==> Gain(a) < Gain(b)
    decreases b
  {
    if a < b { GainMonotone(a, b - 1); }
  }

  function Without<T>(s: seq<T>, i: nat): (r: seq<T>)
    requires i < |s|
    ensures |r| == |s| - 1
  {
    s[..i] + s[i + 1..]
  }

  lemma TakenOut<T>(s: seq<T>, i: nat)
    requires i < |s|
    ensures multiset(s) == multiset(Without(s, i)) + multiset{s[i]}
  {
    assert s == s[..i] + [s[i]] + s[i + 1..];
  }

  lemma StillIncluded(others: multiset<nat>, rest: multiset<nat>, x: nat, first: nat)
    requires others + multiset{x} <= rest + multiset{first}
    requires first in others + multiset{x} ==> x == first
    ensures others <= rest
  {
    forall y ensures others[y] <= rest[y] {
      assert (others + multiset{x})[y] <= (rest + multiset{first})[y];
      if y == first && x != first { assert first !in others + multiset{x}; }
    }
  }

  lemma RestIncluded(s: seq<nat>, best: seq<nat>, i: nat)
    requires multiset(s) <= multiset(best) && Sorted(AtLeast, best) && i < |s|
    requires best != [] && (best[0] in s ==> s[i] == best[0])
    ensures multiset(Without(s, i)) <= multiset(best[1..]) && s[i] <= best[0]
  {
    hide Without;
    assert best == [best[0]] + best[1..];
    TakenOut(s, i);
    assert multiset(best) == multiset(best[1..]) + multiset{best[0]};
    assert best[0] in s <==> best[0] in multiset(s);
    StillIncluded(multiset(Without(s, i)), multiset(best[1..]), s[i], best[0]);
    assert s[i] in multiset(best);
    var p :| 0 <= p < |best| && best[p] == s[i];
  }

  /** Members drawn from a descending list sum to no more than its front. */
  lemma {:induction false} FrontIsLargest(s: seq<nat>, best: seq<nat>)
    requires multiset(s) <= multiset(best) && Sorted(AtLeast, best)
    ensures |s| <= |best| && Sum(Gains(s)) <= Sum(Gains(best[..|s|]))
    decreases |best|
  {
    if s != [] {
      assert s[0] in multiset(best);
      hide Without, Gain;
      var i := if best[0] in s then PlaceOf(s, best[0]) else 0;
      RestIncluded(s, best, i);
      FrontIsLargest(Without(s, i), best[1..]);
      GainMonotone(s[i], best[0]);
      SumTakenOut(s, i);
      FrontSum(best, |s|);
    }
  }

  lemma FrontSum(best: seq<nat>, n: nat)
    requires 0 < n <= |best|
    ensures Sum(Gains(best[..n])) == Gain(best[0]) + Sum(Gains(best[1..][..n - 1]))
  {
    assert Gains(best[..n]) == [Gain(best[0])] + Gains(best[1..][..n - 1]);
    SumCons(Gain(best[0]), Gains(best[1..][..n - 1]));
  }

  ghost function PlaceOf(s: seq<nat>, x: nat): (i: nat)
    requires x in s
    ensures i < |s| && s[i] == x
  {
    var i :| 0 <= i < |s| && s[i] == x;
    i
  }

  lemma {:induction false} SumTakenOut(s: seq<nat>, i: nat)
    requires i < |s|
    ensures Sum(Gains(s)) == Gain(s[i]) + Sum(Gains(Without(s, i)))
    decreases |s|
  {
    var n := |s| - 1;
    assert Gains(s)[..n] == Gains(s[..n]);
    if i == n {
      assert Without(s, i) == s[..n];
    } else {
      SumTakenOut(s[..n], i);
      var others := Without(s, i);
      assert others[..n - 1] == Without(s[..n], i);
      assert Gains(others)[..n - 1] == Gains(others[..n - 1]);
    }
  }

  // ---------- Grades found ----------

  /** Results of positive grade are not repeated. */
  ghost predicate RelevantDistinct(judged: Judgments, ids: seq<Text>) {
    forall i, j :: 0 <= i < j < |ids| && ids[i] == ids[j] ==> Grade(judged)(ids[i]) == 0
  }

  lemma {:induction false} PositiveSplit(a: seq<nat>, b: seq<nat>)
    ensures Positive(a + b) == Positive(a) + Positive(b)
  {
    if b == [] {
      assert a + b == a;
    } else {
      var n := |b| - 1;
      PositiveSplit(a, b[..n]);
      assert (a + b)[..|a + b| - 1] == a + b[..n];
    }
  }

  /** The positive grades of unrepeated results are among those of all judged ids. */
  lemma {:induction false} FoundAmongJudged(judged: Judgments, ids: seq<Text>, keys: seq<Text>)
    requires RelevantDistinct(judged, ids)
    requires forall i :: 0 <= i < |ids| && Grade(judged)(ids[i]) > 0 ==> ids[i] in keys
    ensures multiset(Positive(MapSeq(Grade(judged), ids))) <= multiset(Positive(MapSeq(Grade(judged), keys)))
    decreases |ids|
  {
    if ids != [] {
      hide Without;
      var n := |ids| - 1;
      var g := Grade(judged)(ids[n]);
      assert MapSeq(Grade(judged), ids)[..n] == MapSeq(Grade(judged), ids[..n]);
      if g == 0 {
        FoundAmongJudged(judged, ids[..n], keys);
      } else {
        var p :| 0 <= p < |keys| && keys[p] == ids[n];
        StillIn(judged, ids, keys, p);
        FoundAmongJudged(judged, ids[..n], Without(keys, p));
        OneTakenOut(judged, keys, p);
      }
    }
  }

  lemma StillIn(judged: Judgments, ids: seq<Text>, keys: seq<Text>, p: nat)
    requires RelevantDistinct(judged, ids) && ids != [] && p < |keys| && keys[p] == ids[|ids| - 1]
    requires forall i :: 0 <= i < |ids| && Grade(judged)(ids[i]) > 0 ==> ids[i] in keys
    ensures var rest := ids[..|ids| - 1];
            forall i :: 0 <= i < |rest| && Grade(judged)(rest[i]) > 0 ==> rest[i] in Without(keys, p)
  {
    var rest, others := ids[..|ids| - 1], Without(keys, p);
    forall i | 0 <= i < |rest| && Grade(judged)(rest[i]) > 0 ensures rest[i] in others {
      assert rest[i] == ids[i];
      var q :| 0 <= q < |keys| && keys[q] == ids[i];
      assert keys[q] == others[if q < p then q else q - 1];
    }
  }

  lemma OneTakenOut(judged: Judgments, keys: seq<Text>, p: nat)
    requires p < |keys| && Grade(judged)(keys[p]) > 0
    ensures multiset(Positive(MapSeq(Grade(judged), keys)))
         == multiset(Positive(MapSeq(Grade(judged), Without(keys, p)))) + multiset{Grade(judged)(keys[p])}
  {
    var a, g, b := MapSeq(Grade(judged), keys[..p]), Grade(judged)(keys[p]), MapSeq(Grade(judged), keys[p + 1..]);
    assert MapSeq(Grade(judged), keys) == a + ([g] + b);
    assert MapSeq(Grade(judged), Without(keys, p)) == a + b;
    PositiveSplit(a, [g] + b);
    PositiveSplit([g], b);
    PositiveSplit(a, b);
    assert Positive([g]) == [g] by { assert [g][..0] == []; }
  }

  lemma AtLeastOrders()
    ensures TotalPreorder(AtLeast)
  {
  }

  /** The positive grades of the first results: no more than the ideal has, and of no greater
      total gain than as many of the best. */
  lemma FoundFacts(judged: Judgments, ids: seq<Text>)
    requires RelevantDistinct(judged, ids)
    ensures var found, best := Positive(MapSeq(Grade(judged), ids)), Ideal(judged);
            |found| <= |best| && Sum(Gains(found)) <= Sum(Gains(best[..|found|]))
  {
    var keys := InOrder(judged.Keys);
    var all := Positive(MapSeq(Grade(judged), keys));
    forall i | 0 <= i < |ids| && Grade(judged)(ids[i]) > 0 ensures ids[i] in keys { assert ids[i] in Elements(keys); }
    FoundAmongJudged(judged, ids, keys);
    AtLeastOrders();
    SortBySorts(AtLeast, all);
    SortByPermutes(AtLeast, all);
    FrontIsLargest(Positive(MapSeq(Grade(judged), ids)), Ideal(judged));
  }

  lemma {:induction false} PositiveGains(gs: seq<nat>)
    ensures Sum(Gains(gs)) == Sum(Gains(Positive(gs))) && |Positive(gs)| <= |gs|
  {
    if gs != [] {
      var n := |gs| - 1;
      PositiveGains(gs[..n]);
      assert Gains(gs)[..n] == Gains(gs[..n]);
      assert Sum(Gains(gs)) == Sum(Gains(gs[..n])) + Gain(gs[n]);
      var p := Positive(gs[..n]);
      if gs[n] > 0 {
        assert Gains(p + [gs[n]])[..|p|] == Gains(p);
        assert Sum(Gains(p + [gs[n]])) == Sum(Gains(p)) + Gain(gs[n]);
      } else {
        assert Gain(0) == 0 && p + [] == p;
      }
    }
  }

  // ---------- Summation by parts ----------

  ghost predicate Dominated(a: seq<nat>, b: seq<nat>) {
    |a| == |b| && forall k :: 0 <= k <= |a| ==> Sum(a[..k]) <= Sum(b[..k])
  }

  lemma Quotient(x: real, l: real)
    requires l > 0.0
    ensures x / l == x * (1.0 / l) && 1.0 / l > 0.0
  {
  }

  lemma Scaled(x: real, y: real, c: real)
    requires c > 0.0
    ensures x < y ==> x * c < y * c
    ensures (x + y) * c == x * c + y * c
  {
  }

  lemma OverFacts(x: real, l: real)
    requires l > 0.0
    ensures Over(0.0, l) == 0.0
    ensures x >= 0.0 ==> Over(x, l) >= 0.0
    ensures x > 0.0 ==> Over(x, l) > 0.0
  {
    Quotient(x, l);
    if x > 0.0 { Scaled(0.0, x, 1.0 / l); }
  }

  lemma OverDifference(x: real, y: real, l: real)
    requires l > 0.0
    ensures Over(x + y, l) == Over(x, l) + Over(y, l)
    ensures Over(x - y, l) == Over(x, l) - Over(y, l)
  {
    Quotient(x, l);
    Quotient(y, l);
    Quotient(x + y, l);
    Quotient(x - y, l);
    Scaled(x, y, 1.0 / l);
    Scaled(x - y, y, 1.0 / l);
  }

  lemma LargerDivisor(x: real, l: real, m: real)
    requires 0.0 < l < m && x >= 0.0
    ensures Over(x, l) >= Over(x, m)
    ensures x > 0.0 ==> Over(x, l) > Over(x, m)
  {
    var q, p := x / l, x / m;
    assert q * l == x && p * m == x;
    if x > 0.0 {
      Scaled(l, m, p);
      if q < p { Scaled(q, p, l); }
    }
  }

  // One step of the summation: w is the gap so far, d the excess of the prefix sums.
  lemma PartsStep(w: real, d: real, a: real, b: real, l: real, m: real)
    requires 0.0 < l < m && d >= 0.0 && w >= Over(d, l)
    ensures w + Over(b, m) - Over(a, m) >= Over(d + b - a, m)
    ensures w + Over(b, m) - Over(a, m) == Over(d + b - a, m) ==> d == 0.0 && w == Over(d, l)
  {
    hide Over;
    LargerDivisor(d, l, m);
    OverDifference(d, b, m);
    OverDifference(d + b, a, m);
  }

  lemma PrefixesDominated(a: seq<nat>, b: seq<nat>, n: nat)
    requires Dominated(a, b) && n <= |a|
    ensures Dominated(a[..n], b[..n])
    ensures forall k :: 0 <= k <= n ==> a[..n][..k] == a[..k] && b[..n][..k] == b[..k]
  {
    assert forall k :: 0 <= k <= n ==> a[..n][..k] == a[..k] && b[..n][..k] == b[..k];
  }

  lemma DominatedAt(a: seq<nat>, b: seq<nat>, k: nat)
    requires Dominated(a, b) && k <= |a|
    ensures |a| == |b| && Sum(a[..k]) <= Sum(b[..k])
  {
  }

  /** Where the prefix sums of a never exceed those of b, neither does the discounted sum; and
      the discounted sums agree only when all prefix sums do. */
  lemma {:induction false} SummationByParts(log: Log, a: seq<nat>, b: seq<nat>)
    requires Logarithmic(log) && a != [] && Dominated(a, b)
    ensures var gap, rest := Discounted(log, b) - Discounted(log, a), Over((Sum(b) - Sum(a)) as real, log(|a| + 1));
            && gap >= rest
            && (gap == rest ==> forall k :: 0 <= k < |a| ==> Sum(a[..k]) == Sum(b[..k]))
  {
    hide Over, Dominated;
    var n := |a| - 1;
    PrefixesDominated(a, b, n);
    DominatedAt(a, b, n);
    if n == 0 {
      assert a[..0] == [] && b[..0] == [];
      OverDifference(b[0] as real, a[0] as real, log(2));
    } else {
      SummationByParts(log, a[..n], b[..n]);
      var w := Discounted(log, b[..n]) - Discounted(log, a[..n]);
      var d := (Sum(b[..n]) - Sum(a[..n])) as real;
      PartsStep(w, d, a[n] as real, b[n] as real, log(n + 1), log(n + 2));
      assert (Sum(b) - Sum(a)) as real == d + b[n] as real - a[n] as real;
    }
  }

  // ---------- The bounds ----------

  function Padded(xs: seq<nat>, n: nat): (r: seq<nat>)
    requires |xs| <= n
    ensures |r| == n
  {
    xs + seq(n - |xs|, _ => 0)
  }

  lemma {:induction false} PaddingAddsNothing(log: Log, xs: seq<nat>, n: nat)
    requires Logarithmic(log) && |xs| <= n
    ensures Discounted(log, Padded(xs, n)) == Discounted(log, xs)
    decreases n
  {
    hide Over;
    if |xs| == n {
      assert Padded(xs, n) == xs;
    } else {
      PaddingAddsNothing(log, xs, n - 1);
      OverFacts(0.0, log(n + 1));
      assert Padded(xs, n)[..n - 1] == Padded(xs, n - 1);
    }
  }

  lemma {:induction false} PaddedSum(xs: seq<nat>, n: nat, k: nat)
    requires |xs| <= n && k <= n
    ensures Sum(Padded(xs, n)[..k]) == Sum(Top(xs, k))
    decreases k
  {
    if k <= |xs| {
      assert Padded(xs, n)[..k] == xs[..k];
    } else {
      PaddedSum(xs, n, k - 1);
      assert Padded(xs, n)[..k][..k - 1] == Padded(xs, n)[..k - 1];
    }
  }

  lemma {:induction false} ResultsAreGains(log: Log, judged: Judgments, ids: seq<Text>)
    requires Logarithmic(log)
    ensures DiscountedResults(log, judged, ids) == Discounted(log, Gains(MapSeq(Grade(judged), ids)))
  {
    if ids != [] {
      var n := |ids| - 1;
      hide Over;
      ResultsAreGains(log, judged, ids[..n]);
      OverFacts(0.0, log(n + 2));
      assert Gains(MapSeq(Grade(judged), ids))[..n] == Gains(MapSeq(Grade(judged), ids[..n]));
      assert Gain(0) == 0;
    }
  }

  function TopGains(judged: Judgments, ids: seq<Text>): (r: seq<nat>)
    requires |ids| <= CUTOFF
    ensures |r| == CUTOFF
  {
    Padded(Gains(MapSeq(Grade(judged), ids)), CUTOFF)
  }

  ghost function IdealGains(judged: Judgments): (r: seq<nat>)
    ensures |r| == CUTOFF
  {
    Padded(Gains(Top(Ideal(judged), CUTOFF)), CUTOFF)
  }

  /** However far one looks, the ranking has gathered no more gain than the ideal. */
  lemma IdealDominates(judged: Judgments, ids: seq<Text>)
    requires |ids| <= CUTOFF && RelevantDistinct(judged, ids)
    ensures Dominated(TopGains(judged, ids), IdealGains(judged))
  {
    hide Ideal, Gain;
    var mine, best := Gains(MapSeq(Grade(judged), ids)), Gains(Top(Ideal(judged), CUTOFF));
    forall k | 0 <= k <= CUTOFF ensures Sum(TopGains(judged, ids)[..k]) <= Sum(IdealGains(judged)[..k]) {
      PaddedSum(mine, CUTOFF, k);
      PaddedSum(best, CUTOFF, k);
      GatheredGain(judged, ids, k);
    }
  }

  lemma GatheredGain(judged: Judgments, ids: seq<Text>, k: nat)
    requires |ids| <= CUTOFF && RelevantDistinct(judged, ids) && k <= CUTOFF
    ensures Sum(Top(Gains(MapSeq(Grade(judged), ids)), k)) <= Sum(Top(Gains(Top(Ideal(judged), CUTOFF)), k))
  {
    hide Ideal, Gain;
    var seen, best := ids[..Min(k, |ids|)], Top(Ideal(judged), CUTOFF);
    var grades := MapSeq(Grade(judged), seen);
    assert Top(Gains(MapSeq(Grade(judged), ids)), k) == Gains(grades);
    PositiveGains(grades);
    FoundFacts(judged, seen);
    var found := |Positive(grades)|;
    assert Gains(Ideal(judged)[..found]) == Gains(best)[..found];
    SumPrefix(Gains(best), found, Min(k, |best|));
  }

  lemma {:induction false} EqualPrefixSums(a: seq<nat>, b: seq<nat>)
    requires |a| == |b| && forall k :: 0 <= k <= |a| ==> Sum(a[..k]) == Sum(b[..k])
    ensures a == b
  {
    forall k | 0 <= k < |a| ensures a[k] == b[k] {
      assert a[..k + 1][..k] == a[..k] && b[..k + 1][..k] == b[..k];
    }
  }

  lemma {:induction false} DiscountedPositive(log: Log, xs: seq<nat>)
    requires Logarithmic(log)
    ensures Discounted(log, xs) >= 0.0
    ensures (exists i :: 0 <= i < |xs| && xs[i] > 0) ==> Discounted(log, xs) > 0.0
  {
    hide Over;
    if xs != [] {
      var n := |xs| - 1;
      DiscountedPositive(log, xs[..n]);
      OverFacts(xs[n] as real, log(n + 2));
      assert forall i :: 0 <= i < n ==> xs[..n][i] == xs[i];
    }
  }

  /** Dominated gains discount to no more, and to as much only when they are the same. */
  lemma DominatedDiscounts(log: Log, a: seq<nat>, b: seq<nat>)
    requires Logarithmic(log) && a != [] && Dominated(a, b)
    ensures Discounted(log, a) <= Discounted(log, b)
    ensures Discounted(log, a) == Discounted(log, b) <==> a == b
  {
    hide Discounted, Sum;
    SummationByParts(log, a, b);
    assert a[..|a|] == a && b[..|b|] == b;
    var d := (Sum(b) - Sum(a)) as real;
    OverFacts(d, log(|a| + 1));
    if Discounted(log, a) == Discounted(log, b) { EqualPrefixSums(a, b); }
  }

  // However far one looks into the first ten results, they have gathered no more gain than the ideal.
  ghost predicate GainDominated(judged: Judgments, ids: seq<Text>)
    requires |ids| <= CUTOFF
  {
    Dominated(TopGains(judged, ids), IdealGains(judged))
  }

  ghost function IdealDcg(log: Log, judged: Judgments): real
    requires Logarithmic(log)
  {
    Discounted(log, Gains(Top(Ideal(judged), CUTOFF)))
  }

  lemma PaddedDiscounts(log: Log, judged: Judgments, ids: seq<Text>)
    requires Logarithmic(log) && |ids| <= CUTOFF
    ensures DiscountedResults(log, judged, ids) == Discounted(log, TopGains(judged, ids)) >= 0.0
    ensures IdealDcg(log, judged) == Discounted(log, IdealGains(judged))
  {
    hide Ideal, Gain, Padded, Discounted, DiscountedResults, Grade;
    ResultsAreGains(log, judged, ids);
    PaddingAddsNothing(log, Gains(MapSeq(Grade(judged), ids)), CUTOFF);
    PaddingAddsNothing(log, Gains(Top(Ideal(judged), CUTOFF)), CUTOFF);
    DiscountedPositive(log, TopGains(judged, ids));
  }

  /** Dominated gain never exceeds the ideal, and reaches it exactly when the first ten results
      gain as the ideal's do, place by place. */
  lemma GainBounded(log: Log, judged: Judgments, ids: seq<Text>)
    requires Logarithmic(log) && |ids| <= CUTOFF && GainDominated(judged, ids)
    ensures 0.0 <= DiscountedResults(log, judged, ids) <= IdealDcg(log, judged)
    ensures DiscountedResults(log, judged, ids) == IdealDcg(log, judged)
        <==> TopGains(judged, ids) == IdealGains(judged)
  {
    hide Padded, Discounted, DiscountedResults, Dominated, IdealDcg, IdealGains, TopGains;
    PaddedDiscounts(log, judged, ids);
    DominatedDiscounts(log, TopGains(judged, ids), IdealGains(judged));
  }

  // ---------- Where the gain is not dominated ----------

  // Nearly flat up to `flat`, and large from there on.
  function StepLog(slope: real, flat: nat, height: real): Log {
    n => if n <= flat then 1.0 + slope * (n as real) else height + n as real
  }

  lemma Climbs(slope: real, m: int, n: int)
    requires slope > 0.0 && m < n
    ensures slope * (m as real) < slope * (n as real)
  {
    Scaled(m as real, n as real, slope);
    assert (m as real) * slope == slope * (m as real) && (n as real) * slope == slope * (n as real);
  }

  lemma StepLogIsLogarithmic(slope: real, flat: nat, height: real)
    requires slope > 0.0 && height >= 1.0 && slope * (flat as real) <= height
    ensures Logarithmic(StepLog(slope, flat, height))
  {
    var log := StepLog(slope, flat, height);
    forall i: nat | 2 <= i ensures log(i) > 0.0 { Climbs(slope, 0, i); }
    forall i: nat, j: nat | 2 <= i < j ensures log(i) < log(j) {
      Climbs(slope, i, j);
      if i < flat { Climbs(slope, i, flat); }
    }
  }

  /** The first k gains, divided by at most `most`, are a lower bound. */
  lemma {:induction false} DiscountedAtLeast(log: Log, xs: seq<nat>, k: nat, most: real)
    requires Logarithmic(log) && k <= |xs| && most > 0.0
    requires forall i: nat :: 2 <= i <= k + 1 ==> log(i) <= most
    ensures Discounted(log, xs) >= Over(Sum(xs[..k]) as real, most)
  {
    hide Over;
    if xs == [] {
      OverFacts(0.0, most);
    } else {
      var n := |xs| - 1;
      OverFacts(xs[n] as real, log(n + 2));
      if k <= n {
        DiscountedAtLeast(log, xs[..n], k, most);
        assert xs[..n][..k] == xs[..k];
      } else {
        DiscountedAtLeast(log, xs[..n], n, most);
        assert xs[..n][..n] == xs[..n] && xs[..k] == xs;
        if log(n + 2) < most { LargerDivisor(xs[n] as real, log(n + 2), most); }
        OverDifference(Sum(xs[..n]) as real, xs[n] as real, most);
      }
    }
  }

  lemma {:induction false} UndividedBound(log: Log, xs: seq<nat>)
    requires Logarithmic(log) && forall i: nat :: 2 <= i ==> log(i) > 1.0
    ensures Discounted(log, xs) <= Sum(xs) as real
  {
    hide Over;
    if xs != [] {
      var n := |xs| - 1;
      UndividedBound(log, xs[..n]);
      LargerDivisor(xs[n] as real, 1.0, log(n + 2));
      OverOne(xs[n] as real);
    }
  }

  /** The first k gains, undivided, and the rest divided by at least `least` are an upper bound. */
  lemma {:induction false} DiscountedAtMost(log: Log, xs: seq<nat>, k: nat, least: real)
    requires Logarithmic(log) && k <= |xs| && least > 0.0
    requires forall i: nat :: 2 <= i ==> log(i) > 1.0
    requires forall i: nat :: k + 2 <= i ==> log(i) > least
    ensures Discounted(log, xs) <= Sum(xs[..k]) as real + Over((Sum(xs) - Sum(xs[..k])) as real, least)
  {
    hide Over;
    if k == |xs| {
      assert xs[..k] == xs;
      UndividedBound(log, xs);
      OverFacts(0.0, least);
    } else {
      var n := |xs| - 1;
      var x := xs[n] as real;
      DiscountedAtMost(log, xs[..n], k, least);
      assert xs[..n][..k] == xs[..k];
      LargerDivisor(x, least, log(n + 2));
      OverDifference((Sum(xs[..n]) - Sum(xs[..k])) as real, x, least);
    }
  }

  lemma OverOne(x: real)
    ensures Over(x, 1.0) == x
  {
  }

  lemma ThinSlope(b: nat, k: nat)
    requires k > 0
    ensures var slope := 1.0 / ((2 * b + 1) as real * (k + 1) as real);
            slope > 0.0 && slope * ((k + 1) as real) == 1.0 / ((2 * b + 1) as real)
  {
    var u, v := (2 * b + 1) as real, (k + 1) as real;
    assert u * v > 0.0;
    var slope := 1.0 / (u * v);
    assert slope * (u * v) == 1.0;
    assert (slope * v) * u == 1.0;
    Quotient(1.0, u);
    assert slope * v == 1.0 / u;
  }

  lemma StepLogBounds(slope: real, flat: nat, height: real, most: real)
    requires slope > 0.0 && height >= 1.0 && 1.0 + slope * (flat as real) == most <= height
    ensures var log := StepLog(slope, flat, height);
            && Logarithmic(log)
            && (forall i: nat :: 2 <= i <= flat ==> log(i) <= most)
            && (forall i: nat :: 2 <= i ==> log(i) > 1.0)
            && (forall i: nat :: flat < i ==> log(i) > height)
  {
    var log := StepLog(slope, flat, height);
    StepLogIsLogarithmic(slope, flat, height);
    forall i: nat | 2 <= i <= flat ensures log(i) <= most { if i < flat { Climbs(slope, i, flat); } }
    forall i: nat | 2 <= i ensures log(i) > 1.0 { Climbs(slope, 0, i); }
  }

  /** The slope and the height that make the logarithm exceed. */
  lemma FlatEnough(b: nat, total: nat, k: nat) returns (log: Log, most: real, height: real)
    requires k > 0
    ensures most == 1.0 + 1.0 / ((2 * b + 1) as real) && most > 0.0
    ensures height == 2.0 * total as real + 2.0 && Logarithmic(log)
    ensures forall i: nat :: 2 <= i <= k + 1 ==> log(i) <= most
    ensures forall i: nat :: 2 <= i ==> log(i) > 1.0
    ensures forall i: nat :: k + 1 < i ==> log(i) > height
  {
    hide StepLog;
    ThinSlope(b, k);
    UnitBounds(b);
    var slope := 1.0 / ((2 * b + 1) as real * (k + 1) as real);
    height := 2.0 * total as real + 2.0;
    most := 1.0 + 1.0 / ((2 * b + 1) as real);
    log := StepLog(slope, k + 1, height);
    StepLogBounds(slope, k + 1, height, most);
  }

  /** Gains that exceed the ideal's by some prefix exceed them when discounted by a logarithm
      that is nearly flat up to there and large beyond. */
  lemma UndominatedExceeds(a: seq<nat>, b: seq<nat>, k: nat) returns (log: Log)
    requires k <= |a| && k <= |b| && Sum(a[..k]) > Sum(b[..k])
    ensures Logarithmic(log) && Discounted(log, a) > Discounted(log, b)
  {
    var p := Sum(b[..k]);
    assert a[..0] == [] && b[..0] == [];
    assert k > 0;
    hide Discounted, Sum, Over;
    var most, height;
    log, most, height := FlatEnough(p, Sum(b), k);
    DiscountedAtLeast(log, a, k, most);
    DiscountedAtMost(log, b, k, height);
    SumPrefix(b, k, |b|);
    assert b[..|b|] == b;
    HalfApart(Sum(a[..k]), p, Sum(b) - p, most, height);
  }

  lemma UnitBounds(p: nat)
    ensures 0.0 < 1.0 / ((2 * p + 1) as real) <= 1.0
  {
    Quotient(1.0, (2 * p + 1) as real);
    QuotientBounds(1.0, (2 * p + 1) as real);
  }

  lemma HalfApart(a: nat, b: nat, rest: nat, most: real, height: real)
    requires a > b && most == 1.0 + 1.0 / ((2 * b + 1) as real) && height >= 2.0 * rest as real + 2.0
    ensures Over(a as real, most) > b as real + Over(rest as real, height)
  {
    var u := (2 * b + 1) as real;
    UnitBounds(b);
    var q := a as real / most;
    assert q * most == a as real;
    var h := b as real + 0.5;
    assert (1.0 / u) * u == 1.0;
    assert h * most == h + h * (1.0 / u);
    assert h == u * 0.5;
    assert h * (1.0 / u) == 0.5;
    if q < h { Scaled(q, h, most); }
    var r := rest as real / height;
    assert r * height == rest as real;
    if r >= 0.5 { HalfOfHeight(r, height); }
  }

  lemma HalfOfHeight(r: real, height: real)
    requires r >= 0.5 && height > 0.0
    ensures r * height >= 0.5 * height
  {
    if r > 0.5 { Scaled(0.5, r, height); }
  }

  lemma IdealMembers(judged: Judgments, g: nat)
    ensures g in Ideal(judged) <==> g > 0 && exists id :: id in judged && judged[id] == g
  {
    hide Positive, SortBy, InOrder;
    var keys := InOrder(judged.Keys);
    var grades := MapSeq(Grade(judged), keys);
    SortByPermutes(AtLeast, Positive(grades));
    assert g in multiset(Ideal(judged)) <==> g in multiset(Positive(grades));
    PositiveMembers(grades, g);
    KeysListed(judged);
    if g in grades {
      var i :| 0 <= i < |grades| && grades[i] == g;
      assert judged[keys[i]] == g;
    }
    forall id | id in judged && judged[id] == g ensures g in grades {
      assert id in Elements(keys);
      var i :| 0 <= i < |keys| && keys[i] == id;
      assert grades[i] == g;
    }
  }

  lemma IdealIsPositive(judged: Judgments)
    ensures forall i :: 0 <= i < |Ideal(judged)| ==> Ideal(judged)[i] > 0
    ensures Ideal(judged) != [] <==> exists id :: id in judged && judged[id] > 0
  {
    hide Ideal;
    forall i | 0 <= i < |Ideal(judged)| ensures Ideal(judged)[i] > 0 { IdealMembers(judged, Ideal(judged)[i]); }
    if Ideal(judged) != [] { IdealMembers(judged, Ideal(judged)[0]); }
    forall id | id in judged && judged[id] > 0 ensures Ideal(judged) != [] { IdealMembers(judged, judged[id]); }
  }

  lemma {:induction false} PositiveMembers(gs: seq<nat>, g: nat)
    ensures g in Positive(gs) <==> g in gs && g > 0
  {
    if gs != [] {
      var n := |gs| - 1;
      PositiveMembers(gs[..n], g);
      assert gs == gs[..n] + [gs[n]];
    }
  }

  /** nDCG@10 of a ranking with dominated gain, in particular of one that repeats no relevant
      result in its first ten, lies between 0 and 1; it is 1 exactly when something is relevant
      and the first ten results gain, place by place, what an ideal ordering does. */
  lemma NdcgBounded(log: Log, judged: Judgments, ranked: seq<Text>)
    requires Logarithmic(log) && GradesFit(judged) && GainDominated(judged, Top(ranked, CUTOFF))
    ensures var ndcg := Evaluate(log, judged, ranked).ndcgAt10;
            && 0.0 <= ndcg <= 1.0
            && (ndcg == 1.0 <==>
                  (exists id :: id in judged && judged[id] > 0)
                  && TopGains(judged, Top(ranked, CUTOFF)) == IdealGains(judged))
  {
    hide Ideal, Gain, TopGains, IdealGains, GainDominated, DiscountedResults, Discounted;
    var top := Top(ranked, CUTOFF);
    GainBounded(log, judged, top);
    NdcgIsQuotient(log, judged, ranked);
    if IdealDcg(log, judged) > 0.0 { QuotientBounds(DiscountedResults(log, judged, top), IdealDcg(log, judged)); }
  }

  /** What nDCG is: a quotient where something is relevant, and 0 otherwise. */
  lemma NdcgIsQuotient(log: Log, judged: Judgments, ranked: seq<Text>)
    requires Logarithmic(log) && GradesFit(judged)
    ensures var dcg, idcg := DiscountedResults(log, judged, Top(ranked, CUTOFF)), IdealDcg(log, judged);
            && (idcg > 0.0 <==> exists id :: id in judged && judged[id] > 0)
            && Evaluate(log, judged, ranked).ndcgAt10 == (if idcg > 0.0 then dcg / idcg else 0.0)
  {
    hide Ideal, Gain, DiscountedResults, Discounted;
    IdealIsPositive(judged);
    var best := Gains(Top(Ideal(judged), CUTOFF));
    DiscountedPositive(log, best);
    if Ideal(judged) != [] {
      GainMonotone(0, Ideal(judged)[0]);
      assert best[0] > 0;
    } else {
      NothingDiscounted(log, best);
    }
  }

  lemma NothingDiscounted(log: Log, xs: seq<nat>)
    requires Logarithmic(log) && xs == []
    ensures Discounted(log, xs) == 0.0
  {
  }

  /** The bound holds for every logarithm exactly when the gain is dominated: at every prefix
      of the first ten places, the results have gathered no more gain than the ideal. */
  lemma NdcgBoundedIff(judged: Judgments, ranked: seq<Text>)
    requires GradesFit(judged)
    ensures (forall log: Log :: Logarithmic(log) ==> Evaluate(log, judged, ranked).ndcgAt10 <= 1.0)
       <==> GainDominated(judged, Top(ranked, CUTOFF))
  {
    hide Evaluate, TopGains, IdealGains;
    var top := Top(ranked, CUTOFF);
    if GainDominated(judged, top) {
      forall log: Log | Logarithmic(log) ensures Evaluate(log, judged, ranked).ndcgAt10 <= 1.0 {
        NdcgBounded(log, judged, ranked);
      }
    } else {
      var log := SomeLogExceeds(judged, ranked);
    }
  }

  lemma SomeLogExceeds(judged: Judgments, ranked: seq<Text>) returns (log: Log)
    requires GradesFit(judged) && !GainDominated(judged, Top(ranked, CUTOFF))
    ensures Logarithmic(log) && Evaluate(log, judged, ranked).ndcgAt10 > 1.0
  {
    hide TopGains, IdealGains, Evaluate, Discounted, DiscountedResults, IdealDcg;
    var top := Top(ranked, CUTOFF);
    var a, b := TopGains(judged, top), IdealGains(judged);
    var k :| 0 <= k <= |a| && Sum(a[..k]) > Sum(b[..k]);
    log := UndominatedExceeds(a, b, k);
    PaddedDiscounts(log, judged, top);
    NdcgIsQuotient(log, judged, ranked);
    DiscountedPositive(log, b);
    NothingRelevantGainsNothing(log, judged, top);
    QuotientExceedsOne(DiscountedResults(log, judged, top), IdealDcg(log, judged));
  }

  lemma QuotientExceedsOne(d: real, i: real)
    requires d > i > 0.0
    ensures d / i > 1.0
  {
    var q := d / i;
    assert q * i == d;
    FactorBelowOne(q, i);
  }

  lemma {:induction false} NothingRelevantGainsNothing(log: Log, judged: Judgments, ids: seq<Text>)
    requires Logarithmic(log)
    ensures (forall id :: id in judged ==> judged[id] == 0) ==> DiscountedResults(log, judged, ids) == 0.0
  {
    hide Over;
    if ids != [] {
      NothingRelevantGainsNothing(log, judged, ids[..|ids| - 1]);
      OverFacts(0.0, log(|ids| + 1));
      assert Gain(0) == 0;
    }
  }

  /** A ranking that repeats no relevant result in its first ten has dominated gain. */
  lemma UnrepeatedIsBounded(log: Log, judged: Judgments, ranked: seq<Text>)
    requires Logarithmic(log) && GradesFit(judged) && RelevantDistinct(judged, Top(ranked, CUTOFF))
    ensures GainDominated(judged, Top(ranked, CUTOFF))
    ensures 0.0 <= Evaluate(log, judged, ranked).ndcgAt10 <= 1.0
  {
    hide Evaluate, TopGains, IdealGains, RelevantDistinct;
    IdealDominates(judged, Top(ranked, CUTOFF));
    NdcgBounded(log, judged, ranked);
  }

  lemma QuotientBounds(d: real, i: real)
    requires 0.0 <= d <= i && i > 0.0
    ensures 0.0 <= d / i <= 1.0
    ensures d / i == 1.0 <==> d == i
  {
    var q := d / i;
    FactorBounds(q, d, i);
  }

  lemma FactorBelowOne(q: real, i: real)
    requires i > 0.0
    ensures q < 1.0 ==> q * i < i
    ensures q > 1.0 ==> q * i > i
    ensures q < 0.0 ==> q * i < 0.0
    ensures q == 1.0 ==> q * i == i
  {
    assert 1.0 * i == i;
    Scaled(q, 1.0, i);
    Scaled(1.0, q, i);
    Scaled(q, 0.0, i);
  }

  lemma FactorBounds(q: real, d: real, i: real)
    requires q * i == d && 0.0 <= d <= i && i > 0.0
    ensures 0.0 <= q <= 1.0
    ensures q == 1.0 <==> d == i
  {
    FactorBelowOne(q, i);
  }

  // ---------- Recall and reciprocal rank ----------

  lemma {:induction false} FoundGrows(judged: Judgments, ids: seq<Text>, m: nat, n: nat)
    requires m <= n <= |ids|
    ensures Found(judged, ids[..m]) <= Found(judged, ids[..n])
    decreases n
  {
    if m < n {
      FoundGrows(judged, ids, m, n - 1);
      assert MapSeq(Grade(judged), ids[..n])[..n - 1] == MapSeq(Grade(judged), ids[..n - 1]);
    }
  }

  lemma RatioBounds(a: nat, b: nat, d: nat)
    requires a <= b <= CUTOFF && (d == 0 ==> b == 0)
    ensures 0.0 <= Ratio(a, d) <= Ratio(b, d)
    ensures Ratio(b, d) <= 1.0 <==> b <= d
  {
    if d > 0 {
      var x, y, z := Saturated(a), Saturated(b), Saturated(d);
      OverFacts(x, z);
      OverDifference(x, y - x, z);
      OverFacts(y - x, z);
      if y <= z { QuotientBounds(y, z); } else { QuotientExceedsOne(y, z); }
    }
  }

  /** Recall grows with depth, and lies between 0 and 1 exactly when the first ten hold no more
      relevant results than there are relevant ids; as they do when none is repeated. */
  lemma RecallBounded(log: Log, judged: Judgments, ranked: seq<Text>)
    requires Logarithmic(log) && GradesFit(judged)
    ensures var m, top := Evaluate(log, judged, ranked), Top(ranked, CUTOFF);
            && 0.0 <= m.recallAt5 <= m.recallAt10
            && (m.recallAt10 <= 1.0 <==> Found(judged, top) <= |Ideal(judged)|)
            && (RelevantDistinct(judged, top) ==> Found(judged, top) <= |Ideal(judged)|)
  {
    hide Ideal, Gain, Discounted, DiscountedResults, RelevantDistinct, Grade;
    var top := Top(ranked, CUTOFF);
    if RelevantDistinct(judged, top) { FoundFacts(judged, top); }
    FoundGrows(judged, top, Min(5, |ranked|), |top|);
    assert top[..Min(5, |ranked|)] == Top(ranked, 5) && top[..|top|] == top;
    PositiveSize(MapSeq(Grade(judged), top));
    RelevantIsJudged(judged, top);
    RatioBounds(Found(judged, Top(ranked, 5)), Found(judged, top), |Ideal(judged)|);
  }

  lemma RelevantIsJudged(judged: Judgments, ids: seq<Text>)
    ensures Ideal(judged) == [] ==> Found(judged, ids) == 0
  {
    hide Ideal, Positive;
    IdealIsPositive(judged);
    var grades := MapSeq(Grade(judged), ids);
    if Positive(grades) != [] {
      PositiveMembers(grades, Positive(grades)[0]);
      var i :| 0 <= i < |grades| && grades[i] == Positive(grades)[0];
      assert ids[i] in judged;
    }
  }

  /** The reciprocal rank is positive exactly when recall is, and then at least a tenth. */
  lemma ReciprocalRankFacts(log: Log, judged: Judgments, ranked: seq<Text>)
    requires Logarithmic(log) && GradesFit(judged)
    ensures var m, top := Evaluate(log, judged, ranked), Top(ranked, CUTOFF);
            && (m.reciprocalRankAt10 == 0.0 || 0.1 <= m.reciprocalRankAt10 <= 1.0)
            && (m.reciprocalRankAt10 > 0.0 <==> Found(judged, top) > 0)
            && (m.reciprocalRankAt10 == 1.0 <==> ranked != [] && Grade(judged)(ranked[0]) > 0)
  {
    hide Ideal, Gain, Discounted, DiscountedResults, FirstRelevant, Positive, Grade;
    var top := Top(ranked, CUTOFF);
    var first := FirstRelevant(judged, top);
    FoundIffFirst(judged, top);
    if first.Some? { InverseBounds((first.value + 1) as real); }
  }

  lemma FoundIffFirst(judged: Judgments, ids: seq<Text>)
    ensures Found(judged, ids) > 0 <==> FirstRelevant(judged, ids).Some?
  {
    hide FirstRelevant, Positive, Grade;
    var grades := MapSeq(Grade(judged), ids);
    var first := FirstRelevant(judged, ids);
    if first.Some? {
      assert grades[first.value] in grades;
      PositiveMembers(grades, grades[first.value]);
    } else {
      assert forall g :: g in grades ==> g == 0;
      if Positive(grades) != [] { PositiveMembers(grades, Positive(grades)[0]); }
    }
  }

  lemma InverseBounds(r: real)
    requires 1.0 <= r <= 10.0
    ensures 0.1 <= 1.0 / r <= 1.0
    ensures 1.0 / r == 1.0 <==> r == 1.0
  {
    var q := 1.0 / r;
    assert q * r == 1.0 && q > 0.0;
    if q < 0.1 { Scaled(q, 0.1, r); }
    QuotientBounds(1.0, r);
  }

  /** One result of grade 1 ranked twice, with nothing else judged, makes both exceed 1. */
  lemma RepetitionExceedsOne(log: Log, id: Text)
    requires Logarithmic(log)
    ensures Evaluate(log, map[id := 1], [id, id]).ndcgAt10 > 1.0
    ensures Evaluate(log, map[id := 1], [id, id]).recallAt10 > 1.0
  {
    hide Over;
    var judged: Judgments := map[id := 1];
    OneIdeal(judged, id);
    TwoResults(log, judged, id);
    OverFacts(1.0, log(2));
    OverFacts(1.0, log(3));
    assert Top([id, id], CUTOFF) == [id, id];
    ExceedsOne(Over(1.0, log(2)), Over(1.0, log(3)));
    BothFound(judged, id);
    RecallBounded(log, judged, [id, id]);
  }

  lemma BothFound(judged: Judgments, id: Text)
    requires judged == map[id := 1]
    ensures Found(judged, [id, id]) == 2 && |Ideal(judged)| <= 1
  {
    assert judged.Keys == {id};
    IdealSize(judged, id);
    var grades := MapSeq(Grade(judged), [id, id]);
    assert grades == [1, 1] && grades[..1] == [1] && [1][..0] == [];
    assert Positive([1]) == [1];
  }

  lemma OneIdeal(judged: Judgments, id: Text)
    requires judged == map[id := 1]
    ensures Gains(Top(Ideal(judged), CUTOFF)) == [1]
  {
    hide Ideal, Top;
    var ideal := Ideal(judged);
    IdealMembers(judged, 1);
    forall i | 0 <= i < |ideal| ensures ideal[i] == 1 { IdealMembers(judged, ideal[i]); }
    IdealSize(judged, id);
    assert ideal == [1];
    assert Top(ideal, CUTOFF) == [1] by { assert |Top(ideal, CUTOFF)| == 1 && Top(ideal, CUTOFF) <= ideal; }
    assert Gain(1) == 1 by { assert Pow2(1) == 2 * Pow2(0); }
  }

  lemma IdealSize(judged: Judgments, id: Text)
    requires judged.Keys == {id}
    ensures |Ideal(judged)| <= 1
  {
    hide SortBy, InOrder, Positive;
    assert Ascending([id]) && Elements([id]) == {id};
    AscendingUnique(InOrder(judged.Keys), [id]);
    PositiveSize(MapSeq(Grade(judged), [id]));
  }

  lemma {:induction false} PositiveSize(gs: seq<nat>)
    ensures |Positive(gs)| <= |gs|
  {
    if gs != [] { PositiveSize(gs[..|gs| - 1]); }
  }

  lemma TwoResults(log: Log, judged: Judgments, id: Text)
    requires Logarithmic(log) && judged == map[id := 1]
    ensures Discounted(log, [1]) == Over(1.0, log(2))
    ensures DiscountedResults(log, judged, [id, id]) == Over(1.0, log(2)) + Over(1.0, log(3))
  {
    hide Over;
    assert Gain(1) == 1 by { assert Pow2(1) == 2 * Pow2(0); }
    assert [1][..0] == [] && [id][..0] == [] && [id, id][..1] == [id];
    assert DiscountedResults(log, judged, [id]) == Over(1.0, log(2));
  }

  lemma ExceedsOne(x: real, y: real)
    requires x > 0.0 && y > 0.0
    ensures (x + y) / x > 1.0
  {
    var q := (x + y) / x;
    assert q * x == x + y && 1.0 * x == x;
    if q < 1.0 { Scaled(q, 1.0, x); }
  }
}
