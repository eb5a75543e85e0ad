/** What each metric is, counted on the ranking and the judgments themselves. */
module EvaluationMeaning {
  import opened Bytes
  import opened Text
  import opened Sorting
  import opened TextSets
  import opened Evaluation

  ghost predicate Relevant(judged: Judgments, id: Text) { id in judged && judged[id] > 0 }

  /** The places among the first n that hold a relevant result. */
  ghost function RelevantPlaces(judged: Judgments, ids: seq<Text>, n: nat): set<nat> {
    set i: nat | i < |ids| && i < n && Relevant(judged, ids[i])
  }

  ghost function RelevantIds(judged: Judgments): set<Text> { set id | id in judged && Relevant(judged, id) }

  // ---------- Counting ----------

  lemma {:induction false} FoundCounts(judged: Judgments, ids: seq<Text>)
    ensures Found(judged, ids) == |RelevantPlaces(judged, ids, |ids|)|
  {
    if ids == [] {
      assert RelevantPlaces(judged, ids, 0) == {};
    } else {
      var n := |ids| - 1;
      FoundCounts(judged, ids[..n]);
      assert MapSeq(Grade(judged), ids)[..n] == MapSeq(Grade(judged), ids[..n]);
      assert RelevantPlaces(judged, ids, |ids|)
          == RelevantPlaces(judged, ids[..n], n) + (if Relevant(judged, ids[n]) then {n} else {});
    }
  }

  lemma FoundAtDepth(judged: Judgments, ranked: seq<Text>, n: nat)
    ensures Found(judged, Top(ranked, n)) == |RelevantPlaces(judged, ranked, n)|
  {
    hide Found;
    FoundCounts(judged, Top(ranked, n));
    assert RelevantPlaces(judged, Top(ranked, n), |Top(ranked, n)|) == RelevantPlaces(judged, ranked, n);
  }

  // The ids among the keys that are judged with the grade.
  ghost function Graded(judged: Judgments, keys: seq<Text>, g: nat): set<Text> {
    set k | k in keys && k in judged && judged[k] == g
  }

  lemma OneMoreGrade(judged: Judgments, keys: seq<Text>)
    requires keys != []
    ensures var n := |keys| - 1;
            var grade := Grade(judged)(keys[n]);
            Positive(MapSeq(Grade(judged), keys))
              == Positive(MapSeq(Grade(judged), keys[..n])) + (if grade > 0 then [grade] else [])
  {
    hide Grade;
    var n := |keys| - 1;
    assert MapSeq(Grade(judged), keys)[..n] == MapSeq(Grade(judged), keys[..n]);
  }

  lemma OneMoreMember<T>(s: set<T>, x: T)
    requires x !in s
    ensures |s + {x}| == |s| + 1
  {
  }

  lemma CountSnoc(s: seq<nat>, t: seq<nat>, x: nat, g: nat)
    requires t == s + (if x > 0 then [x] else []) && g > 0
    ensures multiset(t)[g] == multiset(s)[g] + (if x == g then 1 else 0)
  {
  }

  lemma GradedSnoc(judged: Judgments, keys: seq<Text>, g: nat)
    requires keys != [] && keys[|keys| - 1] !in keys[..|keys| - 1] && g > 0
    ensures |Graded(judged, keys, g)|
         == |Graded(judged, keys[..|keys| - 1], g)| + (if Grade(judged)(keys[|keys| - 1]) == g then 1 else 0)
  {
    var n := |keys| - 1;
    assert keys == keys[..n] + [keys[n]];
    var before := Graded(judged, keys[..n], g);
    if keys[n] in judged && judged[keys[n]] == g {
      OneMoreMember(before, keys[n]);
      assert Graded(judged, keys, g) == before + {keys[n]};
    } else {
      assert Graded(judged, keys, g) == before;
    }
  }

  lemma {:induction false} GradeCounts(judged: Judgments, keys: seq<Text>, g: nat)
    requires NoDuplicates(keys) && g > 0
    ensures multiset(Positive(MapSeq(Grade(judged), keys)))[g] == |Graded(judged, keys, g)|
  {
    if keys == [] {
      assert Graded(judged, keys, g) == {};
    } else {
      var n := |keys| - 1;
      assert keys[n] !in keys[..n];
      GradeCounts(judged, keys[..n], g);
      hide Positive, NoDuplicates, Grade, Graded;
      OneMoreGrade(judged, keys);
      GradedSnoc(judged, keys, g);
      CountSnoc(Positive(MapSeq(Grade(judged), keys[..n])), Positive(MapSeq(Grade(judged), keys)),
                Grade(judged)(keys[n]), g);
    }
  }

  ghost function RelevantAmong(judged: Judgments, keys: seq<Text>): set<Text> {
    set k | k in keys && Relevant(judged, k)
  }

  lemma {:induction false} PositiveCounts(judged: Judgments, keys: seq<Text>)
    requires NoDuplicates(keys)
    ensures |Positive(MapSeq(Grade(judged), keys))| == |RelevantAmong(judged, keys)|
  {
    if keys == [] {
      assert RelevantAmong(judged, keys) == {};
    } else {
      var n := |keys| - 1;
      assert keys == keys[..n] + [keys[n]] && keys[n] !in keys[..n];
      PositiveCounts(judged, keys[..n]);
      OneMoreGrade(judged, keys);
      hide Positive, NoDuplicates;
      var before := RelevantAmong(judged, keys[..n]);
      if Relevant(judged, keys[n]) {
        OneMoreMember(before, keys[n]);
        assert RelevantAmong(judged, keys) == before + {keys[n]};
      } else {
        assert RelevantAmong(judged, keys) == before;
      }
    }
  }

  lemma KeysUnrepeated(judged: Judgments)
    ensures NoDuplicates(InOrder(judged.Keys)) && forall k :: k in InOrder(judged.Keys) <==> k in judged
  {
    var keys := InOrder(judged.Keys);
    forall i, j | 0 <= i < j < |keys| ensures keys[i] != keys[j] { AscendingOrder(keys, i, j); }
    forall k ensures k in keys <==> k in judged { assert k in Elements(keys) <==> k in judged.Keys; }
  }

  /** The ideal ordering lists the grade of every relevant id, best first. */
  lemma IdealMeaning(judged: Judgments, g: nat)
    ensures |Ideal(judged)| == |RelevantIds(judged)|
    ensures g > 0 ==> multiset(Ideal(judged))[g] == |set id | id in judged && judged[id] == g|
    ensures forall i, j :: 0 <= i < j < |Ideal(judged)| ==> Ideal(judged)[i] >= Ideal(judged)[j]
  {
    hide InOrder, Grade, Positive, SortBy;
    var keys := InOrder(judged.Keys);
    KeysUnrepeated(judged);
    PositiveCounts(judged, keys);
    assert RelevantAmong(judged, keys) == RelevantIds(judged);
    var grades := Positive(MapSeq(Grade(judged), keys));
    SortByPermutes(AtLeast, grades);
    AtLeastOrders();
    SortBySorts(AtLeast, grades);
    if g > 0 {
      GradeCounts(judged, keys, g);
      assert Graded(judged, keys, g) == set id | id in judged && judged[id] == g;
    }
    assert forall i, j :: 0 <= i < j < |Ideal(judged)| ==> AtLeast(Ideal(judged)[i], Ideal(judged)[j]);
  }

  // ---------- Recall ----------

  lemma DivideUndone(x: real, l: real)
    requires l > 0.0
    ensures x / l * l == x
  {
  }

  // x is the fraction n / d, or 0 when d is.
  ghost predicate Fraction(x: real, n: real, d: real) { if d == 0.0 then x == 0.0 else x * d == n }

  lemma RatioMeaning(n: nat, d: nat)
    requires n <= U32_MAX
    ensures Fraction(Ratio(n, d), n as real, Min(d, U32_MAX) as real)
  {
    if d > 0 { DivideUndone(n as real, Min(d, U32_MAX) as real); }
  }

  /** Recall at a depth is the fraction of the number of relevant ids, up to the 32-bit cap, that
      the places to that depth with a relevant result make up; and 0 when nothing is relevant. */
  lemma RecallMeaning(log: Log, judged: Judgments, ranked: seq<Text>)
    requires Logarithmic(log) && GradesFit(judged)
    ensures var m, relevant := Evaluate(log, judged, ranked), Min(|RelevantIds(judged)|, U32_MAX);
            && Fraction(m.recallAt5, |RelevantPlaces(judged, ranked, 5)| as real, relevant as real)
            && Fraction(m.recallAt10, |RelevantPlaces(judged, ranked, 10)| as real, relevant as real)
  {
    hide Fraction, Ideal, Found, Gain, Discounted, DiscountedResults, FirstRelevant, Ratio, RelevantPlaces, RelevantIds,
         Evaluate, Top, Logarithmic;
    IdealMeaning(judged, 1);
    FoundAtDepth(judged, ranked, 5);
    FoundAtDepth(judged, ranked, 10);
    PlacesAtMost(judged, ranked, 5);
    PlacesAtMost(judged, ranked, 10);
    RatioMeaning(Found(judged, Top(ranked, 5)), |Ideal(judged)|);
    RatioMeaning(Found(judged, Top(ranked, 10)), |Ideal(judged)|);
    RecallIsRatio(log, judged, ranked);
  }

  lemma PlacesAtMost(judged: Judgments, ranked: seq<Text>, n: nat)
    ensures |RelevantPlaces(judged, ranked, n)| <= n
  {
    AtMost(RelevantPlaces(judged, ranked, n), n);
  }

  lemma RecallIsRatio(log: Log, judged: Judgments, ranked: seq<Text>)
    requires Logarithmic(log) && GradesFit(judged)
    ensures var m := Evaluate(log, judged, ranked);
            && m.recallAt5 == Ratio(Found(judged, Top(ranked, 5)), |Ideal(judged)|)
            && m.recallAt10 == Ratio(Found(judged, Top(ranked, 10)), |Ideal(judged)|)
  {
    hide Ideal, Found, Gain, Discounted, DiscountedResults, FirstRelevant, Ratio;
  }

  lemma {:induction false} AtMost(places: set<nat>, n: nat)
    requires forall i :: i in places ==> i < n
    ensures |places| <= n
  {
    if n > 0 {
      AtMost(places - {n - 1}, n - 1);
      assert places <= places - {n - 1} + {n - 1};
      assert |places| <= |places - {n - 1}| + 1;
    } else {
      assert places == {};
    }
  }

  // ---------- Reciprocal rank ----------

  /** The reciprocal rank is one over the place, from 1, of the first relevant result among the
      first ten, and 0 without one. */
  lemma ReciprocalRankMeaning(log: Log, judged: Judgments, ranked: seq<Text>, i: nat)
    requires Logarithmic(log) && GradesFit(judged)
    ensures var rank := Evaluate(log, judged, ranked).reciprocalRankAt10;
            && (i in RelevantPlaces(judged, ranked, 10) && RelevantPlaces(judged, ranked, i) == {} ==>
                  rank * (i + 1) as real == 1.0)
            && (RelevantPlaces(judged, ranked, 10) == {} ==> rank == 0.0)
  {
    hide Ideal, Found, Gain, Discounted, DiscountedResults;
    FirstIsLeast(judged, ranked, i);
    if i < 10 { DivideUndone(1.0, (i + 1) as real); }
  }

  lemma FirstIsLeast(judged: Judgments, ranked: seq<Text>, i: nat)
    ensures var first := FirstRelevant(judged, Top(ranked, 10));
            && (i in RelevantPlaces(judged, ranked, 10) && RelevantPlaces(judged, ranked, i) == {} ==> first == Some(i))
            && (RelevantPlaces(judged, ranked, 10) == {} ==> first == None)
  {
    var top := Top(ranked, 10);
    var first := FirstRelevant(judged, top);
    hide FirstRelevant;
    assert forall j :: 0 <= j < |top| ==> top[j] == ranked[j];
    assert first.Some? ==> first.value in RelevantPlaces(judged, ranked, 10);
    assert first.Some? && first.value < i ==> first.value in RelevantPlaces(judged, ranked, i);
    if i in RelevantPlaces(judged, ranked, 10) { assert Grade(judged)(top[i]) > 0; }
  }

  // ---------- Discounted gain ----------

  /** The gain of a grade is one less than two to it. */
  lemma GainMeaning(g: nat)
    ensures Gain(0) == 0 && Gain(g + 1) == 2 * Gain(g) + 1
  {
  }

  // y is what a gain adds at the place, from 0: the gain over the logarithm of the place plus 2.
  ghost predicate Adds(log: Log, gain: nat, place: nat, y: real) { y * log(place + 2) == gain as real }

  /** Nothing gains nothing, and each further result adds its gain, 0 when unjudged, divided by
      the logarithm of its place. */
  lemma DiscountedMeaning(log: Log, judged: Judgments, ids: seq<Text>, id: Text) returns (y: real)
    requires Logarithmic(log)
    ensures DiscountedResults(log, judged, []) == 0.0
    ensures DiscountedResults(log, judged, ids + [id]) == DiscountedResults(log, judged, ids) + y
    ensures Adds(log, if id in judged then Gain(judged[id]) else 0, |ids|, y)
  {
    assert (ids + [id])[..|ids|] == ids;
    y := if id in judged then Over(Gain(judged[id]) as real, log(|ids| + 2)) else 0.0;
    DivideUndone(if id in judged then Gain(judged[id]) as real else 0.0, log(|ids| + 2));
  }

  lemma DiscountedGainsMeaning(log: Log, gains: seq<nat>, gain: nat) returns (y: real)
    requires Logarithmic(log)
    ensures Discounted(log, []) == 0.0
    ensures Discounted(log, gains + [gain]) == Discounted(log, gains) + y && Adds(log, gain, |gains|, y)
  {
    assert (gains + [gain])[..|gains|] == gains;
    y := Over(gain as real, log(|gains| + 2));
    DivideUndone(gain as real, log(|gains| + 2));
  }

  /** nDCG is the fraction of the ideal's discounted gain that the first ten results gain; the
      ideal's is positive exactly when something is relevant. */
  lemma NdcgMeaning(log: Log, judged: Judgments, ranked: seq<Text>)
    requires Logarithmic(log) && GradesFit(judged)
    ensures var ndcg, dcg := Evaluate(log, judged, ranked).ndcgAt10, DiscountedResults(log, judged, Top(ranked, 10));
            var idcg := Discounted(log, MapSeq(Gain, Top(Ideal(judged), 10)));
            && (idcg > 0.0 <==> exists id :: Relevant(judged, id))
            && (idcg <= 0.0 ==> ndcg == 0.0)
            && (idcg > 0.0 ==> Fraction(ndcg, dcg, idcg))
  {
    NdcgIsQuotient(log, judged, ranked);
    var dcg, idcg := DiscountedResults(log, judged, Top(ranked, 10)), IdealDcg(log, judged);
    assert idcg == Discounted(log, MapSeq(Gain, Top(Ideal(judged), 10)));
    hide Ideal, Gain, Discounted, DiscountedResults, Top, Evaluate, GradesFit, IdealDcg, Fraction;
    if idcg > 0.0 {
      QuotientIsFraction(dcg, idcg);
      var id :| id in judged && judged[id] > 0;
      assert Relevant(judged, id);
    }
  }

  lemma QuotientIsFraction(n: real, d: real)
    requires d > 0.0
    ensures Fraction(n / d, n, d)
  {
    DivideUndone(n, d);
  }
}
