/** The capped, de-duplicating selection from ordered candidates. */
module Selection {
  import opened Bytes
  import opened Text
  import opened Fusion

  // ---------- The selection ----------

  predicate Within(ps: seq<nat>, bound: nat) { forall i | 0 <= i < |ps| :: ps[i] < bound }

  /** How many of the picked places hold a passage of the document. */
  function DocumentCount(cs: seq<Candidate>, ps: seq<nat>, document: Text): nat
    requires Within(ps, |cs|)
  {
    if ps == [] then 0
    else
      var n := |ps| - 1;
      DocumentCount(cs, ps[..n], document) + (if cs[ps[n]].chunk.documentId == document then 1 else 0)
  }

  /** A picked passage has this content. */
  predicate HoldsContent(cs: seq<Candidate>, ps: seq<nat>, content: Digest)
    requires Within(ps, |cs|)
  {
    exists i | 0 <= i < |ps| :: cs[ps[i]].chunk.contentDigest == content
  }

  /** The candidate at n may be taken after those picked. */
  predicate Admits(cs: seq<Candidate>, cap: nat, perDocument: nat, ps: seq<nat>, n: nat)
    requires n < |cs| && Within(ps, |cs|)
  {
    && |ps| < cap
    && DocumentCount(cs, ps, cs[n].chunk.documentId) < perDocument
    && !HoldsContent(cs, ps, cs[n].chunk.contentDigest)
  }

  /** The places picked from the first n candidates. */
  function Picks(cs: seq<Candidate>, cap: nat, perDocument: nat, n: nat): (ps: seq<nat>)
    requires n <= |cs|
    ensures Within(ps, n)
  {
    if n == 0 then []
    else
      var ps := Picks(cs, cap, perDocument, n - 1);
      if Admits(cs, cap, perDocument, ps, n - 1) then ps + [n - 1] else ps
  }

  function PickAt(cs: seq<Candidate>, ps: seq<nat>): (r: seq<Candidate>)
    requires Within(ps, |cs|)
    ensures |r| == |ps| && forall i :: 0 <= i < |ps| ==> r[i] == cs[ps[i]]
  {
    seq(|ps|, i requires 0 <= i < |ps| => cs[ps[i]])
  }

  function Cap(cfg: Config): nat { Max(cfg.limit, 1) }

  function Selected(cfg: Config, cs: seq<Candidate>): seq<Candidate> {
    PickAt(cs, Picks(cs, Cap(cfg), cfg.maxPerDocument, |cs|))
  }

  ghost predicate Increasing(ps: seq<nat>) { forall i, j :: 0 <= i < j < |ps| ==> ps[i] < ps[j] }

  /** The picks from a shorter list begin the picks from a longer one, and what comes after
      them lies further on. */
  lemma {:induction false} PicksExtend(cs: seq<Candidate>, cap: nat, perDocument: nat, m: nat, n: nat)
    requires m <= n <= |cs|
    ensures var ps, qs := Picks(cs, cap, perDocument, n), Picks(cs, cap, perDocument, m);
            && |qs| <= |ps| && ps[..|qs|] == qs
            && forall i :: |qs| <= i < |ps| ==> m <= ps[i]
    decreases n
  {
    if m < n { PicksExtend(cs, cap, perDocument, m, n - 1); }
  }

  /** A place is picked exactly when its candidate was admissible after the earlier picks. */
  lemma PickedIffAdmitted(cs: seq<Candidate>, cap: nat, perDocument: nat, n: nat)
    requires n < |cs|
    ensures n in Picks(cs, cap, perDocument, |cs|) <==> Admits(cs, cap, perDocument, Picks(cs, cap, perDocument, n), n)
  {
    hide Admits;
    var ps, qs := Picks(cs, cap, perDocument, |cs|), Picks(cs, cap, perDocument, n + 1);
    PicksExtend(cs, cap, perDocument, n + 1, |cs|);
    assert n in ps <==> n in qs by {
      if n in ps { var i :| 0 <= i < |ps| && ps[i] == n; assert i < |qs| && qs[i] == n; }
      if n in qs { var i :| 0 <= i < |qs| && qs[i] == n; assert ps[i] == n; }
    }
  }

  lemma DocumentCountSnoc(cs: seq<Candidate>, ps: seq<nat>, p: nat, document: Text)
    requires Within(ps, |cs|) && p < |cs|
    ensures DocumentCount(cs, ps + [p], document)
         == DocumentCount(cs, ps, document) + (if cs[p].chunk.documentId == document then 1 else 0)
  {
    assert (ps + [p])[..|ps|] == ps;
  }

  ghost predicate ObeysCaps(cs: seq<Candidate>, cap: nat, perDocument: nat, ps: seq<nat>, document: Text)
    requires Within(ps, |cs|)
  {
    && Increasing(ps) && |ps| <= cap
    && DocumentCount(cs, ps, document) <= perDocument
    && forall i, j :: 0 <= i < j < |ps| ==> cs[ps[i]].chunk.contentDigest != cs[ps[j]].chunk.contentDigest
  }

  lemma AdmittingObeysCaps(cs: seq<Candidate>, cap: nat, perDocument: nat, ps: seq<nat>, n: nat, document: Text)
    requires n < |cs| && Within(ps, n) && Admits(cs, cap, perDocument, ps, n)
    requires ObeysCaps(cs, cap, perDocument, ps, document)
    ensures ObeysCaps(cs, cap, perDocument, ps + [n], document)
  {
    hide DocumentCount;
    DocumentCountSnoc(cs, ps, n, document);
  }

  /** The selection obeys the limit, the cap of every document, and digest uniqueness. */
  lemma {:induction false} PicksObeyCaps(cs: seq<Candidate>, cap: nat, perDocument: nat, n: nat, document: Text)
    requires n <= |cs|
    ensures ObeysCaps(cs, cap, perDocument, Picks(cs, cap, perDocument, n), document)
  {
    if n > 0 {
      hide Admits, ObeysCaps;
      PicksObeyCaps(cs, cap, perDocument, n - 1, document);
      var qs := Picks(cs, cap, perDocument, n - 1);
      if Admits(cs, cap, perDocument, qs, n - 1) {
        AdmittingObeysCaps(cs, cap, perDocument, qs, n - 1, document);
      }
    }
  }

  /** A smaller limit gives a prefix of what a larger one gives. */
  lemma {:induction false} SmallerCapIsPrefix(cs: seq<Candidate>, small: nat, large: nat, perDocument: nat, n: nat)
    requires small <= large && n <= |cs|
    ensures var ps, qs := Picks(cs, small, perDocument, n), Picks(cs, large, perDocument, n);
            ps == if |qs| <= small then qs else qs[..small]
  {
    if n > 0 {
      SmallerCapIsPrefix(cs, small, large, perDocument, n - 1);
    }
  }

  /** Everything that the selection promises about the ordered candidates: the caps; a
      passed-over candidate came after the limit was reached, or an earlier output has its
      content, or earlier outputs exhaust its document; and smaller limits give prefixes. */
  lemma SelectionFacts(cfg: Config, cs: seq<Candidate>, n: nat, document: Text, limit: nat)
    requires limit <= cfg.limit
    ensures var ps, out := Picks(cs, Cap(cfg), cfg.maxPerDocument, |cs|), Selected(cfg, cs);
            && out == PickAt(cs, ps) && Increasing(ps)
            && |out| <= Max(cfg.limit, 1)
            && DocumentCount(cs, ps, document) <= cfg.maxPerDocument
            && (forall i, j :: 0 <= i < j < |out| ==> out[i].chunk.contentDigest != out[j].chunk.contentDigest)
            && (n < |cs| && n !in ps ==>
                  || (|ps| == Max(cfg.limit, 1) && Within(ps, n))
                  || (exists i :: 0 <= i < |ps| && ps[i] < n &&
                        cs[ps[i]].chunk.contentDigest == cs[n].chunk.contentDigest)
                  || (exists k :: 0 <= k <= |ps| && Within(ps[..k], n)
                        && DocumentCount(cs, ps[..k], cs[n].chunk.documentId) == cfg.maxPerDocument))
            && Selected(cfg.(limit := limit), cs) <= out
  {
    hide Picks, DocumentCount;
    var cap, per := Cap(cfg), cfg.maxPerDocument;
    var ps := Picks(cs, cap, per, |cs|);
    PicksObeyCaps(cs, cap, per, |cs|, document);
    SmallerCapIsPrefix(cs, Max(limit, 1), cap, per, |cs|);
    if n < |cs| && n !in ps { PassedOver(cfg, cs, n); }
  }

  lemma PassedOver(cfg: Config, cs: seq<Candidate>, n: nat)
    requires n < |cs| && n !in Picks(cs, Cap(cfg), cfg.maxPerDocument, |cs|)
    ensures var ps := Picks(cs, Cap(cfg), cfg.maxPerDocument, |cs|);
            || (|ps| == Max(cfg.limit, 1) && Within(ps, n))
            || (exists i :: 0 <= i < |ps| && ps[i] < n && cs[ps[i]].chunk.contentDigest == cs[n].chunk.contentDigest)
            || (exists k :: 0 <= k <= |ps| && Within(ps[..k], n)
                  && DocumentCount(cs, ps[..k], cs[n].chunk.documentId) == cfg.maxPerDocument)
  {
    hide Picks, DocumentCount;
    var cap, per := Cap(cfg), cfg.maxPerDocument;
    var ps, qs := Picks(cs, cap, per, |cs|), Picks(cs, cap, per, n);
    PickedIffAdmitted(cs, cap, per, n);
    PicksExtend(cs, cap, per, n, |cs|);
    PicksObeyCaps(cs, cap, per, |cs|, cs[n].chunk.documentId);
    PicksObeyCaps(cs, cap, per, n, cs[n].chunk.documentId);
    if |qs| == cap {
      assert ps == qs;
    } else if HoldsContent(cs, qs, cs[n].chunk.contentDigest) {
      var i :| 0 <= i < |qs| && cs[qs[i]].chunk.contentDigest == cs[n].chunk.contentDigest;
      assert ps[i] == qs[i] && qs[i] in qs;
    } else {
      assert ps[..|qs|] == qs;
    }
  }

  lemma {:induction false} StaysFull(cs: seq<Candidate>, cap: nat, perDocument: nat, m: nat, n: nat)
    requires m <= n <= |cs| && (|Picks(cs, cap, perDocument, m)| >= cap || perDocument == 0)
    ensures Picks(cs, cap, perDocument, n) == Picks(cs, cap, perDocument, m)
    decreases n
  {
    if m < n { StaysFull(cs, cap, perDocument, m, n - 1); }
  }

  // The counters of the selection loop agree with the picks so far.
  ghost predicate Tracks(cs: seq<Candidate>, ps: seq<nat>, counts: map<Text, nat>, digests: set<Digest>)
    requires Within(ps, |cs|)
  {
    && (forall d :: (if d in counts then counts[d] else 0) == DocumentCount(cs, ps, d))
    && (forall d :: d in digests <==> HoldsContent(cs, ps, d))
  }

  lemma TrackOne(cs: seq<Candidate>, ps: seq<nat>, counts: map<Text, nat>, digests: set<Digest>, n: nat)
    requires Within(ps, |cs|) && n < |cs| && Tracks(cs, ps, counts, digests) && cs[n].chunk.documentId in counts
    ensures var document := cs[n].chunk.documentId;
            Tracks(cs, ps + [n], counts[document := counts[document] + 1], digests + {cs[n].chunk.contentDigest})
  {
    hide DocumentCount;
    forall d { DocumentCountSnoc(cs, ps, n, d); }
    var qs := ps + [n];
    forall d ensures HoldsContent(cs, qs, d) <==> HoldsContent(cs, ps, d) || cs[n].chunk.contentDigest == d {
      if i :| 0 <= i < |ps| && cs[ps[i]].chunk.contentDigest == d { assert qs[i] == ps[i]; }
      assert qs[|ps|] == n;
    }
  }

  lemma TrackedAdmission(
    cs: seq<Candidate>, cap: nat, perDocument: nat, ps: seq<nat>, counts: map<Text, nat>, digests: set<Digest>, n: nat)
    requires Within(ps, |cs|) && n < |cs| && Tracks(cs, ps, counts, digests) && |ps| < cap
    ensures var count := if cs[n].chunk.documentId in counts then counts[cs[n].chunk.documentId] else 0;
            Admits(cs, cap, perDocument, ps, n) <==> count < perDocument && cs[n].chunk.contentDigest !in digests
  {
    hide DocumentCount;
  }

  method SelectDiverse(cfg: Config, cs: seq<Candidate>) returns (output: seq<Candidate>)
    ensures output == Selected(cfg, cs)
  {
    hide Admits, Tracks;
    var counts: map<Text, nat> := map[];
    var digests: set<Digest> := {};
    output := [];
    ghost var ps: seq<nat> := [];
    NothingTracked(cs);
    for n := 0 to |cs|
      invariant ps == Picks(cs, Cap(cfg), cfg.maxPerDocument, n)
      invariant output == PickAt(cs, ps) && Tracks(cs, ps, counts, digests)
    {
      if |output| >= Max(cfg.limit, 1) || cfg.maxPerDocument == 0 {
        StaysFull(cs, Cap(cfg), cfg.maxPerDocument, n, |cs|);
        return;
      }
      var document := cs[n].chunk.documentId;
      TrackedAdmission(cs, Cap(cfg), cfg.maxPerDocument, ps, counts, digests, n);
      if document !in counts {
        TrackZero(cs, ps, counts, digests, document);
        counts := counts[document := 0];
      }
      if counts[document] >= cfg.maxPerDocument {
        continue;
      }
      if cs[n].chunk.contentDigest in digests {
        continue;
      }
      TrackOne(cs, ps, counts, digests, n);
      counts := counts[document := counts[document] + 1];
      digests := digests + {cs[n].chunk.contentDigest};
      output := output + [cs[n]];
      ps := ps + [n];
      assert output == PickAt(cs, ps);
    }
  }

  lemma NothingTracked(cs: seq<Candidate>)
    ensures Tracks(cs, [], map[], {})
  {
  }

  lemma TrackZero(cs: seq<Candidate>, ps: seq<nat>, counts: map<Text, nat>, digests: set<Digest>, document: Text)
    requires Within(ps, |cs|) && Tracks(cs, ps, counts, digests) && document !in counts
    ensures Tracks(cs, ps, counts[document := 0], digests)
  {
    hide DocumentCount;
  }
}
