/** Bounded context around an anchor passage: the walk along neighbor links, which may form
    cycles, and the filling of a byte budget with whole passages. */
module Context {
  import opened Bytes
  import opened Corpus
  import opened Text

  datatype Reason = BudgetPreventedExpansion | UntilBudget | Included | BudgetPreventedNeighbors

  datatype Expanded = Expanded(passage: Str, neighborCount: nat, reason: Option<Reason>)

  // ---------- The walk ----------

  datatype Direction = Backward | Forward

  function Link(d: Direction, c: Chunk): Option<Text> { if d.Backward? then c.previous else c.next }

  /** The ids met from `from` on: known, of the document, and not met before. */
  function Walk(
    chunks: map<Text, Chunk>, document: Text, d: Direction, from: Option<Text>, seen: set<Text>, steps: nat)
    : (ids: seq<Text>)
    ensures |ids| <= steps
    decreases steps
  {
    if steps == 0 || from.None? then []
    else
      var id := from.value;
      if id !in chunks || chunks[id].metadata.documentId != document || id in seen then []
      else [id] + Walk(chunks, document, d, Link(d, chunks[id]), seen + {id}, steps - 1)
  }

  function Met(ids: seq<Text>): set<Text> { set i | 0 <= i < |ids| :: ids[i] }

  // Known passages of the document, each once and none seen before.
  ghost predicate WellMet(chunks: map<Text, Chunk>, document: Text, seen: set<Text>, ids: seq<Text>) {
    && (forall i :: 0 <= i < |ids| ==>
        ids[i] in chunks && chunks[ids[i]].metadata.documentId == document && ids[i] !in seen)
    && (forall i, j :: 0 <= i < j < |ids| ==> ids[i] != ids[j])
  }

  lemma {:induction false} WalkMembers(
    chunks: map<Text, Chunk>, document: Text, d: Direction, from: Option<Text>, seen: set<Text>, steps: nat)
    ensures WellMet(chunks, document, seen, Walk(chunks, document, d, from, seen, steps))
    decreases steps
  {
    hide Link;
    if Walk(chunks, document, d, from, seen, steps) != [] {
      var next := Link(d, chunks[from.value]);
      WalkMembers(chunks, document, d, next, seen + {from.value}, steps - 1);
      MetOneMore(chunks, document, seen, from.value, Walk(chunks, document, d, next, seen + {from.value}, steps - 1));
    }
  }

  lemma MetOneMore(chunks: map<Text, Chunk>, document: Text, seen: set<Text>, id: Text, tail: seq<Text>)
    requires id in chunks && chunks[id].metadata.documentId == document && id !in seen
    requires WellMet(chunks, document, seen + {id}, tail)
    ensures WellMet(chunks, document, seen, [id] + tail)
  {
  }

  lemma {:induction false} WalkLinks(
    chunks: map<Text, Chunk>, document: Text, d: Direction, from: Option<Text>, seen: set<Text>, steps: nat)
    ensures var ids := Walk(chunks, document, d, from, seen, steps);
            && (forall i :: 0 <= i < |ids| ==> ids[i] in chunks)
            && (ids != [] ==> from == Some(ids[0]))
            && (forall i :: 0 < i < |ids| ==> Link(d, chunks[ids[i - 1]]) == Some(ids[i]))
    decreases steps
  {
    hide Link;
    var ids := Walk(chunks, document, d, from, seen, steps);
    if ids != [] {
      WalkLinks(chunks, document, d, Link(d, chunks[from.value]), seen + {from.value}, steps - 1);
      var tail := Walk(chunks, document, d, Link(d, chunks[from.value]), seen + {from.value}, steps - 1);
      assert ids == [from.value] + tail;
    }
  }

  // Where a walk goes on from its last passage.
  ghost function After(chunks: map<Text, Chunk>, d: Direction, from: Option<Text>, ids: seq<Text>): Option<Text>
    requires forall i :: 0 <= i < |ids| ==> ids[i] in chunks
  {
    if ids == [] then from else Link(d, chunks[ids[|ids| - 1]])
  }

  ghost predicate DeadEnd(chunks: map<Text, Chunk>, document: Text, next: Option<Text>, met: set<Text>) {
    next.None? || next.value !in chunks || chunks[next.value].metadata.documentId != document || next.value in met
  }

  lemma {:induction false} WalkStops(
    chunks: map<Text, Chunk>, document: Text, d: Direction, from: Option<Text>, seen: set<Text>, steps: nat)
    ensures var ids := Walk(chunks, document, d, from, seen, steps);
            && (forall i :: 0 <= i < |ids| ==> ids[i] in chunks)
            && (|ids| < steps ==> DeadEnd(chunks, document, After(chunks, d, from, ids), seen + Met(ids)))
    decreases steps
  {
    hide Link;
    WalkMembers(chunks, document, d, from, seen, steps);
    var ids := Walk(chunks, document, d, from, seen, steps);
    if ids != [] {
      WalkStops(chunks, document, d, Link(d, chunks[from.value]), seen + {from.value}, steps - 1);
      var tail := Walk(chunks, document, d, Link(d, chunks[from.value]), seen + {from.value}, steps - 1);
      MetCons(from.value, tail);
      assert seen + {from.value} + Met(tail) == seen + Met(ids);
    }
  }

  lemma MetCons(id: Text, tail: seq<Text>)
    ensures Met([id] + tail) == {id} + Met(tail)
  {
    var ids := [id] + tail;
    assert ids[0] == id;
    forall i | 0 <= i < |tail| ensures tail[i] in Met(ids) { assert ids[i + 1] == tail[i]; }
  }

  /** A walk meets known passages of the document, each once and none seen before, each linked
      to by the one before it; and it stops early only at a dead end or a passage met before. */
  lemma WalkFacts(
    chunks: map<Text, Chunk>, document: Text, d: Direction, from: Option<Text>, seen: set<Text>, steps: nat)
    ensures var ids := Walk(chunks, document, d, from, seen, steps);
            && WellMet(chunks, document, seen, ids)
            && (ids != [] ==> from == Some(ids[0]))
            && (forall i :: 0 < i < |ids| ==> Link(d, chunks[ids[i - 1]]) == Some(ids[i]))
            && (|ids| < steps ==> DeadEnd(chunks, document, After(chunks, d, from, ids), seen + Met(ids)))
  {
    hide Walk, Link, Met, DeadEnd;
    WalkMembers(chunks, document, d, from, seen, steps);
    WalkLinks(chunks, document, d, from, seen, steps);
    WalkStops(chunks, document, d, from, seen, steps);
  }

  lemma WalkStep(
    chunks: map<Text, Chunk>, document: Text, d: Direction, met: seq<Text>, from: Option<Text>, seen: set<Text>,
    steps: nat)
    requires steps > 0 && from.Some? && from.value in chunks
    requires chunks[from.value].metadata.documentId == document && from.value !in seen
    ensures met + Walk(chunks, document, d, from, seen, steps)
         == (met + [from.value])
           + Walk(chunks, document, d, Link(d, chunks[from.value]), seen + {from.value}, steps - 1)
  {
  }

  function Reversed<T>(s: seq<T>): (r: seq<T>)
    ensures |r| == |s| && forall i :: 0 <= i < |s| ==> r[i] == s[|s| - 1 - i]
  {
    if s == [] then [] else Reversed(s[1..]) + [s[0]]
  }

  /** The neighbors of an anchor in reading order: back to it, then onward. */
  function NeighborIds(anchor: Chunk, chunks: map<Text, Chunk>, max: nat): seq<Text> {
    var back := Walk(chunks, anchor.metadata.documentId, Backward, anchor.previous, {anchor.metadata.chunkId}, max);
    var seen := {anchor.metadata.chunkId} + Met(back);
    var onward := Walk(chunks, anchor.metadata.documentId, Forward, anchor.next, seen, max);
    Reversed(back) + onward
  }

  /** Neighbors are different from each other and from the anchor, and of its document. */
  lemma NeighborFacts(anchor: Chunk, chunks: map<Text, Chunk>, max: nat)
    ensures var ids := NeighborIds(anchor, chunks, max);
            && |ids| <= 2 * max
            && (forall i :: 0 <= i < |ids| ==>
                  ids[i] in chunks && chunks[ids[i]].metadata.documentId == anchor.metadata.documentId
                    && ids[i] != anchor.metadata.chunkId)
            && (forall i, j :: 0 <= i < j < |ids| ==> ids[i] != ids[j])
  {
    hide Walk;
    var back := Walk(chunks, anchor.metadata.documentId, Backward, anchor.previous, {anchor.metadata.chunkId}, max);
    WalkMembers(chunks, anchor.metadata.documentId, Backward, anchor.previous, {anchor.metadata.chunkId}, max);
    var seen := {anchor.metadata.chunkId} + Met(back);
    var onward := Walk(chunks, anchor.metadata.documentId, Forward, anchor.next, seen, max);
    WalkMembers(chunks, anchor.metadata.documentId, Forward, anchor.next, {anchor.metadata.chunkId} + Met(back), max);
    Spliced(back, onward);
  }

  // The walk cannot go on there: no link, an unknown or foreign chunk, or one met already.
  ghost predicate Stuck(anchor: Chunk, chunks: map<Text, Chunk>, link: Option<Text>, met: seq<Text>) {
    link.Some? && link.value in chunks ==>
      || chunks[link.value].metadata.documentId != anchor.metadata.documentId
      || link.value == anchor.metadata.chunkId || link.value in met
  }

  // The first n ids lead by previous links back from the anchor, read in the opposite order.
  ghost predicate ReadsBack(anchor: Chunk, chunks: map<Text, Chunk>, ids: seq<Text>, n: nat)
    requires n <= |ids| && forall i :: 0 <= i < |ids| ==> ids[i] in chunks
  {
    && (n > 0 ==> anchor.previous == Some(ids[n - 1]))
    && (forall i :: 0 <= i < n - 1 ==> chunks[ids[i + 1]].previous == Some(ids[i]))
  }

  // The others lead by next links on from the anchor.
  ghost predicate ReadsOn(anchor: Chunk, chunks: map<Text, Chunk>, ids: seq<Text>, n: nat)
    requires n <= |ids| && forall i :: 0 <= i < |ids| ==> ids[i] in chunks
  {
    && (n < |ids| ==> anchor.next == Some(ids[n]))
    && (forall i :: n <= i < |ids| - 1 ==> chunks[ids[i]].next == Some(ids[i + 1]))
  }

  /** The neighbors in reading order: first those that previous links lead back to, then those
      that next links lead on to, at most `max` of each; and fewer only where the walk is stuck. */
  lemma ReadingOrder(anchor: Chunk, chunks: map<Text, Chunk>, max: nat) returns (n: nat)
    ensures var ids := NeighborIds(anchor, chunks, max);
            && (forall i :: 0 <= i < |ids| ==> ids[i] in chunks)
            && n <= |ids| && n <= max && |ids| - n <= max
            && ReadsBack(anchor, chunks, ids, n) && ReadsOn(anchor, chunks, ids, n)
            && (n < max ==>
                  Stuck(anchor, chunks, if n == 0 then anchor.previous else chunks[ids[0]].previous, ids[..n]))
            && (|ids| - n < max ==>
                  Stuck(anchor, chunks, if n == |ids| then anchor.next else chunks[ids[|ids| - 1]].next, ids))
  {
    NeighborFacts(anchor, chunks, max);
    hide NeighborIds, Walk, Met, Reversed, DeadEnd, After, Link, ReadsBack, ReadsOn, Stuck;
    var back, onward := BothWalks(anchor, chunks, max);
    var ids := NeighborIds(anchor, chunks, max);
    n := |back|;
    ReversedMembers(back);
    MetTwice(back, onward);
    MetIn(back, ids[..n]);
    MetIn(back + onward, ids);
    BackRead(anchor, chunks, back, ids);
    OnRead(anchor, chunks, onward, ids, n);
    if n < max { BackStuck(anchor, chunks, back, ids); }
    if |onward| < max { OnStuck(anchor, chunks, back, onward, ids); }
  }

  // The two walks, and what holds of each.
  lemma BothWalks(anchor: Chunk, chunks: map<Text, Chunk>, max: nat) returns (back: seq<Text>, onward: seq<Text>)
    ensures NeighborIds(anchor, chunks, max) == Reversed(back) + onward && |back| <= max && |onward| <= max
    ensures forall i :: 0 <= i < |back| ==> back[i] in chunks
    ensures forall i :: 0 <= i < |onward| ==> onward[i] in chunks
    ensures back != [] ==> anchor.previous == Some(back[0])
    ensures onward != [] ==> anchor.next == Some(onward[0])
    ensures forall i :: 0 < i < |back| ==> Link(Backward, chunks[back[i - 1]]) == Some(back[i])
    ensures forall i :: 0 < i < |onward| ==> Link(Forward, chunks[onward[i - 1]]) == Some(onward[i])
    ensures |back| < max ==>
              DeadEnd(chunks, anchor.metadata.documentId, After(chunks, Backward, anchor.previous, back),
                      {anchor.metadata.chunkId} + Met(back))
    ensures |onward| < max ==>
              DeadEnd(chunks, anchor.metadata.documentId, After(chunks, Forward, anchor.next, onward),
                      {anchor.metadata.chunkId} + Met(back) + Met(onward))
  {
    hide Walk, WellMet, Met, Reversed, DeadEnd, After, Link;
    var document, own := anchor.metadata.documentId, anchor.metadata.chunkId;
    back := Walk(chunks, document, Backward, anchor.previous, {own}, max);
    onward := Walk(chunks, document, Forward, anchor.next, {own} + Met(back), max);
    WalkFacts(chunks, document, Backward, anchor.previous, {own}, max);
    WalkFacts(chunks, document, Forward, anchor.next, {own} + Met(back), max);
    WalkKnown(chunks, document, {own}, back);
    WalkKnown(chunks, document, {own} + Met(back), onward);
  }

  lemma WalkKnown(chunks: map<Text, Chunk>, document: Text, seen: set<Text>, ids: seq<Text>)
    requires WellMet(chunks, document, seen, ids)
    ensures forall i :: 0 <= i < |ids| ==> ids[i] in chunks
  {
  }

  lemma BackRead(anchor: Chunk, chunks: map<Text, Chunk>, back: seq<Text>, ids: seq<Text>)
    requires |back| <= |ids| && ids[..|back|] == Reversed(back)
    requires forall i :: 0 <= i < |ids| ==> ids[i] in chunks
    requires forall i :: 0 <= i < |back| ==> back[i] in chunks
    requires back != [] ==> anchor.previous == Some(back[0])
    requires forall i :: 0 < i < |back| ==> Link(Backward, chunks[back[i - 1]]) == Some(back[i])
    ensures ReadsBack(anchor, chunks, ids, |back|)
  {
    hide Reversed;
    var n := |back|;
    assert forall i :: 0 <= i < n ==> ids[i] == ids[..n][i] == back[n - 1 - i];
    forall i | 0 <= i < n - 1 ensures chunks[ids[i + 1]].previous == Some(ids[i]) {
      var j := n - 1 - i;
      assert Link(Backward, chunks[back[j - 1]]) == Some(back[j]);
    }
  }

  lemma OnRead(anchor: Chunk, chunks: map<Text, Chunk>, onward: seq<Text>, ids: seq<Text>, n: nat)
    requires n <= |ids| && ids[n..] == onward
    requires forall i :: 0 <= i < |ids| ==> ids[i] in chunks
    requires forall i :: 0 <= i < |onward| ==> onward[i] in chunks
    requires onward != [] ==> anchor.next == Some(onward[0])
    requires forall i :: 0 < i < |onward| ==> Link(Forward, chunks[onward[i - 1]]) == Some(onward[i])
    ensures ReadsOn(anchor, chunks, ids, n)
  {
    forall i | n <= i < |ids| - 1 ensures chunks[ids[i]].next == Some(ids[i + 1]) {
      var j := i + 1 - n;
      assert onward[j - 1] == ids[i] && onward[j] == ids[i + 1];
      assert Link(Forward, chunks[onward[j - 1]]) == Some(onward[j]);
    }
  }

  lemma BackStuck(anchor: Chunk, chunks: map<Text, Chunk>, back: seq<Text>, ids: seq<Text>)
    requires |back| <= |ids| && ids[..|back|] == Reversed(back)
    requires forall i :: 0 <= i < |ids| ==> ids[i] in chunks
    requires forall i :: 0 <= i < |back| ==> back[i] in chunks
    requires forall x :: x in Met(back) <==> x in ids[..|back|]
    requires DeadEnd(chunks, anchor.metadata.documentId, After(chunks, Backward, anchor.previous, back),
                     {anchor.metadata.chunkId} + Met(back))
    ensures Stuck(anchor, chunks, if back == [] then anchor.previous else chunks[ids[0]].previous, ids[..|back|])
  {
    hide Met, Reversed;
    if back != [] { assert ids[0] == ids[..|back|][0] == back[|back| - 1]; }
  }

  lemma OnStuck(anchor: Chunk, chunks: map<Text, Chunk>, back: seq<Text>, onward: seq<Text>, ids: seq<Text>)
    requires ids == Reversed(back) + onward
    requires forall i :: 0 <= i < |ids| ==> ids[i] in chunks
    requires forall i :: 0 <= i < |onward| ==> onward[i] in chunks
    requires forall x :: x in Met(back) + Met(onward) <==> x in ids
    requires DeadEnd(chunks, anchor.metadata.documentId, After(chunks, Forward, anchor.next, onward),
                     {anchor.metadata.chunkId} + Met(back) + Met(onward))
    ensures Stuck(anchor, chunks, if onward == [] then anchor.next else chunks[ids[|ids| - 1]].next, ids)
  {
    hide Met, Reversed;
    if onward != [] { assert ids[|ids| - 1] == onward[|onward| - 1]; }
  }

  lemma {:induction false} ReversedMembers(s: seq<Text>)
    ensures forall x :: x in Reversed(s) <==> x in s
  {
    forall x | x in s ensures x in Reversed(s) {
      var i :| 0 <= i < |s| && s[i] == x;
      assert Reversed(s)[|s| - 1 - i] == x;
    }
  }

  lemma MetIn(a: seq<Text>, b: seq<Text>)
    requires forall x :: x in a <==> x in b
    ensures forall x :: x in Met(a) <==> x in b
  {
    forall x ensures x in Met(a) <==> x in a {
      if x in a { var i :| 0 <= i < |a| && a[i] == x; }
    }
  }

  lemma MetTwice(a: seq<Text>, b: seq<Text>)
    ensures Met(a + b) == Met(a) + Met(b)
  {
    forall x | x in Met(a) + Met(b) ensures x in Met(a + b) {
      if x in Met(a) { var i :| 0 <= i < |a| && a[i] == x; assert (a + b)[i] == x; }
      if x in Met(b) { var i :| 0 <= i < |b| && b[i] == x; assert (a + b)[|a| + i] == x; }
    }
  }

  lemma Spliced(back: seq<Text>, onward: seq<Text>)
    requires forall i, j :: 0 <= i < j < |back| ==> back[i] != back[j]
    requires forall i, j :: 0 <= i < j < |onward| ==> onward[i] != onward[j]
    requires forall i :: 0 <= i < |onward| ==> onward[i] !in Met(back)
    ensures var ids := Reversed(back) + onward;
            && (forall i, j :: 0 <= i < j < |ids| ==> ids[i] != ids[j])
            && (forall i :: 0 <= i < |ids| ==> ids[i] in back || ids[i] in onward)
  {
    var r := Reversed(back);
    forall i, j | 0 <= i < |r| && 0 <= j < |onward| ensures r[i] != onward[j] { assert r[i] in Met(back); }
  }

  method Collect(anchor: Chunk, chunks: map<Text, Chunk>, max: nat) returns (ids: seq<Text>)
    ensures ids == NeighborIds(anchor, chunks, max)
  {
    hide Walk;
    var document := anchor.metadata.documentId;
    var seen := {anchor.metadata.chunkId};
    var back := Follow(chunks, document, Backward, anchor.previous, seen, max);
    seen := seen + Met(back);
    var onward := Follow(chunks, document, Forward, anchor.next, seen, max);
    ids := Reversed(back) + onward;
  }

  /** One of the two loops. */
  method Follow(chunks: map<Text, Chunk>, document: Text, d: Direction, start: Option<Text>, seen0: set<Text>, max: nat)
    returns (met: seq<Text>)
    ensures met == Walk(chunks, document, d, start, seen0, max)
  {
    var from, seen := start, seen0;
    met := [];
    for step := 0 to max
      invariant met + Walk(chunks, document, d, from, seen, max - step) == Walk(chunks, document, d, start, seen0, max)
    {
      if from.None? {
        return;
      }
      var id := from.value;
      if id !in chunks {
        return;
      }
      if chunks[id].metadata.documentId != document || id in seen {
        return;
      }
      WalkStep(chunks, document, d, met, from, seen, max - step);
      seen := seen + {id};
      met := met + [id];
      from := Link(d, chunks[id]);
    }
  }

  // ---------- The budget ----------

  const SEPARATOR: Str := Ascii("\n\n")

  /** The longest prefix of at most `max` bytes that ends at a character boundary. */
  function Cut(s: Str, max: nat): (end: nat)
    ensures end <= Min(max, |s|) && IsCharBoundary(s, end)
    ensures forall i :: end < i <= Min(max, |s|) ==> !IsCharBoundary(s, i)
  {
    CutFrom(s, Min(max, |s|))
  }

  function CutFrom(s: Str, from: nat): (end: nat)
    requires from <= |s|
    ensures end <= from && IsCharBoundary(s, end)
    ensures forall i :: end < i <= from ==> !IsCharBoundary(s, i)
  {
    if IsCharBoundary(s, from) then from else CutFrom(s, from - 1)
  }

  function Glue(output: Str): Str { if output == [] then [] else SEPARATOR }

  /** `append_bounded_piece`: the new output and whether the whole piece went in. */
  function Append(output: Str, piece: Str, max: nat): (r: (Str, bool))
    requires |output| <= max
    ensures |r.0| <= max && output <= r.0
    ensures r.1 <==> |output| + |Glue(output)| + |piece| <= max
    ensures r.1 ==> r.0 == output + Glue(output) + piece
    ensures !r.1 ==> r.0 == if output == [] then piece[..Cut(piece, max)] else output
  {
    if |Glue(output)| + |piece| <= max - |output| then
      ConcatValid(output, Glue(output));
      ConcatValid(output + Glue(output), piece);
      (output + Glue(output) + piece, true)
    else if output == [] then
      BoundarySplits(piece, Cut(piece, max));
      (piece[..Cut(piece, max)], false)
    else (output, false)
  }

  method AppendBoundedPiece(output: Str, piece: Str, max: nat) returns (r: Str, whole: bool)
    requires |output| <= max
    ensures (r, whole) == Append(output, piece, max)
  {
    hide CharWidth, ValidUtf8, Continuation, CutFrom;
    if |Glue(output)| + |piece| <= max - |output| {
      ConcatValid(output, Glue(output));
      ConcatValid(output + Glue(output), piece);
      return output + Glue(output) + piece, true;
    }
    r := output;
    if output == [] {
      var end := Min(max, |piece|);
      while end > 0 && !IsCharBoundary(piece, end)
        invariant 0 <= end <= Min(max, |piece|)
        invariant forall i :: end < i <= Min(max, |piece|) ==> !IsCharBoundary(piece, i)
      {
        end := end - 1;
      }
      BoundarySplits(piece, end);
      r := piece[..end];
    }
    whole := false;
  }

  /** Appends neighbors until one does not fit. */
  function Fill(output: Str, pieces: seq<Str>, max: nat): (r: (Str, nat))
    requires |output| <= max
    ensures |r.0| <= max && r.1 <= |pieces|
    decreases |pieces|
  {
    if pieces == [] then (output, 0)
    else
      var (more, whole) := Append(output, pieces[0], max);
      if whole then
        var rest := Fill(more, pieces[1..], max);
        (rest.0, rest.1 + 1)
      else (more, 0)
  }

  lemma FillStep(output: Str, pieces: seq<Str>, i: nat, max: nat)
    requires |output| <= max && i < |pieces|
    ensures var (more, whole) := Append(output, pieces[i], max);
            Fill(output, pieces[i..], max)
              == if whole then (Fill(more, pieces[i + 1..], max).0, Fill(more, pieces[i + 1..], max).1 + 1)
                else (more, 0)
  {
    hide Append;
    assert pieces[i..][1..] == pieces[i + 1..];
  }

  lemma FillEnd(output: Str, max: nat)
    requires |output| <= max
    ensures Fill(output, [], max) == (output, 0)
  {
  }

  function TextsOf(chunks: map<Text, Chunk>, ids: seq<Text>): (r: seq<Str>)
    requires forall i :: 0 <= i < |ids| ==> ids[i] in chunks
    ensures |r| == |ids| && forall i :: 0 <= i < |ids| ==> r[i] == chunks[ids[i]].text
  {
    seq(|ids|, i requires 0 <= i < |ids| => chunks[ids[i]].text)
  }

  function ReasonFor(count: nat, limited: bool): Option<Reason> {
    if count > 0 then Some(if limited then UntilBudget else Included)
    else if limited then Some(BudgetPreventedNeighbors)
    else None
  }

  /** `expand_adjacent_context`. */
  function Expansion(anchor: Chunk, chunks: map<Text, Chunk>, maxNeighbors: nat, maxBytes: nat): Expanded {
    if maxBytes == 0 then Expanded([], 0, Some(BudgetPreventedExpansion))
    else
      NeighborFacts(anchor, chunks, maxNeighbors);
      var pieces := TextsOf(chunks, NeighborIds(anchor, chunks, maxNeighbors));
      var first := Append([], anchor.text, maxBytes).0;
      var (passage, count) := Fill(first, pieces, maxBytes);
      Expanded(passage, count, ReasonFor(count, |first| < |anchor.text| || count < |pieces|))
  }

  method ExpandAdjacentContext(
    anchor: Chunk, chunks: map<Text, Chunk>, maxNeighbors: nat, maxBytes: nat)
    returns (e: Expanded)
    ensures e == Expansion(anchor, chunks, maxNeighbors, maxBytes)
  {
    hide NeighborIds, Fill, Append, Glue, Cut;
    if maxBytes == 0 {
      return Expanded([], 0, Some(BudgetPreventedExpansion));
    }
    var ids := Collect(anchor, chunks, maxNeighbors);
    NeighborFacts(anchor, chunks, maxNeighbors);
    ghost var pieces := TextsOf(chunks, ids);
    var passage, whole := AppendBoundedPiece([], anchor.text, maxBytes);
    ghost var first := passage;
    var limited := |passage| < |anchor.text|;
    var count := 0;
    assert pieces[0..] == pieces;
    for i := 0 to |ids|
      invariant count == i && |passage| <= maxBytes
      invariant Fill(first, pieces, maxBytes).1 == i + Fill(passage, pieces[i..], maxBytes).1
      invariant Fill(first, pieces, maxBytes).0 == Fill(passage, pieces[i..], maxBytes).0
    {
      FillStep(passage, pieces, i, maxBytes);
      passage, whole := AppendBoundedPiece(passage, chunks[ids[i]].text, maxBytes);
      if !whole {
        limited := true;
        break;
      }
      count := count + 1;
    }
    FillEnd(passage, maxBytes);
    e := Expanded(passage, count, ReasonFor(count, limited));
  }

  // ---------- The shape of the context ----------

  /** A first piece followed by others, each after a separator. */
  function Glued(first: Str, pieces: seq<Str>): (r: Str)
    ensures first <= r
    decreases |pieces|
  {
    if pieces == [] then first
    else
      ConcatValid(first, SEPARATOR);
      ConcatValid(first + SEPARATOR, pieces[0]);
      Glued(first + SEPARATOR + pieces[0], pieces[1..])
  }

  /** After something has been written, neighbors go in whole, separated, in order, and as
      many as fit. */
  lemma {:induction false} FillShape(output: Str, pieces: seq<Str>, max: nat)
    requires output != [] && |output| <= max
    ensures var (passage, count) := Fill(output, pieces, max);
            && passage == Glued(output, pieces[..count])
            && (count < |pieces| ==> |Glued(output, pieces[..count + 1])| > max)
    decreases |pieces|
  {
    if pieces != [] {
      var (more, whole) := Append(output, pieces[0], max);
      ConcatValid(output, SEPARATOR);
      ConcatValid(output + SEPARATOR, pieces[0]);
      assert pieces[..1] == [pieces[0]] && pieces[..1][1..] == [];
      if whole {
        FillShape(more, pieces[1..], max);
        var count := Fill(output, pieces, max).1;
        assert pieces[..count][1..] == pieces[1..][..count - 1];
        if count < |pieces| { assert pieces[..count + 1][1..] == pieces[1..][..count]; }
      }
    }
  }

  /** A cut keeps something exactly when the first character fits. */
  lemma CutKeepsFirstCharacter(s: Str, max: nat)
    requires s != []
    ensures Cut(s, max) > 0 <==> CharWidth(s) <= max
  {
    var w := CharWidth(s);
    assert ValidUtf8(s[w..]);
    assert IsCharBoundary(s, w) by {
      if w < |s| { assert s[w..][0] == s[w] && CharWidth(s[w..]) > 0; }
    }
    forall i | 0 < i < w ensures !IsCharBoundary(s, i) { assert Continuation(s[i]); }
  }

  lemma FirstPiece(text: Str, max: nat)
    requires text != [] && CharWidth(text) <= max
    ensures var kept := if |text| <= max then |text| else Cut(text, max);
            0 < kept <= |text| && ValidUtf8(text[..kept]) && Append([], text, max).0 == text[..kept]
  {
    hide CutFrom;
    CutKeepsFirstCharacter(text, max);
    assert text[..|text|] == text;
    assert [] + Glue([]) + text == text;
    BoundarySplits(text, if |text| <= max then |text| else Cut(text, max));
  }

  /** The context is within budget; and when the anchor's first character fits, it is the
      longest fitting prefix of the anchor, then the longest run of neighbors that fits, whole
      and separated. The reason says truly whether neighbors went in and whether anything was
      left out. */
  lemma ExpansionShape(anchor: Chunk, chunks: map<Text, Chunk>, maxNeighbors: nat, maxBytes: nat)
    requires anchor.text != [] && CharWidth(anchor.text) <= maxBytes
    ensures var e, ids := Expansion(anchor, chunks, maxNeighbors, maxBytes), NeighborIds(anchor, chunks, maxNeighbors);
            var kept := if |anchor.text| <= maxBytes then |anchor.text| else Cut(anchor.text, maxBytes);
            && (forall i :: 0 <= i < |ids| ==> ids[i] in chunks)
            && ValidUtf8(anchor.text[..kept]) && kept > 0 && e.neighborCount <= |ids|
            && var first, pieces := anchor.text[..kept], TextsOf(chunks, ids);
            && e.passage == Glued(first, pieces[..e.neighborCount]) && |e.passage| <= maxBytes
            && (e.neighborCount < |ids| ==> |Glued(first, pieces[..e.neighborCount + 1])| > maxBytes)
            && e.reason == (
                 if e.neighborCount == |ids| && kept == |anchor.text| then (if e.neighborCount == 0 then None
                                                                            else Some(Included))
                 else if e.neighborCount == 0 then Some(BudgetPreventedNeighbors)
                 else Some(UntilBudget))
  {
    hide NeighborIds, Fill, Glued, Cut, Append, Glue;
    NeighborFacts(anchor, chunks, maxNeighbors);
    FirstPiece(anchor.text, maxBytes);
    var first := Append([], anchor.text, maxBytes).0;
    FillShape(first, TextsOf(chunks, NeighborIds(anchor, chunks, maxNeighbors)), maxBytes);
  }

  /** Otherwise the anchor leaves no trace: the passage is what the neighbors alone fill. */
  lemma AnchorLeavesNoTrace(anchor: Chunk, chunks: map<Text, Chunk>, maxNeighbors: nat, maxBytes: nat)
    requires maxBytes > 0 && (anchor.text == [] || CharWidth(anchor.text) > maxBytes)
    ensures var e, ids := Expansion(anchor, chunks, maxNeighbors, maxBytes), NeighborIds(anchor, chunks, maxNeighbors);
            && (forall i :: 0 <= i < |ids| ==> ids[i] in chunks)
            && (e.passage, e.neighborCount) == Fill([], TextsOf(chunks, ids), maxBytes)
  {
    hide NeighborIds, Fill;
    NeighborFacts(anchor, chunks, maxNeighbors);
    if anchor.text != [] { CutKeepsFirstCharacter(anchor.text, maxBytes); }
    assert [] + Glue([]) + anchor.text == anchor.text;
  }

  function Passage(id: Text, text: Str, previous: Option<Text>, next: Option<Text>): Chunk {
    Chunk(Metadata(id, [], None, seq(32, _ => 0)), text, previous, next)
  }

  /** Such a passage can be a neighbor without its anchor. */
  lemma NeighborWithoutAnchor()
    ensures var e_acute: Str := [0xC3, 0xA9];
            var a: Str := Ascii("a");
            var anchor, neighbor := Passage([0], e_acute, None, Some([1])), Passage([1], a, Some([0]), None);
            var e := Expansion(anchor, map[[0] := anchor, [1] := neighbor], 1, 1);
            e.passage == a && e.neighborCount == 1
  {
    var anchor, neighbor := Passage([0], [0xC3, 0xA9], None, Some([1])), Passage([1], Ascii("a"), Some([0]), None);
    var chunks := map[[0] := anchor, [1] := neighbor];
    assert CharWidth(anchor.text) == 2;
    assert anchor.metadata.chunkId != neighbor.metadata.chunkId by { assert [0][0] != [1][0]; }
    var back := Walk(chunks, [], Backward, None, {anchor.metadata.chunkId}, 1);
    var onward := Walk(chunks, [], Forward, Some([1]), {anchor.metadata.chunkId} + Met(back), 1);
    assert back == [] && Met(back) == {};
    assert Walk(chunks, [], Forward, None, {[0], [1]}, 0) == [];
    assert onward == [[1]];
    assert NeighborIds(anchor, chunks, 1) == [[1]];
    AnchorLeavesNoTrace(anchor, chunks, 1, 1);
    var pieces := TextsOf(chunks, [[1]]);
    assert pieces == [Ascii("a")];
    assert [] + Glue([]) + pieces[0] == pieces[0];
    assert Fill([], pieces, 1) == (Ascii("a"), 1);
  }
}
