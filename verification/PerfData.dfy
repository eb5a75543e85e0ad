/** Folding the text output of a profiler into sample counts. */
module PerfData {
  import opened Bytes
  import opened Text
  import opened Sums

  // Symbol of a frame line, and category of a function name.
  type FrameParser = Text -> Option<Text>
  type Categorizer = Text -> Text

  datatype Counts = Counts(samples: nat, self: map<Text, nat>, inclusive: map<Text, nat>, categories: map<Text, nat>)

  const NOTHING := Counts(0, map[], map[], map[])

  function CountOf(m: map<Text, nat>, k: Text): nat { if k in m then m[k] else 0 }

  function Bumped(m: map<Text, nat>, k: Text): map<Text, nat> { m[k := CountOf(m, k) + 1] }

  function Members(frames: seq<Text>): set<Text> { set i | 0 <= i < |frames| :: frames[i] }

  /** Adds a call chain, leaf first; an empty chain adds nothing. */
  function Added(categorize: Categorizer, c: Counts, frames: seq<Text>): Counts {
    if frames == [] then c
    else Counts(c.samples + 1, Bumped(c.self, frames[0]), BumpedAll(c.inclusive, Members(frames)),
                Bumped(c.categories, categorize(frames[0])))
  }

  function BumpedAll(m: map<Text, nat>, ks: set<Text>): map<Text, nat> {
    map k | k in m.Keys + ks :: CountOf(m, k) + (if k in ks then 1 else 0)
  }

  class Report {
    var samples: nat
    var selfSamples: map<Text, nat>
    var inclusiveSamples: map<Text, nat>
    var categories: map<Text, nat>

    constructor ()
      ensures Contents() == NOTHING
    {
      samples, selfSamples, inclusiveSamples, categories := 0, map[], map[], map[];
    }

    function Contents(): Counts
      reads this
    {
      Counts(samples, selfSamples, inclusiveSamples, categories)
    }

    /** `add_sample`. */
    method AddSample(categorize: Categorizer, frames: seq<Text>)
      modifies this
      ensures Contents() == Added(categorize, old(Contents()), frames)
    {
      hide BumpedAll, Members, Bumped;
      if frames == [] {
        return;
      }
      var leaf := frames[0];
      samples := samples + 1;
      selfSamples := Bumped(selfSamples, leaf);
      categories := Bumped(categories, categorize(leaf));
      var seen: set<Text> := {};
      BumpNone(inclusiveSamples);
      NoMembers(frames[..0]);
      for i := 0 to |frames|
        invariant seen == Members(frames[..i])
        invariant inclusiveSamples == BumpedAll(old(inclusiveSamples), seen)
        invariant samples == old(samples) + 1 && selfSamples == Bumped(old(selfSamples), leaf)
        invariant categories == Bumped(old(categories), categorize(leaf))
      {
        MembersGrow(frames, i);
        if frames[i] !in seen {
          BumpOneMore(old(inclusiveSamples), seen, frames[i]);
          seen := seen + {frames[i]};
          inclusiveSamples := Bumped(inclusiveSamples, frames[i]);
        }
      }
      assert frames[..|frames|] == frames;
    }
  }

  lemma BumpNone(m: map<Text, nat>)
    ensures BumpedAll(m, {}) == m
  {
  }

  lemma BumpOneMore(m: map<Text, nat>, ks: set<Text>, k: Text)
    requires k !in ks
    ensures Bumped(BumpedAll(m, ks), k) == BumpedAll(m, ks + {k})
  {
  }

  lemma NoMembers(frames: seq<Text>)
    requires frames == []
    ensures Members(frames) == {}
  {
  }

  lemma MembersGrow(frames: seq<Text>, i: nat)
    requires i < |frames|
    ensures Members(frames[..i + 1]) == Members(frames[..i]) + {frames[i]}
  {
    var more, less := frames[..i + 1], frames[..i];
    assert more[i] == frames[i];
    forall x | x in Members(less) ensures x in Members(more) {
      var j :| 0 <= j < |less| && less[j] == x;
      assert more[j] == x;
    }
  }

  // ---------- Lines and blocks ----------

  // A line of a call chain: indented and not blank.
  predicate IsFrameLine(line: Text) { !Blank(line) && SpaceWidth(line) > 0 }

  function RunLength(lines: seq<Text>): (n: nat)
    ensures n <= |lines|
    ensures forall i :: 0 <= i < n ==> IsFrameLine(lines[i])
    ensures n < |lines| ==> !IsFrameLine(lines[n])
  {
    if lines == [] || !IsFrameLine(lines[0]) then 0 else 1 + RunLength(lines[1..])
  }

  function Symbols(parse: FrameParser, lines: seq<Text>): seq<Text> {
    if lines == [] then []
    else (if parse(lines[0]).Some? then [parse(lines[0]).value] else []) + Symbols(parse, lines[1..])
  }

  function IfAny(frames: seq<Text>): seq<seq<Text>> { if frames == [] then [] else [frames] }

  /** The call chains of the input: the symbols of each maximal run of frame lines, where
      there are any. */
  function Blocks(parse: FrameParser, lines: seq<Text>): seq<seq<Text>>
    decreases |lines|
  {
    if lines == [] then []
    else
      var n := RunLength(lines);
      if n == 0 then Blocks(parse, lines[1..])
      else IfAny(Symbols(parse, lines[..n])) + Blocks(parse, lines[n..])
  }

  function Fold(categorize: Categorizer, c: Counts, blocks: seq<seq<Text>>): Counts
    decreases |blocks|
  {
    if blocks == [] then c else Fold(categorize, Added(categorize, c, blocks[0]), blocks[1..])
  }

  /** What the streaming parser makes of the rest of the input. */
  function Stream(parse: FrameParser, categorize: Categorizer, c: Counts, frames: seq<Text>, lines: seq<Text>): Counts
    decreases |lines|
  {
    if lines == [] then Added(categorize, c, frames)
    else
      var line, rest := lines[0], lines[1..];
      if Blank(line) then Stream(parse, categorize, Added(categorize, c, frames), [], rest)
      else if SpaceWidth(line) > 0 then
        Stream(parse, categorize, c, frames + (if parse(line).Some? then [parse(line).value] else []), rest)
      else if frames != [] then Stream(parse, categorize, Added(categorize, c, frames), [], rest)
      else Stream(parse, categorize, c, frames, rest)
  }

  /** `parse_perf_script`. */
  method ParsePerfScript(parse: FrameParser, categorize: Categorizer, lines: seq<Text>) returns (report: Report)
    ensures fresh(report) && report.Contents() == Fold(categorize, NOTHING, Blocks(parse, lines))
  {
    hide Added;
    report := new Report();
    var frames: seq<Text> := [];
    assert lines[0..] == lines;
    for i := 0 to |lines|
      invariant fresh(report)
      invariant Stream(parse, categorize, report.Contents(), frames, lines[i..])
          == Stream(parse, categorize, NOTHING, [], lines)
    {
      assert lines[i..][1..] == lines[i + 1..];
      if Blank(lines[i]) {
        report.AddSample(categorize, frames);
        frames := [];
      } else if SpaceWidth(lines[i]) > 0 {
        var symbol := parse(lines[i]);
        if symbol.Some? {
          frames := frames + [symbol.value];
        } else {
          assert frames + [] == frames;
        }
      } else if frames != [] {
        report.AddSample(categorize, frames);
        frames := [];
      }
    }
    report.AddSample(categorize, frames);
    StreamIsFold(parse, categorize, NOTHING, [], lines);
    PendingNothing(parse, lines);
  }

  // ---------- Streaming is splitting and folding ----------

  // The blocks of the input when some frames of its first run have been read already.
  function Pending(parse: FrameParser, frames: seq<Text>, lines: seq<Text>): seq<seq<Text>> {
    var n := RunLength(lines);
    IfAny(frames + Symbols(parse, lines[..n])) + Blocks(parse, lines[n..])
  }

  lemma PendingNothing(parse: FrameParser, lines: seq<Text>)
    ensures Pending(parse, [], lines) == Blocks(parse, lines)
  {
    var n := RunLength(lines);
    assert [] + Symbols(parse, lines[..n]) == Symbols(parse, lines[..n]);
    if n == 0 { assert lines[0..] == lines && lines[..0] == []; }
  }

  lemma FoldFirst(categorize: Categorizer, c: Counts, frames: seq<Text>, blocks: seq<seq<Text>>)
    ensures Fold(categorize, c, IfAny(frames) + blocks) == Fold(categorize, Added(categorize, c, frames), blocks)
  {
    if frames == [] {
      assert [] + blocks == blocks;
    } else {
      assert (IfAny(frames) + blocks)[1..] == blocks;
    }
  }

  lemma PendingFrame(parse: FrameParser, frames: seq<Text>, lines: seq<Text>)
    requires lines != [] && IsFrameLine(lines[0])
    ensures Pending(parse, frames, lines)
         == Pending(parse, frames + (if parse(lines[0]).Some? then [parse(lines[0]).value] else []), lines[1..])
  {
    hide IsFrameLine, Blocks;
    var n := RunLength(lines[1..]);
    var own := if parse(lines[0]).Some? then [parse(lines[0]).value] else [];
    assert lines[..n + 1][1..] == lines[1..][..n];
    assert lines[n + 1..] == lines[1..][n..];
    assert frames + (own + Symbols(parse, lines[1..][..n])) == frames + own + Symbols(parse, lines[1..][..n]);
  }

  lemma PendingOther(parse: FrameParser, frames: seq<Text>, lines: seq<Text>)
    requires lines != [] && !IsFrameLine(lines[0])
    ensures Pending(parse, frames, lines) == IfAny(frames) + Pending(parse, [], lines[1..])
  {
    hide IsFrameLine;
    assert lines[..0] == [] && lines[0..] == lines && frames + [] == frames;
    PendingNothing(parse, lines[1..]);
  }

  /** The streaming parser counts what splitting into blocks and folding them counts. */
  lemma {:induction false} StreamIsFold(
    parse: FrameParser, categorize: Categorizer, c: Counts, frames: seq<Text>, lines: seq<Text>)
    ensures Stream(parse, categorize, c, frames, lines) == Fold(categorize, c, Pending(parse, frames, lines))
    decreases |lines|
  {
    hide Fold, Pending, Blank, SpaceWidth;
    if lines == [] {
      FoldFirst(categorize, c, frames, []);
      PendingEnd(parse, frames);
      FoldNothing(categorize, Added(categorize, c, frames));
    } else if IsFrameLine(lines[0]) {
      PendingFrame(parse, frames, lines);
      var more := frames + (if parse(lines[0]).Some? then [parse(lines[0]).value] else []);
      StreamIsFold(parse, categorize, c, more, lines[1..]);
    } else {
      PendingOther(parse, frames, lines);
      FoldFirst(categorize, c, frames, Pending(parse, [], lines[1..]));
      StreamIsFold(parse, categorize, Added(categorize, c, frames), [], lines[1..]);
    }
  }

  lemma PendingEnd(parse: FrameParser, frames: seq<Text>)
    ensures Pending(parse, frames, []) == IfAny(frames) + []
  {
    var none: seq<Text> := [];
    assert RunLength(none) == 0 && none[..0] == none && none[0..] == none && frames + [] == frames;
  }

  lemma FoldNothing(categorize: Categorizer, c: Counts)
    ensures Fold(categorize, c, []) == c
  {
  }

  lemma {:induction false} BlocksNotEmpty(parse: FrameParser, lines: seq<Text>)
    ensures forall i :: 0 <= i < |Blocks(parse, lines)| ==> Blocks(parse, lines)[i] != []
    decreases |lines|
  {
    if lines != [] {
      var n := RunLength(lines);
      if n == 0 { BlocksNotEmpty(parse, lines[1..]); } else { BlocksNotEmpty(parse, lines[n..]); }
    }
  }

  // ---------- Conservation ----------

  predicate Conserved(c: Counts) {
    && (forall f | f in c.self :: f in c.inclusive && c.self[f] <= c.inclusive[f])
    && (forall f | f in c.inclusive :: c.inclusive[f] <= c.samples)
  }

  ghost predicate Balanced(c: Counts) { Total(c.self) == c.samples && Total(c.categories) == c.samples }

  lemma BumpedTotal(m: map<Text, nat>, k: Text)
    ensures Total(Bumped(m, k)) == Total(m) + 1
  {
    if k in m { TotalUpdate(m, k, m[k] + 1); } else { TotalInsert(m, k, 1); }
  }

  lemma AddedConserves(categorize: Categorizer, c: Counts, frames: seq<Text>)
    requires Conserved(c) && Balanced(c)
    ensures Conserved(Added(categorize, c, frames)) && Balanced(Added(categorize, c, frames))
  {
    if frames != [] {
      BumpedTotal(c.self, frames[0]);
      BumpedTotal(c.categories, categorize(frames[0]));
      assert frames[0] in Members(frames);
    }
  }

  lemma {:induction false} FoldConserves(categorize: Categorizer, c: Counts, blocks: seq<seq<Text>>)
    requires Conserved(c) && Balanced(c)
    ensures Conserved(Fold(categorize, c, blocks)) && Balanced(Fold(categorize, c, blocks))
    decreases |blocks|
  {
    hide Added, Conserved, Balanced;
    if blocks != [] {
      AddedConserves(categorize, c, blocks[0]);
      FoldConserves(categorize, Added(categorize, c, blocks[0]), blocks[1..]);
    }
  }

  /** For every input, self counts and category counts each sum to the number of samples, and
      a function's inclusive count lies between its self count and that number. */
  lemma ReportConserves(parse: FrameParser, categorize: Categorizer, lines: seq<Text>)
    ensures var c := Fold(categorize, NOTHING, Blocks(parse, lines)); Conserved(c) && Balanced(c)
  {
    assert NOTHING.self == map[] && NOTHING.categories == map[];
    FoldConserves(categorize, NOTHING, Blocks(parse, lines));
  }

  // ---------- Exact counts ----------

  function Chains(keep: seq<Text> -> bool, blocks: seq<seq<Text>>): nat {
    if blocks == [] then 0 else (if keep(blocks[0]) then 1 else 0) + Chains(keep, blocks[1..])
  }

  function LedBy(f: Text): seq<Text> -> bool { b => b != [] && b[0] == f }

  function Through(f: Text): seq<Text> -> bool { b => f in Members(b) }

  function InCategory(categorize: Categorizer, k: Text): seq<Text> -> bool { b => b != [] && categorize(b[0]) == k }

  lemma {:induction false} FoldCounts(categorize: Categorizer, c: Counts, blocks: seq<seq<Text>>, f: Text)
    requires forall i :: 0 <= i < |blocks| ==> blocks[i] != []
    ensures var r := Fold(categorize, c, blocks);
            && r.samples == c.samples + |blocks|
            && CountOf(r.self, f) == CountOf(c.self, f) + Chains(LedBy(f), blocks)
            && CountOf(r.inclusive, f) == CountOf(c.inclusive, f) + Chains(Through(f), blocks)
            && CountOf(r.categories, f) == CountOf(c.categories, f) + Chains(InCategory(categorize, f), blocks)
    decreases |blocks|
  {
    if blocks != [] {
      hide Members;
      FoldCounts(categorize, Added(categorize, c, blocks[0]), blocks[1..], f);
    }
  }

  /** The counts are exact: one sample a chain; self, inclusive and category counts are the
      numbers of chains led by the function, passing through it, and led by the category. */
  lemma ReportIsExact(parse: FrameParser, categorize: Categorizer, lines: seq<Text>, f: Text)
    ensures var blocks := Blocks(parse, lines);
            var r := Fold(categorize, NOTHING, blocks);
            && r.samples == |blocks|
            && CountOf(r.self, f) == Chains(LedBy(f), blocks)
            && CountOf(r.inclusive, f) == Chains(Through(f), blocks)
            && CountOf(r.categories, f) == Chains(InCategory(categorize, f), blocks)
  {
    BlocksNotEmpty(parse, lines);
    FoldCounts(categorize, NOTHING, Blocks(parse, lines), f);
  }
}
