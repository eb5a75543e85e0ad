/** The wire format of the graph artifact. Printers take the bytes that follow
    (`k`), parsers return the bytes left over, so that each parser's contract is
    that it undoes its printer. */
module GraphCodec {
  import opened Bytes
  import opened Text
  import opened Csr
  import opened GraphArtifact

  const MAGIC: seq<byte> := [0x56, 0x45, 0x53, 0x43, 0x47, 0x52, 0x50, 0x48]  // b"VESCGRPH"
  const SCHEMA_MAJOR: u16 := 1
  const SCHEMA_MINOR: u16 := 0
  const MIN_ARTIFACT_BYTES: nat := 8 + 2 + 2 + 4 + 4 + 32 + 4 + 4 + 32

  datatype Parsed<+T> = Malformed | Parsed(value: T, rest: seq<byte>) {
    predicate IsFailure() { Malformed? }

    function PropagateFailure<U>(): Parsed<U>
      requires Malformed?
    {
      Malformed
    }

    function Extract(): (T, seq<byte>)
      requires Parsed?
    {
      (value, rest)
    }
  }

  // ---------- Primitives ----------

  /** `Reader::take`. */
  function Take(s: seq<byte>, n: nat): (r: Parsed<seq<byte>>)
    ensures r.Parsed? ==> |r.value| == n && s == r.value + r.rest
  {
    if |s| < n then Malformed else Parsed(s[..n], s[n..])
  }

  lemma TakeRoundTrip(bs: seq<byte>, k: seq<byte>)
    ensures Take(bs + k, |bs|) == Parsed(bs, k)
  {
  }

  function PutByte(x: byte, k: seq<byte>): seq<byte> { [x] + k }

  function PutU16(x: u16, k: seq<byte>): seq<byte> { U16Le(x) + k }

  function PutU32(x: u32, k: seq<byte>): seq<byte> { U32Le(x) + k }

  function PutDigest(d: Digest, k: seq<byte>): seq<byte> { d + k }

  /** A length, then the bytes. Only strings that satisfy SmallText are ever written. */
  function PutString(s: Str, k: seq<byte>): seq<byte> {
    PutU32(Min(|s|, U32_MAX), s + k)
  }

  function ParseByte(s: seq<byte>): (r: Parsed<byte>)
    ensures r.Parsed? ==> s == PutByte(r.value, r.rest)
  {
    var (bs, t) :- Take(s, 1);
    assert bs == [bs[0]];
    Parsed(bs[0], t)
  }

  function ParseU16(s: seq<byte>): (r: Parsed<u16>)
    ensures r.Parsed? ==> s == PutU16(r.value, r.rest)
  {
    var (bs, t) :- Take(s, 2);
    Parsed(FromU16Le(bs), t)
  }

  function ParseU32(s: seq<byte>): (r: Parsed<u32>)
    ensures r.Parsed? ==> s == PutU32(r.value, r.rest)
  {
    var (bs, t) :- Take(s, 4);
    Parsed(FromU32Le(bs), t)
  }

  function ParseDigest(s: seq<byte>): (r: Parsed<Digest>)
    ensures r.Parsed? ==> s == PutDigest(r.value, r.rest)
  {
    Take(s, 32)
  }

  function ParseString(s: seq<byte>): (r: Parsed<Str>)
    ensures r.Parsed? ==> SmallText(r.value) && s == PutString(r.value, r.rest)
  {
    var (n, t) :- ParseU32(s);
    hide PutU32, ParseU32;
    if n > MAX_STRING_BYTES then Malformed
    else
      var (bs, u) :- Take(t, n);
      if ValidUtf8(bs) then Parsed(bs, u) else Malformed
  }

  lemma ByteRoundTrip(x: byte, k: seq<byte>)
    ensures ParseByte(PutByte(x, k)) == Parsed(x, k)
  {
    TakeRoundTrip([x], k);
  }

  lemma U16RoundTrip(x: u16, k: seq<byte>)
    ensures ParseU16(PutU16(x, k)) == Parsed(x, k)
  {
    TakeRoundTrip(U16Le(x), k);
    U16LeInverse(x);
  }

  lemma U32RoundTrip(x: u32, k: seq<byte>)
    ensures ParseU32(PutU32(x, k)) == Parsed(x, k)
  {
    TakeRoundTrip(U32Le(x), k);
    U32LeInverse(x);
  }

  lemma DigestRoundTrip(d: Digest, k: seq<byte>)
    ensures ParseDigest(PutDigest(d, k)) == Parsed(d, k)
  {
    TakeRoundTrip(d, k);
  }

  lemma StringRoundTrip(s: Str, k: seq<byte>)
    requires SmallText(s)
    ensures ParseString(PutString(s, k)) == Parsed(s, k)
  {
    hide ParseU32, PutU32;
    U32RoundTrip(|s|, s + k);
    TakeRoundTrip(s, k);
  }

  // ---------- Spans, nodes, edges ----------

  function PutSpan(s: Span, k: seq<byte>): seq<byte> {
    PutU32(s.startLine, PutU32(s.endLine, PutU32(s.startByte, PutU32(s.endByte, k))))
  }

  function ParseSpan(s: seq<byte>): (r: Parsed<Span>)
    ensures r.Parsed? ==> s == PutSpan(r.value, r.rest)
  {
    hide ParseU32, PutU32;
    var (a, s1) :- ParseU32(s);
    var (b, s2) :- ParseU32(s1);
    var (c, s3) :- ParseU32(s2);
    var (d, s4) :- ParseU32(s3);
    Parsed(Span(a, b, c, d), s4)
  }

  lemma SpanRoundTrip(x: Span, k: seq<byte>)
    ensures ParseSpan(PutSpan(x, k)) == Parsed(x, k)
  {
    hide ParseU32, PutU32;
    var k3 := PutU32(x.endByte, k);
    var k2 := PutU32(x.startByte, k3);
    U32RoundTrip(x.startLine, PutU32(x.endLine, k2));
    U32RoundTrip(x.endLine, k2);
    U32RoundTrip(x.startByte, k3);
    U32RoundTrip(x.endByte, k);
  }

  predicate SmallNode(n: Node) {
    SmallText(n.repository) && SmallText(n.revision) && SmallText(n.path) && SmallText(n.symbol) && SmallText(n.kind)
  }

  predicate SmallEdge(e: Edge) { SmallText(e.relation) && SmallText(e.extractor) }

  function PutNode(n: Node, k: seq<byte>): seq<byte> {
    PutDigest(n.id, PutString(n.repository, PutString(n.revision, PutString(n.path,
      PutSpan(n.span, PutString(n.symbol, PutString(n.kind, k)))))))
  }

  function ParseNode(s: seq<byte>): (r: Parsed<Node>)
  {
    var (id, s1) :- ParseDigest(s);
    var (repository, s2) :- ParseString(s1);
    var (revision, s3) :- ParseString(s2);
    var (path, s4) :- ParseString(s3);
    var (span, s5) :- ParseSpan(s4);
    var (symbol, s6) :- ParseString(s5);
    var (kind, s7) :- ParseString(s6);
    Parsed(Node(id, repository, revision, path, span, symbol, kind), s7)
  }

  lemma NodeSound(s: seq<byte>)
    requires ParseNode(s).Parsed?
    ensures SmallNode(ParseNode(s).value) && s == PutNode(ParseNode(s).value, ParseNode(s).rest)
  {
    hide ParseDigest, PutDigest, ParseString, PutString, ParseSpan, PutSpan;
  }

  lemma NodeRoundTrip(n: Node, k: seq<byte>)
    requires SmallNode(n)
    ensures ParseNode(PutNode(n, k)) == Parsed(n, k)
  {
    hide ParseByte, PutByte, ParseDigest, PutDigest, ParseString, PutString, ParseSpan, PutSpan;
    var k6 := PutString(n.kind, k);
    var k5 := PutString(n.symbol, k6);
    var k4 := PutSpan(n.span, k5);
    var k3 := PutString(n.path, k4);
    var k2 := PutString(n.revision, k3);
    var k1 := PutString(n.repository, k2);
    DigestRoundTrip(n.id, k1);
    StringRoundTrip(n.repository, k2);
    StringRoundTrip(n.revision, k3);
    StringRoundTrip(n.path, k4);
    SpanRoundTrip(n.span, k5);
    StringRoundTrip(n.symbol, k6);
    StringRoundTrip(n.kind, k);
  }

  /** An edge record. The source is not stored. */
  function PutEdge(e: Edge, k: seq<byte>): seq<byte> {
    PutDigest(e.target, PutDigest(e.evidence.node, PutSpan(e.evidence.span,
      PutString(e.relation, PutString(e.extractor,
        PutByte(e.confidence, PutByte(if e.verified then 1 else 0, k)))))))
  }

  /** `read_edge`. */
  function ParseEdge(s: seq<byte>, source: Digest): (r: Parsed<Edge>)
  {
    var (target, s1) :- ParseDigest(s);
    var (node, s2) :- ParseDigest(s1);
    var (span, s3) :- ParseSpan(s2);
    var (relation, s4) :- ParseString(s3);
    var (extractor, s5) :- ParseString(s4);
    var (confidence, s6) :- ParseByte(s5);
    var (flag, s7) :- ParseByte(s6);
    if flag > 1 then Malformed
    else Parsed(Edge(source, target, Evidence(node, span), relation, extractor, confidence, flag == 1), s7)
  }

  lemma EdgeSound(s: seq<byte>, source: Digest)
    requires ParseEdge(s, source).Parsed?
    ensures var r := ParseEdge(s, source);
            r.value.source == source && SmallEdge(r.value) && s == PutEdge(r.value, r.rest)
  {
    hide ParseByte, PutByte, ParseDigest, PutDigest, ParseString, PutString, ParseSpan, PutSpan;
  }

  lemma EdgeRoundTrip(e: Edge, k: seq<byte>)
    requires SmallEdge(e)
    ensures ParseEdge(PutEdge(e, k), e.source) == Parsed(e, k)
  {
    hide ParseByte, PutByte, ParseDigest, PutDigest, ParseString, PutString, ParseSpan, PutSpan;
    var flag := if e.verified then 1 else 0;
    var k6 := PutByte(flag, k);
    var k5 := PutByte(e.confidence, k6);
    var k4 := PutString(e.extractor, k5);
    var k3 := PutString(e.relation, k4);
    var k2 := PutSpan(e.evidence.span, k3);
    DigestRoundTrip(e.target, PutDigest(e.evidence.node, k2));
    DigestRoundTrip(e.evidence.node, k2);
    SpanRoundTrip(e.evidence.span, k3);
    StringRoundTrip(e.relation, k4);
    StringRoundTrip(e.extractor, k5);
    ByteRoundTrip(e.confidence, k6);
    ByteRoundTrip(flag, k);
  }

  // ---------- Lists ----------

  predicate SmallNodes(ns: seq<Node>) { forall i | 0 <= i < |ns| :: SmallNode(ns[i]) }

  predicate SmallEdges(es: seq<Edge>) { forall i | 0 <= i < |es| :: SmallEdge(es[i]) }

  function PutNodes(ns: seq<Node>, k: seq<byte>): seq<byte> {
    if ns == [] then k else PutNode(ns[0], PutNodes(ns[1..], k))
  }

  /** `count` records, one after the other. */
  function ParseAll<T>(parse: seq<byte> -> Parsed<T>, s: seq<byte>, count: nat): (r: Parsed<seq<T>>)
    ensures r.Parsed? ==> |r.value| == count
    decreases count
  {
    if count == 0 then Parsed([], s)
    else
      var (x, t) :- parse(s);
      var (xs, u) :- ParseAll(parse, t, count - 1);
      Parsed([x] + xs, u)
  }

  function ParseNodes(s: seq<byte>, count: nat): (r: Parsed<seq<Node>>)
    ensures r.Parsed? ==> |r.value| == count
  {
    ParseAll(ParseNode, s, count)
  }

  lemma {:induction false} NodesSound(s: seq<byte>, count: nat)
    requires ParseNodes(s, count).Parsed?
    ensures var r := ParseNodes(s, count); SmallNodes(r.value) && s == PutNodes(r.value, r.rest)
    decreases count
  {
    hide ParseNode, PutNode;
    if count > 0 {
      NodeSound(s);
      NodesSound(ParseNode(s).rest, count - 1);
    }
  }

  lemma {:induction false} NodesRoundTrip(ns: seq<Node>, k: seq<byte>)
    requires SmallNodes(ns)
    ensures ParseNodes(PutNodes(ns, k), |ns|) == Parsed(ns, k)
  {
    hide ParseNode, PutNode;
    if ns != [] {
      NodeRoundTrip(ns[0], PutNodes(ns[1..], k));
      NodesRoundTrip(ns[1..], k);
      assert ns == [ns[0]] + ns[1..];
    }
  }

  function PutNumbers(xs: seq<u32>, k: seq<byte>): (r: seq<byte>)
    ensures |r| == 4 * |xs| + |k|
  {
    if xs == [] then k else PutU32(xs[0], PutNumbers(xs[1..], k))
  }

  predicate AtMost(xs: seq<u32>, bound: nat) { forall i | 0 <= i < |xs| :: xs[i] <= bound }

  /** `count` numbers, each at most `bound`. */
  function ParseNumbers(s: seq<byte>, count: nat, bound: nat): (r: Parsed<seq<u32>>)
    ensures r.Parsed? ==> |r.value| == count && AtMost(r.value, bound)
  {
    if count == 0 then Parsed([], s)
    else
      var (x, t) :- ParseU32(s);
      if x > bound then Malformed
      else
        var (xs, u) :- ParseNumbers(t, count - 1, bound);
        Parsed([x] + xs, u)
  }

  lemma {:induction false} NumbersSound(s: seq<byte>, count: nat, bound: nat)
    requires ParseNumbers(s, count, bound).Parsed?
    ensures var r := ParseNumbers(s, count, bound); s == PutNumbers(r.value, r.rest)
    decreases count
  {
    hide PutU32;
    if count > 0 { NumbersSound(ParseU32(s).rest, count - 1, bound); }
  }

  lemma {:induction false} NumbersRoundTrip(xs: seq<u32>, bound: nat, k: seq<byte>)
    requires AtMost(xs, bound)
    ensures ParseNumbers(PutNumbers(xs, k), |xs|, bound) == Parsed(xs, k)
  {
    hide ParseU32, PutU32;
    if xs != [] {
      U32RoundTrip(xs[0], PutNumbers(xs[1..], k));
      NumbersRoundTrip(xs[1..], bound, k);
      assert xs == [xs[0]] + xs[1..];
    }
  }

  function PutEdges(es: seq<Edge>, k: seq<byte>): seq<byte> {
    if es == [] then k else PutEdge(es[0], PutEdges(es[1..], k))
  }

  function EdgeParser(source: Digest): seq<byte> -> Parsed<Edge> {
    (s: seq<byte>) => ParseEdge(s, source)
  }

  /** The edges of one node. */
  function ParseRow(s: seq<byte>, source: Digest, count: nat): (r: Parsed<seq<Edge>>)
    ensures r.Parsed? ==> |r.value| == count
  {
    ParseAll(EdgeParser(source), s, count)
  }

  predicate Delimits(offsets: seq<u32>, total: nat) {
    && |offsets| > 0 && offsets[0] == 0 && offsets[|offsets| - 1] == total
    && forall i | 0 < i < |offsets| :: offsets[i - 1] <= offsets[i]
  }

  predicate NonDecreasing(offsets: seq<u32>) { forall i | 0 < i < |offsets| :: offsets[i - 1] <= offsets[i] }

  /** The edges of nodes `row`, `row + 1`, ...: sources come from the node table alone. */
  function ParseRows(s: seq<byte>, nodes: seq<Node>, offsets: seq<u32>, row: nat): (r: Parsed<seq<Edge>>)
    requires |offsets| == |nodes| + 1 && row <= |nodes| && NonDecreasing(offsets)
    decreases |nodes| - row
  {
    if row == |nodes| then Parsed([], s)
    else
      var (es, t) :- ParseRow(s, nodes[row].id, offsets[row + 1] - offsets[row]);
      var (fs, u) :- ParseRows(t, nodes, offsets, row + 1);
      Parsed(es + fs, u)
  }

  lemma {:induction false} PutEdgesAppend(es: seq<Edge>, fs: seq<Edge>, k: seq<byte>)
    ensures PutEdges(es + fs, k) == PutEdges(es, PutEdges(fs, k))
  {
    hide PutEdge;
    if es == [] {
      assert es + fs == fs;
    } else {
      PutEdgesAppend(es[1..], fs, k);
      assert (es + fs)[1..] == es[1..] + fs;
    }
  }

  lemma {:induction false} RowSound(s: seq<byte>, source: Digest, count: nat)
    requires ParseRow(s, source, count).Parsed?
    ensures var r := ParseRow(s, source, count); SmallEdges(r.value) && s == PutEdges(r.value, r.rest)
    decreases count
  {
    hide ParseEdge, PutEdge;
    if count > 0 {
      EdgeSound(s, source);
      RowSound(ParseEdge(s, source).rest, source, count - 1);
    }
  }

  lemma {:induction false} RowsSound(s: seq<byte>, nodes: seq<Node>, offsets: seq<u32>, row: nat)
    requires |offsets| == |nodes| + 1 && row <= |nodes| && NonDecreasing(offsets)
    requires ParseRows(s, nodes, offsets, row).Parsed?
    ensures var r := ParseRows(s, nodes, offsets, row);
            && SmallEdges(r.value) && s == PutEdges(r.value, r.rest)
            && |r.value| + offsets[row] as int == offsets[|nodes|]
    decreases |nodes| - row
  {
    hide ParseRow, PutEdges;
    if row == |nodes| {
      PutNoEdges(s);
    } else {
      var first := ParseRow(s, nodes[row].id, offsets[row + 1] - offsets[row]);
      RowSound(s, nodes[row].id, offsets[row + 1] - offsets[row]);
      RowsSound(first.rest, nodes, offsets, row + 1);
      var others := ParseRows(first.rest, nodes, offsets, row + 1);
      PutEdgesAppend(first.value, others.value, others.rest);
    }
  }

  lemma PutNoEdges(k: seq<byte>)
    ensures PutEdges([], k) == k
  {
  }

  lemma {:induction false} RowRoundTrip(es: seq<Edge>, source: Digest, count: nat, k: seq<byte>)
    requires SmallEdges(es) && count <= |es|
    requires forall p :: 0 <= p < count ==> es[p].source == source
    ensures ParseRow(PutEdges(es, k), source, count) == Parsed(es[..count], PutEdges(es[count..], k))
  {
    hide ParseEdge, PutEdge;
    if count > 0 {
      var rest := PutEdges(es[1..], k);
      EdgeRoundTrip(es[0], rest);
      RowRoundTrip(es[1..], source, count - 1, k);
      assert PutEdges(es, k) == PutEdge(es[0], rest);
      assert EdgeParser(source)(PutEdges(es, k)) == Parsed(es[0], rest);
      assert es[..count] == [es[0]] + es[1..][..count - 1];
      assert es[1..][count - 1..] == es[count..];
    }
  }

  /** Row i of the offsets holds exactly the edges whose source is node i. */
  predicate RowsHold(nodes: seq<Node>, edges: seq<Edge>, offsets: seq<u32>) {
    && |offsets| == |nodes| + 1 && Delimits(offsets, |edges|)
    && (forall i | 0 <= i <= |nodes| :: offsets[i] <= |edges|)
    && (forall i, p | 0 <= i < |nodes| && offsets[i] <= p < offsets[i + 1] :: edges[p].source == nodes[i].id)
  }

  lemma {:induction false} RowsRoundTrip(nodes: seq<Node>, edges: seq<Edge>, offsets: seq<u32>, row: nat, k: seq<byte>)
    requires RowsHold(nodes, edges, offsets) && SmallEdges(edges) && row <= |nodes|
    ensures ParseRows(PutEdges(edges[offsets[row]..], k), nodes, offsets, row) == Parsed(edges[offsets[row]..], k)
    decreases |nodes| - row
  {
    hide ParseRow, PutEdges;
    if row == |nodes| {
      PutNoEdges(k);
      assert edges[offsets[row]..] == [];
    } else {
      var es := edges[offsets[row]..];
      var count := offsets[row + 1] - offsets[row];
      RowRoundTrip(es, nodes[row].id, count, k);
      RowsRoundTrip(nodes, edges, offsets, row + 1, k);
      assert es[count..] == edges[offsets[row + 1]..];
      assert es == es[..count] + es[count..];
    }
  }

  // ---------- The payload ----------

  predicate Encodable(g: Graph) {
    |g.nodes| <= U32_MAX && |g.edges| <= U32_MAX && SmallNodes(g.nodes) && SmallEdges(g.edges)
  }

  function PutBody(g: Graph): seq<byte>
    requires Encodable(g)
  {
    PutU32(|g.nodes|, PutU32(|g.edges|, PutDigest(g.corpus, PutNodes(g.nodes, PutNumbers(g.forwardOffsets,
      PutEdges(g.edges, PutReverse(g.reverseOffsets, g.reverseEdges, [])))))))
  }

  /** `write_payload_to` writes minor version 0; other minors exist only in foreign files. */
  function Payload(g: Graph, minor: u16): seq<byte>
    requires Encodable(g)
  {
    MAGIC + PutU16(SCHEMA_MAJOR, PutU16(minor, PutBody(g)))
  }

  function ParseBody(s: seq<byte>): Option<Graph> {
    var nodeCount := ParseU32(s);
    if nodeCount.Malformed? || nodeCount.value > MAX_NODES then None else
    var edgeCount := ParseU32(nodeCount.rest);
    if edgeCount.Malformed? || edgeCount.value > MAX_EDGES then None else
    var corpus := ParseDigest(edgeCount.rest);
    if corpus.Malformed? then None else
    var nodes := ParseNodes(corpus.rest, nodeCount.value);
    if nodes.Malformed? then None else
    var forward := ParseNumbers(nodes.rest, nodeCount.value + 1, edgeCount.value);
    if forward.Malformed? || !Delimits(forward.value, edgeCount.value) then None else
    var edges := ParseRows(forward.rest, nodes.value, forward.value, 0);
    if edges.Malformed? then None else
    var reverse := ParseReverse(edges.rest, nodeCount.value, edgeCount.value);
    if reverse.Malformed? || reverse.rest != [] then None else
    Some(Graph(corpus.value, nodes.value, edges.value, forward.value, reverse.value.0, reverse.value.1))
  }

  /** `decode_reverse_index`: indexes are only checked against the edge count, inclusively. */
  function ParseReverse(s: seq<byte>, nodeCount: nat, edgeCount: nat): Parsed<(seq<u32>, seq<u32>)> {
    var (offsets, t) :- ParseNumbers(s, nodeCount + 1, edgeCount);
    if !Delimits(offsets, edgeCount) then Malformed
    else
      var (indexes, u) :- ParseNumbers(t, edgeCount, edgeCount);
      Parsed((offsets, indexes), u)
  }

  function PutReverse(offsets: seq<u32>, indexes: seq<u32>, k: seq<byte>): seq<byte> {
    PutNumbers(offsets, PutNumbers(indexes, k))
  }

  lemma ReverseSound(s: seq<byte>, nodeCount: nat, edgeCount: nat)
    requires ParseReverse(s, nodeCount, edgeCount).Parsed?
    ensures var r := ParseReverse(s, nodeCount, edgeCount); s == PutReverse(r.value.0, r.value.1, r.rest)
  {
    hide ParseNumbers, PutNumbers;
    NumbersSound(s, nodeCount + 1, edgeCount);
    NumbersSound(ParseNumbers(s, nodeCount + 1, edgeCount).rest, edgeCount, edgeCount);
  }

  lemma ReverseRoundTrip(offsets: seq<u32>, indexes: seq<u32>, nodeCount: nat, edgeCount: nat, k: seq<byte>)
    requires |offsets| == nodeCount + 1 && Delimits(offsets, edgeCount) && AtMost(offsets, edgeCount)
    requires |indexes| == edgeCount && AtMost(indexes, edgeCount)
    ensures ParseReverse(PutReverse(offsets, indexes, k), nodeCount, edgeCount) == Parsed((offsets, indexes), k)
  {
    hide ParseNumbers, PutNumbers;
    NumbersRoundTrip(offsets, edgeCount, PutNumbers(indexes, k));
    NumbersRoundTrip(indexes, edgeCount, k);
  }

  lemma BodySound(s: seq<byte>)
    requires ParseBody(s).Some?
    ensures Encodable(ParseBody(s).value) && s == PutBody(ParseBody(s).value)
  {
    hide ParseU32, PutU32, ParseDigest, PutDigest, ParseNodes, PutNodes, ParseNumbers, PutNumbers, ParseRows, PutEdges,
         ParseReverse, PutReverse;
    var nodeCount := ParseU32(s);
    var edgeCount := ParseU32(nodeCount.rest);
    var corpus := ParseDigest(edgeCount.rest);
    var nodes := ParseNodes(corpus.rest, nodeCount.value);
    var forward := ParseNumbers(nodes.rest, nodeCount.value + 1, edgeCount.value);
    var edges := ParseRows(forward.rest, nodes.value, forward.value, 0);
    NodesSound(corpus.rest, nodeCount.value);
    NumbersSound(nodes.rest, nodeCount.value + 1, edgeCount.value);
    RowsSound(forward.rest, nodes.value, forward.value, 0);
    ReverseSound(edges.rest, nodeCount.value, edgeCount.value);
  }

  /** What the parser checks on top of the syntax, apart from validity. */
  predicate WireShape(g: Graph) {
    && |g.nodes| <= MAX_NODES && |g.edges| <= MAX_EDGES
    && RowsHold(g.nodes, g.edges, g.forwardOffsets)
    && |g.reverseOffsets| == |g.nodes| + 1 && Delimits(g.reverseOffsets, |g.edges|)
    && AtMost(g.reverseOffsets, |g.edges|)
    && |g.reverseEdges| == |g.edges| && AtMost(g.reverseEdges, |g.edges|)
  }

  lemma BodyRoundTrip(g: Graph)
    requires Encodable(g) && WireShape(g)
    ensures ParseBody(PutBody(g)) == Some(g)
  {
    hide ParseU32, PutU32, ParseDigest, PutDigest, ParseNodes, PutNodes, ParseNumbers, PutNumbers, ParseRows, PutEdges,
         ParseReverse, PutReverse;
    var k4 := PutReverse(g.reverseOffsets, g.reverseEdges, []);
    var k3 := PutEdges(g.edges, k4);
    var k2 := PutNumbers(g.forwardOffsets, k3);
    var k1 := PutNodes(g.nodes, k2);
    U32RoundTrip(|g.nodes|, PutU32(|g.edges|, PutDigest(g.corpus, k1)));
    U32RoundTrip(|g.edges|, PutDigest(g.corpus, k1));
    DigestRoundTrip(g.corpus, k1);
    NodesRoundTrip(g.nodes, k2);
    NumbersRoundTrip(g.forwardOffsets, |g.edges|, k3);
    RowsRoundTrip(g.nodes, g.edges, g.forwardOffsets, 0, k4);
    assert g.edges[0..] == g.edges;
    ReverseRoundTrip(g.reverseOffsets, g.reverseEdges, |g.nodes|, |g.edges|, []);
  }

  /** The schema minor is read and then ignored. */
  function ParsePayload(s: seq<byte>): Option<(u16, Graph)> {
    if |s| < 8 || s[..8] != MAGIC then None else
    var major := ParseU16(s[8..]);
    if major.Malformed? then None else
    var minor := ParseU16(major.rest);
    if minor.Malformed? || major.value != SCHEMA_MAJOR then None else
    var g :- ParseBody(minor.rest);
    Some((minor.value, g))
  }

  lemma PayloadSound(s: seq<byte>)
    requires ParsePayload(s).Some?
    ensures var (minor, g) := ParsePayload(s).value; Encodable(g) && s == Payload(g, minor)
  {
    hide ParseBody, PutBody, PutU16, ParseU16;
    assert s == s[..8] + s[8..];
    BodySound(ParseU16(ParseU16(s[8..]).rest).rest);
  }

  lemma PayloadRoundTrip(g: Graph, minor: u16)
    requires Encodable(g) && WireShape(g)
    ensures ParsePayload(Payload(g, minor)) == Some((minor, g))
  {
    hide ParseBody, PutBody;
    U16RoundTrip(SCHEMA_MAJOR, PutU16(minor, PutBody(g)));
    U16RoundTrip(minor, PutBody(g));
    BodyRoundTrip(g);
    assert Payload(g, minor)[..8] == MAGIC;
    assert Payload(g, minor)[8..] == PutU16(SCHEMA_MAJOR, PutU16(minor, PutBody(g)));
  }

  // ---------- Whole artifacts ----------

  /** `encode`: a valid graph, unless an edge string is too long for the wire. */
  function Encode(h: Hash, g: Graph): Option<seq<byte>> {
    if Valid(h, g) && Encodable(g) then Some(Payload(g, SCHEMA_MINOR) + h(Payload(g, SCHEMA_MINOR))) else None
  }

  /** `decode`. */
  function Decode(h: Hash, bytes: seq<byte>): Option<Graph> {
    if |bytes| < MIN_ARTIFACT_BYTES then None else
    var payload := bytes[..|bytes| - 32];
    if h(payload) != bytes[|bytes| - 32..] then None else
    var parsed :- ParsePayload(payload);
    if Valid(h, parsed.1) then Some(parsed.1) else None
  }

  /** The schema minor stored in a complete artifact. */
  function Minor(bytes: seq<byte>): u16
    requires |bytes| >= 12
  {
    FromU16Le(bytes[10..12])
  }

  lemma ValidHasWireShape(h: Hash, g: Graph)
    requires Valid(h, g)
    ensures WireShape(g) && SmallNodes(g.nodes)
  {
    hide ForwardIndex, ReverseIndex, EdgesOk, RowsHold;
    ForwardHolds(g.nodes, g.edges);
    ReverseDelimits(g.nodes, g.edges);
    forall i | 0 <= i < |g.nodes| ensures SmallNode(g.nodes[i]) { assert NodeOk(h, g.nodes[i]); }
  }

  lemma ForwardHolds(nodes: seq<Node>, edges: seq<Edge>)
    requires ForwardIndex(nodes, edges).Some?
    ensures RowsHold(nodes, edges, ForwardIndex(nodes, edges).value)
  {
    var keys := Indexes(nodes, Sources(edges));
    OffsetsDelimit(keys, |nodes|);
    forall i, p | 0 <= i < |nodes| && Below(keys, i) <= p < Below(keys, i + 1) ensures edges[p].source == nodes[i].id {
      GroupedRow(keys, i, p);
    }
  }

  lemma OffsetsDelimit(keys: seq<nat>, rows: nat)
    requires Bounded(keys, rows) && |keys| <= U32_MAX
    ensures Delimits(Offsets(keys, rows), |keys|)
  {
    BelowEnds(keys, rows);
    forall i | 0 < i <= rows ensures Below(keys, i - 1) <= Below(keys, i) { BelowMonotone(keys, i - 1, i); }
  }

  lemma ReverseDelimits(nodes: seq<Node>, edges: seq<Edge>)
    requires ReverseIndex(nodes, edges).Some?
    ensures var (offsets, positions) := ReverseIndex(nodes, edges).value;
            && |offsets| == |nodes| + 1 && Delimits(offsets, |edges|) && AtMost(offsets, |edges|)
            && |positions| == |edges| && AtMost(positions, |edges|)
  {
    var keys := Indexes(nodes, Targets(edges));
    OffsetsDelimit(keys, |nodes|);
    BelowEnds(keys, |nodes|);
    TransposeLength(keys, |nodes|);
    TransposeInRange(keys, |nodes|);
  }

  lemma ShapeHasOffsets(g: Graph)
    requires WireShape(g)
    ensures |g.forwardOffsets| > 0 && |g.reverseOffsets| > 0
  {
  }

  lemma PayloadLength(g: Graph, minor: u16)
    requires Encodable(g) && |g.forwardOffsets| > 0 && |g.reverseOffsets| > 0
    ensures |Payload(g, minor)| >= MIN_ARTIFACT_BYTES - 32
  {
    hide PutNumbers, PutNodes, PutEdges;
    var k4 := PutReverse(g.reverseOffsets, g.reverseEdges, []);
    PutEdgesLength(g.edges, k4);
    PutNodesLength(g.nodes, PutNumbers(g.forwardOffsets, PutEdges(g.edges, k4)));
  }

  lemma PutEdgeLength(e: Edge, k: seq<byte>)
    ensures |PutEdge(e, k)| >= |k|
  {
  }

  lemma PutNodeLength(n: Node, k: seq<byte>)
    ensures |PutNode(n, k)| >= |k|
  {
  }

  lemma {:induction false} PutEdgesLength(es: seq<Edge>, k: seq<byte>)
    requires SmallEdges(es)
    ensures |PutEdges(es, k)| >= |k|
  {
    hide PutEdge;
    if es != [] {
      PutEdgesLength(es[1..], k);
      PutEdgeLength(es[0], PutEdges(es[1..], k));
    }
  }

  lemma {:induction false} PutNodesLength(ns: seq<Node>, k: seq<byte>)
    requires SmallNodes(ns)
    ensures |PutNodes(ns, k)| >= |k|
  {
    hide PutNode;
    if ns != [] {
      PutNodesLength(ns[1..], k);
      PutNodeLength(ns[0], PutNodes(ns[1..], k));
    }
  }

  /** The file of a graph under a schema minor, which need not be the current one. */
  function FileOf(h: Hash, g: Graph, minor: u16): seq<byte>
    requires Encodable(g)
  {
    Payload(g, minor) + h(Payload(g, minor))
  }

  /** A file of any minor decodes to its graph, edge sources included. */
  lemma AnyMinorDecodes(h: Hash, g: Graph, minor: u16)
    requires Valid(h, g) && Encodable(g)
    ensures Decode(h, FileOf(h, g, minor)) == Some(g)
    ensures |FileOf(h, g, minor)| >= 12 && Minor(FileOf(h, g, minor)) == minor
  {
    hide Payload, ParsePayload, Valid, WireShape;
    var payload, bytes := Payload(g, minor), FileOf(h, g, minor);
    ValidHasWireShape(h, g);
    ShapeHasOffsets(g);
    PayloadLength(g, minor);
    assert bytes[..|bytes| - 32] == payload && bytes[|bytes| - 32..] == h(payload);
    PayloadRoundTrip(g, minor);
    MinorOfPayload(g, minor, h(payload));
  }

  /** Encoding then decoding gives the graph back, edge sources included. */
  lemma DecodeUndoesEncode(h: Hash, g: Graph)
    requires Encode(h, g).Some?
    ensures Decode(h, Encode(h, g).value) == Some(g)
  {
    hide Decode, Valid, Payload;
    AnyMinorDecodes(h, g, SCHEMA_MINOR);
  }

  /** A graph the decoder accepts can be encoded, and to the same bytes exactly when
      the file carries schema minor 0. */
  lemma EncodeUndoesDecode(h: Hash, bytes: seq<byte>)
    requires Decode(h, bytes).Some?
    ensures var again := Encode(h, Decode(h, bytes).value);
            again.Some? && (again.value == bytes <==> Minor(bytes) == SCHEMA_MINOR)
  {
    hide Payload, ParsePayload, Valid;
    var payload := bytes[..|bytes| - 32];
    PayloadSound(payload);
    var (minor, g) := ParsePayload(payload).value;
    assert bytes == payload + bytes[|bytes| - 32..];
    MinorOfPayload(g, minor, h(payload));
    MinorOfPayload(g, SCHEMA_MINOR, h(Payload(g, SCHEMA_MINOR)));
  }

  lemma MinorOfPayload(g: Graph, minor: u16, trailer: seq<byte>)
    requires Encodable(g)
    ensures |Payload(g, minor) + trailer| >= 12 && Minor(Payload(g, minor) + trailer) == minor
  {
    hide PutBody;
    var head := MAGIC + U16Le(SCHEMA_MAJOR);
    assert Payload(g, minor) + trailer == head + U16Le(minor) + (PutBody(g) + trailer);
    assert (Payload(g, minor) + trailer)[10..12] == U16Le(minor);
    U16LeInverse(minor);
  }

  /** Any two accepted files of the same minor that decode alike are the same file. */
  lemma DecodeInjective(h: Hash, a: seq<byte>, b: seq<byte>)
    requires Decode(h, a).Some? && Decode(h, a) == Decode(h, b) && Minor(a) == Minor(b)
    ensures a == b
  {
    hide Payload, ParsePayload, Valid;
    PayloadSound(a[..|a| - 32]);
    PayloadSound(b[..|b| - 32]);
    var (minor, g) := ParsePayload(a[..|a| - 32]).value;
    var (minor', g') := ParsePayload(b[..|b| - 32]).value;
    assert a == a[..|a| - 32] + a[|a| - 32..] && b == b[..|b| - 32] + b[|b| - 32..];
    MinorOfPayload(g, minor, a[|a| - 32..]);
    MinorOfPayload(g', minor', b[|b| - 32..]);
  }

  /** The number parser lets an edge index equal the edge count; no decoded graph has one. */
  lemma IndexAtEdgeCountIsRejectedLater(h: Hash, bytes: seq<byte>, count: u32)
    ensures ParseNumbers(PutNumbers([count], []), 1, count) == Parsed([count], [])
    ensures Decode(h, bytes).Some? ==>
              var g := Decode(h, bytes).value;
              forall p :: 0 <= p < |g.reverseEdges| ==> g.reverseEdges[p] < |g.edges|
  {
    hide PutNumbers, ParseNumbers, ParsePayload, EdgesOk, NodeOk, ForwardIndex;
    NumbersRoundTrip([count], count, []);
    if Decode(h, bytes).Some? {
      var g := Decode(h, bytes).value;
      TransposeInRange(Indexes(g.nodes, Targets(g.edges)), |g.nodes|);
    }
  }
}
