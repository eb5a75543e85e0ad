/** The decoder as it runs: a cursor over the bytes, and loops that push records. */
module GraphReader {
  import opened Bytes
  import opened Text
  import opened GraphArtifact
  import opened GraphCodec
  import GraphIndexer

  // What a cursor operation may do, given what its parser says of the remaining bytes.
  ghost predicate Follows<T>(spec: Parsed<T>, r: Option<T>, rest: seq<byte>) {
    match spec
    case Parsed(v, t) => r == Some(v) && rest == t
    case Malformed => r == None
  }

  // The parse of a list of which xs has been read already.
  ghost function Resume<T>(xs: seq<T>, p: Parsed<seq<T>>): Parsed<seq<T>> {
    match p
    case Parsed(ys, t) => Parsed(xs + ys, t)
    case Malformed => Malformed
  }

  class Reader {
    const bytes: seq<byte>
    var offset: nat

    ghost predicate Valid()
      reads this
    {
      offset <= |bytes|
    }

    ghost function Rest(): seq<byte>
      requires Valid()
      reads this
    {
      bytes[offset..]
    }

    constructor (bytes: seq<byte>)
      ensures Valid() && Rest() == bytes
    {
      this.bytes := bytes;
      offset := 0;
    }

    method Take(length: nat) returns (r: Option<seq<byte>>)
      requires Valid()
      modifies this`offset
      ensures Valid() && Follows(GraphCodec.Take(old(Rest()), length), r, Rest())
    {
      var end := offset + length;
      if end > |bytes| {
        return None;
      }
      DropTake(bytes, offset, end);
      r := Some(bytes[offset..end]);
      offset := end;
    }

    method Byte() returns (r: Option<byte>)
      requires Valid()
      modifies this`offset
      ensures Valid() && Follows(ParseByte(old(Rest())), r, Rest())
    {
      var bs :- Take(1);
      r := Some(bs[0]);
    }

    method U16() returns (r: Option<u16>)
      requires Valid()
      modifies this`offset
      ensures Valid() && Follows(ParseU16(old(Rest())), r, Rest())
    {
      var bs :- Take(2);
      r := Some(FromU16Le(bs));
    }

    method U32() returns (r: Option<u32>)
      requires Valid()
      modifies this`offset
      ensures Valid() && Follows(ParseU32(old(Rest())), r, Rest())
    {
      var bs :- Take(4);
      r := Some(FromU32Le(bs));
    }

    method Array() returns (r: Option<Digest>)
      requires Valid()
      modifies this`offset
      ensures Valid() && Follows(ParseDigest(old(Rest())), r, Rest())
    {
      r := Take(32);
    }

    method String() returns (r: Option<Str>)
      requires Valid()
      modifies this`offset
      ensures Valid() && Follows(ParseString(old(Rest())), r, Rest())
    {
      hide ParseU32;
      var length :- U32();
      if length > MAX_STRING_BYTES {
        return None;
      }
      var bs :- Take(length);
      if !ValidUtf8(bs) {
        return None;
      }
      r := Some(bs);
    }

    method ReadSpan() returns (r: Option<Span>)
      requires Valid()
      modifies this`offset
      ensures Valid() && Follows(ParseSpan(old(Rest())), r, Rest())
    {
      hide ParseU32;
      var startLine :- U32();
      var endLine :- U32();
      var startByte :- U32();
      var endByte :- U32();
      r := Some(Span(startLine, endLine, startByte, endByte));
    }

    method ReadNode() returns (r: Option<Node>)
      requires Valid()
      modifies this`offset
      ensures Valid() && Follows(ParseNode(old(Rest())), r, Rest())
    {
      hide ParseDigest, ParseString, ParseSpan;
      var id :- Array();
      var repository :- String();
      var revision :- String();
      var path :- String();
      var span :- ReadSpan();
      var symbol :- String();
      var kind :- String();
      r := Some(Node(id, repository, revision, path, span, symbol, kind));
    }

    method ReadEdge(source: Digest) returns (r: Option<Edge>)
      requires Valid()
      modifies this`offset
      ensures Valid() && Follows(ParseEdge(old(Rest()), source), r, Rest())
    {
      hide ParseByte, ParseDigest, ParseString, ParseSpan;
      var target :- Array();
      var node :- Array();
      var span :- ReadSpan();
      var relation :- String();
      var extractor :- String();
      var confidence :- Byte();
      var flag :- Byte();
      if flag > 1 {
        return None;
      }
      r := Some(Edge(source, target, Evidence(node, span), relation, extractor, confidence, flag == 1));
    }

    method ReadNodes(count: nat) returns (r: Option<seq<Node>>)
      requires Valid()
      modifies this`offset
      ensures Valid() && Follows(ParseNodes(old(Rest()), count), r, Rest())
    {
      hide ParseNode;
      var nodes: seq<Node> := [];
      ResumeNone(ParseNodes(Rest(), count));
      for i := 0 to count
        invariant Valid() && |nodes| == i
        invariant ParseNodes(old(Rest()), count) == Resume(nodes, ParseAll(ParseNode, Rest(), count - i))
      {
        ResumeStep(ParseNode, nodes, Rest(), count - i);
        var node :- ReadNode();
        nodes := nodes + [node];
      }
      assert nodes + [] == nodes;
      r := Some(nodes);
    }

    method ReadNumbers(count: nat, bound: nat) returns (r: Option<seq<u32>>)
      requires Valid()
      modifies this`offset
      ensures Valid() && Follows(ParseNumbers(old(Rest()), count, bound), r, Rest())
    {
      hide ParseU32;
      var numbers: seq<u32> := [];
      ResumeNone(ParseNumbers(Rest(), count, bound));
      for i := 0 to count
        invariant Valid() && |numbers| == i
        invariant ParseNumbers(old(Rest()), count, bound) == Resume(numbers, ParseNumbers(Rest(), count - i, bound))
      {
        ResumeNumbers(numbers, Rest(), count - i, bound);
        var x :- U32();
        if x > bound {
          return None;
        }
        numbers := numbers + [x];
      }
      assert numbers + [] == numbers;
      r := Some(numbers);
    }

    /** Edge records, their sources taken from the node table as the offsets direct. */
    method ReadEdges(nodes: seq<Node>, offsets: seq<u32>) returns (r: Option<seq<Edge>>)
      requires Valid()
      requires |offsets| == |nodes| + 1 && NonDecreasing(offsets)
      modifies this`offset
      ensures Valid() && Follows(ParseRows(old(Rest()), nodes, offsets, 0), r, Rest())
    {
      hide ParseEdge, ParseRow;
      var edges: seq<Edge> := [];
      ResumeNone(ParseRows(Rest(), nodes, offsets, 0));
      for row := 0 to |nodes|
        invariant Valid()
        invariant ParseRows(old(Rest()), nodes, offsets, 0) == Resume(edges, ParseRows(Rest(), nodes, offsets, row))
      {
        ghost var before := edges;
        var own :- ReadRow(nodes[row].id, offsets[row + 1] - offsets[row]);
        edges := edges + own;
        ResumeRows(before, own, Rest(), ParseRows(Rest(), nodes, offsets, row + 1));
      }
      assert edges + [] == edges;
      r := Some(edges);
    }

    /** The inner loop: the edge records of one row. */
    method ReadRow(source: Digest, count: nat) returns (r: Option<seq<Edge>>)
      requires Valid()
      modifies this`offset
      ensures Valid() && Follows(ParseRow(old(Rest()), source, count), r, Rest())
    {
      hide ParseEdge;
      var own: seq<Edge> := [];
      ghost var start := Rest();
      ResumeNone(ParseRow(start, source, count));
      for j := 0 to count
        invariant Valid()
        invariant ParseRow(start, source, count) == Resume(own, ParseAll(EdgeParser(source), Rest(), count - j))
      {
        ResumeStep(EdgeParser(source), own, Rest(), count - j);
        var edge :- ReadEdge(source);
        own := own + [edge];
      }
      assert own + [] == own;
      r := Some(own);
    }

    /** `decode_reverse_index`. */
    method ReadReverse(nodeCount: nat, edgeCount: nat) returns (r: Option<(seq<u32>, seq<u32>)>)
      requires Valid()
      modifies this`offset
      ensures Valid() && Follows(ParseReverse(old(Rest()), nodeCount, edgeCount), r, Rest())
    {
      hide ParseNumbers;
      var offsets :- ReadNumbers(nodeCount + 1, edgeCount);
      if !Delimits(offsets, edgeCount) {
        return None;
      }
      var indexes :- ReadNumbers(edgeCount, edgeCount);
      r := Some((offsets, indexes));
    }

    method ReadBody() returns (r: Option<Graph>)
      requires Valid()
      modifies this`offset
      ensures Valid() && r == ParseBody(old(Rest()))
    {
      hide ParseU32, ParseDigest, ParseNodes, ParseNumbers, ParseRows, ParseReverse;
      var nodeCount :- U32();
      if nodeCount > MAX_NODES {
        return None;
      }
      var edgeCount :- U32();
      if edgeCount > MAX_EDGES {
        return None;
      }
      var corpus :- Array();
      var nodes :- ReadNodes(nodeCount);
      var forward :- ReadNumbers(nodeCount + 1, edgeCount);
      if !Delimits(forward, edgeCount) {
        return None;
      }
      var edges :- ReadEdges(nodes, forward);
      var reverse :- ReadReverse(nodeCount, edgeCount);
      if offset != |bytes| {
        return None;
      }
      r := Some(Graph(corpus, nodes, edges, forward, reverse.0, reverse.1));
    }
  }

  lemma ResumeNone<T>(p: Parsed<seq<T>>)
    ensures Resume([], p) == p
  {
    if p.Parsed? { assert [] + p.value == p.value; }
  }

  lemma ResumeStep<T>(parse: seq<byte> -> Parsed<T>, xs: seq<T>, s: seq<byte>, count: nat)
    requires count > 0
    ensures Resume(xs, ParseAll(parse, s, count))
         == match parse(s)
            case Malformed => Malformed
            case Parsed(x, t) => Resume(xs + [x], ParseAll(parse, t, count - 1))
  {
    if parse(s).Parsed? && ParseAll(parse, parse(s).rest, count - 1).Parsed? {
      var ys := ParseAll(parse, parse(s).rest, count - 1).value;
      assert xs + ([parse(s).value] + ys) == xs + [parse(s).value] + ys;
    }
  }

  lemma ResumeNumbers(xs: seq<u32>, s: seq<byte>, count: nat, bound: nat)
    requires count > 0
    ensures Resume(xs, ParseNumbers(s, count, bound))
         == match ParseU32(s)
            case Malformed => Malformed
            case Parsed(x, t) =>
              if x > bound then Malformed else Resume(xs + [x], ParseNumbers(t, count - 1, bound))
  {
    hide ParseU32;
    var p := ParseU32(s);
    if p.Parsed? && p.value <= bound && ParseNumbers(p.rest, count - 1, bound).Parsed? {
      var ys := ParseNumbers(p.rest, count - 1, bound).value;
      assert xs + ([p.value] + ys) == xs + [p.value] + ys;
    }
  }

  lemma ResumeRows(before: seq<Edge>, own: seq<Edge>, s: seq<byte>, others: Parsed<seq<Edge>>)
    ensures Resume(before, Resume(own, others)) == Resume(before + own, others)
  {
    if others.Parsed? {
      assert before + (own + others.value) == before + own + others.value;
    }
  }

  /** `GraphArtifact::decode`. */
  method DecodeArtifact(h: Hash, bytes: seq<byte>) returns (r: Option<Graph>)
    ensures r == Decode(h, bytes)
  {
    hide ParseBody, ParseU16, GraphArtifact.Valid;
    if |bytes| < MIN_ARTIFACT_BYTES {
      return None;
    }
    var payload := bytes[..|bytes| - 32];
    if h(payload) != bytes[|bytes| - 32..] {
      return None;
    }
    var reader := new Reader(payload);
    var magic := reader.Take(8);
    if magic != Some(MAGIC) {
      return None;
    }
    var major :- reader.U16();
    var minor :- reader.U16();
    if major != SCHEMA_MAJOR {
      return None;
    }
    var g :- reader.ReadBody();
    var valid := GraphIndexer.Validate(h, g);
    r := if valid then Some(g) else None;
  }
}
