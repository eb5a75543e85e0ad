/** The streaming writer: an underlying writer that may accept any prefix of what it
    is given, and two running digests, of the payload and of the whole artifact. */
module GraphWriter {
  import opened Bytes
  import opened Text
  import opened GraphArtifact
  import opened GraphCodec
  import GraphIndexer

  /** The underlying writer. Each call takes some prefix, or fails. */
  class Sink {
    var out: seq<byte>
    var failed: bool

    constructor ()
      ensures out == [] && !failed
    {
      out := [];
      failed := false;
    }

    method Write(bytes: seq<byte>) returns (written: Option<nat>)
      modifies this
      ensures written.Some? ==> written.value <= |bytes| && out == old(out) + bytes[..written.value]
      ensures written.None? ==> out == old(out)
      ensures failed == (old(failed) || written == None || (bytes != [] && written == Some(0)))
    {
      var error: bool := *;
      if error {
        failed := true;
        return None;
      }
      var accepted: int :| 0 <= accepted <= |bytes|;
      out := out + bytes[..accepted];
      failed := failed || (bytes != [] && accepted == 0);
      written := Some(accepted);
    }

    /** The standard library's `write_all`. */
    method WriteAll(bytes: seq<byte>) returns (ok: bool)
      modifies this
      ensures ok ==> out == old(out) + bytes && failed == old(failed)
      ensures !ok ==> failed
    {
      var rest := bytes;
      while rest != []
        invariant out + rest == old(out) + bytes
        invariant failed == old(failed)
        decreases |rest|
      {
        var written := Write(rest);
        if written.None? || written.value == 0 {
          return false;
        }
        assert rest == rest[..written.value] + rest[written.value..];
        rest := rest[written.value..];
      }
      ok := true;
    }
  }

  /** `GraphDigestWriter`. A running digest is represented by the bytes it has absorbed. */
  class DigestWriter {
    const sink: Sink
    var payloadBytes: seq<byte>
    var artifactBytes: seq<byte>
    ghost const base: seq<byte>

    ghost predicate InStep()
      reads this, sink
    {
      artifactBytes == payloadBytes && sink.out == base + artifactBytes
    }

    constructor (sink: Sink)
      ensures this.sink == sink && base == sink.out
      ensures payloadBytes == [] && InStep()
    {
      this.sink := sink;
      this.base := sink.out;
      payloadBytes := [];
      artifactBytes := [];
    }

    /** Digests exactly the bytes that the underlying writer accepted. */
    method Write(bytes: seq<byte>) returns (written: Option<nat>)
      requires InStep()
      modifies this, sink
      ensures InStep()
      ensures written.Some? ==> written.value <= |bytes| && payloadBytes == old(payloadBytes) + bytes[..written.value]
      ensures sink.failed == (old(sink.failed) || written == None || (bytes != [] && written == Some(0)))
    {
      written := sink.Write(bytes);
      if written.Some? {
        payloadBytes := payloadBytes + bytes[..written.value];
        artifactBytes := artifactBytes + bytes[..written.value];
      }
    }

    /** The standard library's `write_all` over this writer; k is what will follow. */
    method WriteAll(bytes: seq<byte>, ghost k: seq<byte>) returns (ok: bool)
      requires InStep()
      modifies this, sink
      ensures InStep() && (ok || sink.failed)
      ensures ok ==> payloadBytes == old(payloadBytes) + bytes && sink.failed == old(sink.failed)
      ensures ok ==> payloadBytes + k == old(payloadBytes) + (bytes + k)
    {
      var rest := bytes;
      while rest != []
        invariant InStep() && sink.failed == old(sink.failed)
        invariant payloadBytes + rest == old(payloadBytes) + bytes
        decreases |rest|
      {
        var written := Write(rest);
        if written.None? || written.value == 0 {
          return false;
        }
        assert rest == rest[..written.value] + rest[written.value..];
        rest := rest[written.value..];
      }
      assert payloadBytes == old(payloadBytes) + bytes;
      ok := true;
    }

    method PutU32(x: u32, ghost k: seq<byte>) returns (ok: bool)
      requires InStep()
      modifies this, sink
      ensures InStep() && (ok || sink.failed)
      ensures ok ==> payloadBytes + k == old(payloadBytes) + GraphCodec.PutU32(x, k)
    {
      ok := WriteAll(U32Le(x), k);
    }

    method PutString(s: Str, ghost k: seq<byte>) returns (ok: bool)
      requires InStep()
      modifies this, sink
      ensures InStep() && (ok || sink.failed || !SmallText(s))
      ensures ok ==> SmallText(s) && payloadBytes + k == old(payloadBytes) + GraphCodec.PutString(s, k)
    {
      hide GraphCodec.PutU32;
      if |s| > MAX_STRING_BYTES {
        return false;
      }
      ok := PutU32(|s|, s + k);
      if ok {
        ok := WriteAll(s, k);
      }
    }

    method PutSpan(s: Span, ghost k: seq<byte>) returns (ok: bool)
      requires InStep()
      modifies this, sink
      ensures InStep() && (ok || sink.failed)
      ensures ok ==> payloadBytes + k == old(payloadBytes) + GraphCodec.PutSpan(s, k)
    {
      hide GraphCodec.PutU32;
      ghost var k3 := GraphCodec.PutU32(s.endByte, k);
      ghost var k2 := GraphCodec.PutU32(s.startByte, k3);
      ghost var k1 := GraphCodec.PutU32(s.endLine, k2);
      ok := PutU32(s.startLine, k1);
      if ok { ok := PutU32(s.endLine, k2); }
      if ok { ok := PutU32(s.startByte, k3); }
      if ok { ok := PutU32(s.endByte, k); }
    }

    method PutNode(n: Node, ghost k: seq<byte>) returns (ok: bool)
      requires InStep()
      modifies this, sink
      ensures InStep() && (ok || sink.failed || !SmallNode(n))
      ensures ok ==> SmallNode(n) && payloadBytes + k == old(payloadBytes) + GraphCodec.PutNode(n, k)
    {
      hide GraphCodec.PutString, GraphCodec.PutSpan, SmallText;
      ghost var k6 := GraphCodec.PutString(n.kind, k);
      ghost var k5 := GraphCodec.PutString(n.symbol, k6);
      ghost var k4 := GraphCodec.PutSpan(n.span, k5);
      ghost var k3 := GraphCodec.PutString(n.path, k4);
      ghost var k2 := GraphCodec.PutString(n.revision, k3);
      ghost var k1 := GraphCodec.PutString(n.repository, k2);
      ok := WriteAll(n.id, k1);
      if ok { ok := PutString(n.repository, k2); }
      if ok { ok := PutString(n.revision, k3); }
      if ok { ok := PutString(n.path, k4); }
      if ok { ok := PutSpan(n.span, k5); }
      if ok { ok := PutString(n.symbol, k6); }
      if ok { ok := PutString(n.kind, k); }
    }

    method PutEdge(e: Edge, ghost k: seq<byte>) returns (ok: bool)
      requires InStep()
      modifies this, sink
      ensures InStep() && (ok || sink.failed || !SmallEdge(e))
      ensures ok ==> SmallEdge(e) && payloadBytes + k == old(payloadBytes) + GraphCodec.PutEdge(e, k)
    {
      hide GraphCodec.PutString, GraphCodec.PutSpan, SmallText;
      var flags: seq<byte> := [e.confidence, if e.verified then 1 else 0];
      ghost var k4 := flags + k;
      ghost var k3 := GraphCodec.PutString(e.extractor, k4);
      ghost var k2 := GraphCodec.PutString(e.relation, k3);
      ghost var k1 := GraphCodec.PutSpan(e.evidence.span, k2);
      assert k4 == PutByte(e.confidence, PutByte(if e.verified then 1 else 0, k));
      ok := WriteAll(e.target, e.evidence.node + k1);
      if ok { ok := WriteAll(e.evidence.node, k1); }
      if ok { ok := PutSpan(e.evidence.span, k2); }
      if ok { ok := PutString(e.relation, k3); }
      if ok { ok := PutString(e.extractor, k4); }
      if ok { ok := WriteAll(flags, k); }
    }

    method PutNodes(nodes: seq<Node>, ghost k: seq<byte>) returns (ok: bool)
      requires InStep()
      modifies this, sink
      ensures InStep() && (ok || sink.failed || !SmallNodes(nodes))
      ensures ok ==> SmallNodes(nodes) && payloadBytes + k == old(payloadBytes) + GraphCodec.PutNodes(nodes, k)
    {
      hide GraphCodec.PutNode, SmallNode;
      assert nodes[0..] == nodes;
      for i := 0 to |nodes|
        invariant InStep() && SmallNodes(nodes[..i])
        invariant payloadBytes + GraphCodec.PutNodes(nodes[i..], k) == old(payloadBytes) + GraphCodec.PutNodes(nodes, k)
      {
        assert nodes[i..][1..] == nodes[i + 1..];
        ok := PutNode(nodes[i], GraphCodec.PutNodes(nodes[i + 1..], k));
        if !ok {
          return;
        }
      }
      ok := true;
    }

    method PutNumbers(xs: seq<u32>, ghost k: seq<byte>) returns (ok: bool)
      requires InStep()
      modifies this, sink
      ensures InStep() && (ok || sink.failed)
      ensures ok ==> payloadBytes + k == old(payloadBytes) + GraphCodec.PutNumbers(xs, k)
    {
      hide GraphCodec.PutU32;
      assert xs[0..] == xs;
      for i := 0 to |xs|
        invariant InStep()
        invariant payloadBytes + GraphCodec.PutNumbers(xs[i..], k) == old(payloadBytes) + GraphCodec.PutNumbers(xs, k)
      {
        assert xs[i..][1..] == xs[i + 1..];
        ok := PutU32(xs[i], GraphCodec.PutNumbers(xs[i + 1..], k));
        if !ok {
          return;
        }
      }
      ok := true;
    }

    method PutEdges(edges: seq<Edge>, ghost k: seq<byte>) returns (ok: bool)
      requires InStep()
      modifies this, sink
      ensures InStep() && (ok || sink.failed || !SmallEdges(edges))
      ensures ok ==> SmallEdges(edges) && payloadBytes + k == old(payloadBytes) + GraphCodec.PutEdges(edges, k)
    {
      hide GraphCodec.PutEdge, SmallEdge;
      assert edges[0..] == edges;
      for i := 0 to |edges|
        invariant InStep() && SmallEdges(edges[..i])
        invariant payloadBytes + GraphCodec.PutEdges(edges[i..], k) == old(payloadBytes) + GraphCodec.PutEdges(edges, k)
      {
        assert edges[i..][1..] == edges[i + 1..];
        ok := PutEdge(edges[i], GraphCodec.PutEdges(edges[i + 1..], k));
        if !ok {
          return;
        }
      }
      ok := true;
    }

    method PutBody(g: Graph) returns (ok: bool)
      requires InStep()
      modifies this, sink
      ensures InStep() && (ok || sink.failed || !Encodable(g))
      ensures ok ==> Encodable(g) && payloadBytes == old(payloadBytes) + GraphCodec.PutBody(g)
    {
      hide GraphCodec.PutU32, GraphCodec.PutNodes, GraphCodec.PutNumbers, GraphCodec.PutEdges, SmallNodes, SmallEdges;
      if |g.nodes| > U32_MAX || |g.edges| > U32_MAX {
        return false;
      }
      ghost var k6 := GraphCodec.PutNumbers(g.reverseEdges, []);
      ghost var k5 := GraphCodec.PutNumbers(g.reverseOffsets, k6);
      ghost var k4 := GraphCodec.PutEdges(g.edges, k5);
      ghost var k3 := GraphCodec.PutNumbers(g.forwardOffsets, k4);
      ghost var k2 := GraphCodec.PutNodes(g.nodes, k3);
      ghost var k1 := g.corpus + k2;
      ok := PutU32(|g.nodes|, GraphCodec.PutU32(|g.edges|, k1));
      if ok { ok := PutU32(|g.edges|, k1); }
      if ok { ok := WriteAll(g.corpus, k2); }
      if ok { ok := PutNodes(g.nodes, k3); }
      if ok { ok := PutNumbers(g.forwardOffsets, k4); }
      if ok { ok := PutEdges(g.edges, k5); }
      if ok { ok := PutNumbers(g.reverseOffsets, k6); }
      if ok { ok := PutNumbers(g.reverseEdges, []); }
      assert payloadBytes + [] == payloadBytes;
    }

    /** `write_payload_to`. */
    method WritePayload(g: Graph) returns (ok: bool)
      requires InStep()
      modifies this, sink
      ensures InStep() && (ok || sink.failed || !Encodable(g))
      ensures ok ==> Encodable(g) && payloadBytes == old(payloadBytes) + Payload(g, SCHEMA_MINOR)
    {
      hide GraphCodec.PutBody, Encodable;
      ok := WriteAll(MAGIC, []);
      if ok { ok := WriteAll(U16Le(SCHEMA_MAJOR), []); }
      if ok { ok := WriteAll(U16Le(SCHEMA_MINOR), []); }
      if ok {
        assert payloadBytes == old(payloadBytes) + MAGIC + U16Le(SCHEMA_MAJOR) + U16Le(SCHEMA_MINOR);
        ok := PutBody(g);
      }
    }

    /** Bytes that enter the artifact digest only. */
    method WriteUnhashed(bytes: seq<byte>) returns (ok: bool)
      requires InStep()
      modifies this, sink
      ensures ok || sink.failed
      ensures ok ==> payloadBytes == old(payloadBytes) && artifactBytes == payloadBytes + bytes
      ensures ok ==> sink.out == base + artifactBytes
    {
      ok := sink.WriteAll(bytes);
      if ok {
        artifactBytes := artifactBytes + bytes;
      }
    }
  }

  /** `GraphArtifact::write`: whatever the chunking, the bytes are those of `encode`, and
      the returned checksum is the digest of those bytes. Only an invalid graph, an edge
      string too long for the wire, or a failing writer prevents it. */
  method WriteArtifact(h: Hash, g: Graph, sink: Sink) returns (r: Option<Digest>)
    modifies sink
    ensures r.Some? ==> Encode(h, g).Some?
    ensures r.Some? ==> sink.out == old(sink.out) + Encode(h, g).value && r.value == h(Encode(h, g).value)
    ensures r.None? ==> Encode(h, g).None? || sink.failed
    ensures !Valid(h, g) ==> r.None? && sink.out == old(sink.out)
  {
    hide Valid, Payload, Encodable;
    var valid := GraphIndexer.Validate(h, g);
    if !valid {
      return None;
    }
    var writer := new DigestWriter(sink);
    var ok := writer.WritePayload(g);
    if !ok {
      return None;
    }
    assert writer.payloadBytes == Payload(g, SCHEMA_MINOR);
    var trailer := h(writer.payloadBytes);
    ok := writer.WriteUnhashed(trailer);
    if !ok {
      return None;
    }
    r := Some(h(writer.artifactBytes));
  }
}
