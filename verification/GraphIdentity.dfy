/** Node identities: the bytes that are hashed determine the provenance, so chunks that differ
    in any part of it get different nodes; and when the graph of a set of chunks exists. */
module GraphIdentity {
  import opened Bytes
  import opened Text
  import opened GraphArtifact
  import opened GraphChunks

  const U64_MAX: nat := 0xFFFF_FFFF_FFFF_FFFF

  // ---------- The hashed bytes ----------

  lemma U32LeInjective(a: u32, b: u32)
    requires U32Le(a) == U32Le(b)
    ensures a == b
  {
    U32LeInverse(a);
    U32LeInverse(b);
  }

  lemma U64LeInjective(a: nat, b: nat)
    requires a <= U64_MAX && b <= U64_MAX && U64Le(a) == U64Le(b)
    ensures a == b
  {
    hide U32Le;
    var low, high := 0x1_0000_0000, U64Le(a);
    assert U64Le(a)[..4] == U32Le(a % low) && U64Le(a)[4..] == U32Le(a / low);
    assert U64Le(b)[..4] == U32Le(b % low) && U64Le(b)[4..] == U32Le(b / low);
    U32LeInjective(a % low, b % low);
    U32LeInjective(a / low, b / low);
  }

  /** A length prefix says where the string ends. */
  lemma SizedCancels(a: seq<byte>, x: seq<byte>, b: seq<byte>, y: seq<byte>)
    requires |a| <= U64_MAX && |b| <= U64_MAX && Sized(a) + x == Sized(b) + y
    ensures a == b && x == y
  {
    hide U64Le, U32Le;
    var s, t := Sized(a) + x, Sized(b) + y;
    U64LeLength(|a|);
    U64LeLength(|b|);
    assert s[..8] == U64Le(|a|) && t[..8] == U64Le(|b|);
    U64LeInjective(|a|, |b|);
    assert s[8..8 + |a|] == a && t[8..8 + |b|] == b;
    assert s[8 + |a|..] == x && t[8 + |b|..] == y;
  }

  lemma U64LeLength(n: nat)
    requires n <= U64_MAX
    ensures |U64Le(n)| == 8
  {
  }

  lemma SpanLeInjective(a: Span, b: Span)
    requires SpanLe(a) == SpanLe(b)
    ensures a == b
  {
    hide U32Le;
    var s, t := SpanLe(a), SpanLe(b);
    assert s[..4] == U32Le(a.startLine) && t[..4] == U32Le(b.startLine);
    assert s[4..8] == U32Le(a.endLine) && t[4..8] == U32Le(b.endLine);
    assert s[8..12] == U32Le(a.startByte) && t[8..12] == U32Le(b.startByte);
    assert s[12..] == U32Le(a.endByte) && t[12..] == U32Le(b.endByte);
    U32LeInjective(a.startLine, b.startLine);
    U32LeInjective(a.endLine, b.endLine);
    U32LeInjective(a.startByte, b.startByte);
    U32LeInjective(a.endByte, b.endByte);
  }

  // Strings whose lengths a 64-bit prefix can hold.
  ghost predicate Countable(n: Node) {
    && |n.repository| <= U64_MAX && |n.revision| <= U64_MAX && |n.path| <= U64_MAX
    && |n.symbol| <= U64_MAX && |n.kind| <= U64_MAX
  }

  function IdentityOf(n: Node): seq<byte> { Identity(n.repository, n.revision, n.path, n.span, n.symbol, n.kind) }

  /** The hashed bytes of two nodes agree only if all of their provenance does. */
  lemma IdentityInjective(a: Node, b: Node)
    requires Countable(a) && Countable(b) && IdentityOf(a) == IdentityOf(b)
    ensures a.repository == b.repository && a.revision == b.revision && a.path == b.path
    ensures a.symbol == b.symbol && a.kind == b.kind && a.span == b.span
  {
    hide Sized, SpanLe;
    var kindA, kindB := Sized(a.kind) + SpanLe(a.span), Sized(b.kind) + SpanLe(b.span);
    var symbolA, symbolB := Sized(a.symbol) + kindA, Sized(b.symbol) + kindB;
    var pathA, pathB := Sized(a.path) + symbolA, Sized(b.path) + symbolB;
    var revisionA, revisionB := Sized(a.revision) + pathA, Sized(b.revision) + pathB;
    var bytesA, bytesB := Sized(a.repository) + revisionA, Sized(b.repository) + revisionB;
    assert IdentityOf(a)[|NODE_PREFIX|..] == bytesA && IdentityOf(b)[|NODE_PREFIX|..] == bytesB;
    SizedCancels(a.repository, revisionA, b.repository, revisionB);
    SizedCancels(a.revision, pathA, b.revision, pathB);
    SizedCancels(a.path, symbolA, b.path, symbolB);
    SizedCancels(a.symbol, kindA, b.symbol, kindB);
    SizedCancels(a.kind, SpanLe(a.span), b.kind, SpanLe(b.span));
    SpanLeInjective(a.span, b.span);
  }

  // ---------- Chunks ----------

  const HASH_SIGN: byte := 0x23

  lemma SymbolParts(c: GraphChunk)
    ensures Symbol(c) == c.title + [HASH_SIGN] + Decimal(c.ordinal) && HASH_SIGN !in Decimal(c.ordinal)
  {
    DecimalSpells(c.ordinal);
    hide Decimal;
    assert Ascii("#") == [HASH_SIGN];
    assert Symbol(c) == c.title + [HASH_SIGN] + Decimal(c.ordinal);
  }

  /** Title and ordinal can be read off the symbol. */
  lemma SymbolInjective(a: GraphChunk, b: GraphChunk)
    requires Symbol(a) == Symbol(b)
    ensures a.title == b.title && a.ordinal == b.ordinal
  {
    SymbolParts(a);
    SymbolParts(b);
    DecimalSpells(a.ordinal);
    DecimalSpells(b.ordinal);
    hide Decimal, FromDecimal, Symbol;
    LastMark(a.title, Decimal(a.ordinal), b.title, Decimal(b.ordinal));
  }

  lemma LastMark(s: seq<byte>, x: seq<byte>, t: seq<byte>, y: seq<byte>)
    requires HASH_SIGN !in x && HASH_SIGN !in y && s + [HASH_SIGN] + x == t + [HASH_SIGN] + y
    ensures s == t && x == y
  {
    var all := s + [HASH_SIGN] + x;
    assert all == t + [HASH_SIGN] + y;
    assert all[|s|] == HASH_SIGN && all[|t|] == HASH_SIGN;
    assert forall i :: |s| < i < |all| ==> all[i] == x[i - |s| - 1];
    assert forall i :: |t| < i < |all| ==> all[i] == y[i - |t| - 1];
    assert |s| == |t|;
    assert all[..|s|] == s && all[..|s|] == t;
    assert all[|s| + 1..] == x && all[|s| + 1..] == y;
  }

  // The span of a chunk's node: absent spans and offsets are zero.
  ghost predicate Spans(source: Option<SourceSpan>, span: Span) {
    match source
    case None => span == Span(0, 0, 0, 0)
    case Some(s) =>
      && span.startLine == s.startLine && span.endLine == s.endLine
      && Some(span.startByte as nat) == (if s.startByte == None then Some(0) else s.startByte)
      && Some(span.endByte as nat) == (if s.endByte == None then Some(0) else s.endByte)
  }

  lemma SpanMeaning(source: Option<SourceSpan>, span: Span)
    ensures GraphSpan(source) == Some(span) <==> Spans(source, span)
  {
  }

  /** The node of a chunk: its provenance, a symbol of title, number sign and ordinal, and the
      digest of all of that as its id. */
  ghost predicate NodeFor(h: Hash, c: GraphChunk, n: Node) {
    && n.repository == c.repository && n.revision == c.revision && n.path == c.path && Spans(c.span, n.span)
    && n.symbol == c.title + [HASH_SIGN] + Decimal(c.ordinal) && n.kind == Ascii("chunk")
    && n.id == h(IdentityOf(n))
  }

  lemma LocateMeaning(h: Hash, c: GraphChunk)
    requires SpanFits(c)
    ensures NodeFor(h, c, Locate(h)(c).node) && Locate(h)(c).id == c.id && Locate(h)(c).next == c.next
    ensures forall n :: NodeFor(h, c, n) ==> n == Locate(h)(c).node
  {
    SymbolParts(c);
    hide Decimal, Symbol, Ascii, Identity;
    SpanMeaning(c.span, GraphSpan(c.span).value);
    forall n | NodeFor(h, c, n) ensures n == Locate(h)(c).node { SpanMeaning(c.span, n.span); }
  }

  // All that distinguishes two chunks as source locations; the chunk ids and links play no part.
  ghost predicate SameProvenance(a: GraphChunk, b: GraphChunk) {
    && a.repository == b.repository && a.revision == b.revision && a.path == b.path
    && a.title == b.title && a.ordinal == b.ordinal
    && (exists span :: Spans(a.span, span) && Spans(b.span, span))
  }

  // The strings of a chunk fit 64-bit length prefixes, as every string in memory does.
  ghost predicate CountableChunk(c: GraphChunk) {
    |c.repository| <= U64_MAX && |c.revision| <= U64_MAX && |c.path| <= U64_MAX && |Symbol(c)| <= U64_MAX
  }

  // The hash does not collide on the identities of these two chunks.
  ghost predicate NoCollision(h: Hash, a: GraphChunk, b: GraphChunk) {
    forall x, y :: NodeFor(h, a, x) && NodeFor(h, b, y) && x.id == y.id ==> IdentityOf(x) == IdentityOf(y)
  }

  /** Chunks that differ in repository, revision, path, title, ordinal or span have different
      node ids, unless the hash collides on their identities; chunks that differ in none have the
      same. */
  lemma NodeIdsIff(h: Hash, a: GraphChunk, b: GraphChunk)
    requires SpanFits(a) && SpanFits(b) && CountableChunk(a) && CountableChunk(b) && NoCollision(h, a, b)
    ensures Locate(h)(a).node.id == Locate(h)(b).node.id <==> SameProvenance(a, b)
  {
    LocateMeaning(h, a);
    LocateMeaning(h, b);
    hide *;
    var x, y := Locate(h)(a).node, Locate(h)(b).node;
    SameFieldsIff(h, a, b, x, y);
    if x.id == y.id {
      NodesCountable(h, a, x);
      NodesCountable(h, b, y);
      UncollidedIds(h, a, b, x, y);
      IdentityInjective(x, y);
    }
  }

  lemma UncollidedIds(h: Hash, a: GraphChunk, b: GraphChunk, x: Node, y: Node)
    requires NoCollision(h, a, b) && NodeFor(h, a, x) && NodeFor(h, b, y) && x.id == y.id
    ensures IdentityOf(x) == IdentityOf(y)
  {
  }

  lemma NodesCountable(h: Hash, c: GraphChunk, n: Node)
    requires CountableChunk(c) && NodeFor(h, c, n)
    ensures Countable(n)
  {
    SymbolParts(c);
  }

  lemma SameFieldsIff(h: Hash, a: GraphChunk, b: GraphChunk, x: Node, y: Node)
    requires NodeFor(h, a, x) && NodeFor(h, b, y)
    ensures SameProvenance(a, b)
       <==> && x.repository == y.repository && x.revision == y.revision && x.path == y.path
            && x.symbol == y.symbol && x.kind == y.kind && x.span == y.span
    ensures SameProvenance(a, b) ==> x.id == y.id
  {
    SymbolParts(a);
    SymbolParts(b);
    SpanMeaning(a.span, x.span);
    SpanMeaning(b.span, y.span);
    hide Decimal, Symbol, Ascii, Identity, Spans, GraphSpan;
    if x.symbol == y.symbol { SymbolInjective(a, b); }
    if SameProvenance(a, b) {
      var span :| Spans(a.span, span) && Spans(b.span, span);
      SpanMeaning(a.span, span);
      SpanMeaning(b.span, span);
    }
  }
}
