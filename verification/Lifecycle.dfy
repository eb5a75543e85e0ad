/** Publishing immutable generations and activating one of them: what is on disk, the
    publication as it runs, and the loading of what was published. */
module Lifecycle {
  import opened Bytes
  import opened Text
  import opened GraphArtifact
  import opened GraphCodec

  const ARTIFACT_SCHEMA_MAJOR: u16 := 1
  const MAX_REPAIRS: nat := 32

  // The manifest fields that publication reads; `details` stands for all the others.
  datatype Manifest = Manifest(
    corpusDigest: Digest, chunkCount: nat,
    lexicalChecksum: Option<Digest>, vectorChecksum: Option<Digest>, graphChecksum: Option<Digest>,
    graphNodes: Option<nat>, graphEdges: Option<nat>, details: seq<byte>)

  datatype FileName = LexicalJson | VectorsBin | GraphBin

  type Files = map<FileName, seq<byte>>

  // A generation directory: manifest.json and the other files.
  datatype Generation = Generation(manifest: seq<byte>, files: Files)

  datatype Pointer = Pointer(schemaMajor: u16, generation: Digest, manifestChecksum: Digest)

  // A pointer file that may have been cut off while it was written.
  datatype PointerFile = Torn | Whole(pointer: Pointer)

  datatype Disk = Disk(generations: map<Digest, Generation>, active: Option<Pointer>, temporary: Option<PointerFile>)

  /** What publication takes from elsewhere: the digest, JSON printing and parsing of
      manifests, and the checks of the manifest, the lexical sidecar and the vectors. */
  datatype Format = Format(
    hash: Hash, printed: Manifest -> seq<byte>, parse: seq<byte> -> Option<Manifest>,
    wellFormed: Manifest -> bool,
    lexicalOpens: (seq<byte>, Manifest) -> bool,
    vectorsOk: (seq<byte>, Digest, Digest, nat) -> bool)

  /** Parsing undoes printing. */
  ghost predicate Faithful(f: Format) { forall m :: f.parse(f.printed(m)) == Some(m) }

  // A staged build handed to publication, with the sizes and the count its writers reported.
  datatype Job = Job(manifest: Manifest, files: Files, lexicalBytes: nat, vectorBytes: Option<nat>, vectorCount: nat)

  datatype PublishError = VectorCountMismatch | MissingFile | InvalidManifest | StagedMismatch | Exhausted

  // ---------- Checks ----------

  function HexDigit(x: nat): (r: byte)
    requires x < 16
  {
    if x < 10 then 0x30 + x else 0x57 + x
  }

  function Hex(s: seq<byte>): (r: seq<byte>) {
    if s == [] then [] else [HexDigit(s[0] / 16), HexDigit(s[0] % 16)] + Hex(s[1..])
  }

  /** The display form of a digest. */
  function DigestText(d: Digest): seq<byte> { Ascii("sha256:") + Hex(d) }

  /** `GraphArtifact::validate_path` and the count check, on the bytes of graph.bin. */
  predicate GraphFileValid(h: Hash, m: Manifest, bytes: seq<byte>) {
    && m.graphChecksum == Some(h(bytes))
    && Decode(h, bytes).Some?
    && GraphMatches(m, Decode(h, bytes).value)
  }

  predicate GraphMatches(m: Manifest, g: Graph) {
    g.corpus == m.corpusDigest && m.graphNodes == Some(|g.nodes|) && m.graphEdges == Some(|g.edges|)
  }

  /** `validate_generation`. */
  predicate GenerationValid(f: Format, g: Generation, expected: Manifest) {
    && f.parse(g.manifest) == Some(expected)
    && (expected.lexicalChecksum.Some? ==>
          && LexicalJson in g.files && f.hash(g.files[LexicalJson]) == expected.lexicalChecksum.value
          && f.lexicalOpens(g.files[LexicalJson], expected))
    && (expected.vectorChecksum.Some? ==>
          && VectorsBin in g.files
          && f.vectorsOk(
               g.files[VectorsBin], expected.vectorChecksum.value, expected.corpusDigest, expected.chunkCount))
    && (expected.graphChecksum.Some? ==> GraphBin in g.files && GraphFileValid(f.hash, expected, g.files[GraphBin]))
  }

  /** `validate_written_generation` on the staged files. */
  predicate StagedValid(f: Format, job: Job) {
    var m := job.manifest;
    && LexicalJson in job.files && |job.files[LexicalJson]| == job.lexicalBytes
    && (job.vectorBytes.Some? ==> VectorsBin in job.files && |job.files[VectorsBin]| == job.vectorBytes.value)
    && f.lexicalOpens(job.files[LexicalJson], m)
    && (m.graphChecksum.Some? ==> GraphBin in job.files && GraphFileValid(f.hash, m, job.files[GraphBin]))
  }

  /** What is wrong with a job before any generation is touched. */
  function Objection(f: Format, job: Job): (e: Option<PublishError>)
    ensures e != Some(Exhausted)
  {
    var m := job.manifest;
    if m.vectorChecksum.Some? && job.vectorCount != m.chunkCount then Some(VectorCountMismatch)
    else if m.graphChecksum.Some? && GraphBin !in job.files then Some(MissingFile)
    else if !f.wellFormed(m) then Some(InvalidManifest)
    else if !StagedValid(f, job) then Some(StagedMismatch)
    else None
  }

  /** The bytes of graph.bin have the recorded digest and decode to a graph of the manifest's
      corpus with as many nodes and edges as it records. */
  ghost predicate GraphIntact(h: Hash, m: Manifest, bytes: seq<byte>) {
    && m.graphChecksum == Some(h(bytes))
    && exists g :: Decode(h, bytes) == Some(g) && g.corpus == m.corpusDigest
                   && (m.graphNodes, m.graphEdges) == (Some(|g.nodes|), Some(|g.edges|))
  }

  /** A generation that holds the manifest and, for each checksum it records, a file that
      matches: the lexical file by digest and opening, the vectors by their check, the graph by
      digest, decoding, corpus and counts. */
  ghost predicate Intact(f: Format, g: Generation, m: Manifest) {
    && f.parse(g.manifest) == Some(m)
    && (forall d :: m.lexicalChecksum == Some(d) ==>
          LexicalJson in g.files && f.hash(g.files[LexicalJson]) == d && f.lexicalOpens(g.files[LexicalJson], m))
    && (forall d :: m.vectorChecksum == Some(d) ==>
          VectorsBin in g.files && f.vectorsOk(g.files[VectorsBin], d, m.corpusDigest, m.chunkCount))
    && (m.graphChecksum != None ==> GraphBin in g.files && GraphIntact(f.hash, m, g.files[GraphBin]))
  }

  lemma GraphFileMeaning(h: Hash, m: Manifest, bytes: seq<byte>)
    ensures GraphFileValid(h, m, bytes) <==> GraphIntact(h, m, bytes)
  {
    hide Decode;
  }

  /** `validate_generation` accepts exactly the intact generations. */
  lemma GenerationValidIff(f: Format, g: Generation, m: Manifest)
    ensures GenerationValid(f, g, m) <==> Intact(f, g, m)
  {
    hide GraphFileValid, GraphIntact;
    if GraphBin in g.files { GraphFileMeaning(f.hash, m, g.files[GraphBin]); }
  }

  /** A staged build that can be published: a well-formed manifest; a lexical file of the reported
      size that opens; vectors, if any, of the reported size and as many as the corpus has chunks;
      and an intact graph if one is recorded. */
  ghost predicate Publishable(f: Format, job: Job) {
    var m := job.manifest;
    && f.wellFormed(m) && (m.vectorChecksum != None ==> job.vectorCount == m.chunkCount)
    && LexicalJson in job.files && job.lexicalBytes == |job.files[LexicalJson]|
    && f.lexicalOpens(job.files[LexicalJson], m)
    && (forall n :: job.vectorBytes == Some(n) ==> VectorsBin in job.files && |job.files[VectorsBin]| == n)
    && (m.graphChecksum != None ==> GraphBin in job.files && GraphIntact(f.hash, m, job.files[GraphBin]))
  }

  /** Nothing is wrong with a job exactly when it can be published; and what is reported as wrong
      with it is. */
  lemma ObjectionIff(f: Format, job: Job)
    ensures Objection(f, job).None? <==> Publishable(f, job)
    ensures Objection(f, job) == Some(VectorCountMismatch) ==>
              job.manifest.vectorChecksum.Some? && job.vectorCount != job.manifest.chunkCount
    ensures Objection(f, job) == Some(MissingFile) ==> job.manifest.graphChecksum.Some? && GraphBin !in job.files
    ensures job.manifest.graphChecksum.Some? && GraphBin !in job.files ==>
              Objection(f, job) in {Some(VectorCountMismatch), Some(MissingFile)}
    ensures Objection(f, job) == Some(InvalidManifest) ==> !f.wellFormed(job.manifest)
  {
    hide GraphFileValid, GraphIntact;
    if GraphBin in job.files { GraphFileMeaning(f.hash, job.manifest, job.files[GraphBin]); }
  }

  // ---------- Names ----------

  /** The generation name tried at an attempt. */
  function Candidate(f: Format, m: Manifest, attempt: nat): Digest {
    var base := f.hash(f.printed(m));
    if attempt == 0 then base else f.hash(DigestText(base) + Ascii(":repair:") + Decimal(attempt))
  }

  function FromHexDigit(b: byte): int { if b <= 0x39 then b - 0x30 else b - 0x57 }

  function FromHex(s: seq<byte>): seq<int> {
    if |s| < 2 then [] else [16 * FromHexDigit(s[0]) + FromHexDigit(s[1])] + FromHex(s[2..])
  }

  /** The hexadecimal digits, two per byte and lower case, spell the bytes. */
  lemma {:induction false} HexSpells(s: seq<byte>)
    ensures FromHex(Hex(s)) == s && |Hex(s)| == 2 * |s|
    ensures forall i :: 0 <= i < |Hex(s)| ==> 0x30 <= Hex(s)[i] <= 0x39 || 0x61 <= Hex(s)[i] <= 0x66
  {
    if s != [] {
      HexSpells(s[1..]);
      var a, b := HexDigit(s[0] / 16), HexDigit(s[0] % 16);
      assert Hex(s) == [a, b] + Hex(s[1..]) && Hex(s)[2..] == Hex(s[1..]);
      assert s == [s[0]] + s[1..];
    }
  }

  // A text of the displayed digest, a marker, and the attempt.
  ghost predicate Spells(base: Digest, attempt: nat, text: seq<byte>, hex: seq<byte>, digits: seq<byte>) {
    && text == Ascii("sha256:") + hex + Ascii(":repair:") + digits
    && |hex| == 64 && FromHex(hex) == base && FromDecimal(digits) == attempt
  }

  /** What is hashed for the name of a repair. */
  ghost predicate RepairText(base: Digest, attempt: nat, text: seq<byte>) {
    exists hex, digits :: Spells(base, attempt, text, hex, digits)
  }

  /** The first name tried is the digest of the printed manifest; the name of each repair is the
      digest of a text that spells that digest and the attempt. */
  lemma CandidateNames(f: Format, m: Manifest, attempt: nat)
    ensures Candidate(f, m, 0) == f.hash(f.printed(m))
    ensures attempt > 0 ==>
              exists text :: RepairText(f.hash(f.printed(m)), attempt, text) && Candidate(f, m, attempt) == f.hash(text)
  {
    if attempt > 0 {
      var base := f.hash(f.printed(m));
      HexSpells(base);
      DecimalSpells(attempt);
      var text := DigestText(base) + Ascii(":repair:") + Decimal(attempt);
      RepairSpelled(base, attempt, text, Hex(base), Decimal(attempt));
    }
  }

  lemma RepairSpelled(base: Digest, attempt: nat, text: seq<byte>, hex: seq<byte>, digits: seq<byte>)
    requires text == Ascii("sha256:") + hex + Ascii(":repair:") + digits
    requires |hex| == 64 && FromHex(hex) == base && FromDecimal(digits) == attempt
    ensures RepairText(base, attempt, text)
  {
    hide FromHex, FromDecimal;
    assert Spells(base, attempt, text, hex, digits);
  }

  /** Texts of repairs are the same only for the same digest and attempt. */
  lemma RepairTextsDiffer(a: Digest, b: Digest, i: nat, j: nat, text: seq<byte>)
    requires RepairText(a, i, text) && RepairText(b, j, text)
    ensures a == b && i == j
  {
    hide Spells;
    var x, k :| Spells(a, i, text, x, k);
    var y, l :| Spells(b, j, text, y, l);
    SameSpelling(a, b, i, j, text, x, k, y, l);
  }

  lemma SameSpelling(
    a: Digest, b: Digest, i: nat, j: nat, text: seq<byte>, x: seq<byte>, k: seq<byte>, y: seq<byte>, l: seq<byte>)
    requires Spells(a, i, text, x, k) && Spells(b, j, text, y, l)
    ensures a == b && i == j
  {
    hide FromHex, FromDecimal;
    var scheme, marker := Ascii("sha256:"), Ascii(":repair:");
    SplitAlike(scheme, marker, x, k, y, l);
  }

  lemma SplitAlike(p: seq<byte>, q: seq<byte>, x: seq<byte>, k: seq<byte>, y: seq<byte>, l: seq<byte>)
    requires |x| == |y| && p + x + q + k == p + y + q + l
    ensures x == y && k == l
  {
    var s, t := p + x + q + k, p + y + q + l;
    assert s[|p|..|p| + |x|] == x && t[|p|..|p| + |y|] == y;
    assert s[|p| + |x| + |q|..] == k && t[|p| + |y| + |q|..] == l;
  }

  predicate Usable(f: Format, generations: map<Digest, Generation>, m: Manifest, attempt: nat) {
    var name := Candidate(f, m, attempt);
    name !in generations || GenerationValid(f, generations[name], m)
  }

  function FirstUsable(f: Format, generations: map<Digest, Generation>, m: Manifest, from: nat): Option<nat>
    decreases MAX_REPAIRS + 1 - from
  {
    if from > MAX_REPAIRS then None
    else if Usable(f, generations, m, from) then Some(from)
    else FirstUsable(f, generations, m, from + 1)
  }

  /** The search finds the first name that is free or holds a valid copy, and fails exactly
      when every name from the start on is taken and invalid. */
  lemma {:induction false} FirstUsableIsFirst(
    f: Format, generations: map<Digest, Generation>, m: Manifest, from: nat, i: nat)
    requires from <= i <= MAX_REPAIRS
    ensures FirstUsable(f, generations, m, from) == Some(i)
       <==> Usable(f, generations, m, i) && forall j :: from <= j < i ==> !Usable(f, generations, m, j)
    ensures FirstUsable(f, generations, m, from).None?
       <==> forall j :: from <= j <= MAX_REPAIRS ==> !Usable(f, generations, m, j)
    ensures FirstUsable(f, generations, m, from).Some? ==>
          from <= FirstUsable(f, generations, m, from).value <= MAX_REPAIRS
    decreases MAX_REPAIRS - from
  {
    hide Usable;
    if from < i {
      FirstUsableIsFirst(f, generations, m, from + 1, i);
    } else if from < MAX_REPAIRS {
      FirstUsableIsFirst(f, generations, m, from + 1, from + 1);
    }
  }

  // ---------- Publication ----------

  function PointerTo(f: Format, m: Manifest, generation: Digest): Pointer {
    Pointer(ARTIFACT_SCHEMA_MAJOR, generation, f.hash(f.printed(m)))
  }

  // The generations after a name has been chosen for the job.
  function Placed(f: Format, generations: map<Digest, Generation>, job: Job, attempt: nat): map<Digest, Generation> {
    var name := Candidate(f, job.manifest, attempt);
    if name in generations then generations else generations[name := Generation(f.printed(job.manifest), job.files)]
  }

  /** The disk that a publication leaves and the name it reports, or why it refuses. */
  function Published(f: Format, disk: Disk, job: Job): Result<(Disk, Digest), PublishError> {
    match Objection(f, job)
    case Some(e) => Err(e)
    case None =>
      match FirstUsable(f, disk.generations, job.manifest, 0)
      case None => Err(Exhausted)
      case Some(i) =>
        var name := Candidate(f, job.manifest, i);
        Ok((Disk(Placed(f, disk.generations, job, i), Some(PointerTo(f, job.manifest, name)), None), name))
  }

  // ---------- Readers ----------

  /** `read_selected_manifest`: the selected generation and its manifest bytes. */
  function ReadSelected(f: Format, disk: Disk): Option<(Digest, seq<byte>)> {
    if disk.active.None? || disk.active.value.schemaMajor != ARTIFACT_SCHEMA_MAJOR then None
    else
      var p := disk.active.value;
      if p.generation !in disk.generations then None
      else
        var bytes := disk.generations[p.generation].manifest;
        if f.hash(bytes) != p.manifestChecksum then None else Some((p.generation, bytes))
  }

  /** `inspect_manifest`. */
  function Inspect(f: Format, disk: Disk): Option<Manifest> {
    var selected :- ReadSelected(f, disk);
    var m :- f.parse(selected.1);
    if f.wellFormed(m) then Some(m) else None
  }

  /** A generation is selected exactly when the active pointer has schema 1, names it, and records
      the digest of its manifest bytes; a manifest is read exactly when those parse to it and it is
      well formed. */
  lemma SelectedIff(f: Format, disk: Disk, name: Digest, bytes: seq<byte>, m: Manifest)
    ensures ReadSelected(f, disk) == Some((name, bytes))
       <==> && disk.active == Some(Pointer(1, name, f.hash(bytes)))
            && name in disk.generations && disk.generations[name].manifest == bytes
    ensures Inspect(f, disk) == Some(m)
       <==> && (exists name, bytes ::
                  ReadSelected(f, disk) == Some((name, bytes)) && f.parse(bytes) == Some(m))
            && f.wellFormed(m)
  {
    if ReadSelected(f, disk).Some? {
      var (name', bytes') := ReadSelected(f, disk).value;
      assert ReadSelected(f, disk) == Some((name', bytes'));
    }
  }

  /** The checks of `load_active_graph` on graph.bin: it re-encodes what it decoded. */
  function LoadGraph(h: Hash, m: Manifest, bytes: seq<byte>): Option<Graph>
    requires m.graphChecksum.Some?
  {
    var g :- Decode(h, bytes);
    var encoded :- Encode(h, g);
    if h(encoded) == m.graphChecksum.value && GraphMatches(m, g) then Some(g) else None
  }

  /** Loading and validation of a file that decodes accept alike exactly when, unless the graph
      mismatches the manifest, its checksum is that of the file exactly when it is that of the
      re-encoded graph; always so on schema minor 0, where the two are the same bytes. */
  lemma LoaderAgrees(h: Hash, m: Manifest, bytes: seq<byte>)
    requires m.graphChecksum.Some? && Decode(h, bytes).Some?
    ensures var g, again := Decode(h, bytes).value, Encode(h, Decode(h, bytes).value);
            && again.Some?
            && ((LoadGraph(h, m, bytes).Some? <==> GraphFileValid(h, m, bytes)) <==>
                  (g.corpus == m.corpusDigest && m.graphNodes == Some(|g.nodes|) && m.graphEdges == Some(|g.edges|) ==>
                      (m.graphChecksum == Some(h(bytes)) <==> m.graphChecksum == Some(h(again.value)))))
            && (again.value == bytes <==> Minor(bytes) == SCHEMA_MINOR)
    ensures LoadGraph(h, m, bytes).Some? ==> LoadGraph(h, m, bytes) == Decode(h, bytes)
    ensures GraphFileValid(h, m, bytes) ==> GraphIntact(h, m, bytes)
    ensures LoadGraph(h, m, bytes).Some? ==>
              var g := LoadGraph(h, m, bytes).value;
              && Encode(h, g).Some? && m.graphChecksum == Some(h(Encode(h, g).value))
              && g.corpus == m.corpusDigest && m.graphNodes == Some(|g.nodes|) && m.graphEdges == Some(|g.edges|)
  {
    hide Encode, ParsePayload, Valid, Minor;
    EncodeUndoesDecode(h, bytes);
  }

  // What a manifest says of a graph, under a given checksum.
  function Describing(m: Manifest, g: Graph, checksum: Digest): Manifest {
    m.(corpusDigest := g.corpus, graphChecksum := Some(checksum), graphNodes := Some(|g.nodes|),
      graphEdges := Some(|g.edges|))
  }

  /** On a file of another minor they do disagree, in both directions, unless its digest
      collides with that of the re-encoded graph: under the file's own checksum validation
      accepts and loading refuses, under the other checksum the reverse. */
  lemma LoaderDisagrees(h: Hash, m: Manifest, g: Graph, minor: u16)
    requires Valid(h, g) && Encodable(g) && minor != SCHEMA_MINOR
    requires h(FileOf(h, g, minor)) != h(FileOf(h, g, SCHEMA_MINOR))
    ensures var file, own, other := FileOf(h, g, minor), h(FileOf(h, g, minor)), h(FileOf(h, g, SCHEMA_MINOR));
            && GraphFileValid(h, Describing(m, g, own), file) && LoadGraph(h, Describing(m, g, own), file).None?
            && !GraphFileValid(h, Describing(m, g, other), file)
            && LoadGraph(h, Describing(m, g, other), file) == Some(g)
  {
    hide Payload, Decode, Valid;
    AnyMinorDecodes(h, g, minor);
    assert Encode(h, g) == Some(FileOf(h, g, SCHEMA_MINOR));
  }

  // ---------- What a publication promises ----------

  // The name of the attempt is free or holds an intact copy.
  ghost predicate Takes(f: Format, generations: map<Digest, Generation>, m: Manifest, attempt: nat) {
    var name := Candidate(f, m, attempt);
    name in generations ==> Intact(f, generations[name], m)
  }

  lemma TakesMeaning(f: Format, generations: map<Digest, Generation>, m: Manifest, attempt: nat)
    ensures Usable(f, generations, m, attempt) <==> Takes(f, generations, m, attempt)
  {
    hide GenerationValid, Intact, Candidate;
    var name := Candidate(f, m, attempt);
    if name in generations { GenerationValidIff(f, generations[name], m); }
  }

  /** A publication succeeds exactly when the job can be published and some of the 33 names is
      free or holds an intact copy; it takes the first such name. So a generation that fails any
      one check is never the name returned. */
  lemma PublishedIff(f: Format, disk: Disk, job: Job, i: nat)
    requires i <= 32
    ensures var m, r := job.manifest, Published(f, disk, job);
            && (r.Ok? <==> Publishable(f, job) && exists j: nat :: j <= 32 && Takes(f, disk.generations, m, j))
            && (r == Err(Exhausted) <==>
                  Publishable(f, job) && forall j: nat :: j <= 32 ==> !Takes(f, disk.generations, m, j))
            && (Publishable(f, job) && Takes(f, disk.generations, m, i)
                  && (forall j: nat :: j < i ==> !Takes(f, disk.generations, m, j)) ==>
                  r.Ok? && r.value.1 == Candidate(f, m, i))
  {
    ObjectionIff(f, job);
    hide Objection, GenerationValid, Publishable, Usable, Takes, Candidate;
    forall j: nat ensures Usable(f, disk.generations, job.manifest, j) <==> Takes(f, disk.generations, job.manifest, j)
    {
      TakesMeaning(f, disk.generations, job.manifest, j);
    }
    FirstUsableIsFirst(f, disk.generations, job.manifest, 0, i);
    var found := FirstUsable(f, disk.generations, job.manifest, 0);
    if found.Some? { FirstUsableIsFirst(f, disk.generations, job.manifest, 0, found.value); }
  }

  /** What a publication does to the disk: it keeps every generation, adds at most one, and
      selects the one it reports, by the digest of the printed manifest. A name that was there
      before holds an intact copy; a new one holds the printed manifest and the staged files. */
  lemma PublishedFacts(f: Format, disk: Disk, job: Job)
    requires Published(f, disk, job).Ok?
    ensures var m := job.manifest;
            var (disk', name) := Published(f, disk, job).value;
            && (forall g :: g in disk.generations ==>
                  g in disk'.generations && disk'.generations[g] == disk.generations[g])
            && disk'.generations.Keys == disk.generations.Keys + {name}
            && disk'.active == Some(Pointer(1, name, f.hash(f.printed(m)))) && disk'.temporary == None
            && (if name in disk.generations then Intact(f, disk.generations[name], m)
                else disk'.generations[name] == Generation(f.printed(m), job.files))
  {
    hide Objection, GenerationValid, Intact, Candidate;
    FirstUsableIsFirst(f, disk.generations, job.manifest, 0, 0);
    var i := FirstUsable(f, disk.generations, job.manifest, 0).value;
    FirstUsableIsFirst(f, disk.generations, job.manifest, 0, i);
    var name := Candidate(f, job.manifest, i);
    if name in disk.generations { GenerationValidIff(f, disk.generations[name], job.manifest); }
  }

  lemma IntactParses(f: Format, m: Manifest)
    ensures forall g :: Intact(f, g, m) ==> f.parse(g.manifest) == Some(m)
  {
  }

  /** What was just published is readable exactly when the bytes stored under its name have
      the digest of the manifest's printed form, as they do in a new generation. */
  lemma PublishedIsReadable(f: Format, disk: Disk, job: Job)
    requires Faithful(f) && Published(f, disk, job).Ok?
    ensures var (disk', name) := Published(f, disk, job).value;
            && (ReadSelected(f, disk').Some?
              <==> f.hash(disk'.generations[name].manifest) == f.hash(f.printed(job.manifest)))
            && (ReadSelected(f, disk').Some? ==> Inspect(f, disk') == Some(job.manifest))
            && (name !in disk.generations ==> Inspect(f, disk') == Some(job.manifest))
  {
    hide FirstUsable, Usable, Candidate;
    ObjectionIff(f, job);
    PublishedFacts(f, disk, job);
    IntactParses(f, job.manifest);
    hide Intact, Objection, GenerationValid, GraphIntact;
  }

  /** A newly placed generation is valid, as later publications and readers check it, exactly
      when its lexical file has the recorded digest and its vectors pass; staging checks
      neither. */
  lemma FreshGenerationValidIff(f: Format, job: Job)
    requires Faithful(f) && Objection(f, job).None?
    ensures var m := job.manifest;
            Intact(f, Generation(f.printed(m), job.files), m) <==> DigestsHold(f, job)
  {
    GenerationValidIff(f, Generation(f.printed(job.manifest), job.files), job.manifest);
    hide GraphFileValid, Intact;
  }

  predicate DigestsHold(f: Format, job: Job) {
    var m := job.manifest;
    && (m.lexicalChecksum.Some? ==>
          LexicalJson in job.files && f.hash(job.files[LexicalJson]) == m.lexicalChecksum.value)
    && (m.vectorChecksum.Some? ==>
          && VectorsBin in job.files
          && f.vectorsOk(job.files[VectorsBin], m.vectorChecksum.value, m.corpusDigest, m.chunkCount))
  }

  /** Publishing a valid generation again finds it and changes nothing more. */
  lemma RepublishFindsIt(f: Format, disk: Disk, job: Job)
    requires Published(f, disk, job).Ok?
    requires var (disk', name) := Published(f, disk, job).value;
             Intact(f, disk'.generations[name], job.manifest)
    ensures var (disk', name) := Published(f, disk, job).value; Published(f, disk', job) == Ok((disk', name))
  {
    hide GenerationValid, Objection, Candidate, Intact;
    var m := job.manifest;
    GenerationValidIff(f, Published(f, disk, job).value.0.generations[Published(f, disk, job).value.1], m);
    FirstUsableIsFirst(f, disk.generations, m, 0, 0);
    var i := FirstUsable(f, disk.generations, m, 0).value;
    var disk' := Published(f, disk, job).value.0;
    FirstUsableIsFirst(f, disk.generations, m, 0, i);
    forall j | 0 <= j < i ensures !Usable(f, disk'.generations, m, j) {
      assert !Usable(f, disk.generations, m, j);
    }
    FirstUsableIsFirst(f, disk'.generations, m, 0, i);
  }
}
